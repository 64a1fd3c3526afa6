# Smart Test Report Analyser: the extraction engine, in Dafny

This project models the heuristic core of `analyzer.py`. That core turns a parsed test
report of unknown shape into a list of test records, each with a name, class name, time,
status, message and details. It also sorts failure messages into categories. The model
starts from the document tree that BeautifulSoup would build. It then follows the
analyzer's own steps:

- the **categoriser** `categorize_message`: an ordered rule table, first match wins;
- the **classifier** `is_test_tag`, and `find_test_nodes`, which collects `testcase`
  elements, then elements that pass the attribute tests, and drops repeats;
- the **outcome extractor** `get_status_and_message`, with `extract_text`: a cascade of
  six rules, tried in a fixed order;
- the **record builders** `get_test_info`, `infer_tests_from_repeated_siblings` and
  `infer_tests_more_aggressive` (with its `node_to_test`);
- the **tier cascade** of `parse_xml_report`, which returns the first tier that yields
  any record.

Modules, one file each:

| file | module | contents |
|---|---|---|
| `wrappers.dfy` | `Wrappers` | `Option` |
| `strings.dfy` | `Strings` | Python's `strip`, `lower` (ASCII), `in`, `splitlines()[0]`, `join`, slicing, `or`, decimal formatting |
| `lists.dfy` | `Lists` | order-preserving selection, first-match scans, duplicate removal, the list-building loops as generic methods |
| `markup.dfy` | `Markup` | the element tree; `.text`, `find_all`, `find`, `find_all(recursive=False)`, attribute lookups |
| `categorize.dfy` | `Categorize` | `categorize_message` over an abstract regular-expression search |
| `classifier.dfy` | `Classifier` | `is_test_tag`, `find_test_nodes` |
| `outcome.dfy` | `Outcome` | `extract_text`, `get_status_and_message` |
| `records.dfy` | `Records` | `get_test_info`, the per-element record of the sibling inference, `node_to_test` |
| `inference.dfy` | `Inference` | `infer_tests_from_repeated_siblings`, `infer_tests_more_aggressive` |
| `report.dfy` | `Report` | the cascade of `parse_xml_report` |

How the model is built:

- **Elements.** An element is a `Node`: a tag, an attribute map, and content in document
  order. Content is a sequence of text runs and child elements. The document is itself a
  `Node`, tagged `[document]` as in BeautifulSoup.
- **Element identity.** Python's `id(c)` tells elements apart in `find_test_nodes`. The
  model uses the element's position in the document-order list of all elements instead.
- **Functions and methods.** The scans that return early are functions. The loops that
  build lists are methods with loops: `find_test_nodes`, both inferences and the cascade.
  Each such method is proved equal to a specification function, and the promises are
  lemmas about that function.

The model keeps these details of analyzer.py:

- The skip vocabulary is exactly `skipped` and `ignored` (analyzer.py:76).
- The fail vocabulary includes `failed_with_error` (analyzer.py:70).
- The free-text rule looks for `traceback`, `assertionerror` and `error:`
  (analyzer.py:99). Its details are the lowercased text.
- The aggressive inference first tries repeated children. It has its own name loop (the
  attribute before the descendant element), an extra `fault` token, and times taken from
  attributes; its record building is separate from the sibling inference's
  (analyzer.py:224-256). Its cap is exactly 100 (analyzer.py:291).
- Stage 1 of the aggressive inference passes a counter that has already been
  incremented. So its fallback names start at `-2` (analyzer.py:266-267, 236). This is
  modelled as written. `Report.AggressiveTierShape` proves that the cascade never reaches
  that stage: tier 3 already answers whenever the first element has two or more
  children.

## Model

| member | source | states |
|---|---|---|
| Strings.Trim | analyzer.py:59-60 | `strip()`: the result is a contiguous slice of the input with only whitespace around it, and it neither starts nor ends with whitespace |
| Strings.Contains | analyzer.py:99 | Python's `needle in text`: true exactly when the needle occurs at some offset |
| Strings.FirstLine | analyzer.py:100 | `splitlines()[0]`: the longest prefix without a line boundary; a boundary follows it unless it is the whole string |
| Strings.Take | analyzer.py:201 | `s[:n]`: a prefix of length `n`, or the whole string when it is shorter |
| Strings.JoinTrimmed | analyzer.py:237-238 | joining non-empty stripped parts gives a stripped string, so the second `strip()` of `node_to_test` changes nothing |
| Strings.NatToString | analyzer.py:184 | `f"{n}"`: a non-empty string of decimal digits that spells `n`, with no leading zero unless it is `0` |
| Strings.Lower | analyzer.py:47 | `lower()` maps each ASCII capital to its small letter and leaves every other character alone |
| Strings.LowerFolds | analyzer.py:28 | lowercasing keeps the length, leaves no capital letter, changes only capitals, and is idempotent |
| Strings.Join | analyzer.py:237-238 | `sep.join(parts)`: the parts in order with `sep` between each pair, "" for no parts |
| Strings.Or | analyzer.py:135 | Python's `a or b` on strings: `a` when it is non-empty, otherwise `b`; empty exactly when both are |
| Lists.Positions | analyzer.py:113-123 | the positions satisfying a test, strictly increasing, each satisfying it, none missed |
| Lists.CollectPositions | analyzer.py:113-123 | the scan "append the position of every element that passes the test" builds exactly the passing positions, in document order |
| Lists.FirstWhere | analyzer.py:79-81 | a scan that stops at its first hit returns the first satisfying position, or none when no element satisfies |
| Lists.Dedup | analyzer.py:124-131 | removing repeats keeps exactly the elements of the input, each once |
| Lists.DedupConcat | analyzer.py:124-131 | deduplicating a repeat-free list followed by another keeps the first whole and only the new elements of the second |
| Lists.WithoutPositions | analyzer.py:111-123 | dropping the positions already listed for one test from those of another leaves the positions of "second and not first" |
| Lists.SelectMapAt | analyzer.py:171-173 | the loop "for each element that passes the test, append `f(element, position)`" builds exactly the specification list |
| Lists.SelectMapCounted | analyzer.py:263-267 | the same loop with a counter incremented before each call builds the records numbered 1, 2, ... |
| Lists.MapEnumerate | analyzer.py:273-274 | `for i, x in enumerate(s): append(f(x, i))` builds `f` over the list with positions |
| Lists.MapPositions | analyzer.py:310-311 | one `f` result per listed position, in the listed order |
| Markup.TextOf | analyzer.py:60 | `.text`: all text runs below the element, in document order |
| Markup.ChildTextInText | analyzer.py:185-187 | the text of a direct child occurs inside its parent's text |
| Markup.ElementChildren | analyzer.py:161 | `find_all(recursive=False)`: the direct child elements, in document order |
| Markup.Descendants | analyzer.py:113 | `find_all()`: every element below, in document order |
| Markup.DescendantsPreorder | analyzer.py:289 | the elements below are listed in preorder: each child, then everything below it, then the next child |
| Markup.FindFirst | analyzer.py:87 | `find(name)`: the first element in document order with that tag, or none exactly when no element below has it |
| Markup.FirstElement | analyzer.py:158 | `soup.find()`: the first element of the document, present exactly when the document has an element |
| Markup.FirstPresent | analyzer.py:57-59 | the value of the first listed attribute that is present, whatever that value is; none when none is present |
| Markup.FirstNonEmpty | analyzer.py:135 | `get(a) or get(b) or ... or ""`: the first non-empty listed attribute value, and "" exactly when there is none |
| Categorize.ScanPatterns | analyzer.py:30-35 | some pattern of the rule, lowercased, is found; a pattern the engine rejects is skipped |
| Categorize.FirstMatchingRule | analyzer.py:29-33 | the first rule in table order that matches, or none when no rule does |
| Categorize.CategorizeMessage | analyzer.py:17-36 | with the built-in rule table, the result is one of the seven table labels or "Other" |
| Categorize.CategorizeWith | analyzer.py:27-36 | the result is always a rule label or "Other" |
| Categorize.FirstRuleWins | analyzer.py:29-33 | the first matching rule gives the label, whatever later rules say |
| Categorize.OtherIffNoMatch | analyzer.py:36 | "Other" is returned exactly when no rule matches, for any table in which no rule is itself labelled "Other" |
| Categorize.DefaultLabels | analyzer.py:17-25 | the built-in labels are distinct, and none of them is "Other" |
| Categorize.BadPatternSkipped | analyzer.py:31-35 | deleting a pattern that the engine rejects does not change any result |
| Categorize.SameMatchesSameCategory | analyzer.py:29-36 | two tables with the same labels and the same matching rules give the same label |
| Categorize.TimeoutRuleFirst | analyzer.py:18 | a message in which `timeouterror` is found is a Timeout, whatever else it contains |
| Classifier.HintsContainTest | analyzer.py:39-41 | every tag hint contains "test" |
| Classifier.LongerTokensAddNothing | analyzer.py:50 | a name matches one of the five alternatives of the pattern exactly when it contains test, case or result |
| Classifier.IsTestTag | analyzer.py:44-52 | `is_test_tag` is false for "", and otherwise true exactly when the lowercased name contains test, case or result |
| Classifier.IsAttrCandidate | analyzer.py:113-123 | an element passes the attribute tests exactly when it has a non-empty naming attribute and a tag containing test, case or result; or has both `outcome` and `testname`; or has `result` with `name` or `testname` |
| Classifier.CandidatePositions | analyzer.py:105-132 | every listed position is an element of the document |
| Classifier.FindTestNodes | analyzer.py:105-132 | returns the `testcase` elements in document order, then the other elements that pass an attribute test, in document order |
| Classifier.DropRepeated | analyzer.py:124-131 | the `seen`-set loop keeps the first occurrence of each candidate and drops the rest |
| Classifier.CandidatesDedup | analyzer.py:109-131 | deduplication drops only the `testcase` elements that the attribute scan finds again |
| Classifier.CandidatesDistinct | analyzer.py:128 | no element is listed twice |
| Classifier.CandidateMembership | analyzer.py:111-123 | an element is listed exactly when it is a `testcase` or passes one of the attribute tests; equal names at different places are all kept |
| Classifier.TestcasesFirst | analyzer.py:111 | the `testcase` elements come first, and no later entry is a `testcase` |
| Outcome.StatusWord | analyzer.py:68-77 | a status value, stripped and lowercased, is recognised as a fail, pass or skip word |
| Outcome.StatusWordNames | analyzer.py:68-77 | the status is FAIL, PASS or SKIPPED exactly when the normalised value is in that vocabulary, and none exactly when it is in no vocabulary |
| Outcome.ExtractText | analyzer.py:54-60 | the stripped value of the first present message attribute; the stripped text only when there is none |
| Outcome.DeclaredStatus | analyzer.py:67-77 | the first of result/outcome/status whose value is recognised names the status; none exactly when none is recognised |
| Outcome.FailureChild | analyzer.py:79-81 | the first direct child with a failure tag (compared lowercased), in document order; none exactly when there is none |
| Outcome.FailureDescendant | analyzer.py:86-88 | an element below with a failure tag; none exactly when no element below has one |
| Outcome.EvidenceVerdict | analyzer.py:78-103 | with no status attribute: FAIL exactly when there is failure evidence, otherwise PASS with empty message and details |
| Outcome.GetStatusAndMessage | analyzer.py:62-103 | SKIPPED only from a status attribute; FAIL exactly from a failing status or, with no status, from failure evidence; only FAIL carries text; all text is stripped |
| Outcome.DeclaredFailureDecides | analyzer.py:70-73 | a failing status value gives FAIL with the extracted text and the stripped full text, whatever children the element has |
| Outcome.DeclaredPassOrSkipDecides | analyzer.py:74-77 | a passing or skipping value decides with empty message and details, even when a failure child exists |
| Outcome.FailureChildDecides | analyzer.py:79-84 | rule 2 takes the first failure child's text, falling back to the element's own |
| Outcome.FailureDescendantDecides | analyzer.py:86-91 | rule 3 takes the first failure tag in vocabulary order that occurs, at its first occurrence |
| Outcome.MessageAttrDecides | analyzer.py:93-96 | rule 4: the first present message/reason/failure attribute gives FAIL with its stripped value |
| Outcome.ErrorTextDecides | analyzer.py:98-101 | rule 5: error-looking text gives FAIL with its first line and the whole lowercased text |
| Outcome.NotBlank | analyzer.py:100 | text that holds an error token is not blank, so rule 5 always takes the first line |
| Outcome.DefaultPass | analyzer.py:103 | with no evidence at all, the result is PASS with empty message and details |
| Outcome.UnrecognisedStatusFallsThrough | analyzer.py:67-78 | an unrecognised status value counts the same as having no status attribute at all |
| Records.NameElementText | analyzer.py:139-142 | the text of a `<name>` element is stripped |
| Records.GetTestInfo | analyzer.py:134-150 | name from the first non-empty naming attribute, else from the `<name>` element; class and time from their attributes; the outcome from `get_status_and_message`; all stripped |
| Records.SiblingNameFrom | analyzer.py:175-182 | the loop's name is stripped |
| Records.AggressiveNameFrom | analyzer.py:226-234 | the loop's name is stripped |
| Records.NameOrFallback | analyzer.py:183-184 | a found name is kept; otherwise the first non-empty `name` or `id` attribute; otherwise `<tag>-<idx+1>`; never empty |
| Records.ChildTexts | analyzer.py:185 | the kept child texts are non-empty and stripped, at most one per child |
| Records.CombinedText | analyzer.py:185-187 | the combined text is stripped |
| Records.InferredRecord | analyzer.py:196-203 | class name is the tag; the message is exactly the first 300 characters of the details (`[:300]`), or all of them when there are fewer |
| Records.AttrSaysFail | analyzer.py:190-193 | some status attribute is present whose stripped, lowercased value is `fail`, `failed` or `error` |
| Records.SiblingRecord | analyzer.py:171-203 | a non-empty name, class name the tag, empty time; details the combined text and message exactly its first 300 characters; FAIL exactly when a status attribute says fail or the text holds a failure token |
| Records.SiblingFallbackName | analyzer.py:183-184 | with no name found by the loop and no non-empty `name` or `id` attribute, the sibling record's name is `<tag>-<idx+1>` |
| Records.NodeToTest | analyzer.py:224-256 | the same shape with its own name loop, time from attributes, and `fault` among the tokens; details the combined text and message exactly its first 300 characters |
| Records.FallbackName | analyzer.py:235-236 | with no name found, the name is `<tag>-<idx+1>` |
| Records.AggressiveFlagsSiblingFailures | analyzer.py:185-248 | whatever the sibling inference marks FAIL, `node_to_test` marks FAIL too: its tokens (line 247) extend the sibling tokens (line 194), over the same combined text |
| Records.NameLoopsAgreeOnAttribute | analyzer.py:175-236 | both name loops pick the same non-blank attribute when nothing earlier names the element |
| Records.NameLoopsDiffer | analyzer.py:175-236 | an empty earlier attribute stops the sibling loop (giving a positional name), while `node_to_test` finds a later name |
| Records.SiblingLoopStopsAtEmptyId | analyzer.py:175-182 | with no `name` element or attribute, an empty `id` attribute ends the sibling name loop with an empty name |
| Records.AggressiveLoopPassesEmptyId | analyzer.py:225-233 | the `node_to_test` loop skips an empty `id` attribute and takes the text of a `title` element |
| Inference.Occurrences | analyzer.py:165 | the tag count is at most the number of children, and positive exactly when the tag occurs |
| Inference.CountTags | analyzer.py:165 | the `Counter` loop leaves every tag's count equal to its number of occurrences among the children (0 for an absent tag) |
| Inference.CountsStep | analyzer.py:165 | counting one more child adds one to the count of its tag and changes no other count |
| Inference.CountedTwice | analyzer.py:166 | once all children are counted, a tag is counted at least twice exactly when it occurs at least twice |
| Inference.RepeatedTags | analyzer.py:165-166 | the set built from the `Counter` holds exactly the tags that occur at least twice |
| Inference.HasRepeatIff | analyzer.py:166-167 | the repeated set is non-empty exactly when some tag repeats |
| Inference.SiblingRecords | analyzer.py:152-204 | the sibling inference as a function: one record per picked child of the first element, in child order |
| Inference.InferTestsFromRepeatedSiblings | analyzer.py:152-204 | returns exactly `SiblingRecords(doc)` |
| Inference.CollectSiblingRecords | analyzer.py:171-203 | the loop over children builds one sibling record per picked child, numbered by position |
| Inference.SiblingRecordsEmpty | analyzer.py:158-170 | empty exactly when there is no element, or the first element has fewer than two children |
| Inference.SiblingRecordsShape | analyzer.py:171-203 | the k-th record is the sibling record of the k-th picked child at its position; positions strictly increase and every picked child gets a record; class name the tag, message at most 300 characters, non-empty name; never more records than children |
| Inference.SiblingsWithoutRepeat | analyzer.py:167-168 | with no repeated tag, every child becomes a record, numbered by its position |
| Inference.AggressiveRecords | analyzer.py:206-293 | the aggressive inference as a function: with no element, nothing; else the repeated children; else all children when there are two or more; else the grandchildren; else the first 100 elements; each element through `node_to_test`, numbered |
| Inference.InferTestsMoreAggressive | analyzer.py:206-293 | returns exactly `AggressiveRecords(doc)` |
| Inference.CollectRepeated | analyzer.py:262-267 | stage 1's loop numbers the repeated children 1, 2, ... |
| Inference.CollectGrandchildren | analyzer.py:279-281 | the grandchildren in order |
| Inference.Capped | analyzer.py:291 | at most 100 elements, a prefix of the document order |
| Inference.RepeatedStageNonEmpty | analyzer.py:262-269 | stage 1 yields a record whenever a tag repeats |
| Inference.AggressiveEmpty | analyzer.py:215-293 | the aggressive inference is empty exactly when the document has no element |
| Inference.LastStageCapped | analyzer.py:288-292 | the last stage gives at most 100 records, one per element in document order |
| Inference.SingleChildStages | analyzer.py:258-292 | with fewer than two children, the result is the grandchildren stage or the capped stage |
| Report.DetectedRecords | analyzer.py:307-312 | tier 1: one `get_test_info` record per detected node, in the order found |
| Report.SuiteRecords | analyzer.py:314-321 | tier 2: the records of the test-like direct children of the first `testsuite`, in order |
| Report.ReportRecords | analyzer.py:306-334 | the cascade as a function: the first non-empty tier of detected nodes, suite children, siblings and the aggressive inference |
| Report.ParseXmlReport | analyzer.py:306-334 | returns the first non-empty tier: detected nodes, then testsuite children, then siblings, then the aggressive inference |
| Report.DetectedNodesDecide | analyzer.py:307-312 | when nodes are found, exactly one `get_test_info` record per found node, in the order found |
| Report.SuiteDecides | analyzer.py:314-321 | with no detected node, a test-like child of the first `testsuite` makes the report those children's records |
| Report.ReportEmptyIff | analyzer.py:306-334 | the report is empty exactly when the document has no element |
| Report.AggressiveTierShape | analyzer.py:323-331 | tier 4 is reached only with fewer than two root children; its records are the numbered grandchildren, or at most 100 elements |

## Left out

- File access (`Path.exists`, `read_text`, the `FileNotFoundError`, analyzer.py:300-303) is
  I/O. The model starts from the parsed document.
- Parsing the text into a tree with BeautifulSoup and lxml (analyzer.py:304) is a
  foreign library. The tree is an input, and these parser behaviours are not modelled:
  - lxml's lowercasing of tag and attribute names;
  - BeautifulSoup's multi-valued attributes, such as `class` as a list;
  - comments, CDATA and processing instructions.
- Categorize.CategorizeWith: the regular-expression engine is a parameter (`Search`), not
  a model of Python's `re`. So it is not proved that `\b`, `.*` or `.` match as `re`
  does. Lowercasing a pattern before the search is modelled. That lowercasing turns
  `\B` into `\b`, which the built-in table never uses.
- Strings.Lower: `str.lower()` is modelled on the ASCII letters only, with no Unicode case
  mapping.
- Outcome.FailureDescendant: rule 3 walks a Python set. Its order is not specified, so the
  model fixes the listed order of the failure tags. A different iteration order can pick
  a different failure element when several kinds occur.
- The `None` cases of `extract_text(None)` and `msg or ""` in `categorize_message` cannot
  arise in the model, because elements and messages are always values.
- `summarize_and_save`, `main` (analyzer.py:336-363), `Streamlit_app.py` and
  `visualize.py` are output, user interface and charting built on the record list.
- The run-comparison of two record lists is not part of the shown source, so it is not
  part of this model.
