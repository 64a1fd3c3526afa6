/** The record builders: `get_test_info` for detected test elements, and the two routines
    that turn an arbitrary element into a test record when nothing looks like a test:
    the per-element body of `infer_tests_from_repeated_siblings` and `node_to_test` of
    `infer_tests_more_aggressive`. */
module Records {
  import opened Wrappers
  import opened Strings
  import opened Markup
  import opened Outcome
  import opened Lists

  /** One row of the report. */
  datatype TestRecord = TestRecord(
    testcase: string, classname: string, time: string, status: Status, message: string, details: string)

  const InfoNameAttrs := ["name", "testName", "testname", "method", "id"]
  const ClassAttrs := ["classname", "class", "className"]
  const TimeAttrs := ["time", "duration"]

  /** The stripped text of the first `<name>` element below `n`, or "" when there is none. */
  function NameElementText(n: Node): (r: string)
    ensures IsTrimmed(r)
  {
    match FindFirst(n, "name")
    case None => ""
    case Some(t) => Trim(TextOf(t))
  }

  /** `get_test_info`: the first non-empty naming attribute, else the text of a `<name>`
      element; class name and time from their attributes; the outcome from
      `get_status_and_message`. Every field is stripped. */
  function GetTestInfo(n: Node): (r: TestRecord)
    ensures forall k :: IsFirstNonEmpty(n.attrs, InfoNameAttrs, k) ==> r.testcase == Trim(n.attrs[InfoNameAttrs[k]])
    ensures FirstNonEmpty(n.attrs, InfoNameAttrs) == "" ==> r.testcase == NameElementText(n)
    ensures r.classname == Trim(FirstNonEmpty(n.attrs, ClassAttrs))
    ensures r.time == Trim(FirstNonEmpty(n.attrs, TimeAttrs))
    ensures var v := GetStatusAndMessage(n);
            r.status == v.status && r.message == v.message && r.details == v.details
    ensures IsTrimmed(r.testcase) && IsTrimmed(r.classname) && IsTrimmed(r.time)
  {
    var name := FirstNonEmpty(n.attrs, InfoNameAttrs);
    var v := GetStatusAndMessage(n);
    TrimTrimmed(v.message);
    TrimTrimmed(v.details);
    var testcase := if name != "" then name else NameElementText(n);
    TrimTrimmed(NameElementText(n));
    TestRecord(Trim(testcase), Trim(FirstNonEmpty(n.attrs, ClassAttrs)),
               Trim(FirstNonEmpty(n.attrs, TimeAttrs)), v.status, Trim(v.message), Trim(v.details))
  }

  // Inferred records.

  /** The name sources tried for an inferred record, in order. */
  const InferredNameKeys := ["name", "id", "title", "testName", "testname"]

  /** Stripped text of the first element below `n` with tag `key`, "" when there is none
      or it is blank. */
  function ElementText(n: Node, key: string): string {
    match FindFirst(n, key)
    case None => ""
    case Some(t) => Trim(TextOf(t))
  }

  /** The name loop of the sibling inference: for each key, the text of a descendant element
      with that tag if it is not blank, else the attribute if present, which ends the loop
      even when its stripped value is empty. */
  function SiblingNameFrom(c: Node, i: nat): (r: string)
    requires i <= |InferredNameKeys|
    ensures IsTrimmed(r)
    decreases |InferredNameKeys| - i
  {
    if i == |InferredNameKeys| then ""
    else
      var key := InferredNameKeys[i];
      if ElementText(c, key) != "" then ElementText(c, key)
      else if key in c.attrs then Trim(c.attrs[key])
      else SiblingNameFrom(c, i + 1)
  }

  /** The name loop of `node_to_test`: for each key, the attribute if its stripped value is
      not empty, else the text of a descendant element with that tag if it is not blank. */
  function AggressiveNameFrom(n: Node, i: nat): (r: string)
    requires i <= |InferredNameKeys|
    ensures IsTrimmed(r)
    decreases |InferredNameKeys| - i
  {
    if i == |InferredNameKeys| then ""
    else
      var key := InferredNameKeys[i];
      if key in n.attrs && Trim(n.attrs[key]) != "" then Trim(n.attrs[key])
      else if ElementText(n, key) != "" then ElementText(n, key)
      else AggressiveNameFrom(n, i + 1)
  }

  /** `name or node.get("name") or node.get("id") or f"{node.name}-{idx+1}"`. */
  function NameOrFallback(name: string, n: Node, idx: nat): (r: string)
    ensures r != ""
    ensures name != "" ==> r == name
    ensures name == "" && FirstNonEmpty(n.attrs, ["name", "id"]) != "" ==> r == FirstNonEmpty(n.attrs, ["name", "id"])
    ensures name == "" && FirstNonEmpty(n.attrs, ["name", "id"]) == "" ==> r == n.tag + "-" + NatToString(idx + 1)
  {
    Or(Or(name, FirstNonEmpty(n.attrs, ["name", "id"])), n.tag + "-" + NatToString(idx + 1))
  }

  /** The stripped texts of the child elements, blank ones left out. */
  function ChildTexts(kids: seq<Node>): (r: seq<string>)
    ensures forall k :: 0 <= k < |r| ==> r[k] != "" && IsTrimmed(r[k])
    ensures |r| <= |kids|
  {
    if kids == [] then []
    else
      var rest := ChildTexts(kids[..|kids| - 1]);
      var t := Trim(TextOf(kids[|kids| - 1]));
      if t != "" then rest + [t] else rest
  }

  /** The joined child texts, or the element's own stripped text when they are all blank. */
  function CombinedText(n: Node): (r: string)
    ensures IsTrimmed(r)
  {
    var parts := ChildTexts(ElementChildren(n));
    JoinTrimmed(" ", parts);
    var joined := Join(" ", parts);
    if joined != "" then joined else Trim(TextOf(n))
  }

  const FailValues := ["fail", "failed", "error"]
  const SiblingFailTokens := ["error", "failed", "exception", "traceback", "assertion"]
  const AggressiveFailTokens := ["error", "failed", "exception", "traceback", "assertion", "fault"]

  /** Some status attribute of `n` says fail, failed or error (stripped, lowercased). */
  predicate AttrSaysFail(n: Node) {
    exists k :: 0 <= k < |StatusAttrs| && StatusAttrs[k] in n.attrs
                && Lower(Trim(n.attrs[StatusAttrs[k]])) in FailValues
  }

  /** The record both inferences build from a name, an element and its combined text. */
  function InferredRecord(name: string, n: Node, time: string, failed: bool, text: string): (r: TestRecord)
    ensures r.testcase == name && r.classname == n.tag && r.time == time && r.details == text
    ensures r.status == (if failed then FAIL else PASS)
    ensures r.message == text[..if |text| <= 300 then |text| else 300]
  {
    TestRecord(name, n.tag, time, if failed then FAIL else PASS, Take(text, 300), text)
  }

  /** The record the sibling inference builds for child `c` at position `idx`. */
  function SiblingRecord(c: Node, idx: nat): (r: TestRecord)
    ensures r.classname == c.tag && r.time == "" && r.testcase != ""
    ensures SiblingNameFrom(c, 0) != "" ==> r.testcase == SiblingNameFrom(c, 0)
    ensures r.details == CombinedText(c)
            && r.message == r.details[..if |r.details| <= 300 then |r.details| else 300]
    ensures r.status == FAIL <==> AttrSaysFail(c) || ContainsAny(Lower(CombinedText(c)), SiblingFailTokens)
    ensures r.status != SKIPPED
  {
    var text := CombinedText(c);
    InferredRecord(NameOrFallback(SiblingNameFrom(c, 0), c, idx), c, "",
                   AttrSaysFail(c) || ContainsAny(Lower(text), SiblingFailTokens), text)
  }

  /** `node_to_test(node, idx)`. */
  function NodeToTest(n: Node, idx: nat): (r: TestRecord)
    ensures r.classname == n.tag && r.testcase != ""
    ensures AggressiveNameFrom(n, 0) != "" ==> r.testcase == AggressiveNameFrom(n, 0)
    ensures r.time == FirstNonEmpty(n.attrs, TimeAttrs)
    ensures r.details == CombinedText(n)
            && r.message == r.details[..if |r.details| <= 300 then |r.details| else 300]
    ensures r.status == FAIL <==> AttrSaysFail(n) || ContainsAny(Lower(CombinedText(n)), AggressiveFailTokens)
    ensures r.status != SKIPPED
  {
    var text := CombinedText(n);
    TrimTrimmed(text);
    InferredRecord(NameOrFallback(AggressiveNameFrom(n, 0), n, idx), n, FirstNonEmpty(n.attrs, TimeAttrs),
                   AttrSaysFail(n) || ContainsAny(Lower(text), AggressiveFailTokens), Trim(text))
  }

  /** With no name found, the fallback name records the one-based position. */
  lemma FallbackName(n: Node, idx: nat)
    requires AggressiveNameFrom(n, 0) == "" && FirstNonEmpty(n.attrs, ["name", "id"]) == ""
    ensures NodeToTest(n, idx).testcase == n.tag + "-" + NatToString(idx + 1)
  {
  }

  /** With no name found, the sibling record is named by its one-based position. */
  lemma SiblingFallbackName(c: Node, idx: nat)
    requires SiblingNameFrom(c, 0) == "" && FirstNonEmpty(c.attrs, ["name", "id"]) == ""
    ensures SiblingRecord(c, idx).testcase == c.tag + "-" + NatToString(idx + 1)
  {
  }

  /** The aggressive inference flags everything the sibling inference flags: its token list
      extends the other, over the same combined text. */
  lemma AggressiveFlagsSiblingFailures(c: Node, i: nat, j: nat)
    requires SiblingRecord(c, i).status == FAIL
    ensures NodeToTest(c, j).status == FAIL
  {
    if !AttrSaysFail(c) {
      var text := Lower(CombinedText(c));
      var k :| 0 <= k < |SiblingFailTokens| && Contains(text, SiblingFailTokens[k]);
      assert SiblingFailTokens[k] == AggressiveFailTokens[k];
    }
  }

  /** The two name loops agree when the element names itself through a non-blank attribute
      and has no descendant element named after an earlier key. */
  lemma NameLoopsAgreeOnAttribute(n: Node, i: nat)
    requires i < |InferredNameKeys|
    requires forall j :: 0 <= j < i ==> InferredNameKeys[j] !in n.attrs && ElementText(n, InferredNameKeys[j]) == ""
    requires InferredNameKeys[i] in n.attrs && Trim(n.attrs[InferredNameKeys[i]]) != ""
    requires ElementText(n, InferredNameKeys[i]) == ""
    ensures SiblingNameFrom(n, 0) == AggressiveNameFrom(n, 0) == Trim(n.attrs[InferredNameKeys[i]])
  {
    NameLoopsFrom(n, 0, i);
  }

  lemma {:induction false} NameLoopsFrom(n: Node, j: nat, i: nat)
    requires j <= i < |InferredNameKeys|
    requires forall u :: j <= u < i ==> InferredNameKeys[u] !in n.attrs && ElementText(n, InferredNameKeys[u]) == ""
    requires InferredNameKeys[i] in n.attrs && Trim(n.attrs[InferredNameKeys[i]]) != ""
    requires ElementText(n, InferredNameKeys[i]) == ""
    ensures SiblingNameFrom(n, j) == AggressiveNameFrom(n, j) == Trim(n.attrs[InferredNameKeys[i]])
    decreases i - j
  {
    var key := InferredNameKeys[j];
    if j < i {
      assert key !in n.attrs && ElementText(n, key) == "";
      NameLoopsFrom(n, j + 1, i);
      assert SiblingNameFrom(n, j) == SiblingNameFrom(n, j + 1);
      assert AggressiveNameFrom(n, j) == AggressiveNameFrom(n, j + 1);
    } else {
      assert SiblingNameFrom(n, j) == Trim(n.attrs[key]);
      assert AggressiveNameFrom(n, j) == Trim(n.attrs[key]);
    }
  }

  /** The two name loops can disagree: an empty `id` attribute stops the sibling loop with
      an empty name, so the fallback names the element by position, while `node_to_test`
      goes on to a later key; `<step id=""><title>hello</title></step>` is one such
      element. */
  lemma NameLoopsDiffer(n: Node, i: nat, j: nat)
    requires "name" !in n.attrs && ElementText(n, "name") == ""
    requires "id" in n.attrs && n.attrs["id"] == "" && ElementText(n, "id") == ""
    requires "title" !in n.attrs && ElementText(n, "title") != ""
    ensures SiblingRecord(n, i).testcase == n.tag + "-" + NatToString(i + 1)
    ensures NodeToTest(n, j).testcase == ElementText(n, "title")
  {
    SiblingLoopStopsAtEmptyId(n);
    AggressiveLoopPassesEmptyId(n);
    assert FirstNonEmpty(n.attrs, ["name", "id"]) == "" by {
      assert !IsFirstNonEmpty(n.attrs, ["name", "id"], 0);
      assert !IsFirstNonEmpty(n.attrs, ["name", "id"], 1);
    }
  }

  /** The sibling loop ends at an `id` attribute even when it is empty. */
  lemma SiblingLoopStopsAtEmptyId(n: Node)
    requires "name" !in n.attrs && ElementText(n, "name") == ""
    requires "id" in n.attrs && n.attrs["id"] == "" && ElementText(n, "id") == ""
    ensures SiblingNameFrom(n, 0) == ""
  {
    TrimTrimmed("");
    assert SiblingNameFrom(n, 1) == "";
  }

  /** The loop of `node_to_test` passes over an empty `id` attribute and reaches `title`. */
  lemma AggressiveLoopPassesEmptyId(n: Node)
    requires "name" !in n.attrs && ElementText(n, "name") == ""
    requires "id" in n.attrs && n.attrs["id"] == "" && ElementText(n, "id") == ""
    requires "title" !in n.attrs && ElementText(n, "title") != ""
    ensures AggressiveNameFrom(n, 0) == ElementText(n, "title")
  {
    TrimTrimmed("");
    assert AggressiveNameFrom(n, 2) == ElementText(n, "title");
    assert AggressiveNameFrom(n, 1) == ElementText(n, "title");
  }
}
