/** The tier cascade of `parse_xml_report`: detected test elements, then the test-like
    children of the first `testsuite`, then the sibling inference, then the aggressive
    inference; the first tier with a record decides. */
module Report {
  import opened Wrappers
  import opened Lists
  import opened Markup
  import opened Classifier
  import opened Records
  import opened Inference

  /** `get_test_info` in the shape the list builders take; the position is unused. */
  function InfoAt(n: Node, i: nat): TestRecord {
    GetTestInfo(n)
  }

  /** Tier 1: one `get_test_info` record per element `find_test_nodes` returns, in order. */
  function DetectedRecords(doc: Node): seq<TestRecord> {
    var all := Descendants(doc);
    MapAt(all, CandidatePositions(all), InfoAt)
  }

  predicate IsSuiteTest(c: Node) {
    c.tag != "" && IsTestTag(c.tag)
  }

  /** Tier 2: the first `testsuite` element's children with a test-like tag. */
  function SuiteRecords(doc: Node): seq<TestRecord> {
    match FindFirst(doc, "testsuite")
    case None => []
    case Some(suite) =>
      var kids := ElementChildren(suite);
      MapAt(kids, Positions(kids, IsSuiteTest), InfoAt)
  }

  /** What `parse_xml_report` returns for a parsed document. */
  function ReportRecords(doc: Node): seq<TestRecord> {
    if DetectedRecords(doc) != [] then DetectedRecords(doc)
    else if SuiteRecords(doc) != [] then SuiteRecords(doc)
    else if SiblingRecords(doc) != [] then SiblingRecords(doc)
    else AggressiveRecords(doc)
  }

  /** `parse_xml_report` from the parsed document on. */
  method ParseXmlReport(doc: Node) returns (results: seq<TestRecord>)
    ensures results == ReportRecords(doc)
  {
    // 1) smart heuristic test detection
    var nodes := FindTestNodes(doc);
    var all := Descendants(doc);
    results := [];
    if nodes != [] {
      results := MapPositions(all, nodes, InfoAt);
      return;
    }
    assert DetectedRecords(doc) == [];
    // 2) testsuite children heuristic
    var suite := FindFirst(doc, "testsuite");
    if suite.Some? {
      var kids := ElementChildren(suite.value);
      results := SelectMapAt(kids, IsSuiteTest, InfoAt);
      if results != [] {
        return;
      }
    }
    assert SuiteRecords(doc) == [];
    // 3) infer from repeated siblings
    var inferred := InferTestsFromRepeatedSiblings(doc);
    if inferred != [] {
      return inferred;
    }
    // 4) aggressive fallback
    var aggressive := InferTestsMoreAggressive(doc);
    if aggressive != [] {
      return aggressive;
    }
    // 5) nothing found
    results := [];
  }

  /** When `find_test_nodes` finds anything, the report holds exactly one `get_test_info`
      record per found element, in the order found. */
  lemma DetectedNodesDecide(doc: Node)
    requires CandidatePositions(Descendants(doc)) != []
    ensures var all := Descendants(doc);
            var pos := CandidatePositions(all);
            var r := ReportRecords(doc);
            |r| == |pos| && forall k :: 0 <= k < |pos| ==> r[k] == GetTestInfo(all[pos[k]])
  {
  }

  /** With no detected elements, a test-like child of the first `testsuite` makes the report
      those children's records. */
  lemma SuiteDecides(doc: Node, suite: Node, i: nat)
    requires CandidatePositions(Descendants(doc)) == []
    requires FindFirst(doc, "testsuite") == Some(suite)
    requires i < |ElementChildren(suite)| && IsSuiteTest(ElementChildren(suite)[i])
    ensures var kids := ElementChildren(suite);
            ReportRecords(doc) == MapAt(kids, Positions(kids, IsSuiteTest), InfoAt)
  {
    var kids := ElementChildren(suite);
    assert IsSuiteTest(kids[i]);
  }

  /** The report is empty exactly when the document has no element at all. */
  lemma ReportEmptyIff(doc: Node)
    ensures ReportRecords(doc) == [] <==> Descendants(doc) == []
  {
    AggressiveEmpty(doc);
    if Descendants(doc) == [] {
      assert DetectedRecords(doc) == [];
      assert FindFirst(doc, "testsuite") == None;
      assert SuiteRecords(doc) == [];
      assert RootChildren(doc) == [];
      assert SiblingRecords(doc) == [];
    } else {
      assert AggressiveRecords(doc) != [];
    }
  }

  /** The aggressive tier is reached only when the first element has fewer than two child
      elements, so its first two stages never apply there (and with them the numbering of
      stage 1 from 2): the report is the numbered grandchildren, or at most a hundred
      elements numbered in document order. */
  lemma AggressiveTierShape(doc: Node)
    requires DetectedRecords(doc) == [] && SuiteRecords(doc) == [] && SiblingRecords(doc) == []
    requires Descendants(doc) != []
    ensures var kids := RootChildren(doc);
            |kids| < 2
            && (Grandchildren(kids) != [] ==> ReportRecords(doc) == Numbered(Grandchildren(kids)))
            && (Grandchildren(kids) == [] ==> ReportRecords(doc) == Numbered(Capped(Descendants(doc)))
                                               && |ReportRecords(doc)| <= AggressiveCap)
  {
    SiblingRecordsEmpty(doc);
    SingleChildStages(doc);
  }
}
