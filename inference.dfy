/** The structural fallbacks: `infer_tests_from_repeated_siblings`, which treats the
    repeated child tags of the first element as tests, and `infer_tests_more_aggressive`,
    which widens step by step from repeated children to all children, then grandchildren,
    then the first hundred elements of the document. Each is a method with the source's
    loops, proved equal to a specification function about which the promised properties
    are lemmas. */
module Inference {
  import opened Strings
  import opened Lists
  import opened Markup
  import opened Outcome
  import opened Records

  /** How many of `kids` have tag `t` (`Counter(...)[t]`). */
  function Occurrences(kids: seq<Node>, t: string): (r: nat)
    ensures r <= |kids|
    ensures r > 0 <==> exists i :: 0 <= i < |kids| && kids[i].tag == t
  {
    if kids == [] then 0
    else Occurrences(kids[..|kids| - 1], t) + (if kids[|kids| - 1].tag == t then 1 else 0)
  }

  lemma OccurrencesSnoc(kids: seq<Node>, i: nat, t: string)
    requires i < |kids|
    ensures Occurrences(kids[..i + 1], t) == Occurrences(kids[..i], t) + (if kids[i].tag == t then 1 else 0)
  {
    assert kids[..i + 1][..i] == kids[..i];
  }

  /** Some tag occurs at least twice among `kids`. */
  predicate HasRepeat(kids: seq<Node>) {
    exists i :: 0 <= i < |kids| && Occurrences(kids, kids[i].tag) >= 2
  }

  /** The children the sibling inference turns into records: those with a repeated tag, or,
      when no tag repeats, every child provided there are at least two. */
  predicate SiblingPicks(kids: seq<Node>, c: Node) {
    if HasRepeat(kids) then Occurrences(kids, c.tag) >= 2 else |kids| >= 2
  }

  function PickedIn(kids: seq<Node>): Node -> bool {
    (c: Node) => SiblingPicks(kids, c)
  }

  /** The child elements of the document's first element, or none without one. */
  function RootChildren(doc: Node): seq<Node> {
    match FirstElement(doc)
    case None => []
    case Some(root) => ElementChildren(root)
  }

  /** Sibling records for the children at `pos`, each numbered by its own position. */
  function SiblingRecordsAt(kids: seq<Node>, pos: seq<nat>): seq<TestRecord>
    requires forall k :: 0 <= k < |pos| ==> pos[k] < |kids|
  {
    MapAt(kids, pos, SiblingRecord)
  }

  /** What `infer_tests_from_repeated_siblings` returns. */
  function SiblingRecords(doc: Node): seq<TestRecord> {
    var kids := RootChildren(doc);
    SiblingRecordsAt(kids, Positions(kids, PickedIn(kids)))
  }

  /** `counts[t]` of a `Counter`, which is 0 for a tag never counted. */
  function CountOf(counts: map<string, nat>, t: string): nat {
    if t in counts then counts[t] else 0
  }

  /** `counts` is the `Counter` of the tags of `kids[..i]`. */
  ghost predicate CountsUpTo(kids: seq<Node>, i: nat, counts: map<string, nat>)
    requires i <= |kids|
  {
    forall t :: CountOf(counts, t) == Occurrences(kids[..i], t)
  }

  /** Counting one more child adds one to its tag's count only. */
  lemma CountsStep(kids: seq<Node>, i: nat, counts: map<string, nat>)
    requires i < |kids| && CountsUpTo(kids, i, counts)
    ensures var t := kids[i].tag;
            CountsUpTo(kids, i + 1, counts[t := CountOf(counts, t) + 1])
  {
    var t := kids[i].tag;
    var next := counts[t := CountOf(counts, t) + 1];
    forall u ensures CountOf(next, u) == Occurrences(kids[..i + 1], u) {
      OccurrencesSnoc(kids, i, u);
      if u == t {
        assert CountOf(next, u) == CountOf(counts, u) + 1;
      } else {
        assert CountOf(next, u) == CountOf(counts, u);
      }
    }
  }

  /** `Counter(c.name for c in kids)`. */
  method CountTags(kids: seq<Node>) returns (counts: map<string, nat>)
    ensures CountsUpTo(kids, |kids|, counts)
  {
    counts := map[];
    var i := 0;
    while i < |kids|
      invariant 0 <= i <= |kids|
      invariant CountsUpTo(kids, i, counts)
    {
      var t := kids[i].tag;
      CountsStep(kids, i, counts);
      counts := counts[t := CountOf(counts, t) + 1];
      i := i + 1;
    }
  }

  /** The set of child tags counted at least twice. */
  method RepeatedTags(kids: seq<Node>) returns (repeated: set<string>)
    ensures forall t :: t in repeated <==> Occurrences(kids, t) >= 2
  {
    var counts := CountTags(kids);
    repeated := set t | t in counts && counts[t] >= 2;
    CountedTwice(kids, counts);
  }

  /** Once every child is counted, the tags counted twice are the repeated ones. */
  lemma CountedTwice(kids: seq<Node>, counts: map<string, nat>)
    requires CountsUpTo(kids, |kids|, counts)
    ensures forall t :: (t in counts && counts[t] >= 2) <==> Occurrences(kids, t) >= 2
  {
    assert kids[..|kids|] == kids;
    forall t ensures (t in counts && counts[t] >= 2) <==> Occurrences(kids, t) >= 2 {
      assert CountOf(counts, t) == Occurrences(kids, t);
    }
  }

  lemma HasRepeatIff(kids: seq<Node>, repeated: set<string>)
    requires forall t :: t in repeated <==> Occurrences(kids, t) >= 2
    ensures HasRepeat(kids) <==> repeated != {}
  {
    if repeated != {} {
      var t :| t in repeated;
      var i :| 0 <= i < |kids| && kids[i].tag == t;
      assert Occurrences(kids, kids[i].tag) >= 2;
    }
  }

  /** `infer_tests_from_repeated_siblings`. */
  method InferTestsFromRepeatedSiblings(doc: Node) returns (results: seq<TestRecord>)
    ensures results == SiblingRecords(doc)
  {
    results := [];
    var root := FirstElement(doc);
    if root.None? {
      return;
    }
    var kids := ElementChildren(root.value);
    assert kids == RootChildren(doc);
    if kids == [] {
      return;
    }
    var repeated := RepeatedTags(kids);
    HasRepeatIff(kids, repeated);
    if repeated == {} {
      if |kids| < 2 {
        PositionsNone(kids, PickedIn(kids));
        return;
      }
      repeated := set i | 0 <= i < |kids| :: kids[i].tag;
    }
    assert forall i :: 0 <= i < |kids| ==> (kids[i].tag in repeated <==> SiblingPicks(kids, kids[i]));
    results := CollectSiblingRecords(kids, repeated);
  }

  /** The loop `for idx, child in enumerate(child_tags)`, skipping children whose tag is
      not in `repeated`. */
  method CollectSiblingRecords(kids: seq<Node>, repeated: set<string>) returns (results: seq<TestRecord>)
    requires forall i :: 0 <= i < |kids| ==> (kids[i].tag in repeated <==> SiblingPicks(kids, kids[i]))
    ensures results == SiblingRecordsAt(kids, Positions(kids, PickedIn(kids)))
  {
    var inRepeated := (c: Node) => c.tag in repeated;
    results := SelectMapAt(kids, inRepeated, SiblingRecord);
    PositionsAgree(kids, inRepeated, PickedIn(kids));
  }

  /** The sibling inference is empty exactly when the document has no element or its first
      element has fewer than two child elements. */
  lemma SiblingRecordsEmpty(doc: Node)
    ensures SiblingRecords(doc) == [] <==> |RootChildren(doc)| < 2
  {
    var kids := RootChildren(doc);
    var pos := Positions(kids, PickedIn(kids));
    if |kids| >= 2 {
      if HasRepeat(kids) {
        var i :| 0 <= i < |kids| && Occurrences(kids, kids[i].tag) >= 2;
        assert PickedIn(kids)(kids[i]);
      } else {
        assert PickedIn(kids)(kids[0]);
      }
      assert pos != [];
    } else {
      assert !HasRepeat(kids);
      PositionsNone(kids, PickedIn(kids));
    }
  }

  /** One record per picked child, in document order: the `k`-th record is built from the
      `k`-th picked child, numbered by that child's position; every picked child gets one,
      and there are never more records than children. */
  lemma SiblingRecordsShape(doc: Node)
    ensures var kids := RootChildren(doc);
            var pos := Positions(kids, PickedIn(kids));
            var r := SiblingRecords(doc);
            |r| == |pos| <= |kids| && Increasing(pos)
            && (forall i :: 0 <= i < |kids| && SiblingPicks(kids, kids[i]) ==> i in pos)
            && forall k :: 0 <= k < |r| ==>
                 pos[k] < |kids| && SiblingPicks(kids, kids[pos[k]])
                 && r[k] == SiblingRecord(kids[pos[k]], pos[k]) && r[k].classname == kids[pos[k]].tag
                 && |r[k].message| <= 300 && r[k].testcase != ""
  {
    var kids := RootChildren(doc);
    var pos := Positions(kids, PickedIn(kids));
    PositionsLength(kids, PickedIn(kids));
    forall i | 0 <= i < |kids| && SiblingPicks(kids, kids[i])
      ensures i in pos
    {
      assert PickedIn(kids)(kids[i]);
    }
    forall k | 0 <= k < |pos|
      ensures SiblingPicks(kids, kids[pos[k]])
    {
      assert PickedIn(kids)(kids[pos[k]]);
    }
  }

  lemma {:induction false} PositionsLength<T>(s: seq<T>, p: T -> bool)
    ensures |Positions(s, p)| <= |s|
  {
    if s != [] {
      PositionsLength(s[..|s| - 1], p);
    }
  }

  /** When no tag repeats, every child becomes a record and the fallback names are
      `<tag>-1`, `<tag>-2`, ... in order. */
  lemma SiblingsWithoutRepeat(doc: Node)
    requires !HasRepeat(RootChildren(doc)) && |RootChildren(doc)| >= 2
    ensures SiblingRecords(doc) == MapIndexed(RootChildren(doc), SiblingRecord)
  {
    var kids := RootChildren(doc);
    assert forall i :: 0 <= i < |kids| ==> PickedIn(kids)(kids[i]);
    AllPositions(kids, PickedIn(kids));
    MapAtEvery(kids, Positions(kids, PickedIn(kids)), SiblingRecord);
  }

  // The aggressive inference.

  /** Records for `nodes`, numbered by position: `node_to_test(t, i)` over `enumerate`. */
  function Numbered(nodes: seq<Node>): seq<TestRecord> {
    MapIndexed(nodes, NodeToTest)
  }

  /** Stage 1: the children with a repeated tag, numbered by a counter already incremented
      when it is passed, so the first is numbered 1 and its fallback name ends in `-2`. */
  function RepeatedStage(kids: seq<Node>): seq<TestRecord> {
    CountedRecords(kids, Positions(kids, IsRepeatedIn(kids)))
  }

  /** The records for the children at `pos`, the `k`-th numbered `k + 1`. */
  function CountedRecords(kids: seq<Node>, pos: seq<nat>): seq<TestRecord>
    requires forall k :: 0 <= k < |pos| ==> pos[k] < |kids|
  {
    MapCounted(kids, pos, NodeToTest)
  }

  function IsRepeatedIn(kids: seq<Node>): Node -> bool {
    (c: Node) => Occurrences(kids, c.tag) >= 2
  }

  /** The child elements of each of `kids`, concatenated in order. */
  function Grandchildren(kids: seq<Node>): seq<Node> {
    if kids == [] then [] else Grandchildren(kids[..|kids| - 1]) + ElementChildren(kids[|kids| - 1])
  }

  const AggressiveCap := 100

  /** The first `AggressiveCap` elements of the document. */
  function Capped(all: seq<Node>): (r: seq<Node>)
    ensures |r| <= AggressiveCap && |r| <= |all| && r == all[..|r|]
    ensures |r| == AggressiveCap || r == all
  {
    if |all| <= AggressiveCap then all else all[..AggressiveCap]
  }

  /** What `infer_tests_more_aggressive` returns. */
  function AggressiveRecords(doc: Node): seq<TestRecord> {
    match FirstElement(doc)
    case None => []
    case Some(root) =>
      var kids := ElementChildren(root);
      if HasRepeat(kids) then RepeatedStage(kids)
      else if |kids| >= 2 then Numbered(kids)
      else if Grandchildren(kids) != [] then Numbered(Grandchildren(kids))
      else Numbered(Capped(Descendants(doc)))
  }

  /** `infer_tests_more_aggressive`. */
  method InferTestsMoreAggressive(doc: Node) returns (results: seq<TestRecord>)
    ensures results == AggressiveRecords(doc)
  {
    results := [];
    var all := Descendants(doc);
    if all == [] {
      return;
    }
    var root := all[0];
    var kids := ElementChildren(root);
    // 1) repeated sibling tags
    var repeated := RepeatedTags(kids);
    HasRepeatIff(kids, repeated);
    if repeated != {} {
      results := CollectRepeated(kids, repeated);
      RepeatedStageNonEmpty(kids);
      if results != [] {
        return;
      }
    }
    // 2) all direct children of root
    if |kids| >= 2 {
      results := MapEnumerate(kids, NodeToTest);
      return;
    }
    // 3) elements at depth 2
    var grandchildren := CollectGrandchildren(kids);
    if grandchildren != [] {
      results := MapEnumerate(grandchildren, NodeToTest);
      return;
    }
    // 4) any element, at most a hundred
    var allTags := Capped(all);
    results := MapEnumerate(allTags, NodeToTest);
  }

  lemma RepeatedStageNonEmpty(kids: seq<Node>)
    requires HasRepeat(kids)
    ensures RepeatedStage(kids) != []
  {
    var i :| 0 <= i < |kids| && Occurrences(kids, kids[i].tag) >= 2;
    assert IsRepeatedIn(kids)(kids[i]);
  }

  /** Stage 1's loop, with its running counter. */
  method CollectRepeated(kids: seq<Node>, repeated: set<string>) returns (results: seq<TestRecord>)
    requires forall t :: t in repeated <==> Occurrences(kids, t) >= 2
    ensures results == RepeatedStage(kids)
  {
    var inRepeated := (c: Node) => c.tag in repeated;
    results := SelectMapCounted(kids, inRepeated, NodeToTest);
    PositionsAgree(kids, inRepeated, IsRepeatedIn(kids));
  }

  /** `grandchildren.extend(...)` for each child in turn. */
  method CollectGrandchildren(kids: seq<Node>) returns (grandchildren: seq<Node>)
    ensures grandchildren == Grandchildren(kids)
  {
    grandchildren := [];
    var i := 0;
    while i < |kids|
      invariant 0 <= i <= |kids|
      invariant grandchildren == Grandchildren(kids[..i])
    {
      assert kids[..i + 1][..i] == kids[..i];
      grandchildren := grandchildren + ElementChildren(kids[i]);
      i := i + 1;
    }
    assert kids[..|kids|] == kids;
  }

  /** The aggressive inference returns something for every document that has an element. */
  lemma AggressiveEmpty(doc: Node)
    ensures AggressiveRecords(doc) == [] <==> Descendants(doc) == []
  {
    match FirstElement(doc)
    case None =>
    case Some(root) =>
      var kids := ElementChildren(root);
      if HasRepeat(kids) {
        RepeatedStageNonEmpty(kids);
      }
  }

  /** The last stage emits at most a hundred records, one per element in document order. */
  lemma LastStageCapped(doc: Node)
    requires Descendants(doc) != []
    requires var kids := RootChildren(doc); !HasRepeat(kids) && |kids| < 2 && Grandchildren(kids) == []
    ensures var r := AggressiveRecords(doc);
            |r| <= AggressiveCap && |r| == |Capped(Descendants(doc))|
            && forall i :: 0 <= i < |r| ==> r[i] == NodeToTest(Descendants(doc)[i], i)
  {
    var all := Descendants(doc);
    var kids := ElementChildren(all[0]);
    assert RootChildren(doc) == kids;
    assert AggressiveRecords(doc) == Numbered(Capped(all));
  }

  /** With a single child element, the first stage that applies is the grandchildren or
      the capped list, and every record is numbered by its own position. */
  lemma SingleChildStages(doc: Node)
    requires Descendants(doc) != [] && |RootChildren(doc)| < 2
    ensures var kids := RootChildren(doc);
            AggressiveRecords(doc)
            == if Grandchildren(kids) != [] then Numbered(Grandchildren(kids)) else Numbered(Capped(Descendants(doc)))
  {
    var kids := RootChildren(doc);
    assert !HasRepeat(kids);
  }
}
