/** The node classifier: `is_test_tag`, which judges a tag name, and `find_test_nodes`,
    which lists the test-like elements of a document. An element is identified by its
    position in the document-order list of all elements, which is what Python's `id(c)`
    distinguishes in the deduplication key. */
module Classifier {
  import opened Strings
  import opened Lists
  import opened Markup

  /** `TEST_TAG_HINTS` (the source lists two names twice; a set keeps each once). */
  const TestTagHints: set<string> := {"testcase", "test-case", "test", "testresult", "test-step", "unittestresult"}

  /** The alternatives of the regular expression `(test|case|result|unittest|test-case)`. */
  const TestTagTokens: seq<string> := ["test", "case", "result", "unittest", "test-case"]

  /** The loose pattern `(test|case|result)` checked beside `is_test_tag`. */
  const LooseTagTokens := ["test", "case", "result"]

  /** `is_test_tag`: false for the empty name, and otherwise true exactly when the lowercased
      name contains "test", "case" or "result" (the hint set and the longer alternatives of
      the pattern add nothing). */
  predicate IsTestTag(tagName: string): (r: bool)
    ensures r <==> tagName != "" && ContainsAny(Lower(tagName), LooseTagTokens)
  {
    if tagName == "" then false
    else
      var name := Lower(tagName);
      LongerTokensAddNothing(name);
      if name in TestTagHints then
        HintsContainTest();
        assert Contains(name, LooseTagTokens[0]);
        true
      else ContainsAny(name, TestTagTokens)
  }

  lemma ContainsTestAt(s: string, i: nat)
    requires i + 4 <= |s| && s[i..i + 4] == "test"
    ensures Contains(s, "test")
  {
    assert OccursAt(s, "test", i);
  }

  /** Every hint, and the longer alternatives of the pattern, already contain "test". */
  lemma HintsContainTest()
    ensures forall h :: h in TestTagHints ==> Contains(h, "test")
    ensures Contains("unittest", "test") && Contains("test-case", "test")
  {
    assert "unittestresult"[4..8] == "test" && "unittest"[4..8] == "test";
    ContainsTestAt("testcase", 0);
    ContainsTestAt("test-case", 0);
    ContainsTestAt("test", 0);
    ContainsTestAt("testresult", 0);
    ContainsTestAt("test-step", 0);
    ContainsTestAt("unittestresult", 4);
    ContainsTestAt("unittest", 4);
  }

  /** A string holding a token that holds "test" holds "test". */
  lemma ContainsTestWithin(name: string, tok: string, i: nat, d: nat)
    requires OccursAt(name, tok, i) && d + 4 <= |tok| && tok[d..d + 4] == "test"
    ensures Contains(name, "test")
  {
    assert name[i..i + |tok|] == tok;
    var w, v := name[i + d..i + d + 4], tok[d..d + 4];
    forall k | 0 <= k < 4
      ensures w[k] == v[k]
    {
      assert name[i + d + k] == name[i..i + |tok|][d + k];
    }
    assert w == v;
    ContainsTestAt(name, i + d);
  }

  /** The five alternatives of the pattern match where the first three do. */
  lemma LongerTokensAddNothing(name: string)
    ensures ContainsAny(name, TestTagTokens) <==> ContainsAny(name, LooseTagTokens)
  {
    if ContainsAny(name, TestTagTokens) {
      var k :| 0 <= k < |TestTagTokens| && Contains(name, TestTagTokens[k]);
      if k == 3 || k == 4 {
        var tok := TestTagTokens[k];
        var i :| OccursAt(name, tok, i);
        if k == 3 {
          assert tok[4..8] == "test";
          ContainsTestWithin(name, tok, i, 4);
        } else {
          assert tok[0..4] == "test";
          ContainsTestWithin(name, tok, i, 0);
        }
        assert Contains(name, LooseTagTokens[0]);
      } else {
        assert TestTagTokens[k] == LooseTagTokens[k];
      }
    }
    if ContainsAny(name, LooseTagTokens) {
      var k :| 0 <= k < |LooseTagTokens| && Contains(name, LooseTagTokens[k]);
      assert LooseTagTokens[k] == TestTagTokens[k];
    }
  }

  /** The name-like attributes tested first at analyzer.py:114. */
  const CandidateNameAttrs := ["name", "testName", "testname", "method", "test"]

  /** The attributes whose value enters the deduplication key. */
  const IdentityNameAttrs := ["name", "testname", "method", "id"]

  predicate IsTestcaseTag(n: Node) {
    n.tag == "testcase"
  }

  /** The three attribute conditions of the scan over all elements (analyzer.py:114-123).
      The `is_test_tag` test beside the loose pattern adds nothing: a name-like attribute
      qualifies the element exactly when its lowercased tag contains test, case or result. */
  predicate IsAttrCandidate(n: Node): (r: bool)
    ensures r <==> (FirstNonEmpty(n.attrs, CandidateNameAttrs) != "" && ContainsAny(Lower(n.tag), LooseTagTokens))
                   || ("outcome" in n.attrs && "testname" in n.attrs)
                   || ("result" in n.attrs && ("name" in n.attrs || "testname" in n.attrs))
  {
    (FirstNonEmpty(n.attrs, CandidateNameAttrs) != ""
      && (IsTestTag(n.tag) || ContainsAny(Lower(n.tag), LooseTagTokens)))
    || ("outcome" in n.attrs && "testname" in n.attrs)
    || ("result" in n.attrs && ("name" in n.attrs || "testname" in n.attrs))
  }

  /** A candidate found only by the attribute scan, not already listed as a `testcase`. */
  predicate IsLateCandidate(n: Node) {
    IsAttrCandidate(n) && !IsTestcaseTag(n)
  }

  /** The deduplication key `(name, name-like value, id)` of the element at position `i`. */
  function Identity(all: seq<Node>, i: nat): (string, string, nat)
    requires i < |all|
  {
    (all[i].tag, FirstNonEmpty(all[i].attrs, IdentityNameAttrs), i)
  }

  /** What `find_test_nodes` returns: every `testcase` element in document order, then every
      other element that passes an attribute condition, in document order. */
  function CandidatePositions(all: seq<Node>): (r: seq<nat>)
    ensures forall k :: 0 <= k < |r| ==> r[k] < |all|
  {
    Positions(all, IsTestcaseTag) + Positions(all, IsLateCandidate)
  }

  /** `find_test_nodes`: collect the `testcase` elements, then the elements passing an
      attribute condition, then drop repeated identities keeping the first. */
  method FindTestNodes(doc: Node) returns (uniq: seq<nat>)
    ensures uniq == CandidatePositions(Descendants(doc))
  {
    var all := Descendants(doc);
    var matched := CollectPositions(all, IsAttrCandidate);
    var candidates := Positions(all, IsTestcaseTag) + matched;
    uniq := DropRepeated(all, candidates);
    CandidatesDedup(all);
  }

  /** The deduplication loop of `find_test_nodes` (analyzer.py:125-131): keep a candidate
      unless its identity key has been seen. */
  method DropRepeated(all: seq<Node>, candidates: seq<nat>) returns (uniq: seq<nat>)
    requires forall k :: 0 <= k < |candidates| ==> candidates[k] < |all|
    ensures uniq == Dedup(candidates)
  {
    var seen: set<(string, string, nat)> := {};
    uniq := [];
    var k := 0;
    while k < |candidates|
      invariant 0 <= k <= |candidates|
      invariant uniq == Dedup(candidates[..k])
      invariant forall x :: x in uniq ==> x < |all| && Identity(all, x) in seen
      invariant forall t :: t in seen ==> t.2 in uniq
    {
      var c := candidates[k];
      var ident := Identity(all, c);
      DedupSnoc(candidates, k);
      if ident !in seen {
        uniq := uniq + [c];
        seen := seen + {ident};
      }
      k := k + 1;
    }
    assert candidates[..|candidates|] == candidates;
  }

  lemma DedupSnoc(s: seq<nat>, k: nat)
    requires k < |s|
    ensures Dedup(s[..k + 1]) == if s[k] in Dedup(s[..k]) then Dedup(s[..k]) else Dedup(s[..k]) + [s[k]]
  {
    assert s[..k + 1][..k] == s[..k];
  }

  /** Deduplicating the collected list gives the testcase positions followed by the other
      candidates: a `testcase` element found again by the attribute scan is dropped, and
      nothing else is. */
  lemma CandidatesDedup(all: seq<Node>)
    ensures Dedup(Positions(all, IsTestcaseTag) + Positions(all, IsAttrCandidate)) == CandidatePositions(all)
  {
    var tc := Positions(all, IsTestcaseTag);
    var ac := Positions(all, IsAttrCandidate);
    DedupConcat(tc, ac);
    assert all[..|all|] == all;
    WithoutPositions(all, |all|, IsAttrCandidate, IsTestcaseTag, IsLateCandidate);
  }

  /** The list never names an element twice (the key holds the element's identity). */
  lemma CandidatesDistinct(all: seq<Node>)
    ensures Distinct(CandidatePositions(all))
  {
    var tc := Positions(all, IsTestcaseTag);
    var late := Positions(all, IsLateCandidate);
    var r := tc + late;
    forall a, b | 0 <= a < b < |r| ensures r[a] != r[b] {
      if b < |tc| || a >= |tc| {
      } else {
        assert IsTestcaseTag(all[r[a]]) && !IsTestcaseTag(all[r[b]]);
      }
    }
  }

  /** An element is listed exactly when it is a `testcase` or passes an attribute condition;
      elements with equal tag and name at different places are all listed. */
  lemma CandidateMembership(all: seq<Node>, x: nat)
    ensures x in CandidatePositions(all) <==> x < |all| && (IsTestcaseTag(all[x]) || IsAttrCandidate(all[x]))
  {
    var tc := Positions(all, IsTestcaseTag);
    var late := Positions(all, IsLateCandidate);
    if x in tc + late {
      if x in tc {
        var k :| 0 <= k < |tc| && tc[k] == x;
      } else {
        var k :| 0 <= k < |late| && late[k] == x;
      }
    }
  }

  /** The `testcase` elements come first, in document order. */
  lemma TestcasesFirst(all: seq<Node>)
    ensures var tc := Positions(all, IsTestcaseTag);
            |tc| <= |CandidatePositions(all)| && CandidatePositions(all)[..|tc|] == tc
            && forall k :: |tc| <= k < |CandidatePositions(all)| ==> !IsTestcaseTag(all[CandidatePositions(all)[k]])
  {
    var tc := Positions(all, IsTestcaseTag);
    assert CandidatePositions(all)[..|tc|] == tc;
  }
}
