/** The outcome extractor: `extract_text` and the six-rule cascade of
    `get_status_and_message`, which derives (status, message, details) from a test-like
    element. Rules are tried in strict order and the first that applies decides. */
module Outcome {
  import opened Wrappers
  import opened Strings
  import opened Lists
  import opened Markup

  datatype Status = PASS | FAIL | SKIPPED

  /** The triple `(status, message, details)`. */
  datatype Verdict = Verdict(status: Status, message: string, details: string)

  /** The attributes `extract_text` prefers, in order. */
  const MessageAttrs := ["message", "reason", "text", "failureMessage", "failure-message"]

  /** `extract_text`: the stripped value of the first message-like attribute present, and
      only when there is none, the element's stripped text. */
  function ExtractText(n: Node): (r: string)
    ensures forall k :: IsFirstPresent(n.attrs, MessageAttrs, k) ==> r == Trim(n.attrs[MessageAttrs[k]])
    ensures NonePresent(n.attrs, MessageAttrs) ==> r == Trim(TextOf(n))
    ensures IsTrimmed(r)
  {
    match FirstPresent(n.attrs, MessageAttrs)
    case Some(v) => Trim(v)
    case None => Trim(TextOf(n))
  }

  // Rule 1: an explicit status attribute.

  const StatusAttrs := ["result", "outcome", "status"]
  const FailWords: set<string> := {"failed", "fail", "error", "failure", "failed_with_error"}
  const PassWords: set<string> := {"passed", "pass", "ok", "success"}
  const SkipWords: set<string> := {"skipped", "ignored"}

  /** The status a stripped, lowercased attribute value names, if it is in a vocabulary. */
  function StatusWord(v: string): Option<Status> {
    var w := Lower(Trim(v));
    if w in FailWords then Some(FAIL)
    else if w in PassWords then Some(PASS)
    else if w in SkipWords then Some(SKIPPED)
    else None
  }

  /** The three vocabularies share no word, so the order of the tests in `StatusWord`
      decides nothing: each status is named by exactly its own vocabulary. */
  lemma StatusWordNames(v: string)
    ensures var w := Lower(Trim(v));
            (StatusWord(v) == Some(FAIL) <==> w in FailWords)
            && (StatusWord(v) == Some(PASS) <==> w in PassWords)
            && (StatusWord(v) == Some(SKIPPED) <==> w in SkipWords)
            && (StatusWord(v) == None <==> w !in FailWords && w !in PassWords && w !in SkipWords)
  {
    var w := Lower(Trim(v));
    if w in PassWords {
      assert w !in FailWords;
    }
    if w in SkipWords {
      assert w !in FailWords && w !in PassWords;
    }
  }

  /** The attribute `key` is present and its value is in one of the three vocabularies. */
  predicate Recognised(attrs: Attrs, key: string) {
    key in attrs && StatusWord(attrs[key]).Some?
  }

  function RecognisedIn(attrs: Attrs): string -> bool {
    (key: string) => Recognised(attrs, key)
  }

  /** `StatusAttrs[k]` decides: it is recognised and no earlier status attribute is. */
  predicate IsDecidingStatusAttr(attrs: Attrs, k: int) {
    0 <= k < |StatusAttrs| && Recognised(attrs, StatusAttrs[k])
    && forall j :: 0 <= j < k ==> !Recognised(attrs, StatusAttrs[j])
  }

  /** The loop of rule 1: the first of `result`, `outcome`, `status` whose value is
      recognised names the status; an unrecognised value falls through to the next one. */
  function DeclaredStatus(n: Node): (r: Option<Status>)
    ensures forall k :: IsDecidingStatusAttr(n.attrs, k) ==> r == StatusWord(n.attrs[StatusAttrs[k]])
    ensures (forall j :: 0 <= j < |StatusAttrs| ==> !Recognised(n.attrs, StatusAttrs[j])) <==> r == None
  {
    match FirstWhere(StatusAttrs, RecognisedIn(n.attrs))
    case None =>
      assert forall j :: 0 <= j < |StatusAttrs| ==> !RecognisedIn(n.attrs)(StatusAttrs[j]);
      None
    case Some(k) =>
      assert RecognisedIn(n.attrs)(StatusAttrs[k]);
      assert forall j :: 0 <= j < k ==> !RecognisedIn(n.attrs)(StatusAttrs[j]);
      assert IsDecidingStatusAttr(n.attrs, k);
      StatusWord(n.attrs[StatusAttrs[k]])
  }

  // Rules 2 and 3: failure-indicating tags.

  /** `FAILURE_CHILD_TAGS`. The source holds them in a set, whose iteration order rule 3
      follows; this model fixes that order to the listed one. */
  const FailureChildTags := ["failure", "error", "failed", "failuremessage", "reason", "failure-message"]

  /** Rule 2 compares the lowercased tag of a direct child. */
  predicate IsFailureChild(c: Node) {
    Lower(c.tag) in FailureChildTags
  }

  /** Rule 2: the first direct child element with a failure tag, in document order. */
  function FailureChild(n: Node): (r: Option<Node>)
    ensures r.Some? ==> exists i: nat :: IsFirstWhere(ElementChildren(n), IsFailureChild, i)
                                         && r.value == ElementChildren(n)[i]
    ensures r.None? <==> forall c :: c in ElementChildren(n) ==> !IsFailureChild(c)
  {
    var kids := ElementChildren(n);
    match FirstWhere(kids, IsFailureChild)
    case None => None
    case Some(i) => assert IsFailureChild(kids[i]); Some(kids[i])
  }

  /** Rule 3: `node.find(tagname)` for each failure tag in turn; the first tag that occurs
      anywhere below the element gives its first occurrence in document order. */
  function FailureDescendant(n: Node, tags: seq<string>): (r: Option<Node>)
    ensures r.Some? ==> r.value in Descendants(n) && r.value.tag in tags
    ensures r.None? <==> forall d :: d in Descendants(n) ==> d.tag !in tags
  {
    if tags == [] then None
    else
      match FindFirst(n, tags[0])
      case Some(d) => Some(d)
      case None => FailureDescendant(n, tags[1..])
  }

  // Rules 4 and 5.

  const MessageLikeAttrs := ["message", "reason", "failure"]
  const ErrorTextTokens := ["traceback", "assertionerror", "error:"]

  /** Evidence of failure used by rules 2 to 5, each stated without the scans that find it. */
  predicate HasFailureChild(n: Node) {
    exists c :: c in ElementChildren(n) && IsFailureChild(c)
  }

  predicate HasFailureDescendant(n: Node) {
    exists d :: d in Descendants(n) && d.tag in FailureChildTags
  }

  predicate HasMessageLikeAttr(n: Node) {
    exists k :: 0 <= k < |MessageLikeAttrs| && MessageLikeAttrs[k] in n.attrs
  }

  predicate HasErrorText(n: Node) {
    ContainsAny(Lower(TextOf(n)), ErrorTextTokens)
  }

  predicate HasFailureEvidence(n: Node) {
    HasFailureChild(n) || HasFailureDescendant(n) || HasMessageLikeAttr(n) || HasErrorText(n)
  }

  /** Rules 2 to 6, tried when no status attribute is recognised: a failure child, a deeper
      failure tag, a message-like attribute or error-looking text gives FAIL, in that order
      of precedence; with no evidence at all the test passed. */
  function EvidenceVerdict(n: Node): (r: Verdict)
    ensures r.status == FAIL <==> HasFailureEvidence(n)
    ensures r.status != FAIL ==> r == Verdict(PASS, "", "")
    ensures IsTrimmed(r.message) && IsTrimmed(r.details)
  {
    match FailureChild(n)
    case Some(c) => Verdict(FAIL, Trim(Or(ExtractText(c), ExtractText(n))), Trim(Or(TextOf(c), TextOf(n))))
    case None =>
      match FailureDescendant(n, FailureChildTags)
      case Some(d) => Verdict(FAIL, Trim(Or(ExtractText(d), ExtractText(n))), Trim(Or(TextOf(d), TextOf(n))))
      case None =>
        match FirstPresent(n.attrs, MessageLikeAttrs)
        case Some(v) => Verdict(FAIL, Trim(v), Trim(TextOf(n)))
        case None =>
          var txt := Lower(TextOf(n));
          if ContainsAny(txt, ErrorTextTokens) then
            Verdict(FAIL, Trim(if Trim(txt) != "" then FirstLine(txt) else ""), Trim(txt))
          else
            Verdict(PASS, "", "")
  }

  /** `get_status_and_message`. A recognised status attribute decides outright (rule 1);
      otherwise the evidence rules decide. SKIPPED comes only from a status attribute, and
      only FAIL carries a message or details. */
  function GetStatusAndMessage(n: Node): (r: Verdict)
    ensures r.status == SKIPPED <==> DeclaredStatus(n) == Some(SKIPPED)
    ensures r.status == FAIL
            <==> DeclaredStatus(n) == Some(FAIL) || (DeclaredStatus(n) == None && HasFailureEvidence(n))
    ensures r.status != FAIL ==> r.message == "" && r.details == ""
    ensures IsTrimmed(r.message) && IsTrimmed(r.details)
  {
    match DeclaredStatus(n)
    case Some(FAIL) => Verdict(FAIL, ExtractText(n), Trim(TextOf(n)))
    case Some(s) => Verdict(s, "", "")
    case None => EvidenceVerdict(n)
  }

  /** Rule 1 outranks every other: a failing status value gives FAIL with the extracted
      text, whatever children the element has. */
  lemma DeclaredFailureDecides(n: Node, k: nat)
    requires IsDecidingStatusAttr(n.attrs, k)
    requires Lower(Trim(n.attrs[StatusAttrs[k]])) in FailWords
    ensures GetStatusAndMessage(n) == Verdict(FAIL, ExtractText(n), Trim(TextOf(n)))
  {
  }

  /** A passing or skipping status value decides too, with empty message and details, even
      when the element holds a failure child or failure text. */
  lemma DeclaredPassOrSkipDecides(n: Node, k: nat, s: Status)
    requires IsDecidingStatusAttr(n.attrs, k)
    requires StatusWord(n.attrs[StatusAttrs[k]]) == Some(s) && s != FAIL
    ensures GetStatusAndMessage(n) == Verdict(s, "", "")
  {
  }

  /** Rule 2: with no recognised status, the first direct child with a failure tag, in
      document order, supplies the message and details (falling back to the element's own). */
  lemma FailureChildDecides(n: Node, i: nat)
    requires DeclaredStatus(n) == None
    requires IsFirstWhere(ElementChildren(n), IsFailureChild, i)
    ensures var c := ElementChildren(n)[i];
            GetStatusAndMessage(n)
            == Verdict(FAIL, Trim(Or(ExtractText(c), ExtractText(n))), Trim(Or(TextOf(c), TextOf(n))))
  {
    var kids := ElementChildren(n);
    assert IsFailureChild(kids[i]);
    var c: nat :| IsFirstWhere(kids, IsFailureChild, c) && FailureChild(n).value == kids[c];
    FirstWhereUnique(kids, IsFailureChild, c, i);
  }

  /** Rule 3: with no status and no failure child, the first failure tag in vocabulary
      order that occurs below the element, at its first occurrence in document order. */
  lemma FailureDescendantDecides(n: Node, t: nat)
    requires DeclaredStatus(n) == None && !HasFailureChild(n)
    requires t < |FailureChildTags|
    requires forall u :: 0 <= u < t ==> FindFirst(n, FailureChildTags[u]).None?
    requires FindFirst(n, FailureChildTags[t]).Some?
    ensures var d := FindFirst(n, FailureChildTags[t]).value;
            GetStatusAndMessage(n)
            == Verdict(FAIL, Trim(Or(ExtractText(d), ExtractText(n))), Trim(Or(TextOf(d), TextOf(n))))
  {
    DescendantScan(n, FailureChildTags, t);
  }

  lemma {:induction false} DescendantScan(n: Node, tags: seq<string>, t: nat)
    requires t < |tags|
    requires forall u :: 0 <= u < t ==> FindFirst(n, tags[u]).None?
    requires FindFirst(n, tags[t]).Some?
    ensures FailureDescendant(n, tags) == FindFirst(n, tags[t])
  {
    if t > 0 {
      assert FindFirst(n, tags[0]).None?;
      DescendantScan(n, tags[1..], t - 1);
    }
  }

  /** Rule 4: with no status and no failure tag anywhere below, the first present
      message-like attribute gives FAIL with its stripped value. */
  lemma MessageAttrDecides(n: Node, k: nat)
    requires DeclaredStatus(n) == None && !HasFailureChild(n) && !HasFailureDescendant(n)
    requires IsFirstPresent(n.attrs, MessageLikeAttrs, k)
    ensures GetStatusAndMessage(n) == Verdict(FAIL, Trim(n.attrs[MessageLikeAttrs[k]]), Trim(TextOf(n)))
  {
    assert FailureChild(n) == None;
    assert FailureDescendant(n, FailureChildTags) == None;
    assert FirstPresent(n.attrs, MessageLikeAttrs) == Some(n.attrs[MessageLikeAttrs[k]]);
  }

  /** Rule 5: otherwise, error-looking text gives FAIL with its first line as the message and
      the whole lowercased text as details. */
  lemma ErrorTextDecides(n: Node)
    requires DeclaredStatus(n) == None && !HasFailureChild(n) && !HasFailureDescendant(n) && !HasMessageLikeAttr(n)
    requires HasErrorText(n)
    ensures var txt := Lower(TextOf(n));
            GetStatusAndMessage(n) == Verdict(FAIL, Trim(FirstLine(txt)), Trim(txt))
  {
    var txt := Lower(TextOf(n));
    assert FailureChild(n) == None;
    assert FailureDescendant(n, FailureChildTags) == None;
    assert NonePresent(n.attrs, MessageLikeAttrs);
    assert FirstPresent(n.attrs, MessageLikeAttrs) == None;
    NotBlank(txt);
  }

  /** Text holding an error token is not blank, so rule 5 takes its first line. */
  lemma NotBlank(txt: string)
    requires ContainsAny(txt, ErrorTextTokens)
    ensures Trim(txt) != ""
  {
    var k :| 0 <= k < |ErrorTextTokens| && Contains(txt, ErrorTextTokens[k]);
    var i :| OccursAt(txt, ErrorTextTokens[k], i);
    assert txt[i] == ErrorTextTokens[k][0];
    assert !IsSpace(txt[i]);
    var j :| StripsTo(txt, Trim(txt), j);
  }

  /** Rule 6: with no evidence of failure at all, the test passed. */
  lemma DefaultPass(n: Node)
    requires DeclaredStatus(n) == None && !HasFailureEvidence(n)
    ensures GetStatusAndMessage(n) == Verdict(PASS, "", "")
  {
  }

  /** An unrecognised status value is as good as no status attribute: removing `result`,
      `outcome` and `status` altogether changes nothing. */
  lemma UnrecognisedStatusFallsThrough(n: Node)
    requires DeclaredStatus(n) == None
    ensures GetStatusAndMessage(n) == GetStatusAndMessage(n.(attrs := n.attrs - StatusKeys))
  {
    var m := n.(attrs := n.attrs - StatusKeys);
    assert DeclaredStatus(m) == None by {
      assert forall j :: 0 <= j < |StatusAttrs| ==> StatusAttrs[j] in StatusKeys;
    }
    SameContent(n, m);
    KeysOutsideStatus();
    DropOtherKeys(n.attrs, StatusKeys, MessageAttrs);
    DropOtherKeys(n.attrs, StatusKeys, MessageLikeAttrs);
    SameEvidenceVerdict(n, m);
  }

  const StatusKeys: set<string> := {"result", "outcome", "status"}

  lemma KeysOutsideStatus()
    ensures forall j :: 0 <= j < |MessageAttrs| ==> MessageAttrs[j] !in StatusKeys
    ensures forall j :: 0 <= j < |MessageLikeAttrs| ==> MessageLikeAttrs[j] !in StatusKeys
  {
    assert "message"[0] !in {'r', 'o', 's'};
    assert "failure"[0] !in {'r', 'o', 's'};
  }

  /** Removing attributes outside `keys` does not change a lookup over `keys`. */
  lemma DropOtherKeys(a: Attrs, drop: set<string>, keys: seq<string>)
    requires forall j :: 0 <= j < |keys| ==> keys[j] !in drop
    ensures FirstPresent(a, keys) == FirstPresent(a - drop, keys)
  {
    SameKeysSameFirstPresent(a, a - drop, keys);
  }

  /** The evidence rules read the attributes only through the two message lookups. */
  lemma SameEvidenceVerdict(n: Node, m: Node)
    requires n.content == m.content
    requires FirstPresent(n.attrs, MessageAttrs) == FirstPresent(m.attrs, MessageAttrs)
    requires FirstPresent(n.attrs, MessageLikeAttrs) == FirstPresent(m.attrs, MessageLikeAttrs)
    ensures EvidenceVerdict(n) == EvidenceVerdict(m)
  {
    SameContentFrom(n, m, 0);
    SameContentDescendant(n, m, FailureChildTags);
    assert TextOf(n) == TextOf(m) && ElementChildren(n) == ElementChildren(m);
    assert ExtractText(n) == ExtractText(m);
    assert FailureChild(n) == FailureChild(m);
  }

  lemma SameContent(n: Node, m: Node)
    requires n.content == m.content
    ensures TextOf(n) == TextOf(m) && ElementChildren(n) == ElementChildren(m) && Descendants(n) == Descendants(m)
    ensures forall t :: FindFirst(n, t) == FindFirst(m, t)
    ensures forall tags :: FailureDescendant(n, tags) == FailureDescendant(m, tags)
  {
    SameContentFrom(n, m, 0);
    forall tags ensures FailureDescendant(n, tags) == FailureDescendant(m, tags) {
      SameContentDescendant(n, m, tags);
    }
  }

  lemma {:induction false} SameContentFrom(n: Node, m: Node, i: nat)
    requires n.content == m.content && i <= |n.content|
    ensures TextFrom(n, i) == TextFrom(m, i) && ChildrenFrom(n, i) == ChildrenFrom(m, i)
    ensures DescendantsFrom(n, i) == DescendantsFrom(m, i)
    decreases |n.content| - i
  {
    if i < |n.content| {
      SameContentFrom(n, m, i + 1);
    }
  }

  lemma {:induction false} SameContentDescendant(n: Node, m: Node, tags: seq<string>)
    requires n.content == m.content
    ensures FailureDescendant(n, tags) == FailureDescendant(m, tags)
  {
    SameContentFrom(n, m, 0);
    if tags != [] {
      SameContentDescendant(n, m, tags[1..]);
    }
  }

  /** Lookups over `keys` see only those keys. */
  lemma SameKeysSameFirstPresent(a: Attrs, b: Attrs, keys: seq<string>)
    requires forall j :: 0 <= j < |keys| ==> (keys[j] in a <==> keys[j] in b)
    requires forall j :: 0 <= j < |keys| && keys[j] in a ==> a[keys[j]] == b[keys[j]]
    ensures FirstPresent(a, keys) == FirstPresent(b, keys)
  {
    if !NonePresent(a, keys) {
      var k :| 0 <= k < |keys| && keys[k] in a;
      var first := FirstIndex(a, keys, k);
      assert IsFirstPresent(b, keys, first);
    }
  }

  lemma {:induction false} FirstIndex(a: Attrs, keys: seq<string>, k: nat) returns (first: nat)
    requires k < |keys| && keys[k] in a
    ensures IsFirstPresent(a, keys, first) && first <= k
    decreases k
  {
    if exists j :: 0 <= j < k && keys[j] in a {
      var j :| 0 <= j < k && keys[j] in a;
      first := FirstIndex(a, keys, j);
    } else {
      first := k;
    }
  }
}
