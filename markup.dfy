/** The parsed document as the analyzer sees it through BeautifulSoup: elements with a tag
    name, an attribute map and mixed content (strings and child elements, in document order).
    The document itself is an element too, with tag `[document]`, as in BeautifulSoup. */
module Markup {
  import opened Wrappers
  import opened Strings
  import opened Lists

  type Attrs = map<string, string>

  datatype Node = Node(tag: string, attrs: Attrs, content: seq<Item>)

  /** One piece of an element's content: a run of text or a child element. */
  datatype Item = Str(s: string) | Child(node: Node)

  /** BeautifulSoup's name for the document object. */
  const DocumentTag := "[document]"

  /** `tag.text`: every string below the element, concatenated in document order. */
  function TextOf(n: Node): string
    decreases n, 1
  {
    TextFrom(n, 0)
  }

  function TextFrom(n: Node, i: nat): string
    requires i <= |n.content|
    decreases n, 0, |n.content| - i
  {
    if i == |n.content| then ""
    else (match n.content[i] case Str(s) => s case Child(c) => TextOf(c)) + TextFrom(n, i + 1)
  }

  /** `tag.find_all()`: every element below `n`, in document (pre-)order. */
  function Descendants(n: Node): seq<Node>
    decreases n, 1
  {
    DescendantsFrom(n, 0)
  }

  function DescendantsFrom(n: Node, i: nat): seq<Node>
    requires i <= |n.content|
    decreases n, 0, |n.content| - i
  {
    if i == |n.content| then []
    else (match n.content[i] case Str(_) => [] case Child(c) => [c] + Descendants(c)) + DescendantsFrom(n, i + 1)
  }

  /** `tag.find_all(recursive=False)`: the child elements of `n`, in document order. */
  function ElementChildren(n: Node): seq<Node> {
    ChildrenFrom(n, 0)
  }

  function ChildrenFrom(n: Node, i: nat): seq<Node>
    requires i <= |n.content|
    decreases |n.content| - i
  {
    if i == |n.content| then []
    else (match n.content[i] case Str(_) => [] case Child(c) => [c]) + ChildrenFrom(n, i + 1)
  }

  function TagIs(name: string): Node -> bool {
    (d: Node) => d.tag == name
  }

  /** `n.find(name)`: the first element below `n` whose tag is `name`, in document order. */
  function FindFirst(n: Node, name: string): (r: Option<Node>)
    ensures r.Some? ==> exists i: nat :: IsFirstWhere(Descendants(n), TagIs(name), i) && r.value == Descendants(n)[i]
    ensures r.None? <==> forall d :: d in Descendants(n) ==> d.tag != name
  {
    var all := Descendants(n);
    match FirstWhere(all, TagIs(name))
    case None => None
    case Some(i) => assert TagIs(name)(all[i]); Some(all[i])
  }

  /** `soup.find()`: the first element of the document, if it has one. */
  function FirstElement(doc: Node): (r: Option<Node>)
    ensures r.Some? <==> Descendants(doc) != []
    ensures r.Some? ==> r.value == Descendants(doc)[0]
  {
    var all := Descendants(doc);
    if all == [] then None else Some(all[0])
  }

  // Attribute lookups. Python's `node.has_attr(a)` is `a in n.attrs`; `node.get(a)` is
  // `None` for a missing attribute, and `get(a) or get(b) or ...` skips empty values.

  /** `keys[k]` is the first of `keys` that the attribute map has. */
  predicate IsFirstPresent(attrs: Attrs, keys: seq<string>, k: int) {
    0 <= k < |keys| && keys[k] in attrs && forall j :: 0 <= j < k ==> keys[j] !in attrs
  }

  predicate NonePresent(attrs: Attrs, keys: seq<string>) {
    forall j :: 0 <= j < |keys| ==> keys[j] !in attrs
  }

  function PresentIn(attrs: Attrs): string -> bool {
    (key: string) => key in attrs
  }

  /** `for a in keys: if node.has_attr(a): return node.get(a)`: the value of the first
      attribute of `keys` that is present, whatever that value is. */
  function FirstPresent(attrs: Attrs, keys: seq<string>): (r: Option<string>)
    ensures forall k :: IsFirstPresent(attrs, keys, k) ==> r == Some(attrs[keys[k]])
    ensures NonePresent(attrs, keys) ==> r == None
  {
    match FirstWhere(keys, PresentIn(attrs))
    case None => None
    case Some(k) =>
      assert PresentIn(attrs)(keys[k]);
      assert forall j :: 0 <= j < k ==> !PresentIn(attrs)(keys[j]);
      Some(attrs[keys[k]])
  }

  /** `keys[k]` is the first of `keys` whose attribute is present with a non-empty value. */
  predicate IsFirstNonEmpty(attrs: Attrs, keys: seq<string>, k: int) {
    0 <= k < |keys| && keys[k] in attrs && attrs[keys[k]] != ""
    && forall j :: 0 <= j < k ==> keys[j] !in attrs || attrs[keys[j]] == ""
  }

  function NonEmptyIn(attrs: Attrs): string -> bool {
    (key: string) => key in attrs && attrs[key] != ""
  }

  /** `node.get(k1) or node.get(k2) or ... or ""`: the first non-empty value among the
      attributes `keys`, or the empty string when there is none. */
  function FirstNonEmpty(attrs: Attrs, keys: seq<string>): (r: string)
    ensures forall k :: IsFirstNonEmpty(attrs, keys, k) ==> r == attrs[keys[k]]
    ensures (forall j :: 0 <= j < |keys| ==> keys[j] !in attrs || attrs[keys[j]] == "") ==> r == ""
    ensures r != "" <==> exists k :: IsFirstNonEmpty(attrs, keys, k)
  {
    match FirstWhere(keys, NonEmptyIn(attrs))
    case None =>
      assert forall j :: 0 <= j < |keys| ==> !NonEmptyIn(attrs)(keys[j]);
      ""
    case Some(k) =>
      assert NonEmptyIn(attrs)(keys[k]);
      assert forall j :: 0 <= j < k ==> !NonEmptyIn(attrs)(keys[j]);
      assert IsFirstNonEmpty(attrs, keys, k);
      attrs[keys[k]]
  }

  // What the tree walks promise.

  /** Each of `cs` followed by everything below it, in order. */
  function Subtrees(cs: seq<Node>): seq<Node> {
    if cs == [] then [] else [cs[0]] + Descendants(cs[0]) + Subtrees(cs[1..])
  }

  /** `find_all()` is pre-order: each child element, then everything below it, child by
      child in document order. */
  lemma DescendantsPreorder(n: Node)
    ensures Descendants(n) == Subtrees(ElementChildren(n))
  {
    SubtreesFrom(n, 0);
  }

  lemma {:induction false} SubtreesFrom(n: Node, i: nat)
    requires i <= |n.content|
    ensures DescendantsFrom(n, i) == Subtrees(ChildrenFrom(n, i))
    decreases |n.content| - i
  {
    if i < |n.content| {
      SubtreesFrom(n, i + 1);
      match n.content[i]
      case Str(_) =>
        assert DescendantsFrom(n, i) == DescendantsFrom(n, i + 1);
        assert ChildrenFrom(n, i) == ChildrenFrom(n, i + 1);
      case Child(c) =>
        var cs := ChildrenFrom(n, i);
        assert cs == [c] + ChildrenFrom(n, i + 1);
        assert cs[1..] == ChildrenFrom(n, i + 1);
    }
  }

  /** `child.text` is a piece of `parent.text`. */
  lemma ChildTextInText(n: Node, c: Node)
    requires c in ElementChildren(n)
    ensures exists o :: OccursAt(TextOf(n), TextOf(c), o)
  {
    var j := ChildIndex(n, 0, c);
    TextFromHolds(n, 0, j);
    assert TextOf(n) == TextFrom(n, 0) && n.content[j].node == c;
  }

  lemma {:induction false} ChildIndex(n: Node, i: nat, c: Node) returns (j: nat)
    requires i <= |n.content| && c in ChildrenFrom(n, i)
    ensures i <= j < |n.content| && n.content[j] == Child(c)
    decreases |n.content| - i
  {
    if n.content[i] == Child(c) {
      j := i;
    } else {
      assert c in ChildrenFrom(n, i + 1);
      j := ChildIndex(n, i + 1, c);
    }
  }

  lemma {:induction false} TextFromHolds(n: Node, i: nat, j: nat)
    requires i <= j < |n.content| && n.content[j].Child?
    ensures exists o :: OccursAt(TextFrom(n, i), TextOf(n.content[j].node), o)
    decreases j - i
  {
    var t := TextOf(n.content[j].node);
    if i == j {
      assert TextFrom(n, i) == t + TextFrom(n, i + 1);
      assert OccursAt(TextFrom(n, i), t, 0);
    } else {
      TextFromHolds(n, i + 1, j);
      var o :| OccursAt(TextFrom(n, i + 1), t, o);
      var head := match n.content[i] case Str(s) => s case Child(c) => TextOf(c);
      var whole := TextFrom(n, i);
      assert whole == head + TextFrom(n, i + 1);
      assert whole[|head| + o..|head| + o + |t|] == TextFrom(n, i + 1)[o..o + |t|];
      assert OccursAt(whole, t, |head| + o);
    }
  }
}
