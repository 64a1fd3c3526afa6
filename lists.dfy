/** Order-preserving list operations: selecting the positions that satisfy a test,
    first-match search, and removal of duplicates keeping the first occurrence. */
module Lists {
  import opened Wrappers

  /** Strictly increasing, hence free of duplicates. */
  predicate Increasing(s: seq<nat>) {
    forall a, b :: 0 <= a < b < |s| ==> s[a] < s[b]
  }

  predicate Distinct(s: seq<nat>) {
    forall a, b :: 0 <= a < b < |s| ==> s[a] != s[b]
  }

  /** The positions of `s` whose element satisfies `p`, in order. */
  function Positions<T>(s: seq<T>, p: T -> bool): (r: seq<nat>)
    ensures forall k :: 0 <= k < |r| ==> r[k] < |s| && p(s[r[k]])
    ensures forall i :: 0 <= i < |s| && p(s[i]) ==> i in r
    ensures Increasing(r)
  {
    if s == [] then []
    else
      var r := Positions(s[..|s| - 1], p);
      r + (if p(s[|s| - 1]) then [|s| - 1] else [])
  }

  /** No element satisfies `p`: no positions. */
  lemma {:induction false} PositionsNone<T>(s: seq<T>, p: T -> bool)
    requires forall i :: 0 <= i < |s| ==> !p(s[i])
    ensures Positions(s, p) == []
  {
    if s != [] {
      PositionsNone(s[..|s| - 1], p);
    }
  }

  /** Extending the input by one element extends the positions by at most that element. */
  lemma PositionsSnoc<T>(s: seq<T>, i: nat, p: T -> bool)
    requires i < |s|
    ensures Positions(s[..i + 1], p) == Positions(s[..i], p) + (if p(s[i]) then [i] else [])
  {
    assert s[..i + 1][..i] == s[..i];
  }

  /** The elements at the given positions. */
  function Select<T>(s: seq<T>, pos: seq<nat>): (r: seq<T>)
    requires forall k :: 0 <= k < |pos| ==> pos[k] < |s|
    ensures |r| == |pos| && forall k :: 0 <= k < |pos| ==> r[k] == s[pos[k]]
  {
    seq(|pos|, k requires 0 <= k < |pos| => s[pos[k]])
  }

  /** `r` is the first position of `s` that satisfies `p`: the defining property of a scan
      that stops at its first hit. */
  predicate IsFirstWhere<T>(s: seq<T>, p: T -> bool, r: nat) {
    r < |s| && p(s[r]) && forall j :: 0 <= j < r ==> !p(s[j])
  }

  /** There is only one first position. */
  lemma FirstWhereUnique<T>(s: seq<T>, p: T -> bool, a: nat, b: nat)
    requires IsFirstWhere(s, p, a) && IsFirstWhere(s, p, b)
    ensures a == b
  {
  }

  /** A left-to-right scan that stops at the first element satisfying `p`. */
  function FirstWhere<T>(s: seq<T>, p: T -> bool): (r: Option<nat>)
    ensures r.Some? ==> IsFirstWhere(s, p, r.value)
    ensures r.None? ==> forall j :: 0 <= j < |s| ==> !p(s[j])
  {
    FirstWhereFrom(s, p, 0)
  }

  function FirstWhereFrom<T>(s: seq<T>, p: T -> bool, i: nat): (r: Option<nat>)
    requires i <= |s|
    requires forall j :: 0 <= j < i ==> !p(s[j])
    ensures r.Some? ==> IsFirstWhere(s, p, r.value)
    ensures r.None? ==> forall j :: 0 <= j < |s| ==> !p(s[j])
    decreases |s| - i
  {
    if i == |s| then None
    else if p(s[i]) then Some(i)
    else FirstWhereFrom(s, p, i + 1)
  }

  /** Removal of duplicates keeping the first occurrence, one element at a time as a loop
      over the input with a `seen` set does it. */
  function Dedup(s: seq<nat>): (r: seq<nat>)
    ensures forall x :: x in r <==> x in s
    ensures Distinct(r)
  {
    if s == [] then []
    else
      var d := Dedup(s[..|s| - 1]);
      if s[|s| - 1] in d then d else d + [s[|s| - 1]]
  }

  /** The elements of `s` that do not occur in `a`, in order. */
  function Without(s: seq<nat>, a: seq<nat>): (r: seq<nat>)
    ensures forall x :: x in r <==> x in s && x !in a
  {
    if s == [] then []
    else Without(s[..|s| - 1], a) + (if s[|s| - 1] in a then [] else [s[|s| - 1]])
  }

  lemma {:induction false} DedupDistinct(s: seq<nat>)
    requires Distinct(s)
    ensures Dedup(s) == s
  {
    if s != [] {
      var init := s[..|s| - 1];
      DedupDistinct(init);
      assert s[|s| - 1] !in init;
      assert init + [s[|s| - 1]] == s;
    }
  }

  /** Deduplicating a duplicate-free list followed by another keeps the first list whole and
      only those elements of the second that it does not already contain. */
  lemma {:induction false} DedupConcat(a: seq<nat>, b: seq<nat>)
    requires Distinct(a) && Distinct(b)
    ensures Dedup(a + b) == a + Without(b, a)
  {
    if b == [] {
      assert a + b == a;
      DedupDistinct(a);
    } else {
      var init := b[..|b| - 1];
      var last := b[|b| - 1];
      assert (a + b)[..|a + b| - 1] == a + init;
      DedupConcat(a, init);
      assert last !in init;
      assert last in a + Without(init, a) <==> last in a;
      if last in a {
      } else {
        assert a + Without(init, a) + [last] == a + (Without(init, a) + [last]);
      }
    }
  }

  /** Dropping from the positions satisfying `p` those already listed as satisfying `q`
      leaves the positions satisfying `r == p && !q`. */
  lemma {:induction false} WithoutPositions<T>(s: seq<T>, m: nat, p: T -> bool, q: T -> bool, r: T -> bool)
    requires m <= |s|
    requires forall x :: r(x) <==> p(x) && !q(x)
    ensures Without(Positions(s[..m], p), Positions(s, q)) == Positions(s[..m], r)
  {
    if m > 0 {
      var last: nat := m - 1;
      var before := Positions(s[..last], p);
      var listed := Positions(s, q);
      WithoutPositions(s, last, p, q, r);
      PositionsSnoc(s, last, p);
      PositionsSnoc(s, last, r);
      assert Without(before, listed) == Positions(s[..last], r);
      assert r(s[last]) <==> p(s[last]) && !q(s[last]);
      assert last in listed <==> q(s[last]);
      if p(s[last]) {
        var ext := before + [last];
        assert ext[..|ext| - 1] == before;
        assert ext[|ext| - 1] == last;
        calc {
          Without(Positions(s[..m], p), listed);
          Without(ext, listed);
          Without(before, listed) + (if last in listed then [] else [last]);
          Positions(s[..last], r) + (if r(s[last]) then [last] else []);
          Positions(s[..m], r);
        }
      } else {
        assert Positions(s[..m], p) == before;
        assert Positions(s[..m], r) == Positions(s[..last], r);
      }
    }
  }

  /** `[f(x, i) for i, x in enumerate(s)]`. */
  function MapIndexed<T, U>(s: seq<T>, f: (T, nat) -> U): (r: seq<U>)
    ensures |r| == |s| && forall i :: 0 <= i < |s| ==> r[i] == f(s[i], i)
  {
    seq(|s|, i requires 0 <= i < |s| => f(s[i], i))
  }

  lemma MapIndexedSnoc<T, U>(s: seq<T>, f: (T, nat) -> U, i: nat)
    requires i < |s|
    ensures MapIndexed(s[..i + 1], f) == MapIndexed(s[..i], f) + [f(s[i], i)]
  {
    assert MapIndexed(s[..i + 1], f) == MapIndexed(s[..i], f) + [f(s[i], i)];
  }

  /** `f` applied to the elements at `pos`, each given its own position in `s`. */
  function MapAt<T, U>(s: seq<T>, pos: seq<nat>, f: (T, nat) -> U): (r: seq<U>)
    requires forall k :: 0 <= k < |pos| ==> pos[k] < |s|
    ensures |r| == |pos| && forall k :: 0 <= k < |pos| ==> r[k] == f(s[pos[k]], pos[k])
  {
    seq(|pos|, k requires 0 <= k < |pos| => f(s[pos[k]], pos[k]))
  }

  lemma MapAtSnoc<T, U>(s: seq<T>, pos: seq<nat>, f: (T, nat) -> U, i: nat)
    requires i < |s| && forall k :: 0 <= k < |pos| ==> pos[k] < |s|
    ensures MapAt(s, pos + [i], f) == MapAt(s, pos, f) + [f(s[i], i)]
  {
    assert MapAt(s, pos + [i], f) == MapAt(s, pos, f) + [f(s[i], i)];
  }

  /** `f` applied to the elements at `pos`, the `k`-th given the count `k + 1`. */
  function MapCounted<T, U>(s: seq<T>, pos: seq<nat>, f: (T, nat) -> U): (r: seq<U>)
    requires forall k :: 0 <= k < |pos| ==> pos[k] < |s|
    ensures |r| == |pos| && forall k :: 0 <= k < |pos| ==> r[k] == f(s[pos[k]], k + 1)
  {
    seq(|pos|, k requires 0 <= k < |pos| => f(s[pos[k]], k + 1))
  }

  lemma MapCountedSnoc<T, U>(s: seq<T>, pos: seq<nat>, f: (T, nat) -> U, i: nat)
    requires i < |s| && forall k :: 0 <= k < |pos| ==> pos[k] < |s|
    ensures MapCounted(s, pos + [i], f) == MapCounted(s, pos, f) + [f(s[i], |pos| + 1)]
  {
    assert MapCounted(s, pos + [i], f) == MapCounted(s, pos, f) + [f(s[i], |pos| + 1)];
  }

  /** Two tests that agree on every element select the same positions. */
  lemma {:induction false} PositionsAgree<T>(s: seq<T>, p: T -> bool, q: T -> bool)
    requires forall i :: 0 <= i < |s| ==> p(s[i]) == q(s[i])
    ensures Positions(s, p) == Positions(s, q)
  {
    if s != [] {
      PositionsAgree(s[..|s| - 1], p, q);
    }
  }

  /** When every element passes, the positions are all of them. */
  lemma {:induction false} AllPositions<T>(s: seq<T>, p: T -> bool)
    requires forall i :: 0 <= i < |s| ==> p(s[i])
    ensures |Positions(s, p)| == |s| && forall k :: 0 <= k < |s| ==> Positions(s, p)[k] == k
  {
    if s != [] {
      AllPositions(s[..|s| - 1], p);
    }
  }

  /** Building at every position in order is building with positions. */
  lemma MapAtEvery<T, U>(s: seq<T>, pos: seq<nat>, f: (T, nat) -> U)
    requires |pos| == |s| && forall k :: 0 <= k < |s| ==> pos[k] == k
    ensures MapAt(s, pos, f) == MapIndexed(s, f)
  {
  }

  /** `for i, x in enumerate(s): if p(x): out.append(i)`. */
  method CollectPositions<T>(s: seq<T>, p: T -> bool) returns (out: seq<nat>)
    ensures out == Positions(s, p)
  {
    out := [];
    var i := 0;
    while i < |s|
      invariant 0 <= i <= |s|
      invariant out == Positions(s[..i], p)
    {
      PositionsSnoc(s, i, p);
      if p(s[i]) {
        out := out + [i];
      }
      i := i + 1;
    }
    assert s[..|s|] == s;
  }

  /** `for i, x in enumerate(s): if p(x): out.append(f(x, i))`. */
  method SelectMapAt<T, U>(s: seq<T>, p: T -> bool, f: (T, nat) -> U) returns (out: seq<U>)
    ensures out == MapAt(s, Positions(s, p), f)
  {
    out := [];
    var i := 0;
    while i < |s|
      invariant 0 <= i <= |s|
      invariant out == MapAt(s, Positions(s[..i], p), f)
    {
      PositionsSnoc(s, i, p);
      MapAtSnoc(s, Positions(s[..i], p), f, i);
      if p(s[i]) {
        out := out + [f(s[i], i)];
      }
      i := i + 1;
    }
    assert s[..|s|] == s;
  }

  /** `for x in s: if p(x): idx += 1; out.append(f(x, idx))`. */
  method SelectMapCounted<T, U>(s: seq<T>, p: T -> bool, f: (T, nat) -> U) returns (out: seq<U>)
    ensures out == MapCounted(s, Positions(s, p), f)
  {
    out := [];
    var idx := 0;
    var i := 0;
    while i < |s|
      invariant 0 <= i <= |s|
      invariant idx == |Positions(s[..i], p)|
      invariant out == MapCounted(s, Positions(s[..i], p), f)
    {
      PositionsSnoc(s, i, p);
      MapCountedSnoc(s, Positions(s[..i], p), f, i);
      if p(s[i]) {
        idx := idx + 1;
        out := out + [f(s[i], idx)];
      }
      i := i + 1;
    }
    assert s[..|s|] == s;
  }

  /** `for i, x in enumerate(s): out.append(f(x, i))`. */
  method MapEnumerate<T, U>(s: seq<T>, f: (T, nat) -> U) returns (out: seq<U>)
    ensures out == MapIndexed(s, f)
  {
    out := [];
    var i := 0;
    while i < |s|
      invariant 0 <= i <= |s|
      invariant out == MapIndexed(s[..i], f)
    {
      MapIndexedSnoc(s, f, i);
      out := out + [f(s[i], i)];
      i := i + 1;
    }
    assert s[..|s|] == s;
  }

  /** `for x in [s[k] for k in pos]: out.append(f(x, k))`. */
  method MapPositions<T, U>(s: seq<T>, pos: seq<nat>, f: (T, nat) -> U) returns (out: seq<U>)
    requires forall k :: 0 <= k < |pos| ==> pos[k] < |s|
    ensures out == MapAt(s, pos, f)
  {
    out := [];
    var k := 0;
    while k < |pos|
      invariant 0 <= k <= |pos|
      invariant out == MapAt(s, pos[..k], f)
    {
      assert pos[..k + 1] == pos[..k] + [pos[k]];
      MapAtSnoc(s, pos[..k], f, pos[k]);
      out := out + [f(s[pos[k]], pos[k])];
      k := k + 1;
    }
    assert pos[..|pos|] == pos;
  }
}
