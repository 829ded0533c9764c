/** The list comprehension `[f(x) for x in s if keep(x)]` and the
    positions of `s` it selects. */
module Comprehension {

  /** `[f(x) for x in s if keep(x)]` */
  function FilterMap<T, U>(s: seq<T>, keep: T -> bool, f: T -> U): (r: seq<U>)
    ensures |r| <= |s|
  {
    if s == [] then []
    else FilterMap(s[..|s| - 1], keep, f) + (if keep(s[|s| - 1]) then [f(s[|s| - 1])] else [])
  }

  function Id<T>(x: T): T { x }

  /** `[x for x in s if keep(x)]` */
  function Select<T>(s: seq<T>, keep: T -> bool): seq<T>
  {
    FilterMap(s, keep, Id)
  }

  predicate StrictlyIncreasing(p: seq<nat>)
  {
    forall i, j :: 0 <= i < j < |p| ==> p[i] < p[j]
  }

  /** The positions of `s` whose element `keep` accepts, in increasing
      order: exactly those positions and no other. */
  function KeptPositions<T>(s: seq<T>, keep: T -> bool): (p: seq<nat>)
    ensures StrictlyIncreasing(p)
    ensures forall j :: 0 <= j < |p| ==> p[j] < |s| && keep(s[p[j]])
    ensures forall i :: 0 <= i < |s| && keep(s[i]) ==> i in p
  {
    if s == [] then []
    else
      var q := KeptPositions(s[..|s| - 1], keep);
      q + (if keep(s[|s| - 1]) then [|s| - 1] else [])
  }

  /** The comprehension has one element per kept position, and the j-th
      element is `f` applied to the j-th kept element of `s`. */
  lemma {:induction false} FilterMapAt<T, U>(s: seq<T>, keep: T -> bool, f: T -> U)
    ensures |FilterMap(s, keep, f)| == |KeptPositions(s, keep)|
    ensures forall j :: 0 <= j < |KeptPositions(s, keep)| ==>
              FilterMap(s, keep, f)[j] == f(s[KeptPositions(s, keep)[j]])
  {
    if s != [] {
      FilterMapAt(s[..|s| - 1], keep, f);
    }
  }

  /** The comprehension over a concatenation is the concatenation of the
      comprehensions. */
  lemma {:induction false} FilterMapAppend<T, U>(a: seq<T>, b: seq<T>, keep: T -> bool, f: T -> U)
    ensures FilterMap(a + b, keep, f) == FilterMap(a, keep, f) + FilterMap(b, keep, f)
  {
    if b == [] {
      assert a + b == a;
    } else {
      assert (a + b)[..|a + b| - 1] == a + b[..|b| - 1];
      FilterMapAppend(a, b[..|b| - 1], keep, f);
    }
  }

  /** The comprehension read from the front: the first element is tested
      first. */
  lemma FilterMapCons<T, U>(x: T, s: seq<T>, keep: T -> bool, f: T -> U)
    ensures FilterMap([x] + s, keep, f) == (if keep(x) then [f(x)] else []) + FilterMap(s, keep, f)
  {
    FilterMapAppend([x], s, keep, f);
    assert [x][..0] == [];
  }

  /** Selecting from a concatenation selects from each part. */
  lemma SelectAppend<T>(a: seq<T>, b: seq<T>, keep: T -> bool)
    ensures Select(a + b, keep) == Select(a, keep) + Select(b, keep)
  {
    FilterMapAppend(a, b, keep, Id);
  }

  /** The j-th selected element is the element at the j-th kept position. */
  lemma SelectAt<T>(s: seq<T>, keep: T -> bool)
    ensures |Select(s, keep)| == |KeptPositions(s, keep)|
    ensures forall j :: 0 <= j < |KeptPositions(s, keep)| ==>
              Select(s, keep)[j] == s[KeptPositions(s, keep)[j]]
  {
    FilterMapAt(s, keep, Id);
  }

  /** When what `keep` selects from `r` is a prefix of what it selects from
      `t`, two kept elements of `r` occur in `t` in the same order. */
  lemma SelectPrefixOrder<T>(r: seq<T>, t: seq<T>, keep: T -> bool, i: nat, j: nat) returns (p: nat, q: nat)
    requires |Select(r, keep)| <= |Select(t, keep)|
    requires Select(r, keep) == Select(t, keep)[..|Select(r, keep)|]
    requires i < j < |r| && keep(r[i]) && keep(r[j])
    ensures p < q < |t| && t[p] == r[i] && t[q] == r[j]
  {
    SelectAt(r, keep);
    SelectAt(t, keep);
    var pr, pt := KeptPositions(r, keep), KeptPositions(t, keep);
    var a :| 0 <= a < |pr| && pr[a] == i;
    var b :| 0 <= b < |pr| && pr[b] == j;
    assert a < b;
    assert Select(r, keep)[a] == r[i] && Select(r, keep)[b] == r[j];
    p, q := pt[a], pt[b];
  }
}
