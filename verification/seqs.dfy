/**
 Sequence and map helpers shared by the model: distinctness,
 order-preserving selection, the insertion behaviour of an
 insertion-ordered set, and equalities of maps.
 */
module Seqs {

  /** No element occurs twice. */
  predicate Distinct<T(==,!new)>(xs: seq<T>) {
    forall i, j :: 0 <= i < j < |xs| ==> xs[i] != xs[j]
  }

  /** The tail of a distinct sequence is distinct and does not hold the head. */
  lemma DistinctTail<T(!new)>(xs: seq<T>)
    requires xs != [] && Distinct(xs)
    ensures xs[0] !in xs[1..] && Distinct(xs[1..])
  {
  }

  /** The elements of `xs` that satisfy `keep`, in their original order. */
  function Select<T(==,!new)>(xs: seq<T>, keep: T -> bool): (r: seq<T>)
    ensures forall x :: x in r <==> x in xs && keep(x)
    ensures Distinct(xs) ==> Distinct(r)
    ensures |r| <= |xs|
  {
    if xs == [] then []
    else if keep(xs[0]) then
      var rest := Select(xs[1..], keep);
      assert Distinct(xs) ==> xs[0] !in xs[1..];
      [xs[0]] + rest
    else Select(xs[1..], keep)
  }

  /** Two selectors that agree on every element of `xs` select the same elements. */
  lemma {:induction false} SelectCongruent<T(!new)>(xs: seq<T>, k1: T -> bool, k2: T -> bool)
    requires forall i :: 0 <= i < |xs| ==> k1(xs[i]) == k2(xs[i])
    ensures Select(xs, k1) == Select(xs, k2)
  {
    if xs != [] {
      SelectCongruent(xs[1..], k1, k2);
    }
  }

  /** Two updates of the same key: the later one wins. */
  lemma UpdateTwice<K, V>(m: map<K, V>, k: K, a: V, b: V)
    ensures m[k := a][k := b] == m[k := b]
  {
  }

  /** Storing the value a key already has leaves the map as it is. */
  lemma UpdateSame<K, V>(m: map<K, V>, k: K)
    requires k in m
    ensures m[k := m[k]] == m
  {
  }

  /** Two maps with the same keys and the same value at every key are equal. */
  lemma MapsEqual<K(!new), V>(a: map<K, V>, b: map<K, V>)
    requires forall k :: k in a <==> k in b
    requires forall k :: k in a ==> a[k] == b[k]
    ensures a == b
  {
  }

  /** A prefix of a prefix is a prefix. */
  lemma PrefixOfPrefix<T>(a: seq<T>, b: seq<T>, c: seq<T>)
    requires |a| <= |b| <= |c| && b[..|a|] == a && c[..|b|] == b
    ensures c[..|a|] == a
  {
    assert c[..|a|] == c[..|b|][..|a|];
  }

  /**
   Appends to `acc` every element of `xs` that is not yet present, in order:
   the effect of repeated `add` calls on an insertion-ordered set.
   */
  function AddNew<T(==,!new)>(acc: seq<T>, xs: seq<T>): (r: seq<T>)
    ensures forall x :: x in r <==> x in acc || x in xs
    ensures Distinct(acc) ==> Distinct(r)
    ensures |acc| <= |r| && r[..|acc|] == acc
    decreases |xs|
  {
    if xs == [] then acc
    else AddNew(if xs[0] in acc then acc else acc + [xs[0]], xs[1..])
  }

  /** Adding names that are all already present changes nothing. */
  lemma {:induction false} AddNewHeld<T(!new)>(acc: seq<T>, xs: seq<T>)
    requires forall x :: x in xs ==> x in acc
    ensures AddNew(acc, xs) == acc
    decreases |xs|
  {
    if xs != [] {
      assert xs[0] in acc;
      AddNewHeld(acc, xs[1..]);
    }
  }

  /** Adding the same names twice is adding them once. */
  lemma AddNewTwice<T(!new)>(acc: seq<T>, xs: seq<T>)
    ensures AddNew(AddNew(acc, xs), xs) == AddNew(acc, xs)
  {
    AddNewHeld(AddNew(acc, xs), xs);
  }
}
