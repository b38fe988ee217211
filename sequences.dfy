/**
 * Sequence helpers for the collection methods the learner relies on:
 * Ruby's `Array#uniq` (keep the first occurrence of each element, in order).
 */
module Sequences {

  /** No element occurs twice. */
  predicate NoDup<T(==)>(s: seq<T>) {
    forall i, j | 0 <= i < j < |s| :: s[i] != s[j]
  }

  /** The position of the first occurrence of `x` in `s`. */
  function FirstIndex<T(==)>(s: seq<T>, x: T): (k: nat)
    requires x in s
    ensures k < |s| && s[k] == x
    ensures forall j | 0 <= j < k :: s[j] != x
  {
    if s[0] == x then 0 else 1 + FirstIndex(s[1..], x)
  }

  /**
   * `s.uniq`: the distinct elements of `s`, each kept at its first
   * occurrence.  Defined by extending the result of the prefix with the
   * last element when that element is new.
   */
  function Uniq<T(==)>(s: seq<T>): (u: seq<T>)
    ensures NoDup(u)
    ensures forall x <- u :: x in s
    ensures forall x <- s :: x in u
    ensures |u| <= |s|
  {
    if s == [] then []
    else
      var u := Uniq(s[..|s| - 1]);
      if s[|s| - 1] in u then u else u + [s[|s| - 1]]
  }

  /** Extending a sequence does not move a first occurrence already there. */
  lemma {:induction false} FirstIndexOfPrefix<T>(s: seq<T>, x: T, y: T)
    requires y in s
    ensures FirstIndex(s + [x], y) == FirstIndex(s, y)
  {
    if s[0] != y {
      assert (s + [x])[1..] == s[1..] + [x];
      FirstIndexOfPrefix(s[1..], x, y);
    }
  }

  /** A first occurrence found past the end of a prefix is the new last element. */
  lemma FirstIndexOfNew<T>(s: seq<T>, x: T)
    requires x !in s
    ensures FirstIndex(s + [x], x) == |s|
  {
  }

  /**
   * `uniq` keeps first-occurrence order: earlier elements of `Uniq(s)`
   * occur earlier in `s`.
   */
  lemma {:induction false} UniqFirstOccurrenceOrder<T>(s: seq<T>, i: nat, j: nat)
    requires i < j < |Uniq(s)|
    ensures FirstIndex(s, Uniq(s)[i]) < FirstIndex(s, Uniq(s)[j])
  {
    var p, x := s[..|s| - 1], s[|s| - 1];
    assert s == p + [x];
    var u := Uniq(p);
    if x in u {
      UniqFirstOccurrenceOrder(p, i, j);
      FirstIndexOfPrefix(p, x, u[i]);
      FirstIndexOfPrefix(p, x, u[j]);
    } else if j < |u| {
      UniqFirstOccurrenceOrder(p, i, j);
      FirstIndexOfPrefix(p, x, u[i]);
      FirstIndexOfPrefix(p, x, u[j]);
    } else {
      FirstIndexOfPrefix(p, x, u[i]);
      FirstIndexOfNew(p, x);
    }
  }
}
