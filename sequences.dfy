/** Sequence helpers that stand for JavaScript's `Array.prototype.map`
    and for "order-preserving subsequence". */
module Sequences {

  /** `xs.map(f)`: the element at each position is `f` of the element at
      the same position of `xs`. */
  function Map<A, B>(f: A -> B, xs: seq<A>): (r: seq<B>)
    ensures |r| == |xs|
    ensures forall i :: 0 <= i < |xs| ==> r[i] == f(xs[i])
  {
    if xs == [] then [] else [f(xs[0])] + Map(f, xs[1..])
  }

  /** `a` is obtained from `b` by dropping some elements and keeping the
      rest in their original order. */
  ghost predicate SubsequenceOf<T>(a: seq<T>, b: seq<T>)
    decreases |b|
  {
    || a == []
    || (b != [] && ((a[0] == b[0] && SubsequenceOf(a[1..], b[1..])) || SubsequenceOf(a, b[1..])))
  }

  /** A subsequence keeps no element that `b` does not have. */
  lemma {:induction false} SubsequenceMembers<T>(a: seq<T>, b: seq<T>)
    requires SubsequenceOf(a, b)
    ensures forall x :: x in a ==> x in b
    decreases |b|
  {
    if a != [] {
      assert forall x :: x in b[1..] ==> x in b;
      if a[0] == b[0] && SubsequenceOf(a[1..], b[1..]) {
        SubsequenceMembers(a[1..], b[1..]);
        assert forall x :: x in a ==> x == a[0] || x in a[1..];
      } else {
        SubsequenceMembers(a, b[1..]);
      }
    }
  }

  /** Removing position `k > 0` is keeping the head and removing position
      `k - 1` of the tail. */
  lemma RemoveAfterHead<T>(s: seq<T>, k: nat)
    requires 0 < k < |s|
    ensures [s[0]] + (s[1..][..k - 1] + s[1..][k..]) == s[..k] + s[k + 1..]
  {
    assert s[1..][..k - 1] == s[1..k] && s[1..][k..] == s[k + 1..];
    assert s[..k] == [s[0]] + s[1..k];
  }

  /** No element occurs twice. */
  ghost predicate Distinct<T>(s: seq<T>)
  {
    forall i, j :: 0 <= i < j < |s| ==> s[i] != s[j]
  }

  /** In a subsequence of a list without repeats, the list's first element
      can only come first: either it heads `a` (and is not in the rest of
      `a`), or `a` is a subsequence of the tail. */
  lemma SubsequenceHead<T>(a: seq<T>, b: seq<T>)
    requires Distinct(b) && b != [] && SubsequenceOf(a, b)
    ensures b[0] in a ==> a[0] == b[0] && SubsequenceOf(a[1..], b[1..]) && b[0] !in a[1..]
    ensures b[0] !in a ==> SubsequenceOf(a, b[1..])
  {
    assert b[0] !in b[1..];
    if a != [] && a[0] == b[0] && SubsequenceOf(a[1..], b[1..]) {
      SubsequenceMembers(a[1..], b[1..]);
    } else if a != [] {
      SubsequenceMembers(a, b[1..]);
    }
  }

  /** A subsequence of a list without repeats is determined by its
      members: two subsequences with the same members are equal. */
  lemma {:induction false} SubsequenceDetermined<T>(a: seq<T>, c: seq<T>, b: seq<T>)
    requires Distinct(b) && SubsequenceOf(a, b) && SubsequenceOf(c, b)
    requires forall x :: x in a <==> x in c
    ensures a == c
    decreases |b|
  {
    if b == [] {
      assert a == [] && c == [];
    } else {
      var t := b[1..];
      assert Distinct(t);
      SubsequenceHead(a, b);
      SubsequenceHead(c, b);
      if b[0] in a {
        assert forall x :: x in a[1..] <==> x in a && x != b[0] by {
          assert a == [a[0]] + a[1..];
        }
        assert forall x :: x in c[1..] <==> x in c && x != b[0] by {
          assert c == [c[0]] + c[1..];
        }
        SubsequenceDetermined(a[1..], c[1..], t);
        assert a == [a[0]] + a[1..] && c == [c[0]] + c[1..];
      } else {
        SubsequenceDetermined(a, c, t);
      }
    }
  }
}
