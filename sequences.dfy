/** Sequences as the event search uses them: an order-preserving selection
  * (what `Array.prototype.filter` returns) and a JavaScript `Set`, which
  * keeps its elements once each in first-insertion order. */
module Sequences {

  /** `a` is obtained from `b` by deleting elements, keeping the rest in order. */
  predicate IsSubsequence<T(==)>(a: seq<T>, b: seq<T>)
    decreases |b|
  {
    if b == [] then a == []
    else (a != [] && a[0] == b[0] && IsSubsequence(a[1..], b[1..])) || IsSubsequence(a, b[1..])
  }

  lemma {:induction false} SubsequenceReflexive<T>(s: seq<T>)
    ensures IsSubsequence(s, s)
    decreases |s|
  {
    if s != [] {
      SubsequenceReflexive(s[1..]);
    }
  }

  /** One more element at the end of `b` keeps `a` a subsequence, with or
    * without that element appended to `a` as well. */
  lemma {:induction false} SubsequenceSnoc<T>(a: seq<T>, b: seq<T>, x: T)
    requires IsSubsequence(a, b)
    ensures IsSubsequence(a, b + [x]) && IsSubsequence(a + [x], b + [x])
    decreases |b|
  {
    if b == [] {
      assert IsSubsequence([x][1..], []);
    } else {
      assert (b + [x])[1..] == b[1..] + [x];
      if a != [] && a[0] == b[0] && IsSubsequence(a[1..], b[1..]) {
        SubsequenceSnoc(a[1..], b[1..], x);
        assert (a + [x])[1..] == a[1..] + [x];
      } else {
        SubsequenceSnoc(a, b[1..], x);
      }
    }
  }

  predicate NoDuplicates<T(==)>(s: seq<T>) {
    forall i, j :: 0 <= i < j < |s| ==> s[i] != s[j]
  }

  /** `set.add(x)` on a `Set` whose iteration order is `items`: afterwards the
    * set holds `x` and what it held before, the old elements keep their
    * places, at most one element is appended, and no element is repeated. */
  function Insert<T(==,!new)>(items: seq<T>, x: T): (r: seq<T>)
    ensures forall y :: y in r <==> y in items || y == x
    ensures items <= r && |r| <= |items| + 1
    ensures NoDuplicates(items) ==> NoDuplicates(r)
  {
    if x in items then items else items + [x]
  }

  /** `Array.from` of a `Set` into which the elements of `s` were added in order. */
  function FromSeq<T(==,!new)>(s: seq<T>): (r: seq<T>)
    ensures NoDuplicates(r)
    ensures forall x :: x in r <==> x in s
  {
    if s == [] then [] else Insert(FromSeq(s[..|s| - 1]), s[|s| - 1])
  }

  /** Adding one more element is one `set.add`. */
  lemma FromSeqAppend<T(!new)>(s: seq<T>, x: T)
    ensures FromSeq(s + [x]) == Insert(FromSeq(s), x)
  {
    assert (s + [x])[..|s|] == s;
  }

  /** The position of the first occurrence of `x` in `s`. */
  function FirstIndex<T(==)>(s: seq<T>, x: T): (k: nat)
    requires x in s
    ensures k < |s| && s[k] == x && x !in s[..k]
  {
    if s[0] == x then 0 else 1 + FirstIndex(s[1..], x)
  }

  lemma FirstIndexUnique<T>(s: seq<T>, x: T, k: nat)
    requires k < |s| && s[k] == x && x !in s[..k]
    ensures FirstIndex(s, x) == k
  {
  }

  lemma FirstIndexAppend<T>(s: seq<T>, x: T, y: T)
    requires y in s
    ensures FirstIndex(s + [x], y) == FirstIndex(s, y)
  {
    var k := FirstIndex(s, y);
    assert (s + [x])[..k] == s[..k];
    FirstIndexUnique(s + [x], y, k);
  }

  /** The elements of `FromSeq(s)` come in the order of their first occurrence in `s`. */
  lemma {:induction false} FromSeqFirstOccurrenceOrder<T(!new)>(s: seq<T>)
    ensures forall i, j :: 0 <= i < j < |FromSeq(s)| ==>
      FirstIndex(s, FromSeq(s)[i]) < FirstIndex(s, FromSeq(s)[j])
    decreases |s|
  {
    if s != [] {
      var p, x := s[..|s| - 1], s[|s| - 1];
      assert s == p + [x];
      var rp := FromSeq(p);
      FromSeqFirstOccurrenceOrder(p);
      forall y | y in p ensures FirstIndex(s, y) == FirstIndex(p, y) {
        FirstIndexAppend(p, x, y);
      }
      if x !in rp {
        assert x !in s[..|p|] by { assert s[..|p|] == p; }
        FirstIndexUnique(s, x, |p|);
      }
    }
  }

  lemma PrefixTransitive<T>(a: seq<T>, b: seq<T>, c: seq<T>)
    requires a <= b && b <= c
    ensures a <= c
  {
    assert c[..|b|][..|a|] == c[..|a|];
  }

  /** Adding more elements to a `Set` never reorders the ones already there. */
  lemma {:induction false} FromSeqPrefix<T(!new)>(p: seq<T>, q: seq<T>)
    ensures FromSeq(p) <= FromSeq(p + q)
    decreases |q|
  {
    if q == [] {
      assert p + q == p;
    } else {
      var q', x := q[..|q| - 1], q[|q| - 1];
      FromSeqPrefix(p, q');
      assert p + q == (p + q') + [x];
      FromSeqAppend(p + q', x);
      PrefixTransitive(FromSeq(p), FromSeq(p + q'), FromSeq(p + q));
    }
  }

  lemma FromSeqOfPrefix<T(!new)>(p: seq<T>, s: seq<T>)
    requires p <= s
    ensures FromSeq(p) <= FromSeq(s)
  {
    FromSeqPrefix(p, s[|p|..]);
    assert p + s[|p|..] == s;
  }
}
