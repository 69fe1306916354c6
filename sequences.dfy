/** Facts about sequences shared by the query builders: duplicate-freedom and
    the position at which a value first occurs. */
module Sequences {

  /** No value occurs twice in `s`. */
  ghost predicate Distinct<T>(s: seq<T>) {
    forall i, j :: 0 <= i < j < |s| ==> s[i] != s[j]
  }

  /** The index of the first occurrence of `x` in `s`. */
  function FirstIndex<T(==)>(s: seq<T>, x: T): (k: nat)
    requires x in s
    ensures k < |s| && s[k] == x
    ensures forall j :: 0 <= j < k ==> s[j] != x
  {
    if x in s[..|s| - 1] then FirstIndex(s[..|s| - 1], x) else |s| - 1
  }

  /** Appending to a sequence does not move the first occurrence of a value
      that was already there. */
  lemma FirstIndexExtend<T>(s: seq<T>, y: T, x: T)
    requires x in s
    ensures FirstIndex(s + [y], x) == FirstIndex(s, x)
  {
    var k, k' := FirstIndex(s, x), FirstIndex(s + [y], x);
    assert (s + [y])[k] == x;
    assert k' <= k;
    assert s[k'] == x;
  }

  /** `f(x)` for every element `x` of `s`, concatenated in order. */
  function FlatMap<T, U>(f: T -> seq<U>, s: seq<T>): seq<U> {
    if s == [] then [] else FlatMap(f, s[..|s| - 1]) + f(s[|s| - 1])
  }

  /** Flat-mapping two sequences side by side gives the two results side by
      side. */
  lemma {:induction false} FlatMapAppend<T, U>(f: T -> seq<U>, a: seq<T>, b: seq<T>)
    ensures FlatMap(f, a + b) == FlatMap(f, a) + FlatMap(f, b)
    decreases |b|
  {
    if b == [] {
      assert a + b == a;
    } else {
      var init, last := b[..|b| - 1], b[|b| - 1];
      var ab := a + b;
      assert ab[..|ab| - 1] == a + init && ab[|ab| - 1] == last;
      FlatMapAppend(f, a, init);
    }
  }

  /** A single element flat-maps to its own image. */
  lemma FlatMapSingle<T, U>(f: T -> seq<U>, x: T)
    ensures FlatMap(f, [x]) == f(x)
  {
    assert [x][..0] == [];
  }

  /** One more element appends its own image. */
  lemma FlatMapSnoc<T, U>(f: T -> seq<U>, s: seq<T>, i: nat)
    requires i < |s|
    ensures FlatMap(f, s[..i + 1]) == FlatMap(f, s[..i]) + f(s[i])
  {
    assert s[..i + 1][..i] == s[..i];
  }

  lemma AppendAssoc<T>(a: seq<T>, b: seq<T>, c: seq<T>)
    ensures a + b + c == a + (b + c)
  {
  }

  /** The three parts of `a + b + c` sit at their places: `a` in front, `c`
      at the back and `b` between them. */
  lemma Framed<T>(a: seq<T>, b: seq<T>, c: seq<T>)
    ensures var q := a + b + c;
      |a| + |c| <= |q| && q[..|a|] == a && q[|q| - |c|..] == c && q[|a|..|q| - |c|] == b
  {
    var q := a + b + c;
    assert q[..|a|] == a;
    assert q[|q| - |c|..] == c;
    assert q[|a|..|q| - |c|] == b;
  }

  /** `w` sits at the back of `a + w`. */
  lemma EndsWith<T>(a: seq<T>, w: seq<T>)
    ensures (a + w)[|a + w| - |w|..] == w
  {
    assert (a + w)[|a|..] == w;
  }
}
