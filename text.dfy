/** The pieces of Python's string handling the query builders rely on:
    `str()` of a non-negative int, `str.strip` with one character, and a
    scan for the next occurrence of a character. */
module Text {
  import opened Wrappers

  predicate IsDigit(c: char) {
    '0' <= c <= '9'
  }

  predicate AllDigits(s: string) {
    forall i :: 0 <= i < |s| ==> IsDigit(s[i])
  }

  /** The decimal digit for `d`. */
  function DigitChar(d: nat): (c: char)
    requires d < 10
    ensures IsDigit(c) && c as int - '0' as int == d
  {
    "0123456789"[d]
  }

  /** Python's `str(n)` for a non-negative int: its decimal digits, most
      significant first, without leading zeros. */
  function NatToString(n: nat): (s: string)
    ensures |s| >= 1 && AllDigits(s)
    ensures s[0] == '0' ==> n == 0 && s == "0"
  {
    if n < 10 then [DigitChar(n)] else NatToString(n / 10) + [DigitChar(n % 10)]
  }

  /** The number a string of decimal digits denotes. */
  function DecimalValue(s: string): nat
    requires AllDigits(s)
  {
    if s == [] then 0
    else 10 * DecimalValue(s[..|s| - 1]) + (s[|s| - 1] as int - '0' as int)
  }

  /** Reading back the decimal text of `n` gives `n`. */
  lemma {:induction false} DecimalRoundTrip(n: nat)
    ensures DecimalValue(NatToString(n)) == n
  {
    if n >= 10 {
      var s := NatToString(n);
      assert s[..|s| - 1] == NatToString(n / 10);
      DecimalRoundTrip(n / 10);
    }
  }

  /** The position of the first `c` in `s`, or `|s|` when there is none. */
  function FindChar(s: string, c: char): (k: nat)
    ensures k <= |s|
    ensures k < |s| ==> s[k] == c
    ensures forall j :: 0 <= j < k ==> s[j] != c
  {
    if s == [] then 0 else if s[0] == c then 0 else 1 + FindChar(s[1..], c)
  }

  /** Locating `c` in `a + b` when `a` holds no `c` and `b` starts with it. */
  lemma FindCharAfter(a: string, c: char, b: string)
    requires c !in a && b != [] && b[0] == c
    ensures FindChar(a + b, c) == |a|
  {
    assert (a + b)[|a|] == c;
  }

  /** The rest of `s` after the literal `p`, when `s` starts with `p`. */
  function DropPrefix(s: string, p: string): (r: Option<string>)
    ensures r.Some? <==> p <= s
    ensures r.Some? ==> s == p + r.value
  {
    if |p| <= |s| && s[..|p|] == p then Some(s[|p|..]) else None
  }

  /** Dropping `p` from `p + t` leaves `t`. */
  lemma DropPrefixOf(p: string, t: string)
    ensures DropPrefix(p + t, p) == Some(t)
  {
    assert (p + t)[..|p|] == p;
  }

  /** `s` cut just before its first `c`: the text before it, and the rest
      starting at it (empty when there is no `c`). */
  function SplitAtChar(s: string, c: char): (r: (string, string))
    ensures r.0 + r.1 == s && c !in r.0
    ensures r.1 == [] || r.1[0] == c
  {
    var k := FindChar(s, c);
    assert s[..k] + s[k..] == s;
    (s[..k], s[k..])
  }

  /** Cutting `a + b` at `c`, where `b` starts with the first `c`, gives `a`
      and `b`. */
  lemma SplitAtCharOf(a: string, c: char, b: string)
    requires c !in a && b != [] && b[0] == c
    ensures SplitAtChar(a + b, c) == (a, b)
  {
    FindCharAfter(a, c, b);
    assert (a + b)[..|a|] == a;
  }

  /** Python's `s.rstrip(c)`: drop every trailing `c`. */
  function TrimRight(s: string, c: char): (r: string)
    ensures r <= s
    ensures forall k :: |r| <= k < |s| ==> s[k] == c
    ensures r == [] || r[|r| - 1] != c
  {
    if s != [] && s[|s| - 1] == c then TrimRight(s[..|s| - 1], c) else s
  }

  /** `rstrip` removes exactly the one trailing `c` that follows `s`. */
  lemma TrimRightOne(s: string, c: char)
    requires s == [] || s[|s| - 1] != c
    ensures TrimRight(s + [c], c) == s
  {
    assert (s + [c])[..|s|] == s;
  }

  /** Python's `s.lstrip(c)`: drop every leading `c`. */
  function TrimLeft(s: string, c: char): (r: string)
    ensures |r| <= |s| && r == s[|s| - |r|..]
    ensures forall k :: 0 <= k < |s| - |r| ==> s[k] == c
    ensures r == [] || r[0] != c
  {
    if s != [] && s[0] == c then TrimLeft(s[1..], c) else s
  }

  /** Python's `s.strip(c)` with a one-character argument: what is left
      neither starts nor ends with `c`. */
  function Strip(s: string, c: char): (r: string)
    ensures |r| <= |s|
    ensures r == [] || (r[0] != c && r[|r| - 1] != c)
  {
    var l := TrimLeft(s, c);
    var r := TrimRight(l, c);
    PrefixEnds(l, r, c);
    r
  }

  /** What `strip` leaves: a prefix of the suffix of `s` from `i`, the number
      of leading copies of `c`, with only copies of `c` cut off on either
      side. */
  lemma StripSlice(s: string, c: char)
    ensures var r, i := Strip(s, c), |s| - |TrimLeft(s, c)|;
      0 <= i <= |s| && r <= s[i..] &&
      (forall k :: 0 <= k < i ==> s[k] == c) &&
      (forall k :: i + |r| <= k < |s| ==> s[k] == c)
  {
    var l := TrimLeft(s, c);
    TrimmedBothEnds(s, l, TrimRight(l, c), c);
  }

  /** Cutting copies of `c` off the front of `s` to leave `l`, then off the
      back of `l` to leave `r`: `r` starts where `l` does in `s`, and all
      that was cut off on either side is copies of `c`. */
  lemma TrimmedBothEnds(s: string, l: string, r: string, c: char)
    requires |l| <= |s| && l == s[|s| - |l|..] && r <= l
    requires forall k :: 0 <= k < |s| - |l| ==> s[k] == c
    requires forall k :: |r| <= k < |l| ==> l[k] == c
    ensures var i := |s| - |l|;
      0 <= i <= |s| && r <= s[i..] &&
      (forall k :: 0 <= k < i ==> s[k] == c) &&
      (forall k :: i + |r| <= k < |s| ==> s[k] == c)
  {
    var i := |s| - |l|;
    forall k | i + |r| <= k < |s| ensures s[k] == c {
      assert s[k] == l[k - i];
    }
  }

  /** A prefix `r` of `l` starts as `l` does; if `l` does not start with `c`
      and `r` does not end with it, `r` has `c` at neither end. */
  lemma PrefixEnds(l: string, r: string, c: char)
    requires r <= l && (l == [] || l[0] != c) && (r == [] || r[|r| - 1] != c)
    ensures r == [] || (r[0] != c && r[|r| - 1] != c)
  {
    assert r == [] || r[0] == l[0];
  }

  /** `strip` keeps a front `p` that neither starts nor ends with `c`,
      whatever follows it. */
  lemma StripKeepsFront(p: string, t: string, c: char)
    requires p != [] && p[0] != c && p[|p| - 1] != c
    ensures p <= Strip(p + t, c)
  {
    var s := p + t;
    assert s[0] == p[0];
    assert TrimLeft(s, c) == s;
    var r := TrimRight(s, c);
    assert s[|p| - 1] == p[|p| - 1];
    assert |r| >= |p|;
    assert r[..|p|] == s[..|p|];
  }

  /** `strip` leaves alone a text that neither starts nor ends with `c`. */
  lemma StripKeeps(s: string, c: char)
    requires s != [] && s[0] != c && s[|s| - 1] != c
    ensures Strip(s, c) == s
  {
    assert TrimLeft(s, c) == s;
  }

  /** `strip` removes exactly one `c` appended to such a text. */
  lemma StripDropsLast(s: string, c: char)
    requires s != [] && s[0] != c && s[|s| - 1] != c
    ensures Strip(s + [c], c) == s
  {
    assert (s + [c])[0] == s[0];
    assert TrimLeft(s + [c], c) == s + [c];
    TrimRightOne(s, c);
  }
}
