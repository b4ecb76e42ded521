/**
 * String primitives shared by the hand-written regular-expression scanners:
 * literal and case-insensitive prefix tests, the JavaScript white-space class,
 * leftmost and rightmost searches, `String.prototype.trim`, and the decimal
 * rendering of a number inside a template literal.
 */
module Text {
  import opened Wrappers

  /** The code points of ECMAScript's WhiteSpace and LineTerminator productions:
      what the regular-expression class `\s` matches and what `trim` removes. */
  predicate IsSpace(c: char) {
    || c == '\t' || c == '\n' || c == '\U{000B}' || c == '\U{000C}' || c == '\r'
    || c == ' ' || c == '\U{00A0}' || c == '\U{1680}' || ('\U{2000}' <= c <= '\U{200A}')
    || c == '\U{2028}' || c == '\U{2029}' || c == '\U{202F}' || c == '\U{205F}'
    || c == '\U{3000}' || c == '\U{FEFF}'
  }

  /** `w` occurs in `s` at index `i`. */
  predicate StartsWith(s: string, i: nat, w: string) {
    i + |w| <= |s| && s[i..i + |w|] == w
  }

  /** `String.prototype.endsWith`. */
  predicate EndsWith(s: string, w: string) {
    |w| <= |s| && s[|s| - |w|..] == w
  }

  /** No character of `s[a..b]` is `c`. */
  predicate NoneOf(s: string, a: nat, b: nat, c: char) {
    b <= |s| && forall k :: a <= k < b ==> s[k] != c
  }

  /** Every character of `s[a..b]` is white space. */
  predicate AllSpace(s: string, a: nat, b: nat) {
    b <= |s| && forall k :: a <= k < b ==> IsSpace(s[k])
  }

  /** ASCII upper case; every other character is its own upper case. */
  function AsciiUpper(c: char): char {
    if 'a' <= c <= 'z' then (c as int - 32) as char else c
  }

  /** A character of the subject matches a (lower-case ASCII) pattern character under the
      `i` flag without `u`: non-ASCII characters never fold onto ASCII ones there. */
  predicate CiCharEq(c: char, p: char) {
    c == p || c == AsciiUpper(p)
  }

  /** `w` occurs in `s` at index `i`, ignoring ASCII case. */
  predicate CiStartsWith(s: string, i: nat, w: string) {
    i + |w| <= |s| && forall k :: 0 <= k < |w| ==> CiCharEq(s[i + k], w[k])
  }

  /** The least `k` in `[lo, hi)` with `P(k)`, or `hi` when there is none: the position at
      which a leftmost regular-expression search stops. */
  function FirstWhere(lo: nat, hi: nat, P: nat -> bool): (k: nat)
    requires lo <= hi
    ensures lo <= k <= hi
    ensures k < hi ==> P(k)
    ensures forall m :: lo <= m < k ==> !P(m)
    decreases hi - lo
  {
    if lo == hi then hi
    else if P(lo) then lo
    else FirstWhere(lo + 1, hi, P)
  }

  /** The greatest `k` in `[lo, hi)` with `P(k)`: the choice a greedy quantifier ends up with
      after backtracking, or the answer of `lastIndexOf`. */
  function LastWhere(lo: nat, hi: nat, P: nat -> bool): (r: Option<nat>)
    requires lo <= hi
    ensures r.Some? ==> lo <= r.value < hi && P(r.value)
    ensures r.Some? ==> forall m :: r.value < m < hi ==> !P(m)
    ensures r.None? ==> forall m :: lo <= m < hi ==> !P(m)
    decreases hi - lo
  {
    if lo == hi then None
    else if P(hi - 1) then Some(hi - 1)
    else LastWhere(lo, hi - 1, P)
  }

  /** Index of the first occurrence of `c` in `s` at or after `from`, or `|s|`. */
  function IndexOfFrom(s: string, from: nat, c: char): (k: nat)
    requires from <= |s|
    ensures from <= k <= |s|
    ensures k < |s| ==> s[k] == c
    ensures NoneOf(s, from, k, c)
  {
    var P := (m: nat) => m < |s| && s[m] == c;
    var k := FirstWhere(from, |s|, P);
    forall m: nat | from <= m < k ensures s[m] != c { assert !P(m); }
    k
  }

  /** The first `c` at or after `from` is the one with no `c` between `from` and it. */
  lemma IndexOfFromUnique(s: string, from: nat, c: char, k: nat)
    requires from <= k < |s| && s[k] == c && NoneOf(s, from, k, c)
    ensures IndexOfFrom(s, from, c) == k
  {
  }

  /** End of the run of white space that starts at `from`: where a greedy `\s*` stops. */
  function SpaceRunEnd(s: string, from: nat): (k: nat)
    requires from <= |s|
    ensures from <= k <= |s|
    ensures AllSpace(s, from, k)
    ensures k < |s| ==> !IsSpace(s[k])
  {
    var P := (m: nat) => m < |s| && !IsSpace(s[m]);
    var k := FirstWhere(from, |s|, P);
    forall m: nat | from <= m < k ensures IsSpace(s[m]) { assert !P(m); }
    k
  }

  /** The run of white space that starts at `from` ends at the first non-space character,
      or at the end of `s`. */
  lemma SpaceRunEndUnique(s: string, from: nat, k: nat)
    requires from <= k <= |s| && AllSpace(s, from, k) && (k == |s| || !IsSpace(s[k]))
    ensures SpaceRunEnd(s, from) == k
  {
  }

  /** `s` without its leading white space. */
  function TrimStart(s: string): (r: string)
    ensures |r| <= |s| && r == s[|s| - |r|..]
    ensures AllSpace(s, 0, |s| - |r|)
    ensures r == [] || !IsSpace(r[0])
  {
    s[SpaceRunEnd(s, 0)..]
  }

  /** `s` without its trailing white space. */
  function TrimEnd(s: string): (r: string)
    ensures |r| <= |s| && r == s[..|r|]
    ensures AllSpace(s, |r|, |s|)
    ensures r == [] || !IsSpace(r[|r| - 1])
    decreases |s|
  {
    if s != [] && IsSpace(s[|s| - 1]) then TrimEnd(s[..|s| - 1]) else s
  }

  /** `String.prototype.trim`: the slice of `s` left once white space is cut from both ends. */
  function Trim(s: string): (r: string)
    ensures exists a: nat :: a + |r| <= |s| && r == s[a..a + |r|]
                          && AllSpace(s, 0, a) && AllSpace(s, a + |r|, |s|)
    ensures r == [] || (!IsSpace(r[0]) && !IsSpace(r[|r| - 1]))
  {
    var t := TrimStart(s);
    var r := TrimEnd(t);
    var a := |s| - |t|;
    assert r == s[a..a + |r|];
    assert AllSpace(s, a + |r|, |s|) by {
      forall k | a + |r| <= k < |s| ensures IsSpace(s[k]) {
        assert s[k] == t[k - a];
      }
    }
    r
  }

  /** `trim` gives exactly the slice between the leading and the trailing white space. */
  lemma TrimExact(s: string, a: nat, b: nat)
    requires a < b <= |s| && AllSpace(s, 0, a) && AllSpace(s, b, |s|)
    requires !IsSpace(s[a]) && !IsSpace(s[b - 1])
    ensures Trim(s) == s[a..b]
  {
    SpaceRunEndUnique(s, 0, a);
    var t := s[a..];
    assert AllSpace(t, b - a, |t|) by {
      forall k | b - a <= k < |t| ensures IsSpace(t[k]) { assert t[k] == s[a + k]; }
    }
    TrimEndExact(t, b - a);
  }

  /** `trimEnd` keeps exactly the first `n` characters when the last of them is no space
      and all after them are. */
  lemma {:induction false} TrimEndExact(t: string, n: nat)
    requires 0 < n <= |t| && AllSpace(t, n, |t|) && !IsSpace(t[n - 1])
    ensures TrimEnd(t) == t[..n]
    decreases |t|
  {
    if n < |t| {
      var u := t[..|t| - 1];
      assert AllSpace(u, n, |u|) by {
        forall k | n <= k < |u| ensures IsSpace(u[k]) { assert u[k] == t[k]; }
      }
      TrimEndExact(u, n);
      assert u[..n] == t[..n];
    }
  }

  /** Concatenation is associative. */
  lemma ConcatAssoc(a: string, b: string, c: string)
    ensures a + (b + c) == (a + b) + c
  {
  }

  /** True when `d` is a non-empty string of decimal digits. */
  predicate IsDigits(d: string) {
    |d| > 0 && forall k :: 0 <= k < |d| ==> '0' <= d[k] <= '9'
  }

  /** The number a string of decimal digits denotes. */
  function DecimalValue(d: string): nat
    requires forall k :: 0 <= k < |d| ==> '0' <= d[k] <= '9'
  {
    if d == [] then 0 else 10 * DecimalValue(d[..|d| - 1]) + (d[|d| - 1] as int - '0' as int)
  }

  /** The canonical decimal rendering of `n`, as `${n}` produces for a non-negative integer. */
  function NatToDecimal(n: nat): (d: string)
    ensures IsDigits(d)
    ensures |d| > 1 ==> d[0] != '0'
    ensures DecimalValue(d) == n
  {
    var last := [('0' as int + n % 10) as char];
    if n < 10 then last
    else
      var d := NatToDecimal(n / 10) + last;
      assert d[..|d| - 1] == NatToDecimal(n / 10);
      d
  }
}
