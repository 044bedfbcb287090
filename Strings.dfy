/** Character and string helpers shared by the front end (JavaScript) and back end
    (Python) models: one case fold, one whitespace class, substring search,
    trimming, joining and decimal rendering of integers. */
module Strings {

  /** The model's single case fold.  It stands for JavaScript `toLowerCase`, for the
      `i` flag of a regular expression and for Python `str.lower`; only ASCII letters
      are folded. */
  function Fold(c: char): char
  {
    if 'A' <= c <= 'Z' then (c as int + 32) as char else c
  }

  function Lower(s: string): string
  {
    seq(|s|, i requires 0 <= i < |s| => Fold(s[i]))
  }

  /** Lowercasing is idempotent on every string. */
  lemma LowerIdempotent(s: string)
    ensures Lower(Lower(s)) == Lower(s)
  {
    forall i | 0 <= i < |s| ensures Lower(Lower(s))[i] == Lower(s)[i] {
      FoldIdempotent(s[i]);
    }
  }

  lemma FoldIdempotent(c: char)
    ensures Fold(Fold(c)) == Fold(c)
  {
  }

  /** Whitespace as JavaScript `trim` and Python `strip` see it, restricted to ASCII. */
  predicate IsSpace(c: char)
  {
    c == ' ' || c == '\t' || c == '\n' || c == '\r' || c == '\U{B}' || c == '\U{C}'
  }

  predicate IsDigit(c: char)
  {
    '0' <= c <= '9'
  }

  predicate IsAlnum(c: char)
  {
    IsDigit(c) || 'a' <= c <= 'z' || 'A' <= c <= 'Z'
  }

  predicate IsBlank(s: string)
  {
    forall i :: 0 <= i < |s| ==> IsSpace(s[i])
  }

  predicate StartsWith(s: string, prefix: string)
  {
    |prefix| <= |s| && s[..|prefix|] == prefix
  }

  /** `s.includes(t)` / `t in s`: some window of `s` equals `t`. */
  predicate Includes(s: string, t: string)
  {
    exists i :: 0 <= i <= |s| && InfixAt(s, t, i)
  }

  /** `t` occurs in `s` starting at index `i`. */
  predicate InfixAt(s: string, t: string, i: nat)
  {
    i + |t| <= |s| && s[i..i + |t|] == t
  }

  /** Where the blank tail of `s[..j]` starts: scanning back from `j` over whitespace. */
  function TrimEndIndex(s: string, j: nat): (e: nat)
    requires j <= |s|
    ensures e <= j
    ensures forall k :: e <= k < j ==> IsSpace(s[k])
    ensures e == 0 || !IsSpace(s[e - 1])
    decreases j
  {
    if j == 0 || !IsSpace(s[j - 1]) then j else TrimEndIndex(s, j - 1)
  }

  /** Where the blank head of `s[i..e]` ends: scanning forward from `i` over whitespace. */
  function TrimStartIndex(s: string, i: nat, e: nat): (b: nat)
    requires i <= e <= |s|
    ensures i <= b <= e
    ensures forall k :: i <= k < b ==> IsSpace(s[k])
    ensures b == e || !IsSpace(s[b])
    decreases e - i
  {
    if i == e || !IsSpace(s[i]) then i else TrimStartIndex(s, i + 1, e)
  }

  /** Python `str.rstrip()` with no argument. */
  function TrimEnd(s: string): (r: string)
    ensures |r| <= |s| && r == s[..|r|]
    ensures IsBlank(s[|r|..])
    ensures r == [] || !IsSpace(r[|r| - 1])
  {
    s[..TrimEndIndex(s, |s|)]
  }

  /** JavaScript `String.prototype.trim`: the infix between the blank head and the
      blank tail. */
  function Trim(s: string): (r: string)
    ensures r == [] <==> IsBlank(s)
    ensures r == [] || (!IsSpace(r[0]) && !IsSpace(r[|r| - 1]))
  {
    var e := TrimEndIndex(s, |s|);
    var b := TrimStartIndex(s, 0, e);
    s[b..e]
  }

  /** The trimmed string is an infix of `s` whose removed head and tail are blank. */
  lemma TrimSpec(s: string)
    ensures var r := Trim(s);
      exists a :: 0 <= a <= |s| - |r| && s[a..a + |r|] == r && IsBlank(s[..a]) && IsBlank(s[a + |r|..])
  {
    var e := TrimEndIndex(s, |s|);
    var b := TrimStartIndex(s, 0, e);
    var r := Trim(s);
    assert r == s[b..e];
    assert s[b..b + |r|] == r;
    assert IsBlank(s[..b]) && IsBlank(s[b + |r|..]);
  }

  lemma {:induction false} TrimIdempotent(s: string)
    ensures Trim(Trim(s)) == Trim(s)
  {
    var r := Trim(s);
    if r != [] {
      assert TrimEndIndex(r, |r|) == |r|;
      assert TrimStartIndex(r, 0, |r|) == 0;
    }
  }

  /** `sep.join(xs)` in Python; `xs.join(sep)` in JavaScript. */
  function Join(xs: seq<string>, sep: string): string
    decreases |xs|
  {
    if |xs| == 0 then ""
    else if |xs| == 1 then xs[0]
    else xs[0] + sep + Join(xs[1..], sep)
  }

  /** Every joined item appears, in full, in the joined string. */
  lemma {:induction false} JoinContainsItems(xs: seq<string>, sep: string, k: nat)
    requires k < |xs|
    ensures Includes(Join(xs, sep), xs[k])
    decreases |xs|
  {
    var j := Join(xs, sep);
    if k == 0 {
      assert InfixAt(j, xs[0], 0);
    } else {
      JoinContainsItems(xs[1..], sep, k - 1);
      var rest := Join(xs[1..], sep);
      var i :| 0 <= i <= |rest| && InfixAt(rest, xs[k], i);
      var off := |xs[0]| + |sep|;
      assert j == xs[0] + sep + rest;
      assert j[off + i..off + i + |xs[k]|] == rest[i..i + |xs[k]|];
      assert InfixAt(j, xs[k], off + i);
    }
  }

  /** The concatenation of a list of strings, in order. */
  function Concat(ps: seq<string>): string
    decreases |ps|
  {
    if ps == [] then "" else ps[0] + Concat(ps[1..])
  }

  lemma {:induction false} ConcatAppend(a: seq<string>, b: seq<string>)
    ensures Concat(a + b) == Concat(a) + Concat(b)
    decreases |a|
  {
    if a != [] {
      assert (a + b)[1..] == a[1..] + b;
      ConcatAppend(a[1..], b);
    } else {
      assert a + b == b;
    }
  }

  /** Each part of the list appears, in full, in the concatenation. */
  lemma ConcatIncludes(ps: seq<string>, k: nat)
    requires k < |ps|
    ensures InfixAt(Concat(ps), ps[k], |Concat(ps[..k])|)
  {
    assert ps == ps[..k] + ps[k..];
    ConcatAppend(ps[..k], ps[k..]);
    assert Concat(ps[k..]) == ps[k] + Concat(ps[k + 1..]);
    var a, r := Concat(ps[..k]), Concat(ps[k + 1..]);
    assert Concat(ps) == a + ps[k] + r;
    assert (a + ps[k] + r)[|a|..|a| + |ps[k]|] == ps[k];
  }

  /** Every piece sits in the concatenation at the combined length of the pieces
      before it. */
  lemma ConcatInfixes(ps: seq<string>)
    ensures forall k :: 0 <= k < |ps| ==> InfixAt(Concat(ps), ps[k], |Concat(ps[..k])|)
    ensures ps != [] ==> StartsWith(Concat(ps), ps[0])
  {
    forall k | 0 <= k < |ps| ensures InfixAt(Concat(ps), ps[k], |Concat(ps[..k])|) {
      ConcatIncludes(ps, k);
    }
    assert ps[..0] == [];
  }

  /** Python's `s[:n]`. */
  function Take<T>(s: seq<T>, n: nat): (r: seq<T>)
    ensures |r| == if |s| <= n then |s| else n
    ensures r == s[..|r|]
  {
    if |s| <= n then s else s[..n]
  }

  /** JavaScript `s.padStart(n, c)`: `c` repeated in front of `s` up to length `n`. */
  function PadStart(s: string, n: nat, c: char): (r: string)
    ensures |r| == if |s| >= n then |s| else n
    ensures r[|r| - |s|..] == s
    ensures forall i :: 0 <= i < |r| - |s| ==> r[i] == c
    decreases n - |s|
  {
    if |s| >= n then s else PadStart([c] + s, n, c)
  }

  /** Case folding commutes with taking a slice. */
  lemma LowerSlice(s: string, i: nat, j: nat)
    requires i <= j <= |s|
    ensures Lower(s)[i..j] == Lower(s[i..j])
  {
  }

  // ---------------------------------------------------------------------------
  // Decimal rendering: JavaScript `String(n)` / template literals and Python `str(n)`

  function DigitChar(d: nat): (c: char)
    requires d < 10
    ensures IsDigit(c)
  {
    ('0' as int + d) as char
  }

  function DigitValue(c: char): (d: nat)
    requires IsDigit(c)
    ensures d < 10
  {
    c as int - '0' as int
  }

  predicate AllDigits(s: string)
  {
    forall i :: 0 <= i < |s| ==> IsDigit(s[i])
  }

  function NatToString(n: nat): string
    decreases n
  {
    if n < 10 then [DigitChar(n)] else NatToString(n / 10) + [DigitChar(n % 10)]
  }

  function IntToString(n: int): string
  {
    if n < 0 then "-" + NatToString(-n) else NatToString(n)
  }

  /** The number a run of decimal digits denotes. */
  function DecimalValue(s: string): nat
    requires AllDigits(s)
    decreases |s|
  {
    if s == [] then 0
    else DecimalValue(s[..|s| - 1]) * 10 + DigitValue(s[|s| - 1])
  }

  /** Rendering a natural number gives a non-empty run of digits without a leading
      zero (unless it is "0") that reads back as the number. */
  lemma {:induction false} NatToStringDigits(n: nat)
    ensures var s := NatToString(n);
      |s| >= 1 && AllDigits(s) && DecimalValue(s) == n && (|s| > 1 ==> s[0] != '0')
    decreases n
  {
    if n >= 10 {
      NatToStringDigits(n / 10);
      var p := NatToString(n / 10);
      var s := p + [DigitChar(n % 10)];
      assert s[..|s| - 1] == p;
      assert s[0] == p[0];
    }
  }

  /** Rendering is injective on the naturals. */
  lemma NatToStringInjective(m: nat, n: nat)
    requires NatToString(m) == NatToString(n)
    ensures m == n
  {
    NatToStringDigits(m);
    NatToStringDigits(n);
  }
}
