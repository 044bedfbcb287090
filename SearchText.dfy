/** The text side of the in-page search (extension/src/hooks/useSearch.js): escaping the
    term, what the compiled pattern denotes, case-insensitive literal matching and the
    capturing-group `split` that cuts a text node into plain and matched parts. */
module SearchText {
  import opened Strings

  datatype Option<+T> = None | Some(value: T)

  /** The regular-expression syntax characters of JavaScript. */
  const Syntax: string := "^$\\.*+?()[]{}|"

  /** The characters the escaping `replace` of useSearch.js:62 prefixes with a backslash.
      Its class is written inside a template literal as `[.*+?^${"()"}|\[\]\\\\]`, so
      besides `. * + ? ^ $ { } ( ) | [ ] \` it also holds the double quote. */
  const Escaped: string := ".*+?^${\"()}|[]\\"

  function EscapeChar(c: char): string
  {
    if c in Escaped then ['\\', c] else [c]
  }

  /** `term.replace(/[...]/g, "\\$&")`. */
  function Escape(term: string): string
    decreases |term|
  {
    if term == [] then [] else EscapeChar(term[0]) + Escape(term[1..])
  }

  /** The literal string a pattern made of plain characters and escaped characters
      matches, as the JavaScript regular-expression engine reads it: `\c` for an escapable
      `c` stands for `c`; any other character but a syntax character stands for itself.
      `None` marks a pattern outside that fragment (an unescaped syntax character, or a
      backslash the model does not interpret). */
  function CompileLiteral(p: string): Option<string>
    decreases |p|
  {
    if p == [] then Some([])
    else if p[0] == '\\' then
      if |p| >= 2 && p[1] in Escaped then
        match CompileLiteral(p[2..])
        case Some(r) => Some([p[1]] + r)
        case None => None
      else None
    else if p[0] in Syntax then None
    else
      match CompileLiteral(p[1..])
      case Some(r) => Some([p[0]] + r)
      case None => None
  }

  /** A pattern `(` lit `)`: one capturing group around a literal. */
  function CompileGroup(p: string): Option<string>
  {
    if |p| >= 2 && p[0] == '(' && p[|p| - 1] == ')' then CompileLiteral(p[1..|p| - 1]) else None
  }

  /** Escaping makes matching literal: the escaped term denotes exactly the term,
      whatever syntax characters it holds. */
  lemma {:induction false} EscapeIsLiteral(term: string)
    ensures CompileLiteral(Escape(term)) == Some(term)
    decreases |term|
  {
    if term != [] {
      var c := term[0];
      var rest := Escape(term[1..]);
      EscapeIsLiteral(term[1..]);
      assert Escape(term) == EscapeChar(c) + rest;
      if c in Escaped {
        assert (EscapeChar(c) + rest)[2..] == rest;
      } else {
        assert c !in Syntax;
        assert (EscapeChar(c) + rest)[1..] == rest;
      }
      assert [c] + term[1..] == term;
    }
  }

  /** The pattern of useSearch.js:61-64 is one group around the literal term. */
  lemma PatternIsLiteralGroup(term: string)
    ensures CompileGroup("(" + Escape(term) + ")") == Some(term)
  {
    var p := "(" + Escape(term) + ")";
    assert p[1..|p| - 1] == Escape(term);
    EscapeIsLiteral(term);
  }

  // ---------------------------------------------------------------------------
  // Case-insensitive literal matching

  /** The literal `lit` matches `text` at index `i`, ignoring case: character by
      character, the folded window starting at `i` equals the folded literal. */
  predicate MatchAt(text: string, lit: string, i: nat)
  {
    i + |lit| <= |text| && FoldEqFrom(text, lit, i, 0)
  }

  /** From position `k` of the literal on, `text` (read from `i + k`) and `lit` agree
      up to case. */
  predicate FoldEqFrom(text: string, lit: string, i: nat, k: nat)
    requires i + |lit| <= |text| && k <= |lit|
    decreases |lit| - k
  {
    k == |lit| || (Fold(text[i + k]) == Fold(lit[k]) && FoldEqFrom(text, lit, i, k + 1))
  }

  lemma {:induction false} FoldEqFromLower(text: string, lit: string, i: nat, k: nat)
    requires i + |lit| <= |text| && k <= |lit|
    ensures FoldEqFrom(text, lit, i, k) <==> Lower(text[i + k..i + |lit|]) == Lower(lit[k..])
    decreases |lit| - k
  {
    var u, v := text[i + k..i + |lit|], lit[k..];
    if k < |lit| {
      FoldEqFromLower(text, lit, i, k + 1);
      assert u[1..] == text[i + k + 1..i + |lit|] && v[1..] == lit[k + 1..];
      assert Lower(u)[1..] == Lower(u[1..]) && Lower(v)[1..] == Lower(v[1..]);
      if Lower(u) == Lower(v) {
        assert Lower(u)[0] == Lower(v)[0];
      }
      if Fold(u[0]) == Fold(v[0]) && Lower(u[1..]) == Lower(v[1..]) {
        assert Lower(u) == [Fold(u[0])] + Lower(u[1..]);
        assert Lower(v) == [Fold(v[0])] + Lower(v[1..]);
      }
    } else {
      assert u == [] && v == [];
    }
  }

  /** `MatchAt` is the case-insensitive comparison of the window with the literal. */
  lemma MatchAtLower(text: string, lit: string, i: nat)
    ensures MatchAt(text, lit, i) <==> i + |lit| <= |text| && Lower(text[i..i + |lit|]) == Lower(lit)
  {
    if i + |lit| <= |text| {
      FoldEqFromLower(text, lit, i, 0);
      assert lit[0..] == lit;
    }
  }

  predicate NoMatch(text: string, lit: string)
  {
    forall j :: 0 <= j <= |text| ==> !MatchAt(text, lit, j)
  }

  /** The regex engine's search: the leftmost match at or after `from`. */
  function FirstMatchFrom(text: string, lit: string, from: nat): (r: Option<nat>)
    requires |lit| > 0 && from <= |text|
    ensures r.Some? ==> from <= r.value && r.value + |lit| <= |text|
    decreases |text| - from
  {
    if from + |lit| > |text| then None
    else if MatchAt(text, lit, from) then Some(from)
    else FirstMatchFrom(text, lit, from + 1)
  }

  /** The search finds a match exactly where one is, and none is skipped. */
  lemma {:induction false} FirstMatchSpec(text: string, lit: string, from: nat)
    requires |lit| > 0 && from <= |text|
    ensures var r := FirstMatchFrom(text, lit, from);
      && (r.Some? ==> MatchAt(text, lit, r.value))
      && (r.Some? ==> forall j :: from <= j < r.value ==> !MatchAt(text, lit, j))
      && (r.None? ==> forall j :: from <= j <= |text| ==> !MatchAt(text, lit, j))
    decreases |text| - from
  {
    if from + |lit| <= |text| && !MatchAt(text, lit, from) {
      FirstMatchSpec(text, lit, from + 1);
    }
  }

  /** A match inside a slice is a match of the whole text, shifted. */
  lemma MatchInSlice(text: string, lit: string, a: nat, b: nat, j: nat)
    requires a <= b <= |text|
    requires MatchAt(text[a..b], lit, j)
    ensures MatchAt(text, lit, a + j)
  {
    var n := |lit|;
    MatchAtLower(text[a..b], lit, j);
    MatchAtLower(text, lit, a + j);
    var u, v := text[a..b][j..j + n], text[a + j..a + j + n];
    forall i | 0 <= i < n ensures u[i] == v[i] {
      assert u[i] == text[a + j + i];
    }
    assert u == v;
  }

  /** `text.split(regex)` for the pattern `(lit)` with flags `gi`: the text between
      matches at even indices, the matched text (the captured group) at odd indices. */
  function Split(text: string, lit: string): (parts: seq<string>)
    requires |lit| > 0
    decreases |text|
  {
    match FirstMatchFrom(text, lit, 0)
    case None => [text]
    case Some(i) => [text[..i], text[i..i + |lit|]] + Split(text[i + |lit|..], lit)
  }

  /** What the split promises: an odd number of parts that concatenate back to the
      text, every odd part a case-insensitive occurrence of the literal, and no even
      part holding one. */
  lemma {:induction false} SplitSpec(text: string, lit: string)
    requires |lit| > 0
    ensures var parts := Split(text, lit);
      && |parts| % 2 == 1
      && Concat(parts) == text
      && (forall k :: 0 <= k < |parts| && k % 2 == 1 ==> Lower(parts[k]) == Lower(lit))
      && (forall k :: 0 <= k < |parts| && k % 2 == 0 ==> NoMatch(parts[k], lit))
    decreases |text|
  {
    FirstMatchSpec(text, lit, 0);
    match FirstMatchFrom(text, lit, 0)
    case None =>
      assert NoMatch(text, lit);
    case Some(i) =>
      SplitSpec(text[i + |lit|..], lit);
      SplitStep(text, lit, i, Split(text[i + |lit|..], lit));
  }

  /** One step of `Split`: the text before the leftmost match, the match, then the
      parts of the remainder keep the shape `Split` promises. */
  lemma SplitStep(text: string, lit: string, i: nat, rest: seq<string>)
    requires |lit| > 0 && i + |lit| <= |text|
    requires MatchAt(text, lit, i) && forall j :: 0 <= j < i ==> !MatchAt(text, lit, j)
    requires |rest| % 2 == 1 && Concat(rest) == text[i + |lit|..]
    requires forall k :: 0 <= k < |rest| && k % 2 == 1 ==> Lower(rest[k]) == Lower(lit)
    requires forall k :: 0 <= k < |rest| && k % 2 == 0 ==> NoMatch(rest[k], lit)
    ensures var parts := [text[..i], text[i..i + |lit|]] + rest;
      && |parts| % 2 == 1
      && Concat(parts) == text
      && (forall k :: 0 <= k < |parts| && k % 2 == 1 ==> Lower(parts[k]) == Lower(lit))
      && (forall k :: 0 <= k < |parts| && k % 2 == 0 ==> NoMatch(parts[k], lit))
  {
    var n := |lit|;
    var parts := [text[..i], text[i..i + n]] + rest;
    MatchAtLower(text, lit, i);
    assert parts[1..] == [text[i..i + n]] + rest;
    assert parts[1..][1..] == rest;
    assert Concat(parts) == text[..i] + (text[i..i + n] + Concat(rest));
    assert text[..i] + (text[i..i + n] + text[i + n..]) == text;
    forall j | 0 <= j <= i ensures !MatchAt(text[..i], lit, j) {
      if MatchAt(text[..i], lit, j) {
        MatchInSlice(text, lit, 0, i, j);
      }
    }
    assert NoMatch(parts[0], lit);
    forall k | 2 <= k < |parts|
      ensures parts[k] == rest[k - 2]
    {
    }
  }

  /** The node is split into more than one part exactly when the acceptance test of
      useSearch.js:43 (`toLowerCase().includes`) holds: the filter and the split agree. */
  lemma SplitFindsMatch(text: string, lit: string)
    requires |lit| > 0
    ensures |Split(text, lit)| > 1 <==> Includes(Lower(text), Lower(lit))
  {
    var low := Lower(text);
    FirstMatchSpec(text, lit, 0);
    match FirstMatchFrom(text, lit, 0)
    case None =>
      if Includes(low, Lower(lit)) {
        var i :| 0 <= i <= |low| && InfixAt(low, Lower(lit), i);
        LowerSlice(text, i, i + |lit|);
        MatchAtLower(text, lit, i);
        assert false;
      }
    case Some(i) =>
      LowerSlice(text, i, i + |lit|);
      MatchAtLower(text, lit, i);
      assert InfixAt(low, Lower(lit), i);
  }
}
