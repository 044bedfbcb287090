/** The search overlay (extension/src/components/SearchOverlay.jsx): the key handler
    of its input and the conditions under which the results line and the navigation
    buttons are rendered, with the text of the results line. */
module SearchOverlay {
  import opened Strings
  import opened SearchText

  /** The parts of a `keydown` event the handlers read. */
  datatype KeyEvent = KeyEvent(key: string, shiftKey: bool, ctrlKey: bool, metaKey: bool)

  /** Which callback a handler invokes; `preventDefault` accompanies both calls. */
  datatype NavCall = CallNext | CallPrev | NoCall

  /** `handleKeyDown` of the input (SearchOverlay.jsx:22-30). */
  function OverlayKeyDown(e: KeyEvent): (c: NavCall)
    ensures c == CallNext <==> e.key == "Enter" && !e.shiftKey
    ensures c == CallPrev <==> e.key == "Enter" && e.shiftKey
    ensures c == NoCall <==> e.key != "Enter"
  {
    if e.key == "Enter" && !e.shiftKey then CallNext
    else if e.key == "Enter" && e.shiftKey then CallPrev
    else NoCall
  }

  const NoResultsText: string := "No results found"

  /** The text of the results line (SearchOverlay.jsx:81-89): "{i+1} of {N} results"
      with matches, the fixed sentence without. */
  function ResultsLabel(currentIndex: nat, n: nat): (s: string)
    ensures n == 0 ==> s == NoResultsText
    ensures n > 0 ==> s == NatToString(currentIndex + 1) + " of " + NatToString(n) + " results"
    ensures s == NoResultsText <==> n == 0
  {
    if n > 0 then
      NatToStringDigits(currentIndex + 1);
      var line := NatToString(currentIndex + 1) + " of " + NatToString(n) + " results";
      assert line[0] == NatToString(currentIndex + 1)[0] != NoResultsText[0];
      line
    else NoResultsText
  }

  /** What the overlay shows under its input. */
  datatype ResultsInfo = ResultsInfo(text: string, showNav: bool, navDisabled: bool)

  /** `{searchTerm && (...)}` (SearchOverlay.jsx:78-113): nothing for an empty term;
      otherwise the label, and the two buttons only when there are results, each
      `disabled` when the result list is empty. */
  function RenderResultsInfo(searchTerm: string, currentIndex: nat, n: nat): (r: Option<ResultsInfo>)
    ensures r.None? <==> searchTerm == ""
    ensures r.Some? ==> r.value.text == ResultsLabel(currentIndex, n)
    ensures r.Some? ==> (r.value.showNav <==> n > 0)
    ensures r.Some? && r.value.showNav ==> !r.value.navDisabled
  {
    if searchTerm == "" then None
    else Some(ResultsInfo(ResultsLabel(currentIndex, n), n > 0, n == 0))
  }

  /** The label with matches reads back: two different positions or counts never
      give the same text. */
  lemma LabelDeterminesPosition(i: nat, n: nat, i': nat, n': nat)
    requires n > 0 && n' > 0
    requires ResultsLabel(i, n) == ResultsLabel(i', n')
    ensures i == i' && n == n'
  {
    NatToStringDigits(i + 1);
    NatToStringDigits(i' + 1);
    NatToStringDigits(n);
    NatToStringDigits(n');
    LabelFields(NatToString(i + 1), NatToString(n), NatToString(i' + 1), NatToString(n'));
    NatToStringInjective(i + 1, i' + 1);
    NatToStringInjective(n, n');
  }

  /** Two labels built from digit runs agree exactly when their runs do. */
  lemma LabelFields(a: string, b: string, a': string, b': string)
    requires AllDigits(a) && AllDigits(b) && AllDigits(a') && AllDigits(b')
    requires a + " of " + b + " results" == a' + " of " + b' + " results"
    ensures a == a' && b == b'
  {
    var x, x' := b + " results", b' + " results";
    assert a + " of " + b + " results" == a + (" of " + x);
    assert a' + " of " + b' + " results" == a' + (" of " + x');
    assert (" of " + x)[0] == ' ' && (" of " + x')[0] == ' ';
    DigitRunUnique(a, " of " + x, a', " of " + x');
    assert x == (" of " + x)[4..] && x' == (" of " + x')[4..];
    DigitRunUnique(b, " results", b', " results");
  }

  /** Two strings that both start with a maximal run of digits agree on that run. */
  lemma {:induction false} DigitRunUnique(a: string, r: string, a': string, r': string)
    requires AllDigits(a) && AllDigits(a')
    requires r == [] || !IsDigit(r[0])
    requires r' == [] || !IsDigit(r'[0])
    requires a + r == a' + r'
    ensures a == a' && r == r'
    decreases |a|
  {
    if a == [] && a' == [] {
      assert a + r == r && a' + r' == r';
    } else if a == [] || a' == [] {
      assert false;
    } else {
      assert (a + r)[0] == a[0] && (a' + r')[0] == a'[0];
      assert (a + r)[1..] == a[1..] + r && (a' + r')[1..] == a'[1..] + r';
      DigitRunUnique(a[1..], r, a'[1..], r');
      assert a == [a[0]] + a[1..] && a' == [a'[0]] + a'[1..];
    }
  }

  /** The position shown by the label is `currentIndex + 1`, in `1..N`. */
  lemma ShownPositionInRange(i: nat, n: nat)
    requires i < n
    ensures var s := ResultsLabel(i, n);
      exists k :: 1 <= k <= n && s == NatToString(k) + " of " + NatToString(n) + " results"
  {
    assert ResultsLabel(i, n) == NatToString(i + 1) + " of " + NatToString(n) + " results";
  }
}
