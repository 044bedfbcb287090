/** The chat sidebar (extension/src/components/ChatSidebar.jsx): the submit handler of
    its form, the condition that disables the send button, and the rendering of a
    video duration as minutes and seconds. */
module ChatSidebar {
  import opened Strings
  import opened SearchText

  /** `window.location.hostname` names a local development server. */
  predicate IsDevelopment(hostname: string)
  {
    hostname == "localhost" || hostname == "127.0.0.1"
  }

  /** `canInteract = isOnYouTube || isDevelopment` (ChatSidebar.jsx:29-32). */
  predicate CanInteract(isOnYouTube: bool, hostname: string)
  {
    isOnYouTube || IsDevelopment(hostname)
  }

  /** `disabled={!inputValue.trim() || !canInteract || isLoading}` of the send button
      (ChatSidebar.jsx:270). */
  predicate SubmitDisabled(inputValue: string, canInteract: bool, isLoading: bool)
  {
    Trim(inputValue) == [] || !canInteract || isLoading
  }

  /** The test of `handleSubmit` (ChatSidebar.jsx:48). */
  predicate SubmitAccepted(inputValue: string, isLoading: bool)
  {
    Trim(inputValue) != [] && !isLoading
  }

  /** An enabled send button always leads to a question: the button's condition is
      stronger than the handler's.  The converse fails only through `canInteract`,
      which the handler does not consult. */
  lemma EnabledButtonAsks(inputValue: string, canInteract: bool, isLoading: bool)
    ensures !SubmitDisabled(inputValue, canInteract, isLoading) ==> SubmitAccepted(inputValue, isLoading)
    ensures SubmitAccepted(inputValue, isLoading) ==>
      (SubmitDisabled(inputValue, canInteract, isLoading) <==> !canInteract)
    ensures IsBlank(inputValue) ==> SubmitDisabled(inputValue, canInteract, isLoading)
  {
  }

  /** The sidebar's own state: the text being typed. */
  class Sidebar {
    var inputValue: string

    constructor ()
      ensures inputValue == ""
    {
      inputValue := "";
    }

    /** The input's `onChange` (ChatSidebar.jsx:257). */
    method SetInputValue(v: string)
      modifies this
      ensures inputValue == v
    {
      inputValue := v;
    }

    /** `handleSubmit` (ChatSidebar.jsx:46-52): a non-blank input while nothing is
        loading is passed on trimmed (`asked`) and the input is cleared; otherwise
        nothing happens. */
    method HandleSubmit(isLoading: bool) returns (asked: Option<string>)
      modifies this
      ensures SubmitAccepted(old(inputValue), isLoading) ==>
        asked == Some(Trim(old(inputValue))) && inputValue == ""
      ensures !SubmitAccepted(old(inputValue), isLoading) ==>
        asked == None && inputValue == old(inputValue)
      ensures asked.Some? ==> asked.value != [] && asked.value == Trim(asked.value)
    {
      asked := None;
      var t := Trim(inputValue);
      if t != [] && !isLoading {
        TrimIdempotent(inputValue);
        asked := Some(t);
        inputValue := "";
      }
    }
  }

  // ---------------------------------------------------------------------------
  // formatDuration (ChatSidebar.jsx:54-58)

  /** `${mins}:${secs.toString().padStart(2, "0")}` with `mins = Math.floor(s / 60)`
      and `secs = s % 60`, for a whole, non-negative number of seconds. */
  function FormatDuration(seconds: nat): string
  {
    Clock(seconds / 60, seconds % 60)
  }

  /** Minutes, a colon, and the seconds padded to two digits. */
  function Clock(mins: nat, secs: nat): string
  {
    NatToString(mins) + ":" + PadStart(NatToString(secs), 2, '0')
  }

  /** Reads "m:ss" back as a number of seconds. */
  function ParseDuration(t: string): Option<nat>
  {
    if |t| >= 4 && t[|t| - 3] == ':' && AllDigits(t[..|t| - 3]) && AllDigits(t[|t| - 2..])
    then Some(DecimalValue(t[..|t| - 3]) * 60 + DecimalValue(t[|t| - 2..]))
    else None
  }

  /** The minutes field holds the whole minutes and the seconds field is always two
      digits, below 60. */
  lemma FormatDurationFields(seconds: nat)
    ensures var t := FormatDuration(seconds);
      && |t| >= 4 && t[|t| - 3] == ':'
      && t[..|t| - 3] == NatToString(seconds / 60)
      && AllDigits(t[|t| - 2..]) && DecimalValue(t[|t| - 2..]) == seconds % 60 < 60
  {
    ClockFields(seconds / 60, seconds % 60);
  }

  lemma ClockFields(mins: nat, secs: nat)
    requires secs < 60
    ensures var t := Clock(mins, secs);
      && |t| >= 4 && t[|t| - 3] == ':'
      && t[..|t| - 3] == NatToString(mins)
      && AllDigits(t[|t| - 2..]) && DecimalValue(t[|t| - 2..]) == secs
  {
    var d := NatToString(secs);
    NatToStringDigits(secs);
    SmallNatLength(secs);
    PaddedDigits(d);
    NatToStringDigits(mins);
    Fields(NatToString(mins), PadStart(d, 2, '0'));
  }

  /** Below 100, a rendered number has one or two digits. */
  lemma SmallNatLength(k: nat)
    requires k < 100
    ensures |NatToString(k)| <= 2
  {
    if k >= 10 {
      assert NatToString(k) == NatToString(k / 10) + [DigitChar(k % 10)];
    }
  }

  /** The two fields of "a:p" for a two-character `p`. */
  lemma Fields(a: string, p: string)
    requires |a| >= 1 && |p| == 2
    ensures var t := a + ":" + p;
      |t| >= 4 && t[|t| - 3] == ':' && t[..|t| - 3] == a && t[|t| - 2..] == p
  {
  }

  /** Padding one or two digits to two keeps their value. */
  lemma PaddedDigits(d: string)
    requires 1 <= |d| <= 2 && AllDigits(d)
    ensures var p := PadStart(d, 2, '0'); |p| == 2 && AllDigits(p) && DecimalValue(p) == DecimalValue(d)
  {
    var p := PadStart(d, 2, '0');
    if |d| == 1 {
      assert p == ['0'] + d;
      assert p[..1] == ['0'] && ['0'][..0] == [];
      assert d[..0] == [];
    }
  }

  lemma FormatDurationRoundTrip(seconds: nat)
    ensures ParseDuration(FormatDuration(seconds)) == Some(seconds)
  {
    var m, k := seconds / 60, seconds % 60;
    ClockRoundTrip(m, k);
    assert m * 60 + k == seconds;
  }

  lemma ClockRoundTrip(mins: nat, secs: nat)
    requires secs < 60
    ensures ParseDuration(Clock(mins, secs)) == Some(mins * 60 + secs)
  {
    ClockFields(mins, secs);
    NatToStringDigits(mins);
  }
}
