/** The `/subs` route (backend/routes/get_subs.py): validation of the request, the
    recognition of the error strings that the subtitle fetcher returns in place of
    subtitles, the HTTP status chosen for them, and the cleaned result.  The same
    recognition is repeated by `get_video_info` (backend/youtube_utils/get_info.py),
    modelled here as `InfoTranscript`.

    The fetcher `get_subtitle_content` and the cleaner `processed_transcript` are
    parameters: whatever they compute, the route does what is stated here. */
module GetSubs {
  import opened Strings
  import opened SearchText

  // The messages are spelled in short pieces; the text is the one of
  // get_subs.py:31-38, and the pieces let the proofs below look inside it.

  const VideoUnavailable: string := "Video " + "unavailable" + "."
  const NotAvailableForLanguage: string :=
    "Subtitles " + "not available" + " for the specified language."
  const NotRetrievedFromFile: string :=
    "Subtitles we" + "re requested" + " but could n" + "ot be retrie" + "ved from fil" + "e."
  const NotAvailableOrFailed: string :=
    "Subtitles " + "not available" + " for the specified " + "language or download failed."

  const KnownErrorMessages: seq<string> :=
    [VideoUnavailable, NotAvailableForLanguage, NotRetrievedFromFile, NotAvailableOrFailed]

  const KnownErrorPrefixes: seq<string> :=
    ["Error downloading subtitles:", "An unexpected error occurred while fetching subtitles:"]

  /** The raw text is one of the fetcher's error strings: one of the four messages, or
      starting with one of the two prefixes (get_subs.py:41-48). */
  predicate IsKnownError(raw: string)
  {
    raw in KnownErrorMessages
    || exists j :: 0 <= j < |KnownErrorPrefixes| && StartsWith(raw, KnownErrorPrefixes[j])
  }

  /** The flag `is_actual_error` of get_subs.py:41-48: a membership test, then a loop
      over the prefixes that stops at the first one the text starts with. */
  method IsActualError(raw: string) returns (isActualError: bool)
    ensures isActualError == IsKnownError(raw)
  {
    isActualError := false;
    if raw in KnownErrorMessages {
      isActualError := true;
    } else {
      var k := 0;
      while k < |KnownErrorPrefixes|
        invariant 0 <= k <= |KnownErrorPrefixes|
        invariant !isActualError
        invariant forall j :: 0 <= j < k ==> !StartsWith(raw, KnownErrorPrefixes[j])
      {
        if StartsWith(raw, KnownErrorPrefixes[k]) {
          isActualError := true;
          break;
        }
        k := k + 1;
      }
    }
  }

  /** The words that make an error a "not found" (get_subs.py:52-56). */
  predicate MentionsMissing(raw: string)
  {
    var low := Lower(raw);
    Includes(low, "unavailable") || Includes(low, "not found") || Includes(low, "not available")
  }

  /** The status of a recognised error (get_subs.py:51-57). */
  function ErrorStatus(raw: string): (status: nat)
    ensures status == 404 || status == 500
    ensures status == 404 <==> MentionsMissing(raw)
  {
    if MentionsMissing(raw) then 404 else 500
  }

  /** The status ignores case. */
  lemma ErrorStatusIgnoresCase(raw: string)
    ensures ErrorStatus(Lower(raw)) == ErrorStatus(raw)
  {
    LowerIdempotent(raw);
  }

  // ---------------------------------------------------------------------------
  // The status of each known message

  /** `t` sits between `a` and `c`, so the lowercased text contains it when it is
      already lowercase. */
  lemma IncludesMiddle(a: string, t: string, c: string)
    requires Lower(t) == t
    ensures Includes(Lower(a + t + c), t)
  {
    var s := a + t + c;
    assert s[|a|..|a| + |t|] == t;
    LowerSlice(s, |a|, |a| + |t|);
    assert InfixAt(Lower(s), t, |a|);
  }

  lemma VideoUnavailableIs404()
    ensures ErrorStatus(VideoUnavailable) == 404
  {
    assert Lower("unavailable") == "unavailable";
    IncludesMiddle("Video ", "unavailable", ".");
  }

  lemma NotAvailableForLanguageIs404()
    ensures ErrorStatus(NotAvailableForLanguage) == 404
  {
    assert Lower("not available") == "not available";
    IncludesMiddle("Subtitles ", "not available", " for the specified language.");
  }

  lemma NotAvailableOrFailedIs404()
    ensures ErrorStatus(NotAvailableOrFailed) == 404
  {
    assert Lower("not available") == "not available";
    var c := " for the specified " + "language or download failed.";
    assert NotAvailableOrFailed == "Subtitles " + "not available" + c;
    IncludesMiddle("Subtitles ", "not available", c);
  }

  /** No character of `s[i..]` folds to `c`. */
  predicate FoldFree(s: string, c: char, i: nat)
    decreases |s| - i
  {
    i >= |s| || (Fold(s[i]) != c && FoldFree(s, c, i + 1))
  }

  lemma {:induction false} FoldFreeSpec(s: string, c: char, i: nat)
    requires FoldFree(s, c, i)
    ensures forall j :: i <= j < |s| ==> Fold(s[j]) != c
    decreases |s| - i
  {
    if i < |s| {
      FoldFreeSpec(s, c, i + 1);
    }
  }

  /** No two adjacent characters of `s[i..]` fold to `x` followed by `y`. */
  predicate PairFree(s: string, x: char, y: char, i: nat)
    decreases |s| - i
  {
    i + 1 >= |s| || (!(Fold(s[i]) == x && Fold(s[i + 1]) == y) && PairFree(s, x, y, i + 1))
  }

  lemma {:induction false} PairFreeSpec(s: string, x: char, y: char, i: nat)
    requires PairFree(s, x, y, i)
    ensures forall j :: i <= j < |s| - 1 ==> !(Fold(s[j]) == x && Fold(s[j + 1]) == y)
    decreases |s| - i
  {
    if i + 1 < |s| {
      PairFreeSpec(s, x, y, i + 1);
    }
  }

  /** Two pieces free of a pair, the first not ending in its first character, give a
      whole that is free of it. */
  lemma PairFreeAppend(a: string, b: string, x: char, y: char)
    requires forall j :: 0 <= j < |a| - 1 ==> !(Fold(a[j]) == x && Fold(a[j + 1]) == y)
    requires forall j :: 0 <= j < |b| - 1 ==> !(Fold(b[j]) == x && Fold(b[j + 1]) == y)
    requires a == [] || Fold(a[|a| - 1]) != x
    ensures forall j :: 0 <= j < |a + b| - 1 ==> !(Fold((a + b)[j]) == x && Fold((a + b)[j + 1]) == y)
  {
    var s := a + b;
    forall j | 0 <= j < |s| - 1 ensures !(Fold(s[j]) == x && Fold(s[j + 1]) == y) {
      if j + 1 < |a| {
        assert s[j] == a[j] && s[j + 1] == a[j + 1];
      } else if j + 1 == |a| {
        assert s[j] == a[|a| - 1];
      } else {
        assert s[j] == b[j - |a|] && s[j + 1] == b[j - |a| + 1];
      }
    }
  }

  /** Text in which no character folds to `t[k]` does not contain `t` once lowercased. */
  lemma MissingCharExcludes(s: string, t: string, k: nat)
    requires k < |t|
    requires forall j :: 0 <= j < |s| ==> Fold(s[j]) != t[k]
    ensures !Includes(Lower(s), t)
  {
    forall i | 0 <= i <= |Lower(s)| ensures !InfixAt(Lower(s), t, i) {
      if i + |t| <= |s| {
        assert Lower(s)[i..i + |t|][k] == Fold(s[i + k]);
      }
    }
  }

  /** Text without the adjacent pair `t[k] t[k+1]` does not contain `t` once lowercased. */
  lemma MissingPairExcludes(s: string, t: string, k: nat)
    requires k + 1 < |t|
    requires forall j :: 0 <= j < |s| - 1 ==> !(Fold(s[j]) == t[k] && Fold(s[j + 1]) == t[k + 1])
    ensures !Includes(Lower(s), t)
  {
    forall i | 0 <= i <= |Lower(s)| ensures !InfixAt(Lower(s), t, i) {
      if i + |t| <= |s| {
        var w := Lower(s)[i..i + |t|];
        assert w[k] == Fold(s[i + k]) && w[k + 1] == Fold(s[i + k + 1]);
      }
    }
  }

  /** The third message mentions none of the three phrases: it has no letter "a"
      (which both "unavailable" and "not available" have) and no "fo" (which
      "not found" has), so get_subs.py answers it with 500. */
  lemma NotRetrievedFromFileIs500()
    ensures ErrorStatus(NotRetrievedFromFile) == 500
  {
    NotRetrievedHasNoA();
    NotRetrievedHasNoFo();
    assert "unavailable"[2] == 'a' && "not available"[4] == 'a';
    MissingCharExcludes(NotRetrievedFromFile, "unavailable", 2);
    MissingCharExcludes(NotRetrievedFromFile, "not available", 4);
    assert "not found"[4] == 'f' && "not found"[5] == 'o';
    MissingPairExcludes(NotRetrievedFromFile, "not found", 4);
  }

  lemma NotRetrievedHasNoA()
    ensures forall j :: 0 <= j < |NotRetrievedFromFile| ==> Fold(NotRetrievedFromFile[j]) != 'a'
  {
    var p1, p2, p3, p4, p5, p6 :=
      "Subtitles we", "re requested", " but could n", "ot be retrie", "ved from fil", "e.";
    FoldFreeSpec(p1, 'a', 0);
    FoldFreeSpec(p2, 'a', 0);
    FoldFreeSpec(p3, 'a', 0);
    FoldFreeSpec(p4, 'a', 0);
    FoldFreeSpec(p5, 'a', 0);
    FoldFreeSpec(p6, 'a', 0);
    FoldFreeAppend(p1, p2, 'a');
    FoldFreeAppend(p1 + p2, p3, 'a');
    FoldFreeAppend(p1 + p2 + p3, p4, 'a');
    FoldFreeAppend(p1 + p2 + p3 + p4, p5, 'a');
    FoldFreeAppend(p1 + p2 + p3 + p4 + p5, p6, 'a');
  }

  lemma NotRetrievedHasNoFo()
    ensures var s := NotRetrievedFromFile;
      forall j :: 0 <= j < |s| - 1 ==> !(Fold(s[j]) == 'f' && Fold(s[j + 1]) == 'o')
  {
    var p1, p2, p3, p4, p5, p6 :=
      "Subtitles we", "re requested", " but could n", "ot be retrie", "ved from fil", "e.";
    PairFreeSpec(p1, 'f', 'o', 0);
    PairFreeSpec(p2, 'f', 'o', 0);
    PairFreeSpec(p3, 'f', 'o', 0);
    PairFreeSpec(p4, 'f', 'o', 0);
    PairFreeSpec(p5, 'f', 'o', 0);
    PairFreeSpec(p6, 'f', 'o', 0);
    PairFreeAppend(p1, p2, 'f', 'o');
    PairFreeAppend(p1 + p2, p3, 'f', 'o');
    PairFreeAppend(p1 + p2 + p3, p4, 'f', 'o');
    PairFreeAppend(p1 + p2 + p3 + p4, p5, 'f', 'o');
    PairFreeAppend(p1 + p2 + p3 + p4 + p5, p6, 'f', 'o');
  }

  /** Two pieces without a character folding to `c` give a whole without one. */
  lemma FoldFreeAppend(a: string, b: string, c: char)
    requires forall j :: 0 <= j < |a| ==> Fold(a[j]) != c
    requires forall j :: 0 <= j < |b| ==> Fold(b[j]) != c
    ensures forall j :: 0 <= j < |a + b| ==> Fold((a + b)[j]) != c
  {
  }

  // ---------------------------------------------------------------------------
  // The route

  /** `SubsRequest` (backend/models/requests/subs.py); `lang` defaults to "en". */
  datatype SubsRequest = SubsRequest(url: string, lang: string)

  /** A raised `HTTPException`, or the `SubsResponse` the returned dictionary becomes. */
  datatype Response =
    | HttpError(status: nat, detail: string)
    | SubsResponse(subtitles: string, error: string, success: bool)

  const UrlRequired: string := "URL is required"
  const EmptyRaw: string := "Failed to retrieve subtitles or subtitles are empty."
  const EmptyAfterCleaning: string :=
    "Subtitles became empty after cleaning. Original may have only contained timestamps/metadata."

  /** What the route answers, given the fetcher's text and the cleaner's result for it
      (get_subs.py:17-71): the checks in their order, each one raising. */
  function SubsOutcome(url: string, raw: string, cleaned: string): Response
  {
    if url == "" then HttpError(400, UrlRequired)
    else if raw == "" then HttpError(404, EmptyRaw)
    else if IsKnownError(raw) then HttpError(ErrorStatus(raw), raw)
    else if cleaned == "" then HttpError(404, EmptyAfterCleaning)
    else SubsResponse(cleaned, "", true)
  }

  /** `get_subtitles_handler`.  The fetcher is called only with a URL present and the
      cleaner only on text that is not an error string. */
  method GetSubtitlesHandler(request: SubsRequest, getSubtitleContent: (string, string) -> string,
                             processedTranscript: string -> string)
    returns (r: Response)
    ensures request.url == "" ==> r == HttpError(400, UrlRequired)
    ensures request.url != "" ==>
      var raw := getSubtitleContent(request.url, request.lang);
      r == SubsOutcome(request.url, raw, processedTranscript(raw))
  {
    var url := request.url;
    if url == "" {
      return HttpError(400, UrlRequired);
    }
    var subtitleTextRaw := getSubtitleContent(url, request.lang);
    if subtitleTextRaw == "" {
      return HttpError(404, EmptyRaw);
    }
    var isActualError := IsActualError(subtitleTextRaw);
    if isActualError {
      var lowered := Lower(subtitleTextRaw);
      var statusCode := 500;
      if Includes(lowered, "unavailable") || Includes(lowered, "not found")
         || Includes(lowered, "not available") {
        statusCode := 404;
      }
      return HttpError(statusCode, subtitleTextRaw);
    }
    var cleanedSubtitleText := processedTranscript(subtitleTextRaw);
    if cleanedSubtitleText == "" {
      return HttpError(404, EmptyAfterCleaning);
    }
    return SubsResponse(cleanedSubtitleText, "", true);
  }

  /** The statuses the route can raise, which one each check gives, and what a success
      carries. */
  lemma SubsOutcomeSpec(url: string, raw: string, cleaned: string)
    ensures var r := SubsOutcome(url, raw, cleaned);
      && (r.HttpError? ==> r.status in {400, 404, 500})
      && (r.HttpError? && r.status == 400 <==> url == "")
      && (url != "" && raw == "" ==> r == HttpError(404, EmptyRaw))
      && (r.HttpError? && r.status == 500 ==> r.detail == raw && IsKnownError(raw) && !MentionsMissing(raw))
      && (r.SubsResponse? <==> url != "" && raw != "" && !IsKnownError(raw) && cleaned != "")
      && (r.SubsResponse? ==> r.success && r.subtitles == cleaned && r.error == "")
  {
  }

  /** A known error string is passed on as the detail, with the status its wording
      gives; the cleaner's result does not matter then. */
  lemma KnownErrorPassedOn(url: string, raw: string, cleaned: string, cleaned': string)
    requires url != "" && IsKnownError(raw)
    ensures SubsOutcome(url, raw, cleaned) == SubsOutcome(url, raw, cleaned')
    ensures SubsOutcome(url, raw, cleaned) == HttpError(ErrorStatus(raw), raw)
  {
  }

  /** The four messages, verbatim, as the fetcher reports them: three are 404 and
      "...could not be retrieved from file." is 500. */
  lemma KnownMessageStatuses(url: string, cleaned: string)
    requires url != ""
    ensures SubsOutcome(url, VideoUnavailable, cleaned) == HttpError(404, VideoUnavailable)
    ensures SubsOutcome(url, NotAvailableForLanguage, cleaned) == HttpError(404, NotAvailableForLanguage)
    ensures SubsOutcome(url, NotRetrievedFromFile, cleaned) == HttpError(500, NotRetrievedFromFile)
    ensures SubsOutcome(url, NotAvailableOrFailed, cleaned) == HttpError(404, NotAvailableOrFailed)
  {
    VideoUnavailableIs404();
    NotAvailableForLanguageIs404();
    NotRetrievedFromFileIs500();
    NotAvailableOrFailedIs404();
    KnownErrorPassedOn(url, VideoUnavailable, cleaned, cleaned);
    KnownErrorPassedOn(url, NotAvailableForLanguage, cleaned, cleaned);
    KnownErrorPassedOn(url, NotRetrievedFromFile, cleaned, cleaned);
    KnownErrorPassedOn(url, NotAvailableOrFailed, cleaned, cleaned);
  }

  // ---------------------------------------------------------------------------
  // The same recognition in get_video_info (backend/youtube_utils/get_info.py:47-70)

  /** `is_actual_error` there: prefixes are tried only on a non-empty text. */
  predicate InfoIsActualError(raw: string)
  {
    raw in KnownErrorMessages
    || (raw != "" && exists j :: 0 <= j < |KnownErrorPrefixes| && StartsWith(raw, KnownErrorPrefixes[j]))
  }

  /** The `transcript` field there: the cleaned text for a non-empty text that is not
      an error string, else none. */
  function InfoTranscript(raw: string, processedTranscript: string -> string): Option<string>
  {
    if raw != "" && !InfoIsActualError(raw) then Some(processedTranscript(raw)) else None
  }

  /** Both places classify alike, and they agree on every text except one that cleans
      to nothing: there the route answers 404 while get_video_info keeps "" as the
      transcript. */
  lemma InfoAgreesWithRoute(url: string, raw: string, processedTranscript: string -> string)
    requires url != ""
    ensures InfoIsActualError(raw) == IsKnownError(raw)
    ensures var r := SubsOutcome(url, raw, processedTranscript(raw));
      var t := InfoTranscript(raw, processedTranscript);
      && (r.SubsResponse? <==> t.Some? && t.value != "")
      && (r.SubsResponse? ==> t == Some(r.subtitles))
      && (t == Some("") <==> raw != "" && !IsKnownError(raw) && processedTranscript(raw) == "")
      && (t == Some("") ==> r == HttpError(404, EmptyAfterCleaning))
  {
    if raw == "" {
      assert !StartsWith(raw, KnownErrorPrefixes[0]) && !StartsWith(raw, KnownErrorPrefixes[1]);
    }
    if IsKnownError(raw) {
      KnownErrorPassedOn(url, raw, processedTranscript(raw), processedTranscript(raw));
    }
  }
}
