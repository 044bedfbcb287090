/** `generate_answer` of the `/ask` route (backend/routes/ask.py:11-55): the context
    block built from a video's metadata, with its truncations and defaults, and the
    answer text around it. */
module Ask {
  import opened Strings

  /** The fields of `YTVideoInfo` that the answer reads.  Python's `None` and the
      empty string are both falsy here and are both written `""`. */
  datatype VideoInfo = VideoInfo(title: string, description: string, duration: int,
                                 uploader: string, uploadDate: string, viewCount: int,
                                 tags: seq<string>, categories: seq<string>, transcript: string)

  const NoDescription: string := "No description available"

  /** `desc_for_context` (ask.py:14-16): the description, or the fixed sentence when
      there is none, cut to 500 characters. */
  function DescForContext(description: string): (r: string)
    ensures |r| <= 500
    ensures description == "" ==> r == NoDescription
    ensures description != "" ==> |r| <= |description| && r == description[..|r|]
    ensures description != "" ==> (|r| == 500 || r == description)
  {
    Take(if description != "" then description else NoDescription, 500)
  }

  /** `tags_for_context` (ask.py:17): the first ten tags joined by ", ", or "None". */
  function TagsForContext(tags: seq<string>): (r: string)
    ensures tags == [] ==> r == "None"
  {
    if tags != [] then Join(Take(tags, 10), ", ") else "None"
  }

  /** `categories_for_context` (ask.py:18-20): every category, or "None". */
  function CategoriesForContext(categories: seq<string>): (r: string)
    ensures categories == [] ==> r == "None"
  {
    if categories != [] then Join(categories, ", ") else "None"
  }

  /** Each of the first ten tags is shown in full; the rest never matter. */
  lemma TagsShown(tags: seq<string>, k: nat)
    requires k < |tags| && k < 10
    ensures Includes(TagsForContext(tags), tags[k])
    ensures |tags| > 10 ==> TagsForContext(tags) == TagsForContext(tags[..10])
  {
    JoinContainsItems(Take(tags, 10), ", ", k);
    if |tags| > 10 {
      assert Take(tags[..10], 10) == tags[..10];
    }
  }

  /** Every category is shown in full. */
  lemma CategoriesShown(categories: seq<string>, k: nat)
    requires k < |categories|
    ensures Includes(CategoriesForContext(categories), categories[k])
  {
    JoinContainsItems(categories, ", ", k);
  }

  /** The transcript part of the context (ask.py:29): its first 200 characters, or
      "Not available". */
  function TranscriptForContext(transcript: string): (r: string)
    ensures transcript == "" ==> r == "Not available"
    ensures transcript != "" ==> |r| <= 200 && |r| <= |transcript| && r == transcript[..|r|]
    ensures transcript != "" ==> (|r| == 200 || r == transcript)
  {
    if transcript != "" then Take(transcript, 200) else "Not available"
  }

  /** The lines of `context` (ask.py:22-30). */
  function ContextLines(info: VideoInfo): seq<string>
  {
    [ "  Title: " + info.title + "\n",
      "  Channel: " + info.uploader + "\n",
      "  Description: " + DescForContext(info.description) + "...\n",
      "  Duration: " + IntToString(info.duration) + " seconds\n",
      "  Tags: " + TagsForContext(info.tags) + "\n",
      "  Categories: " + CategoriesForContext(info.categories) + "\n",
      "  Transcript: " + TranscriptForContext(info.transcript) + "...\n" ]
  }

  function Context(info: VideoInfo): string
  {
    Concat(ContextLines(info))
  }

  /** `answer_detail` (ask.py:38-42). */
  function AnswerDetail(transcript: string): (r: string)
    ensures transcript != "" ==>
      r == "The transcript is available with " + NatToString(|transcript|) + " characters."
    ensures transcript == "" ==> r == "No transcript is available for this video."
    ensures StartsWith(r, "The transcript is available with ") <==> transcript != ""
  {
    var lead := "The transcript is available with ";
    if transcript != "" then
      var line := lead + NatToString(|transcript|) + " characters.";
      assert line[..|lead|] == lead;
      line
    else
      var line := "No transcript is available for this video.";
      assert line[0] == 'N' && lead[0] == 'T' && line[..|lead|][0] == line[0];
      line
  }

  /** The detail line states the transcript's length, which can be read back. */
  lemma AnswerDetailLength(transcript: string)
    requires transcript != ""
    ensures var n := NatToString(|transcript|);
      && AllDigits(n) && DecimalValue(n) == |transcript|
      && AnswerDetail(transcript)[33..33 + |n|] == n
  {
    NatToStringDigits(|transcript|);
    var n := NatToString(|transcript|);
    var a := "The transcript is available with ";
    assert |a| == 33;
    assert (a + n + " characters.")[33..33 + |n|] == n;
  }

  /** `display_upload_date` (ask.py:34-36). */
  function DisplayUploadDate(uploadDate: string): (r: string)
    ensures r != ""
    ensures uploadDate != "" ==> r == uploadDate
  {
    if uploadDate != "" then uploadDate else "Unknown"
  }

  /** `duration // 60`: Python's floor division, which for the positive divisor 60
      agrees with the model's division, negative durations included. */
  function Minutes(duration: int): (m: int)
    ensures m * 60 <= duration < m * 60 + 60
  {
    duration / 60
  }

  // ---------------------------------------------------------------------------
  // `{:,}`: thousands grouping

  function GroupNat(n: nat): string
    decreases n
  {
    if n < 1000 then NatToString(n)
    else GroupNat(n / 1000) + "," + PadStart(NatToString(n % 1000), 3, '0')
  }

  /** Python's `format(n, ",")` for an integer. */
  function GroupThousands(n: int): string
  {
    if n < 0 then "-" + GroupNat(-n) else GroupNat(n)
  }

  function StripCommas(s: string): string
    decreases |s|
  {
    if s == [] then [] else (if s[0] == ',' then [] else [s[0]]) + StripCommas(s[1..])
  }

  lemma {:induction false} StripCommasAppend(a: string, b: string)
    ensures StripCommas(a + b) == StripCommas(a) + StripCommas(b)
    decreases |a|
  {
    if a != [] {
      assert (a + b)[1..] == a[1..] + b;
      StripCommasAppend(a[1..], b);
    } else {
      assert a + b == b;
    }
  }

  lemma {:induction false} StripCommasNoComma(s: string)
    requires AllDigits(s)
    ensures StripCommas(s) == s
    decreases |s|
  {
    if s != [] {
      StripCommasNoComma(s[1..]);
      assert s == [s[0]] + s[1..];
    }
  }

  /** One more digit at the end multiplies the value by ten and adds the digit. */
  lemma DecimalSnoc(s: string, c: char)
    requires AllDigits(s) && IsDigit(c)
    ensures AllDigits(s + [c]) && DecimalValue(s + [c]) == DecimalValue(s) * 10 + DigitValue(c)
  {
    assert (s + [c])[..|s|] == s;
  }

  /** Three more digits at the end: the value times 1000 plus their value. */
  lemma DecimalAppendThree(a: string, p: string)
    requires AllDigits(a) && AllDigits(p) && |p| == 3
    ensures AllDigits(a + p) && DecimalValue(a + p) == DecimalValue(a) * 1000 + DecimalValue(p)
  {
    var p1, p2 := p[..1], p[..2];
    assert p1 == [p[0]] && p2 == p1 + [p[1]] && p == p2 + [p[2]];
    assert [p[0]] == [] + [p[0]];
    DecimalSnoc([], p[0]);
    DecimalSnoc(p1, p[1]);
    DecimalSnoc(p2, p[2]);
    DecimalSnoc(a, p[0]);
    assert a + p1 == a + [p[0]];
    DecimalSnoc(a + p1, p[1]);
    assert a + p2 == (a + p1) + [p[1]];
    DecimalSnoc(a + p2, p[2]);
    assert a + p == (a + p2) + [p[2]];
  }

  /** A leading zero does not change the value. */
  lemma {:induction false} LeadingZero(s: string)
    requires AllDigits(s)
    ensures AllDigits(['0'] + s) && DecimalValue(['0'] + s) == DecimalValue(s)
    decreases |s|
  {
    if s != [] {
      var t, c := s[..|s| - 1], s[|s| - 1];
      LeadingZero(t);
      assert s == t + [c];
      assert ['0'] + s == (['0'] + t) + [c];
      DecimalSnoc(['0'] + t, c);
    }
  }

  /** Below 1000 a rendered number has at most three digits. */
  lemma ShortNat(r: nat)
    requires r < 1000
    ensures 1 <= |NatToString(r)| <= 3
  {
    if r >= 10 {
      var q := r / 10;
      assert NatToString(r) == NatToString(q) + [DigitChar(r % 10)];
      if q >= 10 {
        assert NatToString(q) == NatToString(q / 10) + [DigitChar(q % 10)];
      }
    }
  }

  /** A run of one to three digits padded to three characters keeps its value. */
  lemma PadDigits(s: string)
    requires AllDigits(s) && 1 <= |s| <= 3
    ensures var p := PadStart(s, 3, '0');
      |p| == 3 && AllDigits(p) && DecimalValue(p) == DecimalValue(s)
  {
    if |s| == 2 {
      assert PadStart(s, 3, '0') == PadStart(['0'] + s, 3, '0') == ['0'] + s;
      LeadingZero(s);
    } else if |s| == 1 {
      assert PadStart(s, 3, '0') == PadStart(['0'] + s, 3, '0');
      assert PadStart(['0'] + s, 3, '0') == ['0'] + (['0'] + s);
      LeadingZero(s);
      LeadingZero(['0'] + s);
    }
  }

  /** A number below 1000 padded to three characters is three digits of its value. */
  lemma PadThree(r: nat)
    requires r < 1000
    ensures var p := PadStart(NatToString(r), 3, '0');
      |p| == 3 && AllDigits(p) && DecimalValue(p) == r
  {
    NatToStringDigits(r);
    ShortNat(r);
    PadDigits(NatToString(r));
  }

  /** `GroupNat` from 1000 up, with the quotient and remainder named. */
  lemma GroupNatUnfold(n: nat, q: nat, r: nat)
    requires n >= 1000 && q == n / 1000 && r == n % 1000
    ensures GroupNat(n) == GroupNat(q) + "," + PadStart(NatToString(r), 3, '0')
    ensures q < n && r < 1000 && n == 1000 * q + r
  {
  }

  /** Dropping the separators leaves digits that read back as the number. */
  lemma {:induction false} GroupNatReadBack(n: nat)
    ensures var d := StripCommas(GroupNat(n)); AllDigits(d) && DecimalValue(d) == n
    decreases n
  {
    if n < 1000 {
      NatToStringDigits(n);
      StripCommasNoComma(NatToString(n));
    } else {
      var q, r := n / 1000, n % 1000;
      GroupNatUnfold(n, q, r);
      GroupNatReadBack(q);
      var g, p := GroupNat(q), PadStart(NatToString(r), 3, '0');
      PadThree(r);
      StripGroup(g, p);
      DecimalAppendThree(StripCommas(g), p);
    }
  }

  /** Dropping the commas of "g,p" when `p` is digits. */
  lemma StripGroup(g: string, p: string)
    requires AllDigits(p)
    ensures StripCommas(g + "," + p) == StripCommas(g) + p
  {
    var cp := [','] + p;
    assert g + "," + p == g + cp;
    StripCommasAppend(g, cp);
    assert cp[1..] == p;
    StripCommasNoComma(p);
  }

  /** `{:,}` read back: the sign, then digits worth the magnitude once the commas are
      dropped. */
  lemma GroupThousandsReadBack(n: int)
    ensures var d := StripCommas(GroupThousands(n));
      && (n >= 0 ==> AllDigits(d) && DecimalValue(d) == n)
      && (n < 0 ==> d != [] && d[0] == '-' && AllDigits(d[1..]) && DecimalValue(d[1..]) == -n)
  {
    if n < 0 {
      GroupNatReadBack(-n);
      StripCommasAppend("-", GroupNat(-n));
      assert StripCommas("-") == "-";
      var d := StripCommas(GroupThousands(n));
      assert d[1..] == StripCommas(GroupNat(-n));
    } else {
      GroupNatReadBack(n);
    }
  }

  /** From 1000 up, the last group is three digits after a comma and the rest is the
      grouping of the thousands. */
  lemma GroupNatShape(n: nat)
    requires n >= 1000
    ensures var g := GroupNat(n);
      && |g| >= 4 && g[|g| - 4] == ',' && AllDigits(g[|g| - 3..])
      && g[..|g| - 4] == GroupNat(n / 1000)
  {
    var q, r := n / 1000, n % 1000;
    GroupNatUnfold(n, q, r);
    var p := PadStart(NatToString(r), 3, '0');
    PadThree(r);
    var g := GroupNat(n);
    assert g == GroupNat(q) + "," + p;
    assert g[|g| - 3..] == p;
    assert g[..|g| - 4] == GroupNat(q);
  }

  // ---------------------------------------------------------------------------
  // The answer

  /** The lines of the returned f-string (ask.py:44-55); `''.join(context)` over a
      string is that string. */
  function AnswerLines(info: VideoInfo): seq<string>
  {
    [ "I can help you with questions " + "about this video: \"" + info.title + "\" by " + info.uploader + ".\n",
      AnswerDetail(info.transcript) + "\n",
      "Some information I can provide:\n",
      "  - Video duration: " + IntToString(Minutes(info.duration)) + " minutes\n",
      "  - Views: " + GroupThousands(info.viewCount) + "\n",
      "  - Upload date: " + DisplayUploadDate(info.uploadDate) + "\n",
      "\n",
      "For more specific answers, try asking " + "about the video's title, channel, " + "duration, views, or topic.\n",
      "Context used:\n",
      Context(info) + "\n" ]
  }

  /** `generate_answer`.  The question is lowercased and then not used. */
  function GenerateAnswer(info: VideoInfo, question: string): string
  {
    var questionLower := Lower(question);
    Concat(AnswerLines(info))
  }

  /** The answer opens with the title and uploader, and holds the transcript detail,
      the whole minutes, the grouped view count, the upload date and the full context;
      the question does not change it. */
  lemma GenerateAnswerSpec(info: VideoInfo, question: string, question': string)
    ensures var answer := GenerateAnswer(info, question);
      var lines := AnswerLines(info);
      && StartsWith(answer, lines[0])
      && (forall k :: 0 <= k < |lines| ==> InfixAt(answer, lines[k], |Concat(lines[..k])|))
      && answer == GenerateAnswer(info, question')
  {
    ConcatInfixes(AnswerLines(info));
  }

  /** The context holds each of its seven lines, so the title, the cut description,
      the tags, the categories and the transcript excerpt all reach the answer. */
  lemma ContextSpec(info: VideoInfo)
    ensures var c := Context(info);
      var lines := ContextLines(info);
      forall k :: 0 <= k < |lines| ==> InfixAt(c, lines[k], |Concat(lines[..k])|)
  {
    ConcatInfixes(ContextLines(info));
  }
}
