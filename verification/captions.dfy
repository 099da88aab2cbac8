/** SRT and WebVTT caption serialisation (generate_video_captions). Times are integer
    microseconds from the start of the media. */
module Captions {
  import opened Wrappers
  import opened Seqs
  import opened Text
  import opened Decimal

  /** The clock fields the formatters read from `datetime.timedelta(microseconds=us)`: `seconds`
      (the time of day; whole days go to `days`, which is never read) and `microseconds`. */
  datatype ClockTime = ClockTime(hours: nat, minutes: nat, seconds: nat, millis: nat)

  const MillisPerDay: nat := 86_400_000

  function ClockOf(us: int): (t: ClockTime)
    ensures t.hours < 24 && t.minutes < 60 && t.seconds < 60 && t.millis < 1000
  {
    var daySeconds := (us / 1_000_000) % 86_400;
    var micros := us % 1_000_000;
    ClockTime(daySeconds / 3600, (daySeconds % 3600) / 60, daySeconds % 60, micros / 1000)
  }

  /** The clock fields spell out the time of day in milliseconds. */
  lemma ClockOfDayMillis(us: int)
    ensures var t := ClockOf(us);
      t.hours * 3_600_000 + t.minutes * 60_000 + t.seconds * 1000 + t.millis == (us / 1000) % MillisPerDay
  {
    ClockArithmetic(us, (us / 1_000_000) % 86_400, us % 1_000_000);
  }

  lemma ClockArithmetic(us: int, daySeconds: int, micros: int)
    requires daySeconds == (us / 1_000_000) % 86_400 && micros == us % 1_000_000
    ensures (daySeconds / 3600) * 3_600_000 + ((daySeconds % 3600) / 60) * 60_000
          + (daySeconds % 60) * 1000 + micros / 1000 == (us / 1000) % MillisPerDay
  {
    var q := us / 1000;
    var a := us / 1_000_000;
    DivCompose(us);
    MillisOfMicros(us);
    var c := a / 86_400;
    assert q == 1000 * a + q % 1000;
    assert a == 86_400 * c + daySeconds;
    ModUnique(q, c, 1000 * daySeconds + q % 1000);
    HoursMinutesSeconds(daySeconds);
  }

  lemma DivCompose(us: int)
    ensures us / 1_000_000 == (us / 1000) / 1000
  {
    var a, r := us / 1_000_000, us % 1_000_000;
    ThousandsUnique(r, r / 1000, r % 1000);
    ThousandsUnique(us, 1000 * a + r / 1000, r % 1000);
    ThousandsUnique(us / 1000, a, r / 1000);
  }

  lemma MillisOfMicros(us: int)
    ensures (us % 1_000_000) / 1000 == (us / 1000) % 1000
  {
    var a, r := us / 1_000_000, us % 1_000_000;
    ThousandsUnique(us, 1000 * a + r / 1000, r % 1000);
    ThousandsUnique(us / 1000, a, r / 1000);
  }

  /** Division by 1000 has a unique quotient and remainder. */
  lemma ThousandsUnique(n: int, q: int, m: int)
    requires n == 1000 * q + m && 0 <= m < 1000
    ensures n / 1000 == q && n % 1000 == m
  {
  }

  lemma ModUnique(q: int, c: int, x: int)
    requires 0 <= x < MillisPerDay && q == MillisPerDay * c + x
    ensures q % MillisPerDay == x
  {
  }

  lemma HoursMinutesSeconds(d: int)
    requires 0 <= d < 86_400
    ensures (d / 3600) * 3600 + ((d % 3600) / 60) * 60 + d % 60 == d
  {
  }

  /** `HH:MM:SS,mmm`, the SRT timestamp of `format_time_srt`. */
  function FormatSrt(us: int): (r: string)
    ensures |r| == 12
  {
    var t := ClockOf(us);
    ZeroPadWidth(t.hours, 2);
    ZeroPadWidth(t.minutes, 2);
    ZeroPadWidth(t.seconds, 2);
    ZeroPadWidth(t.millis, 3);
    ZeroPad(t.hours, 2) + ":" + ZeroPad(t.minutes, 2) + ":" + ZeroPad(t.seconds, 2)
      + "," + ZeroPad(t.millis, 3)
  }

  /** `HH:MM:SS.mmm`, or `MM:SS.mmm` when the hours are zero: the WebVTT timestamp of
      `format_time_vtt`. */
  function FormatVtt(us: int): (r: string)
    ensures |r| == 12 || |r| == 9
  {
    var t := ClockOf(us);
    ZeroPadWidth(t.hours, 2);
    ZeroPadWidth(t.minutes, 2);
    ZeroPadWidth(t.seconds, 2);
    ZeroPadWidth(t.millis, 3);
    var tail := ZeroPad(t.minutes, 2) + ":" + ZeroPad(t.seconds, 2) + "." + ZeroPad(t.millis, 3);
    if t.hours > 0 then ZeroPad(t.hours, 2) + ":" + tail else tail
  }

  /** Reads an SRT timestamp `HH:MM:SS,mmm` back as milliseconds. */
  function ParseSrt(s: string): Option<nat>
  {
    if |s| != 12 || s[2] != ':' || s[5] != ':' || s[8] != ',' then None
    else
      var h := DigitsAt(s, 0, 2);
      var m := DigitsAt(s, 3, 5);
      var sec := DigitsAt(s, 6, 8);
      var ms := DigitsAt(s, 9, 12);
      if h.Some? && m.Some? && sec.Some? && ms.Some? && m.value < 60 && sec.value < 60
      then Some(h.value * 3_600_000 + m.value * 60_000 + sec.value * 1000 + ms.value)
      else None
  }

  /** Reads `MM:SS.mmm` (minutes and seconds below 60) back as milliseconds. */
  function ParseMinutesSeconds(s: string): Option<nat>
  {
    if |s| != 9 || s[2] != ':' || s[5] != '.' then None
    else
      var m := DigitsAt(s, 0, 2);
      var sec := DigitsAt(s, 3, 5);
      var ms := DigitsAt(s, 6, 9);
      if m.Some? && sec.Some? && ms.Some? && m.value < 60 && sec.value < 60
      then Some(m.value * 60_000 + sec.value * 1000 + ms.value)
      else None
  }

  /** Reads a WebVTT timestamp back as milliseconds, following the timestamp syntax of the
      W3C WebVTT format: optional hours of two or more digits and a colon, then two-digit
      minutes and seconds below 60, a full stop and three digits. */
  function ParseWebVtt(s: string): Option<nat>
  {
    if |s| == 9 then ParseMinutesSeconds(s)
    else if |s| < 12 || s[|s| - 10] != ':' then None
    else
      var h := DigitsAt(s, 0, |s| - 10);
      var rest := ParseMinutesSeconds(s[|s| - 9..]);
      if h.Some? && rest.Some? then Some(h.value * 3_600_000 + rest.value) else None
  }

  /** Where the fields of `h:m:s<mark>ms` sit, for two-digit `h`, `m`, `s` and three-digit `ms`. */
  lemma ClockFields(h: string, m: string, sec: string, mark: char, ms: string)
    requires |h| == 2 && |m| == 2 && |sec| == 2 && |ms| == 3
    ensures var r := h + ":" + m + ":" + sec + [mark] + ms;
      && |r| == 12 && r[2] == ':' && r[5] == ':' && r[8] == mark
      && r[0..2] == h && r[3..5] == m && r[6..8] == sec && r[9..12] == ms
  {
  }

  /** Reading an SRT timestamp back gives the time of day in milliseconds: the sub-millisecond
      part is truncated and whole days are dropped. */
  lemma SrtRoundTrip(us: int)
    ensures ParseSrt(FormatSrt(us)) == Some((us / 1000) % MillisPerDay)
  {
    ClockOfDayMillis(us);
    var t := ClockOf(us);
    ZeroPadWidth(t.hours, 2);
    ZeroPadWidth(t.minutes, 2);
    ZeroPadWidth(t.seconds, 2);
    ZeroPadWidth(t.millis, 3);
    var h, m, sec, ms := ZeroPad(t.hours, 2), ZeroPad(t.minutes, 2), ZeroPad(t.seconds, 2), ZeroPad(t.millis, 3);
    assert FormatSrt(us) == h + ":" + m + ":" + sec + "," + ms;
    ParseSrtFields(h, m, sec, ms);
    var parsed := ParseSrt(FormatSrt(us));
    var dayMillis := (us / 1000) % MillisPerDay;
    assert parsed.Some? && parsed.value == dayMillis;
  }

  lemma ParseSrtFields(h: string, m: string, sec: string, ms: string)
    requires |h| == 2 && |m| == 2 && |sec| == 2 && |ms| == 3
    requires AllDigits(h) && AllDigits(m) && AllDigits(sec) && AllDigits(ms)
    requires Value(m) < 60 && Value(sec) < 60
    ensures ParseSrt(h + ":" + m + ":" + sec + "," + ms).Some?
    ensures ParseSrt(h + ":" + m + ":" + sec + "," + ms).value
         == Value(h) * 3_600_000 + Value(m) * 60_000 + Value(sec) * 1000 + Value(ms)
  {
    ClockFields(h, m, sec, ',', ms);
    var r := h + ":" + m + ":" + sec + "," + ms;
    DigitsAtSlice(r, 0, 2, h);
    DigitsAtSlice(r, 3, 5, m);
    DigitsAtSlice(r, 6, 8, sec);
    DigitsAtSlice(r, 9, 12, ms);
    ParseSrtOf(r, Value(h), Value(m), Value(sec), Value(ms));
  }

  lemma ParseSrtOf(r: string, h: nat, m: nat, sec: nat, ms: nat)
    requires |r| == 12 && r[2] == ':' && r[5] == ':' && r[8] == ',' && m < 60 && sec < 60
    requires DigitsAt(r, 0, 2) == Some(h) && DigitsAt(r, 3, 5) == Some(m)
    requires DigitsAt(r, 6, 8) == Some(sec) && DigitsAt(r, 9, 12) == Some(ms)
    ensures ParseSrt(r).Some? && ParseSrt(r).value == h * 3_600_000 + m * 60_000 + sec * 1000 + ms
  {
  }

  /** Every formatted WebVTT timestamp is well-formed and reads back as the time of day in
      milliseconds; the hours field is present exactly when the hours are not zero. */
  lemma VttRoundTrip(us: int)
    ensures ParseWebVtt(FormatVtt(us)) == Some((us / 1000) % MillisPerDay)
    ensures |FormatVtt(us)| == 12 <==> (us / 1000) % MillisPerDay >= 3_600_000
  {
    ClockOfDayMillis(us);
    if ClockOf(us).hours > 0 {
      VttWithHours(us);
    } else {
      VttWithoutHours(us);
    }
  }

  lemma VttWithHours(us: int)
    requires ClockOf(us).hours > 0
    ensures ParseWebVtt(FormatVtt(us)) == Some((us / 1000) % MillisPerDay)
    ensures |FormatVtt(us)| == 12
  {
    ClockOfDayMillis(us);
    var t := ClockOf(us);
    ZeroPadWidth(t.hours, 2);
    ZeroPadWidth(t.minutes, 2);
    ZeroPadWidth(t.seconds, 2);
    ZeroPadWidth(t.millis, 3);
    var h, m, sec, ms := ZeroPad(t.hours, 2), ZeroPad(t.minutes, 2), ZeroPad(t.seconds, 2), ZeroPad(t.millis, 3);
    assert FormatVtt(us) == h + ":" + (m + ":" + sec + "." + ms);
    ParseLongVtt(h, m, sec, ms);
    var parsed := ParseWebVtt(FormatVtt(us));
    var dayMillis := (us / 1000) % MillisPerDay;
    assert parsed.Some? && parsed.value == dayMillis;
  }

  lemma VttWithoutHours(us: int)
    requires ClockOf(us).hours == 0
    ensures ParseWebVtt(FormatVtt(us)) == Some((us / 1000) % MillisPerDay)
    ensures |FormatVtt(us)| == 9
  {
    ClockOfDayMillis(us);
    var t := ClockOf(us);
    ZeroPadWidth(t.minutes, 2);
    ZeroPadWidth(t.seconds, 2);
    ZeroPadWidth(t.millis, 3);
    var tail := ZeroPad(t.minutes, 2) + ":" + ZeroPad(t.seconds, 2) + "." + ZeroPad(t.millis, 3);
    assert FormatVtt(us) == tail;
    ParseShortVtt(ZeroPad(t.minutes, 2), ZeroPad(t.seconds, 2), ZeroPad(t.millis, 3));
    var parsed := ParseMinutesSeconds(tail);
    var dayMillis := (us / 1000) % MillisPerDay;
    assert parsed.Some? && parsed.value == dayMillis;
    assert ParseWebVtt(tail) == parsed == Some(dayMillis);
  }

  lemma ParseShortVtt(m: string, sec: string, ms: string)
    requires |m| == 2 && |sec| == 2 && |ms| == 3
    requires AllDigits(m) && AllDigits(sec) && AllDigits(ms) && Value(m) < 60 && Value(sec) < 60
    ensures ParseMinutesSeconds(m + ":" + sec + "." + ms).Some?
    ensures ParseMinutesSeconds(m + ":" + sec + "." + ms).value
         == Value(m) * 60_000 + Value(sec) * 1000 + Value(ms)
  {
    MinutesSecondsFields(m, sec, ms);
    var r := m + ":" + sec + "." + ms;
    var vm, vs, vms := Value(m), Value(sec), Value(ms);
    assert DigitsAt(r, 0, 2) == Some(vm);
    assert DigitsAt(r, 3, 5) == Some(vs);
    assert DigitsAt(r, 6, 9) == Some(vms);
  }

  /** Where the fields of `m:s.ms` sit, for two-digit `m` and `s` and three-digit `ms`. */
  lemma MinutesSecondsFields(m: string, sec: string, ms: string)
    requires |m| == 2 && |sec| == 2 && |ms| == 3
    ensures var r := m + ":" + sec + "." + ms;
      && |r| == 9 && r[2] == ':' && r[5] == '.'
      && r[0..2] == m && r[3..5] == sec && r[6..9] == ms
  {
  }

  lemma ParseLongVtt(h: string, m: string, sec: string, ms: string)
    requires |h| == 2 && |m| == 2 && |sec| == 2 && |ms| == 3
    requires AllDigits(h) && AllDigits(m) && AllDigits(sec) && AllDigits(ms)
    requires Value(m) < 60 && Value(sec) < 60
    ensures ParseWebVtt(h + ":" + (m + ":" + sec + "." + ms)).Some?
    ensures ParseWebVtt(h + ":" + (m + ":" + sec + "." + ms)).value
         == Value(h) * 3_600_000 + Value(m) * 60_000 + Value(sec) * 1000 + Value(ms)
  {
    var tail := m + ":" + sec + "." + ms;
    ParseShortVtt(m, sec, ms);
    HourPrefix(h, tail);
    var r := h + ":" + tail;
    DigitsAtSlice(r, 0, 2, h);
    ParseLongOf(r, Value(h), Value(m) * 60_000 + Value(sec) * 1000 + Value(ms));
  }

  /** Where the fields of `h:tail` sit, for a two-digit `h`. */
  lemma HourPrefix(h: string, tail: string)
    requires |h| == 2 && |tail| == 9
    ensures var r := h + ":" + tail;
      |r| == 12 && r[2] == ':' && r[0..2] == h && r[3..] == tail
  {
  }

  lemma ParseLongOf(r: string, h: nat, rest: nat)
    requires |r| == 12 && r[2] == ':'
    requires DigitsAt(r, 0, 2) == Some(h)
    requires ParseMinutesSeconds(r[3..]).Some? && ParseMinutesSeconds(r[3..]).value == rest
    ensures ParseWebVtt(r).Some? && ParseWebVtt(r).value == h * 3_600_000 + rest
  {
    assert r[|r| - 9..] == r[3..];
  }

  /** A transcribed segment: start and end in microseconds, and its text. */
  datatype CaptionSegment = CaptionSegment(start: int, end: int, text: string)

  /** SRT cue number `k`: the number, the timing line and the stripped text, one per line. */
  function SrtCue(k: nat, seg: CaptionSegment): (cue: string)
  {
    Digits(k) + "\n" + FormatSrt(seg.start) + " --> " + FormatSrt(seg.end) + "\n" + Strip(seg.text) + "\n"
  }

  /** Reading cue `k` back: its first line is the number `k`, and the timing line holds the
      start and end times of day in milliseconds. */
  lemma SrtCueReadsBack(k: nat, seg: CaptionSegment, cue: string)
    requires cue == SrtCue(k, seg)
    ensures |cue| >= |Digits(k)| + 30 && cue[|Digits(k)|] == '\n' && cue[..|Digits(k)|] == Digits(k)
    ensures ParseSrt(cue[|Digits(k)| + 1..|Digits(k)| + 13]) == Some((seg.start / 1000) % MillisPerDay)
    ensures cue[|Digits(k)| + 13..|Digits(k)| + 18] == " --> "
    ensures ParseSrt(cue[|Digits(k)| + 18..|Digits(k)| + 30]) == Some((seg.end / 1000) % MillisPerDay)
    ensures cue[|Digits(k)| + 30..] == "\n" + Strip(seg.text) + "\n"
  {
    TimingLineReadsBack(Digits(k), seg.start, seg.end, Strip(seg.text), cue);
  }

  lemma TimingLineReadsBack(d: string, start: int, end: int, t: string, cue: string)
    requires cue == d + "\n" + FormatSrt(start) + " --> " + FormatSrt(end) + "\n" + t + "\n"
    ensures |cue| >= |d| + 30 && cue[|d|] == '\n' && cue[..|d|] == d
    ensures ParseSrt(cue[|d| + 1..|d| + 13]) == Some((start / 1000) % MillisPerDay)
    ensures cue[|d| + 13..|d| + 18] == " --> "
    ensures ParseSrt(cue[|d| + 18..|d| + 30]) == Some((end / 1000) % MillisPerDay)
    ensures cue[|d| + 30..] == "\n" + t + "\n"
  {
    CueFields(d, FormatSrt(start), FormatSrt(end), t, cue);
    SrtRoundTrip(start);
    SrtRoundTrip(end);
  }

  /** Where the parts of a cue `d\na --> b\nt\n` sit, for 12-character timestamps. */
  lemma CueFields(d: string, a: string, b: string, t: string, cue: string)
    requires |a| == 12 && |b| == 12
    requires cue == d + "\n" + a + " --> " + b + "\n" + t + "\n"
    ensures |cue| >= |d| + 30 && cue[|d|] == '\n' && cue[..|d|] == d
    ensures cue[|d| + 1..|d| + 13] == a && cue[|d| + 13..|d| + 18] == " --> " && cue[|d| + 18..|d| + 30] == b
    ensures cue[|d| + 30..] == "\n" + t + "\n"
  {
  }

  /** The cues built in order: the `i`-th segment becomes cue number `i + 1`. */
  function SrtCues(segs: seq<CaptionSegment>): (cues: seq<string>)
    ensures |cues| == |segs|
    ensures forall i :: 0 <= i < |segs| ==> cues[i] == SrtCue(i + 1, segs[i])
  {
    Numbered(segs, SrtCue)
  }

  /** `generate_srt_content`: the cues, numbered from 1, separated by blank lines. */
  function SrtContent(segs: seq<CaptionSegment>): (r: string)
    ensures r == "" <==> segs == []
  {
    Join(SrtCues(segs), "\n")
  }

  /** Appending a segment appends exactly one cue, numbered one past the existing cues. */
  lemma SrtContentAppend(segs: seq<CaptionSegment>, seg: CaptionSegment)
    ensures SrtContent(segs + [seg])
         == (if segs == [] then "" else SrtContent(segs) + "\n") + SrtCue(|segs| + 1, seg)
  {
    NumberedAppend(segs, seg, SrtCue);
    JoinAppend(SrtCues(segs), SrtCue(|segs| + 1, seg), "\n");
  }

  const VttHeader: string := "WEBVTT\n"

  /** A WebVTT cue block: the timing line and the stripped text. */
  function VttBlock(seg: CaptionSegment): (block: string)
  {
    FormatVtt(seg.start) + " --> " + FormatVtt(seg.end) + "\n" + Strip(seg.text) + "\n"
  }

  /** Reading a WebVTT block back: its timing line holds the start and end times of day in
      milliseconds, and the stripped text follows on its own line. */
  lemma VttBlockReadsBack(seg: CaptionSegment, block: string)
    requires block == VttBlock(seg)
    ensures var a := |FormatVtt(seg.start)|; var b := |FormatVtt(seg.end)|;
      && |block| == a + b + |Strip(seg.text)| + 7
      && ParseWebVtt(block[..a]) == Some((seg.start / 1000) % MillisPerDay)
      && block[a..a + 5] == " --> "
      && ParseWebVtt(block[a + 5..a + 5 + b]) == Some((seg.end / 1000) % MillisPerDay)
      && block[a + 5 + b] == '\n'
      && block[a + 6 + b..] == Strip(seg.text) + "\n"
  {
    BlockFields(FormatVtt(seg.start), FormatVtt(seg.end), Strip(seg.text), block);
    VttRoundTrip(seg.start);
    VttRoundTrip(seg.end);
  }

  /** Where the parts of a block `a --> b\nt\n` sit. */
  lemma BlockFields(a: string, b: string, t: string, block: string)
    requires block == a + " --> " + b + "\n" + t + "\n"
    ensures |block| == |a| + |b| + |t| + 7
    ensures block[..|a|] == a && block[|a|..|a| + 5] == " --> " && block[|a| + 5..|a| + 5 + |b|] == b
    ensures block[|a| + 5 + |b|] == '\n' && block[|a| + 6 + |b|..] == t + "\n"
  {
  }

  function VttBlocks(segs: seq<CaptionSegment>): (blocks: seq<string>)
    ensures |blocks| == |segs|
    ensures forall i :: 0 <= i < |segs| ==> blocks[i] == VttBlock(segs[i])
  {
    Map(segs, VttBlock)
  }

  /** `generate_vtt_content`: the `WEBVTT` header line, then each block after a blank line. */
  function VttContent(segs: seq<CaptionSegment>): (r: string)
    ensures segs == [] ==> r == VttHeader
    ensures segs != [] ==> r == VttHeader + "\n" + Join(VttBlocks(segs), "\n")
  {
    var blocks := VttBlocks(segs);
    JoinCons(VttHeader, blocks, "\n");
    Join([VttHeader] + blocks, "\n")
  }

  /** Appending a segment appends exactly one block after a blank line. */
  lemma VttContentAppend(segs: seq<CaptionSegment>, seg: CaptionSegment)
    ensures VttContent(segs + [seg]) == VttContent(segs) + "\n" + VttBlock(seg)
  {
    MapAppend(segs, seg, VttBlock);
    assert [VttHeader] + VttBlocks(segs + [seg]) == ([VttHeader] + VttBlocks(segs)) + [VttBlock(seg)];
    JoinAppend([VttHeader] + VttBlocks(segs), VttBlock(seg), "\n");
  }
}
