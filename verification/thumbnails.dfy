/** Thumbnail extraction (extract_thumbnails): the `HHhMMmSSs` time label and the schedule and
    numbering of `extract_frames_at_interval`. The ffmpeg calls are an oracle saying whether the
    frame at a given second was saved. */
module Thumbnails {
  import opened Wrappers
  import opened Text
  import opened Decimal
  import ChunkPlan

  /** Python's `seconds // 3600`, `(seconds % 3600) // 60` and `seconds % 60` on a float, each
      passed through `int(...)`: uncapped hours, then minutes and seconds below 60. */
  function HoursMinutesSeconds(seconds: real): (r: (int, int, int))
    ensures 0 <= r.1 < 60 && 0 <= r.2 < 60
    ensures r.0 * 3600 + r.1 * 60 + r.2 == seconds.Floor
  {
    var h := (seconds / 3600.0).Floor;
    var inHour := seconds - 3600.0 * h as real;
    assert 0.0 <= inHour < 3600.0;
    var m := (inHour / 60.0).Floor;
    var minuteStart := (seconds / 60.0).Floor;
    var s := (seconds - 60.0 * minuteStart as real).Floor;
    assert minuteStart == 60 * h + m;
    (h, m, s)
  }

  /** `format_time`: `HHhMMmSSs`, each field padded to two characters. */
  function FormatTime(seconds: real): (stamp: string) {
    var (h, m, s) := HoursMinutesSeconds(seconds);
    FormatInt(h, 2) + "h" + FormatInt(m, 2) + "m" + FormatInt(s, 2) + "s"
  }

  /** Reads `HHhMMmSSs` back as whole seconds. */
  function ParseHms(r: string): Option<int>
  {
    if |r| < 9 || r[|r| - 1] != 's' || r[|r| - 4] != 'm' || r[|r| - 7] != 'h' then None
    else
      var h := DigitsAt(r, 0, |r| - 7);
      var m := DigitsAt(r, |r| - 6, |r| - 4);
      var s := DigitsAt(r, |r| - 3, |r| - 1);
      if h.Some? && m.Some? && s.Some? && m.value < 60 && s.value < 60
      then Some(h.value * 3600 + m.value * 60 + s.value)
      else None
  }

  /** For a non-negative time the label reads back as its whole seconds. */
  lemma FormatTimeRoundTrip(seconds: real)
    requires seconds >= 0.0
    ensures ParseHms(FormatTime(seconds)) == Some(seconds.Floor)
  {
    var (h, m, s) := HoursMinutesSeconds(seconds);
    ZeroPadWidth(m, 2);
    ZeroPadWidth(s, 2);
    assert FormatTime(seconds) == ZeroPad(h, 2) + "h" + ZeroPad(m, 2) + "m" + ZeroPad(s, 2) + "s";
    ParseHmsFields(ZeroPad(h, 2), ZeroPad(m, 2), ZeroPad(s, 2));
    var parsed := ParseHms(FormatTime(seconds));
    assert parsed.Some? && parsed.value == seconds.Floor;
  }

  lemma ParseHmsFields(hh: string, mm: string, ss: string)
    requires |hh| >= 2 && |mm| == 2 && |ss| == 2
    requires AllDigits(hh) && AllDigits(mm) && AllDigits(ss) && Value(mm) < 60 && Value(ss) < 60
    ensures ParseHms(hh + "h" + mm + "m" + ss + "s").Some?
    ensures ParseHms(hh + "h" + mm + "m" + ss + "s").value == Value(hh) * 3600 + Value(mm) * 60 + Value(ss)
  {
    var r := hh + "h" + mm + "m" + ss + "s";
    HmsFields(hh, mm, ss, r);
    var vh, vm, vs := Value(hh), Value(mm), Value(ss);
    assert DigitsAt(r, 0, |r| - 7) == Some(vh);
    assert DigitsAt(r, |r| - 6, |r| - 4) == Some(vm);
    assert DigitsAt(r, |r| - 3, |r| - 1) == Some(vs);
    ParseHmsOf(r, vh, vm, vs);
  }

  lemma ParseHmsOf(r: string, h: nat, m: nat, s: nat)
    requires |r| >= 9 && r[|r| - 1] == 's' && r[|r| - 4] == 'm' && r[|r| - 7] == 'h'
    requires DigitsAt(r, 0, |r| - 7) == Some(h) && m < 60 && s < 60
    requires DigitsAt(r, |r| - 6, |r| - 4) == Some(m) && DigitsAt(r, |r| - 3, |r| - 1) == Some(s)
    ensures ParseHms(r).Some? && ParseHms(r).value == h * 3600 + m * 60 + s
  {
  }

  /** Where the fields of `hh h mm m ss s` sit. */
  lemma HmsFields(hh: string, mm: string, ss: string, r: string)
    requires |mm| == 2 && |ss| == 2 && r == hh + "h" + mm + "m" + ss + "s"
    ensures |r| == |hh| + 7
    ensures r[|r| - 1] == 's' && r[|r| - 4] == 'm' && r[|r| - 7] == 'h'
    ensures r[..|r| - 7] == hh && r[|r| - 6..|r| - 4] == mm && r[|r| - 3..|r| - 1] == ss
  {
  }

  /** Python's `range(start, stop, step)` for a positive step. */
  function Range(start: int, stop: int, step: int): (r: seq<int>)
    requires step > 0
    ensures forall k :: 0 <= k < |r| ==> r[k] == start + k * step && r[k] < stop
    ensures start + |r| * step >= stop
    decreases stop - start
  {
    if start >= stop then []
    else
      var rest := Range(start + step, stop, step);
      assert forall k :: 1 <= k <= |rest| ==> (k - 1) * step + step == k * step;
      assert start + step + |rest| * step == start + (|rest| + 1) * step;
      [start] + rest
  }

  /** `frame_NNNNN.jpg` for the `number`-th attempt. */
  function FrameName(number: nat): (name: string) {
    "frame_" + FormatInt(number, 5) + ".jpg"
  }

  /** The name carries the attempt number in at least five digits. */
  lemma FrameNameParts(number: nat)
    ensures var name := FrameName(number);
      && |name| >= 15 && name[..6] == "frame_" && name[|name| - 4..] == ".jpg"
      && AllDigits(name[6..|name| - 4]) && Value(name[6..|name| - 4]) == number
  {
    var digits := FormatInt(number, 5);
    assert FrameName(number) == "frame_" + digits + ".jpg";
    ConcatParts("frame_", digits, ".jpg");
  }

  /** One extraction attempt: its number (which names the file), the second it seeks to, and
      whether ffmpeg saved the frame. */
  datatype Attempt = Attempt(number: nat, time: int, saved: bool)

  /** The extraction loop over the scheduled seconds. The counter goes up before each attempt,
      so a failed extraction still uses up its number; a time past the end stops the loop. */
  function ExtractLoop(times: seq<int>, total: real, extract: int -> bool, count: nat)
    : (r: seq<Attempt>)
    ensures |r| <= |times|
    decreases |times|
  {
    if times == [] || times[0] as real > total then []
    else [Attempt(count + 1, times[0], extract(times[0]))] + ExtractLoop(times[1..], total, extract, count + 1)
  }

  /** What a run does: the attempts, and the first-frame fallback (Some(saved) when taken). */
  datatype Extraction = Extraction(attempts: seq<Attempt>, fallback: Option<bool>)

  /** Why a run extracts nothing: a non-positive interval (refused by the command line) or a
      zero duration. */
  datatype ThumbError = NonPositiveInterval | ZeroDuration

  /** `extract_frames_at_interval` for a video of `total` seconds, after the command line has
      checked the interval. */
  function ExtractAtInterval(total: real, interval: int, extract: int -> bool)
    : (r: Result<Extraction, ThumbError>)
    ensures r.Failure? <==> interval <= 0 || total == 0.0
  {
    if interval <= 0 then Failure(NonPositiveInterval)
    else if total == 0.0 then Failure(ZeroDuration)
    else
      var attempts := ExtractLoop(Range(0, ChunkPlan.Ceil(total), interval), total, extract, 0);
      var fallback := if attempts == [] && total > 0.0 && interval as real > total then Some(extract(0)) else None;
      Success(Extraction(attempts, fallback))
  }

  /** Every scheduled second is below the duration, so the loop never stops early. */
  lemma ScheduleBeforeEnd(total: real, interval: int)
    requires interval > 0
    ensures forall k :: 0 <= k < |Range(0, ChunkPlan.Ceil(total), interval)| ==>
      Range(0, ChunkPlan.Ceil(total), interval)[k] as real < total
  {
  }

  /** With no early stop, attempt `k` is numbered `k + 1` and seeks to `times[k]`, whatever
      earlier extractions did. */
  lemma {:induction false} LoopNumbersAttempts(times: seq<int>, total: real, extract: int -> bool, count: nat)
    requires forall k :: 0 <= k < |times| ==> times[k] as real <= total
    ensures |ExtractLoop(times, total, extract, count)| == |times|
    ensures forall k :: 0 <= k < |times| ==>
      ExtractLoop(times, total, extract, count)[k] == Attempt(count + k + 1, times[k], extract(times[k]))
    decreases |times|
  {
    if times != [] {
      assert forall k :: 0 <= k < |times[1..]| ==> times[1..][k] == times[k + 1];
      LoopNumbersAttempts(times[1..], total, extract, count + 1);
    }
  }

  /** For a positive interval and duration: one attempt per multiple of the interval below
      `ceil(total)`, numbered 1, 2, ... in order, the first at second 0; the fallback is never
      taken. */
  lemma ExtractionShape(total: real, interval: int, extract: int -> bool)
    requires interval > 0 && total > 0.0
    ensures var r := ExtractAtInterval(total, interval, extract);
      && r.Success? && r.value.fallback == None
      && |r.value.attempts| >= 1 && r.value.attempts[0].time == 0
      && |r.value.attempts| == |Range(0, ChunkPlan.Ceil(total), interval)|
      && (|r.value.attempts| - 1) * interval < ChunkPlan.Ceil(total) <= |r.value.attempts| * interval
      && forall k :: 0 <= k < |r.value.attempts| ==>
        && r.value.attempts[k].number == k + 1
        && r.value.attempts[k].time == k * interval
        && r.value.attempts[k].time as real < total
        && r.value.attempts[k].saved == extract(k * interval)
  {
    var times := Range(0, ChunkPlan.Ceil(total), interval);
    ScheduleBeforeEnd(total, interval);
    LoopNumbersAttempts(times, total, extract, 0);
    assert |times| >= 1;
    assert times[|times| - 1] == (|times| - 1) * interval < ChunkPlan.Ceil(total);
  }

  /** Files are named in attempt order, and no two attempts share a name. */
  lemma FrameNamesDistinct(a: nat, b: nat)
    requires a != b
    ensures FrameName(a) != FrameName(b)
  {
    FrameNameParts(a);
    FrameNameParts(b);
  }
}
