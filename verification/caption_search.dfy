/** Transcript search (caption_search): loading a Whisper transcript, case-insensitive
    substring search over its segments, and the `MMmSSs` timestamp. */
module CaptionSearch {
  import opened Wrappers
  import opened Seqs
  import opened Text
  import opened Decimal
  import opened Json

  /** `load_transcript_from_file`: the parsed value when it has a `segments` key; a missing
      file, bad JSON, a value without the key and a value `in` cannot search all give None. */
  function LoadTranscript(file: FileState): (r: Option<Json>)
    ensures r.Some? <==> file.Present? && file.parsed.Some? && PyIn("segments", file.parsed.value) == Success(true)
    ensures r.Some? ==> r.value == file.parsed.value
  {
    match file
    case Missing => None
    case Present(_, None) => None
    case Present(_, Some(v)) =>
      match PyIn("segments", v)
      case Success(true) => Some(v)
      case _ => None
  }

  /** A Whisper transcript object holding `segments` is always kept. */
  lemma LoadTranscriptKeepsObjects(contents: string, fields: map<string, Json>)
    requires "segments" in fields
    ensures LoadTranscript(Present(contents, Some(JObj(fields)))) == Some(JObj(fields))
  {
  }

  /** The test on one segment: `"text" in segment and query_lower in segment["text"].lower()`,
      with the exceptions it raises on segments of the wrong shape. */
  function SegmentMatches(segment: Json, queryLower: string): (r: Result<bool, PyError>)
    ensures segment.JObj? && "text" in segment.fields && segment.fields["text"].JStr? ==>
      r == Success(Contains(Lower(segment.fields["text"].s), queryLower))
    ensures segment.JObj? && "text" !in segment.fields ==> r == Success(false)
    ensures r == Success(true) ==> PyIn("text", segment) == Success(true)
  {
    var has :- PyIn("text", segment);
    if !has then Success(false)
    else
      var text :- PyGet(segment, "text");
      if text.JStr? then Success(Contains(Lower(text.s), queryLower)) else Failure(AttributeError)
  }

  /** The search loop over a list of segments; the first raising segment ends it. */
  function SearchItems(items: seq<Json>, queryLower: string): (r: Result<seq<Json>, PyError>)
    ensures r.Success? ==> |r.value| <= |items|
    ensures r.Success? ==> forall i :: 0 <= i < |r.value| ==>
      r.value[i] in items && SegmentMatches(r.value[i], queryLower) == Success(true)
  {
    if items == [] then Success([])
    else
      var hit :- SegmentMatches(items[0], queryLower);
      var rest :- SearchItems(items[1..], queryLower);
      Success(if hit then [items[0]] + rest else rest)
  }

  /** `search_segments`. A false value finds nothing; a list is searched; iterating a non-empty
      string gives one-character strings, which never contain `text`; iterating a dict gives
      its keys, and indexing a key containing `text` raises; numbers are not iterable. */
  function SearchSegments(segments: Json, query: string): (r: Result<seq<Json>, PyError>)
    ensures !Truthy(segments) ==> r == Success([])
    ensures segments.JArr? ==> r == SearchItems(segments.items, Lower(query))
  {
    if !Truthy(segments) then Success([])
    else
      match segments
      case JArr(items) => SearchItems(items, Lower(query))
      case JStr(_) => Success([])
      case JObj(fields) =>
        if exists k :: k in fields && Contains(k, "text") then Failure(TypeError) else Success([])
      case _ => Failure(TypeError)
  }

  /** A segment as Whisper writes it: an object whose `text`, when present, is a string. */
  ghost predicate WellFormedSegment(segment: Json) {
    segment.JObj? && ("text" in segment.fields ==> segment.fields["text"].JStr?)
  }

  /** The reference predicate: the segment has a text that contains the query, both
      lower-cased. */
  predicate MatchesQuery(segment: Json, query: string) {
    && segment.JObj? && "text" in segment.fields && segment.fields["text"].JStr?
    && Contains(Lower(segment.fields["text"].s), Lower(query))
  }

  function Matcher(query: string): Json -> bool {
    s => MatchesQuery(s, query)
  }

  /** On well-formed segments the search raises nothing and returns, unmodified and in order,
      exactly the segments that match the query. */
  lemma {:induction false} SearchFiltersSegments(items: seq<Json>, query: string)
    requires forall i :: 0 <= i < |items| ==> WellFormedSegment(items[i])
    ensures SearchItems(items, Lower(query)) == Success(Filter(items, Matcher(query)))
  {
    var p := Matcher(query);
    if items != [] {
      assert forall i :: 0 <= i < |items[1..]| ==> items[1..][i] == items[i + 1];
      SearchFiltersSegments(items[1..], query);
      assert SegmentMatches(items[0], Lower(query)) == Success(p(items[0]));
      var rest := Filter(items[1..], p);
      assert SearchItems(items[1..], Lower(query)) == Success(rest);
      assert SearchItems(items, Lower(query)) == Success(if p(items[0]) then [items[0]] + rest else rest);
      assert Filter(items, p) == (if p(items[0]) then [items[0]] else []) + rest;
      if !p(items[0]) {
        assert [] + rest == rest;
      }
    }
  }

  /** The search ignores case in the query. */
  lemma SearchIgnoresQueryCase(segments: Json, query: string)
    ensures SearchSegments(segments, Lower(query)) == SearchSegments(segments, query)
  {
    LowerIdempotent(query);
  }

  /** The empty query matches every segment that has a string text, and no other. */
  lemma EmptyQueryMatchesAllTexts(segment: Json)
    ensures MatchesQuery(segment, "") <==>
      segment.JObj? && "text" in segment.fields && segment.fields["text"].JStr?
  {
    if segment.JObj? && "text" in segment.fields && segment.fields["text"].JStr? {
      ContainsEmpty(Lower(segment.fields["text"].s));
    }
  }

  /** Python's `seconds // 60` and `seconds % 60` on a float, then `int(...)`: whole minutes
      (floored, uncapped) and the whole seconds left over. */
  function MinutesAndSeconds(seconds: real): (r: (int, int))
    ensures 0 <= r.1 < 60
    ensures r.0 * 60 + r.1 == seconds.Floor
  {
    var minutes := (seconds / 60.0).Floor;
    var rem := seconds - 60.0 * minutes as real;
    assert 0.0 <= rem < 60.0;
    var secs := rem.Floor;
    assert seconds == 60.0 * minutes as real + rem;
    assert seconds.Floor == 60 * minutes + secs;
    (minutes, secs)
  }

  /** `format_timestamp`: `MMmSSs`, each part padded to two characters. */
  function FormatTimestamp(seconds: real): (r: string)
    ensures |r| >= 6 && r[|r| - 1] == 's' && r[|r| - 4] == 'm'
  {
    var (m, s) := MinutesAndSeconds(seconds);
    var mm := FormatInt(m, 2);
    var ss := FormatInt(s, 2);
    ZeroPadWidth(s, 2);
    MmSsFields(mm, ss, mm + "m" + ss + "s");
    mm + "m" + ss + "s"
  }

  /** Reads `MMmSSs` back as whole seconds. */
  function ParseMmSs(r: string): Option<int>
  {
    if |r| < 6 || r[|r| - 1] != 's' || r[|r| - 4] != 'm' then None
    else
      var m := DigitsAt(r, 0, |r| - 4);
      var s := DigitsAt(r, |r| - 3, |r| - 1);
      if m.Some? && s.Some? && s.value < 60 then Some(m.value * 60 + s.value) else None
  }

  /** For a non-negative time the formatted timestamp reads back as its whole seconds. */
  lemma FormatTimestampRoundTrip(seconds: real)
    requires seconds >= 0.0
    ensures ParseMmSs(FormatTimestamp(seconds)) == Some(seconds.Floor)
  {
    var (m, s) := MinutesAndSeconds(seconds);
    ZeroPadWidth(s, 2);
    var mm, ss := ZeroPad(m, 2), ZeroPad(s, 2);
    assert FormatTimestamp(seconds) == mm + "m" + ss + "s";
    ParseMmSsFields(mm, ss);
    var parsed := ParseMmSs(FormatTimestamp(seconds));
    assert parsed.Some? && parsed.value == seconds.Floor;
  }

  lemma ParseMmSsFields(mm: string, ss: string)
    requires |mm| >= 2 && |ss| == 2 && AllDigits(mm) && AllDigits(ss) && Value(ss) < 60
    ensures ParseMmSs(mm + "m" + ss + "s").Some?
    ensures ParseMmSs(mm + "m" + ss + "s").value == Value(mm) * 60 + Value(ss)
  {
    var r := mm + "m" + ss + "s";
    MmSsFields(mm, ss, r);
    var vm, vs := Value(mm), Value(ss);
    assert DigitsAt(r, 0, |r| - 4) == Some(vm);
    assert DigitsAt(r, |r| - 3, |r| - 1) == Some(vs);
    ParseMmSsOf(r, vm, vs);
  }

  lemma ParseMmSsOf(r: string, m: nat, s: nat)
    requires |r| >= 6 && r[|r| - 1] == 's' && r[|r| - 4] == 'm' && s < 60
    requires DigitsAt(r, 0, |r| - 4) == Some(m) && DigitsAt(r, |r| - 3, |r| - 1) == Some(s)
    ensures ParseMmSs(r).Some? && ParseMmSs(r).value == m * 60 + s
  {
  }

  /** Where the fields of `mm m ss s` sit. */
  lemma MmSsFields(mm: string, ss: string, r: string)
    requires |mm| >= 2 && |ss| == 2 && r == mm + "m" + ss + "s"
    ensures |r| == |mm| + 4 && r[|r| - 1] == 's' && r[|r| - 4] == 'm'
    ensures r[..|r| - 4] == mm && r[|r| - 3..|r| - 1] == ss
  {
  }
}
