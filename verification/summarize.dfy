/** Transcript loading and the empty-input guard of summarize_transcript: which text
    `load_transcript_text` picks from a `.txt` or Whisper `.json` transcript, and the
    whitespace short-circuit of `summarize_text`. The summarization pipeline is an oracle. */
module Summarize {
  import opened Wrappers
  import opened Seqs
  import opened Text
  import opened Json

  const WrongExtension: string := "Input file must be a .txt or .json file."
  const NoUsableText: string :=
    "JSON file seems to be a Whisper transcript but contains no usable text in segments."
  const NotWhisperFormat: string :=
    "JSON file does not conform to expected Whisper transcript format (missing 'text' or 'segments' key)."

  /** A segment whose `text` is a string: it contributes to the joined text. */
  predicate Usable(segment: Json) {
    segment.JObj? && "text" in segment.fields && segment.fields["text"].JStr?
  }

  /** The stripped text of a usable segment. */
  function StrippedText(segment: Json): string
    requires Usable(segment)
  {
    Strip(segment.fields["text"].s)
  }

  /** The list comprehension over `data["segments"]`: the stripped texts of the segments whose
      `text` is a string, or the first exception a segment raises. */
  function SegmentTexts(segments: seq<Json>): (r: Result<seq<string>, PyError>)
    ensures r.Success? ==> |r.value| <= |segments|
    ensures r.Failure? ==> r.error == TypeError
    decreases |segments|
  {
    if segments == [] then Success([])
    else
      var keep :- HasField(segments[0], "text", IsStr);
      var rest :- SegmentTexts(segments[1..]);
      Success((if keep then [StrippedText(segments[0])] else []) + rest)
  }

  /** The text a parsed `.json` transcript yields: its string `text` field if it has one, else
      the joined segment texts, which must not be empty. */
  function TextOfJson(data: Json): (r: Result<string, PyError>)
    ensures r.Success? ==>
      (r.value != [] || (data.JObj? && "text" in data.fields && data.fields["text"] == JStr([])))
    ensures r.Failure? ==>
      r.error in {TypeError, ValueError(NotWhisperFormat), ValueError(NoUsableText)}
  {
    var hasText :- HasField(data, "text", IsStr);
    if hasText then Success(data.fields["text"].s)
    else
      var hasSegments :- HasField(data, "segments", IsList);
      if !hasSegments then Failure(ValueError(NotWhisperFormat))
      else
        var texts :- SegmentTexts(data.fields["segments"].items);
        var full := Join(texts, " ");
        if full != [] then Success(full) else Failure(ValueError(NoUsableText))
  }

  /** The extension test on the lower-cased path. */
  predicate IsJsonPath(path: string) {
    EndsWith(Lower(path), ".json")
  }

  predicate IsTxtPath(path: string) {
    EndsWith(Lower(path), ".txt")
  }

  /** `load_transcript_text`: the file's state stands in for opening and parsing it. */
  function LoadTranscriptText(path: string, file: FileState): (r: Result<string, PyError>)
    ensures r == Failure(ValueError(WrongExtension)) <==> !IsTxtPath(path) && !IsJsonPath(path)
    ensures (IsTxtPath(path) || IsJsonPath(path)) && file.Missing? ==> r == Failure(FileNotFound)
    ensures IsTxtPath(path) && file.Present? ==> r == Success(file.contents)
    ensures IsJsonPath(path) && file.Present? && file.parsed.None? ==> r == Failure(JsonDecodeError)
    ensures IsJsonPath(path) && file.Present? && file.parsed.Some? ==> r == TextOfJson(file.parsed.value)
  {
    ExtensionsExclusive(path);
    if !IsTxtPath(path) && !IsJsonPath(path) then Failure(ValueError(WrongExtension))
    else if IsJsonPath(path) then
      match file
      case Missing => Failure(FileNotFound)
      case Present(_, None) => Failure(JsonDecodeError)
      case Present(_, Some(data)) => TextOfJson(data)
    else
      match file
      case Missing => Failure(FileNotFound)
      case Present(contents, _) => Success(contents)
  }

  /** A path cannot end in both `.txt` and `.json`, so the order of the two tests only matters
      for which branch reads the file. */
  lemma ExtensionsExclusive(path: string)
    ensures !(IsTxtPath(path) && IsJsonPath(path))
  {
    var lower := Lower(path);
    if IsTxtPath(path) {
      assert lower[|lower| - 1] == ".txt"[3] == 't';
    }
  }

  /** A string `text` field is returned as it stands, whatever the segments hold. */
  lemma TextFieldWins(fields: map<string, Json>, text: string)
    requires "text" in fields && fields["text"] == JStr(text)
    ensures TextOfJson(JObj(fields)) == Success(text)
  {
  }

  /** For a list of dicts, the comprehension keeps the usable segments in order and strips
      them. */
  lemma {:induction false} SegmentTextsOfDicts(segments: seq<Json>)
    requires forall i :: 0 <= i < |segments| ==> segments[i].JObj?
    ensures SegmentTexts(segments) == Success(Stripped(Filter(segments, Usable)))
    decreases |segments|
  {
    if segments != [] {
      assert forall i :: 0 <= i < |segments[1..]| ==> segments[1..][i] == segments[i + 1];
      SegmentTextsOfDicts(segments[1..]);
      var rest := Filter(segments[1..], Usable);
      if Usable(segments[0]) {
        assert Filter(segments, Usable) == [segments[0]] + rest;
        StrippedCons(segments[0], rest);
      } else {
        assert HasField(segments[0], "text", IsStr) == Success(false);
        assert Filter(segments, Usable) == rest;
        assert [] + Stripped(rest) == Stripped(rest);
      }
    }
  }

  /** The stripped texts of usable segments, one per segment. */
  function Stripped(segments: seq<Json>): (r: seq<string>)
    requires forall i :: 0 <= i < |segments| ==> Usable(segments[i])
    ensures |r| == |segments| && forall i :: 0 <= i < |r| ==> r[i] == StrippedText(segments[i])
  {
    seq(|segments|, i requires 0 <= i < |segments| => StrippedText(segments[i]))
  }

  lemma StrippedCons(s: Json, rest: seq<Json>)
    requires Usable(s) && forall i :: 0 <= i < |rest| ==> Usable(rest[i])
    ensures Stripped([s] + rest) == [StrippedText(s)] + Stripped(rest)
  {
  }

  /** A segment that is `None`, a bool or a number raises `TypeError` at `"text" in segment`,
      unless an earlier segment has already raised. */
  lemma {:induction false} ScalarSegmentRaises(segments: seq<Json>, i: nat)
    requires i < |segments| && (segments[i].JNull? || segments[i].JBool? || segments[i].JNum?)
    ensures SegmentTexts(segments).Failure?
    decreases |segments|
  {
    if i > 0 {
      ScalarSegmentRaises(segments[1..], i - 1);
    }
  }

  /** Without a string `text` field, a dict with a `segments` list of dicts yields the stripped
      usable texts joined by single spaces, and `ValueError` when that join is empty. */
  lemma SegmentsJoined(fields: map<string, Json>, segments: seq<Json>)
    requires !("text" in fields && fields["text"].JStr?)
    requires "segments" in fields && fields["segments"] == JArr(segments)
    requires forall i :: 0 <= i < |segments| ==> segments[i].JObj?
    ensures var full := Join(Stripped(Filter(segments, Usable)), " ");
      TextOfJson(JObj(fields)) == if full != [] then Success(full) else Failure(ValueError(NoUsableText))
  {
    var data := JObj(fields);
    assert HasField(data, "text", IsStr) == Success(false);
    assert HasField(data, "segments", IsList) == Success(true);
    SegmentTextsOfDicts(segments);
  }

  /** The joined text is empty exactly when there is no usable text at all, or a single one
      that is only whitespace; two blank segments join to a single space. */
  lemma {:induction false} JoinEmptyIff(texts: seq<string>)
    ensures Join(texts, " ") == [] <==> |texts| == 0 || (|texts| == 1 && texts[0] == [])
  {
    if |texts| > 1 {
      var full := Join(texts, " ");
      assert full == Join(texts[..|texts| - 1], " ") + " " + texts[|texts| - 1];
      assert |full| >= 1;
    }
  }

  /** A dict with neither a string `text` nor a `segments` list is refused. */
  lemma MissingKeysRefused(fields: map<string, Json>)
    requires !("text" in fields && fields["text"].JStr?)
    requires !("segments" in fields && fields["segments"].JArr?)
    ensures TextOfJson(JObj(fields)) == Failure(ValueError(NotWhisperFormat))
  {
  }

  /** `summarize_text`: empty or whitespace-only input gives `""`; otherwise the pipeline's
      `summary_text`, or `""` when its output is not in the expected form (`None` here). */
  function SummarizeText(text: string, summarizer: string -> Option<string>): (r: string)
    ensures AllSpace(text) ==> r == ""
    ensures !AllSpace(text) && summarizer(text).Some? ==> r == summarizer(text).value
    ensures !AllSpace(text) && summarizer(text).None? ==> r == ""
  {
    if Strip(text) == [] then ""
    else match summarizer(text)
      case Some(summary) => summary
      case None => ""
  }

  /** Blank input never reaches the model: any two summarizers give the same answer. */
  lemma BlankInputSkipsModel(text: string, one: string -> Option<string>, other: string -> Option<string>)
    requires AllSpace(text)
    ensures SummarizeText(text, one) == SummarizeText(text, other) == ""
  {
  }
}
