# Media tools core, modelled in Dafny

This project models the pure decision, planning and formatting logic of a set of small media
tools. Around their calls into ffmpeg, Whisper, CLIP, HDBSCAN and BART, the tools:

- **search_local_media** discovers image and video files by extension. It samples evenly spaced
  frames from each video, builds a cached embedding index and ranks the entries for a query.
- **generate_video_captions** writes SRT and WebVTT caption files from transcript segments.
- **caption_search** loads a Whisper transcript, finds the segments containing a query
  (case-insensitive) and formats `MMmSSs` timestamps.
- **split_video_by_second** plans how a video is cut into fixed-length chunks and names them.
- **extract_thumbnails** schedules a frame every N seconds and numbers the frame files. It also
  formats `HHhMMmSSs` labels.
- **segment_transcript_by_topic** post-processes the clusterer's labels: it gives short inputs a
  fallback topic, drops noise and sorts records by topic and start time.
- **summarize_transcript** picks the text to summarise from a `.txt` or Whisper `.json` file,
  and skips blank input.

Every operation is a pure function over `seq`, `string`, `int` and `real`. The outside world is
passed in:

- the embedders, the frame decoder and the video probe are function parameters;
- the cluster labels and the summariser are inputs;
- the index file is a `Store` value;
- a transcript file is a `FileState` (missing, or present with its text and its JSON parse).

Python semantics are modelled where the tools rely on them:

- truthiness, and `in` on dicts, lists and strings;
- `isinstance`, `zip` truncation and `os.path.splitext`;
- `str.strip`, `str.lower` (ASCII), `" ".join` and zero-padded `{n:0Wd}` formatting (minus sign included);
- floor division on floats, and stable sorting, including `reverse=True`.

Modules, one per file: `Wrappers`, `Seqs`, `Sorting`, `Text`, `Decimal`, `Paths`, `Json`
(shared helpers), then `MediaIndex`, `Captions`, `CaptionSearch`, `ChunkPlan`, `Thumbnails`,
`Topics` and `Summarize`, one per tool.

An unreadable index file is not rebuilt: `build_index` lets the `pickle.load` error propagate
(search_local_media/utils.py:104-107), and `BuildIndex` returns `Failure(CorruptIndexFile)` for an
`Unreadable` store.

Two guards in the source can never fire; the model proves it. `split_video` skips a chunk
whose duration is not positive; `DurationPositive` shows this cannot happen inside the loop.
`extract_frames_at_interval` has a fallback for the case where no frame was scheduled;
`ExtractionShape` shows that for a positive duration and interval, second 0 is always
scheduled, so the fallback is unreachable.

## Model

| member | source | states |
|---|---|---|
| Paths.SplitExt | search_local_media/utils.py:95 | `os.path.splitext` splits the path into two parts that concatenate back to it; the extension is empty or starts with a dot and contains no further dot or separator |
| Paths.ExtOfName | search_local_media/utils.py:95 | the extension of `dir/stem.ext` is exactly `.ext`, for a stem with a non-dot character |
| Paths.NoDotNoExt | search_local_media/utils.py:95 | a base name without a dot has no extension, whatever the directory holds |
| Paths.HiddenNameNoExt | search_local_media/utils.py:95 | a base name that is only dots before its last dot (such as `.jpg`) has no extension |
| Paths.MediaFileByName | search_local_media/utils.py:14-15 | a named file is media iff its lower-cased extension is one of the five image or six video extensions |
| Paths.ImageFileByName | search_local_media/utils.py:116-117 | `IsImageFile`: a named file is an image iff its lower-cased extension is one of the five image extensions |
| Paths.VideoFileByName | generate_video_captions/utils.py:8-14 | `is_video_file` holds iff the lower-cased extension is one of the six video extensions; caption_search/utils.py:8-11 applies the same rule |
| Paths.JoinDir | search_local_media/utils.py:97 | the directory part `os.path.join` puts before a name is the root itself when the root is empty or already ends in a separator, and otherwise the root plus one separator |
| Paths.ExtUnderDir | search_local_media/utils.py:95-97 | joining a directory in front of a base name does not change its extension |
| MediaIndex.DiscoveredPaths | search_local_media/utils.py:91-98 | `DiscoverMediaFiles`: every walked media file is discovered under its joined path, and every discovered path is the joined path of a walked media file |
| MediaIndex.DiscoveredIffMedia | search_local_media/utils.py:91-98 | a walked file is discovered iff its base name is media, and every discovered full path passes the media test again |
| MediaIndex.DiscoveredEntry | search_local_media/utils.py:94-97 | for one walked file: it is discovered iff its base name has a media extension |
| MediaIndex.JoinedExt | search_local_media/utils.py:116 | the extension `build_index` reads from the full path is the one discovery read from the base name |
| MediaIndex.SampleTimes | search_local_media/utils.py:66-68 | the schedule has exactly `num_frames` timestamps |
| MediaIndex.SampleTimesInterior | search_local_media/utils.py:66-68 | for a positive duration the timestamps strictly increase and lie strictly between 0 and the duration |
| MediaIndex.SampleTimesEven | search_local_media/utils.py:66-68 | the timestamps are evenly spaced: each is one gap after the previous, the first is one gap after 0, and the last is one gap before the end |
| MediaIndex.ExtractFrames | search_local_media/utils.py:48-64 | a failed probe, a missing duration or a zero duration give no frames; a non-zero duration gives the decode loop over the evenly spaced schedule, and every frame names its video |
| MediaIndex.CollectFrames | search_local_media/utils.py:67-88 | every kept frame is the decoder's image at a scheduled timestamp, and there are at most as many frames as timestamps |
| MediaIndex.CollectFramesInOrder | search_local_media/utils.py:77-81 | the kept timestamps are an in-order subsequence of the schedule |
| MediaIndex.CollectFramesWithoutErrors | search_local_media/utils.py:77-81 | without decode errors the kept timestamps are exactly those whose decoding gives an image; empty output skips a timestamp |
| MediaIndex.CollectFramesStopAtError | search_local_media/utils.py:82-88 | a decode error ends the loop: the result is what the earlier timestamps gave |
| MediaIndex.FrameEntriesKept | search_local_media/utils.py:135-151 | `FrameEntries`: the `video_frame` entries are exactly the frames whose embedding succeeds, in frame order, each with the video's path, the frame's timestamp and its embedding; a failed embedding drops only its own frame |
| MediaIndex.FrameEntryMember | search_local_media/utils.py:135-151 | a frame entry is produced iff it names the video and some extracted frame at its timestamp embeds to its embedding |
| MediaIndex.FileEntriesMember | search_local_media/utils.py:115-151 | `FileEntries`: a file gives `ImageEntry(path, e)` iff it is an image whose embedding is `e`, and a frame entry iff it is a video (not an image) with an extracted frame at that timestamp that embeds |
| MediaIndex.IndexFiles | search_local_media/utils.py:115-151 | every index entry belongs to one of the indexed files |
| MediaIndex.IndexedEntries | search_local_media/utils.py:115-151 | an entry is in the index iff its path is one of the indexed files and the entry comes from that file: its embedded image, or one of its embedded frames |
| MediaIndex.IndexFilesAppend | search_local_media/utils.py:115-151 | the index follows discovery order: indexing a concatenation concatenates the indexes |
| MediaIndex.IndexAttemptsAppend | search_local_media/utils.py:115-151 | the embedding attempts of a concatenation add up |
| MediaIndex.EveryAttemptIndexed | search_local_media/utils.py:115-151 | when no embedding fails, each image and each sampled frame yields exactly one entry |
| MediaIndex.AllFramesEmbedded | search_local_media/utils.py:135-147 | when every frame embeds, a video yields one entry per frame |
| MediaIndex.FrameEntryInside | search_local_media/utils.py:131-147 | a frame entry of a video with a positive duration has a timestamp strictly inside the video |
| MediaIndex.BuildIndex | search_local_media/utils.py:102-156 | without `reindex`, a stored index is returned unchanged with no embedding calls and an unreadable one raises; otherwise the store is overwritten with the index of the discovered files, in discovery order, after one embedding attempt per image and per extracted frame |
| MediaIndex.RebuiltIndexMembers | search_local_media/utils.py:102-156 | a rebuilt index holds exactly the entries of the discovered files: each image that embeds, and each sampled frame of a video that embeds |
| MediaIndex.SearchIndex | search_local_media/utils.py:160-171 | the result is a prefix of the ranking of length `min(top_k, len(index))`, pairs `(score(item), item)` of index items with non-increasing scores |
| MediaIndex.SearchTopK | search_local_media/utils.py:170-171 | the ranking is a permutation of the scored index, and nothing left out scores higher than anything returned |
| MediaIndex.SearchBestFirst | search_local_media/utils.py:170-171 | a non-empty search returns a best-scoring item first |
| MediaIndex.SearchTiesInIndexOrder | search_local_media/utils.py:170-171 | among equal scores the returned pairs are the first ones of the index with that score, in index order |
| Sorting.SortBy | segment_transcript_by_topic/topic_segmenter.py:71 | the sort returns a permutation of its input that is ordered by the key |
| Sorting.SortStable | search_local_media/utils.py:170 | sorting keeps the input order of elements with equal keys |
| Seqs.PyPrefix | search_local_media/utils.py:171 | Python's `s[:k]` is a prefix of `s`, of length `min(k, len(s))` for `k >= 0` and `len(s) + k` (at least 0) for negative `k` |
| Text.Strip | generate_video_captions/utils.py:87 | `str.strip` returns a slice of the input that is empty iff the input is all whitespace, and otherwise starts and ends with a non-space |
| Text.Lower | caption_search/utils.py:81 | lower-casing keeps the length, leaves no ASCII capital, changes exactly the capitals, and moves each one 32 code points up to its lower-case letter |
| Text.ContainsIff | caption_search/utils.py:83 | substring `in` holds iff the needle occurs at some index of the haystack |
| Text.JoinAppend | generate_video_captions/utils.py:89 | `Join` (`sep.join`): joining one more part appends the separator (unless the list was empty) and then the part |
| Text.JoinCons | generate_video_captions/utils.py:100 | `Join`: joining a list puts the first part, then the separator and the join of the rest, if any |
| Decimal.Digits | generate_video_captions/utils.py:88 | `str(n)` has no leading zero and reads back as `n` |
| Decimal.ZeroPad | generate_video_captions/utils.py:66 | `{n:0Wd}` has `max(W, len(str(n)))` digits and reads back as `n` |
| Decimal.FormatInt | caption_search/utils.py:92 | `{n:02d}` of a negative number is a minus sign and the digits of its magnitude; the length is exactly the larger of the width and the digits plus the sign |
| Json.HasField | summarize_transcript/utils.py:18 | `key in value and isinstance(value[key], kind)` is decided by the dict's field; `None`, booleans and numbers raise `TypeError`, and every error is a `TypeError` |
| Json.PyInMeaning | summarize_transcript/utils.py:18-21 | `PyIn` (`key in container`): a dict tests its keys, a list an equal string element, a string an occurrence of the key; every other value raises |
| Json.FalsyValues | caption_search/utils.py:78 | `Truthy`: the falsy values are exactly `None`, `False`, `0`, `""`, `[]` and `{}` |
| Captions.ClockOf | generate_video_captions/utils.py:62-65 | the hours from `delta.seconds` are below 24; minutes and seconds are below 60 and milliseconds below 1000 |
| Captions.ClockOfDayMillis | generate_video_captions/utils.py:62-65 | the four clock fields spell out the time of day in milliseconds: the sub-millisecond part is truncated and whole days are dropped |
| Captions.HoursMinutesSeconds | generate_video_captions/utils.py:62-65 | hours, minutes and seconds taken from the seconds of a day put that number of seconds back together |
| Captions.FormatSrt | generate_video_captions/utils.py:60-66 | the SRT timestamp is always 12 characters |
| Captions.SrtRoundTrip | generate_video_captions/utils.py:60-66 | the SRT timestamp is `HH:MM:SS,mmm` and reads back as the time of day in milliseconds |
| Captions.FormatVtt | generate_video_captions/utils.py:69-78 | the WebVTT timestamp is 12 or 9 characters long |
| Captions.VttRoundTrip | generate_video_captions/utils.py:69-78 | the WebVTT timestamp reads back as the time of day in milliseconds, and carries the hours field iff the hours are not zero |
| Captions.VttWithHours | generate_video_captions/utils.py:75-76 | with non-zero hours the timestamp is `HH:MM:SS.mmm` and reads back as the time of day |
| Captions.VttWithoutHours | generate_video_captions/utils.py:77-78 | with zero hours the timestamp is `MM:SS.mmm` and reads back as the time of day |
| Captions.SrtCueReadsBack | generate_video_captions/utils.py:84-88 | `SrtCue`: cue `k` starts with the line `k`, then a timing line whose two timestamps read back as the segment's start and end times of day, then the stripped text on its own line |
| Captions.SrtContent | generate_video_captions/utils.py:81-89 | the SRT text is empty iff there are no segments |
| Captions.SrtContentAppend | generate_video_captions/utils.py:81-89 | one more segment appends a newline (unless the content was empty) and exactly one cue, numbered one past the existing cues |
| Captions.VttBlockReadsBack | generate_video_captions/utils.py:95-99 | `VttBlock`: a block's timing line reads back as the segment's start and end times of day, and the stripped text follows on its own line |
| Captions.VttContent | generate_video_captions/utils.py:92-100 | with no segments the output is `WEBVTT\n`; otherwise it is that header, a newline and the blocks joined by newlines |
| Captions.VttContentAppend | generate_video_captions/utils.py:92-100 | one more segment appends a newline and exactly its block |
| CaptionSearch.LoadTranscript | caption_search/utils.py:56-72 | a transcript is returned, unchanged, iff the file exists, parses and `"segments" in` the value holds; every other case is `None` and nothing is raised |
| CaptionSearch.LoadTranscriptKeepsObjects | caption_search/utils.py:58-63 | a JSON object with a `segments` key is returned as it stands |
| CaptionSearch.SegmentMatches | caption_search/utils.py:83 | a dict with a string text matches iff its lower-cased text contains the lower-cased query; a dict without `text` never matches |
| CaptionSearch.SearchItems | caption_search/utils.py:82-85 | every returned segment is one of the input segments and matched the query |
| CaptionSearch.SearchSegments | caption_search/utils.py:75-85 | empty or false segments give `[]`; a list is searched segment by segment |
| CaptionSearch.SearchFiltersSegments | caption_search/utils.py:81-85 | on well-formed segments the search raises nothing and returns exactly the matching segments, unmodified and in order |
| CaptionSearch.SearchIgnoresQueryCase | caption_search/utils.py:81-83 | lower-casing the query first does not change the result |
| CaptionSearch.EmptyQueryMatchesAllTexts | caption_search/utils.py:83 | the empty query matches exactly the segments that have a string text |
| CaptionSearch.MinutesAndSeconds | caption_search/utils.py:90-91 | minutes are uncapped, and seconds are below 60; together they give the floored total seconds |
| CaptionSearch.FormatTimestamp | caption_search/utils.py:88-92 | the timestamp ends in `m` two places before the final `s` |
| CaptionSearch.FormatTimestampRoundTrip | caption_search/utils.py:88-92 | for a non-negative time, `MMmSSs` reads back as the floored seconds |
| ChunkPlan.Ceil | split_video_by_second/split_video.py:37 | `math.ceil` gives the least integer not below its argument |
| ChunkPlan.ChunkNameParts | split_video_by_second/split_video.py:52 | `ChunkName`: the name is `chunk_`, then the 1-based piece number in at least three digits, then `.mp4` |
| ChunkPlan.ChunkNamesDistinct | split_video_by_second/split_video.py:52 | different pieces get different file names |
| ChunkPlan.PlanUpTo | split_video_by_second/split_video.py:43-50 | the loop plans at most one piece per iteration |
| ChunkPlan.PlanChunks | split_video_by_second/split_video.py:101-104 | a plan is refused iff the chunk length is not positive, and a non-positive total gives no pieces |
| ChunkPlan.NoTimeNoChunks | split_video_by_second/split_video.py:37-43 | a non-positive total gives no iterations |
| ChunkPlan.ChunkCountBounds | split_video_by_second/split_video.py:37 | the piece count is the least `n >= 1` with `n * chunk >= total` |
| ChunkPlan.DurationPositive | split_video_by_second/split_video.py:46-50 | inside the loop every duration lies in `(0, chunk]`, so the skip branch never runs |
| ChunkPlan.DurationFull | split_video_by_second/split_video.py:46-48 | `ChunkDuration`: every piece but the last is a full chunk long |
| ChunkPlan.DurationLast | split_video_by_second/split_video.py:46-48 | `ChunkDuration`: the last piece runs from its start to the end of the video |
| ChunkPlan.PlanUpToExact | split_video_by_second/split_video.py:43-50 | when no iteration is skipped, piece `i` is the `i`-th iteration |
| ChunkPlan.PlanShape | split_video_by_second/split_video.py:37-50 | there are `ceil(total / chunk)` pieces; piece `i` starts at `i * chunk` and lasts `min(chunk, total - start)`, which is positive and at most `chunk` |
| ChunkPlan.PlanTiles | split_video_by_second/split_video.py:43-48 | the pieces are contiguous, their durations sum to the total, and the last ends exactly at the total |
| ChunkPlan.Tiling | split_video_by_second/split_video.py:43-48 | full pieces at multiples of `chunk`, with a last piece ending at the total, tile `[0, total]` |
| Thumbnails.HoursMinutesSeconds | extract_thumbnails/extract_frames.py:27-29 | hours are uncapped, and minutes and seconds are below 60; together they give the floored total seconds |
| Thumbnails.FormatTimeRoundTrip | extract_thumbnails/extract_frames.py:25-30 | `FormatTime` (`format_time`): for a non-negative time, `HHhMMmSSs` reads back as the floored seconds |
| Thumbnails.Range | extract_thumbnails/extract_frames.py:55 | `range(start, stop, step)` lists `start + k * step` below `stop`, and the next step would reach `stop` |
| Thumbnails.FrameNameParts | extract_thumbnails/extract_frames.py:64 | `FrameName`: the name is `frame_`, then the attempt number in at least five digits, then `.jpg` |
| Thumbnails.FrameNamesDistinct | extract_thumbnails/extract_frames.py:63-64 | different attempts get different file names |
| Thumbnails.ExtractLoop | extract_thumbnails/extract_frames.py:54-86 | the loop makes at most one attempt per scheduled second |
| Thumbnails.ExtractAtInterval | extract_thumbnails/extract_frames.py:33-106 | the run is refused iff the interval is not positive or the duration is zero |
| Thumbnails.ScheduleBeforeEnd | extract_thumbnails/extract_frames.py:55-58 | every scheduled second is below the duration, so the early break never fires |
| Thumbnails.LoopNumbersAttempts | extract_thumbnails/extract_frames.py:63-86 | attempt `k` is numbered `k + 1` and seeks to the `k`-th scheduled second, even when earlier extractions failed |
| Thumbnails.ExtractionShape | extract_thumbnails/extract_frames.py:88-93 | for a positive duration and interval there is one attempt per multiple of the interval below `ceil(total)`: attempt `k` is numbered `k + 1` at second `k * interval`, the first at second 0, all inside the video, and the fallback is never taken |
| Topics.ClusteredLabels | segment_transcript_by_topic/topic_segmenter.py:24-68 | from two segments on, a record comes back iff it tags a segment with its own non-noise cluster label |
| Topics.Group | segment_transcript_by_topic/topic_segmenter.py:51-68 | the loop keeps at most one record per zipped pair, and none of them has the noise label |
| Topics.GroupMembers | segment_transcript_by_topic/topic_segmenter.py:52-68 | a record is built iff it copies a segment's start, end and text under that segment's label, and the label is not noise |
| Topics.SegmentByTopic | segment_transcript_by_topic/topic_segmenter.py:6-72 | no segments give `[]`; the output is no longer than the input, has no noise record and is sorted by `(topic_id, start)` |
| Topics.SegmentByTopicMembers | segment_transcript_by_topic/topic_segmenter.py:51-71 | the output is a permutation of the loop's records: exactly the tagged non-noise segments |
| Topics.SegmentByTopicStable | segment_transcript_by_topic/topic_segmenter.py:71 | records with equal `(topic_id, start)` keep the order in which the loop built them |
| Topics.SingleSegment | segment_transcript_by_topic/topic_segmenter.py:24-41 | a single segment yields exactly one record, in topic 0, whatever the clusterer says |
| Topics.AllNoise | segment_transcript_by_topic/topic_segmenter.py:56-60 | when every label is noise, nothing comes back |
| Topics.TopicsContiguous | segment_transcript_by_topic/topic_segmenter.py:71 | records of one topic are adjacent, in order of start time |
| Summarize.SegmentTexts | summarize_transcript/utils.py:22-28 | the comprehension yields at most one text per segment, and the only error it raises is `TypeError` |
| Summarize.TextOfJson | summarize_transcript/utils.py:17-38 | a successful selection is non-empty unless it is an empty `text` field; the only errors are `TypeError` and the two `ValueError`s |
| Summarize.LoadTranscriptText | summarize_transcript/utils.py:10-41 | the extension error is raised iff the path ends in neither `.txt` nor `.json`; a missing file raises; a `.txt` file returns its contents; unparsable JSON raises; parsed JSON gives the text `TextOfJson` selects |
| Summarize.ExtensionsExclusive | summarize_transcript/utils.py:10-14 | no path ends in both `.txt` and `.json`, so the order of the two tests only decides which branch reads the file |
| Summarize.TextFieldWins | summarize_transcript/utils.py:18-19 | a string `text` field is returned verbatim, whatever the segments hold |
| Summarize.SegmentTextsOfDicts | summarize_transcript/utils.py:22-28 | for a list of dicts, the texts are the stripped string texts of the usable segments, in order |
| Summarize.ScalarSegmentRaises | summarize_transcript/utils.py:26 | a segment that is `None`, a boolean or a number makes the comprehension raise |
| Summarize.SegmentsJoined | summarize_transcript/utils.py:21-34 | without a string `text`, a `segments` list of dicts gives the usable stripped texts joined by single spaces, or `ValueError` when that join is empty |
| Summarize.JoinEmptyIff | summarize_transcript/utils.py:22-34 | the join is empty iff there is no usable text, or exactly one text that strips to nothing |
| Summarize.MissingKeysRefused | summarize_transcript/utils.py:35-38 | neither a string `text` nor a `segments` list raises the format `ValueError` |
| Summarize.SummarizeText | summarize_transcript/utils.py:57-109 | blank input gives `""`; otherwise the summariser's text, or `""` when its output has the wrong shape |
| Summarize.BlankInputSkipsModel | summarize_transcript/utils.py:57-61 | for blank input the summariser is never consulted: any two give `""` |

## Left out

- Paths: POSIX path rules (`posixpath`, `/` as the only separator); `ntpath` separators and drive letters are not modelled.
- I/O is left out: ffmpeg probing, decoding and cutting, `os.walk`, `os.path.exists`, `os.makedirs`, file reads and writes, pickle, temporary files and printing. Probes, decoders, walks, files and the index store are inputs.
- The CLIP, Whisper, SentenceTransformer, HDBSCAN and BART models are oracles or given inputs. Model loading, devices, model names, `min_length` and `max_length` are not modelled.
- Cosine similarity (search_local_media/utils.py:165-167) becomes an abstract score function. Its float arithmetic, and the NaN numpy returns for a zero-norm vector, are not modelled.
- Times are reals or integers, so float rounding is not modelled. The caption formatters take integer microseconds: `datetime.timedelta(seconds=...)` rounds a float to the nearest microsecond, and that rounding is not modelled.
- `str.lower` maps only ASCII letters. Unicode case mapping is not modelled.
- `get_video_duration` (split_video.py and extract_frames.py) is not part of this model. Its result is the `total` parameter.
- The output-folder join of chunk and frame file names is not modelled; only the base names are.
- `search_segments` on a dict iterates its keys. The model only decides whether some key contains `text`, so the raised `TypeError` does not depend on dict iteration order.
- Topics.SegmentByTopic: the sentence embedding and HDBSCAN run are replaced by the given labels. Segments missing `start`, `end` or `text` raise `KeyError` in the source; the model's segments always have all three.
- Captions.SrtContent: segments missing `start`, `end` or `text` raise `KeyError` in the source; the model's segments always have all three.
- `load_transcript_text`: a file that is not valid UTF-8 raises `UnicodeDecodeError` in the source; that case is not modelled.
- Summarize.SummarizeText: exceptions raised by the pipeline propagate in the source; the summariser is modelled as a total function.
- `extract_frames_from_video` uses a `try` around both the probe and the loop. A probe error and a duration that does not parse both become `ProbeFailed`. A decode error becomes `DecodeError` and ends the loop.
