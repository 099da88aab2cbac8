/** Local media indexing and retrieval (search_local_media): file discovery by extension,
    evenly spaced frame sampling, the cache-or-rebuild index builder and top-k ranking.
    The CLIP embedder, the ffmpeg probe and decoder, and the pickle file are oracles. */
module MediaIndex {
  import opened Wrappers
  import opened Seqs
  import opened Sorting
  import opened Text
  import opened Paths

  /** `FRAMES_PER_VIDEO`: frames sampled from each video. */
  const FramesPerVideo: nat := 5

  /** A file reported by the directory walk: the directory it sits in and its base name. */
  datatype WalkEntry = WalkEntry(root: string, name: string)

  ghost predicate IsBaseName(name: string) {
    forall k :: 0 <= k < |name| ==> name[k] != '/'
  }

  predicate IsMediaName(e: WalkEntry) {
    IsMediaFile(e.name)
  }

  function JoinedPath(e: WalkEntry): (p: string) {
    PathJoin(e.root, e.name)
  }

  /** `discover_media_files`: the joined paths of the walked files whose base name carries one
      of the media extensions, in walk order. */
  function DiscoverMediaFiles(walk: seq<WalkEntry>): (r: seq<string>)
    ensures |r| == |Filter(walk, IsMediaName)|
    ensures forall i :: 0 <= i < |r| ==> r[i] == JoinedPath(Filter(walk, IsMediaName)[i])
  {
    var kept := Filter(walk, IsMediaName);
    seq(|kept|, i requires 0 <= i < |kept| => JoinedPath(kept[i]))
  }

  /** The discovered paths are exactly the joined paths of the walked media files. */
  lemma DiscoveredPaths(walk: seq<WalkEntry>)
    ensures forall e :: e in walk && IsMediaFile(e.name) ==> JoinedPath(e) in DiscoverMediaFiles(walk)
    ensures forall p :: p in DiscoverMediaFiles(walk) ==>
      exists e :: e in walk && IsMediaFile(e.name) && p == JoinedPath(e)
  {
    forall e | e in walk && IsMediaFile(e.name)
      ensures JoinedPath(e) in DiscoverMediaFiles(walk)
    {
      DiscoveredWalked(walk, e);
    }
    forall p | p in DiscoverMediaFiles(walk)
      ensures exists e :: e in walk && IsMediaFile(e.name) && p == JoinedPath(e)
    {
      var j :| 0 <= j < |DiscoverMediaFiles(walk)| && DiscoverMediaFiles(walk)[j] == p;
      DiscoveredFrom(walk, j);
    }
  }

  lemma DiscoveredWalked(walk: seq<WalkEntry>, e: WalkEntry)
    requires e in walk && IsMediaFile(e.name)
    ensures JoinedPath(e) in DiscoverMediaFiles(walk)
  {
    var kept := Filter(walk, IsMediaName);
    var k :| 0 <= k < |walk| && walk[k] == e;
    assert IsMediaName(walk[k]);
    assert e in kept;
    var j :| 0 <= j < |kept| && kept[j] == e;
    assert DiscoverMediaFiles(walk)[j] == JoinedPath(e);
  }

  lemma DiscoveredFrom(walk: seq<WalkEntry>, j: nat)
    requires j < |DiscoverMediaFiles(walk)|
    ensures var e := Filter(walk, IsMediaName)[j];
      e in walk && IsMediaFile(e.name) && DiscoverMediaFiles(walk)[j] == JoinedPath(e)
  {
  }

  /** With base names from the walk, a file is discovered exactly when its base name is a media
      file, and every discovered path passes the same check again as a full path, which is the
      check `build_index` repeats. */
  lemma DiscoveredIffMedia(walk: seq<WalkEntry>)
    requires forall k :: 0 <= k < |walk| ==> IsBaseName(walk[k].name)
    ensures forall i :: 0 <= i < |walk| ==>
      (JoinedPath(walk[i]) in DiscoverMediaFiles(walk) <==> IsMediaFile(walk[i].name))
    ensures forall p :: p in DiscoverMediaFiles(walk) ==> IsMediaFile(p)
  {
    var r := DiscoverMediaFiles(walk);
    forall j | 0 <= j < |r|
      ensures IsMediaFile(r[j])
    {
      DiscoveredIsMedia(walk, j);
    }
    forall i | 0 <= i < |walk|
      ensures JoinedPath(walk[i]) in r <==> IsMediaFile(walk[i].name)
    {
      DiscoveredEntry(walk, i);
    }
  }

  /** Walked file `i` is discovered exactly when its base name is a media file. */
  lemma DiscoveredEntry(walk: seq<WalkEntry>, i: nat)
    requires forall k :: 0 <= k < |walk| ==> IsBaseName(walk[k].name)
    requires i < |walk|
    ensures JoinedPath(walk[i]) in DiscoverMediaFiles(walk) <==> IsMediaFile(walk[i].name)
  {
    var kept := Filter(walk, IsMediaName);
    var r := DiscoverMediaFiles(walk);
    JoinedExt(walk[i]);
    if IsMediaFile(walk[i].name) {
      assert walk[i] in kept;
      var j :| 0 <= j < |kept| && kept[j] == walk[i];
      assert r[j] == JoinedPath(walk[i]);
    }
    if JoinedPath(walk[i]) in r {
      var j :| 0 <= j < |r| && r[j] == JoinedPath(walk[i]);
      DiscoveredIsMedia(walk, j);
    }
  }

  /** Discovered path `j` is media and has the extension of the base name it came from. */
  lemma DiscoveredIsMedia(walk: seq<WalkEntry>, j: nat)
    requires forall k :: 0 <= k < |walk| ==> IsBaseName(walk[k].name)
    requires j < |DiscoverMediaFiles(walk)|
    ensures var kept := Filter(walk, IsMediaName);
      IsMediaFile(DiscoverMediaFiles(walk)[j]) && Ext(DiscoverMediaFiles(walk)[j]) == Ext(kept[j].name)
  {
    var kept := Filter(walk, IsMediaName);
    assert kept[j] in walk && IsMediaName(kept[j]);
    JoinedExt(kept[j]);
  }

  lemma JoinedExt(e: WalkEntry)
    requires IsBaseName(e.name)
    ensures Ext(JoinedPath(e)) == Ext(e.name)
  {
    ExtUnderDir(JoinDir(e.root), e.name);
  }

  // ---------------------------------------------------------------------------------------
  // Frame sampling (`extract_frames_from_video`)

  /** What probing a video reports: probing (or parsing the duration) raised, no video stream
      has a non-empty duration, or the duration in seconds. */
  datatype Probe = ProbeFailed | NoDuration | Duration(seconds: real)

  /** What decoding one frame at a timestamp gives: an image, empty output, or an error. */
  datatype Decoded<Img> = Frame(image: Img) | Empty | DecodeError

  datatype SampledFrame<Img> = SampledFrame(image: Img, timestamp: real, sourceVideo: string)

  /** The sampling schedule: `n` timestamps `d / (n + 1) * i` for `i = 1 .. n`. */
  function SampleTimes(d: real, n: nat): (r: seq<real>)
    ensures |r| == n
  {
    var interval := d / (n + 1) as real;
    seq(n, i requires 0 <= i < n => interval * (i + 1) as real)
  }

  /** For a positive duration the schedule is strictly increasing and strictly inside the
      video: it never samples the first or the last instant. */
  lemma SampleTimesInterior(d: real, n: nat)
    requires d > 0.0
    ensures forall i :: 0 <= i < n ==> 0.0 < SampleTimes(d, n)[i] < d
    ensures forall i, j :: 0 <= i < j < n ==> SampleTimes(d, n)[i] < SampleTimes(d, n)[j]
  {
    forall i | 0 <= i < n
      ensures 0.0 < SampleTimes(d, n)[i] < d
    {
      SampleInside(d, n, i);
    }
    forall i, j | 0 <= i < j < n
      ensures SampleTimes(d, n)[i] < SampleTimes(d, n)[j]
    {
      SampleOrder(d, n, i, j);
    }
  }

  lemma SampleInside(d: real, n: nat, i: nat)
    requires d > 0.0 && i < n
    ensures 0.0 < SampleTimes(d, n)[i] < d
  {
    assert SampleTimes(d, n)[i] == d / (n + 1) as real * (i + 1) as real;
    FractionInside(d, i + 1, n + 1);
  }

  lemma SampleOrder(d: real, n: nat, i: nat, j: nat)
    requires d > 0.0 && i < j < n
    ensures SampleTimes(d, n)[i] < SampleTimes(d, n)[j]
  {
    assert SampleTimes(d, n)[i] == d / (n + 1) as real * (i + 1) as real;
    assert SampleTimes(d, n)[j] == d / (n + 1) as real * (j + 1) as real;
    FractionIncreasing(d, i + 1, j + 1, n + 1);
  }

  /** `k` of `m` equal parts of a positive `d` lie strictly between 0 and `d` when `0 < k < m`. */
  lemma FractionInside(d: real, k: nat, m: nat)
    requires d > 0.0 && 0 < k < m
    ensures 0.0 < d / m as real * k as real < d
  {
    var q := d / m as real;
    assert q > 0.0;
    assert q * m as real == d;
    ScaleStrict(q, k as real, m as real);
    ScaleStrict(q, 0.0, k as real);
  }

  /** More equal parts of a positive `d` make a longer span. */
  lemma FractionIncreasing(d: real, a: nat, b: nat, m: nat)
    requires d > 0.0 && a < b && m > 0
    ensures d / m as real * a as real < d / m as real * b as real
  {
    var q := d / m as real;
    assert q > 0.0;
    ScaleStrict(q, a as real, b as real);
  }

  /** The schedule is evenly spaced: consecutive timestamps, the start and the first
      timestamp, and the last timestamp and the end are all one gap apart. */
  lemma SampleTimesEven(d: real, n: nat)
    ensures forall i :: 0 < i < n ==> SampleTimes(d, n)[i] - SampleTimes(d, n)[i - 1] == SampleTimes(d, n)[0]
    ensures n > 0 ==> SampleTimes(d, n)[n - 1] + SampleTimes(d, n)[0] == d
  {
    var interval := d / (n + 1) as real;
    forall i | 0 < i < n
      ensures SampleTimes(d, n)[i] - SampleTimes(d, n)[i - 1] == SampleTimes(d, n)[0]
    {
      NextMultiple(interval, i as real);
    }
    if n > 0 {
      NextMultiple(interval, (n - 1) as real);
      assert interval * (n + 1) as real == d;
    }
  }

  lemma NextMultiple(q: real, k: real)
    ensures q * (k + 1.0) == q * k + q
  {
  }

  lemma ScaleStrict(c: real, a: real, b: real)
    requires c > 0.0 && a < b
    ensures c * a < c * b
  {
  }

  /** The decode loop: a frame is kept, empty output skips the timestamp, and an error ends the
      loop keeping the frames collected so far. */
  function CollectFrames<Img>(times: seq<real>, decode: real -> Decoded<Img>, video: string)
    : (r: seq<SampledFrame<Img>>)
    ensures |r| <= |times|
    ensures forall i :: 0 <= i < |r| ==>
      && r[i].timestamp in times && r[i].sourceVideo == video
      && decode(r[i].timestamp) == Frame(r[i].image)
  {
    if times == [] then []
    else match decode(times[0])
      case DecodeError => []
      case Empty => CollectFrames(times[1..], decode, video)
      case Frame(image) => [SampledFrame(image, times[0], video)] + CollectFrames(times[1..], decode, video)
  }

  function FrameTimes<Img>(frames: seq<SampledFrame<Img>>): (r: seq<real>)
    ensures |r| == |frames| && forall i :: 0 <= i < |r| ==> r[i] == frames[i].timestamp
  {
    seq(|frames|, i requires 0 <= i < |frames| => frames[i].timestamp)
  }

  /** The kept frames are taken in schedule order. */
  lemma {:induction false} CollectFramesInOrder<Img>(times: seq<real>, decode: real -> Decoded<Img>, video: string)
    ensures IsSubsequence(FrameTimes(CollectFrames(times, decode, video)), times)
  {
    if times != [] {
      var rest := CollectFrames(times[1..], decode, video);
      CollectFramesInOrder(times[1..], decode, video);
      match decode(times[0])
      case DecodeError =>
      case Empty =>
        SubsequenceDropFront(FrameTimes(rest), times);
      case Frame(image) =>
        assert FrameTimes(CollectFrames(times, decode, video))[1..] == FrameTimes(rest);
    }
  }

  /** Without decode errors, the frames are exactly those of the timestamps whose decoding
      gives an image, in schedule order. */
  lemma {:induction false} CollectFramesWithoutErrors<Img>(times: seq<real>, decode: real -> Decoded<Img>, video: string)
    requires forall i :: 0 <= i < |times| ==> !decode(times[i]).DecodeError?
    ensures FrameTimes(CollectFrames(times, decode, video)) == Filter(times, Decodes(decode))
  {
    if times != [] {
      assert forall i :: 0 <= i < |times[1..]| ==> times[1..][i] == times[i + 1];
      CollectFramesWithoutErrors(times[1..], decode, video);
      var frames := CollectFrames(times[1..], decode, video);
      match decode(times[0])
      case Frame(image) =>
        FilterKeep(times, Decodes(decode));
        FrameTimesCons(SampledFrame(image, times[0], video), frames);
      case Empty =>
        FilterSkip(times, Decodes(decode));
    }
  }

  lemma FrameTimesCons<Img>(f: SampledFrame<Img>, frames: seq<SampledFrame<Img>>)
    ensures FrameTimes([f] + frames) == [f.timestamp] + FrameTimes(frames)
  {
  }

  /** The timestamps at which `decode` gives a frame. */
  function Decodes<Img>(decode: real -> Decoded<Img>): (p: real -> bool)
    ensures forall t :: p(t) == decode(t).Frame?
  {
    t => decode(t).Frame?
  }

  /** A decode error at timestamp `j` ends the loop there: the result is what the timestamps
      before `j` give, so earlier frames are kept and later ones never decoded. */
  lemma {:induction false} CollectFramesStopAtError<Img>(times: seq<real>, decode: real -> Decoded<Img>, video: string, j: nat)
    requires j < |times| && decode(times[j]).DecodeError?
    ensures CollectFrames(times, decode, video) == CollectFrames(times[..j], decode, video)
  {
    if j > 0 {
      assert times[1..][j - 1] == times[j];
      CollectFramesStopAtError(times[1..], decode, video, j - 1);
      assert times[..j][1..] == times[1..][..j - 1];
      assert times[..j][0] == times[0];
    }
  }

  /** `extract_frames_from_video` with `num_frames = n`. A failed probe, a missing duration and
      a zero duration all give no frames. */
  function ExtractFrames<Img>(video: string, probe: Probe, decode: real -> Decoded<Img>, n: nat)
    : (r: seq<SampledFrame<Img>>)
    ensures !probe.Duration? || probe.seconds == 0.0 ==> r == []
    ensures probe.Duration? ==> forall i :: 0 <= i < |r| ==>
      r[i].timestamp in SampleTimes(probe.seconds, n) && r[i].sourceVideo == video
    ensures |r| <= n
    ensures probe.Duration? && probe.seconds != 0.0 ==> r == CollectFrames(SampleTimes(probe.seconds, n), decode, video)
  {
    match probe
    case ProbeFailed => []
    case NoDuration => []
    case Duration(d) => if d == 0.0 then [] else CollectFrames(SampleTimes(d, n), decode, video)
  }

  // ---------------------------------------------------------------------------------------
  // Index building (`build_index`)

  type Embedding = seq<real>

  /** An index entry: a still image, or one sampled frame of a video with its timestamp. */
  datatype Entry =
    | ImageEntry(path: string, embedding: Embedding)
    | FrameEntry(path: string, timestamp: real, embedding: Embedding)

  /** The outside world the builder calls: the video probe, the frame decoder, and the
      embedder for an image file (None when opening or embedding it raises) and for a frame. */
  datatype Collaborators<!Img> = Collaborators(
    probe: string -> Probe,
    decode: (string, real) -> Decoded<Img>,
    embedImageFile: string -> Option<Embedding>,
    embedFrame: Img -> Option<Embedding>)

  function VideoFrames<Img>(path: string, c: Collaborators<Img>): (frames: seq<SampledFrame<Img>>) {
    ExtractFrames(path, c.probe(path), t => c.decode(path, t), FramesPerVideo)
  }

  /** One `video_frame` entry per frame whose embedding succeeds, in frame order. */
  function FrameEntries<Img>(path: string, frames: seq<SampledFrame<Img>>, embed: Img -> Option<Embedding>)
    : (r: seq<Entry>)
    ensures |r| <= |frames|
    ensures forall i :: 0 <= i < |r| ==>
      r[i].FrameEntry? && r[i].path == path && r[i].timestamp in FrameTimes(frames)
  {
    if frames == [] then []
    else
      var rest := FrameEntries(path, frames[1..], embed);
      assert forall i :: 0 <= i < |rest| ==> rest[i].timestamp in FrameTimes(frames);
      match embed(frames[0].image)
      case None => rest
      case Some(e) => [FrameEntry(path, frames[0].timestamp, e)] + rest
  }

  /** The frames whose embedding succeeds. */
  function FrameEmbeds<Img>(embed: Img -> Option<Embedding>): SampledFrame<Img> -> bool
  {
    (f: SampledFrame<Img>) => embed(f.image).Some?
  }

  /** The frame entries are exactly the frames that embed, in frame order, each carrying the
      video's path, its timestamp and its embedding: a failed embedding drops only its frame. */
  lemma {:induction false} FrameEntriesKept<Img>(path: string, frames: seq<SampledFrame<Img>>, embed: Img -> Option<Embedding>)
    ensures var kept := Filter(frames, FrameEmbeds(embed));
      var r := FrameEntries(path, frames, embed);
      && |r| == |kept|
      && forall i :: 0 <= i < |kept| ==>
        r[i] == FrameEntry(path, kept[i].timestamp, embed(kept[i].image).value)
  {
    if frames != [] {
      FrameEntriesKept(path, frames[1..], embed);
      var p := FrameEmbeds(embed);
      var kept := Filter(frames[1..], p);
      var rest := FrameEntries(path, frames[1..], embed);
      match embed(frames[0].image)
      case None =>
        FilterSkip(frames, p);
      case Some(e) =>
        FilterKeep(frames, p);
        KeptCons(path, frames[0], e, kept, rest, embed);
    }
  }

  /** One more embedded frame in front of an entry list that matches its kept frames. */
  lemma KeptCons<Img>(path: string, f: SampledFrame<Img>, e: Embedding, kept: seq<SampledFrame<Img>>,
                      rest: seq<Entry>, embed: Img -> Option<Embedding>)
    requires embed(f.image) == Some(e)
    requires |rest| == |kept| && forall i :: 0 <= i < |kept| ==>
      embed(kept[i].image).Some? && rest[i] == FrameEntry(path, kept[i].timestamp, embed(kept[i].image).value)
    ensures var k := [f] + kept; var r := [FrameEntry(path, f.timestamp, e)] + rest;
      |r| == |k| && forall i :: 0 <= i < |k| ==>
        embed(k[i].image).Some? && r[i] == FrameEntry(path, k[i].timestamp, embed(k[i].image).value)
  {
    var k := [f] + kept;
    var r := [FrameEntry(path, f.timestamp, e)] + rest;
    forall i | 0 <= i < |k|
      ensures embed(k[i].image).Some? && r[i] == FrameEntry(path, k[i].timestamp, embed(k[i].image).value)
    {
      if i > 0 {
        assert k[i] == kept[i - 1] && r[i] == rest[i - 1];
      }
    }
  }

  /** A frame entry is produced exactly for a frame of the video that embeds to its embedding. */
  lemma FrameEntryMember<Img>(path: string, frames: seq<SampledFrame<Img>>, embed: Img -> Option<Embedding>, x: Entry)
    requires x.FrameEntry?
    ensures x in FrameEntries(path, frames, embed) <==>
      x.path == path && exists f :: f in frames && f.timestamp == x.timestamp && embed(f.image) == Some(x.embedding)
  {
    FrameEntriesKept(path, frames, embed);
    var kept := Filter(frames, FrameEmbeds(embed));
    var r := FrameEntries(path, frames, embed);
    if x in r {
      var i :| 0 <= i < |r| && r[i] == x;
      assert kept[i] in frames && FrameEmbeds(embed)(kept[i]);
    }
    if x.path == path && exists f :: f in frames && f.timestamp == x.timestamp && embed(f.image) == Some(x.embedding) {
      var f :| f in frames && f.timestamp == x.timestamp && embed(f.image) == Some(x.embedding);
      var k :| 0 <= k < |frames| && frames[k] == f;
      assert FrameEmbeds(embed)(frames[k]);
      var i :| 0 <= i < |kept| && kept[i] == f;
      assert r[i] == x;
    }
  }

  /** `x` is an entry that discovered file `path` gives rise to: the image itself when it
      embeds, or a sampled frame of a video (that is not also an image) when the frame embeds. */
  ghost predicate EntryOf<Img>(x: Entry, path: string, c: Collaborators<Img>) {
    && x.path == path
    && match x
       case ImageEntry(_, e) => IsImageFile(path) && c.embedImageFile(path) == Some(e)
       case FrameEntry(_, t, e) =>
         && !IsImageFile(path) && IsVideoFile(path)
         && exists f :: f in VideoFrames(path, c) && f.timestamp == t && c.embedFrame(f.image) == Some(e)
  }

  /** The entries one discovered file contributes. */
  function FileEntries<Img>(path: string, c: Collaborators<Img>): (r: seq<Entry>)
    ensures forall i :: 0 <= i < |r| ==> r[i].path == path
    ensures forall i :: 0 <= i < |r| && r[i].ImageEntry? ==> IsImageFile(path)
    ensures forall i :: 0 <= i < |r| && r[i].FrameEntry? ==> IsVideoFile(path) && !IsImageFile(path)
  {
    if IsImageFile(path) then
      match c.embedImageFile(path)
      case None => []
      case Some(e) => [ImageEntry(path, e)]
    else if IsVideoFile(path) then FrameEntries(path, VideoFrames(path, c), c.embedFrame)
    else []
  }

  /** The embedding attempts one file costs: one per image, one per extracted frame. */
  function FileAttempts<Img>(path: string, c: Collaborators<Img>): (n: nat) {
    if IsImageFile(path) then 1
    else if IsVideoFile(path) then |VideoFrames(path, c)|
    else 0
  }

  /** The index loop over the discovered files, in discovery order. */
  function IndexFiles<Img>(paths: seq<string>, c: Collaborators<Img>): (r: seq<Entry>)
    ensures forall i :: 0 <= i < |r| ==> r[i].path in paths
  {
    if paths == [] then []
    else
      var rest := IndexFiles(paths[1..], c);
      assert forall i :: 0 <= i < |rest| ==> rest[i].path in paths;
      FileEntries(paths[0], c) + rest
  }

  /** A file contributes exactly the entries that come from it. */
  lemma FileEntriesMember<Img>(path: string, c: Collaborators<Img>, x: Entry)
    ensures x in FileEntries(path, c) <==> EntryOf(x, path, c)
  {
    if !IsImageFile(path) && IsVideoFile(path) && x.FrameEntry? {
      FrameEntryMember(path, VideoFrames(path, c), c.embedFrame, x);
    }
  }

  /** The index holds exactly the entries that come from the indexed files. */
  lemma {:induction false} IndexedEntries<Img>(paths: seq<string>, c: Collaborators<Img>, x: Entry)
    ensures x in IndexFiles(paths, c) <==> x.path in paths && EntryOf(x, x.path, c)
  {
    if paths != [] {
      IndexedEntries(paths[1..], c, x);
      FileEntriesMember(paths[0], c, x);
      assert IndexFiles(paths, c) == FileEntries(paths[0], c) + IndexFiles(paths[1..], c);
      assert x.path in paths <==> x.path == paths[0] || x.path in paths[1..];
    }
  }

  function IndexAttempts<Img>(paths: seq<string>, c: Collaborators<Img>): nat {
    if paths == [] then 0 else FileAttempts(paths[0], c) + IndexAttempts(paths[1..], c)
  }

  /** The pickle file next to the media: absent, present but unreadable, or a stored index. */
  datatype Store = NoIndexFile | Unreadable | Stored(entries: seq<Entry>)

  /** What `build_index` returns, the store it leaves behind, and how many embeddings it tried. */
  datatype Built = Built(index: seq<Entry>, store: Store, embedAttempts: nat)

  /** Loading an unreadable index file raises out of `build_index`. */
  datatype IndexError = CorruptIndexFile

  /** `build_index`: an existing index is reused unless `reindex` is set; otherwise every
      discovered file is indexed and the result overwrites the store. */
  function BuildIndex<Img>(walk: seq<WalkEntry>, store: Store, reindex: bool, c: Collaborators<Img>)
    : (r: Result<Built, IndexError>)
    ensures !reindex && store.Stored? ==>
      r.Success? && r.value.index == store.entries && r.value.store == store && r.value.embedAttempts == 0
    ensures !reindex && store.Unreadable? ==> r.Failure?
    ensures reindex || store.NoIndexFile? ==>
      && r.Success? && r.value.store == Stored(r.value.index)
      && forall i :: 0 <= i < |r.value.index| ==> r.value.index[i].path in DiscoverMediaFiles(walk)
    ensures reindex || store.NoIndexFile? ==>
      && r.Success?
      && r.value.index == IndexFiles(DiscoverMediaFiles(walk), c)
      && r.value.embedAttempts == IndexAttempts(DiscoverMediaFiles(walk), c)
  {
    if !reindex && !store.NoIndexFile? then
      match store
      case Unreadable => Failure(CorruptIndexFile)
      case Stored(entries) => Success(Built(entries, store, 0))
    else
      var files := DiscoverMediaFiles(walk);
      var index := IndexFiles(files, c);
      Success(Built(index, Stored(index), IndexAttempts(files, c)))
  }

  /** A rebuilt index holds exactly the entries of the discovered files: each image that
      embeds, and each sampled frame of a video that embeds. */
  lemma RebuiltIndexMembers<Img>(walk: seq<WalkEntry>, store: Store, reindex: bool, c: Collaborators<Img>, x: Entry)
    requires reindex || store.NoIndexFile?
    ensures x in BuildIndex(walk, store, reindex, c).value.index <==>
      x.path in DiscoverMediaFiles(walk) && EntryOf(x, x.path, c)
  {
    IndexedEntries(DiscoverMediaFiles(walk), c, x);
  }

  /** Indexing follows discovery order: the index of a concatenation is the concatenation of
      the indexes. */
  lemma {:induction false} IndexFilesAppend<Img>(a: seq<string>, b: seq<string>, c: Collaborators<Img>)
    ensures IndexFiles(a + b, c) == IndexFiles(a, c) + IndexFiles(b, c)
  {
    if a == [] {
      assert a + b == b;
    } else {
      var ab := a + b;
      assert ab[0] == a[0] && ab[1..] == a[1..] + b;
      IndexFilesAppend(a[1..], b, c);
      var head := FileEntries(a[0], c);
      assert IndexFiles(ab, c) == head + IndexFiles(a[1..] + b, c);
      assert IndexFiles(a, c) == head + IndexFiles(a[1..], c);
      ConcatAssoc(head, IndexFiles(a[1..], c), IndexFiles(b, c));
    }
  }

  /** The embedding attempts of a concatenation add up. */
  lemma {:induction false} IndexAttemptsAppend<Img>(a: seq<string>, b: seq<string>, c: Collaborators<Img>)
    ensures IndexAttempts(a + b, c) == IndexAttempts(a, c) + IndexAttempts(b, c)
  {
    if a == [] {
      assert a + b == b;
    } else {
      var ab := a + b;
      assert ab[0] == a[0] && ab[1..] == a[1..] + b;
      IndexAttemptsAppend(a[1..], b, c);
    }
  }

  ghost predicate EmbeddingsSucceed<Img>(paths: seq<string>, c: Collaborators<Img>) {
    && (forall i :: 0 <= i < |paths| && IsImageFile(paths[i]) ==> c.embedImageFile(paths[i]).Some?)
    && (forall i, f :: 0 <= i < |paths| && f in VideoFrames(paths[i], c) ==> c.embedFrame(f.image).Some?)
  }

  /** When no embedding fails, every attempt yields exactly one entry. */
  lemma {:induction false} EveryAttemptIndexed<Img>(paths: seq<string>, c: Collaborators<Img>)
    requires EmbeddingsSucceed(paths, c)
    ensures |IndexFiles(paths, c)| == IndexAttempts(paths, c)
  {
    if paths != [] {
      assert EmbeddingsSucceed(paths[1..], c) by {
        assert forall i :: 0 <= i < |paths[1..]| ==> paths[1..][i] == paths[i + 1];
      }
      EveryAttemptIndexed(paths[1..], c);
      var p := paths[0];
      if !IsImageFile(p) && IsVideoFile(p) {
        var frames := VideoFrames(p, c);
        assert forall f :: f in frames ==> c.embedFrame(f.image).Some?;
        AllFramesEmbedded(p, frames, c.embedFrame);
      }
    }
  }

  lemma {:induction false} AllFramesEmbedded<Img>(path: string, frames: seq<SampledFrame<Img>>, embed: Img -> Option<Embedding>)
    requires forall f :: f in frames ==> embed(f.image).Some?
    ensures |FrameEntries(path, frames, embed)| == |frames|
  {
    if frames != [] {
      assert frames[0] in frames;
      AllFramesEmbedded(path, frames[1..], embed);
    }
  }

  /** A frame entry of a video with a positive duration lies strictly inside the video. */
  lemma FrameEntryInside<Img>(path: string, c: Collaborators<Img>, i: nat)
    requires c.probe(path).Duration? && c.probe(path).seconds > 0.0
    requires i < |FileEntries(path, c)| && FileEntries(path, c)[i].FrameEntry?
    ensures 0.0 < FileEntries(path, c)[i].timestamp < c.probe(path).seconds
  {
    var frames := VideoFrames(path, c);
    var e := FileEntries(path, c)[i];
    assert e.timestamp in FrameTimes(frames);
    var k :| 0 <= k < |frames| && FrameTimes(frames)[k] == e.timestamp;
    assert frames[k].timestamp in SampleTimes(c.probe(path).seconds, FramesPerVideo);
    SampleTimesInterior(c.probe(path).seconds, FramesPerVideo);
  }

  // ---------------------------------------------------------------------------------------
  // Search (`search_index`)

  /** Descending by score, as an ascending key. */
  function ScoreKey<T>(p: (real, T)): Key {
    Key(0, -p.0)
  }

  function Scored<T>(index: seq<T>, score: T -> real): (pairs: seq<(real, T)>)
    ensures |pairs| == |index|
    ensures forall i :: 0 <= i < |index| ==> pairs[i] == (score(index[i]), index[i])
  {
    seq(|index|, i requires 0 <= i < |index| => (score(index[i]), index[i]))
  }

  /** `similarities.sort(key=lambda x: x[0], reverse=True)`: a stable sort by descending score. */
  function Ranked<T>(index: seq<T>, score: T -> real): (ranked: seq<(real, T)>) {
    SortBy(Scored(index, score), ScoreKey)
  }

  /** `search_index` with the query's similarity to each entry given as `score`: the first
      `top_k` pairs of the ranking. */
  function SearchIndex<T>(index: seq<T>, score: T -> real, topK: int): (r: seq<(real, T)>)
    ensures r <= Ranked(index, score)
    ensures 0 <= topK ==> |r| == if topK < |index| then topK else |index|
    ensures forall i :: 0 <= i < |r| ==> r[i].0 == score(r[i].1) && r[i].1 in index
    ensures forall i, j :: 0 <= i < j < |r| ==> r[j].0 <= r[i].0
  {
    var ranked := Ranked(index, score);
    var r := PyPrefix(ranked, topK);
    forall i | 0 <= i < |r|
      ensures r[i].0 == score(r[i].1) && r[i].1 in index
    {
      assert r[i] == ranked[i];
      assert r[i] in multiset(Scored(index, score));
    }
    forall i, j | 0 <= i < j < |r|
      ensures r[j].0 <= r[i].0
    {
      assert KeyLe(ScoreKey(ranked[i]), ScoreKey(ranked[j]));
    }
    r
  }

  /** Nothing left out of the results scores higher than anything returned, and the ranking is
      a permutation of the scored index. */
  lemma SearchTopK<T>(index: seq<T>, score: T -> real, topK: int)
    ensures multiset(Ranked(index, score)) == multiset(Scored(index, score))
    ensures var r := SearchIndex(index, score, topK);
      forall i, j :: 0 <= i < |r| <= j < |index| ==> Ranked(index, score)[j].0 <= r[i].0
  {
    var ranked := Ranked(index, score);
    var r := SearchIndex(index, score, topK);
    forall i, j | 0 <= i < |r| <= j < |index|
      ensures ranked[j].0 <= r[i].0
    {
      assert r[i] == ranked[i];
      assert KeyLe(ScoreKey(ranked[i]), ScoreKey(ranked[j]));
    }
  }

  /** A non-empty search returns a best-scoring entry first. */
  lemma SearchBestFirst<T>(index: seq<T>, score: T -> real, topK: int, x: T)
    requires x in index && topK > 0
    ensures var r := SearchIndex(index, score, topK);
      |r| > 0 && score(x) <= r[0].0
  {
    var pairs := Scored(index, score);
    var ranked := Ranked(index, score);
    var k :| 0 <= k < |index| && index[k] == x;
    assert pairs[k] in multiset(ranked);
    var j :| 0 <= j < |ranked| && ranked[j] == pairs[k];
    if j > 0 {
      assert KeyLe(ScoreKey(ranked[0]), ScoreKey(ranked[j]));
    }
  }

  /** Equal scores keep index order: for every score, the returned pairs with that score are
      the first ones of the index with that score, in index order. */
  lemma SearchTiesInIndexOrder<T>(index: seq<T>, score: T -> real, topK: int, s: real)
    ensures SameKey(SearchIndex(index, score, topK), ScoreKey, Key(0, -s))
         <= SameKey(Scored(index, score), ScoreKey, Key(0, -s))
  {
    var ranked := Ranked(index, score);
    var r := SearchIndex(index, score, topK);
    SortStable(Scored(index, score), ScoreKey, Key(0, -s));
    assert r == ranked[..|r|];
    SameKeyPrefix(ranked, |r|, ScoreKey, Key(0, -s));
  }
}
