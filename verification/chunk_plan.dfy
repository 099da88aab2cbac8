/** The chunk plan of `split_video` (split_video_by_second): how a video of `total` seconds is
    tiled into pieces of `chunk` whole seconds, and what each piece is called. */
module ChunkPlan {
  import opened Wrappers
  import opened Seqs
  import opened Text
  import opened Decimal

  /** Python's `math.ceil` on a real. */
  function Ceil(x: real): (r: int)
    ensures r as real - 1.0 < x <= r as real
  {
    -((-x).Floor)
  }

  /** One planned piece: its position in the loop and its start and length in seconds. Its
      file name is `ChunkName(index)`. */
  datatype Chunk = Chunk(index: nat, start: int, duration: real)

  /** `chunk_NNN.mp4` for the 0-based loop index `i`. */
  function ChunkName(i: nat): (name: string) {
    "chunk_" + FormatInt(i + 1, 3) + ".mp4"
  }

  /** The name is `chunk_`, then the 1-based piece number in at least three digits, then
      `.mp4`. */
  lemma ChunkNameParts(i: nat)
    ensures var name := ChunkName(i);
      && |name| >= 13 && name[..6] == "chunk_" && name[|name| - 4..] == ".mp4"
      && AllDigits(name[6..|name| - 4]) && Value(name[6..|name| - 4]) == i + 1
  {
    var digits := FormatInt(i + 1, 3);
    assert ChunkName(i) == "chunk_" + digits + ".mp4";
    ConcatParts("chunk_", digits, ".mp4");
  }

  /** Different loop indices give different file names. */
  lemma ChunkNamesDistinct(i: nat, j: nat)
    requires i != j
    ensures ChunkName(i) != ChunkName(j)
  {
    ChunkNameParts(i);
    ChunkNameParts(j);
  }

  /** `min(chunk_duration_seconds, total_duration - start_time)`: the first argument unless the
      second is smaller. */
  function ChunkDuration(total: real, chunk: int, i: nat): (d: real) {
    var rest := total - (i * chunk) as real;
    if rest < chunk as real then rest else chunk as real
  }

  function ChunkAt(total: real, chunk: int, i: nat): Chunk {
    Chunk(i, i * chunk, ChunkDuration(total, chunk, i))
  }

  /** The first `k` iterations of the loop: a piece whose duration is not positive is skipped. */
  function PlanUpTo(total: real, chunk: int, k: nat): (r: seq<Chunk>)
    ensures |r| <= k
  {
    if k == 0 then []
    else
      var earlier := PlanUpTo(total, chunk, k - 1);
      if ChunkDuration(total, chunk, k - 1) <= 0.0 then earlier else earlier + [ChunkAt(total, chunk, k - 1)]
  }

  /** Why a plan is refused: a chunk length that is not positive. */
  datatype PlanError = NonPositiveChunk

  /** The whole plan: `ceil(total / chunk)` iterations, after the command line has refused a
      chunk length that is not positive. */
  function PlanChunks(total: real, chunk: int): (r: Result<seq<Chunk>, PlanError>)
    ensures r.Failure? <==> chunk <= 0
    ensures r.Success? && total <= 0.0 ==> r.value == []
  {
    if chunk <= 0 then Failure(NonPositiveChunk)
    else
      var n := Ceil(total / chunk as real);
      NoTimeNoChunks(total, chunk);
      if n <= 0 then Success([]) else Success(PlanUpTo(total, chunk, n))
  }

  lemma NoTimeNoChunks(total: real, chunk: int)
    requires chunk > 0
    ensures total <= 0.0 ==> Ceil(total / chunk as real) <= 0
  {
    if total <= 0.0 {
      assert total / chunk as real <= 0.0;
    }
  }

  lemma MulAsReal(a: int, b: int)
    ensures (a * b) as real == a as real * b as real
  {
  }

  lemma MulMono(a: real, b: real, c: real)
    requires a <= b && 0.0 <= c
    ensures a * c <= b * c
  {
  }

  /** The number of pieces is the least `n` with `n * chunk >= total`. */
  lemma ChunkCountBounds(total: real, chunk: int)
    requires chunk > 0 && total > 0.0
    ensures Ceil(total / chunk as real) >= 1
    ensures (Ceil(total / chunk as real) - 1) as real * chunk as real < total
    ensures total <= Ceil(total / chunk as real) as real * chunk as real
  {
    var c := chunk as real;
    var q := total / c;
    var n := Ceil(q);
    DivMul(total, c);
    assert (n - 1) as real < q <= n as real;
    assert n >= 1;
    MulStrict((n - 1) as real, q, c);
    assert (n - 1) as real * c < q * c == total;
    assert (Ceil(total / chunk as real) - 1) as real * chunk as real < total;
    MulMono(q, n as real, c);
  }

  lemma DivMul(x: real, c: real)
    requires c > 0.0
    ensures (x / c) * c == x
    ensures x > 0.0 ==> x / c > 0.0
  {
  }

  lemma MulStrict(a: real, b: real, c: real)
    requires a < b && 0.0 < c
    ensures a * c < b * c
  {
  }

  /** Within the loop every duration is positive and at most `chunk`: the skip never happens. */
  lemma DurationPositive(total: real, chunk: int, i: nat)
    requires chunk > 0 && total > 0.0 && i < Ceil(total / chunk as real)
    ensures 0.0 < ChunkDuration(total, chunk, i) <= chunk as real
  {
    ChunkCountBounds(total, chunk);
    StartBeforeEnd(total, chunk, i, Ceil(total / chunk as real) - 1);
  }

  /** A piece that starts no later than the last one starts before the end. */
  lemma StartBeforeEnd(total: real, chunk: int, i: nat, last: int)
    requires chunk > 0 && i <= last && last as real * chunk as real < total
    ensures (i * chunk) as real < total
  {
    MulAsReal(i, chunk);
    MulMono(i as real, last as real, chunk as real);
  }

  /** Every piece but the last is a full `chunk` long. */
  lemma DurationFull(total: real, chunk: int, i: nat)
    requires chunk > 0 && total > 0.0 && i + 1 < Ceil(total / chunk as real)
    ensures ChunkDuration(total, chunk, i) == chunk as real
  {
    ChunkCountBounds(total, chunk);
    StartBeforeEnd(total, chunk, i + 1, Ceil(total / chunk as real) - 1);
    assert (i + 1) * chunk == i * chunk + chunk;
  }

  /** The last piece runs from its start to the end of the video. */
  lemma DurationLast(total: real, chunk: int)
    requires chunk > 0 && total > 0.0
    ensures var n := Ceil(total / chunk as real);
      n >= 1 && ChunkDuration(total, chunk, n - 1) == total - ((n - 1) * chunk) as real
  {
    ChunkCountBounds(total, chunk);
    var n := Ceil(total / chunk as real);
    MulAsReal(n - 1, chunk);
  }

  /** When no iteration is skipped, piece `i` is the `i`-th iteration. */
  lemma {:induction false} PlanUpToExact(total: real, chunk: int, k: nat)
    requires forall j :: 0 <= j < k ==> ChunkDuration(total, chunk, j) > 0.0
    ensures |PlanUpTo(total, chunk, k)| == k
    ensures forall i :: 0 <= i < k ==> PlanUpTo(total, chunk, k)[i] == ChunkAt(total, chunk, i)
  {
    if k > 0 {
      PlanUpToExact(total, chunk, k - 1);
      var earlier := PlanUpTo(total, chunk, k - 1);
      var last := ChunkAt(total, chunk, k - 1);
      var plan := PlanUpTo(total, chunk, k);
      assert plan == earlier + [last];
      AppendIndex(earlier, last);
    }
  }

  lemma AppendIndex<T>(s: seq<T>, x: T)
    ensures |s + [x]| == |s| + 1 && (s + [x])[|s|] == x
    ensures forall i :: 0 <= i < |s| ==> (s + [x])[i] == s[i]
  {
  }

  /** For a positive duration: `ceil(total / chunk)` pieces, piece `i` starting at `i * chunk`,
      each lasting `min(chunk, total - start)`, which is positive and at most `chunk`. */
  lemma PlanShape(total: real, chunk: int)
    requires chunk > 0 && total > 0.0
    ensures PlanChunks(total, chunk).Success?
    ensures var plan := PlanChunks(total, chunk).value;
      && |plan| == Ceil(total / chunk as real)
      && forall i :: 0 <= i < |plan| ==>
        && plan[i].index == i && plan[i].start == i * chunk
        && plan[i].duration == ChunkDuration(total, chunk, i)
        && 0.0 < plan[i].duration <= chunk as real
  {
    var n := Ceil(total / chunk as real);
    ChunkCountBounds(total, chunk);
    forall i | 0 <= i < n
      ensures 0.0 < ChunkDuration(total, chunk, i) <= chunk as real
    {
      DurationPositive(total, chunk, i);
    }
    PlanUpToExact(total, chunk, n);
  }

  function Durations(plan: seq<Chunk>): (r: seq<real>)
    ensures |r| == |plan| && forall i :: 0 <= i < |r| ==> r[i] == plan[i].duration
  {
    seq(|plan|, i requires 0 <= i < |plan| => plan[i].duration)
  }

  /** The pieces tile the video: each starts where the previous one ends, the durations add up
      to the total, and the last piece ends exactly at the total. */
  lemma PlanTiles(total: real, chunk: int)
    requires chunk > 0 && total > 0.0
    ensures var plan := PlanChunks(total, chunk).value;
      && (forall i :: 0 <= i < |plan| - 1 ==>
            plan[i].start as real + plan[i].duration == plan[i + 1].start as real)
      && SumReal(Durations(plan)) == total
      && plan[|plan| - 1].start as real + plan[|plan| - 1].duration == total
  {
    PlanShape(total, chunk);
    var plan := PlanChunks(total, chunk).value;
    var n := |plan|;
    forall i | 0 <= i < n - 1
      ensures plan[i].duration == chunk as real
    {
      DurationFull(total, chunk, i);
    }
    DurationLast(total, chunk);
    Tiling(plan, total, chunk);
  }

  /** Pieces at `i * chunk`, all `chunk` long except the last, which ends at `total`, tile
      `[0, total]`. */
  lemma Tiling(plan: seq<Chunk>, total: real, chunk: int)
    requires |plan| >= 1
    requires forall i :: 0 <= i < |plan| ==> plan[i].start == i * chunk
    requires forall i :: 0 <= i < |plan| - 1 ==> plan[i].duration == chunk as real
    requires plan[|plan| - 1].duration == total - ((|plan| - 1) * chunk) as real
    ensures forall i :: 0 <= i < |plan| - 1 ==>
      plan[i].start as real + plan[i].duration == plan[i + 1].start as real
    ensures SumReal(Durations(plan)) == total
    ensures plan[|plan| - 1].start as real + plan[|plan| - 1].duration == total
  {
    var n := |plan|;
    forall i | 0 <= i < n - 1
      ensures plan[i].start as real + plan[i].duration == plan[i + 1].start as real
    {
      assert (i + 1) * chunk == i * chunk + chunk;
    }
    var d := Durations(plan);
    FullChunksSum(d, chunk, n - 1);
    MulAsReal(n - 1, chunk);
    assert d[..n] == d;
    assert d[..n - 1] == d[..n][..n - 1];
  }

  /** The first `k` durations, all equal to `chunk`, add up to `k * chunk`. */
  lemma {:induction false} FullChunksSum(d: seq<real>, chunk: int, k: nat)
    requires k <= |d| && forall i :: 0 <= i < k ==> d[i] == chunk as real
    ensures SumReal(d[..k]) == k as real * chunk as real
  {
    if k > 0 {
      FullChunksSum(d, chunk, k - 1);
      assert d[..k][..k - 1] == d[..k - 1];
    }
  }
}
