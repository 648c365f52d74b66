/** The chunk plan of a chunked transfer: when chunking is used, how wide a
    chunk is, and which byte range each chunk covers. */
module Chunking {
  import opened Files

  /** Files of at most this many bytes are always fetched in one stream. */
  const MiB: nat := 1048576

  /** Chunking is used when it is switched on and the file is over 1 MiB. */
  predicate UsesChunks(useChunks: bool, size: nat)
  {
    useChunks && size > MiB
  }

  function Min(a: int, b: int): int
  {
    if a <= b then a else b
  }

  /** `math.ceil(size / n)`, the width of every chunk but possibly the last. */
  function ChunkWidth(size: nat, n: nat): (w: nat)
    requires n > 0
    ensures n * w >= size
    ensures n * (w - 1) < size || size == 0
    ensures n * w <= size + n - 1
  {
    var q := (size + n - 1) / n;
    var r := (size + n - 1) % n;
    assert q * n + r == size + n - 1;
    q
  }

  /** One chunk: index `i` covers the bytes `[start, end)`. The source never
      checks `start <= end`; a chunk with `start > end` reads nothing. */
  datatype Segment = Segment(index: nat, start: nat, end: nat)

  /** Chunk `i`: `[i * w, min((i + 1) * w, size))`. */
  function SegmentOf(size: nat, n: nat, i: nat): Segment
    requires n > 0
  {
    var w := ChunkWidth(size, n);
    Segment(i, i * w, Min((i + 1) * w, size))
  }

  /** The plan: chunks `0 .. n - 1` in index order. */
  function Plan(size: nat, n: nat): (plan: seq<Segment>)
    requires n > 0
  {
    seq(n, i requires 0 <= i < n => SegmentOf(size, n, i))
  }

  // ---------------------------------------------------------------------------
  // Arithmetic helpers

  lemma MulMonotone(a: nat, b: nat, w: nat)
    requires a <= b
    ensures a * w <= b * w
  {
    assert b * w == a * w + (b - a) * w;
  }

  /** With `(n - 1)^2 <= size`, `n - 1` whole chunks fit in the file. */
  lemma LastStartFits(size: nat, n: nat)
    requires n > 0 && (n - 1) * (n - 1) <= size
    ensures (n - 1) * ChunkWidth(size, n) <= size
  {
    var w := ChunkWidth(size, n);
    var m := n - 1;
    if w >= m {
      assert n * w == m * w + w;
    } else {
      MulMonotone(w, m, m);
    }
  }

  // ---------------------------------------------------------------------------
  // What the plan promises

  /** The first chunk starts at 0 and the last chunk ends at the file size. */
  lemma PlanEnds(size: nat, n: nat)
    requires n > 0
    ensures Plan(size, n)[0].start == 0
    ensures Plan(size, n)[n - 1].end == size
  {
    var w := ChunkWidth(size, n);
    assert Plan(size, n)[n - 1] == SegmentOf(size, n, n - 1);
    assert (n - 1 + 1) * w == n * w;
  }

  /** When `(n - 1)^2 <= size`, every chunk is well formed and each one ends
      where the next one starts: the chunks partition `[0, size)`. */
  lemma PlanContiguous(size: nat, n: nat)
    requires n > 0 && (n - 1) * (n - 1) <= size
    ensures forall i :: 0 <= i < n ==> Plan(size, n)[i].start <= Plan(size, n)[i].end
    ensures forall i :: 0 <= i < n - 1 ==> Plan(size, n)[i].end == Plan(size, n)[i + 1].start
  {
    var w := ChunkWidth(size, n);
    var plan := Plan(size, n);
    LastStartFits(size, n);
    forall i | 0 <= i < n ensures plan[i].start <= plan[i].end {
      MulMonotone(i, n - 1, w);
      MulMonotone(i, i + 1, w);
    }
    forall i | 0 <= i < n - 1 ensures plan[i].end == plan[i + 1].start {
      MulMonotone(i + 1, n - 1, w);
    }
  }

  /** Inside a chunked transfer the condition of PlanContiguous holds for every
      chunk count up to 1025, because the file is then over 1 MiB. */
  lemma ChunkedPlanContiguous(useChunks: bool, size: nat, n: nat)
    requires UsesChunks(useChunks, size) && 0 < n <= 1025
    ensures forall i :: 0 <= i < n ==> Plan(size, n)[i].start <= Plan(size, n)[i].end
    ensures forall i :: 0 <= i < n - 1 ==> Plan(size, n)[i].end == Plan(size, n)[i + 1].start
  {
    MulMonotone(n - 1, 1024, n - 1);
    MulMonotone(n - 1, 1024, 1024);
    PlanContiguous(size, n);
  }

  /** The number of bytes a plan asks for, counting a chunk with
      `start > end` as empty. */
  function PlannedBytes(plan: seq<Segment>): nat
  {
    if |plan| == 0 then 0
    else
      var s := plan[|plan| - 1];
      PlannedBytes(plan[..|plan| - 1]) + (if s.start <= s.end then s.end - s.start else 0)
  }

  /** The chunk lengths add up to the file size. */
  lemma PlanSize(size: nat, n: nat)
    requires n > 0
    ensures PlannedBytes(Plan(size, n)) == size
  {
    var plan := Plan(size, n);
    var w := ChunkWidth(size, n);
    PlanPrefixSize(size, n, n);
    assert plan[..n] == plan;
    assert n * w >= size;
  }

  lemma {:induction false} PlanPrefixSize(size: nat, n: nat, k: nat)
    requires 0 < n && k <= n
    ensures PlannedBytes(Plan(size, n)[..k]) == Min(k * ChunkWidth(size, n), size)
  {
    var plan := Plan(size, n);
    var w := ChunkWidth(size, n);
    if k > 0 {
      PlanPrefixSize(size, n, k - 1);
      assert plan[..k][..k - 1] == plan[..k - 1];
      assert plan[k - 1] == Segment(k - 1, (k - 1) * w, Min(k * w, size));
      MulMonotone(k - 1, k, w);
    }
  }

  /** What an honest read of one chunk yields from the remote contents: its
      bytes, or nothing when `start > end`. */
  function SegmentBytes(remote: seq<byte>, s: Segment): seq<byte>
  {
    if s.start <= s.end <= |remote| then remote[s.start..s.end] else []
  }

  /** Chunk `i` of a plan for the remote contents is the slice of the file
      between the two cut points `i * w` and `(i + 1) * w`, both cut at the
      end of the file. */
  lemma SegmentSlice(remote: seq<byte>, n: nat, i: nat)
    requires 0 < n
    ensures var w := ChunkWidth(|remote|, n);
      Min(i * w, |remote|) <= Min((i + 1) * w, |remote|)
      && SegmentBytes(remote, SegmentOf(|remote|, n, i))
         == remote[Min(i * w, |remote|)..Min((i + 1) * w, |remote|)]
  {
    MulMonotone(i, i + 1, ChunkWidth(|remote|, n));
  }

  lemma SliceJoin(s: seq<byte>, lo: nat, hi: nat)
    requires lo <= hi <= |s|
    ensures s[..lo] + s[lo..hi] == s[..hi]
  {
  }

  /** Put back together in index order, the chunks of any plan give exactly
      the remote contents, whatever the chunk count. */
  lemma PlanCoversFile(remote: seq<byte>, n: nat)
    requires n > 0
    ensures Flatten(seq(n, i requires 0 <= i < n => SegmentBytes(remote, Plan(|remote|, n)[i]))) == remote
  {
    var parts := seq(n, i requires 0 <= i < n => SegmentBytes(remote, Plan(|remote|, n)[i]));
    PlanCoversPrefix(remote, n, parts, n);
    assert parts[..n] == parts;
    assert n * ChunkWidth(|remote|, n) >= |remote|;
    assert remote[..|remote|] == remote;
  }

  lemma {:induction false} PlanCoversPrefix(remote: seq<byte>, n: nat, parts: seq<seq<byte>>, k: nat)
    requires 0 < n && k <= n && |parts| == n
    requires forall i :: 0 <= i < n ==> parts[i] == SegmentBytes(remote, SegmentOf(|remote|, n, i))
    ensures Flatten(parts[..k]) == remote[..Min(k * ChunkWidth(|remote|, n), |remote|)]
  {
    if k > 0 {
      var w := ChunkWidth(|remote|, n);
      PlanCoversPrefix(remote, n, parts, k - 1);
      assert parts[..k][..k - 1] == parts[..k - 1];
      SegmentSlice(remote, n, k - 1);
      SliceJoin(remote, Min((k - 1) * w, |remote|), Min(k * w, |remote|));
    }
  }
}
