/** One chunk task: seek to the chunk's start and copy at most `end - start`
    bytes into the part file, reading at most 1 MiB at a time and stopping on
    an empty read. */
module ChunkCopy {
  import opened Files
  import opened Chunking

  /** The largest request a single read makes. */
  const ReadLimit: nat := 1048576

  /** The read oracle of one chunk task: its read numbered `k` (from 0) hands
      back at most `grants[k]` bytes, besides being cut to the request and to
      what is left of the file; reads past the end of the list are not cut
      further. Every run of short reads a server can produce is described by
      some list. */
  type Grants = seq<nat>

  /** The most the read numbered `n` may hand back. */
  function Grant(grants: Grants, n: nat): nat
  {
    if n < |grants| then grants[n] else ReadLimit
  }

  /** How many bytes one read of at most `want` bytes at offset `pos` hands
      back from a file of `size` bytes when the server grants at most `g`. */
  function ReadCount(size: nat, pos: nat, want: nat, g: nat): (k: nat)
    ensures k <= want && k <= g
    ensures k == 0 || pos + k <= size
  {
    var avail := if pos <= size then size - pos else 0;
    Min(Min(g, want), avail)
  }

  /** A read the server does not cut hands back all it asked for, or the rest of the file. */
  lemma ReadCountUncut(size: nat, pos: nat, want: nat, g: nat)
    requires g >= want && pos <= size
    ensures ReadCount(size, pos, want, g) == Min(want, size - pos)
  {
  }

  /** How many bytes a chunk copy writes when it starts at `pos` with `left`
      bytes to go and its read numbered `n` next: the loop of download_chunk
      counted read by read. */
  function CopiedCount(size: nat, pos: nat, left: int, grants: Grants, n: nat): (c: nat)
    ensures c <= (if left > 0 then left else 0)
    ensures c == 0 || pos + c <= size
    decreases if left > 0 then left else 0
  {
    if left <= 0 then 0
    else
      var k := ReadCount(size, pos, Min(left, ReadLimit), Grant(grants, n));
      if k == 0 then 0 else k + CopiedCount(size, pos + k, left - k, grants, n + 1)
  }

  /** The bytes a chunk copy writes: the file's bytes from `pos` on, as many as
      the reads hand back before the first empty one or the end of the chunk. */
  function Copied(remote: seq<byte>, pos: nat, left: int, grants: Grants): seq<byte>
  {
    var c := CopiedCount(|remote|, pos, left, grants, 0);
    if c == 0 then [] else remote[pos..pos + c]
  }

  /** `c` is empty or the bytes of the file that start at offset `pos`. */
  predicate FromOffset(remote: seq<byte>, pos: nat, c: seq<byte>)
  {
    |c| == 0 || (pos + |c| <= |remote| && forall i :: 0 <= i < |c| ==> c[i] == remote[pos + i])
  }

  /** Bytes taken from where earlier bytes from `start` end extend them. */
  lemma FromOffsetAppend(remote: seq<byte>, start: nat, c: seq<byte>, pos: nat, data: seq<byte>)
    requires FromOffset(remote, start, c) && pos == start + |c| && FromOffset(remote, pos, data)
    ensures FromOffset(remote, start, c + data)
  {
  }

  /** `remote_file.read(want)` at offset `pos`: the next `ReadCount` bytes of
      the file, nothing at or past its end. */
  method ReadAt(remote: seq<byte>, pos: nat, want: nat, g: nat) returns (data: seq<byte>)
    ensures |data| == ReadCount(|remote|, pos, want, g)
    ensures FromOffset(remote, pos, data)
  {
    var k := ReadCount(|remote|, pos, want, g);
    if k == 0 {
      data := [];
    } else {
      data := remote[pos..pos + k];
    }
  }

  /** Bytes from `pos` as many as a copy counts are what the copy writes. */
  lemma FromOffsetCopied(remote: seq<byte>, pos: nat, left: int, grants: Grants, c: seq<byte>)
    requires FromOffset(remote, pos, c) && |c| == CopiedCount(|remote|, pos, left, grants, 0)
    ensures c == Copied(remote, pos, left, grants)
  {
    if |c| > 0 {
      assert c == remote[pos..pos + |c|];
    }
  }

  /** download_chunk: returns what ends up in the part file and the sizes of
      the reads it asked for. */
  method DownloadChunk(remote: seq<byte>, start: nat, end: nat, grants: Grants)
    returns (part: seq<byte>, requests: seq<nat>)
    ensures part == Copied(remote, start, end - start, grants)
    ensures forall i :: 0 <= i < |requests| ==> 0 < requests[i] <= ReadLimit
  {
    var pos := start;
    var toRead: int := end - start;
    part := [];
    requests := [];
    var readIndex: nat := 0;
    while toRead > 0
      invariant pos == start + |part|
      invariant |part| + CopiedCount(|remote|, pos, toRead, grants, readIndex)
        == CopiedCount(|remote|, start, end - start, grants, 0)
      invariant FromOffset(remote, start, part)
      invariant forall i :: 0 <= i < |requests| ==> 0 < requests[i] <= ReadLimit
      decreases toRead
    {
      var want := Min(toRead, ReadLimit);
      var data := ReadAt(remote, pos, want, Grant(grants, readIndex));
      requests := requests + [want];
      if |data| == 0 {
        break;
      }
      FromOffsetAppend(remote, start, part, pos, data);
      part := part + data;
      toRead := toRead - |data|;
      pos := pos + |data|;
      readIndex := readIndex + 1;
    }
    FromOffsetCopied(remote, start, end - start, grants, part);
  }

  /** The server handed back nothing for some read from the one numbered `n` on. */
  predicate StallsFrom(grants: Grants, n: nat)
  {
    exists k :: n <= k < |grants| && grants[k] == 0
  }

  /** A copy comes back short only when it reached the end of the file or the
      server handed back nothing for one of its reads. */
  lemma {:induction false} CopiedShort(size: nat, pos: nat, left: int, grants: Grants, n: nat)
    requires CopiedCount(size, pos, left, grants, n) < left
    ensures pos + CopiedCount(size, pos, left, grants, n) >= size || StallsFrom(grants, n)
    decreases if left > 0 then left else 0
  {
    var k := ReadCount(size, pos, Min(left, ReadLimit), Grant(grants, n));
    if k != 0 {
      CopiedShort(size, pos + k, left - k, grants, n + 1);
      if StallsFrom(grants, n + 1) {
        var j :| n + 1 <= j < |grants| && grants[j] == 0;
        assert n <= j < |grants| && grants[j] == 0;
      }
    } else if n < |grants| && grants[n] == 0 {
      assert n <= n < |grants| && grants[n] == 0;
    }
  }

  /** A server that never cuts a read short. */
  predicate Complete(grants: Grants)
  {
    forall k :: 0 <= k < |grants| ==> grants[k] >= ReadLimit
  }

  /** With a complete server, a copy from `pos` writes the next `left` bytes,
      cut at the end of the file. */
  lemma {:induction false} CopiedCountComplete(size: nat, pos: nat, left: nat, grants: Grants, n: nat)
    requires Complete(grants) && pos <= size
    ensures CopiedCount(size, pos, left, grants, n) == Min(left, size - pos)
    decreases left
  {
    if left > 0 {
      var k := ReadCount(size, pos, Min(left, ReadLimit), Grant(grants, n));
      ReadCountUncut(size, pos, Min(left, ReadLimit), Grant(grants, n));
      if k != 0 {
        CopiedCountComplete(size, pos + k, left - k, grants, n + 1);
      }
    }
  }

  /** With a complete server, a chunk task writes exactly its chunk's bytes. */
  lemma CopiedSegment(remote: seq<byte>, s: Segment, grants: Grants)
    requires Complete(grants) && s.end <= |remote|
    ensures Copied(remote, s.start, s.end - s.start, grants) == SegmentBytes(remote, s)
  {
    if s.start <= s.end {
      CopiedCountComplete(|remote|, s.start, s.end - s.start, grants, 0);
    }
  }

  /** A chunk copy writes a prefix of its byte range `[start, end)` of the
      file: never more than `end - start` bytes, and exactly the file's bytes
      from `start` on, in order. A range that is empty or starts past the end
      of the file gets nothing. */
  lemma CopiedIsPrefix(remote: seq<byte>, start: nat, end: nat, grants: Grants)
    ensures var c := Copied(remote, start, end - start, grants);
      (start <= end && start <= |remote| ==> c <= remote[start..Min(end, |remote|)])
      && (!(start <= end && start <= |remote|) ==> c == [])
  {
    var c := Copied(remote, start, end - start, grants);
    var k := CopiedCount(|remote|, start, end - start, grants, 0);
    if start <= end && start <= |remote| && k > 0 {
      var m := Min(end, |remote|);
      assert remote[start..m][..k] == remote[start..start + k];
    }
  }

  /** A copy that writes less than its range stopped at the end of the file
      or at a read the server answered with nothing. */
  lemma CopiedStopsOnEmptyRead(remote: seq<byte>, start: nat, end: nat, grants: Grants)
    requires start <= end
    ensures var c := Copied(remote, start, end - start, grants);
      |c| < end - start ==> start + |c| >= |remote| || StallsFrom(grants, 0)
  {
    var k := CopiedCount(|remote|, start, end - start, grants, 0);
    if k < end - start {
      CopiedShort(|remote|, start, end - start, grants, 0);
    }
  }

  /** With a server that never cuts a read short, a chunk copy writes its
      whole range, cut at the end of the file. */
  lemma CopiedComplete(remote: seq<byte>, start: nat, end: nat, grants: Grants)
    requires Complete(grants) && start <= end && start <= |remote|
    ensures Copied(remote, start, end - start, grants) == remote[start..Min(end, |remote|)]
  {
    CopiedCountComplete(|remote|, start, end - start, grants, 0);
  }
}
