/** One file's download into the staging directory (download_file): the
    chunked path (chunk tasks writing part files, then reassembly in index
    order), the single-stream path, and the commit decision. */
module Transfer {
  import opened Text
  import opened Paths
  import opened Files
  import opened Chunking
  import opened ChunkCopy

  /** How one file's download ended. */
  datatype Outcome =
    | Committed  // the local copy is non-empty: the remote file was removed
    | Discarded  // the local copy is empty: it was deleted, the remote file kept
    | Aborted    // an exception ended the download before the commit step

  /** What the network does to one file's chunk tasks: the read oracle of each
      chunk, and the chunks whose SFTP open fails, so that their part file is
      never created. */
  datatype ChunkNet = ChunkNet(grants: nat -> Grants, unopened: set<nat>)

  /** The bytes chunk `i`'s task writes to its part file. */
  function ChunkBytes(remote: seq<byte>, plan: seq<Segment>, net: ChunkNet, i: nat): seq<byte>
    requires i < |plan|
  {
    Copied(remote, plan[i].start, plan[i].end - plan[i].start, net.grants(i))
  }

  /** `order` runs every chunk `0 .. n - 1` and nothing else, in some order:
      how the pool's tasks happen to complete. */
  predicate IsSchedule(order: seq<nat>, n: int)
  {
    (forall k :: 0 <= k < |order| ==> order[k] < n) &&
    (forall i :: 0 <= i < n ==> i in order)
  }

  /** `k` names a directory of the staging area. */
  predicate IsDir(d: StagingDir, k: string)
  {
    k in d && d[k].Directory?
  }

  // ---------------------------------------------------------------------------
  // The chunk tasks

  /** The key function is one-to-one: different tasks write different files. */
  ghost predicate Injective(key: nat -> string)
  {
    forall i: nat, j: nat :: key(i) == key(j) ==> i == j
  }

  /** The directory after the tasks of `order` have run, in that order: task `i`
      writes `val(i)` to `key(i)` unless it is in `skip` (its open failed). */
  function Staged(d: StagingDir, key: nat -> string, val: nat -> seq<byte>, skip: set<nat>,
                  order: seq<nat>): StagingDir
  {
    if |order| == 0 then d
    else
      var i := order[|order| - 1];
      var d' := Staged(d, key, val, skip, order[..|order| - 1]);
      if i in skip then d' else d'[key(i) := File(val(i))]
  }

  /** The files the tasks in `idx` leave behind, as a set of writes. */
  function Written(d: StagingDir, key: nat -> string, val: nat -> seq<byte>, skip: set<nat>,
                   idx: set<nat>): StagingDir
    requires Injective(key)
  {
    map i | i in idx && i !in skip :: key(i) := File(val(i))
  }

  lemma AddWrite(d: StagingDir, key: nat -> string, val: nat -> seq<byte>, skip: set<nat>,
                 idx: set<nat>, i: nat)
    requires Injective(key)
    ensures var before := d + Written(d, key, val, skip, idx);
      d + Written(d, key, val, skip, idx + {i})
      == if i in skip then before else before[key(i) := File(val(i))]
  {
    WrittenAdd(d, key, val, skip, idx, i);
    if i !in skip {
      MergeUpdate(d, Written(d, key, val, skip, idx), key(i), File(val(i)));
    }
  }

  lemma WrittenAdd(d: StagingDir, key: nat -> string, val: nat -> seq<byte>, skip: set<nat>,
                   idx: set<nat>, i: nat)
    requires Injective(key)
    ensures Written(d, key, val, skip, idx + {i})
      == if i in skip then Written(d, key, val, skip, idx)
         else Written(d, key, val, skip, idx)[key(i) := File(val(i))]
  {
    if i in skip {
      WrittenSkipped(d, key, val, skip, idx, i);
    } else {
      WrittenAdded(d, key, val, skip, idx, i);
    }
  }

  lemma WrittenSkipped(d: StagingDir, key: nat -> string, val: nat -> seq<byte>, skip: set<nat>,
                       idx: set<nat>, i: nat)
    requires Injective(key) && i in skip
    ensures Written(d, key, val, skip, idx + {i}) == Written(d, key, val, skip, idx)
  {
    assert Written(d, key, val, skip, idx + {i}).Keys == Written(d, key, val, skip, idx).Keys;
  }

  lemma WrittenAdded(d: StagingDir, key: nat -> string, val: nat -> seq<byte>, skip: set<nat>,
                     idx: set<nat>, i: nat)
    requires Injective(key) && i !in skip
    ensures Written(d, key, val, skip, idx + {i}) == Written(d, key, val, skip, idx)[key(i) := File(val(i))]
  {
    WrittenAddedOld(d, key, val, skip, idx, i);
    WrittenAddedNew(d, key, val, skip, idx, i);
  }

  /** Every write after adding task `i` is task `i`'s write or one from before. */
  lemma WrittenAddedOld(d: StagingDir, key: nat -> string, val: nat -> seq<byte>, skip: set<nat>,
                        idx: set<nat>, i: nat)
    requires Injective(key) && i !in skip
    ensures var w' := Written(d, key, val, skip, idx + {i});
      var m := Written(d, key, val, skip, idx)[key(i) := File(val(i))];
      forall k :: k in w' ==> k in m && w'[k] == m[k]
  {
    var w := Written(d, key, val, skip, idx);
    var w' := Written(d, key, val, skip, idx + {i});
    forall k | k in w' ensures k in w[key(i) := File(val(i))] && w'[k] == w[key(i) := File(val(i))][k] {
      var j :| j in idx + {i} && j !in skip && key(j) == k;
      if j != i {
        assert k in w && w[k] == File(val(j));
      }
    }
  }

  /** Every write from before and task `i`'s write remain after adding task `i`. */
  lemma WrittenAddedNew(d: StagingDir, key: nat -> string, val: nat -> seq<byte>, skip: set<nat>,
                        idx: set<nat>, i: nat)
    requires Injective(key) && i !in skip
    ensures forall k :: (k in Written(d, key, val, skip, idx)[key(i) := File(val(i))]
                         ==> k in Written(d, key, val, skip, idx + {i}))
  {
    var w := Written(d, key, val, skip, idx);
    forall k | k in w[key(i) := File(val(i))] ensures k in Written(d, key, val, skip, idx + {i}) {
      if k != key(i) {
        var j :| j in idx && j !in skip && key(j) == k;
        assert j in idx + {i};
      }
    }
  }

  lemma MergeUpdate(d: StagingDir, w: StagingDir, k: string, e: Entry)
    ensures d + w[k := e] == (d + w)[k := e]
  {
  }

  /** Whatever the order, the tasks leave the directory as it was plus one
      write per task that ran. */
  lemma {:induction false} StagedAnyOrder(d: StagingDir, key: nat -> string, val: nat -> seq<byte>,
                                          skip: set<nat>, order: seq<nat>)
    requires Injective(key)
    ensures Staged(d, key, val, skip, order)
         == d + Written(d, key, val, skip, set k | 0 <= k < |order| :: order[k])
  {
    var idx := set k | 0 <= k < |order| :: order[k];
    if |order| == 0 {
      assert Written(d, key, val, skip, idx) == map[];
      assert d + map[] == d;
    } else {
      var o' := order[..|order| - 1];
      var i := order[|order| - 1];
      var idx' := set k | 0 <= k < |o'| :: o'[k];
      assert idx == idx' + {i} by {
        forall j | j in idx ensures j in idx' + {i} {
          var k :| 0 <= k < |order| && order[k] == j;
          if k < |order| - 1 {
            assert o'[k] == j;
          }
        }
        forall j | j in idx' ensures j in idx {
          var k :| 0 <= k < |o'| && o'[k] == j;
          assert order[k] == j;
        }
      }
      StagedAnyOrder(d, key, val, skip, o');
      AddWrite(d, key, val, skip, idx', i);
    }
  }

  /** The part file names of one download never collide. */
  lemma PartKeyInjective(name: string)
    ensures Injective((i: nat) => PartName(name, i))
  {
    forall i: nat, j: nat | PartName(name, i) == PartName(name, j) ensures i == j {
      PartNameInjective(name, i, j);
    }
  }

  /** What chunk `i`'s task writes, for any `i`. */
  function ChunkContents(remote: seq<byte>, plan: seq<Segment>, net: ChunkNet): nat -> seq<byte>
  {
    (i: nat) => if i < |plan| then ChunkBytes(remote, plan, net, i) else []
  }

  /** The chunks whose part file name is taken by a directory: their local
      open fails. No chunk task creates or removes a directory. */
  function Blocked(d: StagingDir, name: string, n: nat): set<nat>
  {
    set i | 0 <= i < n && IsDir(d, PartName(name, i))
  }

  /** The chunks that write no part file: their SFTP open or their local open failed. */
  function Skipped(d: StagingDir, name: string, plan: seq<Segment>, net: ChunkNet): set<nat>
  {
    net.unopened + Blocked(d, name, |plan|)
  }

  /** The staging directory after the chunk tasks of `order` have run. */
  function PartsAfter(d: StagingDir, name: string, remote: seq<byte>, plan: seq<Segment>,
                      net: ChunkNet, order: seq<nat>): StagingDir
  {
    Staged(d, (i: nat) => PartName(name, i), ChunkContents(remote, plan, net), Skipped(d, name, plan, net), order)
  }

  /** The thread pool of download_file, its tasks run one after the other in
      the order they complete. */
  method RunChunks(d: StagingDir, name: string, remote: seq<byte>, plan: seq<Segment>,
                   net: ChunkNet, order: seq<nat>) returns (d': StagingDir)
    requires forall k :: 0 <= k < |order| ==> order[k] < |plan|
    ensures d' == PartsAfter(d, name, remote, plan, net, order)
  {
    d' := d;
    for k := 0 to |order|
      invariant d' == PartsAfter(d, name, remote, plan, net, order[..k])
      invariant forall key :: IsDir(d', key) <==> IsDir(d, key)
    {
      PartsAfterStep(d, name, remote, plan, net, order, k);
      d' := ChunkTask(d', name, remote, plan, net, order[k]);
    }
    assert order[..|order|] == order;
  }

  /** download_chunk for chunk `i`: when both the remote and the local open
      succeed, the part file holds what the copy loop wrote; a failed open
      leaves the staging directory as it was. */
  method ChunkTask(d: StagingDir, name: string, remote: seq<byte>, plan: seq<Segment>,
                   net: ChunkNet, i: nat) returns (d': StagingDir)
    requires i < |plan|
    ensures d' == if i in net.unopened || IsDir(d, PartName(name, i)) then d
                  else d[PartName(name, i) := File(ChunkBytes(remote, plan, net, i))]
    ensures forall key :: IsDir(d', key) <==> IsDir(d, key)
  {
    d' := d;
    if i !in net.unopened && !IsDir(d, PartName(name, i)) {
      var part, _ := DownloadChunk(remote, plan[i].start, plan[i].end, net.grants(i));
      WriteKeepsDirs(d, PartName(name, i), part);
      d' := d[PartName(name, i) := File(part)];
    }
  }

  /** Writing a file where there is no directory leaves the directories as they are. */
  lemma WriteKeepsDirs(d: StagingDir, k: string, data: seq<byte>)
    requires !IsDir(d, k)
    ensures forall key :: IsDir(d[k := File(data)], key) <==> IsDir(d, key)
  {
  }

  /** Running one more task adds its part file, unless it is skipped. */
  lemma PartsAfterStep(d: StagingDir, name: string, remote: seq<byte>, plan: seq<Segment>,
                       net: ChunkNet, order: seq<nat>, k: nat)
    requires k < |order| && order[k] < |plan|
    ensures var i := order[k];
      var before := PartsAfter(d, name, remote, plan, net, order[..k]);
      PartsAfter(d, name, remote, plan, net, order[..k + 1])
      == if i in net.unopened || IsDir(d, PartName(name, i)) then before
         else before[PartName(name, i) := File(ChunkBytes(remote, plan, net, i))]
  {
    assert order[..k + 1][..k] == order[..k];
  }

  /** The order in which the chunk tasks complete does not matter. */
  lemma PartsAfterOrderIrrelevant(d: StagingDir, name: string, remote: seq<byte>, plan: seq<Segment>,
                                  net: ChunkNet, o1: seq<nat>, o2: seq<nat>)
    requires IsSchedule(o1, |plan|) && IsSchedule(o2, |plan|)
    ensures PartsAfter(d, name, remote, plan, net, o1) == PartsAfter(d, name, remote, plan, net, o2)
  {
    var s1 := set k | 0 <= k < |o1| :: o1[k];
    var s2 := set k | 0 <= k < |o2| :: o2[k];
    assert s1 == s2 by {
      forall j | j in s1 ensures j in s2 {
        assert j in o2;
      }
      forall j | j in s2 ensures j in s1 {
        assert j in o1;
      }
    }
    PartKeyInjective(name);
    var key := (i: nat) => PartName(name, i);
    var val := ChunkContents(remote, plan, net);
    StagedAnyOrder(d, key, val, Skipped(d, name, plan, net), o1);
    StagedAnyOrder(d, key, val, Skipped(d, name, plan, net), o2);
  }

  // ---------------------------------------------------------------------------
  // Reassembly

  /** The state of the reassembly loop: the staging directory, the bytes
      written to the output so far, whether the loop is still running without
      an exception (`ok`), and whether the output file has been unlinked
      while still open, so that what is written to it no longer shows in the
      directory (`lost`). */
  datatype Assembly = Assembly(dir: StagingDir, out: seq<byte>, ok: bool, lost: bool)

  /** The output file opened for writing (truncating it), then part files
      `0 .. n - 1` appended and each unlinked, stopping at the first one that
      cannot be opened.

      A part file can be the output itself (the file `X.part1` has the part
      name `X.part1` for chunk 1). Copying the output into itself reads back
      the bytes it has just appended and never reaches the end, so the file
      grows until the disk is full and the write raises; `spill` is what the
      output then holds. When the read finds nothing on disk (nothing has
      reached it yet), the copy ends at once and the following unlink removes
      the open output (`lost`). */
  function Reassembly(d: StagingDir, name: string, n: nat, spill: seq<byte>): (a: Assembly)
    ensures a.ok && !a.lost ==> name in a.dir && a.dir[name] == File(a.out)
  {
    if n == 0 then Assembly(d[name := File([])], [], true, false)
    else
      var a := Reassembly(d, name, n - 1, spill);
      var p := PartName(name, n - 1);
      if !a.ok then a
      else if !(p in a.dir && a.dir[p].File?) then a.(ok := false)
      else if p == name then
        if |spill| == 0 then Assembly(a.dir - {p}, a.out, true, true)
        else Assembly(a.dir[name := File(spill)], a.out, false, a.lost)
      else
        var out := a.out + a.dir[p].data;
        Assembly(if a.lost then a.dir - {p} else a.dir[name := File(out)] - {p}, out, true, a.lost)
  }

  /** Once a part fails to open, nothing more happens. */
  lemma {:induction false} ReassemblyStuck(d: StagingDir, name: string, k: nat, n: nat, spill: seq<byte>)
    requires k <= n && !Reassembly(d, name, k, spill).ok
    ensures Reassembly(d, name, n, spill) == Reassembly(d, name, k, spill)
  {
    if k < n {
      ReassemblyStuck(d, name, k, n - 1, spill);
    }
  }

  /** The combine loop of download_file. */
  method Reassemble(d: StagingDir, name: string, n: nat, spill: seq<byte>) returns (a: Assembly)
    ensures a == Reassembly(d, name, n, spill)
  {
    var dir := d[name := File([])];
    var out := [];
    var lost := false;
    for i := 0 to n
      invariant Reassembly(d, name, i, spill) == Assembly(dir, out, true, lost)
    {
      var p := PartName(name, i);
      if !(p in dir && dir[p].File?) {
        a := Assembly(dir, out, false, lost);
        ReassemblyStuck(d, name, i + 1, n, spill);
        return;
      }
      if p == name {
        if |spill| > 0 {
          // the self-copy fills the disk and raises
          a := Assembly(dir[name := File(spill)], out, false, lost);
          ReassemblyStuck(d, name, i + 1, n, spill);
          return;
        }
        lost := true;
      } else {
        out := out + dir[p].data;
        if !lost {
          dir := dir[name := File(out)];
        }
      }
      dir := dir - {p};
    }
    a := Assembly(dir, out, true, lost);
  }

  /** The part file names of chunks `0 .. n - 1`. */
  function PartSet(name: string, n: nat): set<string>
  {
    set i | 0 <= i < n :: PartName(name, i)
  }

  /** The contents of part files `0 .. n - 1`, in index order. */
  function PartData(d: StagingDir, name: string, n: nat): seq<seq<byte>>
    requires forall i :: 0 <= i < n ==> PartName(name, i) in d && d[PartName(name, i)].File?
  {
    seq(n, i requires 0 <= i < n => d[PartName(name, i)].data)
  }

  /** When every part file is there and none of them is the output itself, the
      output is their concatenation in index order, every part file is gone,
      and nothing else in the directory changed. */
  lemma {:induction false} ReassemblyOfParts(d: StagingDir, name: string, n: nat, spill: seq<byte>)
    requires forall i :: 0 <= i < n ==> PartName(name, i) in d && d[PartName(name, i)].File?
    requires forall i :: 0 <= i < n ==> PartName(name, i) != name
    ensures var a := Reassembly(d, name, n, spill);
      a.ok && !a.lost && a.out == Flatten(PartData(d, name, n))
      && a.dir == (d - PartSet(name, n))[name := File(a.out)]
  {
    if n == 0 {
      assert PartSet(name, 0) == {};
      assert d - {} == d;
    } else {
      ReassemblyOfParts(d, name, n - 1, spill);
      var a := Reassembly(d, name, n - 1, spill);
      var p := PartName(name, n - 1);
      assert PartData(d, name, n)[..n - 1] == PartData(d, name, n - 1);
      PartSetStep(name, n);
      RemoveStep(d, PartSet(name, n - 1), name, p, a.out, a.out + d[p].data);
    }
  }

  /** A file whose name is the part name of its own chunk `k`: the join
      truncates it (losing that chunk), appends and unlinks the parts before
      `k`, then copies the file into itself until the disk is full and the
      write raises. The file is left holding `spill`, the parts before `k`
      are gone, and every other entry, the parts after `k` included, is as it
      was. */
  lemma ReassemblySelfCopy(d: StagingDir, name: string, k: nat, n: nat, spill: seq<byte>)
    requires k < n && PartName(name, k) == name && |spill| > 0
    requires forall i :: 0 <= i < k ==> PartName(name, i) in d && d[PartName(name, i)].File?
    ensures var a := Reassembly(d, name, n, spill);
      !a.ok && a.dir == (d - PartSet(name, k))[name := File(spill)]
  {
    forall i | 0 <= i < k ensures PartName(name, i) != name {
      if PartName(name, i) == name {
        PartNameInjective(name, i, k);
      }
    }
    ReassemblyOfParts(d, name, k, spill);
    ReassemblyStuck(d, name, k + 1, n, spill);
  }

  /** Part `n - 1`'s name is new to the part names before it. */
  lemma PartSetStep(name: string, n: nat)
    requires n > 0
    ensures PartName(name, n - 1) !in PartSet(name, n - 1)
    ensures PartSet(name, n) == PartSet(name, n - 1) + {PartName(name, n - 1)}
  {
    var p := PartName(name, n - 1);
    forall i | 0 <= i < n - 1 ensures PartName(name, i) != p {
      if PartName(name, i) == p {
        PartNameInjective(name, i, n - 1);
      }
    }
    assert forall i :: 0 <= i < n ==> PartName(name, i) in PartSet(name, n - 1) + {p};
  }

  /** One more step of the join: rewriting the output and unlinking part `p`. */
  lemma RemoveStep(d: StagingDir, parts: set<string>, name: string, p: string,
                   out0: seq<byte>, out: seq<byte>)
    requires p != name
    ensures (d - parts)[name := File(out0)][name := File(out)] - {p}
         == (d - (parts + {p}))[name := File(out)]
  {
  }

  // ---------------------------------------------------------------------------
  // The commit decision and the whole download

  /** The staging directory, the remote directory and how the download ended. */
  datatype Result = Result(local: StagingDir, remote: RemoteDir, outcome: Outcome)

  /** The final step: a non-empty local copy makes the remote file go, an
      empty one is deleted and the remote file stays. A missing local copy
      makes the size check raise. */
  function Commit(local: StagingDir, remote: RemoteDir, name: string): (r: Result)
    ensures r.outcome == Committed <==> name in local && local[name].File? && |local[name].data| > 0
    ensures r.outcome == Committed ==> r.local == local && r.remote == remote - {name}
    ensures r.outcome == Discarded ==> r.local == local - {name} && r.remote == remote
    ensures r.outcome == Aborted ==> r.local == local && r.remote == remote
  {
    if name !in local || local[name].Directory? then Result(local, remote, Aborted)
    else if |local[name].data| > 0 then Result(local, remote - {name}, Committed)
    else Result(local - {name}, remote, Discarded)
  }

  /** What the network and the thread pool do during one download: the chunk
      tasks' reads and failed opens, the order in which the chunk tasks
      complete, what a part file that is the output itself leaves behind
      when copying it fills the disk, how many bytes the single stream
      delivers, and whether the single stream raises. */
  datatype Env = Env(net: ChunkNet, order: seq<nat>, spill: seq<byte>, delivered: nat, streamFails: bool)

  /** download_file for the remote file `name`, with the USE_CHUNKS switch and
      the CHUNKS count. */
  function Download(local: StagingDir, remote: RemoteDir, name: string, useChunks: bool, chunks: int,
                    env: Env): (r: Result)
    ensures r.outcome == Committed <==> name in remote && name !in r.remote
    ensures r.outcome == Committed ==> name in r.local && r.local[name].File? && |r.local[name].data| > 0
    ensures r.outcome == Discarded ==> name !in r.local
    ensures r.outcome != Committed ==> r.remote == remote
    ensures r.remote == remote || r.remote == remote - {name}
  {
    if IsDir(local, name) then Result(local, remote, Aborted)
    else
      var l1 := local - {name};
      if name !in remote then Result(l1, remote, Aborted)
      else
        var data := remote[name];
        if UsesChunks(useChunks, |data|) then
          if chunks <= 0 then Result(l1, remote, Aborted)
          else
            var plan := Plan(|data|, chunks);
            var l2 := PartsAfter(l1, name, data, plan, env.net, env.order);
            var a := Reassembly(l2, name, chunks, env.spill);
            if !a.ok || a.lost then Result(a.dir, remote, Aborted) else Commit(a.dir, remote, name)
        else
          var l2 := l1[name := File(data[..Min(env.delivered, |data|)])];
          if env.streamFails then Result(l2, remote, Aborted) else Commit(l2, remote, name)
  }

  /** download_file, step by step. */
  method DownloadFile(local: StagingDir, remote: RemoteDir, name: string, useChunks: bool, chunks: int,
                      env: Env) returns (r: Result)
    requires IsSchedule(env.order, chunks)
    ensures r == Download(local, remote, name, useChunks, chunks, env)
  {
    if IsDir(local, name) {
      return Result(local, remote, Aborted);
    }
    var l := local - {name};
    if name !in remote {
      return Result(l, remote, Aborted);
    }
    var data := remote[name];
    if UsesChunks(useChunks, |data|) {
      if chunks <= 0 {
        return Result(l, remote, Aborted);
      }
      var plan := Plan(|data|, chunks);
      l := RunChunks(l, name, data, plan, env.net, env.order);
      var a := Reassemble(l, name, chunks, env.spill);
      if !a.ok || a.lost {
        return Result(a.dir, remote, Aborted);
      }
      l := a.dir;
    } else {
      l := l[name := File(data[..Min(env.delivered, |data|)])];
      if env.streamFails {
        return Result(l, remote, Aborted);
      }
    }
    r := Commit(l, remote, name);
  }

  /** The order in which the chunk tasks complete does not change the outcome
      of a download. */
  lemma DownloadOrderIrrelevant(local: StagingDir, remote: RemoteDir, name: string, useChunks: bool,
                                chunks: int, env: Env, order: seq<nat>)
    requires IsSchedule(env.order, chunks) && IsSchedule(order, chunks)
    ensures Download(local, remote, name, useChunks, chunks, env)
         == Download(local, remote, name, useChunks, chunks, env.(order := order))
  {
    if !IsDir(local, name) && name in remote && UsesChunks(useChunks, |remote[name]|) && chunks > 0 {
      var data := remote[name];
      PartsAfterOrderIrrelevant(local - {name}, name, data, Plan(|data|, chunks), env.net, env.order, order);
    }
  }

  lemma WrittenLookup(d: StagingDir, key: nat -> string, val: nat -> seq<byte>, idx: set<nat>, i: nat)
    requires Injective(key) && i in idx
    ensures key(i) in Written(d, key, val, {}, idx)
    ensures Written(d, key, val, {}, idx)[key(i)] == File(val(i))
  {
  }

  lemma WrittenKeys(d: StagingDir, key: nat -> string, val: nat -> seq<byte>, idx: set<nat>, keys: set<string>)
    requires Injective(key)
    requires forall i :: i in idx ==> key(i) in keys
    ensures (d + Written(d, key, val, {}, idx)) - keys == d - keys
  {
    var w := Written(d, key, val, {}, idx);
    assert forall k :: k in w ==> k in keys;
  }

  /** When no chunk task is skipped, every part file holds its chunk's bytes and
      every other entry is as it was. */
  lemma PartsAfterAllWritten(d: StagingDir, name: string, remote: seq<byte>, plan: seq<Segment>,
                             net: ChunkNet, order: seq<nat>)
    requires IsSchedule(order, |plan|) && Skipped(d, name, plan, net) == {}
    ensures var pa := PartsAfter(d, name, remote, plan, net, order);
      forall i :: 0 <= i < |plan| ==>
        PartName(name, i) in pa && pa[PartName(name, i)] == File(ChunkBytes(remote, plan, net, i))
    ensures PartsAfter(d, name, remote, plan, net, order) - PartSet(name, |plan|) == d - PartSet(name, |plan|)
  {
    PartKeyInjective(name);
    var key := (i: nat) => PartName(name, i);
    var val := ChunkContents(remote, plan, net);
    var idx := set k | 0 <= k < |order| :: order[k];
    StagedAnyOrder(d, key, val, {}, order);
    forall i | 0 <= i < |plan|
      ensures PartName(name, i) in Written(d, key, val, {}, idx)
      ensures Written(d, key, val, {}, idx)[PartName(name, i)] == File(ChunkBytes(remote, plan, net, i))
    {
      assert i in order;
      assert i in idx;
      WrittenLookup(d, key, val, idx, i);
    }
    WrittenKeys(d, key, val, idx, PartSet(name, |plan|));
  }

  /** With every read complete and every part file written, the part files
      hold the plan's segments of the remote contents. */
  lemma HealthyParts(d: StagingDir, name: string, data: seq<byte>, chunks: nat, net: ChunkNet,
                     order: seq<nat>)
    requires chunks > 0 && IsSchedule(order, chunks)
    requires Skipped(d, name, Plan(|data|, chunks), net) == {}
    requires forall i :: 0 <= i < chunks ==> Complete(net.grants(i))
    ensures var l2 := PartsAfter(d, name, data, Plan(|data|, chunks), net, order);
      (forall i :: 0 <= i < chunks ==> PartName(name, i) in l2 && l2[PartName(name, i)].File?)
      && PartData(l2, name, chunks)
         == seq(chunks, i requires 0 <= i < chunks => SegmentBytes(data, Plan(|data|, chunks)[i]))
      && l2 - PartSet(name, chunks) == d - PartSet(name, chunks)
  {
    var plan := Plan(|data|, chunks);
    PartsAfterAllWritten(d, name, data, plan, net, order);
    var l2 := PartsAfter(d, name, data, plan, net, order);
    forall i | 0 <= i < chunks ensures PartData(l2, name, chunks)[i] == SegmentBytes(data, plan[i]) {
      CopiedSegment(data, plan[i], net.grants(i));
    }
  }

  /** With every read complete and every part file written, reassembly yields
      the remote contents and leaves no part file behind. */
  lemma HealthyReassembly(d: StagingDir, name: string, data: seq<byte>, chunks: nat, net: ChunkNet,
                          order: seq<nat>, spill: seq<byte>)
    requires chunks > 0 && IsSchedule(order, chunks)
    requires Skipped(d, name, Plan(|data|, chunks), net) == {}
    requires forall i :: 0 <= i < chunks ==> Complete(net.grants(i))
    requires forall i :: 0 <= i < chunks ==> PartName(name, i) != name
    ensures Reassembly(PartsAfter(d, name, data, Plan(|data|, chunks), net, order), name, chunks, spill)
         == Assembly((d - PartSet(name, chunks))[name := File(data)], data, true, false)
  {
    var l2 := PartsAfter(d, name, data, Plan(|data|, chunks), net, order);
    HealthyParts(d, name, data, chunks, net, order);
    ReassemblyOfParts(l2, name, chunks, spill);
    PlanCoversFile(data, chunks);
  }

  /** The chunked path with a healthy network: every read returns what was
      asked (up to end of file), every open succeeds, no part file name is
      taken by a directory or is the file's own name. Then the local copy is
      the remote contents, every part file is gone, nothing else in the
      staging directory changed, and the remote file is removed. */
  lemma ChunkedDownloadComplete(local: StagingDir, remote: RemoteDir, name: string, chunks: int, env: Env)
    requires name in remote && !IsDir(local, name)
    requires UsesChunks(true, |remote[name]|) && chunks > 0 && IsSchedule(env.order, chunks)
    requires forall i :: 0 <= i < chunks ==> Complete(env.net.grants(i))
    requires env.net.unopened == {}
    requires forall i :: 0 <= i < chunks ==> !IsDir(local, PartName(name, i)) && PartName(name, i) != name
    ensures var r := Download(local, remote, name, true, chunks, env);
      r.outcome == Committed && r.remote == remote - {name}
      && r.local == (local - PartSet(name, chunks))[name := File(remote[name])]
  {
    var data := remote[name];
    var l1 := local - {name};
    assert Skipped(l1, name, Plan(|data|, chunks), env.net) == {};
    HealthyReassembly(l1, name, data, chunks, env.net, env.order, env.spill);
    assert (l1 - PartSet(name, chunks))[name := File(data)]
        == (local - PartSet(name, chunks))[name := File(data)];
  }

  /** The single-stream path: whatever prefix the stream delivered is the local
      copy, and the commit looks only at whether it is empty. */
  lemma StreamDownload(local: StagingDir, remote: RemoteDir, name: string, useChunks: bool, chunks: int,
                       env: Env)
    requires name in remote && !IsDir(local, name) && !env.streamFails
    requires !UsesChunks(useChunks, |remote[name]|)
    ensures var got := remote[name][..Min(env.delivered, |remote[name]|)];
      var r := Download(local, remote, name, useChunks, chunks, env);
      (|got| > 0 ==> r.outcome == Committed && r.local == local[name := File(got)] && r.remote == remote - {name})
      && (|got| == 0 ==> r.outcome == Discarded && r.local == local - {name} && r.remote == remote)
  {
    var got := remote[name][..Min(env.delivered, |remote[name]|)];
    assert (local - {name})[name := File(got)] == local[name := File(got)];
    assert (local - {name})[name := File(got)] - {name} == local - {name};
  }

  /** A stream cut short still commits: the remote file is deleted although
      the local copy is shorter than it. */
  lemma ShortStreamStillCommits(local: StagingDir, remote: RemoteDir, name: string, useChunks: bool,
                                chunks: int, env: Env)
    requires name in remote && !IsDir(local, name) && !env.streamFails
    requires !UsesChunks(useChunks, |remote[name]|) && 0 < env.delivered < |remote[name]|
    ensures var r := Download(local, remote, name, useChunks, chunks, env);
      r.outcome == Committed && name !in r.remote && |r.local[name].data| < |remote[name]|
  {
    StreamDownload(local, remote, name, useChunks, chunks, env);
  }
}
