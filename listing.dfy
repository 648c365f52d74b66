/** The listing step of download_files: removing stale staging files, choosing
    the files to download by release-group tag, and downloading them one by one. */
module Listing {
  import opened Text
  import opened Files
  import opened Transfer

  // ---------------------------------------------------------------------------
  // Stale staging files

  /** The staging directory after the cleanup loop, and whether it ran to the
      end (an unlink of a directory raises and ends the whole run). */
  datatype Cleanup = Cleanup(dir: StagingDir, ok: bool)

  /** The cleanup loop over the entries `order`, as the directory iterator
      yields them: every entry whose name is in the remote listing is unlinked. */
  function Cleaned(d: StagingDir, order: seq<string>, listing: seq<string>): Cleanup
  {
    if |order| == 0 then Cleanup(d, true)
    else
      var c := Cleaned(d, order[..|order| - 1], listing);
      var k := order[|order| - 1];
      if !c.ok || k !in listing || k !in c.dir then c
      else if c.dir[k].Directory? then Cleanup(c.dir, false)
      else Cleanup(c.dir - {k}, true)
  }

  /** `order` enumerates the entries of `d`, each once: a directory iteration. */
  ghost predicate Enumerates(order: seq<string>, d: StagingDir)
  {
    (forall k :: k in order <==> k in d) &&
    (forall i, j :: 0 <= i < j < |order| ==> order[i] != order[j])
  }

  /** The cleanup loop. */
  method RemoveStale(d: StagingDir, order: seq<string>, listing: seq<string>) returns (c: Cleanup)
    ensures c == Cleaned(d, order, listing)
  {
    var dir := d;
    for i := 0 to |order|
      invariant Cleaned(d, order[..i], listing) == Cleanup(dir, true)
    {
      assert order[..i + 1][..i] == order[..i];
      var k := order[i];
      if k in listing && k in dir {
        if dir[k].Directory? {
          c := Cleanup(dir, false);
          CleanedStuck(d, order, listing, i + 1);
          return;
        }
        dir := dir - {k};
      }
    }
    assert order[..|order|] == order;
    c := Cleanup(dir, true);
  }

  /** After a failure the loop has stopped. */
  lemma {:induction false} CleanedStuck(d: StagingDir, order: seq<string>, listing: seq<string>, k: nat)
    requires k <= |order| && !Cleaned(d, order[..k], listing).ok
    ensures Cleaned(d, order, listing) == Cleaned(d, order[..k], listing)
  {
    if k < |order| {
      assert order[..|order| - 1][..k] == order[..k];
      CleanedStuck(d, order[..|order| - 1], listing, k);
    } else {
      assert order[..k] == order;
    }
  }

  /** The names of the remote listing, as a set. */
  function Listed(listing: seq<string>): set<string>
  {
    set k | k in listing
  }

  /** Over distinct entries of `d`: the loop fails exactly when one of them is
      a directory named in the listing, and otherwise it has removed exactly
      the listed ones among them. */
  lemma {:induction false} CleanedPrefix(d: StagingDir, order: seq<string>, listing: seq<string>)
    requires forall k :: k in order ==> k in d
    requires forall i, j :: 0 <= i < j < |order| ==> order[i] != order[j]
    ensures var c := Cleaned(d, order, listing);
      (c.ok <==> forall k :: k in order && k in listing ==> d[k].File?)
      && (c.ok ==> c.dir == d - (set k | k in order && k in listing))
  {
    if |order| > 0 {
      var o' := order[..|order| - 1];
      var k := order[|order| - 1];
      CleanedPrefix(d, o', listing);
      assert k !in o' by {
        forall i | 0 <= i < |o'| ensures o'[i] != k {
          assert o'[i] == order[i];
        }
      }
      assert forall x :: x in order <==> x in o' || x == k;
      assert (set x | x in order && x in listing)
          == (set x | x in o' && x in listing) + (if k in listing then {k} else {});
    }
  }

  /** After a full iteration of the directory, the cleanup succeeds exactly
      when no directory is named in the listing, and then every staging file
      named in the listing, and nothing else, is gone. */
  lemma RemoveStaleRemovesListed(d: StagingDir, order: seq<string>, listing: seq<string>)
    requires Enumerates(order, d)
    ensures var c := Cleaned(d, order, listing);
      (c.ok <==> forall k :: k in d && k in listing ==> d[k].File?)
      && (c.ok ==> c.dir == d - Listed(listing))
  {
    CleanedPrefix(d, order, listing);
    var c := Cleaned(d, order, listing);
    if c.ok {
      assert d - (set k | k in order && k in listing) == d - Listed(listing);
    }
  }

  // ---------------------------------------------------------------------------
  // Release-group selection

  /** The file name carries the tag of group `g`, in square or lenticular brackets. */
  predicate Tagged(file: string, g: string)
  {
    Contains(file, "[" + g + "]") || Contains(file, "【" + g + "】")
  }

  /** `any(...)` over the groups, in order. */
  function AnyGroup(file: string, groups: seq<string>): (r: bool)
    ensures r <==> exists g :: g in groups && Tagged(file, g)
  {
    if |groups| == 0 then false
    else Tagged(file, groups[0]) || AnyGroup(file, groups[1..])
  }

  /** The download list: the listed names carrying some group's tag, in listing order. */
  function Select(listing: seq<string>, groups: seq<string>): (sel: seq<string>)
  {
    if |listing| == 0 then []
    else (if AnyGroup(listing[0], groups) then [listing[0]] else []) + Select(listing[1..], groups)
  }

  /** A name is selected exactly when it is listed and carries some group's tag. */
  lemma {:induction false} SelectMembers(listing: seq<string>, groups: seq<string>, f: string)
    ensures f in Select(listing, groups) <==> f in listing && exists g :: g in groups && Tagged(f, g)
  {
    if |listing| > 0 {
      SelectMembers(listing[1..], groups, f);
      assert f in listing <==> f == listing[0] || f in listing[1..];
    }
  }

  /** Selection keeps listing order: selecting from two listings one after the
      other is selecting from their concatenation. */
  lemma {:induction false} SelectAppend(a: seq<string>, b: seq<string>, groups: seq<string>)
    ensures Select(a + b, groups) == Select(a, groups) + Select(b, groups)
  {
    if |a| > 0 {
      assert (a + b)[1..] == a[1..] + b;
      SelectAppend(a[1..], b, groups);
    } else {
      assert a + b == b;
    }
  }

  /** With no groups, nothing is downloaded. */
  lemma {:induction false} SelectNoGroups(listing: seq<string>)
    ensures Select(listing, []) == []
  {
    if |listing| > 0 {
      SelectNoGroups(listing[1..]);
    }
  }

  /** A string without the letter `A` does not contain a tag of "GroupA". */
  lemma NoTagWithoutLetter(s: string, t: string)
    requires 'A' !in s && |t| == 8 && t[6] == 'A'
    ensures !Contains(s, t)
  {
    ContainsIffOccurs(s, t);
    forall i ensures !OccursAt(s, t, i) {
      if 0 <= i && i + |t| <= |s| {
        assert s[i..i + |t|][6] == s[i + 6];
      }
    }
  }

  /** The worked case: the name carries the tag of the group "GroupA". */
  lemma ExampleTagged()
    ensures AnyGroup("[GroupA] Show 01 (WEB).mkv", ["GroupA"])
  {
    ContainsInfix("", "[GroupA]", " Show 01 (WEB).mkv");
    assert "" + "[GroupA]" + " Show 01 (WEB).mkv" == "[GroupA] Show 01 (WEB).mkv";
    assert "[" + "GroupA" + "]" == "[GroupA]";
    assert Tagged("[GroupA] Show 01 (WEB).mkv", ["GroupA"][0]);
  }

  /** A name without the letter `A` is not selected by the group "GroupA". */
  lemma UntaggedWithoutLetter(b: string)
    requires 'A' !in b
    ensures !AnyGroup(b, ["GroupA"])
  {
    NoTagWithoutLetter(b, "[GroupA]");
    NoTagWithoutLetter(b, "【GroupA】");
    assert "[" + "GroupA" + "]" == "[GroupA]";
    assert "【" + "GroupA" + "】" == "【GroupA】";
    assert !Tagged(b, ["GroupA"][0]);
  }

  // ---------------------------------------------------------------------------
  // The batch

  /** Every selected file downloaded one after the other, each with its own
      network behaviour. */
  function DownloadAllSpec(local: StagingDir, remote: RemoteDir, files: seq<string>, useChunks: bool,
                           chunks: int, envs: seq<Env>): (r: (StagingDir, RemoteDir))
    requires |envs| == |files|
  {
    if |files| == 0 then (local, remote)
    else
      var (l, rem) := DownloadAllSpec(local, remote, files[..|files| - 1], useChunks, chunks, envs[..|envs| - 1]);
      var r := Download(l, rem, files[|files| - 1], useChunks, chunks, envs[|envs| - 1]);
      (r.local, r.remote)
  }

  /** The file-level pool of download_files, run one task after the other.
      An aborted download does not stop the others. */
  method DownloadAll(local: StagingDir, remote: RemoteDir, files: seq<string>, useChunks: bool, chunks: int,
                     envs: seq<Env>) returns (l: StagingDir, rem: RemoteDir)
    requires |envs| == |files|
    requires forall i :: 0 <= i < |envs| ==> IsSchedule(envs[i].order, chunks)
    ensures (l, rem) == DownloadAllSpec(local, remote, files, useChunks, chunks, envs)
  {
    l, rem := local, remote;
    for i := 0 to |files|
      invariant (l, rem) == DownloadAllSpec(local, remote, files[..i], useChunks, chunks, envs[..i])
    {
      assert files[..i + 1][..i] == files[..i];
      assert envs[..i + 1][..i] == envs[..i];
      var r := DownloadFile(l, rem, files[i], useChunks, chunks, envs[i]);
      l, rem := r.local, r.remote;
    }
    assert files[..|files|] == files;
    assert envs[..|envs|] == envs;
  }

  /** A remote file that is not in the download list is never removed, and
      no remote file is ever added or changed. */
  lemma {:induction false} DownloadAllKeepsUnselected(local: StagingDir, remote: RemoteDir, files: seq<string>,
                                                      useChunks: bool, chunks: int, envs: seq<Env>)
    requires |envs| == |files|
    ensures var rem := DownloadAllSpec(local, remote, files, useChunks, chunks, envs).1;
      (forall k :: k in remote && k !in files ==> k in rem && rem[k] == remote[k])
      && (forall k :: k in rem ==> k in remote && rem[k] == remote[k])
  {
    if |files| > 0 {
      var fs := files[..|files| - 1];
      DownloadAllKeepsUnselected(local, remote, fs, useChunks, chunks, envs[..|envs| - 1]);
      assert forall k :: k in fs ==> k in files;
    }
  }
}
