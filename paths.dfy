/** The pathlib name arithmetic the downloader uses: joining a directory and a
    name, a name's suffix and stem, `with_suffix`, and the chunk part names. */
module Paths {
  import opened Text

  /** `Path(dir) / name`. */
  function Join(dir: string, name: string): string
  {
    dir + "/" + name
  }

  /** Two names joined to the same directory give the same path only if they are equal. */
  lemma JoinInjective(dir: string, a: string, b: string)
    requires Join(dir, a) == Join(dir, b)
    ensures a == b
  {
    assert a == Join(dir, a)[|dir| + 1..];
  }

  /** str.rfind(c): the last index of `c`, or -1. */
  function LastIndex(s: string, c: char): (i: int)
    ensures -1 <= i < |s|
    ensures i >= 0 ==> s[i] == c
    ensures forall k :: i < k < |s| ==> s[k] != c
  {
    if |s| == 0 then -1
    else if s[|s| - 1] == c then |s| - 1
    else LastIndex(s[..|s| - 1], c)
  }

  /** The name has a suffix: its last dot is neither its first nor its last character. */
  predicate HasSuffix(name: string)
  {
    var i := LastIndex(name, '.');
    0 < i < |name| - 1
  }

  /** PurePath.suffix: from the last dot on, or empty. */
  function Suffix(name: string): string
  {
    if HasSuffix(name) then name[LastIndex(name, '.')..] else ""
  }

  /** PurePath.stem: the name without its suffix. */
  function Stem(name: string): string
  {
    if HasSuffix(name) then name[..LastIndex(name, '.')] else name
  }

  /** A name is its stem followed by its suffix; a suffix is a dot followed by
      at least one character, none of them a dot. */
  lemma StemSuffix(name: string)
    ensures Stem(name) + Suffix(name) == name
    ensures Suffix(name) == "" || (|Suffix(name)| >= 2 && Suffix(name)[0] == '.' && '.' !in Suffix(name)[1..])
    ensures HasSuffix(name) ==> |Stem(name)| > 0
  {
    if HasSuffix(name) {
      var i := LastIndex(name, '.');
      var sfx := name[i..];
      assert forall k :: 1 <= k < |sfx| ==> sfx[k] == name[i + k];
      assert '.' !in sfx[1..] by {
        forall k | 0 <= k < |sfx[1..]| ensures sfx[1..][k] != '.' {
          assert sfx[1..][k] == name[i + 1 + k];
        }
      }
    }
  }

  /** PurePath.with_suffix(sfx): the stem followed by the new suffix. */
  function WithSuffix(name: string, sfx: string): string
  {
    Stem(name) + sfx
  }

  /** A well-formed new suffix really becomes the suffix, and the stem is kept,
      whenever the name had a non-empty stem to begin with. */
  lemma WithSuffixRoundTrip(name: string, sfx: string)
    requires |Stem(name)| > 0
    requires |sfx| >= 2 && sfx[0] == '.' && '.' !in sfx[1..]
    ensures Suffix(WithSuffix(name, sfx)) == sfx
    ensures Stem(WithSuffix(name, sfx)) == Stem(name)
  {
    var stem := Stem(name);
    var r := stem + sfx;
    assert r[|stem|] == '.';
    forall k | |stem| < k < |r| ensures r[k] != '.' {
      assert r[k] == sfx[1..][k - |stem| - 1];
    }
    LastIndexAt(r, '.', |stem|);
    assert r[..|stem|] == stem;
  }

  /** The last index is the one found when it holds `c` and nothing after it does. */
  lemma LastIndexAt(s: string, c: char, i: int)
    requires 0 <= i < |s| && s[i] == c
    requires forall k :: i < k < |s| ==> s[k] != c
    ensures LastIndex(s, c) == i
  {
  }

  /** The file a chunk with index `i` is written to: `with_suffix('.part' + str(i))`. */
  function PartName(name: string, i: nat): string
  {
    WithSuffix(name, ".part" + DecimalString(i))
  }

  /** Different chunk indices of one file never share a part file. */
  lemma PartNameInjective(name: string, i: nat, j: nat)
    requires PartName(name, i) == PartName(name, j)
    ensures i == j
  {
    var stem := Stem(name);
    var a := ".part" + DecimalString(i);
    var b := ".part" + DecimalString(j);
    assert stem + a == stem + b;
    assert a == (stem + a)[|stem|..];
    assert DecimalString(i) == a[5..];
    assert DecimalString(j) == b[5..];
    DecimalStringInjective(i, j);
  }

  /** The part files ignore the extension: two files that differ only in their
      suffix write their chunks to the same part files. */
  lemma PartNameIgnoresSuffix(a: string, b: string, i: nat)
    requires Stem(a) == Stem(b)
    ensures PartName(a, i) == PartName(b, i)
  {
  }

  /** The worked case: two releases of one episode in different containers
      collide on their part files. */
  lemma PartNameCollisionExample()
    ensures "Show 01.mkv" != "Show 01.mp4"
    ensures PartName("Show 01.mkv", 0) == PartName("Show 01.mp4", 0) == "Show 01.part0"
  {
    LastIndexAt("Show 01.mkv", '.', 7);
    LastIndexAt("Show 01.mp4", '.', 7);
    assert Stem("Show 01.mkv") == "Show 01";
    assert Stem("Show 01.mp4") == "Show 01";
  }

  /** A name can be the part name of one of its own chunks: `Show 01.part1`
      writes chunk 1 to itself. */
  lemma PartNameSelfExample()
    ensures PartName("Show 01.part1", 1) == "Show 01.part1"
  {
    LastIndexAt("Show 01.part1", '.', 7);
    assert Stem("Show 01.part1") == "Show 01";
  }
}
