/** The episode pattern of move_files,
    `\s(\d{2})(\s(\(.*?\)|\[.*?\])).*(\..*)|\s(\d{2})(\..*)`, searched in a
    file name: the episode number and the extension it yields. */
module Episode {
  import opened Text

  // ---------------------------------------------------------------------------
  // Scanning within one line (`.` matches anything but a newline)

  /** The end of the line that index `i` is on: the first newline at or after
      `i`, or the end of the string. */
  function LineEnd(s: string, i: nat): (e: nat)
    requires i <= |s|
    ensures i <= e <= |s|
    ensures e == |s| || s[e] == '\n'
    ensures forall k :: i <= k < e ==> s[k] != '\n'
    decreases |s| - i
  {
    if i == |s| || s[i] == '\n' then i else LineEnd(s, i + 1)
  }

  /** The first `c` at or after `i` on the same line, or -1: what a lazy `.*?`
      followed by `c` settles on. */
  function FirstOnLine(s: string, i: nat, c: char): (k: int)
    requires i <= |s| && c != '\n'
    ensures k == -1 || (i <= k < LineEnd(s, i) && s[k] == c)
    ensures forall j :: i <= j < (if k == -1 then LineEnd(s, i) else k) ==> s[j] != c
    decreases |s| - i
  {
    if i == |s| || s[i] == '\n' then -1
    else if s[i] == c then i
    else FirstOnLine(s, i + 1, c)
  }

  /** The last `c` at or after `i` on the same line, or -1: where a greedy
      `.*` followed by `c` backs off to. */
  function LastOnLine(s: string, i: nat, c: char): (k: int)
    requires i <= |s| && c != '\n'
    ensures k == -1 || (i <= k < LineEnd(s, i) && s[k] == c)
    ensures forall j :: (if k == -1 then i else k + 1) <= j < LineEnd(s, i) ==> s[j] != c
    decreases |s| - i
  {
    if i == |s| || s[i] == '\n' then -1
    else
      var k := LastOnLine(s, i + 1, c);
      if k != -1 then k else if s[i] == c then i else -1
  }

  /** Within one line, the line end seen from any later index is the same. */
  lemma {:induction false} LineEndSame(s: string, i: nat, j: nat)
    requires i <= |s| && i <= j <= LineEnd(s, i)
    ensures LineEnd(s, j) == LineEnd(s, i)
    decreases j - i
  {
    if i < j {
      LineEndSame(s, i + 1, j);
    }
  }

  // ---------------------------------------------------------------------------
  // The two alternatives

  /** The closing bracket of an annotation. */
  function Closer(open: char): char
  {
    if open == '(' then ')' else ']'
  }

  /** `\s\d\d` at `p`. */
  predicate NumberAt(s: string, p: nat)
  {
    p + 3 <= |s| && IsSpace(s[p]) && IsDigit(s[p + 1]) && IsDigit(s[p + 2])
  }

  /** The first alternative at `p`: space, two digits, space, a `(…)` or `[…]`
      annotation closed on the same line, then a dot somewhere after it on that
      line. The lazy annotation stops at its first closer; the greedy `.*`
      backs off to the last dot of the line. Result: groups 1 and 4. */
  function Alt1(s: string, p: nat): Option<(string, string)>
  {
    if NumberAt(s, p) && p + 5 <= |s| && IsSpace(s[p + 3]) && (s[p + 4] == '(' || s[p + 4] == '[') then
      var c := FirstOnLine(s, p + 5, Closer(s[p + 4]));
      if c == -1 then None
      else
        var ext := LastDotToEnd(s, c + 1);
        if ext.None? then None else Some((s[p + 1..p + 3], ext.value))
    else None
  }

  /** `.*(\..*)` from index `i`: the greedy `.*` backs off to the last dot of
      the line, and the group runs from there to the end of the line. */
  function LastDotToEnd(s: string, i: nat): Option<string>
    requires i <= |s|
  {
    var q := LastOnLine(s, i, '.');
    if q == -1 then None else Some(s[q..LineEnd(s, q)])
  }

  /** The second alternative at `p`: space, two digits, a dot, then the rest
      of the line. Result: groups 5 and 6. */
  function Alt2(s: string, p: nat): Option<(string, string)>
  {
    if NumberAt(s, p) && p + 4 <= |s| && s[p + 3] == '.' then
      Some((s[p + 1..p + 3], s[p + 3..LineEnd(s, p + 3)]))
    else None
  }

  /** A match starting at `p`: the first alternative is tried first. */
  function MatchAt(s: string, p: nat): Option<(string, string)>
  {
    if Alt1(s, p).Some? then Alt1(s, p) else Alt2(s, p)
  }

  /** The first `j` in `[p, n)` for which `hit(j)` holds, or -1. */
  function FirstHit(hit: nat -> bool, p: nat, n: nat): (k: int)
    requires p <= n
    ensures k == -1 || (p <= k < n && hit(k))
    decreases n - p
  {
    if p == n then -1
    else if hit(p) then p
    else FirstHit(hit, p + 1, n)
  }

  /** re.search: the leftmost start position at or after `p` where the pattern
      matches, or -1. */
  function SearchFrom(s: string, p: nat): (k: int)
    requires p <= |s|
    ensures k == -1 || (p <= k < |s| && MatchAt(s, k).Some?)
  {
    FirstHit((j: nat) => MatchAt(s, j).Some?, p, |s|)
  }

  /** The episode number and extension of a file name (`ep_num`, `ext`), or
      None when the pattern does not match. */
  function EpisodeOf(name: string): Option<(string, string)>
  {
    var k := SearchFrom(name, 0);
    if k == -1 then None else MatchAt(name, k)
  }

  // ---------------------------------------------------------------------------
  // What a match promises

  /** The first hit is the leftmost one, and there is none only when no
      index in range hits. */
  lemma {:induction false} FirstHitLeftmost(hit: nat -> bool, p: nat, n: nat)
    requires p <= n
    ensures var k := FirstHit(hit, p, n);
      (k == -1 <==> forall j: nat :: p <= j < n ==> !hit(j))
      && (k != -1 ==> forall j: nat :: p <= j < k ==> !hit(j))
    decreases n - p
  {
    if p < n && !hit(p) {
      FirstHitLeftmost(hit, p + 1, n);
    }
  }

  /** The search returns the leftmost match position, and finds one whenever
      there is one. */
  lemma SearchLeftmost(s: string, p: nat)
    requires p <= |s|
    ensures var k := SearchFrom(s, p);
      (k == -1 <==> forall j: nat :: p <= j < |s| ==> MatchAt(s, j).None?)
      && (k != -1 ==> forall j: nat :: p <= j < k ==> MatchAt(s, j).None?)
  {
    var hit := (j: nat) => MatchAt(s, j).Some?;
    FirstHitLeftmost(hit, p, |s|);
    assert forall j: nat :: hit(j) <==> MatchAt(s, j).Some?;
  }

  /** Any match yields a two-digit episode number and an extension that starts
      with a dot and stays on one line; the first alternative's extension holds
      no further dot. */
  lemma MatchShape(s: string, p: nat)
    requires MatchAt(s, p).Some?
    ensures var (ep, ext) := MatchAt(s, p).value;
      |ep| == 2 && AllDigits(ep) && |ext| >= 1 && ext[0] == '.' && '\n' !in ext
    ensures Alt1(s, p).Some? ==> '.' !in Alt1(s, p).value.1[1..]
  {
    NumberDigits(s, p);
    if Alt1(s, p).Some? {
      Alt1Extension(s, p);
    } else {
      LineTail(s, p + 3);
    }
  }

  /** The two digits after the space of `\s\d\d`. */
  lemma NumberDigits(s: string, p: nat)
    requires NumberAt(s, p)
    ensures |s[p + 1..p + 3]| == 2 && AllDigits(s[p + 1..p + 3])
  {
  }

  /** From a dot to the end of its line: starts with the dot, holds no newline. */
  lemma LineTail(s: string, q: nat)
    requires q < |s| && s[q] == '.'
    ensures var ext := s[q..LineEnd(s, q)];
      |ext| >= 1 && ext[0] == '.' && '\n' !in ext
  {
    var ext := s[q..LineEnd(s, q)];
    assert forall j :: 0 <= j < |ext| ==> ext[j] == s[q + j];
  }

  /** The first alternative's extension runs from the last dot of the line to
      its end, so it holds no further dot. */
  lemma Alt1Extension(s: string, p: nat)
    requires Alt1(s, p).Some?
    ensures LastDotExtension(Alt1(s, p).value.1)
  {
    LastDotTail(s, FirstOnLine(s, p + 5, Closer(s[p + 4])) + 1);
  }

  /** A dot, then the rest of a line without a further dot. */
  predicate LastDotExtension(ext: string)
  {
    |ext| >= 1 && ext[0] == '.' && '\n' !in ext && '.' !in ext[1..]
  }

  /** From the last dot of a line to its end: one dot, then no dot and no newline. */
  lemma LastDotTail(s: string, i: nat)
    requires i <= |s| && LastDotToEnd(s, i).Some?
    ensures LastDotExtension(LastDotToEnd(s, i).value)
  {
    var q := LastOnLine(s, i, '.');
    LineEndSame(s, i, q);
    LineTail(s, q);
    var e := LineEnd(s, q);
    CharAbsent(s, q + 1, e, '.');
    assert s[q..e][1..] == s[q + 1..e];
  }

  lemma CharAbsent(s: string, lo: nat, hi: nat, c: char)
    requires lo <= hi <= |s|
    requires forall j :: lo <= j < hi ==> s[j] != c
    ensures c !in s[lo..hi]
  {
  }

  /** The episode pattern holds exactly when a match exists somewhere, and
      then it is the leftmost one and has the shape of MatchShape. */
  lemma EpisodeOfSpec(name: string)
    ensures EpisodeOf(name).Some? <==> exists p: nat :: p < |name| && MatchAt(name, p).Some?
    ensures EpisodeOf(name).Some? ==>
      var (ep, ext) := EpisodeOf(name).value;
      |ep| == 2 && AllDigits(ep) && |ext| >= 1 && ext[0] == '.'
  {
    SearchLeftmost(name, 0);
    var k := SearchFrom(name, 0);
    if k != -1 {
      MatchShape(name, k);
    }
  }

  // ---------------------------------------------------------------------------
  // Worked cases

  lemma {:induction false} LineEndNoNewline(s: string, i: nat)
    requires i <= |s| && forall k :: i <= k < |s| ==> s[k] != '\n'
    ensures LineEnd(s, i) == |s|
    decreases |s| - i
  {
    if i < |s| {
      LineEndNoNewline(s, i + 1);
    }
  }

  lemma {:induction false} FirstOnLineAt(s: string, i: nat, c: char, k: nat)
    requires i <= k < |s| && c != '\n' && s[k] == c
    requires forall j :: i <= j < k ==> s[j] != c && s[j] != '\n'
    ensures FirstOnLine(s, i, c) == k
    decreases k - i
  {
    if i < k {
      FirstOnLineAt(s, i + 1, c, k);
    }
  }

  lemma {:induction false} LastOnLineAt(s: string, i: nat, c: char, k: nat)
    requires i <= k < |s| && c != '\n' && s[k] == c
    requires forall j :: i <= j < |s| ==> s[j] != '\n'
    requires forall j :: k < j < |s| ==> s[j] != c
    ensures LastOnLine(s, i, c) == k
    decreases |s| - i
  {
    if i < k {
      LastOnLineAt(s, i + 1, c, k);
    } else {
      LastOnLineNone(s, i + 1, c);
    }
  }

  lemma {:induction false} LastOnLineNone(s: string, i: nat, c: char)
    requires i <= |s| && c != '\n'
    requires forall j :: i <= j < |s| ==> s[j] != c
    ensures LastOnLine(s, i, c) == -1
    decreases |s| - i
  {
    if i < |s| && s[i] != '\n' {
      LastOnLineNone(s, i + 1, c);
    }
  }

  /** A match at `p` with none before it is the one the search reports. */
  lemma LeftmostMatch(s: string, p: nat)
    requires p < |s| && MatchAt(s, p).Some?
    requires forall j: nat :: j < p ==> MatchAt(s, j).None?
    ensures EpisodeOf(s) == MatchAt(s, p)
  {
    SearchLeftmost(s, 0);
    var k := SearchFrom(s, 0);
    assert k != -1;
    assert !(k < p);
    assert !(p < k);
  }

  /** A release name with an annotation after the episode number: the first
      alternative gives episode "01" and extension ".mkv". */
  lemma AnnotatedExample(s: string)
    requires s == "[GroupA] Show 01 (WEB).mkv"
    ensures EpisodeOf(s) == Some(("01", ".mkv"))
  {
    AnnotatedNoEarlier(s);
    AnnotatedAt13(s);
    LeftmostMatch(s, 13);
  }

  lemma AnnotatedNoEarlier(s: string)
    requires s == "[GroupA] Show 01 (WEB).mkv"
    ensures forall j: nat :: j < 13 ==> MatchAt(s, j).None?
  {
    forall j: nat | j < 13 ensures MatchAt(s, j).None? {
      assert !NumberAt(s, j);
    }
  }

  lemma AnnotatedAt13(s: string)
    requires s == "[GroupA] Show 01 (WEB).mkv"
    ensures |s| == 26 && MatchAt(s, 13) == Some(("01", ".mkv"))
  {
    assert |s| == 26;
    FirstOnLineAt(s, 18, ')', 21);
    AnnotatedExtension(s);
    assert NumberAt(s, 13) && IsSpace(s[16]) && s[17] == '(';
    assert s[14..16] == "01";
    assert Alt1(s, 13) == Some(("01", ".mkv"));
  }

  lemma AnnotatedExtension(s: string)
    requires s == "[GroupA] Show 01 (WEB).mkv"
    ensures LastDotToEnd(s, 22) == Some(".mkv")
  {
    LastOnLineAt(s, 22, '.', 22);
    LineEndNoNewline(s, 22);
    assert s[22..26] == ".mkv";
  }

  /** A plain name: the second alternative gives episode "07" and extension ".mp4". */
  lemma PlainExample(s: string)
    requires s == "Show 07.mp4"
    ensures EpisodeOf(s) == Some(("07", ".mp4"))
  {
    PlainNoEarlier(s);
    PlainAt4(s);
    LeftmostMatch(s, 4);
  }

  lemma PlainNoEarlier(s: string)
    requires s == "Show 07.mp4"
    ensures forall j: nat :: j < 4 ==> MatchAt(s, j).None?
  {
    forall j: nat | j < 4 ensures MatchAt(s, j).None? {
      assert !NumberAt(s, j);
    }
  }

  lemma PlainAt4(s: string)
    requires s == "Show 07.mp4"
    ensures |s| == 11 && MatchAt(s, 4) == Some(("07", ".mp4"))
  {
    assert |s| == 11;
    assert Alt1(s, 4).None?;
    LineEndNoNewline(s, 7);
    assert NumberAt(s, 4) && s[7] == '.';
    assert s[5..7] == "07";
    assert s[7..11] == ".mp4";
    assert Alt2(s, 4) == Some(("07", ".mp4"));
  }

  /** A name without a space before two digits does not match: the file stays
      where it is. */
  lemma NoEpisodeExample(s: string)
    requires s == "Show-01.mkv"
    ensures EpisodeOf(s).None?
  {
    forall j: nat | j < |s| ensures MatchAt(s, j).None? {
      assert !NumberAt(s, j);
    }
    SearchLeftmost(s, 0);
  }
}
