/** The subtitle text transforms: the fixed stutter and line-break fixes
    (apply_standard_replacements), the custom rules of replace.txt, and their
    whole-word application. */
module Subtitles {
  import opened Text

  // ---------------------------------------------------------------------------
  // The standard replacements

  /** The fixed replacement list, applied in this order. */
  const Standard: seq<(string, string)> := [
    ("Wh-wh", "W-Wh"), ("Wh-Wh", "W-Wh"), ("Th-th", "T-Th"), ("Th-Th", "T-Th"),
    ("A-a", "A-A"), ("B-b", "B-B"), ("C-c", "C-C"), ("D-d", "D-D"), ("E-e", "E-E"),
    ("F-f", "F-F"), ("G-g", "G-G"), ("H-h", "H-H"), ("I-i", "I-I"), ("J-j", "J-J"),
    ("K-k", "K-K"), ("L-l", "L-L"), ("M-m", "M-M"), ("N-n", "N-N"), ("O-o", "O-O"),
    ("P-p", "P-P"), ("Q-q", "Q-Q"), ("R-r", "R-R"), ("S-s", "S-S"), ("T-t", "T-T"),
    ("U-u", "U-U"), ("W-w", "W-W"), ("Y-y", "Y-Y"), ("Z-z", "Z-Z"),
    ("\\N", "\\N "), ("\\h", "\\h ")
  ]

  /** Each pair in turn replaces every occurrence of its pattern in the text
      produced by the pairs before it. */
  function ReplaceEach(text: string, pairs: seq<(string, string)>): string
    decreases |pairs|
  {
    if |pairs| == 0 then text
    else ReplaceEach(ReplaceAll(text, pairs[0].0, pairs[0].1), pairs[1..])
  }

  /** apply_standard_replacements. */
  function StandardFix(text: string): string
  {
    ReplaceEach(text, Standard)
  }

  /** Running two lists one after the other is running their concatenation. */
  lemma {:induction false} ReplaceEachAppend(text: string, a: seq<(string, string)>, b: seq<(string, string)>)
    ensures ReplaceEach(text, a + b) == ReplaceEach(ReplaceEach(text, a), b)
    decreases |a|
  {
    if |a| > 0 {
      assert (a + b)[1..] == a[1..] + b;
      ReplaceEachAppend(ReplaceAll(text, a[0].0, a[0].1), a[1..], b);
    } else {
      assert a + b == b;
    }
  }

  /** Text in which none of the patterns occurs comes back unchanged. */
  lemma {:induction false} ReplaceEachAbsent(text: string, pairs: seq<(string, string)>)
    requires forall i :: 0 <= i < |pairs| ==> |pairs[i].0| > 0 && !Contains(text, pairs[i].0)
    ensures ReplaceEach(text, pairs) == text
    decreases |pairs|
  {
    if |pairs| > 0 {
      ReplaceAllAbsent(text, pairs[0].0, pairs[0].1);
      ReplaceEachAbsent(text, pairs[1..]);
    }
  }

  /** Subtitle text that contains none of the listed patterns is left as it is. */
  lemma StandardFixAbsent(text: string)
    requires forall i :: 0 <= i < |Standard| ==> !Contains(text, Standard[i].0)
    ensures StandardFix(text) == text
  {
    StandardPatternsNonEmpty();
    ReplaceEachAbsent(text, Standard);
  }

  lemma StandardPatternsNonEmpty()
    ensures forall i :: 0 <= i < |Standard| ==> |Standard[i].0| > 0
  {
  }

  /** Every stutter pattern has a hyphen; the last two have a backslash. */
  lemma StandardShape()
    ensures |Standard| == 30
    ensures forall i :: 0 <= i < 28 ==> |Standard[i].0| > 0 && '-' in Standard[i].0
    ensures Standard[28] == ("\\N", "\\N ") && Standard[29] == ("\\h", "\\h ")
  {
  }

  /** Text without a hyphen passes the stutter fixes untouched. */
  lemma StutterSkipped(text: string)
    requires '-' !in text
    ensures ReplaceEach(text, Standard[..28]) == text
  {
    StandardShape();
    forall i | 0 <= i < 28 ensures !Contains(text, Standard[..28][i].0) {
      if Contains(text, Standard[i].0) {
        ContainsChar(text, Standard[i].0, '-');
      }
    }
    ReplaceEachAbsent(text, Standard[..28]);
  }

  /** The two backslash fixes on a text free of hyphens and of `h`. */
  lemma StandardFixNoHyphen(text: string)
    requires '-' !in text && 'h' !in text
    ensures StandardFix(text) == ReplaceAll(text, "\\N", "\\N ")
  {
    var tail := [("\\N", "\\N "), ("\\h", "\\h ")];
    assert Standard == Standard[..28] + tail;
    ReplaceEachAppend(text, Standard[..28], tail);
    StutterSkipped(text);
    var t := ReplaceAll(text, "\\N", "\\N ");
    assert ReplaceEach(text, tail) == ReplaceEach(t, tail[1..]);
    NoHAfterLineBreakFix(text);
    if Contains(t, "\\h") {
      ContainsChar(t, "\\h", 'h');
    }
    ReplaceAllAbsent(t, "\\h", "\\h ");
    assert ReplaceEach(t, tail[1..]) == ReplaceEach(t, []);
  }

  /** The line-break fix adds no `h`. */
  lemma {:induction false} NoHAfterLineBreakFix(text: string)
    requires 'h' !in text
    ensures 'h' !in ReplaceAll(text, "\\N", "\\N ")
    decreases |text|
  {
    if |text| > 0 {
      if IsPrefix("\\N", text) {
        NoHAfterLineBreakFix(text[2..]);
      } else {
        NoHAfterLineBreakFix(text[1..]);
      }
    }
  }

  /** A `\N` followed only by spaces. */
  predicate LineBreakThenSpaces(text: string)
  {
    |text| >= 2 && text[0] == '\\' && text[1] == 'N' && forall k :: 2 <= k < |text| ==> text[k] == ' '
  }

  lemma LineBreakHasNoHyphen(text: string)
    requires LineBreakThenSpaces(text)
    ensures '-' !in text && 'h' !in text
  {
    forall k | 0 <= k < |text| ensures text[k] != '-' && text[k] != 'h' {
    }
  }

  /** The line-break fix on such a text inserts one space after the `\N`. */
  lemma LineBreakFixed(text: string)
    requires LineBreakThenSpaces(text)
    ensures ReplaceAll(text, "\\N", "\\N ") == "\\N " + text[2..]
  {
    var rest := text[2..];
    assert '\\' !in rest by {
      forall k | 0 <= k < |rest| ensures rest[k] != '\\' {
        assert rest[k] == text[k + 2];
      }
    }
    assert text == "\\N" + rest;
    ReplaceAllAtFront("\\N", rest, "\\N ");
    if Contains(rest, "\\N") {
      ContainsChar(rest, "\\N", '\\');
    }
    ReplaceAllAbsent(rest, "\\N", "\\N ");
  }

  /** One pass of the standard fixes over a `\N` followed by spaces adds one space. */
  lemma StandardFixLineBreak(text: string)
    requires LineBreakThenSpaces(text)
    ensures StandardFix(text) == "\\N " + text[2..]
    ensures text[..2] == "\\N" && |StandardFix(text)| == |text| + 1
  {
    LineBreakHasNoHyphen(text);
    StandardFixNoHyphen(text);
    LineBreakFixed(text);
    LineBreakHead(text);
  }

  lemma LineBreakHead(text: string)
    requires LineBreakThenSpaces(text)
    ensures text[..2] == "\\N" && |"\\N " + text[2..]| == |text| + 1
  {
  }

  /** Adding a space after the `\N` keeps the shape. */
  lemma LineBreakGrows(s: string)
    requires LineBreakThenSpaces(s)
    ensures LineBreakThenSpaces(s[..2] + " " + s[2..])
  {
    var t := s[..2] + " " + s[2..];
    forall k | 2 <= k < |t| ensures t[k] == ' ' {
      if k > 2 {
        assert t[k] == s[k - 1];
      }
    }
  }

  /** The standard fixes are not idempotent: on a `\N` line break (followed
      by any number of spaces) the first application adds a space, and the
      second application changes its result again. */
  lemma StandardFixNotIdempotent(s: string)
    requires LineBreakThenSpaces(s)
    ensures StandardFix(s) == s[..2] + " " + s[2..]
    ensures StandardFix(s[..2] + " " + s[2..]) != s[..2] + " " + s[2..]
  {
    StandardFixLineBreak(s);
    var u := s[..2] + " " + s[2..];
    LineBreakSpaced(s);
    LineBreakGrows(s);
    StandardFixLineBreak(u);
  }

  lemma LineBreakSpaced(s: string)
    requires LineBreakThenSpaces(s)
    ensures "\\N " + s[2..] == s[..2] + " " + s[2..]
  {
    LineBreakHead(s);
  }

  // ---------------------------------------------------------------------------
  // The custom rules of replace.txt

  /** A dict with insertion order: key/value pairs, keys distinct. */
  type Rules = seq<(string, string)>

  predicate DistinctKeys(d: Rules)
  {
    forall i, j :: 0 <= i < j < |d| ==> d[i].0 != d[j].0
  }

  function Keys(d: Rules): seq<string>
  {
    seq(|d|, i requires 0 <= i < |d| => d[i].0)
  }

  /** The position of key `k`, or -1. */
  function Find(d: Rules, k: string): (i: int)
    ensures -1 <= i < |d|
    ensures i >= 0 ==> d[i].0 == k
    ensures i == -1 ==> forall j :: 0 <= j < |d| ==> d[j].0 != k
    ensures DistinctKeys(d) && i >= 0 ==> forall j :: 0 <= j < |d| && j != i ==> d[j].0 != k
  {
    if |d| == 0 then -1
    else if d[|d| - 1].0 == k then |d| - 1
    else Find(d[..|d| - 1], k)
  }

  /** `d.get(k)`. */
  function Lookup(d: Rules, k: string): Option<string>
  {
    var i := Find(d, k);
    if i == -1 then None else Some(d[i].1)
  }

  /** `d[k] = v`: a new key goes at the end, an existing key keeps its place
      and takes the new value. */
  function Insert(d: Rules, k: string, v: string): (r: Rules)
    requires DistinctKeys(d)
  {
    var i := Find(d, k);
    if i == -1 then d + [(k, v)] else d[i := (k, v)]
  }

  /** Insertion keeps the keys distinct and in their order, appends a new key,
      binds the key to the new value and leaves every other binding alone. */
  lemma InsertSpec(d: Rules, k: string, v: string)
    requires DistinctKeys(d)
    ensures var r := Insert(d, k, v);
      DistinctKeys(r)
      && Keys(r) == (if k in Keys(d) then Keys(d) else Keys(d) + [k])
      && Lookup(r, k) == Some(v)
      && forall k' :: k' != k ==> Lookup(r, k') == Lookup(d, k')
  {
    var r := Insert(d, k, v);
    var i := Find(d, k);
    assert k in Keys(d) <==> i != -1 by {
      if k in Keys(d) {
        var j :| 0 <= j < |d| && Keys(d)[j] == k;
        assert d[j].0 == k;
      }
      if i != -1 {
        assert Keys(d)[i] == k;
      }
    }
    if i == -1 {
      assert forall j :: 0 <= j < |d| ==> r[j] == d[j];
      assert Keys(r) == Keys(d) + [k];
    } else {
      assert forall j :: 0 <= j < |d| && j != i ==> r[j] == d[j];
      assert Keys(r) == Keys(d);
    }
    forall k' | k' != k ensures Lookup(r, k') == Lookup(d, k') {
      var a := Find(r, k');
      var b := Find(d, k');
      if a != -1 {
        assert r[a] == d[a];
      }
      if b != -1 {
        assert r[b] == d[b];
      }
    }
  }

  /** `dict(line.strip().split('|') for line in lines if '|' in line)`: None
      when a line with a bar does not split into exactly two fields (dict()
      raises). */
  function ParseRules(lines: seq<string>): (r: Option<Rules>)
    ensures r.Some? ==> DistinctKeys(r.value)
  {
    if |lines| == 0 then Some([])
    else
      var r := ParseRules(lines[..|lines| - 1]);
      var line := lines[|lines| - 1];
      if r.None? || '|' !in line then r
      else
        var f := Split(Strip(line), '|');
        if |f| != 2 then None
        else
          InsertSpec(r.value, f[0], f[1]);
          Some(Insert(r.value, f[0], f[1]))
  }

  /** A line of replace.txt that makes dict() raise. */
  predicate BadRule(line: string)
  {
    '|' in line && |Split(Strip(line), '|')| != 2
  }

  lemma ParseRulesStep(lines: seq<string>)
    requires |lines| > 0
    ensures ParseRules(lines).None?
        <==> ParseRules(lines[..|lines| - 1]).None? || BadRule(lines[|lines| - 1])
  {
  }

  /** Some line is bad exactly when some line before the last is or the last is. */
  lemma SomeLineSplit(lines: seq<string>, front: seq<string>, bad: string -> bool)
    requires |lines| > 0 && front == lines[..|lines| - 1]
    ensures (exists i :: 0 <= i < |lines| && bad(lines[i]))
        <==> (exists i :: 0 <= i < |front| && bad(front[i])) || bad(lines[|lines| - 1])
  {
    if exists i :: 0 <= i < |lines| && bad(lines[i]) {
      var i :| 0 <= i < |lines| && bad(lines[i]);
      if i < |front| {
        assert bad(front[i]);
      }
    }
    if exists i :: 0 <= i < |front| && bad(front[i]) {
      var i :| 0 <= i < |front| && bad(front[i]);
      assert lines[i] == front[i];
    }
  }

  /** Parsing fails exactly when some line with a bar has other than two fields. */
  lemma {:induction false} ParseRulesFails(lines: seq<string>)
    ensures ParseRules(lines).None? <==> exists i :: 0 <= i < |lines| && BadRule(lines[i])
  {
    if |lines| > 0 {
      ParseRulesFails(lines[..|lines| - 1]);
      ParseRulesStep(lines);
      SomeLineSplit(lines, lines[..|lines| - 1], BadRule);
    }
  }

  /** A rule line after lines that parse binds its key to its value. */
  lemma ParseRulesRule(lines: seq<string>, line: string, k: string, v: string)
    requires ParseRules(lines).Some?
    requires '|' in line && Split(Strip(line), '|') == [k, v]
    ensures ParseRules(lines + [line]) == Some(Insert(ParseRules(lines).value, k, v))
  {
    assert (lines + [line])[..|lines|] == lines;
  }

  /** Two rule lines for the same key: the later value is used, and the key
      keeps the place the first line gave it. */
  lemma LaterRuleWins(lines: seq<string>, l1: string, l2: string, k: string, v1: string, v2: string)
    requires ParseRules(lines).Some?
    requires '|' in l1 && Split(Strip(l1), '|') == [k, v1]
    requires '|' in l2 && Split(Strip(l2), '|') == [k, v2]
    ensures var r := ParseRules(lines + [l1] + [l2]);
      r.Some? && Lookup(r.value, k) == Some(v2)
      && Keys(r.value) == Keys(ParseRules(lines + [l1]).value)
  {
    var d0 := ParseRules(lines).value;
    ParseRulesRule(lines, l1, k, v1);
    InsertSpec(d0, k, v1);
    var d1 := Insert(d0, k, v1);
    ParseRulesRule(lines + [l1], l2, k, v2);
    InsertSpec(d1, k, v2);
  }

  /** A line `key|value` without bars in key or value, with nothing to strip,
      is a rule binding the key to the value. */
  lemma RuleLine(k: string, v: string)
    requires '|' !in k && '|' !in v
    ensures Split(k + "|" + v, '|') == [k, v]
    ensures '|' in k + "|" + v
  {
    assert [k, v][1..] == [v];
    assert k + "|" + v == Join([k, v], '|');
    SplitJoin([k, v], '|');
    assert (k + "|" + v)[|k|] == '|';
  }

  // ---------------------------------------------------------------------------
  // Whole-word substitution: re.sub(r'\b' + re.escape(key) + r'\b', rep, text)

  /** Index `j` holds a word character (out of range counts as non-word). */
  predicate WordAt(s: string, j: int, isWord: char -> bool)
  {
    0 <= j < |s| && isWord(s[j])
  }

  /** `\b` at position `p`: a word character on exactly one side. */
  predicate Boundary(s: string, p: int, isWord: char -> bool)
  {
    WordAt(s, p - 1, isWord) != WordAt(s, p, isWord)
  }

  /** The whole-word pattern matches at `i`. */
  predicate WordMatchAt(s: string, key: string, i: nat, isWord: char -> bool)
  {
    i + |key| <= |s| && s[i..i + |key|] == key && Boundary(s, i, isWord) && Boundary(s, i + |key|, isWord)
  }

  /** The substitution of the text from index `i` on, scanning left to right
      with non-overlapping matches; boundaries are judged on the whole text. An
      empty key matches at every boundary. */
  function WordSubFrom(s: string, key: string, rep: string, isWord: char -> bool, i: nat): string
    requires i <= |s|
    decreases |s| - i
  {
    if |key| == 0 then
      (if Boundary(s, i, isWord) then rep else "") + (if i == |s| then "" else [s[i]] + WordSubFrom(s, key, rep, isWord, i + 1))
    else if WordMatchAt(s, key, i, isWord) then rep + WordSubFrom(s, key, rep, isWord, i + |key|)
    else if i == |s| then ""
    else [s[i]] + WordSubFrom(s, key, rep, isWord, i + 1)
  }

  function WordSub(s: string, key: string, rep: string, isWord: char -> bool): string
  {
    WordSubFrom(s, key, rep, isWord, 0)
  }

  /** Without a whole-word occurrence, the text is unchanged. */
  lemma {:induction false} WordSubNoMatch(s: string, key: string, rep: string, isWord: char -> bool, i: nat)
    requires i <= |s| && |key| > 0
    requires forall j: nat :: i <= j <= |s| ==> !WordMatchAt(s, key, j, isWord)
    ensures WordSubFrom(s, key, rep, isWord, i) == s[i..]
    decreases |s| - i
  {
    if i < |s| {
      WordSubNoMatch(s, key, rep, isWord, i + 1);
      assert [s[i]] + s[i + 1..] == s[i..];
    }
  }

  /** A key that starts with a word character is not replaced where it sits
      inside a longer word: the text is unchanged when every occurrence follows
      a word character. */
  lemma InsideWordKept(s: string, key: string, rep: string, isWord: char -> bool)
    requires |key| > 0 && isWord(key[0])
    requires forall j :: OccursAt(s, key, j) ==> WordAt(s, j - 1, isWord)
    ensures WordSub(s, key, rep, isWord) == s
  {
    forall j: nat | j <= |s| ensures !WordMatchAt(s, key, j, isWord) {
      if j + |key| <= |s| && s[j..j + |key|] == key {
        assert OccursAt(s, key, j);
        assert s[j] == key[0];
      }
    }
    WordSubNoMatch(s, key, rep, isWord, 0);
  }

  /** A whole word equal to the key is replaced. */
  lemma WholeWordReplaced(key: string, rep: string, isWord: char -> bool)
    requires |key| > 0 && isWord(key[0]) && isWord(key[|key| - 1])
    ensures WordSub(key, key, rep, isWord) == rep
  {
    assert key[0..|key|] == key;
    assert !WordAt(key, -1, isWord) && WordAt(key, 0, isWord);
    assert WordAt(key, |key| - 1, isWord) && !WordAt(key, |key|, isWord);
    assert WordMatchAt(key, key, 0, isWord);
    assert WordSubFrom(key, key, rep, isWord, |key|) == "";
  }

  /** The first whole-word occurrence from `from` on is replaced, the text
      before it is copied, and the scan goes on after the occurrence. */
  lemma {:induction false} WordSubFromFirst(s: string, key: string, rep: string, isWord: char -> bool,
                                            from: nat, i: nat)
    requires |key| > 0 && from <= i && WordMatchAt(s, key, i, isWord)
    requires forall j: nat :: from <= j < i ==> !WordMatchAt(s, key, j, isWord)
    ensures WordSubFrom(s, key, rep, isWord, from) == s[from..i] + rep + WordSubFrom(s, key, rep, isWord, i + |key|)
    decreases i - from
  {
    var after := WordSubFrom(s, key, rep, isWord, i + |key|);
    if from == i {
      WordSubHit(s, key, rep, isWord, i);
      assert s[from..i] == [];
    } else {
      calc {
        WordSubFrom(s, key, rep, isWord, from);
        { WordSubSkip(s, key, rep, isWord, from); }
        [s[from]] + WordSubFrom(s, key, rep, isWord, from + 1);
        { WordSubFromFirst(s, key, rep, isWord, from + 1, i); }
        [s[from]] + (s[from + 1..i] + rep + after);
        { CopySplice(s, from, i, rep + after); }
        s[from..i] + rep + after;
      }
    }
  }

  /** A whole-word occurrence at `i` is replaced. */
  lemma WordSubHit(s: string, key: string, rep: string, isWord: char -> bool, i: nat)
    requires |key| > 0 && WordMatchAt(s, key, i, isWord)
    ensures WordSubFrom(s, key, rep, isWord, i) == rep + WordSubFrom(s, key, rep, isWord, i + |key|)
  {
  }

  /** Where no whole-word occurrence starts, the character is copied. */
  lemma WordSubSkip(s: string, key: string, rep: string, isWord: char -> bool, i: nat)
    requires |key| > 0 && i < |s| && !WordMatchAt(s, key, i, isWord)
    ensures WordSubFrom(s, key, rep, isWord, i) == [s[i]] + WordSubFrom(s, key, rep, isWord, i + 1)
  {
  }

  /** Copying one character and then the slice after it copies the slice. */
  lemma CopySplice(s: string, from: nat, i: nat, rest: string)
    requires from < i <= |s|
    ensures [s[from]] + (s[from + 1..i] + rest) == s[from..i] + rest
  {
    assert [s[from]] + s[from + 1..i] == s[from..i];
  }

  /** The first whole-word occurrence of a non-empty key is replaced, the text
      before it is kept, and substitution goes on after it. */
  lemma WordSubFirst(s: string, key: string, rep: string, isWord: char -> bool, i: nat)
    requires |key| > 0 && WordMatchAt(s, key, i, isWord)
    requires forall j: nat :: j < i ==> !WordMatchAt(s, key, j, isWord)
    ensures WordSub(s, key, rep, isWord) == s[..i] + rep + WordSubFrom(s, key, rep, isWord, i + |key|)
  {
    WordSubFromFirst(s, key, rep, isWord, 0, i);
  }

  /** A text with exactly one whole-word occurrence of the key, at `i`, gets
      just that occurrence replaced. */
  lemma WordSubOnly(s: string, key: string, rep: string, isWord: char -> bool, i: nat)
    requires |key| > 0 && WordMatchAt(s, key, i, isWord)
    requires forall j: nat :: j <= |s| && j != i ==> !WordMatchAt(s, key, j, isWord)
    ensures WordSub(s, key, rep, isWord) == s[..i] + rep + s[i + |key|..]
  {
    WordSubFirst(s, key, rep, isWord, i);
    WordSubNoMatch(s, key, rep, isWord, i + |key|);
  }

  /** The rules applied one after the other, in the dict's order. */
  function ApplyRules(text: string, rules: Rules, isWord: char -> bool): string
    decreases |rules|
  {
    if |rules| == 0 then text
    else ApplyRules(WordSub(text, rules[0].0, rules[0].1, isWord), rules[1..], isWord)
  }

  /** Rules none of whose keys occurs as a whole word leave the text unchanged. */
  lemma {:induction false} ApplyRulesNoMatch(text: string, rules: Rules, isWord: char -> bool)
    requires forall r :: 0 <= r < |rules| ==> |rules[r].0| > 0
    requires forall r, j: nat :: 0 <= r < |rules| && j <= |text| ==> !WordMatchAt(text, rules[r].0, j, isWord)
    ensures ApplyRules(text, rules, isWord) == text
  {
    if |rules| > 0 {
      WordSubNoMatch(text, rules[0].0, rules[0].1, isWord, 0);
      assert text[0..] == text;
      ApplyRulesNoMatch(text, rules[1..], isWord);
    }
  }

  /** The whole text transform of process_subtitles: the standard fixes, then
      the custom rules. */
  function Transform(text: string, rules: Rules, isWord: char -> bool): string
  {
    ApplyRules(StandardFix(text), rules, isWord)
  }
}
