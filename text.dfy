/** The Python string operations the downloader relies on (str.isspace, str.strip,
    str.split, `in`, str.replace, str.zfill and str(int)), over Dafny strings. */
module Text {

  datatype Option<T> = None | Some(value: T)

  /** The characters for which Python's str.isspace() holds; these are also what
      the regular-expression class `\s` matches in a str pattern. */
  predicate IsSpace(c: char)
  {
    ('\t' <= c <= '\r') || ('\U{1C}' <= c <= '\U{1F}') || c == ' ' ||
    c == '\U{85}' || c == '\U{A0}' || c == '\U{1680}' ||
    ('\U{2000}' <= c <= '\U{200A}') || c == '\U{2028}' || c == '\U{2029}' ||
    c == '\U{202F}' || c == '\U{205F}' || c == '\U{3000}'
  }

  /** An ASCII decimal digit. */
  predicate IsDigit(c: char)
  {
    '0' <= c <= '9'
  }

  predicate AllDigits(s: string)
  {
    forall k :: 0 <= k < |s| ==> IsDigit(s[k])
  }

  // ---------------------------------------------------------------------------
  // Whitespace stripping (str.strip with no argument)

  /** str.lstrip(): drop the leading whitespace. */
  function TrimStart(s: string): (r: string)
    ensures |r| <= |s| && r == s[|s| - |r|..]
    ensures |r| == 0 || !IsSpace(r[0])
    ensures forall k :: 0 <= k < |s| - |r| ==> IsSpace(s[k])
  {
    if |s| > 0 && IsSpace(s[0]) then TrimStart(s[1..]) else s
  }

  /** str.rstrip(): drop the trailing whitespace. */
  function TrimEnd(s: string): (r: string)
    ensures |r| <= |s| && r == s[..|r|]
    ensures |r| == 0 || !IsSpace(r[|r| - 1])
    ensures forall k :: |r| <= k < |s| ==> IsSpace(s[k])
  {
    if |s| > 0 && IsSpace(s[|s| - 1]) then TrimEnd(s[..|s| - 1]) else s
  }

  /** str.strip(). */
  function Strip(s: string): (r: string)
  {
    TrimEnd(TrimStart(s))
  }

  /** `r` sits in `s` at index `lo` with only whitespace around it, and does
      not itself start or end with whitespace. */
  ghost predicate StrippedAt(s: string, r: string, lo: int)
  {
    0 <= lo && lo + |r| <= |s| && s[lo..lo + |r|] == r
    && (forall k :: 0 <= k < lo ==> IsSpace(s[k]))
    && (forall k :: lo + |r| <= k < |s| ==> IsSpace(s[k]))
    && (|r| == 0 || (!IsSpace(r[0]) && !IsSpace(r[|r| - 1])))
  }

  /** What strip removes is whitespace on both ends, what it keeps is a
      contiguous piece of the input, and the piece neither starts nor ends with
      whitespace. */
  lemma StripShape(s: string)
    ensures exists lo :: StrippedAt(s, Strip(s), lo)
  {
    var t := TrimStart(s);
    var lo := |s| - |t|;
    TrimmedBoth(s, t, TrimEnd(t), lo);
    assert StrippedAt(s, Strip(s), lo);
  }

  /** Trimming the front at `lo` and then the back leaves a stripped piece. */
  lemma TrimmedBoth(s: string, t: string, r: string, lo: int)
    requires 0 <= lo <= |s| && t == s[lo..] && |r| <= |t| && r == t[..|r|]
    requires forall k :: 0 <= k < lo ==> IsSpace(s[k])
    requires forall k :: |r| <= k < |t| ==> IsSpace(t[k])
    requires |t| == 0 || !IsSpace(t[0])
    requires |r| == 0 || !IsSpace(r[|r| - 1])
    ensures StrippedAt(s, r, lo)
  {
    assert s[lo..lo + |r|] == r;
    forall k | lo + |r| <= k < |s| ensures IsSpace(s[k]) {
      assert s[k] == t[k - lo];
    }
    if |r| > 0 {
      assert r[0] == t[0];
    }
  }

  /** Stripping twice is stripping once. */
  lemma StripIdempotent(s: string)
    ensures Strip(Strip(s)) == Strip(s)
  {
    var t := TrimStart(s);
    var r := TrimEnd(t);
    if |r| > 0 {
      assert r[0] == t[0];
      assert !IsSpace(r[|r| - 1]);
      calc {
        Strip(r);
        TrimEnd(TrimStart(r));
        { assert TrimStart(r) == r; }
        TrimEnd(r);
      }
    }
  }

  // ---------------------------------------------------------------------------
  // Substring containment (Python's `t in s`)

  /** `p` is a prefix of `s`. */
  predicate IsPrefix(p: string, s: string)
  {
    |p| <= |s| && s[..|p|] == p
  }

  /** `t` occurs in `s` starting at index `i`. */
  ghost predicate OccursAt(s: string, t: string, i: int)
  {
    0 <= i && i + |t| <= |s| && s[i..i + |t|] == t
  }

  /** Python's `t in s`: scan the start positions left to right. */
  function Contains(s: string, t: string): bool
    decreases |s|
  {
    IsPrefix(t, s) || (|s| > 0 && Contains(s[1..], t))
  }

  /** The scan finds `t` exactly when `t` occurs at some index of `s`. */
  lemma {:induction false} ContainsIffOccurs(s: string, t: string)
    ensures Contains(s, t) <==> exists i :: OccursAt(s, t, i)
    decreases |s|
  {
    if IsPrefix(t, s) {
      assert OccursAt(s, t, 0);
    } else if |s| > 0 {
      forall i | OccursAt(s, t, i) && i > 0 ensures OccursAt(s[1..], t, i - 1) {
        assert s[1..][i - 1..i - 1 + |t|] == s[i..i + |t|];
      }
      forall i | OccursAt(s[1..], t, i) ensures OccursAt(s, t, i + 1) {
        assert s[1..][i..i + |t|] == s[i + 1..i + 1 + |t|];
      }
      assert !OccursAt(s, t, 0) by {
        if |t| <= |s| {
          assert s[..|t|] == s[0..|t|];
        }
      }
      ContainsIffOccurs(s[1..], t);
    }
  }

  /** A string always contains itself embedded anywhere in a larger one. */
  lemma ContainsInfix(a: string, t: string, b: string)
    ensures Contains(a + t + b, t)
  {
    var s := a + t + b;
    assert s[|a|..|a| + |t|] == t;
    assert OccursAt(s, t, |a|);
    ContainsIffOccurs(s, t);
  }

  // ---------------------------------------------------------------------------
  // Splitting (str.split(sep) and str.split(sep, 1) with a one-character sep)

  /** The inverse of str.split: sep.join(parts). */
  function Join(parts: seq<string>, sep: char): string
    requires |parts| >= 1
  {
    if |parts| == 1 then parts[0] else parts[0] + [sep] + Join(parts[1..], sep)
  }

  /** str.split(sep): the pieces between the separators, empty ones included,
      so that `k` separators give `k + 1` pieces. */
  function Split(s: string, sep: char): (parts: seq<string>)
    ensures |parts| >= 1
    ensures forall k :: 0 <= k < |parts| ==> sep !in parts[k]
    ensures Join(parts, sep) == s
  {
    if |s| == 0 then [""]
    else
      var rest := Split(s[1..], sep);
      if s[0] == sep then
        [""] + rest
      else
        var first := [s[0]] + rest[0];
        assert |rest| > 1 ==> Join(rest, sep) == rest[0] + [sep] + Join(rest[1..], sep);
        assert ([first] + rest[1..])[1..] == rest[1..];
        [first] + rest[1..]
  }

  /** Splitting what was joined gives the pieces back, when no piece holds the
      separator. With Split's own contract this makes Split and Join inverse. */
  lemma {:induction false} SplitJoin(parts: seq<string>, sep: char)
    requires |parts| >= 1
    requires forall k :: 0 <= k < |parts| ==> sep !in parts[k]
    ensures Split(Join(parts, sep), sep) == parts
    decreases |Join(parts, sep)|
  {
    var p := parts[0];
    if p == [] {
      if |parts| > 1 {
        var tail := Join(parts[1..], sep);
        assert Join(parts, sep) == [sep] + tail;
        assert ([sep] + tail)[1..] == tail;
        SplitJoin(parts[1..], sep);
      }
    } else {
      var s := Join(parts, sep);
      var parts' := [p[1..]] + parts[1..];
      assert parts'[1..] == parts[1..];
      assert p[0] in p;
      if |parts| == 1 {
        assert s == p && s[1..] == p[1..];
        assert forall k :: 0 <= k < |parts'| ==> sep !in parts'[k] by {
          assert forall c :: c in p[1..] ==> c in p;
        }
        SplitJoin(parts', sep);
      } else {
        assert s == [p[0]] + (p[1..] + [sep] + Join(parts[1..], sep));
        assert s[1..] == Join(parts', sep);
        assert forall k :: 0 <= k < |parts'| ==> sep !in parts'[k] by {
          assert forall c :: c in p[1..] ==> c in p;
        }
        SplitJoin(parts', sep);
      }
      assert [p[0]] + p[1..] == p;
    }
  }

  /** The index of the first occurrence of `c` in `s`. */
  function FirstIndex(s: string, c: char): (i: nat)
    requires c in s
    ensures i < |s| && s[i] == c && c !in s[..i]
  {
    if s[0] == c then 0
    else
      var j := FirstIndex(s[1..], c);
      assert s[..j + 1] == [s[0]] + s[1..][..j];
      j + 1
  }

  /** str.split(sep, 1) on a string that holds `sep`: the text before the first
      separator and everything after it. */
  function SplitFirst(s: string, sep: char): (pair: (string, string))
    requires sep in s
    ensures sep !in pair.0
    ensures pair.0 + [sep] + pair.1 == s
  {
    var i := FirstIndex(s, sep);
    assert s == s[..i] + [sep] + s[i + 1..];
    (s[..i], s[i + 1..])
  }

  /** Every character of a contained string occurs in the containing one. */
  lemma ContainsChar(s: string, t: string, c: char)
    requires Contains(s, t) && c in t
    ensures c in s
  {
    ContainsIffOccurs(s, t);
    var i :| OccursAt(s, t, i);
    var k :| 0 <= k < |t| && t[k] == c;
    assert s[i..i + |t|][k] == s[i + k];
  }

  // ---------------------------------------------------------------------------
  // str.replace(pat, rep): every non-overlapping occurrence, left to right

  /** str.replace with an empty `pat`: `rep` goes before every character and at the end. */
  function InsertEverywhere(s: string, rep: string): string
  {
    if |s| == 0 then rep else rep + [s[0]] + InsertEverywhere(s[1..], rep)
  }

  function ReplaceAll(s: string, pat: string, rep: string): string
    decreases |s|
  {
    if |pat| == 0 then InsertEverywhere(s, rep)
    else if IsPrefix(pat, s) then rep + ReplaceAll(s[|pat|..], pat, rep)
    else if |s| == 0 then []
    else [s[0]] + ReplaceAll(s[1..], pat, rep)
  }

  /** A non-empty pattern that does not occur leaves the text as it is. */
  lemma {:induction false} ReplaceAllAbsent(s: string, pat: string, rep: string)
    requires |pat| > 0 && !Contains(s, pat)
    ensures ReplaceAll(s, pat, rep) == s
    decreases |s|
  {
    if |s| > 0 {
      ReplaceAllAbsent(s[1..], pat, rep);
      assert [s[0]] + s[1..] == s;
    }
  }

  /** Replacing splices `rep` in place of the occurrence found at the front. */
  lemma ReplaceAllAtFront(pat: string, rest: string, rep: string)
    requires |pat| > 0
    ensures ReplaceAll(pat + rest, pat, rep) == rep + ReplaceAll(rest, pat, rep)
  {
    assert IsPrefix(pat, pat + rest);
    assert (pat + rest)[|pat|..] == rest;
  }

  /** An occurrence in the tail is an occurrence one index further on. */
  lemma OccursShift(s: string, pat: string, j: nat)
    requires |s| > 0
    ensures OccursAt(s[1..], pat, j) <==> OccursAt(s, pat, j + 1)
  {
    if j + |pat| <= |s| - 1 {
      assert s[1..][j..j + |pat|] == s[j + 1..j + 1 + |pat|];
    }
  }

  /** The first occurrence of a non-empty pattern is replaced, the text before
      it is kept, and replacing goes on after the occurrence (so occurrences
      never overlap). */
  lemma {:induction false} ReplaceAllFirst(s: string, pat: string, rep: string, i: nat)
    requires |pat| > 0 && OccursAt(s, pat, i)
    requires forall j :: 0 <= j < i ==> !OccursAt(s, pat, j)
    ensures ReplaceAll(s, pat, rep) == s[..i] + rep + ReplaceAll(s[i + |pat|..], pat, rep)
    decreases i
  {
    if i == 0 {
      assert IsPrefix(pat, s) by {
        assert s[..|pat|] == s[0..|pat|];
      }
      assert s[..i] + rep == rep;
    } else {
      assert !IsPrefix(pat, s) by {
        assert !OccursAt(s, pat, 0);
        if |pat| <= |s| {
          assert s[..|pat|] == s[0..|pat|];
        }
      }
      var t := s[1..];
      OccursShift(s, pat, i - 1);
      forall j | 0 <= j < i - 1 ensures !OccursAt(t, pat, j) {
        OccursShift(s, pat, j);
      }
      ReplaceAllFirst(t, pat, rep, i - 1);
      ReplaceAllSkip(s, pat, rep);
      FirstSplice(s, t, i, |pat|, rep, ReplaceAll(t[i - 1 + |pat|..], pat, rep));
    }
  }

  /** Where the pattern does not start, the first character is copied. */
  lemma ReplaceAllSkip(s: string, pat: string, rep: string)
    requires |pat| > 0 && |s| > 0 && !IsPrefix(pat, s)
    ensures ReplaceAll(s, pat, rep) == [s[0]] + ReplaceAll(s[1..], pat, rep)
  {
  }

  /** The bookkeeping of one step of ReplaceAllFirst. */
  lemma FirstSplice(s: string, t: string, i: nat, n: nat, rep: string, after: string)
    requires 0 < i && i + n <= |s| && t == s[1..]
    ensures [s[0]] + (t[..i - 1] + rep + after) == s[..i] + rep + after
    ensures t[i - 1 + n..] == s[i + n..]
  {
    assert [s[0]] + t[..i - 1] == s[..i];
  }

  /** Replacing a non-empty pattern by itself gives the text back. */
  lemma {:induction false} ReplaceAllSame(s: string, pat: string)
    requires |pat| > 0
    ensures ReplaceAll(s, pat, pat) == s
    decreases |s|
  {
    if IsPrefix(pat, s) {
      ReplaceAllSame(s[|pat|..], pat);
      assert s[..|pat|] + s[|pat|..] == s;
    } else if |s| > 0 {
      ReplaceAllSame(s[1..], pat);
      assert [s[0]] + s[1..] == s;
    }
  }

  // ---------------------------------------------------------------------------
  // Text-mode reading: universal newlines

  /** What reading a file in text mode hands back: every `\r\n` and every
      lone `\r` becomes `\n`. */
  function UniversalNewlines(s: string): string
    decreases |s|
  {
    if |s| == 0 then []
    else if s[0] == '\r' then "\n" + UniversalNewlines(if |s| > 1 && s[1] == '\n' then s[2..] else s[1..])
    else [s[0]] + UniversalNewlines(s[1..])
  }

  /** No carriage return survives a text-mode read. */
  lemma {:induction false} UniversalNewlinesNoReturn(s: string)
    ensures '\r' !in UniversalNewlines(s)
    decreases |s|
  {
    if |s| > 0 {
      if s[0] == '\r' {
        UniversalNewlinesNoReturn(if |s| > 1 && s[1] == '\n' then s[2..] else s[1..]);
      } else {
        UniversalNewlinesNoReturn(s[1..]);
      }
    }
  }

  /** Text without carriage returns reads back unchanged. */
  lemma {:induction false} UniversalNewlinesPlain(s: string)
    requires '\r' !in s
    ensures UniversalNewlines(s) == s
    decreases |s|
  {
    if |s| > 0 {
      assert s[0] in s;
      assert forall k :: 0 <= k < |s| - 1 ==> s[1..][k] == s[k + 1];
      UniversalNewlinesPlain(s[1..]);
      assert [s[0]] + s[1..] == s;
    }
  }

  /** A `\r\n` line end at the front reads as one `\n`, as does a lone `\r`. */
  lemma UniversalNewlinesFront(rest: string)
    ensures UniversalNewlines("\r\n" + rest) == "\n" + UniversalNewlines(rest)
    ensures |rest| == 0 || rest[0] != '\n' ==> UniversalNewlines("\r" + rest) == "\n" + UniversalNewlines(rest)
  {
    assert ("\r\n" + rest)[2..] == rest;
    assert ("\r" + rest)[1..] == rest;
  }

  // ---------------------------------------------------------------------------
  // Decimal numerals: str(n), int(s) on digit strings, str.zfill

  function DigitChar(d: nat): (c: char)
    requires d < 10
    ensures IsDigit(c)
  {
    ('0' as int + d) as char
  }

  function DigitValue(c: char): (d: nat)
    requires IsDigit(c)
    ensures d < 10
  {
    c as int - '0' as int
  }

  /** str(n) for a natural number. */
  function DecimalString(n: nat): (r: string)
    ensures |r| >= 1 && AllDigits(r)
  {
    if n < 10 then [DigitChar(n)] else DecimalString(n / 10) + [DigitChar(n % 10)]
  }

  /** int(s) for a string of ASCII digits (leading zeros allowed). */
  function ParseDecimal(s: string): nat
    requires AllDigits(s)
  {
    if |s| == 0 then 0 else ParseDecimal(s[..|s| - 1]) * 10 + DigitValue(s[|s| - 1])
  }

  /** Reading back a rendered number gives the number. */
  lemma {:induction false} ParseDecimalString(n: nat)
    ensures ParseDecimal(DecimalString(n)) == n
  {
    if n >= 10 {
      var r := DecimalString(n);
      assert r[..|r| - 1] == DecimalString(n / 10);
      ParseDecimalString(n / 10);
    }
  }

  /** Distinct numbers render differently. */
  lemma DecimalStringInjective(m: nat, n: nat)
    requires DecimalString(m) == DecimalString(n)
    ensures m == n
  {
    ParseDecimalString(m);
    ParseDecimalString(n);
  }

  function Zeros(k: nat): (z: string)
    ensures |z| == k && AllDigits(z)
  {
    if k == 0 then [] else Zeros(k - 1) + ['0']
  }

  /** str.zfill(width): pad with '0' on the left up to `width`, keeping a
      leading sign in front. */
  function ZFill(s: string, width: int): (r: string)
  {
    if |s| >= width then s
    else if |s| > 0 && (s[0] == '+' || s[0] == '-') then [s[0]] + Zeros(width - |s|) + s[1..]
    else Zeros(width - |s|) + s
  }

  /** Leading zeros do not change the value of a numeral. */
  lemma {:induction false} ParseDecimalZeros(k: nat, s: string)
    requires AllDigits(s)
    ensures AllDigits(Zeros(k) + s)
    ensures ParseDecimal(Zeros(k) + s) == ParseDecimal(s)
    decreases |s| + k
  {
    var t := Zeros(k) + s;
    if |s| == 0 {
      assert t == Zeros(k);
      if k > 0 {
        assert t[..|t| - 1] == Zeros(k - 1) + [];
        ParseDecimalZeros(k - 1, []);
      }
    } else {
      assert t[..|t| - 1] == Zeros(k) + s[..|s| - 1];
      ParseDecimalZeros(k, s[..|s| - 1]);
    }
  }

  /** zfill widens a digit string to at least `width` characters, leaves a
      wide enough one alone, and keeps its numeric value. */
  lemma ZFillDigits(s: string, width: int)
    requires AllDigits(s)
    ensures var r := ZFill(s, width);
      AllDigits(r) && |r| == (if |s| >= width then |s| else width) &&
      ParseDecimal(r) == ParseDecimal(s) && r[|r| - |s|..] == s
  {
    if |s| < width {
      if |s| > 0 {
        assert IsDigit(s[0]);
      }
      ParseDecimalZeros(width - |s|, s);
    }
  }
}
