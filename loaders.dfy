/** The line parsers that read the three settings files (config, release
    groups, series list) and the two chunk settings taken from the config.
    Each file is handed over as its sequence of lines, as iterating the open
    file yields them. */
module Loaders {
  import opened Text
  import opened Placement

  /** Stripping never drops a character that is not whitespace. */
  lemma StripKeeps(s: string, c: char)
    requires c in s && !IsSpace(c)
    ensures c in Strip(s)
  {
    StripShape(s);
    var lo :| StrippedAt(s, Strip(s), lo);
    StrippedKeeps(s, Strip(s), lo, c);
  }

  lemma StrippedKeeps(s: string, r: string, lo: int, c: char)
    requires StrippedAt(s, r, lo) && c in s && !IsSpace(c)
    ensures c in r
  {
    var k :| 0 <= k < |s| && s[k] == c;
    assert lo <= k < lo + |r|;
    assert r[k - lo] == s[lo..lo + |r|][k - lo] == c;
  }

  // ---------------------------------------------------------------------------
  // config.megumi

  /** A line that sets a key. */
  predicate Setting(line: string)
  {
    '=' in line
  }

  /** The key and the value of a setting line: the stripped line split at its
      first `=`, both sides stripped. */
  function KeyValue(line: string): (string, string)
    requires Setting(line)
  {
    StripKeeps(line, '=');
    var (k, v) := SplitFirst(Strip(line), '=');
    (Strip(k), Strip(v))
  }

  /** What a line sets, if anything. */
  function SettingOf(line: string): Option<(string, string)>
  {
    if Setting(line) then Some(KeyValue(line)) else None
  }

  /** The dictionary built from the lines in order, `setting` telling what
      each line sets; a later line for the same key overwrites the value. */
  function Assign(lines: seq<string>, setting: string -> Option<(string, string)>): map<string, string>
  {
    if |lines| == 0 then map[]
    else
      var c := Assign(lines[..|lines| - 1], setting);
      var s := setting(lines[|lines| - 1]);
      if s.Some? then c[s.value.0 := s.value.1] else c
  }

  /** load_config. */
  function ParseConfig(lines: seq<string>): Config
  {
    Assign(lines, SettingOf)
  }

  /** A key is set exactly when some line sets it. */
  lemma {:induction false} AssignKeys(lines: seq<string>, setting: string -> Option<(string, string)>, k: string)
    ensures k in Assign(lines, setting)
        <==> exists i :: 0 <= i < |lines| && setting(lines[i]).Some? && setting(lines[i]).value.0 == k
  {
    if |lines| > 0 {
      var front := lines[..|lines| - 1];
      AssignKeys(front, setting, k);
      if k in Assign(front, setting) {
        var i :| 0 <= i < |front| && setting(front[i]).Some? && setting(front[i]).value.0 == k;
        assert lines[i] == front[i];
      } else if exists i :: 0 <= i < |lines| && setting(lines[i]).Some? && setting(lines[i]).value.0 == k {
        var i :| 0 <= i < |lines| && setting(lines[i]).Some? && setting(lines[i]).value.0 == k;
        if i < |front| {
          assert front[i] == lines[i];
        }
      }
    }
  }

  /** The value of a key is the one from the last line that sets it. */
  lemma {:induction false} AssignLast(lines: seq<string>, setting: string -> Option<(string, string)>, k: string, i: nat)
    requires i < |lines| && setting(lines[i]).Some? && setting(lines[i]).value.0 == k
    requires forall j :: i < j < |lines| && setting(lines[j]).Some? ==> setting(lines[j]).value.0 != k
    ensures k in Assign(lines, setting) && Assign(lines, setting)[k] == setting(lines[i]).value.1
  {
    if i < |lines| - 1 {
      var front := lines[..|lines| - 1];
      assert front[i] == lines[i];
      assert forall j :: i < j < |front| ==> front[j] == lines[j];
      AssignLast(front, setting, k, i);
    }
  }

  /** Lines that set nothing are ignored: adding them changes nothing. */
  lemma {:induction false} AssignIgnores(lines: seq<string>, extra: seq<string>, setting: string -> Option<(string, string)>)
    requires forall i :: 0 <= i < |extra| ==> setting(extra[i]).None?
    ensures Assign(lines + extra, setting) == Assign(lines, setting)
  {
    if |extra| > 0 {
      var e := extra[..|extra| - 1];
      assert (lines + extra)[..|lines + extra| - 1] == lines + e;
      AssignIgnores(lines, e, setting);
    } else {
      assert lines + extra == lines;
    }
  }

  /** A key is in the configuration exactly when some line with `=` has it as
      its key, and its value is the one from the last such line. */
  lemma ConfigLastWins(lines: seq<string>, k: string)
    ensures k in ParseConfig(lines)
        <==> exists i :: 0 <= i < |lines| && SettingOf(lines[i]).Some? && SettingOf(lines[i]).value.0 == k
    ensures forall i :: 0 <= i < |lines| && SettingOf(lines[i]).Some? && SettingOf(lines[i]).value.0 == k
                        && (forall j :: i < j < |lines| && SettingOf(lines[j]).Some? ==> SettingOf(lines[j]).value.0 != k)
                        ==> k in ParseConfig(lines) && ParseConfig(lines)[k] == SettingOf(lines[i]).value.1
  {
    AssignKeys(lines, SettingOf, k);
    forall i | 0 <= i < |lines| && SettingOf(lines[i]).Some? && SettingOf(lines[i]).value.0 == k
               && (forall j :: i < j < |lines| && SettingOf(lines[j]).Some? ==> SettingOf(lines[j]).value.0 != k)
      ensures k in ParseConfig(lines) && ParseConfig(lines)[k] == SettingOf(lines[i]).value.1
    {
      AssignLast(lines, SettingOf, k, i);
    }
  }

  /** Lines without `=` are ignored. */
  lemma ConfigIgnoresPlainLines(lines: seq<string>, extra: seq<string>)
    requires forall i :: 0 <= i < |extra| ==> !Setting(extra[i])
    ensures ParseConfig(lines + extra) == ParseConfig(lines)
  {
    AssignIgnores(lines, extra, SettingOf);
  }

  /** `config.get('USE_CHUNKS', 'ON').upper() == 'ON'`: the value is `on` in
      any letter case (no other character upper-cases to `O` or `N`). */
  predicate UseChunksSetting(cfg: Config)
  {
    var s := Get(cfg, "USE_CHUNKS", "ON");
    |s| == 2 && (s[0] == 'o' || s[0] == 'O') && (s[1] == 'n' || s[1] == 'N')
  }

  /** int(s) for an optional sign and ASCII digits with whitespace around
      them; None where int() raises. */
  function ParseInt(s: string): Option<int>
  {
    var t := Strip(s);
    if |t| > 0 && (t[0] == '+' || t[0] == '-') then
      if |t| > 1 && AllDigits(t[1..]) then
        var n: int := ParseDecimal(t[1..]);
        Some(if t[0] == '-' then -n else n)
      else None
    else if |t| > 0 && AllDigits(t) then Some(ParseDecimal(t))
    else None
  }

  /** `int(config.get('CHUNKS', '3'))`; None where int() raises. */
  function ChunksSetting(cfg: Config): Option<int>
  {
    ParseInt(Get(cfg, "CHUNKS", "3"))
  }

  /** Any number written out in decimal, with or without a minus sign,
      reads back as itself. */
  lemma ParseIntDecimal(n: nat)
    ensures ParseInt(DecimalString(n)) == Some(n)
    ensures ParseInt("-" + DecimalString(n)) == Some(-(n as int))
  {
    ParseDecimalString(n);
    ParseIntDigits(DecimalString(n), n);
  }

  /** Digits, with or without a minus sign, read as their decimal value. */
  lemma ParseIntDigits(d: string, n: nat)
    requires |d| >= 1 && AllDigits(d) && ParseDecimal(d) == n
    ensures ParseInt(d) == Some(n)
    ensures ParseInt("-" + d) == Some(-(n as int))
  {
    PositiveDigits(d, n);
    NegativeDigits(d, n);
  }

  lemma PositiveDigits(d: string, n: nat)
    requires |d| >= 1 && AllDigits(d) && ParseDecimal(d) == n
    ensures ParseInt(d) == Some(n)
  {
    assert IsDigit(d[0]) && IsDigit(d[|d| - 1]);
    NoOuterSpace(d);
    assert d[0] != '+' && d[0] != '-';
  }

  lemma NegativeDigits(d: string, n: nat)
    requires |d| >= 1 && AllDigits(d) && ParseDecimal(d) == n
    ensures ParseInt("-" + d) == Some(-(n as int))
  {
    var m := "-" + d;
    assert IsDigit(d[|d| - 1]);
    assert m[1..] == d && m[|m| - 1] == d[|d| - 1];
    NoOuterSpace(m);
    assert ParseDecimal(m[1..]) == n;
  }

  /** A string that neither starts nor ends with whitespace strips to itself. */
  lemma NoOuterSpace(s: string)
    requires |s| > 0 && !IsSpace(s[0]) && !IsSpace(s[|s| - 1])
    ensures Strip(s) == s
  {
    assert TrimStart(s) == s;
  }

  /** Without a CHUNKS setting there are three chunks; a file that does not
      mention USE_CHUNKS downloads in chunks. */
  lemma DefaultSettings(cfg: Config)
    requires "CHUNKS" !in cfg && "USE_CHUNKS" !in cfg
    ensures ChunksSetting(cfg) == Some(3) && UseChunksSetting(cfg)
  {
    ParseIntDecimal(3);
    assert DecimalString(3) == "3";
  }

  // ---------------------------------------------------------------------------
  // groups.megumi

  /** The lines' cleaned forms, in order, leaving out the empty ones. */
  function Kept(lines: seq<string>, clean: string -> string): seq<string>
  {
    if |lines| == 0 then []
    else
      var g := Kept(lines[..|lines| - 1], clean);
      var t := clean(lines[|lines| - 1]);
      if t != "" then g + [t] else g
  }

  /** load_groups: the stripped non-blank lines, in file order. */
  function ParseGroups(lines: seq<string>): seq<string>
  {
    Kept(lines, Strip)
  }

  /** A string is kept exactly when it is the non-empty cleaned form of a line. */
  lemma {:induction false} KeptMembers(lines: seq<string>, clean: string -> string)
    ensures forall g :: g in Kept(lines, clean) <==> g != "" && exists i :: 0 <= i < |lines| && clean(lines[i]) == g
  {
    if |lines| > 0 {
      var front := lines[..|lines| - 1];
      KeptMembers(front, clean);
      assert forall i :: 0 <= i < |front| ==> front[i] == lines[i];
      forall g | g != "" && (exists i :: 0 <= i < |lines| && clean(lines[i]) == g)
        ensures g in Kept(lines, clean)
      {
        var i :| 0 <= i < |lines| && clean(lines[i]) == g;
        if i < |front| {
          assert clean(front[i]) == g;
        }
      }
    }
  }

  /** Cleaning two pieces of the file one after the other is cleaning the whole. */
  lemma {:induction false} KeptAppend(a: seq<string>, b: seq<string>, clean: string -> string)
    ensures Kept(a + b, clean) == Kept(a, clean) + Kept(b, clean)
  {
    if |b| > 0 {
      var b' := b[..|b| - 1];
      assert (a + b)[..|a + b| - 1] == a + b';
      KeptAppend(a, b', clean);
    } else {
      assert a + b == a;
    }
  }

  /** Every group is non-empty and has nothing left to strip, and a string is
      a group exactly when it is a non-blank line of the file, stripped. */
  lemma GroupsSpec(lines: seq<string>)
    ensures forall g :: g in ParseGroups(lines) <==> g != "" && exists i :: 0 <= i < |lines| && Strip(lines[i]) == g
    ensures forall g :: g in ParseGroups(lines) ==> Strip(g) == g
  {
    KeptMembers(lines, Strip);
    forall g | g in ParseGroups(lines) ensures Strip(g) == g {
      var i :| 0 <= i < |lines| && Strip(lines[i]) == g;
      StripIdempotent(lines[i]);
    }
  }

  /** Reading two pieces of the file one after the other is reading the whole. */
  lemma GroupsAppend(a: seq<string>, b: seq<string>)
    ensures ParseGroups(a + b) == ParseGroups(a) + ParseGroups(b)
  {
    KeptAppend(a, b, Strip);
  }

  // ---------------------------------------------------------------------------
  // serieslist.megumi

  /** A line that describes a series. */
  predicate SeriesLine(line: string)
  {
    '|' in line
  }

  /** The rules of the series lines, in order, `fields` splitting each into
      its fields; None when one does not have exactly three. */
  function Rows(lines: seq<string>, fields: string -> seq<string>): Option<seq<SeriesRule>>
  {
    if |lines| == 0 then Some([])
    else
      var r := Rows(lines[..|lines| - 1], fields);
      var line := lines[|lines| - 1];
      if r.None? || !SeriesLine(line) then r
      else
        var f := fields(line);
        if |f| != 3 then None else Some(r.value + [SeriesRule(f[0], f[1], f[2])])
  }

  /** The fields of a line: `line.strip().split('|')`. */
  function SeriesFields(line: string): seq<string>
  {
    Split(Strip(line), '|')
  }

  /** load_series_list: one rule per line with a bar, in file order; None when
      such a line does not have exactly three fields (the unpacking raises). */
  function ParseSeries(lines: seq<string>): Option<seq<SeriesRule>>
  {
    Rows(lines, SeriesFields)
  }

  /** The series lines of the file, in file order. */
  function SeriesLines(lines: seq<string>): seq<string>
  {
    if |lines| == 0 then []
    else SeriesLines(lines[..|lines| - 1]) + (if SeriesLine(lines[|lines| - 1]) then [lines[|lines| - 1]] else [])
  }

  /** The series lines are exactly the lines with a bar. */
  lemma {:induction false} SeriesLinesMembers(lines: seq<string>)
    ensures forall x :: x in SeriesLines(lines) <==> x in lines && SeriesLine(x)
  {
    if |lines| > 0 {
      var front := lines[..|lines| - 1];
      SeriesLinesMembers(front);
      assert lines == front + [lines[|lines| - 1]];
    }
  }

  /** Reading fails exactly when some series line has other than three
      fields; otherwise rule `j` holds the fields of the `j`-th series line,
      so the table keeps the file's order and has one rule per series line. */
  lemma {:induction false} RowsSpec(lines: seq<string>, fields: string -> seq<string>)
    ensures Rows(lines, fields).None? <==> exists i :: 0 <= i < |lines| && SeriesLine(lines[i]) && |fields(lines[i])| != 3
    ensures Rows(lines, fields).Some? ==>
      var rs := Rows(lines, fields).value;
      var b := SeriesLines(lines);
      |rs| == |b|
      && forall j :: 0 <= j < |rs| ==> fields(b[j]) == [rs[j].token, rs[j].folder, rs[j].season]
  {
    if |lines| > 0 {
      var front := lines[..|lines| - 1];
      var last := lines[|lines| - 1];
      RowsSpec(front, fields);
      assert forall i :: 0 <= i < |front| ==> front[i] == lines[i];
      assert (exists i :: 0 <= i < |lines| && SeriesLine(lines[i]) && |fields(lines[i])| != 3)
         <==> (exists i :: 0 <= i < |front| && SeriesLine(front[i]) && |fields(front[i])| != 3)
              || (SeriesLine(last) && |fields(last)| != 3);
      var r := Rows(lines, fields);
      if r.Some? && SeriesLine(last) {
        var rs0 := Rows(front, fields).value;
        var b0 := SeriesLines(front);
        var rs := r.value;
        var b := SeriesLines(lines);
        assert b == b0 + [last];
        assert rs == rs0 + [SeriesRule(fields(last)[0], fields(last)[1], fields(last)[2])];
        forall j | 0 <= j < |rs| ensures fields(b[j]) == [rs[j].token, rs[j].folder, rs[j].season] {
          if j < |rs0| {
            assert b[j] == b0[j] && rs[j] == rs0[j];
          } else {
            assert b[j] == last;
          }
        }
      }
    }
  }

  /** Reading fails exactly when some line with a bar has other than three
      fields; otherwise rule `j` is the stripped, split `j`-th line with a
      bar, and no field of any rule holds a bar. */
  lemma SeriesSpec(lines: seq<string>)
    ensures ParseSeries(lines).None?
        <==> exists i :: 0 <= i < |lines| && SeriesLine(lines[i]) && |SeriesFields(lines[i])| != 3
    ensures ParseSeries(lines).Some? ==>
      var rs := ParseSeries(lines).value;
      |rs| == |SeriesLines(lines)|
      && (forall j :: 0 <= j < |rs| ==> SeriesFields(SeriesLines(lines)[j]) == [rs[j].token, rs[j].folder, rs[j].season])
      && forall j :: 0 <= j < |rs| ==> '|' !in rs[j].token && '|' !in rs[j].folder && '|' !in rs[j].season
  {
    RowsSpec(lines, SeriesFields);
    if ParseSeries(lines).Some? {
      var rs := ParseSeries(lines).value;
      var b := SeriesLines(lines);
      forall j | 0 <= j < |rs| ensures '|' !in rs[j].token && '|' !in rs[j].folder && '|' !in rs[j].season {
        var f := SeriesFields(b[j]);
        assert f[0] == rs[j].token && f[1] == rs[j].folder && f[2] == rs[j].season;
      }
    }
  }

  /** `token|folder|season` with no bar inside the fields splits back into them. */
  lemma SplitSeriesLine(t: string, f: string, s: string)
    requires '|' !in t && '|' !in f && '|' !in s
    ensures '|' in t + "|" + f + "|" + s
    ensures Split(t + "|" + f + "|" + s, '|') == [t, f, s]
  {
    var line := t + "|" + f + "|" + s;
    assert line[|t|] == '|';
    assert [t, f, s][1..] == [f, s];
    assert [f, s][1..] == [s];
    assert Join([s], '|') == s;
    assert Join([f, s], '|') == f + "|" + s;
    assert Join([t, f, s], '|') == t + "|" + (f + "|" + s);
    assert line == Join([t, f, s], '|');
    SplitJoin([t, f, s], '|');
  }

  /** A line `token|folder|season` with no bar inside the fields and nothing to
      strip adds exactly that rule at the end. */
  lemma SeriesLineRule(lines: seq<string>, t: string, f: string, s: string)
    requires ParseSeries(lines).Some?
    requires '|' !in t && '|' !in f && '|' !in s
    requires Strip(t + "|" + f + "|" + s) == t + "|" + f + "|" + s
    ensures ParseSeries(lines + [t + "|" + f + "|" + s]) == Some(ParseSeries(lines).value + [SeriesRule(t, f, s)])
  {
    var line := t + "|" + f + "|" + s;
    SplitSeriesLine(t, f, s);
    assert SeriesFields(line) == [t, f, s];
    assert (lines + [line])[..|lines|] == lines;
  }
}
