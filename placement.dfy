/** move_files: every finished download in the staging directory whose name
    carries a series token and an episode number is moved into that series'
    season directory of the library, optionally renamed to `SxxEyy.ext` and
    logged in the season's ledger, and then handed to process_subtitles. */
module Placement {
  import opened Text
  import Paths
  import opened Files
  import opened Episode
  import opened Patch

  /** One line of the series list: the token looked for in file names, the
      series folder and the season number (kept as text, as read). */
  datatype SeriesRule = SeriesRule(token: string, folder: string, season: string)

  /** The configuration: key to value. */
  type Config = map<string, string>

  /** `config.get(key, default)`. */
  function Get(cfg: Config, key: string, default: string): string
  {
    if key in cfg then cfg[key] else default
  }

  /** The staging directory and the library during the run, and whether the
      run has raised (which ends it). */
  datatype Placement = Placement(staging: StagingDir, lib: Library, crashed: bool)

  /** Only non-empty regular files are considered. */
  predicate Eligible(e: Entry)
  {
    e.File? && |e.data| > 0
  }

  /** The series loop: the first series whose token occurs in the name, when
      the name also carries an episode number (the pattern does not depend on
      the series, so without one no series is taken). */
  function Classify(name: string, series: seq<SeriesRule>): (c: Option<nat>)
    ensures c.Some? ==> c.value < |series|
    ensures c.Some? ==> EpisodeOf(name).Some?
  {
    var hit := (i: nat) => i < |series| && Contains(name, series[i].token) && EpisodeOf(name).Some?;
    var k := FirstHit(hit, 0, |series|);
    if k == -1 then None else Some(k)
  }

  /** `Path(LOCALPATCH) / folder / f"Season {season}"`. */
  function SeasonDir(root: string, rule: SeriesRule): string
  {
    Paths.Join(Paths.Join(root, rule.folder), "Season " + rule.season)
  }

  /** The name in the library: `S{season.zfill(2)}E{ep}{ext}` when renaming is
      on (the default), the staged name otherwise. */
  function NewName(cfg: Config, name: string, rule: SeriesRule, ep: string, ext: string): string
  {
    if Get(cfg, "RENAME", "ON") == "ON" then "S" + ZFill(rule.season, 2) + "E" + ep + ext else name
  }

  /** The season directory's ledger `info.txt`. */
  function Ledger(dir: string): string
  {
    Paths.Join(dir, "info.txt")
  }

  /** Appending the line `name (new)` to the ledger, creating it if needed. */
  function Logged(lib: Library, dir: string, name: string, newName: string): Library
  {
    var line := name + " (" + newName + ")\n";
    var prior := if Ledger(dir) in lib && lib[Ledger(dir)].TextFile? then lib[Ledger(dir)].text else "";
    lib[Ledger(dir) := TextFile(prior + line)]
  }

  /** Where a classified file goes: its season directory and its new name. */
  function Destination(cfg: Config, name: string, rule: SeriesRule): (string, string)
    requires "LOCALPATCH" in cfg && EpisodeOf(name).Some?
  {
    var (ep, ext) := EpisodeOf(name).value;
    (SeasonDir(cfg["LOCALPATCH"], rule), NewName(cfg, name, rule, ep, ext))
  }

  /** The library after the move itself and the ledger line, before the
      subtitles are processed: an existing file at the destination is
      unlinked and the staged bytes take its place. */
  function Placed(lib: Library, cfg: Config, name: string, data: seq<byte>, dir: string, newName: string): Library
  {
    var lib1 := lib[Paths.Join(dir, newName) := Media(data)];
    if Get(cfg, "SAVEINFO", "OFF") == "ON" then Logged(lib1, dir, name, newName) else lib1
  }

  /** A claimed file moved to `dir`/`newName`, logged, and its subtitles
      processed; the entry leaves the staging directory. */
  function Claim(st: Placement, name: string, cfg: Config, dir: string, newName: string, tool: ToolRun,
                 isWord: char -> bool): Placement
    requires name in st.staging && st.staging[name].File?
  {
    var lib2 := Placed(st.lib, cfg, name, st.staging[name].data, dir, newName);
    var (lib3, o) := AfterPatch(lib2, LayoutOf(dir, newName), tool, RewriteWith(tool.extracted, isWord));
    Placement(st.staging - {name}, lib3, o == Crashed)
  }

  /** One pass of the loop body for the staged entry `name`. */
  function MoveOne(st: Placement, name: string, cfg: Config, series: seq<SeriesRule>, tool: ToolRun,
                   isWord: char -> bool): Placement
  {
    if name !in st.staging || !Eligible(st.staging[name]) then st
    else
      var c := Classify(name, series);
      if c.None? then st
      else if "LOCALPATCH" !in cfg then Placement(st.staging, st.lib, true)
      else
        var (dir, newName) := Destination(cfg, name, series[c.value]);
        Claim(st, name, cfg, dir, newName, tool, isWord)
  }

  /** The loop over the staging entries in iteration order `order`; the run
      stops at the first exception. `tools` gives the external tools'
      behaviour for each staged name. */
  function MovedAll(st: Placement, order: seq<string>, cfg: Config, series: seq<SeriesRule>,
                    tools: string -> ToolRun, isWord: char -> bool): Placement
  {
    if |order| == 0 then st
    else
      var p := MovedAll(st, order[..|order| - 1], cfg, series, tools, isWord);
      var name := order[|order| - 1];
      if p.crashed then p else MoveOne(p, name, cfg, series, tools(name), isWord)
  }

  /** The loop body for one staged entry. */
  method PlaceFile(st: Placement, name: string, cfg: Config, series: seq<SeriesRule>, tool: ToolRun,
                   isWord: char -> bool) returns (r: Placement)
    ensures r == MoveOne(st, name, cfg, series, tool, isWord)
  {
    r := st;
    if name !in st.staging || !Eligible(st.staging[name]) {
      return;
    }
    var c := Classify(name, series);
    if c.None? {
      return;
    }
    if "LOCALPATCH" !in cfg {
      return Placement(st.staging, st.lib, true);
    }
    var (ep, ext) := EpisodeOf(name).value;
    var dir := SeasonDir(cfg["LOCALPATCH"], series[c.value]);
    var newName := NewName(cfg, name, series[c.value], ep, ext);
    var lib := st.lib[Paths.Join(dir, newName) := Media(st.staging[name].data)];
    if Get(cfg, "SAVEINFO", "OFF") == "ON" {
      lib := Logged(lib, dir, name, newName);
    }
    var outcome;
    lib, outcome := ProcessSubtitles(lib, dir, newName, tool, isWord);
    r := Placement(st.staging - {name}, lib, outcome == Crashed);
  }

  /** move_files over the staging entries in iteration order. */
  method MoveFiles(st: Placement, order: seq<string>, cfg: Config, series: seq<SeriesRule>,
                   tools: string -> ToolRun, isWord: char -> bool) returns (r: Placement)
    requires !st.crashed
    ensures r == MovedAll(st, order, cfg, series, tools, isWord)
  {
    r := st;
    for i := 0 to |order|
      invariant r == MovedAll(st, order[..i], cfg, series, tools, isWord) && !r.crashed
    {
      assert order[..i + 1][..i] == order[..i];
      r := PlaceFile(r, order[i], cfg, series, tools(order[i]), isWord);
      if r.crashed {
        MovedStuck(st, order, cfg, series, tools, isWord, i + 1);
        return;
      }
    }
    assert order[..|order|] == order;
  }

  /** After an exception nothing more happens. */
  lemma {:induction false} MovedStuck(st: Placement, order: seq<string>, cfg: Config, series: seq<SeriesRule>,
                                      tools: string -> ToolRun, isWord: char -> bool, k: nat)
    requires k <= |order| && MovedAll(st, order[..k], cfg, series, tools, isWord).crashed
    ensures MovedAll(st, order, cfg, series, tools, isWord) == MovedAll(st, order[..k], cfg, series, tools, isWord)
  {
    if k < |order| {
      assert order[..|order| - 1][..k] == order[..k];
      MovedStuck(st, order[..|order| - 1], cfg, series, tools, isWord, k);
    } else {
      assert order[..k] == order;
    }
  }

  // ---------------------------------------------------------------------------
  // Classification

  /** A file goes to series `i` exactly when `i` is the first series whose
      token occurs in its name and the name carries an episode number; it
      goes nowhere when it has no episode number or no token occurs. */
  lemma ClassifySpec(name: string, series: seq<SeriesRule>)
    ensures var c := Classify(name, series);
      (c.None? <==> EpisodeOf(name).None? || forall j :: 0 <= j < |series| ==> !Contains(name, series[j].token))
      && (c.Some? ==>
            Contains(name, series[c.value].token) && forall j :: 0 <= j < c.value ==> !Contains(name, series[j].token))
  {
    var hit := (i: nat) => i < |series| && Contains(name, series[i].token) && EpisodeOf(name).Some?;
    FirstHitLeftmost(hit, 0, |series|);
    var k := FirstHit(hit, 0, |series|);
    assert forall j: nat :: j < |series| ==> (hit(j) <==> Contains(name, series[j].token) && EpisodeOf(name).Some?);
    if k != -1 {
      assert hit(k);
    }
  }

  /** A name with an episode number holds a whitespace character (the one the
      pattern starts with). */
  lemma EpisodeNameHasSpace(name: string)
    requires EpisodeOf(name).Some?
    ensures exists i :: 0 <= i < |name| && IsSpace(name[i])
  {
    var k := SearchFrom(name, 0);
    assert MatchAt(name, k).Some?;
    assert NumberAt(name, k);
  }

  // ---------------------------------------------------------------------------
  // One file

  /** An entry that is not an eligible file, or that no series claims, is
      left where it is, and nothing else changes. */
  lemma MoveOneSkips(st: Placement, name: string, cfg: Config, series: seq<SeriesRule>, tool: ToolRun,
                     isWord: char -> bool)
    requires name !in st.staging || !Eligible(st.staging[name]) || Classify(name, series).None?
    ensures MoveOne(st, name, cfg, series, tool, isWord) == st
  {
  }

  /** A name with a white-space character differs from a name made of
      printable ASCII characters. */
  lemma SpacedNotPrintable(name: string, t: string)
    requires exists i :: 0 <= i < |name| && IsSpace(name[i])
    requires forall j :: 0 <= j < |t| ==> '!' <= t[j] <= '~'
    ensures name != t
  {
  }

  lemma PrintableFileNames()
    ensures forall j :: 0 <= j < |"replace.txt"| ==> '!' <= "replace.txt"[j] <= '~'
    ensures forall j :: 0 <= j < |"info.txt"| ==> '!' <= "info.txt"[j] <= '~'
  {
  }

  /** A name with an episode number is never `replace.txt` nor `info.txt`,
      and neither is a renamed one (it starts with `S`). */
  lemma NewNameNotRuleFile(cfg: Config, name: string, rule: SeriesRule, ep: string, ext: string)
    requires EpisodeOf(name).Some?
    ensures NewName(cfg, name, rule, ep, ext) != "replace.txt"
    ensures NewName(cfg, name, rule, ep, ext) != "info.txt"
  {
    var newName := NewName(cfg, name, rule, ep, ext);
    if Get(cfg, "RENAME", "ON") == "ON" {
      assert newName[0] == 'S';
      assert "replace.txt"[0] == 'r' && "info.txt"[0] == 'i';
    } else {
      EpisodeNameHasSpace(name);
      PrintableFileNames();
      SpacedNotPrintable(name, "replace.txt");
      SpacedNotPrintable(name, "info.txt");
    }
  }

  /** The move writes the staged bytes at the destination, and leaves the
      directory's rule file as it was: neither the destination nor the
      ledger is the rule file. */
  lemma PlacedKeepsRuleFile(lib: Library, cfg: Config, name: string, data: seq<byte>, dir: string, newName: string)
    requires newName != "replace.txt" && newName != "info.txt"
    ensures var lib2 := Placed(lib, cfg, name, data, dir, newName);
      Paths.Join(dir, newName) in lib2 && lib2[Paths.Join(dir, newName)] == Media(data)
      && (RuleFile(dir) in lib2 <==> RuleFile(dir) in lib)
  {
    var rf := "replace.txt";
    if Paths.Join(dir, newName) == RuleFile(dir) {
      Paths.JoinInjective(dir, newName, rf);
    }
    assert "info.txt"[0] != rf[0];
    if Ledger(dir) == RuleFile(dir) {
      Paths.JoinInjective(dir, "info.txt", rf);
    }
    assert Ledger(dir) != Paths.Join(dir, newName) by {
      if Ledger(dir) == Paths.Join(dir, newName) {
        Paths.JoinInjective(dir, "info.txt", newName);
      }
    }
  }

  /** Without a rule file in the season directory, the subtitles are left
      alone and the run goes on. */
  lemma ClaimWithoutRules(st: Placement, name: string, cfg: Config, dir: string, newName: string, tool: ToolRun,
                          isWord: char -> bool)
    requires name in st.staging && st.staging[name].File?
    requires RuleFile(dir) !in Placed(st.lib, cfg, name, st.staging[name].data, dir, newName)
    ensures Claim(st, name, cfg, dir, newName, tool, isWord)
         == Placement(st.staging - {name}, Placed(st.lib, cfg, name, st.staging[name].data, dir, newName), false)
  {
    var w := LayoutOf(dir, newName);
    assert w.ruleFile == RuleFile(dir);
    PatchEarlyExits(Placed(st.lib, cfg, name, st.staging[name].data, dir, newName), w, tool,
                    RewriteWith(tool.extracted, isWord));
  }

  /** The season's ledger is none of the paths process_subtitles touches for
      the file `newName`. */
  lemma LedgerApart(dir: string, newName: string)
    requires newName != "info.txt"
    ensures var w := LayoutOf(dir, newName);
      Ledger(dir) != w.file && Ledger(dir) != w.sidecar && Ledger(dir) != w.output
  {
    var w := LayoutOf(dir, newName);
    var r := RemuxedName(newName);
    var s := Paths.WithSuffix(newName, ".ass");
    Paths.StemSuffix(newName);
    assert r[|Paths.Stem(newName)|] == '_';
    assert s[|s| - 1] == 's';
    assert forall k :: 0 <= k < |"info.txt"| ==> "info.txt"[k] != '_';
    assert "info.txt"[7] == 't';
    if Ledger(dir) == w.file {
      Paths.JoinInjective(dir, "info.txt", newName);
    }
    if Ledger(dir) == w.sidecar {
      Paths.JoinInjective(dir, "info.txt", s);
    }
    if Ledger(dir) == w.output {
      Paths.JoinInjective(dir, "info.txt", r);
    }
  }

  /** With SAVEINFO set to `ON`, handling a claimed file appends the line
      `name (newName)` to its season's ledger, after what the ledger held (a
      ledger that is not text starts afresh); otherwise the ledger is left as
      it was. Processing the subtitles never touches it. */
  lemma ClaimLogs(st: Placement, name: string, cfg: Config, dir: string, newName: string, tool: ToolRun,
                  isWord: char -> bool)
    requires name in st.staging && st.staging[name].File?
    requires newName != "info.txt"
    ensures var lib := Claim(st, name, cfg, dir, newName, tool, isWord).lib;
      var prior := if Ledger(dir) in st.lib && st.lib[Ledger(dir)].TextFile? then st.lib[Ledger(dir)].text else "";
      (Get(cfg, "SAVEINFO", "OFF") == "ON" ==>
         Ledger(dir) in lib && lib[Ledger(dir)] == TextFile(prior + name + " (" + newName + ")\n"))
      && (Get(cfg, "SAVEINFO", "OFF") != "ON" ==>
         (Ledger(dir) in lib <==> Ledger(dir) in st.lib)
         && (Ledger(dir) in st.lib ==> lib[Ledger(dir)] == st.lib[Ledger(dir)]))
  {
    var w := LayoutOf(dir, newName);
    LedgerApart(dir, newName);
    var lib2 := Placed(st.lib, cfg, name, st.staging[name].data, dir, newName);
    PatchFrame(lib2, w, tool, RewriteWith(tool.extracted, isWord), Ledger(dir));
  }

  /** A claimed file, with the library root configured and no rule file in
      its season directory, leaves the staging directory and lands under its
      new name with its bytes unchanged; the run goes on. */
  lemma MoveOnePlaces(st: Placement, name: string, cfg: Config, series: seq<SeriesRule>, tool: ToolRun,
                      isWord: char -> bool, dir: string, newName: string)
    requires name in st.staging && Eligible(st.staging[name])
    requires Classify(name, series).Some? && "LOCALPATCH" in cfg
    requires (dir, newName) == Destination(cfg, name, series[Classify(name, series).value])
    requires RuleFile(dir) !in st.lib
    ensures var r := MoveOne(st, name, cfg, series, tool, isWord);
      !r.crashed && r.staging == st.staging - {name}
      && r.lib == Placed(st.lib, cfg, name, st.staging[name].data, dir, newName)
      && Paths.Join(dir, newName) in r.lib && r.lib[Paths.Join(dir, newName)] == Media(st.staging[name].data)
  {
    var rule := series[Classify(name, series).value];
    var (ep, ext) := EpisodeOf(name).value;
    assert newName == NewName(cfg, name, rule, ep, ext);
    NewNameNotRuleFile(cfg, name, rule, ep, ext);
    PlacedKeepsRuleFile(st.lib, cfg, name, st.staging[name].data, dir, newName);
    ClaimWithoutRules(st, name, cfg, dir, newName, tool, isWord);
  }

  // ---------------------------------------------------------------------------
  // The whole loop

  /** The entry `name` stays where it is in the staging directory. */
  predicate Stays(name: string, e: Entry, series: seq<SeriesRule>)
  {
    !Eligible(e) || Classify(name, series).None?
  }

  /** The staging directory only loses entries, and each entry the loop does
      not claim is still there, unchanged, at the end. */
  lemma {:induction false} MovedAllKeeps(st: Placement, order: seq<string>, cfg: Config, series: seq<SeriesRule>,
                                         tools: string -> ToolRun, isWord: char -> bool)
    ensures var r := MovedAll(st, order, cfg, series, tools, isWord);
      (forall k :: k in r.staging ==> k in st.staging && r.staging[k] == st.staging[k])
      && (forall k :: k in st.staging && Stays(k, st.staging[k], series) ==> k in r.staging && r.staging[k] == st.staging[k])
  {
    if |order| > 0 {
      MovedAllKeeps(st, order[..|order| - 1], cfg, series, tools, isWord);
      var p := MovedAll(st, order[..|order| - 1], cfg, series, tools, isWord);
      var name := order[|order| - 1];
      MoveOneStaging(p, name, cfg, series, tools(name), isWord);
    }
  }

  /** One pass of the loop body removes at most the entry it is for, and
      keeps it when it stays. */
  lemma MoveOneStaging(st: Placement, name: string, cfg: Config, series: seq<SeriesRule>, tool: ToolRun,
                       isWord: char -> bool)
    ensures var r := MoveOne(st, name, cfg, series, tool, isWord);
      r.staging == st.staging || (name in st.staging && r.staging == st.staging - {name})
    ensures name in st.staging && Stays(name, st.staging[name], series)
      ==> MoveOne(st, name, cfg, series, tool, isWord).staging == st.staging
  {
  }

  /** The run raises only for an entry some series claims: it never raises
      when no eligible staged file is claimed. */
  lemma {:induction false} MovedAllQuiet(st: Placement, order: seq<string>, cfg: Config, series: seq<SeriesRule>,
                                         tools: string -> ToolRun, isWord: char -> bool)
    requires !st.crashed
    requires forall k :: k in st.staging ==> Stays(k, st.staging[k], series)
    ensures MovedAll(st, order, cfg, series, tools, isWord) == st
  {
    if |order| > 0 {
      MovedAllQuiet(st, order[..|order| - 1], cfg, series, tools, isWord);
    }
  }

  // ---------------------------------------------------------------------------
  // The worked case

  /** A file whose episode number is `01` and extension `.mkv`, under the
      series `Show`, season `1`, with renaming on by default, lands as
      `Season 1/S01E01.mkv` of the series folder. */
  lemma ExampleDestination(name: string, root: string)
    requires EpisodeOf(name) == Some(("01", ".mkv"))
    ensures var cfg := map["LOCALPATCH" := root];
      Destination(cfg, name, SeriesRule("Show", "Show", "1")) == (root + "/Show/Season 1", "S01E01.mkv")
  {
    var cfg := map["LOCALPATCH" := root];
    ExampleNewName(root, name);
    ExampleSeasonDir(root);
  }

  lemma ExampleNewName(root: string, name: string)
    ensures NewName(map["LOCALPATCH" := root], name, SeriesRule("Show", "Show", "1"), "01", ".mkv") == "S01E01.mkv"
  {
    var cfg := map["LOCALPATCH" := root];
    assert Get(cfg, "RENAME", "ON") == "ON";
    assert ZFill("1", 2) == "01";
    assert "S" + "01" + "E" + "01" + ".mkv" == "S01E01.mkv";
  }

  lemma ExampleSeasonDir(root: string)
    ensures SeasonDir(root, SeriesRule("Show", "Show", "1")) == root + "/Show/Season 1"
  {
    assert Paths.Join(Paths.Join(root, "Show"), "Season " + "1") == root + "/Show/Season 1";
  }

  /** The worked case: `[GroupA] Show 01 (WEB).mkv` lands as
      `Show/Season 1/S01E01.mkv` under the library root. */
  lemma ExamplePlacement(name: string, root: string)
    requires name == "[GroupA] Show 01 (WEB).mkv"
    ensures EpisodeOf(name).Some?
    ensures var cfg := map["LOCALPATCH" := root];
      Destination(cfg, name, SeriesRule("Show", "Show", "1")) == (root + "/Show/Season 1", "S01E01.mkv")
  {
    AnnotatedExample(name);
    ExampleDestination(name, root);
  }
}
