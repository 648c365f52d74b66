/** process_subtitles: when the season directory holds a rule file, the
    subtitle track of a placed episode is extracted to a sidecar `.ass` file,
    rewritten, and remuxed back into the container, which then replaces the
    original. The two external tools are inputs: whether each succeeds, the
    text the extraction produces and the bytes the remux produces. */
module Patch {
  import opened Text
  import Paths
  import opened Files
  import opened Subtitles

  /** How one tool invocation ends: exit status 0, a non-zero exit status
      (subprocess.run raises CalledProcessError, which the program catches),
      or no such executable (subprocess.run raises FileNotFoundError, which
      nothing catches). */
  datatype ToolStatus = Succeeded | Failed | Missing

  /** What the two external tools do for one file. */
  datatype ToolRun = ToolRun(extract: ToolStatus, extracted: string, remux: ToolStatus, remuxed: seq<byte>)

  /** How process_subtitles ends: it returns early without a rule file or
      after a tool fails, it raises (a tool is missing, the rule file does
      not decode, a rule line has other than two fields, or the file to
      replace is gone), or it replaces the container. */
  datatype PatchOutcome = NoRules | ExtractFailed | Crashed | RemuxFailed | Patched

  /** `dest_dir / "replace.txt"`. */
  function RuleFile(dir: string): string
  {
    Paths.Join(dir, "replace.txt")
  }

  /** `file_path.with_suffix('.ass')`. */
  function Sidecar(dir: string, name: string): string
  {
    Paths.Join(dir, Paths.WithSuffix(name, ".ass"))
  }

  /** `file_path.with_name(stem + "_remuxed" + suffix)`. */
  function RemuxedName(name: string): string
  {
    Paths.Stem(name) + "_remuxed" + Paths.Suffix(name)
  }

  /** The lines of a text file read in text mode, without their line ends. */
  function Lines(text: string): seq<string>
  {
    Split(UniversalNewlines(text), '\n')
  }

  /** The rules a rule file yields; None when reading or parsing it raises.
      A rule file held as media stands for one that is not valid UTF-8. */
  function RulesOf(n: Node): Option<Rules>
  {
    if n.Media? then None else ParseRules(Lines(n.text))
  }

  /** The subtitles, read in text mode, after the standard fixes and the
      rules of rule file `n`, or None when reading the rules raises. */
  function Rewritten(extracted: string, n: Node, isWord: char -> bool): (r: Option<string>)
  {
    var rules := RulesOf(n);
    if rules.None? then None else Some(Transform(UniversalNewlines(extracted), rules.value, isWord))
  }

  /** The four paths one run touches. */
  datatype Layout = Layout(file: string, sidecar: string, output: string, ruleFile: string)

  /** The paths for the container `name` in the season directory `dir`. */
  function LayoutOf(dir: string, name: string): Layout
  {
    Layout(Paths.Join(dir, name), Sidecar(dir, name), Paths.Join(dir, RemuxedName(name)), RuleFile(dir))
  }

  /** The library after process_subtitles on the paths `w`, and how it ended.
      `rewrite` gives the rewritten subtitles for the rule file it is handed,
      or None when reading the rules raises; the program's own is
      `RewriteWith(tool.extracted, isWord)`. */
  function AfterPatch(lib: Library, w: Layout, tool: ToolRun, rewrite: Node -> Option<string>): (Library, PatchOutcome)
  {
    if w.ruleFile !in lib then (lib, NoRules)
    else if tool.extract == Missing then (lib, Crashed)
    else if tool.extract == Failed then (lib, ExtractFailed)
    else
      var l1 := lib[w.sidecar := TextFile(tool.extracted)];
      var content := rewrite(l1[w.ruleFile]);
      if content.None? then (l1, Crashed)
      else
        var l2 := l1[w.sidecar := TextFile(content.value)];
        if tool.remux == Missing then (l2, Crashed)
        else if tool.remux == Failed then (l2, RemuxFailed)
        else
          var l3 := l2[w.output := Media(tool.remuxed)];
          if w.file !in l3 then (l3, Crashed)
          else
            var l4 := (l3 - {w.file, w.output})[w.file := l3[w.output]];
            (l4 - {w.sidecar}, Patched)
  }

  /** The rewriting process_subtitles applies to the extracted subtitles. */
  function RewriteWith(extracted: string, isWord: char -> bool): Node -> Option<string>
  {
    (n: Node) => Rewritten(extracted, n, isWord)
  }

  /** Reading the rule file and rewriting the subtitles with its rules. */
  method Rewrite(extracted: string, n: Node, isWord: char -> bool) returns (content: Option<string>)
    ensures content == Rewritten(extracted, n, isWord)
  {
    if n.Media? {
      return None;
    }
    var rules := ParseRules(Lines(n.text));
    if rules.None? {
      return None;
    }
    var text := StandardFix(UniversalNewlines(extracted));
    var i := 0;
    while i < |rules.value|
      invariant 0 <= i <= |rules.value|
      invariant ApplyRules(text, rules.value[i..], isWord) == Transform(UniversalNewlines(extracted), rules.value, isWord)
    {
      assert rules.value[i..][1..] == rules.value[i + 1..];
      text := WordSub(text, rules.value[i].0, rules.value[i].1, isWord);
      i := i + 1;
    }
    return Some(text);
  }

  /** process_subtitles for the container `name` in the season directory `dir`. */
  method ProcessSubtitles(lib: Library, dir: string, name: string, tool: ToolRun, isWord: char -> bool)
    returns (lib': Library, outcome: PatchOutcome)
    ensures (lib', outcome) == AfterPatch(lib, LayoutOf(dir, name), tool, RewriteWith(tool.extracted, isWord))
  {
    lib', outcome := PatchAt(lib, LayoutOf(dir, name), tool, isWord);
  }

  /** process_subtitles on the paths `w`, one file-system step after the other. */
  method PatchAt(lib: Library, w: Layout, tool: ToolRun, isWord: char -> bool)
    returns (lib': Library, outcome: PatchOutcome)
    ensures (lib', outcome) == AfterPatch(lib, w, tool, RewriteWith(tool.extracted, isWord))
  {
    lib' := lib;
    if w.ruleFile !in lib' {
      return lib', NoRules;
    }
    if tool.extract == Missing {
      return lib', Crashed;
    }
    if tool.extract == Failed {
      return lib', ExtractFailed;
    }
    lib' := lib'[w.sidecar := TextFile(tool.extracted)];
    var content := Rewrite(tool.extracted, lib'[w.ruleFile], isWord);
    if content.None? {
      return lib', Crashed;
    }
    lib' := lib'[w.sidecar := TextFile(content.value)];
    if tool.remux == Missing {
      return lib', Crashed;
    }
    if tool.remux == Failed {
      return lib', RemuxFailed;
    }
    lib' := lib'[w.output := Media(tool.remuxed)];
    if w.file !in lib' {
      return lib', Crashed;
    }
    var remuxed := lib'[w.output];
    // unlink the container, then rename the output onto it
    lib' := (lib' - {w.file, w.output})[w.file := remuxed];
    lib' := lib' - {w.sidecar};
    outcome := Patched;
  }

  /** The remuxed name is eight characters longer than the name it comes from. */
  lemma RemuxedNameLength(name: string)
    ensures |RemuxedName(name)| == |name| + 8
  {
    Paths.StemSuffix(name);
  }

  /** The paths of one run are apart as the steps need: the remux output is
      neither the container nor the sidecar nor the rule file, and the
      sidecar (ending in `.ass`) is not the rule file (ending in `.txt`). */
  lemma LayoutDistinct(dir: string, name: string)
    ensures var w := LayoutOf(dir, name);
      w.output != w.file && w.output != w.sidecar && w.output != w.ruleFile && w.sidecar != w.ruleFile
  {
    var w := LayoutOf(dir, name);
    var r := RemuxedName(name);
    var s := Paths.WithSuffix(name, ".ass");
    RemuxedNameLength(name);
    Paths.StemSuffix(name);
    assert r[|Paths.Stem(name)|] == '_';
    assert s[|s| - 1] == 's';
    assert forall k :: 0 <= k < |"replace.txt"| ==> "replace.txt"[k] != '_';
    if w.output == w.file {
      Paths.JoinInjective(dir, r, name);
    }
    if w.output == w.sidecar {
      Paths.JoinInjective(dir, r, s);
    }
    if w.output == w.ruleFile {
      Paths.JoinInjective(dir, r, "replace.txt");
    }
    if w.sidecar == w.ruleFile {
      Paths.JoinInjective(dir, s, "replace.txt");
    }
  }

  /** Nothing happens without a rule file or when the extraction fails or
      its tool is missing. */
  lemma PatchEarlyExits(lib: Library, w: Layout, tool: ToolRun, rewrite: Node -> Option<string>)
    ensures var (lib', o) := AfterPatch(lib, w, tool, rewrite);
      (o == NoRules <==> w.ruleFile !in lib)
      && (o == ExtractFailed <==> w.ruleFile in lib && tool.extract == Failed)
      && (w.ruleFile in lib && tool.extract == Missing ==> o == Crashed)
      && (w.ruleFile !in lib || tool.extract != Succeeded ==> lib' == lib)
  {
  }

  /** The rules raise exactly when the rule file is not text or some line of
      it with a bar does not have two fields; otherwise the subtitles get the
      standard fixes and then every rule in file order. */
  lemma RewrittenSpec(extracted: string, n: Node, isWord: char -> bool)
    ensures Rewritten(extracted, n, isWord).None?
        <==> n.Media? || exists i :: 0 <= i < |Lines(n.text)| && BadRule(Lines(n.text)[i])
    ensures RulesOf(n).Some? ==>
        Rewritten(extracted, n, isWord)
        == Some(ApplyRules(StandardFix(UniversalNewlines(extracted)), RulesOf(n).value, isWord))
  {
    if n.TextFile? {
      ParseRulesFails(Lines(n.text));
    }
  }

  /** A run that raises while reading the rules leaves the extracted subtitles
      beside the container, untransformed, and nothing else changed. */
  lemma PatchCrashOnRules(lib: Library, w: Layout, tool: ToolRun, rewrite: Node -> Option<string>)
    requires w.ruleFile in lib && tool.extract == Succeeded && w.sidecar != w.ruleFile
    requires rewrite(lib[w.ruleFile]).None?
    ensures AfterPatch(lib, w, tool, rewrite) == (lib[w.sidecar := TextFile(tool.extracted)], Crashed)
  {
    var l1 := lib[w.sidecar := TextFile(tool.extracted)];
    assert l1[w.ruleFile] == lib[w.ruleFile];
  }

  /** When the remux fails, or its tool is missing and the run raises, the
      container is untouched and the sidecar holds the rewritten subtitles. */
  lemma PatchRemuxFailed(lib: Library, w: Layout, tool: ToolRun, rewrite: Node -> Option<string>)
    requires w.ruleFile in lib && tool.extract == Succeeded && tool.remux != Succeeded
    requires w.sidecar != w.ruleFile && w.sidecar != w.file
    requires rewrite(lib[w.ruleFile]).Some?
    ensures var (lib', o) := AfterPatch(lib, w, tool, rewrite);
      o == (if tool.remux == Failed then RemuxFailed else Crashed)
      && lib' == lib[w.sidecar := TextFile(rewrite(lib[w.ruleFile]).value)]
      && (w.file in lib ==> w.file in lib' && lib'[w.file] == lib[w.file])
  {
    var l1 := lib[w.sidecar := TextFile(tool.extracted)];
    assert l1[w.ruleFile] == lib[w.ruleFile];
  }

  /** A successful run leaves the remuxed bytes under the container's own
      path, removes both the sidecar and the remux output, and changes
      nothing else. */
  lemma PatchSucceeded(lib: Library, w: Layout, tool: ToolRun, rewrite: Node -> Option<string>)
    requires w.file in lib
    requires w.output != w.file && w.output != w.sidecar && w.sidecar != w.file
    requires AfterPatch(lib, w, tool, rewrite).1 == Patched
    ensures var lib' := AfterPatch(lib, w, tool, rewrite).0;
      w.file in lib' && lib'[w.file] == Media(tool.remuxed)
      && w.sidecar !in lib' && w.output !in lib'
      && (forall k :: k in lib && k != w.file && k != w.output && k != w.sidecar ==> k in lib' && lib'[k] == lib[k])
      && (forall k :: k in lib' ==> k in lib)
  {
  }

  /** The run replaces the container exactly when there is a rule file, both
      tools succeed and the rules can be read. */
  lemma PatchSucceedsIff(lib: Library, w: Layout, tool: ToolRun, rewrite: Node -> Option<string>)
    requires w.file in lib && w.sidecar != w.ruleFile
    ensures AfterPatch(lib, w, tool, rewrite).1 == Patched
        <==> w.ruleFile in lib && tool.extract == Succeeded && tool.remux == Succeeded && rewrite(lib[w.ruleFile]).Some?
  {
    if w.ruleFile in lib {
      var l1 := lib[w.sidecar := TextFile(tool.extracted)];
      assert l1[w.ruleFile] == lib[w.ruleFile];
    }
  }

  /** A run touches only the container, the sidecar and the remux output:
      every other path of the library keeps its file, or stays absent. */
  lemma PatchFrame(lib: Library, w: Layout, tool: ToolRun, rewrite: Node -> Option<string>, k: string)
    requires k != w.file && k != w.sidecar && k != w.output
    ensures var lib' := AfterPatch(lib, w, tool, rewrite).0;
      (k in lib' <==> k in lib) && (k in lib ==> lib'[k] == lib[k])
  {
  }
}
