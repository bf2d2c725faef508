/** The plugin list: one configuration for each "- app:" line, handed to a callback when the
    next one starts or the file ends (game_patch/plugins.c:7-247).
  */
module Plugins {
  import opened CText
  import opened QuotedText
  import opened StringList
  import LineReader

  /** What the callback sees. */
  datatype Config = Config(appId: Option<string>, versions: seq<string>, isList: bool, plugins: seq<string>)

  const EMPTY: Config := Config(None, [], false, [])

  /** What a line asks for; only a header counts before the first header, and a path counts only
      in a plugins section. */
  datatype Line =
    | Nothing
    | Header(appId: Option<string>)
    | VersionList(versions: seq<string>)
    | Version(version: Option<string>)
    | Section
    | Path(path: Option<string>)

  function Content(line: string): string {
    line[SkipSpace(line, 0)..]
  }

  function Classify(line: string): Line {
    var content := Content(line);
    if IsCommentOrEmpty(line) then Nothing
    else if StartsWith(content, "- app:") then Header(ParseQuoted(content[6..]))
    else if Contains(content, "app_ver:") then
      if IsListValue(content) then VersionList(ParseList(content, MAX_APP_VERS))
      else Version(ParseQuoted(AfterVersionKey(content)))
    else if Contains(content, "plugins:") then Section
    else if At(content, 0) == '-' then Path(ParseQuoted(Content(content[1..])))
    else Nothing
  }

  function AfterVersionKey(content: string): string
    requires Contains(content, "app_ver:")
  {
    FindIsFirst(content, "app_ver:", 0);
    content[Find(content, "app_ver:", 0) + 8..]
  }

  // ----- The streaming state machine -----

  datatype Ctx = Ctx(has: bool, inPlugins: bool, config: Config, trace: seq<Config>)

  const START: Ctx := Ctx(false, false, EMPTY, [])

  function Emit(ctx: Ctx): Ctx {
    if ctx.has then Ctx(false, false, EMPTY, ctx.trace + [ctx.config]) else ctx
  }

  /** A line inside a configuration. */
  function Amend(config: Config, inPlugins: bool, line: Line): Config {
    match line
    case VersionList(vs) => config.(isList := true, versions := if vs != [] then vs else config.versions)
    case Version(v) => config.(isList := false, versions := if v.Some? then [v.value] else config.versions)
    case Path(p) => if inPlugins && p.Some? then config.(plugins := config.plugins + [p.value]) else config
    case _ => config
  }

  function Step(ctx: Ctx, line: Line): Ctx {
    match line
    case Header(id) =>
      var done := Emit(ctx);
      Ctx(true, false, if id.Some? then done.config.(appId := id) else done.config, done.trace)
    case _ =>
      if !ctx.has then ctx
      else ctx.(config := Amend(ctx.config, ctx.inPlugins, line), inPlugins := ctx.inPlugins || line.Section?)
  }

  function Fold(ctx: Ctx, lines: seq<Line>, i: nat): Ctx
    decreases |lines| - i
  {
    if i >= |lines| then ctx else Fold(Step(ctx, lines[i]), lines, i + 1)
  }

  /** Every line, then the last configuration. */
  function Trace(lines: seq<Line>): seq<Config> {
    Emit(Fold(START, lines, 0)).trace
  }

  // ----- Grouping -----

  /** The next header from `i` on, or the length. */
  function NextHeader(lines: seq<Line>, i: nat): (h: nat)
    ensures i <= |lines| ==> i <= h <= |lines|
    ensures h < |lines| ==> lines[h].Header?
    decreases |lines| - i
  {
    if i >= |lines| then |lines| else if lines[i].Header? then i else NextHeader(lines, i + 1)
  }

  /** The configuration made of the lines from `i` up to `n`. */
  function Body(config: Config, inPlugins: bool, lines: seq<Line>, i: nat, n: nat): Config
    requires n <= |lines|
    decreases n - i
  {
    if i >= n then config
    else Body(Amend(config, inPlugins, lines[i]), inPlugins || lines[i].Section?, lines, i + 1, n)
  }

  /** The configuration of the header at `h`: it depends on the lines up to the next header and
      on nothing else. */
  function ConfigAt(lines: seq<Line>, h: nat): Config
    requires h < |lines| && lines[h].Header?
  {
    Body(EMPTY.(appId := lines[h].appId), false, lines, h + 1, NextHeader(lines, h + 1))
  }

  function ConfigsFrom(lines: seq<Line>, i: nat): seq<Config>
    decreases |lines| - i
  {
    var h := NextHeader(lines, i);
    if i >= |lines| || h == |lines| then [] else [ConfigAt(lines, h)] + ConfigsFrom(lines, h + 1)
  }

  lemma {:induction false} FoldWithin(ctx: Ctx, lines: seq<Line>, i: nat)
    requires ctx.has && i <= |lines|
    ensures var h := NextHeader(lines, i);
            Emit(Fold(ctx, lines, i)).trace
            == ctx.trace + ([Body(ctx.config, ctx.inPlugins, lines, i, h)] + ConfigsFrom(lines, h))
    decreases |lines| - i
  {
    if i == |lines| {
      Regroup(ctx.trace, ctx.config, []);
    } else if lines[i].Header? {
      var next := Step(ctx, lines[i]);
      FoldWithin(next, lines, i + 1);
      ConfigsSkip(lines, i + 1);
      Regroup(ctx.trace, ctx.config, ConfigsFrom(lines, i));
    } else {
      FoldWithin(Step(ctx, lines[i]), lines, i + 1);
    }
  }

  lemma Regroup(trace: seq<Config>, config: Config, rest: seq<Config>)
    ensures (trace + [config]) + rest == trace + ([config] + rest) && trace + [] == trace
  {
  }

  lemma ConfigsSkip(lines: seq<Line>, i: nat)
    ensures ConfigsFrom(lines, i) == ConfigsFrom(lines, NextHeader(lines, i))
  {
  }

  lemma {:induction false} FoldBefore(lines: seq<Line>, i: nat)
    requires i <= |lines|
    ensures Emit(Fold(START, lines, i)).trace == ConfigsFrom(lines, i)
    decreases |lines| - i
  {
    if i < |lines| {
      if lines[i].Header? {
        var next := Step(START, lines[i]);
        FoldWithin(next, lines, i + 1);
        ConfigsSkip(lines, i + 1);
      } else {
        FoldBefore(lines, i + 1);
      }
    }
  }

  /** For any lines, the callback sees exactly one configuration for each header, in order. */
  lemma TraceIsGrouping(lines: seq<Line>)
    ensures Trace(lines) == ConfigsFrom(lines, 0)
  {
    FoldBefore(lines, 0);
  }

  // ----- What a configuration holds -----

  /** The paths in the section lines from `i` up to `n`, in file order. */
  function Paths(lines: seq<Line>, i: nat, n: nat, inPlugins: bool): seq<string>
    requires n <= |lines|
    decreases n - i
  {
    if i >= n then []
    else
      (if inPlugins && lines[i].Path? && lines[i].path.Some? then [lines[i].path.value] else [])
      + Paths(lines, i + 1, n, inPlugins || lines[i].Section?)
  }

  lemma AmendPaths(config: Config, inPlugins: bool, line: Line, rest: seq<string>)
    ensures var own := if inPlugins && line.Path? && line.path.Some? then [line.path.value] else [];
            Amend(config, inPlugins, line).plugins + rest == config.plugins + (own + rest)
    ensures Amend(config, inPlugins, line).appId == config.appId
  {
  }

  lemma {:induction false} BodyPaths(config: Config, inPlugins: bool, lines: seq<Line>, i: nat, n: nat)
    requires n <= |lines|
    ensures Body(config, inPlugins, lines, i, n).plugins == config.plugins + Paths(lines, i, n, inPlugins)
    ensures Body(config, inPlugins, lines, i, n).appId == config.appId
    decreases n - i
  {
    if i < n {
      BodyPaths(Amend(config, inPlugins, lines[i]), inPlugins || lines[i].Section?, lines, i + 1, n);
      AmendPaths(config, inPlugins, lines[i], Paths(lines, i + 1, n, inPlugins || lines[i].Section?));
    }
  }

  /** The last line from `i` up to `n` that sets versions decides them. */
  function LastVersions(lines: seq<Line>, i: nat, n: nat): seq<string>
    requires i <= n <= |lines|
    decreases n - i
  {
    if i == n then []
    else
      match lines[n - 1]
      case VersionList(vs) => if vs != [] then vs else LastVersions(lines, i, n - 1)
      case Version(v) => if v.Some? then [v.value] else LastVersions(lines, i, n - 1)
      case _ => LastVersions(lines, i, n - 1)
  }

  /** Whether that last line, be it empty, is a list. */
  function LastIsList(lines: seq<Line>, i: nat, n: nat): bool
    requires i <= n <= |lines|
    decreases n - i
  {
    if i == n then false
    else if lines[n - 1].VersionList? then true
    else if lines[n - 1].Version? then false
    else LastIsList(lines, i, n - 1)
  }

  /** Whether a section has begun between `i` and `n`. */
  function InSection(inPlugins: bool, lines: seq<Line>, i: nat, n: nat): bool
    requires n <= |lines|
    decreases n - i
  {
    if i >= n then inPlugins else InSection(inPlugins || lines[i].Section?, lines, i + 1, n)
  }

  lemma {:induction false} BodySnoc(config: Config, inPlugins: bool, lines: seq<Line>, i: nat, n: nat)
    requires i < n <= |lines|
    ensures Body(config, inPlugins, lines, i, n)
         == Amend(Body(config, inPlugins, lines, i, n - 1), InSection(inPlugins, lines, i, n - 1), lines[n - 1])
    decreases n - i
  {
    if i + 1 < n {
      BodySnoc(Amend(config, inPlugins, lines[i]), inPlugins || lines[i].Section?, lines, i + 1, n);
    }
  }

  lemma {:induction false} BodyVersions(config: Config, inPlugins: bool, lines: seq<Line>, i: nat, n: nat)
    requires i <= n <= |lines| && config.versions == [] && !config.isList
    ensures Body(config, inPlugins, lines, i, n).versions == LastVersions(lines, i, n)
    ensures Body(config, inPlugins, lines, i, n).isList == LastIsList(lines, i, n)
    decreases n - i
  {
    if i < n {
      BodySnoc(config, inPlugins, lines, i, n);
      BodyVersions(config, inPlugins, lines, i, n - 1);
    }
  }

  /** The configuration of a header: its own name, the paths of its section in file order, the
      versions of its last version line that has any, and whether the last of those lines is a list. */
  lemma ConfigContents(lines: seq<Line>, h: nat)
    requires h < |lines| && lines[h].Header?
    ensures var n := NextHeader(lines, h + 1);
            var c := ConfigAt(lines, h);
            c.appId == lines[h].appId && c.plugins == Paths(lines, h + 1, n, false) &&
              c.versions == LastVersions(lines, h + 1, n) && c.isList == LastIsList(lines, h + 1, n)
  {
    var n := NextHeader(lines, h + 1);
    var start := EMPTY.(appId := lines[h].appId);
    BodyPaths(start, false, lines, h + 1, n);
    BodyVersions(start, false, lines, h + 1, n);
    assert [] + Paths(lines, h + 1, n, false) == Paths(lines, h + 1, n, false);
  }

  // ----- The parser and the strings it owns -----

  /** A string on the heap. */
  class CString {
    const text: string

    constructor (text: string)
      ensures this.text == text
    {
      this.text := text;
    }
  }

  function Texts(strings: seq<CString>): (r: seq<string>)
    ensures |r| == |strings|
  {
    seq(|strings|, i requires 0 <= i < |strings| => strings[i].text)
  }

  ghost predicate Distinct(strings: seq<CString>) {
    forall i, j :: 0 <= i < j < |strings| ==> strings[i] != strings[j]
  }

  ghost function Members(strings: seq<CString>): set<CString> {
    set s | s in strings
  }

  /** One new string for each text. */
  method NewStrings(texts: array<string>, count: nat) returns (strings: seq<CString>)
    requires count <= texts.Length
    ensures Texts(strings) == texts[..count] && Distinct(strings) && forall s :: s in strings ==> fresh(s)
  {
    strings := [];
    for i := 0 to count
      invariant Texts(strings) == texts[..i] && Distinct(strings) && forall s :: s in strings ==> fresh(s)
    {
      var s := new CString(texts[i]);
      strings := strings + [s];
    }
  }

  class PluginParser {
    var hasCurrentConfig: bool
    var inPluginsSection: bool
    var appId: CString?
    var appVersions: seq<CString>
    var isAppVerList: bool
    var plugins: seq<CString>
    var emitted: seq<Config>
    ghost var freed: set<CString>

    /** The strings that the current configuration owns. */
    ghost function Owned(): set<CString>
      reads this
    {
      (if appId == null then {} else {appId}) + Members(appVersions) + Members(plugins)
    }

    /** No string is owned twice, and no owned string has been freed. */
    ghost predicate Valid()
      reads this
    {
      && Distinct(appVersions) && Distinct(plugins)
      && Members(appVersions) !! Members(plugins)
      && appId !in appVersions && appId !in plugins
      && Owned() !! freed
    }

    function Current(): Config
      reads this
    {
      Config(if appId == null then None else Some(appId.text), Texts(appVersions), isAppVerList, Texts(plugins))
    }

    function View(): Ctx
      reads this
    {
      Ctx(hasCurrentConfig, inPluginsSection, Current(), emitted)
    }

    constructor ()
      ensures Valid() && View() == START && freed == {}
    {
      hasCurrentConfig, inPluginsSection, appId, appVersions, isAppVerList := false, false, null, [], false;
      plugins, emitted, freed := [], [], {};
    }

    /** free: a string may be freed only once. */
    method Free(s: CString)
      requires s !in freed
      modifies this`freed
      ensures freed == old(freed) + {s}
    {
      freed := freed + {s};
    }

    method FreeAll(strings: seq<CString>)
      requires Distinct(strings) && Members(strings) !! freed
      modifies this`freed
      ensures freed == old(freed) + Members(strings)
    {
      for i := 0 to |strings|
        invariant freed == old(freed) + Members(strings[..i])
      {
        Free(strings[i]);
        assert strings[..i + 1] == strings[..i] + [strings[i]];
      }
      assert strings[..|strings|] == strings;
    }

    /** Frees what the configuration owns and clears it. */
    method FreePluginConfig()
      requires Valid()
      modifies this`appId, this`appVersions, this`isAppVerList, this`plugins, this`freed
      ensures Valid() && Current() == EMPTY && Owned() == {} && freed == old(freed + Owned())
    {
      if appId != null {
        Free(appId);
      }
      FreeAll(appVersions);
      FreeAll(plugins);
      appId, appVersions, isAppVerList, plugins := null, [], false, [];
    }

    /** Hands the current configuration, if there is one, to the callback. */
    method EmitCurrentConfig()
      requires Valid()
      modifies this
      ensures Valid() && View() == Emit(old(View()))
      ensures freed == old(if hasCurrentConfig then freed + Owned() else freed)
    {
      if !hasCurrentConfig {
        return;
      }
      emitted := emitted + [Current()];
      FreePluginConfig();
      hasCurrentConfig, inPluginsSection := false, false;
    }

    method AddPlugin(pluginPath: string) returns (added: bool)
      requires Valid() && NulFree(pluginPath)
      modifies this`plugins
      ensures Valid() && added == ParseQuoted(pluginPath).Some?
      ensures Current() == old(Current()).(plugins := old(Current()).plugins + AsSeq(ParseQuoted(pluginPath)))
    {
      var path := ParseQuotedString(pluginPath);
      if path.None? {
        return false;
      }
      var s := new CString(path.value);
      plugins := plugins + [s];
      assert Texts(plugins) == Texts(old(plugins)) + [path.value];
      return true;
    }

    /** A list of versions replaces the current one unless it is empty. */
    method SetVersionList(content: string)
      requires Valid() && NulFree(content)
      modifies this`isAppVerList, this`appVersions
      ensures Valid() &&
              Current() == Amend(old(Current()), inPluginsSection, VersionList(ParseList(content, MAX_APP_VERS)))
    {
      isAppVerList := true;
      var versions := new string[MAX_APP_VERS](_ => "");
      var count := ParseStringList(content, versions, MAX_APP_VERS);
      if count > 0 {
        appVersions := NewStrings(versions, count);
      }
    }

    method SetVersion(value: string)
      requires Valid() && NulFree(value)
      modifies this`isAppVerList, this`appVersions
      ensures Valid() && Current() == Amend(old(Current()), inPluginsSection, Version(ParseQuoted(value)))
    {
      isAppVerList := false;
      var version := ParseQuotedString(value);
      if version.Some? {
        var s := new CString(version.value);
        appVersions := [s];
        assert Texts(appVersions) == [version.value];
      }
    }

    /** Starts a configuration; a header without a quoted name leaves it unnamed. */
    method StartConfig(value: string)
      requires Valid() && NulFree(value)
      modifies this
      ensures Valid() && View() == Step(old(View()), Header(ParseQuoted(value)))
      ensures old(freed) <= freed
    {
      EmitCurrentConfig();
      hasCurrentConfig, inPluginsSection := true, false;
      var app := ParseQuotedString(value);
      if app.Some? {
        appId := new CString(app.value);
      }
    }

    /** A line inside a configuration, or one that is skipped. */
    method ProcessContent(content: string, ghost line: string)
      requires Valid() && NulFree(content) && content == Content(line)
      requires !IsCommentOrEmpty(line) && !StartsWith(content, "- app:")
      modifies this`inPluginsSection, this`isAppVerList, this`appVersions, this`plugins
      ensures Valid() && View() == Step(old(View()), Classify(line))
    {
      if !hasCurrentConfig {
        return;
      }
      var version := Strstr(content, "app_ver:");
      if version.Some? {
        FindIsFirst(content, "app_ver:", 0);
        if IsListValue(content) {
          SetVersionList(content);
        } else {
          SetVersion(content[version.value + 8..]);
        }
        return;
      }
      var section := Strstr(content, "plugins:");
      if section.Some? {
        inPluginsSection := true;
      } else if inPluginsSection && At(content, 0) == '-' {
        var added := AddPlugin(Content(content[1..]));
      }
    }

    method ProcessLine(line: string)
      requires Valid() && NulFree(line)
      modifies this
      ensures Valid() && View() == Step(old(View()), Classify(line)) && old(freed) <= freed
    {
      if IsCommentOrEmpty(line) {
        return;
      }
      var content := Content(line);
      if StartsWith(content, "- app:") {
        StartConfig(content[6..]);
      } else {
        ProcessContent(content, line);
      }
    }

    /** The whole file: the callback has seen one configuration for each header. */
    method ParsePlugin(content: string)
      requires Valid() && View() == START
      requires LineReader.LinesFit(content, 0) && (content != [] ==> content[|content| - 1] != LineReader.CR)
      modifies this
      ensures Valid() && emitted == ConfigsFrom(LineReader.LinesAs(content, 0, Classify), 0) && !hasCurrentConfig
    {
      var file := new LineReader.ByteFile(content);
      var bytesReadAll, writtenAll: nat := 0, 0;
      ghost var lines := LineReader.LinesAs(content, 0, Classify);
      ghost var k: nat := 0;
      while bytesReadAll < |content|
        invariant Valid() && file.Valid() && fresh(file) && file.content == content && bytesReadAll == file.pos
        invariant LineReader.LinesFit(content, file.pos)
        invariant k <= |lines| && lines[k..] == LineReader.LinesAs(content, file.pos, Classify) &&
                  Fold(START, lines, 0) == Fold(View(), lines, k)
        decreases |content| - file.pos
      {
        var line := new char[MAX_LINE_LENGTH + 1](_ => NUL);
        ghost var pos := file.pos;
        var bytesRead, bytesWritten := LineReader.FileReadLine(file, line, writtenAll);
        if bytesRead == 0 {
          break;
        }
        bytesReadAll := bytesReadAll + bytesRead;
        var text := Cut(line[..bytesWritten - writtenAll]);
        CutFacts(line[..bytesWritten - writtenAll]);
        writtenAll := bytesWritten;
        LineReader.LineTaken(content, pos, Classify, lines, k);
        k := k + 1;
        ProcessLine(text);
      }
      EmitCurrentConfig();
      TraceIsGrouping(lines);
    }
  }
}
