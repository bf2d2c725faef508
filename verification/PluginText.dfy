/** From the text of a plugin list to the configurations that the callback sees
    (game_patch/plugins.c:124-246).
  */
module PluginText {
  import opened CText
  import opened QuotedText
  import opened StringList
  import opened ListText
  import opened Plugins
  import LineText
  import LineReader

  /** The text of a line behind its indentation. */
  predicate IsContent(body: string) {
    body != [] && !IsSpace(body[0]) && body[0] != '#'
  }

  ghost predicate HeaderText(body: string) {
    exists rest: string :: body == "- app:" + rest
  }

  // ----- Which key decides -----

  lemma Indented(before: string, body: string)
    requires AllSpace(before) && IsContent(body)
    ensures Content(before + body) == body && !IsCommentOrEmpty(before + body)
  {
    var line, n := before + body, |before|;
    assert line[n] == body[0] && line[n..] == body;
    SkipsAll(line, 0, n);
  }

  lemma HeaderTextExactly(body: string)
    ensures StartsWith(body, "- app:") <==> HeaderText(body)
  {
    if StartsWith(body, "- app:") {
      assert body == "- app:" + body[6..];
    }
    if HeaderText(body) {
      var rest :| body == "- app:" + rest;
      assert body[..6] == "- app:";
    }
  }

  lemma KeyFound(before: string, body: string, key: string)
    requires AllSpace(before) && LineText.IsKey(key)
    ensures Contains(body, key) <==> Occurs(before + body, key)
  {
    LineText.FoundExactly(before, body, [], key);
    assert before + body + [] == before + body;
  }

  /** The tests on a line that is no remark, in their order. */
  lemma Decides(before: string, body: string)
    requires AllSpace(before) && IsContent(body)
    ensures var line := before + body;
            && (Classify(line).Header? <==> HeaderText(body))
            && (Classify(line).VersionList? || Classify(line).Version? <==>
                Occurs(line, "app_ver:") && !HeaderText(body))
            && (Classify(line) == Section <==>
                Occurs(line, "plugins:") && !Occurs(line, "app_ver:") && !HeaderText(body))
            && (Classify(line).Path? <==>
                body[0] == '-' && !Occurs(line, "plugins:") && !Occurs(line, "app_ver:") && !HeaderText(body))
  {
    Indented(before, body);
    HeaderTextExactly(body);
    KeyFound(before, body, "app_ver:");
    KeyFound(before, body, "plugins:");
  }

  /** Blank lines and remarks say nothing. */
  lemma Remarks(before: string, text: string)
    requires AllSpace(before)
    ensures Classify(before) == Nothing && Classify(before + "#" + text) == Nothing
  {
    SkipsAll(before, 0, |before|);
    var line := before + "#" + text;
    assert line[|before|] == '#';
    SkipsAll(line, 0, |before|);
  }

  // ----- Headers -----

  /** A header names its application by the first quoted text behind the key. */
  lemma HeaderLine(before: string, gap: string, name: string, after: string)
    requires AllSpace(before) && QUOTE !in gap && NulFree(name)
    ensures Classify(before + ("- app:" + (gap + Quoted(name) + after))) == Header(Some(name))
  {
    var rest := gap + Quoted(name) + after;
    var body := "- app:" + rest;
    Indented(before, body);
    assert body[..6] == "- app:" && body[6..] == rest;
    QuotedRoundTrip(gap, name, after);
  }

  /** Without a quoted text it starts a configuration without a name. */
  lemma UnnamedHeader(before: string, rest: string)
    requires AllSpace(before) && ParseQuoted(rest) == None
    ensures Classify(before + ("- app:" + rest)) == Header(None)
  {
    var body := "- app:" + rest;
    Indented(before, body);
    assert body[..6] == "- app:" && body[6..] == rest;
  }

  // ----- Versions -----

  /** Text before the key of a version line. */
  predicate IsFront(front: string) {
    ':' !in front && (front != [] ==> !IsSpace(front[0]) && front[0] != '#')
  }

  lemma HeaderColon(body: string)
    ensures HeaderText(body) ==> |body| >= 6 && body[5] == ':'
  {
  }

  lemma KeyColon(body: string, i: nat)
    ensures OccursAt(body, "app_ver:", i) ==> i + 8 <= |body| && body[i + 7] == ':'
  {
    if OccursAt(body, "app_ver:", i) {
      assert body[i..i + 8][7] == body[i + 7];
    }
  }

  /** The first colon of the text ends the key at `n`. */
  ghost predicate KeyAt(body: string, n: nat) {
    OccursAt(body, "app_ver:", n) && forall k :: 0 <= k < n + 7 && k < |body| ==> body[k] != ':'
  }

  lemma FrontIsContent(front: string, value: string)
    requires IsFront(front)
    ensures IsContent(front + "app_ver:" + value)
  {
    var body := front + "app_ver:" + value;
    if front == [] {
      assert body[0] == 'a' && !IsSpace('a');
    } else {
      assert body[0] == front[0];
    }
  }

  lemma FirstColonAt(front: string, value: string)
    requires IsFront(front)
    ensures KeyAt(front + "app_ver:" + value, |front|)
  {
    var body, n := front + "app_ver:" + value, |front|;
    assert body[n..n + 8] == "app_ver:";
    forall k | 0 <= k < n + 7
      ensures body[k] != ':'
    {
      assert k < n ==> body[k] == front[k];
      assert n <= k ==> body[k] == "app_ver"[k - n];
    }
  }

  lemma KeyFirst(front: string, value: string)
    requires IsFront(front)
    ensures var body := front + "app_ver:" + value;
            IsContent(body) && KeyAt(body, |front|) && body[|front| + 8..] == value
  {
    FrontIsContent(front, value);
    FirstColonAt(front, value);
  }

  lemma KeyDecides(body: string, n: nat)
    requires KeyAt(body, n)
    ensures !StartsWith(body, "- app:") && Contains(body, "app_ver:") && Find(body, "app_ver:", 0) == n
  {
    FindIsFirst(body, "app_ver:", 0);
    KeyColon(body, Find(body, "app_ver:", 0));
    HeaderColon(body);
    HeaderTextExactly(body);
  }

  /** A line whose first colon ends the key. */
  lemma VersionCase(before: string, body: string, n: nat)
    requires AllSpace(before) && IsContent(body) && KeyAt(body, n)
    ensures Classify(before + body)
         == if IsListValue(body) then VersionList(ParseList(body, 16)) else Version(ParseQuoted(body[n + 8..]))
  {
    KeyDecides(body, n);
    Indented(before, body);
  }

  lemma ListBehind(front: string, gap: string, value: string)
    requires IsFront(front) && AllSpace(gap) && value != [] && !IsSpace(value[0])
    ensures IsListValue(front + "app_ver:" + gap + value) <==> value[0] == '['
  {
    var key := front + "app_ver:";
    assert key[|key| - 1] == ':';
    forall k | 0 <= k < |key| - 1
      ensures key[k] != ':'
    {
      assert k < |front| ==> key[k] == front[k];
      assert |front| <= k ==> key[k] == "app_ver"[k - |front|];
    }
    LineText.ListValueExactly(key, gap, value);
  }

  lemma ListBody(front: string, gap: string, ps: seq<Piece>, rest: string, body: string)
    requires IsFront(front) && OPEN !in front && AllSpace(gap) && GoodPieces(ps)
    requires |front + "app_ver:" + gap + ListOf(ps)| <= 1024
    requires body == front + "app_ver:" + (gap + ListOf(ps) + rest)
    ensures IsListValue(body) && ParseList(body, 16) == FirstOf(Values(ps, 0), 16)
  {
    var list := ListOf(ps);
    var prefix := front + "app_ver:" + gap;
    assert body == prefix + (list + rest) == prefix + list + rest;
    assert list[0] == OPEN;
    ListBehind(front, gap, list + rest);
    NotInSpace(front, gap);
    WrittenList(prefix, ps, rest, 16);
  }

  lemma NotInSpace(front: string, gap: string)
    requires OPEN !in front && AllSpace(gap)
    ensures OPEN !in front + "app_ver:" + gap
  {
  }

  /** A bracket behind the first colon starts a list: its first sixteen items. */
  lemma VersionsLine(before: string, front: string, gap: string, ps: seq<Piece>, rest: string)
    requires AllSpace(before) && IsFront(front) && OPEN !in front && AllSpace(gap) && GoodPieces(ps)
    requires |front + "app_ver:" + gap + ListOf(ps)| <= 1024
    ensures Classify(before + (front + "app_ver:" + (gap + ListOf(ps) + rest)))
         == VersionList(FirstOf(Values(ps, 0), 16))
  {
    var value := gap + ListOf(ps) + rest;
    var body := front + "app_ver:" + value;
    KeyFirst(front, value);
    ListBody(front, gap, ps, rest, body);
    VersionCase(before, body, |front|);
  }

  lemma QuotedBody(front: string, gap: string, version: string, rest: string, body: string)
    requires IsFront(front) && AllSpace(gap) && NulFree(version)
    requires body == front + "app_ver:" + (gap + Quoted(version) + rest)
    ensures !IsListValue(body) && ParseQuoted(gap + Quoted(version) + rest) == Some(version)
  {
    var value := Quoted(version) + rest;
    assert body == front + "app_ver:" + gap + value;
    assert value[0] == QUOTE;
    ListBehind(front, gap, value);
    QuotedRoundTrip(gap, version, rest);
  }

  /** Otherwise the first quoted text behind the key, whatever is quoted before it. */
  lemma VersionLine(before: string, front: string, gap: string, version: string, rest: string)
    requires AllSpace(before) && IsFront(front) && AllSpace(gap) && NulFree(version)
    ensures Classify(before + (front + "app_ver:" + (gap + Quoted(version) + rest))) == Version(Some(version))
  {
    var value := gap + Quoted(version) + rest;
    var body := front + "app_ver:" + value;
    KeyFirst(front, value);
    QuotedBody(front, gap, version, rest, body);
    VersionCase(before, body, |front|);
  }

  /** Without a quoted text behind the key there is no version. */
  lemma NoVersion(before: string, front: string, value: string)
    requires AllSpace(before) && IsFront(front) && OPEN !in front && OPEN !in value && QUOTE !in value
    ensures Classify(before + (front + "app_ver:" + value)) == Version(None)
  {
    var body := front + "app_ver:" + value;
    KeyFirst(front, value);
    assert OPEN !in body;
    IndexOfIs(value, QUOTE, 0, |value|);
    VersionCase(before, body, |front|);
  }

  // ----- Paths -----

  /** A dash and a quoted path, if and only if nothing above decides. */
  lemma PathLine(before: string, gap: string, path: string, after: string)
    requires AllSpace(before) && QUOTE !in gap && NulFree(path)
    ensures var body := "-" + (gap + Quoted(path) + after);
            Classify(before + body) == Path(Some(path)) <==>
            && !HeaderText(body) && !Occurs(before + body, "app_ver:") && !Occurs(before + body, "plugins:")
  {
    var value := gap + Quoted(path) + after;
    var body := "-" + value;
    Decides(before, body);
    Indented(before, body);
    assert body[1..] == value;
    SpaceSkipped(gap, path, after);
  }

  lemma SpaceSkipped(gap: string, path: string, after: string)
    requires QUOTE !in gap && NulFree(path)
    ensures ParseQuoted(Content(gap + Quoted(path) + after)) == Some(path)
  {
    var value := gap + Quoted(path) + after;
    var i := SkipSpace(gap, 0);
    assert value[|gap|] == QUOTE;
    SkipSame(gap, value, 0);
    assert value[i..] == gap[i..] + Quoted(path) + after;
    QuotedRoundTrip(gap[i..], path, after);
  }

  lemma {:induction false} SkipSame(a: string, s: string, i: nat)
    requires i <= |a| < |s| && a <= s && !IsSpace(s[|a|])
    ensures SkipSpace(s, i) == SkipSpace(a, i)
    decreases |a| - i
  {
    if i < |a| && IsSpace(a[i]) {
      SkipSame(a, s, i + 1);
    }
  }

  /** A line without a quoted text behind its dash names no plugin. */
  lemma NoPath(before: string, rest: string)
    requires AllSpace(before) && QUOTE !in rest
    ensures Classify(before + ("-" + rest)).Path? ==> Classify(before + ("-" + rest)) == Path(None)
  {
    var body := "-" + rest;
    Indented(before, body);
    assert body[1..] == rest;
    var text := Content(rest);
    assert QUOTE !in text;
    IndexOfIs(text, QUOTE, 0, |text|);
  }

  // ----- Written lines -----

  datatype Source =
    | Blank(before: string)
    | Remark(before: string, text: string)
    | AppIs(before: string, gap: string, name: string, rest: string)
    | VersionsAre(before: string, front: string, gap: string, versions: seq<Piece>, rest: string)
    | VersionIs(before: string, front: string, gap: string, version: string, rest: string)
    | PluginsBegin(before: string, front: string, rest: string)
    | PluginIs(before: string, gap: string, path: string, rest: string)

  function BodyOf(s: Source): string {
    match s
    case Blank(_) => []
    case Remark(_, text) => "#" + text
    case AppIs(_, gap, name, rest) => "- app:" + (gap + Quoted(name) + rest)
    case VersionsAre(_, front, gap, versions, rest) => front + "app_ver:" + (gap + ListOf(versions) + rest)
    case VersionIs(_, front, gap, version, rest) => front + "app_ver:" + (gap + Quoted(version) + rest)
    case PluginsBegin(_, front, rest) => front + "plugins:" + rest
    case PluginIs(_, gap, path, rest) => "-" + (gap + Quoted(path) + rest)
  }

  function SourceText(s: Source): string {
    s.before + BodyOf(s)
  }

  /** What the line asks for. */
  function Meaning(s: Source): Line {
    match s
    case Blank(_) => Nothing
    case Remark(_, _) => Nothing
    case AppIs(_, _, name, _) => Header(Some(name))
    case VersionsAre(_, _, _, versions, _) => VersionList(FirstOf(Values(versions, 0), 16))
    case VersionIs(_, _, _, version, _) => Version(Some(version))
    case PluginsBegin(_, _, _) => Section
    case PluginIs(_, _, path, _) => Path(Some(path))
  }

  /** The line is well formed, and no key that is looked for earlier occurs in it. */
  ghost predicate GoodSource(s: Source) {
    AllSpace(s.before) &&
    match s
    case Blank(_) => true
    case Remark(_, _) => true
    case AppIs(_, gap, name, _) => QUOTE !in gap && NulFree(name)
    case VersionsAre(_, front, gap, versions, _) =>
      && IsFront(front) && OPEN !in front && AllSpace(gap) && GoodPieces(versions)
      && |front + "app_ver:" + gap + ListOf(versions)| <= 1024
    case VersionIs(_, front, gap, version, _) => IsFront(front) && AllSpace(gap) && NulFree(version)
    case PluginsBegin(_, front, _) =>
      IsContent(BodyOf(s)) && !HeaderText(BodyOf(s)) && !Occurs(SourceText(s), "app_ver:")
    case PluginIs(_, gap, path, _) =>
      && QUOTE !in gap && NulFree(path) && !HeaderText(BodyOf(s))
      && !Occurs(SourceText(s), "app_ver:") && !Occurs(SourceText(s), "plugins:")
  }

  lemma SectionReads(before: string, front: string, rest: string)
    requires var body := front + "plugins:" + rest;
             && AllSpace(before) && IsContent(body) && !HeaderText(body) && !Occurs(before + body, "app_ver:")
    ensures Classify(before + (front + "plugins:" + rest)) == Section
  {
    var body := front + "plugins:" + rest;
    var line, n := before + body, |before| + |front|;
    assert line[n..n + 8] == "plugins:";
    assert OccursAt(line, "plugins:", n);
    Decides(before, body);
  }

  /** Every written line asks for what it means. */
  lemma SourceReads(s: Source)
    requires GoodSource(s)
    ensures Classify(SourceText(s)) == Meaning(s)
  {
    match s
    case Blank(before) =>
      Remarks(before, []);
      assert before + [] == before;
    case Remark(before, text) =>
      Remarks(before, text);
      assert before + ("#" + text) == before + "#" + text;
    case AppIs(before, gap, name, rest) => HeaderLine(before, gap, name, rest);
    case VersionsAre(before, front, gap, versions, rest) => VersionsLine(before, front, gap, versions, rest);
    case VersionIs(before, front, gap, version, rest) => VersionLine(before, front, gap, version, rest);
    case PluginsBegin(before, front, rest) => SectionReads(before, front, rest);
    case PluginIs(before, gap, path, rest) => PathLine(before, gap, path, rest);
  }

  // ----- Whole files -----

  function Meanings(ss: seq<Source>): (lines: seq<Line>)
    ensures |lines| == |ss|
  {
    seq(|ss|, k requires 0 <= k < |ss| => Meaning(ss[k]))
  }

  ghost predicate GoodLine(s: Source) {
    GoodSource(s) && NulFree(SourceText(s)) && LineReader.Plain(SourceText(s))
  }

  ghost predicate Prints(lines: seq<LineReader.TextLine>, ss: seq<Source>) {
    |lines| == |ss| && forall k :: 0 <= k < |ss| ==> lines[k].text == SourceText(ss[k]) && GoodLine(ss[k])
  }

  lemma FileReads(lines: seq<LineReader.TextLine>, ss: seq<Source>, content: string)
    requires Prints(lines, ss) && content == LineReader.PrintLines(lines, 0, [])
    ensures LineReader.LinesAs(content, 0, Classify) == Meanings(ss)
  {
    forall k | 0 <= k < |lines|
      ensures LineReader.Plain(lines[k].text)
    {
      assert GoodLine(ss[k]);
    }
    LineReader.SplitRoundTrip(lines, []);
    LineReader.LinesAreSplit(content, 0, Classify);
    var texts := LineReader.SplitLines(content, 0);
    forall k | 0 <= k < |ss|
      ensures texts[k] == SourceText(ss[k]) && Classify(Cut(texts[k])) == Meaning(ss[k])
    {
      assert texts[k] == lines[0 + k].text;
      CutFacts(SourceText(ss[k]));
      SourceReads(ss[k]);
    }
  }

  /** One application of a file. */
  datatype App = App(name: string, versions: seq<string>, isList: bool, paths: seq<string>)

  /** The lines of one application stand from `i` on. */
  ghost predicate AppAt(lines: seq<Line>, i: nat, a: App) {
    && i + 3 + |a.paths| <= |lines|
    && lines[i] == Header(Some(a.name)) && lines[i + 2] == Section
    && (if a.isList then a.versions != [] && lines[i + 1] == VersionList(a.versions)
        else |a.versions| == 1 && lines[i + 1] == Version(Some(a.versions[0])))
    && forall j :: 0 <= j < |a.paths| ==> lines[i + 3 + j] == Path(Some(a.paths[j]))
  }

  function AppEnd(i: nat, a: App): nat {
    i + 3 + |a.paths|
  }

  ghost predicate AppsAt(lines: seq<Line>, i: nat, apps: seq<App>, k: nat)
    decreases |apps| - k
  {
    if k >= |apps| then i == |lines|
    else AppAt(lines, i, apps[k]) && AppsAt(lines, AppEnd(i, apps[k]), apps, k + 1)
  }

  function ConfigOf(a: App): Config {
    Config(Some(a.name), a.versions, a.isList, a.paths)
  }

  function Configs(apps: seq<App>, k: nat): seq<Config>
    decreases |apps| - k
  {
    if k >= |apps| then [] else [ConfigOf(apps[k])] + Configs(apps, k + 1)
  }

  lemma {:induction false} NextAfterPaths(lines: seq<Line>, i: nat, a: App, j: nat)
    requires AppAt(lines, i, a) && j <= |a.paths|
    requires AppEnd(i, a) < |lines| ==> lines[AppEnd(i, a)].Header?
    ensures NextHeader(lines, i + 3 + j) == AppEnd(i, a)
    decreases |a.paths| - j
  {
    if j < |a.paths| {
      assert lines[i + 3 + j] == Path(Some(a.paths[j]));
      NextAfterPaths(lines, i, a, j + 1);
    }
  }

  lemma {:induction false} PathsTaken(config: Config, lines: seq<Line>, i: nat, a: App, j: nat)
    requires AppAt(lines, i, a) && j <= |a.paths|
    ensures Body(config, true, lines, i + 3 + j, AppEnd(i, a)) == config.(plugins := config.plugins + a.paths[j..])
    decreases |a.paths| - j
  {
    if j < |a.paths| {
      assert lines[i + 3 + j] == Path(Some(a.paths[j]));
      var next := config.(plugins := config.plugins + [a.paths[j]]);
      PathsTaken(next, lines, i, a, j + 1);
      assert [a.paths[j]] + a.paths[j + 1..] == a.paths[j..];
      assert config.plugins + [a.paths[j]] + a.paths[j + 1..] == config.plugins + a.paths[j..];
    } else {
      assert config.plugins + a.paths[j..] == config.plugins;
    }
  }

  lemma AppReads(lines: seq<Line>, i: nat, a: App)
    requires AppAt(lines, i, a) && (AppEnd(i, a) < |lines| ==> lines[AppEnd(i, a)].Header?)
    ensures NextHeader(lines, i + 1) == AppEnd(i, a) && ConfigAt(lines, i) == ConfigOf(a)
  {
    NextAfterPaths(lines, i, a, 0);
    assert NextHeader(lines, i + 2) == AppEnd(i, a);
    var config := Config(Some(a.name), a.versions, a.isList, []);
    PathsTaken(config, lines, i, a, 0);
    assert config.plugins + a.paths[0..] == a.paths;
    assert Body(config, false, lines, i + 2, AppEnd(i, a)) == ConfigOf(a);
    assert Amend(EMPTY.(appId := Some(a.name)), false, lines[i + 1]) == config;
  }

  lemma ConfigsCons(lines: seq<Line>, i: nat, a: App)
    requires AppAt(lines, i, a) && (AppEnd(i, a) < |lines| ==> lines[AppEnd(i, a)].Header?)
    ensures ConfigsFrom(lines, i) == [ConfigOf(a)] + ConfigsFrom(lines, AppEnd(i, a))
  {
    AppReads(lines, i, a);
    ConfigsSkip(lines, i + 1);
  }

  lemma {:induction false} AppsRead(lines: seq<Line>, i: nat, apps: seq<App>, k: nat)
    requires AppsAt(lines, i, apps, k)
    ensures ConfigsFrom(lines, i) == Configs(apps, k)
    decreases |apps| - k
  {
    if k < |apps| {
      ConfigsCons(lines, i, apps[k]);
      AppsRead(lines, AppEnd(i, apps[k]), apps, k + 1);
    }
  }

  // ----- Remarks -----

  /** The lines that say something. */
  function Strip(lines: seq<Line>, i: nat): seq<Line>
    decreases |lines| - i
  {
    if i >= |lines| then [] else (if lines[i].Nothing? then [] else [lines[i]]) + Strip(lines, i + 1)
  }

  lemma {:induction false} FoldShift(ctx: Ctx, front: seq<Line>, rest: seq<Line>, i: nat)
    requires i <= |rest|
    ensures Fold(ctx, front + rest, |front| + i) == Fold(ctx, rest, i)
    decreases |rest| - i
  {
    if i < |rest| {
      assert (front + rest)[|front| + i] == rest[i];
      FoldShift(Step(ctx, rest[i]), front, rest, i + 1);
    }
  }

  lemma {:induction false} RemarksSayNothing(ctx: Ctx, lines: seq<Line>, i: nat)
    ensures Fold(ctx, lines, i) == Fold(ctx, Strip(lines, i), 0)
    decreases |lines| - i
  {
    if i < |lines| {
      RemarksSayNothing(Step(ctx, lines[i]), lines, i + 1);
      if lines[i].Nothing? {
        assert [] + Strip(lines, i + 1) == Strip(lines, i + 1);
      } else {
        FoldShift(Step(ctx, lines[i]), [lines[i]], Strip(lines, i + 1), 0);
      }
    }
  }

  /** A printed plugin list: the callback sees one configuration for each application, with its name,
      its versions and its paths, whatever the layout of the lines and the remarks between them. */
  lemma FileToConfigs(lines: seq<LineReader.TextLine>, ss: seq<Source>, content: string, apps: seq<App>)
    requires Prints(lines, ss) && content == LineReader.PrintLines(lines, 0, [])
    requires AppsAt(Strip(Meanings(ss), 0), 0, apps, 0)
    ensures ConfigsFrom(LineReader.LinesAs(content, 0, Classify), 0) == Configs(apps, 0)
  {
    FileReads(lines, ss, content);
    TraceIsGrouping(Meanings(ss));
    RemarksSayNothing(START, Meanings(ss), 0);
    TraceIsGrouping(Strip(Meanings(ss), 0));
    AppsRead(Strip(Meanings(ss), 0), 0, apps, 0);
  }
}
