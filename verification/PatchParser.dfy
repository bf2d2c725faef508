/** The parse context of a patch file and the routines that update it line by line
    (game_patch/patch.c:133-542, 619-778).
  */
module PatchParser {
  import opened CText
  import opened QuotedText
  import opened StringList
  import opened PatchLines
  import opened PatchFile
  import opened PatchMetadata
  import LineReader
  import Fnv
  import Numbers
  import Words

  // ----- Metadata -----

  method CalculatePatchHash(game: Game, number: nat, p: Patch, appVer: Option<string>) returns (hash: Words.Word)
    ensures hash == PatchHash(game, number, p, appVer)
  {
    var fields := [AsBytes(Numbers.Print(number, 10)), AsBytes(game.titleId),
                   AsBytes(OrEmpty(p.title)), AsBytes(OrEmpty(p.name)), AsBytes(OrEmpty(p.author)),
                   AsBytes(OrEmpty(p.version)), AsBytes(OrEmpty(p.appBin)), AsBytes(OrEmpty(appVer))];
    hash := Fnv.HashFields(fields, Fnv.OFFSET_BASIS, game.signedChar);
  }

  method FindPrxSuffix(appBin: string) returns (found: bool)
    ensures found == IsPrx(appBin)
  {
    var suffixes := [".prx", ".PRX", ".sprx", ".SPRX"];
    found := false;
    var i := 0;
    while i < |suffixes|
      invariant i <= |suffixes| && !found && forall j :: 0 <= j < i ==> !Contains(appBin, suffixes[j])
    {
      found := Contains(appBin, suffixes[i]);
      if found {
        return;
      }
      i := i + 1;
    }
    assert suffixes[0] == ".prx" && suffixes[1] == ".PRX" && suffixes[2] == ".sprx" && suffixes[3] == ".SPRX";
  }

  /** The metadata of one version, field by field. */
  method ProcessPatchMetadataForAppVer(game: Game, p: Patch, patchNumber: nat, appVer: Option<string>, index: nat)
    returns (meta: Meta)
    requires appVer == VersionAt(p, index) && p.appBin.Some?
    ensures meta == MetaAt(game, p, patchNumber, index)
  {
    meta := NO_META.(number := patchNumber * 100 + index);
    var hash := CalculatePatchHash(game, meta.number, p, appVer);
    meta := meta.(hash := hash, title := p.title, name := p.name, author := p.author, version := p.version,
                  appBin := p.appBin, appVer := appVer);
    meta := meta.(matchesGame := MatchesGame(game.appVer, appVer), enabled := Enabled(game, hash, p.appBin.value));
    var isPrx := FindPrxSuffix(p.appBin.value);
    meta := meta.(isPrx := isPrx);
  }

  // ----- The context -----

  /** realloc of an array to a larger capacity. */
  method Grow<T>(a: array<T>, capacity: nat, filler: T) returns (b: array<T>)
    requires a.Length <= capacity
    ensures fresh(b) && b.Length == capacity && b[..a.Length] == a[..]
  {
    b := new T[capacity](_ => filler);
    forall i | 0 <= i < a.Length {
      b[i] := a[i];
    }
  }

  predicate NoneFaults(env: Env, p: Patch, n: nat) {
    forall j :: 0 <= j < n ==> !VersionFaults(env, p, j)
  }

  /** The context after the versions up to `n` of its patch have been finished. */
  function Finished(env: Env, ctx: Ctx, n: nat): Ctx {
    ctx.(kept := ctx.kept + KeptOf(env, ctx.patch, ctx.entries, ctx.number, n),
         records := ctx.records + RecordsOf(env, ctx.patch, ctx.number, n))
  }

  lemma NothingFinished(env: Env, ctx: Ctx)
    ensures Finished(env, ctx, 0) == ctx
  {
    assert ctx.kept + [] == ctx.kept && ctx.records + [] == ctx.records;
  }

  lemma FinishedSnoc(env: Env, ctx: Ctx, n: nat)
    ensures var now := Finished(env, ctx, n);
            Finished(env, ctx, n + 1)
            == now.(kept := now.kept + (if Keeps(env, ctx.patch, n) then
                                          [PatchData(env.metaOf(ctx.patch, ctx.number, n), ctx.entries)]
                                        else []),
                    records := now.records + (if env.mode.Metadata? then
                                                [env.metaOf(ctx.patch, ctx.number, n)]
                                              else []))
  {
    var kept := KeptOf(env, ctx.patch, ctx.entries, ctx.number, n);
    var own := if Keeps(env, ctx.patch, n) then [PatchData(env.metaOf(ctx.patch, ctx.number, n), ctx.entries)] else [];
    assert KeptOf(env, ctx.patch, ctx.entries, ctx.number, n + 1) == kept + own;
    assert ctx.kept + (kept + own) == (ctx.kept + kept) + own;
    var records := RecordsOf(env, ctx.patch, ctx.number, n);
    var meta := if env.mode.Metadata? then [env.metaOf(ctx.patch, ctx.number, n)] else [];
    assert RecordsOf(env, ctx.patch, ctx.number, n + 1) == records + meta;
    assert ctx.records + (records + meta) == (ctx.records + records) + meta;
  }

  /** The context after the versions up to `n` of its patch have been announced. */
  function Announced(env: Env, ctx: Ctx, n: nat): Ctx {
    ctx.(calls := ctx.calls + MetaCalls(env, ctx.patch, ctx.number, n),
         processing := Processing(env, ctx.patch, ctx.number, n, ctx.processing),
         currentMeta := if n == 0 then ctx.currentMeta else env.metaOf(ctx.patch, ctx.number, 0))
  }

  lemma NothingAnnounced(env: Env, ctx: Ctx)
    ensures Announced(env, ctx, 0) == ctx
  {
    assert ctx.calls + [] == ctx.calls;
  }

  lemma AnnouncedSnoc(env: Env, ctx: Ctx, n: nat)
    ensures var now, next := Announced(env, ctx, n), Announced(env, ctx, n + 1);
            var meta := env.metaOf(ctx.patch, ctx.number, n);
            next == (if MatchesGame(env.gameVer, VersionAt(ctx.patch, n)) then
                       now.(calls := now.calls + [MetaCall(meta)], processing := meta.enabled)
                     else now).(currentMeta := env.metaOf(ctx.patch, ctx.number, 0))
  {
    var calls := MetaCalls(env, ctx.patch, ctx.number, n);
    if MatchesGame(env.gameVer, VersionAt(ctx.patch, n)) {
      var own := [MetaCall(env.metaOf(ctx.patch, ctx.number, n))];
      assert MetaCalls(env, ctx.patch, ctx.number, n + 1) == calls + own;
      assert ctx.calls + (calls + own) == (ctx.calls + calls) + own;
    } else {
      assert MetaCalls(env, ctx.patch, ctx.number, n + 1) == calls;
    }
  }

  /** The metadata in `env` is that of the game. */
  ghost predicate Computes(env: Env, game: Game) {
    && env.gameVer == game.appVer
    && forall p: Patch, number: nat, k: nat {:trigger MetaAt(game, p, number, k)} ::
         env.metaOf(p, number, k) == MetaAt(game, p, number, k)
  }

  lemma NoneLeft(content: string, lines: seq<Line>, k: nat, env: Env, ctx: Ctx)
    requires k <= |lines| && lines[k..] == LineReader.LinesAs(content, |content|, Classify)
    ensures Fold(env, ctx, lines, k) == ctx
  {
    assert |lines[k..]| == 0;
  }

  class ParseContext {
    const mode: Mode
    const game: Game
    ghost const env: Env
    var globalTitleIds: seq<string>
    var currentPatchNumber: nat
    var currentPatch: Patch
    var inPatchesSection: bool
    var allPatches: array<PatchData>
    var allPatchesCount: nat
    var currentEntries: array<seq<string>>
    var currentEntriesCount: nat
    var metadataArray: array<Meta>
    var metadataCount: nat
    var calls: seq<Call>
    var currentMeta: Meta
    var processingEnabledPatch: bool
    var faulted: bool

    /** Every count is within its capacity. */
    ghost predicate Valid()
      reads this
    {
      && env.mode == mode && Computes(env, game)
      && allPatchesCount <= allPatches.Length && currentEntriesCount <= currentEntries.Length &&
         metadataCount <= metadataArray.Length
      && allPatches.Length > 0 && currentEntries.Length > 0 && metadataArray.Length > 0
    }

    ghost function Arrays(): set<object>
      reads this
    {
      {allPatches as object, currentEntries as object, metadataArray as object}
    }

    ghost function View(): Ctx
      requires Valid()
      reads this, Arrays()
    {
      Ctx(globalTitleIds, currentPatchNumber, currentPatch, inPatchesSection, currentEntries[..currentEntriesCount],
          allPatches[..allPatchesCount], metadataArray[..metadataCount],
           calls, currentMeta, processingEnabledPatch, faulted)
    }

    constructor (mode: Mode, game: Game)
      ensures this.mode == mode && this.game == game && env == EnvOf(mode, game) && Valid() && fresh(Arrays()) &&
              View() == START
    {
      this.mode, this.game, this.env := mode, game, EnvOf(mode, game);
      globalTitleIds, currentPatchNumber, currentPatch, inPatchesSection := [], 0, NO_PATCH, false;
      allPatches, allPatchesCount := new PatchData[8](_ => PatchData(NO_META, [])), 0;
      currentEntries, currentEntriesCount := new seq<string>[16](_ => []), 0;
      metadataArray, metadataCount := new Meta[8](_ => NO_META), 0;
      calls, currentMeta, processingEnabledPatch, faulted := [], NO_META, false, false;
    }

    /** str_dup of each parameter. */
    static method CopyEntry(src: seq<string>) returns (dst: seq<string>)
      ensures dst == src
    {
      dst := [];
      for j := 0 to |src|
        invariant dst == src[..j]
      {
        dst := dst + [src[j]];
      }
    }

    /** A copy of the entries of the current patch. */
    method CopyEntries() returns (copy: seq<seq<string>>)
      requires Valid()
      ensures copy == currentEntries[..currentEntriesCount]
    {
      copy := [];
      for i := 0 to currentEntriesCount
        invariant copy == currentEntries[..i]
      {
        var params := CopyEntry(currentEntries[i]);
        copy := copy + [params];
      }
    }

    method AppendPatch(data: PatchData)
      requires Valid()
      modifies this, Arrays()
      ensures Valid() && fresh(Arrays() - old(Arrays())) && View() == old(View()).(kept := old(View()).kept + [data])
    {
      if allPatchesCount >= allPatches.Length {
        allPatches := Grow(allPatches, allPatches.Length * 2, PatchData(NO_META, []));
      }
      allPatches[allPatchesCount] := data;
      allPatchesCount := allPatchesCount + 1;
    }

    method AppendMetadata(meta: Meta)
      requires Valid()
      modifies this, Arrays()
      ensures Valid() && fresh(Arrays() - old(Arrays())) &&
              View() == old(View()).(records := old(View()).records + [meta])
    {
      if metadataCount >= metadataArray.Length {
        metadataArray := Grow(metadataArray, metadataArray.Length * 2, NO_META);
      }
      metadataArray[metadataCount] := meta;
      metadataCount := metadataCount + 1;
    }

    method AppendEntry(params: seq<string>)
      requires Valid()
      modifies this, Arrays()
      ensures Valid() && fresh(Arrays() - old(Arrays())) &&
              View() == old(View()).(entries := old(View()).entries + [params])
    {
      if currentEntriesCount >= currentEntries.Length {
        currentEntries := Grow(currentEntries, currentEntries.Length * 2, []);
      }
      currentEntries[currentEntriesCount] := params;
      currentEntriesCount := currentEntriesCount + 1;
    }

    /** The metadata of version `k` of the current patch. */
    method BuildMetadata(k: nat) returns (meta: Meta)
      requires Valid() && currentPatch.appBin.Some?
      ensures meta == env.metaOf(currentPatch, currentPatchNumber, k)
    {
      meta := ProcessPatchMetadataForAppVer(game, currentPatch, currentPatchNumber, VersionAt(currentPatch, k), k);
    }

    /** Version `k` of a finished patch, when all patches of a title are kept. */
    method KeepVersion(k: nat)
      requires Valid() && !faulted && mode.All?
      modifies this, Arrays()
      ensures Valid() && fresh(Arrays() - old(Arrays())) && faulted == VersionFaults(env, old(currentPatch), k)
      ensures !faulted ==> View() == old(View()).(kept := old(View()).kept
                + if Keeps(env, old(currentPatch), k) then
                    [PatchData(env.metaOf(old(currentPatch), old(currentPatchNumber), k), old(View()).entries)] else [])
    {
      var appVer := VersionAt(currentPatch, k);
      if appVer.None? || (appVer.value == game.appVer && MetaFaults(mode, currentPatch, k)) {
        faulted := true;
      } else if appVer.value == game.appVer {
        var meta := BuildMetadata(k);
        if mode.wanted.Some? && mode.wanted == currentPatch.title {
          var entries := CopyEntries();
          AppendPatch(PatchData(meta, entries));
        }
      }
    }

    /** Version `k` of a finished patch, when metadata is listed. */
    method ListVersion(k: nat)
      requires Valid() && !faulted && mode.Metadata?
      modifies this, Arrays()
      ensures Valid() && fresh(Arrays() - old(Arrays())) && faulted == VersionFaults(env, old(currentPatch), k)
      ensures !faulted ==>
              View() == old(View()).(records := old(View()).records +
                                                [env.metaOf(old(currentPatch), old(currentPatchNumber), k)])
    {
      if MetaFaults(mode, currentPatch, k) {
        faulted := true;
      } else {
        var meta := BuildMetadata(k);
        AppendMetadata(meta);
      }
    }

    method FinishVersion(k: nat, ghost before: Ctx)
      requires Valid() && !faulted && View() == Finished(env, before, k)
      modifies this, Arrays()
      ensures Valid() && fresh(Arrays() - old(Arrays())) && faulted == VersionFaults(env, before.patch, k)
      ensures !faulted ==> View() == Finished(env, before, k + 1)
    {
      FinishedSnoc(env, before, k);
      match mode {
        case All(_) => KeepVersion(k);
        case Metadata => ListVersion(k);
        case LowMem =>
      }
    }

    /** Every version of a finished patch, up to the first that crashes. */
    method FinishVersions()
      requires Valid() && !faulted
      modifies this, Arrays()
      ensures Valid() && fresh(Arrays() - old(Arrays())) && faulted == BlockFaults(env, old(currentPatch))
      ensures !faulted ==> View() == Finished(env, old(View()), VersionCount(old(currentPatch)))
    {
      var count := VersionCount(currentPatch);
      ghost var before := View();
      NothingFinished(env, before);
      var k := 0;
      while k < count
        invariant k <= count && count == VersionCount(before.patch) && Valid() && fresh(Arrays() - old(Arrays())) &&
                  !faulted
        invariant View() == Finished(env, before, k)
        invariant NoneFaults(env, before.patch, k)
      {
        FinishVersion(k, before);
        if faulted {
          return;
        }
        k := k + 1;
      }
    }

    method ResetCurrentPatch()
      requires Valid()
      modifies this`currentPatch, this`inPatchesSection
      ensures View() == old(View()).(patch := NO_PATCH, inPatches := false)
    {
      currentPatch := NO_PATCH;
      inPatchesSection := false;
    }

    /** Forgets the finished patch and its entries. */
    method StartNextPatch()
      requires Valid()
      modifies this`currentPatch, this`inPatchesSection, this`currentEntriesCount, this`currentPatchNumber
      ensures Valid()
      ensures View() == old(View()).(entries := [], patch := NO_PATCH, inPatches := false,
                                     number := old(View()).number + 1)
    {
      currentEntriesCount := 0;
      ResetCurrentPatch();
      currentPatchNumber := currentPatchNumber + 1;
    }

    method HandlePatchComplete()
      requires Valid() && !faulted
      modifies this, Arrays()
      ensures Valid() && fresh(Arrays() - old(Arrays())) && faulted == Complete(env, old(View())).faulted
      ensures !faulted ==> View() == Complete(env, old(View()))
    {
      if currentPatch.title.None? {
        return;
      }
      FinishVersions();
      if !faulted {
        StartNextPatch();
      }
    }

    /** One version of the current patch at its "patches:" line. */
    method AnnounceVersion(k: nat)
      requires Valid() && currentPatch.appBin.Some?
      modifies this`calls, this`processingEnabledPatch, this`currentMeta
      ensures var meta := env.metaOf(currentPatch, currentPatchNumber, k);
              if MatchesGame(env.gameVer, VersionAt(currentPatch, k)) then
                calls == old(calls) + [MetaCall(meta)] && processingEnabledPatch == meta.enabled
              else calls == old(calls) && processingEnabledPatch == old(processingEnabledPatch)
      ensures currentMeta == if k == 0 then env.metaOf(currentPatch, currentPatchNumber, 0) else old(currentMeta)
    {
      var meta := ProcessPatchMetadataForAppVer(game, currentPatch, currentPatchNumber, VersionAt(currentPatch, k), k);
      if meta.matchesGame {
        calls := calls + [MetaCall(meta)];
        processingEnabledPatch := meta.matchesGame && meta.enabled;
      }
      if k == 0 {
        currentMeta := meta;
      }
    }

    /** The callbacks of a "patches:" line. */
    method AnnounceVersions()
      requires Valid() && currentPatch.appBin.Some?
      modifies this`calls, this`processingEnabledPatch, this`currentMeta
      ensures Valid() && View() == Announced(env, old(View()), VersionCount(currentPatch))
      ensures currentMeta == env.metaOf(currentPatch, currentPatchNumber, 0)
    {
      var count := VersionCount(currentPatch);
      ghost var before := View();
      NothingAnnounced(env, before);
      var k := 0;
      while k < count
        invariant k <= count && Valid() && View() == Announced(env, before, k).(currentMeta := currentMeta)
        invariant k > 0 ==> currentMeta == env.metaOf(currentPatch, currentPatchNumber, 0)
      {
        AnnouncedSnoc(env, before, k);
        AnnounceVersion(k);
        k := k + 1;
      }
    }

    method BeginPatches()
      requires Valid() && !faulted
      modifies this`inPatchesSection, this`calls, this`processingEnabledPatch, this`currentMeta, this`faulted
      ensures Valid() && faulted == Begin(env, old(View())).faulted
      ensures !faulted ==> View() == Begin(env, old(View()))
    {
      inPatchesSection := true;
      if mode.LowMem? {
        if currentPatch.appBin.None? {
          faulted := true;
          return;
        }
        AnnounceVersions();
      }
    }

    /** An item of a "patches:" section; it counts if it has enough parameters. */
    method ProcessEntry(text: string)
      requires Valid() && !faulted && NulFree(text)
      modifies this, Arrays()
      ensures Valid() && fresh(Arrays() - old(Arrays())) && !faulted
      ensures View() == if old(inPatchesSection) then Entry(env, old(View()), ParseList(text, MAX_PATCH_PARAMS))
                        else old(View())
    {
      if !inPatchesSection {
        return;
      }
      var entry := new PatchEntryBuffer();
      var count := entry.ParsePatchEntry(text);
      if count < MIN_PATCH_PARAMS {
        return;
      }
      var params := entry.params[..count];
      match mode {
        case All(_) => AppendEntry(params);
        case LowMem =>
          if processingEnabledPatch {
            calls := calls + [EntryCall(currentMeta, params)];
          }
        case Metadata =>
      }
    }

    /** A line with the key of a field. */
    method SetField(name: Name, content: string)
      requires Valid() && NulFree(content)
      modifies this`currentPatch
      ensures Valid() && currentPatch == Amend(old(currentPatch), Field(name, ParseQuoted(content)))
    {
      var value := ParseQuotedString(content);
      match name {
        case Title => currentPatch := currentPatch.(title := value);
        case PatchName => currentPatch := currentPatch.(name := value);
        case Notes => currentPatch := currentPatch.(notes := value);
        case Author => currentPatch := currentPatch.(author := value);
        case PatchVersion => currentPatch := currentPatch.(version := value);
        case AppBin => currentPatch := currentPatch.(appBin := value);
      }
    }

    /** The versions of the current patch: a list, or one. */
    method SetVersions(content: string)
      requires Valid() && NulFree(content)
      modifies this`currentPatch
      ensures Valid() &&
              currentPatch == Amend(old(currentPatch),
                                    if IsListValue(content) then VersionList(ParseList(content, MAX_APP_VERS))
                                    else Version(ParseQuoted(content)))
    {
      if IsListValue(content) {
        var versions := new string[MAX_APP_VERS](_ => "");
        var count := ParseStringList(content, versions, MAX_APP_VERS);
        currentPatch := currentPatch.(isAppVerList := true, appVers := versions[..count]);
      } else {
        var version := ParseQuotedString(content);
        currentPatch := currentPatch.(isAppVerList := false, appVers := if version.Some? then [version.value] else []);
      }
    }

    /** The keys, in the order in which they are looked for. */
    static method FindField(content: string) returns (field: Option<Name>)
      requires NulFree(content)
      ensures field == FieldOf(content)
    {
      var i := 0;
      while i < |KEYS|
        invariant i <= |KEYS| && forall j :: 0 <= j < i ==> !Contains(content, KEYS[j])
      {
        var at := Strstr(content, KEYS[i]);
        if at.Some? {
          FieldIs(content, i);
          return Some(NAMES[i]);
        }
        i := i + 1;
      }
      NoField(content);
      return None;
    }

    /** A line that starts or continues a "patches:" section, if anything. */
    method ProcessSection(content: string, ghost line: Line)
      requires Valid() && !faulted && NulFree(content)
      requires line == if Contains(content, "patches:") then Patches
                       else if StartsWith(content, "- [") then Item(ParseList(content[2..], MAX_PATCH_PARAMS))
                       else Ignored
      modifies this, Arrays()
      ensures Valid() && fresh(Arrays() - old(Arrays())) && faulted == Step(env, old(View()), line).faulted
      ensures !faulted ==> View() == Step(env, old(View()), line)
    {
      var patches := Strstr(content, "patches:");
      if patches.Some? {
        BeginPatches();
      } else if StartsWith(content, "- [") {
        ProcessEntry(content[2..]);
      }
    }

    /** A line inside a block. */
    method ProcessInner(content: string, ghost line: Line)
      requires Valid() && !faulted && NulFree(content) && line == ClassifyInner(content)
      modifies this, Arrays()
      ensures Valid() && fresh(Arrays() - old(Arrays())) && faulted == Step(env, old(View()), line).faulted
      ensures !faulted ==> View() == Step(env, old(View()), line)
    {
      var field := FindField(content);
      if field.Some? {
        SetField(field.value, content);
        return;
      }
      var appVer := Strstr(content, "app_ver:");
      if appVer.Some? {
        SetVersions(content);
        return;
      }
      ProcessSection(content, line);
    }

    method ProcessTitleIds(content: string)
      requires Valid() && NulFree(content)
      modifies this`globalTitleIds
      ensures Valid() &&
              View() == old(View()).(titleIds := if IsListValue(content) then ParseList(content, MAX_TITLE_IDS)
                                                 else old(View()).titleIds)
    {
      if IsListValue(content) {
        var ids := new string[MAX_TITLE_IDS](_ => "");
        var count := ParseStringList(content, ids, MAX_TITLE_IDS);
        globalTitleIds := ids[..count];
      }
    }

    method ProcessLine(line: string)
      requires Valid() && !faulted && NulFree(line)
      modifies this, Arrays()
      ensures Valid() && fresh(Arrays() - old(Arrays())) && faulted == Step(env, old(View()), Classify(line)).faulted
      ensures !faulted ==> View() == Step(env, old(View()), Classify(line))
    {
      if IsCommentOrEmpty(line) {
        return;
      }
      var indent := IndentLevel(line, 0);
      var trimmed := Trim(line);
      var titleId := Strstr(trimmed, "titleid:");
      if indent == 0 && titleId.Some? {
        ProcessTitleIds(trimmed);
        return;
      }
      var patch := Strstr(trimmed, "patch:");
      if indent == 0 && patch.Some? {
        HandlePatchComplete();
        return;
      }
      ProcessInner(trimmed, Classify(line));
    }

    /** One line, as the C string in a zeroed buffer. */
    static method ReadText(file: LineReader.ByteFile, writtenBefore: nat)
      returns (bytesRead: nat, bytesWritten: nat, text: string)
      requires file.Valid() && file.pos < |file.content| && LineReader.LinesFit(file.content, file.pos)
      requires file.content[|file.content| - 1] != LineReader.CR
      modifies file`pos
      ensures file.Valid() && file.pos == LineReader.NextLine(file.content, old(file.pos)) == old(file.pos) + bytesRead
      ensures text == Cut(LineReader.LineAt(file.content, old(file.pos))) && NulFree(text)
    {
      var line := new char[MAX_LINE_LENGTH + 1](_ => NUL);
      bytesRead, bytesWritten := LineReader.FileReadLine(file, line, writtenBefore);
      text := Cut(line[..bytesWritten - writtenBefore]);
      CutFacts(line[..bytesWritten - writtenBefore]);
    }

    /** The lines from `k` on are still to be read, and lead to the same end as the whole file. */
    ghost predicate Halfway(file: LineReader.ByteFile, lines: seq<Line>, k: nat, end: Ctx)
      requires Valid()
      reads this, Arrays(), file
    {
      && file.Valid() && LineReader.LinesFit(file.content, file.pos)
      && k <= |lines| && lines[k..] == LineReader.LinesAs(file.content, file.pos, Classify) &&
         end == Fold(env, View(), lines, k)
    }

    /** One turn of the loop. */
    method TakeLine(file: LineReader.ByteFile, writtenBefore: nat, ghost lines: seq<Line>, ghost k: nat, ghost end: Ctx)
      returns (bytesRead: nat, bytesWritten: nat)
      requires Valid() && !faulted && Halfway(file, lines, k, end) && file.pos < |file.content|
      requires file.content[|file.content| - 1] != LineReader.CR
      modifies this, Arrays(), file`pos
      ensures Valid() && fresh(Arrays() - old(Arrays())) && file.pos == old(file.pos) + bytesRead && bytesRead > 0
      ensures if faulted then end.faulted else Halfway(file, lines, k + 1, end)
    {
      ghost var pos, before := file.pos, View();
      var text: string;
      bytesRead, bytesWritten, text := ReadText(file, writtenBefore);
      LineReader.LineTaken(file.content, pos, Classify, lines, k);
      ProcessLine(text);
      if faulted {
        FaultStays(env, Step(env, before, Classify(text)), lines, k + 1);
      }
    }

    /** The loop over the lines, up to a crash. */
    method TakeLines(file: LineReader.ByteFile, ghost lines: seq<Line>, ghost end: Ctx)
      requires Valid() && !faulted && Halfway(file, lines, 0, end) && file.pos == 0
      requires file.content != [] ==> file.content[|file.content| - 1] != LineReader.CR
      modifies this, Arrays(), file`pos
      ensures Valid() && fresh(Arrays() - old(Arrays())) && if faulted then end.faulted else View() == end
    {
      var bytesReadAll, writtenAll: nat := 0, 0;
      ghost var k: nat := 0;
      while bytesReadAll < |file.content|
        invariant Valid() && fresh(Arrays() - old(Arrays())) && !faulted
        invariant bytesReadAll == file.pos <= |file.content| && Halfway(file, lines, k, end)
        decreases |file.content| - file.pos
      {
        var bytesRead: nat;
        bytesRead, writtenAll := TakeLine(file, writtenAll, lines, k, end);
        bytesReadAll := bytesReadAll + bytesRead;
        k := k + 1;
        if faulted {
          return;
        }
      }
      NoneLeft(file.content, lines, k, env, View());
    }

    /** The whole file, up to a crash: the context ends as the run over its lines does. */
    method ParsePatchFile(content: string)
      requires Valid() && View() == START
      requires LineReader.LinesFit(content, 0) && (content != [] ==> content[|content| - 1] != LineReader.CR)
      modifies this, Arrays()
      ensures Valid() && fresh(Arrays() - old(Arrays())) &&
              faulted == Run(env, LineReader.LinesAs(content, 0, Classify)).faulted
      ensures !faulted ==> View() == Run(env, LineReader.LinesAs(content, 0, Classify))
    {
      var file := new LineReader.ByteFile(content);
      ghost var lines := LineReader.LinesAs(content, 0, Classify);
      ghost var end := Fold(env, START, lines, 0);
      TakeLines(file, lines, end);
      if !faulted {
        HandlePatchComplete();
      }
    }
  }
}
