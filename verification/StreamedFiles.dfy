/** Whole patch files in the low-memory mode, from their text to the calls: every patch calls back for
    its versions of the game and, while the flag is set, for its entries (game_patch/patch.c:413-486).
  */
module StreamedFiles {
  import opened CText
  import opened PatchLines
  import opened PatchFile
  import opened FileText
  import opened WholeFiles
  import LineReader

  // ----- What is called -----

  predicate ForGame(env: Env, d: Doc, k: nat)
    requires k < |d.versions|
  {
    d.versions[k] == env.gameVer && env.gameVer != ""
  }

  /** One call for each of the first `n` versions that is the game's. */
  function VersionCalls(env: Env, d: Doc, number: nat, n: nat): seq<Call>
    requires n <= |d.versions|
    decreases n
  {
    if n == 0 then []
    else
      VersionCalls(env, d, number, n - 1)
      + if ForGame(env, d, n - 1) then [MetaCall(env.metaOf(DocPatch(d), number, n - 1))] else []
  }

  /** The flag after the first `n` versions: the last one for the game decides, or else the flag stays. */
  function FlagOf(env: Env, d: Doc, number: nat, n: nat, before: bool): bool
    requires n <= |d.versions|
    decreases n
  {
    if n == 0 then before
    else if ForGame(env, d, n - 1) then env.metaOf(DocPatch(d), number, n - 1).enabled
    else FlagOf(env, d, number, n - 1, before)
  }

  function FlagAfterDoc(env: Env, d: Doc, number: nat, before: bool): bool {
    FlagOf(env, d, number, |d.versions|, before)
  }

  /** One call for each of the first `n` entries with at least three parameters. */
  function EntryCalls(meta: Meta, entries: seq<seq<string>>, n: nat): seq<Call>
    requires n <= |entries|
    decreases n
  {
    if n == 0 then []
    else EntryCalls(meta, entries, n - 1) + if |entries[n - 1]| >= 3 then [EntryCall(meta, entries[n - 1])] else []
  }

  /** Entries are called back with the metadata of the first version. */
  function DocEntryCalls(env: Env, d: Doc, number: nat, flag: bool): seq<Call> {
    if flag then EntryCalls(env.metaOf(DocPatch(d), number, 0), d.entries, |d.entries|) else []
  }

  function DocCalls(env: Env, d: Doc, number: nat, before: bool): seq<Call> {
    VersionCalls(env, d, number, |d.versions|)
    + DocEntryCalls(env, d, number, FlagAfterDoc(env, d, number, before))
  }

  /** The calls of the patches from `k` on, the flag carried from each to the next. */
  function AllCalls(env: Env, docs: seq<Doc>, k: nat, number: nat, before: bool): seq<Call>
    decreases |docs| - k
  {
    if k >= |docs| then []
    else
      DocCalls(env, docs[k], number, before)
      + AllCalls(env, docs, k + 1, number + 1, FlagAfterDoc(env, docs[k], number, before))
  }

  // ----- Following one patch -----

  lemma {:induction false} VersionsCall(env: Env, d: Doc, number: nat, n: nat)
    requires n <= |d.versions|
    ensures MetaCalls(env, DocPatch(d), number, n) == VersionCalls(env, d, number, n)
    decreases n
  {
    if n > 0 {
      VersionsCall(env, d, number, n - 1);
      var p := DocPatch(d);
      assert MetaCalls(env, p, number, n) == MetaCalls(env, p, number, n - 1)
          + if MatchesGame(env.gameVer, VersionAt(p, n - 1)) then [MetaCall(env.metaOf(p, number, n - 1))] else [];
    }
  }

  lemma {:induction false} VersionsDecide(env: Env, d: Doc, number: nat, n: nat, before: bool)
    requires n <= |d.versions|
    ensures Processing(env, DocPatch(d), number, n, before) == FlagOf(env, d, number, n, before)
    decreases n
  {
    if n > 0 {
      VersionsDecide(env, d, number, n - 1, before);
    }
  }

  predicate Ready(ctx: Ctx) {
    !ctx.faulted && ctx.patch == NO_PATCH && !ctx.inPatches
  }

  /** The context behind the head of a patch. */
  function Headed(ctx: Ctx, d: Doc): Ctx {
    ctx.(patch := DocPatch(d))
  }

  /** The first three of its lines. */
  function Named(ctx: Ctx, d: Doc): Ctx {
    ctx.(patch := NO_PATCH.(title := Some(d.title), name := Some(d.name), author := Some(d.author)))
  }

  lemma NameFolds(env: Env, ctx: Ctx, lines: seq<Line>, i: nat, d: Doc)
    requires Ready(ctx) && DocAt(lines, i, d)
    ensures Fold(env, ctx, lines, i + 1) == Fold(env, Named(ctx, d), lines, i + 4)
  {
    var titled := ctx.(patch := NO_PATCH.(title := Some(d.title)));
    assert Fold(env, ctx, lines, i + 1) == Fold(env, titled, lines, i + 2);
    assert Fold(env, titled, lines, i + 2) == Fold(env, Named(ctx, d), lines, i + 4);
  }

  lemma HeadFolds(env: Env, ctx: Ctx, lines: seq<Line>, i: nat, d: Doc)
    requires Ready(ctx) && DocAt(lines, i, d)
    ensures Fold(env, ctx, lines, i + 1) == Fold(env, Headed(ctx, d), lines, i + 7)
  {
    NameFolds(env, ctx, lines, i, d);
    var named := Named(ctx, d);
    var most := ctx.(patch := named.patch.(version := Some(d.version), appBin := Some(d.appBin)));
    assert Fold(env, named, lines, i + 4) == Fold(env, most, lines, i + 6);
  }

  /** The context behind the "patches:" line. */
  function Begun(env: Env, ctx: Ctx, d: Doc): Ctx {
    Headed(ctx, d).(inPatches := true,
                    calls := ctx.calls + VersionCalls(env, d, ctx.number, |d.versions|),
                    processing := FlagAfterDoc(env, d, ctx.number, ctx.processing),
                    currentMeta := env.metaOf(DocPatch(d), ctx.number, 0))
  }

  lemma BeginIs(env: Env, ctx: Ctx, d: Doc)
    requires env.mode.LowMem? && Ready(ctx) && d.versions != []
    ensures Step(env, Headed(ctx, d), Patches) == Begun(env, ctx, d)
  {
    VersionsCall(env, d, ctx.number, |d.versions|);
    VersionsDecide(env, d, ctx.number, |d.versions|, ctx.processing);
  }

  lemma BeginFolds(env: Env, ctx: Ctx, lines: seq<Line>, i: nat, d: Doc)
    requires env.mode.LowMem? && Ready(ctx) && DocAt(lines, i, d) && d.versions != []
    ensures Fold(env, Headed(ctx, d), lines, i + 7) == Fold(env, Begun(env, ctx, d), lines, i + 8)
  {
    BeginIs(env, ctx, d);
  }

  /** The context behind the first `n` entries. */
  function Streamed(env: Env, ctx: Ctx, d: Doc, n: nat): Ctx
    requires n <= |d.entries|
  {
    var begun := Begun(env, ctx, d);
    if begun.processing then begun.(calls := begun.calls + EntryCalls(begun.currentMeta, d.entries, n)) else begun
  }

  lemma EntryFolds(env: Env, ctx: Ctx, d: Doc, n: nat)
    requires env.mode.LowMem? && Ready(ctx) && n < |d.entries|
    ensures Step(env, Streamed(env, ctx, d, n), Item(d.entries[n])) == Streamed(env, ctx, d, n + 1)
  {
    var begun := Begun(env, ctx, d);
    var calls := EntryCalls(begun.currentMeta, d.entries, n);
    var own := EntryCall(begun.currentMeta, d.entries[n]);
    assert (begun.calls + calls) + [own] == begun.calls + (calls + [own]) && calls + [] == calls;
  }

  lemma OneFold(env: Env, ctx: Ctx, lines: seq<Line>, i: nat, line: Line, next: Ctx)
    requires i < |lines| && lines[i] == line && next == Step(env, ctx, line)
    ensures Fold(env, ctx, lines, i) == Fold(env, next, lines, i + 1)
  {
  }

  lemma NextEntry(env: Env, ctx: Ctx, lines: seq<Line>, i: nat, d: Doc, n: nat, now: Ctx) returns (next: Ctx)
    requires env.mode.LowMem? && Ready(ctx) && DocAt(lines, i, d) && n < |d.entries|
    requires now == Streamed(env, ctx, d, n)
    ensures next == Streamed(env, ctx, d, n + 1)
    ensures Fold(env, now, lines, i + 8 + n) == Fold(env, next, lines, i + 8 + (n + 1))
  {
    next := Streamed(env, ctx, d, n + 1);
    EntryFolds(env, ctx, d, n);
    OneFold(env, now, lines, i + 8 + n, Item(d.entries[n]), next);
  }

  lemma {:induction false} EntriesFold(env: Env, ctx: Ctx, lines: seq<Line>, i: nat, d: Doc, n: nat, now: Ctx)
    returns (last: Ctx)
    requires env.mode.LowMem? && Ready(ctx) && DocAt(lines, i, d) && n <= |d.entries|
    requires now == Streamed(env, ctx, d, n)
    ensures last == Streamed(env, ctx, d, |d.entries|)
    ensures Fold(env, now, lines, i + 8 + n) == Fold(env, last, lines, DocEnd(i, d))
    decreases |d.entries| - n
  {
    last := now;
    if n < |d.entries| {
      var next := NextEntry(env, ctx, lines, i, d, n, now);
      last := EntriesFold(env, ctx, lines, i, d, n + 1, next);
    }
  }

  lemma NoEntriesYet(env: Env, ctx: Ctx, d: Doc)
    ensures Streamed(env, ctx, d, 0) == Begun(env, ctx, d)
  {
    var begun := Begun(env, ctx, d);
    assert begun.calls + [] == begun.calls;
  }

  /** The context behind the whole patch. */
  function Done(env: Env, ctx: Ctx, d: Doc): Ctx {
    Streamed(env, ctx, d, |d.entries|)
  }

  lemma DocFolds(env: Env, ctx: Ctx, lines: seq<Line>, i: nat, d: Doc)
    requires env.mode.LowMem? && Ready(ctx) && DocAt(lines, i, d) && d.versions != []
    ensures Fold(env, ctx, lines, i + 1) == Fold(env, Done(env, ctx, d), lines, DocEnd(i, d))
  {
    HeadFolds(env, ctx, lines, i, d);
    BeginFolds(env, ctx, lines, i, d);
    NoEntriesYet(env, ctx, d);
    var last := EntriesFold(env, ctx, lines, i, d, 0, Begun(env, ctx, d));
  }

  lemma DoneCalls(env: Env, ctx: Ctx, d: Doc)
    ensures Done(env, ctx, d).calls == ctx.calls + DocCalls(env, d, ctx.number, ctx.processing)
    ensures Done(env, ctx, d).processing == FlagAfterDoc(env, d, ctx.number, ctx.processing)
  {
    var metas := VersionCalls(env, d, ctx.number, |d.versions|);
    var flag := FlagAfterDoc(env, d, ctx.number, ctx.processing);
    var entries := DocEntryCalls(env, d, ctx.number, flag);
    assert (ctx.calls + metas) + entries == ctx.calls + (metas + entries);
    assert ctx.calls + metas + [] == ctx.calls + metas;
  }

  /** The context that the next patch begins with. */
  lemma DoneCompletes(env: Env, ctx: Ctx, d: Doc)
    requires env.mode.LowMem? && Ready(ctx)
    ensures var done := Done(env, ctx, d);
            var next := Complete(env, done);
            && !done.faulted && Ready(next) && next.number == ctx.number + 1 && next.calls == done.calls
            && next.processing == done.processing
  {
  }

  // ----- Following all of them -----

  lemma OverDoc(env: Env, ctx: Ctx, ready: Ctx, lines: seq<Line>, i: nat, docs: seq<Doc>, k: nat) returns (done: Ctx)
    requires env.mode.LowMem? && k < |docs| && DocsAt(lines, i, docs, k) && !ctx.faulted
    requires ready == Complete(env, ctx) && Ready(ready)
    ensures done == Done(env, ready, docs[k]) && !done.faulted && DocsAt(lines, DocEnd(i, docs[k]), docs, k + 1)
    ensures Fold(env, ctx, lines, i) == Fold(env, done, lines, DocEnd(i, docs[k]))
  {
    done := Done(env, ready, docs[k]);
    assert Fold(env, ctx, lines, i) == Fold(env, ready, lines, i + 1);
    DocFolds(env, ready, lines, i, docs[k]);
    DoneCompletes(env, ready, docs[k]);
  }

  lemma CallsCons(env: Env, ready: Ctx, done: Ctx, docs: seq<Doc>, k: nat, rest: seq<Call>)
    requires k < |docs| && done == Done(env, ready, docs[k])
    requires rest == AllCalls(env, docs, k + 1, ready.number + 1, done.processing)
    ensures done.calls + rest == ready.calls + AllCalls(env, docs, k, ready.number, ready.processing)
  {
    DoneCalls(env, ready, docs[k]);
    var own := DocCalls(env, docs[k], ready.number, ready.processing);
    assert (ready.calls + own) + rest == ready.calls + (own + rest);
  }

  lemma {:induction false} DocsFold(env: Env, ctx: Ctx, ready: Ctx, lines: seq<Line>, i: nat, docs: seq<Doc>, k: nat,
                                    all: seq<Call>)
    requires env.mode.LowMem? && DocsAt(lines, i, docs, k) && !ctx.faulted
    requires ready == Complete(env, ctx) && Ready(ready)
    requires all == AllCalls(env, docs, k, ready.number, ready.processing)
    ensures var last := Complete(env, Fold(env, ctx, lines, i)); !last.faulted && last.calls == ready.calls + all
    decreases |docs| - k
  {
    if k < |docs| {
      var done := OverDoc(env, ctx, ready, lines, i, docs, k);
      var next := Complete(env, done);
      DoneCompletes(env, ready, docs[k]);
      var rest := AllCalls(env, docs, k + 1, next.number, next.processing);
      DocsFold(env, done, next, lines, DocEnd(i, docs[k]), docs, k + 1, rest);
      CallsCons(env, ready, done, docs, k, rest);
    } else {
      assert ready.calls + [] == ready.calls;
    }
  }

  /** Streaming a printed file of patches: for each patch one call for each version of the game, then,
      if the last of those is enabled, or there is none and the flag was set before, one call for each
      entry. */
  lemma FileToCalls(env: Env, lines: seq<LineReader.TextLine>, ss: seq<Source>, content: string, ids: seq<string>,
                    docs: seq<Doc>)
    requires env.mode.LowMem? && Prints(lines, ss) && content == LineReader.PrintLines(lines, 0, [])
    requires FileOf(Strip(Meanings(ss), 0), ids, docs)
    ensures var run := Run(env, LineReader.LinesAs(content, 0, Classify));
            !run.faulted && run.calls == AllCalls(env, docs, 0, 0, false)
  {
    FileReads(lines, ss, content);
    var stripped := Strip(Meanings(ss), 0);
    RunStripped(env, Meanings(ss), stripped);
    var ctx := START.(titleIds := ids);
    assert Fold(env, START, stripped, 0) == Fold(env, ctx, stripped, 1);
    DocsFold(env, ctx, ctx, stripped, 1, docs, 0, AllCalls(env, docs, 0, 0, false));
    assert [] + AllCalls(env, docs, 0, 0, false) == AllCalls(env, docs, 0, 0, false);
  }
}
