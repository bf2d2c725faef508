/** The patch file parser as a state machine over lines, and the blocks it amounts to
    (game_patch/patch.c:133-487).
  */
module PatchFile {
  import opened CText
  import opened PatchLines

  // ----- Metadata -----

  datatype Patch = Patch(title: Option<string>, name: Option<string>, notes: Option<string>, author: Option<string>,
                         version: Option<string>, appBin: Option<string>, appVers: seq<string>, isAppVerList: bool)

  const NO_PATCH: Patch := Patch(None, None, None, None, None, None, [], false)

  datatype Meta = Meta(hash: nat, number: nat, title: Option<string>, name: Option<string>, author: Option<string>,
                       version: Option<string>, appBin: Option<string>, appVer: Option<string>,
                       matchesGame: bool, enabled: bool, isPrx: bool)

  const NO_META: Meta := Meta(0, 0, None, None, None, None, None, None, false, false, false)

  /** Keep the patches of one title, stream to the callbacks, or list every patch. */
  datatype Mode = All(wanted: Option<string>) | LowMem | Metadata

  /** The mode, the version of the running game, and the metadata of version `k` of a block with a
      number. The structure of a run does not depend on how metadata is computed; PatchMetadata
      says how it is. */
  datatype Env = Env(mode: Mode, gameVer: string, metaOf: (Patch, nat, nat) -> Meta)

  predicate MatchesGame(gameVer: string, appVer: Option<string>) {
    appVer.Some? && gameVer != "" && appVer.value == gameVer
  }

  /** How many versions a block stands for: one, unnamed, when it lists none. */
  function VersionCount(p: Patch): (n: nat)
    ensures n > 0
  {
    if p.appVers == [] then 1 else |p.appVers|
  }

  function VersionAt(p: Patch, k: nat): Option<string> {
    if k < |p.appVers| then Some(p.appVers[k]) else None
  }

  /** Building metadata dereferences fields that were never set: the executable name always, and
      everything that is duplicated except on the console, whose str_dup accepts NULL. */
  predicate MetaFaults(mode: Mode, p: Patch, k: nat) {
    p.appBin.None? ||
    (!mode.LowMem? && (p.title.None? || p.name.None? || p.author.None? || p.version.None? || VersionAt(p, k).None?))
  }

  // ----- The state machine -----

  datatype PatchData = PatchData(meta: Meta, entries: seq<seq<string>>)

  datatype Call = MetaCall(meta: Meta) | EntryCall(meta: Meta, entry: seq<string>)

  datatype Ctx = Ctx(titleIds: seq<string>, number: nat, patch: Patch, inPatches: bool, entries: seq<seq<string>>,
                     kept: seq<PatchData>, records: seq<Meta>,
                     calls: seq<Call>, currentMeta: Meta, processing: bool, faulted: bool)

  const START: Ctx := Ctx([], 0, NO_PATCH, false, [], [], [], [], NO_META, false, false)

  function Amend(p: Patch, line: Line): Patch {
    match line
    case Field(Title, v) => p.(title := v)
    case Field(PatchName, v) => p.(name := v)
    case Field(Notes, v) => p.(notes := v)
    case Field(Author, v) => p.(author := v)
    case Field(PatchVersion, v) => p.(version := v)
    case Field(AppBin, v) => p.(appBin := v)
    case VersionList(vs) => p.(isAppVerList := true, appVers := vs)
    case Version(v) => p.(isAppVerList := false, appVers := if v.Some? then [v.value] else [])
    case _ => p
  }

  /** Version `k` of a finished block is kept. */
  predicate Keeps(env: Env, p: Patch, k: nat) {
    && env.mode.All? && VersionAt(p, k) == Some(env.gameVer)
    && env.mode.wanted.Some? && p.title == env.mode.wanted
  }

  /** Finishing version `k` reads through a null pointer. */
  predicate VersionFaults(env: Env, p: Patch, k: nat) {
    match env.mode
    case All(_) => VersionAt(p, k).None? || (VersionAt(p, k).value == env.gameVer && MetaFaults(env.mode, p, k))
    case Metadata => MetaFaults(env.mode, p, k)
    case LowMem => false
  }

  predicate BlockFaults(env: Env, p: Patch) {
    exists k :: 0 <= k < VersionCount(p) && VersionFaults(env, p, k)
  }

  /** The versions up to `n` that are kept, in order. */
  function KeptVersions(env: Env, p: Patch, n: nat): seq<nat>
    decreases n
  {
    if n == 0 then [] else KeptVersions(env, p, n - 1) + if Keeps(env, p, n - 1) then [n - 1] else []
  }

  function KeptOf(env: Env, p: Patch, entries: seq<seq<string>>, number: nat, n: nat): seq<PatchData> {
    var ks := KeptVersions(env, p, n);
    seq(|ks|, j requires 0 <= j < |ks| => PatchData(env.metaOf(p, number, ks[j]), entries))
  }

  function RecordsOf(env: Env, p: Patch, number: nat, n: nat): seq<Meta> {
    if env.mode.Metadata? then seq(n, k requires 0 <= k < n => env.metaOf(p, number, k)) else []
  }

  /** The end of a block; without a title nothing happens, not even a reset. */
  function Complete(env: Env, ctx: Ctx): Ctx {
    if ctx.faulted || ctx.patch.title.None? then ctx
    else if BlockFaults(env, ctx.patch) then ctx.(faulted := true)
    else ctx.(kept := ctx.kept + KeptOf(env, ctx.patch, ctx.entries, ctx.number, VersionCount(ctx.patch)),
              records := ctx.records + RecordsOf(env, ctx.patch, ctx.number, VersionCount(ctx.patch)),
              entries := [], patch := NO_PATCH, inPatches := false, number := ctx.number + 1)
  }

  /** The versions up to `n` that are the game's, in order. */
  function Matching(gameVer: string, p: Patch, n: nat): seq<nat>
    decreases n
  {
    if n == 0 then []
    else Matching(gameVer, p, n - 1) + if MatchesGame(gameVer, VersionAt(p, n - 1)) then [n - 1] else []
  }

  function MetaCalls(env: Env, p: Patch, number: nat, n: nat): seq<Call> {
    var ks := Matching(env.gameVer, p, n);
    seq(|ks|, j requires 0 <= j < |ks| => MetaCall(env.metaOf(p, number, ks[j])))
  }

  /** Whether entries are processed after the versions up to `n`: the last match decides, and
      without one the flag stays as it was. */
  function Processing(env: Env, p: Patch, number: nat, n: nat, before: bool): bool {
    var ks := Matching(env.gameVer, p, n);
    if ks == [] then before else env.metaOf(p, number, ks[|ks| - 1]).enabled
  }

  /** The "patches:" line. */
  function Begin(env: Env, ctx: Ctx): Ctx {
    if !env.mode.LowMem? then ctx.(inPatches := true)
    else if ctx.patch.appBin.None? then ctx.(faulted := true)
    else
      var n := VersionCount(ctx.patch);
      ctx.(inPatches := true,
           calls := ctx.calls + MetaCalls(env, ctx.patch, ctx.number, n),
           processing := Processing(env, ctx.patch, ctx.number, n, ctx.processing),
           currentMeta := env.metaOf(ctx.patch, ctx.number, 0))
  }

  function Entry(env: Env, ctx: Ctx, params: seq<string>): Ctx {
    if !ctx.inPatches || |params| < MIN_PATCH_PARAMS then ctx
    else
      match env.mode
      case All(_) => ctx.(entries := ctx.entries + [params])
      case LowMem => if ctx.processing then ctx.(calls := ctx.calls + [EntryCall(ctx.currentMeta, params)]) else ctx
      case Metadata => ctx
  }

  function Step(env: Env, ctx: Ctx, line: Line): Ctx {
    if ctx.faulted then ctx
    else
      match line
      case Ignored => ctx
      case TitleIds(ids) => if ids.Some? then ctx.(titleIds := ids.value) else ctx
      case Block => Complete(env, ctx)
      case Patches => Begin(env, ctx)
      case Item(params) => Entry(env, ctx, params)
      case _ => ctx.(patch := Amend(ctx.patch, line))
  }

  function Fold(env: Env, ctx: Ctx, lines: seq<Line>, i: nat): Ctx
    decreases |lines| - i
  {
    if i >= |lines| then ctx else Fold(env, Step(env, ctx, lines[i]), lines, i + 1)
  }

  /** Every line, then the end of the last block. */
  function Run(env: Env, lines: seq<Line>): Ctx {
    Complete(env, Fold(env, START, lines, 0))
  }

  // ----- Blocks -----

  /** What a block says, read on its own. */
  datatype BlockText = BlockText(patch: Patch, inPatches: bool, entries: seq<seq<string>>)

  const EMPTY_BLOCK: BlockText := BlockText(NO_PATCH, false, [])

  function AddLine(b: BlockText, line: Line): BlockText {
    match line
    case Patches => b.(inPatches := true)
    case Item(params) => if b.inPatches && |params| >= MIN_PATCH_PARAMS then b.(entries := b.entries + [params]) else b
    case _ => b.(patch := Amend(b.patch, line))
  }

  /** The lines from `s` up to `i`, read from nothing. */
  function ReadBlock(lines: seq<Line>, s: nat, i: nat): BlockText
    requires s <= i <= |lines|
    decreases i - s
  {
    if s == i then EMPTY_BLOCK else AddLine(ReadBlock(lines, s, i - 1), lines[i - 1])
  }

  /** The first "patch:" line from `i` on that ends the block begun at `s`: one before which the
      block has a title. */
  function BlockEnd(lines: seq<Line>, s: nat, i: nat): (h: nat)
    requires s <= i <= |lines|
    ensures i <= h <= |lines|
    ensures h < |lines| ==> lines[h].Block? && ReadBlock(lines, s, h).patch.title.Some?
    decreases |lines| - i
  {
    if i == |lines| || (lines[i].Block? && ReadBlock(lines, s, i).patch.title.Some?) then i
    else BlockEnd(lines, s, i + 1)
  }

  datatype Outcome = Crash | Results(kept: seq<PatchData>, records: seq<Meta>)

  function Then(a: Outcome, b: Outcome): Outcome {
    if a.Results? && b.Results? then Results(a.kept + b.kept, a.records + b.records) else Crash
  }

  /** What one block yields by itself. */
  function BlockOutcome(env: Env, b: BlockText, number: nat): Outcome {
    if b.patch.title.None? then Results([], [])
    else if BlockFaults(env, b.patch) then Crash
    else Results(KeptOf(env, b.patch, if env.mode.All? then b.entries else [], number, VersionCount(b.patch)),
                 RecordsOf(env, b.patch, number, VersionCount(b.patch)))
  }

  /** The blocks from the one begun at `s`, numbered from `number`: the search for its end goes on
      at `i`. */
  function BlocksFrom(env: Env, lines: seq<Line>, s: nat, i: nat, number: nat): Outcome
    requires s <= i <= |lines|
    decreases |lines| - s, |lines| - i
  {
    var h := BlockEnd(lines, s, i);
    var own := BlockOutcome(env, ReadBlock(lines, s, h), number);
    if h == |lines| then own else Then(own, BlocksFrom(env, lines, h + 1, h + 1, number + 1))
  }

  function OutcomeOf(ctx: Ctx): Outcome {
    if ctx.faulted then Crash else Results(ctx.kept, ctx.records)
  }

  /** `ctx` has read the block `b`. */
  predicate Holds(env: Env, ctx: Ctx, b: BlockText) {
    && !ctx.faulted && ctx.patch == b.patch && ctx.inPatches == b.inPatches
    && ctx.entries == if env.mode.All? then b.entries else []
  }

  /** `ctx` has read the lines of a block from `s` up to `i`. */
  predicate Reading(env: Env, ctx: Ctx, lines: seq<Line>, s: nat, i: nat)
    requires s <= i <= |lines|
  {
    Holds(env, ctx, ReadBlock(lines, s, i))
  }

  lemma ReadingStep(env: Env, ctx: Ctx, lines: seq<Line>, s: nat, i: nat)
    requires s <= i < |lines| && Reading(env, ctx, lines, s, i) && !env.mode.LowMem?
    requires lines[i].Block? ==> ctx.patch.title.None?
    ensures Reading(env, Step(env, ctx, lines[i]), lines, s, i + 1)
    ensures var next := Step(env, ctx, lines[i]);
            next.kept == ctx.kept && next.records == ctx.records && next.number == ctx.number
  {
  }

  lemma {:induction false} FaultStays(env: Env, ctx: Ctx, lines: seq<Line>, i: nat)
    requires ctx.faulted
    ensures Fold(env, ctx, lines, i) == ctx
    decreases |lines| - i
  {
    if i < |lines| {
      FaultStays(env, ctx, lines, i + 1);
    }
  }

  lemma Regroup(before: Outcome, own: Outcome, rest: Outcome, done: Outcome, after: Outcome)
    requires done == Then(before, own) && after == Then(own, rest)
    ensures Then(done, rest) == Then(before, after)
  {
    if before.Results? && own.Results? && rest.Results? {
      assert (before.kept + own.kept) + rest.kept == before.kept + (own.kept + rest.kept);
      assert (before.records + own.records) + rest.records == before.records + (own.records + rest.records);
    }
  }

  lemma CompleteIsBlock(env: Env, ctx: Ctx, b: BlockText, own: Outcome)
    requires Holds(env, ctx, b) && !env.mode.LowMem? && own == BlockOutcome(env, b, ctx.number)
    ensures OutcomeOf(Complete(env, ctx)) == Then(OutcomeOf(ctx), own)
  {
    assert ctx.kept + [] == ctx.kept && ctx.records + [] == ctx.records;
  }

  lemma BlockEndHere(env: Env, lines: seq<Line>, s: nat, i: nat, number: nat, own: Outcome)
    requires s <= i < |lines| && lines[i].Block? && ReadBlock(lines, s, i).patch.title.Some?
    requires own == BlockOutcome(env, ReadBlock(lines, s, i), number)
    ensures BlocksFrom(env, lines, s, i, number) == Then(own, BlocksFrom(env, lines, i + 1, i + 1, number + 1))
  {
    assert BlockEnd(lines, s, i) == i;
  }

  lemma BlockGoesOn(env: Env, lines: seq<Line>, s: nat, i: nat, number: nat)
    requires s <= i < |lines| && !(lines[i].Block? && ReadBlock(lines, s, i).patch.title.Some?)
    ensures BlocksFrom(env, lines, s, i, number) == BlocksFrom(env, lines, s, i + 1, number)
  {
    assert BlockEnd(lines, s, i) == BlockEnd(lines, s, i + 1);
  }

  lemma AfterComplete(env: Env, ctx: Ctx, lines: seq<Line>, i: nat)
    requires !ctx.faulted && ctx.patch.title.Some? && i <= |lines| && !env.mode.LowMem?
    ensures var next := Complete(env, ctx);
            !next.faulted ==> Reading(env, next, lines, i, i) && next.number == ctx.number + 1
  {
  }

  /** What the run yields from line `i` on. */
  function Final(env: Env, ctx: Ctx, lines: seq<Line>, i: nat): Outcome {
    OutcomeOf(Complete(env, Fold(env, ctx, lines, i)))
  }

  lemma {:induction false} FoldIsBlocks(env: Env, ctx: Ctx, lines: seq<Line>, s: nat, i: nat)
    requires s <= i <= |lines| && Reading(env, ctx, lines, s, i) && !env.mode.LowMem?
    ensures Final(env, ctx, lines, i) == Then(OutcomeOf(ctx), BlocksFrom(env, lines, s, i, ctx.number))
    decreases |lines| - i, 1
  {
    if i == |lines| {
      var b := ReadBlock(lines, s, i);
      CompleteIsBlock(env, ctx, b, BlockOutcome(env, b, ctx.number));
    } else if lines[i].Block? && ctx.patch.title.Some? {
      FoldPastBlock(env, ctx, lines, s, i);
    } else {
      FoldInBlock(env, ctx, lines, s, i);
    }
  }

  lemma {:induction false} FoldInBlock(env: Env, ctx: Ctx, lines: seq<Line>, s: nat, i: nat)
    requires s <= i < |lines| && Reading(env, ctx, lines, s, i) && !env.mode.LowMem?
    requires !(lines[i].Block? && ctx.patch.title.Some?)
    ensures Final(env, ctx, lines, i) == Then(OutcomeOf(ctx), BlocksFrom(env, lines, s, i, ctx.number))
    decreases |lines| - i, 0
  {
    var next := Step(env, ctx, lines[i]);
    ReadingStep(env, ctx, lines, s, i);
    BlockGoesOn(env, lines, s, i, ctx.number);
    FoldIsBlocks(env, next, lines, s, i + 1);
    assert Final(env, ctx, lines, i) == Final(env, next, lines, i + 1);
  }

  lemma {:induction false} FoldPastBlock(env: Env, ctx: Ctx, lines: seq<Line>, s: nat, i: nat)
    requires s <= i < |lines| && Reading(env, ctx, lines, s, i) && !env.mode.LowMem?
    requires lines[i].Block? && ctx.patch.title.Some?
    ensures Final(env, ctx, lines, i) == Then(OutcomeOf(ctx), BlocksFrom(env, lines, s, i, ctx.number))
    decreases |lines| - i, 0
  {
    var own, rest := CutAt(env, ctx, lines, s, i);
    FoldNextBlock(env, ctx, lines, i, rest);
    Regroup(OutcomeOf(ctx), own, rest, OutcomeOf(Complete(env, ctx)), BlocksFrom(env, lines, s, i, ctx.number));
  }

  /** The block that ends at `i`, and what comes after it. */
  lemma CutAt(env: Env, ctx: Ctx, lines: seq<Line>, s: nat, i: nat) returns (own: Outcome, rest: Outcome)
    requires s <= i < |lines| && Reading(env, ctx, lines, s, i) && !env.mode.LowMem?
    requires lines[i].Block? && ctx.patch.title.Some?
    ensures OutcomeOf(Complete(env, ctx)) == Then(OutcomeOf(ctx), own)
    ensures rest == BlocksFrom(env, lines, i + 1, i + 1, ctx.number + 1)
    ensures BlocksFrom(env, lines, s, i, ctx.number) == Then(own, rest)
  {
    own := BlockOutcome(env, ReadBlock(lines, s, i), ctx.number);
    rest := BlocksFrom(env, lines, i + 1, i + 1, ctx.number + 1);
    CompleteIsBlock(env, ctx, ReadBlock(lines, s, i), own);
    BlockEndHere(env, lines, s, i, ctx.number, own);
  }

  lemma {:induction false} FoldNextBlock(env: Env, ctx: Ctx, lines: seq<Line>, i: nat, rest: Outcome)
    requires i < |lines| && lines[i].Block? && !ctx.faulted && ctx.patch.title.Some? && !env.mode.LowMem?
    requires rest == BlocksFrom(env, lines, i + 1, i + 1, ctx.number + 1)
    ensures Final(env, ctx, lines, i) == Then(OutcomeOf(Complete(env, ctx)), rest)
    decreases |lines| - i - 1, 2
  {
    var next := Complete(env, ctx);
    AfterComplete(env, ctx, lines, i + 1);
    if next.faulted {
      FaultStays(env, next, lines, i + 1);
    } else {
      FoldIsBlocks(env, next, lines, i + 1, i + 1);
    }
    assert Final(env, ctx, lines, i) == Final(env, next, lines, i + 1);
  }

  /** For any lines, in the modes that collect: the parser yields what its blocks yield, each
      read alone from nothing, in file order. A "patch:" line ends a block only if that block has
      a title; the run crashes exactly when one of the blocks would. */
  lemma RunIsBlocks(env: Env, lines: seq<Line>)
    requires !env.mode.LowMem?
    ensures OutcomeOf(Run(env, lines)) == BlocksFrom(env, lines, 0, 0, 0)
  {
    FoldIsBlocks(env, START, lines, 0, 0);
    var b := BlocksFrom(env, lines, 0, 0, 0);
    if b.Results? {
      assert [] + b.kept == b.kept && [] + b.records == b.records;
    }
  }

  // ----- What a block holds -----

  function GetField(p: Patch, name: Name): Option<string> {
    match name
    case Title => p.title
    case PatchName => p.name
    case Notes => p.notes
    case Author => p.author
    case PatchVersion => p.version
    case AppBin => p.appBin
  }

  /** The value of the last line from `s` up to `i` for the field, even when it has none. */
  function LastField(lines: seq<Line>, s: nat, i: nat, name: Name): Option<string>
    requires s <= i <= |lines|
    decreases i - s
  {
    if s == i then None
    else if lines[i - 1].Field? && lines[i - 1].name == name then lines[i - 1].value
    else LastField(lines, s, i - 1, name)
  }

  function LastVersions(lines: seq<Line>, s: nat, i: nat): seq<string>
    requires s <= i <= |lines|
    decreases i - s
  {
    if s == i then []
    else
      match lines[i - 1]
      case VersionList(vs) => vs
      case Version(v) => if v.Some? then [v.value] else []
      case _ => LastVersions(lines, s, i - 1)
  }

  /** The first "patches:" line from `i` up to `n`, or `n`. */
  function FirstPatches(lines: seq<Line>, i: nat, n: nat): (r: nat)
    requires i <= n <= |lines|
    ensures i <= r <= n && (r < n ==> lines[r].Patches?)
    decreases n - i
  {
    if i == n || lines[i].Patches? then i else FirstPatches(lines, i + 1, n)
  }

  lemma {:induction false} FirstPatchesIsFirst(lines: seq<Line>, i: nat, n: nat)
    requires i <= n <= |lines|
    ensures forall k :: i <= k < FirstPatches(lines, i, n) ==> !lines[k].Patches?
    decreases n - i
  {
    if i < n && !lines[i].Patches? {
      FirstPatchesIsFirst(lines, i + 1, n);
    }
  }

  /** The items with enough parameters from `a` up to `n`. */
  function ItemsOf(lines: seq<Line>, a: nat, n: nat): seq<seq<string>>
    requires n <= |lines|
    decreases n
  {
    if n <= a then []
    else
      ItemsOf(lines, a, n - 1)
      + if lines[n - 1].Item? && |lines[n - 1].params| >= MIN_PATCH_PARAMS then [lines[n - 1].params] else []
  }

  lemma {:induction false} BlockFields(lines: seq<Line>, s: nat, i: nat, name: Name)
    requires s <= i <= |lines|
    ensures GetField(ReadBlock(lines, s, i).patch, name) == LastField(lines, s, i, name)
    ensures ReadBlock(lines, s, i).patch.appVers == LastVersions(lines, s, i)
    decreases i - s
  {
    if s < i {
      BlockFields(lines, s, i - 1, name);
    }
  }

  lemma {:induction false} BlockEntries(lines: seq<Line>, s: nat, p: nat, i: nat)
    requires s <= i <= |lines| && s <= p && (p < |lines| ==> lines[p].Patches?)
    requires forall k :: s <= k < p && k < i ==> !lines[k].Patches?
    ensures ReadBlock(lines, s, i).inPatches == (p < i)
    ensures ReadBlock(lines, s, i).entries == ItemsOf(lines, p + 1, i)
    decreases i - s
  {
    if s < i {
      BlockEntries(lines, s, p, i - 1);
    }
  }

  /** A block says the last value of each field, the versions of its last version line, and the
      items after its first "patches:" line, in file order. */
  lemma BlockContents(lines: seq<Line>, s: nat, n: nat, name: Name)
    requires s <= n <= |lines|
    ensures var b := ReadBlock(lines, s, n);
            && GetField(b.patch, name) == LastField(lines, s, n, name)
            && b.patch.appVers == LastVersions(lines, s, n)
            && b.entries == ItemsOf(lines, FirstPatches(lines, s, n) + 1, n)
  {
    BlockFields(lines, s, n, name);
    var p := FirstPatches(lines, s, n);
    FirstPatchesIsFirst(lines, s, n);
    if p < n {
      BlockEntries(lines, s, p, n);
    } else {
      BlockEntries(lines, s, |lines|, n);
    }
  }

  // ----- Splitting at every "patch:" line -----

  function NextBlock(lines: seq<Line>, i: nat): (h: nat)
    requires i <= |lines|
    ensures i <= h <= |lines| && (h < |lines| ==> lines[h].Block?)
    decreases |lines| - i
  {
    if i == |lines| || lines[i].Block? then i else NextBlock(lines, i + 1)
  }

  lemma {:induction false} NextBlockIsFirst(lines: seq<Line>, i: nat)
    requires i <= |lines|
    ensures forall k :: i <= k < NextBlock(lines, i) ==> !lines[k].Block?
    decreases |lines| - i
  {
    if i < |lines| && !lines[i].Block? {
      NextBlockIsFirst(lines, i + 1);
    }
  }

  /** Every block from the one begun at `s` has a title. */
  predicate EachTitled(lines: seq<Line>, s: nat)
    requires s <= |lines|
    decreases |lines| - s
  {
    var h := NextBlock(lines, s);
    LastField(lines, s, h, Title).Some? && (h < |lines| ==> EachTitled(lines, h + 1))
  }

  function PlainBlocks(env: Env, lines: seq<Line>, s: nat, number: nat): Outcome
    requires s <= |lines|
    decreases |lines| - s
  {
    var h := NextBlock(lines, s);
    var own := BlockOutcome(env, ReadBlock(lines, s, h), number);
    if h == |lines| then own else Then(own, PlainBlocks(env, lines, h + 1, number + 1))
  }

  lemma {:induction false} EndsAtNextBlock(lines: seq<Line>, s: nat, i: nat, h: nat)
    requires s <= i <= h <= |lines| && (h < |lines| ==> lines[h].Block? && ReadBlock(lines, s, h).patch.title.Some?)
    requires forall k :: i <= k < h ==> !lines[k].Block?
    ensures BlockEnd(lines, s, i) == h
    decreases h - i
  {
    if i < h {
      EndsAtNextBlock(lines, s, i + 1, h);
    }
  }

  lemma {:induction false} TitledBlocks(env: Env, lines: seq<Line>, s: nat, number: nat)
    requires s <= |lines| && EachTitled(lines, s)
    ensures BlocksFrom(env, lines, s, s, number) == PlainBlocks(env, lines, s, number)
    decreases |lines| - s
  {
    var h := NextBlock(lines, s);
    BlockFields(lines, s, h, Title);
    NextBlockIsFirst(lines, s);
    EndsAtNextBlock(lines, s, s, h);
    if h < |lines| {
      TitledBlocks(env, lines, h + 1, number + 1);
    }
  }

  /** A line that says nothing about any block. */
  predicate Quiet(line: Line) {
    line.Ignored? || line.TitleIds?
  }

  /** Nothing but identifiers stands before the first "patch:" line. */
  predicate QuietUpTo(lines: seq<Line>, first: nat)
    requires first <= |lines|
  {
    forall k :: 0 <= k < first ==> Quiet(lines[k])
  }

  lemma {:induction false} PreambleAdds(lines: seq<Line>, first: nat, i: nat)
    requires first < i <= |lines| && lines[first].Block? && QuietUpTo(lines, first)
    ensures ReadBlock(lines, 0, i) == ReadBlock(lines, first + 1, i)
    decreases i
  {
    if i == first + 1 {
      QuietReads(lines, first);
    } else {
      PreambleAdds(lines, first, i - 1);
    }
  }

  lemma {:induction false} QuietReads(lines: seq<Line>, i: nat)
    requires i <= |lines| && QuietUpTo(lines, i)
    ensures ReadBlock(lines, 0, i) == EMPTY_BLOCK
    decreases i, lines
  {
    if i > 0 {
      QuietReads(lines, i - 1);
    }
  }

  lemma {:induction false} PreambleEnds(lines: seq<Line>, first: nat, i: nat)
    requires i <= first < |lines| && lines[first].Block? && QuietUpTo(lines, first)
    ensures BlockEnd(lines, 0, i) == BlockEnd(lines, 0, first + 1)
    decreases first - i
  {
    QuietReads(lines, i);
    if i < first {
      PreambleEnds(lines, first, i + 1);
    }
  }

  lemma {:induction false} SameEnd(lines: seq<Line>, first: nat, i: nat)
    requires first < i <= |lines| && lines[first].Block? && QuietUpTo(lines, first)
    ensures BlockEnd(lines, 0, i) == BlockEnd(lines, first + 1, i)
    decreases |lines| - i
  {
    PreambleAdds(lines, first, i);
    if i < |lines| {
      SameEnd(lines, first, i + 1);
    }
  }

  lemma PreambleDropped(env: Env, lines: seq<Line>, first: nat, start: nat, number: nat)
    requires first < |lines| && lines[first].Block? && QuietUpTo(lines, first) && start == 0
    ensures BlocksFrom(env, lines, start, start, number) == BlocksFrom(env, lines, first + 1, first + 1, number)
  {
    PreambleEnds(lines, first, start);
    SameEnd(lines, first, first + 1);
    PreambleAdds(lines, first, BlockEnd(lines, first + 1, first + 1));
  }

  lemma NoBlocks(env: Env, lines: seq<Line>, start: nat, number: nat)
    requires QuietUpTo(lines, |lines|) && start == 0
    ensures BlocksFrom(env, lines, start, start, number) == Results([], [])
  {
    QuietReads(lines, |lines|);
    EndsAtNextBlock(lines, start, start, |lines|);
  }

  /** When nothing but identifiers precedes the first block and every block has a title, the
      blocks are simply the stretches between the "patch:" lines. */
  lemma RunIsPlainBlocks(env: Env, lines: seq<Line>)
    requires !env.mode.LowMem? && QuietUpTo(lines, NextBlock(lines, 0))
    requires var first := NextBlock(lines, 0); first < |lines| ==> EachTitled(lines, first + 1)
    ensures var first := NextBlock(lines, 0);
            OutcomeOf(Run(env, lines)) ==
            if first == |lines| then Results([], []) else PlainBlocks(env, lines, first + 1, 0)
  {
    var first := NextBlock(lines, 0);
    RunIsBlocks(env, lines);
    if first == |lines| {
      NoBlocks(env, lines, 0, 0);
    } else {
      PreambleDropped(env, lines, first, 0, 0);
      TitledBlocks(env, lines, first + 1, 0);
    }
  }

  // ----- Across the modes -----

  /** Metadata carries what identifies its version. */
  ghost predicate Faithful(env: Env) {
    forall p: Patch, number: nat, k: nat :: var m := env.metaOf(p, number, k);
      m.title == p.title && m.appVer == VersionAt(p, k) && m.number == number * 100 + k
  }

  function Metas(kept: seq<PatchData>): (ms: seq<Meta>)
    ensures |ms| == |kept|
  {
    seq(|kept|, i requires 0 <= i < |kept| => kept[i].meta)
  }

  /** The records for the game's version of the wanted title. */
  function Wanted(records: seq<Meta>, gameVer: string, wanted: Option<string>): seq<Meta> {
    if records == [] then []
    else
      var m := records[|records| - 1];
      Wanted(records[..|records| - 1], gameVer, wanted)
      + if m.appVer == Some(gameVer) && wanted.Some? && m.title == wanted then [m] else []
  }

  lemma {:induction false} WantedAppend(a: seq<Meta>, b: seq<Meta>, gameVer: string, wanted: Option<string>)
    ensures Wanted(a + b, gameVer, wanted) == Wanted(a, gameVer, wanted) + Wanted(b, gameVer, wanted)
    decreases |b|
  {
    if b == [] {
      assert a + b == a;
    } else {
      var n := |b| - 1;
      WantedAppend(a, b[..n], gameVer, wanted);
      assert (a + b)[..|a + b| - 1] == a + b[..n];
      assert (a + b)[|a + b| - 1] == b[n];
    }
  }

  lemma {:induction false} KeptIsWanted(env: Env, wanted: Option<string>, p: Patch, entries: seq<seq<string>>,
                                        number: nat, n: nat)
    requires Faithful(env) && env.mode.Metadata?
    ensures Metas(KeptOf(env.(mode := All(wanted)), p, entries, number, n))
         == Wanted(RecordsOf(env, p, number, n), env.gameVer, wanted)
    decreases n
  {
    if n > 0 {
      KeptIsWanted(env, wanted, p, entries, number, n - 1);
      var all := env.(mode := All(wanted));
      var rs := RecordsOf(env, p, number, n);
      assert rs[..n - 1] == RecordsOf(env, p, number, n - 1);
      assert rs[n - 1] == env.metaOf(p, number, n - 1);
      var kept := Metas(KeptOf(all, p, entries, number, n - 1));
      assert Metas(KeptOf(all, p, entries, number, n))
          == kept + if Keeps(all, p, n - 1) then [env.metaOf(p, number, n - 1)] else [];
    }
  }

  /** `kept` is what the records say is wanted; nothing crashes that the listing survives. */
  predicate Filtered(all: Outcome, listed: Outcome, gameVer: string, wanted: Option<string>) {
    listed.Results? ==> all.Results? && all.records == [] && Metas(all.kept) == Wanted(listed.records, gameVer, wanted)
  }

  lemma BlockFiltered(env: Env, wanted: Option<string>, b: BlockText, number: nat)
    requires Faithful(env) && env.mode.Metadata?
    ensures Filtered(BlockOutcome(env.(mode := All(wanted)), b, number),
                     BlockOutcome(env, b, number), env.gameVer, wanted)
  {
    var all := env.(mode := All(wanted));
    if b.patch.title.Some? && !BlockFaults(env, b.patch) {
      forall k | 0 <= k < VersionCount(b.patch)
        ensures !VersionFaults(all, b.patch, k)
      {
        assert !VersionFaults(env, b.patch, k);
      }
      KeptIsWanted(env, wanted, b.patch, b.entries, number, VersionCount(b.patch));
    }
  }

  lemma ThenFiltered(a: Outcome, a': Outcome, b: Outcome, b': Outcome, gameVer: string, wanted: Option<string>)
    requires Filtered(a, a', gameVer, wanted) && Filtered(b, b', gameVer, wanted)
    ensures Filtered(Then(a, b), Then(a', b'), gameVer, wanted)
  {
    if a'.Results? && b'.Results? {
      WantedAppend(a'.records, b'.records, gameVer, wanted);
      assert Metas(a.kept + b.kept) == Metas(a.kept) + Metas(b.kept);
    }
  }

  lemma {:induction false} BlocksFiltered(env: Env, wanted: Option<string>, lines: seq<Line>, s: nat, i: nat,
                                          number: nat)
    requires Faithful(env) && env.mode.Metadata? && s <= i <= |lines|
    ensures Filtered(BlocksFrom(env.(mode := All(wanted)), lines, s, i, number),
                     BlocksFrom(env, lines, s, i, number), env.gameVer, wanted)
    decreases |lines| - s
  {
    var h := BlockEnd(lines, s, i);
    var b := ReadBlock(lines, s, h);
    BlockFiltered(env, wanted, b, number);
    if h < |lines| {
      var all := env.(mode := All(wanted));
      BlocksFiltered(env, wanted, lines, h + 1, h + 1, number + 1);
      ThenFiltered(BlockOutcome(all, b, number), BlockOutcome(env, b, number),
                   BlocksFrom(all, lines, h + 1, h + 1, number + 1),
                   BlocksFrom(env, lines, h + 1, h + 1, number + 1), env.gameVer, wanted);
    }
  }

  /** Keeping the patches of one title yields the metadata that listing yields, filtered; and it
      crashes on no file that can be listed. */
  lemma KeepingIsFiltering(env: Env, wanted: Option<string>, lines: seq<Line>)
    requires Faithful(env) && env.mode.Metadata?
    ensures Filtered(OutcomeOf(Run(env.(mode := All(wanted)), lines)), OutcomeOf(Run(env, lines)), env.gameVer, wanted)
  {
    RunIsBlocks(env, lines);
    RunIsBlocks(env.(mode := All(wanted)), lines);
    BlocksFiltered(env, wanted, lines, 0, 0, 0);
  }

  // ----- Patch numbers -----

  /** The numbers grow, starting at 100 times `number`. */
  ghost predicate Numbered(records: seq<Meta>, number: nat) {
    && (forall i :: 0 <= i < |records| ==> number * 100 <= records[i].number)
    && (forall i, j :: 0 <= i < j < |records| ==> records[i].number < records[j].number)
  }

  ghost predicate VersionsFit(lines: seq<Line>) {
    forall k :: 0 <= k < |lines| && lines[k].VersionList? ==> |lines[k].versions| <= MAX_APP_VERS
  }

  lemma {:induction false} FewVersions(lines: seq<Line>, s: nat, i: nat)
    requires s <= i <= |lines| && VersionsFit(lines)
    ensures |LastVersions(lines, s, i)| <= MAX_APP_VERS
    decreases i - s
  {
    if s < i {
      FewVersions(lines, s, i - 1);
    }
  }

  ghost predicate NumbersBelow(records: seq<Meta>, number: nat) {
    forall i :: 0 <= i < |records| ==> records[i].number < number * 100
  }

  lemma NumberedAppend(own: seq<Meta>, rest: seq<Meta>, number: nat)
    requires Numbered(own, number) && Numbered(rest, number + 1)
    requires NumbersBelow(own, number + 1)
    ensures Numbered(own + rest, number)
  {
  }

  lemma OwnNumbered(env: Env, p: Patch, number: nat)
    requires Faithful(env) && VersionCount(p) <= MAX_APP_VERS
    ensures var own := RecordsOf(env, p, number, VersionCount(p));
            Numbered(own, number) && NumbersBelow(own, number + 1)
  {
    var own := RecordsOf(env, p, number, VersionCount(p));
    assert forall i :: 0 <= i < |own| ==> own[i] == env.metaOf(p, number, i);
  }

  lemma BlockNumbered(env: Env, lines: seq<Line>, s: nat, h: nat, number: nat, own: Outcome)
    requires Faithful(env) && s <= h <= |lines| && VersionsFit(lines) &&
             own == BlockOutcome(env, ReadBlock(lines, s, h), number)
    ensures own.Results? ==> Numbered(own.records, number) && NumbersBelow(own.records, number + 1)
  {
    FewVersions(lines, s, h);
    BlockFields(lines, s, h, Title);
    OwnNumbered(env, ReadBlock(lines, s, h).patch, number);
  }

  lemma ThenNumbered(own: Outcome, rest: Outcome, number: nat)
    requires own.Results? ==> Numbered(own.records, number) && NumbersBelow(own.records, number + 1)
    requires rest.Results? ==> Numbered(rest.records, number + 1)
    ensures var o := Then(own, rest); o.Results? ==> Numbered(o.records, number)
  {
    if own.Results? && rest.Results? {
      NumberedAppend(own.records, rest.records, number);
    }
  }

  lemma {:induction false} BlocksNumbered(env: Env, lines: seq<Line>, s: nat, i: nat, number: nat, o: Outcome)
    requires Faithful(env) && s <= i <= |lines| && VersionsFit(lines) && o == BlocksFrom(env, lines, s, i, number)
    ensures o.Results? ==> Numbered(o.records, number)
    decreases |lines| - s
  {
    var h := BlockEnd(lines, s, i);
    var own := BlockOutcome(env, ReadBlock(lines, s, h), number);
    BlockNumbered(env, lines, s, h, number, own);
    if h < |lines| {
      var rest := BlocksFrom(env, lines, h + 1, h + 1, number + 1);
      BlocksNumbered(env, lines, h + 1, h + 1, number + 1, rest);
      ThenNumbered(own, rest, number);
    }
  }

  /** No two patches of a file get the same number. */
  lemma PatchNumbersDiffer(env: Env, lines: seq<Line>)
    requires Faithful(env) && env.mode.Metadata? && VersionsFit(lines)
    ensures var o := OutcomeOf(Run(env, lines)); o.Results? ==> Numbered(o.records, 0)
  {
    RunIsBlocks(env, lines);
    BlocksNumbered(env, lines, 0, 0, 0, BlocksFrom(env, lines, 0, 0, 0));
  }
}
