/** The low-memory mode, which applies entries while it reads, against reading whole blocks and
    applying the entries of the enabled ones (game_patch/patch.c:413-486, 1200-1206).
  */
module LowMemory {
  import opened CText
  import opened PatchLines
  import opened PatchFile

  /** An entry that is applied, and the number of the patch it is applied for. */
  datatype Change = Change(number: nat, entry: seq<string>)

  function ChangesOf(meta: Meta, entries: seq<seq<string>>): (changes: seq<Change>)
    ensures |changes| == |entries|
  {
    seq(|entries|, j requires 0 <= j < |entries| => Change(meta.number, entries[j]))
  }

  lemma ChangesAppend(meta: Meta, a: seq<seq<string>>, b: seq<seq<string>>)
    ensures ChangesOf(meta, a + b) == ChangesOf(meta, a) + ChangesOf(meta, b)
  {
  }

  function EntriesOf(changes: seq<Change>): (entries: seq<seq<string>>)
    ensures |entries| == |changes|
  {
    seq(|changes|, j requires 0 <= j < |changes| => changes[j].entry)
  }

  /** What the callback applies: the entries whose metadata is enabled. */
  function Applied(calls: seq<Call>): seq<Change> {
    if calls == [] then []
    else
      var last := calls[|calls| - 1];
      Applied(calls[..|calls| - 1])
      + if last.EntryCall? && last.meta.enabled then ChangesOf(last.meta, [last.entry]) else []
  }

  lemma AppliedSnoc(calls: seq<Call>, c: Call)
    ensures Applied(calls + [c])
         == Applied(calls) + if c.EntryCall? && c.meta.enabled then ChangesOf(c.meta, [c.entry]) else []
  {
    assert (calls + [c])[..|calls|] == calls;
  }

  lemma {:induction false} AppliedMetaCalls(calls: seq<Call>, more: seq<Call>)
    requires forall i :: 0 <= i < |more| ==> more[i].MetaCall?
    ensures Applied(calls + more) == Applied(calls)
    decreases |more|
  {
    if more == [] {
      assert calls + more == calls;
    } else {
      var n := |more| - 1;
      AppliedMetaCalls(calls, more[..n]);
      AppliedSnoc(calls + more[..n], more[n]);
      assert calls + more == (calls + more[..n]) + [more[n]];
    }
  }

  // ----- The batch reading -----

  /** Some version of the block is the game's and switched on. */
  predicate EnabledFor(env: Env, p: Patch, number: nat) {
    exists k :: 0 <= k < VersionCount(p) && MatchesGame(env.gameVer, VersionAt(p, k)) &&
      env.metaOf(p, number, k).enabled
  }

  function BatchFrom(env: Env, b: BlockText, number: nat): seq<Change> {
    if EnabledFor(env, b.patch, number) then ChangesOf(env.metaOf(b.patch, number, 0), b.entries) else []
  }

  /** The entries of the enabled blocks, each block read as a whole, in file order. */
  function BatchEntries(env: Env, lines: seq<Line>, s: nat, number: nat): seq<Change>
    requires s <= |lines|
    decreases |lines| - s, 1
  {
    var h := NextBlock(lines, s);
    BatchFrom(env, ReadBlock(lines, s, h), number) + BatchRest(env, lines, h, number)
  }

  function BatchRest(env: Env, lines: seq<Line>, h: nat, number: nat): seq<Change>
    requires h <= |lines|
    decreases |lines| - h, 0
  {
    if h == |lines| then [] else BatchEntries(env, lines, h + 1, number + 1)
  }

  // ----- What one block does -----

  /** Whether the entries of a block are applied, given the flag left by the blocks before. */
  predicate StreamsWith(env: Env, p: Patch, number: nat, carried: bool) {
    FlagAfter(env, p, number, carried) && env.metaOf(p, number, 0).enabled
  }

  predicate NoLaterMatch(env: Env, p: Patch) {
    forall k :: 1 <= k < VersionCount(p) ==> !MatchesGame(env.gameVer, VersionAt(p, k))
  }

  /** The game's version is listed first and nowhere else; or nowhere, in a block that is
      switched off. */
  predicate Settled(env: Env, p: Patch, number: nat) {
    NoLaterMatch(env, p) && (MatchesGame(env.gameVer, VersionAt(p, 0)) || !env.metaOf(p, number, 0).enabled)
  }

  lemma {:induction false} MatchingOnlyFirst(env: Env, p: Patch, n: nat)
    requires NoLaterMatch(env, p) && n <= VersionCount(p)
    ensures Matching(env.gameVer, p, n) == if n > 0 && MatchesGame(env.gameVer, VersionAt(p, 0)) then [0] else []
    decreases n
  {
    if n > 0 {
      MatchingOnlyFirst(env, p, n - 1);
    }
  }

  /** A settled block is streamed as the batch reading would treat it, whatever came before. */
  lemma SettledStreams(env: Env, p: Patch, number: nat, carried: bool)
    requires Settled(env, p, number)
    ensures StreamsWith(env, p, number, carried) == EnabledFor(env, p, number)
  {
    MatchingOnlyFirst(env, p, VersionCount(p));
  }

  /** The last of the versions that are the game's is switched on. */
  predicate LastMatchEnabled(env: Env, p: Patch, number: nat) {
    var ks := Matching(env.gameVer, p, VersionCount(p));
    ks != [] && env.metaOf(p, number, ks[|ks| - 1]).enabled
  }

  predicate SomeMatch(env: Env, p: Patch) {
    exists k :: 0 <= k < VersionCount(p) && MatchesGame(env.gameVer, VersionAt(p, k))
  }

  /** What streaming gets right, given the flag `carried`: a block for this game is applied when
      its last match and its first version are switched on, so some match must be switched on
      exactly then; another block follows the flag, so the flag or its first version must be off. */
  predicate Right(env: Env, p: Patch, number: nat, carried: bool) {
    if SomeMatch(env, p) then
      (LastMatchEnabled(env, p, number) && env.metaOf(p, number, 0).enabled) == EnabledFor(env, p, number)
    else !(carried && env.metaOf(p, number, 0).enabled)
  }

  lemma {:induction false} MatchingIsEmpty(env: Env, p: Patch, n: nat)
    ensures Matching(env.gameVer, p, n) == [] <==> forall k :: 0 <= k < n ==> !MatchesGame(env.gameVer, VersionAt(p, k))
    decreases n
  {
    if n > 0 {
      MatchingIsEmpty(env, p, n - 1);
    }
  }

  /** For any block and flag: it is streamed as the batch reading treats it if and only if it is
      right. */
  lemma StreamsExactly(env: Env, p: Patch, number: nat, carried: bool)
    ensures StreamsWith(env, p, number, carried) == EnabledFor(env, p, number) <==> Right(env, p, number, carried)
    ensures !SomeMatch(env, p) ==> FlagAfter(env, p, number, carried) == carried && !EnabledFor(env, p, number)
    ensures SomeMatch(env, p) ==> FlagAfter(env, p, number, carried) == LastMatchEnabled(env, p, number)
  {
    MatchingIsEmpty(env, p, VersionCount(p));
  }

  /** For any block: it is streamed rightly after every possible past if and only if, being for
      this game, it is right, or else its first version is switched off. */
  lemma EveryPastExactly(env: Env, p: Patch, number: nat)
    ensures (forall carried :: StreamsWith(env, p, number, carried) == EnabledFor(env, p, number)) <==>
            if SomeMatch(env, p) then Right(env, p, number, false) else !env.metaOf(p, number, 0).enabled
  {
    StreamsExactly(env, p, number, true);
    StreamsExactly(env, p, number, false);
    forall carried
      ensures StreamsWith(env, p, number, carried) == StreamsWith(env, p, number, if carried then true else false)
    {
    }
  }

  /** With at most one version, that is: for this game, or switched off. */
  lemma SingleVersionExactly(env: Env, p: Patch, number: nat)
    requires |p.appVers| <= 1
    ensures (forall carried :: StreamsWith(env, p, number, carried) == EnabledFor(env, p, number)) <==>
            MatchesGame(env.gameVer, VersionAt(p, 0)) || !env.metaOf(p, number, 0).enabled
  {
    MatchingOnlyFirst(env, p, VersionCount(p));
    EveryPastExactly(env, p, number);
  }

  /** No line from `a` up to `h` concerns a block but as an item. */
  predicate OnlyItems(lines: seq<Line>, a: nat, h: nat)
    requires h <= |lines|
    decreases h
  {
    h <= a || ((Quiet(lines[h - 1]) || lines[h - 1].Item?) && OnlyItems(lines, a, h - 1))
  }

  /** The lines from `s` up to `h` are laid out for streaming: a title and an executable, then one
      "patches:" line, then only items. */
  predicate Shaped(lines: seq<Line>, s: nat, h: nat)
    requires s <= h <= |lines|
  {
    var p := FirstPatches(lines, s, h);
    && p < h
    && OnlyItems(lines, p + 1, h)
    && LastField(lines, s, p, Title).Some? && LastField(lines, s, p, AppBin).Some?
  }

  predicate EachShaped(lines: seq<Line>, s: nat)
    requires s <= |lines|
    decreases |lines| - s
  {
    var h := NextBlock(lines, s);
    Shaped(lines, s, h) && (h < |lines| ==> EachShaped(lines, h + 1))
  }

  predicate EachSettled(env: Env, lines: seq<Line>, s: nat, number: nat)
    requires s <= |lines|
    decreases |lines| - s
  {
    var h := NextBlock(lines, s);
    Settled(env, ReadBlock(lines, s, h).patch, number) && (h < |lines| ==> EachSettled(env, lines, h + 1, number + 1))
  }

  function FlagAfter(env: Env, p: Patch, number: nat, carried: bool): bool {
    Processing(env, p, number, VersionCount(p), carried)
  }

  /** The entries of a block, given the flag left by the blocks before. */
  function StreamedFrom(env: Env, b: BlockText, number: nat, carried: bool): seq<Change> {
    if StreamsWith(env, b.patch, number, carried) then ChangesOf(env.metaOf(b.patch, number, 0), b.entries) else []
  }

  /** The entries of the blocks, the flag carried from each to the next. */
  function StreamEntries(env: Env, lines: seq<Line>, s: nat, number: nat, carried: bool): seq<Change>
    requires s <= |lines|
    decreases |lines| - s, 1
  {
    var h := NextBlock(lines, s);
    var b := ReadBlock(lines, s, h);
    StreamedFrom(env, b, number, carried) + StreamRest(env, lines, h, number, FlagAfter(env, b.patch, number, carried))
  }

  /** The entries of the blocks after the one that ends at `h`. */
  function StreamRest(env: Env, lines: seq<Line>, h: nat, number: nat, carried: bool): seq<Change>
    requires h <= |lines|
    decreases |lines| - h, 0
  {
    if h == |lines| then [] else StreamEntries(env, lines, h + 1, number + 1, carried)
  }

  // ----- Following a run through a block -----

  function FoldTo(env: Env, ctx: Ctx, lines: seq<Line>, s: nat, i: nat): Ctx
    requires s <= i <= |lines|
    decreases i - s
  {
    if s == i then ctx else Step(env, FoldTo(env, ctx, lines, s, i - 1), lines[i - 1])
  }

  lemma {:induction false} FoldSplit(env: Env, ctx: Ctx, lines: seq<Line>, s: nat, i: nat)
    requires s <= i <= |lines|
    ensures Fold(env, ctx, lines, s) == Fold(env, FoldTo(env, ctx, lines, s, i), lines, i)
    decreases i - s
  {
    if s < i {
      FoldSplit(env, ctx, lines, s, i - 1);
    }
  }

  predicate AtBlockStart(ctx: Ctx) {
    !ctx.faulted && ctx.patch == NO_PATCH && !ctx.inPatches
  }

  /** The parts of the state that only a "patches:" line or an item changes. */
  predicate SameStream(a: Ctx, b: Ctx) {
    a.calls == b.calls && a.currentMeta == b.currentMeta && a.processing == b.processing && a.number == b.number &&
      a.faulted == b.faulted
  }

  /** No line from `s` up to `i` ends the head of a block. */
  predicate InHead(lines: seq<Line>, s: nat, i: nat)
    requires i <= |lines|
    decreases i
  {
    i <= s || (!lines[i - 1].Patches? && !lines[i - 1].Block? && InHead(lines, s, i - 1))
  }

  lemma {:induction false} HeadUpTo(lines: seq<Line>, s: nat, i: nat)
    requires i <= |lines| && forall k :: s <= k < i ==> !lines[k].Patches? && !lines[k].Block?
    ensures InHead(lines, s, i)
    decreases i
  {
    if s < i {
      HeadUpTo(lines, s, i - 1);
    }
  }

  lemma HeadOfBlock(lines: seq<Line>, s: nat, h: nat)
    requires s <= |lines| && h == NextBlock(lines, s)
    ensures InHead(lines, s, FirstPatches(lines, s, h))
  {
    NextBlockIsFirst(lines, s);
    FirstPatchesIsFirst(lines, s, h);
    HeadUpTo(lines, s, FirstPatches(lines, s, h));
  }

  lemma {:induction false} BeforePatches(env: Env, ctx: Ctx, lines: seq<Line>, s: nat, i: nat)
    requires env.mode.LowMem? && AtBlockStart(ctx) && s <= i <= |lines|
    requires InHead(lines, s, i)
    ensures var c := FoldTo(env, ctx, lines, s, i);
            SameStream(c, ctx) && !c.inPatches && c.patch == ReadBlock(lines, s, i).patch &&
              !ReadBlock(lines, s, i).inPatches
    decreases i - s
  {
    if s < i {
      BeforePatches(env, ctx, lines, s, i - 1);
    }
  }

  predicate Streaming(ctx: Ctx) {
    ctx.processing && ctx.currentMeta.enabled
  }

  /** Inside a "patches:" section, at the same flags and block. */
  predicate SameSection(a: Ctx, b: Ctx) {
    && a.patch == b.patch && a.number == b.number && a.inPatches && b.inPatches && !a.faulted && !b.faulted
    && a.processing == b.processing && a.currentMeta == b.currentMeta
  }

  lemma Chained(before: seq<Change>, own: seq<Change>, rest: seq<Change>)
    ensures (before + own) + rest == before + (own + rest) && before + own + [] == before + own && own + [] == own
  {
  }

  function ItemOf(line: Line): seq<seq<string>> {
    if line.Item? && |line.params| >= MIN_PATCH_PARAMS then [line.params] else []
  }

  lemma ItemStep(env: Env, c: Ctx, line: Line)
    requires env.mode.LowMem? && c.inPatches && !c.faulted && (Quiet(line) || line.Item?)
    ensures var next := Step(env, c, line);
            SameSection(next, c) &&
              Applied(next.calls) == Applied(c.calls)
                + if Streaming(c) then ChangesOf(c.currentMeta, ItemOf(line)) else []
  {
    if line.Item? {
      AppliedSnoc(c.calls, EntryCall(c.currentMeta, line.params));
    }
  }

  lemma {:induction false} AfterPatches(env: Env, ctx: Ctx, lines: seq<Line>, a: nat, i: nat)
    requires env.mode.LowMem? && !ctx.faulted && ctx.inPatches && a <= i <= |lines|
    requires OnlyItems(lines, a, i)
    ensures var c := FoldTo(env, ctx, lines, a, i);
            && SameSection(c, ctx)
            && Applied(c.calls) == Applied(ctx.calls)
                  + if Streaming(ctx) then ChangesOf(ctx.currentMeta, ItemsOf(lines, a, i)) else []
    decreases i - a
  {
    if a < i {
      AfterPatches(env, ctx, lines, a, i - 1);
      ItemStep(env, FoldTo(env, ctx, lines, a, i - 1), lines[i - 1]);
      var before, own := ItemsOf(lines, a, i - 1), ItemOf(lines[i - 1]);
      ChangesAppend(ctx.currentMeta, before, own);
      Chained(Applied(ctx.calls), ChangesOf(ctx.currentMeta, before), ChangesOf(ctx.currentMeta, own));
    }
  }

  /** The lines after the "patches:" line leave the patch alone. */
  lemma {:induction false} PatchSettled(lines: seq<Line>, s: nat, p: nat, i: nat)
    requires s <= p < i <= |lines| && lines[p].Patches?
    requires OnlyItems(lines, p + 1, i)
    ensures ReadBlock(lines, s, i).patch == ReadBlock(lines, s, p).patch
    decreases i
  {
    if p + 1 < i {
      PatchSettled(lines, s, p, i - 1);
    }
  }

  lemma AtPatches(env: Env, ctx: Ctx)
    requires env.mode.LowMem? && !ctx.faulted && ctx.patch.appBin.Some?
    ensures var c := Step(env, ctx, Patches);
            && c.inPatches && !c.faulted && c.patch == ctx.patch && c.number == ctx.number &&
               Applied(c.calls) == Applied(ctx.calls)
            && Streaming(c) == StreamsWith(env, ctx.patch, ctx.number, ctx.processing)
            && c.processing == FlagAfter(env, ctx.patch, ctx.number, ctx.processing)
            && c.currentMeta == env.metaOf(ctx.patch, ctx.number, 0)
  {
    AppliedMetaCalls(ctx.calls, MetaCalls(env, ctx.patch, ctx.number, VersionCount(ctx.patch)));
  }

  /** Up to and including the "patches:" line. */
  lemma BlockBegins(env: Env, ctx: Ctx, lines: seq<Line>, s: nat, h: nat, p: nat) returns (begun: Ctx)
    requires env.mode.LowMem? && AtBlockStart(ctx) && s <= |lines|
    requires h == NextBlock(lines, s) && Shaped(lines, s, h) && p == FirstPatches(lines, s, h)
    ensures Fold(env, ctx, lines, s) == Fold(env, begun, lines, p + 1)
    ensures !begun.faulted && begun.inPatches && begun.patch.title.Some? && begun.number == ctx.number
    ensures begun.patch == ReadBlock(lines, s, p).patch && Applied(begun.calls) == Applied(ctx.calls)
    ensures Streaming(begun) == StreamsWith(env, begun.patch, ctx.number, ctx.processing)
    ensures begun.processing == FlagAfter(env, begun.patch, ctx.number, ctx.processing)
    ensures begun.currentMeta == env.metaOf(begun.patch, ctx.number, 0)
  {
    var before := FoldTo(env, ctx, lines, s, p);
    FoldSplit(env, ctx, lines, s, p);
    HeadOfBlock(lines, s, h);
    BeforePatches(env, ctx, lines, s, p);
    BlockFields(lines, s, p, Title);
    BlockFields(lines, s, p, AppBin);
    AtPatches(env, before);
    begun := Step(env, before, lines[p]);
  }

  /** `end` is `ctx` after the block `b`. */
  predicate Streamed(env: Env, ctx: Ctx, b: BlockText, end: Ctx) {
    && !end.faulted && end.patch.title.Some? && end.number == ctx.number
    && end.processing == FlagAfter(env, b.patch, ctx.number, ctx.processing)
    && Applied(end.calls) == Applied(ctx.calls) + StreamedFrom(env, b, ctx.number, ctx.processing)
  }

  lemma BlockStreams(env: Env, ctx: Ctx, lines: seq<Line>, s: nat, h: nat) returns (end: Ctx)
    requires env.mode.LowMem? && AtBlockStart(ctx) && s <= |lines|
    requires h == NextBlock(lines, s) && Shaped(lines, s, h)
    ensures Fold(env, ctx, lines, s) == Fold(env, end, lines, h)
    ensures Streamed(env, ctx, ReadBlock(lines, s, h), end)
  {
    var p := FirstPatches(lines, s, h);
    var begun := BlockBegins(env, ctx, lines, s, h, p);
    end := FoldTo(env, begun, lines, p + 1, h);
    FoldSplit(env, begun, lines, p + 1, h);
    AfterPatches(env, begun, lines, p + 1, h);
    ShapedReads(lines, s, h, p);
  }

  /** A shaped block has the patch of its head and the items of its section. */
  lemma ShapedReads(lines: seq<Line>, s: nat, h: nat, p: nat)
    requires s <= h <= |lines| && Shaped(lines, s, h) && p == FirstPatches(lines, s, h)
    ensures var b := ReadBlock(lines, s, h);
            b.patch == ReadBlock(lines, s, p).patch && b.entries == ItemsOf(lines, p + 1, h)
  {
    PatchSettled(lines, s, p, h);
    BlockContents(lines, s, h, Title);
  }

  lemma NextStart(env: Env, end: Ctx)
    requires env.mode.LowMem? && !end.faulted && end.patch.title.Some?
    ensures var next := Complete(env, end);
            AtBlockStart(next) && next.calls == end.calls && next.number == end.number + 1 &&
              next.processing == end.processing
  {
  }

  /** The run from line `i` on ends well and applies `changes`. */
  predicate EndsWith(env: Env, ctx: Ctx, lines: seq<Line>, i: nat, changes: seq<Change>) {
    var last := Complete(env, Fold(env, ctx, lines, i));
    !last.faulted && Applied(last.calls) == Applied(ctx.calls) + changes
  }

  lemma EndsAtOnce(env: Env, end: Ctx, lines: seq<Line>)
    requires env.mode.LowMem? && !end.faulted && end.patch.title.Some?
    ensures EndsWith(env, end, lines, |lines|, [])
  {
    NextStart(env, end);
    assert Applied(end.calls) + [] == Applied(end.calls);
  }

  lemma EndsPastBlock(env: Env, end: Ctx, lines: seq<Line>, h: nat, changes: seq<Change>)
    requires env.mode.LowMem? && !end.faulted && end.patch.title.Some? && h < |lines| && lines[h].Block?
    requires EndsWith(env, Complete(env, end), lines, h + 1, changes)
    ensures EndsWith(env, end, lines, h, changes)
  {
    NextStart(env, end);
    assert Fold(env, end, lines, h) == Fold(env, Complete(env, end), lines, h + 1);
  }

  lemma EndsPastLines(env: Env, ctx: Ctx, lines: seq<Line>, s: nat, end: Ctx, h: nat, own: seq<Change>,
                      rest: seq<Change>)
    requires Fold(env, ctx, lines, s) == Fold(env, end, lines, h) && Applied(end.calls) == Applied(ctx.calls) + own
    requires EndsWith(env, end, lines, h, rest)
    ensures EndsWith(env, ctx, lines, s, own + rest)
  {
    var last := Complete(env, Fold(env, ctx, lines, s));
    Joined(Applied(ctx.calls), own, Applied(end.calls), rest, Applied(last.calls), own + rest);
  }

  lemma {:induction false} NextStreams(env: Env, end: Ctx, lines: seq<Line>, h: nat, rest: seq<Change>)
    requires env.mode.LowMem? && !end.faulted && end.patch.title.Some? && h <= |lines|
    requires h < |lines| ==> lines[h].Block? && EachShaped(lines, h + 1)
    requires rest == StreamRest(env, lines, h, end.number, end.processing)
    ensures EndsWith(env, end, lines, h, rest)
    decreases |lines| - h, 0
  {
    if h < |lines| {
      NextStart(env, end);
      BlocksStream(env, Complete(env, end), lines, h + 1, rest);
      EndsPastBlock(env, end, lines, h, rest);
    } else {
      EndsAtOnce(env, end, lines);
    }
  }

  lemma StreamSplits(env: Env, ctx: Ctx, b: BlockText, end: Ctx, lines: seq<Line>, h: nat)
    returns (own: seq<Change>, rest: seq<Change>)
    requires h <= |lines| && Streamed(env, ctx, b, end)
    ensures Applied(end.calls) == Applied(ctx.calls) + own &&
            rest == StreamRest(env, lines, h, end.number, end.processing)
    ensures StreamedFrom(env, b, ctx.number, ctx.processing)
            + StreamRest(env, lines, h, ctx.number, FlagAfter(env, b.patch, ctx.number, ctx.processing)) == own + rest
  {
    own := StreamedFrom(env, b, ctx.number, ctx.processing);
    rest := StreamRest(env, lines, h, ctx.number, FlagAfter(env, b.patch, ctx.number, ctx.processing));
  }

  lemma StreamUnfolds(env: Env, lines: seq<Line>, s: nat, number: nat, carried: bool, h: nat, b: BlockText)
    requires s <= |lines| && h == NextBlock(lines, s) && b == ReadBlock(lines, s, h)
    ensures StreamEntries(env, lines, s, number, carried)
         == StreamedFrom(env, b, number, carried)
            + StreamRest(env, lines, h, number, FlagAfter(env, b.patch, number, carried))
  {
  }

  lemma ShapedHere(lines: seq<Line>, s: nat, h: nat)
    requires s <= |lines| && EachShaped(lines, s) && h == NextBlock(lines, s)
    ensures Shaped(lines, s, h) && (h < |lines| ==> EachShaped(lines, h + 1))
  {
  }

  /** The first block is streamed, and what is left. */
  lemma FirstBlockStreams(env: Env, ctx: Ctx, lines: seq<Line>, s: nat, whole: seq<Change>)
    returns (end: Ctx, h: nat, own: seq<Change>, rest: seq<Change>)
    requires env.mode.LowMem? && AtBlockStart(ctx) && s <= |lines| && EachShaped(lines, s)
    requires whole == StreamEntries(env, lines, s, ctx.number, ctx.processing)
    ensures s <= h <= |lines| && (h < |lines| ==> lines[h].Block? && EachShaped(lines, h + 1))
    ensures Fold(env, ctx, lines, s) == Fold(env, end, lines, h) && Applied(end.calls) == Applied(ctx.calls) + own
    ensures !end.faulted && end.patch.title.Some?
    ensures whole == own + rest && rest == StreamRest(env, lines, h, end.number, end.processing)
  {
    h := NextBlock(lines, s);
    var b := ReadBlock(lines, s, h);
    ShapedHere(lines, s, h);
    end := BlockStreams(env, ctx, lines, s, h);
    StreamUnfolds(env, lines, s, ctx.number, ctx.processing, h, b);
    own, rest := StreamSplits(env, ctx, b, end, lines, h);
  }

  lemma {:induction false} BlocksStream(env: Env, ctx: Ctx, lines: seq<Line>, s: nat, whole: seq<Change>)
    requires env.mode.LowMem? && AtBlockStart(ctx) && s <= |lines| && EachShaped(lines, s)
    requires whole == StreamEntries(env, lines, s, ctx.number, ctx.processing)
    ensures EndsWith(env, ctx, lines, s, whole)
    decreases |lines| - s, 1
  {
    var end, h, own, rest := FirstBlockStreams(env, ctx, lines, s, whole);
    NextStreams(env, end, lines, h, rest);
    EndsPastLines(env, ctx, lines, s, end, h, own, rest);
  }

  lemma Joined(before: seq<Change>, own: seq<Change>, middle: seq<Change>, rest: seq<Change>, last: seq<Change>,
               whole: seq<Change>)
    requires middle == before + own && last == middle + rest && whole == own + rest
    ensures last == before + whole
  {
  }

  lemma {:induction false} QuietKeeps(env: Env, lines: seq<Line>, i: nat)
    requires i <= |lines| && QuietUpTo(lines, i)
    ensures var c := FoldTo(env, START, lines, 0, i); AtBlockStart(c) && SameStream(c, START)
    decreases i, lines
  {
    if i > 0 {
      QuietKeeps(env, lines, i - 1);
    }
  }

  /** The first line of a file of blocks that are laid out for streaming, and nothing but
      identifiers before it. */
  predicate ShapedFile(lines: seq<Line>, first: nat) {
    first == NextBlock(lines, 0) && first < |lines| && QuietUpTo(lines, first) && EachShaped(lines, first + 1)
  }

  /** For a file of shaped blocks: nothing crashes, and the entries applied are those of the
      blocks that the carried flag lets through. */
  lemma RunStreams(env: Env, lines: seq<Line>, first: nat)
    requires env.mode.LowMem? && ShapedFile(lines, first)
    ensures var end := Run(env, lines);
            !end.faulted && Applied(end.calls) == StreamEntries(env, lines, first + 1, 0, false)
  {
    var ctx := FoldTo(env, START, lines, 0, first);
    FoldSplit(env, START, lines, 0, first);
    QuietKeeps(env, lines, first);
    StreamsFromFirst(env, ctx, lines, first);
  }

  lemma StreamsFromFirst(env: Env, ctx: Ctx, lines: seq<Line>, first: nat)
    requires env.mode.LowMem? && ShapedFile(lines, first) && AtBlockStart(ctx) && ctx.calls == [] && ctx.number == 0 &&
             !ctx.processing
    ensures var end := Complete(env, Fold(env, ctx, lines, first));
            !end.faulted && Applied(end.calls) == StreamEntries(env, lines, first + 1, 0, false)
  {
    BlocksStream(env, ctx, lines, first + 1, StreamEntries(env, lines, first + 1, 0, false));
    assert Complete(env, ctx) == ctx;
    assert Fold(env, ctx, lines, first) == Fold(env, ctx, lines, first + 1);
    NothingBefore(StreamEntries(env, lines, first + 1, 0, false));
  }

  lemma NothingBefore(changes: seq<Change>)
    ensures [] + changes == changes
  {
  }

  // ----- When streaming is right -----

  lemma {:induction false} SettledIsBatch(env: Env, lines: seq<Line>, s: nat, number: nat, carried: bool)
    requires s <= |lines| && EachSettled(env, lines, s, number)
    ensures StreamEntries(env, lines, s, number, carried) == BatchEntries(env, lines, s, number)
    decreases |lines| - s
  {
    var h := NextBlock(lines, s);
    var p := ReadBlock(lines, s, h).patch;
    SettledStreams(env, p, number, carried);
    if h < |lines| {
      SettledIsBatch(env, lines, h + 1, number + 1, FlagAfter(env, p, number, carried));
    }
  }

  /** For a file of shaped and settled blocks, the entries applied while reading are the entries
      of the enabled blocks, in file order. */
  lemma StreamingIsFiltering(env: Env, lines: seq<Line>, first: nat)
    requires env.mode.LowMem? && ShapedFile(lines, first) && EachSettled(env, lines, first + 1, 0)
    ensures Applied(Run(env, lines).calls) == BatchEntries(env, lines, first + 1, 0)
  {
    RunStreams(env, lines, first);
    SettledIsBatch(env, lines, first + 1, 0, false);
  }

  // ----- Exactly when streaming is right -----

  /** Every block with entries is right under the flag that the blocks before it leave. */
  predicate EachRight(env: Env, lines: seq<Line>, s: nat, number: nat, carried: bool)
    requires s <= |lines|
    decreases |lines| - s
  {
    var h := NextBlock(lines, s);
    var b := ReadBlock(lines, s, h);
    && (b.entries == [] || Right(env, b.patch, number, carried))
    && (h < |lines| ==> EachRight(env, lines, h + 1, number + 1, FlagAfter(env, b.patch, number, carried)))
  }

  /** What one block applies when it is streamed, and what the batch reading has it apply. */
  datatype Sides = Sides(streamed: seq<Change>, batch: seq<Change>)

  function SidesOf(env: Env, b: BlockText, number: nat, carried: bool): Sides {
    Sides(StreamedFrom(env, b, number, carried), BatchFrom(env, b, number))
  }

  function AllSides(env: Env, lines: seq<Line>, s: nat, number: nat, carried: bool): seq<Sides>
    requires s <= |lines|
    decreases |lines| - s, 1
  {
    var h := NextBlock(lines, s);
    var b := ReadBlock(lines, s, h);
    [SidesOf(env, b, number, carried)] + RestSides(env, lines, h, number, FlagAfter(env, b.patch, number, carried))
  }

  function RestSides(env: Env, lines: seq<Line>, h: nat, number: nat, carried: bool): seq<Sides>
    requires h <= |lines|
    decreases |lines| - h, 0
  {
    if h == |lines| then [] else AllSides(env, lines, h + 1, number + 1, carried)
  }

  function Streams(sides: seq<Sides>): seq<Change> {
    if sides == [] then [] else sides[0].streamed + Streams(sides[1..])
  }

  function Batches(sides: seq<Sides>): seq<Change> {
    if sides == [] then [] else sides[0].batch + Batches(sides[1..])
  }

  predicate AllEqual(sides: seq<Sides>) {
    sides == [] || (sides[0].streamed == sides[0].batch && AllEqual(sides[1..]))
  }

  lemma SidesCons(first: Sides, rest: seq<Sides>)
    ensures Streams([first] + rest) == first.streamed + Streams(rest) &&
            Batches([first] + rest) == first.batch + Batches(rest)
    ensures AllEqual([first] + rest) <==> first.streamed == first.batch && AllEqual(rest)
  {
    assert ([first] + rest)[1..] == rest;
  }

  lemma {:induction false} SidesAreStream(env: Env, lines: seq<Line>, s: nat, number: nat, carried: bool)
    requires s <= |lines|
    ensures Streams(AllSides(env, lines, s, number, carried)) == StreamEntries(env, lines, s, number, carried)
    decreases |lines| - s
  {
    var h := NextBlock(lines, s);
    var b := ReadBlock(lines, s, h);
    var flag := FlagAfter(env, b.patch, number, carried);
    if h < |lines| {
      SidesAreStream(env, lines, h + 1, number + 1, flag);
    }
    SidesCons(SidesOf(env, b, number, carried), RestSides(env, lines, h, number, flag));
  }

  lemma {:induction false} SidesAreBatch(env: Env, lines: seq<Line>, s: nat, number: nat, carried: bool)
    requires s <= |lines|
    ensures Batches(AllSides(env, lines, s, number, carried)) == BatchEntries(env, lines, s, number)
    decreases |lines| - s
  {
    var h := NextBlock(lines, s);
    var b := ReadBlock(lines, s, h);
    var flag := FlagAfter(env, b.patch, number, carried);
    if h < |lines| {
      SidesAreBatch(env, lines, h + 1, number + 1, flag);
    }
    SidesCons(SidesOf(env, b, number, carried), RestSides(env, lines, h, number, flag));
  }

  lemma OwnExactly(env: Env, b: BlockText, number: nat, carried: bool)
    ensures StreamedFrom(env, b, number, carried) == BatchFrom(env, b, number) <==>
            b.entries == [] || Right(env, b.patch, number, carried)
  {
    StreamsExactly(env, b.patch, number, carried);
    var whole := ChangesOf(env.metaOf(b.patch, number, 0), b.entries);
    assert b.entries == [] <==> whole == [];
  }

  lemma {:induction false} SidesAgreeExactly(env: Env, lines: seq<Line>, s: nat, number: nat, carried: bool)
    requires s <= |lines|
    ensures AllEqual(AllSides(env, lines, s, number, carried)) <==> EachRight(env, lines, s, number, carried)
    decreases |lines| - s
  {
    var h := NextBlock(lines, s);
    var b := ReadBlock(lines, s, h);
    var flag := FlagAfter(env, b.patch, number, carried);
    if h < |lines| {
      SidesAgreeExactly(env, lines, h + 1, number + 1, flag);
    }
    OwnExactly(env, b, number, carried);
    SidesCons(SidesOf(env, b, number, carried), RestSides(env, lines, h, number, flag));
  }

  // Changes tell which block they are from.

  ghost predicate AllNumbered(changes: seq<Change>, number: nat) {
    forall j :: 0 <= j < |changes| ==> changes[j].number == number * 100
  }

  ghost predicate NumberedFrom(changes: seq<Change>, number: nat) {
    forall j :: 0 <= j < |changes| ==> changes[j].number >= number * 100
  }

  /** The sides of a block apply its entries or nothing. */
  ghost predicate AllOrNothing(one: Sides, number: nat) {
    && AllNumbered(one.streamed, number) && AllNumbered(one.batch, number)
    && (one.streamed == one.batch || one.streamed == [] || one.batch == [])
  }

  ghost predicate Tagged(sides: seq<Sides>, number: nat)
    decreases |sides|
  {
    sides == [] || (AllOrNothing(sides[0], number) && Tagged(sides[1..], number + 1))
  }

  lemma {:induction false} SidesAreTagged(env: Env, lines: seq<Line>, s: nat, number: nat, carried: bool)
    requires s <= |lines| && Faithful(env)
    ensures Tagged(AllSides(env, lines, s, number, carried), number)
    decreases |lines| - s
  {
    var h := NextBlock(lines, s);
    var b := ReadBlock(lines, s, h);
    var flag := FlagAfter(env, b.patch, number, carried);
    if h < |lines| {
      SidesAreTagged(env, lines, h + 1, number + 1, flag);
    }
    BlockIsTagged(env, b, number, carried);
    TaggedCons(SidesOf(env, b, number, carried), RestSides(env, lines, h, number, flag), number);
  }

  lemma BlockIsTagged(env: Env, b: BlockText, number: nat, carried: bool)
    requires Faithful(env)
    ensures AllOrNothing(SidesOf(env, b, number, carried), number)
  {
    assert env.metaOf(b.patch, number, 0).number == number * 100;
  }

  lemma TaggedCons(first: Sides, rest: seq<Sides>, number: nat)
    requires AllOrNothing(first, number) && Tagged(rest, number + 1)
    ensures Tagged([first] + rest, number)
  {
    assert ([first] + rest)[1..] == rest;
  }

  lemma {:induction false} TaggedNumbers(sides: seq<Sides>, number: nat)
    requires Tagged(sides, number)
    ensures NumberedFrom(Streams(sides), number) && NumberedFrom(Batches(sides), number)
    decreases |sides|
  {
    if sides != [] {
      TaggedNumbers(sides[1..], number + 1);
    }
  }

  /** Changes of one block followed by those of later ones, taken apart. */
  lemma SplitChanges(one: Sides, number: nat, rest: seq<Change>, rest': seq<Change>)
    requires AllOrNothing(one, number) && NumberedFrom(rest, number + 1) && NumberedFrom(rest', number + 1)
    ensures one.streamed + rest == one.batch + rest' <==> one.streamed == one.batch && rest == rest'
  {
    var a, b := one.streamed + rest, one.batch + rest';
    if one.streamed == one.batch {
      assert rest == a[|one.streamed|..] && rest' == b[|one.batch|..];
    } else if one.streamed == [] {
      assert b[0] == one.batch[0] && (rest != [] ==> a[0] == rest[0]);
    } else {
      assert a[0] == one.streamed[0] && (rest' != [] ==> b[0] == rest'[0]);
    }
  }

  lemma {:induction false} TaggedExactly(sides: seq<Sides>, number: nat)
    requires Tagged(sides, number)
    ensures Streams(sides) == Batches(sides) <==> AllEqual(sides)
    decreases |sides|
  {
    if sides != [] {
      TaggedExactly(sides[1..], number + 1);
      TaggedNumbers(sides[1..], number + 1);
      SplitChanges(sides[0], number, Streams(sides[1..]), Batches(sides[1..]));
    }
  }

  /** From any block on and for any flag. */
  lemma StreamIsBatchExactly(env: Env, lines: seq<Line>, s: nat, number: nat, carried: bool)
    requires s <= |lines| && Faithful(env)
    ensures StreamEntries(env, lines, s, number, carried) == BatchEntries(env, lines, s, number) <==>
            EachRight(env, lines, s, number, carried)
  {
    SidesAreStream(env, lines, s, number, carried);
    SidesAreBatch(env, lines, s, number, carried);
    SidesAgreeExactly(env, lines, s, number, carried);
    SidesAreTagged(env, lines, s, number, carried);
    TaggedExactly(AllSides(env, lines, s, number, carried), number);
  }

  /** For any file of shaped blocks: what is applied while reading is what the enabled blocks say,
      in file order and each for its own patch, if and only if every block with entries is right. */
  lemma RunIsBatchExactly(env: Env, lines: seq<Line>, first: nat)
    requires env.mode.LowMem? && ShapedFile(lines, first) && Faithful(env)
    ensures Applied(Run(env, lines).calls) == BatchEntries(env, lines, first + 1, 0) <==>
            EachRight(env, lines, first + 1, 0, false)
  {
    RunStreams(env, lines, first);
    StreamIsBatchExactly(env, lines, first + 1, 0, false);
  }

  /** No block of one version that is not the game's but switched on, and that has entries, is
      reached while the last block for the game was enabled. */
  predicate NoneLeaks(env: Env, lines: seq<Line>, s: nat, number: nat, lastEnabled: bool)
    requires s <= |lines|
    decreases |lines| - s
  {
    var h := NextBlock(lines, s);
    var b := ReadBlock(lines, s, h);
    var forGame := MatchesGame(env.gameVer, VersionAt(b.patch, 0));
    var enabled := env.metaOf(b.patch, number, 0).enabled;
    && !(lastEnabled && !forGame && enabled && b.entries != [])
    && (h < |lines| ==> NoneLeaks(env, lines, h + 1, number + 1, if forGame then enabled else lastEnabled))
  }

  predicate EachSingle(lines: seq<Line>, s: nat)
    requires s <= |lines|
    decreases |lines| - s
  {
    var h := NextBlock(lines, s);
    |ReadBlock(lines, s, h).patch.appVers| <= 1 && (h < |lines| ==> EachSingle(lines, h + 1))
  }

  lemma SingleBlock(env: Env, p: Patch, number: nat, carried: bool)
    requires |p.appVers| <= 1
    ensures var forGame, enabled := MatchesGame(env.gameVer, VersionAt(p, 0)), env.metaOf(p, number, 0).enabled;
            && FlagAfter(env, p, number, carried) == (if forGame then enabled else carried)
            && EnabledFor(env, p, number) == (forGame && enabled)
            && StreamsWith(env, p, number, carried) == (enabled && (forGame || carried))
  {
    MatchingOnlyFirst(env, p, VersionCount(p));
  }

  /** Blocks of one version only ever add: the lengths tell. */
  lemma {:induction false} SingleStreamAdds(env: Env, lines: seq<Line>, s: nat, number: nat, carried: bool)
    requires s <= |lines| && EachSingle(lines, s)
    ensures |BatchEntries(env, lines, s, number)| <= |StreamEntries(env, lines, s, number, carried)|
    ensures |BatchEntries(env, lines, s, number)| == |StreamEntries(env, lines, s, number, carried)| ==>
              NoneLeaks(env, lines, s, number, carried)
    ensures NoneLeaks(env, lines, s, number, carried) ==>
              StreamEntries(env, lines, s, number, carried) == BatchEntries(env, lines, s, number)
    decreases |lines| - s
  {
    var h := NextBlock(lines, s);
    var b := ReadBlock(lines, s, h);
    SingleBlock(env, b.patch, number, carried);
    if h < |lines| {
      SingleStreamAdds(env, lines, h + 1, number + 1, FlagAfter(env, b.patch, number, carried));
    }
  }

  /** For files whose blocks list at most one version even the bare entries tell: they are those of
      the enabled blocks if and only if no block leaks. */
  lemma SingleVersionRunExactly(env: Env, lines: seq<Line>, first: nat)
    requires env.mode.LowMem? && ShapedFile(lines, first) && EachSingle(lines, first + 1)
    ensures EntriesOf(Applied(Run(env, lines).calls)) == EntriesOf(BatchEntries(env, lines, first + 1, 0)) <==>
            NoneLeaks(env, lines, first + 1, 0, false)
  {
    RunStreams(env, lines, first);
    SingleStreamAdds(env, lines, first + 1, 0, false);
  }

  // ----- The leak -----

  lemma EnabledSettled(env: Env, p: Patch, number: nat, carried: bool)
    requires Settled(env, p, number) && EnabledFor(env, p, number)
    ensures StreamsWith(env, p, number, carried) && FlagAfter(env, p, number, carried)
  {
    SettledStreams(env, p, number, carried);
  }

  /** A block of one version that is not the game's. */
  predicate Foreign(env: Env, p: Patch, number: nat) {
    |p.appVers| <= 1 && !MatchesGame(env.gameVer, VersionAt(p, 0)) && env.metaOf(p, number, 0).enabled
  }

  lemma ForeignFollowsFlag(env: Env, p: Patch, number: nat, carried: bool)
    requires Foreign(env, p, number)
    ensures StreamsWith(env, p, number, carried) == carried && !EnabledFor(env, p, number)
  {
    MatchingOnlyFirst(env, p, VersionCount(p));
  }

  /** The flag is not reset between blocks: an enabled block for the game followed by a block of
      one version, not the game's but switched on, streams the entries of both; only those of the
      first belong to the game. */
  lemma CarriedFlagLeaks(env: Env, lines: seq<Line>, s: nat, h: nat, number: nat, carried: bool)
    requires s <= h < |lines| && h == NextBlock(lines, s) && NextBlock(lines, h + 1) == |lines|
    requires var p := ReadBlock(lines, s, h).patch; Settled(env, p, number) && EnabledFor(env, p, number)
    requires Foreign(env, ReadBlock(lines, h + 1, |lines|).patch, number + 1)
    ensures StreamEntries(env, lines, s, number, carried)
         == ChangesOf(env.metaOf(ReadBlock(lines, s, h).patch, number, 0), ReadBlock(lines, s, h).entries)
            + ChangesOf(env.metaOf(ReadBlock(lines, h + 1, |lines|).patch, number + 1, 0),
                        ReadBlock(lines, h + 1, |lines|).entries)
    ensures BatchEntries(env, lines, s, number)
         == ChangesOf(env.metaOf(ReadBlock(lines, s, h).patch, number, 0), ReadBlock(lines, s, h).entries)
  {
    var a, b := ReadBlock(lines, s, h), ReadBlock(lines, h + 1, |lines|);
    EnabledSettled(env, a.patch, number, carried);
    ForeignFollowsFlag(env, b.patch, number + 1, true);
    var first := ChangesOf(env.metaOf(a.patch, number, 0), a.entries);
    var second := ChangesOf(env.metaOf(b.patch, number + 1, 0), b.entries);
    assert StreamEntries(env, lines, h + 1, number + 1, true) == second by {
      Chained(second, [], []);
    }
    assert StreamRest(env, lines, h, number, true) == second;
    assert BatchEntries(env, lines, h + 1, number + 1) == [];
    assert BatchRest(env, lines, h, number) == [];
    Chained(first, [], []);
  }
}
