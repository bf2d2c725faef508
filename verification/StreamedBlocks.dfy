/** The low-memory mode on any file: what it streams is what its blocks stream, each read alone but
    for the flag and the metadata left by the block before (game_patch/patch.c:231-487).
  */
module StreamedBlocks {
  import opened CText
  import opened PatchLines
  import opened PatchFile

  // ----- One block -----

  /** What the end of a block does not reset. */
  datatype Carry = Carry(processing: bool, meta: Meta)

  const FIRST: Carry := Carry(false, NO_META)

  /** The calls made and what is carried on, unless a null pointer was read. */
  datatype Streamed = Broken | Made(calls: seq<Call>, carry: Carry)

  function StreamOf(ctx: Ctx): Streamed {
    if ctx.faulted then Broken else Made(ctx.calls, Carry(ctx.processing, ctx.currentMeta))
  }

  function After(before: seq<Call>, s: Streamed): Streamed {
    if s.Broken? then s else s.(calls := before + s.calls)
  }

  /** One more line of the block that so far says `b`. */
  function AddStreamed(env: Env, number: nat, b: BlockText, s: Streamed, line: Line): Streamed {
    if s.Broken? then s
    else
      match line
      case Patches =>
        if b.patch.appBin.None? then Broken
        else
          var n := VersionCount(b.patch);
          Made(s.calls + MetaCalls(env, b.patch, number, n),
               Carry(Processing(env, b.patch, number, n, s.carry.processing), env.metaOf(b.patch, number, 0)))
      case Item(params) =>
        if b.inPatches && |params| >= MIN_PATCH_PARAMS && s.carry.processing then
          s.(calls := s.calls + [EntryCall(s.carry.meta, params)])
        else s
      case _ => s
  }

  /** The lines from `s` up to `i`, streamed as a block of their own. */
  function BlockStream(env: Env, number: nat, carry: Carry, lines: seq<Line>, s: nat, i: nat): Streamed
    requires s <= i <= |lines|
    decreases i - s
  {
    if s == i then Made([], carry)
    else AddStreamed(env, number, ReadBlock(lines, s, i - 1), BlockStream(env, number, carry, lines, s, i - 1),
                     lines[i - 1])
  }

  /** The blocks from the one begun at `s`, the search for its end going on at `i`. */
  function StreamFrom(env: Env, lines: seq<Line>, s: nat, i: nat, number: nat, carry: Carry): Streamed
    requires s <= i <= |lines|
    decreases |lines| - s, |lines| - i
  {
    var h := BlockEnd(lines, s, i);
    var own := BlockStream(env, number, carry, lines, s, h);
    if own.Broken? || h == |lines| then own
    else After(own.calls, StreamFrom(env, lines, h + 1, h + 1, number + 1, own.carry))
  }

  // ----- The run -----

  /** `ctx` has read the lines of a block from `s` up to `i`, after the calls `before`. */
  predicate Streaming(env: Env, ctx: Ctx, before: seq<Call>, carry: Carry, lines: seq<Line>, s: nat, i: nat)
    requires s <= i <= |lines|
  {
    var b := ReadBlock(lines, s, i);
    && !ctx.faulted && ctx.patch == b.patch && ctx.inPatches == b.inPatches
    && StreamOf(ctx) == After(before, BlockStream(env, ctx.number, carry, lines, s, i))
  }

  lemma AddAfter(env: Env, number: nat, b: BlockText, before: seq<Call>, s: Streamed, line: Line)
    ensures AddStreamed(env, number, b, After(before, s), line) == After(before, AddStreamed(env, number, b, s, line))
  {
    if s.Made? {
      var metas := MetaCalls(env, b.patch, number, VersionCount(b.patch));
      assert (before + s.calls) + metas == before + (s.calls + metas);
      if line.Item? {
        var entry := [EntryCall(s.carry.meta, line.params)];
        assert (before + s.calls) + entry == before + (s.calls + entry);
      }
    }
  }

  /** A step inside a block, seen from what it streams. */
  lemma StepStreams(env: Env, ctx: Ctx, b: BlockText, line: Line)
    requires env.mode.LowMem? && !ctx.faulted && ctx.patch == b.patch && ctx.inPatches == b.inPatches
    requires line.Block? ==> ctx.patch.title.None?
    ensures var next := Step(env, ctx, line);
            && StreamOf(next) == AddStreamed(env, ctx.number, b, StreamOf(ctx), line)
            && (!next.faulted ==> next.patch == AddLine(b, line).patch && next.inPatches == AddLine(b, line).inPatches)
            && next.number == ctx.number
  {
  }

  lemma StreamingStep(env: Env, ctx: Ctx, before: seq<Call>, carry: Carry, lines: seq<Line>, s: nat, i: nat)
    requires env.mode.LowMem? && s <= i < |lines| && Streaming(env, ctx, before, carry, lines, s, i)
    requires lines[i].Block? ==> ctx.patch.title.None?
    ensures var next := Step(env, ctx, lines[i]);
            && StreamOf(next) == After(before, BlockStream(env, ctx.number, carry, lines, s, i + 1))
            && next.number == ctx.number && (!next.faulted ==> Streaming(env, next, before, carry, lines, s, i + 1))
  {
    var b := ReadBlock(lines, s, i);
    StepStreams(env, ctx, b, lines[i]);
    AddAfter(env, ctx.number, b, before, BlockStream(env, ctx.number, carry, lines, s, i), lines[i]);
  }

  lemma {:induction false} BrokenStays(env: Env, number: nat, carry: Carry, lines: seq<Line>, s: nat, i: nat, h: nat)
    requires s <= i <= h <= |lines| && BlockStream(env, number, carry, lines, s, i).Broken?
    ensures BlockStream(env, number, carry, lines, s, h).Broken?
    decreases h - i
  {
    if i < h {
      BrokenStays(env, number, carry, lines, s, i, h - 1);
    }
  }

  lemma GoesOn(env: Env, lines: seq<Line>, s: nat, i: nat, number: nat, carry: Carry)
    requires s <= i < |lines| && !(lines[i].Block? && ReadBlock(lines, s, i).patch.title.Some?)
    ensures StreamFrom(env, lines, s, i, number, carry) == StreamFrom(env, lines, s, i + 1, number, carry)
  {
    assert BlockEnd(lines, s, i) == BlockEnd(lines, s, i + 1);
  }

  lemma EndsHere(env: Env, lines: seq<Line>, s: nat, i: nat, number: nat, carry: Carry, own: Streamed)
    requires s <= i < |lines| && lines[i].Block? && ReadBlock(lines, s, i).patch.title.Some?
    requires own == BlockStream(env, number, carry, lines, s, i) && own.Made?
    ensures StreamFrom(env, lines, s, i, number, carry)
         == After(own.calls, StreamFrom(env, lines, i + 1, i + 1, number + 1, own.carry))
  {
    assert BlockEnd(lines, s, i) == i;
  }

  lemma AfterAfter(a: seq<Call>, b: seq<Call>, s: Streamed)
    ensures After(a, After(b, s)) == After(a + b, s)
  {
    if s.Made? {
      assert a + (b + s.calls) == (a + b) + s.calls;
    }
  }

  lemma NextBegins(env: Env, ctx: Ctx, lines: seq<Line>, i: nat)
    requires env.mode.LowMem? && !ctx.faulted && ctx.patch.title.Some? && i <= |lines|
    ensures var next := Complete(env, ctx);
            && next.number == ctx.number + 1 && next.calls == ctx.calls
            && Streaming(env, next, ctx.calls, Carry(ctx.processing, ctx.currentMeta), lines, i, i)
  {
    assert ctx.calls + [] == ctx.calls;
  }

  lemma CompleteKeeps(env: Env, ctx: Ctx)
    requires env.mode.LowMem?
    ensures StreamOf(Complete(env, ctx)) == StreamOf(ctx)
  {
  }

  /** What the run streams from line `i` on. */
  function Final(env: Env, ctx: Ctx, lines: seq<Line>, i: nat): Streamed {
    StreamOf(Complete(env, Fold(env, ctx, lines, i)))
  }

  lemma {:induction false} FoldStreams(env: Env, ctx: Ctx, before: seq<Call>, carry: Carry,
                                       lines: seq<Line>, s: nat, i: nat)
    requires env.mode.LowMem? && s <= i <= |lines| && Streaming(env, ctx, before, carry, lines, s, i)
    ensures Final(env, ctx, lines, i) == After(before, StreamFrom(env, lines, s, i, ctx.number, carry))
    decreases |lines| - i, 1
  {
    if i == |lines| {
      CompleteKeeps(env, ctx);
    } else if lines[i].Block? && ctx.patch.title.Some? {
      PastBlock(env, ctx, before, carry, lines, s, i);
    } else {
      InBlock(env, ctx, before, carry, lines, s, i);
    }
  }

  lemma {:induction false} PastBlock(env: Env, ctx: Ctx, before: seq<Call>, carry: Carry,
                                     lines: seq<Line>, s: nat, i: nat)
    requires env.mode.LowMem? && s <= i < |lines| && Streaming(env, ctx, before, carry, lines, s, i)
    requires lines[i].Block? && ctx.patch.title.Some?
    ensures Final(env, ctx, lines, i) == After(before, StreamFrom(env, lines, s, i, ctx.number, carry))
    decreases |lines| - i, 0
  {
    var own := BlockStream(env, ctx.number, carry, lines, s, i);
    var next := Complete(env, ctx);
    NextBegins(env, ctx, lines, i + 1);
    EndsHere(env, lines, s, i, ctx.number, carry, own);
    FoldStreams(env, next, ctx.calls, own.carry, lines, i + 1, i + 1);
    AfterAfter(before, own.calls, StreamFrom(env, lines, i + 1, i + 1, ctx.number + 1, own.carry));
    assert Final(env, ctx, lines, i) == Final(env, next, lines, i + 1);
  }

  lemma {:induction false} InBlock(env: Env, ctx: Ctx, before: seq<Call>, carry: Carry,
                                   lines: seq<Line>, s: nat, i: nat)
    requires env.mode.LowMem? && s <= i < |lines| && Streaming(env, ctx, before, carry, lines, s, i)
    requires !(lines[i].Block? && ctx.patch.title.Some?)
    ensures Final(env, ctx, lines, i) == After(before, StreamFrom(env, lines, s, i, ctx.number, carry))
    decreases |lines| - i, 0
  {
    var next := Step(env, ctx, lines[i]);
    StreamingStep(env, ctx, before, carry, lines, s, i);
    GoesOn(env, lines, s, i, ctx.number, carry);
    if next.faulted {
      FaultStays(env, next, lines, i + 1);
      BrokenStays(env, ctx.number, carry, lines, s, i + 1, BlockEnd(lines, s, i + 1));
    } else {
      FoldStreams(env, next, before, carry, lines, s, i + 1);
    }
    assert Final(env, ctx, lines, i) == Final(env, next, lines, i + 1);
  }

  /** For any lines, in the low-memory mode: the calls of the run are those of its blocks, each
      read alone, numbered in order, with flag and metadata carried from each to the next; the
      run crashes when one of them does. */
  lemma RunIsStreamedBlocks(env: Env, lines: seq<Line>)
    requires env.mode.LowMem?
    ensures StreamOf(Run(env, lines)) == StreamFrom(env, lines, 0, 0, 0, FIRST)
  {
    FoldStreams(env, START, [], FIRST, lines, 0, 0);
    AfterNothing(StreamFrom(env, lines, 0, 0, 0, FIRST));
  }

  lemma AfterNothing(s: Streamed)
    ensures After([], s) == s
  {
  }

  // ----- Exactly when it crashes -----

  /** A "patches:" line at `k`, and the block has named no executable before it. */
  predicate NamelessAt(lines: seq<Line>, s: nat, k: nat)
    requires s <= k < |lines|
  {
    lines[k].Patches? && LastField(lines, s, k, AppBin).None?
  }

  predicate Nameless(lines: seq<Line>, s: nat, h: nat)
    requires s <= h <= |lines|
  {
    exists k :: s <= k < h && NamelessAt(lines, s, k)
  }

  predicate SomeNameless(lines: seq<Line>, s: nat)
    requires s <= |lines|
    decreases |lines| - s
  {
    var h := BlockEnd(lines, s, s);
    Nameless(lines, s, h) || (h < |lines| && SomeNameless(lines, h + 1))
  }

  lemma {:induction false} BlockBreaksExactly(env: Env, number: nat, carry: Carry, lines: seq<Line>, s: nat, i: nat)
    requires s <= i <= |lines|
    ensures BlockStream(env, number, carry, lines, s, i).Broken? <==> Nameless(lines, s, i)
    decreases i - s
  {
    if s < i {
      BlockBreaksExactly(env, number, carry, lines, s, i - 1);
      BlockFields(lines, s, i - 1, AppBin);
      assert Nameless(lines, s, i) <==> Nameless(lines, s, i - 1) || NamelessAt(lines, s, i - 1);
    }
  }

  lemma {:induction false} StreamBreaksExactly(env: Env, lines: seq<Line>, s: nat, number: nat, carry: Carry)
    requires s <= |lines|
    ensures StreamFrom(env, lines, s, s, number, carry).Broken? <==> SomeNameless(lines, s)
    decreases |lines| - s
  {
    var h := BlockEnd(lines, s, s);
    BlockBreaksExactly(env, number, carry, lines, s, h);
    var own := BlockStream(env, number, carry, lines, s, h);
    if own.Made? && h < |lines| {
      StreamBreaksExactly(env, lines, h + 1, number + 1, own.carry);
    }
  }

  /** The low-memory mode crashes if and only if some block has a "patches:" line before it names
      an executable. */
  lemma RunCrashesExactly(env: Env, lines: seq<Line>)
    requires env.mode.LowMem?
    ensures Run(env, lines).faulted <==> SomeNameless(lines, 0)
  {
    RunIsStreamedBlocks(env, lines);
    StreamBreaksExactly(env, lines, 0, 0, FIRST);
  }
}
