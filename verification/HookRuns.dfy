/** Runs of hooks and unhooks over any number of detours that share one trampoline buffer:
    what memory holds, what the buffer holds, and what calling an original still does.
  */
module HookRuns {
  import opened Words
  import opened PowerPC
  import opened Relocation
  import opened Trampoline
  import opened Hooking

  // ----- One hook -----

  /** The displaced window and the trampoline of a hook on `fn` whose trampoline is at `start`. */
  function SiteOf(mem: Code, start: int, fn: Word): Site {
    Site(fn, start, ReadWords(mem, fn, HOOK_WORDS))
  }

  function SiteBytes(site: Site): (n: nat) {
    Offset(site.words, site.Count()) + 24
  }

  /** An aligned function, away from the place its trampoline goes. */
  ghost predicate Hookable(mem: Code, start: int, fn: Word) {
    && 0 < start && start % 4 == 0 && fn % 4 == 0 && 0 < fn && fn + 16 < 0x8000_0000
    && (fn + 16 <= start || start + SiteBytes(SiteOf(mem, start, fn)) <= fn)
  }

  lemma CodeAtWritten(mem: Code, a: int, ws: seq<Word>)
    ensures CodeAt(WriteWords(mem, a, ws), a, ws)
  {
    forall i | 0 <= i < |ws|
      ensures Fetch(WriteWords(mem, a, ws), a + 4 * i) == ws[i]
    {
      FetchWritten(mem, a, ws, a + 4 * i);
    }
  }

  /** Code outside the bytes written stands as before. */
  lemma CodeAtFrame(mem: Code, mem': Code, a: int, ws: seq<Word>)
    requires CodeAt(mem, a, ws)
    requires forall x :: a <= x < a + 4 * |ws| ==> Fetch(mem', x) == Fetch(mem, x)
    ensures CodeAt(mem', a, ws)
  {
    forall i | 0 <= i < |ws|
      ensures Fetch(mem', a + 4 * i) == ws[i]
    {
      assert Fetch(mem, a + 4 * i) == ws[i];
    }
  }

  lemma WordOfCode(mem: Code, a: int, ws: seq<Word>, m: nat)
    requires CodeAt(mem, a, ws) && m < |ws|
    ensures Fetch(mem, a + 4 * m) == ws[m]
  {
  }

  lemma WordOfWindow(a: int, x: int) returns (m: nat)
    requires Touches(a, HOOK_WORDS, x)
    ensures m < HOOK_WORDS && x == a + 4 * m
  {
    m := (x - a) / 4;
  }

  ghost predicate SameOutside(mem: Code, mem': Code, lo: int, hi: int) {
    forall x :: !(lo <= x < hi) ==> Fetch(mem', x) == Fetch(mem, x)
  }

  lemma WriteFrame(mem: Code, a: int, ws: seq<Word>)
    ensures SameOutside(mem, WriteWords(mem, a, ws), a, a + 4 * |ws|)
  {
    forall x | !(a <= x < a + 4 * |ws|)
      ensures Fetch(WriteWords(mem, a, ws), x) == Fetch(mem, x)
    {
      FetchWritten(mem, a, ws, x);
    }
  }

  /** What the copying loop has done after `n` instructions. */
  ghost predicate Copied(mem: Code, mem': Code, site: Site, cursor: int, n: nat)
    requires n <= site.Count()
  {
    && cursor == site.Relocated(n)
    && SameOutside(mem, mem', site.base, cursor)
    && forall k :: 0 <= k < n ==> PieceAt(mem', site, k)
  }

  lemma {:induction false} CopyFacts(mem: Code, start: int, fn: Word, n: nat)
    requires n <= HOOK_WORDS && Hookable(mem, start, fn)
    ensures var (mem', cursor) := CopyEffect(mem, start, fn, n);
            Copied(mem, mem', SiteOf(mem, start, fn), cursor, n)
  {
    if n > 0 {
      CopyFacts(mem, start, fn, n - 1);
      CopyNextFacts(mem, start, fn, n - 1);
    }
  }

  lemma CopyNextFacts(mem: Code, start: int, fn: Word, i: nat)
    requires i < HOOK_WORDS && Hookable(mem, start, fn)
    requires var (copied, cursor) := CopyEffect(mem, start, fn, i);
             Copied(mem, copied, SiteOf(mem, start, fn), cursor, i)
    ensures var (mem', cursor') := CopyEffect(mem, start, fn, i + 1);
            Copied(mem, mem', SiteOf(mem, start, fn), cursor', i + 1)
  {
    var (copied, cursor) := CopyEffect(mem, start, fn, i);
    CopyOneFacts(mem, copied, cursor, start, fn, i);
    CopyEffectStep(mem, start, fn, i);
  }

  lemma CopyOneFacts(mem: Code, copied: Code, cursor: int, start: int, fn: Word, i: nat)
    requires i < HOOK_WORDS && Hookable(mem, start, fn)
    requires Copied(mem, copied, SiteOf(mem, start, fn), cursor, i)
    ensures var (mem', cursor') := CopyOne(copied, cursor, (fn + 4 * i) % WORD_SPAN);
            Copied(mem, mem', SiteOf(mem, start, fn), cursor', i + 1)
  {
    var site := SiteOf(mem, start, fn);
    WindowUntouched(mem, copied, start, fn, i);
    SmallMod(fn + 4 * i);
    PieceWritten(mem, copied, site, i, RelocatedWords(site.words[i], site.Original(i)));
  }

  lemma SmallMod(x: int)
    requires 0 <= x < WORD_SPAN
    ensures x % WORD_SPAN == x
  {
  }

  lemma WindowUntouched(mem: Code, copied: Code, start: int, fn: Word, i: nat)
    requires i < HOOK_WORDS && Hookable(mem, start, fn)
    requires Copied(mem, copied, SiteOf(mem, start, fn), SiteOf(mem, start, fn).Relocated(i), i)
    ensures Fetch(copied, fn + 4 * i) == SiteOf(mem, start, fn).words[i]
  {
    OffsetMonotone(SiteOf(mem, start, fn).words, i, HOOK_WORDS);
    OffsetMonotone(SiteOf(mem, start, fn).words, 0, i);
  }

  lemma PieceWritten(mem: Code, copied: Code, site: Site, i: nat, ws: seq<Word>)
    requires i < site.Count() && ws == RelocatedWords(site.words[i], site.Original(i))
    requires Copied(mem, copied, site, site.Relocated(i), i)
    ensures Copied(mem, WriteWords(copied, site.Relocated(i), ws), site, site.Relocated(i) + 4 * |ws|, i + 1)
  {
    var at := site.Relocated(i);
    var mem' := WriteWords(copied, at, ws);
    OffsetMonotone(site.words, 0, i);
    AppendFacts(mem, copied, site.base, at, ws);
    TrampolineFrame(copied, mem', site, i);
    assert PieceAt(mem', site, i);
  }

  /** Writing at the end of a region that is all that has changed so far. */
  lemma AppendFacts(mem: Code, copied: Code, lo: int, at: int, ws: seq<Word>)
    requires lo <= at && SameOutside(mem, copied, lo, at)
    ensures var mem' := WriteWords(copied, at, ws);
            && SameOutside(mem, mem', lo, at + 4 * |ws|) && CodeAt(mem', at, ws)
            && (forall x :: lo <= x < at ==> Fetch(mem', x) == Fetch(copied, x))
  {
    WriteFrame(copied, at, ws);
    CodeAtWritten(copied, at, ws);
  }

  ghost predicate HookDone(mem: Code, site: Site, target: Word, mem': Code, cursor: int, r: Record) {
    && cursor == site.base + SiteBytes(site) && 40 <= SiteBytes(site) <= 120 && SiteBytes(site) % 4 == 0
    && IsTrampoline(mem', site)
    && CodeAt(mem', site.hook, HookWords(target))
    && r.trampoline == site.base && r.saved == site.words && r.address == site.hook && r.target == target && IsLive(r)
    && r.length == 16 && r.opd.0 == site.base
    && (forall x :: !(site.base <= x < cursor) && !(site.hook <= x < site.hook + 16) ==>
         Fetch(mem', x) == Fetch(mem, x))
  }

  /** A hook leaves the trampoline in the buffer and the jump over the function, changes
      nothing else, and uses between 40 and 120 bytes of the buffer. */
  lemma HookFacts(mem: Code, start: int, fn: Word, callback: Word, toc: Word)
    requires Hookable(mem, start, fn)
    ensures var (mem', cursor, r) := HookEffect(mem, start, fn, callback, toc);
            HookDone(mem, SiteOf(mem, start, fn), Fetch(mem, callback), mem', cursor, r) && r.opd == (start, toc)
  {
    CopyFacts(mem, start, fn, HOOK_WORDS);
    var (copied, cursor) := CopyEffect(mem, start, fn, HOOK_WORDS);
    FinishedAs(mem, start, fn, Fetch(mem, callback), toc, copied, cursor);
    HookEffectIs(mem, start, fn, callback, toc, copied, cursor);
  }

  lemma HookEffectIs(mem: Code, start: int, fn: Word, callback: Word, toc: Word, copied: Code, cursor: int)
    requires (copied, cursor) == CopyEffect(mem, start, fn, HOOK_WORDS)
    ensures var target := Fetch(mem, callback);
            HookEffect(mem, start, fn, callback, toc) ==
            (FinishEffect(copied, cursor, fn, target).0, FinishEffect(copied, cursor, fn, target).1,
             Record(target, fn, start, ReadWords(mem, fn, HOOK_WORDS), 16, (start, toc)))
  {
  }

  lemma SiteSize(site: Site)
    requires site.Count() == HOOK_WORDS
    ensures 40 <= SiteBytes(site) <= 120 && SiteBytes(site) % 4 == 0 && site.base <= site.Relocated(HOOK_WORDS)
  {
    OffsetMonotone(site.words, 0, HOOK_WORDS);
  }

  lemma FinishedAs(mem: Code, start: int, fn: Word, target: Word, toc: Word, copied: Code, cursor: int)
    requires Hookable(mem, start, fn) && Copied(mem, copied, SiteOf(mem, start, fn), cursor, HOOK_WORDS)
    ensures var (mem', end) := FinishEffect(copied, cursor, fn, target);
            HookDone(mem, SiteOf(mem, start, fn), target, mem', end,
                     Record(target, fn, start, ReadWords(mem, fn, HOOK_WORDS), 16, (start, toc)))
  {
    var site := SiteOf(mem, start, fn);
    SiteSize(site);
    SmallMod(fn + 16);
    FinishFacts(mem, copied, site, target);
  }

  /** The two jumps written after the copying loop. */
  lemma FinishFacts(mem: Code, copied: Code, site: Site, target: Word)
    requires site.Count() == HOOK_WORDS && Copied(mem, copied, site, site.Relocated(HOOK_WORDS), HOOK_WORDS)
    requires 0 < site.hook < 0x8000_0000 - 16 && site.base <= site.Relocated(HOOK_WORDS)
    requires site.hook + 16 <= site.base || site.base + SiteBytes(site) <= site.hook
    ensures var end := site.Relocated(HOOK_WORDS);
            var returned := WriteWords(copied, end, ReturnWords(site.hook + 16));
            var mem' := WriteWords(returned, site.hook, HookWords(target));
            && IsTrampoline(mem', site)
            && CodeAt(mem', site.hook, HookWords(target))
            && (forall x :: !(site.base <= x < end + 24) && !(site.hook <= x < site.hook + 16) ==>
                  Fetch(mem', x) == Fetch(mem, x))
  {
    var end := site.Relocated(HOOK_WORDS);
    var back := ReturnWords(site.hook + 16);
    var returned := WriteWords(copied, end, back);
    WriteFrame(copied, end, back);
    CodeAtWritten(copied, end, back);
    var jump := HookWords(target);
    var hooked := WriteWords(returned, site.hook, jump);
    WriteFrame(returned, site.hook, jump);
    CodeAtWritten(returned, site.hook, jump);
    TrampolineFrame(copied, hooked, site, HOOK_WORDS);
    CodeAtFrame(returned, hooked, end, back);
  }

  /** Pieces survive changes outside their bytes. */
  lemma TrampolineFrame(mem: Code, mem': Code, site: Site, n: nat)
    requires n <= site.Count()
    requires forall k :: 0 <= k < n ==> PieceAt(mem, site, k)
    requires forall x :: site.base <= x < site.Relocated(n) ==> Fetch(mem', x) == Fetch(mem, x)
    ensures forall k :: 0 <= k < n ==> PieceAt(mem', site, k)
  {
    forall k | 0 <= k < n
      ensures PieceAt(mem', site, k)
    {
      assert PieceAt(mem, site, k);
      OffsetMonotone(site.words, 0, k);
      OffsetMonotone(site.words, k + 1, n);
      CodeAtFrame(mem, mem', site.Relocated(k), RelocatedWords(site.words[k], site.Original(k)));
    }
  }

  /** Unhooking right after hooking: outside the trampoline every word is what it was, the detour
      forgets the address and the length only, and a second unhook does nothing. */
  lemma HookThenUnHook(mem: Code, start: int, fn: Word, callback: Word, toc: Word)
    requires Hookable(mem, start, fn)
    ensures var (hooked, cursor, r) := HookEffect(mem, start, fn, callback, toc);
            var (released, r') := UnHookEffect(hooked, r);
            && (forall x :: x % 4 == 0 && !(start <= x < cursor) ==> Fetch(released, x) == Fetch(mem, x))
            && r'.address == 0 && r'.length == 0 && r'.target == r.target && r'.trampoline == start
            && r'.saved == r.saved && r'.opd == r.opd && UnHookEffect(released, r') == (released, r')
  {
    var (hooked, cursor, r) := HookEffect(mem, start, fn, callback, toc);
    HookFacts(mem, start, fn, callback, toc);
    SavedRestores(mem, hooked, SiteOf(mem, start, fn), cursor);
  }

  lemma SavedRestores(mem: Code, hooked: Code, site: Site, cursor: int)
    requires site.words == ReadWords(mem, site.hook, HOOK_WORDS) && site.hook % 4 == 0
    requires forall x :: !(site.base <= x < cursor) && !(site.hook <= x < site.hook + 16) ==>
               Fetch(hooked, x) == Fetch(mem, x)
    ensures forall x :: x % 4 == 0 && !(site.base <= x < cursor) ==>
              Fetch(WriteWords(hooked, site.hook, site.words), x) == Fetch(mem, x)
  {
    forall x | x % 4 == 0 && !(site.base <= x < cursor)
      ensures Fetch(WriteWords(hooked, site.hook, site.words), x) == Fetch(mem, x)
    {
      FetchWritten(hooked, site.hook, site.words, x);
    }
  }

  // ----- Runs -----

  datatype Op =
    | HookOp(id: nat, fn: Word, callback: Word, toc: Word)
    | UnHookOp(id: nat)

  /** Memory, the bytes of the buffer in use, and the detours by number. */
  datatype World = World(mem: Code, used: int, detours: map<int, Record>)

  function Apply(base: Word, w: World, op: Op): World {
    match op
    case HookOp(id, fn, callback, toc) =>
      var (mem, cursor, r) := HookEffect(w.mem, base + w.used, fn, callback, toc);
      World(mem, cursor - base, w.detours[id := r])
    case UnHookOp(id) =>
      if id !in w.detours then w
      else
        var (mem, r) := UnHookEffect(w.mem, w.detours[id]);
        World(mem, w.used, w.detours[id := r])
  }

  /** A jump still standing over a function: the detour that can take it away (-1 when that
      detour has been used for another hook since), its words, and the words it replaced. */
  datatype Standing = Standing(id: int, fn: Word, words: seq<Word>, saved: seq<Word>)

  const ORPHAN: int := -1

  function Orphaned(live: seq<Standing>, id: nat): (r: seq<Standing>)
    ensures |r| == |live|
  {
    seq(|live|, i requires 0 <= i < |live| => if live[i].id == id then live[i].(id := ORPHAN) else live[i])
  }

  /** The position of the jump that detour `id` owns, or the length. */
  function IndexOf(live: seq<Standing>, id: int): (i: nat)
    ensures i <= |live|
    ensures i < |live| ==> live[i].id == id
  {
    if live == [] || live[0].id == id then 0 else 1 + IndexOf(live[1..], id)
  }

  function Without(live: seq<Standing>, i: nat): seq<Standing>
    requires i < |live|
  {
    live[..i] + live[i + 1..]
  }

  function ApplyLive(w: World, live: seq<Standing>, op: Op): seq<Standing> {
    match op
    case HookOp(id, fn, callback, _) =>
      Orphaned(live, id) + [Standing(id, fn, HookWords(Fetch(w.mem, callback)), ReadWords(w.mem, fn, HOOK_WORDS))]
    case UnHookOp(id) =>
      var i := IndexOf(live, id);
      if i < |live| then Without(live, i) else live
  }

  /** Memory `mem` with the standing jumps written over it, oldest first. */
  function Overlay(mem: Code, live: seq<Standing>): Code {
    if live == [] then mem
    else
      var last := |live| - 1;
      WriteWords(Overlay(mem, live[..last]), live[last].fn, live[last].words)
  }

  predicate InBuffer(base: Word, x: int) {
    base <= x < base + BUFFER_BYTES
  }

  predicate Aligned(base: Word, fn: Word) {
    && fn % 4 == 0 && 0 < fn && fn + 16 < 0x8000_0000
    && (fn + 16 <= base || base + BUFFER_BYTES <= fn)
  }

  predicate Overlap(a: Word, b: Word) {
    a < b + 16 && b < a + 16
  }

  /** A jump hooked after jump `i` covers `x`. */
  ghost predicate TouchedLater(live: seq<Standing>, i: nat, x: int) {
    exists j :: i < j < |live| && Touches(live[j].fn, HOOK_WORDS, x)
  }

  /** Taking away jump `i` is seamless: wherever a later jump covers its window, the word it
      saved is the one that memory shows. */
  ghost predicate MemoryAgrees(mem: Code, live: seq<Standing>, i: nat)
    requires i < |live|
  {
    forall m :: 0 <= m < |live[i].saved| && TouchedLater(live, i, live[i].fn + 4 * m) ==>
      Fetch(mem, live[i].fn + 4 * m) == live[i].saved[m]
  }

  /** Nor does a later jump notice: what it saved there is the same without jump `i`. */
  ghost predicate SavedAgrees(live: seq<Standing>, i: nat)
    requires i < |live|
  {
    forall m :: 0 <= m < |live[i].saved| && m < |live[i].words| && TouchedLater(live, i, live[i].fn + 4 * m) ==>
      live[i].words[m] == live[i].saved[m]
  }

  /** The hypotheses on one operation: a function is aligned and outside the buffer and its
      trampoline fits; a release is seamless. ReleasedExactly shows that less will not do, and
      LastInFirstOut that releasing overlapping windows last-in first-out is enough. */
  ghost predicate GoodOp(base: Word, w: World, live: seq<Standing>, op: Op) {
    match op
    case HookOp(_, fn, _, _) =>
      Aligned(base, fn) && w.used + SiteBytes(SiteOf(w.mem, base + w.used, fn)) <= BUFFER_BYTES
    case UnHookOp(id) =>
      var i := IndexOf(live, id);
      i < |live| ==> MemoryAgrees(w.mem, live, i) && SavedAgrees(live, i)
  }

  /** No later jump overlaps: the order of releases that always works. */
  lemma LastInFirstOut(base: Word, w: World, live: seq<Standing>, id: nat)
    requires var i := IndexOf(live, id); forall j :: i < j < |live| ==> !Overlap(live[i].fn, live[j].fn)
    requires forall j :: 0 <= j < |live| ==> |live[j].words| == HOOK_WORDS && |live[j].saved| == HOOK_WORDS
    ensures GoodOp(base, w, live, UnHookOp(id))
  {
    var i := IndexOf(live, id);
    forall x, j | i < j < |live| && Touches(live[i].fn, HOOK_WORDS, x)
      ensures !Touches(live[j].fn, HOOK_WORDS, x)
    {
      assert !Overlap(live[i].fn, live[j].fn);
    }
    assert forall x :: i < |live| && Touches(live[i].fn, HOOK_WORDS, x) ==> !TouchedLater(live, i, x);
  }

  // ----- The overlay -----

  lemma OverlayAt(mem: Code, live: seq<Standing>, x: int)
    requires live != []
    ensures var s := live[|live| - 1];
            Fetch(Overlay(mem, live), x) ==
            if Touches(s.fn, |s.words|, x) then s.words[(x - s.fn) / 4] else Fetch(Overlay(mem, live[..|live| - 1]), x)
  {
    var s := live[|live| - 1];
    FetchWritten(Overlay(mem, live[..|live| - 1]), s.fn, s.words, x);
  }

  /** Which detour a jump belongs to does not matter to memory. */
  lemma {:induction false} OverlayIgnoresIds(mem: Code, a: seq<Standing>, b: seq<Standing>)
    requires |a| == |b|
    requires forall i :: 0 <= i < |a| ==> a[i].fn == b[i].fn && a[i].words == b[i].words
    ensures Overlay(mem, a) == Overlay(mem, b)
  {
    if a != [] {
      OverlayIgnoresIds(mem, a[..|a| - 1], b[..|b| - 1]);
    }
  }

  lemma TouchedLaterLast(live: seq<Standing>, i: nat, x: int)
    requires i < |live| - 1
    ensures TouchedLater(live, i, x) <==>
            TouchedLater(live[..|live| - 1], i, x) || Touches(live[|live| - 1].fn, HOOK_WORDS, x)
  {
    var front := live[..|live| - 1];
    if TouchedLater(live, i, x) {
      var j :| i < j < |live| && Touches(live[j].fn, HOOK_WORDS, x);
      assert j < |front| ==> front[j] == live[j];
    }
    if TouchedLater(front, i, x) {
      var j :| i < j < |front| && Touches(front[j].fn, HOOK_WORDS, x);
      assert live[j] == front[j];
    }
  }

  ghost predicate ShowsWithout(mem: Code, live: seq<Standing>, i: nat, x: int)
    requires i < |live|
  {
    Fetch(Overlay(mem, Without(live, i)), x) ==
    if Touches(live[i].fn, HOOK_WORDS, x) && !TouchedLater(live, i, x) then Fetch(Overlay(mem, live[..i]), x)
    else Fetch(Overlay(mem, live), x)
  }

  lemma TopWithout(mem: Code, live: seq<Standing>, x: int)
    requires live != [] && |live[|live| - 1].words| == HOOK_WORDS
    ensures ShowsWithout(mem, live, |live| - 1, x)
  {
    OverlayAt(mem, live, x);
    assert Without(live, |live| - 1) == live[..|live| - 1];
  }

  lemma BelowWithout(mem: Code, live: seq<Standing>, i: nat, x: int)
    requires i < |live| - 1 && |live[|live| - 1].words| == HOOK_WORDS
    requires ShowsWithout(mem, live[..|live| - 1], i, x)
    ensures ShowsWithout(mem, live, i, x)
  {
    OverlayAt(mem, live, x);
    assert live[..|live| - 1][..i] == live[..i];
    WithoutLast(mem, live, i, x);
    TouchedLaterLast(live, i, x);
  }

  lemma {:induction false} AllShowWithout(mem: Code, live: seq<Standing>, i: nat, x: int)
    requires i < |live|
    requires forall j :: 0 <= j < |live| ==> |live[j].words| == HOOK_WORDS
    ensures ShowsWithout(mem, live, i, x)
    decreases |live|
  {
    if i == |live| - 1 {
      TopWithout(mem, live, x);
    } else {
      AllShowWithout(mem, live[..|live| - 1], i, x);
      BelowWithout(mem, live, i, x);
    }
  }

  /** Taking away jump `i`: where no later jump covers its window, the window shows what was there
      before it; everywhere else nothing changes. */
  lemma OverlayWithout(mem: Code, live: seq<Standing>, i: nat, x: int)
    requires i < |live|
    requires forall j :: 0 <= j < |live| ==> |live[j].words| == HOOK_WORDS
    ensures Fetch(Overlay(mem, Without(live, i)), x) ==
            if Touches(live[i].fn, HOOK_WORDS, x) && !TouchedLater(live, i, x) then Fetch(Overlay(mem, live[..i]), x)
            else Fetch(Overlay(mem, live), x)
  {
    AllShowWithout(mem, live, i, x);
  }

  lemma WithoutLast(mem: Code, live: seq<Standing>, i: nat, x: int)
    requires i < |live| - 1
    ensures var s := live[|live| - 1];
            Fetch(Overlay(mem, Without(live, i)), x) ==
            if Touches(s.fn, |s.words|, x) then s.words[(x - s.fn) / 4]
            else Fetch(Overlay(mem, Without(live[..|live| - 1], i)), x)
  {
    var less := Without(live, i);
    assert less[..|less| - 1] == Without(live[..|live| - 1], i) && less[|less| - 1] == live[|live| - 1];
    OverlayAt(mem, less, x);
  }

  // ----- The invariant of every run -----

  ghost predicate Shaped(base: Word, live: seq<Standing>) {
    forall i :: 0 <= i < |live| ==>
      |live[i].words| == HOOK_WORDS && |live[i].saved| == HOOK_WORDS && Aligned(base, live[i].fn)
  }

  /** Outside the buffer, memory is the original overlaid with the standing jumps. */
  ghost predicate MemoryIsOverlay(base: Word, original: Code, mem: Code, live: seq<Standing>) {
    forall x :: x % 4 == 0 && !InBuffer(base, x) ==> Fetch(mem, x) == Fetch(Overlay(original, live), x)
  }

  /** Each jump saved what the older ones left in its window. */
  ghost predicate SavedAt(original: Code, live: seq<Standing>, i: nat)
    requires i < |live|
  {
    CodeAt(Overlay(original, live[..i]), live[i].fn, live[i].saved)
  }

  /** Every jump did. */
  ghost predicate AllSaved(original: Code, live: seq<Standing>) {
    forall k :: 0 <= k < |live| ==> SavedAt(original, live, k)
  }

  ghost predicate Has(live: seq<Standing>, id: int) {
    exists i :: 0 <= i < |live| && live[i].id == id
  }

  ghost predicate OwnedBy(s: Standing, detours: map<int, Record>) {
    && s.id in detours && IsLive(detours[s.id])
    && detours[s.id].address == s.fn && detours[s.id].saved == s.saved
  }

  /** Two jumps have different owners, if any. */
  ghost predicate Apart(live: seq<Standing>, i: nat, j: nat)
    requires i < j < |live|
  {
    live[i].id == live[j].id ==> live[i].id == ORPHAN
  }

  /** The live detours are exactly the owners of the standing jumps, one jump each. */
  ghost predicate Ownership(detours: map<int, Record>, live: seq<Standing>) {
    && (forall i :: 0 <= i < |live| && live[i].id != ORPHAN ==> OwnedBy(live[i], detours))
    && (forall i, j :: 0 <= i < j < |live| ==> Apart(live, i, j))
    && (forall id :: id in detours && IsLive(detours[id]) ==> id >= 0 && Has(live, id))
  }

  ghost predicate Inv(base: Word, original: Code, w: World, live: seq<Standing>) {
    && 0 < base && base % 4 == 0 && 0 <= w.used <= BUFFER_BYTES && w.used % 4 == 0
    && Shaped(base, live)
    && MemoryIsOverlay(base, original, w.mem, live)
    && AllSaved(original, live)
    && Ownership(w.detours, live)
  }

  lemma {:induction false} IndexOfPresent(live: seq<Standing>, id: int)
    ensures Has(live, id) <==> IndexOf(live, id) < |live|
  {
    if live != [] && live[0].id != id {
      IndexOfPresent(live[1..], id);
      if Has(live, id) {
        var i :| 0 <= i < |live| && live[i].id == id;
        assert live[1..][i - 1].id == id;
      }
    }
  }

  /** A hook, seen through what it leaves. */
  lemma HookStep(base: Word, w: World, id: nat, fn: Word, callback: Word, toc: Word)
    requires 0 < base && base % 4 == 0 && 0 <= w.used && w.used % 4 == 0 && Aligned(base, fn)
    requires w.used + SiteBytes(SiteOf(w.mem, base + w.used, fn)) <= BUFFER_BYTES
    ensures var w' := Apply(base, w, HookOp(id, fn, callback, toc));
            && id in w'.detours && w'.detours == w.detours[id := w'.detours[id]]
            && HookDone(w.mem, SiteOf(w.mem, base + w.used, fn), Fetch(w.mem, callback),
                        w'.mem, base + w'.used, w'.detours[id])
  {
    OffsetMonotone(SiteOf(w.mem, base + w.used, fn).words, 0, HOOK_WORDS);
    HookFacts(w.mem, base + w.used, fn, callback, toc);
  }

  lemma HookKeepsInv(base: Word, original: Code, w: World, live: seq<Standing>, id: nat, fn: Word, callback: Word,
                     toc: Word)
    requires Inv(base, original, w, live) && GoodOp(base, w, live, HookOp(id, fn, callback, toc))
    ensures Inv(base, original, Apply(base, w, HookOp(id, fn, callback, toc)),
                ApplyLive(w, live, HookOp(id, fn, callback, toc)))
  {
    HookStep(base, w, id, fn, callback, toc);
    HookDoneKeepsInv(base, original, w, live, Apply(base, w, HookOp(id, fn, callback, toc)), id, fn,
                     Fetch(w.mem, callback));
  }

  lemma HookDoneKeepsInv(base: Word, original: Code, w: World, live: seq<Standing>, w': World, id: nat, fn: Word,
                         target: Word)
    requires Inv(base, original, w, live) && Aligned(base, fn)
    requires id in w'.detours && w'.detours == w.detours[id := w'.detours[id]]
    requires HookDone(w.mem, SiteOf(w.mem, base + w.used, fn), target, w'.mem, base + w'.used, w'.detours[id])
    requires w'.used <= BUFFER_BYTES
    ensures Inv(base, original, w',
                Orphaned(live, id) + [Standing(id, fn, HookWords(target), ReadWords(w.mem, fn, HOOK_WORDS))])
  {
    StandingAdded(base, original, w, live, w', Standing(id, fn, HookWords(target), ReadWords(w.mem, fn, HOOK_WORDS)));
  }

  ghost predicate Added(base: Word, w: World, w': World, s: Standing) {
    && s.id >= 0 && Aligned(base, s.fn) && |s.words| == HOOK_WORDS
    && s.id in w'.detours && w'.detours == w.detours[s.id := w'.detours[s.id]] && OwnedBy(s, w'.detours)
    && s.saved == ReadWords(w.mem, s.fn, HOOK_WORDS) && CodeAt(w'.mem, s.fn, s.words)
    && w.used <= w'.used <= BUFFER_BYTES && w'.used % 4 == 0
    && (forall x :: !(base + w.used <= x < base + w'.used) && !(s.fn <= x < s.fn + 16) ==>
         Fetch(w'.mem, x) == Fetch(w.mem, x))
  }

  lemma StandingAdded(base: Word, original: Code, w: World, live: seq<Standing>, w': World, s: Standing)
    requires Inv(base, original, w, live) && Added(base, w, w', s)
    ensures Inv(base, original, w', Orphaned(live, s.id) + [s])
  {
    MemoryAdded(base, original, w, live, w', s);
    SavedAdded(base, original, w, live, s);
    OwnershipAdded(w.detours, live, w'.detours, s);
  }

  lemma MemoryAdded(base: Word, original: Code, w: World, live: seq<Standing>, w': World, s: Standing)
    requires MemoryIsOverlay(base, original, w.mem, live) && Added(base, w, w', s) && 0 <= w.used
    ensures MemoryIsOverlay(base, original, w'.mem, Orphaned(live, s.id) + [s])
  {
    forall x | x % 4 == 0 && !InBuffer(base, x)
      ensures Fetch(w'.mem, x) == Fetch(Overlay(original, Orphaned(live, s.id) + [s]), x)
    {
      OverlayAdded(original, live, s, x);
      if Touches(s.fn, HOOK_WORDS, x) {
        var m := WordOfWindow(s.fn, x);
        WordOfCode(w'.mem, s.fn, s.words, m);
      }
    }
  }

  lemma OverlayAdded(original: Code, live: seq<Standing>, s: Standing, x: int)
    requires |s.words| == HOOK_WORDS && s.id >= 0
    ensures Fetch(Overlay(original, Orphaned(live, s.id) + [s]), x) ==
            if Touches(s.fn, HOOK_WORDS, x) then s.words[(x - s.fn) / 4] else Fetch(Overlay(original, live), x)
  {
    var live' := Orphaned(live, s.id) + [s];
    assert live'[..|live|] == Orphaned(live, s.id);
    OverlayIgnoresIds(original, Orphaned(live, s.id), live);
    OverlayAt(original, live', x);
  }

  lemma SavedAdded(base: Word, original: Code, w: World, live: seq<Standing>, s: Standing)
    requires Inv(base, original, w, live) && s.id >= 0 && Aligned(base, s.fn) &&
             s.saved == ReadWords(w.mem, s.fn, HOOK_WORDS)
    ensures var live' := Orphaned(live, s.id) + [s]; forall i :: 0 <= i < |live'| ==> SavedAt(original, live', i)
  {
    var live' := Orphaned(live, s.id) + [s];
    forall i | 0 <= i < |live'|
      ensures SavedAt(original, live', i)
    {
      OverlayIgnoresIds(original, live'[..i], live[..i]);
      if i < |live| {
        assert SavedAt(original, live, i);
      } else {
        assert live[..i] == live;
        FreshSaved(base, original, w.mem, live, s);
      }
    }
  }

  lemma FreshSaved(base: Word, original: Code, mem: Code, live: seq<Standing>, s: Standing)
    requires MemoryIsOverlay(base, original, mem, live) && Aligned(base, s.fn) &&
             s.saved == ReadWords(mem, s.fn, HOOK_WORDS)
    ensures CodeAt(Overlay(original, live), s.fn, s.saved)
  {
    forall i | 0 <= i < HOOK_WORDS
      ensures Fetch(Overlay(original, live), s.fn + 4 * i) == s.saved[i]
    {
      assert (s.fn + 4 * i) % 4 == 0;
    }
  }

  lemma OwnershipAdded(detours: map<int, Record>, live: seq<Standing>, detours': map<int, Record>, s: Standing)
    requires Ownership(detours, live) && s.id >= 0
    requires s.id in detours' && detours' == detours[s.id := detours'[s.id]] && OwnedBy(s, detours')
    ensures Ownership(detours', Orphaned(live, s.id) + [s])
  {
    var live' := Orphaned(live, s.id) + [s];
    forall i, j | 0 <= i < j < |live'|
      ensures Apart(live', i, j)
    {
      assert j < |live| ==> Apart(live, i, j);
    }
    forall id | id in detours' && IsLive(detours'[id])
      ensures id >= 0 && Has(live', id)
    {
      if id == s.id {
        assert live'[|live|].id == id;
      } else {
        var i :| 0 <= i < |live| && live[i].id == id;
        assert live'[i].id == id;
      }
    }
  }

  // ----- Releasing -----

  /** Memory after jump `i` is taken away. */
  function ReleasedMemory(mem: Code, live: seq<Standing>, i: nat): Code
    requires i < |live|
  {
    WriteWords(mem, live[i].fn, live[i].saved)
  }

  /** Inside window `i`, at its word `m`: where no later jump covers it, memory and overlay agree
      after the release; elsewhere they agree exactly when memory showed the saved word. */
  lemma ReleasedWord(base: Word, original: Code, mem: Code, live: seq<Standing>, i: nat, m: nat)
    requires Shaped(base, live) && i < |live| && m < HOOK_WORDS && MemoryIsOverlay(base, original, mem, live) &&
             SavedAt(original, live, i)
    ensures var x := live[i].fn + 4 * m;
            && x % 4 == 0 && !InBuffer(base, x)
            && (Fetch(ReleasedMemory(mem, live, i), x) == Fetch(Overlay(original, Without(live, i)), x) <==>
                (TouchedLater(live, i, x) ==> Fetch(mem, x) == live[i].saved[m]))
  {
    var x := live[i].fn + 4 * m;
    WindowOutside(base, live[i].fn, m);
    OverlayWithout(original, live, i, x);
    FetchWritten(mem, live[i].fn, live[i].saved, x);
    WordOfCode(Overlay(original, live[..i]), live[i].fn, live[i].saved, m);
  }

  lemma WindowOutside(base: Word, fn: Word, m: nat)
    requires Aligned(base, fn) && m < HOOK_WORDS
    ensures var x := fn + 4 * m; x % 4 == 0 && !InBuffer(base, x) && Touches(fn, HOOK_WORDS, x) && (x - fn) / 4 == m
  {
  }

  lemma ReleasedElsewhere(base: Word, original: Code, mem: Code, live: seq<Standing>, i: nat, x: int)
    requires Shaped(base, live) && i < |live| && MemoryIsOverlay(base, original, mem, live)
    requires x % 4 == 0 && !InBuffer(base, x) && !Touches(live[i].fn, HOOK_WORDS, x)
    ensures Fetch(ReleasedMemory(mem, live, i), x) == Fetch(Overlay(original, Without(live, i)), x)
  {
    OverlayWithout(original, live, i, x);
    FetchWritten(mem, live[i].fn, live[i].saved, x);
  }

  /** Releasing any jump, in any order: memory is the overlay of the other jumps if and only if
      every word of the window that a later jump covers already showed the saved word. */
  lemma MemoryReleasedExactly(base: Word, original: Code, mem: Code, live: seq<Standing>, i: nat)
    requires Shaped(base, live) && i < |live|
    requires MemoryIsOverlay(base, original, mem, live) && SavedAt(original, live, i)
    ensures MemoryIsOverlay(base, original, ReleasedMemory(mem, live, i), Without(live, i)) <==>
            MemoryAgrees(mem, live, i)
  {
    var s := live[i];
    var mem', less := ReleasedMemory(mem, live, i), Without(live, i);
    if MemoryIsOverlay(base, original, mem', less) {
      forall m | 0 <= m < HOOK_WORDS && TouchedLater(live, i, s.fn + 4 * m)
        ensures Fetch(mem, s.fn + 4 * m) == s.saved[m]
      {
        ReleasedWord(base, original, mem, live, i, m);
      }
    }
    if MemoryAgrees(mem, live, i) {
      forall x | x % 4 == 0 && !InBuffer(base, x)
        ensures Fetch(mem', x) == Fetch(Overlay(original, less), x)
      {
        if Touches(s.fn, HOOK_WORDS, x) {
          var m := WordOfWindow(s.fn, x);
          ReleasedWord(base, original, mem, live, i, m);
        } else {
          ReleasedElsewhere(base, original, mem, live, i, x);
        }
      }
    }
  }

  /** What the jumps before `j` show, at a word of window `i` that none of them covers later. */
  lemma {:induction false} OverlayUncovered(original: Code, live: seq<Standing>, i: nat, j: nat, m: nat)
    requires i < j <= |live| && m < HOOK_WORDS
    requires forall k :: 0 <= k < |live| ==> |live[k].words| == HOOK_WORDS
    requires forall k :: i < k < j ==> !Touches(live[k].fn, HOOK_WORDS, live[i].fn + 4 * m)
    ensures Fetch(Overlay(original, live[..j]), live[i].fn + 4 * m) == live[i].words[m]
    decreases j
  {
    var x := live[i].fn + 4 * m;
    OverlayAt(original, live[..j], x);
    assert live[..j][..j - 1] == live[..j - 1] && live[..j][j - 1] == live[j - 1];
    if i + 1 < j {
      OverlayUncovered(original, live, i, j - 1, m);
    }
  }

  /** The next jump `j` over word `m` of window `i` saved the word of jump `i`. */
  lemma CoverSaved(original: Code, live: seq<Standing>, i: nat, j: nat, m: nat, n: nat)
    requires i < j < |live| && m < HOOK_WORDS && n < |live[j].saved| && live[j].fn + 4 * n == live[i].fn + 4 * m
    requires forall k :: 0 <= k < |live| ==> |live[k].words| == HOOK_WORDS
    requires forall k :: i < k < j ==> !Touches(live[k].fn, HOOK_WORDS, live[i].fn + 4 * m)
    requires SavedAt(original, live, j)
    ensures live[j].saved[n] == live[i].words[m]
  {
    WordOfCode(Overlay(original, live[..j]), live[j].fn, live[j].saved, n);
    OverlayUncovered(original, live, i, j, m);
  }

  /** A later jump saved the same words whether or not jump `i` stands under it. */
  lemma SavedStays(base: Word, original: Code, live: seq<Standing>, i: nat, j: nat)
    requires Shaped(base, live) && i < j < |live| && AllSaved(original, live) && SavedAgrees(live, i)
    ensures CodeAt(Overlay(original, Without(live[..j], i)), live[j].fn, live[j].saved)
  {
    forall n | 0 <= n < HOOK_WORDS
      ensures Fetch(Overlay(original, Without(live[..j], i)), live[j].fn + 4 * n) == live[j].saved[n]
    {
      SavedWordStays(base, original, live, i, j, n);
    }
  }

  lemma ShownSaved(base: Word, original: Code, live: seq<Standing>, j: nat, n: nat, x: int)
    requires Shaped(base, live) && j < |live| && n < HOOK_WORDS && AllSaved(original, live) && x == live[j].fn + 4 * n
    ensures Fetch(Overlay(original, live[..j]), x) == live[j].saved[n]
  {
    assert SavedAt(original, live, j);
    WordOfCode(Overlay(original, live[..j]), live[j].fn, live[j].saved, n);
  }

  /** What the jumps before `j` show at `x` without jump `i`. */
  lemma ShownWithout(base: Word, original: Code, live: seq<Standing>, i: nat, j: nat, x: int)
    requires Shaped(base, live) && i < j <= |live|
    ensures Fetch(Overlay(original, Without(live[..j], i)), x)
         == if Touches(live[i].fn, HOOK_WORDS, x) && !TouchedLater(live[..j], i, x) then
              Fetch(Overlay(original, live[..i]), x)
            else Fetch(Overlay(original, live[..j]), x)
  {
    OverlayWithout(original, live[..j], i, x);
    assert live[..j][..i] == live[..i];
  }

  /** At word `n` of window `j`, the jumps before it show the same without jump `i`, unless that
      jump is the one that shows there. */
  lemma SavedWordStays(base: Word, original: Code, live: seq<Standing>, i: nat, j: nat, n: nat)
    requires Shaped(base, live) && i < j < |live| && n < HOOK_WORDS && AllSaved(original, live) && SavedAgrees(live, i)
    ensures Fetch(Overlay(original, Without(live[..j], i)), live[j].fn + 4 * n) == live[j].saved[n]
  {
    var x := live[j].fn + 4 * n;
    ShownSaved(base, original, live, j, n, x);
    ShownWithout(base, original, live, i, j, x);
    if Touches(live[i].fn, HOOK_WORDS, x) && !TouchedLater(live[..j], i, x) {
      var m := WordOfWindow(live[i].fn, x);
      ShownAgrees(base, original, live, i, j, m, n);
    }
  }

  lemma NotBetween(live: seq<Standing>, i: nat, j: nat, x: int)
    requires i < j <= |live| && !TouchedLater(live[..j], i, x)
    ensures forall k :: i < k < j ==> !Touches(live[k].fn, HOOK_WORDS, x)
  {
    assert forall k :: i < k < j ==> live[..j][k] == live[k];
  }

  lemma ShownAgrees(base: Word, original: Code, live: seq<Standing>, i: nat, j: nat, m: nat, n: nat)
    requires Shaped(base, live) && i < j < |live| && m < HOOK_WORDS && n < HOOK_WORDS
    requires live[j].fn + 4 * n == live[i].fn + 4 * m && !TouchedLater(live[..j], i, live[i].fn + 4 * m)
    requires AllSaved(original, live) && SavedAgrees(live, i)
    ensures Fetch(Overlay(original, live[..i]), live[i].fn + 4 * m) == live[j].saved[n]
  {
    assert SavedAt(original, live, i) && SavedAt(original, live, j);
    NotBetween(live, i, j, live[i].fn + 4 * m);
    CoverSaved(original, live, i, j, m, n);
    assert Touches(live[j].fn, HOOK_WORDS, live[j].fn + 4 * n);
    assert TouchedLater(live, i, live[i].fn + 4 * m);
    WordOfCode(Overlay(original, live[..i]), live[i].fn, live[i].saved, m);
  }

  /** The first later jump that covers `x`. */
  function FirstCover(live: seq<Standing>, k: nat, x: int): (j: nat)
    ensures k <= |live| ==> k <= j <= |live|
    ensures j < |live| ==> Touches(live[j].fn, HOOK_WORDS, x)
    ensures forall n :: k <= n < j && n < |live| ==> !Touches(live[n].fn, HOOK_WORDS, x)
    decreases |live| - k
  {
    if k >= |live| then |live| else if Touches(live[k].fn, HOOK_WORDS, x) then k else FirstCover(live, k + 1, x)
  }

  /** Only then: the first jump over a word of window `i` had saved the word of jump `i`, and now
      must have saved what was under it. */
  lemma SavedWordForced(base: Word, original: Code, live: seq<Standing>, i: nat, m: nat)
    requires Shaped(base, live) && i < |live| && m < HOOK_WORDS && AllSaved(original, live) &&
             AllSaved(original, Without(live, i))
    requires TouchedLater(live, i, live[i].fn + 4 * m)
    ensures live[i].words[m] == live[i].saved[m]
  {
    var x := live[i].fn + 4 * m;
    var j := FirstCover(live, i + 1, x);
    var n := WordOfWindow(live[j].fn, x);
    assert SavedAt(original, live, j);
    CoverSaved(original, live, i, j, m, n);
    UnderCover(base, original, live, i, j, m, n);
  }

  lemma UnderCover(base: Word, original: Code, live: seq<Standing>, i: nat, j: nat, m: nat, n: nat)
    requires Shaped(base, live) && i < j < |live| && m < HOOK_WORDS && n < HOOK_WORDS
    requires live[j].fn + 4 * n == live[i].fn + 4 * m
    requires forall k :: i < k < j ==> !Touches(live[k].fn, HOOK_WORDS, live[i].fn + 4 * m)
    requires AllSaved(original, live) && AllSaved(original, Without(live, i))
    ensures live[j].saved[n] == live[i].saved[m]
  {
    var x := live[i].fn + 4 * m;
    CoverWithout(base, original, live, i, j, n);
    WithoutTop(original, live, i, j, x);
    ShownSaved(base, original, live, i, m, x);
  }

  /** Jump `j` saved what the jumps before it show without jump `i`. */
  lemma CoverWithout(base: Word, original: Code, live: seq<Standing>, i: nat, j: nat, n: nat)
    requires Shaped(base, live) && i < j < |live| && n < HOOK_WORDS && AllSaved(original, Without(live, i))
    ensures Fetch(Overlay(original, Without(live[..j], i)), live[j].fn + 4 * n) == live[j].saved[n]
  {
    assert SavedAt(original, Without(live, i), j - 1);
    WithoutAt(live, i, j);
    WordOfCode(Overlay(original, Without(live[..j], i)), live[j].fn, live[j].saved, n);
  }

  /** Without jump `i`, the jumps before `j` show what was under it. */
  lemma WithoutTop(original: Code, live: seq<Standing>, i: nat, j: nat, x: int)
    requires i < j <= |live| && Touches(live[i].fn, HOOK_WORDS, x)
    requires forall k :: 0 <= k < |live| ==> |live[k].words| == HOOK_WORDS
    requires forall k :: i < k < j ==> !Touches(live[k].fn, HOOK_WORDS, x)
    ensures Fetch(Overlay(original, Without(live[..j], i)), x) == Fetch(Overlay(original, live[..i]), x)
  {
    assert !TouchedLater(live[..j], i, x);
    OverlayWithout(original, live[..j], i, x);
    assert live[..j][..i] == live[..i];
  }

  lemma WithoutAt(live: seq<Standing>, i: nat, j: nat)
    requires i < j < |live|
    ensures Without(live, i)[j - 1] == live[j] && Without(live, i)[..j - 1] == Without(live[..j], i)
    ensures live[..j][..i] == live[..i] && live[..j][i] == live[i]
  {
  }

  lemma SavedWithout(base: Word, original: Code, live: seq<Standing>, i: nat, j: nat)
    requires Shaped(base, live) && i < |live| && j < |live| - 1 && AllSaved(original, live) && SavedAgrees(live, i)
    ensures SavedAt(original, Without(live, i), j)
  {
    if j < i {
      assert SavedAt(original, live, j);
      assert Without(live, i)[..j] == live[..j];
    } else {
      WithoutAt(live, i, j + 1);
      SavedStays(base, original, live, i, j + 1);
    }
  }

  lemma SavedReleasedExactly(base: Word, original: Code, live: seq<Standing>, i: nat)
    requires Shaped(base, live) && i < |live| && AllSaved(original, live)
    ensures AllSaved(original, Without(live, i)) <==> SavedAgrees(live, i)
  {
    if SavedAgrees(live, i) {
      forall j | 0 <= j < |live| - 1
        ensures SavedAt(original, Without(live, i), j)
      {
        SavedWithout(base, original, live, i, j);
      }
    }
    if AllSaved(original, Without(live, i)) {
      forall m | 0 <= m < HOOK_WORDS && TouchedLater(live, i, live[i].fn + 4 * m)
        ensures live[i].words[m] == live[i].saved[m]
      {
        SavedWordForced(base, original, live, i, m);
      }
    }
  }

  function ReleasedWorld(w: World, live: seq<Standing>, i: nat): World
    requires i < |live| && live[i].id in w.detours
  {
    World(ReleasedMemory(w.mem, live, i), w.used,
          w.detours[live[i].id := w.detours[live[i].id].(address := 0, length := 0)])
  }

  /** A release keeps the invariant if and only if it is seamless. */
  lemma StandingReleased(base: Word, original: Code, w: World, live: seq<Standing>, i: nat)
    requires Inv(base, original, w, live) && i < |live| && live[i].id != ORPHAN
    ensures live[i].id in w.detours
    ensures Inv(base, original, ReleasedWorld(w, live, i), Without(live, i)) <==>
            MemoryAgrees(w.mem, live, i) && SavedAgrees(live, i)
  {
    assert OwnedBy(live[i], w.detours);
    assert SavedAt(original, live, i);
    MemoryReleasedExactly(base, original, w.mem, live, i);
    SavedReleasedExactly(base, original, live, i);
    OwnershipReleased(w.detours, live, i);
  }

  lemma OwnershipReleased(detours: map<int, Record>, live: seq<Standing>, i: nat)
    requires Ownership(detours, live) && i < |live| && live[i].id != ORPHAN
    ensures live[i].id in detours
    ensures Ownership(detours[live[i].id := detours[live[i].id].(address := 0, length := 0)], Without(live, i))
  {
    assert OwnedBy(live[i], detours);
    var less := Without(live, i);
    var detours' := detours[live[i].id := detours[live[i].id].(address := 0, length := 0)];
    forall k | 0 <= k < |less| && less[k].id != ORPHAN
      ensures OwnedBy(less[k], detours')
    {
      var k' := if k < i then k else k + 1;
      assert less[k] == live[k'] && OwnedBy(live[k'], detours);
      assert Apart(live, if k < i then k else i, if k < i then i else k');
    }
    forall j, k | 0 <= j < k < |less|
      ensures Apart(less, j, k)
    {
      assert Apart(live, if j < i then j else j + 1, if k < i then k else k + 1);
    }
    forall id | id in detours' && IsLive(detours'[id])
      ensures id >= 0 && Has(less, id)
    {
      var k :| 0 <= k < |live| && live[k].id == id;
      assert less[if k < i then k else k - 1].id == id;
    }
  }

  /** Unhooking keeps the invariant if and only if it is a good operation. */
  lemma ReleasedExactly(base: Word, original: Code, w: World, live: seq<Standing>, id: nat)
    requires Inv(base, original, w, live)
    ensures Inv(base, original, Apply(base, w, UnHookOp(id)), ApplyLive(w, live, UnHookOp(id))) <==>
            GoodOp(base, w, live, UnHookOp(id))
  {
    IndexOfPresent(live, id);
    var i := IndexOf(live, id);
    if i < |live| {
      assert OwnedBy(live[i], w.detours);
      StandingReleased(base, original, w, live, i);
    }
  }

  // ----- Whole runs -----

  function Run(base: Word, w: World, live: seq<Standing>, ops: seq<Op>): (World, seq<Standing>)
    decreases |ops|
  {
    if ops == [] then (w, live)
    else Run(base, Apply(base, w, ops[0]), ApplyLive(w, live, ops[0]), ops[1..])
  }

  ghost predicate GoodRun(base: Word, w: World, live: seq<Standing>, ops: seq<Op>)
    decreases |ops|
  {
    ops != [] ==>
      && GoodOp(base, w, live, ops[0])
      && GoodRun(base, Apply(base, w, ops[0]), ApplyLive(w, live, ops[0]), ops[1..])
  }

  lemma ApplyKeepsInv(base: Word, original: Code, w: World, live: seq<Standing>, op: Op)
    requires Inv(base, original, w, live) && GoodOp(base, w, live, op)
    ensures Inv(base, original, Apply(base, w, op), ApplyLive(w, live, op))
  {
    match op
    case HookOp(id, fn, callback, toc) => HookKeepsInv(base, original, w, live, id, fn, callback, toc);
    case UnHookOp(id) => ReleasedExactly(base, original, w, live, id);
  }

  lemma {:induction false} RunKeepsInv(base: Word, original: Code, w: World, live: seq<Standing>, ops: seq<Op>)
    requires Inv(base, original, w, live) && GoodRun(base, w, live, ops)
    ensures var (w', live') := Run(base, w, live, ops); Inv(base, original, w', live')
    decreases |ops|
  {
    if ops != [] {
      ApplyKeepsInv(base, original, w, live, ops[0]);
      RunKeepsInv(base, original, Apply(base, w, ops[0]), ApplyLive(w, live, ops[0]), ops[1..]);
    }
  }

  /** From a process with no detours, after any run: outside the buffer, memory is the original
      overlaid with the jumps of the hooks still standing, each of which knows the words under
      it; with none standing, memory is the original. */
  lemma MemoryAfterRun(base: Word, original: Code, ops: seq<Op>)
    requires 0 < base && base % 4 == 0
    requires GoodRun(base, World(original, 0, map[]), [], ops)
    ensures var (w, live) := Run(base, World(original, 0, map[]), [], ops);
            && Inv(base, original, w, live)
            && (live == [] ==> forall x :: x % 4 == 0 && !InBuffer(base, x) ==> Fetch(w.mem, x) == Fetch(original, x))
  {
    RunKeepsInv(base, original, World(original, 0, map[]), [], ops);
  }

  // ----- Trampolines stay -----

  /** The used part of the buffer only grows, and what is in it never changes. */
  ghost predicate Keeps(base: Word, w: World, w': World) {
    w.used <= w'.used && forall x :: base <= x < base + w.used ==> Fetch(w'.mem, x) == Fetch(w.mem, x)
  }

  lemma ApplyKeepsBuffer(base: Word, original: Code, w: World, live: seq<Standing>, op: Op)
    requires Inv(base, original, w, live) && GoodOp(base, w, live, op)
    ensures Keeps(base, w, Apply(base, w, op))
  {
    match op
    case HookOp(id, fn, callback, toc) => HookStep(base, w, id, fn, callback, toc);
    case UnHookOp(id) =>
      if id in w.detours && IsLive(w.detours[id]) {
        var r := w.detours[id];
        var i :| 0 <= i < |live| && live[i].id == id;
        assert OwnedBy(live[i], w.detours);
        WriteFrame(w.mem, r.address, r.saved);
      }
  }

  lemma {:induction false} RunKeepsBuffer(base: Word, original: Code, w: World, live: seq<Standing>, ops: seq<Op>)
    requires Inv(base, original, w, live) && GoodRun(base, w, live, ops)
    ensures Keeps(base, w, Run(base, w, live, ops).0)
    decreases |ops|
  {
    if ops != [] {
      ApplyKeepsInv(base, original, w, live, ops[0]);
      ApplyKeepsBuffer(base, original, w, live, ops[0]);
      RunKeepsBuffer(base, original, Apply(base, w, ops[0]), ApplyLive(w, live, ops[0]), ops[1..]);
    }
  }

  /** A hook's trampoline takes the next 40 to 120 bytes of the buffer, right after the
      trampolines before it, and still stands there after any further run. */
  lemma TrampolineStays(base: Word, original: Code, w: World, live: seq<Standing>,
                        id: nat, fn: Word, callback: Word, toc: Word, ops: seq<Op>)
    requires Inv(base, original, w, live)
    requires GoodRun(base, w, live, [HookOp(id, fn, callback, toc)] + ops)
    ensures var site := SiteOf(w.mem, base + w.used, fn);
            var hooked := Apply(base, w, HookOp(id, fn, callback, toc));
            var later := Run(base, w, live, [HookOp(id, fn, callback, toc)] + ops).0;
            && w.used + 40 <= hooked.used == w.used + SiteBytes(site) <= w.used + 120 && hooked.used % 4 == 0
            && hooked.used <= later.used <= BUFFER_BYTES
            && IsTrampoline(later.mem, site)
  {
    var op := HookOp(id, fn, callback, toc);
    var hooked, live' := Apply(base, w, op), ApplyLive(w, live, op);
    assert ([op] + ops)[1..] == ops;
    ApplyKeepsInv(base, original, w, live, op);
    HookStep(base, w, id, fn, callback, toc);
    RunKeepsInv(base, original, hooked, live', ops);
    RunKeepsBuffer(base, original, hooked, live', ops);
    SiteStays(hooked.mem, Run(base, hooked, live', ops).0.mem, SiteOf(w.mem, base + w.used, fn));
  }

  lemma LaterTrampoline(base: Word, original: Code, w: World, live: seq<Standing>,
                        id: nat, fn: Word, callback: Word, toc: Word, ops: seq<Op>)
    requires Inv(base, original, w, live)
    requires GoodRun(base, w, live, [HookOp(id, fn, callback, toc)] + ops)
    ensures IsTrampoline(Run(base, w, live, [HookOp(id, fn, callback, toc)] + ops).0.mem,
                        SiteOf(w.mem, base + w.used, fn))
  {
    TrampolineStays(base, original, w, live, id, fn, callback, toc, ops);
  }

  lemma SiteStays(mem: Code, mem': Code, site: Site)
    requires site.Count() == HOOK_WORDS && IsTrampoline(mem, site)
    requires forall x :: site.base <= x < site.base + SiteBytes(site) ==> Fetch(mem', x) == Fetch(mem, x)
    ensures IsTrampoline(mem', site)
  {
    OffsetMonotone(site.words, 0, HOOK_WORDS);
    TrampolineFrame(mem, mem', site, HOOK_WORDS);
    CodeAtFrame(mem, mem', site.Relocated(HOOK_WORDS), ReturnWords(site.Original(HOOK_WORDS)));
  }

  // ----- Capacity -----

  function HookCount(ops: seq<Op>): (n: nat)
    ensures n <= |ops|
  {
    if ops == [] then 0 else (if ops[0].HookOp? then 1 else 0) + HookCount(ops[1..])
  }

  /** GoodRun without its capacity hypothesis. */
  ghost predicate OrderlyRun(base: Word, w: World, live: seq<Standing>, ops: seq<Op>)
    decreases |ops|
  {
    ops != [] ==>
      && (if ops[0].HookOp? then Aligned(base, ops[0].fn) else GoodOp(base, w, live, ops[0]))
      && OrderlyRun(base, Apply(base, w, ops[0]), ApplyLive(w, live, ops[0]), ops[1..])
  }

  /** The relative branches among the first `k` words. */
  function Branches(words: seq<Word>, k: nat): (n: nat)
    requires k <= |words|
    ensures n <= k
    decreases k, words
  {
    if k == 0 then 0 else Branches(words, k - 1) + if Decode(words[k - 1]).IsRelative() then 1 else 0
  }

  lemma {:induction false} OffsetCounts(words: seq<Word>, k: nat)
    requires k <= |words|
    ensures Offset(words, k) == 4 * k + 20 * Branches(words, k)
    decreases k
  {
    if k > 0 {
      OffsetCounts(words, k - 1);
    }
  }

  /** The branches that a hook on `fn` displaces. */
  function BranchesAt(mem: Code, fn: Word): nat {
    Branches(ReadWords(mem, fn, HOOK_WORDS), HOOK_WORDS)
  }

  /** A trampoline takes 40 bytes, and 20 more for each relative branch it displaces. */
  lemma TrampolineSize(mem: Code, start: int, fn: Word)
    ensures SiteBytes(SiteOf(mem, start, fn)) == 40 + 20 * BranchesAt(mem, fn)
  {
    OffsetCounts(SiteOf(mem, start, fn).words, HOOK_WORDS);
  }

  /** The branches that the hooks of a run displace, each as it finds its function. */
  function Displaced(base: Word, w: World, ops: seq<Op>): (n: nat)
    decreases |ops|
  {
    if ops == [] then 0
    else (if ops[0].HookOp? then BranchesAt(w.mem, ops[0].fn) else 0)
         + Displaced(base, Apply(base, w, ops[0]), ops[1..])
  }

  /** The bytes that the hooks of a run need. */
  function BytesNeeded(base: Word, w: World, ops: seq<Op>): nat {
    40 * HookCount(ops) + 20 * Displaced(base, w, ops)
  }

  /** What the first operation needs, and what the others do. */
  function OwnBytes(w: World, op: Op): (n: nat) {
    if op.HookOp? then 40 + 20 * BranchesAt(w.mem, op.fn) else 0
  }

  lemma BytesOfFirst(base: Word, w: World, ops: seq<Op>)
    requires ops != []
    ensures BytesNeeded(base, w, ops) == OwnBytes(w, ops[0]) + BytesNeeded(base, Apply(base, w, ops[0]), ops[1..])
  {
  }

  lemma FitsExactly(base: Word, original: Code, w: World, live: seq<Standing>, op: Op)
    requires Inv(base, original, w, live)
    requires if op.HookOp? then Aligned(base, op.fn) else GoodOp(base, w, live, op)
    ensures GoodOp(base, w, live, op) <==> w.used + OwnBytes(w, op) <= BUFFER_BYTES
    ensures GoodOp(base, w, live, op) ==> Apply(base, w, op).used == w.used + OwnBytes(w, op)
  {
    if op.HookOp? {
      TrampolineSize(w.mem, base + w.used, op.fn);
      if GoodOp(base, w, live, op) {
        HookStep(base, w, op.id, op.fn, op.callback, op.toc);
      }
    }
  }

  /** Hook does not check the buffer: an orderly run stays inside its 2048 bytes if and only if
      40 bytes for each hook and 20 for each displaced relative branch do. */
  lemma {:induction false} CapacityExactly(base: Word, original: Code, w: World, live: seq<Standing>, ops: seq<Op>)
    requires Inv(base, original, w, live) && OrderlyRun(base, w, live, ops)
    ensures GoodRun(base, w, live, ops) <==> w.used + BytesNeeded(base, w, ops) <= BUFFER_BYTES
    ensures GoodRun(base, w, live, ops) ==> Run(base, w, live, ops).0.used == w.used + BytesNeeded(base, w, ops)
    decreases |ops|
  {
    if ops != [] {
      var op := ops[0];
      FitsExactly(base, original, w, live, op);
      BytesOfFirst(base, w, ops);
      if GoodOp(base, w, live, op) {
        ApplyKeepsInv(base, original, w, live, op);
        CapacityExactly(base, original, Apply(base, w, op), ApplyLive(w, live, op), ops[1..]);
      }
    }
  }

  lemma {:induction false} AtMostFour(base: Word, w: World, ops: seq<Op>)
    ensures Displaced(base, w, ops) <= 4 * HookCount(ops)
    decreases |ops|
  {
    if ops != [] {
      AtMostFour(base, Apply(base, w, ops[0]), ops[1..]);
    }
  }

  /** So with at most 17 hooks it never has to. */
  lemma SeventeenHooksFit(base: Word, original: Code, w: World, live: seq<Standing>, ops: seq<Op>)
    requires Inv(base, original, w, live) && OrderlyRun(base, w, live, ops)
    requires w.used + 120 * HookCount(ops) <= 17 * 120
    ensures GoodRun(base, w, live, ops)
    ensures Run(base, w, live, ops).0.used <= w.used + 120 * HookCount(ops)
  {
    AtMostFour(base, w, ops);
    CapacityExactly(base, original, w, live, ops);
  }

  lemma {:induction false} AllOfThem(words: seq<Word>, k: nat)
    requires k <= |words|
    ensures Branches(words, k) == k <==> forall j :: 0 <= j < k ==> Decode(words[j]).IsRelative()
    decreases k
  {
    if k > 0 {
      AllOfThem(words, k - 1);
    }
  }

  /** Four displaced relative branches take the whole 120 bytes. */
  lemma FullSizeHook(mem: Code, start: int, fn: Word)
    ensures var site := SiteOf(mem, start, fn);
            SiteBytes(site) == 120 <==> forall k :: 0 <= k < HOOK_WORDS ==> Decode(site.words[k]).IsRelative()
    ensures 17 * 120 <= BUFFER_BYTES == 2048 < 18 * 120
  {
    TrampolineSize(mem, start, fn);
    AllOfThem(SiteOf(mem, start, fn).words, HOOK_WORDS);
  }

  /** `b .+4` */
  const BRANCH: Word := 0x4800_0004

  /** `n` functions in a row from `fn`, all made of that branch. */
  ghost predicate AllBranches(mem: Code, fn: int, n: nat) {
    forall x :: fn <= x < fn + 16 * n && x % 4 == 0 ==> Fetch(mem, x) == BRANCH
  }

  function RowOfHooks(fn: int, callback: Word, n: nat, id: nat): (ops: seq<Op>)
    requires 0 <= fn && fn + 16 * n < WORD_SPAN
    ensures |ops| == n
    decreases n, id
  {
    if n == 0 then [] else [HookOp(id, fn, callback, 0)] + RowOfHooks(fn + 16, callback, n - 1, id + 1)
  }

  lemma BranchesFill(mem: Code, start: int, fn: Word, n: nat)
    requires fn % 4 == 0 && n > 0 && AllBranches(mem, fn, n)
    ensures SiteBytes(SiteOf(mem, start, fn)) == 120
  {
    var site := SiteOf(mem, start, fn);
    assert Decode(BRANCH) == B(4, false, false);
    forall k | 0 <= k < HOOK_WORDS
      ensures Decode(site.words[k]).IsRelative()
    {
      assert (fn + 4 * k) % 4 == 0 && site.words[k] == BRANCH;
    }
    FullSizeHook(mem, start, fn);
  }

  lemma BranchTakesAll(base: Word, w: World, id: nat, fn: Word, callback: Word, n: nat) returns (w': World)
    requires 0 < base && base % 4 == 0 && 0 <= w.used && w.used % 4 == 0 && 0 < fn && fn % 4 == 0 && n > 0
    requires fn + 16 * n <= base < 0x8000_0000 && AllBranches(w.mem, fn, n)
    ensures w' == Apply(base, w, HookOp(id, fn, callback, 0))
    ensures w'.used == w.used + 120 && AllBranches(w'.mem, fn + 16, n - 1)
  {
    BranchesFill(w.mem, base + w.used, fn, n);
    HookFacts(w.mem, base + w.used, fn, callback, 0);
    w' := Apply(base, w, HookOp(id, fn, callback, 0));
    forall x | fn + 16 <= x < fn + 16 * n && x % 4 == 0
      ensures Fetch(w'.mem, x) == BRANCH
    {
      assert Fetch(w'.mem, x) == Fetch(w.mem, x);
    }
  }

  /** Each of `n` hooks in a row takes the whole 120 bytes. */
  ghost predicate TakeAll(base: Word, w: World, fn: int, callback: Word, n: nat, id: nat)
    requires 0 <= fn && fn + 16 * n < WORD_SPAN
    decreases n, id
  {
    n > 0 ==> exists w' :: Takes(base, w, w', fn, callback, id) && TakeAll(base, w', fn + 16, callback, n - 1, id + 1)
  }

  /** One hook does. */
  ghost predicate Takes(base: Word, w: World, w': World, fn: Word, callback: Word, id: nat) {
    w' == Apply(base, w, HookOp(id, fn, callback, 0)) && w'.used == w.used + 120
  }

  lemma BranchTakesOne(base: Word, w: World, id: nat, fn: Word, callback: Word, n: nat) returns (w': World)
    requires 0 < base && base % 4 == 0 && 0 <= w.used && w.used % 4 == 0 && 0 < fn && fn % 4 == 0 && n > 0
    requires fn + 16 * n <= base < 0x8000_0000 && AllBranches(w.mem, fn, n)
    ensures w'.used == w.used + 120 && AllBranches(w'.mem, fn + 16, n - 1)
    ensures TakeAll(base, w', fn + 16, callback, n - 1, id + 1) ==> TakeAll(base, w, fn, callback, n, id)
  {
    w' := BranchTakesAll(base, w, id, fn, callback, n);
    assert Takes(base, w, w', fn, callback, id);
  }

  lemma {:induction false} BranchesTakeAll(base: Word, w: World, fn: Word, callback: Word, n: nat, id: nat)
    requires 0 < base && base % 4 == 0 && 0 <= w.used && w.used % 4 == 0 && 0 < fn && fn % 4 == 0
    requires fn + 16 * n <= base < 0x8000_0000 && AllBranches(w.mem, fn, n)
    ensures TakeAll(base, w, fn, callback, n, id)
    decreases n, id
  {
    if n > 0 {
      var w' := BranchTakesOne(base, w, id, fn, callback, n);
      BranchesTakeAll(base, w', fn + 16, callback, n - 1, id + 1);
    }
  }

  lemma RowCons(base: Word, w: World, w': World, live: seq<Standing>, fn: int, callback: Word, n: nat, id: nat)
    requires n > 0 && 0 <= fn && fn + 16 * n < WORD_SPAN && w' == Apply(base, w, HookOp(id, fn, callback, 0))
    ensures Run(base, w, live, RowOfHooks(fn, callback, n, id))
         == Run(base, w', ApplyLive(w, live, HookOp(id, fn, callback, 0)), RowOfHooks(fn + 16, callback, n - 1, id + 1))
  {
    var ops := RowOfHooks(fn, callback, n, id);
    assert ops[0] == HookOp(id, fn, callback, 0) && ops[1..] == RowOfHooks(fn + 16, callback, n - 1, id + 1);
  }

  lemma {:induction false} RowTakesAll(base: Word, w: World, live: seq<Standing>, fn: int, callback: Word, n: nat,
                                       id: nat)
    requires 0 <= fn && fn + 16 * n < WORD_SPAN && TakeAll(base, w, fn, callback, n, id)
    ensures Run(base, w, live, RowOfHooks(fn, callback, n, id)).0.used == w.used + 120 * n
    decreases n, id
  {
    if n > 0 {
      var w' :| Takes(base, w, w', fn, callback, id) && TakeAll(base, w', fn + 16, callback, n - 1, id + 1);
      RowCons(base, w, w', live, fn, callback, n, id);
      RowTakesAll(base, w', ApplyLive(w, live, HookOp(id, fn, callback, 0)), fn + 16, callback, n - 1, id + 1);
    }
  }

  /** Memory that holds `n` such functions from `fn` on and nothing else. */
  function BranchMemory(fn: int, n: nat): Code {
    WriteWords(map[], fn, seq(HOOK_WORDS * n, _ => BRANCH))
  }

  lemma BranchMemoryBranches(fn: int, n: nat)
    requires fn % 4 == 0
    ensures AllBranches(BranchMemory(fn, n), fn, n)
  {
    var words := seq(HOOK_WORDS * n, _ => BRANCH);
    forall x | fn <= x < fn + 16 * n && x % 4 == 0
      ensures Fetch(BranchMemory(fn, n), x) == BRANCH
    {
      FetchWritten(map[], fn, words, x);
    }
  }

  /** Eighteen hooks on such functions need more than the buffer has. */
  lemma EighteenHooksOverflow(base: Word, fn: Word, callback: Word, n: nat)
    requires 0 < base && base % 4 == 0 && 0 < fn && fn % 4 == 0 && n == 18 && fn + 16 * n <= base < 0x8000_0000
    ensures Run(base, World(BranchMemory(fn, n), 0, map[]), [], RowOfHooks(fn, callback, n, 0)).0.used
         == 2160 > BUFFER_BYTES
  {
    var w := World(BranchMemory(fn, n), 0, map[]);
    BranchMemoryBranches(fn, n);
    BranchesTakeAll(base, w, fn, callback, n, 0);
    RowTakesAll(base, w, [], fn, callback, n, 0);
  }

  // ----- Release order matters -----

  /** Two hooks on one function, not yet released. */
  lemma HookedTwice(base: Word, original: Code, fn: Word, first: Word, second: Word)
    returns (w: World, live: seq<Standing>)
    requires 0 < base && base % 4 == 0 && Aligned(base, fn)
    ensures var w0 := World(original, 0, map[]);
            var a, b := HookOp(0, fn, first, 0), HookOp(1, fn, second, 0);
            var w1, live1 := Apply(base, w0, a), ApplyLive(w0, [], a);
            w == Apply(base, w1, b) && live == ApplyLive(w1, live1, b)
    ensures Inv(base, original, w, live) && |live| == 2 && live[0].id == 0 && live[1].id == 1 &&
            live[0].fn == live[1].fn == fn
    ensures live[1].saved == HookWords(Fetch(original, first))
  {
    var w0 := World(original, 0, map[]);
    var a, b := HookOp(0, fn, first, 0), HookOp(1, fn, second, 0);
    HookFits(base, w0, fn);
    HookStep(base, w0, 0, fn, first, 0);
    ApplyKeepsInv(base, original, w0, [], a);
    var w1, live1 := Apply(base, w0, a), ApplyLive(w0, [], a);
    HookFits(base, w1, fn);
    ApplyKeepsInv(base, original, w1, live1, b);
    SameWords(w1.mem, fn, HookWords(Fetch(original, first)));
    w, live := Apply(base, w1, b), ApplyLive(w1, live1, b);
  }

  lemma ReleaseInOrder(base: Word, original: Code, w: World, live: seq<Standing>, fn: Word)
    requires Inv(base, original, w, live) && |live| == 2 && live[0].id == 0 && live[1].id == 1 &&
             live[0].fn == live[1].fn == fn
    ensures var w', live' := Apply(base, w, UnHookOp(0)), ApplyLive(w, live, UnHookOp(0));
            && ApplyLive(w', live', UnHookOp(1)) == []
            && Apply(base, w', UnHookOp(1)).mem == WriteWords(WriteWords(w.mem, fn, live[0].saved), fn, live[1].saved)
  {
    assert OwnedBy(live[0], w.detours) && OwnedBy(live[1], w.detours);
    var w', live' := Apply(base, w, UnHookOp(0)), ApplyLive(w, live, UnHookOp(0));
    assert live' == [live[1]];
  }

  /** Away from the only function hooked, memory stays the original. */
  lemma OnlyWindowDiffers(base: Word, original: Code, w: World, live: seq<Standing>, fn: Word, x: int)
    requires Inv(base, original, w, live) && |live| == 2 && live[0].fn == live[1].fn == fn
    requires x % 4 == 0 && !InBuffer(base, x) && !Touches(fn, HOOK_WORDS, x)
    ensures Fetch(WriteWords(WriteWords(w.mem, fn, live[0].saved), fn, live[1].saved), x) == Fetch(original, x)
  {
    FetchWritten(WriteWords(w.mem, fn, live[0].saved), fn, live[1].saved, x);
    FetchWritten(w.mem, fn, live[0].saved, x);
    OverlayAt(original, live, x);
    OverlayAt(original, live[..1], x);
    assert live[..1][..0] == [];
  }

  /** Two hooks on one function released first-in first-out: no hook is left, yet the jump of
      the first stands over the function; so memory is restored if and only if the function
      already consisted of that jump. */
  lemma FirstInFirstOutExactly(base: Word, original: Code, fn: Word, first: Word, second: Word)
    requires 0 < base && base % 4 == 0 && Aligned(base, fn)
    ensures var (w, live) := Run(base, World(original, 0, map[]), [],
                                 [HookOp(0, fn, first, 0), HookOp(1, fn, second, 0), UnHookOp(0), UnHookOp(1)]);
            var jump := HookWords(Fetch(original, first));
            live == [] && CodeAt(w.mem, fn, jump) &&
              (MemoryIsOverlay(base, original, w.mem, live) <==> CodeAt(original, fn, jump))
  {
    var w, live := HookedTwice(base, original, fn, first, second);
    ReleaseInOrder(base, original, w, live, fn);
    RunFour(base, World(original, 0, map[]), [], HookOp(0, fn, first, 0), HookOp(1, fn, second, 0), UnHookOp(0),
            UnHookOp(1));
    var mem := WriteWords(WriteWords(w.mem, fn, live[0].saved), fn, live[1].saved);
    CodeAtWritten(WriteWords(w.mem, fn, live[0].saved), fn, live[1].saved);
    RestoredExactly(base, original, w, live, fn, mem);
  }

  lemma RestoredExactly(base: Word, original: Code, w: World, live: seq<Standing>, fn: Word, mem: Code)
    requires Inv(base, original, w, live) && |live| == 2 && live[0].fn == live[1].fn == fn
    requires mem == WriteWords(WriteWords(w.mem, fn, live[0].saved), fn, live[1].saved) &&
             CodeAt(mem, fn, live[1].saved)
    ensures MemoryIsOverlay(base, original, mem, []) <==> CodeAt(original, fn, live[1].saved)
  {
    if MemoryIsOverlay(base, original, mem, []) {
      forall m | 0 <= m < HOOK_WORDS
        ensures Fetch(original, fn + 4 * m) == live[1].saved[m]
      {
        WindowOutside(base, fn, m);
        WordOfCode(mem, fn, live[1].saved, m);
      }
    }
    if CodeAt(original, fn, live[1].saved) {
      forall x | x % 4 == 0 && !InBuffer(base, x)
        ensures Fetch(mem, x) == Fetch(original, x)
      {
        if Touches(fn, HOOK_WORDS, x) {
          var m := WordOfWindow(fn, x);
          WordOfCode(mem, fn, live[1].saved, m);
          WordOfCode(original, fn, live[1].saved, m);
        } else {
          OnlyWindowDiffers(base, original, w, live, fn, x);
        }
      }
    }
  }

  /** A function that starts with `ori r0,r0,0` is not restored. */
  lemma FirstInFirstOutFails(base: Word, fn: Word, first: Word, second: Word)
    requires 0 < base && base % 4 == 0 && Aligned(base, fn)
    ensures var original: Code := map[fn := 0x6000_0000];
            var (w, live) := Run(base, World(original, 0, map[]), [],
                                 [HookOp(0, fn, first, 0), HookOp(1, fn, second, 0), UnHookOp(0), UnHookOp(1)]);
            live == [] && !MemoryIsOverlay(base, original, w.mem, live)
  {
    var original: Code := map[fn := 0x6000_0000];
    var jump := HookWords(Fetch(original, first));
    FirstInFirstOutExactly(base, original, fn, first, second);
    assert Fetch(original, fn + 4 * 0) != jump[0];
  }

  lemma HookFits(base: Word, w: World, fn: Word)
    requires 0 <= w.used <= 120
    ensures w.used + SiteBytes(SiteOf(w.mem, base + w.used, fn)) <= BUFFER_BYTES
  {
    OffsetMonotone(SiteOf(w.mem, base + w.used, fn).words, 0, HOOK_WORDS);
  }

  lemma RunFour(base: Word, w: World, live: seq<Standing>, a: Op, b: Op, c: Op, d: Op)
    ensures var w1, live1 := Apply(base, w, a), ApplyLive(w, live, a);
            var w2, live2 := Apply(base, w1, b), ApplyLive(w1, live1, b);
            var w3, live3 := Apply(base, w2, c), ApplyLive(w2, live2, c);
            Run(base, w, live, [a, b, c, d]) == (Apply(base, w3, d), ApplyLive(w3, live3, d))
  {
    var w1, live1 := Apply(base, w, a), ApplyLive(w, live, a);
    var w2, live2 := Apply(base, w1, b), ApplyLive(w1, live1, b);
    var w3, live3 := Apply(base, w2, c), ApplyLive(w2, live2, c);
    assert [a, b, c, d][1..] == [b, c, d];
    assert [b, c, d][1..] == [c, d];
    assert [c, d][1..] == [d];
    assert Run(base, w3, live3, [d]) == (Apply(base, w3, d), ApplyLive(w3, live3, d));
    assert Run(base, w2, live2, [c, d]) == Run(base, w3, live3, [d]);
    assert Run(base, w1, live1, [b, c, d]) == Run(base, w2, live2, [c, d]);
  }

  // ----- Calling the original -----

  /** The trampoline of a hook, called at any time after any further run, does what the hooked
      function's words did before the hook: same exit, agreeing states. */
  lemma OriginalStillRuns(other: Semantics, base: Word, original: Code, w: World, live: seq<Standing>,
                          id: nat, fn: Word, callback: Word, toc: Word, ops: seq<Op>, site: Site,
                          dirty: set<int>, taint: Taint, s: Cpu, t: Cpu, k: nat)
    requires Inv(base, original, w, live) && GoodRun(base, w, live, [HookOp(id, fn, callback, toc)] + ops)
    requires site == SiteOf(w.mem, base + w.used, fn) && k <= site.Count() && site.Valid()
    requires Agree(site, dirty, taint, s, t) && Safe(other, site, dirty, taint, s, k)
    ensures var later := Run(base, w, live, [HookOp(id, fn, callback, toc)] + ops).0;
            Simulates(other, w.mem, later.mem, site, dirty, taint, s, t, k)
  {
    LaterTrampoline(base, original, w, live, id, fn, callback, toc, ops);
    SiteWords(w.mem, base + w.used, fn);
    TrampolineSimulates(other, w.mem, Run(base, w, live, [HookOp(id, fn, callback, toc)] + ops).0.mem, site, dirty,
                        taint, s, t, k);
  }

  lemma SiteWords(mem: Code, start: int, fn: Word)
    ensures CodeAt(mem, fn, SiteOf(mem, start, fn).words)
  {
  }

  // ----- Chains -----

  /** The words of a hook are not branches to rewrite. */
  lemma HookWordsAreVerbatim(target: Word, source: int, k: nat)
    requires k < HOOK_WORDS
    ensures RelocatedWords(HookWords(target)[k], source) == [HookWords(target)[k]]
  {
    DecodeLis(0, target / 0x1_0000);
    DecodeOri(0, 0, target % 0x1_0000);
    DecodeMtctr(0);
    DecodeBcctr(ALWAYS, 0, false);
  }

  lemma VerbatimTrampoline(mem: Code, site: Site, target: Word)
    requires site.words == HookWords(target) && IsTrampoline(mem, site)
    ensures CodeAt(mem, site.base, HookWords(target))
  {
    forall k | 0 <= k < HOOK_WORDS
      ensures Fetch(mem, site.base + 4 * k) == HookWords(target)[k]
    {
      VerbatimOffset(site, target, k);
      HookWordsAreVerbatim(target, site.Original(k), k);
      assert PieceAt(mem, site, k);
      assert Fetch(mem, site.Relocated(k) + 4 * 0) == RelocatedWords(site.words[k], site.Original(k))[0];
    }
  }

  lemma {:induction false} VerbatimOffset(site: Site, target: Word, k: nat)
    requires site.words == HookWords(target) && k <= HOOK_WORDS
    ensures site.Relocated(k) == site.base + 4 * k
  {
    if k > 0 {
      VerbatimOffset(site, target, k - 1);
      HookWordsAreVerbatim(target, 0, k - 1);
    }
  }

  lemma SameWords(mem: Code, a: int, ws: seq<Word>)
    requires CodeAt(mem, a, ws)
    ensures ReadWords(mem, a, |ws|) == ws
  {
  }

  /** Calling the trampoline at `start` goes to `older`, with only r0 and CTR lost. */
  ghost predicate Link(other: Semantics, mem: Code, start: int, older: Word) {
    forall cpu: Cpu, n: nat :: 0 <= start && start + 16 < DWORD_SPAN ==>
      Steps(other, mem, Running(start, cpu), |HookWords(older)| + n)
      == Steps(other, mem, Running(FarAddress(older), AfterHookWords(cpu, older)), n)
  }

  lemma JumpLinks(other: Semantics, mem: Code, start: int, older: Word)
    requires CodeAt(mem, start, HookWords(older))
    ensures Link(other, mem, start, older)
  {
    forall cpu: Cpu, n: nat | 0 <= start && start + 16 < DWORD_SPAN
      ensures Steps(other, mem, Running(start, cpu), |HookWords(older)| + n)
           == Steps(other, mem, Running(FarAddress(older), AfterHookWords(cpu, older)), n)
    {
      HookWordsRun(other, mem, start, cpu, older, n);
    }
  }

  /** The trampoline of a hook on a function that carries a jump is that jump. */
  lemma TrampolineLinks(other: Semantics, mem: Code, fn: Word, older: Word, site: Site, later: Code)
    requires CodeAt(mem, fn, HookWords(older)) && site.words == ReadWords(mem, fn, HOOK_WORDS) &&
             IsTrampoline(later, site)
    ensures Link(other, later, site.base, older)
  {
    SameWords(mem, fn, HookWords(older));
    VerbatimTrampoline(later, site, older);
    JumpLinks(other, later, site.base, older);
  }

  /** Where the next trampoline starts. */
  function StartOf(base: Word, w: World): int {
    base + w.used
  }

  lemma LaterSite(base: Word, original: Code, w: World, live: seq<Standing>,
                  id: nat, fn: Word, callback: Word, toc: Word, ops: seq<Op>, later: Code) returns (site: Site)
    requires Inv(base, original, w, live) && GoodRun(base, w, live, [HookOp(id, fn, callback, toc)] + ops)
    requires later == Run(base, w, live, [HookOp(id, fn, callback, toc)] + ops).0.mem
    ensures site.base == StartOf(base, w) && site.words == ReadWords(w.mem, fn, HOOK_WORDS) && IsTrampoline(later, site)
  {
    site := SiteOf(w.mem, base + w.used, fn);
    LaterTrampoline(base, original, w, live, id, fn, callback, toc, ops);
  }

  /** Hooking a function that already carries a jump: after any further run, calling the new
      hook's original goes to the callback of the older one. */
  lemma ChainedOriginal(other: Semantics, base: Word, original: Code, w: World, live: seq<Standing>,
                        id: nat, fn: Word, callback: Word, toc: Word, ops: seq<Op>, older: Word, later: Code)
    requires Inv(base, original, w, live) && GoodRun(base, w, live, [HookOp(id, fn, callback, toc)] + ops)
    requires CodeAt(w.mem, fn, HookWords(older)) &&
             later == Run(base, w, live, [HookOp(id, fn, callback, toc)] + ops).0.mem
    ensures Link(other, later, StartOf(base, w), older)
  {
    var site := LaterSite(base, original, w, live, id, fn, callback, toc, ops, later);
    TrampolineLinks(other, w.mem, fn, older, site, later);
  }

  function ChainOps(fn: Word, callbacks: seq<Word>, id: nat): (ops: seq<Op>)
    ensures |ops| == |callbacks|
  {
    if callbacks == [] then [] else [HookOp(id, fn, callbacks[0], 0)] + ChainOps(fn, callbacks[1..], id + 1)
  }

  /** In memory `later`, each trampoline of a chain begun in world `w` goes to the callback
      hooked before it, the first to `older`. */
  ghost predicate ChainHolds(other: Semantics, base: Word, later: Code, w: World, fn: Word, callbacks: seq<Word>,
                             id: nat, older: Word)
    decreases |callbacks|
  {
    callbacks != [] ==>
      && Link(other, later, StartOf(base, w), older)
      && ChainHolds(other, base, later, Apply(base, w, HookOp(id, fn, callbacks[0], 0)), fn, callbacks[1..], id + 1,
                    Fetch(w.mem, callbacks[0]))
  }

  /** Hooking one function over and over: when the run is over, the original of each hook
      reaches the callback of the hook before it (the first reaches the displaced code, by
      OriginalStillRuns). */
  lemma {:induction false} Chain(other: Semantics, base: Word, original: Code, w: World, live: seq<Standing>,
                                 fn: Word, callbacks: seq<Word>, id: nat, older: Word)
    requires Inv(base, original, w, live) && GoodRun(base, w, live, ChainOps(fn, callbacks, id))
    requires CodeAt(w.mem, fn, HookWords(older))
    ensures ChainHolds(other, base, Run(base, w, live, ChainOps(fn, callbacks, id)).0.mem, w, fn, callbacks, id, older)
    decreases |callbacks|
  {
    if callbacks != [] {
      var ops := ChainOps(fn, callbacks, id);
      var op := HookOp(id, fn, callbacks[0], 0);
      assert ops[1..] == ChainOps(fn, callbacks[1..], id + 1) && ops == [op] + ops[1..];
      ChainedOriginal(other, base, original, w, live, id, fn, callbacks[0], 0, ops[1..], older,
                      Run(base, w, live, [op] + ops[1..]).0.mem);
      ApplyKeepsInv(base, original, w, live, op);
      HookStep(base, w, id, fn, callbacks[0], 0);
      Chain(other, base, original, Apply(base, w, op), ApplyLive(w, live, op), fn, callbacks[1..], id + 1,
            Fetch(w.mem, callbacks[0]));
    }
  }
}
