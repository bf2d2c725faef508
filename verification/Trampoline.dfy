/** A trampoline stands for the instructions a hook displaced: run from any state, it reaches
    the same exit with the same registers and memory, except for the scratch it really uses -
    CTR, eight bytes below the stack pointer, and link values that name the relocated return
    point instead of the original one.
  */
module Trampoline {
  import opened Words
  import opened PowerPC
  import opened Relocation

  /** `words` were displaced from `hook`; their relocated forms start at `base`. */
  datatype Site = Site(hook: int, base: int, words: seq<Word>) {
    function Count(): nat {
      |words|
    }

    function Original(k: nat): int {
      hook + 4 * k
    }

    /** Where the relocated form of instruction `k` starts; `Count()` gives the jump back. */
    function Relocated(k: nat): int
      requires k <= Count()
    {
      base + Offset(words, k)
    }

    ghost predicate Valid() {
      && 0 <= hook && hook % 4 == 0 && 0 <= base
      && Original(Count()) < 0x8000_0000
      && Relocated(Count()) + 24 < WORD_SPAN
    }

    predicate InWindow(pc: int) {
      hook <= pc < Original(Count())
    }
  }

  function Size(w: Word): (n: nat) {
    if Decode(w).IsRelative() then 24 else 4
  }

  function Offset(words: seq<Word>, k: nat): (n: nat)
    requires k <= |words|
    decreases k, words
  {
    if k == 0 then 0 else Offset(words, k - 1) + Size(words[k - 1])
  }

  lemma OffsetNext(words: seq<Word>, j: nat) returns (n: nat)
    requires j < |words|
    ensures Offset(words, j + 1) == Offset(words, j) + n && 4 <= n <= 24 && n % 4 == 0
  {
    n := Size(words[j]);
  }

  lemma {:induction false} OffsetMonotone(words: seq<Word>, j: nat, k: nat)
    requires j <= k <= |words|
    ensures Offset(words, j) + 4 * (k - j) <= Offset(words, k) <= Offset(words, j) + 24 * (k - j)
    ensures (Offset(words, k) - Offset(words, j)) % 4 == 0
    decreases k - j
  {
    if j < k {
      OffsetMonotone(words, j, k - 1);
      var n := OffsetNext(words, k - 1);
    }
  }

  /** The relocated form of instruction `k` stands in its place. */
  ghost predicate PieceAt(code: Code, site: Site, k: nat)
    requires k < site.Count()
  {
    CodeAt(code, site.Relocated(k), RelocatedWords(site.words[k], site.Original(k)))
  }

  ghost predicate JumpBackAt(code: Code, site: Site) {
    && 0 <= site.Original(site.Count()) < WORD_SPAN
    && CodeAt(code, site.Relocated(site.Count()), ReturnWords(site.Original(site.Count())))
  }

  /** The trampoline of `site` stands in memory. */
  ghost predicate IsTrampoline(code: Code, site: Site) {
    && (forall k :: 0 <= k < site.Count() ==> PieceAt(code, site, k))
    && JumpBackAt(code, site)
  }

  // ----- What may differ between the two runs -----

  /** Whether CTR, and whether LR, may already differ. */
  datatype Taint = Taint(ctr: bool, lr: bool)

  const CLEAN: Taint := Taint(false, false)

  function NextTaint(i: Instr, taint: Taint): Taint {
    if i.IsRelative() then Taint(true, taint.lr || i.lk)
    else if i.Links() then taint.(lr := true)
    else if i.Mtctr? then taint.(ctr := false)
    else taint
  }

  ghost predicate ReturnPair(site: Site, original: int, relocated: int) {
    exists k: nat :: k <= site.Count() && original == site.Original(k) && relocated == site.Relocated(k)
  }

  /** Equal registers and memory, outside the scratch. */
  ghost predicate Agree(site: Site, dirty: set<int>, taint: Taint, s: Cpu, t: Cpu) {
    && s.gpr == t.gpr && s.cr == t.cr && s.aux == t.aux
    && (taint.ctr || s.ctr == t.ctr)
    && (s.lr == t.lr || (taint.lr && ReturnPair(site, s.lr, t.lr)))
    && (forall a :: a !in dirty ==> Peek(s.data, a) == Peek(t.data, a))
  }

  /** The displaced instruction `i`, executed in state `s`, does not depend on the scratch. */
  ghost predicate Independent(other: Semantics, site: Site, dirty: set<int>, taint: Taint, i: Instr, s: Cpu)
    requires !i.IsBranch()
  {
    forall t: Cpu :: Agree(site, dirty, taint, s, t) ==>
      Agree(site, dirty, NextTaint(i, taint), Execute(other, i, s), Execute(other, i, t))
  }

  ghost predicate ScratchIn(dirty: set<int>, s: Cpu) {
    forall a :: ScratchAddress(s) <= a < ScratchAddress(s) + 8 ==> a in dirty
  }

  /** The hypotheses on one displaced instruction, `i` at `source`, in the state that reaches it. */
  ghost predicate Admissible(other: Semantics, site: Site, dirty: set<int>, taint: Taint, i: Instr, source: int,
                             s: Cpu) {
    match i
    case B(li, aa, _) =>
      aa || (source + li < 0x8000_0000 && ScratchIn(dirty, s))
    case Bc(bo, _, bd, aa, _) =>
      if aa then KeepsCtr(bo) || !taint.ctr
      else KeepsCtr(bo) && source + bd < 0x8000_0000 && ScratchIn(dirty, s)
    case Bclr(bo, _, _) => !taint.lr && (KeepsCtr(bo) || !taint.ctr)
    case Bcctr(bo, _, _) => !taint.ctr && KeepsCtr(bo)
    case _ => Independent(other, site, dirty, taint, i, s)
  }

  /** The hypotheses along the whole original run from instruction `k`; the jump back uses the
      scratch too. */
  ghost predicate Safe(other: Semantics, site: Site, dirty: set<int>, taint: Taint, s: Cpu, k: nat)
    requires k <= site.Count() && site.Valid()
    decreases site.Count() - k
  {
    if k == site.Count() then ScratchIn(dirty, s)
    else
      var i := Decode(site.words[k]);
      var m := Perform(other, i, site.Original(k), s);
      && Admissible(other, site, dirty, taint, i, site.Original(k), s)
      && m.Running?
      && (!Taken(i, s) ==> Safe(other, site, dirty, NextTaint(i, taint), m.cpu, k + 1))
  }

  // ----- One displaced instruction -----

  /** What the relocated form of instruction `i` does, run from `p`. */
  function Emulated(other: Semantics, i: Instr, source: Word, p: DWord, t: Cpu): Machine
    requires p + 24 < DWORD_SPAN
  {
    if i.IsRelative() then RelocatedOutcome(i, source, p, t) else Perform(other, i, p, t)
  }

  lemma EmulatedRuns(other: Semantics, code: Code, w: Word, source: Word, p: DWord, t: Cpu, n: nat)
    requires p + 24 < DWORD_SPAN && CodeAt(code, p, RelocatedWords(w, source))
    ensures Steps(other, code, Running(p, t), Size(w) / 4 + n)
         == Steps(other, code, Emulated(other, Decode(w), source, p, t), n)
  {
    if Decode(w).IsRelative() {
      RelocatedBranchRuns(other, code, w, source, p, t, n);
    } else {
      assert Fetch(code, p + 4 * 0) == RelocatedWords(w, source)[0] == w;
    }
  }

  ghost predicate Lockstep(site: Site, dirty: set<int>, taint: Taint, k: nat, i: Instr, s: Cpu, m: Machine, m': Machine)
    requires k < site.Count()
  {
    && m.Running? && m'.Running?
    && Agree(site, dirty, NextTaint(i, taint), m.cpu, m'.cpu)
    && (if Taken(i, s) then m'.pc == m.pc
        else m.pc == site.Original(k + 1) && m'.pc == site.Relocated(k + 1))
  }

  lemma RelativeLockstep(other: Semantics, site: Site, dirty: set<int>, taint: Taint, k: nat, s: Cpu, t: Cpu)
    requires site.Valid() && k < site.Count() && site.Relocated(k) + 24 < DWORD_SPAN
    requires Decode(site.words[k]).IsRelative()
    requires Admissible(other, site, dirty, taint, Decode(site.words[k]), site.Original(k), s)
    requires Agree(site, dirty, taint, s, t)
    ensures var i := Decode(site.words[k]);
            Lockstep(site, dirty, taint, k, i, s, Perform(other, i, site.Original(k), s),
                     Emulated(other, i, site.Original(k), site.Relocated(k), t))
  {
    var i := Decode(site.words[k]);
    var source, p := site.Original(k), site.Relocated(k);
    DisplacementRange(site.words[k]);
    RelativeBranchMatches(other, i, source, p, t);
    OriginalOutcome(other, i, source, s);
    OriginalOutcome(other, i, source, t);
    assert Taken(i, s) == Taken(i, t);
    var m, m' := Perform(other, i, source, s), Emulated(other, i, source, p, t);
    assert m.pc == Perform(other, i, source, t).pc;
    if i.lk {
      assert site.Original(k + 1) == m.cpu.lr && site.Relocated(k + 1) == m'.cpu.lr;
      assert ReturnPair(site, m.cpu.lr, m'.cpu.lr);
    }
    assert ScratchAddress(t) == ScratchAddress(s);
  }

  /** A branch that is copied: the target is the same, and so is the return address up to the
      relocation of return points. */
  lemma BranchLockstep(other: Semantics, site: Site, dirty: set<int>, taint: Taint, k: nat, i: Instr, s: Cpu, t: Cpu)
    requires site.Valid() && k < site.Count() && site.Relocated(k) + 24 < DWORD_SPAN &&
             site.Relocated(k + 1) == site.Relocated(k) + 4
    requires i.IsBranch() && !i.IsRelative() && Perform(other, i, site.Original(k), s).Running?
    requires Admissible(other, site, dirty, taint, i, site.Original(k), s) && Agree(site, dirty, taint, s, t)
    ensures Lockstep(site, dirty, taint, k, i, s, Perform(other, i, site.Original(k), s),
                     Perform(other, i, site.Relocated(k), t))
  {
    if i.lk {
      var m, m' := Perform(other, i, site.Original(k), s), Perform(other, i, site.Relocated(k), t);
      assert site.Original(k + 1) == m.cpu.lr && site.Relocated(k + 1) == m'.cpu.lr;
      assert ReturnPair(site, m.cpu.lr, m'.cpu.lr);
    }
  }

  lemma PlainLockstep(other: Semantics, site: Site, dirty: set<int>, taint: Taint, k: nat, i: Instr, s: Cpu, t: Cpu)
    requires site.Valid() && k < site.Count() && site.Relocated(k) + 24 < DWORD_SPAN &&
             site.Relocated(k + 1) == site.Relocated(k) + 4
    requires !i.IsBranch() && Independent(other, site, dirty, taint, i, s) && Agree(site, dirty, taint, s, t)
    ensures Lockstep(site, dirty, taint, k, i, s, Perform(other, i, site.Original(k), s),
                     Perform(other, i, site.Relocated(k), t))
  {
    assert Agree(site, dirty, NextTaint(i, taint), Execute(other, i, s), Execute(other, i, t));
  }

  lemma VerbatimLockstep(other: Semantics, site: Site, dirty: set<int>, taint: Taint, k: nat, i: Instr, s: Cpu, t: Cpu)
    requires site.Valid() && k < site.Count() && site.Relocated(k) + 24 < DWORD_SPAN
    requires i == Decode(site.words[k]) && !i.IsRelative() && Perform(other, i, site.Original(k), s).Running?
    requires Admissible(other, site, dirty, taint, i, site.Original(k), s) && Agree(site, dirty, taint, s, t)
    ensures Lockstep(site, dirty, taint, k, i, s, Perform(other, i, site.Original(k), s),
                     Emulated(other, i, site.Original(k), site.Relocated(k), t))
  {
    assert site.Relocated(k + 1) == site.Relocated(k) + 4;
    if i.IsBranch() {
      BranchLockstep(other, site, dirty, taint, k, i, s, t);
    } else {
      PlainLockstep(other, site, dirty, taint, k, i, s, t);
    }
  }

  // ----- The whole run -----

  /** Instructions the original executes from index `k` until a branch is taken or the window
      ends. */
  function OriginalSteps(other: Semantics, site: Site, s: Cpu, k: nat): nat
    requires k <= site.Count() && site.Valid()
    decreases site.Count() - k
  {
    if k == site.Count() then 0
    else
      var i := Decode(site.words[k]);
      var m := Perform(other, i, site.Original(k), s);
      if Taken(i, s) || m.InvalidForm? then 1 else 1 + OriginalSteps(other, site, m.cpu, k + 1)
  }

  /** Instructions the trampoline executes for the same stretch. */
  function TrampolineSteps(other: Semantics, site: Site, s: Cpu, k: nat): nat
    requires k <= site.Count() && site.Valid()
    decreases site.Count() - k
  {
    if k == site.Count() then |ReturnWords(0)|
    else
      var i := Decode(site.words[k]);
      var m := Perform(other, i, site.Original(k), s);
      Size(site.words[k]) / 4 +
      if Taken(i, s) || m.InvalidForm? then 0 else TrampolineSteps(other, site, m.cpu, k + 1)
  }

  /** What may differ at the exit. */
  function ExitTaint(other: Semantics, site: Site, taint: Taint, s: Cpu, k: nat): Taint
    requires k <= site.Count() && site.Valid()
    decreases site.Count() - k
  {
    if k == site.Count() then taint.(ctr := true)
    else
      var i := Decode(site.words[k]);
      var m := Perform(other, i, site.Original(k), s);
      if Taken(i, s) || m.InvalidForm? then NextTaint(i, taint)
      else ExitTaint(other, site, NextTaint(i, taint), m.cpu, k + 1)
  }

  /** The same exit, reached with agreeing states. */
  ghost predicate SameExit(site: Site, dirty: set<int>, taint: Taint, s: Machine, t: Machine) {
    && s.Running? && t.Running? && s.pc == t.pc
    && Agree(site, dirty, taint, s.cpu, t.cpu)
  }

  /** The original code in `code`, from instruction `k`, and the trampoline in `hooked`, from its
      relocated form, reach the same exit. */
  ghost predicate Simulates(other: Semantics, code: Code, hooked: Code, site: Site, dirty: set<int>, taint: Taint,
                            s: Cpu, t: Cpu, k: nat)
    requires k <= site.Count() && site.Valid()
  {
    && 0 <= site.Relocated(k) < WORD_SPAN
    && SameExit(site, dirty, ExitTaint(other, site, taint, s, k),
                Steps(other, code, Running(site.Original(k), s), OriginalSteps(other, site, s, k)),
                Steps(other, hooked, Running(site.Relocated(k), t), TrampolineSteps(other, site, s, k)))
  }

  /** The trampoline simulates the displaced code. `k` is 0 for a call of the trampoline and
      the index of a return point when a called function comes back into it. */
  lemma {:induction false} TrampolineSimulates(other: Semantics, code: Code, hooked: Code, site: Site,
                                               dirty: set<int>, taint: Taint, s: Cpu, t: Cpu, k: nat)
    requires site.Valid() && k <= site.Count()
    requires CodeAt(code, site.hook, site.words) && IsTrampoline(hooked, site)
    requires Agree(site, dirty, taint, s, t) && Safe(other, site, dirty, taint, s, k)
    ensures Simulates(other, code, hooked, site, dirty, taint, s, t, k)
    decreases site.Count() - k
  {
    OffsetMonotone(site.words, k, site.Count());
    if k == site.Count() {
      JumpBackLockstep(other, hooked, site, dirty, taint, s, t);
    } else {
      LockstepHolds(other, site, dirty, taint, s, t, k);
      var i := Decode(site.words[k]);
      var m := Perform(other, i, site.Original(k), s);
      var m' := Emulated(other, i, site.Original(k), site.Relocated(k), t);
      if !Taken(i, s) {
        TrampolineSimulates(other, code, hooked, site, dirty, NextTaint(i, taint), m.cpu, m'.cpu, k + 1);
      }
      assert PieceAt(hooked, site, k);
      SimulatesFrom(other, code, hooked, site, dirty, taint, s, t, k, m, m');
    }
  }

  /** The simulation from instruction `k`, given it from the next one. */
  lemma SimulatesFrom(other: Semantics, code: Code, hooked: Code, site: Site, dirty: set<int>, taint: Taint,
                      s: Cpu, t: Cpu, k: nat, m: Machine, m': Machine)
    requires site.Valid() && k < site.Count() && site.Relocated(k) + 24 < WORD_SPAN
    requires CodeAt(code, site.hook, site.words) && PieceAt(hooked, site, k)
    requires m == Perform(other, Decode(site.words[k]), site.Original(k), s)
    requires m' == Emulated(other, Decode(site.words[k]), site.Original(k), site.Relocated(k), t)
    requires Lockstep(site, dirty, taint, k, Decode(site.words[k]), s, m, m')
    requires !Taken(Decode(site.words[k]), s) ==>
               Simulates(other, code, hooked, site, dirty, NextTaint(Decode(site.words[k]), taint),
                          m.cpu, m'.cpu, k + 1)
    ensures Simulates(other, code, hooked, site, dirty, taint, s, t, k)
  {
    OriginalAdvances(other, code, site, s, k, m);
    TrampolineAdvances(other, hooked, site, s, t, k, m, m');
  }

  lemma LockstepHolds(other: Semantics, site: Site, dirty: set<int>, taint: Taint, s: Cpu, t: Cpu, k: nat)
    requires site.Valid() && k < site.Count() && site.Relocated(k) + 24 < WORD_SPAN
    requires Agree(site, dirty, taint, s, t) && Safe(other, site, dirty, taint, s, k)
    ensures var i := Decode(site.words[k]);
            Lockstep(site, dirty, taint, k, i, s, Perform(other, i, site.Original(k), s),
                     Emulated(other, i, site.Original(k), site.Relocated(k), t))
  {
    if Decode(site.words[k]).IsRelative() {
      RelativeLockstep(other, site, dirty, taint, k, s, t);
    } else {
      VerbatimLockstep(other, site, dirty, taint, k, Decode(site.words[k]), s, t);
    }
  }

  /** The original run after instruction `k`. */
  lemma OriginalAdvances(other: Semantics, code: Code, site: Site, s: Cpu, k: nat, m: Machine)
    requires site.Valid() && k < site.Count() && CodeAt(code, site.hook, site.words)
    requires m == Perform(other, Decode(site.words[k]), site.Original(k), s) && m.Running?
    ensures Steps(other, code, Running(site.Original(k), s), OriginalSteps(other, site, s, k))
         == if Taken(Decode(site.words[k]), s) then m
            else Steps(other, code, m, OriginalSteps(other, site, m.cpu, k + 1))
  {
    var n := if Taken(Decode(site.words[k]), s) then 0 else OriginalSteps(other, site, m.cpu, k + 1);
    OriginalCount(other, site, s, k, m);
    assert Fetch(code, site.hook + 4 * k) == site.words[k];
    StepsAhead(other, code, site.Original(k), s, m, n);
    NoSteps(other, code, m);
  }

  lemma OriginalCount(other: Semantics, site: Site, s: Cpu, k: nat, m: Machine)
    requires site.Valid() && k < site.Count()
    requires m == Perform(other, Decode(site.words[k]), site.Original(k), s) && m.Running?
    ensures OriginalSteps(other, site, s, k) ==
            1 + if Taken(Decode(site.words[k]), s) then 0 else OriginalSteps(other, site, m.cpu, k + 1)
  {
  }

  lemma TrampolineCount(other: Semantics, site: Site, s: Cpu, k: nat, m: Machine)
    requires site.Valid() && k < site.Count()
    requires m == Perform(other, Decode(site.words[k]), site.Original(k), s) && m.Running?
    ensures TrampolineSteps(other, site, s, k) == Size(site.words[k]) / 4 +
            if Taken(Decode(site.words[k]), s) then 0 else TrampolineSteps(other, site, m.cpu, k + 1)
  {
  }

  /** The trampoline run after the words for instruction `k`. */
  lemma TrampolineAdvances(other: Semantics, hooked: Code, site: Site, s: Cpu, t: Cpu, k: nat, m: Machine, m': Machine)
    requires site.Valid() && k < site.Count() && site.Relocated(k) + 24 < WORD_SPAN
    requires PieceAt(hooked, site, k)
    requires m == Perform(other, Decode(site.words[k]), site.Original(k), s) && m.Running?
    requires m' == Emulated(other, Decode(site.words[k]), site.Original(k), site.Relocated(k), t)
    ensures Steps(other, hooked, Running(site.Relocated(k), t), TrampolineSteps(other, site, s, k))
         == if Taken(Decode(site.words[k]), s) then m'
            else Steps(other, hooked, m', TrampolineSteps(other, site, m.cpu, k + 1))
  {
    var n := if Taken(Decode(site.words[k]), s) then 0 else TrampolineSteps(other, site, m.cpu, k + 1);
    TrampolineCount(other, site, s, k, m);
    EmulatedRuns(other, hooked, site.words[k], site.Original(k), site.Relocated(k), t, n);
    NoSteps(other, hooked, m');
  }

  lemma JumpBackLockstep(other: Semantics, hooked: Code, site: Site, dirty: set<int>, taint: Taint, s: Cpu, t: Cpu)
    requires site.Valid() && JumpBackAt(hooked, site)
    requires Agree(site, dirty, taint, s, t) && ScratchIn(dirty, s)
    ensures SameExit(site, dirty, taint.(ctr := true), Running(site.Original(site.Count()), s),
                     Steps(other, hooked, Running(site.Relocated(site.Count()), t), |ReturnWords(0)|))
  {
    var back := site.Original(site.Count());
    ReturnWordsRun(other, hooked, site.Relocated(site.Count()), t, back);
    JumpBackAgrees(site, dirty, taint, s, t, back);
  }

  lemma ReturnWordsRun(other: Semantics, code: Code, p: DWord, t: Cpu, back: Word)
    requires p + 24 < DWORD_SPAN && CodeAt(code, p, ReturnWords(back))
    ensures Steps(other, code, Running(p, t), |ReturnWords(0)|) == Running(FarAddress(back), AfterFarJump(t, back))
  {
    FarJumpRuns(other, code, p, t, back, false, ALWAYS, 0, 0);
    NoSteps(other, code, Running(FarAddress(back), AfterFarJump(t, back)));
  }

  lemma JumpBackAgrees(site: Site, dirty: set<int>, taint: Taint, s: Cpu, t: Cpu, back: Word)
    requires Agree(site, dirty, taint, s, t) && ScratchIn(dirty, s) && back < 0x8000_0000 && back % 4 == 0
    ensures FarAddress(back) == back
    ensures Agree(site, dirty, taint.(ctr := true), s, AfterFarJump(t, back))
  {
    FarAddressOf(back);
    assert ScratchAddress(t) == ScratchAddress(s);
    ScratchFrame(t);
  }

  // ----- Where the exit lies -----

  /** Every displaced branch is a direct one and goes outside the displaced window. */
  ghost predicate BranchesLeave(site: Site) {
    forall k :: 0 <= k < site.Count() ==> BranchLeaves(site, k)
  }

  ghost predicate BranchLeaves(site: Site, k: nat)
    requires k < site.Count()
  {
    match Decode(site.words[k])
    case B(li, aa, _) => !site.InWindow(Wrap64(if aa then li else site.Original(k) + li))
    case Bc(_, _, bd, aa, _) => !site.InWindow(Wrap64(if aa then bd else site.Original(k) + bd))
    case Bclr(_, _, _) => false
    case Bcctr(_, _, _) => false
    case _ => true
  }

  /** When no displaced branch lands in the window, the common exit lies outside it, so what
      runs next is code the hook did not touch. */
  lemma {:induction false} ExitLeavesWindow(other: Semantics, code: Code, site: Site, dirty: set<int>, taint: Taint,
                                            s: Cpu, k: nat)
    requires site.Valid() && k <= site.Count() && CodeAt(code, site.hook, site.words)
    requires BranchesLeave(site) && Safe(other, site, dirty, taint, s, k)
    ensures var e := Steps(other, code, Running(site.Original(k), s), OriginalSteps(other, site, s, k));
            e.Running? && !site.InWindow(e.pc)
    decreases site.Count() - k
  {
    if k < site.Count() {
      var m := Perform(other, Decode(site.words[k]), site.Original(k), s);
      OriginalAdvances(other, code, site, s, k, m);
      assert BranchLeaves(site, k);
      ExitStep(other, site, s, k, Decode(site.words[k]));
      if !Taken(Decode(site.words[k]), s) {
        ExitLeavesWindow(other, code, site, dirty, NextTaint(Decode(site.words[k]), taint), m.cpu, k + 1);
      }
    }
  }

  lemma ExitStep(other: Semantics, site: Site, s: Cpu, k: nat, i: Instr)
    requires site.Valid() && k < site.Count() && i == Decode(site.words[k]) && BranchLeaves(site, k)
    requires Perform(other, i, site.Original(k), s).Running?
    ensures var m := Perform(other, i, site.Original(k), s);
            if Taken(i, s) then !site.InWindow(m.pc) else m.pc == site.Original(k + 1)
  {
    if !Taken(i, s) {
      NotTakenFallsThrough(other, i, site.Original(k), s);
    }
  }

  lemma NotTakenFallsThrough(other: Semantics, i: Instr, pc: DWord, s: Cpu)
    requires !Taken(i, s) && pc + 4 < DWORD_SPAN && Perform(other, i, pc, s).Running?
    ensures Perform(other, i, pc, s).pc == pc + 4
  {
  }

  // ----- Meeting the hypotheses -----

  lemma {:induction false} StoresAgree(m: Memory, m': Memory, lo: int, hi: int, v: nat, a: int)
    requires Peek(m, a) == Peek(m', a)
    ensures Peek(Store(m, lo, hi, v), a) == Peek(Store(m', lo, hi, v), a)
    decreases hi - lo
  {
    if lo < hi {
      StoresAgree(m, m', lo, hi - 1, v / 256, a);
    }
  }

  /** Register arithmetic, stores and `mtctr` never depend on the scratch. */
  lemma PlainIsIndependent(other: Semantics, site: Site, dirty: set<int>, taint: Taint, i: Instr, s: Cpu)
    requires i.Addis? || i.Ori? || i.Mtctr? || i.Std?
    ensures Independent(other, site, dirty, taint, i, s)
  {
    forall t: Cpu | Agree(site, dirty, taint, s, t)
      ensures Agree(site, dirty, NextTaint(i, taint), Execute(other, i, s), Execute(other, i, t))
    {
      if i.Std? {
        var ea: int := EffectiveAddress(s, i.ra, i.ds);
        forall a | a !in dirty
          ensures Peek(StoreDouble(s.data, ea, s.gpr[i.rs]), a) == Peek(StoreDouble(t.data, ea, t.gpr[i.rs]), a)
        {
          StoresAgree(s.data, t.data, ea, ea + 8, s.gpr[i.rs], a);
        }
      }
    }
  }

  /** A load does not if its eight bytes are outside the scratch. */
  lemma LoadIsIndependent(other: Semantics, site: Site, dirty: set<int>, taint: Taint, i: Instr, s: Cpu)
    requires i.Ld?
    requires var ea: int := EffectiveAddress(s, i.ra, i.ds); forall a :: ea <= a < ea + 8 ==> a !in dirty
    ensures Independent(other, site, dirty, taint, i, s)
  {
    var ea: int := EffectiveAddress(s, i.ra, i.ds);
    forall t: Cpu | Agree(site, dirty, taint, s, t)
      ensures Agree(site, dirty, NextTaint(i, taint), Execute(other, i, s), Execute(other, i, t))
    {
      LoadFrame(s.data, t.data, ea, ea + 8);
    }
  }

  /** `std r31,-8(r1)`, `lis r3,hi`, `ori r3,r3,lo`, `bl .+0x100`: the start of a function. */
  function Prologue(hi: int, lo: int): seq<Word>
    requires 0 <= hi < 0x1_0000 && 0 <= lo < 0x1_0000
  {
    [0xFBE1_FFF8, LisWord(3, hi), OriWord(3, 3, lo), 0x4800_0101]
  }

  lemma PrologueDecodes(hi: int, lo: int)
    requires 0 <= hi < 0x1_0000 && 0 <= lo < 0x1_0000
    ensures var ws := Prologue(hi, lo);
            && Decode(ws[0]) == Std(31, 1, -8) && Decode(ws[1]) == Addis(3, 0, Signed(hi, 0x1_0000))
            && Decode(ws[2]) == Ori(3, 3, lo) && Decode(ws[3]) == B(0x100, false, true)
  {
    DecodeLis(3, hi);
    DecodeOri(3, 3, lo);
  }

  /** An instruction that falls through leaves the rest of the window to be safe. */
  lemma SafeStep(other: Semantics, site: Site, dirty: set<int>, taint: Taint, s: Cpu, k: nat, i: Instr)
    requires site.Valid() && k < site.Count() && i == Decode(site.words[k]) && !i.IsBranch()
    requires Independent(other, site, dirty, taint, i, s) &&
             Safe(other, site, dirty, NextTaint(i, taint), Execute(other, i, s), k + 1)
    ensures Safe(other, site, dirty, taint, s, k)
  {
  }

  lemma SafeCall(other: Semantics, site: Site, dirty: set<int>, taint: Taint, s: Cpu, k: nat, i: Instr)
    requires site.Valid() && k < site.Count() && i == Decode(site.words[k]) && i.B? && !i.aa
    requires site.Original(k) + i.li < 0x8000_0000 && ScratchIn(dirty, s)
    ensures Safe(other, site, dirty, taint, s, k)
  {
  }

  /** In any state whose scratch bytes are in `dirty`, such a function is safe to hook, both when
      it is called and when the call it makes returns. */
  lemma PrologueIsSafe(other: Semantics, site: Site, dirty: set<int>, hi: int, lo: int, s: Cpu, returned: Cpu)
    requires 0 <= hi < 0x1_0000 && 0 <= lo < 0x1_0000 && site.words == Prologue(hi, lo)
    requires site.Valid() && site.hook + 0x200 < 0x8000_0000 && ScratchIn(dirty, s) && ScratchIn(dirty, returned)
    ensures Safe(other, site, dirty, CLEAN, s, 0) && Safe(other, site, dirty, Taint(true, true), returned, 4)
  {
    PrologueDecodes(hi, lo);
    var i0, i1, i2, i3 := Decode(site.words[0]), Decode(site.words[1]), Decode(site.words[2]), Decode(site.words[3]);
    var s1 := Execute(other, i0, s);
    var s2 := Execute(other, i1, s1);
    var s3 := Execute(other, i2, s2);
    assert ScratchAddress(s3) == ScratchAddress(s);
    SafeCall(other, site, dirty, CLEAN, s3, 3, i3);
    PlainIsIndependent(other, site, dirty, CLEAN, i2, s2);
    SafeStep(other, site, dirty, CLEAN, s2, 2, i2);
    PlainIsIndependent(other, site, dirty, CLEAN, i1, s1);
    SafeStep(other, site, dirty, CLEAN, s1, 1, i1);
    PlainIsIndependent(other, site, dirty, CLEAN, i0, s);
    SafeStep(other, site, dirty, CLEAN, s, 0, i0);
  }
}
