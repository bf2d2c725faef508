/** The words that `Detour` emits: instruction encoders, the far jump through CTR, and the
    relocated form of a displaced instruction (game_patch_vsh_data/Memory/Detour.cpp:43-234),
    with what those words do on the machine.
  */
module Relocation {
  import opened Words
  import opened PowerPC

  const ALWAYS: Field := 20
  const SCRATCH_OFFSET: int := -0x30

  // ----- Encoders -----

  function LisWord(rd: Field, imm: int): (w: Word)
    requires 0 <= imm < 0x1_0000
  {
    15 * 0x400_0000 + rd * 0x20_0000 + imm
  }

  function OriWord(rs: Field, ra: Field, imm: int): (w: Word)
    requires 0 <= imm < 0x1_0000
  {
    24 * 0x400_0000 + rs * 0x20_0000 + ra * 0x1_0000 + imm
  }

  /** mtspr with the two halves of SPR number 9 swapped, as the field is encoded. */
  function MtctrWord(rs: Field): (w: Word) {
    31 * 0x400_0000 + rs * 0x20_0000 + 9 * 0x20 * 0x800 + 467 * 2
  }

  function BcctrWord(bo: Field, bi: Field, lk: bool): (w: Word) {
    19 * 0x400_0000 + bo * 0x20_0000 + bi * 0x1_0000 + 528 * 2 + (if lk then 1 else 0)
  }

  function StdWord(rs: Field, ds: int, ra: Field): (w: Word) {
    62 * 0x400_0000 + rs * 0x20_0000 + ra * 0x1_0000 + ds % 0x1_0000
  }

  function LdWord(rt: Field, ds: int, ra: Field): (w: Word) {
    58 * 0x400_0000 + rt * 0x20_0000 + ra * 0x1_0000 + ds % 0x1_0000
  }

  // ----- Emitted sequences -----

  /** The far jump of JumpWithOptions: four words, or six when the register is preserved. */
  function JumpWords(target: Word, lk: bool, preserve: bool, bo: Field, bi: Field, rx: Field): seq<Word> {
    var hi := target / 0x1_0000;
    var lo := target % 0x1_0000;
    if preserve then
      [StdWord(rx, SCRATCH_OFFSET, 1), LisWord(rx, hi), OriWord(rx, rx, lo), MtctrWord(rx),
       LdWord(rx, SCRATCH_OFFSET, 1), BcctrWord(bo, bi, lk)]
    else
      [LisWord(rx, hi), OriWord(rx, rx, lo), MtctrWord(rx), BcctrWord(bo, bi, lk)]
  }

  /** The plain jump written over the hooked function. */
  function HookWords(target: Word): seq<Word> {
    JumpWords(target, false, false, ALWAYS, 0, 0)
  }

  /** The jump that ends a trampoline. */
  function ReturnWords(target: Word): seq<Word> {
    JumpWords(target, false, true, ALWAYS, 0, 0)
  }

  /** Where a relative branch at `source` goes, as 32-bit address arithmetic computes it. */
  function BranchTarget(i: Instr, source: int): Word
    requires i.IsRelative()
  {
    (source + i.Displacement()) % WORD_SPAN
  }

  /** The words that stand for the instruction `w`, displaced from `source`. */
  function RelocatedWords(w: Word, source: int): (ws: seq<Word>)
    ensures |ws| == if Decode(w).IsRelative() then 6 else 1
  {
    var i := Decode(w);
    if !i.IsRelative() then [w]
    else match i
      case B(_, _, lk) => JumpWords(BranchTarget(i, source), lk, true, ALWAYS, 0, 0)
      case Bc(bo, bi, _, _, lk) => JumpWords(BranchTarget(i, source), lk, true, bo, bi, 0)
  }

  // ----- What the encoders encode -----

  /** Reading back the fields of a word assembled from them. */
  lemma WordFields(w: Word, op: int, r1: Field, r2: Field, low: int)
    requires 0 <= op < 64 && 0 <= low < 0x1_0000
    requires w == op * 0x400_0000 + r1 * 0x20_0000 + r2 * 0x1_0000 + low
    ensures w / 0x400_0000 == op && w / 0x20_0000 % 32 == r1 && w / 0x1_0000 % 32 == r2
    ensures w % 0x1_0000 == low && w % 4 == low % 4 && w % 2 == low % 2
    ensures w / 2 % 1024 == low / 2 % 1024 && w / 0x800 % 1024 == r2 * 32 + low / 0x800
  {
    assert w / 0x20_0000 == op * 32 + r1;
    assert w / 0x1_0000 == op * 1024 + r1 * 32 + r2;
    assert w / 0x800 == op * 0x8000 + r1 * 1024 + r2 * 32 + low / 0x800;
    assert w / 2 == op * 0x200_0000 + r1 * 0x10_0000 + r2 * 0x8000 + low / 2;
  }

  lemma DecodeLis(rd: Field, imm: int)
    requires 0 <= imm < 0x1_0000
    ensures Decode(LisWord(rd, imm)) == Addis(rd, 0, Signed(imm, 0x1_0000))
  {
    WordFields(LisWord(rd, imm), 15, rd, 0, imm);
  }

  lemma DecodeOri(rs: Field, ra: Field, imm: int)
    requires 0 <= imm < 0x1_0000
    ensures Decode(OriWord(rs, ra, imm)) == Ori(rs, ra, imm)
  {
    WordFields(OriWord(rs, ra, imm), 24, rs, ra, imm);
  }

  lemma DecodeMtctr(rs: Field)
    ensures Decode(MtctrWord(rs)) == Mtctr(rs)
  {
    WordFields(MtctrWord(rs), 31, rs, 9, 467 * 2);
  }

  lemma DecodeBcctr(bo: Field, bi: Field, lk: bool)
    ensures Decode(BcctrWord(bo, bi, lk)) == Bcctr(bo, bi, lk)
  {
    WordFields(BcctrWord(bo, bi, lk), 19, bo, bi, 528 * 2 + if lk then 1 else 0);
  }

  lemma DecodeScratchAccess(rs: Field, ra: Field)
    ensures Decode(StdWord(rs, SCRATCH_OFFSET, ra)) == Std(rs, ra, SCRATCH_OFFSET)
    ensures Decode(LdWord(rs, SCRATCH_OFFSET, ra)) == Ld(rs, ra, SCRATCH_OFFSET)
  {
    WordFields(StdWord(rs, SCRATCH_OFFSET, ra), 62, rs, ra, 0xFFD0);
    WordFields(LdWord(rs, SCRATCH_OFFSET, ra), 58, rs, ra, 0xFFD0);
  }

  // ----- Running the far jump -----

  /** What `lis` and `ori` leave in the register: the upper half was sign-extended. */
  function SignExtended(target: Word): DWord {
    Wrap64(Signed(target, WORD_SPAN))
  }

  /** The doubleword that the preserving far jump overwrites. */
  function ScratchAddress(cpu: Cpu): DWord {
    EffectiveAddress(cpu, 1, SCRATCH_OFFSET)
  }

  /** Or-ing into zero low bits is addition. */
  lemma {:induction false} OrIntoZeroBits(k: nat, b: nat, n: nat)
    requires b < Pow2(n)
    ensures k * Pow2(n) >= 0 && BitOr(k * Pow2(n), b) == k * Pow2(n) + b
    decreases n
  {
    if n == 0 {
      assert k * Pow2(0) == k;
    } else {
      var half := k * Pow2(n - 1);
      DoubleProduct(k, Pow2(n - 1));
      OrIntoZeroBits(k, b / 2, n - 1);
      OrStep(half, b);
    }
  }

  lemma DoubleProduct(k: nat, m: nat)
    ensures k * (2 * m) == 2 * (k * m) && k * m >= 0
  {
  }

  lemma OrStep(half: nat, b: nat)
    requires BitOr(half, b / 2) == half + b / 2
    ensures BitOr(2 * half, b) == 2 * half + b
  {
  }

  lemma PowerSixteen()
    ensures Pow2(16) == 0x1_0000
  {
    assert Pow2(4) == 16;
    assert Pow2(8) == 16 * Pow2(4);
    assert Pow2(12) == 16 * Pow2(8);
    assert Pow2(16) == 16 * Pow2(12);
  }

  lemma OrIntoHighHalf(high: nat, low: nat)
    requires high % 0x1_0000 == 0 && low < 0x1_0000
    ensures BitOr(high, low) == high + low
  {
    var k := high / 0x1_0000;
    PowerSixteen();
    OrIntoZeroBits(k, low, 16);
    assert k * Pow2(16) == k * 0x1_0000 == high;
  }

  lemma ImmediateValue(target: Word)
    ensures Wrap64(BitOr(Wrap64(Signed(target / 0x1_0000, 0x1_0000) * 0x1_0000), target % 0x1_0000))
         == SignExtended(target)
  {
    var high := Wrap64(Signed(target / 0x1_0000, 0x1_0000) * 0x1_0000);
    var low := target % 0x1_0000;
    if target < 0x8000_0000 {
      assert high == target - low;
    } else {
      assert high == target - low + (DWORD_SPAN - WORD_SPAN);
    }
    OrIntoHighHalf(high, low);
  }

  /** The address a far jump to `target` goes to: CTR with its two low bits cleared. */
  function FarAddress(target: Word): DWord {
    SignExtended(target) / 4 * 4
  }

  /** The registers after a preserving far jump: r0 is restored; CTR and the eight scratch bytes
      are not. */
  function AfterFarJump(cpu: Cpu, target: Word): Cpu {
    cpu.(ctr := SignExtended(target), data := StoreDouble(cpu.data, ScratchAddress(cpu), cpu.gpr[0]))
  }

  /** `lis` and `ori`: the address of the target, loaded into r0. */
  function LoadAddress(target: Word): seq<Instr> {
    [Addis(0, 0, Signed(target / 0x1_0000, 0x1_0000)), Ori(0, 0, target % 0x1_0000)]
  }

  lemma LoadAddressExecutes(other: Semantics, cpu: Cpu, target: Word)
    ensures Execute(other, LoadAddress(target)[1], Execute(other, LoadAddress(target)[0], cpu))
         == SetGpr(cpu, 0, SignExtended(target))
  {
    var si := Signed(target / 0x1_0000, 0x1_0000);
    var c1 := SetGpr(cpu, 0, Wrap64(si * 0x1_0000));
    assert Execute(other, Addis(0, 0, si), cpu) == c1;
    OriExecutes(other, c1, target % 0x1_0000);
    ImmediateValue(target);
    assert c1.gpr[0 := SignExtended(target)] == cpu.gpr[0 := SignExtended(target)];
  }

  lemma OriExecutes(other: Semantics, cpu: Cpu, ui: nat)
    ensures Execute(other, Ori(0, 0, ui), cpu) == SetGpr(cpu, 0, Wrap64(BitOr(cpu.gpr[0], ui)))
  {
  }

  lemma LoadAddressRuns(other: Semantics, cpu: Cpu, target: Word, rest: seq<Instr>)
    requires forall i <- rest :: !i.IsBranch()
    ensures ExecuteAll(other, LoadAddress(target) + rest, cpu)
         == ExecuteAll(other, rest, SetGpr(cpu, 0, SignExtended(target)))
  {
    var lis, ori := LoadAddress(target)[0], LoadAddress(target)[1];
    assert LoadAddress(target) + rest == [lis] + ([ori] + rest);
    ExecuteCons(other, lis, [ori] + rest, cpu);
    ExecuteCons(other, ori, rest, Execute(other, lis, cpu));
    LoadAddressExecutes(other, cpu, target);
  }

  /** Saving r0, building the address in it, moving it to CTR and restoring r0. */
  function FarJumpSetup(target: Word): seq<Instr> {
    [Std(0, 1, SCRATCH_OFFSET)] + (LoadAddress(target) + [Mtctr(0), Ld(0, 1, SCRATCH_OFFSET)])
  }

  lemma FarJumpSetupRuns(other: Semantics, cpu: Cpu, target: Word)
    ensures ExecuteAll(other, FarJumpSetup(target), cpu) == AfterFarJump(cpu, target)
  {
    var tail := [Mtctr(0), Ld(0, 1, SCRATCH_OFFSET)];
    var saved := Execute(other, Std(0, 1, SCRATCH_OFFSET), cpu);
    var c3 := SetGpr(saved, 0, SignExtended(target));
    var c4 := Execute(other, Mtctr(0), c3);
    ExecuteCons(other, Std(0, 1, SCRATCH_OFFSET), LoadAddress(target) + tail, cpu);
    LoadAddressRuns(other, saved, target, tail);
    assert tail == [Mtctr(0)] + ([Ld(0, 1, SCRATCH_OFFSET)] + []);
    ExecuteCons(other, Mtctr(0), [Ld(0, 1, SCRATCH_OFFSET)] + [], c3);
    ExecuteCons(other, Ld(0, 1, SCRATCH_OFFSET), [], c4);
    LoadStoredDouble(cpu.data, ScratchAddress(cpu), cpu.gpr[0]);
    assert c4.gpr[0 := cpu.gpr[0]] == cpu.gpr;
  }

  /** The six words of a preserving far jump, run from `p`: with a BO field that leaves CTR
      alone they branch, fall through and link as one conditional branch; with any other BO
      they end in an invalid form. */
  lemma FarJumpRuns(other: Semantics, code: Code, p: DWord, cpu: Cpu, target: Word, lk: bool, bo: Field, bi: Field,
                    n: nat)
    requires p + 24 < DWORD_SPAN
    requires CodeAt(code, p, JumpWords(target, lk, true, bo, bi, 0))
    ensures Steps(other, code, Running(p, cpu), |JumpWords(target, lk, true, bo, bi, 0)| + n) ==
            if !KeepsCtr(bo) then InvalidForm
            else Steps(other, code, Running(if CondOk(bo, bi, cpu.cr) then FarAddress(target) else p + 24,
                                            Link(AfterFarJump(cpu, target), p + 20, lk)), n)
  {
    FarJumpPrefix(other, code, p, cpu, target, lk, bo, bi, 1 + n);
    var w := BcctrWord(bo, bi, lk);
    assert Fetch(code, p + 4 * 5) == JumpWords(target, lk, true, bo, bi, 0)[5] == w;
    DecodeBcctr(bo, bi, lk);
    BcctrStep(other, w, p + 20, AfterFarJump(cpu, target), target, lk, bo, bi);
    StepsAhead(other, code, p + 20, AfterFarJump(cpu, target), Step(other, w, p + 20, AfterFarJump(cpu, target)), n);
  }

  lemma FarJumpPrefix(other: Semantics, code: Code, p: DWord, cpu: Cpu, target: Word, lk: bool, bo: Field, bi: Field,
                      n: nat)
    requires p + 24 < DWORD_SPAN
    requires CodeAt(code, p, JumpWords(target, lk, true, bo, bi, 0))
    ensures Steps(other, code, Running(p, cpu), |FarJumpSetup(target)| + n)
         == Steps(other, code, Running(p + 20, AfterFarJump(cpu, target)), n)
  {
    FarJumpFetch(code, p, target, lk, bo, bi);
    RunStraight(other, code, p, cpu, FarJumpSetup(target), n);
    FarJumpSetupRuns(other, cpu, target);
  }

  lemma BcctrStep(other: Semantics, w: Word, p: DWord, cpu: Cpu, target: Word, lk: bool, bo: Field, bi: Field)
    requires p + 4 < DWORD_SPAN && Decode(w) == Bcctr(bo, bi, lk) && cpu.ctr == SignExtended(target)
    ensures Step(other, w, p, cpu) ==
            if !KeepsCtr(bo) then InvalidForm
            else Running(if CondOk(bo, bi, cpu.cr) then FarAddress(target) else p + 4, Link(cpu, p, lk))
  {
  }

  lemma FarJumpFetch(code: Code, p: DWord, target: Word, lk: bool, bo: Field, bi: Field)
    requires CodeAt(code, p, JumpWords(target, lk, true, bo, bi, 0))
    ensures forall k :: 0 <= k < 5 ==> Decode(Fetch(code, p + 4 * k)) == FarJumpSetup(target)[k]
  {
    DecodeScratchAccess(0, 1);
    DecodeLis(0, target / 0x1_0000);
    DecodeOri(0, 0, target % 0x1_0000);
    DecodeMtctr(0);
    var ws := JumpWords(target, lk, true, bo, bi, 0);
    forall k | 0 <= k < 5
      ensures Decode(Fetch(code, p + 4 * k)) == FarJumpSetup(target)[k]
    {
      assert Fetch(code, p + 4 * k) == ws[k];
    }
  }

  // ----- A relocated branch against the branch it stands for -----

  function OptionsOf(i: Instr): Field
    requires i.IsRelative()
  {
    if i.Bc? then i.bo else ALWAYS
  }

  /** Where the six words of a relocated branch end up when they are run from `p`. */
  function RelocatedOutcome(i: Instr, source: Word, p: DWord, cpu: Cpu): Machine
    requires i.IsRelative() && p + 24 < DWORD_SPAN
  {
    var target := BranchTarget(i, source);
    if !KeepsCtr(OptionsOf(i)) then InvalidForm
    else Running(if Taken(i, cpu) then FarAddress(target) else p + 24,
                 Link(AfterFarJump(cpu, target), p + 20, i.lk))
  }

  lemma RelocatedBranchRuns(other: Semantics, code: Code, w: Word, source: Word, p: DWord, cpu: Cpu, n: nat)
    requires Decode(w).IsRelative() && p + 24 < DWORD_SPAN
    requires CodeAt(code, p, RelocatedWords(w, source))
    ensures Steps(other, code, Running(p, cpu), |RelocatedWords(w, source)| + n)
         == Steps(other, code, RelocatedOutcome(Decode(w), source, p, cpu), n)
  {
    var i := Decode(w);
    FarJumpRuns(other, code, p, cpu, BranchTarget(i, source), i.lk, OptionsOf(i), if i.Bc? then i.bi else 0, n);
  }

  /** Displacements are multiples of four inside the field's range. */
  lemma DisplacementRange(w: Word)
    requires Decode(w).IsRelative()
    ensures Decode(w).Displacement() % 4 == 0
    ensures -0x200_0000 <= Decode(w).Displacement() < 0x200_0000
  {
    SignedField(w % 0x400_0000 / 4, 0x400_0000);
    SignedField(w % 0x1_0000 / 4, 0x1_0000);
  }

  lemma SignedField(q: int, span: int)
    requires 0 <= q * 4 < span && span % 8 == 0
    ensures Signed(q * 4, span) % 4 == 0 && -span <= 2 * Signed(q * 4, span) < span
  {
    assert span % 4 == 0;
  }

  lemma FarAddressOf(x: int)
    requires x % 4 == 0 && -0x200_0000 <= x < WORD_SPAN + 0x200_0000
    ensures FarAddress(x % WORD_SPAN) == Wrap64(x) <==> x < 0x8000_0000
  {
    var t := x % WORD_SPAN;
    if x < 0 {
      assert t == x + WORD_SPAN;
    } else if x >= WORD_SPAN {
      assert t == x - WORD_SPAN;
    }
  }

  /** The relocated form of a relative branch is a valid sequence exactly when its BO field
      leaves CTR alone. It then branches exactly when the original does, links exactly when the
      original does, changes nothing but CTR, the scratch bytes and the link value, and goes to
      the original target exactly when that lies below 2^31 (`lis` sign-extends). */
  lemma RelocatedBranchMatches(other: Semantics, w: Word, source: Word, p: DWord, cpu: Cpu)
    requires Decode(w).IsRelative() && source % 4 == 0 && p + 24 < DWORD_SPAN
    ensures Matches(Decode(w), source, p, cpu, Step(other, w, source, cpu))
  {
    DisplacementRange(w);
    RelativeBranchMatches(other, Decode(w), source, p, cpu);
  }

  ghost predicate Matches(i: Instr, source: Word, p: DWord, cpu: Cpu, original: Machine)
    requires i.IsRelative() && p + 24 < DWORD_SPAN
  {
    var relocated := RelocatedOutcome(i, source, p, cpu);
    && original.Running?
    && (relocated.Running? <==> (i.Bc? ==> KeepsCtr(i.bo)))
    && (relocated.Running? ==>
          && relocated.cpu.gpr == original.cpu.gpr == cpu.gpr
          && relocated.cpu.cr == original.cpu.cr == cpu.cr
          && relocated.cpu.aux == original.cpu.aux == cpu.aux
          && original.cpu.data == cpu.data && original.cpu.ctr == cpu.ctr
          && (forall a :: !(ScratchAddress(cpu) <= a < ScratchAddress(cpu) + 8) ==>
                Peek(relocated.cpu.data, a) == Peek(original.cpu.data, a))
          && original.cpu.lr == (if i.lk then source + 4 else cpu.lr)
          && relocated.cpu.lr == (if i.lk then p + 24 else cpu.lr)
          && (!Taken(i, cpu) ==> original.pc == source + 4 && relocated.pc == p + 24)
          && (Taken(i, cpu) ==>
                (relocated.pc == original.pc <==> source + i.Displacement() < 0x8000_0000)))
  }

  lemma RelativeBranchMatches(other: Semantics, i: Instr, source: Word, p: DWord, cpu: Cpu)
    requires i.IsRelative() && i.Displacement() % 4 == 0 && -0x200_0000 <= i.Displacement() < 0x200_0000
    requires source % 4 == 0 && p + 24 < DWORD_SPAN
    ensures Matches(i, source, p, cpu, Perform(other, i, source, cpu))
  {
    FarAddressOf(source + i.Displacement());
    OriginalOutcome(other, i, source, cpu);
    ScratchFrame(cpu);
  }

  lemma OriginalOutcome(other: Semantics, i: Instr, source: Word, cpu: Cpu)
    requires i.IsRelative() && source % 4 == 0
    ensures Perform(other, i, source, cpu)
         == Running(if Taken(i, cpu) then Wrap64(source + i.Displacement()) else source + 4,
                    Link(if i.Bc? then cpu.(ctr := CountedCtr(i.bo, cpu.ctr)) else cpu, source, i.lk))
  {
  }

  lemma ScratchFrame(cpu: Cpu)
    ensures var data := StoreDouble(cpu.data, ScratchAddress(cpu), cpu.gpr[0]);
            forall a :: !(ScratchAddress(cpu) <= a < ScratchAddress(cpu) + 8) ==> Peek(data, a) == Peek(cpu.data, a)
  {
  }

  /** A `bdnz` cannot be relocated: the six words end in an invalid form. */
  lemma CountingBranchIsLost(p: DWord, cpu: Cpu, source: Word)
    requires p + 24 < DWORD_SPAN
    ensures Decode(0x4200_FFFC) == Bc(16, 0, -4, false, false)
    ensures RelocatedOutcome(Decode(0x4200_FFFC), source, p, cpu) == InvalidForm
  {
  }

  /** The four words over a hooked function jump to the callback; r0 and CTR are lost. */
  lemma HookWordsRun(other: Semantics, code: Code, p: DWord, cpu: Cpu, target: Word, n: nat)
    requires p + 16 < DWORD_SPAN && CodeAt(code, p, HookWords(target))
    ensures Steps(other, code, Running(p, cpu), |HookWords(target)| + n)
         == Steps(other, code, Running(FarAddress(target), AfterHookWords(cpu, target)), n)
  {
    HookWordsPrefix(other, code, p, cpu, target, 1 + n);
    var w := BcctrWord(ALWAYS, 0, false);
    assert Fetch(code, p + 4 * 3) == HookWords(target)[3] == w;
    DecodeBcctr(ALWAYS, 0, false);
    BcctrStep(other, w, p + 12, AfterHookWords(cpu, target), target, false, ALWAYS, 0);
    StepsAhead(other, code, p + 12, AfterHookWords(cpu, target), Step(other, w, p + 12, AfterHookWords(cpu, target)),
               n);
  }

  function AfterHookWords(cpu: Cpu, target: Word): Cpu {
    SetGpr(cpu, 0, SignExtended(target)).(ctr := SignExtended(target))
  }

  lemma HookWordsPrefix(other: Semantics, code: Code, p: DWord, cpu: Cpu, target: Word, n: nat)
    requires p + 16 < DWORD_SPAN && CodeAt(code, p, HookWords(target))
    ensures Steps(other, code, Running(p, cpu), |LoadAddress(target) + [Mtctr(0)]| + n)
         == Steps(other, code, Running(p + 12, AfterHookWords(cpu, target)), n)
  {
    HookWordsFetch(code, p, target);
    RunStraight(other, code, p, cpu, LoadAddress(target) + [Mtctr(0)], n);
    HookSetupRuns(other, cpu, target);
  }

  lemma HookSetupRuns(other: Semantics, cpu: Cpu, target: Word)
    ensures ExecuteAll(other, LoadAddress(target) + [Mtctr(0)], cpu) == AfterHookWords(cpu, target)
  {
    var tail := [Mtctr(0)];
    LoadAddressRuns(other, cpu, target, tail);
    assert tail == tail + [];
    ExecuteCons(other, Mtctr(0), [], SetGpr(cpu, 0, SignExtended(target)));
  }

  lemma HookWordsFetch(code: Code, p: DWord, target: Word)
    requires CodeAt(code, p, HookWords(target))
    ensures forall k :: 0 <= k < 3 ==> Decode(Fetch(code, p + 4 * k)) == (LoadAddress(target) + [Mtctr(0)])[k]
  {
    DecodeLis(0, target / 0x1_0000);
    DecodeOri(0, 0, target % 0x1_0000);
    DecodeMtctr(0);
    var ws := HookWords(target);
    forall k | 0 <= k < 3
      ensures Decode(Fetch(code, p + 4 * k)) == (LoadAddress(target) + [Mtctr(0)])[k]
    {
      assert Fetch(code, p + 4 * k) == ws[k];
    }
  }
}
