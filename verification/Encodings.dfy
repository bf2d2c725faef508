/** The words themselves: which number stands for which instruction (Power ISA Book I, sections
    1.6 and 2.4), and the numbers that `Detour` emits (game_patch_vsh_data/Memory/Detour.cpp:43-219).
  */
module Encodings {
  import opened Words
  import opened PowerPC
  import opened Relocation

  function Bit(b: bool): (n: int) {
    if b then 1 else 0
  }

  // ----- Numbers and instructions -----

  /** `bc`: opcode 16, five bits each of BO and BI, sixteen of displacement, AA and LK. */
  lemma ConditionalWord(w: Word, bo: Field, bi: Field, disp: int, aa: bool, lk: bool)
    requires disp % 4 == 0 && -0x8000 <= disp < 0x8000
    requires w == 16 * 0x400_0000 + bo * 0x20_0000 + bi * 0x1_0000 + disp % 0x1_0000 + 2 * Bit(aa) + Bit(lk)
    ensures Decode(w) == Bc(bo, bi, disp, aa, lk)
  {
    var low := disp % 0x1_0000 + 2 * Bit(aa) + Bit(lk);
    FieldReadsBack(disp, 0x1_0000);
    WordFields(w, 16, bo, bi, low);
    FieldAndFlags(w, low, disp % 0x1_0000, aa, lk);
  }

  /** A multiple of four leaves its two low bits to the flags. */
  lemma FieldAndFlags(w: int, low: int, field: int, aa: bool, lk: bool)
    requires field >= 0 && field % 4 == 0 && low == field + 2 * Bit(aa) + Bit(lk) && w % 4 == low % 4
    ensures low / 4 * 4 == field && (w / 2 % 2 == 1) == aa && (w % 2 == 1) == lk
  {
    var q, v := field / 4, w / 4;
    assert field == 4 * q && low / 4 == q;
    assert w == 4 * v + 2 * Bit(aa) + Bit(lk);
    assert w / 2 == 2 * v + Bit(aa);
  }

  lemma FieldReadsBack(disp: int, span: int)
    requires span == 0x1_0000 || span == 0x400_0000
    requires -span <= 2 * disp < span && disp % 4 == 0
    ensures Signed(disp % span, span) == disp && disp % span % 4 == 0
  {
    if span == 0x1_0000 {
      assert disp % 0x1_0000 == if disp < 0 then disp + 0x1_0000 else disp;
    } else {
      assert disp % 0x400_0000 == if disp < 0 then disp + 0x400_0000 else disp;
    }
  }

  /** `b`: opcode 18, twenty-six bits of displacement, AA and LK. */
  lemma UnconditionalWord(w: Word, disp: int, aa: bool, lk: bool)
    requires disp % 4 == 0 && -0x200_0000 <= disp < 0x200_0000
    requires w == 18 * 0x400_0000 + disp % 0x400_0000 + 2 * Bit(aa) + Bit(lk)
    ensures Decode(w) == B(disp, aa, lk)
  {
    var low := disp % 0x400_0000 + 2 * Bit(aa) + Bit(lk);
    FieldReadsBack(disp, 0x400_0000);
    assert w / 0x400_0000 == 18 && w % 0x400_0000 == low;
    FieldAndFlags(w, low, disp % 0x400_0000, aa, lk);
  }

  /** `bclr` and `bcctr`: opcode 19, BO, BI, an extended opcode and LK. */
  lemma RegisterBranchWords(w: Word, v: Word, bo: Field, bi: Field, lk: bool)
    requires w == 19 * 0x400_0000 + bo * 0x20_0000 + bi * 0x1_0000 + 16 * 2 + Bit(lk)
    requires v == 19 * 0x400_0000 + bo * 0x20_0000 + bi * 0x1_0000 + 528 * 2 + Bit(lk)
    ensures Decode(w) == Bclr(bo, bi, lk) && Decode(v) == Bcctr(bo, bi, lk)
  {
    WordFields(w, 19, bo, bi, 16 * 2 + Bit(lk));
    WordFields(v, 19, bo, bi, 528 * 2 + Bit(lk));
  }

  /** `addis` and `ori`: opcodes 15 and 24, two registers and sixteen bits, signed or not. */
  lemma ImmediateWords(w: Word, v: Word, r1: Field, r2: Field, imm: int)
    requires -0x8000 <= imm < 0x8000
    requires w == 15 * 0x400_0000 + r1 * 0x20_0000 + r2 * 0x1_0000 + imm % 0x1_0000
    requires v == 24 * 0x400_0000 + r1 * 0x20_0000 + r2 * 0x1_0000 + imm % 0x1_0000
    ensures Decode(w) == Addis(r1, r2, imm) && Decode(v) == Ori(r1, r2, imm % 0x1_0000)
  {
    WordFields(w, 15, r1, r2, imm % 0x1_0000);
    WordFields(v, 24, r1, r2, imm % 0x1_0000);
  }

  /** `std` and `ld`: opcodes 62 and 58, two registers and a displacement in whole words. */
  lemma DoubleWords(w: Word, v: Word, r1: Field, r2: Field, disp: int)
    requires disp % 4 == 0 && -0x8000 <= disp < 0x8000
    requires w == 62 * 0x400_0000 + r1 * 0x20_0000 + r2 * 0x1_0000 + disp % 0x1_0000
    requires v == 58 * 0x400_0000 + r1 * 0x20_0000 + r2 * 0x1_0000 + disp % 0x1_0000
    ensures Decode(w) == Std(r1, r2, disp) && Decode(v) == Ld(r1, r2, disp)
  {
    FieldReadsBack(disp, 0x1_0000);
    WordFields(w, 62, r1, r2, disp % 0x1_0000);
    WordFields(v, 58, r1, r2, disp % 0x1_0000);
  }

  /** `mtctr rS` is 0x7C0903A6 with the register in its field. */
  lemma CounterWord(w: Word, rs: Field)
    requires w == 0x7C09_03A6 + rs * 0x20_0000
    ensures Decode(w) == Mtctr(rs)
  {
    WordFields(w, 31, rs, 9, 467 * 2);
  }

  // ----- What is emitted -----

  /** The far jump, number by number: `std rX,-0x30(r1)`, `lis`, `ori`, `mtctr`,
      `ld rX,-0x30(r1)` and `bcctr`, without the two of the scratch when nothing is preserved. */
  lemma EmittedWords(target: Word, lk: bool, bo: Field, bi: Field, rx: Field)
    ensures JumpWords(target, lk, true, bo, bi, rx)
         == [0xF801_FFD0 + rx * 0x20_0000, 0x3C00_0000 + rx * 0x20_0000 + target / 0x1_0000,
             0x6000_0000 + rx * 0x21_0000 + target % 0x1_0000, 0x7C09_03A6 + rx * 0x20_0000,
             0xE801_FFD0 + rx * 0x20_0000, 0x4C00_0420 + bo * 0x20_0000 + bi * 0x1_0000 + Bit(lk)]
    ensures JumpWords(target, lk, false, bo, bi, rx)
         == [0x3C00_0000 + rx * 0x20_0000 + target / 0x1_0000, 0x6000_0000 + rx * 0x21_0000 + target % 0x1_0000,
             0x7C09_03A6 + rx * 0x20_0000, 0x4C00_0420 + bo * 0x20_0000 + bi * 0x1_0000 + Bit(lk)]
  {
  }

  /** The hook and the end of a trampoline: r0, `bctr`. */
  lemma HookNumbers(target: Word)
    ensures HookWords(target)
         == [0x3C00_0000 + target / 0x1_0000, 0x6000_0000 + target % 0x1_0000, 0x7C09_03A6, 0x4E80_0420]
    ensures ReturnWords(target)
         == [0xF801_FFD0, 0x3C00_0000 + target / 0x1_0000, 0x6000_0000 + target % 0x1_0000, 0x7C09_03A6,
             0xE801_FFD0, 0x4E80_0420]
  {
    EmittedWords(target, false, ALWAYS, 0, 0);
  }

  /** A relative `bc`, whatever its fields, is emitted as the far jump to its target with the same
      BO, BI and LK: `beq .+8` becomes `beqctr`, not `bltctr`. */
  lemma RelocatedConditional(w: Word, source: int, bo: Field, bi: Field, disp: int, lk: bool)
    requires disp % 4 == 0 && -0x8000 <= disp < 0x8000
    requires w == 16 * 0x400_0000 + bo * 0x20_0000 + bi * 0x1_0000 + disp % 0x1_0000 + Bit(lk)
    ensures var target := (source + disp) % WORD_SPAN;
            && RelocatedWords(w, source) == JumpWords(target, lk, true, bo, bi, 0)
            && RelocatedWords(w, source)
            == [0xF801_FFD0, 0x3C00_0000 + target / 0x1_0000, 0x6000_0000 + target % 0x1_0000, 0x7C09_03A6,
                0xE801_FFD0, 0x4C00_0420 + bo * 0x20_0000 + bi * 0x1_0000 + Bit(lk)]
  {
    ConditionalWord(w, bo, bi, disp, false, lk);
    EmittedWords((source + disp) % WORD_SPAN, lk, bo, bi, 0);
  }

  /** A relative `b` is emitted as the unconditional far jump. */
  lemma RelocatedUnconditional(w: Word, source: int, disp: int, lk: bool)
    requires disp % 4 == 0 && -0x200_0000 <= disp < 0x200_0000
    requires w == 18 * 0x400_0000 + disp % 0x400_0000 + Bit(lk)
    ensures var target := (source + disp) % WORD_SPAN;
            RelocatedWords(w, source)
            == [0xF801_FFD0, 0x3C00_0000 + target / 0x1_0000, 0x6000_0000 + target % 0x1_0000, 0x7C09_03A6,
                0xE801_FFD0, 0x4E80_0420 + Bit(lk)]
  {
    UnconditionalWord(w, disp, false, lk);
    EmittedWords((source + disp) % WORD_SPAN, lk, ALWAYS, 0, 0);
  }

  /** Every other word is emitted as it is: those that are not `b` or `bc`, and absolute ones. */
  lemma CopiedWord(w: Word, source: int)
    requires (w / 0x400_0000 != 16 && w / 0x400_0000 != 18) || w / 2 % 2 == 1
    ensures RelocatedWords(w, source) == [w]
  {
  }

  // ----- The conditions -----

  /** BO 20 always branches; 12 and 4 test the condition bit for true and false; 16 and 18 count CTR
      down and test it for non-zero and zero, whatever the condition bit. */
  lemma Conditions(bi: Field, disp: int, cpu: Cpu)
    ensures Taken(Bc(20, bi, disp, false, false), cpu)
    ensures Taken(Bc(12, bi, disp, false, false), cpu) == cpu.cr[bi]
    ensures Taken(Bc(4, bi, disp, false, false), cpu) == !cpu.cr[bi]
    ensures Taken(Bc(16, bi, disp, false, false), cpu) <==> cpu.ctr != 1
    ensures Taken(Bc(18, bi, disp, false, false), cpu) <==> cpu.ctr == 1
  {
  }
}
