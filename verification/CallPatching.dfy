/** Re-encoding of I-form branches and the replacement of one call
    (shared/my_memory.cpp:16-41).
  */
module CallPatching {
  import opened Words
  import opened PowerPC
  import opened Hooking

  // ----- The macros -----

  /** MAKE_JUMP_VALUE: the 64-bit difference, cut to 24 bits of word offset. */
  function MakeJump(addr: Word, to: Word): (w: Word) {
    18 * 0x400_0000 + Wrap64(to - addr) / 4 % 0x100_0000 * 4
  }

  function MakeCall(addr: Word, to: Word): (w: Word) {
    MakeJump(addr, to) + 1
  }

  /** READ_JUMP_OFFSET: the field shifted to the top of a signed word and back. */
  function ReadJumpOffset(value: Word): int {
    Signed(value % 0x400_0000 / 4 * 4 * 0x40, WORD_SPAN) / 0x40
  }

  function ReadCallOffset(value: Word): int {
    ReadJumpOffset(value / 2 * 2)
  }

  /** Both readers give the sign-extended displacement, on every I-form word. */
  lemma ReadersAgree(w: Word)
    requires w / 0x400_0000 == 18
    ensures ReadJumpOffset(w) == ReadCallOffset(w)
    ensures Decode(w) == B(ReadJumpOffset(w), w / 2 % 2 == 1, w % 2 == 1)
  {
    var field := w % 0x400_0000 / 4;
    FieldBelowLinkBit(w);
    ShiftUpAndDown(field);
  }

  lemma FieldBelowLinkBit(w: Word)
    ensures w / 2 * 2 % 0x400_0000 / 4 == w % 0x400_0000 / 4
  {
    FieldOfQuotient(w);
    FieldOfQuotient(w / 2 * 2);
    assert w / 2 * 2 / 4 == w / 4;
  }

  lemma FieldOfQuotient(x: nat)
    ensures x % 0x400_0000 / 4 == x / 4 % 0x100_0000
  {
    var hi, lo := x / 0x400_0000, x % 0x400_0000;
    assert x / 4 == hi * 0x100_0000 + lo / 4;
  }

  lemma ShiftUpAndDown(field: int)
    requires 0 <= field < 0x100_0000
    ensures Signed(field * 4 * 0x40, WORD_SPAN) / 0x40 == Signed(field * 4, 0x400_0000)
  {
  }

  lemma MadeField(d: int)
    requires -WORD_SPAN < d < WORD_SPAN
    ensures var f := Wrap64(d) / 4 % 0x100_0000 * 4;
            Signed(f, 0x400_0000) == d <==> d % 4 == 0 && -0x200_0000 <= d < 0x200_0000
  {
    var q := Wrap64(d) / 4;
    var f := q % 0x100_0000;
    if d >= 0 {
      assert Wrap64(d) == d;
    } else {
      assert Wrap64(d) == d + DWORD_SPAN;
      assert q == (d + DWORD_SPAN) / 4;
    }
    var k := q / 0x100_0000;
    assert q == k * 0x100_0000 + f;
  }

  /** A made jump reads back as the distance exactly when the distance is a multiple of four
      within 2^25 bytes; it is then a `b` to the target, and a made call a `bl`. */
  lemma MadeBranchReaches(addr: Word, to: Word)
    ensures addr + ReadJumpOffset(MakeJump(addr, to)) == to <==>
            (to - addr) % 4 == 0 && -0x200_0000 <= to - addr < 0x200_0000
    ensures addr + ReadCallOffset(MakeCall(addr, to)) == to <==>
            (to - addr) % 4 == 0 && -0x200_0000 <= to - addr < 0x200_0000
    ensures Decode(MakeJump(addr, to)) == B(ReadJumpOffset(MakeJump(addr, to)), false, false)
    ensures Decode(MakeCall(addr, to)) == B(ReadJumpOffset(MakeJump(addr, to)), false, true)
  {
    MadeField(to - addr);
    MadeDecodes(Wrap64(to - addr) / 4 % 0x100_0000, MakeJump(addr, to));
  }

  lemma MadeDecodes(f: int, w: Word)
    requires 0 <= f < 0x100_0000 && w == 18 * 0x400_0000 + f * 4
    ensures ReadJumpOffset(w) == Signed(f * 4, 0x400_0000) == ReadCallOffset(w + 1)
    ensures Decode(w) == B(ReadJumpOffset(w), false, false)
    ensures Decode(w + 1) == B(ReadJumpOffset(w), false, true)
  {
    assert w % 0x400_0000 / 4 == f && (w + 1) % 0x400_0000 / 4 == f;
    ShiftUpAndDown(f);
    ReadersAgree(w);
    ReadersAgree(w + 1);
  }

  // ----- patch_call_ -----

  /** Memory after the call at `src` was sent to `dst` and the stub at `original` (0 for none)
      was made a jump to the old callee. */
  function PatchCallEffect(mem: Code, src: Word, dst: Word, original: Word): Code {
    var callee := (src + ReadCallOffset(Fetch(mem, src))) % WORD_SPAN;
    var withStub := if original != 0 then mem[original := MakeJump(original, callee)] else mem;
    withStub[src := MakeCall(src, dst)]
  }

  method PatchCall(process: Process, src: Word, dst: Word, original: Word)
    modifies process`mem
    ensures process.mem == PatchCallEffect(old(process.mem), src, dst, original)
  {
    var blTo := MakeCall(src, dst);
    var blOriginal := Fetch(process.mem, src);
    if original != 0 {
      var originalCall := (src + ReadCallOffset(blOriginal)) % WORD_SPAN;
      WriteOne(process, original, MakeJump(original, originalCall));
    }
    WriteOne(process, src, blTo);
  }

  method WriteOne(process: Process, address: Word, w: Word)
    modifies process`mem
    ensures process.mem == old(process.mem)[address := w]
  {
    process.WriteProcessMemory(address, [w]);
    assert WriteWords(old(process.mem), address, [w][..0]) == old(process.mem);
  }

  ghost predicate NearBranch(from: Word, to: Word) {
    (to - from) % 4 == 0 && -0x200_0000 <= to - from < 0x200_0000
  }

  /** After patch_call_ on a `bl`: the site calls the new function and returns where it did; the
      stub, if there is one, goes where the site used to call without touching LR; and no other
      word changed. */
  lemma PatchedCallBehaves(other: Semantics, mem: Code, src: Word, dst: Word, original: Word, i: Instr, cpu: Cpu)
    requires i == Decode(Fetch(mem, src)) && i.B? && !i.aa && i.lk
    requires src + 4 < WORD_SPAN && 0 <= src + i.li < WORD_SPAN && NearBranch(src, dst)
    requires original != 0 ==> original != src && NearBranch(original, src + i.li)
    ensures var mem' := PatchCallEffect(mem, src, dst, original);
            var before := Step(other, Fetch(mem, src), src, cpu);
            && before == Running(src + i.li, cpu.(lr := src + 4))
            && Step(other, Fetch(mem', src), src, cpu) == Running(dst, before.cpu)
            && (original != 0 ==> Step(other, Fetch(mem', original), original, cpu) == Running(before.pc, cpu))
            && forall a :: a != src && (original == 0 || a != original) ==> Fetch(mem', a) == Fetch(mem, a)
  {
    OldCallee(mem, src, i);
    CallGoes(other, src, dst, cpu);
    NearJumpGoes(other, Fetch(mem, src), src, src + i.li, true, cpu);
    if original != 0 {
      PatchedWords(mem, src, dst, original, src + i.li);
      StubGoes(other, original, src + i.li, cpu);
    }
  }

  lemma CallGoes(other: Semantics, from: Word, to: Word, cpu: Cpu)
    requires NearBranch(from, to)
    ensures Step(other, MakeCall(from, to), from, cpu) == Running(to, cpu.(lr := from + 4))
  {
    MadeBranchReaches(from, to);
    NearJumpGoes(other, MakeCall(from, to), from, to, true, cpu);
  }

  lemma StubGoes(other: Semantics, from: Word, to: Word, cpu: Cpu)
    requires NearBranch(from, to)
    ensures Step(other, MakeJump(from, to), from, cpu) == Running(to, cpu)
  {
    MadeBranchReaches(from, to);
    NearJumpGoes(other, MakeJump(from, to), from, to, false, cpu);
  }

  lemma OldCallee(mem: Code, src: Word, i: Instr)
    requires i == Decode(Fetch(mem, src)) && i.B?
    ensures ReadCallOffset(Fetch(mem, src)) == i.li
  {
    ReadersAgree(Fetch(mem, src));
  }

  lemma PatchedWords(mem: Code, src: Word, dst: Word, original: Word, callee: Word)
    requires original != 0 && original != src && src + ReadCallOffset(Fetch(mem, src)) == callee
    ensures var mem' := PatchCallEffect(mem, src, dst, original);
            && Fetch(mem', src) == MakeCall(src, dst) && Fetch(mem', original) == MakeJump(original, callee)
            && forall a :: a != src && a != original ==> Fetch(mem', a) == Fetch(mem, a)
  {
    TwoWords(mem, original, MakeJump(original, callee), src, MakeCall(src, dst));
  }

  lemma TwoWords(mem: Code, a: Word, v: Word, b: Word, u: Word)
    requires a != b
    ensures var mem' := mem[a := v][b := u];
            && Fetch(mem', a) == v && Fetch(mem', b) == u
            && forall x :: x != a && x != b ==> Fetch(mem', x) == Fetch(mem, x)
  {
  }

  lemma NearJumpGoes(other: Semantics, w: Word, pc: Word, to: Word, lk: bool, cpu: Cpu)
    requires Decode(w) == B(to - pc, false, lk) && pc + 4 < DWORD_SPAN
    ensures Step(other, w, pc, cpu) == Running(to, if lk then cpu.(lr := pc + 4) else cpu)
  {
  }
}
