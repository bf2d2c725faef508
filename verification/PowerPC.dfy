/** The part of the PowerPC user-level machine that relocated code is made of: branches
    (Power ISA Book I, section 2.4), the fixed-point instructions the far jump uses
    (section 3.3) and an abstract meaning for every other word.

    Words, addresses and registers are integers; widths and wrap-around are explicit.
    Instructions are fetched from a code map that execution does not write.
  */
module PowerPC {
  import opened Words

  const DWORD_SPAN: int := 0x1_0000_0000_0000_0000

  type DWord = d: int | 0 <= d < 0x1_0000_0000_0000_0000
  type Field = f: int | 0 <= f < 32

  type Gprs = g: seq<DWord> | |g| == 32 witness seq(32, _ => 0)
  type CrBits = c: seq<bool> | |c| == 32 witness seq(32, _ => false)

  /** Data memory by byte address; a byte that was never stored reads as zero. */
  type Memory = map<int, Byte>

  /** The registers and data memory of one thread. `aux` stands for every register not named. */
  datatype Cpu = Cpu(gpr: Gprs, lr: DWord, ctr: DWord, cr: CrBits, aux: int, data: Memory)

  datatype Machine = Running(pc: DWord, cpu: Cpu) | InvalidForm

  /** Process memory seen as instruction words, by address. */
  type Code = map<int, Word>

  /** The meaning of words outside the modelled subset: it does not see the program counter. */
  type Semantics = (Word, Cpu) -> Cpu

  datatype Instr =
    | B(li: int, aa: bool, lk: bool)
    | Bc(bo: Field, bi: Field, bd: int, aa: bool, lk: bool)
    | Bclr(bo: Field, bi: Field, lk: bool)
    | Bcctr(bo: Field, bi: Field, lk: bool)
    | Addis(rt: Field, ra: Field, si: int)
    | Ori(rs: Field, ra: Field, ui: nat)
    | Mtctr(rs: Field)
    | Std(rs: Field, ra: Field, ds: int)
    | Ld(rt: Field, ra: Field, ds: int)
    | Other(word: Word)
  {
    predicate IsRelative() {
      (B? || Bc?) && !aa
    }

    predicate IsBranch() {
      B? || Bc? || Bclr? || Bcctr?
    }

    /** The displacement of a relative branch. */
    function Displacement(): int
      requires IsRelative()
    {
      if B? then li else bd
    }

    predicate Links() {
      IsBranch() && lk
    }
  }

  // ----- Arithmetic -----

  function Wrap64(x: int): DWord {
    x % DWORD_SPAN
  }

  /** Two's complement reading of the low bits of a field whose values lie below `span`. */
  function Signed(x: int, span: int): int {
    if x < span / 2 then x else x - span
  }

  function BitOr(a: nat, b: nat): (r: nat)
    ensures a == 0 ==> r == b
    ensures b == 0 ==> r == a
    decreases a + b
  {
    if a == 0 then b
    else if b == 0 then a
    else 2 * BitOr(a / 2, b / 2) + (if a % 2 == 1 || b % 2 == 1 then 1 else 0)
  }

  // ----- Data memory -----

  function Peek(m: Memory, a: int): Byte {
    if a in m then m[a] else 0
  }

  function Pow256(n: nat): (p: int)
    ensures p >= 1
  {
    if n == 0 then 1 else 256 * Pow256(n - 1)
  }

  /** Big-endian store of `v` in the bytes from `lo` up to `hi`. */
  function Store(m: Memory, lo: int, hi: int, v: nat): (m': Memory)
    ensures forall a :: !(lo <= a < hi) ==> Peek(m', a) == Peek(m, a)
    decreases hi - lo
  {
    if hi <= lo then m else Store(m, lo, hi - 1, v / 256)[hi - 1 := v % 256]
  }

  function Load(m: Memory, lo: int, hi: int): (v: nat)
    requires lo <= hi
    ensures v < Pow256(hi - lo)
    decreases hi - lo
  {
    if lo == hi then 0 else 256 * Load(m, lo, hi - 1) + Peek(m, hi - 1)
  }

  lemma LoadFrame(m: Memory, m': Memory, lo: int, hi: int)
    requires lo <= hi
    requires forall a :: lo <= a < hi ==> Peek(m, a) == Peek(m', a)
    ensures Load(m, lo, hi) == Load(m', lo, hi)
    decreases hi - lo
  {
  }

  lemma {:induction false} LoadStored(m: Memory, lo: int, hi: int, v: nat)
    requires lo <= hi && v < Pow256(hi - lo)
    ensures Load(Store(m, lo, hi, v), lo, hi) == v
    decreases hi - lo
  {
    if lo < hi {
      var before := Store(m, lo, hi - 1, v / 256);
      LoadStored(m, lo, hi - 1, v / 256);
      LoadFrame(before, before[hi - 1 := v % 256], lo, hi - 1);
    }
  }

  // ----- Decoding -----

  function Decode(w: Word): Instr {
    var opcode := w / 0x400_0000;
    var r1 := w / 0x20_0000 % 32;
    var r2 := w / 0x1_0000 % 32;
    var xo := w / 2 % 1024;
    var aa := w / 2 % 2 == 1;
    var lk := w % 2 == 1;
    if opcode == 18 then B(Signed(w % 0x400_0000 / 4 * 4, 0x400_0000), aa, lk)
    else if opcode == 16 then Bc(r1, r2, Signed(w % 0x1_0000 / 4 * 4, 0x1_0000), aa, lk)
    else if opcode == 19 && xo == 16 then Bclr(r1, r2, lk)
    else if opcode == 19 && xo == 528 then Bcctr(r1, r2, lk)
    else if opcode == 15 then Addis(r1, r2, Signed(w % 0x1_0000, 0x1_0000))
    else if opcode == 24 then Ori(r1, r2, w % 0x1_0000)
    else if opcode == 31 && xo == 467 && w / 0x800 % 1024 == 288 then Mtctr(r1)
    else if opcode == 62 && w % 4 == 0 then Std(r1, r2, Signed(w % 0x1_0000, 0x1_0000))
    else if opcode == 58 && w % 4 == 0 then Ld(r1, r2, Signed(w % 0x1_0000, 0x1_0000))
    else Other(w)
  }

  // ----- Branch conditions -----

  /** The BO bit that says "do not decrement CTR". */
  predicate KeepsCtr(bo: Field) {
    bo / 4 % 2 == 1
  }

  function CountedCtr(bo: Field, ctr: DWord): DWord {
    if KeepsCtr(bo) then ctr else Wrap64(ctr - 1)
  }

  predicate CtrOk(bo: Field, ctr: DWord) {
    KeepsCtr(bo) || (CountedCtr(bo, ctr) != 0) != (bo / 2 % 2 == 1)
  }

  predicate CondOk(bo: Field, bi: Field, cr: CrBits) {
    bo / 16 == 1 || cr[bi] == (bo / 8 % 2 == 1)
  }

  /** Whether the instruction transfers control when executed with these registers. */
  predicate Taken(i: Instr, cpu: Cpu) {
    match i
    case B(_, _, _) => true
    case Bc(bo, bi, _, _, _) => CtrOk(bo, cpu.ctr) && CondOk(bo, bi, cpu.cr)
    case Bclr(bo, bi, _) => CtrOk(bo, cpu.ctr) && CondOk(bo, bi, cpu.cr)
    case Bcctr(bo, bi, _) => CondOk(bo, bi, cpu.cr)
    case _ => false
  }

  // ----- Execution -----

  function Link(cpu: Cpu, pc: DWord, lk: bool): Cpu {
    if lk then cpu.(lr := Wrap64(pc + 4)) else cpu
  }

  function Base(cpu: Cpu, ra: Field): DWord {
    if ra == 0 then 0 else cpu.gpr[ra]
  }

  function SetGpr(cpu: Cpu, r: Field, v: DWord): Cpu {
    cpu.(gpr := cpu.gpr[r := v])
  }

  /** A doubleword access near the top of the address space would wrap; addresses are taken
      modulo the address space at their first byte only. */
  function EffectiveAddress(cpu: Cpu, ra: Field, ds: int): DWord {
    Wrap64(Base(cpu, ra) + ds)
  }

  function StoreDouble(m: Memory, ea: int, v: DWord): Memory {
    Store(m, ea, ea + 8, v)
  }

  function LoadDouble(m: Memory, ea: int): (v: DWord) {
    assert Pow256(8) == DWORD_SPAN;
    Load(m, ea, ea + 8)
  }

  lemma LoadStoredDouble(m: Memory, ea: int, v: DWord)
    ensures LoadDouble(StoreDouble(m, ea, v), ea) == v
  {
    assert Pow256(8) == DWORD_SPAN;
    LoadStored(m, ea, ea + 8, v);
  }

  /** Every instruction that is not a branch. */
  function Execute(other: Semantics, i: Instr, cpu: Cpu): Cpu
    requires !i.IsBranch()
  {
    match i
    case Addis(rt, ra, si) => SetGpr(cpu, rt, Wrap64(Base(cpu, ra) + si * 0x1_0000))
    case Ori(rs, ra, ui) => SetGpr(cpu, ra, Wrap64(BitOr(cpu.gpr[rs], ui)))
    case Mtctr(rs) => cpu.(ctr := cpu.gpr[rs])
    case Std(rs, ra, ds) => cpu.(data := StoreDouble(cpu.data, EffectiveAddress(cpu, ra, ds), cpu.gpr[rs]))
    case Ld(rt, ra, ds) => SetGpr(cpu, rt, LoadDouble(cpu.data, EffectiveAddress(cpu, ra, ds)))
    case Other(w) => other(w, cpu)
  }

  /** One word at `pc`. */
  function Step(other: Semantics, w: Word, pc: DWord, cpu: Cpu): Machine {
    Perform(other, Decode(w), pc, cpu)
  }

  function Perform(other: Semantics, i: Instr, pc: DWord, cpu: Cpu): Machine {
    var next := Wrap64(pc + 4);
    match i
    case B(li, aa, lk) =>
      Running(Wrap64(if aa then li else pc + li), Link(cpu, pc, lk))
    case Bc(bo, bi, bd, aa, lk) =>
      Running(if Taken(i, cpu) then Wrap64(if aa then bd else pc + bd) else next,
              Link(cpu.(ctr := CountedCtr(bo, cpu.ctr)), pc, lk))
    case Bclr(bo, bi, lk) =>
      Running(if Taken(i, cpu) then cpu.lr / 4 * 4 else next,
              Link(cpu.(ctr := CountedCtr(bo, cpu.ctr)), pc, lk))
    case Bcctr(bo, bi, lk) =>
      if !KeepsCtr(bo) then InvalidForm  // "decrement and test CTR" is not a bcctr form
      else Running(if Taken(i, cpu) then cpu.ctr / 4 * 4 else next, Link(cpu, pc, lk))
    case _ => Running(next, Execute(other, i, cpu))
  }

  function Fetch(code: Code, pc: int): Word {
    if pc in code then code[pc] else 0
  }

  /** `n` instructions, stopping early only at an invalid form. */
  function Steps(other: Semantics, code: Code, m: Machine, n: nat): Machine
    decreases n
  {
    if n == 0 || m.InvalidForm? then m
    else Steps(other, code, Step(other, Fetch(code, m.pc), m.pc, m.cpu), n - 1)
  }

  lemma {:induction false} StepsAdd(other: Semantics, code: Code, m: Machine, a: nat, b: nat)
    ensures Steps(other, code, m, a + b) == Steps(other, code, Steps(other, code, m, a), b)
    decreases a
  {
    if a > 0 && m.Running? {
      StepsAdd(other, code, Step(other, Fetch(code, m.pc), m.pc, m.cpu), a - 1, b);
    }
  }

  lemma StepsAhead(other: Semantics, code: Code, pc: DWord, cpu: Cpu, m: Machine, n: nat)
    requires Step(other, Fetch(code, pc), pc, cpu) == m
    ensures Steps(other, code, Running(pc, cpu), 1 + n) == Steps(other, code, m, n)
  {
  }

  lemma NoSteps(other: Semantics, code: Code, m: Machine)
    ensures Steps(other, code, m, 0) == m
  {
  }

  function ExecuteAll(other: Semantics, prog: seq<Instr>, cpu: Cpu): Cpu
    requires forall i <- prog :: !i.IsBranch()
  {
    if prog == [] then cpu else ExecuteAll(other, prog[1..], Execute(other, prog[0], cpu))
  }

  lemma ExecuteCons(other: Semantics, i: Instr, rest: seq<Instr>, cpu: Cpu)
    requires !i.IsBranch() && forall j <- rest :: !j.IsBranch()
    ensures forall j <- [i] + rest :: !j.IsBranch()
    ensures ExecuteAll(other, [i] + rest, cpu) == ExecuteAll(other, rest, Execute(other, i, cpu))
  {
    assert ([i] + rest)[1..] == rest;
  }

  /** Straight-line code: as many steps as instructions, whatever follows. */
  lemma {:induction false} RunStraight(other: Semantics, code: Code, p: DWord, cpu: Cpu, prog: seq<Instr>, n: nat)
    requires p + 4 * |prog| < DWORD_SPAN && forall i <- prog :: !i.IsBranch()
    requires forall k :: 0 <= k < |prog| ==> Decode(Fetch(code, p + 4 * k)) == prog[k]
    ensures Steps(other, code, Running(p, cpu), |prog| + n)
         == Steps(other, code, Running(p + 4 * |prog|, ExecuteAll(other, prog, cpu)), n)
    decreases |prog|
  {
    if prog != [] {
      assert Decode(Fetch(code, p + 4 * 0)) == prog[0];
      var c := Execute(other, prog[0], cpu);
      forall k | 0 <= k < |prog[1..]|
        ensures Decode(Fetch(code, p + 4 + 4 * k)) == prog[1..][k]
      {
        assert Decode(Fetch(code, p + 4 * (k + 1))) == prog[k + 1];
      }
      RunStraight(other, code, p + 4, c, prog[1..], n);
      RunPlain(other, code, p, cpu, prog[0], |prog[1..]| + n);
    }
  }

  lemma RunPlain(other: Semantics, code: Code, p: DWord, cpu: Cpu, i: Instr, n: nat)
    requires p + 4 < DWORD_SPAN && !i.IsBranch() && Decode(Fetch(code, p)) == i
    ensures Steps(other, code, Running(p, cpu), 1 + n) == Steps(other, code, Running(p + 4, Execute(other, i, cpu)), n)
  {
    assert Perform(other, i, p, cpu) == Running(p + 4, Execute(other, i, cpu));
  }

  /** The words `ws` stand in memory from address `a` on. */
  ghost predicate CodeAt(code: Code, a: int, ws: seq<Word>) {
    forall i :: 0 <= i < |ws| ==> Fetch(code, a + 4 * i) == ws[i]
  }
}
