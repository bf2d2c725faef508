/** The Detour class: far jumps, relocation, hooking and unhooking over the words of one
    process (game_patch_vsh_data/Memory/Detour.cpp:118-284). Every write succeeds.
  */
module Hooking {
  import opened Words
  import opened PowerPC
  import opened Relocation
  import opened Trampoline

  const HOOK_WORDS: nat := 4
  const BUFFER_BYTES: nat := 2048

  // ----- Effects on memory -----

  /** `ws` written word by word from address `a`. */
  function WriteWords(mem: Code, a: int, ws: seq<Word>): Code {
    if ws == [] then mem
    else
      var last := |ws| - 1;
      WriteWords(mem, a, ws[..last])[a + 4 * last := ws[last]]
  }

  predicate Touches(a: int, n: nat, x: int) {
    a <= x < a + 4 * n && (x - a) % 4 == 0
  }

  lemma {:induction false} FetchWritten(mem: Code, a: int, ws: seq<Word>, x: int)
    ensures Fetch(WriteWords(mem, a, ws), x) == if Touches(a, |ws|, x) then ws[(x - a) / 4] else Fetch(mem, x)
  {
    if ws != [] {
      FetchWritten(mem, a, ws[..|ws| - 1], x);
    }
  }

  function ReadWords(mem: Code, a: int, n: nat): (ws: seq<Word>)
    ensures |ws| == n
  {
    seq(n, i requires 0 <= i < n => Fetch(mem, a + 4 * i))
  }

  /** Memory and buffer position after Hook has copied the first `n` displaced instructions. */
  function CopyEffect(mem: Code, start: int, fn: Word, n: nat): (Code, int)
    decreases n, start
  {
    if n == 0 then (mem, start)
    else
      var (copied, cursor) := CopyEffect(mem, start, fn, n - 1);
      CopyOne(copied, cursor, (fn + 4 * (n - 1)) % WORD_SPAN)
  }

  function CopyOne(mem: Code, cursor: int, source: Word): (Code, int) {
    var ws := RelocatedWords(Fetch(mem, source), source);
    (WriteWords(mem, cursor, ws), cursor + 4 * |ws|)
  }

  lemma CopyEffectStep(mem: Code, start: int, fn: Word, n: nat)
    ensures var (copied, cursor) := CopyEffect(mem, start, fn, n);
            CopyEffect(mem, start, fn, n + 1) == CopyOne(copied, cursor, (fn + 4 * n) % WORD_SPAN)
  {
  }

  /** The fields of one detour, as a value. */
  datatype Record = Record(target: Word, address: Word, trampoline: int, saved: seq<Word>,
                           length: nat, opd: (int, Word))

  predicate IsLive(r: Record) {
    r.address != 0 && r.length != 0
  }

  /** The jump back at the end of the trampoline, then the jump over the function. */
  function FinishEffect(copied: Code, cursor: int, fn: Word, target: Word): (Code, int) {
    var returned := WriteWords(copied, cursor, ReturnWords((fn + 4 * HOOK_WORDS) % WORD_SPAN));
    (if fn != 0 then WriteWords(returned, fn, HookWords(target)) else returned, cursor + 24)
  }

  /** Hook: the memory and the buffer position it leaves, and the detour's fields. */
  function HookEffect(mem: Code, start: int, fn: Word, callback: Word, toc: Word): (Code, int, Record) {
    var target := Fetch(mem, callback);
    var saved := ReadWords(mem, fn, HOOK_WORDS);
    var (copied, cursor) := CopyEffect(mem, start, fn, |saved|);
    var (hooked, end) := FinishEffect(copied, cursor, fn, target);
    (hooked, end, Record(target, fn, start, saved, 4 * |saved|, (start, toc)))
  }

  function UnHookEffect(mem: Code, r: Record): (Code, Record) {
    if IsLive(r) then (WriteWords(mem, r.address, r.saved), r.(address := 0, length := 0)) else (mem, r)
  }

  // ----- The classes -----

  /** Memory and the state all detours share. */
  class Process {
    var mem: Code
    var trampolineSize: nat
    const bufferBase: Word
    const currentToc: Word

    constructor (mem: Code, bufferBase: Word, currentToc: Word)
      ensures this.mem == mem && trampolineSize == 0
      ensures this.bufferBase == bufferBase && this.currentToc == currentToc
    {
      this.mem := mem;
      this.trampolineSize := 0;
      this.bufferBase := bufferBase;
      this.currentToc := currentToc;
    }

    method WriteProcessMemory(address: int, words: seq<Word>)
      modifies this`mem
      ensures mem == WriteWords(old(mem), address, words)
    {
      mem := WriteWords(mem, address, words);
    }
  }

  class Detour {
    const process: Process
    var hookTarget: Word
    var hookAddress: Word
    var trampolineAddress: int
    var trampolineOpd: (int, Word)
    var originalInstructions: seq<Word>
    var originalLength: nat

    function View(): Record
      reads this
    {
      Record(hookTarget, hookAddress, trampolineAddress, originalInstructions, originalLength, trampolineOpd)
    }

    constructor (process: Process)
      ensures this.process == process
      ensures View() == Record(0, 0, 0, [], 0, (0, 0)) && !IsLive(View())
    {
      this.process := process;
      hookTarget, hookAddress, trampolineAddress, originalLength := 0, 0, 0, 0;
      originalInstructions, trampolineOpd := [], (0, 0);
    }

    /** Writes a far jump, unless the destination is null; returns its size either way. */
    method JumpWithOptions(destination: int, branchTarget: Word, linked: bool, preserveRegister: bool,
                           branchOptions: Field, conditionRegisterBit: Field, registerIndex: Field)
      returns (size: nat)
      modifies process`mem
      ensures var ws := JumpWords(branchTarget, linked, preserveRegister, branchOptions, conditionRegisterBit,
                                  registerIndex);
              && size == 4 * |ws|
              && process.mem ==
                  if destination != 0 then WriteWords(old(process.mem), destination, ws) else old(process.mem)
    {
      var hi, lo := branchTarget / 0x1_0000, branchTarget % 0x1_0000;
      var branchAsm: seq<Word>;
      if preserveRegister {
        branchAsm := [StdWord(registerIndex, SCRATCH_OFFSET, 1), LisWord(registerIndex, hi),
                      OriWord(registerIndex, registerIndex, lo), MtctrWord(registerIndex),
                      LdWord(registerIndex, SCRATCH_OFFSET, 1),
                      BcctrWord(branchOptions, conditionRegisterBit, linked)];
      } else {
        branchAsm := [LisWord(registerIndex, hi), OriWord(registerIndex, registerIndex, lo),
                      MtctrWord(registerIndex), BcctrWord(branchOptions, conditionRegisterBit, linked)];
      }
      if destination != 0 {
        process.WriteProcessMemory(destination, branchAsm);
      }
      size := 4 * |branchAsm|;
    }

    method Jump(destination: int, branchTarget: Word, linked: bool, preserveRegister: bool) returns (size: nat)
      modifies process`mem
      ensures var ws := JumpWords(branchTarget, linked, preserveRegister, ALWAYS, 0, 0);
              && size == 4 * |ws|
              && process.mem ==
                  if destination != 0 then WriteWords(old(process.mem), destination, ws) else old(process.mem)
    {
      size := JumpWithOptions(destination, branchTarget, linked, preserveRegister, ALWAYS, 0, 0);
    }

    method GetHookSize(branchTarget: Word, linked: bool, preserveRegister: bool) returns (size: nat)
      modifies process`mem
      ensures size == (if preserveRegister then 24 else 16) && process.mem == old(process.mem)
    {
      size := JumpWithOptions(0, branchTarget, linked, preserveRegister, ALWAYS, 0, 0);
    }

    /** Rewrites a b or bc word; absolute branches are copied. */
    method RelocateBranch(destination: int, source: Word) returns (size: nat)
      requires destination != 0
      requires Fetch(process.mem, source) / 0x400_0000 in {16, 18}
      modifies process`mem
      ensures var ws := RelocatedWords(old(Fetch(process.mem, source)), source);
              size == 4 * |ws| && process.mem == WriteWords(old(process.mem), destination, ws)
    {
      var instruction := Fetch(process.mem, source);
      if instruction / 2 % 2 == 1 {
        process.WriteProcessMemory(destination, [instruction]);
        return 4;
      }
      var span: int := 0x400_0000;
      var branchOptions: Field := ALWAYS;
      var conditionRegisterBit: Field := 0;
      if instruction / 0x400_0000 == 16 {
        span := 0x1_0000;
        branchOptions := instruction / 0x20_0000 % 32;
        conditionRegisterBit := instruction / 0x1_0000 % 32;
      }
      var branchOffset := instruction % span / 4 * 4;
      if branchOffset >= span / 2 {
        branchOffset := branchOffset - span;
      }
      var branchAddress := (source + branchOffset) % WORD_SPAN;
      size := JumpWithOptions(destination, branchAddress, instruction % 2 == 1, true, branchOptions,
                              conditionRegisterBit, 0);
    }

    method RelocateCode(destination: int, source: Word) returns (size: nat)
      requires destination != 0
      modifies process`mem
      ensures var ws := RelocatedWords(old(Fetch(process.mem, source)), source);
              size == 4 * |ws| && process.mem == WriteWords(old(process.mem), destination, ws)
    {
      var instruction := Fetch(process.mem, source);
      var opcode := instruction / 0x400_0000;
      if opcode == 18 || opcode == 16 {
        size := RelocateBranch(destination, source);
      } else {
        process.WriteProcessMemory(destination, [instruction]);
        size := 4;
      }
    }

    /** Relocates displaced instruction `i` to the end of the used part of the buffer. */
    method CopyInstruction(i: nat, ghost mem: Code, ghost start: int)
      requires process.bufferBase != 0
      requires (process.mem, process.bufferBase + process.trampolineSize) == CopyEffect(mem, start, hookAddress, i)
      modifies process
      ensures (process.mem, process.bufferBase + process.trampolineSize) == CopyEffect(mem, start, hookAddress, i + 1)
    {
      CopyEffectStep(mem, start, hookAddress, i);
      var instructionAddress := (hookAddress + 4 * i) % WORD_SPAN;
      var size := RelocateCode(process.bufferBase + process.trampolineSize, instructionAddress);
      process.trampolineSize := process.trampolineSize + size;
    }

    /** The copying loop of Hook. */
    method CopyDisplaced(hookSize: nat)
      requires process.bufferBase != 0 && hookSize == 4 * HOOK_WORDS
      modifies process
      ensures (process.mem, process.bufferBase + process.trampolineSize)
           == CopyEffect(old(process.mem), process.bufferBase + old(process.trampolineSize), hookAddress, hookSize / 4)
    {
      var i: nat := 0;
      while i < hookSize / 4
        invariant i <= hookSize / 4
        invariant (process.mem, process.bufferBase + process.trampolineSize)
               == CopyEffect(old(process.mem), process.bufferBase + old(process.trampolineSize), hookAddress, i)
      {
        CopyInstruction(i, old(process.mem), process.bufferBase + old(process.trampolineSize));
        i := i + 1;
      }
    }

    /** The two jumps that Hook writes last. */
    method WriteJumps(hookSize: nat)
      requires process.bufferBase != 0 && hookSize == 4 * HOOK_WORDS
      modifies process
      ensures (process.mem, process.bufferBase + process.trampolineSize)
           == FinishEffect(old(process.mem), process.bufferBase + old(process.trampolineSize), hookAddress, hookTarget)
    {
      // The trampoline goes back to the code after the branch that hooks the function.
      var afterBranch := (hookAddress + hookSize) % WORD_SPAN;
      var size := Jump(process.bufferBase + process.trampolineSize, afterBranch, false, true);
      process.trampolineSize := process.trampolineSize + size;
      size := Jump(hookAddress, hookTarget, false, false);
    }

    /** The displaced code and both jumps. */
    method BuildTrampoline(hookSize: nat)
      requires process.bufferBase != 0 && hookSize == 4 * HOOK_WORDS
      modifies process
      ensures var (copied, cursor) := CopyEffect(old(process.mem), process.bufferBase + old(process.trampolineSize),
                                                 hookAddress, hookSize / 4);
              (process.mem, process.bufferBase + process.trampolineSize)
              == FinishEffect(copied, cursor, hookAddress, hookTarget)
    {
      CopyDisplaced(hookSize);
      WriteJumps(hookSize);
    }

    /** Copies the displaced code to the trampoline, appends the jump back, and writes the jump
        to the callback over the function. */
    method Hook(fnAddress: Word, fnCallback: Word, tocOverride: Word)
      requires process.bufferBase != 0
      modifies this, process
      ensures (process.mem, process.bufferBase + process.trampolineSize, View()) ==
              HookEffect(old(process.mem), process.bufferBase + old(process.trampolineSize), fnAddress, fnCallback,
                         if tocOverride != 0 then tocOverride else process.currentToc)
    {
      hookAddress := fnAddress;
      hookTarget := Fetch(process.mem, fnCallback);
      var hookSize := GetHookSize(hookTarget, false, false);
      originalInstructions := ReadWords(process.mem, hookAddress, hookSize / 4);
      originalLength := hookSize;
      trampolineAddress := process.bufferBase + process.trampolineSize;
      BuildTrampoline(hookSize);
      trampolineOpd := (trampolineAddress, if tocOverride != 0 then tocOverride else process.currentToc);
    }

    /** Puts the saved instructions back, once. */
    method UnHook() returns (done: bool)
      modifies this, process`mem
      ensures done == old(IsLive(View()))
      ensures (process.mem, View()) == UnHookEffect(old(process.mem), old(View()))
    {
      if hookAddress != 0 && originalLength != 0 {
        process.WriteProcessMemory(hookAddress, originalInstructions);
        originalLength := 0;
        hookAddress := 0;
        return true;
      }
      return false;
    }
  }
}
