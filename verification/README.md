# A model of the game patcher

The repository patches running games on a PowerPC console. This project models the parts of it
that are hardest to trust by reading:

- **Hooking** (`Words`, `PowerPC`, `Relocation`, `Encodings`, `Trampoline`, `Hooking`, `HookRuns`,
  `CallPatching`). A small 64-bit PowerPC machine, the far jumps that `Detour` writes, the relocation of
  displaced branches, and whole runs of hooks and unhooks over one trampoline buffer. The main results:
  a trampoline simulates the instructions it displaced; memory is always the original code
  overlaid with the standing jumps; trampolines are never touched again; chained hooks reach each
  other's callbacks.
- **Text** (`CText`, `QuotedText`, `EscapeForms`, `StringList`, `ListText`). The quoted-string and list
  parsers, proved against specification functions, with printers and round trips, the exact condition
  under which the list round trip holds, and the readings of text as it is written by hand.
- **Patch files** (`LineReader`, `PatchLines`, `LineText`, `FileText`, `PatchFile`, `Crashes`,
  `StreamedBlocks`, `LowMemory`, `PatchMetadata`, `MetadataFields`, `WholeFiles`, `StreamedFiles`,
  `PatchParser`) and **plugin lists** (`Plugins`, `PluginText`). The streaming parsers as classes whose
  methods are proved against a state machine over lines; the state machine is proved equal to splitting
  the file into blocks and reading each block alone, in every mode; and whole files are followed from
  their text to the records, the kept patches, the calls and the configurations that come out.
- **Patch states, numbers, hashes** (`PatchState`, `Numbers`, `Fnv`). The state file as a finite
  map, number parsing modulo the word size, and the identifier hash.

Conventions. Machine words are integers with explicit wrap-around. C strings are sequences without
their terminating NUL. Whether `char` is signed, the width of `unsigned long` and what an
unmodelled instruction does are parameters. A `size_t` has 32 bits on the console and
64 in the program on the host, so the size of the state records wraps on the console only. The state
file holds words as the console has them in memory, the highest byte first. Code memory and data memory
are separate: displaced code does not modify code. Reads, writes and allocations succeed.

Where the program and its own comment differ, the program is followed: `strtoul` carries the comment
that overflow gives ULONG_MAX (game_patch/lv2_stdio.h:257-264), but the code wraps
(`Numbers.StrtoulReads`) and leaves a negated ULONG_MAX as it is (`Numbers.NegationExactly`).

Properties one would expect that fail, with the exact condition under which they hold:

- The hexadecimal test of `string_to_int` and `string_to_uint` looks at the first two characters
  only: with white space or a sign before the prefix the text reads as 0
  (`Numbers.ShiftedHexReadsAsZero`). Unsigned hexadecimal text reads as its value if and only if
  nothing stands before the prefix or the value is zero (`Numbers.PrefixedHexExactly`).
- A printed signed value reads back as itself if and only if `unsigned long` has 64 bits or the value
  is not negative and fits it (`Numbers.SignedRoundTripExactly`).
- A counting `bdnz` in a hooked function turns into an invalid `bcctr` form
  (`Relocation.CountingBranchIsLost`); the exact condition is in
  `Relocation.RelocatedBranchMatches`.
- Targets from 2^31 on are missed, because `lis` sign-extends (`Relocation.FarAddressOf`).
- The list scanner takes a closing quote after a backslash for an escaped one
  (`StringList.ListRoundTripExactly`).
- A file whose last line ends in a bare carriage return is never read to its end
  (`LineReader.ReadLineEndsExactly`). The size of the line buffer is not looked at: reading stays
  inside it if and only if there is room for the line and its terminator, which stands one byte
  further at the end of the file (`LineReader.ReadLineFitsExactly`).
- A field line is read into its own field if and only if no key that is looked for earlier occurs
  anywhere in it (`PatchLines.FieldLineExactly`): `name: "my title: x"` sets the title
  (`PatchLines.KeyInValueDecides`).
- The two readers of the state file disagree when the size of the records wraps on the console
  (`PatchState.WrappedSizeMisreads`). They agree if and only if it does not, or not even the wrapped
  size is there to be read (`PatchState.ReadersAgreeExactly`).
- The low-memory parser does not reset its flag between blocks: a patch for another version of the
  game can be applied (`PatchMetadata.FlagLeaks`). What a file applies is right if and only if each
  of its blocks is, given the flag that the blocks before it leave (`LowMemory.RunIsBatchExactly`,
  and in terms of the blocks alone `LowMemory.SingleVersionRunExactly`).
- Releasing hooks in any order: the invariant survives if and only if every word of the window that
  a later jump covers already equals the saved one (`HookRuns.ReleasedExactly`). Two hooks on one
  function released first-in first-out leave a jump behind (`HookRuns.FirstInFirstOutFails`), so
  memory is restored only if the function was that jump (`HookRuns.FirstInFirstOutExactly`).
- The trampoline buffer is not checked. A run stays inside it if and only if 40 bytes for each hook
  and 20 for each relative branch displaced do (`HookRuns.CapacityExactly`): seventeen hooks always
  fit (`HookRuns.SeventeenHooksFit`), eighteen can need more (`HookRuns.EighteenHooksOverflow`).
- Two parts hashed in turn give the hash of the joined parts if and only if the value in between is
  not zero (`Fnv.ChainingExactly`).
- The low-memory parser crashes if and only if a block has a "patches:" line before it names an
  executable (`StreamedBlocks.RunCrashesExactly`). The others crash if and only if one of the blocks
  does (`Crashes.RunCrashesExactly`): a titled one that names no version, or lacks a text that is copied
  (`Crashes.ListingCrashesExactly`, `Crashes.KeepingCrashesExactly`).
- A comma ends an item of a list even in quotes, if it stands behind the item's own closing quote
  (`ListText.ItemPiece`); a quote that is never closed hides the closing bracket, and there is no list
  (`ListText.UnclosedList`).

Hypotheses. `Trampoline.Safe` collects what the simulation needs along the original run: relocated
`bc` words do not count CTR, relative targets are below 2^31, other displaced instructions do not
depend on CTR, on a relocated link value or on the eight bytes at r1-0x30, and none is an invalid
form. Plain register instructions, stores and loads outside the scratch meet it
(`Trampoline.PlainIsIndependent`, `Trampoline.LoadIsIndependent`), and so does a whole function
prologue with a call (`Trampoline.PrologueIsSafe`). `HookRuns.GoodOp` asks that hooked functions are
aligned, below 2^31 and outside the buffer, that the trampoline fits, and that a release is seamless
in the sense above, which releasing overlapping hooks last-in first-out always is
(`HookRuns.LastInFirstOut`).

## Model

| member | source | states |
|---|---|---|
| Relocation.FarJumpRuns | game_patch_vsh_data/Memory/Detour.cpp:128-155 | run on the machine, the six words of a register-preserving jump end at the target or behind the jump as the condition says, with r0 restored, the return address in LR exactly when linked, and CTR and the scratch slot as the only losses; with a counting BO they are invalid |
| Relocation.ImmediateValue | game_patch_vsh_data/Memory/Detour.cpp:131-132 | `lis` and `ori` together load the target sign-extended from 32 to 64 bits |
| Relocation.FarAddressOf | game_patch_vsh_data/Memory/Detour.cpp:216-218 | a wrapped branch address is reached exactly when the unwrapped one is below 2^31 |
| Relocation.RelocatedBranchRuns | game_patch_vsh_data/Memory/Detour.cpp:157-219 | the words emitted for any relative b, bl, bc or bcl word run to the described outcome, whatever code follows |
| Relocation.RelocatedBranchMatches | game_patch_vsh_data/Memory/Detour.cpp:157-219 | for every relative branch word at any source and destination: the relocation is valid exactly when BO does not count CTR, and then it branches exactly when the original does, sets LR exactly when linked, changes nothing else outside the scratch, and reaches the original target exactly when that is below 2^31 |
| Relocation.CountingBranchIsLost | game_patch_vsh_data/Memory/Detour.cpp:195-199 | a concrete `bdnz` relocates to an invalid form |
| Relocation.HookWordsRun | game_patch_vsh_data/Memory/Detour.cpp:130-135 | the four words over a hooked function go to the callback, losing r0 and CTR only |
| Encodings.ConditionalWord | game_patch_vsh_data/Memory/Detour.cpp:190-201 | the number 16*2^26 + BO*2^21 + BI*2^16 + displacement + AA + LK decodes to that `bc`, for all five fields |
| Encodings.UnconditionalWord | game_patch_vsh_data/Memory/Detour.cpp:177-187 | the same for `b` |
| Encodings.RegisterBranchWords | game_patch_vsh_data/Memory/Detour.cpp:83 | the same for `bclr` and `bcctr` |
| Encodings.EmittedWords | game_patch_vsh_data/Memory/Detour.cpp:128-155 | the four or six numbers of a far jump, field by field |
| Encodings.HookNumbers | game_patch_vsh_data/Memory/Detour.cpp:259-268 | the numbers written over a function and at the end of a trampoline |
| Encodings.RelocatedConditional | game_patch_vsh_data/Memory/Detour.cpp:190-219 | a relative `bc` of any fields is emitted as the far jump to its target with the same BO, BI and LK |
| Encodings.RelocatedUnconditional | game_patch_vsh_data/Memory/Detour.cpp:177-219 | a relative `b` is emitted as the unconditional far jump to its target with the same LK |
| Encodings.CopiedWord | game_patch_vsh_data/Memory/Detour.cpp:157-234 | every word that is not a relative `b` or `bc` is emitted as it is |
| Trampoline.TrampolineSimulates | game_patch_vsh_data/Memory/Detour.cpp:221-269 | from agreeing states, the original instructions and their trampoline reach the same exit with agreeing states: equal registers and memory except CTR, the scratch slots and LR values that are a relocated return point for an original one; also when entered at a return point |
| Trampoline.PlainIsIndependent | game_patch_vsh_data/Memory/Detour.cpp:224-234 | addis, ori, mtctr and std keep agreement of the two runs in every state |
| Trampoline.LoadIsIndependent | game_patch_vsh_data/Memory/Detour.cpp:224-234 | so does ld when its eight bytes miss the scratch |
| Trampoline.PrologueIsSafe | game_patch_vsh_data/Memory/Detour.cpp:252-257 | a prologue of std, lis, ori and bl meets the hypothesis of the simulation on entry, and again when the call returns |
| Trampoline.ExitLeavesWindow | game_patch_vsh_data/Memory/Detour.cpp:259-262 | when no branch of the displaced code lands inside it, the common exit is outside the displaced window, so it is not overwritten code |
| Trampoline.OffsetMonotone | game_patch_vsh_data/Memory/Detour.cpp:252-257 | relocated instructions start word-aligned, 4 to 24 bytes apart |
| Hooking.Detour.JumpWithOptions | game_patch_vsh_data/Memory/Detour.cpp:128-155 | writes exactly the chosen words at a non-null destination, nothing at a null one, and returns their size |
| Hooking.Detour.RelocateBranch | game_patch_vsh_data/Memory/Detour.cpp:157-219 | the bit manipulation computes the words that the specification derives from decoding the instruction, which Encodings.RelocatedConditional, RelocatedUnconditional and CopiedWord give as numbers |
| Hooking.Detour.RelocateCode | game_patch_vsh_data/Memory/Detour.cpp:221-234 | writes the relocated words of any instruction and returns their size |
| Hooking.Detour.Hook | game_patch_vsh_data/Memory/Detour.cpp:236-269 | memory, buffer size and fields after a hook are those of HookEffect, whose meaning HookRuns.HookFacts gives |
| Hooking.Detour.UnHook | game_patch_vsh_data/Memory/Detour.cpp:271-284 | puts the saved words back once, and reports whether it did |
| Hooking.FetchWritten | game_patch_vsh_data/Memory/Detour.cpp:151 | after a write, each word is the written one or the one before |
| HookRuns.HookFacts | game_patch_vsh_data/Memory/Detour.cpp:236-269 | a hook leaves a complete trampoline in the buffer and the jump over the function, saves the displaced words, uses 40 to 120 bytes, and changes nothing else |
| HookRuns.HookThenUnHook | game_patch_vsh_data/Memory/Detour.cpp:236-284 | unhooking right after hooking: outside the trampoline every word is what it was, the detour forgets address and length only, and a second unhook does nothing |
| HookRuns.RunKeepsInv | game_patch_vsh_data/Memory/Detour.cpp:236-284 | every operation of a run keeps the invariant: memory is the original overlaid with the standing jumps, each knows the words under it, and live detours own them one to one |
| HookRuns.MemoryAfterRun | game_patch_vsh_data/Memory/Detour.cpp:236-284 | after any run of hooks and unhooks memory outside the buffer is that overlay, and the original when no jump stands |
| HookRuns.OverlayWithout | game_patch_vsh_data/Memory/Detour.cpp:275 | taking away any standing jump shows what was under it exactly at the words of its window that no later jump covers, and changes nothing elsewhere |
| HookRuns.MemoryReleasedExactly | game_patch_vsh_data/Memory/Detour.cpp:271-284 | releasing any jump, in any order: memory is the overlay of the others if and only if each word of its window that a later jump covers already showed the saved word |
| HookRuns.ReleasedExactly | game_patch_vsh_data/Memory/Detour.cpp:271-284 | unhooking any detour keeps the whole invariant if and only if the release is seamless in memory and in what the later jumps saved |
| HookRuns.LastInFirstOut | game_patch_vsh_data/Memory/Detour.cpp:271-284 | a release that no later standing jump overlaps is always seamless |
| HookRuns.TrampolineStays | game_patch_vsh_data/Memory/Detour.cpp:250-262 | a trampoline starts where the buffer ended, takes 40 to 120 bytes in whole words, and stands unaltered after any further run |
| HookRuns.CapacityExactly | game_patch_vsh_data/Memory/Detour.cpp:250-262 | any orderly run of hooks and unhooks stays inside the 2048 bytes if and only if what is used, 40 bytes for each hook and 20 for each relative branch that the hooks displace do; and then it uses exactly that |
| HookRuns.TrampolineSize | game_patch_vsh_data/Memory/Detour.cpp:157-262 | a trampoline takes 40 bytes and 20 more for each relative branch among the displaced words |
| HookRuns.SeventeenHooksFit | game_patch_vsh_data/Memory/Detour.cpp:94-95 | so any orderly run of at most seventeen hooks stays inside the 2048 bytes |
| HookRuns.FullSizeHook | game_patch_vsh_data/Memory/Detour.cpp:250-262 | so it takes 120 bytes exactly when all four displaced words are relative branches; seventeen such fit the buffer |
| HookRuns.EighteenHooksOverflow | game_patch_vsh_data/Memory/Detour.cpp:250-262 | a run of eighteen hooks on functions made of relative branches uses 2160 bytes of the 2048 |
| HookRuns.FirstInFirstOutExactly | game_patch_vsh_data/Memory/Detour.cpp:271-284 | two hooks on one function released in the order they were made leave the jump of the first; memory is restored if and only if the function consisted of that jump from the start |
| HookRuns.FirstInFirstOutFails | game_patch_vsh_data/Memory/Detour.cpp:271-284 | a concrete function, starting with `ori r0,r0,0`, is not restored |
| HookRuns.OriginalStillRuns | game_patch_vsh_data/Memory/Detour.cpp:236-269 | at any time after any further run, a hook's trampoline simulates what the function did before that hook |
| HookRuns.ChainedOriginal | game_patch_vsh_data/Memory/Detour.cpp:130-135 | after any further run, the original of a hook on an already hooked function goes to the older callback from any state, losing r0 and CTR only |
| HookRuns.Chain | game_patch_vsh_data/Memory/Detour.cpp:221-268 | hooking one function n times: when all is done, each original reaches the callback hooked just before |
| CallPatching.ReadersAgree | shared/my_memory.cpp:19-20 | both offset readers equal the decoder's sign extension on every I-form word |
| CallPatching.MadeBranchReaches | shared/my_memory.cpp:16-20 | reading a made jump or call back gives the target exactly for distances that are multiples of four in [-2^25, 2^25) |
| CallPatching.PatchCall | shared/my_memory.cpp:26-41 | memory after patch_call_ is that of PatchCallEffect, whose meaning PatchedCallBehaves gives |
| CallPatching.PatchedCallBehaves | shared/my_memory.cpp:26-41 | the site calls the new function and returns where it did, the stub, if there is one, goes to the old callee without touching LR, and no other word changes |
| CText.Strstr | game_patch/lv2_stdio.h:30-48 | finds the first occurrence, and none in an empty string |
| CText.FindIsFirst | game_patch/lv2_stdio.h:30-48 | the position found holds the needle and no earlier one does |
| CText.ContainsExactly | game_patch/lv2_stdio.h:30-48 | a text that is not empty is found if and only if it occurs |
| CText.SpaceCodes | game_patch/my_string.h:9-47 | white space is the space and the codes 9 to 13 |
| QuotedText.UnescapeChar | game_patch/my_string.h:93-193 | the loops compute the specification of one character and of how much of the source it takes, whose forms EscapeForms gives one by one |
| QuotedText.UnescapeString | game_patch/my_string.h:195-221 | fills a buffer one byte longer than its source with the unescaped text and a NUL, never writing past what it has read |
| QuotedText.ParseQuotedString | game_patch/my_string.h:223-266 | the content between the first quote and the closing one, unescaped and cut at a NUL, or nothing |
| QuotedText.AcceptedStopsAtContent | game_patch/my_string.h:195-266 | on every accepted input the unescaper stops exactly at the end of the content and writes no more than it reads |
| QuotedText.QuotedRoundTrip | game_patch/my_string.h:223-266 | an escaped, quoted string behind any quote-free prefix and before any suffix parses back to itself |
| QuotedText.OctalFormDecodes | game_patch/my_string.h:93-193 | three octal digits decode to their byte whatever follows |
| QuotedText.HexFormDecodes | game_patch/my_string.h:93-193 | \x and two digits decode to their byte; a third digit is text |
| EscapeForms.HexTwo | game_patch/my_string.h:67-193 | `\x` and two digits, each in either case, give their value whatever follows |
| EscapeForms.HexOne | game_patch/my_string.h:165-186 | `\x` and one digit before anything but a digit, or at the end, give its value and consume three characters |
| EscapeForms.HexNone | game_patch/my_string.h:165-186 | `\x` before anything but a digit gives the letter |
| EscapeForms.OctalThree | game_patch/my_string.h:84-163 | three octal digits give their value modulo 256 whatever follows |
| EscapeForms.OctalTwo | game_patch/my_string.h:84-163 | two before anything but an octal digit give theirs |
| EscapeForms.OctalOne | game_patch/my_string.h:84-163 | so does one, `\0` among them |
| EscapeForms.LetterEscapes | game_patch/my_string.h:103-123 | the seven letters give the codes 7 to 13 |
| EscapeForms.OtherEscapes | game_patch/my_string.h:93-193 | any other escaped character stands for itself |
| EscapeForms.BodyParses | game_patch/my_string.h:223-266 | between quotes any sequence of plain and escaped characters parses to what it stands for, up to a NUL |
| EscapeForms.NoString | game_patch/my_string.h:223-266 | without an opening or a closing quote there is no string |
| StringList.ParseStringList | game_patch/my_string.h:283-379 | stores the items of the list, at most the cap, and returns their number; every loop advances and none passes the terminator |
| StringList.PatchEntryBuffer.ParsePatchEntry | game_patch/patch.c:35-131 | the same items with a cap of eight; the entry's own count is left alone when there is no list |
| StringList.SmallerCapIsPrefix | game_patch/my_string.h:322-376 | a smaller cap yields exactly the first items of what a larger one yields |
| StringList.CappedList | game_patch/patch.c:74-128 | the two parsers agree up to the smaller cap, and entirely when it suffices |
| StringList.ContentOfPrinted | game_patch/my_string.h:283-320 | brackets, commas and quotes inside printed items do not end the list |
| StringList.ListRoundTrip | game_patch/my_string.h:283-379 | a printed list of items none of which ends in a backslash parses back, up to the cap, wherever it stands in the line |
| StringList.ListRoundTripExactly | game_patch/my_string.h:338-352 | the round trip holds if and only if no item ends in a backslash |
| StringList.ItemsNeedBareQuotes | game_patch/my_string.h:338-352 | every parsed item takes two quotes that no backslash precedes |
| ListText.ItemPiece | game_patch/my_string.h:322-376 | an item is read behind any white space, whatever stands between its closing quote and the comma |
| ListText.JunkPiece | game_patch/my_string.h:322-376 | a piece that does not start with a quote yields no item, and reading goes on behind its comma |
| ListText.UnclosedPiece | game_patch/my_string.h:338-352 | an item whose quote is never closed yields nothing and ends the list |
| ListText.WrittenList | game_patch/my_string.h:283-379 | a list of such items and other pieces, with any text before its bracket and behind it, gives the values of its items, up to the cap |
| ListText.NoList | game_patch/my_string.h:283-320 | without an opening bracket, or a closing one among the first 1024 characters, there are no items |
| ListText.UnclosedList | game_patch/my_string.h:297-320 | neither when the closing bracket stands in a quote that is never closed |
| Fnv.StringId | shared/stringid.h:3-14 | the loop computes the fold of the hash step, with a zero base meaning the offset basis |
| Fnv.NextByte | shared/stringid.h:9-12 | each byte is taken in by exclusive or before the multiplication by 0x01000193 modulo 2^32, and a signed one from 128 on with its sign |
| Fnv.NoByte | shared/stringid.h:5-8 | the empty text leaves the base; a zero base is 0x811C9DC5 |
| Fnv.XorBits | shared/stringid.h:11 | each bit of the exclusive or is one exactly when the two bits differ |
| Fnv.LetterA | shared/stringid.h:3-14 | "a" hashed from zero gives 0xE40C292C |
| Fnv.PrimeInvertible | shared/stringid.h:11 | the multiplier has an inverse modulo 2^32 |
| Fnv.FoldInjective | shared/stringid.h:9-12 | over any text, different bases give different hashes |
| Fnv.OneByteChangesTheHash | shared/stringid.h:3-14 | equally long strings that differ in exactly one byte never collide |
| Fnv.ChainingExactly | shared/stringid.h:5-8 | hashing two parts in turn equals hashing them joined if and only if the value in between is not zero |
| Fnv.HashFields | game_patch/patch.c:143-156 | the loop over the fields computes the chain of hashes |
| Fnv.ChainIsOneHash | game_patch/patch.c:143-156 | a chain with no zero value in between is one hash of the joined fields |
| Numbers.Strtoul | game_patch/lv2_stdio.h:69-281 | value and end pointer of the loop, for every input and base, modulo the word size |
| Numbers.StrtoulReads | game_patch/lv2_stdio.h:69-281 | for any white space, sign, prefix, digits and remainder: the signed positional value, wrapped, and an end pointer at the remainder |
| Numbers.HexNumeral | game_patch/lv2_stdio.h:119-234 | hexadecimal digits in any mixture of cases behind 0x read as their positional worth |
| Numbers.DecimalNumeral | game_patch/lv2_stdio.h:132-234 | so do decimal digits without a prefix |
| Numbers.LoneZero | game_patch/lv2_stdio.h:119-130 | the prefix of an octal number is a number by itself: zero, with the end pointer behind it |
| Numbers.BareHexPrefix | game_patch/lv2_stdio.h:119-252 | the prefix of a hexadecimal number is not: the end pointer stays at the start |
| Numbers.NoNumber | game_patch/lv2_stdio.h:95-252 | it also does when no digit follows the white space and the sign |
| Numbers.BadBase | game_patch/lv2_stdio.h:84-94 | nothing is read in a base that is neither 0 nor from 2 to 36 |
| Numbers.DecimalRoundTrip | game_patch/patch.c:1120-1123 | decimal text reads back as its value, wrapped |
| Numbers.HexRoundTrip | game_patch/patch.c:1120-1123 | text behind 0x reads back as its value, wrapped |
| Numbers.SignedRoundTripExactly | game_patch/lv2_stdio.h:286-289 | a 64-bit signed value survives printing and reading if and only if `unsigned long` has 64 bits or the value is not negative and fits it: a shorter result is widened, not reinterpreted |
| Numbers.SignedRoundTrip | game_patch/patch.c:1115-1118 | with a 64-bit `unsigned long` every signed value survives printing and reading |
| Numbers.NegationExactly | game_patch/lv2_stdio.h:265-280 | a minus sign negates modulo the word size if and only if the value is not the largest one |
| Numbers.ShiftedHexReadsAsZero | game_patch/patch.c:1090-1123 | hexadecimal text with white space or a sign before its prefix reads as zero |
| Numbers.PrefixedHexExactly | game_patch/patch.c:1090-1123 | unsigned hexadecimal text behind any white space and sign reads as its value if and only if there is nothing before its prefix or the value is zero |
| Numbers.NegativeHexReadsAsZero | game_patch/patch.c:1090-1118 | so negative hexadecimal text always reads as zero |
| LineReader.FileReadLine | game_patch/lib/file.c:219-259 | reads one line, without carriage returns, into a buffer with a NUL behind it; counts the bytes read and adds the length of the line to the bytes written |
| LineReader.ReadLines | game_patch/plugins.c:228-243 | the loop delivers the newline-split lines, and the bytes read add up to the size of the file |
| LineReader.ReadLineEndsExactly | game_patch/lib/file.c:224-256 | the loop of one read ends if and only if the rest of the file is not an unterminated line ending in a carriage return |
| LineReader.ReadLineFitsExactly | game_patch/lib/file.c:219-259 | no turn of the loop writes past a buffer of any given size if and only if it has room for the line and one byte, or two for an unterminated line at the end of the file |
| LineReader.SplitRoundTrip | game_patch/lib/file.c:219-259 | lines printed with either ending, and an unterminated last one, split back into themselves |
| LineReader.LineWithReturns | game_patch/lib/file.c:224-256 | carriage returns are dropped wherever they stand in a line |
| PatchState.StateFile.WritePatchState | game_patch/patch.c:981-1021 | the file after a write is that of the updated records |
| PatchState.StateFile.ReadPatchState | game_patch/patch.c:1024-1046 | the flag of the first record with the hash, or -1 |
| PatchState.StateFile.TogglePatchState | game_patch/patch.c:1049-1069 | writes the opposite flag, and true for an unknown hash; returns what it wrote |
| PatchState.ReadersAgreeExactly | game_patch/patch.c:880-979 | for any file and whatever a partly read header leaves on the stack: the two readers hand over the same records, and the console's array is as long as its count says, if and only if the header is bad, the size of the records does not wrap, or not even the wrapped size is there to be read |
| PatchState.WrappedSizeMisreads | game_patch/patch.c:956-966 | a file of sixteen bytes that claims 858993460 records: the host reads none, the console claims all of them with an array of four bytes |
| PatchState.ConsoleAnswers | game_patch/patch.c:1024-1046 | where the readers agree a lookup on the console gives the host's answer; on that file it walks out of its array whatever the hash |
| PatchState.FileRoundTrip | game_patch/patch.c:849-979 | what the writer wrote decodes to the records written |
| PatchState.HeaderBytes | game_patch/patch.c:849-876 | a written file starts with "ILNY", the version 1 and the number of records |
| PatchState.RecordBytes | game_patch/patch.c:849-876 | each record is the hash and the flag, five bytes each |
| PatchState.FirstWriteBytes | game_patch/patch.c:981-1021 | the seventeen bytes of the first write |
| PatchState.WriteReplaces | game_patch/patch.c:981-1021 | a write replaces the first record of its hash where it stands, or adds one at the end, with flag 1 or 0 |
| PatchState.FirstRecordDecides | game_patch/patch.c:1024-1046 | the first record of a hash answers, and any flag but zero is on |
| PatchState.ReadsExactly | game_patch/patch.c:880-936 | for any three words and any bytes behind them: the records are read, byte for byte, if and only if the words are "ILNY", 1 and a count of records that are all there |
| PatchState.ConsoleReadsExactly | game_patch/patch.c:938-979 | the same on the console, with the size of the records taken modulo 2^32 |
| PatchState.RunRefines | game_patch/patch.c:981-1069 | over any run of writes and toggles the file represents the finite map that the operations describe |
| PatchState.FileIsMap | game_patch/patch.c:849-1069 | from an absent file: a read gives the last value of its hash or -1, hashes stay unique, the file is 12 + 5 bytes per hash, and the console reads it alike if and only if their size does not wrap |
| PatchState.DoubleToggle | game_patch/patch.c:1049-1069 | toggling a known hash twice gives back the file byte for byte |
| Plugins.PluginParser.EmitCurrentConfig | game_patch/plugins.c:69-85 | hands over the current configuration and frees exactly what it owned |
| Plugins.PluginParser.FreePluginConfig | game_patch/plugins.c:7-45 | frees every owned string once and owns nothing afterwards |
| Plugins.PluginParser.AddPlugin | game_patch/plugins.c:89-121 | appends the quoted path, or nothing |
| Plugins.PluginParser.ProcessLine | game_patch/plugins.c:124-198 | one line is one step of the state machine; no string is owned twice or after it was freed |
| Plugins.PluginParser.ParsePlugin | game_patch/plugins.c:228-246 | over a whole file the callback sees exactly the configurations of the grouping |
| Plugins.TraceIsGrouping | game_patch/plugins.c:124-246 | for any lines, one configuration for each header, in order, each made of the lines up to the next header |
| Plugins.ConfigContents | game_patch/plugins.c:138-197 | a configuration has its header's name, the paths of its section in file order the versions of its last version line that has any, and whether the last one was a list |
| PluginText.Decides | game_patch/plugins.c:124-198 | for any line with any indentation: which of the tests decides, in terms of the texts that occur in it |
| PluginText.HeaderLine | game_patch/plugins.c:138-151 | "- app:" names the application by the first quoted text behind it |
| PluginText.UnnamedHeader | game_patch/plugins.c:138-151 | without one it starts a configuration without a name |
| PluginText.VersionsLine | game_patch/plugins.c:152-172 | "app_ver:" and a list give its first sixteen items |
| PluginText.VersionLine | game_patch/plugins.c:173-182 | otherwise the first quoted text behind the key, whatever is quoted before it |
| PluginText.NoVersion | game_patch/plugins.c:173-182 | and none when there is none |
| PluginText.PathLine | game_patch/plugins.c:189-197 | a dash and a quoted text give that path if and only if no other test decides |
| PluginText.SourceReads | game_patch/plugins.c:124-198 | every written line asks for what it means |
| PluginText.FileToConfigs | game_patch/plugins.c:124-246 | a printed plugin list, with lines laid out in any of these ways and remarks between them: the callback sees one configuration for each application, with its name, versions and paths |
| PatchLines.Trim | game_patch/my_string.h:29-47 | the text without the white space at both ends |
| PatchLines.FieldLineExactly | game_patch/patch.c:347-390 | a printed field line with any white space around it gives that field with that value if and only if no key looked for earlier occurs in it, in the value included, and at the top level no "titleid:" or "patch:" does |
| PatchLines.KeyInValueDecides | game_patch/patch.c:361-385 | a value that contains an earlier key is never read into its own field; one with "title:" in it sets the title |
| LineText.Remarks | game_patch/patch.c:336-339 | blank lines and lines whose first character is a hash sign say nothing, whatever follows |
| LineText.HeaderExactly | game_patch/patch.c:344-359 | any other line is a block header if and only if it does not start with a space and "patch:" occurs in it but "titleid:" does not |
| LineText.IdentifiersExactly | game_patch/patch.c:344-354 | it names identifiers if and only if it does not start with a space and "titleid:" occurs in it |
| LineText.IdentifierLine | game_patch/patch.c:344-354 | those are the first sixteen items of the list, however it is written |
| LineText.VersionsLine | game_patch/patch.c:385-403 | "app_ver:" and a list give its first sixteen items if and only if no key looked for earlier occurs in the line |
| LineText.VersionLine | game_patch/patch.c:385-412 | "app_ver:" and a quoted text give that one version under the same condition |
| LineText.SectionLine | game_patch/patch.c:413-447 | "patches:" starts the entries if and only if none of the earlier keys occurs in the line |
| LineText.EntryLine | game_patch/patch.c:449-452 | "- " and a list give its first eight items if and only if no key occurs in the line |
| LineText.NothingLine | game_patch/patch.c:330-487 | a line that starts no entry asks for nothing if and only if no key occurs in it |
| FileText.FieldReads | game_patch/patch.c:361-384 | a field line gives its field, in terms of the texts that occur in the line |
| FileText.FieldWithout | game_patch/patch.c:361-384 | without a quoted text it takes the field away, under the same condition |
| FileText.ColonFreeField | game_patch/patch.c:361-384 | an indented field whose value has no colon is always read into its own field |
| FileText.SourceReads | game_patch/patch.c:330-487 | every written line asks for what it means |
| PatchFile.RunIsBlocks | game_patch/patch.c:231-487 | in the collecting modes, for any lines: the parser yields what its blocks yield, each read alone from nothing and numbered in order, a "patch:" line ending a block only if it has a title; it crashes exactly when one of the blocks would |
| PatchFile.RunIsPlainBlocks | game_patch/patch.c:231-487 | when every block has a title, the blocks are the stretches between the "patch:" lines |
| PatchFile.BlockContents | game_patch/patch.c:361-486 | a block says the last value of each field, the versions of its last version line, and its well-formed items after the first "patches:" line in file order |
| PatchFile.KeepingIsFiltering | game_patch/patch.c:248-311 | keeping the patches of one title gives the metadata that listing gives, filtered by title and version, and crashes on no file that can be listed |
| PatchFile.PatchNumbersDiffer | game_patch/patch.c:177-178 | no two patches of a file get the same number |
| WholeFiles.FileReads | game_patch/patch.c:619-700 | the lines of a printed file, with either ending, ask one by one for what was written |
| WholeFiles.FileToRecords | game_patch/patch.c:231-487 | a printed file of patches, its lines laid out in any way and with remarks between them, is listed as one record for each version of each patch, in file order, numbered by hundreds |
| WholeFiles.RecordFields | game_patch/patch.c:170-190 | such a record has the fields of its patch, the version at its place, and is for the game exactly when that is its version |
| WholeFiles.FileToPatches | game_patch/patch.c:231-328 | keeping one title gives its versions for the game, each with all entries of at least three parameters |
| WholeFiles.FileToIds | game_patch/patch.c:344-354 | the identifiers of the file are those of its first line, in every mode |
| Crashes.ListingCrashesExactly | game_patch/patch.c:170-210 | listing crashes on a block if and only if it has a title, but no version, or lacks its name, author, version or executable |
| Crashes.KeepingCrashesExactly | game_patch/patch.c:244-258 | keeping does if and only if it has a title, and either no version, or the version of the game while it lacks one of those |
| Crashes.RunCrashesExactly | game_patch/patch.c:231-487 | a run of either mode crashes if and only if one of its blocks does |
| StreamedBlocks.RunIsStreamedBlocks | game_patch/patch.c:231-487 | in the low-memory mode, for any lines: the calls of the run are those of its blocks, each read alone and numbered in order, with only the flag and the current metadata carried from each to the next; it crashes when one of them does |
| StreamedBlocks.RunCrashesExactly | game_patch/patch.c:413-434 | that run crashes if and only if some block has a "patches:" line before it names an executable |
| StreamedFiles.FileToCalls | game_patch/patch.c:413-486 | streaming a printed file of patches: for each patch one call for each version of the game, then, by the flag of the last of those or else the flag carried on, one call for each entry, with the metadata of the first version |
| LowMemory.RunStreams | game_patch/patch.c:413-486 | for a file of titled blocks with one "patches:" line after their metadata: nothing crashes, and the entries applied are those the flag, carried from block to block, lets through |
| LowMemory.RunIsBatchExactly | game_patch/patch.c:413-486 | for any file of such blocks: the entries applied, each for its patch, are those of the enabled blocks in file order if and only if each block with entries is right under the flag that the blocks before it leave |
| LowMemory.SingleVersionRunExactly | game_patch/patch.c:413-486 | when blocks list at most one version: the bare entries applied are those of the enabled blocks if and only if no switched-on block of another version that has entries is reached while the last block for the game was enabled |
| LowMemory.StreamsExactly | game_patch/patch.c:424-447 | for any block, versions and flag: it is streamed as the batch reading treats it if and only if it is right; and the flag it leaves |
| LowMemory.EveryPastExactly | game_patch/patch.c:424-447 | any block is streamed rightly after every possible past if and only if, being for this game, it is right, or else its first version is switched off |
| LowMemory.StreamingIsFiltering | game_patch/patch.c:413-486 | if every block lists the game's version first and only there, or not at all while switched off, the entries applied are those of the enabled blocks in file order |
| LowMemory.SingleVersionExactly | game_patch/patch.c:431-441 | the case of at most one version: a block of at most one version is streamed rightly after every possible past if and only if it is for this game or switched off |
| LowMemory.SettledStreams | game_patch/patch.c:424-447 | a settled block is streamed as the batch reading treats it, whatever came before |
| LowMemory.CarriedFlagLeaks | game_patch/patch.c:212-229 | an enabled block followed by a block for another version that is switched on streams the entries of both |
| PatchMetadata.FlagLeaks | game_patch/patch.c:413-486 | a concrete file and state file on which version 1 of a game gets the entry meant for version 2 |
| PatchMetadata.EnvIsFaithful | game_patch/patch.c:170-210 | metadata carries the title, the version and 100 times the block number plus the version index |
| PatchMetadata.PatchHashIsJoined | game_patch/patch.c:133-159 | a patch hash is one hash of number and fields joined, unless a value in between is zero |
| MetadataFields.HashedInOrder | game_patch/patch.c:133-159 | the hash takes the number in decimal, the identifier, title, name, author, version, executable and game version in this order |
| MetadataFields.TextsAndNumber | game_patch/patch.c:170-190 | number and texts of the metadata are those of the block, the version the one at the index |
| MetadataFields.ForTheGame | game_patch/patch.c:161-168 | it is for the game exactly when it names the game's version and that is not empty |
| MetadataFields.ForAPlugin | game_patch/patch.c:201-209 | it is for a plugin exactly when one of the four suffixes occurs in its executable |
| MetadataFields.EnabledExactly | game_patch/patch.c:194-200 | with the state file that any run of writes and toggles made: it is enabled if and only if its hash was last switched on and its executable occurs in the path of the program |
| MetadataFields.SwitchedOn | game_patch/patch.c:194-200 | so it is when its hash is written last and the path is anything before and behind the executable |
| PatchParser.CalculatePatchHash | game_patch/patch.c:133-159 | the hash of number, title id, title, name, author, version, executable and game version, empty for what is missing |
| PatchParser.ProcessPatchMetadataForAppVer | game_patch/patch.c:170-210 | every metadata field of one version is as specified; MetadataFields says field by field what that is |
| PatchParser.ParseContext.AppendPatch | game_patch/patch.c:260-290 | stores one kept patch, doubling the array when it is full, and keeps the others |
| PatchParser.ParseContext.AppendEntry | game_patch/patch.c:457-470 | stores one entry, doubling the array when it is full, and keeps the others |
| PatchParser.ParseContext.CopyEntries | game_patch/patch.c:279-288 | the copied entries are the current ones, parameter by parameter |
| PatchParser.ParseContext.FinishVersions | game_patch/patch.c:244-318 | the loop over the versions stores what the state machine says, up to the first version that crashes |
| PatchParser.ParseContext.HandlePatchComplete | game_patch/patch.c:231-328 | an untitled block is left as it is; a titled one is stored, cleared and counted |
| PatchParser.ParseContext.AnnounceVersions | game_patch/patch.c:424-446 | the loop of a "patches:" line calls back for the matching versions, sets the flag by the last of them and keeps the metadata of the first version |
| PatchParser.ParseContext.ProcessLine | game_patch/patch.c:330-487 | one line is one step of the state machine, with the classification of that line |
| PatchParser.ParseContext.ParsePatchFile | game_patch/patch.c:619-778 | the context after a whole file is that of the run over its lines |

## Left out

- HookRuns.GoodOp: hooked functions below 2^31, aligned and outside the trampoline buffer, with room left in it; the program checks none of this. The condition on releases is exact (HookRuns.ReleasedExactly).
- Trampoline.TrampolineSimulates: instructions other than b, bc, bclr, bcctr, addis, ori, mtctr, std and ld are one abstract step that may change registers and data but not the program counter; their independence of the scratch is a hypothesis.
- LineReader.FileReadLine: lines that do not fit the buffer, whose size the program does not check, and an unterminated last line ending in a carriage return, on which its loop never ends; ReadLineFitsExactly and ReadLineEndsExactly show that no other input is shut out.
- LineReader.ReadLines: files with a line that the buffer has no room for or ending in a bare carriage return, for the same two reasons.
- Plugins.PluginParser.ParsePlugin: the same files; also strings that are overwritten without being freed, which are lost, not freed twice.
- PatchParser.ParseContext.ParsePatchFile: files with a line that the buffer has no room for or ending in a bare carriage return; and the loop over fileReadLine only: the fgets loop of the other build keeps newlines, which trimming removes, and carriage returns inside a line, which it does not.
- PatchParser.ParseContext.CopyEntries: strings and entries are values, so aliasing between copies is not modelled; Plugins models ownership of strings on the heap.
- PatchParser.ParseContext.FinishVersions: when a version crashes the program, what had been stored by then is not described.
- PatchParser.ParseContext.HandlePatchComplete: a null pointer read ends the run in a crashed state; what had been stored by then is not described.
- LowMemory.StreamingIsFiltering: a condition a reader can check block by block, in one direction; RunIsBatchExactly is the exact one.
- LowMemory.RunIsBatchExactly: files of titled blocks with one "patches:" line after their metadata, on which nothing crashes; what other layouts stream is stated by StreamedBlocks.RunIsStreamedBlocks.
- PatchMetadata.EnvIsFaithful: patch numbers are unbounded; where a `size_t` has 32 bits they wrap from block 42949672 of a file on.
- PatchState.HeaderBytes: structures are written as they stand in memory; both programs are taken to have the byte order of the console.
- WholeFiles.FileToRecords: files that give identifiers, then patches with all their fields in one order, between any remarks; for other layouts PatchFile.RunIsBlocks and PatchFile.BlockContents say what each block yields.
- PluginText.FileToConfigs: applications with one version line before their section; ConfigContents covers the others.
- MetadataFields.EnabledExactly: the state file is read as the writing program reads it; PatchState.ConsoleAnswers says when the console gives the same answers.
- Callbacks are assumed to be set, and allocation to succeed.
- apply_patch: the width of a patch entry and the write it makes.
- Process reads and writes, threads, notifications, the shell interface, pattern scanning, import and export tables.
- Instruction cache coherence, and running a function while it is being hooked.
- append_arg, load_game_info, bin2c and hex_dump are not modelled.
