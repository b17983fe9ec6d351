# Verified models of Capstone's engine and Corana's numbers

Corana executes ARM binaries symbolically. It disassembles with a copy of the Capstone engine
(`libs/capstone`), reads Capstone's operand text back into numbers (`src/utils`), and hands bit
vectors to an SMT solver. This project models the parts on which all of that rests and proves what
they promise. `dafny verify dfyconfig.toml` checks everything.

## The pieces

**The disassembly driver** (`libs/capstone/cs.c`). `Disassembler` holds cs_disasm, cs_disasm_iter,
cs_malloc and their clients as methods on a handle, an allocator that may refuse any request, and a
growing buffer of instruction slots. `Decoding` says what one step does; the decoder is an arbitrary
function of the mode, the IT block, the remaining bytes and the address. `Runs` is the theory of
whole runs for any such step, `Skipping` says how far they skip data, `Divergence` when the two
drivers differ, and `InsnCache` and `Allocator` account for every slot and every block. `Accounts` tells
what is delivered from the answers of the decoder and the callback alone.

- cs_disasm publishes exactly the run of its step function, whatever the allocator refuses; every
  exit that reports an error leaves the heap as it was, and cs_free restores it after every other.
- Every delivered instruction is explained (`Accounts.SlotsTold`): slot i is data exactly when nothing is
  decoded where the widths before it end, with the IT block that the steps before it leave; its id,
  address, size, bytes, mnemonic and operand text are those of the decoder's answer or of the skipped
  bytes; and, with nothing refused, it has a detail block exactly when details are on and it is no data.
- cs_disasm yields what repeating cs_disasm_iter yields, and the first n of it for a count of n.
  On one handle, whatever its options, that holds for every decoder and input exactly when two
  conditions are met (`Divergence.HandleDecides`): an ARM handle's IT block is empty (cs_disasm clears
  it, cs_disasm_iter does not), and a skip callback looks neither at its position nor at earlier bytes
  (cs_disasm shows it the whole buffer, cs_disasm_iter the rest of it).
- The instructions tile the input. Their addresses and sizes chain, and their bytes are the input
  that was consumed, exactly as far as no decode consumed more than 16 bytes: fill_insn then keeps
  the last 16 bytes and cuts the size, while the driver advances by the full width.
- The cache grows by 8/5 in 32-bit arithmetic, which wraps after 36 steps. A size of 0 would end in
  a write past the buffer. The sizes that lead to 0 are exactly those that do so within eleven steps,
  and they lie within eleven residue classes, none of which the sequence from 32 ever enters, so
  every write stays inside the buffer for inputs of any length.
- With data skipping on, a run leaves less than the default skip size of its input, unless a callback
  stops it; an x86 handle without a callback disassembles every input to its end.
- Data skipping makes progress after every sequence of options. The skip size is chosen when
  skipping is first switched on and never again, so an ARM handle that changes to or from Thumb
  later does not skip what `libs/capstone/include/capstone.h` documents; the lemma says exactly when.

**Register tables** (`libs/capstone/MCRegisterInfo.c`). `Registers` relates the mutable iterator
over difference lists to the list of values that it visits, proves that encoding and decoding are
inverse, and proves the two nested searches against declarative specifications. It asks no more of the
tables than the generated ones under `libs/capstone/arch` provide: the list of register 0, which most
of them fill with numbers beyond the last register, is searched like any other.

**Text that is printed here and read there.** `SStream` and `Text` are Capstone's printers; `Corana`
and `Cstool` are the readers. Corana reads back every immediate that fits 32 bits, because decimal
output is only used where decimal and hexadecimal agree. cstool recovers every byte sequence from
its own printer, and skipped data from its operand text exactly up to 26 bytes. `BitSets` and
`Leb128` are the other conversions.

**Bit arithmetic and operand editing.** `LeadingZeros`, `TrailingZeros`, `NextPower` and `PopCount`
prove the portable branches of `libs/capstone/MathExtras.h` over the bits of `Bits`, and `McInst` the
insertion of an operand through a pointer into the array that is being shifted.

## Where the code and its documentation differ

The model follows the code in each case.

- `libs/capstone/include/capstone.h:198-200`: Thumb data is documented to be skipped by 2 bytes; a
  handle that was opened for ARM and switched afterwards skips 4 (`Handle.StaleSkipSize`).
- `libs/capstone/include/capstone.h:171-183`: the callback is documented to see the buffer passed to
  cs_disasm; under cs_disasm_iter it sees what remains of it, at position 0
  (`Divergence.CallbackPositionMatters`).
- `libs/capstone/include/capstone.h:193-197`: a callback's positive answer is documented to be skipped
  exactly. It is when both the answer and the default skip size fit the rest of the input, and not
  otherwise (`Skipping.CallbackIsObeyed`): with less than the default left, the callback is not even
  asked (`libs/capstone/cs.c:567-568`, `Skipping.CallbackIsNotAsked`), so a callback that always asks
  for the same amount gets as many skips as fit only under the condition of `Skipping.SteadyCallback`.
- `libs/capstone/MathExtras.h:272-277`: Log2_32(0) is documented as -1 and returns 2^32 - 1;
  countLeadingZeros(0) returns 31 (`libs/capstone/MathExtras.h:426-439`).
- `libs/capstone/cs.c:1007-1106`: positions count from 1, but position 0 does not fail when the first
  operand is of another type (`Operands.IndexOfZero`).
- `src/utils/SysUtils.java:41-55`: a literal is accepted with a 0x prefix, but only "#" and a leading
  "x" are removed, so a short one comes out with an 'x' among its eight characters
  (`Corana.NormalHexIsWord`, `Corana.ShortLiteralKeepsX`).
- `src/utils/Arithmetic.java:10-14`: hexToInt does not invert intToHexSmt on negative longs; it
  throws (`Corana.SmtTextRoundTrip`).
- `src/utils/Arithmetic.java:105-114`: a set with a bit above 31 is read from its highest 32
  positions by bitSetToLong and from its lowest 32 by bitSetToInt, so they agree on it only when both
  ends are alike (`BitSets.LongAgreesWithInt`).
- `libs/capstone/MCInst.c:32-42`: with 47 live operands the shift overwrites the scratch slot before
  it is read (`McInst.InsertionIsExact`, `McInst.ScratchIsOverwritten`).

## Model

| member | source | states |
|---|---|---|
| `Words.NextAddress` | libs/capstone/cs.c:632-634 | advancing a 64-bit address step by step is advancing it once by the sum, across wrap-around |
| `CacheGrowth.GrowBounds` | libs/capstone/cs.c:607 | `cache_size * 8 / 5` in 32 bits is the exact division of eight times the low 29 bits |
| `CacheGrowth.GrowComesFromDoomed` | libs/capstone/cs.c:607 | the eleven residue classes are closed under going back one step, for every size |
| `CacheGrowth.GrowKeepsViable` | libs/capstone/cs.c:605-608 | a size outside those classes grows to a positive size outside them |
| `CacheGrowth.GrownIsPositive` | libs/capstone/cs.c:605-608 | from the initial 32, no number of growth steps makes the wrapped cache size 0 |
| `CacheGrowth.LeadsToZero` | libs/capstone/cs.c:605-608 | a size ever leads to 0 iff it does so in eleven steps, and only sizes in the classes do |
| `CacheGrowth.SomeDoomedSurvive` | libs/capstone/cs.c:607 | not all sizes in the classes lead to 0 |
| `Text.SplitText` | libs/capstone/cs.c:323-348 | splitting printed text gives back the word with its prefix separators shown as spaces and the operands, cut to the field |
| `Text.SplitPrinted` | libs/capstone/cs.c:323-348 | the in-place loops of fill_insn compute that split for every text |
| `Text.ListedLength` | libs/capstone/cs.c:435-462 | the byte list of n bytes has 6n - 2 characters |
| `Text.SkipdataOpstr` | libs/capstone/cs.c:435-462 | the bounded prints leave the longest prefix of the byte list that op_str holds, the last print being cut |
| `Runs.CountTakesPrefix` | libs/capstone/cs.c:599-603 | a positive count yields the first that many instructions of the unlimited run |
| `Runs.RunAdvances` | libs/capstone/cs.c:519-635 | one loop pass moves one step from what is left of a run to what is done; their join does not change |
| `Runs.IterationAdvances` | libs/capstone/cs.c:716-799 | one call of cs_disasm_iter takes the head off what is left of the iteration, or nothing is left |
| `Runs.BatchIsIterated` | libs/capstone/cs.c:519-799 | for any step that sees only the remaining bytes, the loop over positions yields what stepping through shrinking suffixes yields |
| `Runs.TiledAt` | libs/capstone/cs.c:519-635 | instruction i describes the stretch that starts at the sum of the widths before it |
| `Runs.AddressesChain` | libs/capstone/cs.c:308-313 | an address is the previous address plus the previous size modulo 2^64 iff the previous step consumed at most 16 bytes |
| `Runs.BytesArePrefix` | libs/capstone/cs.c:308-313 | the concatenated instruction bytes are the consumed input iff no step consumed more than 16 bytes |
| `Decoding.StepIsFaithful` | libs/capstone/cs.c:542-594 | each attempt that advances consumes some and at most all remaining bytes and publishes their address and last 16 bytes |
| `Decoding.StepIsPositionless` | libs/capstone/cs.c:542-594 | the attempt at a position is the attempt at the start of the remaining bytes, when skipping does not look at positions |
| `Decoding.NoCallbackIsPositionless` | libs/capstone/cs.c:567-581 | the default skip does not look at positions |
| `Decoding.BatchAgreesWithSingleStep` | libs/capstone/cs.c:467-799 | cs_disasm yields the instructions of repeated cs_disasm_iter: all for count 0, the first n for count n |
| `Decoding.DisasmTiles` | libs/capstone/cs.c:519-635 | every run of cs_disasm tiles the input: stretches, address chain, bytes, with the exact 16-byte condition |
| `Handle.CsHandle.constructor` | libs/capstone/cs.c:231-273 | a fresh handle has details and skipping off, no skip size and an empty IT block |
| `Handle.CsOption` | libs/capstone/cs.c:387-432 | each request changes exactly the settings that it names, answers with the error it leaves in the handle, and keeps "skipping on implies a positive skip size" |
| `Handle.SetSyntaxOf` | libs/capstone/arch/X86/X86Module.c:43-84 | the syntax and the error after a request for a syntax, for each architecture |
| `Handle.LastRequestWins` | libs/capstone/cs.c:387-432 | details and mode are what the last request asked for, in 32 bits, or what the handle was opened with; which architectures keep the mode |
| `Handle.LastSkipSetupWins` | libs/capstone/cs.c:416-428 | skipping is on iff the last request for it said 3; mnemonic and callback are those of the last setup, or ".byte" and none |
| `Handle.LastSyntaxWins` | libs/capstone/arch/X86/X86Module.c:43-84 | the syntax after any sequence of options, for each architecture |
| `Handle.RefusedRequests` | libs/capstone/arch/X86/X86Module.c:57-61 | the only refused request is a syntax above 2 on x86 |
| `Handle.X86SyntaxIsKnown` | libs/capstone/arch/X86/X86Module.c:43-84 | after any sequence of options an x86 handle has one of the two syntaxes that it knows |
| `Handle.SkipSizeIsSticky` | libs/capstone/cs.c:418-422 | a chosen skip size survives every sequence of options |
| `Handle.SkipSizeFrom` | libs/capstone/cs.c:416-424 | after any sequence the skip size is that of the mode in which skipping was first switched on |
| `Handle.SkipSizeAfterOptions` | libs/capstone/include/capstone.h:193-207 | skipping that is on makes progress; its size is the documented one iff the architecture is not ARM or Thumb has not changed since |
| `Handle.StaleSkipSize` | libs/capstone/arch/ARM/ARMModule.c:42-54 | an ARM handle switched to Thumb after skipping is on still skips four bytes |
| `Allocator.Heap.Malloc` | libs/capstone/cs.c:509-515 | a granted request adds one fresh block; a refused one changes nothing |
| `Allocator.Heap.Realloc` | libs/capstone/cs.c:609-623 | a granted request replaces the block, moved or not; a refused one keeps it |
| `Allocator.Heap.Free` | libs/capstone/cs.c:674-685 | freeing removes exactly that block, which must be live unless null |
| `Allocator.OwnedNewDetail` | libs/capstone/cs.c:526-531 | a new detail block extends the ownership of the slots by one |
| `Allocator.OwnedFreeLast` | libs/capstone/cs.c:560-563 | freeing the detail of the slot being filled leaves the slots before it owning theirs |
| `Allocator.OwnedMove` | libs/capstone/cs.c:609-628 | moving the buffer does not disturb the ownership of details |
| `InsnCache.FreeDetails` | libs/capstone/cs.c:611-615 | the freeing loop gives back every detail block once and nothing else |
| `InsnCache.CsFree` | libs/capstone/cs.c:675-685 | cs_free gives back the details and the buffer, and nothing else |
| `InsnCache.ExpansionIsExact` | libs/capstone/cs.c:605-609 | neither the 32-bit cache size nor the 64-bit byte count is spoilt by an expansion |
| `InsnCache.Cache.constructor` | libs/capstone/cs.c:499-517 | the first buffer has count slots when that is 1 to 32, and 32 otherwise; or the heap is unchanged |
| `InsnCache.Cache.AddDetail` | libs/capstone/cs.c:526-531 | the next slot is in bounds and owns its detail block, when one is wanted and granted |
| `InsnCache.Cache.Settle` | libs/capstone/cs.c:543-600 | an attempt leaves the slots as they were with one more instruction, or as they were; details of failed decodes are freed |
| `InsnCache.Cache.Expand` | libs/capstone/cs.c:605-628 | a full cache grows, keeping every instruction and the accounting, with a free slot; or everything is given back |
| `InsnCache.Cache.Finish` | libs/capstone/cs.c:637-662 | the delivered buffer holds exactly c instructions; none for c = 0, and nothing stays allocated then or on failure |
| `Accounts.TextSplits` | libs/capstone/cs.c:326-348 | every text is a word without blanks, blanks, and operands that start with none |
| `Accounts.SplitIsSpelled` | libs/capstone/cs.c:323-348 | of such a text the mnemonic is the word, character by character with each prefix separator as a space, and op_str the first 159 characters of the operands |
| `Accounts.SkipTextLists` | libs/capstone/cs.c:435-462 | every character of a data instruction's operand text, cut at 159 |
| `Accounts.StepIsTaken` | libs/capstone/cs.c:519-600 | a step that publishes does so for the decoder's answer, or for bytes that may be skipped when nothing is decoded; one that does not has neither |
| `Accounts.RunIsTold` | libs/capstone/cs.c:519-635 | for every run: which steps are data, their widths, fields and IT blocks, and where and why it ends |
| `Accounts.SlotMeans` | libs/capstone/cs.c:526-591 | with nothing refused, a slot has details iff they are on and the decoder decodes there; its id and text fields are those of the answer |
| `Disassembler.FillInsn` | libs/capstone/cs.c:302-350 | a decode is published with its id, its last 16 bytes and its split text |
| `Disassembler.AskSkip` | libs/capstone/cs.c:565-581 | how much is skipped: nothing, the default, or the callback's answer if that much remains |
| `Disassembler.Attempt` | libs/capstone/cs.c:542-594 | decoding or skipping at a position is the configuration's step, and leaves that step's IT block |
| `Disassembler.FillSlot` | libs/capstone/cs.c:519-600 | one pass appends the step's instruction with its details, or nothing |
| `Disassembler.Pass` | libs/capstone/cs.c:519-635 | one pass ends complete, out of memory with the heap restored, or further along the same run with a free slot |
| `Disassembler.FillAll` | libs/capstone/cs.c:519-635 | the loop terminates by the remaining size with the slots holding exactly the run, or out of memory with the heap restored |
| `Disassembler.CsDisasm` | libs/capstone/cs.c:467-672 | success delivers exactly the run, each slot explained by the decoder's and the callback's answers, in an exactly sized buffer that owns its details; every failure leaves the heap as it was and was a refused allocation |
| `Disassembler.CsDisasmIter` | libs/capstone/cs.c:716-799 | one step, explained by the decoder's and the callback's answers, and the cursor past it; a failure moves nothing but overwrites the instruction's address |
| `Disassembler.IterateAll` | libs/capstone/tests/test_iter.c:210-213 | stepping until failure yields the iteration, and terminates |
| `Disassembler.CsMalloc` | libs/capstone/cs.c:688-712 | one instruction with details exactly when they are on, or no change to the heap |
| `Disassembler.DisasmThenFree` | libs/capstone/cs.c:467-685 | cs_disasm followed by cs_free restores the heap, whatever was refused |
| `Disassembler.MallocIterateFree` | libs/capstone/cs.c:675-799 | so does cs_malloc, any number of steps, and cs_free |
| `Divergence.HandleDecides` | libs/capstone/cs.c:467-799 | on one handle the two drivers agree for every decoder and input iff skipping looks neither at its position nor at what lies before it, and the handle is not ARM or its IT block is empty |
| `Divergence.CallbackPositionMatters` | libs/capstone/cs.c:771-776 | a callback and an input on which they differ |
| `Divergence.WideInstructionsLeaveGaps` | libs/capstone/cs.c:308-313 | with a decoder that consumes 17 bytes, addresses do not chain and bytes are lost |
| `Skipping.DisasmLeaves` | libs/capstone/cs.c:565-594 | a run without a count leaves less than the default skip size, unless a callback answers 0 or more than there is |
| `Skipping.X86CoversInput` | libs/capstone/cs.c:354-384 | an x86 handle that skips data without a callback consumes the whole input, for every decoder and sequence of options |
| `Skipping.DefaultSkips` | libs/capstone/include/capstone.h:198-207 | after any sequence of options the skip size is the listed one, written out for each architecture; data is published in that size up to a remainder, and a decoder that keeps to multiples stays aligned |
| `Skipping.DataInDefaultSizes` | libs/capstone/cs.c:565-594 | on data all through, every instruction has the skip size and the remainder is left |
| `Skipping.CallbackIsObeyed` | libs/capstone/include/capstone.h:193-197 | a positive answer is what is skipped iff it and the default skip size fit the rest of the input; else the run stops |
| `Skipping.SteadyCallback` | libs/capstone/cs.c:565-581 | how many skips a callback gets that always asks for n bytes of data, and exactly when that is as many as fit |
| `Skipping.CallbackIsNotAsked` | libs/capstone/cs.c:567-568 | an input on which nothing is skipped although the callback asks for less than there is |
| `Operands.CountOperands` | libs/capstone/cs.c:962-966 | the counting loop counts |
| `Operands.FindOperand` | libs/capstone/cs.c:1039-1046 | the searching loop returns the first index at which that many have been seen, or -1 |
| `Operands.CountIsCardinality` | libs/capstone/cs.c:962-966 | the count is the number of operands of the type |
| `Operands.RefusalMeans` | libs/capstone/cs.c:932-960 | each error's exact condition |
| `Operands.CsOpCount` | libs/capstone/cs.c:932-1005 | the count, or -1 with the error of the first check that fails; nothing else of the handle changes |
| `Operands.CsOpIndex` | libs/capstone/cs.c:1008-1106 | the index, or -1 with the error of the first check that fails; nothing else of the handle changes |
| `Operands.IndexSelectsRank` | libs/capstone/cs.c:1008-1106 | from position 1 on an index is found iff the position is within the count; it is of the type with exactly position - 1 before it |
| `Operands.IndexIncreases` | libs/capstone/cs.c:1008-1106 | later positions are found at later indices |
| `Operands.IndexOfZero` | libs/capstone/cs.c:1039-1046 | position 0 finds the first operand when it is of another type, and otherwise nothing |
| `Registers.DecodeEncoded` | libs/capstone/MCRegisterInfo.c:53-84 | an encoded list anywhere in a table decodes to its values iff no value repeats the one before it |
| `Registers.EncodeDecoded` | libs/capstone/MCRegisterInfo.c:53-84 | every terminated list is the encoding of what it decodes to |
| `Registers.ValuesAreSums` | libs/capstone/MCRegisterInfo.c:71-73 | value k is the start plus the first k + 1 differences modulo 2^16 |
| `Registers.ValuesEnd` | libs/capstone/MCRegisterInfo.c:75-78 | the list ends at the first 0 |
| `Registers.DiffListIterator.constructor` | libs/capstone/MCRegisterInfo.c:53-57 | the iterator starts before the first value of the list |
| `Registers.DiffListIterator.Next` | libs/capstone/MCRegisterInfo.c:64-79 | each call moves to the next value, or becomes null at the terminator and keeps the value |
| `Registers.Collect` | libs/capstone/MCRegisterInfo.c:94-103 | init and next until invalid visits exactly the decoded values, and terminates |
| `Registers.ClassContainsItsList` | libs/capstone/MCRegisterInfo.c:134-143 | the bit set of a register list contains exactly those registers, for every register number |
| `Registers.ContainsIsBit` | libs/capstone/MCRegisterInfo.c:134-143 | register 8k + j is in the class iff bit j of byte k is set, counted from the lowest |
| `Registers.XCoreClass` | libs/capstone/arch/XCore/XCoreGenRegisterInfo.inc:95-103 | the published bytes hold exactly the registers 5 to 16 |
| `Registers.GetSubReg` | libs/capstone/MCRegisterInfo.c:108-124 | the first sub-register with the name, or 0 when none has it |
| `Registers.SubRegIsUnique` | libs/capstone/MCRegisterInfo.c:108-124 | a search has one result, which for a register is 0 only when no sub-register has the name |
| `Registers.GetMatchingSuperReg` | libs/capstone/MCRegisterInfo.c:86-106 | the first super-register in the class whose named sub-register is the register; 0 only when none matches |
| `Registers.MatchMeans` | libs/capstone/MCRegisterInfo.c:99 | a match names the register as its sub-register, or, for register 0, has no sub-register of that name |
| `Registers.RegisterZeroMatches` | libs/capstone/MCRegisterInfo.c:86-106 | register 0 has no matching super-register iff every register that is listed for it and lies in the class has a sub-register of that name |
| `Registers.PairIsFound` | libs/capstone/MCRegisterInfo.c:108-124 | on a table with distinct offsets, names lead to the sub-registers |
| `Registers.PairLeadsBack` | libs/capstone/MCRegisterInfo.c:94 | and the super-register lists lead back |
| `Registers.XCoreIsWellFormed` | libs/capstone/arch/XCore/XCoreGenRegisterInfo.inc:57-83 | a generated table is well formed although the list of register 0 names no register |
| `McInst.Inst.Clear` | libs/capstone/MCInst.c:26-29 | leaves no operand live |
| `McInst.Inst.Insert0` | libs/capstone/MCInst.c:32-42 | inserting through any pointer into the array itself: the pointer is read after the shift |
| `McInst.Inst.AddOperand2` | libs/capstone/MCInst.c:75-80 | appends the operand in the slot |
| `McInst.Inst.CreateOperand0` | libs/capstone/MCInst.c:150-176 | appends a register or an immediate |
| `McInst.Inst.CreateOperand1` | libs/capstone/MCInst.c:140-167 | writes the scratch slot and nothing below it |
| `McInst.Inst.InsertNew` | libs/capstone/MCInst.c:32-167 | CreateReg1 or CreateImm1 and then insert0: the effect on the live operands, for every size and index |
| `McInst.InsertionIsExact` | libs/capstone/MCInst.c:32-167 | that effect is the insertion of the new operand iff at most 46 operands are live, or it goes behind them, or it equals the last of them |
| `McInst.PointerInsertionIsExact` | libs/capstone/MCInst.c:32-42 | insertion through any pointer into the array inserts what it points to iff the slot does not move or the same operand moves into it |
| `McInst.ScratchIsOverwritten` | libs/capstone/MCInst.c:32-167 | 47 operands on which another operand is inserted than the new one |
| `SStream.Stream.Concat` | libs/capstone/SStream.c:42-53 | appends all of the text, or as much as fits while the index moves by the full length |
| `SStream.Stream.PrintInt32Bang` | libs/capstone/SStream.c:104-117 | appends the signed number's text, the least 32-bit integer included |
| `SStream.Stream.PrintInt64Bang` | libs/capstone/SStream.c:56-69 | the same for 64 bits |
| `SStream.Stream.PrintUInt32Bang` | libs/capstone/SStream.c:134-140 | the same for unsigned numbers |
| `SStream.Stream.PrintInt32BangDec` | libs/capstone/SStream.c:96-102 | appends the number's decimal text |
| `SStream.AppendedMeans` | libs/capstone/SStream.c:42-53 | the text is there as a whole iff it has at most 510 characters, else its first 510 are |
| `SStream.BangShape` | libs/capstone/SStream.c:56-140 | a sign, and one decimal digit iff the magnitude is at most 9, else 0x and its lower-case digits without a leading zero |
| `SStream.DecimalBangShape` | libs/capstone/SStream.c:96-102 | a sign and decimal digits that denote the magnitude |
| `Numerals.DecimalValueOfText` | libs/capstone/SStream.c:104-117 | decimal text denotes the number, without a leading zero |
| `Numerals.ParseAccepts` | src/utils/Arithmetic.java:12-13 | only an optional sign and digits are read, and a plus sign changes nothing |
| `Numerals.HexValueOfText` | src/utils/Arithmetic.java:40-42 | reading printed hexadecimal digits gives the number back |
| `Numerals.HexValueOfDecimal` | libs/capstone/SStream.c:104-117 | decimal digits read as hexadecimal denote the number iff it is at most 9 |
| `Corana.ContainsMeans` | src/utils/Arithmetic.java:11-13 | String.contains finds exactly the texts that occur somewhere |
| `Corana.WithoutJoins` | src/utils/SysUtils.java:36 | replacing a character by nothing goes part by part |
| `Corana.HexToIntReads` | src/utils/Arithmetic.java:10-14 | a text in which SYM occurs reads as -1; the others by whether -0x, 0x or #x occurs |
| `Corana.HexToIntOfBang` | src/utils/Arithmetic.java:10-14 | hexToInt reads every printed number as itself, and throws iff its magnitude is beyond a long |
| `Corana.ImmediateRoundTrip` | src/utils/SysUtils.java:35-39 | Corana reads what printInt32Bang, printInt64Bang and printUInt32Bang print as the number iff it fits 32 signed bits; else its low 32 bits |
| `Corana.DecimalRoundTrip` | src/utils/Arithmetic.java:10-14 | printInt32BangDec's text is read back iff the magnitude is at most 9 |
| `Corana.IntToHexSmt` | src/utils/Arithmetic.java:28-38 | the padding loop gives "#x" and at least eight digits |
| `Corana.SmtTextIsWord` | src/utils/Arithmetic.java:28-38 | for every long, these are exactly eight digits iff it is an unsigned 32-bit number, and more otherwise |
| `Corana.NormalizeNumInHex` | src/utils/SysUtils.java:41-55 | the padding and cutting loops bring a literal to eight characters and leave other text alone |
| `Corana.Fit8Value` | src/utils/SysUtils.java:45-50 | eight digits denote the value modulo 2^32 |
| `Corana.DigitsAreNormalized` | src/utils/SysUtils.java:41-55 | digits alone become "#x" and eight digits that denote them modulo 2^32 |
| `Corana.HashedIsNormalized` | src/utils/SysUtils.java:41-55 | so do digits after "#x" |
| `Corana.ZeroXIsNormalized` | src/utils/SysUtils.java:41-55 | digits after 0x or 0X do iff there are eight of them |
| `Corana.OthersStay` | src/utils/SysUtils.java:42-54 | no other text is changed |
| `Corana.NormalHexIsWord` | src/utils/SysUtils.java:41-55 | the result is "#x" and eight digits for the value modulo 2^32 iff there is no 0x prefix or there are eight digits after it |
| `Corana.ShortLiteralKeepsX` | src/utils/SysUtils.java:41-55 | "0x1" comes out as "#x000000x1" |
| `Corana.NormalHexIsIdempotent` | src/utils/SysUtils.java:41-55 | normalizing twice is normalizing once, for every text |
| `Corana.SmtTextRoundTrip` | src/utils/Arithmetic.java:10-38 | for every long, hexToInt of the normalized SMT text is its low 32 bits; of the SMT text itself, the long iff it is not negative |
| `Cstool.CharToHexnum` | libs/capstone/cstool/cstool.c:31-43 | the value of a hexadecimal digit of either case |
| `Cstool.DigitsInOrder` | libs/capstone/cstool/cstool.c:31-43 | a digit has value d iff it is the d-th of the sixteen, in lower or upper case |
| `Cstool.Preprocess` | libs/capstone/cstool/cstool.c:47-69 | the loop collects the pairs of digits from the left, into at most half as many bytes as characters |
| `Cstool.DigitsSpell` | libs/capstone/cstool/cstool.c:55-64 | a text of digits spells a byte for each two, the high digit first |
| `Cstool.SpacedAt` | libs/capstone/cstool/cstool.c:23-25 | the five characters that are printed for each byte |
| `Cstool.PrintStringHex` | libs/capstone/cstool/cstool.c:18-28 | prints the comment and every byte |
| `Cstool.ScanJoin` | libs/capstone/cstool/cstool.c:55-64 | what two texts after one another spell, with a digit left over from the first |
| `Cstool.PrintedBytesRoundTrip` | libs/capstone/cstool/cstool.c:18-69 | preprocess recovers what print_string_hex prints, and what the comment spells, iff the comment leaves no digit over or there are no bytes |
| `Cstool.SkipTextSpells` | libs/capstone/cs.c:435-462 | the operand text of skipped data spells its first 26 bytes, though the 27th is begun |
| `Cstool.SkippedDataRoundTrip` | libs/capstone/cstool/cstool.c:47-69 | preprocess recovers skipped data from its operand text iff there are at most 26 bytes |
| `Leb128.Decode` | libs/capstone/LEB128.h:26-38 | the loop sums the groups in 64 bits, each computed in 32-bit signed arithmetic, up to the first byte below 128 |
| `Leb128.EncodedLength` | libs/capstone/LEB128.h:26-38 | decoding an encoding consumes exactly the encoding, whatever follows |
| `Leb128.EncodedTotal` | libs/capstone/LEB128.h:31-35 | the accumulator over an encoding is the number as a signed 32-bit pattern |
| `Leb128.DecodeEncoded` | libs/capstone/LEB128.h:26-38 | for every v < 2^32 the value is v iff v < 2^31, and exactly 2^64 - 2^32 too large otherwise; the length is exact |
| `Leb128.DecodesBelow31` | libs/capstone/LEB128.h:26-38 | of all numbers, exactly those below 2^31 are decoded from their encoding whatever becomes of undefined shifts |
| `Leb128.StandardExamples` | libs/capstone/LEB128.h:26-38 | the examples of section 7.6 of DWARF version 4 |
| `Leb128.EncodingIsPrefixFree` | libs/capstone/LEB128.h:26-38 | no encoding is the beginning of another |
| `LeadingZeros.Bisect` | libs/capstone/MathExtras.h:104-117 | the halving loop counts the zeros above the leading bit, for every width that is a power of two |
| `LeadingZeros.CountLeadingZeros32` | libs/capstone/MathExtras.h:97-120 | the number of leading zeros; 32 for zero |
| `LeadingZeros.CountLeadingZeros64` | libs/capstone/MathExtras.h:134-178 | the same for 64 bits, by bisection and by two halves alike |
| `LeadingZeros.Log2Of32` | libs/capstone/MathExtras.h:272-277 | 2^r <= v < 2^(r+1) for v > 0; 2^32 - 1 for 0 |
| `LeadingZeros.Log2CeilOf32` | libs/capstone/MathExtras.h:285-290 | the least r with v <= 2^r for v > 0; 32 for 0 |
| `LeadingZeros.CountLeadingZerosByShifting` | libs/capstone/MathExtras.h:426-439 | the signed shifting loop counts leading zeros of every int but 0, for which it returns 31 |
| `TrailingZeros.TrailingDivides` | libs/capstone/MathExtras.h:188-192 | the trailing-zero count is the exponent of the largest power of two that divides the number |
| `TrailingZeros.IsolatedIsLowestBit` | libs/capstone/MathExtras.h:204 | `(1 + ~v) & v` is the lowest set bit, at every width |
| `TrailingZeros.PowersIn37` | libs/capstone/MathExtras.h:196-204 | the table modulo 37 is the logarithm of the powers of two |
| `TrailingZeros.PowersIn67` | libs/capstone/MathExtras.h:224-234 | the table modulo 67 is the logarithm of the powers of two |
| `TrailingZeros.CountTrailingZeros32` | libs/capstone/MathExtras.h:192-206 | the lookup counts trailing zeros for every 32-bit value; 32 for zero |
| `TrailingZeros.CountTrailingZeros64` | libs/capstone/MathExtras.h:220-236 | the lookup counts trailing zeros for every 64-bit value; 64 for zero |
| `TrailingZeros.MinAlignIsCommon` | libs/capstone/MathExtras.h:357-366 | MinAlign is the largest power of two that divides both numbers |
| `NextPower.SmearStep` | libs/capstone/MathExtras.h:371-376 | or-ing with a shift by the reach doubles how far each bit is smeared |
| `NextPower.NextPowerOf2` | libs/capstone/MathExtras.h:368-378 | the least power of two above the number, or 0 exactly when that is 2^64 |
| `PopCount.PairUpKeepsSum` | libs/capstone/MathExtras.h:253-255 | adding neighbouring fields keeps the number of bits counted |
| `PopCount.PairsStep` | libs/capstone/MathExtras.h:253 | the masked subtraction adds neighbouring bits, at every width |
| `PopCount.NibblesStep` | libs/capstone/MathExtras.h:254 | the masked addition adds neighbouring two-bit fields, at every width |
| `PopCount.BytesStep` | libs/capstone/MathExtras.h:255 | the masked sum adds neighbouring four-bit fields without a carry, at every width |
| `PopCount.CountPopulation32` | libs/capstone/MathExtras.h:249-257 | the number of set bits of every 32-bit value |
| `PopCount.CountPopulation64` | libs/capstone/MathExtras.h:261-270 | the number of set bits of every 64-bit value |
| `BitSets.IntToBitSet` | src/utils/Arithmetic.java:116-127 | the set of one bits of every int, negative ones included; the loop terminates |
| `BitSets.BitSetToInt` | src/utils/Arithmetic.java:89-95 | the int whose bits are the lowest 32 positions, for every set |
| `BitSets.IntRoundTrip` | src/utils/Arithmetic.java:89-127 | converting an int to a set and back gives the int |
| `BitSets.BitSetToLong` | src/utils/Arithmetic.java:105-114 | the text of the bits, its first 32 characters read in binary and cut to an int |
| `BitSets.LongBits` | src/utils/Arithmetic.java:105-114 | bit i of the result is bit i of the set, or of its highest 32 positions when it is longer |
| `BitSets.LongAgreesWithInt` | src/utils/Arithmetic.java:89-114 | bitSetToLong is the sign extension of bitSetToInt iff the set has no bit above 31 or its highest 32 positions are its lowest 32, moved up |
| `BitSets.LongDiffersFromInt` | src/utils/Arithmetic.java:89-114 | a set with a bit above 31 on which they differ |

## Left out

- InsnCache.Cache: the buffer is a sequence in a field, not memory behind `insn_cache`; that realloc
  moves it is modelled, stale pointers into the old buffer are not expressible.
- Runs.Insn: `bytes` is the meaningful prefix of the 16-byte field; stale bytes behind it are not
  modelled.
- Decoding.CallbackOk: callbacks that ask for more than 16 available bytes are excluded; the driver
  copies that many bytes into a 16-byte field (`libs/capstone/cs.c:587`).
- Decoding.Decoder: an architecture's disasm, insn_id, printer and post_printer are one function whose
  text and ids are arbitrary; details, the `doing_mem` and `big_endian` fields and printing to a
  stream shared between hooks are not part of it.
- Text.SplitPrinted: mnemonics are not cut to their 32-character field, past which the source copies a
  longer word, and printed texts are taken to be shorter than the stream's 512 characters.
- Text.Truncated: texts are taken to end with a terminator; the strncpy of a skipdata mnemonic of 31
  or more characters relies on one that is already in the field.
- Decoding.SkipCallback: a callback is a function of the buffer and the position; one that keeps state
  between calls, or in its `user_data`, is outside the model.
- Handle.CsHandle.constructor: only cs_open's success is modelled; its exits for a missing memory
  setup, an unsupported architecture or mode and a refused allocation, and cs_close, are not.
- Handle.CsOption: which functions CS_OPT_MEM installs, and which decoder and printer the mode and
  syntax options choose; a null skipdata mnemonic is outside the model, since the code copies from it
  although the header promises ".byte".
- Allocator.Heap: requests over PTRDIFF_MAX bytes are always refused, as the C library does; 64-bit
  pointers (a cs_insn has 240 bytes) and CAPSTONE_USE_SYS_DYN_MEM are assumed.
- Disassembler.CsMalloc: what malloc's memory holds before it is written is arbitrary.
- Registers.DiffListIterator: the list pointer is an index into the one table that all lists share.
- Registers.GetMatchingSuperReg: tables are assumed well formed (every list ends, every sub-register
  has a name, and the lists of a register name registers) and, for register 0, classes to hold only
  registers; the generated tables are so, and the code does not check it.
- McInst.Inst: 48 live operands are excluded; the source writes past its array there.
- SStream.Stream.Concat: a stream whose index has passed its capacity is not appended to again;
  vsnprintf's formatting of numbers is trusted.
- SStream.Stream.PrintInt32Bang: negating the least integer overflows in C; here and in the other signed
  printers it wraps as on two's complement machines.
- LeadingZeros.CountLeadingZerosByShifting: so does shifting a bit into the sign of an int.
- Corana.HexToInt: Character.digit accepts digits of other alphabets than ASCII; they are left out.
- Leb128.Decode: C leaves shifts by 32 or more undefined; they contribute an arbitrary value, and a
  shift into the sign wraps as on two's complement machines.
- BitSets.BitSetToLong: the set's length is a parameter, tied to the set by a precondition.
- The compiler-builtin, kernel and diet branches of the preprocessor.
- GreatestCommonDivisor64, the masks, Log2_64, SignExtend and OffsetToAlignment: easy beside the rest.
- Floating-point bit casts, RoundUpToAlignment and isShiftedMask.
- cs_reg_name, cs_group_name, cs_insn_group, cs_reg_read and cs_reg_write: table lookups.
- insn_find in utils.c: it reads cache entries that are never initialised.
- Architecture decoders and printers, the Java bindings, ELF parsing, the emulator and the solver.
