# Verification of a Forth system: arithmetic, compiler, heap and block buffers

This project models the parts of a small Forth system for RISC-V whose correctness is not visible from any one
function, and proves what they promise. The models keep the form of the source: arrays and fields updated in place,
loops with their invariants, words as methods; what each method leaves behind is stated by a function of the state
before, and the theorems are about those functions.

* Big numbers (`Arith`, `Digits`, `BigBits`, `BigArith`, `BigMul`, `BigDiv`, `BigReduce`, `BigSquare`, `BigPow`,
  `MStarSlash`): little-endian vectors of 16-bit digits with hand-made carries, up to Barrett reduction
  (Algorithm 14.42 of the Handbook of Applied Cryptography), squaring (Algorithm 14.16), modular exponentiation,
  and `M*/` of section 8.6.1.1820 of Forth 2012. `PowMod` rests on every layer below it.
* The stack-word optimizer (`Machine`, `StackCode`, `Optimizer`, `CodeQueue`): DROP, DUP, SWAP and ROT are run
  symbolically and emitted again as loads, one move of the stack pointer, and stores, while the program is being
  compiled.
* Control flow (`RiscvAsm`, `Structured`, `Programs`, `ControlWords`): IF, ELSE, THEN, BEGIN, WHILE, REPEAT, UNTIL and
  AGAIN with their four-cell control-flow items, back-patching, and short or long branch forms, down to the instruction
  fields; and both compilers at work on one code buffer.
* The heap (`HeapBlocks`, `HeapAllocator`, `HeapRuns`): headers in memory linked both ways, first fit, splitting and
  coalescing.
* The block buffers (`BlockSpec`, `BlockRuns`, `BlockMarks`, `BlockBuffers`): eight write-back buffers over the RAM
  store.
* Smaller parts: the constant loader (`ConstantLoader`), LOOP and +LOOP in C and in Forth (`CountedLoop`,
  `LoopWords`), number output and input (`NumberText`), SUBSTITUTE and UNESCAPE of sections 17.6.2.2255 and
  17.6.2.2375 of Forth 2012 (`Substitution`).

`dafny verify dfyconfig.toml` checks the whole project.

## Where the code does not do what it is for

Each of these is a theorem: what the code does in general, and exactly when that is what one would want.

* `AtLeastExact`, `OneLessThanOne`: two equal non-zero numbers compare as smaller if the first has fewer digits
  (double/v_bignum.c.c:426).
* `Div`, `EqualDivisorMissed`: so a quotient is too small exactly if the divisor has more digits than the dividend and
  divides a prefix of its bits (double/v_bignum.c.c:575-582).
* `Div`, `RemainderExact`, `RemainderLost`: the remainder of a right quotient, in a vector with room for the divisor, is
  wrong exactly if dividend and divisor both have the top bit of the dividend's vector and the dividend is the smaller
  one (double/v_bignum.c.c:583-594).
* `Alloc`: a temporary that takes exactly the words that are left ends one word behind the static heap
  (double/v_bignum.c.c:90-98).
* `PowerModExact`, `NotReduced`: with exponents 0 and 1 nothing is reduced (double/v_bignum.c.c:767-788).
* `ResultExact`, `NegativeFraction`: a negative product smaller than the divisor gives the lowest double
  (double/M_star_slash.c:63-65).
* `JumpOffsetExact`, `JumpTooFar`: a jump of a megabyte or more forward, or of more than a megabyte backward, is encoded
  wrongly without notice (arch/riscv/asmgen_riscv.h:216-222).
* `LoadsExactly`, `SignLost`: constants from -2^32 up to -2^31 are loaded without their sign
  (arch/riscv/compile.c:10-52).
* `GetsWhatItAsked`, `HugeRequestServed`: a request within 40 bytes of 2^64 that does not fail is given a small block
  (example/os2/memory.fth:27, 39-43).
* `LoadedThrows`, `SavedAnswers`, `Block99`: BLOCK throws for a number outside the store exactly if no buffer has it,
  which after the first request one has; and once such a buffer is marked, FLUSH throws, and so does BLOCK for a block
  of the store when that buffer is the victim (block.fth:10-19, 33-37, 43-49, 54-60).
* `RefusedExactly`, `NothingDoesNotFit`: a result that fits is refused exactly if it fills the destination and the text
  ends with a name that is replaced by nothing (string/string2.fth:19-23, 73).

## Model

| member | source | states |
|---|---|---|
| BigBits.SetZero | double/v_bignum.c.c:138-142 | every digit is cleared, whatever the length |
| BigBits.SetBignum | double/v_bignum.c.c:160-181 | assignment keeps the value modulo the destination size and clears the digits the source does not have |
| BigBits.BitTest | double/v_bignum.c.c:209-217 | the bit read is bit number `bit` of the value; bits beyond the vector are clear |
| BigBits.BitSet | double/v_bignum.c.c:219-229 | exactly the asked bit of the value is set, and nothing happens for a bit the vector does not have |
| BigBits.BitMsb | double/v_bignum.c.c:231-252 | -1 exactly for zero, otherwise the r with 2^r <= x < 2^(r+1) |
| BigBits.ShiftLeft1 | double/v_bignum.c.c:286-298 | doubling modulo the size: the bit shifted out is dropped |
| BigBits.ShiftRight | double/v_bignum.c.c:300-333 | division by 2^count for every count, whole digits first, the shift past the end included |
| BigBits.ShiftStep | double/v_bignum.c.c:324-332 | one digit of the bit loop keeps the quotient above and the spilled bits below, through shifts and ORs of 32-bit words |
| BigBits.SetBignumPart | double/v_bignum.c.c:183-197 | the bits of y from msb down, right-adjusted, with zeros behind them if more are asked for than there are, modulo what fits the destination; zero for a missing or out-of-range source |
| BigArith.Gte | double/v_bignum.c.c:393-427 | the comparison is exact, but for equal non-zero numbers where x has fewer digits: there the length words decide |
| BigArith.AtLeastExact | double/v_bignum.c.c:426-426 | the comparison is right if and only if the numbers are not equal and non-zero with x having fewer digits |
| BigArith.OneLessThanOne | double/v_bignum.c.c:426-426 | 1 in one digit is not at least 1 in two |
| BigArith.Add | double/v_bignum.c.c:481-499 | addition modulo the size of x for operands of any lengths |
| BigArith.Sub | double/v_bignum.c.c:501-524 | subtraction modulo the size of x, borrows read off the unsigned 32-bit word |
| BigArith.BorrowOf | double/v_bignum.c.c:507-515 | the borrow of a digit difference is what the upper half of the wrapped word shows |
| BigMul.FitsWord | double/v_bignum.c.c:540-542 | digit product, old digit and carry never exceed 32 bits |
| BigMul.RowOutside | double/v_bignum.c.c:540-544 | what is written at index n or above, the misplaced carry included, only adds multiples of B^n |
| BigMul.Mul | double/v_bignum.c.c:528-549 | x becomes x*y modulo B^len(x), for all lengths and digits, although each row carry is stored one slot above its place |
| BigDiv.DigitHeap.Alloc | double/v_bignum.c.c:86-100 | a temporary of n digits takes n + 1 words of the static heap; null if n words are not left; with exactly n words left it is given, and ends past the heap |
| BigDiv.DigitHeap.Free | double/v_bignum.c.c:102-106 | the words of the number taken last are given back |
| BigDiv.BringDown | double/v_bignum.c.c:575-589 | shifting the remainder and bringing down the next bit is the division state of the next prefix |
| BigDiv.DivRound | double/v_bignum.c.c:575-589 | one round of the loop: work stays below twice the divisor and a quotient bit is right, unless the divisor has more digits and divides the prefix |
| BigDiv.MeetsWithin | double/v_bignum.c.c:575-589 | the prefixes the loop comes to are all that can matter |
| BigDiv.LastShift | double/v_bignum.c.c:587-587 | undoing the last shift leaves the remainder short of the bit that was shifted out |
| BigDiv.Div | double/v_bignum.c.c:551-599 | for operands of any lengths the quotient is exact if and only if the divisor does not have more digits and divide a prefix of the bits of x; then the remainder is x cut to its vector if the highest bit of x is below that of y, and else x mod y cut to one bit less than x and to its vector; with room for the divisor, x = q*y + r and 0 <= r < y if and only if the quotient is exact and x does not lie below y with both having the top bit of x's vector; a zero divisor gives 0 and leaves the remainder alone |
| BigDiv.RemainderExact | double/v_bignum.c.c:583-594 | with room for the divisor the remainder is x mod y if and only if x does not have the top bit of its vector and lie below a y that fits the size of that vector |
| BigDiv.DivisionExact | double/v_bignum.c.c:551-599 | x = q*y + r and 0 <= r < y if and only if neither an equal divisor of more digits was missed nor the top bit of the remainder lost |
| BigDiv.RemainderLost | double/v_bignum.c.c:583-587 | 0x8000 divided by 0x8001 in one digit leaves the remainder 0 |
| BigDiv.EqualDivisorMissed | double/v_bignum.c.c:575-582 | 1 in one digit divided by 1 in two is an input whose quotient is too small |
| BigReduce.SignificantDigits | double/v_bignum.c.c:630-631 | k is the number of digits without leading zeros |
| BigReduce.ReduceBegin | double/v_bignum.c.c:622-644 | mu is floor(B^2k / m) |
| BigReduce.BarrettEstimate | double/v_bignum.c.c:661-666 | the estimate of the quotient is at most two too small, for every x below B^2k |
| BigReduce.EstimateQuotient | double/v_bignum.c.c:661-666 | the truncating shifts and product lose nothing that matters to the estimate |
| BigReduce.FixUpRight | double/v_bignum.c.c:668-690 | the truncated difference and the sign fix-up give x - q*m for vectors above, at and below k + 1 digits |
| BigReduce.SubtractRest | double/v_bignum.c.c:692-694 | the last loop leaves the remainder and runs at most twice |
| BigReduce.Reduce | double/v_bignum.c.c:651-699 | x becomes exactly x mod m for every x below B^2k |
| BigSquare.WordStep | double/v_bignum.c.c:732-741 | the 33-bit value split over uv and high never loses a bit, though doubling and addition may each wrap |
| BigSquare.DoubleAndAdd | double/v_bignum.c.c:732-741 | the word and the bit kept apart hold the doubled product and the sum added to it |
| BigSquare.FirstFits | double/v_bignum.c.c:723-726 | the sum at the start of a row fits 32 bits, in the last row because the whole square fits its digits |
| BigSquare.CarrySlotFits | double/v_bignum.c.c:729-744 | the last product of a row fits 33 bits by the bound on the whole, not by the local carries |
| BigSquare.SquareRow | double/v_bignum.c.c:720-745 | one row adds the square of a digit and its doubled products to the value of the rows below |
| BigSquare.SquareHalf | double/v_bignum.c.c:701-758 | a number in the lower half of its digits becomes its exact square; with one digit nothing changes |
| BigPow.PowLoop | double/v_bignum.c.c:779-788 | left-to-right exponentiation: after each bit tmp is x to the bits used so far, modulo n |
| BigPow.PowMod | double/v_bignum.c.c:760-792 | x becomes the specified power, for every exponent, and the heap is as before |
| BigPow.PowerModExact | double/v_bignum.c.c:760-792 | the result is x^y mod n if and only if y >= 2, or y = 1 and x < n, or y = 0 and x = 1 mod n: without a second exponent bit nothing is reduced |
| BigPow.NotReduced | double/v_bignum.c.c:767-788 | 5 to the power 1 modulo 3 is left at 5 |
| MStarSlash.RawImport | double/v_bignum.c.c:110-121 | the vector has the value of the big-endian bytes |
| MStarSlash.RawExport | double/v_bignum.c.c:123-134 | the bytes have the value of the vector, most significant first |
| MStarSlash.MStarSlash | double/M_star_slash.c:19-70 | what the word returns for every double, cell and divisor, on 32-bit and 64-bit cells |
| MStarSlash.ResultExact | double/M_star_slash.c:57-65 | for every quotient that fits a double the result is the truncated quotient if and only if the product is not a negative number smaller than the divisor |
| MStarSlash.LowestCells | double/M_star_slash.c:63-65 | the lowest cells and doubles of both cell widths |
| MStarSlash.NegativeFraction | double/M_star_slash.c:63-65 | -1 1 2 M*/ gives the lowest double, not zero |
| StackCode.PlainEffect | asm/rv-core.fth:11-42 | the code of DROP, SWAP, DUP and ROT moves the cells as the words should, and keeps all registers but the scratch ones |
| StackCode.PlainCode | asm/rv-core.fth:11-42 | the instructions and registers of the four words, one by one |
| Optimizer.PictureRight | asm/rv-optim.fth:109-124 | the words run on cell numbers describe the words run on the real stack, for every sequence within the tracked cells |
| Optimizer.RegistersDistinct | asm/rv-optim.fth:59-70 | no two positions get the same register, and all get scratch registers |
| Optimizer.LoadsRight | asm/rv-optim.fth:82-95 | after the loads every register in use holds the cell the table says |
| Optimizer.LoadsOnce | asm/rv-optim.fth:128-137 | no cell and no register is loaded twice |
| Optimizer.StoresRight | asm/rv-optim.fth:143-150 | the stores change exactly the positions that have to change |
| Optimizer.OptimizePreserves | asm/rv-optim.fth:103-163 | from any state the loads, the adjustment and the stores leave the same stack pointer, live cells, kept registers and other state as the words one by one |
| Optimizer.OnlyScratch | asm/rv-optim.fth:59-70 | neither the optimized code nor that of a single word writes a register other than x5 to x7, x8, x10 to x17 and x28 to x31, so the return stack pointer x9 is safe |
| Optimizer.WithinStack | asm/rv-optim.fth:143-150 | the optimized code writes no memory but the fifteen cells below the old top of the stack and those up to the new one |
| Optimizer.ShallowNeverAborts | asm/rv-optim.fth:128-137 | words that stay within the tracked cells and leave the stack no deeper are always optimized |
| CodeQueue.QueuePreserves | asm/rv-optim.fth:167-197 | for every stream of stack words, other code and labels the buffer means the same as the unoptimized code, from states that are the same to every word |
| CodeQueue.OneGroup | asm/rv-optim.fth:154-154 | up to fifteen words in a row are optimized together, the sixteenth starts a new sequence |
| CodeQueue.CompiledAtLabel | core/BEGIN.c:6-6 | nothing in front of a label is joined with anything behind it |
| CodeQueue.LabelStaysGood | arch/riscv/core/THEN.c:7-7 | the code in front of a label is never touched again, and the code at its address means exactly the events after it |
| CodeQueue.Surrounding | asm/rv-optim.fth:180-181 | comparing CSRI with CSG and HERE - START with EXP shows exactly whether anything lies behind the words |
| CodeQueue.Compiler.constructor | asm/rv-optim.fth:46-51 | nothing is being optimized at first |
| CodeQueue.Compiler.ClearUsed | asm/rv-optim.fth:74-80 | every register is its own and holds no cell yet |
| CodeQueue.Compiler.RunSymbolically | asm/rv-optim.fth:109-124 | the loop computes the compile-time stack and the offset |
| CodeQueue.Compiler.FetchRegisterOf | asm/rv-optim.fth:82-95 | a register that holds the cell is shared, otherwise the cell is loaded and recorded |
| CodeQueue.Compiler.LoadPass | asm/rv-optim.fth:128-137 | emits the specified loads; aborts exactly if a moved cell lies too deep for a register |
| CodeQueue.Compiler.StorePass | asm/rv-optim.fth:143-150 | emits the specified stores |
| CodeQueue.Compiler.Optimize | asm/rv-optim.fth:103-163 | replaces the code from START on by the optimized code of the sequence, or aborts exactly if there is none |
| CodeQueue.Compiler.Queue | asm/rv-optim.fth:167-197 | the word joins the open sequence or starts a new one, exactly as the segments say; an abort leaves the code before the sequence |
| CodeQueue.Compiler.TakeLabel | core/BEGIN.c:5-7 | the address is HERE, and the next stack word starts afresh |
| CodeQueue.Compiler.CompileWord | asm/rv-optim.fth:199-209 | a stack word and then its queueing keep the buffer and the variables in step |
| CodeQueue.Compiler.CompileAll | asm/rv-optim.fth:167-209 | over a whole stream the code appended is the grouped code and means what the unoptimized code means; it aborts if and only if a sequence on the way cannot be optimized |
| CodeQueue.Compiler.StartOver | asm/rv-optim.fth:180-191 | whatever has been done to the code, once CSRI is bumped nothing in front of HERE is touched again |
| RiscvAsm.BranchOffsetExact | arch/riscv/asmgen_riscv.h:170-177 | the fields of a branch give back the offset if and only if it is even and passes the test of the assembler |
| RiscvAsm.JumpOffsetExact | arch/riscv/asmgen_riscv.h:216-222 | the fields of a jump give back the offset if and only if it is even, below a megabyte forward and at most a megabyte backward; the assembler does not check |
| RiscvAsm.JumpTooFar | arch/riscv/asmgen_riscv.h:216-222 | a jump over a megabyte is encoded as one a megabyte back |
| Structured.BranchRuns | arch/riscv/core/IF.c:18-27 | both forms of the branch go to the target if the registers are equal and otherwise to the instruction behind |
| Structured.ForwardRuns | arch/riscv/core/IF.c:6-16 | the two slots IF reserves do so too, whichever form fills them |
| Structured.PopTakesFlag | arch/riscv/core/IF.c:31-32 | the top of the stack goes to x12 and off the stack, and nothing else changes |
| Structured.Simulates | arch/riscv/core/IF.c:6-41 | the machine runs the code of any nesting of the control structures as the program says, and stays within the code while a loop goes on |
| Structured.ReachInInstructions | arch/riscv/asmgen_riscv.h:216-222 | how many instructions the parts of each control structure may have |
| Structured.CompiledMeansProgram | arch/riscv/core/THEN.c:6-18 | the code comes to its end with some data if and only if the program does |
| Structured.NeverLeaves | arch/riscv/core/AGAIN.c:6-12 | a program without an end keeps the machine within its code for ever |
| Programs.PopSame | arch/riscv/core/IF.c:31-32 | states that are the same to every word have the same flag on top, and stay the same without it |
| Programs.QueueKeepsMeaning | asm/rv-optim.fth:167-197 | for any nesting of control structures and any stretches of words between them the optimizer changes neither whether the program comes to an end nor what it leaves on the stack |
| Programs.QueuedCodeMeansProgram | arch/riscv/core/THEN.c:6-18 | the code with optimized stretches and with branches comes to the same ends as the program with every word as it is |
| Programs.QueuedNeverLeaves | arch/riscv/core/AGAIN.c:6-12 | a program without an end never leaves its optimized code |
| Programs.StretchReachable | asm/rv-optim.fth:103-163 | neither the optimizer nor the stack words bring in branches |
| ControlWords.RolledBy | core/CS_ROLL.c:6-14 | k rolls turn the top items round by k |
| ControlWords.RolledRound | core/CS_ROLL.c:6-14 | rolling as often as there are items restores the control-flow stack |
| ControlWords.ControlFlowCompiler.EmitBeqOrJal | arch/riscv/core/IF.c:18-27 | the short form, or the branch around a jump, its first instruction written twice |
| ControlWords.ControlFlowCompiler.EmitBeqOrJalNop | arch/riscv/core/IF.c:6-16 | the same in two slots |
| ControlWords.ControlFlowCompiler.If | arch/riscv/core/IF.c:29-41 | takes the flag, reserves two slots and leaves the item with place, registers and branch function |
| ControlWords.ControlFlowCompiler.Ahead | arch/riscv/core/AHEAD.c:6-15 | reserves one slot and leaves an item without a condition |
| ControlWords.ControlFlowCompiler.Begin | core/BEGIN.c:5-12 | leaves HERE as a destination |
| ControlWords.ControlFlowCompiler.Then | arch/riscv/core/THEN.c:6-18 | fills in the branch or jump of the item in place, with the distance to HERE, registers in item order |
| ControlWords.ControlFlowCompiler.CsRoll | core/CS_ROLL.c:6-14 | moves the item d items down to the top |
| ControlWords.ControlFlowCompiler.Else | core/ELSE.m4:1-9 | a jump over the second branch, and the first one resolved behind it |
| ControlWords.ControlFlowCompiler.While | core/WHILE.m4:1-8 | the branch out of the loop goes below the destination |
| ControlWords.ControlFlowCompiler.Until | arch/riscv/core/UNTIL.c:8-16 | takes the flag and branches back while it is zero |
| ControlWords.ControlFlowCompiler.Again | arch/riscv/core/AGAIN.c:6-12 | jumps back to the destination |
| ControlWords.ControlFlowCompiler.Repeat | core/REPEAT.m4:1-7 | jumps back, and resolves the branch out of the loop behind the jump |
| ControlWords.ControlFlowCompiler.Stretch | asm/rv-optim.fth:167-209 | the words between two control-flow words become their grouped code at HERE, whatever has been compiled and filled in before |
| ControlWords.ControlFlowCompiler.Compile | core/ELSE.m4:1-9 | with the optimizer and the control-flow words on one code buffer every program becomes its code, through CS-ROLL and back-patching, and the control-flow stack is as before; it aborts if and only if a stretch cannot be optimized |
| ControlWords.ControlFlowCompiler.CompileProgram | arch/riscv/core/THEN.c:6-18 | the code laid down by the two compilers together comes to the same ends as the program with every word as it is, from any state and for any meaning of the other instructions |
| HeapBlocks.TotalIs | example/os2/memory.fth:45-73 | headers and payloads always add up to the area |
| HeapBlocks.SplitTiled | example/os2/memory.fth:45-73 | cutting a block leaves the area covered |
| HeapBlocks.SplitCoalesced | example/os2/memory.fth:45-73 | and no two free neighbours |
| HeapBlocks.FreedTiled | example/os2/memory.fth:135-172 | releasing a block leaves the area covered |
| HeapBlocks.FreedCoalesced | example/os2/memory.fth:135-172 | and no two free neighbours |
| HeapBlocks.HoleInHole | example/os2/memory.fth:97-107 | merging right and then left makes one block of all three |
| HeapBlocks.FreedLive | example/os2/memory.fth:135-172 | a release takes away its own block and no other |
| HeapBlocks.FirstFitFinds | example/os2/memory.fth:19-37 | the block found is the first free one that is larger than the size looked for |
| HeapBlocks.ServedKeeps | example/os2/memory.fth:116-133 | a request, served or not, leaves the area covered and no two free neighbours |
| HeapBlocks.FailsExactly | example/os2/memory.fth:116-133 | for every size a request fails if and only if rounding it up overflows the cell or no free block is larger than the request in whole cells and a header, their sum taken as a cell |
| HeapBlocks.GetsWhatItAsked | example/os2/memory.fth:27-27 | a request that succeeds gets at least what it asked for if and only if its size in cells and a header do not wrap |
| HeapBlocks.HugeRequestServed | example/os2/memory.fth:39-43 | a request for 2^64 - 32 bytes is served from a megabyte |
| HeapBlocks.ServedLive | example/os2/memory.fth:116-133 | a request adds one block to those in use and changes none |
| HeapAllocator.RelinkedRepresents | example/os2/memory.fth:12-17 | where a stretch of blocks has been replaced and its links are right, all headers are those of the new list, linked in both directions |
| HeapAllocator.HeaderCells | example/os2/memory.fth:12-17 | a header is size, use flag (all bits set or none), previous and next block, eight bytes each, in front of the payload |
| HeapAllocator.PayloadWrite | example/os2/memory.fth:12-17 | a store within memory given out leaves every header as it was |
| HeapAllocator.Allocator.InitAllocationArea | example/os2/memory.fth:87-95 | the area is one free block behind its header |
| HeapAllocator.Allocator.FindFreeArea | example/os2/memory.fth:19-37 | the recursive search returns the first fit, looking for the wrapped size |
| HeapAllocator.Allocator.SplitAllocate | example/os2/memory.fth:45-73 | both branches leave headers and links of the specified list, and every payload in use as it was |
| HeapAllocator.Allocator.MergeRight | example/os2/memory.fth:97-102 | two neighbours become one, linked to the block behind them |
| HeapAllocator.Allocator.MergeLeft | example/os2/memory.fth:104-107 | the same with the block before |
| HeapAllocator.Allocator.Allocate | example/os2/memory.fth:116-133 | the block, address and error code (-21 or 0) of every request, and every payload in use as it was; the address is 0 if and only if it fails |
| HeapAllocator.Allocator.Free | example/os2/memory.fth:135-172 | every case of the neighbours ends in the specified list, and every payload still in use is as it was |
| HeapRuns.Reachable | example/os2/memory.fth:87-172 | after any run of requests and releases the blocks cover the area, no two neighbours are free, and the sum of size + 32 is constant |
| HeapRuns.LiveApart | example/os2/memory.fth:45-73 | payloads in use are aligned, within the area and pairwise disjoint |
| HeapRuns.ReleaseAll | example/os2/memory.fth:135-172 | releasing all memory in use after any run, in any order, restores the single free block |
| HeapRuns.HolderIs | example/os2/memory.fth:135-139 | the address released determines the block |
| BlockSpec.WrittenBackKeeps | block.fth:10-19 | writing a buffer back throws exactly for a marked number outside the store, leaves no difference and changes no contents |
| BlockSpec.AssignedKeeps | block.fth:21-50 | a request writes at most the victim back, changes no contents but those of the block asked for, and tells which block the buffer has |
| BlockSpec.AssignedTakes | block.fth:21-50 | the buffer is the one with the block, else the first empty one, else the one behind the buffer used last |
| BlockMarks.AssignedMarks | block.fth:35-46 | a buffer newly assigned is unmarked, and no other mark or block changes |
| BlockMarks.MarkedByUpdate | block.fth:10-90 | after any run of single words a buffer is marked if and only if UPDATE hit it since it was last assigned, written back or emptied |
| BlockMarks.NeverUpdated | block.fth:10-90 | without UPDATE nothing reaches the store, whatever is stored into the buffers, and FLUSH and SAVE-BUFFERS do not throw |
| BlockSpec.AssignedThrows | block.fth:43-49 | for every state of the buffers: ?BUFFER throws if and only if the block is in no buffer, none is empty, and the victim is marked and not in the store |
| BlockSpec.LoadedKeeps | block.fth:54-60 | BLOCK changes no contents, whether it throws or not, and gives a buffer with the contents of the block |
| BlockSpec.LoadedThrows | block.fth:54-60 | for every state: BLOCK throws for a number outside the store if and only if no buffer has it, and for a block of the store if and only if ?BUFFER does |
| BlockSpec.StoredKeeps | block.fth:62-64 | a store into the buffer used last changes the contents of its block only |
| BlockSpec.UpdatedKeeps | block.fth:62-64 | UPDATE marks the difference |
| BlockSpec.SavedAnswers | block.fth:66-83 | for every state: FLUSH and SAVE-BUFFERS throw if and only if a marked buffer is not in the store |
| BlockSpec.SavedStores | block.fth:66-83 | if they do not throw the store holds what the buffers stood for; no contents change if they do |
| BlockSpec.EmptiedKeeps | block.fth:85-90 | EMPTY-BUFFERS goes back to what is in the store |
| BlockSpec.LastIsSpared | block.fth:43-44 | the buffer just returned is not the next victim, in any state |
| BlockSpec.InvalidBlockStays | block.fth:54-60 | a number outside the store that has been given a buffer keeps it, and the next BLOCK finds it there |
| BlockSpec.Block99 | block.fth:54-60 | BLOCK throws for 99 the first time only, and after UPDATE so does FLUSH |
| BlockRuns.StepIsFlat | block.fth:10-90 | each word, EMPTY-BUFFERS and words that throw included, does to the buffers what it does to a flat store; after an exception the block in use is outside the store or the one before, or none after FLUSH |
| BlockRuns.RunIsFlat | block.fth:10-90 | so does every run |
| BlockRuns.GivesLastWritten | block.fth:10-90 | from empty buffers over any run BLOCK n gives the page the flat store holds for block n, and FLUSH puts all pages in the store, unless they throw |
| BlockRuns.RunDetermined | block.fth:10-90 | all runs of the flat store hold the same pages, after exceptions too, but for EMPTY-BUFFERS, which depends on what has reached the store, and a FLUSH that throws half-way |
| BlockRuns.EveryRunGives | block.fth:10-90 | so BLOCK n and FLUSH give what every such run of the flat store holds |
| BlockRuns.NeverThrows | block.fth:10-90 | nothing throws in a run that asks for blocks of the store only |
| BlockBuffers.Move | example/os2/ramblock.fth:21-28 | a page is copied and nothing else changes |
| BlockBuffers.BlockBuffers.BlockWrite | example/os2/ramblock.fth:17-22 | one block of the store becomes the page, or -35 for a number outside it |
| BlockBuffers.BlockBuffers.BlockRead | example/os2/ramblock.fth:24-29 | one page becomes the block, or -35 |
| BlockBuffers.BlockBuffers.UpdateBuffer | block.fth:10-19 | a marked buffer with a block is written |
| BlockBuffers.BlockBuffers.QueryBuffer | block.fth:21-50 | the three searches end in the specified buffer and state, or in the exception of the write-back |
| BlockBuffers.BlockBuffers.Buffer | block.fth:52-52 | ?BUFFER without the flag |
| BlockBuffers.BlockBuffers.Block | block.fth:54-60 | reads only into a newly assigned buffer |
| BlockBuffers.BlockBuffers.Update | block.fth:62-64 | marks the buffer used last |
| BlockBuffers.BlockBuffers.Flush | block.fth:66-74 | all buffers written and emptied, or the exception on the way |
| BlockBuffers.BlockBuffers.SaveBuffers | block.fth:76-83 | all buffers written and kept, or the exception on the way |
| BlockBuffers.BlockBuffers.EmptyBuffers | block.fth:85-90 | all buffers emptied without writing |
| ConstantLoader.CodeSection.Store64 | arch/riscv/compile.c:7-53 | the instructions of the recursive split, the correction of the low half and the zero-extension, in order |
| ConstantLoader.CodeSection.StoreWord | arch/riscv/compile.c:27-45 | LUI and ADDI(W), or one of them |
| ConstantLoader.Halves | arch/riscv/compile.c:27-29 | the carry into the upper 20 bits makes up for the sign of the lower 12 |
| ConstantLoader.Loads32 | arch/riscv/compile.c:27-45 | with 32-bit cells every constant is loaded exactly |
| ConstantLoader.LoadsExactly | arch/riscv/compile.c:7-53 | with 64-bit cells a constant is loaded exactly if and only if it is not between -2^32 and -2^31; no register but the target, the next and T0 changes |
| ConstantLoader.SignLost | arch/riscv/compile.c:10-52 | -2^32 is loaded as 0 |
| CountedLoop.ExitsBySigns | arch/riscv/cs.c:33-36 | the sign of the bit expression says that the distance changes sign and the step does not share its sign |
| CountedLoop.BitsOf | arch/riscv/cs.c:36-36 | the exclusive or and the and, bit by bit |
| CountedLoop.RunsUp | arch/riscv/cs.c:28-45 | with cells of any width w a loop with step k below 2^(w-1) runs for its distance divided by k, rounded up |
| CountedLoop.RunsDown | arch/riscv/cs.c:28-45 | a loop with step -m, m up to 2^(w-1), runs floor(((start - limit) mod 2^w) / m) + 1 times |
| CountedLoop.ExitsNever | arch/riscv/cs.c:28-45 | the step 0 never ends a loop |
| CountedLoop.LoopIsPlusOne | arch/riscv/cs.c:12-26 | LOOP ends exactly where +LOOP with step 1 does |
| LoopWords.Stacks.CLoop | arch/riscv/cs.c:12-26 | after LOOP the flag is -1 and the frame is gone if the index has reached the limit, and else the flag is 0 and the frame has the new index |
| LoopWords.Stacks.CPlusLoop | arch/riscv/cs.c:28-45 | after +LOOP the flag is -1 and the frame is gone if the loop ends, and else the flag is 0 and the frame has the new index |
| LoopWords.Stacks.ForthLoop | do.fth:1-13 | the Forth words leave both stacks as the C function does |
| LoopWords.Stacks.ForthPlusLoop | do.fth:15-30 | the Forth words leave both stacks as the C function does |
| NumberText.TextFits | core/HOLD.m4:1-14 | a number below 2^k has at most k digits in any base |
| NumberText.DoubleDigits | core/HOLD.m4:1-14 | a double of two cells of w bits has at most 2w digits |
| NumberText.PicturedOutput.Start | core/bracket_number.m4:1-6 | the buffer is empty |
| NumberText.PicturedOutput.Hold | core/HOLD.m4:1-14 | one character in front of the text; a full buffer stays as it is |
| NumberText.PicturedOutput.NumberSign | arch/riscv/math.c:13-26 | the quotient, and the digit in front of the text as far as the buffer holds it |
| NumberText.PicturedOutput.NumberSignS | core/number_sign_S.m4:1-13 | the text of the number in front of what was there, digit by digit; if the buffer fills up, its leading digits are lost |
| NumberText.PicturedOutput.Finish | core/number_bracket.m4:1-11 | the address and length of the text |
| NumberText.DigitOfChar | core/to_NUMBER.m4:48-71 | each digit character is read as the digit it was written for |
| NumberText.DigitWritten | arch/riscv/math.c:18-24 | 0 to 9 and then A to Z |
| NumberText.DigitRead | core/to_NUMBER.m4:48-71 | a character stands for a digit below the base if and only if it is that digit, letters of either case |
| NumberText.TextDigits | arch/riscv/math.c:13-26 | each character of the text is the digit for its power of the base, and only 0 begins with 0 |
| NumberText.KeptDigits | arch/riscv/math.c:13-26 | so is each character that a full buffer keeps |
| NumberText.StepOnCells | core/to_NUMBER.m4:25-33 | upper halves and carry make one step ud*base + digit modulo the doubles, for cells of any width |
| NumberText.ToNumber | core/to_NUMBER.m4:1-46 | all leading digits are used and accumulated, the rest is returned |
| NumberText.ReadsBack | core/number_sign_S.m4:1-13 | what #S writes >NUMBER reads back, in every base from 2 to 36 and for cells of any width |
| NumberText.WriteAndRead | core/to_NUMBER.m4:1-46 | <# #S #> and >NUMBER in a row give back both cells and use the whole text, with 32-bit and 64-bit cells |
| Substitution.ScanReplaces | string/string2.fth:16-86 | the scanner computes the recursive replacement from every state: names replaced once, unknown names and a dangling percent sign kept |
| Substitution.NameReplaced | string/string2.fth:30-54 | a known name between percent signs is replaced and counted, an unknown one left, and two percent signs are one |
| Substitution.Destination.Append | string/string2.fth:10-14 | appends all of a text or fails |
| Substitution.Destination.Expand | string/string2.fth:30-54 | a known name, an unknown name and the empty name |
| Substitution.Destination.Substitute0 | string/string2.fth:16-86 | succeeds if and only if the result fits and there is room left when the last character is looked at; then text and count are those of the replacement |
| Substitution.RoomToSpare | string/string2.fth:19-23 | with room for more than the result it succeeds |
| Substitution.RefusedExactly | string/string2.fth:19-23 | a result that fits is refused if and only if it fills the room and the text ends with a name that is replaced by nothing |
| Substitution.NothingDoesNotFit | string/string2.fth:19-23 | an empty result does not fit an empty destination |
| Substitution.Substitute | string/string2.fth:95-101 | -1 for every exception |
| Substitution.Unescape | string/string.fth:131-140 | every percent sign doubled |
| Substitution.SubstituteUndoesUnescape | string/string2.fth:16-86 | SUBSTITUTE of UNESCAPE gives back the text with no substitution, in exactly the destinations that hold it |

## Left out

- Div: the remainder after a wrong quotient, which the operations built on division never ask for.
- Alloc: the words of the static digit heap are counted, and each temporary is a vector of its own; that a
  number taken later lies behind one taken earlier in one array is not modelled, nor what a last digit behind the
  array does. The callers' preconditions leave room for their temporaries.
- PowMod: vectors of at most 128 digits, which is what the static limits of squaring and the digit heap allow.
- SquareHalf: vectors of at most 257 digits, the size of the static array `w`.
- SetBignumPart: asking for more than 2^31 bits beyond those there are, where the wrapped index comes round to real bits.
- Uninitialized temporaries hold arbitrary digits.
- CompileWord: sequences that reach below the fifteen tracked cells or drop all of them are excluded; the original
  then reads compile-time stack cells of its caller.
- QueuePreserves: the code of other words is a row of instructions with any meaning that only looks at the live stack
  cells, kept registers and the rest of the machine, not at scratch registers. Branches are not among them: they come
  from the control structures of `Programs`. A compiler without the optimizer is `Structured` alone.
- ControlFlowCompiler: distances of two gigabytes and more, where the 32-bit argument would be cut, are outside the
  model, and CSRI does not wrap.
- CompileProgram: programs in which every branch and jump reaches its target; `JumpOffsetExact` says what happens
  beyond. Cells and the stack pointer of the running program are integers without a width.
- CompileProgram: CS-PICK, DO loops, CASE, and control structures that are not properly nested.
- InitAllocationArea: sets ALLOCATION-AREA as well, which the caller does in the original (example/os2/fmain.fth:429).
- Free: only addresses that ALLOCATE has given out; the default case of the original cannot be reached.
- Memory is a map of cells at aligned addresses; single bytes of a cell are not modelled.
- RESIZE, which releases before it allocates, and the debugging output of the allocator.
- BlockBuffers: exceptions are error codes returned; LOAD, THRU and the terminal side of blocks, and a block store
  other than the RAM store.
- GivesLastWritten: runs in which each change of a buffer is followed by UPDATE before another block is requested;
  `MarkedByUpdate` and `NeverUpdated` are about the others.
- Block 0, which marks an empty buffer, is only modelled as the words treat it, not as a block with contents.
- Store64: shift instructions of a 64-bit machine; the address loader with its GOT search, and far calls, which
  depend on where code lies in memory.
- LEAVE, I and J.
- NumberSign: the double is one number, as in the original; remainders beyond base 36 are written but not read back.
- Substitute: the temporary copy of the source and its ABORT when there is no memory; names are found by any
  function, so neither the word list nor REPLACES is modelled.
- Unescape: a destination that is too small, which the original does not check.
- The x86-64 encoders, PLT and GOT paths, equality and digit-sized routines of the big numbers: easier variants of
  what is here, or memory layout.
- Files, terminal, UART, PLIC, ELF and object writing, floating point, date and time, the editor, the outer
  interpreter, search order, MARKER and DOES>: input and output, or memory layout.
