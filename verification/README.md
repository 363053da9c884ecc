# NEMU and AbstractMachine, verified

The repository holds an emulator for RV32IM (NEMU) with a debugger, differential testing against QEMU and a
random expression generator, and a small runtime for bare metal (AbstractMachine) with 64-bit division on 32-bit
words, page tables, and audio drivers.  This project models the parts of both whose correctness is hard to see from
their code, and proves what they are for.

- `Int64`: shift-subtract division with its special cases, clz and ctz, and the signed wrappers (on `Bits`, machine
  words as natural numbers).
- `Paging`, `PageTree`, `Vme`, `X86Modes`: page tables of any depth in a memory of pages.  `Translate` is the walk of the
  hardware (32-bit and 4-level paging, sections 4.3 and 4.5 of volume 3A of the Intel SDM); each address space stands
  for a finite map, and every method keeps `Valid`, which says that hardware and map agree for all spaces at once.
  The level table and the areas are a parameter; both compiled-in configurations are instances, and for them the walk
  is that of the two paging modes.
- `ExprTree`, `Lexer`, `Eval`, `Debugger`, `ExprStrings`, `ExprValues`, `GenExpr`: expression trees with C precedence and
  their values; the tokenizer and evaluator, which succeed exactly on the strings that print a tree with a value; and
  the generator, which writes nothing but expressions, and each of them on some tape of draws.
- `RvSpec`, `RvManual`, `RvFormat`, `RvAssembly`, `RvArith`, `NemuState`, `NemuExec`, `Nemu`: RV32IM as chapter 2 and
  sections 7.1 and 7.2 of the RISC-V Unprivileged ISA (20191213) describe it, decoded as chapter 24 encodes it; the
  interpreter with its operand decoders, register-transfer primitives and run loop; and the differential-testing
  protocol around it.
- `Bus`: physical memory and device regions, refining one flat little-endian memory, and standing behind the memory of
  the emulator.
- `Ring`, `Audio`, `AudioPort`, `NativeAudio`: the audio ring buffer of driver and device as the interleaving of
  their atomic steps, the code of both as runs of those steps, and the queue of the native platform.
- `GdbPackets`, `GdbPlain`, `GdbConn`, `GdbCommands`, `GdbHost`: the GDB remote protocol ("Overview", section E.1 of *Debugging
  with GDB*), from packets to memory and register transfer.
- `Watchpoint`, `NativeVme`: the watchpoint pool, and the address-space switcher of the native platform.
- `Wrappers`, `Octets`, `Sequences`, `Division`: notions that several modules share.

Code that changes state is modelled by classes and methods; each method is proved against a function of the old state,
and the properties are proved of the functions.  Words are natural numbers with their width written out.

Where the code does not do what it is for, the project says exactly when it does:

- `mulhsu` adds the high word of -1 times rs2 whatever the sign of rs1.  It is right if and only if rs2 is 0, or rs2 is
  1 and rs1 is not negative (`RvArith.MulhsuExactlyWhen`).
- Jumps to addresses that are no multiple of 4 raise no exception, and FENCE, ECALL and EBREAK, which chapter 2 of the
  manual defines, end the run.  A step is the manual's if and only if none of these is the case and no mulhsu goes wrong
  (`RvManual.TakesManualStep`, `RvManual.MisalignedJump`, `RvManual.SystemEndsRun`).
- Differential testing against a reference that takes the same steps keeps it in step, and each turn as it would be
  without, if and only if no jalr and no store that changes physical memory is fetched from a device
  (`NemuState.RunInStepExactly`; `NemuState.DeviceTurnExactly` for one turn).  Such a store is missing in the memory of
  the reference (`NemuState.DeviceStoreAborts`).  Such a jalr leaves the reference a step of its own ahead, with the
  request to skip it still set and one more turn to catch up unless it came out at the target
  (`NemuState.DeviceJalrLeaves`, `NemuState.DeviceJalrAborts`).
- The audio callback reads `count` twice and can take more bytes than it was asked for (`Audio.TakesMore`,
  `Audio.NewCallTakesMore`).  It does not if and only if the driver counts no more in between than was missing
  (`Audio.TakesAtMostLen`).  If the driver is given at most m bytes more in between, that is sure if and only if the
  count, the bytes under way and m do not come to more than it was asked for, or the ring does not hold more
  (`Audio.DriverGuard`); with no such bound, if and only if the ring does not hold more (`Audio.NoOtherGuard`).  The
  ring itself survives it.
- The tokenizer looks for room before it looks at the kind of token, so that a space after the 32nd token is an error
  (`Debugger.ExprOfPrinted`).
- `&&` of the debugger evaluates both sides.  The result is that of C if and only if every operand C skips has a value
  (`Debugger.ExprAgainstC`, `Debugger.AndBothSides`).
- The register table has an entry `$0`, but the name is looked up without its `$`: a name is read if and only if it is
  `pc` or another entry (`Debugger.RegisterRead`, `Debugger.ZeroNotRead`).
- `send_packet` writes its payload as it is.  The command arrives if and only if it is plain (`GdbPlain.ReceivedWhole`,
  with one failing command for each of `$`, `}`, `#` and `*`).
- Mapping an address that is already in the list of a native address space makes the list a cycle
  (`NativeVme.RelinkedCycle`).

## Model

| member | source | states |
|---|---|---|
| Int64.Udivmoddi4 | abstract-machine/klib/src/int64.c:414-622 | for every dividend and every non-zero divisor, the integer quotient and remainder, through every special case and the loop |
| Int64.ShiftSubtract | abstract-machine/klib/src/int64.c:595-621 | from a start where r is the dividend shifted right and below the divisor, the shift-subtract loop ends with the exact quotient and remainder, with no carry out of r << 1 |
| Int64.LoopStep | abstract-machine/klib/src/int64.c:600-616 | one turn keeps the division invariant, and d - r - 1 stays in the range of a signed 64-bit word, also for d at or above 2^63 |
| Int64.SignMaskCompare | abstract-machine/klib/src/int64.c:613-615 | in that range the shifted sign bit is an exact unsigned comparison of r with d, and the masked subtraction takes d off r exactly when r is at least d |
| Int64.AlignedEntry | abstract-machine/klib/src/int64.c:489-507 | shifting by the difference of the leading-zero counts plus one leaves r below d; when d is at or above 2^63 the shift is by one |
| Int64.DivideByHighWord | abstract-machine/klib/src/int64.c:459-508 | the exact quotient and remainder for a divisor whose low word is zero: both short cuts, the power of two and the loop |
| Int64.DivideByLowWord | abstract-machine/klib/src/int64.c:512-559 | the exact quotient and remainder for a divisor that fits in a word: power of two, the three alignments and the loop |
| Int64.DivideByDwords | abstract-machine/klib/src/int64.c:560-592 | the exact quotient and remainder for a divisor with both words in use, also when the dividend is the smaller |
| Int64.Clzsi2 | abstract-machine/klib/src/int64.c:638-667 | the number of leading zero bits of any non-zero word |
| Int64.Ctzsi2 | abstract-machine/klib/src/int64.c:673-707 | the number of trailing zero bits of any non-zero word |
| Int64.Divdi3 | abstract-machine/klib/src/int64.c:368-378 | signed division truncating towards zero, with the one overflow wrapping to the least number |
| Int64.Moddi3 | abstract-machine/klib/src/int64.c:392-403 | the signed remainder, with the sign of the dividend |
| Int64.Divmoddi4 | abstract-machine/klib/src/int64.c:382-388 | quotient and remainder as above, the product and difference taken modulo 2^64 |
| Int64.Udivdi3 | abstract-machine/klib/src/int64.c:407-411 | the unsigned quotient |
| Int64.Umoddi3 | abstract-machine/klib/src/int64.c:626-632 | the unsigned remainder |
| Int64.TruncDivMod | abstract-machine/klib/src/int64.c:366-403 | truncating quotient and remainder put the dividend together again, with the remainder smaller than the divisor and of the sign of the dividend |
| Bits.BitOfAnd | nemu/src/engine/interpreter/c_op.h:10 | bitwise and, which the model computes by recursion, acts on every bit of its operands |
| Bits.BitOfOr | nemu/src/engine/interpreter/c_op.h:11 | so does bitwise or |
| Bits.BitOfXor | nemu/src/engine/interpreter/c_op.h:12 | so does bitwise exclusive or |
| Paging.X86Valid | abstract-machine/am/src/x86/qemu/vme.c:14-33 | the 32-bit level table and areas meet the geometry that all results below are stated over |
| Paging.X86_64Valid | abstract-machine/am/src/x86/qemu/vme.c:5-28 | so do the 64-bit ones |
| Paging.IndexOfIsSlot | abstract-machine/am/src/x86/qemu/vme.c:49-51 | mask and shift select the index the hardware uses at that level |
| Paging.BaseOfMeaning | abstract-machine/am/src/x86/qemu/vme.c:53-55 | the masked word is the page address it holds: the word with its low 12 bits cleared |
| Paging.FrameAbove | abstract-machine/am/src/x86/qemu/vme.c:152 | the frame that the hardware takes from an entry, of which only 52 bits are address bits, does not depend on the flags, and is the address itself for a physical address |
| Paging.PathInjective | abstract-machine/am/src/x86/qemu/vme.c:57-66 | two pages inside the translated range that take the same slots at every level are the same page |
| PageTree.WalkFindsLeaf | abstract-machine/am/src/x86/qemu/vme.c:57-75 | a hardware walk down a tree of tables ends at the last-level entry that the slots of the address select |
| PageTree.AddTable | abstract-machine/am/src/x86/qemu/vme.c:66-68 | linking a zeroed table behind an absent entry keeps the tree a tree and every translation as it was |
| PageTree.SetLeaf | abstract-machine/am/src/x86/qemu/vme.c:146-154 | overwriting a last-level entry changes the leaf of its own path and of no other |
| Vme.Machine.Ptwalk | abstract-machine/am/src/x86/qemu/vme.c:57-75 | reaches the last-level entry of the address, taking only the missing tables and at most one page a level; fails only when the pool runs out; leaves a complete path as it was |
| Vme.Machine.Map | abstract-machine/am/src/x86/qemu/vme.c:141-156 | succeeds if and only if the address is in the user range, both addresses are page boundaries, the hardware saw no mapping there (or, to unmap, one), and a page is free for every missing table; then in the eyes of the hardware exactly this page of this space changes, to the frame (cut to 52 bits) and rights asked for, and so many pages are gone |
| Vme.Machine.MapRequestMeaning | abstract-machine/am/src/x86/qemu/vme.c:142-151 | the requests that map refuses for the finite map are those it refuses for what the hardware sees |
| Vme.Machine.WalkAgain | abstract-machine/am/src/x86/qemu/vme.c:155 | the second walk of map changes neither memory nor the pool |
| Vme.Machine.RunMaps | abstract-machine/am/src/x86/qemu/vme.c:141-156 | any run of map calls leaves the finite map that replaying the requests gives, up to the first panic, whose cause is named |
| Vme.Machine.HardwareSeesViews | abstract-machine/am/src/x86/qemu/vme.c:57-75 | in every valid state the hardware translates every user page of every address space as the finite map of that space says |
| Vme.Machine.KernelIsShared | abstract-machine/am/src/x86/qemu/vme.c:117-135 | every address space translates every kernel address as kpt does |
| Vme.KernelStays | abstract-machine/am/src/x86/qemu/vme.c:117-156 | what happens outside the kernel tables changes no kernel translation |
| X86Modes.X86Walk | abstract-machine/am/src/x86/qemu/vme.c:14-33 | with the 32-bit level table the walk is 32-bit paging as the manual has it: ten bits, ten bits, 4 MB pages, rights of both levels |
| X86Modes.X86_64Walk | abstract-machine/am/src/x86/qemu/vme.c:5-14 | with the 64-bit one it is 4-level paging: four times nine bits, 1 GB and 2 MB pages, rights of all levels |
| X86Modes.UserAreas | abstract-machine/am/src/x86/qemu/vme.c:24-33 | the user pages of both configurations |
| X86Modes.KernelAreas | abstract-machine/am/src/x86/qemu/vme.c:24-33 | their kernel addresses |
| Vme.Machine.Protect | abstract-machine/am/src/x86/qemu/vme.c:117-135 | a new space with an empty user map over one fresh page; every other page, space and kernel translation stays; panics exactly on an empty pool |
| Vme.Machine.CopyArea | abstract-machine/am/src/x86/qemu/vme.c:122-130 | the copy loop ends also when the area runs to the top and the address wraps to 0, and has copied exactly the slots of the area |
| Vme.StepAddress | abstract-machine/am/src/x86/qemu/vme.c:124-127 | step k of that walk is at slot start + k, and meets the end of the area exactly after its last slot |
| Vme.Machine.VmeInit | abstract-machine/am/src/x86/qemu/vme.c:97-110 | without a boot table: it succeeds if and only if at least as many pages are free as the kernel pages have different path prefixes, takes exactly that many, and then kpt maps every kernel page to itself, writable and for the kernel only |
| Vme.BootTableIsKernel | abstract-machine/am/src/x86/qemu/vme.c:94-95 | a boot table with one present table of large pages behind slot 0 serves as kpt |
| Vme.Machine.Teardown | abstract-machine/am/src/x86/qemu/vme.c:77-87 | frees the pages of the subtree, each once, and no other page |
| Vme.Machine.Unprotect | abstract-machine/am/src/x86/qemu/vme.c:137-139 | the table pages of the space, each once, go from memory to the pool and nothing else does; the kernel translations and the other spaces stay |
| Vme.Machine.ServeAndRelease | abstract-machine/am/src/x86/qemu/vme.c:137-156 | after any run of maps and unprotect, of all pages only the ones the space owned at the start are gone |
| Vme.Machine.Lifecycle | abstract-machine/am/src/x86/qemu/vme.c:117-156 | after protect, any run of maps and unprotect, memory is what it was and as many pages are free as before |
| Vme.SubtreesApart | abstract-machine/am/src/x86/qemu/vme.c:77-87 | subtrees of different slots share no page, and none holds the table above them |
| Eval.EvalIsValue | nemu/src/monitor/debug/expr.c:251-317 | on the tokens of a printed tree, wherever they stand, eval succeeds exactly when the tree has a value, and returns it |
| Eval.FindOpFindsRoot | nemu/src/monitor/debug/expr.c:209-241 | the main operator found is the root of the tree C gives the tokens: loosest level, last of its level; 0 for a dereference |
| Eval.WrappedIsParen | nemu/src/monitor/debug/expr.c:162-183 | check_parentheses holds exactly of a tree in one pair of parentheses |
| Eval.GoForwardOver | nemu/src/monitor/debug/expr.c:185-197 | go_foward steps over exactly one operand or parenthesised tree |
| Debugger.MarkedIsFlat | nemu/src/monitor/debug/expr.c:335-339 | the marking loop turns exactly the stars in operand position into dereferences |
| Debugger.ExprOfPrinted | nemu/src/monitor/debug/expr.c:322-347 | a tree printed with any spaces: success exactly when its tokens fit and it has a value, and then that value; a trailing space after the last possible token makes it fail |
| Debugger.ExprAgainstC | nemu/src/monitor/debug/expr.c:295-316 | against C, where && may skip its right operand: a printed tree with a C value gives that value if and only if its tokens fit and every operand that C skips has a value; one without gives none |
| ExprTree.ValueAgainstC | nemu/src/monitor/debug/expr.c:295-312 | evaluating both sides never gives another value than C, and fails where C succeeds exactly when something skipped has no value |
| Debugger.AndBothSides | nemu/src/monitor/debug/expr.c:296-312 | 0&&1/0 has the C value 0 and fails |
| Debugger.RegisterRead | nemu/src/isa/riscv32/reg.c:17-30 | $ and a name of letters and digits is read if and only if the name is pc or a register name other than $0; pc gives the pc and the k-th name register k |
| Debugger.ZeroNotRead | nemu/src/monitor/debug/expr.c:270-274 | $0 is not read |
| ExprStrings.ExprExactly | nemu/src/monitor/debug/expr.c:322-347 | for every string: expr succeeds if and only if its tokens print a tree that has a value, and returns that value, whatever tree they print |
| ExprStrings.EvalTree | nemu/src/monitor/debug/expr.c:251-317 | a range of tokens on which eval succeeds never closes more parentheses than it opens, and prints a tree if it closes as many; also where operands stand side by side, which the complemented expected_op lets through |
| ExprStrings.Parity | nemu/src/monitor/debug/expr.c:209-241 | operands side by side flip expected_op: a scan that finds no operator from one of its states fails from the other |
| ExprValues.ApplyIsAlu | nemu/src/monitor/debug/expr.c:298-311 | the operators give what the instructions of the machine give: ADD, SUB, MUL, DIVU but for a divisor of zero, and truth values |
| ExprValues.AllOperators | nemu/src/monitor/debug/expr.c:26-48 | a-b*c-d/e==f&&g for all numbers: it fails exactly on a division by zero, and otherwise has the value that C gives it modulo 2^32 |
| ExprValues.HexNumberRead | nemu/src/monitor/debug/expr.c:267-269 | every number in hexadecimal whose token has fewer than 32 characters, digits and x in either case, with or without suffix, is read modulo 2^32 below 2^64 and as 2^32 - 1 from there on |
| ExprValues.NumberRead | nemu/src/monitor/debug/expr.c:264-266 | so is every word in decimal |
| ExprValues.DerefReads | nemu/src/monitor/debug/expr.c:288-292 | a dereference reads exactly the words that lie in the 128 MB from 0x80000000 on |
| ExprValues.NamesAre | nemu/src/isa/riscv32/reg.c:4-9 | the register names are those of the ABI, in its order |
| Lexer.LexRender | nemu/src/monitor/debug/expr.c:79-138 | the tokenizer reads printed tokens back exactly when they fit in the array |
| Debugger.Evaluator.MakeToken | nemu/src/monitor/debug/expr.c:79-138 | fills the token array as the rules tried in order say, or fails as they say |
| Debugger.Evaluator.IsLegalParentheses | nemu/src/monitor/debug/expr.c:141-160 | true exactly when every prefix has at least as many opening as closing parentheses and the whole as many |
| Debugger.Evaluator.GoForwardFrom | nemu/src/monitor/debug/expr.c:185-197 | on balanced tokens the unbounded scan stays inside the array |
| Debugger.Evaluator.FindMainop | nemu/src/monitor/debug/expr.c:209-241 | the position that the recursive description of the scan gives, for every balanced array; the complement of expected_op is taken on 8 bits |
| Debugger.Evaluator.EvalTokens | nemu/src/monitor/debug/expr.c:251-317 | value and error flag of the recursive description, for every balanced token array, never leaving it |
| Debugger.Evaluator.MarkDerefs | nemu/src/monitor/debug/expr.c:335-339 | the marked array, in place |
| Debugger.Evaluator.Expr | nemu/src/monitor/debug/expr.c:322-347 | result and success of the whole for every input string |
| ExprTree.JoinPrints | nemu/src/monitor/debug/expr.c:19-24 | the C parse of two printed expressions side by side around an operator prints exactly that |
| GenExpr.Generator.GenRandExpr | nemu/tools/gen-expr/gen-expr.c:55-93 | on every tape of draws: exactly the text that Gen makes of it is appended, with no write outside the buffer or before the entry cursor, and the cursor restored on failure |
| GenExpr.GenSentence | nemu/tools/gen-expr/gen-expr.c:55-93 | sound: whatever Gen writes is a sentence |
| GenExpr.GenComplete | nemu/tools/gen-expr/gen-expr.c:55-93 | complete: every expression of the grammar that leaves a character of room comes out of some draws, which are named |
| GenExpr.RetryComplete | nemu/tools/gen-expr/gen-expr.c:105-109 | so does main, for every expression of fewer than 65535 characters |
| GenExpr.Generator.GenNum | nemu/tools/gen-expr/gen-expr.c:30-41 | the decimal literal of the draw modulo 2^32 - 1, written whole or not at all |
| GenExpr.Generator.GenParens | nemu/tools/gen-expr/gen-expr.c:61-71 | the text of Parens: an expression in parentheses, or nothing |
| GenExpr.Generator.GenBinary | nemu/tools/gen-expr/gen-expr.c:72-80 | the text of Binary: two expressions around the operator drawn, whose own write is not guarded and yet in bounds, or nothing |
| GenExpr.Generator.GenSpaced | nemu/tools/gen-expr/gen-expr.c:82-91 | the text of Spaced: an expression with the spaces drawn on both sides, or nothing |
| GenExpr.Generator.Generate | nemu/tools/gen-expr/gen-expr.c:105-109 | the retry loop ends with the first text that Gen writes, a sentence, and a terminator behind it |
| GenExpr.JoinSentence | nemu/tools/gen-expr/gen-expr.c:72-78 | two sentences around an operator are a sentence: there is a tree that C gives the whole |
| GenExpr.SentenceEvaluates | nemu/tools/gen-expr/gen-expr.c:55-93 | every sentence has a C parse, and by every C parse it has expr accepts it exactly when its tokens fit and nothing is divided by zero, with its C value |
| GenExpr.LiteralOfNumber | nemu/tools/gen-expr/gen-expr.c:30-33 | a generated literal reads back as the number drawn |
| RvFormat.RoundTripI | nemu/src/isa/riscv32/local-include/decode.h:23-27 | an I-type immediate and its register fields survive encoding and decoding |
| RvFormat.RoundTripS | nemu/src/isa/riscv32/local-include/decode.h:36-41 | the same for S-type |
| RvFormat.RoundTripB | nemu/src/isa/riscv32/local-include/decode.h:56-61 | the same for B-type, for even offsets |
| RvFormat.RoundTripU | nemu/src/isa/riscv32/local-include/decode.h:29-31 | the same for U-type |
| RvFormat.RoundTripJ | nemu/src/isa/riscv32/local-include/decode.h:49-54 | the same for J-type, for even offsets |
| RvFormat.DecodersAgree | nemu/src/isa/riscv32/local-include/decode.h:23-64 | on every word the shift-and-or decoders give the immediates of section 2.3 of the ISA manual |
| RvAssembly.DecodeInvertsAssemble | nemu/include/isa/riscv32.h:21-77 | every RV32IM instruction whose immediate fits is decoded from the word the tables of the manual give it |
| RvAssembly.AssembleInvertsDecode | nemu/include/isa/riscv32.h:21-77 | and every word that is decoded is the word of its instruction |
| RvSpec.StoreThenLoad | nemu/src/isa/riscv32/exec/ldst.h:1-34 | a store is read back and touches no other byte |
| RvSpec.AluLaws | nemu/src/isa/riscv32/exec/compute.h:80-105 | subtraction undoes addition, and the comparisons of registers and branches agree on the signed and the unsigned order |
| RvArith.DivideThenMultiply | nemu/src/isa/riscv32/exec/compute.h:134-212 | q * d + r = n modulo 2^32 for div/rem and divu/remu, for every pair of operands, a zero divisor and the overflow included |
| RvArith.ExactProduct | nemu/src/isa/riscv32/exec/compute.h:93-95 | mul with mulhu, mulh and mulhsu as the manual defines them form the exact 64-bit product |
| RvArith.HelperComputes | nemu/src/engine/interpreter/c_op.h:8-26 | the C operators compute the operations of the manual wherever C defines them |
| RvArith.RelopsOrder | nemu/src/engine/interpreter/c_op.h:28-44 | the relations of the engine order words by the integers they stand for, signed or unsigned |
| RvArith.SpecialDivision | nemu/src/isa/riscv32/exec/compute.h:140-143 | what the guards of the division helpers return is what sections 7.1 and 7.2 require there |
| RvArith.TruncatingDivision | nemu/src/engine/interpreter/c_op.h:25-26 | the quotient of the specification leaves a remainder smaller than the divisor and of the sign of the dividend |
| RvArith.DivisionCharacterised | nemu/src/engine/interpreter/c_op.h:25-26 | and no other quotient does |
| RvArith.MulhsuExactlyWhen | nemu/src/isa/riscv32/exec/compute.h:107-115 | mulhsu as built is the mulhsu of the manual if and only if rs2 is 0, or rs2 is 1 and rs1 is not negative |
| RvArith.MulhsuDiffers | nemu/src/isa/riscv32/exec/compute.h:107-115 | a pair of operands on which it is not |
| RvSpec.StepKeeps | nemu/src/isa/riscv32/exec/exec.c:73-110 | an instruction of the specification keeps x0 zero and an even pc even |
| NemuExec.OpPerformed | nemu/src/isa/riscv32/exec/compute.h:80-212 | what an R-type helper leaves behind is, after update_pc and reset_zero, the step of the specification, for any aliasing of the three registers |
| NemuExec.LoadPerformed | nemu/src/isa/riscv32/exec/ldst.h:1-22 | the same for loads |
| NemuExec.StorePerformed | nemu/src/isa/riscv32/exec/ldst.h:24-34 | the same for stores |
| NemuExec.BranchPerformed | nemu/src/isa/riscv32/exec/control.h:27-67 | the same for the six branches |
| NemuExec.JalrPerformed | nemu/src/isa/riscv32/exec/control.h:11-24 | the same for jalr, with its request to skip the check; also when rd is rs1 |
| NemuExec.InvalidPerformed | nemu/src/isa/riscv32/exec/special.c:5-21 | an invalid word ends the run and leaves the pc 8 further on |
| Nemu.Emulator.IsaExecOnce | nemu/src/isa/riscv32/exec/exec.c:99-110 | one instruction: on every word what the interpreter does, aborts and failed assertions included; unless it ends the process, this is the step the manual gives the word if and only if the word is an RV32IM instruction other than FENCE, ECALL and EBREAK, a jump it takes goes to a multiple of 4, and it is no mulhsu that goes wrong |
| RvManual.TakesManualStep | nemu/src/isa/riscv32/exec/exec.c:73-110 | the same for states as values: the manual with its misaligned-target exception, its requests to the environment and its reserved words, against the step of the interpreter |
| RvManual.AsBuiltIsExec | nemu/src/isa/riscv32/exec/compute.h:107-115 | the state after mulhsu is the manual's exactly for the operands above, or when it writes x0 |
| RvManual.SystemEndsRun | nemu/src/isa/riscv32/exec/exec.c:76-92 | FENCE, which the manual passes over, and ECALL and EBREAK, which it hands to the environment, end the run with an abort |
| RvManual.MisalignedJump | nemu/src/isa/riscv32/exec/control.h:3-8 | jal x1, 2: an exception in the manual; the code goes to the misaligned address and writes x1 |
| RvManual.JumpsTo | nemu/src/isa/riscv32/exec/control.h:3-67 | in the manual a jump goes where the step goes, and the exception is raised exactly by a jump whose step would go to an address that is no multiple of 4 |
| Nemu.Emulator.Dispatch | nemu/src/isa/riscv32/exec/exec.c:73-93 | whatever the opcode, decoders and helper leave what the specification of that word says |
| Nemu.Emulator.XorDiv | nemu/src/isa/riscv32/exec/compute.h:134-148 | by funct7 the xor or the div of the specification, both guards included, and a failed assertion otherwise |
| Nemu.Emulator.OrRem | nemu/src/isa/riscv32/exec/compute.h:150-164 | by funct7 the or or the rem of the specification, both guards included, and a failed assertion otherwise |
| Nemu.Emulator.Jalr | nemu/src/isa/riscv32/exec/control.h:11-24 | the target is the old rs1 plus the immediate with bit 0 cleared, also when rd is rs1; the link and the difftest request; dead for any other funct3 |
| Nemu.Emulator.RtlLms | nemu/src/engine/interpreter/rtl-basic.h:95-103 | the register gets the bytes loaded, extended by their sign bit; asks to skip the reference on a device |
| Nemu.Emulator.DifftestSkipRef | nemu/src/monitor/difftest/dut.c:17-27 | asks to skip the reference, and ends a catch-up under way |
| Nemu.Emulator.DifftestSkipDut | nemu/src/monitor/difftest/dut.c:35-41 | asks for nr_dut turns without a check and runs the reference nr_ref steps ahead |
| Nemu.Emulator.DifftestStep | nemu/src/monitor/difftest/dut.c:87-114 | the protocol step of the specification, panic included |
| Nemu.Emulator.CpuExec | nemu/src/monitor/cpu-exec.c:67-137 | the run loop does what n turns of the specification do, and stops where it does |
| NemuState.RunSplit | nemu/src/monitor/cpu-exec.c:67-137 | running m and then n instructions is running m + n, for every state, ended or not |
| NemuState.RunOutcome | nemu/src/monitor/cpu-exec.c:67-137 | a run that is over is not taken up; any other executes exactly n instructions and stops, unless one of them ends or aborts it |
| NemuState.TrapEnds | nemu/src/isa/riscv32/exec/special.c:23-30 | a trap word ends the run with a0 as its result, and is not compared |
| NemuState.TouchReaches | nemu/src/memory/paddr.c:26-28 | an access to the 128 MB from 0x80000000 on asks nothing, one to a device asks to skip the reference, any other ends the process |
| NemuState.RunKeeps | nemu/src/isa/riscv32/exec/exec.c:95-110 | every run that does not end the process keeps x0 zero, and an even pc even |
| NemuState.RunChecks | nemu/src/monitor/difftest/dut.c:79-114 | at every boundary, neither aborted nor dead, with no skip pending, the reference registers are those of the emulator; whatever the reference does |
| NemuState.LoopTransparent | nemu/src/monitor/difftest/dut.c:17-41 | with a reference that takes the same steps, a run in which every instruction is followed is the run without differential testing, through jalr and MMIO requests: no abort and no panic is added; followed is everything but a jalr and a store that changes physical memory, if fetched from a device |
| NemuState.RunInStepExactly | nemu/src/monitor/difftest/dut.c:79-114 | the two sides stay in step behind every turn of a run, each turn as without differential testing, if and only if every instruction of the bare run is followed; both directions, for every number of turns |
| NemuState.DeviceTurnExactly | nemu/src/monitor/difftest/dut.c:87-114 | one turn with an instruction from a device: as without differential testing and in step behind it if and only if the instruction is no jalr and no store that changes physical memory |
| NemuState.CycleTransparent | nemu/src/monitor/difftest/dut.c:87-114 | the same as LoopTransparent for one turn, which also leaves the two machines in step |
| NemuState.StoreAgrees | nemu/src/monitor/difftest/dut.c:100-111 | of an instruction the reference skips, its memory still agrees if and only if the instruction is no store to physical memory or writes the bytes that are there |
| NemuState.InitInSync | nemu/src/monitor/difftest/dut.c:74-76 | after the image and the registers have been copied the two machines are in step if and only if their memories agree outside the image |
| NemuState.DeviceJalrLeaves | nemu/src/monitor/difftest/dut.c:35-41 | what a jalr from a device leaves: the reference one step of its own ahead, the request to skip it still set, and one more turn to catch up unless it came out at the target; then the run is aborted if and only if the registers differ |
| NemuState.DeviceJalrAborts | nemu/src/monitor/difftest/dut.c:35-41 | a jalr fetched from a device on which the run is aborted although the reference takes the same steps |
| NemuState.DeviceStoreAborts | nemu/src/monitor/difftest/dut.c:100-111 | a store fetched from a device, whose byte the reference never sees: the turn is as without differential testing, and the run is aborted when the byte is read back |
| Bus.SpacesDisjoint | nemu/src/device/io/map.c:11-18 | the regions handed out do not overlap, and after each there is room for the over-read of map_read |
| Bus.NewMapApart | nemu/src/device/io/mmio.c:9-16 | a map over a new region is apart from all maps before |
| Bus.PlacesDiffer | nemu/include/device/map.h:22-31 | different addresses are backed by different bytes |
| Bus.PmemLeads | nemu/src/memory/paddr.c:26-28 | the 128 MB from 0x80000000 on, and no other address, lead to physical memory |
| Bus.MapLeads | nemu/include/device/map.h:18-31 | any other address leads to the first map that reaches from its low to its high address, both included, and nowhere exactly when there is none |
| Bus.FlatPutBytes | nemu/src/device/io/map.c:40-48 | writing bytes behind an address is a little-endian store into one flat memory |
| Bus.FlatGetBytes | nemu/src/device/io/map.c:30-38 | reading them is a little-endian load from it |
| Bus.MaskKeepsBytes | nemu/src/device/io/map.c:36 | the mask keeps exactly the bytes asked for |
| Bus.Memories.PaddrRead | nemu/src/memory/paddr.c:52-58 | for 1, 2 and 4 bytes inside a region, the load from the flat memory, after the callback of the map, if it has one, was told of a read at that offset and has changed device and io_space; fails exactly on an address behind which there is nothing; asks to skip the reference exactly on a device |
| Bus.Memories.PaddrWrite | nemu/src/memory/paddr.c:60-63 | the bytes are stored behind the address, which is the store to the flat memory if no two maps share bytes, and then the callback, if there is one, is told of a write at that offset and may change device and io_space; and the same failures |
| Bus.Memories.InvokeCallback | nemu/src/device/io/map.c:26-28 | the callback of the map sees the offset, the length, the direction and io_space; without one nothing changes |
| Bus.Memories.NewSpace | nemu/src/device/io/map.c:11-18 | a page-rounded region, or the failed assertion |
| Bus.Memories.AddMmioMap | nemu/src/device/io/mmio.c:9-16 | the map is added, whatever others there are, or the assertion fails when all are in use |
| Bus.Memories.InitDevices | nemu/src/device/device.c:56-62 | any run of new_space and add_mmio_map hands out the regions of Spaces, keeps them apart, and succeeds if and only if there are maps and pages enough |
| Bus.ServesLoad | nemu/src/memory/paddr.c:52-58 | a bus behind the flat memory of the emulator serves its loads: same value, same failure, same request to skip the reference |
| Bus.ServesStore | nemu/src/memory/paddr.c:60-63 | and its stores, after which it is still behind it |
| Bus.Memories.FetchMmioMap | nemu/src/device/io/mmio.c:19-22 | the first map that holds the address, and the request |
| Audio.RunCounts | nemu/src/device/audio.c:26-38 | after every interleaving, 0 <= count <= 65536 and qtail is qhead + count modulo 65536, but for the bytes the two calls are in the middle of |
| Audio.RunPlays | abstract-machine/am/src/nemu/ioe/audio.c:33-51 | after every interleaving, what was heard without silence is a prefix of what was written, each callback hears its bytes and then only silence, and between calls the rest is in the ring in order |
| Audio.RunKeeps | nemu/src/device/audio.c:29-38 | the invariant behind both, from any state that has it |
| Audio.StoreKeeps | abstract-machine/am/src/nemu/ioe/audio.c:45 | a stored byte overwrites no byte that is still to be played |
| Audio.TakesAtMostLen | nemu/src/device/audio.c:30 | from any state in which the callback finds too little, for every run of the driver between its two reads of count: it takes at most what it was asked for if and only if the driver added at most what was missing |
| Audio.DriverGuard | nemu/src/device/audio.c:30 | over every run of the driver between the two reads, calls of audio_write among its steps, that gives it at most m bytes more: sure to take at most what it was asked for if and only if the count, the bytes under way and m do not come to more, or the ring does not hold more |
| Audio.NoOtherGuard | nemu/src/device/audio.c:30 | with no bound on what the driver is given in between it is sure if and only if the ring does not hold more than it was asked for |
| Audio.TakesMore | nemu/src/device/audio.c:30 | an interleaving in which it takes more: count is read twice |
| Audio.NewCallTakesMore | nemu/src/device/audio.c:30 | one with the driver at rest and nothing under way: a call of audio_write between the two reads makes it take 2 of 1 |
| AudioPort.Port.AudioPlay | nemu/src/device/audio.c:29-38 | the callback is a run of its atomic steps, and returns the oldest bytes followed by silence |
| AudioPort.Port.WriteBytes | abstract-machine/am/src/nemu/ioe/audio.c:44-48 | the inner loop is a run of the driver steps, storing the next n bytes |
| AudioPort.Port.AudioWrite | abstract-machine/am/src/nemu/ioe/audio.c:33-51 | the whole call with callbacks in between is a run; it has stored all it was given, or filled the ring after the last of them |
| NativeAudio.Queue.AudioPlay | abstract-machine/am/src/native/native-audio.c:9-24 | the oldest min(count, len) bytes followed by zeros, and the queue without them, through both copies |
| NativeAudio.Queue.AudioWrite | abstract-machine/am/src/native/native-audio.c:26-42 | as many bytes as there is room for are appended to the queue, and their number returned |
| Ring.WindowRound | abstract-machine/am/src/native/native-audio.c:17-20 | a window over the end is its two pieces |
| GdbPackets.RecvInverts | nemu/tools/qemu-diff/src/protocol.c:174-275 | for every legal encoding of a payload, escapes and repeats included, after any bytes that end no packet: the payload, the verdict on the checksum and the rest of the input |
| GdbPackets.BodyRestarts | nemu/tools/qemu-diff/src/protocol.c:191-195 | a $ inside a packet starts a new one, whatever the state |
| GdbPackets.RecvInvertsFrame | nemu/tools/qemu-diff/src/protocol.c:139-159 | what send_packet writes for a plain command is received as that command with a good checksum |
| GdbPackets.FrameIs | nemu/tools/qemu-diff/src/protocol.c:139-159 | the frame in plain characters: $, the command, #, and the sum of its bytes modulo 256 in two digits of %X |
| GdbPackets.DigitsAre | nemu/tools/qemu-diff/src/protocol.c:40-47 | the digits are those of %x and %X |
| GdbPackets.BodyTurn | nemu/tools/qemu-diff/src/protocol.c:188-267 | one turn of the receiver for each kind of character, in plain characters |
| GdbPackets.HashCuts | nemu/tools/qemu-diff/src/protocol.c:146-152 | the first # of a command that is plain up to it ends the packet there |
| GdbPlain.ReceivedWhole | nemu/tools/qemu-diff/src/protocol.c:139-159 | the receiver gets the command that send_packet was given, with a good sum and nothing more read, if and only if the command is plain: no $, # or }, and no * but at its start or without a count behind it |
| GdbPlain.NeverBehind | nemu/tools/qemu-diff/src/protocol.c:188-267 | a command that comes back is, turn by turn, never longer than what it has made the receiver put out |
| GdbPlain.DollarLoses | nemu/tools/qemu-diff/src/protocol.c:191-195 | a command with a $ never comes back: nothing behind the last $ makes up for what is lost |
| GdbPlain.DollarFails | nemu/tools/qemu-diff/src/protocol.c:191-195 | a$b arrives as b |
| GdbPlain.BraceFails | nemu/tools/qemu-diff/src/protocol.c:216-218 | a}b arrives as aB |
| GdbPlain.HashFails | nemu/tools/qemu-diff/src/protocol.c:197-214 | a#b arrives as a |
| GdbPlain.StarFails | nemu/tools/qemu-diff/src/protocol.c:220-248 | a, * and a space arrive as aaaa |
| GdbPackets.SumNotices | nemu/tools/qemu-diff/src/protocol.c:140-144 | the checksum changes with any one byte |
| GdbPackets.DeliversAtLast | nemu/tools/qemu-diff/src/protocol.c:277-292 | with acknowledgements, packets with bad sums are asked for again and the first good one is returned |
| GdbPackets.DecodeInvertsEncode | nemu/tools/qemu-diff/src/protocol.c:40-53 | two hex digits, in either case, decode to the byte they encode |
| GdbPackets.FlipIsXor | nemu/tools/qemu-diff/src/protocol.c:252-255 | the flip used above is XOR with 0x20 |
| GdbPackets.Encode | nemu/tools/qemu-diff/src/protocol.c:139-159 | every payload has a legal encoding |
| GdbConn.Conn.SendPacket | nemu/tools/qemu-diff/src/protocol.c:139-159 | the output gains $, the command, # and the sum of its bytes modulo 256 as two capital hex digits |
| GdbConn.Conn.GdbSend | nemu/tools/qemu-diff/src/protocol.c:161-172 | one frame, or with acknowledgement one for every byte read up to the first +; and what is left of the input |
| GdbConn.Conn.RecvPacket | nemu/tools/qemu-diff/src/protocol.c:174-275 | for every input, the packet of the specification in a buffer that is large enough and terminated, through every growth |
| GdbConn.Conn.Take | nemu/tools/qemu-diff/src/protocol.c:220-266 | one character, escape or repeat: the index stays within the buffer because a repeat adds at most 97 bytes to one of at least 4096 |
| GdbConn.Conn.GdbRecv | nemu/tools/qemu-diff/src/protocol.c:277-292 | the first packet with a good sum, with one - for each bad one and a + for it |
| GdbCommands.ParseInvertsCommand | nemu/tools/qemu-diff/src/gdb-host.c:17-21 | an M command, parsed, is its address and bytes |
| GdbCommands.CommandPlain | nemu/tools/qemu-diff/src/gdb-host.c:17-23 | no command has a byte that would need escaping |
| GdbCommands.ServeOne | nemu/tools/qemu-diff/src/gdb-host.c:14-32 | a server that serves the frame of a command has written its bytes |
| GdbCommands.MemcpyWrites | nemu/tools/qemu-diff/src/gdb-host.c:34-45 | with and without acknowledgement, whatever comes in: what goes out for the pieces of at most 1500 bytes, frames sent again and acknowledgements included, writes src at dest and nothing else, for every length, addresses wrapping at 2^32 |
| GdbCommands.ChunkAt | nemu/tools/qemu-diff/src/gdb-host.c:34-45 | piece k is the M command for the 1500 bytes from 1500 k on, or what is left, and their address modulo 2^32 |
| GdbCommands.WriteAt | nemu/tools/qemu-diff/src/gdb-host.c:14-21 | the byte for an address is the one as far into src as the address is behind dest, modulo 2^32; no other address is touched |
| GdbCommands.ServeSaid | nemu/tools/qemu-diff/src/gdb-host.c:14-32 | so does what goes out for one piece |
| GdbCommands.WriteAgain | nemu/tools/qemu-diff/src/protocol.c:163-171 | sending a piece again changes nothing |
| GdbCommands.GetInvertsSet | nemu/tools/qemu-diff/src/gdb-host.c:47-90 | registers encoded for G and decoded as from g are the same |
| GdbHost.GdbDecodeHexStr | nemu/tools/qemu-diff/src/protocol.c:55-64 | the little-endian number of the leading pairs of hex digits, modulo 2^64 |
| GdbHost.GdbMemcpyToQemuSmall | nemu/tools/qemu-diff/src/gdb-host.c:14-32 | with and without acknowledgement: sends the command, takes one reply off the input and is true exactly when that is OK, up to its end or first 0; ends the program, or hangs, exactly when none comes |
| GdbHost.GdbMemcpyToQemu | nemu/tools/qemu-diff/src/gdb-host.c:34-45 | with and without acknowledgement: exactly the session of the pieces goes out and as many replies are taken; true exactly when every one of them is OK, up to its end or first 0 |
| GdbHost.GdbGetregs | nemu/tools/qemu-diff/src/gdb-host.c:47-66 | with and without acknowledgement: sends g and takes one reply; register i is the little-endian value of its characters 8i to 8i + 7 |
| GdbHost.GdbSetregs | nemu/tools/qemu-diff/src/gdb-host.c:68-90 | with and without acknowledgement: sends the G command of the registers, little-endian, takes one reply, and is true exactly when that is OK |
| Watchpoint.RunKeeps | nemu/src/monitor/debug/watchpoint.c:10-52 | after any run of requests the two lists together hold every node exactly once |
| Watchpoint.FreeUndoesNew | nemu/src/monitor/debug/watchpoint.c:33-52 | freeing the watchpoint just made gives back both lists in their order |
| Watchpoint.NewMeans | nemu/src/monitor/debug/watchpoint.c:33-38 | a new watchpoint was free and is the first of the active ones; nothing else changes its list |
| Watchpoint.FreeMeans | nemu/src/monitor/debug/watchpoint.c:40-52 | the watchpoint with that number, if active, is free afterwards; nothing else changes its list |
| Watchpoint.Pool.constructor | nemu/src/monitor/debug/watchpoint.c:10-20 | all nodes are free, in order |
| Watchpoint.Pool.ElementExchange | nemu/src/monitor/debug/watchpoint.c:24-31 | moves the node between two places of pointers and changes no other link |
| Watchpoint.Pool.NewWp | nemu/src/monitor/debug/watchpoint.c:33-38 | takes the first free node to the front of the active list; stops exactly when none is free |
| Watchpoint.Pool.FreeWp | nemu/src/monitor/debug/watchpoint.c:40-52 | unlinks only the first active node with that number, whatever the number, keeping the order of the rest, and releases its expression |
| NativeVme.Machine.Map | abstract-machine/am/src/native/vme.c:67-96 | on a fresh address: the entry is added to this space alone, and mapped at once exactly when the space is current; on an address already in the list the list becomes a cycle |
| NativeVme.Machine.Switch | abstract-machine/am/src/native/vme.c:38-65 | the host mappings become exactly the entries of the new space, with frames and protections, and no space changes |
| NativeVme.Machine.Protect | abstract-machine/am/src/native/vme.c:28-33 | a new empty space; the entries of the others stay |
| NativeVme.MapKeeps | abstract-machine/am/src/native/vme.c:79-95 | linking in a fresh entry keeps host mappings and is_mapped flags in step with the current list |
| NativeVme.MarkedAfter | abstract-machine/am/src/native/vme.c:44-62 | is_mapped holds after a switch exactly for the entries of the new space |
| NativeVme.RelinkedCycle | abstract-machine/am/src/native/vme.c:75-89 | linking a node of the list in again makes the list a cycle |
| NativeVme.CycleNoSpace | abstract-machine/am/src/native/vme.c:75-89 | and a head on a cycle heads no list |

## Left out

- Int64.Udivmoddi4: a divisor of zero, for which the source divides a word by zero; the same holds for the wrappers.
- NemuState.LoopTransparent: what becomes of a run after a jalr or a memory-changing store from a device; it can come back into step (behind a jalr, by the request left pending) or be aborted.  Devices are taken to lie out of reach of a 4-byte access to physical memory.
- Nemu.Emulator.IsaExecOnce: FENCE, ECALL, EBREAK and the misaligned-target exception of the manual, which the code does not have; memory is one flat map there, behind which `Bus` stands for accesses inside one region.
- Nemu.Emulator.CpuExec: the check of the watchpoints after each instruction, built with DEBUG, and device_update, built with HAS_IOE, where closing the window can stop the loop; the build without DIFF_TEST.
- Bus.Memories.PaddrRead: accesses that run over the end of physical memory, where the source reads past its array; accesses that run over the end of a device region succeed without a stated value.
- Bus.Memories.InvokeCallback: the devices behind it are a parameter, a state and a function that changes it and io_space; what a callback does beyond these, such as copying to physical memory.
- GdbHost.GdbGetregs: a reply shorter than the registers, where the source reads past the buffer; the model reports it as short.
- GdbConn.Conn.RecvPacket: allocation failure, and lengths beyond the size of the address space.
- GdbConn.Conn.GdbSend: at the end of the input the source sends the packet for ever; the model stops after the first of these and says so.
- Audio.RunCounts: `count += len` and `count -= nread` are one atomic step each; a torn update is not modelled.
- AudioPort.Port.AudioPlay: the code of the callback is shown to be a run when nothing comes between its own steps; what comes between them is in `Audio`, over all interleavings.
- NativeAudio.Queue.AudioPlay: the two calls exclude each other in the model.
- NativeVme.Machine.Map: a fresh page for an entry is a parameter; that the page of a new head is zeroed is taken from the allocator, as the source does.
- Vme.Machine.VmeInit: loading CR3 and CR0; on x86_64 the contents of the boot table are the condition of `Vme.BootTableIsKernel`.
- Lexer.LexRender: the regular-expression engine; each rule is an anchored longest match.
- GenExpr.Generator.Generate: a tape that runs out, where the program would draw on; files, compiler and pipes of main.
- SDL, sockets, readline, signals, KVM, dynamic loading, APIC, disk, UART, timers, VGA and GPU.
- The x86 and mips32 interpreters, most of whose helpers are unfinished.
- The string, printf and malloc code of klib; logging, monitor commands, boot code and linker scripts.
