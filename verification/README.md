# A verified model of the Cyn virtual machine and its run-time library

The project models the heart of the Cyn tool chain and proves what it promises:

* the heap of the virtual machine: block records that move between a sorted free list, a used list and a
  list of fresh records (`HeapModel`, `HeapLaws`, `HeapBlocks`);
* the back end of the assembler, the instruction encoding with its two decoders, and the machine that
  executes the linked bytes (`Bytes`, `Instructions`, `Assembler`, `OperandLaws`, `Machine`, `MachineLaws`,
  `ExecuteLaws`, `Startup`, `VmObject`, `Linking`), up to whole programs (`Programs`, `References`, `ProgramLaws`,
  `WholeRuns`);
* the calling convention, native returns, and the stack beside the heap (`Calls`, `Natives`, `Stack`);
* the red-black tree with parent pointers (`RedBlack`, `RbTrees`) and the cache of identifiers on it (`Idents`);
* the exception library, a machine of frames and long jumps (`E4c`, `Catching`);
* the pool allocator (`Pools`, `PoolRuns`), the hash map (`HashTables`, `HashLaws`, `HashLists`, `HashMaps`), the
  UTF-8 encoder and decoder (`Utf8`) and the cursor of the lexer (`LexerCursor`).

Code that changes state in place is modelled by classes and arrays whose methods are proved against
specification functions; the laws are proved about those functions. `HeapBlocks.Heap32`, `VmObject.Vm`,
`RbTrees.RbTree`, `E4c.E4cContext`, `Pools.PoolAllocator` and `HashMaps.HashMap` are such classes.
A pointer into a fixed buffer of records is an index, a pointer to a separately allocated node an object.

`dafny verify dfyconfig.toml` checks the whole project.

## Where the code and its documentation disagree

* `src/tree.c:194` paints the old parent black in the inner rotation on the left side. The comment above it
  and the mirror at `src/tree.c:237` say red. The colour is a parameter in `RedBlack`; the class follows the
  code. Order, links, the black root and the absence of two reds in a row hold for both, equal black heights
  for red always and for black exactly under the condition of `InsertEven`.
* A label behind the last instruction is never visited by the loop at `src/compiler/asm/asm.c:593`: a
  reference to it does not lead to the end of the program (`LinkExact`).
* The allocator rounds and adds in 32 bits, so that some huge requests are granted too little or lower the
  top (`AllocExact` and its counterexamples). A request of no bytes gives an empty live block.
* The pool allocator accepts sizes below 4096, headers included, but has no pool above 2048 (`PoolIsFirstFit`);
  and the sum of request and header wraps around for the largest requests (`RoomExact`, `HugeRequestGranted`).
* The look-up of the hash map compares only as many bytes as the key has, so that a longer key of the same
  hash answers for it (`LookUpExact`, `StoredIsMistaken`, `AbsentIsMistaken`).
* The two decoders disagree on a size field of zero (`DecodersDisagree`).
* A literal first operand of two is parsed and then lost in the encoding (`LiteralShown`, `FirstLiteralLost`).
* A reference to a label comes out as the distance to the label exactly when it is the last operand, an instruction
  follows the label, and no other operand of the instruction is a reference to such a label (`ReferenceExact`). In
  first place its distance is added to the immediate of the instruction: `mov [x], 5` with `x` behind it is linked to
  `mov [r2], 9` (`MisplacedReference`, `MisplacedExample`).
* The header calls `main` the first instruction to execute. It is an instruction index added to an address, and
  the machine starts behind the constants instead (`EntryExact`).
* The marker for the first stack word is written at a stack size, which is an address of the data or the heap
  (`MarkerExact`).
* A stack reservation below address 0 is refused only by the size of the RAM (`ReserveExact`, `WildReservation`).
* The token of a new line has the place of the character behind it (`SkipSpace`).
* The opcodes for the remainder and for copying memory are in the instruction set, but the machine aborts on them
  (`NotExecuted`).
* The least 64-bit number divided by -1 has no 64-bit quotient: like a division by zero it is undefined in C, and no
  check precedes it (`DivisionTruncates`).

## Model

| member | source | states |
|---|---|---|
| HeapLaws.NoPermanentFragmentation | src/vm/memory.c:15-201 | After any run of allocations and frees that meet the guard of AllocExact, freeing every live address in any order leaves at most one free block, exactly [hb, top), and then any request up to the whole heap is granted at hb |
| HeapLaws.RunKeeps | src/vm/memory.c:88-201 | Over every such run the invariant holds: free and used blocks tile [hb, top), the free list is sorted with no two touching neighbours, sizes and addresses are aligned, and the number of records stays the one of the start |
| HeapLaws.AllocExact | src/vm/memory.c:88-144 | VM_alloc keeps the invariant and serves the full request if and only if AllocSafe, a test on the heap and the request before the call, holds |
| HeapLaws.PlainRequestSafe | src/vm/memory.c:88-144 | A positive request that wraps around nowhere meets that test |
| HeapLaws.HugeRequestGrantsNothing | src/vm/memory.c:93-93 | A request of 0xFFFFFFFF bytes is rounded to 0 and granted as an empty block |
| HeapLaws.HugeRequestLowersTop | src/vm/memory.c:132-141 | A request of 0xFFFFFFF0 bytes moves the top below the start of the heap |
| HeapLaws.EmptyRequestFreesTwice | src/vm/memory.c:93-201 | After a request of 0 bytes the same address can be freed twice |
| HeapLaws.EveryAddressOnce | src/vm/memory.c:88-201 | Every address of [hb, top) is covered by exactly one block, free or used; every other address by none |
| HeapLaws.SizesAddUp | src/vm/memory.c:88-201 | The sizes of free and used blocks add up to top - hb |
| HeapLaws.AllocAddsInterval | src/vm/memory.c:167-175 | A granted call adds one new interval of at least the requested size below the limit and changes no other live interval |
| HeapLaws.RefusedExactly | src/vm/memory.c:88-144 | For every request VM_alloc refuses if and only if no free block fits, none can grow at the top, and there is no fresh record or no room above the top, all in sums of 32-bit words |
| HeapLaws.GrantExact | src/vm/memory.c:88-144 | The granted block is made of the lowest free block that serves, and has exactly the least aligned size that holds the request unless less than the threshold would be left over or no record is spare; at the top the block grows or shrinks to that size, and without a free block that serves it is a new one at the top |
| HeapLaws.FreeRemovesInterval | src/vm/memory.c:177-201 | VM_free succeeds exactly on a live address and removes that interval only |
| HeapLaws.SecondFreeFails | src/vm/memory.c:177-201 | A second free of an address fails and changes nothing |
| HeapLaws.OneBlockWhenIdle | src/vm/memory.c:61-85 | With nothing live the free list is empty or the single block [hb, top) |
| HeapLaws.IdleHeapServes | src/vm/memory.c:88-144 | With nothing live every request up to the extent of the heap is granted at its first address |
| HeapLaws.ReleaseAll | src/vm/memory.c:177-201 | Freeing every live address in any order, strays included, empties the used list and keeps the invariant |
| HeapLaws.UsedDistinct | src/vm/memory.c:88-201 | Live blocks have different addresses, are not empty, and lie within [hb, top] |
| HeapLaws.InitInv | src/vm/memory.c:146-165 | The heap that VM_heap_init_ sets up meets the invariant with all its records |
| HeapModel.AllocKeeps | src/vm/memory.c:88-144 | All paths of an allocation - growing or shrinking the top block, splitting, taking a whole block, a fresh record - keep the tiling, order and alignment |
| HeapModel.FreeKeeps | src/vm/memory.c:177-201 | Insertion in address order and coalescing after a free keep them too |
| HeapModel.CompactTiling | src/vm/memory.c:61-85 | Coalescing keeps the address range covered, block by block, from hb to the top |
| HeapModel.RecordsKept | src/vm/memory.c:15-201 | Free, used and fresh records together stay the same number through every call |
| HeapBlocks.Heap32.VmAlloc | src/vm/memory.c:167-175 | On the linked records, updated in place, the call does exactly what the abstract allocation says for every 32-bit request; the three lists stay acyclic, share no record, and hold the same records |
| HeapBlocks.Heap32.VmFree | src/vm/memory.c:177-201 | The same for freeing: unlinking, sorted insertion and compaction in place |
| HeapBlocks.Heap32.AllocHeapBlock | src/vm/memory.c:88-144 | First fit, top resize, split with a fresh record, and growth, relinked in place, against the abstract heap |
| HeapBlocks.Heap32.CompactBlocks | src/vm/memory.c:61-85 | The nested loops terminate, merge exactly the touching runs, and hand the spare records to the fresh list |
| HeapBlocks.Heap32.InsertHeapBlock | src/vm/memory.c:15-44 | The block goes to its place in address order; nothing else in the lists changes |
| HeapBlocks.Heap32.ReleaseHeapBlocks | src/vm/memory.c:47-59 | A run of records moves to the fresh list, all of them and no others |
| HeapBlocks.Heap32.constructor | src/vm/memory.c:146-165 | Any uninitialised buffer becomes the fresh list of all its records |
| Bytes.GetPut | include/vm/vm.h:683-728 | A stored integer is read back unchanged if and only if it fits the signed range of its size |
| Bytes.PutGet | include/vm/vm.h:683-728 | Storing what was read gives the same bytes back |
| Instructions.FetchEncoded | src/vm/vm.c:75-109 | Anywhere in the code the machine decodes an encoded instruction at its own byte boundary: all fields, and the immediate if and only if it fits its size field |
| Instructions.DecodersAgree | src/vm/code.c:59-109 | Where the size field is not zero, on every byte string the machine's decoder fetches an instruction if and only if the disassembler's gives it a size, and then both give the same instruction and size |
| Instructions.DecodersDisagree | src/vm/vm.c:75-109 | With a size field of zero the disassembler's decoder gives no size, while the machine's reads a second byte and fetches something whenever it is there |
| Instructions.CodeVector.Append | src/vm/code.c:13-29 | Appending instructions adds exactly their encodings to the code vector |
| Instructions.AddressOfBytes | src/compiler/asm/asm.c:610-612 | The running address of the linker is the position where the bytes of the instruction start |
| Instructions.FetchInstruction | src/vm/vm.c:75-109 | At the address of instruction k the machine fetches instruction k, and ip moves to the address of instruction k + 1 |
| Instructions.DecodeAt | src/vm/code.c:59-109 | The field by field decoder computes the same instruction and size as the abstract one, or says that it would read past the code |
| Instructions.Disassemble | src/vm/code.c:40-57 | The loop lists what the abstract walk lists |
| Instructions.WalkEncoded | src/vm/code.c:40-57 | The walk over an encoded program lists the program: every instruction, at its linked address |
| Instructions.LiteralFits | include/vm/vm.h:664-670 | A literal with its sign always fits the size that is chosen from its magnitude, and keeps its value below 2^31 |
| Instructions.SizeLeast | include/vm/vm.h:664-670 | No smaller size would hold the literal |
| Instructions.LayoutExact | include/vm/vm.h:89-120 | Which bits of which byte hold the fields of an instruction, and that the immediate follows in its size |
| Instructions.CutShort | src/vm/vm.c:75-108 | Code that ends inside an instruction is past the end, and unreadable exactly where the immediate should begin |
| Instructions.WalkChain | src/vm/code.c:40-57 | Of any bytes the listing shows what the second decoder reads, one entry right behind the other, and one byte on where there is no size |
| Instructions.WalkEnds | src/vm/code.c:40-57 | It ends at the end of the code or in front of an immediate that lies beyond |
| Assembler.BuildWellFormed | src/compiler/asm/asm.c:413-450 | Every instruction the parser builds has what encoder, decoders and linker rely on, the copy of the immediate size in the register field included |
| Assembler.BuildFits | src/compiler/asm/asm.c:289-450 | Whatever immediate an instruction encodes fits its size, unless an offset stands behind a literal |
| OperandLaws.LiteralShown | src/compiler/asm/asm.c:434-447 | After encoding and decoding, the machine finds a literal operand in its place, with its exact value, if and only if it is the last operand; one in front of another operand is taken for a register |
| OperandLaws.FirstLiteralLost | src/compiler/asm/asm.c:434-447 | Of a comparison of the literals 1 and 2 the machine sees register 0 and 2 |
| OperandLaws.OffsetShown | src/compiler/asm/asm.c:347-382 | The offset of an effective address keeps its value if and only if the first operand is a register or zero |
| OperandLaws.OffsetPlace | src/vm/vm.c:133-139 | Behind a register operand the machine adds the decoded offset, with its exact value, to the address in the register |
| OperandLaws.RegisterShown | src/compiler/asm/asm.c:434-447 | After encoding and decoding, anywhere in the code and beside any other operand, the machine finds a register operand in every state as that register, or as the RAM at the address in it, cut to 32 bits and moved by the offset |
| OperandLaws.OffsetAsWritten | src/compiler/asm/asm.c:347-382 | That offset is the one that was written when no literal but zero stands in front of it |
| OperandLaws.HeadShown | src/compiler/asm/asm.c:425-450 | Opcode, number of operands and mode are decoded as they were given |
| Assembler.ReferenceIsAWord | src/compiler/asm/asm.c:320-323 | An instruction that ends in a reference to a label, or to a name not yet known, has a zero immediate of the word size, and that reference is its last note for the linker |
| Assembler.AssemblerCtx.ParseLabel | src/compiler/asm/asm.c:263-285 | A free name becomes a label of the next instruction, a taken one is an error; a prefix of main marks the entry |
| Assembler.AssemblerCtx.AddSymbolReference | src/compiler/asm/asm.c:159-173 | A known variable or constant gives its value cut to 32 bits, any other name a zero and a note |
| Assembler.AssemblerCtx.Define | src/compiler/asm/asm.c:175-187 | A free name becomes a constant, a taken one is an error |
| Assembler.AssemblerCtx.DeclareVariable | src/compiler/asm/asm.c:452-550 | A free name becomes a variable at the end of the constants behind the header, which grow by its bytes; a taken one is an error |
| Assembler.AssemblerCtx.ParseInstruction | src/compiler/asm/asm.c:413-450 | Exactly the instruction of the operands is added with exactly their notes, or none and an error when an operand is refused |
| Assembler.AssemblerCtx.Link | src/compiler/asm/asm.c:553-624 | The one-pass loop patches every instruction to the linked program and writes header, constants and encodings; below 2^32 bytes the header read back tells the number of bytes, the end of the constants and the entry; with an undefined name or an earlier error nothing is written |
| Assembler.OutputTells | include/vm/vm.h:344-349 | The first 8 bytes of the output are its size, the next 4 the number of bytes in front of the instructions, the next 4 that number and the entry |
| Assembler.AssemblerCtx.CollectReferences | src/compiler/asm/asm.c:561-581 | The reference lists hold, for each label, the positions that refer to it; undefined names are counted |
| Assembler.LinkedWellFormed | src/compiler/asm/asm.c:593-613 | Linking changes immediate values only |
| Linking.LinkedProgramSimulates | src/vm/vm.c:376-411 | For any number of steps the linked bytes run like the program by instruction index: same registers, memory, heap and outcome, with ip at the address of the current instruction |
| Linking.LinkerOutputSimulates | src/compiler/asm/asm.c:553-624 | The whole output of the linker, header and constants included, runs that way from the address in its header, in less than 2^31 bytes, when every reference is the only one of its instruction, sits in a zero immediate of the word size and names a label that an instruction follows, and every other immediate fits its size |
| Programs.Assemble | src/compiler/asm/asm.c:679-700 | A run of labels, variables, constants and instructions on the assembler, with the linker: it succeeds if and only if no statement is an error and no name is undefined; and when references are last operands, name labels that an instruction follows, no offset stands behind a literal and the code has less than 2^31 bytes, the code runs like the program by instruction index, from the address that is read from its header |
| Programs.NotedAll | src/compiler/asm/asm.c:413-450 | After every run of statements with references in last place each reference is the only one of its instruction, in a zero immediate of the word size, and every other immediate fits |
| Programs.GoodInstruction | src/compiler/asm/asm.c:289-450 | One instruction with its reference in last place: at most one note, and what it encodes fits |
| Programs.OutputRuns | src/compiler/asm/asm.c:553-624 | What such a run leaves for the linker becomes code that runs like the program |
| WholeRuns.AssembleAndRun | src/compiler/asm/asm.c:679-700 | From the text to the end of the run: under the same conditions the machine, started on the assembled code, ends like the program by instruction index |
| ProgramLaws.AcceptedExact | src/compiler/asm/asm.c:175-285 | A text is accepted if and only if all declared names differ and sizes are asked of variables above only |
| ProgramLaws.InstructionIs | src/compiler/asm/asm.c:413-450 | Instruction number n of the program is that of the statement with n instructions in front of it |
| ProgramLaws.LabelIs | src/compiler/asm/asm.c:263-285 | A label leads to the instruction that follows it in the text |
| ProgramLaws.EntryIs | src/compiler/asm/asm.c:284-284 | The entry is the last label that main begins with |
| ProgramLaws.NoEntry | src/compiler/asm/asm.c:284-284 | Without one it is the first instruction |
| ProgramLaws.VariableBytes | src/compiler/asm/asm.c:452-551 | At the address of a variable the code holds the bytes that it was declared with |
| ProgramLaws.NameMeans | src/compiler/asm/asm.c:159-205 | A name that is declared above stands for its address, its value or its size, cut to 32 bits |
| ProgramLaws.NumberMeans | src/compiler/asm/asm.c:384-400 | A literal stands for its signed 64-bit value, in the least size for its magnitude |
| ProgramLaws.TextInCode | src/compiler/asm/asm.c:413-624 | In the linked code of any program the machine finds every instruction without references at its address, with the opcode, mode and operands of the text |
| Programs.EntryExact | src/compiler/asm/asm.c:617-619 | The entry in the header is the address of the entry instruction if and only if all instructions in front of it are of one byte |
| Linking.StepSimulates | src/vm/vm.c:75-318 | One fetch and execution in the bytes is one step of the symbolic program, forward and backward branches and calls included |
| Linking.LinkExact | src/compiler/asm/asm.c:593-608 | A label reference leads from its instruction to its label if and only if an instruction follows the label |
| Linking.LateSymbolLeadsNowhere | src/compiler/asm/asm.c:593-596 | A reference noted for a name that became a variable or constant afterwards leads to address 0 |
| Linking.LinkedSum | src/compiler/asm/asm.c:586-613 | The pass adds to an immediate the addresses of all labels that the notes on its instruction name, and takes off its own address once if there is a note |
| Linking.UnpatchedUnchanged | src/compiler/asm/asm.c:593-608 | An instruction without a reference is linked unchanged |
| References.ReferenceExact | src/compiler/asm/asm.c:554-613 | For every program and every reference to a label in it: in the linked code the machine finds the distance to the label in the place of the reference if and only if it is the last operand, an instruction follows the label, and no other operand of the instruction is a reference to such a label; in less than 2^31 bytes |
| References.ReferenceShown | src/compiler/asm/asm.c:413-450 | Whatever the pass adds to the immediate of an instruction, in the place of a reference the machine finds a given distance if and only if the reference is the last operand and the distance is what was added |
| References.MisplacedReference | src/compiler/asm/asm.c:593-608 | A reference to a label that an instruction follows, in front of an operand that is no such reference, is decoded as register 2, and the distance to its label is added to the immediate of the instruction, whatever the second operand makes of it |
| References.MisplacedExample | src/compiler/asm/asm.c:593-608 | The program mov [x], 5 with the label x behind it runs as mov [r2], 9 |
| Linking.DisplacementsFit | src/compiler/asm/asm.c:593-612 | In a program below 2^31 bytes every displacement fits its word, so that everything linked is encodable |
| Linking.FetchLinked | src/vm/vm.c:75-109 | At the linked address of an instruction its decoding carries the label as the distance to it |
| Linking.BranchSimulates | src/vm/vm.c:215-258 | A taken or untaken label branch, or call, goes where the symbolic one goes |
| Linking.PlainMovesOn | src/vm/vm.c:112-318 | Every instruction that is no jump, call or return and does not name ip moves on to the next index, stops or fails |
| VmObject.Vm.RunLoop | src/vm/vm.c:393-411 | The loop over register and RAM arrays and the linked heap, changed in place, has the outcome of the abstract run |
| VmObject.Vm.Start | src/vm/vm.c:377-392 | The prologue on the register array has the outcome of the abstract start |
| Startup.BootExact | src/vm/vm.c:377-392 | A run without arguments starts at the address in the header of the code, with an empty argument list and a frame that returns to the end of the code, and changes no other byte of the RAM |
| Startup.ReturnStops | src/vm/vm.c:389-394 | A program that runs well nested from the start and returns stops |
| VmObject.Vm.Turn | src/vm/vm.c:393-411 | One turn of the loop - fetch, execute, halt test - is one abstract step |
| VmObject.Vm.DoExecute | src/vm/vm.c:112-318 | Executing an instruction in place gives the state or the fault of the abstract instruction |
| VmObject.Vm.FetchNextInstruction | src/vm/vm.c:75-109 | The byte by byte fetch decodes as the abstract fetch and leaves ip behind the instruction |
| VmObject.Vm.Ret | src/vm/vm.c:258-268 | Return in place: frame, arguments, copy of the results and their count |
| VmObject.Vm.PushN | include/vm/vm.h:504-519 | The stack grows by the words asked for, or the machine aborts at the boundary; nothing else changes |
| VmObject.Vm.PopN | include/vm/vm.h:535-552 | The stack shrinks and the address of the words is given, or the machine aborts at the end of RAM |
| VmObject.Vm.WriteAt | include/vm/vm.h:708-728 | A write of a given size changes just those bytes of the register or of RAM |
| VmObject.Vm.NativeReturn | src/vm/vm.c:320-330 | VM_returnx in place |
| Machine.PlainKeepsIp | src/vm/vm.c:112-318 | Apart from transfers an instruction leaves ip where the fetch put it |
| Machine.ReadImmediate | include/vm/vm.h:683-700 | An immediate that fits its size is read with its value |
| MachineLaws.CompareThenJump | src/vm/vm.c:215-244 | A conditional jump behind a comparison of two registers is taken if and only if its relation holds between the signed values |
| MachineLaws.WriteThenRead | include/vm/vm.h:683-728 | What is written to a register or to RAM is read back if and only if it fits the size |
| MachineLaws.PushThenPop | include/vm/vm.h:504-554 | A popped word is the pushed one, and the stack and all other registers are as before |
| MachineLaws.DivisionTruncates | src/vm/vm.c:140-169 | Two 64-bit numbers have a quotient, again of 64 bits, if and only if the divisor is not zero and it is not the least number divided by -1; it is cut towards zero, for all signs |
| MachineLaws.NotExecuted | src/vm/vm.c:310-320 | No state executes the opcodes for the remainder and for copying memory |
| ExecuteLaws.BinaryExact | src/vm/vm.c:150-177 | With operands anywhere add, sub, mul, div, the shifts, the logical and the bitwise operations and mov leave, in the size of the instruction, the number that the operation means, told by arithmetic and bit by bit; nothing else changes; and they crash if and only if the operation is undefined |
| ExecuteLaws.WrittenIsCongruent | include/vm/vm.h:683-728 | What is left in a place differs from the number by a multiple of 256^n, and not at all when it fits |
| ExecuteLaws.UnaryExact | src/vm/vm.c:179-193 | not, bnot, inc and dec leave the negation, the complement, the next or the previous number, and change nothing else |
| ExecuteLaws.ComplementBits | src/vm/vm.c:183-185 | The complement has every bit the other way |
| ExecuteLaws.CompareExact | src/vm/vm.c:235-245 | The comparison sets one of three flags by the order of its operands, and changes nothing else |
| ExecuteLaws.PushExact | src/vm/vm.c:195-197 | The word stands below the old top of the stack, eight bytes change, and the stack pointer is there |
| ExecuteLaws.PopExact | src/vm/vm.c:207-209 | The operand becomes the low bytes of the top word, which is taken off first |
| ExecuteLaws.PopnExact | src/vm/vm.c:211-213 | The stack pointer moves up by the words, and nothing else changes |
| ExecuteLaws.AllocExact | src/vm/vm.c:299-301 | The heap is that after the allocation, and the operand becomes the address of the block, or 0 |
| ExecuteLaws.DllocExact | src/vm/vm.c:303-305 | The heap is that after the free, and nothing else changes |
| ExecuteLaws.JumpExact | src/vm/vm.c:215-233 | A jump moves the instruction pointer by its operand if and only if its flag is set as its name says, and changes nothing else |
| ExecuteLaws.CallExact | src/vm/vm.c:247-252 | A call makes its frame and then moves the instruction pointer by its operand |
| ExecuteLaws.RetExact | src/vm/vm.c:255-265 | A return takes the number of its results from its operand, and restores the caller with these results |
| ExecuteLaws.PlainExact | src/vm/vm.c:307-313 | halt sets the flag and dbg does nothing |
| ExecuteLaws.NoSize | src/vm/vm.c:143-144 | A size field of 0 runs no instruction |
| ExecuteLaws.PushRefused | include/vm/vm.h:504-554 | A push aborts if and only if it would not stay above the stack boundary |
| ExecuteLaws.PopRefused | include/vm/vm.h:504-554 | A pop aborts if and only if the word is not inside the RAM |
| MachineLaws.ShiftRoundsDown | src/vm/vm.c:140-156 | A right shift rounds down, and undoes a left shift that loses no bits |
| Calls.CallProtocol | src/vm/vm.c:247-268 | Every well-nested call, whatever its body and the calls inside it do, comes back behind the call with the caller's bp, arguments and count replaced by the results in order and their count, and the rest of the stack unchanged |
| Calls.BodyKeepsFrame | src/vm/vm.c:247-268 | A body that runs well nested keeps its bp and every byte from its frame on |
| Calls.EnterCallFrame | src/vm/vm.c:247-252 | After a call bp and sp are at the saved bp, with the return address and the count above |
| Calls.ReturnRestores | src/vm/vm.c:254-268 | A return restores bp and ip, takes frame and arguments off, and leaves the k results in order with k on top, and nothing else changed, when source and destination are apart |
| Calls.ArgumentsInBody | src/compiler/asm/asm.c:646-649 | Anywhere in the body the argument count is at bp + 16 and the last argument at bp + 24 |
| Calls.CallAndReturn | src/vm/vm.c:247-268 | One call and the matching return honour the convention when the body kept its frame |
| Natives.NativeReturnRestores | src/vm/vm.c:320-330 | A native function's return leaves the caller the same: bp, ip, results, count and the untouched rest |
| Stack.StackNeverReachesHeap | include/vm/vm.h:504-552 | In every interleaving of allocations, frees, pushes, pops and reservations, whose requests meet the guard of AllocExact and whose reservations are not wild, the stack stays above its boundary, the heap sound below it, and no byte of data or heap is written |
| Stack.ReserveExact | include/vm/vm.h:504-519 | A reservation that goes through leaves the stack pointer above the boundary if and only if it is not wild: below address 0, at a 32-bit address inside the RAM |
| Stack.PlainRamNeverWild | include/vm/vm.h:465-471 | No reservation is wild unless the RAM ends in the last 2040 bytes below 4 GiB |
| Stack.WildReservation | include/vm/vm.h:504-519 | A RAM of 4 GiB less 24 bytes where one goes through |
| Stack.MarkerExact | src/vm/vm.c:360-363 | The marker bytes of the start leave all constants as they are if and only if the constants end below the stack size less 7 |
| Stack.PushClear | include/vm/vm.h:504-519 | A push changes the eight bytes under the stack pointer, above every free or live block |
| Stack.LayoutExact | src/vm/vm.c:332-360 | Data, heap, guard word and stack are in order if and only if the memory leaves room for them |
| Stack.LayoutSizes | src/vm/vm.c:332-360 | In an ordered layout the RAM has the least multiple of 8 bytes for data and requested memory, and the stack the least multiple for the requested stack and a word |
| Stack.StartsDisjoint | src/vm/vm.c:342-383 | A machine started on such a layout has its regions apart |
| RedBlack.InsertInOrder | src/tree.c:648-671 | An insertion puts exactly one element into the in-order sequence, behind all that it is not smaller than and in front of all others, whatever rotations follow |
| RedBlack.FixUpInOrder | src/tree.c:120-253 | Rotations and recolouring move no element |
| RedBlack.InsertLegal | src/tree.c:120-253 | The root stays black and no red node gets a red child, with either colour at line 194 |
| RedBlack.InsertEven | src/tree.c:120-253 | With red at line 194 equal black heights are kept; with black, as written, if and only if the climb does not end in the inner rotation on the left side |
| RedBlack.BlackInnerRotationUnbalances | src/tree.c:184-198 | Inserting 3, 1 and 2 as written gives unequal black heights |
| RedBlack.GrandparentExists | src/tree.c:144-150 | In every turn of the loop the grandparent that is dereferenced is there |
| RedBlack.LogarithmicHeight | src/tree.c:120-253 | A legal tree with equal black heights has at most the height 2 log2(n + 1) |
| RedBlack.RunSorted | src/tree.c:648-671 | After any run of insertions the sequence is sorted and has just the inserted elements more |
| RedBlack.RunLegal | src/tree.c:648-671 | After any run the tree is legal, and with red at line 194 of equal black heights |
| RedBlack.RunHeight | src/tree.c:648-671 | n insertions into the empty tree give a height of at most 2 log2(n + 1), reading line 194 as its mirror |
| RedBlack.LookupFinds | src/tree.c:703-721 | A look-up meets an equal element if and only if there is one |
| RbTrees.RbTree.InsertColour | src/tree.c:120-253 | The loop on the linked nodes carries out the fix-up; parent and child links stay mutual; it ends because the red node moves up two levels |
| RbTrees.RbTree.RotateSetParents | src/tree.c:93-99 | The rotation step on the nodes: place, parent and colour of the old top pass to the new one |
| RbTrees.RbTree.Add | src/tree.c:648-671 | The linked tree becomes the inserted one; node and datum stand at one new position, all in front not greater and all behind greater; all other data stay in order |
| RbTrees.RbTree.FindOrAdd | src/tree.c:673-701 | A node is added if and only if no datum is equal, otherwise the tree stays as it is and an equal node is given; data that are all different stay so |
| RbTrees.RbTree.Find | src/tree.c:703-721 | An equal node, or null if and only if there is none |
| RbTrees.RbTree.First | src/tree.c:608-618 | The first node of the sequence |
| RbTrees.RbTree.Next | src/tree.c:577-606 | The node behind in the sequence, or null at the end, for every node of the tree |
| RbTrees.RbTree.Prev | src/tree.c:620-646 | The node in front, or null at the start |
| RbTrees.RbTree.ThereAndBack | src/tree.c:577-646 | The previous node of the next one is the node itself |
| RbTrees.RbTree.BackAndThere | src/tree.c:577-646 | The next node of the previous one is the node itself |
| RbTrees.RbTree.ForEach | include/tree.h:148-152 | The iteration visits every datum exactly once, in order |
| RbTrees.PlugShape | src/tree.c:73-99 | A well linked subtree at a well linked place makes a well linked tree |
| E4c.ProgramRuns | include/e4c.h:58-63 | For every nested program the machine of frames and jumps shows exactly the events of the structured meaning, ends with all frames gone, and leaves the program with an error if and only if no block has caught one |
| E4c.ExecRuns | src/e4c.c:18-96 | Any statement, at any depth, brings the machine to its rest or to the jump for its error, with the frames and jumps of the enclosing blocks untouched |
| E4c.TryRuns | include/e4c.h:58-60 | A try block runs its body, the first matching catch block for an error, and its finally block, and gives up its frame |
| E4c.FinallyRunsOnce | include/e4c.h:58-60 | The finally block of every try block that is entered, whatever it is, runs exactly once and last: its events end the trace, and those that only it shows occur as in one run; of one nested too deep nothing runs |
| E4c.UncaughtGoesOut | src/e4c.c:18-31 | An error that no block catches reaches the enclosing frame, unchanged when nothing is thrown in the finally block |
| E4c.CaughtErrorReplacesPending | src/e4c.c:87-96 | An error thrown and caught in a finally block replaces the pending one |
| E4c.DepthDoesNotMatter | src/e4c.c:33-45 | As long as the frames suffice a statement means the same at every depth |
| E4c.QuietKeepsError | src/e4c.c:47-74 | A statement that throws nothing and has frames enough neither fails nor touches the error cell |
| E4c.ExtendsOrders | src/e4c.c:76-85 | The relation is transitive and never leads back |
| Catching.ExtendsExact | src/e4c.c:76-85 | One type extends another if and only if some number of steps to the supertype lead to it |
| Catching.TryExact | include/e4c.h:57-63 | A try statement whose body fails runs the first catch block whose type is the type of the error or a supertype at any distance, and none if and only if there is no such block; then the finally block |
| Catching.ChosenOrNone | include/e4c.h:62-62 | Either there is such a first block or none of the blocks is for the error |
| Catching.TryStepsExact | src/e4c.c:33-74 | The machine of frames and jumps ends so |
| Catching.IfExact | include/e4c.h:57-57 | The test for the type of the error decides the same |
| Catching.NullPointerIsCaught | src/e4c.c:12-13 | A catch block for the run-time exception catches a null pointer |
| Catching.TooManyFrames | src/e4c.c:33-38 | With all frames in use a try statement throws the run-time exception and runs nothing |
| E4c.E4cContext.Hook | src/e4c.c:47-74 | The stage moves on, skips the catch stage without an error, and the last one gives the frame up and passes an uncaught error on |
| E4c.E4cContext.Try | src/e4c.c:33-45 | A new frame at its beginning, or a runtime exception when all are in use |
| E4c.E4cContext.Throw | src/e4c.c:87-96 | The error cell gets the type, the null pointer exception for none, and control goes to the last set jump or out |
| E4c.E4cContext.IsExtension | src/e4c.c:76-85 | The loop along the supertypes decides the relation |
| Pools.Np2Least | src/compiler/common/heap.c:71-82 | np2 is the least power of two that is not below its argument, for all arguments up to 2^31 |
| Pools.PoolIsFirstFit | src/compiler/common/heap.c:229-248 | For a size below 4096, header included, the pool is the first whose segments have room; it exists if and only if the size is at most 2048 bytes |
| Pools.RoomExact | src/allocator.c:122-122 | Where the 32-bit sum of request and header fits a segment there is room for both if and only if the sum has not wrapped around |
| Pools.HugeRequestGranted | src/allocator.c:116-130 | A new allocator grants a request of 0xFFFFFFF8 bytes from a pool without room for it |
| Pools.PoolAllocator.Alloc | src/allocator.c:116-130 | A segment that nobody has, with room for request and header if and only if the request is below 0xFFFFFFF0; refused exactly for a request or 32-bit sum of zero, a sum of 4096 or more, or an empty pool; out of range exactly for sums of 2049 to 4095 |
| Pools.PoolAllocator.ReAlloc | src/allocator.c:148-165 | The segment stays if and only if the 32-bit sum of the new size and the header is of its class; otherwise it is exchanged for one that nobody has, or nothing changes; there is room if and only if that sum has not wrapped around |
| Pools.PoolAllocator.Dealloc | src/allocator.c:167-182 | The segment goes back to the pool it came from, also after reallocations that rewrote its size |
| Pools.PoolAllocator.Take | src/compiler/common/heap.c:229-248 | The pool gives up one free segment, and free and live segments still make up all of them |
| Pools.PoolAllocator.Put | src/compiler/common/heap.c:281-292 | The pool gets the segment back, with the counters in balance |
| Pools.CutBlock | src/compiler/common/heap.c:108-121 | The block of a pool is cut into all its segments, each once |
| Pools.EverythingBack | src/compiler/common/heap.c:229-292 | With nothing live every pool has all its segments again and as many returns as grants |
| Pools.StrideExact | src/compiler/common/heap.c:108-121 | A segment has the capacity of its pool and the bytes of one header |
| Pools.SegmentsApart | src/compiler/common/heap.c:116-120 | Different segments of a pool do not overlap |
| Pools.ClassStays | src/compiler/common/heap.c:262-270 | The comparison of the rounded sizes tells whether both sizes belong to one pool |
| PoolRuns.Play | src/allocator.c:116-182 | In any run of allocations, reallocations and frees on a new allocator a request is granted if and only if the size stays in its class or the client holds less than all segments of its pool; the client's segments are all different, have the sizes asked for, and with the free ones make up each pool |
| PoolRuns.SlotsApart | src/allocator.c:116-182 | The memory of two held segments does not overlap |
| PoolRuns.RequestsApart | src/allocator.c:116-130 | The bytes of two held requests with their headers do not overlap, unless a sum has wrapped around |
| PoolRuns.EverySegmentBack | src/allocator.c:167-182 | After any run, frees of all held segments in any order bring every pool back to all its segments |
| PoolRuns.LiveIsHeld | src/allocator.c:116-182 | The live segments of a pool are as many as the held sizes that belong to it |
| HashMaps.HashMap.Set | src/map.c:154-188 | The first matching node of the bucket is overwritten, or a new one put at its head, through resizing: the table becomes the one of HashTables, and the new state and its frame are stated for further calls |
| HashMaps.HashMap.Get | src/map.c:204-208 | The value of the first matching key of the bucket, or null if and only if none matches |
| HashMaps.HashMap.Remove | src/map.c:190-202 | The first matching node of the bucket leaves its chain, and its key the map; nothing else changes |
| HashMaps.HashMap.Resize | src/map.c:74-110 | All nodes are chained and put into the new buckets, in the order that the two loops give; the map, its nodes and their values stay |
| HashMaps.HashMap.GetRef | src/map.c:112-126 | The loop over the bucket finds the first matching node, and one if and only if the map has one |
| HashMaps.HashMap.AddNode | src/map.c:67-72 | The node becomes the head of the bucket of its hash, and every other chain stays |
| HashMaps.Play | src/map.c:154-208 | Any sequence of set, get and remove calls on a map does to it, and answers, what the run on its table says |
| HashMaps.PlayFromEmpty | src/map.c:154-208 | From the empty map, over keys that can be told apart, contents and answers are those of a map; always the number of buckets is round and not below the number of nodes |
| HashTables.ExactKeys | src/map.c:112-126 | The sets of keys over which every run from a new map answers like a map are exactly those in which no key is the beginning of another one of its hash |
| HashTables.RunIsMapRun | src/map.c:154-208 | Over such keys every run from any table has the contents and answers of a map |
| HashTables.LookUpExact | src/map.c:118-122 | For every key, stored or not, the look-up is that of a map if and only if no other key that is taken for it stands in its bucket in front of it |
| HashTables.AbsentExact | src/map.c:118-122 | For a key that is not stored this depends on the stored keys only: none of its hash begins with it |
| HashTables.StoredIsMistaken | src/map.c:112-126 | A longer key of equal hash that is put later hides the value of a stored key |
| HashTables.AbsentIsMistaken | src/map.c:112-126 | A longer key of equal hash answers for a key that is not stored |
| HashTables.CollidingKeys | src/map.c:112-126 | Both happen with the keys x and xLXtbIa on an empty map |
| HashTables.RehashSound | src/map.c:74-110 | After a resize every key stands once, in the bucket of its hash |
| HashTables.SetSound | src/map.c:154-188 | The same after a set, and no key is lost |
| HashTables.RemoveSound | src/map.c:190-202 | The same after a remove |
| HashTables.HashesCollide | src/map.c:28-41 | Two keys of equal hash, one the beginning of the other |
| HashTables.MaskIsRemainder | src/map.c:62-65 | For a power of two the mask is the remainder |
| HashTables.RunRound | src/map.c:172-177 | In every run from the empty table the number of buckets is zero or a power of two of at least 32, and there are as many buckets as keys |
| HashTables.HashOf | src/map.c:28-41 | The loop computes the hash of all bytes |
| HashLaws.LastByteTells | src/map.c:28-41 | Keys that differ in the last byte only never collide |
| HashLaws.BeginningsTell | src/map.c:28-41 | Keys of the same last byte collide if and only if their beginnings do |
| HashLaws.EndingsKeep | src/map.c:28-41 | The same for any common ending |
| HashLaws.ExtensionCollides | src/map.c:28-41 | A key collides with itself and one more byte if and only if its hash, xored with its product with the inverse of the prime, is that byte as a signed character |
| HashLaws.SignedIs | src/map.c:36-36 | Bytes from 128 on count as 256 less |
| HashLaws.HashValues | src/map.c:28-41 | The hashes of the empty key, a, ab, and of the bytes 0x80 and 0xFF |
| HashLaws.PrefixMistaken | src/map.c:112-126 | A stored key answers for its beginning without the last byte if and only if that byte is the one of the hash |
| HashLaws.OrdinaryPrefix | src/map.c:112-126 | With ab stored nothing is found under a |
| HashLists.RunIsListRun | src/map.c:62-208 | For all keys, mistaken ones among them, every run answers like the run on one list of keys that is searched from the newest on: hashes, buckets and resizing change nothing that can be seen |
| HashLists.ResizeKeepsLookups | src/map.c:74-110 | A resize changes no look-up |
| HashLists.GrowthExact | src/map.c:154-188 | After any run the number of buckets is none, 32, or the least larger power of two for the largest number of keys that the map has had |
| Utf8.StreamRoundTrip | src/stream.c:92-123 | A written sequence of code points is cut back, by the first bytes alone, into just these code points |
| Utf8.EncodingIsUnique | src/stream.c:92-123 | Different sequences of code points have different bytes |
| Utf8.EncodedDecodes | src/compiler/common/lexer.c:500-535 | Every code point below 0x200000 is read back from its bytes |
| Utf8.DecodedEncodes | src/compiler/common/lexer.c:500-535 | Bytes that the decoder accepts are the encoder's bytes if and only if the code point needs that many |
| Utf8.OverlongZero | src/compiler/common/lexer.c:520-523 | Two bytes for zero are accepted |
| Utf8.FirstByteTells | src/compiler/common/lexer.c:49-56 | The number of leading ones of the first byte is the length of the encoding |
| Utf8.CountOnes | src/compiler/common/lexer.c:49-56 | The loop counts the leading ones |
| Utf8.ReadRune | src/compiler/common/lexer.c:500-535 | The decoder with its loop over the continuation bytes and its errors |
| Utf8.AcceptedExact | src/compiler/common/lexer.c:500-535 | Accepted are exactly a first byte and as many continuation bytes as it says, in a range of no more bytes |
| Utf8.LayoutExact | src/stream.c:92-123 | The bits of a code point stand in its bytes from the highest to the lowest, six in every byte but the first |
| Utf8.KnownEncodings | src/stream.c:92-123 | The bytes of three well-known code points |
| Utf8.Stream.PutUtf8 | src/stream.c:92-123 | The encoding is appended; from 0x200000 on the program gives up |
| LexerCursor.Cursor.EatWhile | src/compiler/common/lexer.c:58-76 | The cursor stops at the first character that is not accepted, with line and column as recomputed from the start |
| LexerCursor.Cursor.EatUntilAnyOf | src/compiler/common/lexer.c:86-94 | The same for a set of characters |
| LexerCursor.Cursor.Advance | src/compiler/common/lexer.c:108-119 | The index stays within the source, and line and column stay right if and only if the 32-bit sum does not wrap around |
| LexerCursor.Cursor.SkipSpace | src/compiler/common/lexer.c:229-234 | White space is skipped, and the first line feed gives a token with its index but the place of the character behind it |
| LexerCursor.SubRange | src/compiler/common/source.c:146-172 | The recomputed place is the place of the index |
| LexerCursor.PlacesGrow | src/compiler/common/lexer.c:39-47 | Places grow with the index: no two indices have the same one |
| LexerCursor.PlaceCounts | src/compiler/common/source.c:159-170 | The line is the number of line feeds in front, the column the distance from the last |
| Idents.SamePointerSameText | src/compiler/common/ident.c:32-40 | Two identifiers are the same pointer if and only if they are the same text |
| Idents.Intern | src/compiler/common/ident.c:32-40 | After any sequence of calls two results are the same pointer if and only if the slices have the same text; every result has its text, and what was known stays known |
| Idents.InternAll | src/compiler/common/ident.c:22-40 | The same from the start of the program |
| Idents.IdentCache.Foa | src/compiler/common/ident.c:32-40 | The identifier has the text and is new exactly when no known one has it, otherwise it is that one; all earlier ones stay |
| Idents.IdentCache.constructor | src/compiler/common/ident.c:22-30 | The cache starts with the three letters, in nodes of its own |
| Idents.CompareRanks | src/tree.c:759-772 | The comparison is a total order |
| Idents.SameOrder | include/tree.h:179-187 | So on ASCII texts it is the order of strcmp |
| Idents.OrdersAgree | include/tree.h:179-187 | On any two texts it agrees with strcmp if and only if one is the beginning of the other or the first characters that differ are both ASCII or both not |
| Idents.StrNCompare | src/tree.c:759-772 | The loop compares the first characters of one text with a whole other one |

## Left out

- HeapBlocks.Heap32.constructor: the memory of the records is a buffer of its own, not a part of the RAM below its base address.
- HeapModel.AllocKeeps: alignment is rounding down to a multiple, which is the mask of the code for powers of two.
- Instructions.Disassemble: lists instructions, not their printed text; where the code would read an immediate past the end of the vector the listing stops.
- Assembler.AssemblerCtx.ParseInstruction: operands arrive already read; a variable with an added offset, a float or character literal, and a symbol as offset of an effective address are not operands of the model.
- Assembler.AssemblerCtx.Link: requires an empty code vector; the running address does not wrap at 32 bits, and the notes are a sequence instead of a tree of positions.
- Linking.LinkedProgramSimulates: a program that jumps to an address that is no start of an instruction has left the symbolic machine, and nothing is said of it from then on.
- VmObject.Vm.RunLoop: runs for a given number of turns.
- VmObject.Vm.Start: starts a run without arguments; copying the command line into the heap is left out.
- WholeRuns.AssembleAndRun: the machine is at hand; that the code and the constants are copied into its RAM is left out.
- VmObject.Vm.DoExecute: native calls, console output, real addresses and stack allocation are faults of their own kind; a signed overflow of sums, products and left shifts, which is undefined in C, wraps around in two's complement, and what else is undefined is a crash.
- Calls.CallProtocol: is about runs whose local steps leave the caller's frame alone; counts are below 256.
- Stack.StackNeverReachesHeap: begins behind the marker bytes of the start, which `MarkerExact` is about.
- Programs.Assemble: statements arrive already read, and the assembler's predefined constants are statements like any other.
- RbTrees.RbTree.Add: the datum is there when the node is linked, where the macros write it just afterwards; parent and colour are two fields instead of one word.
- RedBlack.RunHeight: reads line 194 of the tree as its mirror; for the code as written `InsertEven` says when a step keeps the balance.
- E4c.ProgramRuns: statements do not return or break out of blocks, have no loops of their own, and keep no local variables across jumps; messages, files and line numbers are left out.
- Pools.PoolAllocator.ReAlloc: the bytes that are copied are not modelled, and the counters do not wrap around.
- PoolRuns.Play: a request for which the pool number is out of range counts as not granted, where the code reads past its pools.
- Pools.CutBlock: the last segment of a pool, which can reach over the end of its block, counts like any other.
- HashMaps.HashMap.Set: allocation never fails, keys are whole texts without zero bytes, and the number of buckets stays below 2^31.
- Utf8.ReadRune: the two messages that the program ends with are two results.
- Idents.IdentCache.Foa: the slice is not empty; an empty one is compared as a whole text but stored as an empty one.
- Erasure from the tree (`src/tree.c:256-556`) is never called and not finished.
- `Builder_link` in `src/vm/builder.c` repeats the assembler's linker for another caller.
- The parser, the code generator and the syntax tree are unfinished and promise no preservation of meaning.
- The arena allocator moves a pointer and frees nothing, map iteration visits the buckets in turn, and the other tokens of the lexer are single matches of characters; logging, files and command lines are I/O.
