# Verified model of the firmware's algorithmic core

This project models the algorithmic parts of an STM32 air-unit firmware and proves them correct in Dafny 4.11.
`dafny verify dfyconfig.toml` checks all of it. Two kinds of module stand side by side: functions on values that say
what a part of the system means, with the theorems about them, and classes and methods that work in place as the
firmware does and are proved to realise those functions.

- The **Finsh shell** (`Finsh*.dfy`, with C's meaning of the written text in `FinshSemantics.dfy`, `FinshOperators.dfy` and
  `FinshPrecedence.dfy`): a recursive-descent parser that links nodes in a table of sixteen, a type check that
  annotates them, a compiler that emits byte code into a 128-byte text segment, and a stack machine that runs it. The
  chain is closed from tokens to the value left at the bottom of the stack (`FinshShell.Interpret`).
- The **Finsh heap** (`FinshHeap.dfy`, `FinshHeapStore.dfy`): a first-fit allocator with splitting, three-way coalescing and a
  garbage collector over the shell's variables, on values and in the memory array.
- **MAVLink** (`Checksum.dfy`, `Mav*.dfy`): the X.25 checksum, frames of both protocol versions, the byte-at-a-time parser,
  the signing streams, the encoder, and the message table's bisection.
- **qsort** (`Qsort.dfy`): three-way quicksort on elements of any size in a byte buffer.
- **Calendar time** (`Calendar.dfy`), **rand_r** (`Rand.dfy`, `RandPeriod.dfy`), the **Ymodem** receiver and its checksum
  (`Ymodem.dfy`, `YmodemCrc.dfy`), and the **bit-banged I2C** master (`I2c.dfy`).
- `ByteBits.dfy` and `Division.dfy` hold arithmetic facts used by several parts.

Widths are modelled where the code relies on them: 8- and 16-bit vectors for the checksums, 32-bit words for the stack
machine and the sizes in the heap, signed 32-bit integers for the random numbers. Calendar time uses mathematical
integers. Hash functions, the slave on the I2C bus, system calls, the flash writer's answers, the time-outs of the serial
line and the application's signature policy are parameters, so the theorems hold for all of them.

## What does not hold, and exactly when it does

- `gmtime_r` and `mktime` are inverse to each other on all times and all normal dates, but `mktime` counts the years before
  it carries months: its result belongs to the fields it leaves behind exactly when the month is below 12 and the days fit
  the rest of the year (`Calendar.MadeAgreesIffYearKept`, `Calendar.ThirteenthMonth`).
- The heap's 32-bit size arithmetic wraps exactly for the sizes 0xFFFFFFF5 to 0xFFFFFFFC; for all others the split's
  remainder lies behind the block's own header (`FinshHeap.RemainderBehindHeaderIff`), and the heap's invariant survives an
  allocation of these sizes exactly when no block is found (`FinshHeap.AllocationKeepsInv`, `FinshHeap.WrapAtStart`).
  Requests of the three sizes above are rounded to 0 and get an empty block; every request below gets a block as long as it
  asks for (`FinshHeap.Rounding`).
- The message table's bisection starts one past the end and reads there exactly for ids above the last entry
  (`MavChannel.FindEntry`).
- Framing without the parse function's reset accepts a signed frame with a wrong checksum exactly when its signature is
  accepted (`MavFrame.BareFramingIgnoresChecksum`, `MavFrame.BareFramingAcceptsFrames`).
- A replayed signed message is accepted exactly when time stamps are not checked (`MavSigning.ReplayAcceptedIff`), and a
  sender's time stamp wraps at 2^48 (`MavSigning.WrappedStampIsRefused`, `MavSigning.SenderIsAccepted`).
- `rand_r` is stuck at zero exactly for three readings of the seed (`Rand.ZeroIff`); from every seed in range it has the full
  period (`RandPeriod.FullPeriod`).
- Of the variables that pass the type check as 32-bit operands, exactly the `void*` ones get no load
  (`FinshMeaning.VoidPointerEmitsNothing`).
- A listener on the I2C wire hears a transfer right exactly when the slave leaves the wire to the master
  (`I2c.TransferIsHeard`, `I2c.WatchedOnWire`): a slave that holds SDA low hides START and STOP (`I2c.LowWireIsSilent`). Bytes
  read without acknowledge clocks are heard right only one at a time, before a repeated START (`I2c.UnacknowledgedHeardIff`).
- Unlike in C, `+` in front of a variable or a dereference can still be assigned to, incremented and taken the address of, since
  it leaves no node; `FinshSemantics.Place` says so.
- The Ymodem receiver answers a repeated packet with NAK and so never repeats a lost ACK (`Ymodem.RepeatIsRefused`); it reads
  the two checksum bytes of a packet without looking at them, so they are free in `Ymodem.TransferIsComplete`.

## Model

| member | source | states |
|---|---|---|
| `FinshShell.Interpret` | AF mcu2  udp http air code/Library/Finsh/finsh_parser.c:916-998 | Tokens in, value out: the written form of proper expressions of the 32-bit fragment, parsed into the node table, type-checked, compiled and run, reports no error and leaves the value and the memory that the written statements mean, one after the other, with C's operators |
| `FinshSemantics.LineMeans` | AF mcu2  udp http air code/Library/Finsh/finsh_parser.c:916-998 | The trees the parser builds for a line evaluate to what the statements mean |
| `FinshSemantics.TreeMeans` | AF mcu2  udp http air code/Library/Finsh/finsh_parser.c:433-911 | For every expression of the fragment, of any form and size: the tree's value and memory are those of the meaning given on the written form, token by token: names, literals, calls, prefix and postfix operators, binary operators, assignment, and the places that `&`, `++`, `--` and `=` work on |
| `FinshOperators.ArithIff` | AF mcu2  udp http air code/Library/Finsh/finsh_ops.c:42-294 | The machine's ten binary operators on 32-bit cells compute a word exactly where C defines the result and it is that result: sums, differences and products modulo 2^32, quotient and remainder truncated toward zero with the sign of the dividend, every bit of and, or, exclusive or, shifts as product and floor |
| `FinshOperators.ResultIsUnique` | AF mcu2  udp http air code/Library/Finsh/finsh_ops.c:42-294 | No two words are results of the same operation, so these properties determine the answer |
| `FinshOperators.ComplementIsResult` | AF mcu2  udp http air code/Library/Finsh/finsh_ops.c:245-250 | `~` turns over every bit |
| `FinshShell.RunLine` | AF mcu2  udp http air code/Library/Finsh/finsh_compiler.c:903-937 | The same from a node table on: type check, code generation and the fetch loop together compute the direct evaluation of the statement list the table holds; the value is returned and stands at stack slot 0 |
| `FinshShell.TableBoundsSize` | AF mcu2  udp http air code/Library/Finsh/finsh.h:26 | A tree list held in the node table without sharing has at most as many nodes as the table has slots |
| `FinshMeaning.CodeComputesValues` | AF mcu2  udp http air code/Library/Finsh/finsh_compiler.c:43-757 | Compiler correctness for every tree list of the 32-bit fragment: executing the emitted bytes pushes exactly the values of direct evaluation on top of whatever was on the stack and leaves its memory, within two slots more than the list has nodes |
| `FinshMeaning.ProgramComputesMeaning` | AF mcu2  udp http air code/Library/Finsh/finsh_compiler.c:918-934 | A statement list: each value but the last is popped, memory flows from one statement to the next, and the last value remains |
| `FinshMeaning.LineComputesMeaning` | AF mcu2  udp http air code/Library/Finsh/finsh_compiler.c:903-937 | The zero-filled text segment with the code of a line, run from an empty stack to its end, ends with exactly one value, that of the last statement |
| `FinshMeaning.NodeTableBoundsStack` | AF mcu2  udp http air code/Library/Finsh/finsh_vm.c:47-72 | A line that fits the 16-entry node table runs to its value on every machine with 18 or more stack slots, so it needs at most 18 of the 64 |
| `FinshMeaning.VoidPointerEmitsNothing` | AF mcu2  udp http air code/Library/Finsh/finsh_compiler.c:63-194 | Where the fragment stops: of the variables typed as 32-bit operands, of the shell or of the system, exactly those of type `void*` get no load, and the type check reports nothing |
| `FinshMachine.LoadAfterStore` | AF mcu2  udp http air code/Library/Finsh/finsh_ops.c:428-435 | A stored 32-bit word is read back, wherever it is stored |
| `FinshMachine.StoreKeepsOthers` | AF mcu2  udp http air code/Library/Finsh/finsh_ops.c:428-435 | Storing a word leaves every word unchanged whose four bytes are elsewhere |
| `FinshMachine.AssembleInvertsDword` | AF mcu2  udp http air code/Library/Finsh/finsh.h:37-55 | Four operand bytes written low first assemble to the same word |
| `FinshMachine.DispatchesBounded` | AF mcu2  udp http air code/Library/Finsh/finsh_vm.c:47-72 | The program counter advances at every dispatch, so the fetch loop makes at most one dispatch per byte of text that is left |
| `FinshMachine.ZerosDoNothing` | AF mcu2  udp http air code/Library/Finsh/finsh_vm.c:47-72 | The zero bytes behind the code are no-operations up to the end of the text |
| `FinshMachine.ExecTwice` | AF mcu2  udp http air code/Library/Finsh/finsh_vm.c:47-72 | Running to a point and on from there is running through |
| `FinshShell.NoUnknownTypes` | AF mcu2  udp http air code/Library/Finsh/finsh_compiler.c:759-901 | The type check reports no error on the 32-bit fragment |
| `FinshShell.NoStatementFails` | AF mcu2  udp http air code/Library/Finsh/finsh_compiler.c:311-372 | The code generator reports no error on a type-checked list of the 32-bit fragment |
| `FinshCompiler.Compiler.TypeCheck` | AF mcu2  udp http air code/Library/Finsh/finsh_compiler.c:759-901 | The recursive pass over the node table leaves in it exactly the annotated tree, touches no other node, and reports an error exactly at variables of unknown type |
| `FinshCompiler.Compiler.Compile` | AF mcu2  udp http air code/Library/Finsh/finsh_compiler.c:43-757 | The recursive pass emits exactly the code of the tree at the program counter and nothing else, and reports an error exactly for untyped assignment targets |
| `FinshCompiler.Compiler.CompileStatements` | AF mcu2  udp http air code/Library/Finsh/finsh_compiler.c:918-934 | Each statement is detached from the next, compiled, and followed by a pop except for the last |
| `FinshCompiler.Compiler.Run` | AF mcu2  udp http air code/Library/Finsh/finsh_compiler.c:903-937 | Type check, blank text, and the code of the whole line from its start; errors are those of the two passes |
| `FinshTree.CheckFailsIff` | AF mcu2  udp http air code/Library/Finsh/finsh_compiler.c:759-901 | The type check reports an error exactly if a variable of unknown type occurs anywhere |
| `FinshTree.CodeFailsIff` | AF mcu2  udp http air code/Library/Finsh/finsh_compiler.c:311-372 | The code generator reports an error exactly if an assignment to a name or dereference without a data type occurs anywhere |
| `FinshVm.Vm.Execute` | AF mcu2  udp http air code/Library/Finsh/finsh_ops.c:32-569 | Each operation of the 32-bit fragment, on the stack cells, stack pointer and program counter, has the effect of its instruction on stack and memory |
| `FinshVm.Vm.OpCall` | AF mcu2  udp http air code/Library/Finsh/finsh_ops.c:444-569 | A system call takes its arguments from the stack in order and replaces function and arguments by the result |
| `FinshVm.Vm.Run` | AF mcu2  udp http air code/Library/Finsh/finsh_vm.c:47-72 | The fetch loop over the text computes the execution to the end of the text |
| `FinshParser.AssignedPrinted` | AF mcu2  udp http air code/Library/Finsh/finsh_parser.c:433-911 | The parser inverts the printer: every expression that needs no grouping parentheses (calls included) and fits the node table, followed by a token that cannot continue it, is parsed to its own tree, with eight precedence levels, binary operators to the left and assignment to the right |
| `FinshParser.AssignedAccepts` | AF mcu2  udp http air code/Library/Finsh/finsh_parser.c:433-911 | Conversely, whatever the grammar without casts accepts is the printed form of such an expression, and the tree built is that expression's tree |
| `FinshParser.LevelPrinted` | AF mcu2  udp http air code/Library/Finsh/finsh_parser.c:467-667 | The loop of a binary level: after an expression of that level parsing goes on in the loop with that expression as the left operand, whatever follows that does not bind more tightly |
| `FinshParser.TightPrinted` | AF mcu2  udp http air code/Library/Finsh/finsh_parser.c:467-667 | An expression at a level stops at the first token that binds less tightly |
| `FinshParser.UnaryPrinted` | AF mcu2  udp http air code/Library/Finsh/finsh_parser.c:710-751 | Prefix operators: the operand has the same level; minus subtracts from a zero node made after the operand; plus makes no node |
| `FinshParser.PostfixPrinted` | AF mcu2  udp http air code/Library/Finsh/finsh_parser.c:758-807 | Postfix operators and calls are taken up greedily behind an operand |
| `FinshParser.ArgumentsPrinted` | AF mcu2  udp http air code/Library/Finsh/finsh_parser.c:864-888 | Arguments separated by commas become the sibling list in order |
| `FinshParser.LevelAccepts` | AF mcu2  udp http air code/Library/Finsh/finsh_parser.c:467-667 | Every acceptance at a level is accounted for by an expression that binds at least as tightly |
| `FinshParser.LinePrinted` | AF mcu2  udp http air code/Library/Finsh/finsh_parser.c:916-998 | A printed line of statements is parsed to the list of its trees |
| `FinshPrecedence.RowIsGrouped` | AF mcu2  udp http air code/Library/Finsh/finsh_parser.c:467-667 | Any row of operands and binary operators is parsed to the tree whose root is the last of the loosest operators, with both sides grouped in the same way, for the six tiers or, exclusive or, and, shifts, additive, multiplicative |
| `FinshPrecedence.GroupsOnce` | AF mcu2  udp http air code/Library/Finsh/finsh_parser.c:467-667 | There is only one such grouping of a row |
| `FinshPrecedence.ThreeOperands` | AF mcu2  udp http air code/Library/Finsh/finsh_parser.c:467-667 | Two operators between three operands: the first is applied first exactly if it binds at least as tightly |
| `FinshParserTable.Parser.Run` | AF mcu2  udp http air code/Library/Finsh/finsh_parser.c:916-998 | The expression statements of a line end up linked in the node table exactly as the grammar's tree list, root first; an error is reported exactly when the grammar fails |
| `FinshParserTable.Parser.Level` | AF mcu2  udp http air code/Library/Finsh/finsh_parser.c:467-667 | The loops of the six binary levels, with the replay flag, leave the grammar's tree in fresh slots, older slots untouched |
| `FinshParserTable.Parser.Assigned` | AF mcu2  udp http air code/Library/Finsh/finsh_parser.c:442-460 | Assignment, right-associative, leaves the grammar's tree in fresh slots |
| `FinshParserTable.Parser.Unary` | AF mcu2  udp http air code/Library/Finsh/finsh_parser.c:710-751 | Prefix operators other than casts leave the grammar's tree in fresh slots |
| `FinshParserTable.Parser.Postfix` | AF mcu2  udp http air code/Library/Finsh/finsh_parser.c:758-807 | Postfix operators and calls leave the grammar's tree in fresh slots |
| `FinshParserTable.Parser.Parameters` | AF mcu2  udp http air code/Library/Finsh/finsh_parser.c:864-888 | The loop that links each argument behind the last leaves the grammar's list in fresh slots |
| `FinshParserTable.Parser.MakeSysNode` | AF mcu2  udp http air code/Library/Finsh/finsh_parser.c:897-911 | A node above two subtrees: both keep their nodes, nothing below is touched, an error is reported exactly when no node is left |
| `FinshParserTable.Parser.Allocate` | AF mcu2  udp http air code/Library/Finsh/finsh_node.c:46-65 | The first unused node is taken; NULL exactly when all sixteen are in use |
| `FinshParserTable.LinkLast` | AF mcu2  udp http air code/Library/Finsh/finsh_parser.c:874-884 | Linking a tree behind the last one of a list appends it and changes nothing else |
| `FinshHeap.ReachableHeap` | AF mcu2  udp http air code/Library/Finsh/finsh_heap.c:73-298 | In every state reachable by allocations, releases and collections both lists are strictly ordered and disjoint and account for every byte of the heap, the blocks tile it, no two free blocks touch, and no used block is the highest, so a released block is never linked last |
| `FinshHeap.RunKeepsInv` | AF mcu2  udp http air code/Library/Finsh/finsh_heap.c:73-298 | Every sequence of calls keeps the invariant, for all sizes but those of the eight that find a block |
| `FinshHeap.AllocationKeepsInv` | AF mcu2  udp http air code/Library/Finsh/finsh_heap.c:73-110 | For every 32-bit size: an allocation returns NULL exactly when no free block is longer than size and header and after collection none is as long; it keeps the invariant exactly when that sum does not wrap around or nothing fits; and then a pointer returned is a block at least as long as the request and less than four bytes longer, that no root points to, and all rooted blocks are kept; the three greatest sizes get an empty block |
| `FinshHeap.AllocationIsFirstFit` | AF mcu2  udp http air code/Library/Finsh/finsh_heap.c:73-110 | The lowest free block with 12 bytes more than the request is taken and no block given up; only if there is none, the collector runs and the lowest with 8 bytes more is taken; and NULL only if there is none again |
| `FinshHeap.Rounding` | AF mcu2  udp http air code/Library/Finsh/finsh_heap.c:43-77 | Sizes are rounded up to the next multiple of four, except that the three greatest are taken for 0 |
| `FinshHeap.WrappedIsBroken` | AF mcu2  udp http air code/Library/Finsh/finsh_heap.c:232-246 | A block taken for a size whose sum wraps around claims more than the whole heap |
| `FinshHeap.WrapAtStart` | AF mcu2  udp http air code/Library/Finsh/finsh_heap.c:73-110 | Concretely: in the empty heap a request for 0xFFFFFFF8 bytes finds the only block, and the invariant is lost |
| `FinshHeap.CollectedHeap` | AF mcu2  udp http air code/Library/Finsh/finsh_heap.c:133-161 | After collection the used list holds exactly the blocks that a typed variable points to, with their lengths |
| `FinshHeap.CollectionIsExact` | AF mcu2  udp http air code/Library/Finsh/finsh_heap.c:133-161 | The collector's walk decides each block independently of the releases it makes on the way |
| `FinshHeap.ReleaseKeepsInv` | AF mcu2  udp http air code/Library/Finsh/finsh_heap.c:115-128 | A release removes exactly its block from the used list, leaves every other used block in place, and leaves nothing adjacent unjoined |
| `FinshHeap.TakeKeepsInv` | AF mcu2  udp http air code/Library/Finsh/finsh_heap.c:80-98 | Taking a fitting block splits it and keeps the invariant: the remainder of the highest block stays free |
| `FinshHeap.LastFreeIsTop` | AF mcu2  udp http air code/Library/Finsh/finsh_heap.c:166-227 | The last block of the free list is the highest block, so the list is never empty |
| `FinshHeap.SplitKeepsTiling` | AF mcu2  udp http air code/Library/Finsh/finsh_heap.c:232-246 | Splitting a block keeps the tiling |
| `FinshHeap.JoinKeepsTiling` | AF mcu2  udp http air code/Library/Finsh/finsh_heap.c:248-298 | Joining a block with its neighbour keeps the tiling |
| `FinshHeap.CellInOneBlock` | AF mcu2  udp http air code/Library/Finsh/finsh_heap.c:55-68 | Every address of the heap lies in exactly one block's header or data |
| `FinshHeap.ListsAccountForHeap` | AF mcu2  udp http air code/Library/Finsh/finsh_heap.c:55-68 | Headers and data of both lists add up to the heap size |
| `FinshHeap.RemainderBehindHeaderIff` | AF mcu2  udp http air code/Library/Finsh/finsh_heap.c:232-246 | Where 32-bit arithmetic wraps: the remainder's header is placed behind the block's own header exactly for the sizes that do not wrap |
| `FinshHeapStore.HeapStore.Allocate` | AF mcu2  udp http air code/Library/Finsh/finsh_heap.c:73-110 | The allocator on the memory array realises the allocation of the model, for every size that keeps the invariant: same pointer, same lists; data of other used blocks is unchanged; the block lies inside the heap, holds the request, and is zero from the pointer to its end |
| `FinshHeapStore.HeapStore.Free` | AF mcu2  udp http air code/Library/Finsh/finsh_heap.c:115-128 | The release on the memory array realises the model's release; data of the other used blocks is unchanged |
| `FinshHeapStore.HeapStore.Collect` | AF mcu2  udp http air code/Library/Finsh/finsh_heap.c:133-161 | The collector on the memory array realises the model's collection; data of the blocks kept is unchanged |
| `FinshHeapStore.HeapStore.IsRooted` | AF mcu2  udp http air code/Library/Finsh/finsh_heap.c:133-161 | The scan of the variable table answers whether any typed variable holds the pointer to a block's data |
| `FinshHeapStore.HeapStore.BlockInsert` | AF mcu2  udp http air code/Library/Finsh/finsh_heap.c:166-200 | Relinking inserts a header into an address-ordered list and touches no other cell |
| `FinshHeapStore.HeapStore.BlockRemove` | AF mcu2  udp http air code/Library/Finsh/finsh_heap.c:205-227 | Relinking removes a header from a list; the link left in a middle header is harmless because no freed block is last |
| `FinshHeapStore.HeapStore.BlockSplit` | AF mcu2  udp http air code/Library/Finsh/finsh_heap.c:232-246 | The split writes exactly the two headers of the model's split |
| `FinshHeapStore.HeapStore.BlockMerge` | AF mcu2  udp http air code/Library/Finsh/finsh_heap.c:248-298 | Three-way coalescing with the previous and the next free block realises the model's merge |
| `Checksum.AccumulatedIsSerial` | AF mcu2  udp http air code/MAVLink/checksum.h:38-46 | The byte-at-a-time shift and exclusive-or form equals eight bit-serial steps with polynomial 0x8408 |
| `Checksum.Accumulator.Accumulate` | AF mcu2  udp http air code/MAVLink/checksum.h:38-46 | The accumulator moves by eight bit-serial steps |
| `Checksum.Accumulator.AccumulateBuffer` | AF mcu2  udp http air code/MAVLink/checksum.h:88-94 | A buffer is accumulated as the bit-serial division of its bytes |
| `Checksum.Calculate` | AF mcu2  udp http air code/MAVLink/checksum.h:68-76 | The checksum of a buffer is the bit-serial division from the initial value |
| `Checksum.ResidueIsZeroIffChecksumMatches` | AF mcu2  udp http air code/MAVLink/checksum.h:38-46 | Appending two bytes gives zero exactly when they are the checksum, low byte first |
| `Checksum.BurstIsDetected` | AF mcu2  udp http air code/MAVLink/checksum.h:68-76 | Two messages that differ only inside two adjacent bytes never share a checksum |
| `Checksum.CrcIsInjectiveInState` | AF mcu2  udp http air code/MAVLink/checksum.h:68-76 | The state after a message determines the state before it |
| `Checksum.CrcIsSurjectiveInState` | AF mcu2  udp http air code/MAVLink/checksum.h:68-76 | Every state is reached by every message from some state |
| `Checksum.CrcConcat` | AF mcu2  udp http air code/MAVLink/checksum.h:88-94 | The checksum of a concatenation goes on from that of its front |
| `Checksum.KnownAnswer` | AF mcu2  udp http air code/MAVLink/checksum.h:38-76 | The checksum of the digits 1 to 9 is 0x6F91 |
| `MavFrame.OnlyCompleteFramesAreAccepted` | AF mcu2  udp http air code/MAVLink/mavlink_helpers.h:569-995 | Parser soundness: whatever bytes arrive, OK is reported only when the bytes since the parser last entered GOT_STX are one complete frame in the format of the version flag, with a matching checksum and with the signature block if and only if it is flagged, the delivered fields are those of that frame, and it may pass: signed with a good signature, unsigned without signing on the channel, or let through by the application |
| `MavFrame.ParseStepSound` | AF mcu2  udp http air code/MAVLink/mavlink_helpers.h:569-995 | The running invariant: checksum of the bytes so far, payload index below the length until it is reached and equal to it from then on, one to thirteen signature bytes awaited, and those only for a flagged frame |
| `MavFrame.StreamTracked` | AF mcu2  udp http air code/MAVLink/mavlink_helpers.h:569-995 | Over any stream the parser keeps track of the bytes since it last entered GOT_STX |
| `MavFrame.MarkerStarts` | AF mcu2  udp http air code/MAVLink/mavlink_helpers.h:594-612 | Only a start marker begins a frame |
| `MavFrame.BareFramingIgnoresChecksum` | AF mcu2  udp http air code/MAVLink/mavlink_helpers.h:753-815 | Without the reset of the parse function, a signed frame is accepted exactly when its signature is, whether or not its checksum was right |
| `MavFrame.BareFramingAcceptsFrames` | AF mcu2  udp http air code/MAVLink/mavlink_helpers.h:569-849 | Over any stream, what the framing without that reset accepts is still one complete frame behind a start marker, and its checksum matches unless its signature flag is set |
| `MavRoundTrip.StreamIsDelivered` | AF mcu2  udp http air code/MAVLink/mavlink_helpers.h:205-995 | Stream round trip: over any list of messages of both versions, signed or not, with noise free of start markers in between, an idle parser reports OK exactly at the last byte of each frame that passes the signing policy, with that frame's message, and a refused one leaves the frames behind it intact unless its last byte is itself a marker |
| `MavRoundTrip.FrameIsDelivered` | AF mcu2  udp http air code/MAVLink/mavlink_helpers.h:569-995 | One frame: nothing before its last byte, then OK exactly if it passes the signing policy, with header, flags, addresses, id, checksum bytes, signature, and the payload up to the type's length with zeros for what was not sent; if not, the parser is idle or, exactly if that byte is the version 2 marker, begins anew |
| `MavRoundTrip.WireIsFrame` | AF mcu2  udp http air code/MAVLink/mavlink_helpers.h:205-461 | Serialising a finalised message sends marker, header, trimmed payload and checksum; the second trimming changes nothing |
| `MavRoundTrip.TrimmedTailIsZero` | AF mcu2  udp http air code/MAVLink/mavlink_helpers.h:101-107 | Trimming drops exactly the zeros at the end but keeps one byte: a longer rest ends in a non-zero byte, and trimming again changes nothing |
| `MavRoundTrip.BodyRead` | AF mcu2  udp http air code/MAVLink/mavlink_helpers.h:613-734 | A body whose first byte announces its payload length is read to its last byte without a result, in the state that belongs to each byte |
| `MavRoundTrip.ChecksumRead` | AF mcu2  udp http air code/MAVLink/mavlink_helpers.h:735-786 | The two checksum bytes complete an unsigned message, delivered exactly if the policy lets it pass, or start the wait for thirteen signature bytes |
| `MavRoundTrip.SignatureRead` | AF mcu2  udp http air code/MAVLink/mavlink_helpers.h:787-814 | The signature bytes are stored in order and the last one asks for the verdict |
| `MavRoundTrip.CorruptionIsRejected` | AF mcu2  udp http air code/MAVLink/mavlink_helpers.h:735-995 | A frame damaged within two adjacent bytes of its body, other than length, flags and id, or in its checksum, is given up with its last checksum byte, signed or not; the parser begins anew exactly if that byte is the version 2 marker and is idle otherwise |
| `MavRoundTrip.CrcIsX25` | AF mcu2  udp http air code/MAVLink/checksum.h:68-76 | The checksum on byte values is the X.25 checksum of the bits |
| `MavChannel.Channel.FrameChar` | AF mcu2  udp http air code/MAVLink/mavlink_helpers.h:569-849 | The field-by-field parser on status and message record does exactly one step of the model, and leaves the signing state as the check does |
| `MavChannel.Channel.ParseChar` | AF mcu2  udp http air code/MAVLink/mavlink_helpers.h:972-995 | The same with the reset after a bad checksum or signature, and the restart on a version 2 marker |
| `MavChannel.Channel.ChecksumLow` | AF mcu2  udp http air code/MAVLink/mavlink_helpers.h:735-752 | The first checksum byte: extra byte, comparison, and zero fill up to the type's length |
| `MavChannel.Channel.ChecksumHigh` | AF mcu2  udp http air code/MAVLink/mavlink_helpers.h:753-786 | The second checksum byte and the policy for unsigned messages |
| `MavChannel.Outgoing.Finalize` | AF mcu2  udp http air code/MAVLink/mavlink_helpers.h:205-264 | Finalising a record in place gives the model's finalised message, with the signature block of the final bytes if signing is on, and the size of the frame; the signing clock ticks once for a signed message, and key, link and flags are kept |
| `MavChannel.ToSendBuffer` | AF mcu2  udp http air code/MAVLink/mavlink_helpers.h:419-461 | The buffer receives exactly the wire form, at most 280 bytes, and nothing behind it changes |
| `MavChannel.TrimPayload` | AF mcu2  udp http air code/MAVLink/mavlink_helpers.h:101-107 | The loop finds the trimmed length |
| `MavChannel.FindEntry` | AF mcu2  udp http air code/MAVLink/mavlink_helpers.h:487-513 | The bisection finds exactly what the table holds, and reads past the table exactly for ids above the last entry (or a table of one) |
| `MavChannel.EntriesAre` | AF mcu2  udp http air code/MAVLink/mavlink_helpers.h:487-513 | The table as a map has exactly the listed ids |
| `MavSigning.AcceptedStampsIncrease` | AF mcu2  udp http air code/MAVLink/mavlink_helpers.h:112-190 | Over any run with time stamps checked, accepted messages of one stream carry strictly increasing time stamps, so a replayed message is refused however late it comes |
| `MavSigning.ClockDominates` | AF mcu2  udp http air code/MAVLink/mavlink_helpers.h:182-188 | The clock never goes back and dominates every accepted time stamp |
| `MavSigning.ReplayAcceptedIff` | AF mcu2  udp http air code/MAVLink/mavlink_helpers.h:173-180 | The message just accepted is accepted again exactly when time stamps are not checked |
| `MavSigning.StepOfStamps` | AF mcu2  udp http air code/MAVLink/mavlink_helpers.h:112-190 | One message changes the last time stamp of its own stream only, and only if accepted; the clock becomes the greater of the two |
| `MavSigning.AcceptedIff` | AF mcu2  udp http air code/MAVLink/mavlink_helpers.h:112-190 | A message is accepted exactly if its hash is right and, with time stamps checked, it is newer than the last on its stream, or opens one of at most sixteen streams not more than 6000000 ticks behind the clock |
| `MavSigning.HashCoversFrame` | AF mcu2  udp http air code/MAVLink/mavlink_helpers.h:120-135 | The hash covers the key and every byte of the frame before the hash |
| `MavSigning.Run` | AF mcu2  udp http air code/MAVLink/mavlink_helpers.h:112-190 | Over any run the table keeps at most sixteen streams with distinct keys |
| `MavSigning.SignedIsAuthentic` | AF mcu2  udp http air code/MAVLink/mavlink_helpers.h:65-93 | A receiver with the same key finds every signed message authentic, with the sender's clock modulo 2^48 |
| `MavSigning.SenderIsAccepted` | AF mcu2  udp http air code/MAVLink/mavlink_helpers.h:65-190 | The n-th of one sender's messages, signed in turn, is accepted exactly when time stamps are not checked or the sender's clock still fits 48 bits, once the first finds the receiver ready, whatever others send in between; the last time stamp kept is given exactly |
| `MavSigning.Undisturbed` | AF mcu2  udp http air code/MAVLink/mavlink_helpers.h:112-190 | Messages on other streams, or that only pretend to be on this one, leave its last time stamp alone |
| `MavSigning.WrappedStampIsRefused` | AF mcu2  udp http air code/MAVLink/mavlink_helpers.h:82-84 | At 2^48 the time stamp wraps and the message is refused on a known stream |
| `MavSigning.SignedFrameIsDelivered` | AF mcu2  udp http air code/MAVLink/mavlink_helpers.h:569-849 | A signed frame sent over the wire reaches the check with its bytes intact: the check accepts it exactly when the receiver is ready for that stream and time, and then the message is delivered |
| `MavSigning.SignatureCheck` | AF mcu2  udp http air code/MAVLink/mavlink_helpers.h:112-190 | The check on the signing record and stream table answers and updates as the model; without a signing record everything passes, without a table nothing does |
| `MavSigning.Signing.SignPacket` | AF mcu2  udp http air code/MAVLink/mavlink_helpers.h:65-93 | The signature block covers key, header, payload, checksum, link and time; the clock ticks |
| `MavSigning.SigningStreams.Position` | AF mcu2  udp http air code/MAVLink/mavlink_helpers.h:150-157 | The search finds the first entry of a stream or the end of the table |
| `MavSigning.ValueOfBytes` | AF mcu2  udp http air code/MAVLink/mavlink_helpers.h:82-84 | Bytes of a number, low first, give it back modulo their range |
| `Qsort.Sort` | AF mcu2  udp http air code/Library/Libc/qsort.c:38-45 | For every array and every total preorder: sorted, with the same elements; counts or sizes in the upper half of `size_t` leave the buffer alone |
| `Qsort.Quicksort` | AF mcu2  udp http air code/Library/Libc/qsort.c:18-36 | The range is sorted, its elements are a permutation of what it held, and nothing else moves; both recursive ranges are shorter |
| `Qsort.Partition` | AF mcu2  udp http air code/Library/Libc/qsort.c:21-31 | When the indices have met: equal elements at both ends, less before, at least the pivot from the meeting point on; no index leaves the range |
| `Qsort.Divide` | AF mcu2  udp http air code/Library/Libc/qsort.c:32-34 | Before the recursion the range stands in three parts, and both parts to be sorted exclude the pivot's slot |
| `Qsort.GatherLeft` | AF mcu2  udp http air code/Library/Libc/qsort.c:33 | The left swap-back loop stops one short of the equal region, and its indices may cross: still everything from its end to the pivot is equal |
| `Qsort.GatherRight` | AF mcu2  udp http air code/Library/Libc/qsort.c:34 | The same for the right swap-back loop |
| `Qsort.FillLeftStep` | AF mcu2  udp http air code/Library/Libc/qsort.c:33 | One exchange of the left loop keeps its invariant, crossed or not |
| `Qsort.FillRightStep` | AF mcu2  udp http air code/Library/Libc/qsort.c:34 | One exchange of the right loop keeps its invariant, crossed or not |
| `Qsort.ScansMeet` | AF mcu2  udp http air code/Library/Libc/qsort.c:26-28 | Where the scans meet, the regions split the range |
| `Qsort.Exchange` | AF mcu2  udp http air code/Library/Libc/qsort.c:4-13 | The byte loop exchanges two elements of any size and nothing else |
| `Qsort.PartsSorted` | AF mcu2  udp http air code/Library/Libc/qsort.c:35-36 | Sorted parts around the pivot make a sorted range |
| `Calendar.MadeFromBrokenDown` | AF mcu2  udp http air code/Library/Libc/time.c:34-158 | `mktime` undoes `gmtime_r` for every time, before and after the Epoch |
| `Calendar.BrokenDownFromMade` | AF mcu2  udp http air code/Library/Libc/time.c:34-158 | `gmtime_r` undoes `mktime` on every normal date from 1970 on, day of week and year included, and `mktime` leaves the date as it is |
| `Calendar.BrokenDownKeepsTime` | AF mcu2  udp http air code/Library/Libc/time.c:34-68 | Breaking down loses nothing for any time; from the Epoch on the result is a date of the calendar |
| `Calendar.DayByDay` | AF mcu2  udp http air code/Library/Libc/time.c:34-68 | Time 0 is Thursday, the first of January 1970, and a day later is always the next day of the calendar, with 30, 31, 28 or 29 days to a month: this says what date any later time is |
| `Calendar.MonthLengths` | AF mcu2  udp http air code/Library/Libc/time.c:5-17 | The table gives thirty days to four months, 28 or 29 to February and 31 to the others |
| `Calendar.SecondsOrderDates` | AF mcu2  udp http air code/Library/Libc/time.c:86-158 | Seconds order dates as the calendar does, and different dates have different seconds |
| `Calendar.DayFormulaCountsDays` | AF mcu2  udp http air code/Library/Libc/time.c:126-141 | For all years from 1970 on the closed day formula with its century correction equals the formula of section 4.16 of POSIX.1-2017 Base Definitions and the sum of the year lengths |
| `Calendar.CenturyDaysCount` | AF mcu2  udp http air code/Library/Libc/time.c:132-141 | The century correction counts the years divisible by 100 but not by 400 |
| `Calendar.MadeIsSeconds` | AF mcu2  udp http air code/Library/Libc/time.c:86-158 | For every set of fields that does not run past the month table the result is the seconds since the Epoch, whatever has to be carried from seconds, minutes and hours |
| `Calendar.MadeAgreesIffYearKept` | AF mcu2  udp http air code/Library/Libc/time.c:86-158 | In general the result belongs to the fields left behind exactly when the month is one of the twelve and the days, with those carried in, fit what the month loop counts as the rest of the year; the years are counted first |
| `Calendar.YearKeptIff` | AF mcu2  udp http air code/Library/Libc/time.c:112-125 | The month loop keeps the year exactly for days up to that bound |
| `Calendar.ThirteenthMonth` | AF mcu2  udp http air code/Library/Libc/time.c:90-110 | A concrete date for which it does not: month 13 of 1970 |
| `Calendar.BeforeEpoch` | AF mcu2  udp http air code/Library/Libc/time.c:112-128 | For dates before 1970 whose days fit the year the result is -1 |
| `Calendar.Tm.GmtimeR` | AF mcu2  udp http air code/Library/Libc/time.c:34-68 | The record filled by the counting loops is the broken-down time |
| `Calendar.Tm.Mktime` | AF mcu2  udp http air code/Library/Libc/time.c:86-158 | Fields and result are those of the model, carries and month loop included |
| `Calendar.SkipCenturies` | AF mcu2  udp http air code/Library/Libc/time.c:132-141 | The correction in place subtracts the century days |
| `Rand.SchrageIsModular` | AF mcu2  udp http air code/Library/Libc/rand.c:8-23 | For every 32-bit seed the split product stays in the signed 32-bit range at every step and equals 48271 times the seed modulo 2^31 - 1 |
| `Rand.Generator.Rand` | AF mcu2  udp http air code/Library/Libc/rand.c:13-27 | The stored seed and the result are the next state; the 32-bit operations do not overflow |
| `Rand.StepIsPermutation` | AF mcu2  udp http air code/Library/Libc/rand.c:13-23 | On 1 to 2^31 - 2 the step is a permutation, with its inverse on both sides |
| `Rand.ZeroIff` | AF mcu2  udp http air code/Library/Libc/rand.c:13-23 | The generator gets stuck at 0 exactly for the seeds that read as 0, 2^31 - 1 or its negative |
| `Rand.AfterIsPower` | AF mcu2  udp http air code/Library/Libc/rand.c:13-27 | After n calls the state is 48271^n times the seed modulo 2^31 - 1 |
| `Rand.NeverStuckNeverMerging` | AF mcu2  udp http air code/Library/Libc/rand.c:13-27 | Two different states in range stay different and in range for ever |
| `RandPeriod.FullPeriod` | AF mcu2  udp http air code/Library/Libc/rand.c:13-27 | The full period: from every seed in 1 to 2^31 - 2 the state comes back after n calls exactly when 2^31 - 2 divides n |
| `RandPeriod.EveryStateReached` | AF mcu2  udp http air code/Library/Libc/rand.c:13-27 | From every state in that range every other is reached within 2^31 - 2 calls |
| `RandPeriod.OrderIsPeriod` | AF mcu2  udp http air code/Library/Libc/rand.c:8-19 | The n-th power of 48271 is 1 modulo 2^31 - 1 exactly for the multiples of 2^31 - 2, from its powers without one prime factor each |
| `RandPeriod.KnownAnswer` | AF mcu2  udp http air code/Library/Libc/rand.c:8-27 | From seed 1 the 10000th number is 399268537 |
| `YmodemCrc.AugmentedIsDirect` | AF mcu2  udp http air code/App/ymodem.c:307-333 | For every message the form that feeds bits in at the low end and appends two zero bytes equals the direct division by 0x1021, most significant bit first |
| `YmodemCrc.OneBit` | AF mcu2  udp http air code/App/ymodem.c:307-321 | Sixteen zero bits after a bit fed in amount to mixing it in at the top |
| `YmodemCrc.RoundIsFedIn` | AF mcu2  udp http air code/App/ymodem.c:311-319 | The unmasked 32-bit accumulator follows the masked step in its low 16 bits |
| `YmodemCrc.UpdateCrc16` | AF mcu2  udp http air code/App/ymodem.c:307-321 | The loop makes exactly eight rounds and feeds the byte in |
| `YmodemCrc.CalCrc16` | AF mcu2  udp http air code/App/ymodem.c:323-333 | The checksum of a buffer is the direct checksum |
| `YmodemCrc.KnownAnswer` | AF mcu2  udp http air code/App/ymodem.c:307-333 | The checksum of the digits 1 to 9 is 0x31C3 |
| `Ymodem.RunIsSafe` | AF mcu2  udp http air code/App/ymodem.c:106-236 | Over any input, timeouts included: blocks of a file are handed over with the numbers 1, 2, 3, ... modulo 256 without gap or repetition, each is acknowledged exactly once and right behind its hand-over (a refused one never), and the FPGA writes each block where the blocks before it end |
| `Ymodem.FromStart` | AF mcu2  udp http air code/App/fpga_upgrade.c:72-79 | The same for a session from its beginning, with the FPGA writer's offset wherever earlier sessions left it |
| `Ymodem.TransferIsComplete` | AF mcu2  udp http air code/App/ymodem.c:106-236 | On a perfect line a file of any number of blocks arrives whole: header opened, each block handed over once, in order, with its number, its content and on the FPGA at the end of the blocks before it, and acknowledged right behind; nothing else is in the log; what was written, joined, is the file; the announced size is returned |
| `Ymodem.BlocksInOrder` | AF mcu2  udp http air code/App/ymodem.c:137-223 | The blocks of a file in the log: two actions for each, in order, and the contents written are those of the file |
| `Ymodem.FrameRead` | AF mcu2  udp http air code/App/ymodem.c:50-104 | A packet with number, complement and content is read back, and reading goes on behind it |
| `Ymodem.RepeatIsRefused` | AF mcu2  udp http air code/App/ymodem.c:137-140 | A packet that was acknowledged, block or file header, is answered NAK when it comes again: a lost ACK is never repeated |
| `Ymodem.OtherNumberIsRefused` | AF mcu2  udp http air code/App/ymodem.c:137-140 | A packet with any number but the expected one is answered NAK and nothing comes of it |
| `Ymodem.WrongComplementIsBad` | AF mcu2  udp http air code/App/ymodem.c:89-104 | A packet whose complement does not match its number counts as no packet |
| `Ymodem.WaitsForSender` | AF mcu2  udp http air code/App/ymodem.c:206-219 | Before anything was received every timeout is answered with 'C', without end |
| `Ymodem.SixthFailureEnds` | AF mcu2  udp http air code/App/ymodem.c:206-219 | After that five failures in a row are answered with 'C' and the sixth ends the session with two CA |
| `Ymodem.Aborts` | AF mcu2  udp http air code/App/ymodem.c:50-104 | 'A' or 'a' ends the session with -3 and two CA, two CA of the sender end it with an ACK and 0 |
| `Ymodem.RefusedBlockEnds` | AF mcu2  udp http air code/App/ymodem.c:177-186 | A block that the writer refuses ends the session with -1 and two CA |
| `Ymodem.Receiver.ReceivePacket` | AF mcu2  udp http air code/App/ymodem.c:50-104 | The packet buffer, return code and length stand for the packet at the position |
| `Ymodem.Receiver.HandlePacket` | AF mcu2  udp http air code/App/ymodem.c:116-223 | Answers, hand-over and counters are those of one step |
| `Ymodem.Receiver.Receive` | AF mcu2  udp http air code/App/ymodem.c:106-236 | The loop performs the run of the model |
| `I2c.TransferIsHeard` | AF mcu2  udp http air code/Drive/i2c_bit_ops.c:343-424 | A listener that only sees the levels of the wire, the lower of what master and slave drive, hears exactly the events of a transfer, every START and STOP, every byte written and read with its value, in order, and every acknowledgement, if and only if the slave leaves the wire to the master: it releases SDA under every 1 written, under a refusal of the master, and at every START and STOP |
| `I2c.ListenerHears` | AF mcu2  udp http air code/Drive/i2c_bit_ops.c:104-156 | The same if and only if for any run of events |
| `I2c.ByteShown` | AF mcu2  udp http air code/Drive/i2c_bit_ops.c:104-156 | A byte on the wire has its value and acknowledgement exactly if the slave leaves it to the master |
| `I2c.UnacknowledgedHeardIff` | AF mcu2  udp http air code/Drive/i2c_bit_ops.c:210-249 | Bytes read without acknowledge clocks in front of a repeated START or STOP are heard right exactly if it is a single byte in front of a repeated START that the slave leaves visible: the listener takes the next clock for an acknowledge clock |
| `I2c.WatchedOnWire` | AF mcu2  udp http air code/Drive/i2c_bit_ops.c:54-79 | Watching both lines of the wire level by level gives the clocks of master and slave together, and a START or STOP of the master only where the slave leaves SDA high |
| `I2c.LowWireIsSilent` | AF mcu2  udp http air code/Drive/i2c_bit_ops.c:54-79 | The concrete case where it does not: with SDA held low throughout, nothing of a START and a STOP reaches the wire |
| `I2c.SdaChangesOnlyAtConditions` | AF mcu2  udp http air code/Drive/i2c_bit_ops.c:54-79 | While SCL is high the master changes SDA once for each START, repeated START and STOP, and at no other time |
| `I2c.TransferRuns` | AF mcu2  udp http air code/Drive/i2c_bit_ops.c:343-424 | Every transfer leads from an idle bus to an idle bus, with START only on an idle one and all else on a busy one; acknowledgements and bytes read are what the slave drove |
| `I2c.TransferAddresses` | AF mcu2  udp http air code/Drive/i2c_bit_ops.c:278-424 | Behind every START and repeated START of a transfer stands a byte that addresses one of its messages: seven bits and the direction, or 11110 and the upper bits of a ten-bit address |
| `I2c.SevenBitAddress` | AF mcu2  udp http air code/Drive/i2c_bit_ops.c:321-337 | With seven bits: refused tries, each given up with STOP and START, at most as many as allowed, and then the address with its direction |
| `I2c.TenBitAddress` | AF mcu2  udp http air code/Drive/i2c_bit_ops.c:291-319 | With ten bits, all acknowledged: 11110, two bits and write, then the low eight bits, and for reading a repeated START and the first byte with the direction changed |
| `I2c.NobodyAnswers` | AF mcu2  udp http air code/Drive/i2c_bit_ops.c:251-337 | If nobody is there, the address is tried as often as allowed and the transfer returns -8 |
| `I2c.LastByteRefused` | AF mcu2  udp http air code/Drive/i2c_bit_ops.c:210-249 | Of the bytes read exactly the last is not acknowledged |
| `I2c.WrittenBytes` | AF mcu2  udp http air code/Drive/i2c_bit_ops.c:158-189 | Bytes that all went over appear on the wire exactly and in order |
| `I2c.ByteHeard` | AF mcu2  udp http air code/Drive/i2c_bit_ops.c:104-127 | Nine clocks are heard as the byte, most significant bit first, and its acknowledgement |
| `I2c.ValueOfBits` | AF mcu2  udp http air code/Drive/i2c_bit_ops.c:110-121 | The bits of a byte, most significant first, give the byte back |
| `I2c.MostSignificantFirst` | AF mcu2  udp http air code/Drive/i2c_bit_ops.c:110-121 | The first bit of a byte counts 128 and the last 1 |
| `I2c.BitBus.Xfer` | AF mcu2  udp http air code/Drive/i2c_bit_ops.c:343-424 | Driving the lines level by level produces exactly the symbols of the transfer's events, and the same result code; every buffer holds in the end what the messages in turn leave in it, also when messages share one, and the bus is idle again |
| `I2c.BitBus.WriteByte` | AF mcu2  udp http air code/Drive/i2c_bit_ops.c:104-127 | Eight data clocks and a released clock in which the slave answers |
| `I2c.BitBus.ReadByte` | AF mcu2  udp http air code/Drive/i2c_bit_ops.c:129-156 | Eight clocks with SDA released; the result is what the slave drove |
| `I2c.BitBus.SendBytes` | AF mcu2  udp http air code/Drive/i2c_bit_ops.c:158-189 | All bytes, or up to the first refused one |
| `I2c.BitBus.RecvBytes` | AF mcu2  udp http air code/Drive/i2c_bit_ops.c:210-249 | The buffer receives what the slave drove; every byte but the last is acknowledged |
| `I2c.BitBus.SendAddress` | AF mcu2  udp http air code/Drive/i2c_bit_ops.c:251-276 | An address is tried again behind STOP and START until it is acknowledged or the tries are used up |
| `I2c.BitBus.SendMessageAddress` | AF mcu2  udp http air code/Drive/i2c_bit_ops.c:278-341 | Seven-bit and ten-bit addressing, with the repeated START before reading |

## Left out

- Finsh: the character lexer, casts (a parenthesis where an operand is expected is reported as an error by the model's
  parser), declarations and empty statements; lines are token lists with symbols already resolved by a table.
- Finsh: byte and word operations of the machine, whose union slots keep stale upper bytes, and increments of system
  variables, which the compiler takes for shell variables; the theorems are about the 32-bit fragment.
- Finsh: string literals carry the address the heap would return; the heap calls of the parser are not connected.
- FinshParser.AssignedAccepts: says nothing of casts, which the model's grammar does not have.
- FinshParserTable.Parser.Unary: a cast is an error here.
- FinshParserTable.Parser.Run: declarations and empty statements are errors here.
- FinshVm.Vm.Execute: only the operations of the 32-bit fragment, not the byte and word operations.
- FinshHeap.AllocationKeepsInv: when a wrapped size finds a block, only the loss of the invariant is stated, not which bytes
  outside the heap the firmware then clears.
- FinshHeapStore.HeapStore.Allocate: the wrapped sizes that find a block are excluded, since clearing the
  block leaves the array.
- FinshVm.Vm.OpCall: the sixteen arguments a system call may take and its result are modelled by one function parameter on
  argument lists and memory.
- MavChannel.Channel.FrameChar: the counters of the receive statistics and the copy of the record into the caller's
  message are not modelled; the delivered message is the channel's own record.
- MavChannel.Channel.ChecksumLow: the message table is a map; the bisection is proved separately and equals the map for ids
  not above the last entry.
- MAVLink: SHA-256 is an abstract function of 6-byte results; the convenience senders that write to a UART, the bit-field
  packer and the generated message packers are left out.
- Calendar: `localtime_r`, the text formats, and months below 0 or equal to 12, for which `mktime` indexes outside its table.
- Ymodem: the sender's loop, the number parsing of the file header (a parameter) and the writer of the first
  microcontroller (its answers are a parameter).
- Ymodem.Receiver.Receive: the two nested loops of the source are one loop whose counter is reset at the end of a file.
- I2c.BitBus.SclHigh: the clock line is assumed to follow, so the time-out of clock stretching does not occur.
- I2c.TransferIsHeard: the only-if half is about transfers with an acknowledge clock for every byte; of reads without,
  those directly before a repeated START or STOP are decided, not those with more bytes of another message behind them.
- Drivers, the kernel, DMA rings, upgrade threads, the web server and the user interface.
