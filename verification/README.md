# A verified model of the eBPF switch

The repository is a software switch that runs eBPF programs on packets, under a central controller. This
project models its hard parts in Dafny and proves that they do what they are for:

- **The eBPF virtual machine** (`ubpf/`). The load-time checker, the interpreter and the x86-64 compiler. The
  compiler is modelled down to the bytes it emits and patches in place; an independent decoder and machine
  semantics for the emitted subset of x86-64 run those bytes. The result is an end-to-end theorem: called as
  a C function, the compiled code returns what the interpreter returns, with the same memory and all
  callee-saved registers restored, for every run inside an explicit guard, keeps running as long as the
  interpreter does, and crashes where it divides by zero; and the guard is exact, instruction by instruction.
- **The hash maps** (`bpfmap/`). Entries linked into a bucket chain and an age list at once, with reordering
  heuristics, bounded buckets and rehashing, relinked on the heap as the C code does it and proved to refine a
  map with an insertion order; over whole histories a bounded bucket is a least-recently-used cache until the
  table grows, and the settings under which that order survives every history are determined exactly. On top
  of it the updatable map with its cached iteration cursor, without leaks or dangling pointers.
- **The protocols**. Message framing over arbitrary chunks, table listings from agent to client, the
  centralised learning switch as a state machine of controller, channels and switches, map names across
  installs with relocation, and the transmit ring shared with the kernel.
- **Two arithmetic cores**. The table-driven CRC against the bit-serial register of IEEE 802.3, and the
  fixed-point moving average.

## Layout

| files | part |
|---|---|
| `Words`, `Memory`, `Wrappers` | fixed-width words, bitwise operations, little-endian bytes, byte memory, optional values |
| `Opcodes`, `Ebpf`, `Interp`, `Executor`, `Safety` | opcode bytes, instruction set, checker, interpreter (steps and loop), safety of runs |
| `X86`, `Machine`, `Encoding` | decoder, machine semantics, the emitted byte strings and their round trip |
| `Jit`, `Emitter`, `Translator`, `Resolver`, `Layout`, `Disassembly`, `RegisterMap` | the compiler: what it emits, how it emits and patches it, where everything lands |
| `JitSem`, `Simulation`, `MulDivSim`, `SlotSim`, `CallMaps`, `CodeRun`, `Abi`, `Compile` | the emitted code simulates the program |
| `Agreement`, `Equivalence`, `EndToEnd` | when compiled code and interpreter agree, and the end-to-end theorems |
| `TableSpec`, `TableLaws`, `TableHistory` | the hash table on values: operations, map laws, histories |
| `HashTable`, `CacheRuns` | the linked structure on the heap |
| `Cursor`, `Htab`, `Listing` | iteration, the map of elements, table listings |
| `Framing`, `Learning`, `TxRing`, `Packets` | the protocols |
| `Loader`, `Relocation` | names, maps and relocations, and what the relocated program loads and calls |
| `Crc`, `Ewma` | the arithmetic |

Two conventions recur. `{:induction false}` is on every lemma, so that each proof is the one written down; and
`hide` at the head of a proof names the definitions it does not need. Code that updates things in place is a
method over arrays or objects, tied by its postcondition to a function on values; the theorems are about that
function.

Where code and comments disagree, the code is modelled: the division check of `muldivmod` and the
final-EXIT check of `validate` are commented out and therefore absent, although the division handler and the
error messages around them are still there.

## Model

| member | source | states |
|---|---|---|
| Ebpf.Validate | ubpf/ubpf_vm.c:529-701 | the scan accepts exactly the programs that satisfy the load-time rules at every slot that is not the second half of an lddw |
| Ebpf.StackStoreAccepted | ubpf/ubpf_vm.c:608-621 | every store through r10, of any opcode, source, offset and immediate, is accepted |
| Ebpf.Sums32 | ubpf/ebpf.h:55-62 | the opcode bytes of 32-bit addition, subtraction, multiplication and division |
| Ebpf.Logic32 | ubpf/ebpf.h:63-70 | the opcode bytes of 32-bit or, and, and shifts |
| Ebpf.Moves32 | ubpf/ebpf.h:71-81 | the opcode bytes of 32-bit negation, remainder, exclusive or, moves, arithmetic shifts and of the byte swaps |
| Ebpf.Sums64 | ubpf/ebpf.h:83-90 | the same for 64 bits |
| Ebpf.Logic64 | ubpf/ebpf.h:91-98 | the same for 64 bits |
| Ebpf.Moves64 | ubpf/ebpf.h:99-107 | the same for 64 bits |
| Ebpf.MemoryOpcodes | ubpf/ebpf.h:109-121 | the opcode bytes of loads, stores and lddw |
| Ebpf.UnsignedBranches | ubpf/ebpf.h:123-129 | the opcode bytes of JA and of the equality and unsigned comparisons |
| Ebpf.OtherBranches | ubpf/ebpf.h:130-139 | the opcode bytes of the other branches, CALL and EXIT |
| Ebpf.ZeroOpcodeIsTail | ubpf/ubpf_vm.c:640-646 | in an accepted program the opcode-0 slots are exactly the second halves of lddw pairs |
| Executor.UbpfExec | ubpf/ubpf_vm.c:141-527 | the loop over reg[], pc and memory computes the run of the step semantics, for every program and every number of turns |
| Executor.ExecTurn | ubpf/ubpf_vm.c:161-526 | one turn of the loop (fetch with pc++, switch, bounds checks, error returns) is one step |
| Executor.StartIs | ubpf/ubpf_vm.c:144-155 | r1 is the context pointer, r10 the end of the stack, the pc 0, everything else untouched |
| Relocation.LddwLoads | ubpf/ubpf_vm.c:443-446 | an lddw leaves the four bytes of its immediate followed by the four bytes of the next slot, changes nothing else and continues after both |
| Safety.StepSafe | ubpf/ubpf_vm.c:529-701 | a step of an accepted program keeps the pc on instructions and leaves r10 alone |
| Safety.BoundsExact | ubpf/ubpf_vm.c:703-718 | an access is let through if and only if all its bytes lie in the context buffer, which is there, or all of them on the stack |
| Safety.RunSafe | ubpf/ubpf_vm.c:141-527 | if the last instruction cannot run off the end, in every reachable state the pc is inside the program and not on an lddw tail, r10 is unchanged, and memory changed only in the context buffer, the stack and what helpers may touch |
| Safety.ForwardHalts | ubpf/ubpf_vm.c:537-540 | without backward branches every run is over within as many steps as slots are left, and one more if the last instruction can run off the end; loads and stores may have any displacement |
| Safety.StaysInsideExactly | ubpf/ubpf_vm.c:537-540 | the exact form of the check that is commented out: the pc stays inside from every start inside if and only if the instruction before the end is EXIT, JA, a shift by an immediate outside the width C defines, a JEQ, JGE or JSGE of a register with itself, or a JGE with 0 |
| Safety.FallsOff | ubpf/ubpf_vm.c:537-540 | an accepted program of one move leaves the text after one step |
| Encoding.DecodeEncode | ubpf/ubpf_jit_x86_64.h:108-335 | every emitted instruction is decoded back exactly: operation, width, registers, displacement (none, 8 or 32 bits, RBP and R13 included) and immediate, whatever follows it |
| Disassembly.DecodeEncodeAll | ubpf/ubpf_jit_x86_64.h:67-335 | the same for any sequence of emitted instructions |
| Disassembly.CompiledDecodes | ubpf/ubpf_jit_x86_64.c:81-423 | the whole compiled code, jumps resolved, decodes to the intended instruction list for every program and every valid register map |
| CodeRun.SlotEncodable | ubpf/ubpf_jit_x86_64.c:35-56 | no operand of any translated instruction needs a SIB byte, because no eBPF register is mapped to RSP or R12 |
| MulDivSim.MulDivModEffect | ubpf/ubpf_jit_x86_64.c:425-486 | for every aliasing of dst and src with RAX and RDX and both widths dst gets the product, quotient or remainder; all other mapped registers and RSP are unchanged, only RCX and the bytes below the stack pointer are clobbered |
| MulDivSim.DivideByZeroFaults | ubpf/ubpf_jit_x86_64.c:433-446 | with the check commented out, a zero used half of the divisor faults |
| RegisterMap.SetRegisterOffset | ubpf/ubpf_jit_x86_64.c:58-79 | rotation or shuffle in place: the result is the specified arrangement, a permutation of the old map, and a usable map stays usable |
| RegisterMap.PermutationValid | ubpf/ubpf_jit_x86_64.c:36-56 | any rearrangement of a usable map is usable: distinct registers, none of RCX, RSP, R10, R11, R12 |
| RegisterMap.RotatedTwice | ubpf/ubpf_jit_x86_64.c:64-69 | offsets add up, and eleven of them is none |
| RegisterMap.RotatedByOne | ubpf/ubpf_jit_x86_64.c:64-69 | an offset of one moves every entry one place down and the first to the end |
| RegisterMap.ShuffleReachesAll | ubpf/ubpf_jit_x86_64.c:70-78 | every arrangement of the registers is the result of some draws |
| RegisterMap.DefaultValid | ubpf/ubpf_jit_x86_64.c:36-48 | the initial map is usable |
| SlotSim.SlotStepValid | ubpf/ubpf_jit_x86_64.c:105-391 | the code of any slot of an accepted program, run from a related state, ends in a related state at the right jump decision; after CALL only r0 and r6-r10 stay related |
| SlotSim.CallSim | ubpf/ubpf_jit_x86_64.c:330-334 | CALL of a registered helper works under every register map with r0 in RAX, the arguments it takes in RDI, RSI, RDX, R9, R8, and r6 to r10 in callee-saved registers in any order |
| CallMaps.OtherMapsFail | ubpf/ubpf_jit_x86_64.c:330-334 | under every other usable map some call of that many arguments gives r0 or one of r6 to r10 a wrong value: the condition on the map is exact |
| CallMaps.FirstSixDecide | ubpf/ubpf_jit_x86_64.c:36-48 | for five arguments the condition is that r0 to r5 are where the initial map has them |
| Compile.MachineFollows | ubpf/ubpf_jit_x86_64.c:81-423 | one eBPF step is some number of machine steps (none for LE) from the location of the instruction to the location of the next one |
| Abi.Entered | ubpf/ubpf_jit_x86_64.c:84-101 | called as a C function with the context pointer in RDI, the prologue establishes the relation with r1 and r10 set and the callee-saved registers on the stack |
| Abi.EntryExists | ubpf/ubpf_jit_x86_64.c:84-101 | every stack with room and every context pointer is an entry state |
| Abi.Leaves | ubpf/ubpf_jit_x86_64.c:393-410 | the epilogue returns r0 in RAX, with the stack pointer and the callee-saved registers restored |
| Abi.AbiKept | ubpf/ubpf_jit_x86_64.c:393-410 | to its caller the compiled function looks like a C function: every preserved register, the stack pointer, the return address, the result |
| Abi.HandlerEffect | ubpf/ubpf_jit_x86_64.c:412-420 | the division handler, if it were reached, calls fprintf with stderr, the format and RCX, and returns -1 through the exit |
| Compile.CompiledCodeRuns | ubpf/ubpf_jit_x86_64.c:81-423 | whole runs: the compiled bytes, entered as a function, return what the program computes and leave its memory; the register map must suit the calls the program makes |
| Compile.CompiledCodeFollows | ubpf/ubpf_jit_x86_64.c:81-423 | while the program runs the compiled bytes run along: after any number of steps the machine is at the code of the next instruction, in a related state |
| Compile.CompiledCodeRunsForever | ubpf/ubpf_jit_x86_64.c:81-423 | if the program never ends the compiled bytes neither return nor fault, ever |
| Agreement.AluExact | ubpf/ubpf_vm.c:162-381 | for every ALU operation the interpreter and the emitted instructions give the same value if and only if the guard holds, wherever C defines the value and the multiplication or division operand is the selected one: a 32-bit register MOV needs a source below 2^32, a 32-bit LSH by 32..63 needs the surviving bits to be zero, a register divisor must not be zero |
| Words.OrAndXor | ubpf/ubpf_vm.c:198-252 | or, and and exclusive or are determined by the sum of their operands |
| Agreement.WrongOperandDiverges | ubpf/ubpf_jit_x86_64.c:454-458 | when the immediate field does not match the operand bit, register values are given on which the two differ |
| Agreement.ZeroDivisorFaults | ubpf/ubpf_vm.c:187-194 | a register divisor whose used half is zero makes the compiled code fault, where the interpreter reports an error (whole register zero) or divides by zero |
| Agreement.EndianExact | ubpf/ubpf_jit_x86_64.c:183-204 | byte swaps agree if and only if they are BE, LE64, or LE16/LE32 of a value that already fits |
| Agreement.JumpExact | ubpf/ubpf_jit_x86_64.h:232-236 | conditional jumps decide alike if and only if it is not a JGT or JGE with a negative immediate and a register between its zero- and its sign-extension |
| Agreement.StepExact | ubpf/ubpf_vm.c:161-526 | for every instruction of an accepted program whose registers are determined, where C defines the step and a multiplication or division operand is the selected one: interpreter and compiled code have the same outcome if and only if the guard holds (memory accesses in bounds included) |
| Agreement.RunRefines | ubpf/ubpf_vm.c:141-527 | along runs whose steps meet the guard the two semantics stay equal, finished or not |
| JitSem.ReadsAtMostOne | ubpf/ubpf_jit_x86_64.c:105-391 | moves, loads, LE, lddw and JA read nothing or their source only; negation, BE and immediate stores their destination only |
| JitSem.ReadsOperands | ubpf/ubpf_jit_x86_64.c:105-391 | nothing but its operands is read by an instruction; a call reads the arguments it declares, EXIT reads r0 |
| Agreement.UnknownReads | ubpf/ubpf_jit_x86_64.c:105-391 | an instruction that reads an undetermined register has no determined result: that part of the guard is needed |
| Equivalence.CompiledMatchesInterpreter | ubpf/ubpf_jit_x86_64.c:512-556 | end to end: for every accepted program that fits the buffer and every finished interpreter run inside the guard, the compiled bytes return the same r0, the same memory and all callee-saved registers |
| EndToEnd.ExecThenCompiled | ubpf/ubpf_vm.c:141-527 | if ubpf_exec, started as the source starts it, returns a value and the run meets the guard, the compiled bytes called with the same context pointer return that value and leave that memory |
| Equivalence.CompiledKeepsUp | ubpf/ubpf_jit_x86_64.c:512-556 | as long as the interpreter runs inside the guard the compiled bytes neither return nor fault: they are at the next instruction, with the same memory and the same content in every register that is determined |
| Equivalence.ZeroDivisorCrashes | ubpf/ubpf_jit_x86_64.c:433-446 | division by zero: a run inside the guard that reaches a register DIV or MOD whose used divisor half is zero crashes the compiled bytes, where the interpreter reports an error or divides by zero |
| Equivalence.CompiledRunsForever | ubpf/ubpf_jit_x86_64.c:512-556 | an interpreter run that never ends, inside the guard, is a machine run that never ends |
| Emitter.JitState.EmitBytes | ubpf/ubpf_jit_x86_64.h:67-73 | appends exactly the given bytes to the buffer and changes nothing else |
| Emitter.JitState.EmitJumpOffset | ubpf/ubpf_jit_x86_64.h:99-106 | records the hole and its target and appends four zero bytes |
| Translator.EmitMulDivMod | ubpf/ubpf_jit_x86_64.c:425-486 | the imperative template appends the encoding of the instruction list the effect theorem is about |
| Translator.EmitSlot | ubpf/ubpf_jit_x86_64.c:105-391 | the body of the switch appends the slot with an open hole and leaves its jump record |
| Translator.TranslateProgram | ubpf/ubpf_jit_x86_64.c:81-391 | after the loop the buffer holds all slots with open holes, the jump records are theirs, pc_locs has the location of every instruction; it fails exactly on an unknown opcode |
| Translator.Finish | ubpf/ubpf_jit_x86_64.c:393-420 | epilogue and division handler follow, with their locations recorded |
| Resolver.ResolveJumps | ubpf/ubpf_jit_x86_64.c:488-510 | patching in place leaves exactly the resolved code |
| Resolver.TargetsOk | ubpf/ubpf_jit_x86_64.c:488-503 | every recorded target of an accepted program is the epilogue, the handler or an instruction, never an lddw tail |
| Resolver.CompileProgram | ubpf/ubpf_jit_x86_64.c:512-556 | ubpf_compile of a VM without compiled code yields exactly the code the theorems are about |
| Layout.JumpsLand | ubpf/ubpf_jit_x86_64.c:505-509 | in the finished code every displacement leads exactly to the start of its target |
| Layout.OnlyHolesChange | ubpf/ubpf_jit_x86_64.c:505-509 | resolving changes no byte outside the holes |
| Layout.HolesApart | ubpf/ubpf_jit_x86_64.h:99-106 | the holes of different jumps are disjoint |
| Layout.JumpCount | ubpf/ubpf_jit_x86_64.c:520-521 | there are at most num_insts + 1 jumps, so the jump array is never overrun |
| Layout.SlotBound | ubpf/ubpf_jit_x86_64.c:105-391 | no instruction needs more than 22 bytes |
| Layout.ShortProgramsFit | ubpf/ubpf_jit_x86_64.h:67-73 | the assertion of emit_bytes cannot fail for programs of up to 2974 instructions |
| Layout.LongProgramOverflows | ubpf/ubpf_jit_x86_64.c:519-521 | an accepted program of 2975 instructions is one byte too long wherever r0 and r1 are not in RAX and RDI and the linked addresses are beyond 2^31 |
| Layout.BoundExact | ubpf/ubpf_jit_x86_64.c:519-521 | all accepted programs of n instructions fit if and only if the frame and n times 22 bytes do |
| Layout.InitialMapBound | ubpf/ubpf_jit_x86_64.c:519-521 | under the initial map 2975 instructions always fit and 2976 divisions never do, wherever the linked addresses are |
| TableSpec.BucketIsMod | bpfmap/libghthash/hash_table.c:312-318 | hash & mask is hash mod size |
| TableSpec.TouchedKeeps | bpfmap/libghthash/hash_table.c:57-124 | either heuristic only reorders a chain |
| TableSpec.TouchedMoves | bpfmap/libghthash/hash_table.c:57-124 | transposing exchanges the entry with its predecessor, moving to the front shifts those before it, everything else stays |
| TableSpec.InsertWellFormed | bpfmap/libghthash/hash_table.c:409-493 | insertion, with eviction and with a rehash in the middle, keeps every key in exactly one place of the right bucket |
| TableSpec.RehashKeeps | bpfmap/libghthash/hash_table.c:707-770 | rehashing to any size, also in the middle of an insertion, keeps the entries in order up to the first null data pointer; it keeps the table if and only if no entry holds null |
| TableLaws.InsertIsAdd | bpfmap/libghthash/hash_table.c:409-493 | as a finite map: a new key is bound at the price of a full bucket's last entry, a present key changes nothing; a rehash on the way goes unnoticed exactly if no data pointer is null |
| TableLaws.SearchIsLookup | bpfmap/libghthash/hash_table.c:495-518 | as a finite map: a lookup returns the bound pointer or null and changes nothing but the order of a chain |
| TableLaws.ReplaceIsUpdate | bpfmap/libghthash/hash_table.c:520-549 | as a finite map: replace updates a present key only, and keeps the order |
| TableLaws.RemoveIsDelete | bpfmap/libghthash/hash_table.c:553-593 | as a finite map: remove deletes the key, and closes the gap in the order |
| TableLaws.CountsAddUp | bpfmap/libghthash/hash_table.c:459-467 | i_items is the sum of the chain lengths |
| TableHistory.ChainsAreByRecency | bpfmap/libghthash/hash_table.c:97-124 | with move-to-front, after any history in which the table did not grow, each chain is in order of last successful touch |
| TableHistory.EvictsLeastRecent | bpfmap/libghthash/hash_table.c:439-458 | as long as the table has not grown, the entry a full bucket gives up is the least recently touched one of that bucket |
| TableHistory.RecencyKeptExactly | bpfmap/libghthash/hash_table.c:430-437 | under move-to-front every history keeps every chain in order of last touch if and only if automatic rehashing is off or buckets are limited to one or two entries, whatever the hash function |
| TableHistory.EvictsMostRecent | bpfmap/libghthash/hash_table.c:430-458 | the failing input: a table that grows gives up the entry touched last |
| TableHistory.ChainsInInsertionOrder | bpfmap/libghthash/hash_table.c:430-437 | without a heuristic chains are in insertion order after any history, rehashes included |
| TableHistory.EvictsOldest | bpfmap/libghthash/hash_table.c:409-493 | without a heuristic an insertion into a full bucket removes that bucket's oldest entry, in the table as it is after growing if it grows, and nothing else |
| TableHistory.LimitHolds | bpfmap/libghthash/hash_table.c:384-394 | a bounded bucket never holds more than the limit, however often the table grows |
| HashTable.Table.Transpose | bpfmap/libghthash/hash_table.c:57-94 | relinking one entry up leaves a well-linked chain in the transposed order |
| HashTable.Table.MoveToFront | bpfmap/libghthash/hash_table.c:97-124 | relinking an entry to the front leaves a well-linked chain in that order |
| HashTable.Table.RemoveFromChain | bpfmap/libghthash/hash_table.c:126-157 | unlinking leaves both lists well linked without the entry |
| HashTable.Table.SearchInBucket | bpfmap/libghthash/hash_table.c:159-188 | finds the entry exactly if its key is in the chain, and reorders as the heuristic says |
| HashTable.Table.constructor | bpfmap/libghthash/hash_table.c:300-357 | a new table has the least power of two of buckets that is large enough, all empty |
| HashTable.Table.Insert | bpfmap/libghthash/hash_table.c:409-493 | both lists, counters and arrays afterwards are those of the specified insertion; -1 exactly for a present key |
| HashTable.Table.Get | bpfmap/libghthash/hash_table.c:496-517 | returns the bound data or null; only chain order may change |
| HashTable.Table.Replace | bpfmap/libghthash/hash_table.c:520-549 | returns the old data and updates in place |
| HashTable.Table.Remove | bpfmap/libghthash/hash_table.c:553-593 | returns the data and takes the entry off both lists |
| HashTable.Table.Rehash | bpfmap/libghthash/hash_table.c:707-770 | the table taken over holds what the specified rehash holds, in new memory |
| CacheRuns.PlayOut | bpfmap/libghthash/hash_table.c:409-593 | any history played on the linked structure ends as the history specification says |
| Htab.Htab.LookupElem | bpfmap/hashtab.c:77-88 | the value last stored for the key, or none |
| Htab.Htab.UpdateElem | bpfmap/hashtab.c:90-115 | the entry becomes the newest; no element leaks and none is used after it was freed |
| Htab.Htab.DeleteElem | bpfmap/hashtab.c:117-130 | removes and frees the entry; -1 exactly for an absent key |
| Htab.Htab.GetNextKey | bpfmap/hashtab.c:148-181 | from the cached cursor or by a search from the oldest entry the answer is the key after the given one, or the first if it is absent; -1 clears the cursor; key and next_key may alias |
| Htab.Htab.First | bpfmap/libghthash/hash_table.c:595-619 | the iterator stands on the oldest entry, or on none in an empty table |
| Htab.Htab.Next | bpfmap/libghthash/hash_table.c:634-662 | the iterator moves to the next newer entry, or off the last one |
| Cursor.VisitsAll | bpfmap/hashtab.c:148-181 | calls started from an absent key visit every key exactly once, in order, and then end |
| Listing.TableListItems | agent/agent.c:213-231 | the packed buffer holds the entries behind the all-zero key, in iteration order, and the cursor is left cleared |
| Listing.TableListReply | controller/cli.py:154-161 | unpacking recovers the packed entries |
| Listing.ListTable | agent/agent.c:180-251 | agent and client together show the map's entries, each once; all of them if and only if the all-zero key is not in the map |
| Listing.CompleteWithoutZero | agent/agent.c:219-222 | the zeroed buffer is the first key of the walk: a listing is complete exactly if that key is not an entry |
| Framing.ChunkingInvariant | controller/core/protocol.py:86-92 | however the stream is cut into dataReceived calls, the same messages are handled and the same bytes stay pending |
| Framing.SentIsHandled | controller/core/protocol.py:47-104 | the handlers see exactly the messages written by send, in order, empty payloads included; what is pending is exactly the unconsumed rest |
| Framing.Connection.DataReceived | controller/core/protocol.py:86-92 | the loop over buffer and header reads everything that is complete and keeps the rest |
| Framing.Deliver | controller/core/protocol.py:41-104 | a connection that received all pieces of a stream has handled its messages and has nothing pending |
| Framing.ParsePack | protocol/Header.proto:26-27 | the fixed ten bytes of a header parse back |
| Framing.ParsesExactly | controller/core/protocol.py:56-59 | ten bytes are a header if and only if they are its two tagged little-endian fields, in either order |
| Framing.SendableExactly | controller/core/protocol.py:97-103 | a payload can be sent exactly if its length is what the length field says |
| Learning.SimpleSwitch.PacketIn | controller/simpleswitch.py:16-35 | packet_in records the source, sends the insert before the packet, and chooses the port |
| Learning.SimpleSwitch.HelloFrom | controller/simpleswitch.py:8-14 | HELLO forgets everything and requests an install |
| Learning.AlwaysFollows | controller/simpleswitch.py:8-35 | in every reachable state every address the controller knows at a live switch is in its table once the messages in flight are applied in order |
| Learning.AnythingHappens | controller/simpleswitch.py:9-38 | nothing is assumed about the order of events: any switch may connect, send a packet or be lost at any time |
| Learning.KnowsLastSeen | controller/simpleswitch.py:25-28 | the controller knows exactly the port a source was last seen at since the last HELLO |
| Learning.ForwardsLocally | examples/learningswitch_centralized.c:11-27 | a switch that has handled everything forwards between known addresses itself, to the port the controller would have chosen |
| Learning.UnknownIsTold | examples/learningswitch_centralized.c:16-25 | a packet goes to the controller if and only if its source or destination is not in the table, for tables that do not store the controller as a port; otherwise to the port of its destination |
| Learning.LearnsSource | controller/simpleswitch.py:28-31 | after a packet reached the controller and the messages in flight arrived, its unicast source is in the switch table at its port |
| Learning.ControllerSends | controller/simpleswitch.py:33-38 | the controller sends the packet out where its destination was last seen, and floods it if it was not or is a group |
| Learning.InstallArrives | controller/simpleswitch.py:9-14 | an install gives a switch without a table an empty one and leaves an existing one alone; entries sent before it are lost |
| Packets.GroupIsLowBit | controller/simpleswitch.py:28-33 | the group test is the low bit of the first byte |
| Learning.Drains | agent/agent.c:531-560 | handling what is in flight is always possible and changes nothing the controller knows |
| Loader.InstallsKeep | ubpf/ubpf_loader.c:167-213 | over any sequence of installs, successful or not, names keep their fds, different names have different fds, and none gets the fd of the table of names |
| Loader.Machine.CreateMap | bpfmap/bpfmap.c:32-64 | hands out the first free fd, or -1 |
| Loader.FdExactly | bpfmap/bpfmap.c:32-64 | a map gets an fd if and only if its definition is sound and one of the 64 slots is free; it is the first free one |
| Loader.ExampleTables | examples/learningswitch_centralized.c:5-10 | the tables of the example programs get an fd as long as a slot is free |
| Loader.Machine.BindMaps | ubpf/ubpf_loader.c:180-211 | creates maps for new names only, up to the first that cannot be allocated |
| Loader.BindAllExactly | ubpf/ubpf_loader.c:167-212 | the symbols are bound if and only if every one that introduces a name has a sound definition and the new names are no more than the free slots |
| Loader.SharedExactly | ubpf/ubpf_loader.c:183-193 | two symbols share a map if and only if their names agree up to the first zero or in 31 characters |
| Loader.Machine.Relocate | ubpf/ubpf_loader.c:241-319 | patches the text copy as specified, or fails |
| Loader.MapSlotsBound | ubpf/ubpf_loader.c:277-301 | a map relocation changes only src and imm of its slot, to the fd bound to its name |
| Relocation.MapLoads | ubpf/ubpf_loader.c:296-319 | a relocated map reference loads exactly the fd bound to its name |
| Relocation.StringLoads | ubpf/ubpf_loader.c:321-339 | a relocated string reference loads exactly the address |
| Relocation.CallRuns | ubpf/ubpf_loader.c:341-349 | a relocated call runs the function registered under its name |
| Relocation.RelocateExactly | ubpf/ubpf_loader.c:270-357 | the relocations succeed if and only if each of them applies to the text as it was loaded: an lddw and a bound name, an lddw with a second slot, or a registered function |
| Loader.OnlyNamedSlots | ubpf/ubpf_loader.c:241-319 | no other slot changes |
| Loader.LoadElf | ubpf/ubpf_loader.c:69-366 | one load: names and text as specified |
| TxRing.Ring.TxFrame | softswitch/main.c:220-254 | the frame is appended to the queue; -1 exactly if every slot is pending, and then nothing changes |
| TxRing.Interleave | softswitch/main.c:209-254 | however switch and kernel interleave, what was sent is the beginning of what was accepted, and at most a ring of frames is in between |
| TxRing.Flood | softswitch/main.c:335-341 | the frame is offered once to every port but the one it came from |
| TxRing.OpenPorts | softswitch/main.c:102-185 | the ports start with separate, empty rings |
| TxRing.Transmit | softswitch/main.c:330-370 | flood, controller, drop or one port |
| Crc.TableIsShift8 | bpfmap/libghthash/hash_functions.c:30-64 | every one of the 256 table entries is its index shifted eight times through the register |
| Crc.TableStep | bpfmap/libghthash/hash_functions.c:106-107 | a table-driven update is eight shifts after the byte entered |
| Crc.CrcHash | bpfmap/libghthash/hash_functions.c:96-109 | for every byte string the table-driven loop yields the bit-at-a-time checksum |
| Crc.Residue | bpfmap/libghthash/hash_functions.c:96-110 | the checksum of a message followed by its own checksum is the same for every message, and that of the empty message is zero |
| Ewma.PredictExact | examples/ewma.c:39 | the 64-bit expression is floor((volume + 7 * prediction) / 8) if and only if that weighted sum fits in 64 bits, even when the shift wraps |
| Ewma.NothingLost | examples/ewma.c:28-48 | the volumes of the closed windows and the open one add up to what arrived |
| Ewma.WindowSpans | examples/ewma.c:31-44 | the open window never reaches back more than five seconds and every closed one took at least six |
| Ewma.StaysBounded | examples/ewma.c:34-48 | what bounds the start and every window bounds every prediction |
| Ewma.Settles | examples/ewma.c:34-48 | under constant traffic predictions move one way and settle, on the volume from above, at most seven short of it from below, after at most |start - volume| windows and never more than 318 |
| Ewma.GapShrinks | examples/ewma.c:34-48 | after n windows of constant traffic at most (7/8)^n of the gap is left, and from below seven more |
| Ewma.Watch | examples/ewma.c:28-48 | the in-place statistics follow the recurrence over the windows that closed, for any traffic |
| Ewma.Monitor.Prog | examples/ewma.c:28-71 | the whole program: accounting, learning and the returned port; the statistics of other ports stay as they are |

## Left out

- `Executor.UbpfExec`: takes a number of turns, because a program may loop for ever; it computes the run of every finite length.
- Addresses are compared as mathematical integers: a bounds check whose address plus size passes 2^64 is not modelled as wrapping.
- Behaviour C leaves undefined (shifts by the operand width or more, a pc outside the program, a division whose used divisor half is zero in the interpreter) is the outcome Undefined, about which nothing is claimed.
- `RegisterMap.SetRegisterOffset`: the offset is not negative, since a negative one would index in front of the map; the draws of rand_r are inputs.
- Helper functions reached by CALL are a parameter: they see the index, the arguments they declare and the memory, and may change memory. Under register maps that do not suit a call the compiled call is wrong (`CallMaps.OtherMapsFail`), so programs that make it are outside the simulation there.
- `Equivalence.CompiledMatchesInterpreter`: the compiled function's stack is taken to lie where the interpreter has its own, so that stack addresses are equal numbers.
- x86 flags are modelled only after comparisons and tests, the only places the emitted code reads them from.
- Allocating, mapping and protecting the code pages, and the reuse of an earlier compilation by a second ubpf_compile; the compile theorems are about a VM without compiled code. The division handler's call of fprintf is emitted but no live branch reaches it.
- ubpf_load freeing the old program before it validates the new one.
- Table sizes above 2^30, where the size computation of ght_create overflows, and failing allocations.
- `TableSpec.RehashKeeps`: is about entries without a null data pointer where it claims that nothing is lost; the code stops its walk at a null pointer, and the lemma says so.
- `TableHistory.ChainsAreByRecency`: is about histories in which the table does not grow, because a rehash reinserts in insertion order; `TableHistory.RecencyKeptExactly` says which tables never do.
- The bucket-eviction callback re-entering the table.
- max_entries and the BPF_NOEXIST and BPF_EXIST flags, which hashtab.c does not enforce.
- `Htab.Htab.GetNextKey`: requires the cursor to be as an earlier call left it; the code does not maintain it across updates and deletions.
- `Listing.TableListItems`: HASH tables of at most max_entries entries, since the buffer has room for no more. The ARRAY branch is not modelled.
- `Framing.ParseHeader`: ten bytes that are not a header leave it uninitialised; the exception the Protobuf library may raise instead is not modelled. Message bodies are opaque.
- The agent's receive loop keeps no partial frame between calls, so the learning protocol assumes whole messages on its FIFO connections, and installs that succeed.
- `Loader.Machine.Relocate`: relocation offsets are whole instructions, and a string relocation has a second slot; the code checks neither. Parsing of the ELF sections is not modelled: their symbols and relocations are inputs.
- The kernel's side of the transmit ring takes up and finishes frames in ring order; frames it rejects are not modelled.
- `TxRing.Transmit`: the port is one that exists, as the code assumes; the flush that follows a flood changes no ring.
- `Ewma.Monitor.Prog`: the port has statistics (in_port below 24), otherwise the code dereferences a null pointer; the notification to the controller is not modelled.
- Array maps, the one-at-a-time and rotating hashes, the other example programs, the DPDK switch, sockets, threads and the command line, which would add only easy members.
