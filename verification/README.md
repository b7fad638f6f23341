# Tuniq: verified model

A Dafny model of the parts of Tuniq that decide what a confidential predicate run means
and what the chain accepts, with proofs about every input, run and history. It covers:

- **The sBPF virtual machine** (`words`, `isa`, `opcodes`, `alulaws`, `lowhalf`, `memory`,
  `machine`, `vm`). One instruction yields an *effect* that mentions neither the program
  counter nor the call stack nor the text; `Machine.Step` applies it, `Machine.Run` iterates.
  `Interpreter.Vm` is the interpreter in its own form - registers, byte buffers and call
  stack updated in place, syscalls as byte loops - and is proved to refine `Machine.Run`.
- **What every instruction does** (`semantics`, `syscallnames`), stated for one turn of the loop
  by signed values, addresses, bits and bytes rather than by the interpreter's expressions, so
  that each arm is pinned independently of how the model computes it.
- **Whole-run theorems** on it: termination from the call-depth limit (`termination`), call
  bracketing (`calls`), position independence (`relocation`), agreement of the conformance
  host and the zkVM guest (`hostguest`, `entry`).
- **The journal walker** (`journal`, `journalgrammar`): the loop over the word stream equals a
  parser, whose accepted language, errors and inverse encoder are characterised exactly.
- **Coordinator and consumer** (`ledger`, `programs`, `settlement`, `origins`): handlers as
  methods on account fields, refined to a transition system over histories of instructions;
  `origins` tells every account's content and every success by the history alone.
- **Arithmetic and encodings** (`negate`, `imageid`): the G1 negation and the image-id forms.

Machine words are bounded integers and every wrap, truncation and sign extension is written
out. `usize` is 64 bits. A Rust panic is an outcome of its own (`Panic`). `Build` selects the
syscall implementation and whether arithmetic overflow panics; the latter matters to negation
only, because an address sum that would overflow panics in either build
(`FlatMemory.ResolveIsSameInBothBuilds`) and the syscall loops' sums never overflow.

## Where the code does not do what one would expect

Each of these is modelled as written, with the exact condition under which the expected
behaviour holds:

- LDDW sign-extends its low word before the OR, so it loads its 64-bit constant if and only if
  the low word's sign bit is clear or the high word is all ones
  (`LowHalf.LongImmediateLoadsConstantIff`).
- Syscalls are documented as dispatched by the MurmurHash3 of their names
  (`m6-interpreter/interpreter/src/lib.rs:432`). That is so for `sol_memset_` only: the hash of
  `sol_panic_` reaches the logging arm, and the hashes of the other four names are unknown to
  the dispatcher, so such calls do nothing (`SyscallNames.SyscallByName`).
- neg32 and arsh32 sign-extend, unlike every other 32-bit operation (`LowHalf.ZeroExtendsIff`).
- The guest's memcpy reads bytes it has just written. It equals the host's if and only if the
  copy does not feed back (`FlatMemory.CopyEqualsSnapshotIff`), and this together with negating
  the least integer under different overflow checking is all that can make host and guest runs
  differ (`HostGuest.BuildsAgreeIff`).
- Multi-byte accesses agree with byte accesses if and only if the regions do not interleave,
  which a stack longer than 2^33 bytes breaks (`FlatMemory.CoherentIff`).
- EXIT restores r1 to r10, not r6 to r9 as the comment at
  `m6-interpreter/interpreter/src/lib.rs:416` says (`Calls.CallReturns`).
- An image-id word may begin with '+'; re-encoding reproduces the input if and only if none
  does (`ImageId.HexReproducedIff`). The client ignores what follows 64 characters
  (`ImageId.ClientAgreesWithProver`).
- Negating a point with y = 0 gives y = Q, not 0 (`Negate.NegationStaysOnCurve`).

## Model

| member | source | states |
|---|---|---|
| Words.MaskIsMod | m6-interpreter/interpreter/src/lib.rs:144-148 | masking with 2^k - 1 is the remainder modulo 2^k, which justifies modelling the field masks and shift-amount masks as remainders |
| Words.BitwiseBit | m6-interpreter/interpreter/src/lib.rs:257-272 | the bitwise operators act on each bit position separately |
| Words.LeNatOfLeBytes | m6-interpreter/interpreter/src/lib.rs:94-114 | from_le_bytes undoes to_le_bytes for every value that fits |
| Words.LeBytesOfLeNat | m6-interpreter/interpreter/src/lib.rs:94-114 | to_le_bytes undoes from_le_bytes for every byte string |
| Words.LeBytesAt | m6-interpreter/interpreter/src/lib.rs:103-114 | byte j of a little-endian encoding is base-256 digit j |
| Isa.DecodeBijective | m6-interpreter/interpreter/src/lib.rs:142-150 | decode is a bijection between 64-bit words and field combinations, with the RFC 9669 layout as its inverse |
| Isa.DecodeBytes | m6-interpreter/interpreter/src/lib.rs:142-150 | read from 8 little-endian bytes, the fields are the opcode byte, the two nibbles, the 16-bit offset and the 32-bit immediate |
| Opcodes.AluOpcodesIff | m6-interpreter/interpreter/src/lib.rs:185-290 | the arithmetic opcodes are exactly ISA classes 4 and 7 with codes 0 to 12, minus 32-bit mod and register-form neg |
| Opcodes.ConditionalOpcodesIff | m6-interpreter/interpreter/src/lib.rs:361-393 | the conditional jumps are exactly class 5 without ja, call, exit and unused codes |
| Opcodes.MemoryOpcodesIff | m6-interpreter/interpreter/src/lib.rs:292-356 | loads and stores move exactly the width named by the opcode's size field |
| Opcodes.UnknownOpcodeIff | m6-interpreter/interpreter/src/lib.rs:426 | UnknownOpcode is reported exactly outside the tables |
| Opcodes.FormsAgree | m6-interpreter/interpreter/src/lib.rs:203-393 | immediate and register forms differ in the operand's origin only |
| Opcodes.StoreThenLoad | m6-interpreter/interpreter/src/lib.rs:293-334 | a store and the load of the same width through the same address leave the low bytes, zero-extended |
| AluLaws.SubtractionLaws | m6-interpreter/interpreter/src/lib.rs:202-212 | sub undoes add, sub is add of the negation, neg is an involution, all modulo 2^64 |
| AluLaws.DivisionLaws | m6-interpreter/interpreter/src/lib.rs:221-250 | div and mod fault exactly on zero and otherwise recombine to the dividend |
| AluLaws.PeanoLaws | m6-interpreter/interpreter/src/lib.rs:187-218 | mov copies, adding one is the successor modulo 2^64, and addition and multiplication satisfy their recursions on it |
| AluLaws.XorUndoesXor | m6-interpreter/interpreter/src/lib.rs:269-272 | xor is its own inverse |
| AluLaws.NarrowIsWideOnLows | m6-interpreter/interpreter/src/lib.rs:187-272 | each 32-bit arithmetic, logic or mov opcode is its 64-bit counterpart on the low halves, truncated |
| AluLaws.NarrowShiftsAndNegation | m6-interpreter/interpreter/src/lib.rs:254-290 | the 32-bit shifts and neg32 as 64-bit operations on the low, respectively sign-extended, half |
| AluLaws.LogicBits | m6-interpreter/interpreter/src/lib.rs:257-272 | every bit of or, and, xor |
| AluLaws.LogicalShiftBits | m6-interpreter/interpreter/src/lib.rs:275-284 | every bit of the logical shifts, amount taken modulo 64 |
| AluLaws.ArithmeticShiftBits | m6-interpreter/interpreter/src/lib.rs:287-288 | every bit of the arithmetic shift: moved, or the sign |
| AluLaws.JumpLaws | m6-interpreter/interpreter/src/lib.rs:361-393 | complementary and mirrored jumps; signed order is unsigned order with flipped sign bits (the direction of the order is pinned by JumpsByBits) |
| AluLaws.JumpsByBits | m6-interpreter/interpreter/src/lib.rs:361-378 | jeq is taken exactly when all 64 bits agree, jgt exactly when the destination has the bit at the highest position where the operands differ |
| AluLaws.SignedJumps | m6-interpreter/interpreter/src/lib.rs:382-393 | jsgt: a clear sign bit exceeds a set one; of equal sign the unsigned order decides |
| AluLaws.JumpIfCommonBit | m6-interpreter/interpreter/src/lib.rs:379-381 | jset is taken exactly when the operands share a set bit |
| LowHalf.RespectsLowIff | m6-interpreter/interpreter/src/lib.rs:185-290 | exactly which opcodes map operands that agree modulo 2^32 to results (or faults) that do |
| LowHalf.RunsAgree | m6-interpreter/interpreter/src/lib.rs:174-290 | low-half simulation: two runs of a straight-line program from registers agreeing modulo 2^32 stay in agreement and end alike |
| LowHalf.ZeroExtendsIff | m6-interpreter/interpreter/src/lib.rs:187-290 | when a 32-bit opcode leaves a zero upper half |
| LowHalf.LongImmediateIs | m6-interpreter/interpreter/src/lib.rs:191-200 | the value LDDW assembles: a negative low word swallows the high word |
| LowHalf.LongImmediateLoadsConstantIff | m6-interpreter/interpreter/src/lib.rs:191-200 | exactly when that is the 64-bit constant of the two words |
| FlatMemory.ResolveIsSameInBothBuilds | m6-interpreter/interpreter/src/lib.rs:50-80 | overflow checking does not change how an access resolves |
| FlatMemory.ByteAccess | m6-interpreter/interpreter/src/lib.rs:82-102 | byte reads and writes are lookups and updates of a partial byte map; address 2^64 - 1 panics |
| FlatMemory.ReadComposesBytes | m6-interpreter/interpreter/src/lib.rs:86-97 | a read of any width is accepted exactly inside one region and is the little-endian composition of the bytes |
| FlatMemory.WriteStoresBytes | m6-interpreter/interpreter/src/lib.rs:99-114 | a write is accepted exactly inside one region and changes exactly its bytes |
| FlatMemory.ReadAfterWrite | m6-interpreter/interpreter/src/lib.rs:82-114 | any write followed by any overlapping read of another width gives the spliced bytes |
| FlatMemory.ReadBack | m6-interpreter/interpreter/src/lib.rs:82-114 | reading back at the written width returns the value |
| FlatMemory.CoherentIff | m6-interpreter/interpreter/src/lib.rs:41-80 | wide writes show in byte reads if and only if the two regions do not interleave |
| FlatMemory.OverlappingCopy | m6-interpreter/zkvm-guest/src/main.rs:15-20 | an overlapping forward guest memcpy repeats the first dst - src source bytes |
| FlatMemory.CopyEqualsSnapshotIff | m6-interpreter/zkvm-guest/src/main.rs:15-20 | the in-order copy equals the buffered copy if and only if it does not feed back, for all ranges and regions |
| FlatMemory.DisjointDoesNotFeedBack | m6-interpreter/conformance/src/main.rs:23-26 | disjoint and downward copies do not feed back |
| Machine.MemmoveBytes | m6-interpreter/zkvm-guest/src/main.rs:24-29 | memmove delivers the original bytes, 0 for unmapped sources, and touches nothing else |
| Machine.MemsetBytes | m6-interpreter/zkvm-guest/src/main.rs:21-23 | memset sets exactly the mapped bytes of its range |
| Machine.Exec | m6-interpreter/interpreter/src/lib.rs:183-427 | an instruction jumps, calls or returns only by its own opcode and offset, writes only registers 0 to 10, and never resizes memory (what it computes is stated by the Semantics rows) |
| Machine.MoreFuel | m6-interpreter/interpreter/src/lib.rs:174-181 | a finished run does not depend on the fuel |
| Machine.RunSplits | m6-interpreter/interpreter/src/lib.rs:174-181 | a run is the same in one leg or two |
| Machine.StepKeepsValid | m6-interpreter/interpreter/src/lib.rs:396-424 | one instruction keeps depth at most 64, genuine return addresses and region sizes |
| Machine.RunKeepsValid | m6-interpreter/interpreter/src/lib.rs:174-429 | so does every run, however it ends |
| Semantics.ImmediateActsAsRegister | m6-interpreter/interpreter/src/lib.rs:187-393 | in arithmetic and conditional jumps an immediate acts as a register that holds the same signed 64-bit value |
| Semantics.StoredImmediateActsAsRegister | m6-interpreter/interpreter/src/lib.rs:337-356 | so it does in stores |
| Semantics.ArithmeticStep | m6-interpreter/interpreter/src/lib.rs:185-290 | one step of an arithmetic instruction: the destination gets the result on its old value and the register or sign-extended immediate; division by zero faults; all else is unchanged |
| Semantics.LongLoadStep | m6-interpreter/interpreter/src/lib.rs:191-200 | one step of LDDW: both words consumed, the value by halves, the fault when the second word is missing |
| Semantics.TargetLaws | m6-interpreter/interpreter/src/lib.rs:359 | offsets count instructions: 0 stays, 1 is the next, and they add up |
| Semantics.JumpStep | m6-interpreter/interpreter/src/lib.rs:359-393 | a taken jump goes on exactly off instructions behind its successor or faults at the next fetch when there is none; an untaken one at the successor; nothing else changes |
| Semantics.CallStep | m6-interpreter/interpreter/src/lib.rs:402-408 | a call pushes the address behind it and all registers and goes on imm instructions further; at depth 64 it faults |
| Semantics.ExitStep | m6-interpreter/interpreter/src/lib.rs:414-424 | an exit halts with r0, or restores the frame and keeps r0 |
| Semantics.LoadStep | m6-interpreter/interpreter/src/lib.rs:293-312 | a load from register plus signed offset modulo 2^64: the little-endian value of the bytes, a fault outside the regions, a panic at the top of the address space |
| Semantics.StoreStep | m6-interpreter/interpreter/src/lib.rs:315-356 | a store of a register or sign-extended immediate: every byte of memory afterwards, and what stays unchanged |
| Semantics.QuietSyscallStep | m6-interpreter/interpreter/src/lib.rs:434-476 | logging and panicking zero r0 and do nothing else; an unknown hash does nothing at all |
| Semantics.MemmoveStep | m6-interpreter/interpreter/src/lib.rs:458-464 | memmove(r1 = destination, r2 = source, r3 = length): every byte afterwards, r0 = 0, exactly when it panics |
| Semantics.MemcpyStep | m6-interpreter/interpreter/src/lib.rs:444-450 | the same for memcpy in either build, with the closed form of the guest's forward copy |
| Semantics.MemsetStep | m6-interpreter/interpreter/src/lib.rs:451-457 | memset(r1 = destination, low byte of r2, r3 = length): every byte afterwards |
| Semantics.SetReturnDataStep | m6-interpreter/interpreter/src/lib.rs:466-473 | set_return_data(r1, r2): exactly the r2 bytes at r1, 0 for unmapped ones; memory unchanged |
| Semantics.BootStack | m6-interpreter/interpreter/src/lib.rs:167-172 | a fresh machine: r10 is the first address above the stack, all other registers are 0 |
| Semantics.FetchFaults | m6-interpreter/interpreter/src/lib.rs:176-178 | a fetch outside the text faults, and nothing else does so with the current pc |
| Semantics.PanicsIff | m6-interpreter/interpreter/src/lib.rs:183-427 | exactly when a step panics: missing registers, overflowing accesses and negations, and in which order they are looked at |
| SyscallNames.HashOfName | m6-interpreter/interpreter/src/lib.rs:432-466 | the 32-bit MurmurHash3 of each of the six syscall names |
| SyscallNames.SyscallByName | m6-interpreter/interpreter/src/lib.rs:431-476 | of the six names only sol_memset_ is dispatched under its hash; sol_panic_ reaches the logging arm, the other four are unknown |
| Termination.StepDecreases | m6-interpreter/interpreter/src/lib.rs:359-424 | with forward jumps every instruction decreases a measure weighted by call depth |
| Termination.Terminates | m6-interpreter/interpreter/src/lib.rs:154-429 | from any state, a text of L words with forward jumps ends within (L + 1)^65 steps, recursion included |
| Termination.TerminatesFromBoot | m6-interpreter/interpreter/src/lib.rs:154-429 | within L * (L + 1)^64 + 1 steps from an empty call stack |
| Termination.BackwardJumpRunsForever | m6-interpreter/interpreter/src/lib.rs:359 | the restriction on jumps is needed |
| Calls.CallReturns | m6-interpreter/interpreter/src/lib.rs:402-424 | from an internal call to its matching exit only r0, memory and return data can change; pc is just behind the call and r0 is the callee's |
| Calls.ReturnsThroughBase | m6-interpreter/interpreter/src/lib.rs:414-421 | dropping below a depth goes through exactly the frame pushed there |
| Calls.CallerFramesUntouched | m6-interpreter/interpreter/src/lib.rs:402-424 | a callee cannot touch its callers' frames |
| Relocation.StepRelocates | m6-interpreter/interpreter/src/lib.rs:176-200 | one instruction commutes with moving the text |
| Relocation.RunRelocates | m6-interpreter/interpreter/src/lib.rs:174-424 | a run that does not leave its text has the same outcome behind any prefix and before any suffix |
| HostGuest.StepAgreesIff | m6-interpreter/interpreter/src/lib.rs:444-464 | exactly which instructions two builds execute differently |
| HostGuest.BuildsAgreeIff | m6-interpreter/conformance/src/main.rs:20-34 | two builds' runs agree at every length if and only if no instruction on the way is one of those |
| HostGuest.OrderedCopiesAgree | m6-interpreter/zkvm-guest/src/main.rs:11-30 | host and guest agree on every run whose memcpy calls are downward or disjoint |
| HostGuest.OverlappingCopyDiffers | m6-interpreter/zkvm-guest/src/main.rs:15-20 | a two-byte overlapping copy on which they differ |
| Interpreter.RegionMemory.constructor | m6-interpreter/interpreter/src/lib.rs:41-48 | both regions start zeroed |
| Interpreter.RegionMemory.ReadAt | m6-interpreter/interpreter/src/lib.rs:82-97 | the reads of the four widths |
| Interpreter.RegionMemory.WriteAt | m6-interpreter/interpreter/src/lib.rs:99-114 | the writes of the four widths, in place; a rejected one changes nothing |
| Interpreter.RegionMemory.CopyForward | m6-interpreter/zkvm-guest/src/main.rs:15-20 | the guest's memcpy loop, and exactly when it panics; its address sums never overflow |
| Interpreter.RegionMemory.CopyBuffered | m6-interpreter/conformance/src/main.rs:23-33 | the host's memcpy and both memmoves |
| Interpreter.RegionMemory.Memset | m6-interpreter/zkvm-guest/src/main.rs:21-23 | the memset loop |
| Interpreter.RegionMemory.Collect | m6-interpreter/interpreter/src/lib.rs:466-473 | collecting bytes, 0 for unmapped ones |
| Interpreter.Vm.constructor | m6-interpreter/interpreter/src/lib.rs:167-172 | a fresh VM is the machine's boot state |
| Interpreter.Vm.DispatchSyscall | m6-interpreter/interpreter/src/lib.rs:431-479 | the in-place syscall dispatch refines the machine's |
| Interpreter.Vm.ExitInPlace | m6-interpreter/interpreter/src/lib.rs:414-424 | return or halt, in place |
| Interpreter.Vm.CallInPlace | m6-interpreter/interpreter/src/lib.rs:402-408 | push a frame and jump, or overflow |
| Interpreter.Vm.Step | m6-interpreter/interpreter/src/lib.rs:176-427 | one turn of the interpreter loop refines the machine's step |
| Interpreter.Vm.Run | m6-interpreter/interpreter/src/lib.rs:174-429 | the in-place loop refines the machine's run, in result and whole state |
| Entry.BuildInputBuffer | m6-interpreter/conformance/src/main.rs:83-99 | the serialized input |
| Entry.LayOut | m6-interpreter/conformance/src/main.rs:101-112 | host and guest lay out the same memory; the host panics exactly on an oversized buffer |
| Entry.ProgramReadsItsInput | m6-interpreter/conformance/src/main.rs:83-116 | through r1 and the pointer slot the program reads 0, 16, the balance and the threshold |
| Entry.InitialMemory | m6-interpreter/zkvm-guest/src/main.rs:38-48 | every byte of the laid-out memory, for inputs of any length; what does not fit is dropped |
| Entry.ThresholdIsDecided | m6-interpreter/programs/balance-predicate/src/lib.rs:23-39 | end to end in either build: a program for balance >= threshold halts with 0 or 1 accordingly, for all pairs, and the guest commits that |
| Entry.RunPredicate | m6-interpreter/conformance/src/main.rs:101-119 | the harness reports the machine's outcome and return data |
| Entry.GuestMain | m6-interpreter/zkvm-guest/src/main.rs:32-56 | the guest commits (r0, true), or (2^64 - 1, false) on a fault |
| Entry.HostPredictsGuest | m6-interpreter/zkvm-guest/src/main.rs:46-55 | the guest commits what the host run reports, across builds, unless a differing instruction is reached |
| Journal.ReadWord | coordinator/programs/coordinator/src/journal_decode.rs:39-48 | a word read succeeds exactly below the number of complete words |
| Journal.ReadBytes32 | coordinator/programs/coordinator/src/journal_decode.rs:60-66 | the filling loop returns the 32 bytes or the first error; its index sums never overflow |
| Journal.SkipCiphertexts | coordinator/programs/coordinator/src/journal_decode.rs:92-100 | the data-driven loop, at most one turn per journal word, without overflow |
| Journal.DecodeNullifier | coordinator/programs/coordinator/src/journal_decode.rs:74-131 | the walker equals the parser on every journal and index |
| Journal.WordsOfSerialize | coordinator/programs/coordinator/src/journal_decode.rs:158-162 | serialized words read back |
| Journal.SerializeWordsOf | coordinator/programs/coordinator/src/journal_decode.rs:38-48 | word-aligned bytes are the serialization of their words |
| JournalGrammar.AcceptsIff | coordinator/programs/coordinator/src/journal_decode.rs:74-131 | exact acceptance: Ok(v) if and only if aligned and grammatical with v at the index |
| JournalGrammar.OutOfRangeIff | coordinator/programs/coordinator/src/journal_decode.rs:113-119 | the index error exactly for a grammatical head with too small a count |
| JournalGrammar.TooShortIff | coordinator/programs/coordinator/src/journal_decode.rs:39-131 | JournalTooShort exactly for streams that some further words would make acceptable |
| JournalGrammar.UnsupportedShapeIff | coordinator/programs/coordinator/src/journal_decode.rs:81-88 | the shape error exactly for a non-zero first or second count |
| JournalGrammar.InvalidByteWordIff | coordinator/programs/coordinator/src/journal_decode.rs:52-66 | the byte error exactly when a word above 0xFF comes before the journal's end in the entry of a split stream |
| JournalGrammar.NotWordAlignedIff | coordinator/programs/coordinator/src/journal_decode.rs:74-76 | the alignment error exactly for lengths that are no multiple of 4 |
| JournalGrammar.AppendingIsStable | coordinator/programs/coordinator/src/journal_decode.rs:74-131 | appended words change no answer other than JournalTooShort |
| JournalGrammar.AcceptedLength | coordinator/programs/coordinator/src/journal_decode.rs:78-130 | an entry needs 37 + 64 * index words |
| JournalGrammar.DecodesEncoding | coordinator/programs/coordinator/src/journal_decode.rs:137-163 | round trip: decoding an encoded journal at any index below the entry count returns that nullifier |
| JournalGrammar.ArtifactLength | coordinator/programs/coordinator/src/journal_decode.rs:175-176 | the deployed artifact's shape encodes to 696 bytes |
| Ledger.InvariantHolds | coordinator/programs/coordinator/src/lib.rs:49-155 | over every history: self-certifying bounded store, counter = min(spent, 2^64 - 1), registry never behind |
| Ledger.HistoryExtends | coordinator/programs/coordinator/src/lib.rs:157-202 | image id and authority fixed, journals immutable, spent nullifiers permanent, counters monotone |
| Ledger.SpentIsJustified | coordinator/programs/coordinator/src/lib.rs:94-154 | provenance: each spent nullifier was decoded from a stored journal whose digest the router accepted under the configured image id |
| Ledger.SpentOnce | coordinator/programs/coordinator/src/lib.rs:214-224 | no two verifications spend the same nullifier |
| Settlement.AtMostEightUses | coordinator/programs/coordinator/src/lib.rs:43-73 | over every history at most 8 verifications succeed for one journal digest |
| Settlement.EightUsesArePossible | coordinator/programs/coordinator/src/lib.rs:43-73 | the bound is attained |
| Settlement.CounterCountsVerifications | coordinator/programs/coordinator/src/lib.rs:135 | the on-chain counter is the saturated number of successful verifications |
| Settlement.SpentCountsVerifications | coordinator/programs/coordinator/src/lib.rs:134-135 | as many spent nullifiers as successful verifications |
| Settlement.SucceedsIffRedeemable | coordinator/programs/coordinator/src/lib.rs:94-154 | after any history a verification succeeds exactly when redeemable; the digest re-check never fails |
| Settlement.StaysRedeemable | coordinator/programs/coordinator/src/lib.rs:188-224 | what is redeemable stays so until it is spent |
| Settlement.AllRedeem | coordinator/programs/coordinator/src/lib.rs:94-154 | different redeemable nullifiers are all redeemed, in any order |
| Origins.HoldsIff | coordinator/programs/coordinator/src/lib.rs:52-154 | after every history the configuration, registry authority, each journal and each spent nullifier are there exactly when a successful instruction carried these very arguments |
| Origins.CreatesIff | coordinator/programs/coordinator/src/lib.rs:173-202 | creation succeeds exactly for the first comer: the first initialization of either program, the first journal of at most 2048 bytes with its digest |
| Origins.VerifiesIff | coordinator/programs/coordinator/src/lib.rs:94-154 | a verification succeeds exactly when earlier instructions configured an image id under which the router accepts, stored a journal of that digest holding the nullifier at the index, and initialized the registry, and none spent the nullifier |
| Origins.RegistryCountsRecordings | coordinator/programs/consumer/src/lib.rs:26-43 | the registry counter is the saturated number of successful verifications and direct records |
| Origins.RecordsIff | coordinator/programs/consumer/src/lib.rs:67-74 | a direct record succeeds exactly after an initialization of the registry |
| Origins.RefusalReasons | coordinator/programs/coordinator/src/lib.rs:101-146 | which error a refused verification reports, case by case |
| Programs.ConsumerProgram.Initialize | coordinator/programs/consumer/src/lib.rs:18-22 | the registry is created once, at zero |
| Programs.ConsumerProgram.RecordVerification | coordinator/programs/consumer/src/lib.rs:26-43 | the registry counter saturates |
| Programs.CoordinatorProgram.Initialize | coordinator/programs/coordinator/src/lib.rs:52-57 | creates the configuration once, with the given image id and authority and a zero count; refines the ledger's instruction, whose effect Origins.HoldsIff pins |
| Programs.CoordinatorProgram.StoreJournal | coordinator/programs/coordinator/src/lib.rs:66-73 | refines the ledger's instruction, rolled back when too large |
| Programs.CoordinatorProgram.VerifyPredicate | coordinator/programs/coordinator/src/lib.rs:94-154 | replay guard, handler and consumer call as one transaction; refines the ledger's instruction |
| Programs.CoordinatorProgram.Handle | coordinator/programs/coordinator/src/lib.rs:101-146 | exactly when the handler succeeds, and otherwise with which error |
| Negate.BorrowSubtract | devnet-client/src/main.rs:55-67 | the borrow loop leaves the exact difference and a final borrow exactly when y exceeds Q |
| Negate.NegateG1 | devnet-client/src/main.rs:46-69 | x is kept, y becomes Q - y modulo 2^256 |
| Negate.NegationIsInvolution | devnet-client/src/main.rs:46-69 | negating twice gives back every 64-byte input, and nothing else |
| Negate.NegationStaysOnCurve | devnet-client/src/main.rs:46-69 | for y up to Q the result is the field negation and on the curve exactly when the input is; y = 0 becomes Q |
| Negate.ModulusIsCurvePrime | devnet-client/src/main.rs:46-55 | the modulus bytes are 36u^4 + 36u^3 + 24u^2 + 6u + 1 for the curve parameter u |
| Negate.GeneratorOnCurve | devnet-client/src/main.rs:46-51 | the generator (1, 2) satisfies the curve equation over that modulus, and (1, 3) does not |
| ImageId.ParseImageId | prover/src/main.rs:34-46 | the filling loop returns the eight words or the offending one |
| ImageId.IdRoundTrip | prover/src/main.rs:34-50 | parsing the hex of an id returns it, and the client's bytes are its words in little-endian order |
| ImageId.TrimIff | prover/src/main.rs:35 | trimming removes exactly the surrounding white space |
| ImageId.ParsesIff | prover/src/main.rs:34-46 | exact acceptance: an id is parsed if and only if the trimmed input is the 64 hex digits of its words, in either case, a plus sign standing for a leading zero |
| ImageId.ClientAgreesWithProver | devnet-client/src/main.rs:71-81 | where the prover parses, the client gives the same words; it differs in ignoring what follows 64 characters |
| ImageId.ClientIgnoresTail | devnet-client/src/main.rs:71-81 | the client's answer depends on the first 64 trimmed characters only |
| ImageId.HexReproducedIff | prover/src/main.rs:34-50 | re-encoding a parsed id gives the trimmed lower-case input if and only if no word begins with '+' |

## Left out

- Interpreter.Vm.Run: takes a bound on the turns of its loop, because the source's loop need not end; `Machine.MoreFuel` shows that a result does not depend on the bound.
- Entry.GuestMain: takes the same bound.
- Entry.RunPredicate: takes the same bound.
- FlatMemory.ReadComposesBytes: assumes regions that do not interleave, as every memory the repository creates has; `FlatMemory.CoherentIff` shows the assumption is needed.
- HostGuest.BuildsAgreeIff: both builds run with 64-bit `usize`; the guest's 32-bit target, where a return-data length is truncated and a faulting pc is reported modulo 2^32, is not modelled.
- Memory bases are the constants that `Memory::new` sets; nothing in the repository changes them.
- Running out of memory, in particular when a buffered copy collects a huge range.
- `sol_log_` and `sol_panic_` beyond zeroing r0, which is all the dispatcher does with them.
- `load_text`: slicing a section out of an ELF file.
- Groth16 wrapping, receipt verification, sha256, the Verifier Router and the pairing: parameters about which nothing is assumed.
- The consumer reached by the coordinator's call is the repository's own; another program could be passed.
- Programs.CoordinatorProgram.VerifyPredicate: the router's account constraints are part of the router parameter.
- Program-derived addresses are map keys; rent, account space, signatures, events and logging are not modelled.
- ImageId.ParseImageId: ASCII input only, so that byte and character positions coincide.
- HTTP service, RPC submission, files, base64, key pairs and deployment.
- The privacy circuit, commitments and membership proofs, and the predicate handler, which is a single comparison.
