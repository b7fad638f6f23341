/** What one turn of the loop does to the whole state, instruction class by
    instruction class, told by values, addresses and bytes: which value an immediate
    supplies, where a jump lands, which bytes a load, a store or a syscall moves. */
module Semantics {
  import opened Words
  import opened FlatMemory
  import opened Isa
  import opened Machine
  import opened HostGuest
  import opened Opcodes
  import opened LowHalf

  /** The instruction at the program counter. */
  predicate At(text: Text, s: State, i: Insn) { s.pc < |text| && Decode(text[s.pc]) == i }

  /** All is as before, except that the program counter stands behind the instruction. */
  function Behind(text: Text, s: State): State
    requires s.pc < |text|
  {
    State(s.regs, s.pc + 1, s.frames, s.mem, s.ret)
  }

  // ---- Operands ----

  lemma SignedWrap(v: int, y: u64)
    requires -0x8000_0000_0000_0000 <= v < 0x8000_0000_0000_0000
    ensures Wrap64(v) == y <==> Signed64(y) == v
  {}

  /** y is the second operand: the source register, or the 64-bit word whose signed
      value is the immediate. */
  predicate Supplies(i: Insn, regs: Regs, y: u64) {
    if RegisterForm(i.opcode) then i.src < 11 && regs[i.src] == y else Signed64(y) == i.imm
  }

  lemma OperandIs(i: Insn, regs: Regs, y: u64)
    requires RegisterForm(i.opcode) ==> i.src < 11
    ensures Operand(i, regs) == y <==> Supplies(i, regs, y)
  {
    SignedWrap(i.imm, y);
  }

  /** An immediate acts as a register k that holds the same signed value, in
      arithmetic and in conditional jumps ... */
  lemma ImmediateActsAsRegister(b: Build, i: Insn, k: nibble, next: Option<u64>, regs: Regs, mem: Memory, ret: seq<u8>)
    requires (IsAlu(i.opcode) && i.opcode != 0x87 && i.opcode != 0x84) || IsConditional(i.opcode)
    requires !RegisterForm(i.opcode) && k < 11 && Signed64(regs[k]) == i.imm
    ensures Exec(b, i, next, regs, mem, ret) == Exec(b, i.(opcode := i.opcode + 8, src := k), next, regs, mem, ret)
  {
    hide Exec, ExecAlu, ExecConditional, IsAlu, IsConditional;
    var j := i.(opcode := i.opcode + 8, src := k);
    SourceBitOnly(i.opcode);
    ExecByKind(b, i, next, regs, mem, ret);
    ExecByKind(b, j, next, regs, mem, ret);
    if IsAlu(i.opcode) {
      ArithmeticForms(b.overflowChecks, i, j, regs);
    } else {
      JumpForms(i, j, regs);
    }
  }

  /** Setting the source bit does not change the kind of an instruction. */
  lemma SourceBitOnly(op: u8)
    requires (IsAlu(op) && op != 0x87 && op != 0x84) || IsConditional(op)
    requires !RegisterForm(op)
    ensures (IsAlu(op) <==> IsAlu(op + 8)) && (IsConditional(op) <==> IsConditional(op + 8))
    ensures IsAlu(op) ==> op != 0x87 && op != 0x84
  {}

  lemma ExecByKind(b: Build, i: Insn, next: Option<u64>, regs: Regs, mem: Memory, ret: seq<u8>)
    ensures IsAlu(i.opcode) ==> Exec(b, i, next, regs, mem, ret) == ExecAlu(b.overflowChecks, i, regs)
    ensures IsConditional(i.opcode) ==> Exec(b, i, next, regs, mem, ret) == ExecConditional(i, regs)
  {
    hide ExecAlu, ExecConditional, ExecSyscall, ExecLoad, ExecStore, ExecLongLoad;
  }

  lemma ArithmeticForms(checks: bool, i: Insn, j: Insn, regs: Regs)
    requires IsAlu(i.opcode) && i.opcode != 0x87 && i.opcode != 0x84 && !RegisterForm(i.opcode)
    requires j == i.(opcode := i.opcode + 8, src := j.src) && IsAlu(j.opcode)
    requires j.src < 11 && Signed64(regs[j.src]) == i.imm
    ensures ExecAlu(checks, i, regs) == ExecAlu(checks, j, regs)
  {
    hide Alu, IsAlu, Wrap64;
    FormsAgree(checks, i.opcode, if i.dst < 11 then regs[i.dst] else 0, regs[j.src]);
    OperandIs(i, regs, regs[j.src]);
  }

  lemma JumpForms(i: Insn, j: Insn, regs: Regs)
    requires IsConditional(i.opcode) && !RegisterForm(i.opcode)
    requires j == i.(opcode := i.opcode + 8, src := j.src) && IsConditional(j.opcode)
    requires j.src < 11 && Signed64(regs[j.src]) == i.imm
    ensures ExecConditional(i, regs) == ExecConditional(j, regs)
  {
    hide Taken, IsConditional, Wrap64;
    FormsAgree(false, i.opcode, if i.dst < 11 then regs[i.dst] else 0, regs[j.src]);
    OperandIs(i, regs, regs[j.src]);
  }

  /** ... and in stores. */
  lemma StoredImmediateActsAsRegister(b: Build, i: Insn, k: nibble, next: Option<u64>, regs: Regs, mem: Memory, ret: seq<u8>)
    requires StoreImmSize(i.opcode) > 0
    requires k < 11 && Signed64(regs[k]) == i.imm
    ensures Exec(b, i, next, regs, mem, ret) == Exec(b, i.(opcode := i.opcode + 1, src := k), next, regs, mem, ret)
  {
    hide Write, Wrap64, ExecAlu, ExecConditional, ExecSyscall, ExecLoad, ExecStore;
    SignedWrap(i.imm, regs[k]);
    StoreForms(i, i.(opcode := i.opcode + 1, src := k), regs, mem, regs[k]);
  }

  lemma StoreForms(i: Insn, j: Insn, regs: Regs, mem: Memory, v: u64)
    requires StoreImmSize(i.opcode) > 0 && j == i.(opcode := i.opcode + 1, src := j.src)
    ensures StoreRegSize(j.opcode) == StoreImmSize(i.opcode) && !IsAlu(j.opcode)
    ensures i.dst < 11 ==> ExecStore(i, StoreImmSize(i.opcode), v, regs, mem) == ExecStore(j, StoreImmSize(i.opcode), v, regs, mem)
  {}

  // ---- Arithmetic ----

  /** The result goes to the destination, computed from its old value and the second
      operand; every other register, the memory and the call stack keep theirs. */
  lemma ArithmeticStep(b: Build, text: Text, s: State, i: Insn, y: u64)
    requires At(text, s, i) && IsAlu(i.opcode) && i.dst < 11 && Supplies(i, s.regs, y)
    ensures match Alu(b.overflowChecks, i.opcode, s.regs[i.dst], y)
            case Value(v) => Step(b, text, s) == Running(Behind(text, s).(regs := s.regs[i.dst := v]))
            case DivideByZero => Step(b, text, s) == Fault(DivisionByZero, Behind(text, s))
            case NegateOverflow => Step(b, text, s) == Panic
  {
    hide Alu, Operand, Supplies;
    SupplierIsRegister(i, s.regs, y);
    OperandIs(i, s.regs, y);
  }

  lemma SupplierIsRegister(i: Insn, regs: Regs, y: u64)
    requires Supplies(i, regs, y)
    ensures RegisterForm(i.opcode) ==> i.src < 11
  {}

  /** LDDW: the low half is its immediate; the high half is the immediate of the next
      word, unless the low one is negative. Both words are consumed. */
  lemma LongLoadStep(b: Build, text: Text, s: State, i: Insn)
    requires At(text, s, i) && i.opcode == 0x18 && i.dst < 11
    ensures s.pc + 1 == |text| ==> Step(b, text, s) == Fault(OutOfBounds(s.pc + 1), Behind(text, s))
    ensures s.pc + 1 < |text| ==>
              var hi := if i.imm < 0 then 0xFFFF_FFFF else Low32(Decode(text[s.pc + 1]).imm);
              Step(b, text, s) ==
              Running(Behind(text, s).(pc := s.pc + 2, regs := s.regs[i.dst := 0x1_0000_0000 * hi + Low32(i.imm)]))
  {
    hide LongImmediate;
    if s.pc + 1 < |text| {
      LongImmediateIs(i.imm, text[s.pc + 1] / 0x1_0000_0000);
      SignedRoundTrips(0, text[s.pc + 1] / 0x1_0000_0000);
    }
  }

  // ---- Jumps, calls and exit ----

  /** Offsets count instructions: 0 stays, 1 moves on by one, and they add up. */
  lemma TargetLaws(pc: nat, a: int, c: int)
    requires pc < 0x1000_0000_0000_0000
    ensures Target(pc, 0) == pc && Target(pc, 1) == pc + 1
    ensures Target(Target(pc, a), c) == Target(pc, a + c)
  {}

  /** The run goes on at instruction `at`; if there is none, the next fetch faults. */
  predicate GoesOnAt(b: Build, text: Text, s: State, at: int) {
    if 0 <= at < |text| then s.pc == at
    else Step(b, text, s) == Fault(OutOfBounds(s.pc), s)
  }

  lemma TargetGoesOn(b: Build, text: Text, s: State, pc: nat, off: i32)
    requires pc <= |text| && s.pc == Target(pc, off)
    ensures GoesOnAt(b, text, s, pc + off)
  {}

  lemma JumpEffect(b: Build, i: Insn, next: Option<u64>, regs: Regs, mem: Memory, ret: seq<u8>, y: u64)
    requires IsJump(i.opcode) && (i.opcode != 0x05 ==> i.dst < 11 && Supplies(i, regs, y))
    ensures Exec(b, i, next, regs, mem, ret) ==
            if i.opcode == 0x05 || Taken(i.opcode, regs[i.dst], y) then Goto(i.off) else Advance
  {
    hide ExecAlu, ExecSyscall, ExecLoad, ExecStore, ExecLongLoad, Taken, Operand, Supplies;
    if i.opcode != 0x05 {
      SupplierIsRegister(i, regs, y);
      OperandIs(i, regs, y);
      ExecByKind(b, i, next, regs, mem, ret);
    }
  }

  /** A taken jump goes on `off` instructions behind its own successor, any other at the
      successor; nothing but the program counter changes. */
  lemma JumpStep(b: Build, text: Text, s: State, i: Insn, y: u64)
    requires At(text, s, i) && IsJump(i.opcode)
    requires i.opcode != 0x05 ==> i.dst < 11 && Supplies(i, s.regs, y)
    ensures Step(b, text, s).Running?
    ensures var t := Step(b, text, s).s;
            && t == s.(pc := t.pc)
            && GoesOnAt(b, text, t, s.pc + 1 + if i.opcode == 0x05 || Taken(i.opcode, s.regs[i.dst], y) then i.off as int else 0)
  {
    hide Exec, ExecConditional, IsConditional, Taken, Target, GoesOnAt;
    JumpEffect(b, i, Following(text, s.pc + 1), s.regs, s.mem, s.ret, y);
    var t := Step(b, text, s).s;
    TargetLaws(s.pc + 1, 0, 0);
    if t.pc == Target(s.pc + 1, i.off) {
      TargetGoesOn(b, text, t, s.pc + 1, i.off);
    }
    if t.pc == s.pc + 1 {
      TargetGoesOn(b, text, t, s.pc + 1, 0);
    }
  }

  /** A call keeps the address behind it and the registers in a frame and goes on `imm`
      instructions further; the 65th nested one faults. */
  lemma CallStep(b: Build, text: Text, s: State, i: Insn)
    requires At(text, s, i) && i.opcode == 0x85 && i.src != 1
    ensures |s.frames| >= 64 ==> Step(b, text, s) == Fault(CallStackOverflow, Behind(text, s))
    ensures |s.frames| < 64 ==>
              && Step(b, text, s).Running?
              && var t := Step(b, text, s).s;
                 && t == s.(pc := t.pc, frames := s.frames + [Frame(s.pc + 1, s.regs)])
                 && GoesOnAt(b, text, t, s.pc + 1 + i.imm)
  {
    hide GoesOnAt, Target;
    if |s.frames| < 64 { TargetGoesOn(b, text, Step(b, text, s).s, s.pc + 1, i.imm); }
  }

  /** An exit hands r0 to the caller, or out of the VM when there is none. */
  lemma ExitStep(b: Build, text: Text, s: State, i: Insn)
    requires At(text, s, i) && i.opcode == 0x95
    ensures s.frames == [] ==> Step(b, text, s) == Halted(s.regs[0], Behind(text, s))
    ensures forall rest, f | s.frames == rest + [f] ::
              Step(b, text, s) == Running(State(f.regs[0 := s.regs[0]], f.pc, rest, s.mem, s.ret))
  {
    hide ExecAlu, ExecLoad, ExecStore, ExecConditional, ExecSyscall, ExecLongLoad;
    forall rest, f | s.frames == rest + [f]
      ensures Step(b, text, s) == Running(State(f.regs[0 := s.regs[0]], f.pc, rest, s.mem, s.ret))
    {
      assert s.frames[..|s.frames| - 1] == rest && s.frames[|s.frames| - 1] == f;
    }
  }

  // ---- Loads and stores ----

  /** addr is the register plus the signed offset, modulo 2^64. */
  predicate Addresses(base: u64, off: i16, addr: u64) {
    addr as int == base + off || addr as int == base + off - 0x1_0000_0000_0000_0000
    || addr as int == base + off + 0x1_0000_0000_0000_0000
  }

  lemma WrapAddresses(base: u64, off: i16, addr: u64)
    ensures Wrap64(base + off) == addr <==> Addresses(base, off, addr)
  {}

  lemma OverflowsIff(m: Memory, addr: u64, size: nat, v: nat)
    requires size <= 8
    ensures Read(m, addr, size).Overflows? <==> addr as int + size >= 0x1_0000_0000_0000_0000
    ensures Write(m, addr, size, v).Overflows? <==> addr as int + size >= 0x1_0000_0000_0000_0000
  {}

  /** The little-endian value of the bytes at an address. */
  function ValueAt(m: Memory, addr: u64, size: nat): (v: u64)
    requires size <= 8
  {
    EightBytesFit(Fetch(m, addr, size));
    LeNat(Fetch(m, addr, size))
  }

  /** A load takes the value of the bytes at the address; it faults outside
      the regions and panics at the end of the address space. */
  lemma LoadStep(b: Build, text: Text, s: State, i: Insn, addr: u64)
    requires At(text, s, i) && LoadSize(i.opcode) > 0 && i.src < 11 && i.dst < 11
    requires Addresses(s.regs[i.src], i.off, addr) && Coherent(s.mem)
    ensures var size := LoadSize(i.opcode);
            Step(b, text, s) ==
            if addr as int + size >= 0x1_0000_0000_0000_0000 then Panic
            else if !OneRegion(s.mem, addr, size) then Fault(InvalidMemoryAccess(addr, size), Behind(text, s))
            else Running(Behind(text, s).(regs := s.regs[i.dst := ValueAt(s.mem, addr, size)]))
  {
    hide Read, Coherent, OneRegion, Addresses, Wrap64, LeNat;
    WrapAddresses(s.regs[i.src], i.off, addr);
    OverflowsIff(s.mem, addr, LoadSize(i.opcode), 0);
    if addr as int + LoadSize(i.opcode) < 0x1_0000_0000_0000_0000 {
      ReadComposesBytes(s.mem, addr, LoadSize(i.opcode));
    }
  }

  /** The bytes a store moves, 0 for any other opcode. */
  function StoreSize(op: u8): nat { if StoreRegSize(op) > 0 then StoreRegSize(op) else StoreImmSize(op) }

  /** v is what a store writes: the source register, or the word whose signed value is
      the immediate. */
  predicate Stores(i: Insn, regs: Regs, v: u64) {
    if StoreRegSize(i.opcode) > 0 then i.src < 11 && regs[i.src] == v else Signed64(v) == i.imm
  }

  /** A store leaves the low bytes of its value at the address, in little-endian order,
      and every other byte, the registers and the call stack as they were. */
  lemma StoreStep(b: Build, text: Text, s: State, i: Insn, addr: u64, v: u64, x: nat)
    requires At(text, s, i) && StoreSize(i.opcode) > 0 && i.dst < 11 && Stores(i, s.regs, v)
    requires Addresses(s.regs[i.dst], i.off, addr) && Coherent(s.mem)
    ensures var size := StoreSize(i.opcode);
            if addr as int + size >= 0x1_0000_0000_0000_0000 then Step(b, text, s) == Panic
            else if !OneRegion(s.mem, addr, size) then
              Step(b, text, s) == Fault(InvalidMemoryAccess(addr, size), Behind(text, s))
            else
              && Step(b, text, s).Running?
              && var t := Step(b, text, s).s;
                 && t == Behind(text, s).(mem := t.mem) && SameShape(s.mem, t.mem)
                 && ByteAt(t.mem, x) ==
                    if addr <= x < addr + size then Some(LeBytes(v, 8)[x - addr]) else ByteAt(s.mem, x)
  {
    hide Exec, Write, Coherent, OneRegion, Addresses, Wrap64, LeBytes, ByteAt, StoreSize, Stores;
    var size := StoreSize(i.opcode);
    StoreEffect(b, i, Following(text, s.pc + 1), s.regs, s.mem, s.ret, addr, v);
    if addr as int + size < 0x1_0000_0000_0000_0000 {
      WriteStoresBytes(s.mem, addr, size, v, x);
      if addr <= x < addr + size { LeBytesPrefix(v, size, 8, x - addr); }
    }
  }

  lemma StoreEffect(b: Build, i: Insn, next: Option<u64>, regs: Regs, mem: Memory, ret: seq<u8>, addr: u64, v: u64)
    requires StoreSize(i.opcode) > 0 && i.dst < 11 && Stores(i, regs, v) && Addresses(regs[i.dst], i.off, addr)
    ensures 0 < StoreSize(i.opcode) <= 8
    ensures Write(mem, addr, StoreSize(i.opcode), v).Overflows? <==> addr as int + StoreSize(i.opcode) >= 0x1_0000_0000_0000_0000
    ensures Exec(b, i, next, regs, mem, ret) ==
            match Write(mem, addr, StoreSize(i.opcode), v)
            case Overflows => Panics
            case Rejected => Fails(InvalidMemoryAccess(addr, StoreSize(i.opcode)))
            case Got(m) => SetMem(m)
  {
    hide Write, Addresses, Wrap64, ExecAlu, ExecConditional, ExecSyscall, ExecLoad, ExecLongLoad;
    WrapAddresses(regs[i.dst], i.off, addr);
    SignedWrap(i.imm, v);
    OverflowsIff(mem, addr, StoreSize(i.opcode), v);
  }

  lemma LeBytesPrefix(v: nat, k: nat, n: nat, j: nat)
    requires j < k <= n
    ensures LeBytes(v, k)[j] == LeBytes(v, n)[j]
  {
    LeBytesAt(v, k, j);
    LeBytesAt(v, n, j);
  }

  // ---- Syscalls ----

  /** The state behind a syscall whose service is known: r0 is 0, the other registers and
      the call stack are as before. */
  predicate Served(text: Text, s: State, o: Outcome)
    requires s.pc < |text|
  {
    o.Running? && o.s == Behind(text, s).(regs := s.regs[0 := 0], mem := o.s.mem, ret := o.s.ret)
    && SameShape(s.mem, o.s.mem)
  }

  /** Logging and panicking do nothing else; an unknown hash does nothing at all. */
  lemma QuietSyscallStep(b: Build, text: Text, s: State, i: Insn)
    requires At(text, s, i) && IsSyscall(i)
    ensures Low32(i.imm) in {0x686093bb, 0x52ba5096} ==> Step(b, text, s) == Running(Behind(text, s).(regs := s.regs[0 := 0]))
    ensures Low32(i.imm) !in {0x686093bb, 0x52ba5096, 0xa92366c4, 0x3770fb22, 0x0d667e63, 0x5b839aba, 5} ==>
              Step(b, text, s) == Running(Behind(text, s))
  {
    hide ExecAlu, ExecLoad, ExecStore, ExecConditional, ExecLongLoad, RangeOverflows, Low32;
  }

  /** The byte at x after moving the n bytes at src to dst: the byte that was at the
      corresponding source address, 0 if it was unmapped. */
  function Moved(m: Memory, dst: u64, src: u64, n: u64, x: nat): Option<u8> {
    if Mapped(m, x) && dst <= x < dst as int + n then Some(ByteOr0(m, src + (x - dst))) else ByteAt(m, x)
  }

  /** memmove(r1, r2, r3): r1 is the destination, r2 the source, r3 the length. */
  lemma MemmoveStep(b: Build, text: Text, s: State, i: Insn, x: nat)
    requires At(text, s, i) && IsSyscall(i) && Low32(i.imm) == 0x0d667e63
    ensures var dst, src, n := s.regs[1], s.regs[2], s.regs[3];
            if RangeOverflows(dst, n) || RangeOverflows(src, n) then Step(b, text, s) == Panic
            else
              && Served(text, s, Step(b, text, s)) && Step(b, text, s).s.ret == s.ret
              && ByteAt(Step(b, text, s).s.mem, x) == Moved(s.mem, dst, src, n, x)
  {
    hide ExecAlu, ExecLoad, ExecStore, ExecConditional, ExecLongLoad, RangeOverflows, Low32, Memmove, ByteAt;
    MemmoveBytes(s.mem, s.regs[1], s.regs[2], s.regs[3], x);
  }

  /** memcpy(r1, r2, r3): as memmove, except that the guest's copy towards higher
      addresses reads back what it has written. */
  lemma MemcpyStep(b: Build, text: Text, s: State, i: Insn, x: nat)
    requires At(text, s, i) && IsSyscall(i) && Low32(i.imm) == 0xa92366c4
    ensures var dst, src, n := s.regs[1], s.regs[2], s.regs[3];
            if RangeOverflows(dst, n) || RangeOverflows(src, n) then Step(b, text, s) == Panic
            else
              && Served(text, s, Step(b, text, s)) && Step(b, text, s).s.ret == s.ret
              && ByteAt(Step(b, text, s).s.mem, x) ==
                 if b.syscalls.Guest? && src < dst && Mapped(s.mem, x) && dst <= x < dst as int + n
                 then Some(Echo(s.mem, src, dst - src, x - dst))
                 else Moved(s.mem, dst, src, n, x)
  {
    hide ExecAlu, ExecLoad, ExecStore, ExecConditional, ExecLongLoad, RangeOverflows, Low32, Memcpy, ByteAt, Mapped;
    MemcpyBytes(b.syscalls, s.mem, s.regs[1], s.regs[2], s.regs[3], x);
  }

  lemma MemcpyBytes(kind: Syscalls, m: Memory, dst: u64, src: u64, n: u64, x: nat)
    ensures ByteAt(Memcpy(kind, m, dst, src, n), x) ==
            if kind.Guest? && src < dst && Mapped(m, x) && dst <= x < dst as int + n
            then Some(Echo(m, src, dst - src, x - dst))
            else Moved(m, dst, src, n, x)
  {
    hide ByteAt, Mapped;
    StoredBytes(m, dst, Fetch(m, src, n), x);
    if kind.Guest? && src < dst {
      CopiedBytes(m, dst, src, n, x);
    } else if kind.Guest? {
      DisjointDoesNotFeedBack(m, dst, src, n);
      CopyEqualsSnapshotIff(m, dst, src, n);
    }
  }

  /** memset(r1, r2, r3): the low byte of r2 to every mapped address of the range. */
  lemma MemsetStep(b: Build, text: Text, s: State, i: Insn, x: nat)
    requires At(text, s, i) && IsSyscall(i) && Low32(i.imm) == 0x3770fb22
    ensures var dst, n := s.regs[1], s.regs[3];
            if RangeOverflows(dst, n) then Step(b, text, s) == Panic
            else
              && Served(text, s, Step(b, text, s)) && Step(b, text, s).s.ret == s.ret
              && ByteAt(Step(b, text, s).s.mem, x) ==
                 if Mapped(s.mem, x) && dst <= x < dst as int + n then Some(LeBytes(s.regs[2], 8)[0]) else ByteAt(s.mem, x)
  {
    hide ExecAlu, ExecLoad, ExecStore, ExecConditional, ExecLongLoad, RangeOverflows, Low32, Memset, ByteAt, Mapped;
    MemsetBytes(s.mem, s.regs[1], s.regs[2] % 0x100, s.regs[3], x);
  }

  /** set_return_data(r1, r2): the r2 bytes at r1, 0 for unmapped ones; memory keeps its bytes. */
  lemma SetReturnDataStep(b: Build, text: Text, s: State, i: Insn)
    requires At(text, s, i) && IsSyscall(i) && Low32(i.imm) in {0x5b839aba, 5}
    ensures var at, n := s.regs[1], s.regs[2];
            if RangeOverflows(at, n) then Step(b, text, s) == Panic
            else
              && Served(text, s, Step(b, text, s)) && Step(b, text, s).s.mem == s.mem
              && |Step(b, text, s).s.ret| == n
              && forall k | 0 <= k < n :: Step(b, text, s).s.ret[k] == ByteOr0(s.mem, at + k)
  {
    hide ExecAlu, ExecLoad, ExecStore, ExecConditional, ExecLongLoad, RangeOverflows, Low32;
  }

  // ---- Where the machine starts, and where it panics ----

  /** r10 is the first address above the stack, every other register is 0. */
  lemma BootStack(mem: Memory, x: nat, k: nat)
    requires k < 10
    ensures var s := Boot(mem);
            && s.regs[k] == 0 && s.pc == 0 && s.frames == [] && s.mem == mem && s.ret == []
            && (InStack(mem, x) <==> 0x1_0000_0000 <= x < s.regs[10])
            && (InHeap(mem, x) <==> 0x3_0000_0000 <= x < 0x3_0000_0000 + |mem.heap|)
  {}

  lemma FetchFaults(b: Build, text: Text, s: State)
    ensures Step(b, text, s) == Fault(OutOfBounds(s.pc), s) <==> s.pc >= |text|
  {
    hide Exec;
  }

  /** Division and modulo by zero. */
  predicate DividesByZero(op: u8, y: u64) {
    (op in {0x37, 0x3F, 0x97, 0x9F} && y == 0) || (op in {0x34, 0x3C} && Low32(y) == 0)
  }

  /** A missing register, unless the division is refused first, or a negation that overflows. */
  predicate ArithmeticPanics(checks: bool, i: Insn, regs: Regs) {
    || (RegisterForm(i.opcode) && i.src >= 11)
    || (i.dst >= 11 && forall y | Supplies(i, regs, y) :: !DividesByZero(i.opcode, y))
    || (checks && NegatesLeast(i, regs))
  }

  predicate ReachesTop(addr: u64, size: nat) { addr as int + size >= 0x1_0000_0000_0000_0000 }

  /** The destination of a load is looked at last, after the access was accepted. */
  predicate LoadPanics(i: Insn, regs: Regs, mem: Memory) {
    i.src < 11 ==>
      var addr, size := Wrap64(regs[i.src] + i.off), LoadSize(i.opcode);
      ReachesTop(addr, size) || (i.dst >= 11 && OneRegion(mem, addr, size))
  }

  predicate StorePanics(i: Insn, regs: Regs) {
    i.dst < 11 && (StoreRegSize(i.opcode) > 0 ==> i.src < 11) ==>
      ReachesTop(Wrap64(regs[i.dst] + i.off), StoreSize(i.opcode))
  }

  predicate SyscallPanics(hash: u32, regs: Regs) {
    || (hash in {0xa92366c4, 0x0d667e63} && (RangeOverflows(regs[1], regs[3]) || RangeOverflows(regs[2], regs[3])))
    || (hash == 0x3770fb22 && RangeOverflows(regs[1], regs[3]))
    || (hash in {0x5b839aba, 5} && RangeOverflows(regs[1], regs[2]))
  }

  predicate InstructionPanics(b: Build, text: Text, s: State, i: Insn) {
    if IsAlu(i.opcode) then ArithmeticPanics(b.overflowChecks, i, s.regs)
    else if i.opcode == 0x18 then i.dst >= 11 && s.pc + 1 < |text|
    else if LoadSize(i.opcode) > 0 then LoadPanics(i, s.regs, s.mem)
    else if StoreSize(i.opcode) > 0 then StorePanics(i, s.regs)
    else if IsConditional(i.opcode) then i.dst >= 11 || (RegisterForm(i.opcode) && i.src >= 11)
    else IsSyscall(i) && SyscallPanics(Low32(i.imm), s.regs)
  }

  /** Exactly when a step panics. */
  lemma PanicsIff(b: Build, text: Text, s: State, i: Insn)
    requires At(text, s, i)
    ensures Step(b, text, s).Panic? <==> InstructionPanics(b, text, s, i)
  {
    hide ExecAlu, ExecLoad, ExecStore, ExecConditional, ExecSyscall, LongImmediate, ArithmeticPanics, LoadPanics, SyscallPanics;
    var next := Following(text, s.pc + 1);
    if IsAlu(i.opcode) {
      ArithmeticPanicsIff(b.overflowChecks, i, s.regs);
    } else if LoadSize(i.opcode) > 0 {
      LoadPanicsIff(i, s.regs, s.mem);
    } else if StoreSize(i.opcode) > 0 {
      StorePanicsIff(b, i, next, s.regs, s.mem, s.ret);
    } else if IsConditional(i.opcode) {
      ConditionalPanicsIff(i, s.regs);
    } else if IsSyscall(i) {
      SyscallPanicsIff(b.syscalls, Low32(i.imm), s.regs, s.mem, s.ret);
    }
  }

  lemma AluFailsIff(checks: bool, op: u8, x: u64, y: u64)
    requires IsAlu(op)
    ensures Alu(checks, op, x, y).DivideByZero? <==> DividesByZero(op, y)
    ensures Alu(checks, op, x, y).NegateOverflow? <==>
            checks && ((op == 0x87 && x == 0x8000_0000_0000_0000) || (op == 0x84 && Low32(x) == 0x8000_0000))
  {
    hide Bits64, Bits32, Pow2, ShiftRight, Quotient, Wrap64, Signed64, Signed32;
  }

  lemma ArithmeticPanicsIff(checks: bool, i: Insn, regs: Regs)
    requires IsAlu(i.opcode)
    ensures ExecAlu(checks, i, regs).Panics? <==> ArithmeticPanics(checks, i, regs)
  {
    hide Alu, Operand, Supplies, DividesByZero;
    if RegisterForm(i.opcode) ==> i.src < 11 {
      var y := Operand(i, regs);
      AluFailsIff(checks, i.opcode, if i.dst < 11 then regs[i.dst] else 0, y);
      forall z: u64 ensures Supplies(i, regs, z) <==> z == y { OperandIs(i, regs, z); }
    }
  }

  lemma GotIff(m: Memory, addr: u64, size: nat)
    requires 0 < size <= 8
    ensures Read(m, addr, size).Got? <==> !ReachesTop(addr, size) && OneRegion(m, addr, size)
    ensures Read(m, addr, size).Overflows? <==> ReachesTop(addr, size)
  {}

  lemma LoadPanicsIff(i: Insn, regs: Regs, mem: Memory)
    requires LoadSize(i.opcode) > 0
    ensures ExecLoad(i, regs, mem).Panics? <==> LoadPanics(i, regs, mem)
  {
    if i.src < 11 { GotIff(mem, Wrap64(regs[i.src] + i.off), LoadSize(i.opcode)); }
    hide Read, OneRegion, ReachesTop, Wrap64;
  }

  lemma StorePanicsIff(b: Build, i: Insn, next: Option<u64>, regs: Regs, mem: Memory, ret: seq<u8>)
    requires StoreSize(i.opcode) > 0
    ensures Exec(b, i, next, regs, mem, ret).Panics? <==> StorePanics(i, regs)
  {
    hide Write, ExecAlu, ExecConditional, ExecSyscall, ExecLoad, ExecLongLoad, Wrap64, StoreRegSize, StoreImmSize;
    StoreOpcodes(i.opcode);
    if i.dst < 11 {
      OverflowsIff(mem, Wrap64(regs[i.dst] + i.off), StoreSize(i.opcode), if StoreRegSize(i.opcode) == 0 then Wrap64(i.imm) else if i.src < 11 then regs[i.src] else 0);
    }
  }

  lemma StoreOpcodes(op: u8)
    requires StoreSize(op) > 0
    ensures !IsAlu(op) && op != 0x18 && LoadSize(op) == 0 && StoreSize(op) <= 8
  {}

  lemma ConditionalPanicsIff(i: Insn, regs: Regs)
    requires IsConditional(i.opcode)
    ensures ExecConditional(i, regs).Panics? <==> i.dst >= 11 || (RegisterForm(i.opcode) && i.src >= 11)
  {
    hide Taken;
  }

  lemma SyscallPanicsIff(kind: Syscalls, hash: u32, regs: Regs, mem: Memory, ret: seq<u8>)
    ensures ExecSyscall(kind, hash, regs, mem, ret).Panics? <==> SyscallPanics(hash, regs)
  {
    hide RangeOverflows;
  }
}
