/** The sBPF interpreter as a small-step machine.

    One instruction first produces an effect that mentions neither the program
    counter, nor the call stack, nor the text; the effect is then applied to the
    state. Theorems about control flow therefore never look inside the
    arithmetic. */
module Machine {
  import opened Words
  import opened FlatMemory
  import opened Isa

  const MAX_CALL_DEPTH: nat := 64

  /** Slices of u64 hold fewer than 2^60 elements. */
  type Text = t: seq<u64> | |t| < 0x1000_0000_0000_0000

  type Regs = r: seq<u64> | |r| == 11 witness seq(11, _ => 0)

  datatype SbpfError =
    | UnknownOpcode(op: u8)
    | OutOfBounds(pc: nat)
    | DivisionByZero
    | InvalidMemoryAccess(addr: u64, size: nat)
    | CallStackOverflow
    | BadExit

  /** The two implementations of the syscall interface. */
  datatype Syscalls = Stub | Guest

  /** How the interpreter was built: which syscalls it is linked with, and
      whether arithmetic overflow panics. */
  datatype Build = Build(syscalls: Syscalls, overflowChecks: bool)

  datatype Frame = Frame(pc: u64, regs: Regs)

  datatype State = State(regs: Regs, pc: u64, frames: seq<Frame>, mem: Memory, ret: seq<u8>)

  datatype Effect =
    | Advance
    | SetReg(dst: nat, v: u64)
    | SetRegLong(dst: nat, v: u64)
    | SetMem(mem: Memory)
    | Goto(off: i16)
    | Invoke(imm: i32)
    | Return
    | Service(mem: Memory, ret: seq<u8>)
    | Truncated
    | Fails(error: SbpfError)
    | Panics

  datatype Outcome =
    | Running(s: State)
    | Halted(r0: u64, s: State)
    | Fault(error: SbpfError, s: State)
    | Panic

  // ---- Syscalls ----

  /** Some byte of the range sits at or beyond address 2^64 - 1, where a byte
      access panics (and where the loop's address sum would overflow next). */
  predicate RangeOverflows(a: u64, n: u64) { n > 0 && a + n >= 0x1_0000_0000_0000_0000 }

  const SOL_LOG: u32 := 0x686093bb
  const SOL_PANIC: u32 := 0x52ba5096
  const SOL_MEMCPY: u32 := 0xa92366c4
  const SOL_MEMSET: u32 := 0x3770fb22
  const SOL_MEMMOVE: u32 := 0x0d667e63
  const SOL_SET_RETURN_DATA: u32 := 0x5b839aba

  function Memcpy(kind: Syscalls, m: Memory, dst: u64, src: u64, n: u64): Memory {
    match kind
    case Guest => CopyInOrder(m, dst, src, n)
    case Stub => Store(m, dst, Fetch(m, src, n))
  }

  function Memset(m: Memory, dst: u64, val: u8, n: u64): Memory {
    Store(m, dst, seq<u8>(n, _ => val))
  }

  function Memmove(m: Memory, dst: u64, src: u64, n: u64): Memory {
    Store(m, dst, Fetch(m, src, n))
  }

  /** memmove moves the bytes as they were before, also between overlapping ranges;
      unmapped sources count as 0 and unmapped destinations are skipped. */
  lemma MemmoveBytes(m: Memory, dst: u64, src: u64, n: u64, x: nat)
    ensures ByteAt(Memmove(m, dst, src, n), x) ==
            if Mapped(m, x) && dst <= x < dst as int + n then Some(ByteOr0(m, src + (x - dst))) else ByteAt(m, x)
  {
    StoredBytes(m, dst, Fetch(m, src, n), x);
    hide Mapped, ByteAt;
  }

  lemma MemsetBytes(m: Memory, dst: u64, val: u8, n: u64, x: nat)
    ensures ByteAt(Memset(m, dst, val, n), x) ==
            if Mapped(m, x) && dst <= x < dst as int + n then Some(val) else ByteAt(m, x)
  {
    StoredBytes(m, dst, seq<u8>(n, _ => val), x);
    hide Mapped, ByteAt;
  }

  function ExecSyscall(kind: Syscalls, hash: u32, regs: Regs, mem: Memory, ret: seq<u8>): (e: Effect)
    ensures e.Service? || e.Advance? || e.Panics?
    ensures e.Service? ==> |e.mem.heap| == |mem.heap| && |e.mem.stack| == |mem.stack|
  {
    var r1, r2, r3 := regs[1], regs[2], regs[3];
    if hash == SOL_LOG || hash == SOL_PANIC then Service(mem, ret)
    else if hash == SOL_MEMCPY then
      if RangeOverflows(r1, r3) || RangeOverflows(r2, r3) then Panics
      else Service(Memcpy(kind, mem, r1, r2, r3), ret)
    else if hash == SOL_MEMSET then
      if RangeOverflows(r1, r3) then Panics else Service(Memset(mem, r1, r2 % 0x100, r3), ret)
    else if hash == SOL_MEMMOVE then
      if RangeOverflows(r1, r3) || RangeOverflows(r2, r3) then Panics
      else Service(Memmove(mem, r1, r2, r3), ret)
    else if hash == SOL_SET_RETURN_DATA || hash == 5 then
      if RangeOverflows(r1, r2) then Panics else Service(mem, Fetch(mem, r1, r2))
    else Advance
  }

  // ---- One instruction ----

  /** The second operand of an ALU or conditional-jump instruction. */
  function Operand(i: Insn, regs: Regs): u64
    requires RegisterForm(i.opcode) ==> i.src < 11
  {
    if RegisterForm(i.opcode) then regs[i.src] else Wrap64(i.imm)
  }

  function ExecAlu(checks: bool, i: Insn, regs: Regs): Effect
    requires IsAlu(i.opcode)
  {
    if RegisterForm(i.opcode) && i.src >= 11 then Panics
    else
      var x := if i.dst < 11 then regs[i.dst] else 0;
      match Alu(checks, i.opcode, x, Operand(i, regs))
      case DivideByZero => Fails(DivisionByZero)
      case NegateOverflow => Panics
      case Value(v) => if i.dst < 11 then SetReg(i.dst, v) else Panics
  }

  function ExecLongLoad(i: Insn, next: Option<u64>): Effect {
    match next
    case None => Truncated
    case Some(hi) => if i.dst < 11 then SetRegLong(i.dst, LongImmediate(i.imm, hi / 0x1_0000_0000)) else Panics
  }

  function ExecLoad(i: Insn, regs: Regs, mem: Memory): Effect
    requires LoadSize(i.opcode) > 0
  {
    if i.src >= 11 then Panics
    else
      var addr := Wrap64(regs[i.src] + i.off);
      match Read(mem, addr, LoadSize(i.opcode))
      case Overflows => Panics
      case Rejected => Fails(InvalidMemoryAccess(addr, LoadSize(i.opcode)))
      case Got(v) =>
        if i.dst < 11 then SetReg(i.dst, v) else Panics
  }

  function ExecStore(i: Insn, size: nat, v: u64, regs: Regs, mem: Memory): (e: Effect)
    requires i.dst < 11
    ensures e.SetMem? ==> |e.mem.heap| == |mem.heap| && |e.mem.stack| == |mem.stack|
    ensures e.SetMem? || e.Panics? || e.Fails?
  {
    var addr := Wrap64(regs[i.dst] + i.off);
    match Write(mem, addr, size, v)
    case Overflows => Panics
    case Rejected => Fails(InvalidMemoryAccess(addr, size))
    case Got(m) => SetMem(m)
  }

  function ExecConditional(i: Insn, regs: Regs): Effect
    requires IsConditional(i.opcode)
  {
    if i.dst >= 11 || (RegisterForm(i.opcode) && i.src >= 11) then Panics
    else if Taken(i.opcode, regs[i.dst], Operand(i, regs)) then Goto(i.off)
    else Advance
  }

  /** The effect of one instruction; `next` is the following text word, if any.
      Register fields 11..15 index past the register file, which panics. */
  function Exec(b: Build, i: Insn, next: Option<u64>, regs: Regs, mem: Memory, ret: seq<u8>): (e: Effect)
    ensures e.Goto? ==> IsJump(i.opcode) && e.off == i.off
    ensures e.Invoke? ==> i.opcode == 0x85 && i.src != 1 && e.imm == i.imm
    ensures e.Return? <==> i.opcode == 0x95
    ensures e.SetReg? || e.SetRegLong? ==> e.dst < 11
    ensures e.SetRegLong? ==> next.Some?
    ensures e.Truncated? ==> next.None?
    ensures e.Fails? ==> !e.error.OutOfBounds? && !e.error.CallStackOverflow?
    ensures e.SetMem? || e.Service? ==> |e.mem.heap| == |mem.heap| && |e.mem.stack| == |mem.stack|
  {
    var op := i.opcode;
    if IsAlu(op) then ExecAlu(b.overflowChecks, i, regs)
    else if op == 0x18 then ExecLongLoad(i, next)
    else if LoadSize(op) > 0 then ExecLoad(i, regs, mem)
    else if StoreRegSize(op) > 0 then
      if i.dst >= 11 || i.src >= 11 then Panics
      else ExecStore(i, StoreRegSize(op), regs[i.src], regs, mem)
    else if StoreImmSize(op) > 0 then
      if i.dst >= 11 then Panics else ExecStore(i, StoreImmSize(op), Wrap64(i.imm), regs, mem)
    else if op == 0x05 then Goto(i.off)
    else if IsConditional(op) then ExecConditional(i, regs)
    else if op == 0x85 then
      if i.src == 1 then ExecSyscall(b.syscalls, Low32(i.imm), regs, mem, ret) else Invoke(i.imm)
    else if op == 0x8D then ExecSyscall(b.syscalls, Low32(i.imm), regs, mem, ret)
    else if op == 0x95 then Return
    else Fails(UnknownOpcode(op))
  }

  /** `(pc as i64 + offset as i64) as usize`: a negative target wraps to an index
      past every text. */
  function Target(pc: nat, offset: int): u64 { Wrap64(pc + offset) }

  /** `s` is the state after the fetch has advanced the program counter. */
  function Apply(s: State, e: Effect): Outcome
    requires s.pc < 0x1000_0000_0000_0000
    requires e.SetReg? || e.SetRegLong? ==> e.dst < 11
  {
    match e
    case Advance => Running(s)
    case SetReg(dst, v) => Running(s.(regs := s.regs[dst := v]))
    case SetRegLong(dst, v) => Running(s.(regs := s.regs[dst := v], pc := s.pc + 1))
    case SetMem(m) => Running(s.(mem := m))
    case Goto(off) => Running(s.(pc := Target(s.pc, off)))
    case Invoke(imm) =>
      if |s.frames| >= MAX_CALL_DEPTH then Fault(CallStackOverflow, s)
      else Running(s.(frames := s.frames + [Frame(s.pc, s.regs)], pc := Target(s.pc, imm)))
    case Return =>
      if s.frames == [] then Halted(s.regs[0], s)
      else
        var f := s.frames[|s.frames| - 1];
        Running(s.(frames := s.frames[..|s.frames| - 1], regs := f.regs[0 := s.regs[0]], pc := f.pc))
    case Service(m, ret) => Running(s.(mem := m, ret := ret, regs := s.regs[0 := 0]))
    case Truncated => Fault(OutOfBounds(s.pc), s)
    case Fails(error) => Fault(error, s)
    case Panics => Panic
  }

  function Following(text: Text, pc: nat): Option<u64> {
    if pc < |text| then Some(text[pc]) else None
  }

  /** The effect of the instruction at the program counter. */
  function EffectAt(b: Build, text: Text, s: State): Effect
    requires s.pc < |text|
  {
    Exec(b, Decode(text[s.pc]), Following(text, s.pc + 1), s.regs, s.mem, s.ret)
  }

  function Step(b: Build, text: Text, s: State): Outcome {
    if s.pc >= |text| then Fault(OutOfBounds(s.pc), s)
    else Apply(s.(pc := s.pc + 1), EffectAt(b, text, s))
  }

  /** At most `fuel` steps of the interpreter's loop. */
  function Run(b: Build, text: Text, s: State, fuel: nat): Outcome
    decreases fuel
  {
    if fuel == 0 then Running(s)
    else
      match Step(b, text, s)
      case Running(s') => Run(b, text, s', fuel - 1)
      case other => other
  }

  /** A fresh VM: r10 holds the top of the stack. */
  function Boot(mem: Memory): State {
    State(seq(11, i => if i == 10 then STACK_BASE + |mem.stack| else 0), 0, [], mem, [])
  }

  // ---- Fuel ----

  /** Running on is the same as running in two legs. */
  lemma {:induction false} RunSplits(b: Build, text: Text, s: State, n: nat, k: nat)
    ensures Run(b, text, s, n + k) ==
            match Run(b, text, s, n) { case Running(s') => Run(b, text, s', k) case other => other }
    decreases n
  {
    hide Step;
    if n > 0 {
      match Step(b, text, s)
      case Running(s') =>
        RunSplits(b, text, s', n - 1, k);
      case _ =>
    }
  }

  /** A finished run is unchanged by more fuel, so the result does not depend on it. */
  lemma MoreFuel(b: Build, text: Text, s: State, n: nat, k: nat)
    requires !Run(b, text, s, n).Running?
    ensures Run(b, text, s, n + k) == Run(b, text, s, n)
  {
    RunSplits(b, text, s, n, k);
  }

  lemma RunOne(b: Build, text: Text, s: State)
    ensures Run(b, text, s, 1) == Step(b, text, s)
  {
    hide Step;
    match Step(b, text, s)
    case Running(s') => assert Run(b, text, s', 0) == Running(s');
    case _ =>
  }

  lemma RunExtends(b: Build, text: Text, s: State, n: nat)
    requires Run(b, text, s, n).Running?
    ensures Run(b, text, s, n + 1) == Step(b, text, Run(b, text, s, n).s)
  {
    hide Step;
    RunSplits(b, text, s, n, 1);
    RunOne(b, text, Run(b, text, s, n).s);
  }

  // ---- The invariant of the interpreter ----

  predicate IsInternalCall(word: u64) {
    Decode(word).opcode == 0x85 && Decode(word).src != 1
  }

  /** A return address points just behind an internal call. */
  predicate ReturnAddress(text: Text, pc: u64) {
    1 <= pc <= |text| && IsInternalCall(text[pc - 1])
  }

  predicate Valid(text: Text, s: State) {
    && |s.frames| <= MAX_CALL_DEPTH
    && forall k | 0 <= k < |s.frames| :: ReturnAddress(text, s.frames[k].pc)
  }

  predicate SameShape(m: Memory, m': Memory) {
    |m.heap| == |m'.heap| && |m.stack| == |m'.stack|
  }

  predicate Keeps(text: Text, s: State, o: Outcome) {
    !o.Panic? ==> Valid(text, o.s) && SameShape(s.mem, o.s.mem)
  }

  lemma StepKeepsValid(b: Build, text: Text, s: State)
    requires Valid(text, s)
    ensures Keeps(text, s, Step(b, text, s))
  {
    hide Exec;
    if s.pc < |text| {
      var e := EffectAt(b, text, s);
    }
  }

  /** Over a whole run: bounded depth, genuine return addresses, fixed region sizes. */
  lemma {:induction false} RunKeepsValid(b: Build, text: Text, s: State, fuel: nat)
    requires Valid(text, s)
    ensures Keeps(text, s, Run(b, text, s, fuel))
    decreases fuel
  {
    hide Step;
    if fuel > 0 {
      StepKeepsValid(b, text, s);
      match Step(b, text, s)
      case Running(s') => RunKeepsValid(b, text, s', fuel - 1);
      case _ =>
    }
  }
}
