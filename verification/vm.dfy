/** The interpreter in its own form: a memory whose two buffers are written in
    place, the syscall loops, and a VM that updates its registers, program counter
    and call stack. Each method is proved against the small-step machine. */
module Interpreter {
  import opened Words
  import opened FlatMemory
  import opened Isa
  import opened Machine

  class RegionMemory {
    const heap: array<u8>
    const stack: array<u8>

    ghost predicate Valid() {
      heap != stack && heap.Length < 0x8000_0000_0000_0000 && stack.Length < 0x8000_0000_0000_0000
    }

    ghost function View(): Memory
      reads heap, stack
      requires Valid()
    {
      MemoryValue(heap[..], stack[..])
    }

    constructor (heapSize: nat, stackSize: nat)
      requires heapSize < 0x8000_0000_0000_0000 && stackSize < 0x8000_0000_0000_0000
      ensures Valid() && fresh(heap) && fresh(stack)
      ensures View() == MemoryValue(seq<u8>(heapSize, _ => 0), seq<u8>(stackSize, _ => 0))
    {
      heap := new u8[heapSize](_ => 0);
      stack := new u8[stackSize](_ => 0);
      new;
      assert heap[..] == seq<u8>(heapSize, _ => 0);
      assert stack[..] == seq<u8>(stackSize, _ => 0);
    }

    /** read_u8 .. read_u64 */
    method ReadAt(addr: u64, size: nat) returns (r: Access<nat>)
      requires Valid()
      ensures r == Read(View(), addr, size)
    {
      match Resolve(heap.Length, stack.Length, addr, size)
      case OnStack(off) => r := Got(LeNat(stack[off..off + size]));
      case OnHeap(off) => r := Got(LeNat(heap[off..off + size]));
      case Nowhere => r := Rejected;
      case Overflow => r := Overflows;
    }

    /** write_u8 .. write_u64: stores the low `size` bytes of v. */
    method WriteAt(addr: u64, size: nat, v: nat) returns (r: Access<()>)
      requires Valid()
      modifies heap, stack
      ensures match Write(old(View()), addr, size, v)
              case Got(m) => r == Got(()) && View() == m
              case Rejected => r == Rejected && View() == old(View())
              case Overflows => r == Overflows && View() == old(View())
    {
      match Resolve(heap.Length, stack.Length, addr, size)
      case OnStack(off) =>
        Fill(stack, off, LeBytes(v, size));
        r := Got(());
      case OnHeap(off) =>
        Fill(heap, off, LeBytes(v, size));
        r := Got(());
      case Nowhere => r := Rejected;
      case Overflow => r := Overflows;
    }

    static method Fill(a: array<u8>, off: nat, bs: seq<u8>)
      requires off + |bs| <= a.Length
      modifies a
      ensures a[..] == Splice(old(a[..]), off, bs)
    {
      for k := 0 to |bs|
        invariant forall i :: 0 <= i < a.Length ==> a[i] == if off <= i < off + k then bs[i - off] else old(a[i])
      {
        a[off + k] := bs[k];
      }
      assert a[..] == Splice(old(a[..]), off, bs);
    }

    /** `read_u8(a).unwrap_or(0)` */
    method FetchByte(a: u64) returns (panicked: bool, b: u8)
      requires Valid()
      ensures panicked <==> a == 0xFFFF_FFFF_FFFF_FFFF
      ensures !panicked ==> b == ByteOr0(View(), a)
    {
      ByteAccess(View(), a, 0);
      var r := ReadAt(a, 1);
      panicked, b := r.Overflows?, 0;
      if r.Got? { b := r.value; }
    }

    /** `let _ = write_u8(a, b)` */
    method StoreByte(a: u64, b: u8) returns (panicked: bool)
      requires Valid()
      modifies heap, stack
      ensures panicked <==> a == 0xFFFF_FFFF_FFFF_FFFF
      ensures !panicked ==> View() == PutByte(old(View()), a, b)
    {
      ByteAccess(View(), a, b);
      var r := WriteAt(a, 1, b);
      panicked := r.Overflows?;
    }

    // ---- Syscall loops. The sums `src + i` and `dst + i` never overflow: the byte
    // access at address 2^64 - 1 panics one step earlier. ----

    /** The guest's memcpy. */
    method CopyForward(dst: u64, src: u64, n: u64) returns (panicked: bool)
      requires Valid()
      modifies heap, stack
      ensures panicked <==> RangeOverflows(src, n) || RangeOverflows(dst, n)
      ensures !panicked ==> View() == CopyInOrder(old(View()), dst, src, n)
    {
      for i := 0 to n
        invariant src + i < 0x1_0000_0000_0000_0000 && dst + i < 0x1_0000_0000_0000_0000
        invariant View() == CopyInOrder(old(View()), dst, src, i)
      {
        var b;
        panicked, b := FetchByte(src + i);
        if panicked { return; }
        panicked := StoreByte(dst + i, b);
        if panicked { return; }
      }
      panicked := false;
    }

    /** `(0..n).map(|i| read_u8(a + i).unwrap_or(0)).collect()` */
    method Collect(a: u64, n: u64) returns (panicked: bool, bytes: seq<u8>)
      requires Valid()
      ensures panicked <==> RangeOverflows(a, n)
      ensures !panicked ==> bytes == Fetch(View(), a, n)
    {
      bytes := [];
      for i := 0 to n
        invariant a + i < 0x1_0000_0000_0000_0000
        invariant bytes == Fetch(View(), a, i)
      {
        var b;
        panicked, b := FetchByte(a + i);
        if panicked { return; }
        bytes := bytes + [b];
      }
      panicked := false;
    }

    method StoreAll(a: u64, bytes: seq<u8>) returns (panicked: bool)
      requires Valid() && |bytes| < 0x1_0000_0000_0000_0000
      modifies heap, stack
      ensures panicked <==> RangeOverflows(a, |bytes|)
      ensures !panicked ==> View() == Store(old(View()), a, bytes)
    {
      for i := 0 to |bytes|
        invariant a + i < 0x1_0000_0000_0000_0000
        invariant View() == Store(old(View()), a, bytes[..i])
      {
        assert bytes[..i + 1][..i] == bytes[..i];
        panicked := StoreByte(a + i, bytes[i]);
        if panicked { return; }
      }
      assert bytes[..|bytes|] == bytes;
      panicked := false;
    }

    /** memmove, and the host's memcpy: collect first, then store. */
    method CopyBuffered(dst: u64, src: u64, n: u64) returns (panicked: bool)
      requires Valid()
      modifies heap, stack
      ensures panicked <==> RangeOverflows(src, n) || RangeOverflows(dst, n)
      ensures !panicked ==> View() == Store(old(View()), dst, Fetch(old(View()), src, n))
    {
      var bytes;
      panicked, bytes := Collect(src, n);
      if panicked { return; }
      panicked := StoreAll(dst, bytes);
    }

    method Memcpy(kind: Syscalls, dst: u64, src: u64, n: u64) returns (panicked: bool)
      requires Valid()
      modifies heap, stack
      ensures panicked <==> RangeOverflows(src, n) || RangeOverflows(dst, n)
      ensures !panicked ==> View() == Machine.Memcpy(kind, old(View()), dst, src, n)
    {
      match kind
      case Guest => panicked := CopyForward(dst, src, n);
      case Stub => panicked := CopyBuffered(dst, src, n);
    }

    method Memset(dst: u64, val: u8, n: u64) returns (panicked: bool)
      requires Valid()
      modifies heap, stack
      ensures panicked <==> RangeOverflows(dst, n)
      ensures !panicked ==> View() == Machine.Memset(old(View()), dst, val, n)
    {
      ghost var bytes := seq<u8>(n, _ => val);
      for i := 0 to n
        invariant dst + i < 0x1_0000_0000_0000_0000
        invariant View() == Store(old(View()), dst, bytes[..i])
      {
        assert bytes[..i + 1][..i] == bytes[..i];
        panicked := StoreByte(dst + i, val);
        if panicked { return; }
      }
      assert bytes[..n] == bytes;
      panicked := false;
    }
  }

  /** How the loop goes on after an instruction, and how `run` ends. */
  datatype Flow = Continue | Done(r0: u64) | Failed(error: SbpfError) | Panicked

  class Vm {
    const build: Build
    const text: Text
    const regs: array<u64>
    var pc: u64
    var callStack: seq<Frame>
    const mem: RegionMemory
    var returnData: seq<u8>

    ghost predicate Valid() {
      regs.Length == 11 && mem.Valid() && (regs as object) != mem.heap && (regs as object) != mem.stack
    }

    ghost function View(): State
      reads this, regs, mem.heap, mem.stack
      requires Valid()
    {
      State(regs[..], pc, callStack, mem.View(), returnData)
    }

    /** The flow and the current state are those of the machine's outcome. */
    ghost predicate Shows(flow: Flow, o: Outcome)
      reads this, regs, mem.heap, mem.stack
      requires Valid()
    {
      match o
      case Running(s) => flow == Continue && View() == s
      case Halted(r0, s) => flow == Done(r0) && View() == s
      case Fault(error, s) => flow == Failed(error) && View() == s
      case Panic => flow == Panicked
    }

    constructor (build: Build, text: Text, mem: RegionMemory)
      requires mem.Valid()
      ensures Valid() && fresh(regs) && this.mem == mem && this.text == text && this.build == build
      ensures View() == Boot(mem.View())
    {
      this.build, this.text, this.mem := build, text, mem;
      var top: u64 := STACK_BASE + mem.stack.Length;
      regs := new u64[11](i => if i == 10 then top else 0);
      pc, callStack, returnData := 0, [], [];
      new;
      assert regs[..] == Boot(mem.View()).regs;
    }

    method SetReg(dst: nat, v: u64)
      requires Valid() && dst < 11
      modifies regs
      ensures View() == old(View()).(regs := old(View()).regs[dst := v])
    {
      regs[dst] := v;
    }

    method RestoreRegs(saved: Regs)
      requires Valid()
      modifies regs
      ensures View() == old(View()).(regs := saved)
    {
      for k := 0 to 11
        invariant regs[..k] == saved[..k]
      {
        regs[k] := saved[k];
      }
      assert regs[..] == saved;
    }

    method AluInPlace(i: Insn) returns (flow: Flow)
      requires Valid() && pc < 0x1000_0000_0000_0000 && IsAlu(i.opcode)
      modifies regs
      ensures Shows(flow, Apply(old(View()), ExecAlu(build.overflowChecks, i, old(View()).regs)))
    {
      hide Alu;
      if RegisterForm(i.opcode) && i.src >= 11 { return Panicked; }
      var y := if RegisterForm(i.opcode) then regs[i.src] else Wrap64(i.imm);
      var x := if i.dst < 11 then regs[i.dst] else 0;
      match Alu(build.overflowChecks, i.opcode, x, y)
      case DivideByZero => flow := Failed(DivisionByZero);
      case NegateOverflow => flow := Panicked;
      case Value(v) =>
        if i.dst >= 11 { return Panicked; }
        SetReg(i.dst, v);
        flow := Continue;
    }

    method LongLoadInPlace(i: Insn) returns (flow: Flow)
      requires Valid() && pc < 0x1000_0000_0000_0000
      modifies regs, this`pc
      ensures Shows(flow, Apply(old(View()), ExecLongLoad(i, Following(text, old(pc)))))
    {
      hide LongImmediate;
      if pc >= |text| { return Failed(OutOfBounds(pc)); }
      var hi := text[pc] / 0x1_0000_0000;
      if i.dst >= 11 { return Panicked; }
      pc := pc + 1;
      SetReg(i.dst, LongImmediate(i.imm, hi));
      flow := Continue;
    }

    method LoadInPlace(i: Insn) returns (flow: Flow)
      requires Valid() && pc < 0x1000_0000_0000_0000 && LoadSize(i.opcode) > 0
      modifies regs
      ensures Shows(flow, Apply(old(View()), ExecLoad(i, old(View()).regs, old(View()).mem)))
    {
      hide Read;
      if i.src >= 11 { return Panicked; }
      var addr := Wrap64(regs[i.src] + i.off);
      var r := mem.ReadAt(addr, LoadSize(i.opcode));
      match r
      case Overflows => flow := Panicked;
      case Rejected => flow := Failed(InvalidMemoryAccess(addr, LoadSize(i.opcode)));
      case Got(v) =>
        if i.dst >= 11 { return Panicked; }
        SetReg(i.dst, v);
        flow := Continue;
    }

    method StoreInPlace(i: Insn, size: nat, v: u64) returns (flow: Flow)
      requires Valid() && pc < 0x1000_0000_0000_0000 && i.dst < 11
      modifies mem.heap, mem.stack
      ensures Shows(flow, Apply(old(View()), ExecStore(i, size, v, old(View()).regs, old(View()).mem)))
    {
      hide Write;
      var addr := Wrap64(regs[i.dst] + i.off);
      var r := mem.WriteAt(addr, size, v);
      match r
      case Overflows => flow := Panicked;
      case Rejected => flow := Failed(InvalidMemoryAccess(addr, size));
      case Got(_) => flow := Continue;
    }

    method JumpInPlace(i: Insn) returns (flow: Flow)
      requires Valid() && pc < 0x1000_0000_0000_0000 && IsConditional(i.opcode)
      modifies this`pc
      ensures Shows(flow, Apply(old(View()), ExecConditional(i, old(View()).regs)))
    {
      hide Taken;
      if i.dst >= 11 || (RegisterForm(i.opcode) && i.src >= 11) { return Panicked; }
      var y := if RegisterForm(i.opcode) then regs[i.src] else Wrap64(i.imm);
      if Taken(i.opcode, regs[i.dst], y) {
        pc := Target(pc, i.off);
      }
      flow := Continue;
    }

    method CallInPlace(i: Insn) returns (flow: Flow)
      requires Valid() && pc < 0x1000_0000_0000_0000
      modifies this`pc, this`callStack
      ensures Shows(flow, Apply(old(View()), Invoke(i.imm)))
    {
      if |callStack| >= MAX_CALL_DEPTH { return Failed(CallStackOverflow); }
      callStack := callStack + [Frame(pc, regs[..])];
      pc := Target(pc, i.imm);
      flow := Continue;
    }

    method ExitInPlace() returns (flow: Flow)
      requires Valid() && pc < 0x1000_0000_0000_0000
      modifies this`pc, this`callStack, regs
      ensures Shows(flow, Apply(old(View()), Return))
    {
      if callStack == [] { return Done(regs[0]); }
      var f := callStack[|callStack| - 1];
      callStack := callStack[..|callStack| - 1];
      var r0 := regs[0];
      RestoreRegs(f.regs);
      SetReg(0, r0);
      pc := f.pc;
      flow := Continue;
    }

    method DispatchSyscall(hash: u32) returns (flow: Flow)
      requires Valid() && pc < 0x1000_0000_0000_0000
      modifies this`returnData, regs, mem.heap, mem.stack
      ensures Shows(flow, Apply(old(View()),
                ExecSyscall(build.syscalls, hash, old(View()).regs, old(View()).mem, old(View()).ret)))
    {
      hide Machine.Memcpy, Machine.Memset, Store;
      var r1, r2, r3 := regs[1], regs[2], regs[3];
      var panicked := false;
      if hash == SOL_LOG || hash == SOL_PANIC {
      } else if hash == SOL_MEMCPY {
        panicked := mem.Memcpy(build.syscalls, r1, r2, r3);
      } else if hash == SOL_MEMSET {
        panicked := mem.Memset(r1, r2 % 0x100, r3);
      } else if hash == SOL_MEMMOVE {
        panicked := mem.CopyBuffered(r1, r2, r3);
      } else if hash == SOL_SET_RETURN_DATA || hash == 5 {
        var bytes;
        panicked, bytes := mem.Collect(r1, r2);
        if !panicked { returnData := bytes; }
      } else {
        return Continue;
      }
      if panicked { return Panicked; }
      SetReg(0, 0);
      flow := Continue;
    }

    /** One turn of the interpreter's loop. */
    method Step() returns (flow: Flow)
      requires Valid()
      modifies this, regs, mem.heap, mem.stack
      ensures Shows(flow, Machine.Step(build, text, old(View())))
    {
      hide Apply, ExecAlu, ExecLongLoad, ExecLoad, ExecStore, ExecConditional, ExecSyscall;
      if pc >= |text| { return Failed(OutOfBounds(pc)); }
      var i := Decode(text[pc]);
      pc := pc + 1;
      ghost var fetched := old(View()).(pc := old(pc) + 1);
      assert View() == fetched;
      if IsAlu(i.opcode) {
        flow := AluInPlace(i);
      } else if i.opcode == 0x18 {
        flow := LongLoadInPlace(i);
      } else if LoadSize(i.opcode) > 0 {
        flow := LoadInPlace(i);
      } else {
        flow := StepRest(i);
      }
    }

    /** Stores, jumps, calls, exit and unknown opcodes. */
    method StepRest(i: Insn) returns (flow: Flow)
      requires Valid() && pc < 0x1000_0000_0000_0000
      requires !IsAlu(i.opcode) && i.opcode != 0x18 && LoadSize(i.opcode) == 0
      modifies this, regs, mem.heap, mem.stack
      ensures Shows(flow, Apply(old(View()), Exec(build, i, Following(text, old(pc)), old(View()).regs, old(View()).mem, old(View()).ret)))
    {
      hide ExecAlu, ExecLongLoad, ExecLoad, ExecStore, ExecConditional, ExecSyscall;
      var op := i.opcode;
      if StoreRegSize(op) > 0 {
        if i.dst >= 11 || i.src >= 11 { return Panicked; }
        flow := StoreInPlace(i, StoreRegSize(op), regs[i.src]);
      } else if StoreImmSize(op) > 0 {
        if i.dst >= 11 { return Panicked; }
        flow := StoreInPlace(i, StoreImmSize(op), Wrap64(i.imm));
      } else if op == 0x05 {
        pc := Target(pc, i.off);
        flow := Continue;
      } else if IsConditional(op) {
        flow := JumpInPlace(i);
      } else if op == 0x85 {
        if i.src == 1 {
          flow := DispatchSyscall(Low32(i.imm));
        } else {
          flow := CallInPlace(i);
        }
      } else if op == 0x8D {
        flow := DispatchSyscall(Low32(i.imm));
      } else if op == 0x95 {
        flow := ExitInPlace();
      } else {
        flow := Failed(UnknownOpcode(op));
      }
    }

    /** `run`, for at most `fuel` turns of its loop. */
    method Run(fuel: nat) returns (flow: Flow)
      requires Valid()
      modifies this, regs, mem.heap, mem.stack
      ensures Shows(flow, Machine.Run(build, text, old(View()), fuel))
    {
      hide Machine.Step;
      for k := 0 to fuel
        invariant Machine.Run(build, text, old(View()), k) == Running(View())
      {
        RunExtends(build, text, old(View()), k);
        flow := Step();
        if flow != Continue {
          MoreFuel(build, text, old(View()), k + 1, fuel - k - 1);
          return;
        }
      }
      flow := Continue;
    }
  }
}
