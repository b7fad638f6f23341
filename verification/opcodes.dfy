/** The opcode tables against the field layout of RFC 9669 (section 3.1 and 4, 5), and
    loads against stores. */
module Opcodes {
  import opened Words
  import opened FlatMemory
  import opened Isa
  import opened Machine

  /** Arithmetic opcodes are classes 4 (32-bit) and 7 (64-bit) with operation codes
      0..12, source bit free - but the interpreter has no 32-bit mod and no register
      form of neg. */
  lemma AluOpcodesIff(op: u8)
    ensures IsAlu(op) <==> op % 8 in {4, 7} && op / 16 <= 12 && op !in {0x94, 0x9C, 0x8C, 0x8F}
  {}

  /** Conditional jumps are class 5 with every code but ja, call, exit and the unused. */
  lemma ConditionalOpcodesIff(op: u8)
    ensures IsConditional(op) <==> op % 8 == 5 && op / 16 in {1, 2, 3, 4, 5, 6, 7, 10, 11, 12, 13}
  {}

  /** Setting the source bit changes where the second operand comes from, nothing else. */
  lemma FormsAgree(checks: bool, op: u8, x: u64, y: u64)
    requires !RegisterForm(op)
    ensures IsAlu(op) && op != 0x87 && op != 0x84 ==> IsAlu(op + 8) && Alu(checks, op + 8, x, y) == Alu(checks, op, x, y)
    ensures IsConditional(op) ==> IsConditional(op + 8) && (Taken(op + 8, x, y) <==> Taken(op, x, y))
  {
    hide IsAlu, IsConditional, Alu, Taken;
    if IsAlu(op) && op != 0x87 && op != 0x84 { AluFormsAgree(checks, op, x, y); }
    if IsConditional(op) { JumpFormsAgree(op, x, y); }
  }

  lemma JumpFormsAgree(op: u8, x: u64, y: u64)
    requires !RegisterForm(op) && IsConditional(op)
    ensures IsConditional(op + 8) && (Taken(op + 8, x, y) <==> Taken(op, x, y))
  {
    hide Bits64, Signed64;
  }

  lemma AluFormsAgree(checks: bool, op: u8, x: u64, y: u64)
    requires !RegisterForm(op) && IsAlu(op) && op != 0x87 && op != 0x84
    ensures IsAlu(op + 8) && Alu(checks, op + 8, x, y) == Alu(checks, op, x, y)
  {
    hide Bits64, Bits32, Pow2, ShiftRight, Quotient, Wrap64, Low32, Signed64, Signed32;
  }

  /** The size field: W, H, B, DW. */
  function SizeField(op: u8): nat {
    match op / 8 % 4
    case 0 => 4
    case 1 => 2
    case 2 => 1
    case _ => 8
  }

  /** Loads are class 1, stores class 2 (immediate) and 3 (register), all in mode 3, and
      move as many bytes as the size field says. */
  lemma MemoryOpcodesIff(op: u8)
    ensures LoadSize(op) == if op % 8 == 1 && op / 32 == 3 then SizeField(op) else 0
    ensures StoreImmSize(op) == if op % 8 == 2 && op / 32 == 3 then SizeField(op) else 0
    ensures StoreRegSize(op) == if op % 8 == 3 && op / 32 == 3 then SizeField(op) else 0
  {}

  /** The interpreter faults with UnknownOpcode exactly outside its tables. */
  lemma UnknownOpcodeIff(b: Build, i: Insn, next: Option<u64>, regs: Regs, mem: Memory, ret: seq<u8>)
    ensures Exec(b, i, next, regs, mem, ret) == Fails(UnknownOpcode(i.opcode)) <==>
            !(IsAlu(i.opcode) || IsConditional(i.opcode) || LoadSize(i.opcode) > 0 || StoreRegSize(i.opcode) > 0
              || StoreImmSize(i.opcode) > 0 || i.opcode in {0x18, 0x05, 0x85, 0x8D, 0x95})
  {
    hide Alu, Read, Write, Taken, LongImmediate;
  }

  lemma {:induction false} LowBytesOnly(v: nat, k: nat)
    ensures LeBytes(v, k) == LeBytes(v % Pow2(8 * k), k) && LeNat(LeBytes(v, k)) == v % Pow2(8 * k)
  {
    var m := Pow2(8 * k);
    if k > 0 {
      var p := Pow2(8 * k - 8);
      Pow2Adds(8, 8 * k - 8);
      Pow2Words();
      LowBytesOnly(v / 0x100, k - 1);
      SplitModulus(v, p);
      assert LeBytes(v, k)[1..] == LeBytes(v / 0x100, k - 1);
    }
  }

  lemma SplitModulus(v: nat, p: nat)
    requires p > 0
    ensures v % (0x100 * p) == 0x100 * (v / 0x100 % p) + v % 0x100
    ensures v % (0x100 * p) / 0x100 == v / 0x100 % p && v % (0x100 * p) % 0x100 == v % 0x100
  {
    var q, r := v / 0x100 / p, v / 0x100 % p;
    MulSplits(0x100, p, q, r);
    QuotientIs(v, 0x100 * p, q, 0x100 * r + v % 0x100);
  }

  /** The value of the low `size` bytes. */
  function LowBytes(v: u64, size: nat): u64 {
    ModBound(v, Pow2(8 * size));
    v % Pow2(8 * size)
  }

  /** A register store followed by the load of the same width through the same address
      leaves the low bytes of the stored register, zero-extended. */
  lemma StoreThenLoad(st: Insn, ld: Insn, regs: Regs, mem: Memory)
    requires StoreRegSize(st.opcode) > 0 && ld.opcode == st.opcode - 2
    requires st.dst < 11 && st.src < 11 && ld.src == st.dst && ld.dst < 11 && ld.off == st.off
    requires Coherent(mem)
    ensures LoadSize(ld.opcode) == StoreRegSize(st.opcode)
    ensures var size := StoreRegSize(st.opcode);
            var e := ExecStore(st, size, regs[st.src], regs, mem);
            e.SetMem? ==> ExecLoad(ld, regs, e.mem) == SetReg(ld.dst, LowBytes(regs[st.src], size))
  {
    hide Read, Write, LowBytes, Coherent, LoadSize, StoreRegSize;
    PairedSizes(st.opcode);
    var addr := Wrap64(regs[st.dst] + st.off);
    var size, v := StoreRegSize(st.opcode), regs[st.src];
    if Write(mem, addr, size, v).Got? {
      WriteThenRead(mem, addr, size, v);
    }
  }

  lemma PairedSizes(op: u8)
    requires StoreRegSize(op) > 0
    ensures op >= 2 && LoadSize(op - 2) == StoreRegSize(op)
  {}

  lemma WriteThenRead(m: Memory, addr: u64, size: nat, v: u64)
    requires Coherent(m) && size > 0 && Write(m, addr, size, v).Got?
    ensures Read(Write(m, addr, size, v).value, addr, size) == Got(LowBytes(v, size) as nat)
  {
    hide LeBytes, LeNat, Pow2, Coherent;
    LowBytesOnly(v, size);
    WriteDependsOnBytes(m, addr, size, v, v % Pow2(8 * size));
    AcceptedDoesNotOverflow(m, addr, size, v);
    hide Read, Write;
    ReadBack(m, addr, size, v % Pow2(8 * size));
  }

  lemma WriteDependsOnBytes(m: Memory, addr: u64, size: nat, v: nat, w: nat)
    requires LeBytes(v, size) == LeBytes(w, size)
    ensures Write(m, addr, size, v) == Write(m, addr, size, w)
  {}

  lemma AcceptedDoesNotOverflow(m: Memory, addr: u64, size: nat, v: nat)
    requires Write(m, addr, size, v).Got?
    ensures addr as int + size < 0x1_0000_0000_0000_0000
  {}
}
