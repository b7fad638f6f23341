/** How the host and the guest lay out the predicate's input and start the VM. */
module Entry {
  import opened Words
  import opened FlatMemory
  import opened Isa
  import opened Machine
  import opened HostGuest
  import opened Interpreter
  import opened Semantics

  /** Where the input buffer starts: behind the 8-byte pointer slot. */
  const BUFFER: u64 := 0x3_0000_0008

  const REGION_SIZE: nat := 65536

  /** Bytes that fit behind the pointer slot. */
  const MAX_INPUT: nat := 65528

  function Zeros(n: nat): (z: seq<u8>)
    ensures |z| == n
  {
    seq<u8>(n, _ => 0)
  }

  /** Serialized entry-point input: no accounts, 16 bytes of instruction data
      (balance, threshold), a zero program id. */
  function InputBuffer(balance: u64, threshold: u64): seq<u8> {
    LeBytes(0, 8) + LeBytes(16, 8) + LeBytes(balance, 8) + LeBytes(threshold, 8) + Zeros(32)
  }

  method BuildInputBuffer(balance: u64, threshold: u64) returns (buf: seq<u8>)
    ensures buf == InputBuffer(balance, threshold) && |buf| == 64
  {
    hide LeBytes, Zeros;
    buf := [];
    buf := buf + LeBytes(0, 8);
    buf := buf + LeBytes(16, 8);
    buf := buf + LeBytes(balance, 8);
    buf := buf + LeBytes(threshold, 8);
    buf := buf + Zeros(32);
  }

  function FreshMemory(): Memory { MemoryValue(Zeros(REGION_SIZE), Zeros(REGION_SIZE)) }

  /** The pointer slot at the heap base, the buffer behind it. */
  function Laid(buf: seq<u8>): (m: Memory)
    ensures |m.heap| == REGION_SIZE && |m.stack| == REGION_SIZE
  {
    Store(Write(FreshMemory(), HEAP_BASE, 8, BUFFER).value, BUFFER, buf)
  }

  function EntryState(buf: seq<u8>): State {
    Boot(Laid(buf)).(regs := Boot(Laid(buf)).regs[1 := HEAP_BASE])
  }

  lemma SlotIsWritten()
    ensures Write(FreshMemory(), HEAP_BASE, 8, BUFFER).Got?
  {}

  /** Lays out the input. The host unwraps every write (`strict`), the guest ignores
      failed ones; only an oversized buffer tells them apart. */
  method LayOut(buf: seq<u8>, strict: bool) returns (panicked: bool, mem: RegionMemory)
    requires |buf| < 0x8000_0000_0000_0000
    ensures mem.Valid() && fresh(mem.heap) && fresh(mem.stack)
    ensures panicked <==> strict && |buf| > MAX_INPUT
    ensures !panicked ==> mem.View() == Laid(buf)
  {
    hide Write;
    mem := new RegionMemory(REGION_SIZE, REGION_SIZE);
    assert mem.View() == FreshMemory();
    ghost var slot := Write(FreshMemory(), HEAP_BASE, 8, BUFFER);
    SlotIsWritten();
    var w := mem.WriteAt(HEAP_BASE, 8, BUFFER);
    var bufPtr := BUFFER;
    for i := 0 to |buf|
      invariant mem.Valid() && fresh(mem.heap) && fresh(mem.stack)
      invariant mem.heap.Length == REGION_SIZE && mem.stack.Length == REGION_SIZE
      invariant strict ==> i <= MAX_INPUT
      invariant mem.View() == Store(slot.value, bufPtr, buf[..i])
    {
      ghost var before := mem.View();
      ByteAccess(before, bufPtr + i, buf[i]);
      w := mem.WriteAt(bufPtr + i, 1, buf[i]);
      assert buf[..i + 1][..i] == buf[..i];
      if strict && w != Got(()) {
        panicked := true;
        return;
      }
      assert mem.View() == PutByte(before, bufPtr + i, buf[i]);
    }
    assert buf[..|buf|] == buf;
    panicked := false;
  }

  /** The conformance harness: set up, run, report the result. */
  method RunPredicate(checks: bool, text: Text, balance: u64, threshold: u64, fuel: nat)
    returns (flow: Flow, returnData: seq<u8>)
    ensures match Run(Build(Stub, checks), text, EntryState(InputBuffer(balance, threshold)), fuel)
            case Running(_) => flow == Continue
            case Halted(r0, s) => flow == Done(r0) && returnData == s.ret
            case Fault(error, _) => flow == Failed(error)
            case Panic => flow == Panicked
  {
    hide Run;
    var buf := BuildInputBuffer(balance, threshold);
    var panicked, mem := LayOut(buf, true);
    var vm := new Vm(Build(Stub, checks), text, mem);
    vm.SetReg(1, HEAP_BASE);
    flow := vm.Run(fuel);
    returnData := vm.returnData;
  }

  /** What the guest commits to its journal: (r0, true), or (2^64 - 1, false). */
  function Committed(o: Outcome): Option<(u64, bool)> {
    match o
    case Halted(r0, _) => Some((r0, true))
    case Fault(_, _) => Some((0xFFFF_FFFF_FFFF_FFFF, false))
    case _ => None
  }

  method GuestMain(checks: bool, bytecode: Text, inputBuffer: seq<u8>, fuel: nat) returns (commit: Option<(u64, bool)>)
    requires |inputBuffer| < 0x1_0000_0000
    ensures match Run(Build(Guest, checks), bytecode, EntryState(inputBuffer), fuel)
            case Halted(r0, _) => commit == Some((r0, true))
            case Fault(_, _) => commit == Some((0xFFFF_FFFF_FFFF_FFFF, false))
            case _ => commit == None
    ensures commit == Committed(Run(Build(Guest, checks), bytecode, EntryState(inputBuffer), fuel))
  {
    hide Run;
    var panicked, mem := LayOut(inputBuffer, false);
    var vm := new Vm(Build(Guest, checks), bytecode, mem);
    vm.SetReg(1, HEAP_BASE);
    var flow := vm.Run(fuel);
    match flow
    case Done(r0) => commit := Some((r0, true));
    case Failed(_) => commit := Some((0xFFFF_FFFF_FFFF_FFFF, false));
    case _ => commit := None;
  }

  /** The guest commits what the host run reports, whatever the two builds' overflow
      checking, unless the run reaches an instruction on which builds can differ. */
  lemma HostPredictsGuest(host: Build, guest: Build, text: Text, balance: u64, threshold: u64, fuel: nat)
    requires AgreesThroughout(host, guest, text, EntryState(InputBuffer(balance, threshold)), fuel)
    ensures Committed(Run(guest, text, EntryState(InputBuffer(balance, threshold)), fuel)) ==
            Committed(Run(host, text, EntryState(InputBuffer(balance, threshold)), fuel))
  {
    hide EntryState, InputBuffer;
    AgreeingRuns(host, guest, text, EntryState(InputBuffer(balance, threshold)), fuel);
  }

  // ---- What the program finds in memory ----

  lemma FetchStored(m: Memory, a: nat, bs: seq<u8>, k: nat, n: nat)
    requires k + n <= |bs| && AllMapped(m, a, |bs|)
    ensures Fetch(Store(m, a, bs), a + k, n) == bs[k..k + n]
  {
    var r := Store(m, a, bs);
    var part := bs[k..k + n];
    forall i: nat | i < n ensures Fetch(r, a + k, n)[i] == part[i] {
      StoredBytes(m, a, bs, a + k + i);
    }
    assert Fetch(r, a + k, n) == part;
  }

  /** An 8-byte field of the buffer reads back as a little-endian word. */
  lemma ReadField(buf: seq<u8>, k: nat, v: u64)
    requires k + 8 <= |buf| <= MAX_INPUT && buf[k..k + 8] == LeBytes(v, 8)
    ensures Read(Laid(buf), BUFFER + k, 8) == Got(v)
  {
    var m := Laid(buf);
    ReadComposesBytes(m, BUFFER + k, 8);
    FetchStored(Write(FreshMemory(), HEAP_BASE, 8, BUFFER).value, BUFFER, buf, k, 8);
    Pow2Words();
    LeNatOfLeBytes(v, 8);
  }

  /** The slot that r1 points to holds the buffer's address. */
  lemma ReadPointerSlot(buf: seq<u8>)
    requires |buf| <= MAX_INPUT
    ensures EntryState(buf).regs[1] == HEAP_BASE
    ensures Read(Laid(buf), HEAP_BASE, 8) == Got(BUFFER as nat)
  {
    hide LeBytes, LeNat, Pow2, Read, Store;
    var m0 := FreshMemory();
    var m1 := Write(m0, HEAP_BASE, 8, BUFFER).value;
    var m := Laid(buf);
    ReadComposesBytes(m, HEAP_BASE, 8);
    ReadComposesBytes(m1, HEAP_BASE, 8);
    forall i: nat | i < 8 ensures Fetch(m, HEAP_BASE, 8)[i] == Fetch(m1, HEAP_BASE, 8)[i] {
      StoredBytes(m1, BUFFER, buf, HEAP_BASE + i);
    }
    assert Fetch(m, HEAP_BASE, 8) == Fetch(m1, HEAP_BASE, 8);
    Pow2Words();
    ReadBack(m0, HEAP_BASE, 8, BUFFER);
  }

  /** Through the pointer slot, the program reads no accounts, 16 bytes of
      instruction data, the balance and the threshold. */
  lemma ProgramReadsItsInput(balance: u64, threshold: u64)
    ensures var s := EntryState(InputBuffer(balance, threshold));
            && Read(s.mem, s.regs[1], 8) == Got(BUFFER as nat)
            && Read(s.mem, BUFFER, 8) == Got(0) && Read(s.mem, BUFFER + 8, 8) == Got(16)
            && Read(s.mem, BUFFER + 16, 8) == Got(balance) && Read(s.mem, BUFFER + 24, 8) == Got(threshold)
  {
    hide LeBytes, LeNat, Pow2, Read, Resolve, Store, Zeros;
    var buf := InputBuffer(balance, threshold);
    ReadPointerSlot(buf);
    assert buf[0..8] == LeBytes(0, 8);
    assert buf[8..16] == LeBytes(16, 8);
    assert buf[16..24] == LeBytes(balance, 8);
    assert buf[24..32] == LeBytes(threshold, 8);
    ReadField(buf, 0, 0);
    ReadField(buf, 8, 16);
    ReadField(buf, 16, balance);
    ReadField(buf, 24, threshold);
  }

  /** The 64 KiB at the heap base begin with the slot and the input; what does not fit is
      dropped, and all other bytes of both regions are 0. */
  lemma InitialMemory(buf: seq<u8>, x: nat)
    ensures ByteAt(Laid(buf), x) ==
            if 0x3_0000_0000 <= x < 0x3_0000_0008 then Some(LeBytes(0x3_0000_0008, 8)[x - 0x3_0000_0000])
            else if 0x3_0000_0008 <= x < 0x3_0001_0000 then Some(if x - 0x3_0000_0008 < |buf| then buf[x - 0x3_0000_0008] else 0)
            else if 0x1_0000_0000 <= x < 0x1_0001_0000 then Some(0)
            else None
  {
    hide LeBytes, Write;
    SlotIsWritten();
    WriteStoresBytes(FreshMemory(), HEAP_BASE, 8, BUFFER, x);
    hide Store, Splice;
    StoredBytes(Write(FreshMemory(), HEAP_BASE, 8, BUFFER).value, BUFFER, buf, x);
  }

  // ---- The conformance target's predicate, end to end ----

  /** balance >= threshold: load the pointer, the balance and the threshold, and return 0
      if the comparison holds and 1 otherwise. */
  function ProgramInsn(k: nat): Insn
    requires k < 7
  {
    match k
    case 0 => Insn(0x79, 2, 1, 0, 0)
    case 1 => Insn(0x79, 3, 2, 16, 0)
    case 2 => Insn(0x79, 4, 2, 24, 0)
    case 3 => Insn(0xB7, 0, 0, 0, 0)
    case 4 => Insn(0x3D, 3, 4, 1, 0)
    case 5 => Insn(0xB7, 0, 0, 0, 1)
    case _ => Insn(0x95, 0, 0, 0, 0)
  }

  function ThresholdProgram(): (text: Text)
    ensures |text| == 7
  {
    seq(7, k requires 0 <= k < 7 => Encode(ProgramInsn(k)))
  }

  lemma Fetches(k: nat, s: State)
    requires k < 7 && s.pc == k
    ensures At(ThresholdProgram(), s, ProgramInsn(k))
  {
    EncodeThenDecode(ProgramInsn(k));
    hide Encode, Decode;
  }

  lemma LoadsWord(b: Build, text: Text, s: State, i: Insn, addr: u64, v: u64)
    requires At(text, s, i) && i.opcode == 0x79 && i.src < 11 && i.dst < 11
    requires Addresses(s.regs[i.src], i.off, addr) && Read(s.mem, addr, 8) == Got(v as nat)
    ensures Step(b, text, s) == Running(Behind(text, s).(regs := s.regs[i.dst := v]))
  {
    hide Read, Wrap64;
    WrapAddresses(s.regs[i.src], i.off, addr);
  }

  /** The first three instructions: r3 and r4 hold the balance and the threshold. */
  lemma LoadsOperands(b: Build, s: State, buf: u64, balance: u64, threshold: u64)
    requires s.pc == 0 && buf < 0x8000_0000_0000_0000
    requires Read(s.mem, s.regs[1], 8) == Got(buf as nat)
    requires Read(s.mem, buf + 16, 8) == Got(balance as nat) && Read(s.mem, buf + 24, 8) == Got(threshold as nat)
    ensures Run(b, ThresholdProgram(), s, 3) ==
            Running(s.(pc := 3, regs := s.regs[2 := buf][3 := balance][4 := threshold]))
  {
    hide Read, Step, ThresholdProgram;
    var text := ThresholdProgram();
    var s1 := s.(pc := 1, regs := s.regs[2 := buf]);
    var s2 := s.(pc := 2, regs := s.regs[2 := buf][3 := balance]);
    Fetches(0, s);
    LoadsWord(b, text, s, ProgramInsn(0), s.regs[1], buf);
    Fetches(1, s1);
    LoadsWord(b, text, s1, ProgramInsn(1), buf + 16, balance);
    Fetches(2, s2);
    LoadsWord(b, text, s2, ProgramInsn(2), buf + 24, threshold);
    assert Run(b, text, s, 3) == Run(b, text, s1, 2) == Run(b, text, s2, 1);
    RunOne(b, text, s2);
  }

  /** The comparison. */
  lemma Compares(b: Build, s: State)
    requires s.pc == 4
    ensures Step(b, ThresholdProgram(), s) == Running(s.(pc := if s.regs[3] >= s.regs[4] then 6 else 5))
  {
    hide Step, ThresholdProgram;
    Fetches(4, s);
    JumpStep(b, ThresholdProgram(), s, ProgramInsn(4), s.regs[4]);
    hide Bits64;
  }

  /** The exit. */
  lemma Exits(b: Build, s: State)
    requires s.pc == 6 && s.frames == []
    ensures Run(b, ThresholdProgram(), s, 1).Halted? && Run(b, ThresholdProgram(), s, 1).r0 == s.regs[0]
  {
    hide Step, ThresholdProgram;
    Fetches(6, s);
    ExitStep(b, ThresholdProgram(), s, ProgramInsn(6));
    RunOne(b, ThresholdProgram(), s);
  }

  lemma Decides(b: Build, s: State)
    requires s.pc == 3 && s.frames == []
    ensures var o := Run(b, ThresholdProgram(), s, 4); o.Halted? && o.r0 == if s.regs[3] >= s.regs[4] then 0 else 1
  {
    hide Step, ThresholdProgram;
    var text := ThresholdProgram();
    var s4 := s.(pc := 4, regs := s.regs[0 := 0]);
    Fetches(3, s);
    MovesConstant(b, text, s, ProgramInsn(3), 0);
    Compares(b, s4);
    assert Run(b, text, s, 4) == Run(b, text, s4, 3);
    if s.regs[3] >= s.regs[4] {
      var s6 := s4.(pc := 6);
      Exits(b, s6);
      assert Run(b, text, s4, 3) == Run(b, text, s6, 2);
      MoreFuel(b, text, s6, 1, 1);
    } else {
      var s5 := s4.(pc := 5);
      var s6 := s5.(pc := 6, regs := s5.regs[0 := 1]);
      Fetches(5, s5);
      MovesConstant(b, text, s5, ProgramInsn(5), 1);
      Exits(b, s6);
      assert Run(b, text, s4, 3) == Run(b, text, s5, 2) == Run(b, text, s6, 1);
    }
  }

  lemma MovesConstant(b: Build, text: Text, s: State, i: Insn, v: u64)
    requires At(text, s, i) && i.opcode == 0xB7 && i.dst < 11 && Signed64(v) == i.imm
    ensures Step(b, text, s) == Running(Behind(text, s).(regs := s.regs[i.dst := v]))
  {
    hide Bitwise, Pow2, Step;
    ArithmeticStep(b, text, s, i, v);
  }

  /** End to end: laid out, booted and run in either build, the program decides
      balance >= threshold for all pairs, and that is what the guest commits. */
  lemma ThresholdIsDecided(b: Build, balance: u64, threshold: u64)
    ensures Committed(Run(b, ThresholdProgram(), EntryState(InputBuffer(balance, threshold)), 7)) ==
            Some((if balance >= threshold then 0 else 1, true))
  {
    hide EntryState, InputBuffer, Read, ThresholdProgram;
    ProgramReadsItsInput(balance, threshold);
    EntersAtZero(InputBuffer(balance, threshold));
    var s := EntryState(InputBuffer(balance, threshold));
    LoadsOperands(b, s, BUFFER, balance, threshold);
    RunSplits(b, ThresholdProgram(), s, 3, 4);
    Decides(b, Run(b, ThresholdProgram(), s, 3).s);
  }

  lemma EntersAtZero(buf: seq<u8>)
    ensures EntryState(buf).pc == 0 && EntryState(buf).frames == []
  {}
}
