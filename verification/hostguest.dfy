/** The conformance host and the zkVM guest run the same interpreter with two
    syscall implementations, possibly built with different overflow checking.
    When do they agree? */
module HostGuest {
  import opened Words
  import opened FlatMemory
  import opened Isa
  import opened Machine

  predicate IsSyscall(i: Insn) { (i.opcode == 0x85 && i.src == 1) || i.opcode == 0x8D }

  /** The instruction is a memcpy whose overlapping ranges feed back. */
  predicate FeedsBack(i: Insn, regs: Regs, mem: Memory) {
    && IsSyscall(i) && Low32(i.imm) == SOL_MEMCPY
    && !RangeOverflows(regs[1], regs[3]) && !RangeOverflows(regs[2], regs[3])
    && !CopyDoesNotFeedBack(mem, regs[1], regs[2], regs[3])
  }

  /** The instruction negates the least integer of its width. */
  predicate NegatesLeast(i: Insn, regs: Regs) {
    && i.dst < 11
    && ((i.opcode == 0x87 && regs[i.dst] == 0x8000_0000_0000_0000)
        || (i.opcode == 0x84 && Low32(regs[i.dst]) == 0x8000_0000))
  }

  /** The two builds cannot differ on the next instruction. */
  predicate AgreesAt(a: Build, b: Build, text: Text, s: State) {
    s.pc < |text| ==>
      var i := Decode(text[s.pc]);
      && (a.syscalls != b.syscalls ==> !FeedsBack(i, s.regs, s.mem))
      && (a.overflowChecks != b.overflowChecks ==> !NegatesLeast(i, s.regs))
  }

  lemma SyscallAgreesIff(i: Insn, regs: Regs, mem: Memory, ret: seq<u8>)
    requires IsSyscall(i)
    ensures ExecSyscall(Stub, Low32(i.imm), regs, mem, ret) == ExecSyscall(Guest, Low32(i.imm), regs, mem, ret)
            <==> !FeedsBack(i, regs, mem)
    ensures FeedsBack(i, regs, mem) ==>
              && ExecSyscall(Stub, Low32(i.imm), regs, mem, ret).Service?
              && ExecSyscall(Guest, Low32(i.imm), regs, mem, ret).Service?
  {
    CopyEqualsSnapshotIff(mem, regs[1], regs[2], regs[3]);
    hide CopyDoesNotFeedBack, CopyInOrder, Store;
  }

  lemma AluAgreesIff(i: Insn, regs: Regs)
    requires IsAlu(i.opcode)
    ensures ExecAlu(true, i, regs) == ExecAlu(false, i, regs) <==> !NegatesLeast(i, regs)
  {
    if i.opcode != 0x87 && i.opcode != 0x84 {
      ChecksOnlyMatterToNegation(i, regs);
    } else {
      hide Bitwise;
    }
  }

  lemma ChecksOnlyMatterToNegation(i: Insn, regs: Regs)
    requires IsAlu(i.opcode) && i.opcode != 0x87 && i.opcode != 0x84
    ensures ExecAlu(true, i, regs) == ExecAlu(false, i, regs)
  {}

  lemma EffectAgreesIff(a: Build, b: Build, i: Insn, next: Option<u64>, regs: Regs, mem: Memory, ret: seq<u8>)
    ensures Exec(a, i, next, regs, mem, ret) == Exec(b, i, next, regs, mem, ret) <==>
            && (a.syscalls != b.syscalls ==> !FeedsBack(i, regs, mem))
            && (a.overflowChecks != b.overflowChecks ==> !NegatesLeast(i, regs))
    ensures var e, f := Exec(a, i, next, regs, mem, ret), Exec(b, i, next, regs, mem, ret);
            e != f ==> (e.Panics? != f.Panics?) || (e.Service? && f.Service?)
  {
    hide ExecAlu, ExecSyscall, ExecLoad, ExecStore, ExecConditional, ExecLongLoad, RangeOverflows, CopyDoesNotFeedBack;
    if IsAlu(i.opcode) {
      AluAgreesIff(i, regs);
      AluPanics(i, regs);
      assert !IsSyscall(i);
    } else if IsSyscall(i) {
      SyscallAgreesIff(i, regs, mem, ret);
    }
  }

  lemma AluPanics(i: Insn, regs: Regs)
    requires IsAlu(i.opcode)
    ensures ExecAlu(true, i, regs) != ExecAlu(false, i, regs) ==>
              ExecAlu(true, i, regs).Panics? && !ExecAlu(false, i, regs).Panics?
  {
    if i.opcode != 0x87 && i.opcode != 0x84 {
      ChecksOnlyMatterToNegation(i, regs);
    }
  }

  /** Two builds take the same step if and only if the instruction is not a memcpy
      that feeds back, run under different syscalls, nor a negation of the least
      integer, run under different overflow checking. */
  lemma StepAgreesIff(a: Build, b: Build, text: Text, s: State)
    ensures Step(a, text, s) == Step(b, text, s) <==> AgreesAt(a, b, text, s)
  {
    if s.pc < |text| {
      EffectAgreesIff(a, b, Decode(text[s.pc]), Following(text, s.pc + 1), s.regs, s.mem, s.ret);
      hide Exec, FeedsBack, NegatesLeast;
      var fetched := s.(pc := s.pc + 1);
      var e, f := EffectAt(a, text, s), EffectAt(b, text, s);
      if e != f && e.Service? && f.Service? {
        assert Apply(fetched, e) != Apply(fetched, f);
      }
    }
  }

  /** The builds cannot differ on any instruction that the run under `a` reaches. */
  ghost predicate AgreesThroughout(a: Build, b: Build, text: Text, s: State, n: nat) {
    forall k | 0 <= k < n :: Run(a, text, s, k).Running? ==> AgreesAt(a, b, text, Run(a, text, s, k).s)
  }

  lemma {:induction false} AgreeingRuns(a: Build, b: Build, text: Text, s: State, n: nat)
    requires AgreesThroughout(a, b, text, s, n)
    ensures Run(a, text, s, n) == Run(b, text, s, n)
    decreases n
  {
    hide Step, AgreesAt;
    if n > 0 {
      AgreeingRuns(a, b, text, s, n - 1);
      match Run(a, text, s, n - 1)
      case Running(t) =>
        StepAgreesIff(a, b, text, t);
        RunExtends(a, text, s, n - 1);
        RunExtends(b, text, s, n - 1);
      case _ =>
        MoreFuel(a, text, s, n - 1, 1);
        MoreFuel(b, text, s, n - 1, 1);
    }
  }

  lemma AgreementIsNeeded(a: Build, b: Build, text: Text, s: State, k: nat)
    requires Run(a, text, s, k) == Run(b, text, s, k) && Run(a, text, s, k + 1) == Run(b, text, s, k + 1)
    requires Run(a, text, s, k).Running?
    ensures AgreesAt(a, b, text, Run(a, text, s, k).s)
  {
    hide Step, AgreesAt;
    RunExtends(a, text, s, k);
    RunExtends(b, text, s, k);
    StepAgreesIff(a, b, text, Run(a, text, s, k).s);
  }

  ghost predicate SameRuns(a: Build, b: Build, text: Text, s: State, n: nat) {
    forall k | 0 <= k <= n :: Run(a, text, s, k) == Run(b, text, s, k)
  }

  /** Host/guest simulation: for every length of run, two builds give the same
      registers, memory, return data and result up to that length if and only if no
      instruction on the way is one they can differ on. */
  lemma BuildsAgreeIff(a: Build, b: Build, text: Text, s: State, n: nat)
    ensures SameRuns(a, b, text, s, n) <==> AgreesThroughout(a, b, text, s, n)
  {
    hide Step, AgreesAt, Run;
    if AgreesThroughout(a, b, text, s, n) {
      forall k | 0 <= k <= n ensures Run(a, text, s, k) == Run(b, text, s, k) {
        AgreeingRuns(a, b, text, s, k);
      }
    } else if SameRuns(a, b, text, s, n) {
      var k :| 0 <= k < n && Run(a, text, s, k).Running? && !AgreesAt(a, b, text, Run(a, text, s, k).s);
      AgreementIsNeeded(a, b, text, s, k);
    }
  }

  /** Every memcpy the run reaches copies towards lower addresses or between
      disjoint ranges. */
  ghost predicate CopiesAreOrdered(b: Build, text: Text, s: State, n: nat) {
    forall k | 0 <= k < n :: Run(b, text, s, k).Running? ==> OrderedAt(text, Run(b, text, s, k).s)
  }

  predicate OrderedAt(text: Text, s: State) {
    s.pc < |text| && IsSyscall(Decode(text[s.pc])) && Low32(Decode(text[s.pc]).imm) == SOL_MEMCPY ==>
      Ordered(s.regs[1], s.regs[2], s.regs[3])
  }

  predicate Ordered(dst: nat, src: nat, n: nat) { dst <= src || src + n <= dst }

  /** The usual discipline suffices, at equal overflow checking. */
  lemma OrderedCopiesAgree(checks: bool, text: Text, s: State, n: nat)
    requires CopiesAreOrdered(Build(Stub, checks), text, s, n)
    ensures Run(Build(Stub, checks), text, s, n) == Run(Build(Guest, checks), text, s, n)
  {
    hide Step;
    var a, b := Build(Stub, checks), Build(Guest, checks);
    forall k | 0 <= k < n && Run(a, text, s, k).Running?
      ensures AgreesAt(a, b, text, Run(a, text, s, k).s)
    {
      OrderedAgrees(a, b, text, Run(a, text, s, k).s);
    }
    AgreeingRuns(a, b, text, s, n);
  }

  lemma OrderedAgrees(a: Build, b: Build, text: Text, s: State)
    requires OrderedAt(text, s) && a.overflowChecks == b.overflowChecks
    ensures AgreesAt(a, b, text, s)
  {
    var dst, src, n := s.regs[1], s.regs[2], s.regs[3];
    if Ordered(dst, src, n) {
      DisjointDoesNotFeedBack(s.mem, dst, src, n);
    }
    hide CopyDoesNotFeedBack;
  }

  /** Without it they do differ: an overlapping forward copy of two bytes. */
  lemma OverlappingCopyDiffers()
    ensures var m := MemoryValue([1, 2, 3], []);
            && Memcpy(Guest, m, HEAP_BASE + 1, HEAP_BASE, 2) == MemoryValue([1, 1, 1], [])
            && Memcpy(Stub, m, HEAP_BASE + 1, HEAP_BASE, 2) == MemoryValue([1, 1, 2], [])
  {
    var m := MemoryValue([1, 2, 3], []);
    assert CopyInOrder(m, HEAP_BASE + 1, HEAP_BASE, 1) == MemoryValue([1, 1, 3], []);
    var bs := Fetch(m, HEAP_BASE, 2);
    assert bs == [1, 2] && bs[..1] == [1];
    assert Store(m, HEAP_BASE + 1, bs[..1]) == MemoryValue([1, 1, 3], []) by {
      assert bs[..1][..0] == [];
    }
  }
}
