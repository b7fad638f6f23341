/** Code is position independent: a run on a text gives the same result when the
    text is embedded anywhere in a longer one. */
module Relocation {
  import opened Words
  import opened Isa
  import opened Machine

  /** Every code address lies in the text or just behind it. */
  predicate InText(text: Text, s: State) {
    s.pc <= |text| && forall k | 0 <= k < |s.frames| :: s.frames[k].pc <= |text|
  }

  function ShiftFrames(frames: seq<Frame>, d: nat): (r: seq<Frame>)
    requires d < 0x1000_0000_0000_0000
    requires forall k | 0 <= k < |frames| :: frames[k].pc < 0x1000_0000_0000_0000
    ensures |r| == |frames|
    ensures forall k | 0 <= k < |r| :: r[k] == frames[k].(pc := frames[k].pc + d)
  {
    if frames == [] then [] else [frames[0].(pc := frames[0].pc + d)] + ShiftFrames(frames[1..], d)
  }

  /** The state with the program counter and all return addresses moved. */
  function Shift(text: Text, s: State, d: nat): State
    requires d < 0x1000_0000_0000_0000 && InText(text, s)
  {
    s.(pc := s.pc + d, frames := ShiftFrames(s.frames, d))
  }

  /** The run ended otherwise than by leaving the text (or has not left it yet). */
  predicate StaysInside(text: Text, o: Outcome) {
    && (o.Running? ==> o.s.pc < |text|)
    && (o.Fault? ==> !o.error.OutOfBounds?)
  }

  function ShiftOutcome(text: Text, o: Outcome, d: nat): Outcome
    requires d < 0x1000_0000_0000_0000 && (!o.Panic? ==> InText(text, o.s))
  {
    match o
    case Running(s) => Running(Shift(text, s, d))
    case Halted(r0, s) => Halted(r0, Shift(text, s, d))
    case Fault(error, s) => Fault(error, Shift(text, s, d))
    case Panic => Panic
  }

  lemma ShiftFramesPush(frames: seq<Frame>, f: Frame, d: nat)
    requires d < 0x1000_0000_0000_0000 && f.pc < 0x1000_0000_0000_0000
    requires forall k | 0 <= k < |frames| :: frames[k].pc < 0x1000_0000_0000_0000
    ensures forall k | 0 <= k < |frames + [f]| :: (frames + [f])[k].pc < 0x1000_0000_0000_0000
    ensures ShiftFrames(frames + [f], d) == ShiftFrames(frames, d) + [f.(pc := f.pc + d)]
  {}

  /** A target inside the text moves along; one before it wraps past the end. */
  lemma TargetShifts(text: Text, pc: nat, off: int, d: nat)
    requires pc <= |text| && |text| + d < 0x1000_0000_0000_0000 && -0x8000_0000 <= off < 0x8000_0000
    ensures Target(pc, off) <= |text| ==> Target(pc + d, off) == Target(pc, off) + d
  {}

  /** Applying an effect commutes with the move. `s` is the state after the fetch. */
  lemma ApplyRelocates(text: Text, s: State, e: Effect, d: nat)
    requires d < 0x1000_0000_0000_0000 && |text| + d < 0x1000_0000_0000_0000
    requires InText(text, s) && !e.Truncated?
    requires e.SetReg? || e.SetRegLong? ==> e.dst < 11
    requires StaysInside(text, Apply(s, e))
    ensures var o := Apply(s, e); !o.Panic? ==> InText(text, o.s)
    ensures Apply(Shift(text, s, d), e) == ShiftOutcome(text, Apply(s, e), d)
  {
    hide Target, ShiftFrames;
    if e.Goto? { TargetShifts(text, s.pc, e.off, d); }
    if e.Invoke? { TargetShifts(text, s.pc, e.imm, d); }
    if e.Invoke? && |s.frames| < MAX_CALL_DEPTH {
      ShiftFramesPush(s.frames, Frame(s.pc, s.regs), d);
    } else if e.Return? && s.frames != [] {
      var f := s.frames[|s.frames| - 1];
      var rest := s.frames[..|s.frames| - 1];
      assert s.frames == rest + [f];
      ShiftFramesPush(rest, f, d);
    }
  }

  lemma StepRelocates(b: Build, prefix: Text, text: Text, suffix: Text, s: State)
    requires |prefix + text + suffix| < 0x1000_0000_0000_0000
    requires InText(text, s)
    requires StaysInside(text, Step(b, text, s))
    ensures var o := Step(b, text, s); !o.Panic? ==> InText(text, o.s)
    ensures Step(b, prefix + text + suffix, Shift(text, s, |prefix|)) ==
            ShiftOutcome(text, Step(b, text, s), |prefix|)
  {
    hide Exec, Apply, ShiftFrames, ShiftOutcome;
    var d := |prefix|;
    var whole := prefix + text + suffix;
    var t := Shift(text, s, d);
    var e := EffectAt(b, text, s);
    assert !e.Truncated? by { TruncationLeaves(b, text, s); }
    assert whole[t.pc] == text[s.pc];
    FollowingMatters(b, text, whole, s, t);
    ApplyRelocates(text, s.(pc := s.pc + 1), e, d);
    assert Shift(text, s.(pc := s.pc + 1), d) == t.(pc := t.pc + 1);
  }

  lemma TruncationLeaves(b: Build, text: Text, s: State)
    requires s.pc < |text| && StaysInside(text, Step(b, text, s))
    ensures !EffectAt(b, text, s).Truncated?
  {
    hide Exec;
  }

  /** The word behind an instruction matters to LDDW only. */
  lemma FollowingMatters(b: Build, text: Text, whole: Text, s: State, t: State)
    requires s.pc < |text| && t.pc < |whole| && text[s.pc] == whole[t.pc]
    requires Following(whole, t.pc + 1) == Following(text, s.pc + 1) || s.pc + 1 == |text|
    requires s.regs == t.regs && s.mem == t.mem && s.ret == t.ret
    requires !EffectAt(b, text, s).Truncated?
    ensures EffectAt(b, whole, t) == EffectAt(b, text, s)
  {
    hide ExecAlu, ExecLoad, ExecStore, ExecConditional, ExecSyscall;
  }

  /** Position independence: unless it leaves the text, a run from `s` has the same
      outcome - result, fault, registers, memory and return data - when the text sits
      behind any prefix and before any suffix. */
  lemma {:induction false} RunRelocates(b: Build, prefix: Text, text: Text, suffix: Text, s: State, fuel: nat)
    requires |prefix + text + suffix| < 0x1000_0000_0000_0000
    requires InText(text, s)
    requires StaysInside(text, Run(b, text, s, fuel))
    ensures var o := Run(b, text, s, fuel); !o.Panic? ==> InText(text, o.s)
    ensures Run(b, prefix + text + suffix, Shift(text, s, |prefix|), fuel) ==
            ShiftOutcome(text, Run(b, text, s, fuel), |prefix|)
    decreases fuel
  {
    hide Step, Shift;
    if fuel > 0 {
      FirstStepStaysInside(b, text, s, fuel);
      StepRelocates(b, prefix, text, suffix, s);
      match Step(b, text, s)
      case Running(s') => RunRelocates(b, prefix, text, suffix, s', fuel - 1);
      case _ =>
    }
  }

  lemma FirstStepStaysInside(b: Build, text: Text, s: State, fuel: nat)
    requires fuel > 0 && StaysInside(text, Run(b, text, s, fuel))
    ensures StaysInside(text, Step(b, text, s))
  {
    hide Step;
    if Step(b, text, s).Running? && Step(b, text, s).s.pc >= |text| {
      LeavingIsFinal(b, text, s, fuel);
    }
  }

  /** A run that ends inside the text never left it. */
  lemma LeavingIsFinal(b: Build, text: Text, s: State, fuel: nat)
    requires fuel > 0 && Step(b, text, s).Running? && Step(b, text, s).s.pc >= |text|
    ensures !StaysInside(text, Run(b, text, s, fuel))
  {
    hide Exec;
  }
}
