/** Every program whose jumps go forward terminates, however it calls itself:
    the call-depth limit bounds the number of steps. */
module Termination {
  import opened Words
  import opened Isa
  import opened Machine

  function Power(base: nat, e: nat): (p: nat)
    ensures base >= 1 ==> p >= 1
  {
    if e == 0 then 1 else
      var p := Power(base, e - 1);
      if base >= 1 then MulAtLeast(base, p); base * p else base * p
  }

  /** Jump offsets are non-negative; calls may go anywhere. */
  predicate ForwardJumps(text: Text) {
    forall p | 0 <= p < |text| && IsJump(Decode(text[p]).opcode) :: Decode(text[p]).off >= 0
  }

  /** Instructions left before the text ends. */
  function Left(text: Text, pc: nat): nat { if pc < |text| then |text| - pc else 0 }

  /** One instruction at depth d may run a whole callee, so it weighs a power of
      |text| + 1 that falls with the depth. */
  function Unit(text: Text, depth: nat): (u: nat)
    requires depth <= MAX_CALL_DEPTH
    ensures u >= 1
  {
    Power(|text| + 1, MAX_CALL_DEPTH - depth)
  }

  function Weight(text: Text, frames: seq<Frame>): nat
    requires |frames| <= MAX_CALL_DEPTH
  {
    if frames == [] then 0
    else
      var d := |frames| - 1;
      Weight(text, frames[..d]) + Left(text, frames[d].pc) * Unit(text, d)
  }

  function Measure(text: Text, s: State): nat
    requires |s.frames| <= MAX_CALL_DEPTH
  {
    Weight(text, s.frames) + Left(text, s.pc) * Unit(text, |s.frames|)
  }

  lemma CallCosts(left: nat, callee: nat, len: nat, unit: nat)
    requires left >= 1 && callee <= len && unit >= 1
    ensures (left - 1) * ((len + 1) * unit) + callee * unit < left * ((len + 1) * unit)
  {
    var big := (len + 1) * unit;
    assert big == len * unit + unit;
    MulMonotone(unit, callee, len);
    assert left * big == (left - 1) * big + big;
  }

  lemma StepCosts(left: nat, left': nat, unit: nat)
    requires left' < left && unit >= 1
    ensures left' * unit < left * unit
  {
    MulMonotone(unit, left' + 1, left);
    assert (left' + 1) * unit == left' * unit + unit;
  }

  lemma StepDecreases(b: Build, text: Text, s: State)
    requires ForwardJumps(text) && |s.frames| <= MAX_CALL_DEPTH
    requires Step(b, text, s).Running?
    ensures var s' := Step(b, text, s).s;
            |s'.frames| <= MAX_CALL_DEPTH && Measure(text, s') < Measure(text, s)
  {
    hide Exec, Weight, Power;
    var s' := Step(b, text, s).s;
    var d := |s.frames|;
    var e := EffectAt(b, text, s);
    if e.Invoke? {
      assert s'.frames[..d] == s.frames;
      CallWeight(text, s, s');
    } else if e.Return? {
      ReturnWeight(text, s, s');
    } else {
      StepCosts(Left(text, s.pc), Left(text, s'.pc), Unit(text, d));
    }
  }

  lemma CallWeight(text: Text, s: State, s': State)
    requires |s.frames| < MAX_CALL_DEPTH && s.pc < |text|
    requires |s'.frames| == |s.frames| + 1 && s'.frames[..|s.frames|] == s.frames
    requires s'.frames[|s.frames|].pc == s.pc + 1
    ensures Measure(text, s') < Measure(text, s)
  {
    var d := |s.frames|;
    assert Unit(text, d) == (|text| + 1) * Unit(text, d + 1);
    CallCosts(Left(text, s.pc), Left(text, s'.pc), |text|, Unit(text, d + 1));
  }

  lemma ReturnWeight(text: Text, s: State, s': State)
    requires 0 < |s.frames| <= MAX_CALL_DEPTH && s.pc < |text|
    requires s'.frames == s.frames[..|s.frames| - 1] && s'.pc == s.frames[|s.frames| - 1].pc
    ensures Measure(text, s') < Measure(text, s)
  {
    StepCosts(Left(text, s.pc), 0, Unit(text, |s.frames|));
  }

  lemma {:induction false} RunsOut(b: Build, text: Text, s: State, fuel: nat)
    requires ForwardJumps(text) && |s.frames| <= MAX_CALL_DEPTH
    requires fuel > Measure(text, s)
    ensures !Run(b, text, s, fuel).Running?
    decreases fuel
  {
    hide Step, Measure;
    match Step(b, text, s)
    case Running(s') =>
      StepDecreases(b, text, s);
      RunsOut(b, text, s', fuel - 1);
    case _ =>
  }

  lemma {:induction false} WeightBound(text: Text, frames: seq<Frame>)
    requires |frames| <= MAX_CALL_DEPTH
    ensures Weight(text, frames) + Power(|text| + 1, MAX_CALL_DEPTH + 1 - |frames|)
         <= Power(|text| + 1, MAX_CALL_DEPTH + 1)
    decreases |frames|
  {
    if frames != [] {
      var d := |frames| - 1;
      WeightBound(text, frames[..d]);
      OneMore(Left(text, frames[d].pc), |text|, Unit(text, d));
    }
  }

  lemma OneMore(left: nat, len: nat, unit: nat)
    requires left <= len
    ensures left * unit + unit <= (len + 1) * unit
  {
    MulMonotone(unit, left, len);
    assert (len + 1) * unit == len * unit + unit;
  }

  /** Termination: from any state, a text of L instructions whose jumps go forward
      halts, faults or panics within (L + 1)^65 steps. */
  lemma Terminates(b: Build, text: Text, s: State)
    requires ForwardJumps(text) && |s.frames| <= MAX_CALL_DEPTH
    ensures !Run(b, text, s, Power(|text| + 1, MAX_CALL_DEPTH + 1)).Running?
  {
    var d := |s.frames|;
    WeightBound(text, s.frames);
    OneMore(Left(text, s.pc), |text|, Unit(text, d));
    RunsOut(b, text, s, Power(|text| + 1, MAX_CALL_DEPTH + 1));
  }

  /** A fresh machine needs at most L * (L + 1)^64 + 1 steps. */
  lemma TerminatesFromBoot(b: Build, text: Text, s: State)
    requires ForwardJumps(text) && s.frames == []
    ensures !Run(b, text, s, |text| * Power(|text| + 1, MAX_CALL_DEPTH) + 1).Running?
  {
    MulMonotone(Unit(text, 0), Left(text, s.pc), |text|);
    RunsOut(b, text, s, |text| * Power(|text| + 1, MAX_CALL_DEPTH) + 1);
  }

  lemma BackwardJumpStep(b: Build, s: State)
    requires s.pc == 0
    ensures Step(b, [Encode(Insn(0x05, 0, 0, -1, 0))], s) == Running(s)
  {
    hide ExecAlu, ExecLoad, ExecStore, ExecConditional, ExecSyscall, ExecLongLoad;
    EncodeThenDecode(Insn(0x05, 0, 0, -1, 0));
  }

  /** The restriction on jumps is needed: one backward jump runs for ever. */
  lemma {:induction false} BackwardJumpRunsForever(b: Build, s: State, fuel: nat)
    requires s.pc == 0
    ensures Run(b, [Encode(Insn(0x05, 0, 0, -1, 0))], s, fuel) == Running(s)
    decreases fuel
  {
    hide Step;
    if fuel > 0 {
      BackwardJumpStep(b, s);
      BackwardJumpRunsForever(b, s, fuel - 1);
    }
  }
}
