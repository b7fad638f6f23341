/** Calls are bracketed: whatever a callee does, control comes back just behind
    the call with the caller's registers. */
module Calls {
  import opened Words
  import opened Machine

  /** The first `n` steps run, and the call stack stays deeper than `depth` before
      each of them. */
  ghost predicate StaysDeeper(b: Build, text: Text, s: State, n: nat, depth: nat) {
    forall k | 0 <= k < n :: Run(b, text, s, k).Running? && |Run(b, text, s, k).s.frames| > depth
  }

  lemma StaysDeeperAfterStep(b: Build, text: Text, s: State, n: nat, depth: nat)
    requires n > 0 && StaysDeeper(b, text, s, n, depth) && Step(b, text, s).Running?
    ensures StaysDeeper(b, text, Step(b, text, s).s, n - 1, depth)
  {
    hide Step;
    forall k | 0 <= k < n - 1
      ensures Run(b, text, Step(b, text, s).s, k).Running? && |Run(b, text, Step(b, text, s).s, k).s.frames| > depth
    {
      assert Run(b, text, s, k + 1) == Run(b, text, Step(b, text, s).s, k);
    }
  }

  /** One step either leaves the frames below the top alone or pops exactly the top. */
  lemma StepAtDepth(b: Build, text: Text, s: State, base: seq<Frame>)
    requires base != [] && base <= s.frames
    requires Step(b, text, s).Running?
    ensures var s' := Step(b, text, s).s;
            || base <= s'.frames
            || (s.frames == base && s'.frames == base[..|base| - 1]
                && s'.pc == base[|base| - 1].pc && s'.regs == base[|base| - 1].regs[0 := s.regs[0]])
  {
    hide Exec;
  }

  /** While the stack stays at or above `base`, the frames of `base` are untouched;
      the step that drops below it returns through the top frame of `base`. */
  lemma {:induction false} ReturnsThroughBase(b: Build, text: Text, s: State, n: nat, base: seq<Frame>)
    requires base != [] && base <= s.frames
    requires StaysDeeper(b, text, s, n, |base| - 1)
    requires Run(b, text, s, n).Running? && |Run(b, text, s, n).s.frames| == |base| - 1
    ensures n > 0
    ensures var t := Run(b, text, s, n).s;
            && t.frames == base[..|base| - 1] && t.pc == base[|base| - 1].pc
            && t.regs == base[|base| - 1].regs[0 := Run(b, text, s, n - 1).s.regs[0]]
    decreases n
  {
    hide Step;
    assert Run(b, text, s, 0) == Running(s);
    StepAtDepth(b, text, s, base);
    var s' := Step(b, text, s).s;
    assert Run(b, text, s, 1) == Run(b, text, s', 0) == Running(s');
    StaysDeeperAfterStep(b, text, s, n, |base| - 1);
    if n > 1 {
      ReturnsThroughBase(b, text, s', n - 1, base);
      assert Run(b, text, s, n - 1) == Run(b, text, s', n - 2);
    }
  }

  /** Bracketing: run from an internal call until the stack is first back at the
      caller's depth, over any number of nested calls. The program counter is just
      behind the call, the call stack and r1..r10 are as they were before it, and r0
      is the callee's last: only r0, memory and return data can differ. */
  lemma CallReturns(b: Build, text: Text, s: State, n: nat)
    requires Step(b, text, s).Running? && |Step(b, text, s).s.frames| == |s.frames| + 1
    requires StaysDeeper(b, text, Step(b, text, s).s, n, |s.frames|)
    requires var o := Run(b, text, s, n + 1); o.Running? && |o.s.frames| == |s.frames|
    ensures Run(b, text, s, n).Running? && s.pc < |text|
    ensures var t, r0 := Run(b, text, s, n + 1).s, Run(b, text, s, n).s.regs[0];
            t == State(s.regs[0 := r0], s.pc + 1, s.frames, t.mem, t.ret)
  {
    CallPushes(b, text, s);
    hide Step;
    var s' := Step(b, text, s).s;
    assert Run(b, text, s, n + 1) == Run(b, text, s', n);
    ReturnsThroughBase(b, text, s', n, s'.frames);
    assert Run(b, text, s, n) == Run(b, text, s', n - 1);
    assert s'.frames[..|s.frames|] == s.frames;
  }

  lemma CallPushes(b: Build, text: Text, s: State)
    requires Step(b, text, s).Running? && |Step(b, text, s).s.frames| == |s.frames| + 1
    ensures s.pc < |text|
    ensures Step(b, text, s).s.frames == s.frames + [Frame(s.pc + 1, s.regs)]
  {
    hide Exec;
  }

  /** Until then the callee cannot touch any frame of its callers. */
  lemma {:induction false} CallerFramesUntouched(b: Build, text: Text, s: State, n: nat, base: seq<Frame>)
    requires base != [] && base <= s.frames
    requires StaysDeeper(b, text, s, n + 1, |base| - 1)
    ensures base <= Run(b, text, s, n).s.frames
    decreases n
  {
    hide Step;
    if n > 0 {
      assert Run(b, text, s, 0) == Running(s);
      assert Run(b, text, s, 1).Running?;
      StepAtDepth(b, text, s, base);
      var s' := Step(b, text, s).s;
      assert Run(b, text, s, 1) == Run(b, text, s', 0) == Running(s');
      StaysDeeperAfterStep(b, text, s, n + 1, |base| - 1);
      CallerFramesUntouched(b, text, s', n - 1, base);
    }
  }
}
