/**
 The loading splash. Every 100 ms a tick adds a random increment in
 `[0, 15)` to the progress, clamps it at 100 and shows its integer part as
 a percentage. The tick that reaches 100 stops the interval and schedules
 the reveal of the page (hide the splash, set the page's "loaded" flag,
 start the main animations) 500 ms later. The random increment is an input.
 */
module Loading {

  const Full: real := 100.0
  const MaxIncrement: real := 15.0
  const TickInterval: nat := 100
  const RevealDelay: nat := 500

  /** Progress so far, and whether the interval is still ticking. */
  datatype LoadingState = LoadingState(progress: real, ticking: bool)

  const Start: LoadingState := LoadingState(0.0, true)

  /** Outcome of one tick: the new state, the percentage shown, whether
      this tick scheduled the reveal of the page, and the delay until the
      next thing happens (the next tick, or the reveal). */
  datatype Tick = Tick(next: LoadingState, percent: int, completed: bool, delay: nat)

  predicate ValidIncrement(inc: real) {
    0.0 <= inc < MaxIncrement
  }

  predicate Valid(s: LoadingState) {
    0.0 <= s.progress <= Full && (!s.ticking <==> s.progress == Full)
  }

  function Min(a: real, b: real): real {
    if a <= b then a else b
  }

  /** One interval tick while the interval is running. */
  function TickOnce(s: LoadingState, inc: real): (r: Tick)
    requires s.ticking && ValidIncrement(inc)
    ensures s.progress <= Full ==> s.progress <= r.next.progress <= Full
    ensures r.next.progress == Min(s.progress + inc, Full)
    ensures r.completed <==> s.progress + inc >= Full
    ensures r.completed <==> r.next.progress == Full
    ensures r.next.ticking <==> !r.completed
    ensures r.percent as real <= r.next.progress < r.percent as real + 1.0
    ensures r.delay == (if r.completed then RevealDelay else TickInterval)
  {
    var p := s.progress + inc;
    var p := if p > Full then Full else p;
    var done := p >= Full;
    Tick(LoadingState(p, !done), p.Floor, done, if done then RevealDelay else TickInterval)
  }

  /** A tick keeps the splash state valid, and the percentage it shows lies
      in `[0, 100]` and reads 100 exactly when loading has completed. */
  lemma TickKeepsValid(s: LoadingState, inc: real)
    requires Valid(s) && s.ticking && ValidIncrement(inc)
    ensures Valid(TickOnce(s, inc).next)
    ensures 0 <= TickOnce(s, inc).percent <= 100
    ensures TickOnce(s, inc).percent == 100 <==> TickOnce(s, inc).completed
  {
  }

  /** The state after the ticks that deliver the increments `incs`; once the
      interval is cleared, no later increment has any effect. */
  function Run(incs: seq<real>): (s: LoadingState)
    requires forall k | 0 <= k < |incs| :: ValidIncrement(incs[k])
    ensures Valid(s)
  {
    if incs == [] then Start
    else
      var prev := Run(incs[..|incs| - 1]);
      if prev.ticking then TickOnce(prev, incs[|incs| - 1]).next else prev
  }

  /** Once the interval is cleared the state is final: further increments
      change nothing. */
  lemma {:induction false} StoppedRunIsFinal(incs: seq<real>, more: seq<real>)
    requires forall k | 0 <= k < |incs| :: ValidIncrement(incs[k])
    requires forall k | 0 <= k < |more| :: ValidIncrement(more[k])
    requires !Run(incs).ticking
    ensures forall k | 0 <= k < |incs + more| :: ValidIncrement((incs + more)[k])
    ensures Run(incs + more) == Run(incs)
    decreases |more|
  {
    if more != [] {
      var init := more[..|more| - 1];
      assert forall k | 0 <= k < |init| :: init[k] == more[k];
      StoppedRunIsFinal(incs, init);
      assert (incs + more)[..|incs + more| - 1] == incs + init;
    } else {
      assert incs + more == incs;
    }
  }

  function Sum(incs: seq<real>): real {
    if incs == [] then 0.0 else Sum(incs[..|incs| - 1]) + incs[|incs| - 1]
  }

  /** After any run of ticks the progress is the running total clamped at
      100, and the splash has completed exactly when that total reached 100.
      So progress never decreases and never passes 100. */
  lemma {:induction false} RunIsClampedSum(incs: seq<real>)
    requires forall k | 0 <= k < |incs| :: ValidIncrement(incs[k])
    ensures Run(incs).progress == Min(Sum(incs), Full)
    ensures !Run(incs).ticking <==> Sum(incs) >= Full
  {
    if incs != [] {
      var init := incs[..|incs| - 1];
      assert forall k | 0 <= k < |init| :: init[k] == incs[k];
      RunIsClampedSum(init);
    }
  }

  /** Adding ticks never lowers the progress. */
  lemma {:induction false} ProgressMonotone(incs: seq<real>, more: seq<real>)
    requires forall k | 0 <= k < |incs| :: ValidIncrement(incs[k])
    requires forall k | 0 <= k < |more| :: ValidIncrement(more[k])
    ensures forall k | 0 <= k < |incs + more| :: ValidIncrement((incs + more)[k])
    ensures Run(incs).progress <= Run(incs + more).progress
    decreases |more|
  {
    if more != [] {
      var init := more[..|more| - 1];
      assert forall k | 0 <= k < |init| :: init[k] == more[k];
      ProgressMonotone(incs, init);
      assert (incs + more)[..|incs + more| - 1] == incs + init;
    } else {
      assert incs + more == incs;
    }
  }

  lemma {:induction false} SumBelow(incs: seq<real>)
    requires forall k | 0 <= k < |incs| :: ValidIncrement(incs[k])
    ensures Sum(incs) <= MaxIncrement * |incs| as real
    ensures incs != [] ==> Sum(incs) < MaxIncrement * |incs| as real
  {
    if incs != [] {
      var init := incs[..|incs| - 1];
      assert forall k | 0 <= k < |init| :: init[k] == incs[k];
      SumBelow(init);
    }
  }

  /** Since each increment is below 15, the splash needs at least seven
      ticks (700 ms) before it can complete. */
  lemma AtLeastSevenTicks(incs: seq<real>)
    requires forall k | 0 <= k < |incs| :: ValidIncrement(incs[k])
    requires !Run(incs).ticking
    ensures |incs| >= 7
  {
    RunIsClampedSum(incs);
    SumBelow(incs);
  }
}
