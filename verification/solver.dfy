/**
 The steady-state solver for one energy level: the bounded loop that repeats
 the update pass until one of the stopping conditions holds, and what it
 returns.
 */
module Solver {
  import opened Parameters
  import opened Planet
  import opened Dynamics

  /** Why the loop stopped: a species' delta fell to the tolerance, or the pass budget ran out first. */
  datatype ExitReason = Settled | Exhausted

  /** The loop's final state and the number of passes it made. */
  datatype Outcome = Outcome(final: LoopState, iterations: nat, reason: ExitReason)

  /**
   The loop variables as they are reset for each energy level: both deltas
   start above the tolerance and both previous changes start at zero.
   */
  function Start(c: Cover): (ls: LoopState)
    ensures ls.cover == c
    ensures forall sp :: ls.Change(sp) == 0.0 && ls.Delta(sp) > Tolerance
  {
    LoopState(c, 0.0, 0.0, 2.0 * Tolerance, 2.0 * Tolerance, 0.0)
  }

  /**
   The loop guard. The loop goes on only while BOTH deltas exceed the
   tolerance, so it stops as soon as EITHER species' delta is small enough.
   */
  predicate Continues(it: nat, ls: LoopState)
  {
    it <= MaxIterations && ls.darkDelta > Tolerance && ls.lightDelta > Tolerance
  }

  /** The loop from pass counter `it` on, with `step` as the loop body. */
  function Run(step: LoopState -> LoopState, ls: LoopState, it: nat): (o: Outcome)
    ensures it <= o.iterations
    ensures it <= MaxIterations + 1 ==> o.iterations <= MaxIterations + 1
    ensures !Continues(o.iterations, o.final)
    ensures o.reason == Exhausted <==> o.final.darkDelta > Tolerance && o.final.lightDelta > Tolerance
    ensures o.reason == Exhausted ==> o.iterations > MaxIterations
    decreases MaxIterations + 1 - it
  {
    if Continues(it, ls) then
      Run(step, step(ls), it + 1)
    else
      var reason := if ls.darkDelta <= Tolerance || ls.lightDelta <= Tolerance then Settled else Exhausted;
      Outcome(ls, it, reason)
  }

  /**
   Solves one energy level from the given cover. The body always runs at
   least once and at most MaxIterations + 1 times; on exit the guard is
   false, and the outcome is Exhausted exactly when both species were still
   changing by more than the tolerance, which only happens once the budget
   is spent.
   */
  function Solve(root: FourthRoot, energy: real, c: Cover): (o: Outcome)
    ensures 1 <= o.iterations <= MaxIterations + 1
    ensures !Continues(o.iterations, o.final)
    ensures o.reason == Exhausted <==> o.final.darkDelta > Tolerance && o.final.lightDelta > Tolerance
    ensures o.reason == Exhausted ==> o.iterations == MaxIterations + 1
    ensures o.reason == Settled ==> o.final.darkDelta <= Tolerance || o.final.lightDelta <= Tolerance
  {
    Run(StepOf(root, energy), Start(c), 0)
  }

  /**
   Run stops at the first pass counter where the guard fails: its final
   state is the state after that many passes, and the guard held before
   every earlier pass.
   */
  lemma {:induction false} RunIsFirstExit(step: LoopState -> LoopState, ls: LoopState, it: nat)
    ensures Run(step, ls, it).final == Iterate(step, ls, Run(step, ls, it).iterations - it)
    ensures forall j :: 0 <= j < Run(step, ls, it).iterations - it ==> Continues(it + j, Iterate(step, ls, j))
    decreases MaxIterations + 1 - it
  {
    if Continues(it, ls) {
      RunIsFirstExit(step, step(ls), it + 1);
      var n := Run(step, ls, it).iterations;
      assert Run(step, ls, it) == Run(step, step(ls), it + 1);
      assert Iterate(step, ls, n - it) == Iterate(step, step(ls), n - it - 1);
      forall j | 0 <= j < n - it
        ensures Continues(it + j, Iterate(step, ls, j))
      {
        if j > 0 {
          assert Iterate(step, ls, j) == Iterate(step, step(ls), j - 1);
        }
      }
    }
  }

  /**
   The exact stopping rule of Solve: the outcome is the state after
   `iterations` passes from the reset loop variables, the guard held before
   each of those passes and fails after the last.
   */
  lemma SolveIsFirstExit(root: FourthRoot, energy: real, c: Cover)
    ensures Solve(root, energy, c).final == Iterate(StepOf(root, energy), Start(c), Solve(root, energy, c).iterations)
    ensures forall j :: 0 <= j < Solve(root, energy, c).iterations ==>
      Continues(j, Iterate(StepOf(root, energy), Start(c), j))
    ensures !Continues(Solve(root, energy, c).iterations, Solve(root, energy, c).final)
  {
    RunIsFirstExit(StepOf(root, energy), Start(c), 0);
  }

  /**
   Solve keeps the three fractions summing to 1 and each in [0, 1]; since at
   least one pass runs, the living cover it returns is at most MaxLiving.
   */
  lemma SolveKeepsCoverValid(root: FourthRoot, energy: real, c: Cover)
    requires Valid(c)
    ensures Carryable(Solve(root, energy, c).final.cover)
  {
    SolveIsFirstExit(root, energy, c);
    IterateKeepsValid(root, energy, Start(c), Solve(root, energy, c).iterations);
  }

  /**
   Whatever cover Solve starts from, the cover it returns has its bare
   ground recomputed as the remainder, since at least one pass runs.
   */
  lemma SolveConserves(root: FourthRoot, energy: real, c: Cover)
    ensures Conserved(Solve(root, energy, c).final.cover)
  {
    SolveIsFirstExit(root, energy, c);
    IterateConserves(root, energy, Start(c), Solve(root, energy, c).iterations);
  }

  /**
   The temperature Solve reports is the one computed at the start of the
   final pass, from the albedo of the cover before that pass's update.
   */
  lemma RecordedTemperatureIsFinalPassStart(root: FourthRoot, energy: real, c: Cover)
    ensures var o := Solve(root, energy, c);
      o.final.temperature == PlanetTemperature(root, energy, Albedo(Iterate(StepOf(root, energy), Start(c), o.iterations - 1).cover))
  {
    var n := Solve(root, energy, c).iterations;
    SolveIsFirstExit(root, energy, c);
    IterateLast(StepOf(root, energy), Start(c), n - 1);
  }

  /**
   The first delta of each species is compared against a previous change of
   zero, so it is the magnitude of that species' first cover change.
   */
  lemma FirstDeltaIsFirstChange(root: FourthRoot, energy: real, c: Cover, sp: Species)
    ensures var first := Iterate(StepOf(root, energy), Start(c), 1);
      first.Delta(sp) == Abs(first.cover.Area(sp) - c.Area(sp))
  {
    var first := Step(root, energy, Start(c));
    assert Iterate(StepOf(root, energy), Start(c), 1) == first;
    assert first.cover.Area(sp) - c.Area(sp) == first.Change(sp);
  }

  /**
   A species that falls below the minimum cover after some pass j stays
   below it in the cover Solve returns: the floor is not re-applied inside
   the loop.
   */
  lemma LockedOutUntilExit(root: FourthRoot, energy: real, c: Cover, sp: Species, j: nat)
    requires j <= Solve(root, energy, c).iterations
    requires Iterate(StepOf(root, energy), Start(c), j).cover.Area(sp) < MinCover
    ensures Solve(root, energy, c).final.cover.Area(sp) < MinCover
  {
    SolveIsFirstExit(root, energy, c);
    LockedOutLater(root, energy, Start(c), sp, j, Solve(root, energy, c).iterations);
  }

  /**
   One energy level as `gaia/mondoMargherite.py` writes it: the loop variables are reset
   and the loop runs. It computes exactly what Solve computes.
   */
  method SolveLoop(root: FourthRoot, energy: real, c: Cover) returns (o: Outcome)
    ensures o == Solve(root, energy, c)
    ensures 1 <= o.iterations <= MaxIterations + 1
  {
    o := Loop(root, energy, c.dark, c.light, c.bare, 0.0, 0.0, 2.0 * Tolerance, 2.0 * Tolerance, 0.0);
    assert LoopState(Cover(c.dark, c.light, c.bare), 0.0, 0.0, 2.0 * Tolerance, 2.0 * Tolerance, 0.0) == Start(c);
  }

  /**
   The while loop over separate mutable variables, from pass counter 0. It
   computes what Run computes from the same variables.
   */
  method Loop(root: FourthRoot, energy: real, dark0: real, light0: real, bare0: real,
              darkPrevious0: real, lightPrevious0: real, darkDelta0: real, lightDelta0: real, temperature0: real)
    returns (o: Outcome)
    ensures o == Run(StepOf(root, energy), LoopState(Cover(dark0, light0, bare0), darkPrevious0, lightPrevious0, darkDelta0, lightDelta0, temperature0), 0)
  {
    var dark, light, bare := dark0, light0, bare0;
    var darkPrevious, lightPrevious := darkPrevious0, lightPrevious0;
    var darkDelta, lightDelta := darkDelta0, lightDelta0;
    var temperature := temperature0;
    var it: nat := 0;
    while it <= MaxIterations && darkDelta > Tolerance && lightDelta > Tolerance
      invariant it <= MaxIterations + 1
      invariant Run(StepOf(root, energy), LoopState(Cover(dark, light, bare), darkPrevious, lightPrevious, darkDelta, lightDelta, temperature), it)
             == Run(StepOf(root, energy), LoopState(Cover(dark0, light0, bare0), darkPrevious0, lightPrevious0, darkDelta0, lightDelta0, temperature0), 0)
      decreases MaxIterations + 1 - it
    {
      ghost var before := LoopState(Cover(dark, light, bare), darkPrevious, lightPrevious, darkDelta, lightDelta, temperature);
      RunStep(StepOf(root, energy), before, it);
      dark, light, bare, darkPrevious, lightPrevious, darkDelta, lightDelta, temperature :=
        Pass(root, energy, dark, light, bare, darkPrevious, lightPrevious);
      it := it + 1;
    }
    var reason := if darkDelta <= Tolerance || lightDelta <= Tolerance then Settled else Exhausted;
    o := Outcome(LoopState(Cover(dark, light, bare), darkPrevious, lightPrevious, darkDelta, lightDelta, temperature), it, reason);
  }

  /**
   The loop body as `gaia/mondoMargherite.py` writes it: from the current fractions and
   the previous changes it computes the new fractions, the new changes,
   their deltas and the planetary temperature, which is what Step computes
   whatever deltas and temperature the state held before.
   */
  method Pass(root: FourthRoot, energy: real, dark: real, light: real, bare: real, darkPrevious: real, lightPrevious: real)
    returns (dark': real, light': real, bare': real, darkChange: real, lightChange: real,
             darkDelta: real, lightDelta: real, temperature: real)
    ensures forall oldDarkDelta, oldLightDelta, oldTemperature ::
      Step(root, energy, LoopState(Cover(dark, light, bare), darkPrevious, lightPrevious, oldDarkDelta, oldLightDelta, oldTemperature))
      == LoopState(Cover(dark', light', bare'), darkChange, lightChange, darkDelta, lightDelta, temperature)
  {
    var albedo := Albedo(Cover(dark, light, bare));
    temperature := PlanetTemperature(root, energy, albedo);
    var darkGrowth := GrowthRate(Dark, LocalTemperature(temperature, albedo, Dark), dark);
    var lightGrowth := GrowthRate(Light, LocalTemperature(temperature, albedo, Light), light);
    darkChange := CoverChange(dark, darkGrowth, bare);
    lightChange := CoverChange(light, lightGrowth, bare);
    darkDelta := Abs(darkChange - darkPrevious);
    lightDelta := Abs(lightChange - lightPrevious);
    dark' := dark + darkChange;
    light' := light + lightChange;
    bare' := 1.0 - (dark' + light');
  }

  /** One pass of the loop, when the guard holds, leaves the outcome unchanged. */
  lemma RunStep(step: LoopState -> LoopState, ls: LoopState, it: nat)
    requires Continues(it, ls)
    ensures Run(step, ls, it) == Run(step, step(ls), it + 1)
  {
  }
}
