# Daisyworld steady states, modelled in Dafny

This project models the core of `gaia/mondoMargherite.py`, an implementation of
Watson and Lovelock's Daisyworld. Two daisy species share a planet with bare
ground:

- dark daisies have albedo 0.25;
- light daisies have albedo 0.75;
- bare ground has albedo 0.5.

For each solar energy level the program does three things:

1. It raises each species' cover to at least 0.01.
2. It repeats an update pass until the year-to-year change of a species' cover stops changing, or a pass budget runs out. One pass computes the planetary albedo, the planetary temperature, each species' local temperature, a clamped parabolic growth rate and the resulting cover changes.
3. It records the final covers, the planetary temperature of the last pass and the temperature a lifeless planet would have. The final covers are then carried to the next energy level.

The model is split into five modules, one per concept:

- `Parameters`: the configuration constants (`gaia/mondoMargherite.py:32-58`).
- `Planet`: the species, the cover fractions, the pre-loop floor and the planetary albedo.
- `Dynamics`:
  - the temperatures and the growth rate;
  - the state threaded through the loop;
  - one update pass (`Step`), and repeated passes of any loop body (`Iterate`).
- `Solver`:
  - the stopping rule;
  - the loop as a recursive function (`Run`, over any loop body; `Solve`, with `Step` as the body);
  - the same loop as an imperative `while` over separate variables (`SolveLoop`, `Loop`, `Pass`), proved equal to `Solve`.
- `Sweep`: the fold over energy levels and what each level records, with the optional reversed order.

All quantities are exact reals. The fourth root in the radiative-balance law is a parameter of type `real -> real`, so every property holds whatever root function is supplied.

## Behaviour of the code worth knowing

- **The stopping rule.** The loop continues only while BOTH species' deltas exceed the tolerance. So it stops as soon as EITHER species' delta is at or below the tolerance, even if the other species is still changing. `Solve` and `SolveIsFirstExit` state this rule exactly.
- **The pass count.** The guard is `it <= 1000`, so a level can take up to 1001 passes, not 1000 (`Solve`).
- **The floor.** It is applied only before each level's loop, never inside it. A species whose cover falls below 0.01 during the loop gets growth 0. It keeps only 70% of its cover on every later pass and stays below 0.01 until the level ends (`StepDecaysLockedOut`, `LockedOutDecays`, `LockedOutUntilExit`).
- **The growth parabola.** With the code's constants it is strictly positive over the whole viable range, because 0.003265 · 17.5² = 0.99990625 < 1. So a growth rate is 0 exactly when the species is not viable (`GrowthRateRange`).

## Model

| member | source | states |
|---|---|---|
| Planet.Initial | gaia/mondoMargherite.py:42-45 | The starting cover has 0.01 of each species with the rest bare; it is valid and leaves room for the floor. |
| Planet.FloorArea | gaia/mondoMargherite.py:81-84 | A floored fraction is at least 0.01 and at least the original, and is either the original or exactly 0.01. |
| Planet.Floor | gaia/mondoMargherite.py:81-85 | After the floor both species are at least 0.01 and never smaller than before. A species below 0.01 becomes exactly 0.01; species already at 0.01 or more are untouched. Bare ground is 1 minus the two species. A carryable cover stays valid. |
| Planet.FloorIdempotent | gaia/mondoMargherite.py:81-85 | Flooring twice is flooring once. |
| Planet.FloorFixesViableCover | gaia/mondoMargherite.py:81-85 | On a conserved cover, the floor changes nothing exactly when both species are already at least 0.01. |
| Planet.Albedo | gaia/mondoMargherite.py:97-99 | The cover-weighted average of the three albedos. No contract of its own; AlbedoRange states its linear form and its range. |
| Planet.AlbedoRange | gaia/mondoMargherite.py:97-99 | On a conserved cover the planetary albedo is 0.5 + 0.25·light − 0.25·dark. On a valid cover it lies between the dark and the light albedo. |
| Dynamics.PlanetTemperature | gaia/mondoMargherite.py:101 | The fourth root of energy · (1 − albedo) · 917 / σ. No contract of its own; RecordedTemperatureIsFinalPassStart and LifelessIsBarePlanet relate it to the recorded temperatures. |
| Dynamics.LocalTemperature | gaia/mondoMargherite.py:103-104 | The planetary temperature shifted by the insulation factor times the albedo difference. No contract of its own; LocalTemperatureSign states the sign of the shift. |
| Dynamics.LocalTemperatureSign | gaia/mondoMargherite.py:103-104 | A species runs warmer than the planet exactly when the planet's albedo exceeds the species' albedo, cooler exactly when it is below, and equal exactly when they agree. |
| Dynamics.GrowthRate | gaia/mondoMargherite.py:107-119 | The clamped parabola. No contract of its own; GrowthRateRange and GrowthSymmetric state its range, its zero set and its symmetry. |
| Dynamics.GrowthRateRange | gaia/mondoMargherite.py:107-119 | The growth rate is positive exactly when the local temperature is in [5, 40] °C and the cover is at least 0.01. Otherwise it is 0. It never exceeds 1 and is 1 at the ideal temperature. |
| Dynamics.ParabolaFactored | gaia/mondoMargherite.py:35-38 | The parabola equals 0.00009375 plus 0.003265 times the product of the distances to the two ends of the viable range, because the ideal temperature is the centre of that range. |
| Dynamics.GrowthSymmetric | gaia/mondoMargherite.py:107-119 | Growth at the ideal temperature plus d equals growth at the ideal temperature minus d. |
| Dynamics.CoverChange | gaia/mondoMargherite.py:122-123 | A species' cover change, cover · (growth · bare − 0.3). No contract of its own; ChangeSplit and StepKeepsValid bound the cover it leaves. |
| Dynamics.Step | gaia/mondoMargherite.py:97-134 | After one pass the three fractions sum to 1. Each species' cover moved by exactly the change the pass records. Each delta is the absolute difference between this pass's change and the previous one. The temperature is computed from the albedo of the cover BEFORE the update. |
| Dynamics.StepKeepsValid | gaia/mondoMargherite.py:121-134 | From a valid cover, one pass keeps both species non-negative and their sum at most 0.7225 (so at most 1). Each species keeps at least 70% of its cover. |
| Dynamics.StepDecaysLockedOut | gaia/mondoMargherite.py:107-123 | A species below 0.01 cover gets no growth. One pass leaves exactly 0.7 of its cover, still below 0.01. |
| Dynamics.IterateConserves | gaia/mondoMargherite.py:132-134 | After at least one pass, bare ground is 1 minus the two species. |
| Dynamics.IterateKeepsValid | gaia/mondoMargherite.py:95-135 | Any number of passes keeps a valid cover valid. After at least one pass it is also carryable. |
| Dynamics.LockedOutStays | gaia/mondoMargherite.py:95-135 | A species below 0.01 stays below 0.01 after any number of further passes; nothing inside the loop floors it. |
| Dynamics.LockedOutDecays | gaia/mondoMargherite.py:95-135 | Once a species is below 0.01, every later pass multiplies its cover by 0.7. |
| Dynamics.LockedOutLater | gaia/mondoMargherite.py:95-135 | A species below 0.01 after j passes is below 0.01 after any n ≥ j passes. |
| Solver.Start | gaia/mondoMargherite.py:88-93 | The reset state keeps the cover, zeroes both previous changes and puts both deltas above the tolerance, so the first guard test passes. |
| Solver.Continues | gaia/mondoMargherite.py:95 | The loop guard. No contract of its own; Run, Solve and RunIsFirstExit state that the loop stops exactly when it first fails. |
| Solver.Run | gaia/mondoMargherite.py:95-135 | The loop stops with the guard false. It is Exhausted exactly when both deltas still exceed the tolerance, and that only happens once the counter passed 1000. From a counter of at most 1001 it stops at a counter of at most 1001. |
| Solver.Solve | gaia/mondoMargherite.py:88-135 | A level makes at least 1 and at most 1001 passes. It stops Settled exactly when one species' delta is at or below the tolerance, and otherwise only after exactly 1001 passes. |
| Solver.RunIsFirstExit | gaia/mondoMargherite.py:95 | Run's final state is the state after its number of passes, and the guard held before every earlier pass. |
| Solver.SolveIsFirstExit | gaia/mondoMargherite.py:88-95 | Solve returns the state after `iterations` passes from the reset state; the guard held before each of those passes and fails after the last. |
| Solver.SolveKeepsCoverValid | gaia/mondoMargherite.py:95-134 | From a valid cover the cover a level ends with is valid, with living cover at most 0.7225. |
| Solver.SolveConserves | gaia/mondoMargherite.py:132-134 | Whatever a level starts from, the cover it ends with has bare ground equal to 1 minus the two species. |
| Solver.RecordedTemperatureIsFinalPassStart | gaia/mondoMargherite.py:95-141 | The temperature a level reports is the one computed at the start of its final pass, from that pass's pre-update cover. |
| Solver.FirstDeltaIsFirstChange | gaia/mondoMargherite.py:91-127 | The first pass's delta is the magnitude of the first cover change, since the previous change starts at 0. |
| Solver.LockedOutUntilExit | gaia/mondoMargherite.py:95-135 | A species below 0.01 after some pass of a level is still below 0.01 in the cover that level ends with. |
| Solver.SolveLoop | gaia/mondoMargherite.py:88-135 | Resetting the loop variables and running the imperative loop gives exactly Solve's outcome, after 1 to 1001 passes. |
| Solver.Loop | gaia/mondoMargherite.py:95-135 | The `while` loop over separate mutable variables computes exactly what Run computes from the same variables. |
| Solver.Pass | gaia/mondoMargherite.py:96-134 | The loop body, statement by statement, produces exactly Step's next state, whatever deltas and temperature the previous state held. |
| Sweep.LifelessIsBarePlanet | gaia/mondoMargherite.py:142 | The lifeless temperature is the planetary temperature of an all-bare cover. |
| Sweep.LifelessIndependentOfCover | gaia/mondoMargherite.py:142 | The lifeless temperatures a sweep records do not depend on the cover it starts from. |
| Sweep.LifelessTemperature | gaia/mondoMargherite.py:142 | The temperature of a bare planet at a level. No contract of its own; LifelessIsBarePlanet equates it to the planetary temperature at albedo 0.5. |
| Sweep.Record | gaia/mondoMargherite.py:138-142 | The history entry of one level. No contract of its own; SweepFrom and SweepCarriesCover state what is recorded. |
| Sweep.SweepFrom | gaia/mondoMargherite.py:79-142 | A sweep records one entry per level, in order. Each entry holds its level and that level's lifeless temperature. Each recorded cover has bare ground equal to 1 minus the two species. |
| Sweep.SweepCarriesCover | gaia/mondoMargherite.py:79-142 | Level 0 solves from the floored starting cover; every later level solves from the floored final cover of the level before it. |
| Sweep.SweepKeepsCoverValid | gaia/mondoMargherite.py:79-142 | From a carryable cover every recorded cover is carryable, so the floor can never push the living cover past the whole planet. |
| Sweep.Reversed | gaia/mondoMargherite.py:69-70 | Reversal keeps the length and puts element n−1−i at position i. |
| Sweep.ReversedTwice | gaia/mondoMargherite.py:69-70 | Reversing twice gives back the original levels. |
| Sweep.Levels | gaia/mondoMargherite.py:68-70 | Levels are visited in the given order, or from the last down when reversal is on. |
| Sweep.Simulate | gaia/mondoMargherite.py:66-142 | A whole run records one entry per level in the configured order, and every recorded cover is carryable. |

## Left out

- Plotting (`gaia/mondoMargherite.py:144-157`) is output only and has no model.
- The energy levels are built with `np.arange(0.5, 1.3, 0.002)` in floating point, so the exact number of levels is a rounding question. The model takes the ascending levels as an input sequence.
- The history arrays are pre-sized with `np.zeros_like`. The model builds the recorded sequence directly; its length equals the number of levels.
- `np.power(…, 0.25)` is a parameter of the model (the fourth root); no property depends on which root is used. A negative radicand (energy below 0) gives NaN in the program; the model has no NaN.
- IEEE-754 rounding is not modelled; every quantity is an exact real. The tolerance comparisons and the 0.01 thresholds are exact.
- Numerical outcomes of particular runs are not claimed: convergence to a steady state, temperature regulation over a range of energies, hysteresis between forward and reversed sweeps, and the mirror symmetry between the two species. That symmetry holds only when both species have identical parameters; the default constants give them different albedos (0.25 and 0.75), and the model fixes the species constants, so it cannot be stated here.
- Dynamics.GrowthRateRange: states that growth is 1 at the ideal temperature but not the converse (that 1 is reached only there); the converse needs nonlinear real reasoning the solver does not complete.
