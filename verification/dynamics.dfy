/**
 One pass of the steady-state iteration: albedo, planetary and local
 temperatures, clamped parabolic growth rates, cover changes and the update
 of the cover fractions, together with the bookkeeping the stopping rule
 reads.
 */
module Dynamics {
  import opened Parameters
  import opened Planet

  function Abs(x: real): real
  {
    if x < 0.0 then -x else x
  }

  /** Planetary temperature from the radiative-balance law. */
  function PlanetTemperature(root: FourthRoot, energy: real, albedo: real): real
  {
    root(energy * (1.0 - albedo) * Irradiance / Sigma)
  }

  /**
   A species' local temperature: a species darker than the planet as a whole
   runs warmer than the planet, a lighter one cooler.
   */
  function LocalTemperature(planetTemperature: real, planetAlbedo: real, sp: Species): (t: real)
  {
    planetTemperature + Insulation * (planetAlbedo - SpeciesAlbedo(sp))
  }

  /**
   A species runs warmer than the planet exactly when the planet is lighter
   than the species, and at the planet's temperature exactly when their
   albedos agree.
   */
  lemma LocalTemperatureSign(planetTemperature: real, planetAlbedo: real, sp: Species)
    ensures var t := LocalTemperature(planetTemperature, planetAlbedo, sp);
      && (t > planetTemperature <==> planetAlbedo > SpeciesAlbedo(sp))
      && (t == planetTemperature <==> planetAlbedo == SpeciesAlbedo(sp))
      && (t < planetTemperature <==> planetAlbedo < SpeciesAlbedo(sp))
  {
  }

  /** A species can grow: its local temperature is in the viable range and its cover is at least the minimum. */
  predicate Viable(t: real, area: real)
  {
    MinDaisyTemperature <= t <= MaxDaisyTemperature && area >= MinCover
  }

  /**
   The growth rate: a downward parabola around the species' ideal
   temperature, clamped to zero outside the viable range or below the
   minimum cover.
   */
  function GrowthRate(sp: Species, t: real, area: real): real
  {
    if Viable(t, area) then
      1.0 - GrowthCurvature * ((IdealTemperature(sp) - t) * (IdealTemperature(sp) - t))
    else
      0.0
  }

  /**
   With these constants the parabola stays positive over the whole viable
   range, so the rate is positive exactly when the species is viable, never
   exceeds 1, and is 1 at the ideal temperature.
   */
  lemma GrowthRateRange(sp: Species, t: real, area: real)
    ensures var g := GrowthRate(sp, t, area);
      && (g > 0.0 <==> Viable(t, area))
      && (!Viable(t, area) ==> g == 0.0)
      && g <= 1.0
      && (Viable(t, area) && t == IdealTemperature(sp) ==> g == 1.0)
  {
    if Viable(t, area) {
      ParabolaFactored(sp, t);
      ScaledProductNonnegative(t - MinDaisyTemperature, MaxDaisyTemperature - t);
      ScaledProductNonnegative(IdealTemperature(sp) - t, IdealTemperature(sp) - t);
    }
  }

  /**
   The viable range is 17.5 K either side of the ideal temperature, so the
   parabola equals a small positive margin plus a product of the distances
   to the two ends of the range.
   */
  lemma ParabolaFactored(sp: Species, t: real)
    ensures 1.0 - GrowthCurvature * ((IdealTemperature(sp) - t) * (IdealTemperature(sp) - t))
         == 0.00009375 + GrowthCurvature * ((t - MinDaisyTemperature) * (MaxDaisyTemperature - t))
  {
  }

  lemma ScaledProductNonnegative(x: real, y: real)
    requires (0.0 <= x && 0.0 <= y) || x == y
    ensures 0.0 <= GrowthCurvature * (x * y)
  {
  }

  /** The viable range is centred on the ideal temperature, so growth is symmetric about it. */
  lemma GrowthSymmetric(sp: Species, d: real, area: real)
    ensures GrowthRate(sp, IdealTemperature(sp) + d, area) == GrowthRate(sp, IdealTemperature(sp) - d, area)
  {
    var i := IdealTemperature(sp);
    if Viable(i + d, area) {
      ParabolaFactored(sp, i + d);
      ParabolaFactored(sp, i - d);
      assert (i + d - MinDaisyTemperature) * (MaxDaisyTemperature - (i + d))
          == (i - d - MinDaisyTemperature) * (MaxDaisyTemperature - (i - d));
    }
  }

  /**
   The state the loop threads from pass to pass: the cover, the change
   applied to each species on the last pass, the difference between the last
   two changes of each species, and the planetary temperature of the last
   pass.
   */
  datatype LoopState = LoopState(
    cover: Cover,
    darkChange: real,
    lightChange: real,
    darkDelta: real,
    lightDelta: real,
    temperature: real)
  {
    function Change(sp: Species): real
    {
      match sp
      case Dark => darkChange
      case Light => lightChange
    }

    function Delta(sp: Species): real
    {
      match sp
      case Dark => darkDelta
      case Light => lightDelta
    }
  }

  /** The growth rate of a species on the given cover, from the cover's own albedo and temperature. */
  function SpeciesGrowth(root: FourthRoot, energy: real, c: Cover, sp: Species): real
  {
    var a := Albedo(c);
    GrowthRate(sp, LocalTemperature(PlanetTemperature(root, energy, a), a, sp), c.Area(sp))
  }

  /** The cover change of one species: growth needs bare ground, decay does not. */
  function CoverChange(area: real, growth: real, bare: real): real
  {
    area * (growth * bare - DecayRate)
  }

  /** One pass of the loop body. */
  function Step(root: FourthRoot, energy: real, ls: LoopState): (r: LoopState)
    ensures Conserved(r.cover)
    ensures forall sp :: r.cover.Area(sp) == ls.cover.Area(sp) + r.Change(sp)
    ensures forall sp :: r.Delta(sp) == Abs(r.Change(sp) - ls.Change(sp))
    ensures r.temperature == PlanetTemperature(root, energy, Albedo(ls.cover))
  {
    var c := ls.cover;
    var dark := CoverChange(c.dark, SpeciesGrowth(root, energy, c, Dark), c.bare);
    var light := CoverChange(c.light, SpeciesGrowth(root, energy, c, Light), c.bare);
    LoopState(
      WithBare(c.dark + dark, c.light + light),
      dark, light,
      Abs(dark - ls.darkChange), Abs(light - ls.lightChange),
      PlanetTemperature(root, energy, Albedo(c)))
  }

  /** A species' cover after its change: the Retention share survives and growth adds g * bare of it. */
  lemma ChangeSplit(area: real, g: real, bare: real)
    requires 0.0 <= area && 0.0 <= g <= 1.0 && 0.0 <= bare
    ensures Retention * area <= area + CoverChange(area, g, bare) <= Retention * area + area * bare
  {
    assert area + CoverChange(area, g, bare) == Retention * area + area * (g * bare);
    assert g * bare <= bare;
    assert area * (g * bare) <= area * bare;
  }

  /** A living cover s leaves s * (1 + Retention - s) at most, which never exceeds MaxLiving. */
  lemma LivingBound(s: real)
    ensures Retention * s + s * (1.0 - s) <= MaxLiving
  {
    assert Retention * s + s * (1.0 - s) == MaxLiving - (s - 0.85) * (s - 0.85);
  }

  /** The arithmetic core of StepKeepsValid: growth in [0, 1] and decay 0.3 keep the living cover in range. */
  lemma UpdateBounds(d: real, l: real, gd: real, gl: real)
    requires 0.0 <= d && 0.0 <= l && d + l <= 1.0
    requires 0.0 <= gd <= 1.0 && 0.0 <= gl <= 1.0
    ensures var b := 1.0 - (d + l);
      && d + CoverChange(d, gd, b) >= Retention * d
      && l + CoverChange(l, gl, b) >= Retention * l
      && (d + CoverChange(d, gd, b)) + (l + CoverChange(l, gl, b)) <= MaxLiving
  {
    var b := 1.0 - (d + l);
    ChangeSplit(d, gd, b);
    ChangeSplit(l, gl, b);
    LivingBound(d + l);
    assert d * b + l * b == (d + l) * (1.0 - (d + l));
  }

  /** One pass keeps the cover valid and leaves the living cover at most MaxLiving. */
  lemma StepKeepsValid(root: FourthRoot, energy: real, ls: LoopState)
    requires Valid(ls.cover)
    ensures Carryable(Step(root, energy, ls).cover)
    ensures forall sp :: Step(root, energy, ls).cover.Area(sp) >= Retention * ls.cover.Area(sp)
  {
    var c := ls.cover;
    var gd := SpeciesGrowth(root, energy, c, Dark);
    var gl := SpeciesGrowth(root, energy, c, Light);
    GrowthRateRange(Dark, LocalTemperature(PlanetTemperature(root, energy, Albedo(c)), Albedo(c), Dark), c.dark);
    GrowthRateRange(Light, LocalTemperature(PlanetTemperature(root, energy, Albedo(c)), Albedo(c), Light), c.light);
    assert c.bare == 1.0 - (c.dark + c.light);
    UpdateBounds(c.dark, c.light, gd, gl);
  }

  /**
   A species below the minimum cover gets no growth, so a pass keeps only
   the Retention share of it and it stays below the minimum.
   */
  lemma StepDecaysLockedOut(root: FourthRoot, energy: real, ls: LoopState, sp: Species)
    requires ls.cover.Area(sp) < MinCover
    ensures Step(root, energy, ls).cover.Area(sp) == Retention * ls.cover.Area(sp)
    ensures Step(root, energy, ls).cover.Area(sp) < MinCover
  {
    var c := ls.cover;
    GrowthRateRange(sp, LocalTemperature(PlanetTemperature(root, energy, Albedo(c)), Albedo(c), sp), c.Area(sp));
    assert SpeciesGrowth(root, energy, c, sp) == 0.0;
  }

  /** One pass at a fixed energy level, as a function of the loop state alone. */
  function StepOf(root: FourthRoot, energy: real): LoopState -> LoopState
  {
    ls => Step(root, energy, ls)
  }

  /** The state after k applications of a pass. */
  function Iterate(step: LoopState -> LoopState, ls: LoopState, k: nat): LoopState
    decreases k
  {
    if k == 0 then ls else Iterate(step, step(ls), k - 1)
  }

  /** The last of k + 1 passes is one pass after the first k. */
  lemma {:induction false} IterateLast(step: LoopState -> LoopState, ls: LoopState, k: nat)
    ensures Iterate(step, ls, k + 1) == step(Iterate(step, ls, k))
    decreases k
  {
    if k > 0 {
      IterateLast(step, step(ls), k - 1);
    }
  }

  /** Passes compose: j passes followed by n - j passes are n passes. */
  lemma {:induction false} IterateSplit(step: LoopState -> LoopState, ls: LoopState, j: nat, n: nat)
    requires j <= n
    ensures Iterate(step, Iterate(step, ls, j), n - j) == Iterate(step, ls, n)
    decreases j
  {
    if j > 0 {
      IterateSplit(step, step(ls), j - 1, n - 1);
    }
  }

  /** After at least one pass the bare ground is the remainder of the two species. */
  lemma IterateConserves(root: FourthRoot, energy: real, ls: LoopState, k: nat)
    requires k > 0
    ensures Conserved(Iterate(StepOf(root, energy), ls, k).cover)
  {
    IterateLast(StepOf(root, energy), ls, k - 1);
  }

  /** Any number of passes keeps a valid cover valid; at least one pass makes it carryable. */
  lemma {:induction false} IterateKeepsValid(root: FourthRoot, energy: real, ls: LoopState, k: nat)
    requires Valid(ls.cover)
    ensures Valid(Iterate(StepOf(root, energy), ls, k).cover)
    ensures k > 0 ==> Carryable(Iterate(StepOf(root, energy), ls, k).cover)
    decreases k
  {
    if k > 0 {
      StepKeepsValid(root, energy, ls);
      IterateKeepsValid(root, energy, Step(root, energy, ls), k - 1);
    }
  }

  /**
   Once a species is below the minimum cover there is no floor inside the
   loop: it stays below the minimum on every later pass.
   */
  lemma {:induction false} LockedOutStays(root: FourthRoot, energy: real, ls: LoopState, sp: Species, k: nat)
    requires ls.cover.Area(sp) < MinCover
    ensures Iterate(StepOf(root, energy), ls, k).cover.Area(sp) < MinCover
    decreases k
  {
    if k > 0 {
      StepDecaysLockedOut(root, energy, ls, sp);
      LockedOutStays(root, energy, Step(root, energy, ls), sp, k - 1);
    }
  }

  /** Each of those later passes keeps only the Retention share of the locked-out species. */
  lemma LockedOutDecays(root: FourthRoot, energy: real, ls: LoopState, sp: Species, k: nat)
    requires ls.cover.Area(sp) < MinCover
    ensures Iterate(StepOf(root, energy), ls, k + 1).cover.Area(sp)
         == Retention * Iterate(StepOf(root, energy), ls, k).cover.Area(sp)
  {
    var before := Iterate(StepOf(root, energy), ls, k);
    LockedOutStays(root, energy, ls, sp, k);
    IterateLast(StepOf(root, energy), ls, k);
    StepDecaysLockedOut(root, energy, before, sp);
  }

  /** A species below the minimum cover after j passes is still below it after any n >= j passes. */
  lemma LockedOutLater(root: FourthRoot, energy: real, ls: LoopState, sp: Species, j: nat, n: nat)
    requires j <= n
    requires Iterate(StepOf(root, energy), ls, j).cover.Area(sp) < MinCover
    ensures Iterate(StepOf(root, energy), ls, n).cover.Area(sp) < MinCover
  {
    IterateSplit(StepOf(root, energy), ls, j, n);
    LockedOutStays(root, energy, Iterate(StepOf(root, energy), ls, j), sp, n - j);
  }
}
