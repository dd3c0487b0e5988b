/**
 The sweep over energy levels: the levels are visited in order (or in
 reverse), the floor is applied before each level's loop, the cover the loop
 ends with is carried to the next level, and each level records the final
 cover, the reported planetary temperature and the temperature of a lifeless
 planet.
 */
module Sweep {
  import opened Parameters
  import opened Planet
  import opened Dynamics
  import opened Solver

  /** One entry of the history arrays: a level, the state reached there and the two temperatures. */
  datatype SweepPoint = SweepPoint(energy: real, cover: Cover, temperature: real, lifeless: real)

  /** The temperature of a bare planet at the given energy level. */
  function LifelessTemperature(root: FourthRoot, energy: real): real
  {
    root((Irradiance * energy / Sigma) * (1.0 - BareAlbedo))
  }

  /** The lifeless temperature is the planetary temperature of a cover that is all bare ground. */
  lemma LifelessIsBarePlanet(root: FourthRoot, energy: real)
    ensures LifelessTemperature(root, energy) == PlanetTemperature(root, energy, Albedo(Cover(0.0, 0.0, 1.0)))
  {
    assert Albedo(Cover(0.0, 0.0, 1.0)) == BareAlbedo;
    assert (Irradiance * energy / Sigma) * (1.0 - BareAlbedo) == energy * (1.0 - BareAlbedo) * Irradiance / Sigma;
  }

  /**
   The lifeless temperatures a sweep records depend only on the levels, not
   on the cover the sweep starts from or on anything the loop computes.
   */
  lemma LifelessIndependentOfCover(root: FourthRoot, levels: seq<real>, c: Cover, d: Cover)
    ensures forall i :: 0 <= i < |levels| ==>
      SweepFrom(root, levels, c)[i].lifeless == SweepFrom(root, levels, d)[i].lifeless
  {
  }

  /** What is written into the history arrays for one level. */
  function Record(root: FourthRoot, energy: real, o: Outcome): SweepPoint
  {
    SweepPoint(energy, o.final.cover, o.final.temperature, LifelessTemperature(root, energy))
  }

  /**
   The sweep from the given cover over the given levels. Each level floors
   the cover it inherits, solves, and hands its final cover to the next.
   Every level records its own energy, the lifeless temperature of that
   energy, and a cover whose bare ground is the remainder of the other two.
   */
  function SweepFrom(root: FourthRoot, levels: seq<real>, c: Cover): (points: seq<SweepPoint>)
    ensures |points| == |levels|
    ensures forall i :: 0 <= i < |levels| ==>
      points[i].energy == levels[i] && points[i].lifeless == LifelessTemperature(root, levels[i])
    ensures forall i :: 0 <= i < |levels| ==> Conserved(points[i].cover)
    decreases |levels|
  {
    if |levels| == 0 then
      []
    else
      var o := Solve(root, levels[0], Floor(c));
      SolveConserves(root, levels[0], Floor(c));
      [Record(root, levels[0], o)] + SweepFrom(root, levels[1..], o.final.cover)
  }

  /**
   The first level solves from the floored starting cover; every later level
   solves from the floored final cover of the level before it.
   */
  lemma {:induction false} SweepCarriesCover(root: FourthRoot, levels: seq<real>, c: Cover)
    ensures var points := SweepFrom(root, levels, c);
      && (0 < |levels| ==> points[0] == Record(root, levels[0], Solve(root, levels[0], Floor(c))))
      && forall i :: 0 < i < |levels| ==>
           points[i] == Record(root, levels[i], Solve(root, levels[i], Floor(points[i - 1].cover)))
    decreases |levels|
  {
    if 0 < |levels| {
      var o := Solve(root, levels[0], Floor(c));
      var points := SweepFrom(root, levels, c);
      var rest := SweepFrom(root, levels[1..], o.final.cover);
      assert points == [Record(root, levels[0], o)] + rest;
      SweepCarriesCover(root, levels[1..], o.final.cover);
      forall i | 0 < i < |levels|
        ensures points[i] == Record(root, levels[i], Solve(root, levels[i], Floor(points[i - 1].cover)))
      {
        assert points[i] == rest[i - 1];
        assert levels[i] == levels[1..][i - 1];
        if i == 1 {
          assert points[0].cover == o.final.cover;
        } else {
          assert points[i - 1] == rest[i - 2];
        }
      }
    }
  }

  /**
   From a carryable cover every recorded cover is carryable again: the three
   fractions stay in [0, 1] and sum to 1, and the floor before the next level
   cannot push the living cover past the whole planet.
   */
  lemma {:induction false} SweepKeepsCoverValid(root: FourthRoot, levels: seq<real>, c: Cover)
    requires Carryable(c)
    ensures forall i :: 0 <= i < |levels| ==> Carryable(SweepFrom(root, levels, c)[i].cover)
    decreases |levels|
  {
    if 0 < |levels| {
      var o := Solve(root, levels[0], Floor(c));
      var points := SweepFrom(root, levels, c);
      var rest := SweepFrom(root, levels[1..], o.final.cover);
      assert points == [Record(root, levels[0], o)] + rest;
      SolveKeepsCoverValid(root, levels[0], Floor(c));
      SweepKeepsCoverValid(root, levels[1..], o.final.cover);
      forall i | 0 < i < |levels|
        ensures Carryable(points[i].cover)
      {
        assert points[i] == rest[i - 1];
      }
    }
  }

  /** The sequence in the opposite order. */
  function Reversed(s: seq<real>): (r: seq<real>)
    ensures |r| == |s|
    ensures forall i :: 0 <= i < |s| ==> r[i] == s[|s| - 1 - i]
  {
    if |s| == 0 then [] else Reversed(s[1..]) + [s[0]]
  }

  /** Reversing twice gives back the original levels. */
  lemma ReversedTwice(s: seq<real>)
    ensures Reversed(Reversed(s)) == s
  {
    assert forall i :: 0 <= i < |s| ==> Reversed(Reversed(s))[i] == s[i];
  }

  /** The order the levels are visited in: ascending, or from the highest down when `reverse` is set. */
  function Levels(ascending: seq<real>, reverse: bool): (levels: seq<real>)
    ensures |levels| == |ascending|
    ensures forall i :: 0 <= i < |ascending| ==>
      levels[i] == if reverse then ascending[|ascending| - 1 - i] else ascending[i]
  {
    if reverse then Reversed(ascending) else ascending
  }

  /**
   The whole run: the levels in the configured order, swept from the initial
   cover. Every recorded cover is carryable and conserved, and each entry
   holds the level it was computed at.
   */
  function Simulate(root: FourthRoot, ascending: seq<real>): (points: seq<SweepPoint>)
    ensures |points| == |ascending|
    ensures forall i :: 0 <= i < |points| ==> points[i].energy == Levels(ascending, Reverse)[i]
    ensures forall i :: 0 <= i < |points| ==> Carryable(points[i].cover)
  {
    SweepKeepsCoverValid(root, Levels(ascending, Reverse), Initial());
    SweepFrom(root, Levels(ascending, Reverse), Initial())
  }
}
