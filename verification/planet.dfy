/**
 The surface of the planet: the two daisy species, the cover fractions they
 occupy, the pre-iteration floor on those fractions and the planetary albedo
 they determine.
 */
module Planet {
  import opened Parameters

  datatype Species = Dark | Light

  function SpeciesAlbedo(sp: Species): real
  {
    match sp
    case Dark => DarkAlbedo
    case Light => LightAlbedo
  }

  function IdealTemperature(sp: Species): real
  {
    match sp
    case Dark => IdealDarkTemperature
    case Light => IdealLightTemperature
  }

  /** Cover fractions of the dark daisies, the light daisies and bare ground. */
  datatype Cover = Cover(dark: real, light: real, bare: real)
  {
    function Area(sp: Species): real
    {
      match sp
      case Dark => dark
      case Light => light
    }

    function Living(): real
    {
      dark + light
    }
  }

  /** The three fractions account for the whole planet. */
  predicate Conserved(c: Cover)
  {
    c.dark + c.light + c.bare == TotalArea
  }

  /** Conserved, and every fraction lies in [0, 1]. */
  predicate Valid(c: Cover)
  {
    && 0.0 <= c.dark
    && 0.0 <= c.light
    && c.Living() <= 1.0
    && Conserved(c)
  }

  /** The bound one update pass keeps the living cover under: the maximum of s * (1 + Retention - s). */
  const MaxLiving: real := 0.7225

  /**
   A cover the sweep may carry from one energy level to the next: valid, and
   with room left for the floor to raise both species without overflowing
   the planet.
   */
  predicate Carryable(c: Cover)
  {
    Valid(c) && c.Living() <= MaxLiving
  }

  /** The cover with the given species fractions and bare ground as the remainder. */
  function WithBare(dark: real, light: real): (c: Cover)
    ensures c.dark == dark && c.light == light
    ensures Conserved(c)
  {
    Cover(dark, light, 1.0 - (dark + light))
  }

  /** The state of the planet before the first energy level. */
  function Initial(): (c: Cover)
    ensures Carryable(c)
    ensures forall sp :: c.Area(sp) == MinCover
  {
    WithBare(InitialDarkArea, InitialLightArea)
  }

  /** One species' fraction raised to the minimum cover if it is below it. */
  function FloorArea(a: real): (r: real)
    ensures r >= MinCover && r >= a
    ensures r == a || r == MinCover
  {
    if a < MinCover then MinCover else a
  }

  /** The floor applied once per energy level, before the iteration starts. */
  function Floor(c: Cover): (r: Cover)
    ensures forall sp :: r.Area(sp) >= MinCover
    ensures forall sp :: r.Area(sp) >= c.Area(sp)
    ensures forall sp :: c.Area(sp) >= MinCover ==> r.Area(sp) == c.Area(sp)
    ensures forall sp :: c.Area(sp) < MinCover ==> r.Area(sp) == MinCover
    ensures Conserved(r)
    ensures Carryable(c) ==> Valid(r)
  {
    WithBare(FloorArea(c.dark), FloorArea(c.light))
  }

  /** Applying the floor twice is the same as applying it once. */
  lemma FloorIdempotent(c: Cover)
    ensures Floor(Floor(c)) == Floor(c)
  {
    var f := Floor(c);
    assert f.Area(Dark) >= MinCover && f.Area(Light) >= MinCover;
  }

  /** The floor changes nothing on a conserved cover whose species are both at or above the minimum. */
  lemma FloorFixesViableCover(c: Cover)
    requires Conserved(c)
    ensures Floor(c) == c <==> (c.dark >= MinCover && c.light >= MinCover)
  {
    if c.dark >= MinCover && c.light >= MinCover {
      assert Floor(c).Area(Dark) == c.dark && Floor(c).Area(Light) == c.light;
    } else if c.dark < MinCover {
      assert Floor(c).Area(Dark) >= MinCover;
    } else {
      assert Floor(c).Area(Light) >= MinCover;
    }
  }

  /**
   The planetary albedo, the cover-weighted average of the three albedos.
   On a conserved cover it is the bare-ground albedo shifted up by light
   daisies and down by dark ones.
   */
  function Albedo(c: Cover): (a: real)
  {
    (c.dark * DarkAlbedo + c.light * LightAlbedo + c.bare * BareAlbedo) / TotalArea
  }

  /**
   On a conserved cover the albedo is linear in the two species' fractions,
   and on a valid cover it lies between the dark and the light albedo.
   */
  lemma AlbedoRange(c: Cover)
    ensures Conserved(c) ==>
      Albedo(c) == BareAlbedo + (LightAlbedo - BareAlbedo) * c.light - (BareAlbedo - DarkAlbedo) * c.dark
    ensures Valid(c) ==> DarkAlbedo <= Albedo(c) <= LightAlbedo
  {
  }
}
