/**
 The fixed configuration of a Daisyworld run: temperatures in kelvin, the
 albedos of the two daisy species and of bare ground, the decay rate, the
 convergence criteria and the constants of the radiative-balance law.
 All quantities are exact reals; the model does not follow floating-point
 rounding.
 */
module Parameters {

  const KelvinOffset: real := 273.15

  /* Viable temperature range shared by both species, and their ideal temperatures. */
  const MinDaisyTemperature: real := 5.0 + KelvinOffset
  const MaxDaisyTemperature: real := 40.0 + KelvinOffset
  const IdealDarkTemperature: real := 22.5 + KelvinOffset
  const IdealLightTemperature: real := 22.5 + KelvinOffset

  /* Albedos; "dark" daisies are the black ones, "light" daisies the white ones. */
  const LightAlbedo: real := 0.75
  const DarkAlbedo: real := 0.25
  const BareAlbedo: real := 0.5

  /* Cover fractions every run starts from. */
  const InitialLightArea: real := 0.01
  const InitialDarkArea: real := 0.01
  const TotalArea: real := 1.0

  /** Proportionality between the planet-versus-species albedo difference and the local temperature offset. */
  const Insulation: real := 1.0

  /** Fraction of each species' cover lost on every pass, whatever its growth. */
  const DecayRate: real := 0.3

  /** Fraction of a species' cover that survives a pass with no growth. */
  const Retention: real := 1.0 - DecayRate

  /** Smallest cover fraction a species may grow from; also the pre-loop floor. */
  const MinCover: real := 0.01

  /** Curvature of the parabolic growth rate, per squared kelvin. */
  const GrowthCurvature: real := 0.003265

  /* Convergence criteria. */
  const MaxIterations: nat := 1000
  const Tolerance: real := 0.000001

  /* Radiative-balance law: stellar irradiance (W/m^2) and the Stefan-Boltzmann constant. */
  const Irradiance: real := 917.0
  const Sigma: real := 0.0000000567032

  /** Whether the sweep runs from the highest energy level down. */
  const Reverse: bool := false

  /**
   The fourth root used by the radiative-balance law. It is left abstract:
   every property of the model holds whatever function is supplied here.
   */
  type FourthRoot = real -> real
}
