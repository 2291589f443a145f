/**
 The radio-bubble diameter setting of the galaxy simulator. The diameter is a
 configuration value in light-years; anything above the resolution limit of
 500 is silently capped rather than rejected.
 */
module Bubble {

  /** Largest bubble diameter (light-years) the grid model accepts. */
  const MaxDiameter: real := 500.0

  /** The effective bubble diameter: the configured one, capped at MaxDiameter. */
  function ClampDiameter(d: real): (r: real)
    ensures r <= MaxDiameter
    ensures r <= d
    ensures r == d || r == MaxDiameter
    ensures d <= MaxDiameter <==> r == d
  {
    if d > MaxDiameter then MaxDiameter else d
  }
}
