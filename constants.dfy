/** Physical constants shared by the radiation model. */
module Constants {

  /** Stefan-Boltzmann constant, in kW/m²·K⁴. */
  const StefanBoltzmann: real := 5.67e-11

  /** Flame absorption coefficient for emissivity, in 1/m (BS EN 1991-1-2 / BR 187). */
  const AbsorptionCoefficient: real := 0.3
}
