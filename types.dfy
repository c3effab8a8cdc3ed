/** The value types exchanged between the engine and its callers. */
module Types {

  datatype Option<+T> = None | Some(value: T)

  /** Inputs of the two static radiation models. */
  datatype RadiationInputs = RadiationInputs(
    temperature: real,  // fire temperature, °C
    width: real,        // opening width, m; also the flame thickness for emissivity
    height: real,       // opening height, m
    tenability: real,   // tenability threshold, kW/m²
    hrr: real,          // heat release rate, kW (point source)
    chiR: real)         // radiative fraction (point source)

  /** Inputs of the walking-path geometry. */
  datatype FedInputs = FedInputs(
    totalTravelDistance: real,  // m
    timestep: real,             // s
    walkingSpeed: real,         // m/s
    lateralDistance: real,      // perpendicular distance from path to fire, m
    passbyOffset: real)         // along-path distance to closest approach, m

  /** One row of the timestep table; the distance is absent until computed or entered. */
  datatype FedTimestepEntry = FedTimestepEntry(
    index: int,
    time: real,
    distanceToFire: Option<real>)

  /** The dose computed under both radiation models. */
  datatype FedResult = FedResult(
    rectangularPanelFed: real,
    pointSourceFed: real,
    rectangularPanelCumulative: seq<real>,
    pointSourceCumulative: seq<real>,
    times: seq<real>)

  /** One sample of the flux-versus-distance curve. */
  datatype HeatFluxCurvePoint = HeatFluxCurvePoint(
    distance: real,
    rectangularPanelFlux: real,
    pointSourceFlux: real)
}
