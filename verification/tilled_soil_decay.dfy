/** Tilled Soil Decay's rules: per-place decay settings and the removal of tilled soil
    outside the farm. The soil's `state` counts, as a negative number, the nights it has
    gone without water. */
module TilledSoilDecay {
  import opened Wrappers

  /** How soil decays in one kind of place: the chance it disappears during a night, and how
      many nights it must have gone without water before that chance applies. */
  datatype DecayConfig = DecayConfig(dryingRate: real, delay: int)

  /** The five places the mod configures. */
  datatype ModConfig = ModConfig(
    eachNight: DecayConfig,
    eachSeason: DecayConfig,
    greenhouse: DecayConfig,
    island: DecayConfig,
    nonFarm: DecayConfig)

  /** The settings a fresh configuration starts with. */
  const DefaultConfig: ModConfig := ModConfig(
    DecayConfig(0.5, 2),
    DecayConfig(1.0, 1),
    DecayConfig(1.0, 1),
    DecayConfig(0.5, 2),
    DecayConfig(1.0, 0))

  /** A tile position of a location. */
  datatype Tile = Tile(x: int, y: int)

  /** A terrain feature: tilled soil with its state, or any other feature. */
  datatype TerrainFeature = HoeDirt(state: int) | OtherFeature

  /** A game location, as far as soil decay depends on it. */
  datatype Location = Location(isGreenhouse: bool, terrainFeatures: map<Tile, TerrainFeature>)

  /** Looking up the tile fails (`terrainFeatures[pos]` throws), or the feature there is not
      tilled soil (the `as HoeDirt` cast gives null and reading `HoeDirt.state` throws). */
  datatype DecayError = MissingFeature(at: Tile) | NotHoeDirt(at: Tile)

  /** Nights without water, as the mod keeps them in `state`. */
  function DaysWithoutWater(state: int): int {
    -state
  }

  /** Soil is too fresh to decay while it has gone fewer nights without water than the delay. */
  predicate TooFresh(state: int, d: DecayConfig) {
    DaysWithoutWater(state) < d.delay
  }

  /** The settings that apply outside the farm: the greenhouse's in a greenhouse, the
      non-farm ones elsewhere. */
  function NonFarmDecay(c: ModConfig, gl: Location): (d: DecayConfig)
    ensures gl.isGreenhouse ==> d == c.greenhouse
    ensures !gl.isGreenhouse ==> d == c.nonFarm
  {
    if gl.isGreenhouse then c.greenhouse else c.nonFarm
  }

  /** remove_non_farm_hoedirt: the soil at `pos` is removed unless it is too fresh or the
      night's random draw `roll` exceeds the drying rate. */
  function RemoveNonFarmHoeDirt(c: ModConfig, gl: Location, pos: Tile, roll: real): (res: Result<Location, DecayError>)
    ensures res.Err? <==> pos !in gl.terrainFeatures || !gl.terrainFeatures[pos].HoeDirt?
    ensures res.Ok? ==> res.value.isGreenhouse == gl.isGreenhouse
    ensures res.Ok? ==> res.value == gl || res.value.terrainFeatures == gl.terrainFeatures - {pos}
    ensures res.Ok? && TooFresh(gl.terrainFeatures[pos].state, NonFarmDecay(c, gl)) ==> res.value == gl
    ensures res.Ok? && roll > NonFarmDecay(c, gl).dryingRate ==> res.value == gl
  {
    if pos !in gl.terrainFeatures then Err(MissingFeature(pos))
    else
      match gl.terrainFeatures[pos]
      case OtherFeature => Err(NotHoeDirt(pos))
      case HoeDirt(state) =>
        var decay := NonFarmDecay(c, gl);
        if TooFresh(state, decay) then Ok(gl)
        else if roll > decay.dryingRate then Ok(gl)
        else Ok(gl.(terrainFeatures := gl.terrainFeatures - {pos}))
  }

  /** Whether the soil at `pos` goes: it does exactly when it is old enough and the draw
      is within the drying rate. */
  lemma RemovedExactly(c: ModConfig, gl: Location, pos: Tile, roll: real)
    requires pos in gl.terrainFeatures && gl.terrainFeatures[pos].HoeDirt?
    ensures var d := NonFarmDecay(c, gl);
            var state := gl.terrainFeatures[pos].state;
            && RemoveNonFarmHoeDirt(c, gl, pos, roll).Ok?
            && (pos !in RemoveNonFarmHoeDirt(c, gl, pos, roll).value.terrainFeatures <==>
                  d.delay <= DaysWithoutWater(state) && roll <= d.dryingRate)
  {
  }

  /** Drier soil and a lower draw never save soil that would have gone. */
  lemma RemovalIsMonotone(c: ModConfig, gl: Location, pos: Tile, roll: real, drier: int, lower: real)
    requires pos in gl.terrainFeatures && gl.terrainFeatures[pos].HoeDirt?
    requires drier <= gl.terrainFeatures[pos].state && lower <= roll
    requires pos !in RemoveNonFarmHoeDirt(c, gl, pos, roll).value.terrainFeatures
    ensures var dried := gl.(terrainFeatures := gl.terrainFeatures[pos := HoeDirt(drier)]);
            pos !in RemoveNonFarmHoeDirt(c, dried, pos, lower).value.terrainFeatures
  {
    var d := NonFarmDecay(c, gl);
    RemovedExactly(c, gl, pos, roll);
    var dried := gl.(terrainFeatures := gl.terrainFeatures[pos := HoeDirt(drier)]);
    RemovedExactly(c, dried, pos, lower);
  }

  /** With the default settings, soil in a greenhouse needs a night without water before it
      can go, and elsewhere outside the farm it can go any night. */
  lemma DefaultNonFarmDelays(gl: Location, pos: Tile, roll: real)
    requires pos in gl.terrainFeatures && gl.terrainFeatures[pos] == HoeDirt(0)
    ensures gl.isGreenhouse ==> RemoveNonFarmHoeDirt(DefaultConfig, gl, pos, roll) == Ok(gl)
    ensures !gl.isGreenhouse && roll <= 1.0 ==>
              RemoveNonFarmHoeDirt(DefaultConfig, gl, pos, roll).value.terrainFeatures == gl.terrainFeatures - {pos}
  {
  }
}
