/** Harvest With Scythe's configuration and its pure rules: how each kind of crop may be
    harvested, the two feature toggles derived from that, and the object the mod spawns
    as debris for a harvested crop. */
module HarvestWithScythe {

  /** How a kind of crop may be harvested: by hand, with the scythe, or either (then the
      equipped tool decides). */
  datatype HarvestMode = Hands | Scythe | Both

  datatype ModConfig = ModConfig(
    harvestFlowers: HarvestMode,
    harvestForage: HarvestMode,
    harvestSpringOnion: HarvestMode,
    harvestPluckableCrops: HarvestMode,
    harvestScythableCrops: HarvestMode)

  /** The mode lets the player harvest by hand. */
  predicate AllowsHands(m: HarvestMode) {
    m == Hands || m == Both
  }

  /** The mode lets the player harvest with the scythe. */
  predicate AllowsScythe(m: HarvestMode) {
    m == Scythe || m == Both
  }

  /** The toggle of the patch that takes hand harvesting away from pluckable crops. */
  function DisableHandHarvesting(c: ModConfig): (disabled: bool)
    ensures disabled <==> !AllowsHands(c.harvestPluckableCrops)
  {
    c.harvestPluckableCrops == Scythe
  }

  /** The toggle of the patch that lets the scythe harvest forage. */
  function HarvestForageEnabled(c: ModConfig): (enabled: bool)
    ensures enabled <==> AllowsScythe(c.harvestForage)
  {
    c.harvestForage != Hands
  }

  /** A crop, as far as the spawned debris depends on it. */
  datatype Crop = Crop(indexOfHarvest: int, programColored: bool, tintColor: int)

  /** The spawned item: a plain object, or a colored one (a flower) carrying its tint. */
  datatype SpawnedObject =
    | Ordinary(index: int, stack: int, quality: int)
    | Colored(index: int, stack: int, quality: int, tint: int)

  /** The debris spawned for a harvested crop: one item of the harvest index with the given
      quality, colored with the crop's tint exactly when the crop is a flower. */
  function CreateObject(crop: Crop, quality: int): (o: SpawnedObject)
    ensures o.index == crop.indexOfHarvest && o.stack == 1 && o.quality == quality
    ensures o.Colored? <==> crop.programColored
    ensures o.Colored? ==> o.tint == crop.tintColor
  {
    if crop.programColored then Colored(crop.indexOfHarvest, 1, quality, crop.tintColor)
    else Ordinary(crop.indexOfHarvest, 1, quality)
  }
}
