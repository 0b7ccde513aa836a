/** The game's tunable numbers. The screen size is what the full-screen display
    reports at start-up, the alien size is that of the loaded alien image, and
    the speeds, which are floats in the game's settings, are taken as whole
    pixels per frame. */
module Config {

  type Positive = n: int | n > 0 witness 1

  datatype Settings = Settings(
    screenWidth: nat,
    screenHeight: nat,
    alienWidth: Positive,
    alienHeight: Positive,
    alienSpeed: int,
    bulletSpeed: int,
    bulletsAllowed: int,
    fleetDropSpeed: int,
    fleetDirection: int)
  {
    /** The fleet moves right (1) or left (-1). */
    predicate Valid() { fleetDirection == 1 || fleetDirection == -1 }
  }
}
