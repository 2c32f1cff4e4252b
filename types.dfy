/** Shared vocabulary of the territory-auction engine: the game constants and
    the optional value used for a node's owner and a tile's score. */
module Types {

  /** Price of one node at auction and during placement; also the income of a
      fully held tile. */
  const TileValue: int := 100

  /** Number of ticks a purchase holds a node. */
  const LeaseLength: int := 5

  /** Balance every player starts with. */
  const StartingWealth: int := 500

  /** Declared next to the other constants but never read by the engine. */
  const BaseNodeCost: int := 100

  datatype Option<+T> = None | Some(value: T)

  /** Some element of a non-empty set. Iteration over the engine's hashed
      collections has no fixed order; the model picks an element with `:|`,
      and this function names one so that the choice is known to exist. */
  ghost function Arbitrary<T>(s: set<T>): (x: T)
    requires s != {}
    ensures x in s
  {
    var x :| x in s; x
  }

  function Min(a: int, b: int): int { if a <= b then a else b }

  function Max(a: int, b: int): int { if a <= b then b else a }
}
