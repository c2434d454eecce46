/** The value types shared by the vision controller and the top-level app. */
module Types {
  /** Scene configuration: the tree is either assembled or exploded. */
  datatype TreeMode = Chaos | Formed

  /** Discrete gesture carried by a hand update.  The motion detector only
      ever produces Open and Closed; Pointing and None belong to the data
      contract (None is also the state of the stored pointer). */
  datatype Gesture = Open | Closed | Pointing | None

  /** One hand update: a gesture and a normalised pointer position. */
  datatype HandData = HandData(state: Gesture, x: real, y: real)

  /** Both coordinates lie in the unit square. */
  predicate InUnitSquare(h: HandData)
  {
    0.0 <= h.x <= 1.0 && 0.0 <= h.y <= 1.0
  }
}
