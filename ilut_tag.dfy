/**
 * The ILUT configuration object: a cap on the entries kept per row in each of
 * L and U, and the relative drop tolerance. The getters of the source are the
 * fields themselves.
 */
module IlutConfig {
  import opened BoundedInts

  class IlutTag {
    /** Number of entries kept per row in L and, separately, in U. */
    var entriesPerRow: uint32
    /** Scaled by a row's Euclidean norm, the threshold below which entries are dropped. */
    var dropTolerance: real

    /** The constructor stores both values as given; only the setters validate. */
    constructor (entriesPerRow: uint32 := 20, dropTolerance: real := 0.0001)
      ensures this.entriesPerRow == entriesPerRow
      ensures this.dropTolerance == dropTolerance
    {
      this.entriesPerRow := entriesPerRow;
      this.dropTolerance := dropTolerance;
    }

    /** A non-positive tolerance is ignored and the previous one kept. */
    method SetDropTolerance(tol: real)
      modifies this
      ensures dropTolerance == (if tol > 0.0 then tol else old(dropTolerance))
      ensures entriesPerRow == old(entriesPerRow)
    {
      if tol > 0.0 {
        dropTolerance := tol;
      }
    }

    /** A zero budget is ignored and the previous one kept. */
    method SetEntriesPerRow(e: uint32)
      modifies this
      ensures entriesPerRow == (if e > 0 then e else old(entriesPerRow))
      ensures dropTolerance == old(dropTolerance)
    {
      if e > 0 {
        entriesPerRow := e;
      }
    }
  }
}
