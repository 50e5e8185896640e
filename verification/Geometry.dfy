/** How addresses map to lines, sets and tags, and which sets an address interval touches. */
module CacheGeometry {

  datatype Geometry = Geometry(lineSize: nat, nSets: nat, assoc: nat, level: int) {

    predicate Valid() {
      lineSize >= 1 && nSets >= 1 && assoc >= 1
    }

    function Line(addr: nat): nat requires Valid() {
      addr / lineSize
    }

    predicate Aligned(addr: nat) requires Valid() {
      addr % lineSize == 0
    }

    function SetOf(addr: nat): (i: nat)
      requires Valid()
      ensures i < nSets
    {
      Line(addr) % nSets
    }

    function TagOf(addr: nat): nat requires Valid() {
      Line(addr) / nSets
    }

    /** The interval is so long that every set is taken to be touched. */
    predicate SpansAllSets(lower: nat, upper: nat) requires Valid() {
      upper + 4 - lower >= nSets * lineSize
    }

    /** The sets an access in the interval is taken to touch; first above second means wraparound. */
    function SetInterval(lower: nat, upper: nat): (nat, nat)
      requires Valid()
    {
      if SpansAllSets(lower, upper) then (0, nSets - 1) else (SetOf(lower), SetOf(upper))
    }

    predicate Touched(lower: nat, upper: nat, i: nat) requires Valid() {
      var (l, u) := SetInterval(lower, upper);
      InCycle(l, u, i)
    }
  }

  /** From `l` on to `u`, passing the last set when `l` is above `u`. */
  predicate InCycle(l: nat, u: nat, i: nat) {
    if l <= u then l <= i <= u else i >= l || i <= u
  }
}
