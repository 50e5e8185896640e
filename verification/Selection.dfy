/** Which sets an access to an address interval selects, and what one set sees of it. */
module CacheSelections {
  import opened CacheGeometry
  import opened LruSet
  import opened Options
  import opened WholeCache

  /** One line, or the sets from `l` on to `u`. */
  datatype Selection = OneLine(i: nat, t: Tag) | Sets(l: nat, u: nat)

  function Select(g: Geometry, lower: nat, upper: nat): (sel: Selection)
    requires g.Valid()
    ensures sel.OneLine? ==> sel.i < g.nSets
  {
    if g.Line(lower) == g.Line(upper) then OneLine(g.SetOf(lower), g.TagOf(lower))
    else
      var (l, u) := g.SetInterval(lower, upper);
      Sets(l, u)
  }

  /** What set `i` sees of an access to `addr`. */
  function TouchAt(g: Geometry, addr: nat, i: nat): Option<Tag>
    requires g.Valid()
  {
    if g.SetOf(addr) == i then Some(g.TagOf(addr)) else None
  }

  /** The selection allows that set `i` is touched so. */
  predicate Selected(sel: Selection, i: nat, x: Option<Tag>) {
    match sel
    case OneLine(k, t) => x == if i == k then Some(t) else None
    case Sets(l, u) => x.Some? ==> InCycle(l, u, i)
  }

  /** The address lies in the selected line, or in one of the selected sets. */
  lemma SelectedAt(g: Geometry, lower: nat, addr: nat, upper: nat, i: nat)
    requires g.Valid() && lower <= addr <= upper && IntervalFits(g, lower, upper)
    ensures Selected(Select(g, lower, upper), i, TouchAt(g, addr, i))
  {
    if g.Line(lower) == g.Line(upper) {
      SameLine(g, lower, addr, upper);
    } else {
      FittingIsCovered(g, lower, addr, upper);
    }
  }
}
