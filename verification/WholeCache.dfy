/**
 A whole cache: one product state per cache set, updated for accesses whose address is
 known only to lie in an interval.
 */
module WholeCache {
  import opened Arith
  import opened CacheGeometry
  import opened LruSet
  import opened AgeList
  import opened Classifications
  import opened MustCache
  import opened MayCache
  import opened ProductCache
  import MayExact

  // ---------- The concrete cache ----------

  ghost predicate IsCache(g: Geometry, c: seq<seq<Tag>>) {
    |c| == g.nSets && forall i :: 0 <= i < |c| ==> IsLruSet(c[i], g.assoc)
  }

  function CacheAccess(g: Geometry, c: seq<seq<Tag>>, addr: nat): seq<seq<Tag>>
    requires g.Valid() && |c| == g.nSets
  {
    c[g.SetOf(addr) := Access(c[g.SetOf(addr)], g.TagOf(addr), g.assoc)]
  }

  ghost predicate IsCached(g: Geometry, c: seq<seq<Tag>>, addr: nat)
    requires g.Valid() && |c| == g.nSets
  {
    g.TagOf(addr) in c[g.SetOf(addr)]
  }

  // ---------- The abstract cache ----------

  ghost predicate AllValid(g: Geometry, sets: seq<Product>) {
    |sets| == g.nSets && forall i :: 0 <= i < |sets| ==> sets[i].Valid(g.assoc)
  }

  ghost predicate AllHold(g: Geometry, sets: seq<Product>, c: seq<seq<Tag>>) {
    |sets| == |c| == g.nSets && forall i :: 0 <= i < |sets| ==> sets[i].Holds(c[i], g.assoc)
  }

  function UpdateSet(g: Geometry, sets: seq<Product>, k: nat, t: Tag, assumption: Classification): seq<Product>
    requires g.assoc >= 1 && k < |sets|
  {
    sets[k := sets[k].Update(t, assumption, g.level, g.assoc)]
  }

  /** All sets from `l` cyclically to `u` may have been accessed. */
  function UpdateUnknown(g: Geometry, sets: seq<Product>, l: nat, u: nat, low: Tag, high: Tag): seq<Product> {
    seq(|sets|, i requires 0 <= i < |sets| =>
      if InCycle(l, u, i) then sets[i].PotentialUpdate(low, high, g.assoc) else sets[i])
  }

  /** What one update does to all sets. */
  function Updated(g: Geometry, sets: seq<Product>, lower: nat, upper: nat, assumption: Classification): seq<Product>
    requires g.Valid() && |sets| == g.nSets
  {
    if g.Line(lower) == g.Line(upper) then
      UpdateSet(g, sets, g.SetOf(lower), g.TagOf(lower), assumption)
    else
      var (l, u) := g.SetInterval(lower, upper);
      UpdateUnknown(g, sets, l, u, g.TagOf(lower), g.TagOf(upper))
  }

  /** The joined classification of all lines from `line` to `last`. */
  function ClassifyLines(g: Geometry, sets: seq<Product>, line: nat, last: nat): Classification
    requires g.Valid() && |sets| == g.nSets
    decreases last - line
  {
    if line > last then Bot
    else sets[line % g.nSets].Classify(line / g.nSets, g.assoc).Join(ClassifyLines(g, sets, line + 1, last))
  }

  // ---------- Address arithmetic ----------

  lemma TagsBetween(g: Geometry, lower: nat, addr: nat, upper: nat)
    requires g.Valid() && lower <= addr <= upper
    ensures g.Line(lower) <= g.Line(addr) <= g.Line(upper)
    ensures g.TagOf(lower) <= g.TagOf(addr) <= g.TagOf(upper)
  {
    DivMonotone(lower, addr, g.lineSize);
    DivMonotone(addr, upper, g.lineSize);
    DivMonotone(g.Line(lower), g.Line(addr), g.nSets);
    DivMonotone(g.Line(addr), g.Line(upper), g.nSets);
  }

  lemma SameLine(g: Geometry, lower: nat, addr: nat, upper: nat)
    requires g.Valid() && lower <= addr <= upper && g.Line(lower) == g.Line(upper)
    ensures g.SetOf(addr) == g.SetOf(lower) && g.TagOf(addr) == g.TagOf(lower)
  {
    DivMonotone(lower, addr, g.lineSize);
    DivMonotone(addr, upper, g.lineSize);
  }

  /** Going `k` lines on, with k below the number of sets, moves the set number cyclically. */
  lemma CyclicSets(line: nat, k: nat, n: nat)
    requires n >= 1 && k < n
    ensures (line + k) % n == if line % n + k < n then line % n + k else line % n + k - n
  {
    var q, r := line / n, line % n;
    DivMod(line, n);
    if r + k < n {
      DivModUnique(line + k, n, q, r + k);
    } else {
      MulNext(n, q);
      DivModUnique(line + k, n, q + 1, r + k - n);
    }
  }

  /** The update reaches every set some address of the interval maps to. */
  ghost predicate CoversInterval(g: Geometry, lower: nat, upper: nat)
    requires g.Valid()
  {
    forall addr: nat :: lower <= addr <= upper ==> g.Touched(lower, upper, g.SetOf(addr))
  }

  /** The guard of the fast path, or fewer lines than sets, or a single set. */
  predicate IntervalFits(g: Geometry, lower: nat, upper: nat)
    requires g.Valid()
  {
    g.SpansAllSets(lower, upper) || g.Line(upper) - g.Line(lower) < g.nSets || g.nSets == 1
  }

  lemma FittingIsCovered(g: Geometry, lower: nat, addr: nat, upper: nat)
    requires g.Valid() && lower <= addr <= upper && IntervalFits(g, lower, upper)
    ensures g.Touched(lower, upper, g.SetOf(addr))
  {
    if !g.SpansAllSets(lower, upper) && g.nSets > 1 {
      TagsBetween(g, lower, addr, upper);
      CyclicSets(g.Line(lower), g.Line(addr) - g.Line(lower), g.nSets);
      CyclicSets(g.Line(lower), g.Line(upper) - g.Line(lower), g.nSets);
    }
  }

  /** Without the guard an interval spans at most one line more than there are sets. */
  lemma LineSpan(g: Geometry, lower: nat, upper: nat)
    requires g.Valid() && lower <= upper && !g.SpansAllSets(lower, upper)
    ensures g.Line(upper) - g.Line(lower) <= g.nSets
  {
    var l, q, r := g.lineSize, g.Line(lower), g.Line(upper);
    DivMod(lower, l);
    DivMod(upper, l);
    MulOrder(l, r, q + g.nSets);
    assert l * (q + g.nSets) == l * q + g.nSets * l;
  }

  /** An interval that does not fit spans exactly one line more than there are sets, and there are several. */
  lemma MisfitSpan(g: Geometry, lower: nat, upper: nat)
    requires g.Valid() && lower <= upper && !IntervalFits(g, lower, upper)
    ensures g.Line(upper) == g.Line(lower) + g.nSets && g.nSets >= 2
  {
    LineSpan(g, lower, upper);
  }

  lemma FollowingLine(g: Geometry, lower: nat, upper: nat)
    requires g.Valid() && g.Line(upper) >= g.Line(lower) + 2
    ensures g.Line(lower + g.lineSize) == g.Line(lower) + 1 && lower + g.lineSize <= upper
  {
    var l, q := g.lineSize, g.Line(lower);
    DivMod(lower, l);
    DivMod(upper, l);
    MulNext(l, q);
    MulNext(l, q + 1);
    MulMonotone(l, q + 2, g.Line(upper));
    DivModUnique(lower + l, l, q + 1, lower % l);
  }

  /** The next line is in the next set, which a one-set interval leaves out. */
  lemma NextLineMissed(g: Geometry, lower: nat, upper: nat)
    requires g.Valid() && lower <= upper && !IntervalFits(g, lower, upper)
    ensures lower + g.lineSize <= upper
    ensures g.SetOf(lower) == g.SetOf(upper)
    ensures !g.Touched(lower, upper, g.SetOf(lower + g.lineSize))
    ensures g.Line(lower) != g.Line(upper)
  {
    var n, q := g.nSets, g.Line(lower);
    MisfitSpan(g, lower, upper);
    FollowingLine(g, lower, upper);
    CyclicSets(q, 1, n);
    DivMod(q, n);
    MulNext(n, q / n);
    DivModUnique(q + n, n, q / n + 1, q % n);
  }

  ghost predicate SomeMisfit(g: Geometry)
    requires g.Valid()
  {
    exists lower: nat, upper: nat :: lower <= upper && !IntervalFits(g, lower, upper)
  }

  lemma MisfitNeedsWideLines(g: Geometry, lower: nat, upper: nat)
    requires g.Valid() && lower <= upper && !IntervalFits(g, lower, upper)
    ensures g.nSets >= 2 && g.lineSize >= 6
  {
    var l, n, p, q := g.lineSize, g.nSets, g.Line(lower), g.Line(upper);
    DivMod(lower, l);
    DivMod(upper, l);
    MulMonotone(l, p + n, q);
    assert l * (p + n) == l * p + n * l;
  }

  /** From the last byte of line 0 to the first byte of line `nSets`. */
  lemma WideLinesMisfit(g: Geometry)
    requires g.Valid() && g.nSets >= 2 && g.lineSize >= 6
    ensures g.lineSize - 1 <= g.lineSize * g.nSets && !IntervalFits(g, g.lineSize - 1, g.lineSize * g.nSets)
  {
    var l, n := g.lineSize, g.nSets;
    DivModUnique(l - 1, l, 0, l - 1);
    MulMonotone(l, 1, n);
    DivModUnique(l * n, l, n, 0);
  }

  /** There are intervals that do not fit exactly in caches with several sets and lines of six bytes or more. */
  lemma SomeMisfitExactly(g: Geometry)
    requires g.Valid()
    ensures SomeMisfit(g) <==> g.nSets >= 2 && g.lineSize >= 6
  {
    if SomeMisfit(g) {
      var lower: nat, upper: nat :| lower <= upper && !IntervalFits(g, lower, upper);
      MisfitNeedsWideLines(g, lower, upper);
    }
    if g.nSets >= 2 && g.lineSize >= 6 {
      WideLinesMisfit(g);
    }
  }

  /** With 32 sets of 16 bytes per line, addresses 12 to 516 span 33 lines and do not meet the guard. */
  lemma MisfitExample()
    ensures !IntervalFits(Geometry(16, 32, 1, 1), 12, 516)
    ensures Geometry(16, 32, 1, 1).SetInterval(12, 516) == (0, 0)
  {}

  /** The set interval is right exactly for the intervals that fit. */
  lemma CoversExactly(g: Geometry, lower: nat, upper: nat)
    requires g.Valid() && lower <= upper
    ensures CoversInterval(g, lower, upper) <==> IntervalFits(g, lower, upper)
  {
    if IntervalFits(g, lower, upper) {
      forall addr: nat | lower <= addr <= upper ensures g.Touched(lower, upper, g.SetOf(addr)) {
        FittingIsCovered(g, lower, addr, upper);
      }
    } else {
      NextLineMissed(g, lower, upper);
      assert lower <= lower + g.lineSize <= upper;
    }
  }

  /** The assertion before an imprecise update holds exactly for the intervals that fit. */
  lemma AssertionExactly(g: Geometry, lower: nat, upper: nat)
    requires g.Valid() && lower <= upper && g.Line(lower) != g.Line(upper)
    ensures var (l, u) := g.SetInterval(lower, upper);
      (g.nSets == 1 || l != u) <==> IntervalFits(g, lower, upper)
  {
    TagsBetween(g, lower, lower, upper);
    if IntervalFits(g, lower, upper) {
      if !g.SpansAllSets(lower, upper) && g.nSets > 1 {
        CyclicSets(g.Line(lower), g.Line(upper) - g.Line(lower), g.nSets);
      }
    } else {
      NextLineMissed(g, lower, upper);
    }
  }

  /** A long interval has a line in every set, as no line is shorter than a word. */
  lemma LongSpan(g: Geometry, lower: nat, upper: nat)
    requires g.Valid() && lower <= upper && g.SpansAllSets(lower, upper) && g.lineSize >= 4
    ensures g.Line(upper) - g.Line(lower) >= g.nSets - 1
  {
    var l, q, r := g.lineSize, g.Line(lower), g.Line(upper);
    DivMod(lower, l);
    DivMod(upper, l);
    assert l * (q + g.nSets) == l * q + g.nSets * l;
    if r < q + g.nSets - 1 {
      MulMonotone(l, r + 2, q + g.nSets);
      MulNext(l, r);
      MulNext(l, r + 1);
    }
  }

  /** The first address of the interval in a line, if it has one there. */
  lemma AddressIn(g: Geometry, lower: nat, upper: nat, line: nat) returns (addr: nat)
    requires g.Valid() && lower <= upper && g.Line(lower) <= line <= g.Line(upper)
    ensures lower <= addr <= upper && g.Line(addr) == line
  {
    var l := g.lineSize;
    addr := if g.Line(lower) == line then lower else l * line;
    DivMod(lower, l);
    DivMod(upper, l);
    DivModUnique(l * line, l, line, 0);
    MulMonotone(l, line, g.Line(upper));
    if g.Line(lower) < line {
      MulMonotone(l, g.Line(lower) + 1, line);
      MulNext(l, g.Line(lower));
    }
  }

  ghost predicate SomeAddressIn(g: Geometry, lower: nat, upper: nat, i: nat)
    requires g.Valid()
  {
    exists addr: nat :: lower <= addr <= upper && g.SetOf(addr) == i
  }

  /** A line in set `i` among the lines from `line` on to `last`. */
  lemma LineInSet(line: nat, last: nat, i: nat, n: nat) returns (k: nat)
    requires i < n && line <= last
    requires last - line >= n - 1 || InCycle(line % n, last % n, i)
    ensures line <= k <= last && k % n == i
  {
    var d := if line % n <= i then i - line % n else i + n - line % n;
    CyclicSets(line, d, n);
    if last - line < n - 1 {
      CyclicSets(line, last - line, n);
    }
    k := line + d;
  }

  lemma TouchedHasLine(g: Geometry, lower: nat, upper: nat, i: nat) returns (k: nat)
    requires g.Valid() && lower <= upper && i < g.nSets && g.Touched(lower, upper, i)
    requires g.lineSize >= 4 || !g.SpansAllSets(lower, upper)
    ensures g.Line(lower) <= k <= g.Line(upper) && k % g.nSets == i
  {
    TagsBetween(g, lower, upper, upper);
    var p, q, n := g.Line(lower), g.Line(upper), g.nSets;
    if g.SpansAllSets(lower, upper) {
      LongSpan(g, lower, upper);
    } else {
      assert InCycle(p % n, q % n, i);
    }
    k := LineInSet(p, q, i, n);
  }

  lemma TouchedHasAddress(g: Geometry, lower: nat, upper: nat, i: nat)
    requires g.Valid() && lower <= upper && i < g.nSets && g.Touched(lower, upper, i)
    requires g.lineSize >= 4 || !g.SpansAllSets(lower, upper)
    ensures SomeAddressIn(g, lower, upper, i)
  {
    var k := TouchedHasLine(g, lower, upper, i);
    var addr := AddressIn(g, lower, upper, k);
    assert g.SetOf(addr) == i;
  }

  /** An interval that fits touches exactly the sets its addresses lie in. */
  lemma TouchedExactly(g: Geometry, lower: nat, upper: nat, i: nat)
    requires g.Valid() && lower <= upper && i < g.nSets && IntervalFits(g, lower, upper)
    requires g.lineSize >= 4 || !g.SpansAllSets(lower, upper)
    ensures g.Touched(lower, upper, i) <==> SomeAddressIn(g, lower, upper, i)
  {
    if SomeAddressIn(g, lower, upper, i) {
      var addr: nat :| lower <= addr <= upper && g.SetOf(addr) == i;
      FittingIsCovered(g, lower, addr, upper);
    } else if g.Touched(lower, upper, i) {
      TouchedHasAddress(g, lower, upper, i);
    }
  }

  /** A set that no address of the interval lies in is left alone, and the others are aged once. */
  lemma UpdatedExactly(g: Geometry, sets: seq<Product>, lower: nat, upper: nat, assumption: Classification, i: nat)
    requires g.Valid() && |sets| == g.nSets && lower <= upper && i < g.nSets && IntervalFits(g, lower, upper)
    requires g.lineSize >= 4 || !g.SpansAllSets(lower, upper)
    ensures Updated(g, sets, lower, upper, assumption)[i] ==
      if !SomeAddressIn(g, lower, upper, i) then sets[i]
      else if g.Line(lower) == g.Line(upper) then sets[i].Update(g.TagOf(lower), assumption, g.level, g.assoc)
      else sets[i].PotentialUpdate(g.TagOf(lower), g.TagOf(upper), g.assoc)
  {
    if g.Line(lower) == g.Line(upper) {
      if addr: nat :| lower <= addr <= upper && g.SetOf(addr) == i {
        SameLine(g, lower, addr, upper);
      }
    } else {
      TouchedExactly(g, lower, upper, i);
    }
  }

  // ---------- Soundness ----------

  lemma PreciseSound(g: Geometry, sets: seq<Product>, sets': seq<Product>, c: seq<seq<Tag>>, c': seq<seq<Tag>>,
                     k: nat, t: Tag, assumption: Classification)
    requires g.Valid() && AllValid(g, sets) && AllHold(g, sets, c) && k < g.nSets
    requires AssumptionHolds(assumption, g.level, t in c[k])
    requires sets' == UpdateSet(g, sets, k, t, assumption) && c' == c[k := Access(c[k], t, g.assoc)]
    ensures AllHold(g, sets', c')
  {
    UpdateSound(sets[k], c[k], t, assumption, g.level, g.assoc);
  }

  /** An access to tag `t` of set `k`, which is among the sets that are touched. */
  lemma ImpreciseSound(g: Geometry, sets: seq<Product>, sets': seq<Product>, c: seq<seq<Tag>>, c': seq<seq<Tag>>,
                       l: nat, u: nat, k: nat, low: Tag, t: Tag, high: Tag)
    requires g.Valid() && AllValid(g, sets) && AllHold(g, sets, c) && k < g.nSets && low <= t <= high
    requires InCycle(l, u, k)
    requires sets' == UpdateUnknown(g, sets, l, u, low, high) && c' == c[k := Access(c[k], t, g.assoc)]
    ensures AllHold(g, sets', c')
  {
    forall i | 0 <= i < g.nSets ensures sets'[i].Holds(c'[i], g.assoc) {
      PotentialUpdateSound(sets[i], c[i], low, high, t, g.assoc);
    }
  }

  /** The set and the tag of an access, and the two updates in terms of them. */
  lemma AccessInLine(g: Geometry, sets: seq<Product>, c: seq<seq<Tag>>, lower: nat, addr: nat, upper: nat,
                     assumption: Classification) returns (k: nat, t: Tag)
    requires g.Valid() && |sets| == |c| == g.nSets && lower <= addr <= upper && g.Line(lower) == g.Line(upper)
    ensures k < g.nSets && (IsCached(g, c, addr) <==> t in c[k])
    ensures Updated(g, sets, lower, upper, assumption) == UpdateSet(g, sets, k, t, assumption)
    ensures CacheAccess(g, c, addr) == c[k := Access(c[k], t, g.assoc)]
  {
    SameLine(g, lower, addr, upper);
    k, t := g.SetOf(lower), g.TagOf(lower);
  }

  lemma AccessAcrossLines(g: Geometry, sets: seq<Product>, c: seq<seq<Tag>>, lower: nat, addr: nat, upper: nat,
                          assumption: Classification) returns (l: nat, u: nat, k: nat, low: Tag, t: Tag, high: Tag)
    requires g.Valid() && |sets| == |c| == g.nSets && lower <= addr <= upper && g.Line(lower) != g.Line(upper)
    requires IntervalFits(g, lower, upper)
    ensures k < g.nSets && low <= t <= high && InCycle(l, u, k)
    ensures Updated(g, sets, lower, upper, assumption) == UpdateUnknown(g, sets, l, u, low, high)
    ensures CacheAccess(g, c, addr) == c[k := Access(c[k], t, g.assoc)]
  {
    TagsBetween(g, lower, addr, upper);
    FittingIsCovered(g, lower, addr, upper);
    l, u := g.SetInterval(lower, upper).0, g.SetInterval(lower, upper).1;
    k, low, t, high := g.SetOf(addr), g.TagOf(lower), g.TagOf(addr), g.TagOf(upper);
  }

  /** Where an access to one line is assumed to hit, it does. */
  ghost predicate TrueOf(g: Geometry, c: seq<seq<Tag>>, lower: nat, addr: nat, upper: nat, assumption: Classification)
    requires g.Valid() && |c| == g.nSets
  {
    g.Line(lower) == g.Line(upper) ==> AssumptionHolds(assumption, g.level, IsCached(g, c, addr))
  }

  /** The assertion of the must update in the line that is accessed, if it is one. */
  ghost predicate CanUpdate(g: Geometry, sets: seq<Product>, lower: nat, upper: nat, assumption: Classification)
    requires g.Valid() && |sets| == g.nSets
  {
    g.Line(lower) == g.Line(upper) ==>
      sets[g.SetOf(lower)].CanUpdate(g.TagOf(lower), assumption, g.level, g.assoc)
  }

  /** An update for an access to an interval that fits over-approximates the access to any address in it. */
  lemma UpdatedSound(g: Geometry, sets: seq<Product>, c: seq<seq<Tag>>, lower: nat, addr: nat, upper: nat,
                     assumption: Classification)
    requires g.Valid() && AllValid(g, sets) && AllHold(g, sets, c) && lower <= addr <= upper
    requires IntervalFits(g, lower, upper) && TrueOf(g, c, lower, addr, upper, assumption)
    ensures AllHold(g, Updated(g, sets, lower, upper, assumption), CacheAccess(g, c, addr))
  {
    var sets', c' := Updated(g, sets, lower, upper, assumption), CacheAccess(g, c, addr);
    if g.Line(lower) == g.Line(upper) {
      var k, t := AccessInLine(g, sets, c, lower, addr, upper, assumption);
      PreciseSound(g, sets, sets', c, c', k, t, assumption);
    } else {
      var l, u, k, low, t, high := AccessAcrossLines(g, sets, c, lower, addr, upper, assumption);
      ImpreciseSound(g, sets, sets', c, c', l, u, k, low, t, high);
    }
  }

  /** A cache set full of other tags, the last of which an access to `t` evicts. */
  function FullOf(t: Tag, n: nat): seq<Tag> {
    seq(n, i => t + 1 + i)
  }

  lemma EvictsLast(t: Tag, assoc: nat)
    requires assoc >= 1
    ensures IsLruSet(FullOf(t, assoc), assoc)
    ensures Age(FullOf(t, assoc), t + assoc, assoc) == assoc - 1
    ensures Age(Access(FullOf(t, assoc), t, assoc), t + assoc, assoc) == assoc
  {
    var s := FullOf(t, assoc);
    assert t !in s;
    assert s[assoc - 1] == t + assoc;
    AgeAt(s, assoc - 1, assoc);
    AccessAges(s, t, assoc);
  }

  /** One set with one listed tag, which the next miss evicts. */
  lemma FragileSet(t: Tag, assoc: nat) returns (p: Product, s: seq<Tag>)
    requires assoc >= 1
    ensures p.Valid(assoc) && p.Holds(s, assoc) && IsLruSet(s, assoc) && !p.Holds(Access(s, t, assoc), assoc)
  {
    var last := t + assoc;
    var m: Bounds := map[last := assoc - 1];
    EvictsLast(t, assoc);
    p, s := Product(m, Top()), FullOf(t, assoc);
    forall j: nat ensures |AtMost(m, j)| <= j + 1 {
      SubsetSize(AtMost(m, j), {last});
      if j < assoc - 1 {
        assert AtMost(m, j) == {};
      }
    }
    assert last in p.must;
  }

  lemma EmptySet(assoc: nat)
    requires assoc >= 1
    ensures Product(map[], Top()).Valid(assoc) && Product(map[], Top()).Holds([], assoc)
  {
    forall j: nat ensures |AtMost(map[], j)| <= j + 1 {
      SubsetSize(AtMost(map[], j), {});
    }
  }

  /** A state that is fragile so in set `k`. */
  lemma Fragile(g: Geometry, k: nat, t: Tag) returns (sets: seq<Product>, c: seq<seq<Tag>>)
    requires g.Valid() && k < g.nSets
    ensures AllValid(g, sets) && AllHold(g, sets, c) && IsCache(g, c)
    ensures !sets[k].Holds(Access(c[k], t, g.assoc), g.assoc)
  {
    var p, s := FragileSet(t, g.assoc);
    EmptySet(g.assoc);
    sets := seq(g.nSets, i => if i == k then p else Product(map[], Top()));
    c := seq(g.nSets, i => if i == k then s else []);
  }

  /** A state that is unsound after an interval update that does not fit. */
  lemma MisfitUnsound(g: Geometry, lower: nat, upper: nat, assumption: Classification)
    returns (sets: seq<Product>, c: seq<seq<Tag>>, addr: nat)
    requires g.Valid() && lower <= upper && !IntervalFits(g, lower, upper)
    ensures AllValid(g, sets) && AllHold(g, sets, c) && lower <= addr <= upper && IsCache(g, c)
    ensures !AllHold(g, Updated(g, sets, lower, upper, assumption), CacheAccess(g, c, addr))
  {
    NextLineMissed(g, lower, upper);
    addr := lower + g.lineSize;
    var k, t := g.SetOf(addr), g.TagOf(addr);
    sets, c := Fragile(g, k, t);
    assert Updated(g, sets, lower, upper, assumption)[k] == sets[k];
    assert CacheAccess(g, c, addr)[k] == Access(c[k], t, g.assoc);
  }

  /** An interval update is sound for every state exactly if the interval fits. */
  lemma UpdatedSoundExactly(g: Geometry, lower: nat, upper: nat)
    requires g.Valid() && lower <= upper
    ensures (forall sets, c, addr: nat ::
               AllValid(g, sets) && AllHold(g, sets, c) && lower <= addr <= upper ==>
               AllHold(g, Updated(g, sets, lower, upper, Unknown), CacheAccess(g, c, addr)))
            <==> IntervalFits(g, lower, upper)
  {
    if IntervalFits(g, lower, upper) {
      forall sets, c, addr: nat | AllValid(g, sets) && AllHold(g, sets, c) && lower <= addr <= upper
        ensures AllHold(g, Updated(g, sets, lower, upper, Unknown), CacheAccess(g, c, addr))
      {
        UpdatedSound(g, sets, c, lower, addr, upper, Unknown);
      }
    } else {
      var sets, c, addr := MisfitUnsound(g, lower, upper, Unknown);
    }
  }

  lemma UpdatedValid(g: Geometry, sets: seq<Product>, lower: nat, upper: nat, assumption: Classification)
    requires g.Valid() && AllValid(g, sets)
    requires assumption != Unknown ==> CanUpdate(g, sets, lower, upper, assumption)
    ensures AllValid(g, Updated(g, sets, lower, upper, assumption))
  {
    var sets' := Updated(g, sets, lower, upper, assumption);
    forall i | 0 <= i < g.nSets ensures sets'[i].Valid(g.assoc) {
      if g.Line(lower) == g.Line(upper) && i == g.SetOf(lower) {
        OwnAssumptionIsSafe(sets[i], g.TagOf(lower), g.level, g.assoc);
        UpdateValid(sets[i], g.TagOf(lower), assumption, g.level, g.assoc);
      }
      MustAgeAllValid(sets[i].must, g.assoc);
      MayPotentialValid(sets[i].may, g.TagOf(lower), g.TagOf(upper), g.assoc);
    }
  }

  /** A true assumption meets the assertion. */
  lemma TrueCanUpdate(g: Geometry, sets: seq<Product>, c: seq<seq<Tag>>, lower: nat, addr: nat, upper: nat,
                      assumption: Classification)
    requires g.Valid() && AllValid(g, sets) && AllHold(g, sets, c) && lower <= addr <= upper
    requires TrueOf(g, c, lower, addr, upper, assumption)
    ensures CanUpdate(g, sets, lower, upper, assumption)
  {
    if g.Line(lower) == g.Line(upper) {
      SameLine(g, lower, addr, upper);
      SetCanUpdate(g, sets[g.SetOf(lower)], c[g.SetOf(lower)], g.TagOf(lower), assumption);
    }
  }

  lemma SetCanUpdate(g: Geometry, p: Product, s: seq<Tag>, t: Tag, assumption: Classification)
    requires g.Valid() && p.Valid(g.assoc) && p.Holds(s, g.assoc) && AssumptionHolds(assumption, g.level, t in s)
    ensures p.CanUpdate(t, assumption, g.level, g.assoc)
  {
    UpdateSound(p, s, t, assumption, g.level, g.assoc);
  }

  lemma {:induction false} ClassifyLinesSound(g: Geometry, sets: seq<Product>, c: seq<seq<Tag>>, line: nat, k: nat,
                                              last: nat)
    requires g.Valid() && AllValid(g, sets) && AllHold(g, sets, c) && line <= k <= last
    ensures ClassifyLines(g, sets, line, last) == Hit ==> k / g.nSets in c[k % g.nSets]
    ensures ClassifyLines(g, sets, line, last) == Miss ==> k / g.nSets !in c[k % g.nSets]
    decreases last - line
  {
    ClassifySound(sets[line % g.nSets], c[line % g.nSets], line / g.nSets, g.assoc);
    if line < k {
      ClassifyLinesSound(g, sets, c, line + 1, k, last);
    }
  }

  /** A classification of an interval holds for every address in it. */
  lemma ClassifySoundForAll(g: Geometry, sets: seq<Product>, c: seq<seq<Tag>>, lower: nat, addr: nat, upper: nat)
    requires g.Valid() && AllValid(g, sets) && AllHold(g, sets, c) && lower <= addr <= upper
    ensures ClassifyLines(g, sets, g.Line(lower), g.Line(upper)) == Hit ==> IsCached(g, c, addr)
    ensures ClassifyLines(g, sets, g.Line(lower), g.Line(upper)) == Miss ==> !IsCached(g, c, addr)
  {
    TagsBetween(g, lower, addr, upper);
    ClassifyLinesSound(g, sets, c, g.Line(lower), g.Line(addr), g.Line(upper));
  }

  /** The classification of an interval is definite exactly if those of all its lines agree. */
  lemma {:induction false} ClassifyLinesExactly(g: Geometry, sets: seq<Product>, line: nat, last: nat,
                                                cl: Classification)
    requires g.Valid() && |sets| == g.nSets && line <= last && (cl == Hit || cl == Miss)
    ensures ClassifyLines(g, sets, line, last) == cl <==>
      forall k :: line <= k <= last ==> sets[k % g.nSets].Classify(k / g.nSets, g.assoc) == cl
    ensures ClassifyLines(g, sets, line, last) in {Hit, Miss, Unknown}
    decreases last - line
  {
    assert sets[line % g.nSets].Classify(line / g.nSets, g.assoc) in {Hit, Miss, Unknown};
    if line < last {
      ClassifyLinesExactly(g, sets, line + 1, last, cl);
    }
  }

  // ---------- Whole runs ----------

  /**
   How a cache state came about: a start, one more access somewhere in an interval, with what
   the caller assumes about it, or a join.
   */
  datatype History = Start(assumeEmpty: bool)
                   | Then(h: History, lower: nat, upper: nat, assumption: Classification)
                   | Joined(x: History, y: History)

  function InitialSet(assumeEmpty: bool, assoc: nat): Product {
    Product(map[], May(map[], if assumeEmpty then assoc else 0))
  }

  function JoinAll(g: Geometry, x: seq<Product>, y: seq<Product>): seq<Product>
    requires |x| == |y| == g.nSets
  {
    seq(g.nSets, i requires 0 <= i < g.nSets => x[i].Join(y[i]))
  }

  function Eval(g: Geometry, h: History): (sets: seq<Product>)
    requires g.Valid()
    ensures |sets| == g.nSets
  {
    match h
    case Start(assumeEmpty) => seq(g.nSets, i => InitialSet(assumeEmpty, g.assoc))
    case Then(h, lower, upper, assumption) => Updated(g, Eval(g, h), lower, upper, assumption)
    case Joined(x, y) => JoinAll(g, Eval(g, x), Eval(g, y))
  }

  /** Intervals are not empty and fit, and an outside assumption meets the assertion of the must update. */
  ghost predicate Fits(g: Geometry, h: History)
    requires g.Valid()
  {
    match h
    case Start(_) => true
    case Then(h, lower, upper, assumption) =>
      && Fits(g, h) && lower <= upper && IntervalFits(g, lower, upper)
      && (assumption != Unknown ==> CanUpdate(g, Eval(g, h), lower, upper, assumption))
    case Joined(x, y) => Fits(g, x) && Fits(g, y)
  }

  /** The caches some execution described by the history ends in, in which the assumed hits are true. */
  ghost predicate Reaches(g: Geometry, h: History, c: seq<seq<Tag>>)
    requires g.Valid()
  {
    match h
    case Start(assumeEmpty) => IsCache(g, c) && (assumeEmpty ==> forall i :: 0 <= i < |c| ==> c[i] == [])
    case Then(h, lower, upper, assumption) =>
      exists c0, addr: nat :: |c0| == g.nSets && Reaches(g, h, c0) && lower <= addr <= upper
                              && TrueOf(g, c0, lower, addr, upper, assumption) && c == CacheAccess(g, c0, addr)
    case Joined(x, y) => Reaches(g, x, c) || Reaches(g, y, c)
  }

  lemma {:induction false} RunSound(g: Geometry, h: History, c: seq<seq<Tag>>)
    requires g.Valid() && Fits(g, h)
    ensures AllValid(g, Eval(g, h))
    ensures Reaches(g, h, c) ==> AllHold(g, Eval(g, h), c)
  {
    match h
    case Start(assumeEmpty) =>
      assert forall k: nat :: AtMost(map[], k) == {};
    case Then(h', lower, upper, assumption) =>
      RunSound(g, h', c);
      UpdatedValid(g, Eval(g, h'), lower, upper, assumption);
      if c0, addr: nat :| |c0| == g.nSets && Reaches(g, h', c0) && lower <= addr <= upper
                          && TrueOf(g, c0, lower, addr, upper, assumption) && c == CacheAccess(g, c0, addr)
      {
        RunSound(g, h', c0);
        UpdatedSound(g, Eval(g, h'), c0, lower, addr, upper, assumption);
      }
    case Joined(x, y) =>
      RunSound(g, x, c);
      RunSound(g, y, c);
      var sx, sy := Eval(g, x), Eval(g, y);
      forall i | 0 <= i < g.nSets ensures sx[i].Join(sy[i]).Valid(g.assoc) {
        JoinSound(sx[i], sy[i], [], g.assoc);
      }
      if Reaches(g, h, c) {
        forall i | 0 <= i < g.nSets ensures sx[i].Join(sy[i]).Holds(c[i], g.assoc) {
          JoinSound(sx[i], sy[i], c[i], g.assoc);
        }
      }
  }

  /** The state of a start stands for exactly the caches that are possible there. */
  lemma StartExactly(g: Geometry, assumeEmpty: bool, c: seq<seq<Tag>>)
    requires g.Valid()
    ensures AllHold(g, Eval(g, Start(assumeEmpty)), c) <==> Reaches(g, Start(assumeEmpty), c)
  {
    var sets := Eval(g, Start(assumeEmpty));
    if |c| == g.nSets {
      forall i | 0 <= i < |c|
        ensures sets[i].Holds(c[i], g.assoc) <==> IsLruSet(c[i], g.assoc) && (assumeEmpty ==> c[i] == [])
      {
        EmptyExactly(c[i], assumeEmpty, g.assoc);
      }
    }
  }

  lemma EmptyExactly(s: seq<Tag>, assumeEmpty: bool, assoc: nat)
    requires assoc >= 1
    ensures InitialSet(assumeEmpty, assoc).Holds(s, assoc) <==> IsLruSet(s, assoc) && (assumeEmpty ==> s == [])
  {
    if assumeEmpty && IsLruSet(s, assoc) && s != [] {
      AgeAt(s, 0, assoc);
    }
  }

  ghost predicate AllLeq(x: seq<Product>, y: seq<Product>) {
    |x| == |y| && forall i :: 0 <= i < |x| ==> x[i].Leq(y[i])
  }

  /** Joining set by set is the least upper bound of the order set by set. */
  lemma JoinAllIsLub(g: Geometry, x: seq<Product>, y: seq<Product>, z: seq<Product>)
    requires AllValid(g, x) && AllValid(g, y) && AllValid(g, z)
    ensures AllLeq(x, JoinAll(g, x, y)) && AllLeq(y, JoinAll(g, x, y))
    ensures AllLeq(x, z) && AllLeq(y, z) ==> AllLeq(JoinAll(g, x, y), z)
  {
    forall i | 0 <= i < g.nSets
      ensures x[i].Leq(JoinAll(g, x, y)[i]) && y[i].Leq(JoinAll(g, x, y)[i])
      ensures x[i].Leq(z[i]) && y[i].Leq(z[i]) ==> JoinAll(g, x, y)[i].Leq(z[i])
    {
      JoinIsLub(x[i], y[i], z[i], [], g.assoc);
    }
  }

  /** In every run the bounds are ones for which the updates and classifications are exact. */
  lemma {:induction false} EvalDense(g: Geometry, h: History)
    requires g.Valid() && Fits(g, h)
    ensures forall i :: 0 <= i < g.nSets ==> MayExact.Dense(Eval(g, h)[i].may, g.assoc)
  {
    match h
    case Start(assumeEmpty) => MayExact.StartDense(assumeEmpty, g.assoc);
    case Then(h', lower, upper, assumption) =>
      EvalDense(g, h');
      RunSound(g, h', []);
      forall i | 0 <= i < g.nSets ensures MayExact.Dense(Eval(g, h)[i].may, g.assoc) {
        MayExact.UpdateDense(Eval(g, h')[i].may, g.TagOf(lower), g.assoc);
        MayExact.PotentialDense(Eval(g, h')[i].may, g.TagOf(lower), g.TagOf(upper), g.assoc);
      }
    case Joined(x, y) =>
      EvalDense(g, x);
      EvalDense(g, y);
      RunSound(g, x, []);
      RunSound(g, y, []);
      forall i | 0 <= i < g.nSets ensures MayExact.Dense(Eval(g, h)[i].may, g.assoc) {
        MayExact.JoinDense(Eval(g, x)[i].may, Eval(g, y)[i].may, g.assoc);
      }
  }

  /** Where a run reaches a cache the next assumption is true of, the assertion holds. */
  lemma RunCanUpdate(g: Geometry, h: History, c: seq<seq<Tag>>, lower: nat, addr: nat, upper: nat,
                     assumption: Classification)
    requires g.Valid() && Fits(g, h) && Reaches(g, h, c) && |c| == g.nSets && lower <= addr <= upper
    requires TrueOf(g, c, lower, addr, upper, assumption)
    ensures CanUpdate(g, Eval(g, h), lower, upper, assumption)
  {
    RunSound(g, h, c);
    TrueCanUpdate(g, Eval(g, h), c, lower, addr, upper, assumption);
  }

  /** At every point of every run a definite classification is right for each address it covers. */
  lemma RunClassifies(g: Geometry, h: History, c: seq<seq<Tag>>, lower: nat, addr: nat, upper: nat)
    requires g.Valid() && Fits(g, h) && Reaches(g, h, c) && lower <= addr <= upper
    ensures |c| == g.nSets
    ensures ClassifyLines(g, Eval(g, h), g.Line(lower), g.Line(upper)) == Hit ==> IsCached(g, c, addr)
    ensures ClassifyLines(g, Eval(g, h), g.Line(lower), g.Line(upper)) == Miss ==> !IsCached(g, c, addr)
  {
    RunSound(g, h, c);
    ClassifySoundForAll(g, Eval(g, h), c, lower, addr, upper);
  }

  // ---------- The cache object ----------

  class AbstractCacheImpl {
    const g: Geometry
    const cacheSets: array<Product>

    ghost predicate Valid()
      reads this, cacheSets
    {
      g.Valid() && AllValid(g, cacheSets[..])
    }

    constructor (g: Geometry, assumeAnEmptyCache: bool)
      requires g.Valid()
      ensures Valid() && this.g == g && cacheSets[..] == Eval(g, Start(assumeAnEmptyCache)) && fresh(cacheSets)
    {
      this.g := g;
      cacheSets := new Product[g.nSets](_ => InitialSet(assumeAnEmptyCache, g.assoc));
      new;
      RunSound(g, Start(assumeAnEmptyCache), []);
      assert cacheSets[..] == Eval(g, Start(assumeAnEmptyCache));
    }

    method Classify(lower: nat, upper: nat, isUnknownAddress: bool) returns (result: Classification)
      requires Valid() && lower <= upper
      ensures isUnknownAddress ==> result == Unknown
      ensures !isUnknownAddress ==> result == ClassifyLines(g, cacheSets[..], g.Line(lower), g.Line(upper))
    {
      if isUnknownAddress {
        return Unknown;
      }
      var low, up := AlignToCacheline(lower), AlignToCacheline(upper);
      result := ClassifyFrom(low, up, g.Line(lower), g.Line(upper));
    }

    method ClassifyFrom(start: nat, up: nat, ghost first: nat, ghost last: nat) returns (result: Classification)
      requires Valid() && g.Aligned(start) && g.Aligned(up) && g.Line(start) == first && g.Line(up) == last
      ensures result == ClassifyLines(g, cacheSets[..], first, last)
    {
      ghost var sets, line := cacheSets[..], first;
      var low := start;
      result := Bot;
      LineOrder(g, low, up);
      ClassifyLinesDefinite(g, sets, first, last);
      while low <= up && result != Unknown
        invariant 0 <= low && g.Aligned(low) && g.Line(low) == line && (low <= up <==> line <= last)
        invariant Definite(result)
        invariant ClassifyLines(g, sets, first, last) == result.Join(ClassifyLines(g, sets, line, last))
        decreases last + 1 - line
      {
        low, result := ClassifyOne(low, up, result, line, last);
        line := line + 1;
      }
      ClassifyDone(g, sets, result, line, last);
    }

    /** Joins the classification of the line at `low` and moves to the next line. */
    method ClassifyOne(low: nat, ghost up: nat, result: Classification, ghost line: nat, ghost last: nat)
      returns (low': nat, result': Classification)
      requires Valid() && g.Aligned(low) && g.Aligned(up) && low <= up && g.Line(low) == line <= last == g.Line(up)
      requires Definite(result)
      ensures g.Aligned(low') && g.Line(low') == line + 1 && (low' <= up <==> line + 1 <= last) && Definite(result')
      ensures result.Join(ClassifyLines(g, cacheSets[..], line, last)) ==
              result'.Join(ClassifyLines(g, cacheSets[..], line + 1, last))
    {
      NextLine(g, low);
      LineOrder(g, low + g.lineSize, up);
      ClassifyStep(g, cacheSets[..], result, line, last);
      result' := result.Join(cacheSets[g.SetOf(low)].Classify(g.TagOf(low), g.assoc));
      low' := low + g.lineSize;
    }

    function AlignToCacheline(addr: nat): (start: nat)
      requires g.Valid()
      ensures g.Aligned(start) && g.Line(start) == g.Line(addr)
    {
      AlignedStart(g, addr);
      addr - addr % g.lineSize
    }

    /** An access somewhere in [lower, upper]. */
    method Update(lower: nat, upper: nat, assumption: Classification)
      requires Valid() && lower <= upper && IntervalFits(g, lower, upper)
      requires g.Line(lower) == g.Line(upper) ==>
        cacheSets[g.SetOf(lower)].CanUpdate(g.TagOf(lower), assumption, g.level, g.assoc)
      modifies cacheSets
      ensures Valid() && cacheSets[..] == old(Updated(g, cacheSets[..], lower, upper, assumption))
    {
      ghost var sets := cacheSets[..];
      if g.Line(lower) == g.Line(upper) {
        var index := g.SetOf(lower);
        PreciseValid(g, sets[index], g.TagOf(lower), assumption);
        cacheSets[index] := cacheSets[index].Update(g.TagOf(lower), assumption, g.level, g.assoc);
        return;
      }
      var l, u := g.SetInterval(lower, upper).0, g.SetInterval(lower, upper).1;
      AssertionExactly(g, lower, upper);
      UpdateCycle(l, u, g.TagOf(lower), g.TagOf(upper));
    }

    /** All sets from `l` on to `u`, with wraparound; the precondition on them is the source's assertion. */
    method UpdateCycle(l: nat, u: nat, lowTag: nat, highTag: nat)
      requires Valid() && l < g.nSets && u < g.nSets && (g.nSets == 1 || l != u)
      modifies cacheSets
      ensures Valid() && cacheSets[..] == UpdateUnknown(g, old(cacheSets[..]), l, u, lowTag, highTag)
    {
      if l <= u {
        UpdateUnknownSets(l, u, lowTag, highTag);
      } else {
        UpdateUnknownSets(l, g.nSets - 1, lowTag, highTag);
        UpdateUnknownSets(0, u, lowTag, highTag);
      }
    }

    method UpdateUnknownSets(lower: nat, upper: nat, lowTag: nat, highTag: nat)
      requires Valid() && lower <= upper < g.nSets
      modifies cacheSets
      ensures Valid()
      ensures forall i :: 0 <= i < g.nSets ==>
        cacheSets[i] == old(if lower <= i <= upper then cacheSets[i].PotentialUpdate(lowTag, highTag, g.assoc)
                            else cacheSets[i])
    {
      var index := lower;
      while index <= upper
        invariant lower <= index <= upper + 1
        invariant forall i :: 0 <= i < g.nSets ==>
          cacheSets[i] == old(if lower <= i < index then cacheSets[i].PotentialUpdate(lowTag, highTag, g.assoc)
                              else cacheSets[i])
        invariant Valid()
      {
        MustAgeAllValid(cacheSets[index].must, g.assoc);
        MayPotentialValid(cacheSets[index].may, lowTag, highTag, g.assoc);
        cacheSets[index] := cacheSets[index].PotentialUpdate(lowTag, highTag, g.assoc);
        index := index + 1;
      }
    }

    method Join(y: AbstractCacheImpl)
      requires Valid() && y.Valid() && g == y.g
      modifies cacheSets
      ensures Valid() && cacheSets[..] == old(JoinAll(g, cacheSets[..], y.cacheSets[..]))
    {
      ghost var xs, ys := cacheSets[..], y.cacheSets[..];
      var i := 0;
      while i < g.nSets
        invariant 0 <= i <= g.nSets
        invariant forall k :: i <= k < g.nSets ==> cacheSets[k] == xs[k] && y.cacheSets[k] == ys[k]
        invariant forall k :: 0 <= k < i ==> cacheSets[k] == xs[k].Join(ys[k])
      {
        JoinSame(xs[i], g.assoc);
        if cacheSets[i] != y.cacheSets[i] {
          cacheSets[i] := cacheSets[i].Join(y.cacheSets[i]);
        }
        i := i + 1;
      }
      forall k | 0 <= k < g.nSets ensures cacheSets[k].Valid(g.assoc) {
        JoinSound(xs[k], ys[k], [], g.assoc);
      }
      assert cacheSets[..] == JoinAll(g, xs, ys);
    }
  }

  lemma PreciseValid(g: Geometry, p: Product, t: Tag, assumption: Classification)
    requires g.Valid() && p.Valid(g.assoc) && p.CanUpdate(t, assumption, g.level, g.assoc)
    ensures p.Update(t, assumption, g.level, g.assoc).Valid(g.assoc)
  {
    MustUpdateValid(p.must, t, AssumesHit(p.Assumed(t, assumption, g.assoc), g.level), g.assoc);
    MayUpdateValid(p.may, t, g.assoc);
  }

  /** Equal sets need no active joining. */
  lemma JoinSame(p: Product, assoc: nat)
    requires p.Valid(assoc)
    ensures p.Join(p) == p
  {
    MayJoinExact(p.may, p.may, assoc);
    SameMay(MayJoin(p.may, p.may), p.may, assoc);
    SameMap(MustJoin(p.must, p.must), p.must);
  }

  predicate Definite(cl: Classification) {
    cl in {Bot, Hit, Miss, Unknown}
  }

  lemma ClassifyLinesDefinite(g: Geometry, sets: seq<Product>, line: nat, last: nat)
    requires g.Valid() && |sets| == g.nSets
    ensures Definite(ClassifyLines(g, sets, line, last))
    decreases last - line
  {
    if line <= last {
      ClassifyLinesDefinite(g, sets, line + 1, last);
    }
  }

  lemma ClassifyStep(g: Geometry, sets: seq<Product>, result: Classification, line: nat, last: nat)
    requires g.Valid() && |sets| == g.nSets && line <= last && Definite(result)
    ensures var cl := sets[line % g.nSets].Classify(line / g.nSets, g.assoc);
      && Definite(result.Join(cl))
      && result.Join(ClassifyLines(g, sets, line, last)) == result.Join(cl).Join(ClassifyLines(g, sets, line + 1, last))
  {
    ClassifyLinesDefinite(g, sets, line + 1, last);
  }

  lemma ClassifyDone(g: Geometry, sets: seq<Product>, result: Classification, line: nat, last: nat)
    requires g.Valid() && |sets| == g.nSets && Definite(result) && (line > last || result == Unknown)
    ensures result.Join(ClassifyLines(g, sets, line, last)) == result
  {
    ClassifyLinesDefinite(g, sets, line, last);
  }

  lemma AlignedStart(g: Geometry, addr: nat)
    requires g.Valid()
    ensures 0 <= addr - addr % g.lineSize
    ensures g.Aligned(addr - addr % g.lineSize) && g.Line(addr - addr % g.lineSize) == g.Line(addr)
  {
    DivMod(addr, g.lineSize);
    DivModUnique(addr - addr % g.lineSize, g.lineSize, g.Line(addr), 0);
  }

  lemma NextLine(g: Geometry, low: nat)
    requires g.Valid() && g.Aligned(low)
    ensures g.Aligned(low + g.lineSize) && g.Line(low + g.lineSize) == g.Line(low) + 1
  {
    DivMod(low, g.lineSize);
    MulNext(g.lineSize, g.Line(low));
    DivModUnique(low + g.lineSize, g.lineSize, g.Line(low) + 1, 0);
  }

  lemma LineOrder(g: Geometry, low: nat, up: nat)
    requires g.Valid() && g.Aligned(low) && g.Aligned(up)
    ensures low <= up <==> g.Line(low) <= g.Line(up)
  {
    var l, p, q := g.lineSize, g.Line(low), g.Line(up);
    DivMod(low, l);
    DivMod(up, l);
    MulOrder(l, p, q);
    MulOrder(l, q, p);
  }
}
