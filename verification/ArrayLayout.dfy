/** How many lines of an array fall into one cache set: the bound the array-aware analysis works with. */
module ArrayLayouts {
  import opened Arith
  import opened CacheGeometry
  import opened CacheSelections
  import opened LruSet
  import opened Options
  import opened ArrayMust

  /** The size of an array counted from the start of its first line. */
  function PaddedSize(g: Geometry, base: nat, size: nat): nat
    requires g.Valid()
  {
    size + base % g.lineSize
  }

  function PerSetSize(g: Geometry, base: nat, size: nat): nat
    requires g.Valid()
  {
    WaySizePositive(g);
    var padded, waySize := PaddedSize(g, base, size), g.nSets * g.lineSize;
    padded / waySize + (if padded % waySize != 0 then 1 else 0)
  }

  lemma WaySizePositive(g: Geometry)
    requires g.Valid()
    ensures g.nSets * g.lineSize >= g.lineSize >= 1
  {
    MulMonotone(g.lineSize, 1, g.nSets);
  }

  /** Some address of the array lies in set `i` and has tag `t`. */
  ghost predicate HasLine(g: Geometry, base: nat, size: nat, i: nat, t: Tag)
    requires g.Valid()
  {
    exists addr: nat :: base <= addr < base + size && g.SetOf(addr) == i && g.TagOf(addr) == t
  }

  /** The tags of the array's lines in set `i`. */
  ghost function ArrayTags(g: Geometry, base: nat, size: nat, i: nat): set<Tag>
    requires g.Valid()
  {
    set t: Tag | 0 <= t <= g.TagOf(base + size) && HasLine(g, base, size, i, t)
  }

  lemma ScaleTag(l: nat, n: nat, t: nat, i: nat)
    ensures l * (n * t + i) == (n * l) * t + l * i
  {
    assert l * (n * t + i) == l * (n * t) + l * i;
    assert l * (n * t) == (n * l) * t;
  }

  /** Where the line of an address starts. */
  lemma StartOfLine(g: Geometry, addr: nat)
    requires g.Valid()
    ensures g.lineSize * g.Line(addr) == (g.nSets * g.lineSize) * g.TagOf(addr) + g.lineSize * g.SetOf(addr)
    ensures g.lineSize * g.Line(addr) + addr % g.lineSize == addr
  {
    DivMod(addr, g.lineSize);
    DivMod(g.Line(addr), g.nSets);
    ScaleTag(g.lineSize, g.nSets, g.TagOf(addr), g.SetOf(addr));
  }

  lemma MulMinus(w: nat, s: nat, t: nat)
    requires s <= t
    ensures w * (t - s) == w * t - w * s
  {}

  /** Tags of one set are a whole way apart, so an array of that size spans no more than its quotient. */
  lemma TagSpan(g: Geometry, base: nat, size: nat, a: nat, b: nat)
    requires g.Valid() && base <= a && b < base + size && g.SetOf(a) == g.SetOf(b) && g.TagOf(a) <= g.TagOf(b)
    ensures (g.nSets * g.lineSize) * (g.TagOf(b) - g.TagOf(a)) < PaddedSize(g, base, size)
  {
    StartOfLine(g, a);
    StartOfLine(g, b);
    StartOfLine(g, base);
    DivMonotone(base, a, g.lineSize);
    MulMonotone(g.lineSize, g.Line(base), g.Line(a));
    MulMinus(g.nSets * g.lineSize, g.TagOf(a), g.TagOf(b));
  }

  /** d multiples fit strictly below x only if d is below the rounded-up quotient. */
  lemma BelowCeiling(x: nat, w: nat, d: nat)
    requires w >= 1
    ensures w * d < x <==> d < x / w + (if x % w != 0 then 1 else 0)
  {
    DivMod(x, w);
    MulOrder(w, d, x / w);
  }

  lemma RangeSize(s: set<Tag>, lo: Tag, n: nat)
    requires forall t :: t in s ==> lo <= t < lo + n
    ensures |s| <= n
  {
    if n > 0 {
      var rest := s - {lo + n - 1};
      RangeSize(rest, lo, n - 1);
      SubsetSize(s, rest + {lo + n - 1});
    } else if s != {} {
      var t: Tag := SomeOf(s);
      assert false;
    }
  }

  lemma LowestTag(s: set<Tag>) returns (t: Tag)
    requires s != {}
    ensures t in s && forall u :: u in s ==> t <= u
    decreases |s|
  {
    t := SomeOf(s);
    var rest := s - {t};
    assert forall u :: u in s && u != t ==> u in rest;
    if exists u :: u in rest {
      var u := LowestTag(rest);
      t := if t <= u then t else u;
    }
  }

  /** No set ever holds more lines of the array than the computed size. */
  lemma PerSetSizeBounds(g: Geometry, base: nat, size: nat, i: nat)
    requires g.Valid()
    ensures |ArrayTags(g, base, size, i)| <= PerSetSize(g, base, size)
  {
    var tags := ArrayTags(g, base, size, i);
    if tags != {} {
      var low := LowestTag(tags);
      var a: nat :| base <= a < base + size && g.SetOf(a) == i && g.TagOf(a) == low;
      forall t | t in tags ensures low <= t < low + PerSetSize(g, base, size) {
        var b: nat :| base <= b < base + size && g.SetOf(b) == i && g.TagOf(b) == t;
        TagSpan(g, base, size, a, b);
        WaySizePositive(g);
        BelowCeiling(PaddedSize(g, base, size), g.nSets * g.lineSize, t - low);
      }
      RangeSize(tags, low, PerSetSize(g, base, size));
    }
  }

  /** `k` ways on from an address: the same set, `k` tags further. */
  lemma WaysOn(g: Geometry, addr: nat, k: nat)
    requires g.Valid()
    ensures g.SetOf(addr + (g.nSets * g.lineSize) * k) == g.SetOf(addr)
    ensures g.TagOf(addr + (g.nSets * g.lineSize) * k) == g.TagOf(addr) + k
  {
    var l, n := g.lineSize, g.nSets;
    var dest := addr + (n * l) * k;
    DivMod(addr, l);
    assert (n * l) * k == l * (n * k);
    assert dest == l * (g.Line(addr) + n * k) + addr % l;
    DivModUnique(dest, l, g.Line(addr) + n * k, addr % l);
    DivMod(g.Line(addr), n);
    assert g.Line(dest) == n * (g.TagOf(addr) + k) + g.SetOf(addr);
    DivModUnique(g.Line(dest), n, g.TagOf(addr) + k, g.SetOf(addr));
  }

  /** The array has a line `k` ways on from its first one, as long as that lies below its end. */
  lemma AddressOn(g: Geometry, base: nat, size: nat, k: nat) returns (addr: nat)
    requires g.Valid() && size >= 1 && k < PerSetSize(g, base, size)
    ensures base <= addr < base + size && g.SetOf(addr) == g.SetOf(base) && g.TagOf(addr) == g.TagOf(base) + k
  {
    var way, start := g.nSets * g.lineSize, base - base % g.lineSize;
    WaySizePositive(g);
    BelowCeiling(PaddedSize(g, base, size), way, k);
    LineStart(g, base, start);
    if k == 0 {
      addr := base;
    } else {
      WaysOn(g, start, k);
      MulMonotone(way, 1, k);
      addr := start + way * k;
    }
  }

  lemma LineStart(g: Geometry, base: nat, start: nat)
    requires g.Valid() && start == base - base % g.lineSize
    ensures g.SetOf(start) == g.SetOf(base) && g.TagOf(start) == g.TagOf(base) && base - start < g.lineSize
  {
    DivMod(base, g.lineSize);
    DivModUnique(start, g.lineSize, g.Line(base), 0);
  }

  lemma HasLineOn(g: Geometry, base: nat, size: nat, k: nat)
    requires g.Valid() && size >= 1 && k < PerSetSize(g, base, size)
    ensures g.TagOf(base) + k in ArrayTags(g, base, size, g.SetOf(base))
  {
    var addr := AddressOn(g, base, size, k);
    AddressIsLine(g, base, size, addr);
  }

  /** The computed size is the best one: the set of the array's first line really holds that many. */
  lemma PerSetSizeIsReached(g: Geometry, base: nat, size: nat)
    requires g.Valid() && size >= 1
    ensures |ArrayTags(g, base, size, g.SetOf(base))| == PerSetSize(g, base, size)
  {
    PerSetSizeBounds(g, base, size, g.SetOf(base));
    AtLeast(g, base, size, ArrayTags(g, base, size, g.SetOf(base)), g.TagOf(base), PerSetSize(g, base, size));
  }

  lemma AtLeast(g: Geometry, base: nat, size: nat, tags: set<Tag>, first: nat, n: nat)
    requires g.Valid() && size >= 1 && n == PerSetSize(g, base, size)
    requires tags == ArrayTags(g, base, size, g.SetOf(base)) && first == g.TagOf(base)
    ensures |tags| >= n
  {
    forall t: Tag | first <= t < first + n ensures t in tags {
      HasLineOn(g, base, size, t - first);
    }
    RangeInside(tags, first, n);
  }

  lemma RangeInside(s: set<Tag>, lo: Tag, n: nat)
    requires forall t: Tag :: lo <= t < lo + n ==> t in s
    ensures |s| >= n
  {
    if n > 0 {
      assert lo + (n - 1) in s;
      RangeInside(s - {lo + (n - 1)}, lo, n - 1);
    }
  }

  /** Where each array lies in memory. */
  datatype Arrays = Arrays(base: Array -> nat, size: Array -> nat)

  /** The sizes the analysis works with. */
  function Sizes(g: Geometry, a: Arrays): Array -> nat
    requires g.Valid()
  {
    (v: Array) => PerSetSize(g, a.base(v), a.size(v))
  }

  /** The lines of the arrays in set `i`. */
  ghost function LinesOf(g: Geometry, a: Arrays, i: nat): Array -> set<Tag>
    requires g.Valid()
  {
    (v: Array) => ArrayTags(g, a.base(v), a.size(v), i)
  }

  /** So the sizes meet the assumption of the run theorems in every set. */
  lemma SizeBounds(g: Geometry, a: Arrays, i: nat, v: Array)
    requires g.Valid()
    ensures |LinesOf(g, a, i)(v)| <= Sizes(g, a)(v)
  {
    PerSetSizeBounds(g, a.base(v), a.size(v), i);
  }

  lemma SizePositive(g: Geometry, a: Arrays, v: Array)
    requires g.Valid() && a.size(v) >= 1
    ensures Sizes(g, a)(v) >= 1
  {
    var way := g.nSets * g.lineSize;
    WaySizePositive(g);
    assert way * 0 == 0;
    BelowCeiling(PaddedSize(g, a.base(v), a.size(v)), way, 0);
  }

  /** The computed size is reached in the set the array starts in. */
  lemma SizeIsReached(g: Geometry, a: Arrays, v: Array)
    requires g.Valid() && a.size(v) >= 1
    ensures |LinesOf(g, a, g.SetOf(a.base(v)))(v)| == Sizes(g, a)(v)
  {
    PerSetSizeIsReached(g, a.base(v), a.size(v));
  }

  /** An address inside an array is one of its lines. */
  lemma AddressIsLine(g: Geometry, base: nat, size: nat, addr: nat)
    requires g.Valid() && base <= addr < base + size
    ensures g.TagOf(addr) in ArrayTags(g, base, size, g.SetOf(addr))
  {
    DivMonotone(addr, base + size, g.lineSize);
    DivMonotone(g.Line(addr), g.Line(base + size), g.nSets);
    assert HasLine(g, base, size, g.SetOf(addr), g.TagOf(addr));
  }

  lemma LineOfArray(g: Geometry, a: Arrays, i: nat, v: Array, addr: nat)
    requires g.Valid() && a.base(v) <= addr < a.base(v) + a.size(v)
    ensures TouchAt(g, addr, i).Some? ==> TouchAt(g, addr, i).value in LinesOf(g, a, i)(v)
  {
    var base, size, lines := a.base(v), a.size(v), LinesOf(g, a, i)(v);
    assert lines == ArrayTags(g, base, size, i);
    TouchesLine(g, base, size, i, addr, lines);
  }

  lemma TouchesLine(g: Geometry, base: nat, size: nat, i: nat, addr: nat, lines: set<Tag>)
    requires g.Valid() && base <= addr < base + size && lines == ArrayTags(g, base, size, i)
    ensures TouchAt(g, addr, i).Some? ==> TouchAt(g, addr, i).value in lines
  {
    AddressIsLine(g, base, size, addr);
  }
}
