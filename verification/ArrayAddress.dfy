/** The cache of the array-aware analysis with real addresses, and when the analysis is right about it. */
module ArrayAddresses {
  import opened Arith
  import opened CacheGeometry
  import opened LruSet
  import opened Classifications
  import WholeCache
  import opened CacheSelections
  import ArrayMust
  import opened ArrayLayouts
  import opened ArrayCaches
  import opened ArrayCachesExact

  function Lower(a: Arrays, place: Place): nat {
    match place case Interval(lower, _) => lower case Element(v) => a.base(v)
  }

  /** The last address; in an array that is its last word. */
  function Upper(a: Arrays, place: Place): int {
    match place case Interval(_, upper) => upper case Element(v) => a.base(v) + a.size(v) - 4
  }

  /** The interval is not empty, and selecting its sets works. */
  predicate PlaceFits(g: Geometry, a: Arrays, place: Place)
    requires g.Valid()
  {
    Lower(a, place) <= Upper(a, place) && WholeCache.IntervalFits(g, Lower(a, place), Upper(a, place))
  }

  function SelectAt(g: Geometry, a: Arrays, place: Place): Selection
    requires g.Valid()
  {
    if PlaceFits(g, a, place) then Select(g, Lower(a, place), Upper(a, place)) else OneLine(0, 0)
  }

  /** Some address of the place lies in set `i` and has tag `t`. */
  ghost predicate ReachesLine(g: Geometry, a: Arrays, place: Place, i: nat, t: Tag)
    requires g.Valid()
  {
    exists addr: nat :: Lower(a, place) <= addr <= Upper(a, place) && g.SetOf(addr) == i && g.TagOf(addr) == t
  }

  ghost function Described(g: Geometry, a: Arrays): Cache
    requires g.Valid()
  {
    Cache(g.assoc, g.nSets, (place: Place) => PlaceFits(g, a, place), (place: Place) => SelectAt(g, a, place),
      (place: Place, i: nat, t: Tag) => ReachesLine(g, a, place, i, t), Sizes(g, a), (i: nat) => LinesOf(g, a, i))
  }

  lemma AddressIsSelected(g: Geometry, a: Arrays, place: Place, addr: nat, i: nat, t: Tag)
    requires g.Valid() && PlaceFits(g, a, place) && Lower(a, place) <= addr <= Upper(a, place)
    requires i == g.SetOf(addr) && t == g.TagOf(addr)
    ensures match SelectAt(g, a, place) case OneLine(j, s) => i == j && t == s case Sets(l, u) => InCycle(l, u, i)
  {
    SelectedAt(g, Lower(a, place), addr, Upper(a, place), i);
  }

  lemma AddressInArray(g: Geometry, a: Arrays, v: Array, addr: nat, i: nat, t: Tag)
    requires g.Valid() && Lower(a, Element(v)) <= addr <= Upper(a, Element(v))
    requires i == g.SetOf(addr) && t == g.TagOf(addr)
    ensures t in LinesOf(g, a, i)(v)
  {
    LineOfArray(g, a, i, v, addr);
  }

  lemma ReachedIsSelected(g: Geometry, a: Arrays, place: Place, i: nat, t: Tag)
    requires g.Valid() && PlaceFits(g, a, place) && ReachesLine(g, a, place, i, t)
    ensures i < g.nSets && t >= 0
    ensures match SelectAt(g, a, place) case OneLine(j, s) => i == j && t == s case Sets(l, u) => InCycle(l, u, i)
    ensures place.Element? ==> t in LinesOf(g, a, i)(place.v)
  {
    var addr: nat :| Lower(a, place) <= addr <= Upper(a, place) && g.SetOf(addr) == i && g.TagOf(addr) == t;
    AddressIsSelected(g, a, place, addr, i, t);
    if place.Element? {
      AddressInArray(g, a, place.v, addr, i, t);
    }
  }

  /** An access reaches the analysis of a set exactly if some address of its place lies in the set. */
  lemma SeenExactly(g: Geometry, a: Arrays, place: Place, hit: bool, i: nat)
    requires g.Valid() && i < g.nSets && PlaceFits(g, a, place)
    requires g.lineSize >= 4 || !g.SpansAllSets(Lower(a, place), Upper(a, place))
    ensures OpAt(SelectAt(g, a, place), ArrayOf(place), hit, i).Some? <==> exists t :: ReachesLine(g, a, place, i, t)
  {
    var lower, upper := Lower(a, place), Upper(a, place);
    AddressesReach(g, a, place, i);
    if g.Line(lower) == g.Line(upper) {
      if addr: nat :| lower <= addr <= upper && g.SetOf(addr) == i {
        WholeCache.SameLine(g, lower, addr, upper);
      }
    } else {
      WholeCache.TouchedExactly(g, lower, upper, i);
    }
  }

  lemma AddressesReach(g: Geometry, a: Arrays, place: Place, i: nat)
    requires g.Valid() && PlaceFits(g, a, place)
    ensures (exists t :: ReachesLine(g, a, place, i, t)) <==>
      WholeCache.SomeAddressIn(g, Lower(a, place), Upper(a, place), i)
  {
    if addr: nat :| Lower(a, place) <= addr <= Upper(a, place) && g.SetOf(addr) == i {
      assert ReachesLine(g, a, place, i, g.TagOf(addr));
    }
  }

  /** The assumption of the theorems about caches. */
  lemma DescribedIsSane(g: Geometry, a: Arrays)
    requires g.Valid()
    ensures Sane(Described(g, a))
  {
    LinesAreSelected(g, a);
    ReachedAreSelected(g, a);
    SizesAreBounds(g, a);
  }

  lemma LinesAreSelected(g: Geometry, a: Arrays)
    requires g.Valid()
    ensures SelectsLines(Described(g, a))
  {}

  lemma ReachedAreSelected(g: Geometry, a: Arrays)
    requires g.Valid()
    ensures SelectsReached(Described(g, a))
  {
    var k := Described(g, a);
    forall place, i, t | k.fits(place) && k.reaches(place, i, t) ensures ReachesSelected(k, place, i, t) {
      ReachedIsSelected(g, a, place, i, t);
    }
  }

  lemma SizesAreBounds(g: Geometry, a: Arrays)
    requires g.Valid()
    ensures SizesBound(Described(g, a))
  {
    forall v, i: nat ensures |LinesOf(g, a, i)(v)| <= Sizes(g, a)(v) {
      SizeBounds(g, a, i, v);
    }
  }

  /** The cache with this geometry and these arrays. */
  ghost function CacheOf(g: Geometry, a: Arrays): (k: Cache)
    requires g.Valid()
    ensures Sane(k)
  {
    DescribedIsSane(g, a);
    Described(g, a)
  }

  // ---------- Lines ----------

  lemma AddressExists(g: Geometry, i: nat, t: nat) returns (addr: nat)
    requires g.Valid() && i < g.nSets
    ensures g.SetOf(addr) == i && g.TagOf(addr) == t
  {
    addr := g.lineSize * (g.nSets * t + i);
    DivModUnique(addr, g.lineSize, g.nSets * t + i, 0);
    DivModUnique(g.nSets * t + i, g.nSets, t, i);
  }

  lemma PointIsLine(g: Geometry, a: Arrays, addr: nat)
    requires g.Valid()
    ensures PlaceFits(g, a, Interval(addr, addr))
    ensures ReachesLine(g, a, Interval(addr, addr), g.SetOf(addr), g.TagOf(addr))
    ensures SelectAt(g, a, Interval(addr, addr)) == OneLine(g.SetOf(addr), g.TagOf(addr))
  {}

  lemma CacheOfHasLines(g: Geometry, a: Arrays)
    requires g.Valid()
    ensures HasLines(CacheOf(g, a))
  {
    var k := CacheOf(g, a);
    forall i: nat, t: Tag | i < k.nSets && t >= 0 ensures SomeLine(k, i, t) {
      var addr := AddressExists(g, i, t);
      PointIsLine(g, a, addr);
      assert IsLine(k, Interval(addr, addr), i, t);
    }
  }

  /** The first and the last word of the array lie in different lines. */
  predicate Across(g: Geometry, a: Arrays, v: Array)
    requires g.Valid()
  {
    PlaceFits(g, a, Element(v)) && g.Line(Lower(a, Element(v))) != g.Line(Upper(a, Element(v)))
  }

  lemma SelectsSets(g: Geometry, lower: nat, upper: nat)
    requires g.Valid()
    ensures Select(g, lower, upper).Sets? <==> g.Line(lower) != g.Line(upper)
  {}

  lemma FieldsOf(g: Geometry, a: Arrays, place: Place)
    requires g.Valid()
    ensures CacheOf(g, a).fits(place) == PlaceFits(g, a, place)
    ensures CacheOf(g, a).select(place) == SelectAt(g, a, place)
  {}

  /** Exactly the arrays that fit and do not lie in one line are accessed as such. */
  lemma CrossesExactly(g: Geometry, a: Arrays, v: Array)
    requires g.Valid()
    ensures Crosses(CacheOf(g, a), v) <==> Across(g, a, v)
  {
    FieldsOf(g, a, Element(v));
    if PlaceFits(g, a, Element(v)) {
      SelectsSets(g, Lower(a, Element(v)), Upper(a, Element(v)));
    }
  }

  /** The set an array starts in sees its accesses. */
  lemma FirstIsSelected(g: Geometry, a: Arrays, v: Array, i: nat)
    requires g.Valid() && PlaceFits(g, a, Element(v)) && i == g.SetOf(a.base(v))
    ensures match SelectAt(g, a, Element(v)) case Sets(l, u) => InCycle(l, u, i) case OneLine(j, t) => true
  {
    SelectedAt(g, a.base(v), a.base(v), Upper(a, Element(v)), i);
  }

  lemma SeenAtFirst(g: Geometry, a: Arrays, v: Array)
    requires g.Valid() && Across(g, a, v)
    ensures CrossesAt(CacheOf(g, a), v, g.SetOf(a.base(v)))
  {
    CrossesExactly(g, a, v);
    FieldsOf(g, a, Element(v));
    FirstIsSelected(g, a, v, g.SetOf(a.base(v)));
  }

  // ---------- Words ----------

  function FourTimes(n: nat): nat {
    4 * n
  }

  /** A whole number of words. */
  ghost predicate IsWords(n: nat) {
    exists m: nat :: n == FourTimes(m)
  }

  /** Lines consist of words, and so do arrays, which start at one. */
  ghost predicate WordAligned(g: Geometry, a: Arrays) {
    IsWords(g.lineSize) && forall v :: AlignedArray(a, v)
  }

  ghost predicate AlignedArray(a: Arrays, v: Array) {
    IsWords(a.base(v)) && IsWords(a.size(v))
  }

  /** Then every line of an array has a word of it. */
  lemma WordInLine(g: Geometry, base: nat, size: nat, i: nat, t: Tag) returns (addr: nat)
    requires g.Valid() && IsWords(g.lineSize) && IsWords(base) && IsWords(size) && HasLine(g, base, size, i, t)
    ensures base <= addr <= base + size - 4 && g.SetOf(addr) == i && g.TagOf(addr) == t
  {
    var b: nat :| base <= b < base + size && g.SetOf(b) == i && g.TagOf(b) == t;
    var word := WordOf(g, b);
    WordInside(base, size, word, b);
    addr := FourTimes(word);
  }

  lemma WordInside(base: nat, size: nat, word: nat, b: nat)
    requires IsWords(base) && IsWords(size) && base <= b < base + size && FourTimes(word) <= b < FourTimes(word) + 4
    ensures base <= FourTimes(word) <= base + size - 4
  {
    var start, length: nat :| base == FourTimes(start) && size == FourTimes(length);
  }

  /** The word an address lies in. */
  lemma WordOf(g: Geometry, b: nat) returns (word: nat)
    requires g.Valid() && IsWords(g.lineSize)
    ensures FourTimes(word) <= b < FourTimes(word) + 4 && g.Line(FourTimes(word)) == g.Line(b)
  {
    var m: nat :| g.lineSize == FourTimes(m);
    var l, q, r := g.lineSize, g.Line(b), b % g.lineSize;
    DivMod(b, l);
    word := m * q + r / 4;
    TimesFour(m, q);
    DivModUnique(FourTimes(word), l, q, FourTimes(r / 4));
  }

  lemma TimesFour(m: nat, q: nat)
    ensures FourTimes(m) * q == FourTimes(m * q)
  {}

  /** So all lines of an array in set `i` can be accessed. */
  lemma WordsReachAll(g: Geometry, a: Arrays, k: Cache, v: Array, i: nat)
    requires g.Valid() && IsWords(g.lineSize) && AlignedArray(a, v) && k == CacheOf(g, a)
    ensures ReachesAll(k, v, i)
  {
    if !ReachesAll(k, v, i) {
      var t :| t in k.lines(i)(v) && !k.reaches(Element(v), i, t);
      WordsReach(g, a, v, i, t, k.lines(i)(v));
    }
  }

  lemma WordsReach(g: Geometry, a: Arrays, v: Array, i: nat, t: Tag, lines: set<Tag>)
    requires g.Valid() && IsWords(g.lineSize) && AlignedArray(a, v)
    requires lines == CacheOf(g, a).lines(i)(v) && t in lines
    ensures CacheOf(g, a).reaches(Element(v), i, t)
  {
    ArrayFields(g, a, v, i);
    TagInLines(g, a, i, v, t, lines);
    LineIsReached(g, a, v, i, t);
  }

  lemma ArrayFields(g: Geometry, a: Arrays, v: Array, i: nat)
    requires g.Valid()
    ensures CacheOf(g, a).sizes == Sizes(g, a) && CacheOf(g, a).lines(i) == LinesOf(g, a, i)
    ensures forall t :: CacheOf(g, a).reaches(Element(v), i, t) == ReachesLine(g, a, Element(v), i, t)
  {}

  lemma LineIsReached(g: Geometry, a: Arrays, v: Array, i: nat, t: Tag)
    requires g.Valid() && IsWords(g.lineSize) && AlignedArray(a, v)
    requires HasLine(g, a.base(v), a.size(v), i, t)
    ensures ReachesLine(g, a, Element(v), i, t)
  {
    var addr := WordInLine(g, a.base(v), a.size(v), i, t);
  }

  lemma TagInLines(g: Geometry, a: Arrays, i: nat, v: Array, t: Tag, lines: set<Tag>)
    requires g.Valid() && lines == LinesOf(g, a, i)(v) && t in lines
    ensures HasLine(g, a.base(v), a.size(v), i, t)
  {}

  lemma HasWords(g: Geometry, a: Arrays, v: Array)
    requires g.Valid() && PlaceFits(g, a, Element(v))
    ensures a.size(v) >= 4
  {}

  // ---------- The theorems ----------

  /** The classification of an address. */
  function Classify(g: Geometry, sets: seq<Ages>, addr: nat): Classification
    requires g.Valid() && |sets| == g.nSets
  {
    ArrayMust.Classify(sets[g.SetOf(addr)], g.TagOf(addr), g.assoc)
  }

  /**
   Guarded runs are sound for every address of a real cache, with the sizes computed from the
   arrays' places in memory.
   */
  lemma RunSound(g: Geometry, a: Arrays, h: History, union: bool, c0: seq<seq<Tag>>, c: seq<seq<Tag>>, addr: nat)
    requires g.Valid() && Fits(CacheOf(g, a), h) && Guarded(CacheOf(g, a), h, union)
    requires ArrayCaches.IsCache(CacheOf(g, a), c0) && Reaches(CacheOf(g, a), h, c0, c)
    ensures |c| == g.nSets
    ensures Classify(g, Eval(CacheOf(g, a), h, union), addr) == Hit ==> WholeCache.IsCached(g, c, addr)
    ensures Classify(g, Eval(CacheOf(g, a), h, union), addr) == Miss ==> !WholeCache.IsCached(g, c, addr)
  {
    ArrayCaches.RunSound(CacheOf(g, a), h, union, c0, c);
  }

  /** Every array whose accesses span several lines has at least `n` lines in a set, as computed. */
  ghost predicate AtLeast(g: Geometry, a: Arrays, n: int)
    requires g.Valid()
  {
    forall v :: Across(g, a, v) ==> Sizes(g, a)(v) >= n
  }

  lemma AtLeastEachExactly(g: Geometry, a: Arrays, n: int)
    requires g.Valid()
    ensures AtLeastEach(CacheOf(g, a), n) <==> AtLeast(g, a, n)
  {
    forall v ensures Crosses(CacheOf(g, a), v) <==> Across(g, a, v) {
      CrossesExactly(g, a, v);
    }
  }

  /**
   All runs with the uniting join that assume hits for listed tags are right exactly if every
   array whose accesses span several lines has at least one line less than there are ways.
   */
  lemma UnionSoundExactly(g: Geometry, a: Arrays)
    requires g.Valid() && WordAligned(g, a)
    ensures UnionSound(CacheOf(g, a)) <==> AtLeast(g, a, g.assoc - 1)
  {
    AtLeastEachExactly(g, a, g.assoc - 1);
    if AtLeast(g, a, g.assoc - 1) {
      AtLeastIsUnionSound(CacheOf(g, a));
    } else {
      var v :| Across(g, a, v) && Sizes(g, a)(v) < g.assoc - 1;
      assert AlignedArray(a, v);
      NarrowUnion(g, a, CacheOf(g, a), v, g.SetOf(a.base(v)));
    }
  }

  lemma NarrowUnion(g: Geometry, a: Arrays, k: Cache, v: Array, i: nat)
    requires g.Valid() && Across(g, a, v) && k == CacheOf(g, a) && i == g.SetOf(a.base(v))
    requires IsWords(g.lineSize) && AlignedArray(a, v) && Sizes(g, a)(v) + 2 <= g.assoc
    ensures !UnionSound(k)
  {
    CacheOfHasLines(g, a);
    SeenAtFirst(g, a, v);
    WordsReachAll(g, a, k, v, i);
    SizeAtFirst(g, a, k, v, i);
    NarrowIsUnionUnsound(k, v, i);
  }

  lemma SizeAtFirst(g: Geometry, a: Arrays, k: Cache, v: Array, i: nat)
    requires g.Valid() && PlaceFits(g, a, Element(v)) && k == CacheOf(g, a) && i == g.SetOf(a.base(v))
    ensures k.assoc == g.assoc && k.sizes == Sizes(g, a) && 1 <= |k.lines(i)(v)| == k.sizes(v)
  {
    HasWords(g, a, v);
    SizeIsReached(g, a, v);
    SizePositive(g, a, v);
    ArrayFields(g, a, v, i);
  }

  /** The first line of an array. */
  lemma FirstLine(g: Geometry, a: Arrays, v: Array) returns (i: nat, x: Tag)
    requires g.Valid() && PlaceFits(g, a, Element(v))
    ensures i == g.SetOf(a.base(v)) && x == g.TagOf(a.base(v)) && ReachesLine(g, a, Element(v), i, x)
  {
    i, x := g.SetOf(a.base(v)), g.TagOf(a.base(v));
  }

  /** The second line of an array whose accesses span several. */
  lemma SecondLine(g: Geometry, a: Arrays, v: Array, i: nat, x: Tag) returns (j: nat, t: Tag)
    requires g.Valid() && Across(g, a, v) && i == g.SetOf(a.base(v)) && x == g.TagOf(a.base(v))
    ensures ReachesLine(g, a, Element(v), j, t) && (j != i || t != x)
  {
    var base := a.base(v);
    var addr := NextLineStart(g, base, Upper(a, Element(v)));
    j, t := g.SetOf(addr), g.TagOf(addr);
    DivMod(g.Line(addr), g.nSets);
    DivMod(g.Line(base), g.nSets);
  }

  lemma NextLineStart(g: Geometry, lower: nat, upper: nat) returns (addr: nat)
    requires g.Valid() && lower <= upper && g.Line(lower) != g.Line(upper)
    ensures lower <= addr <= upper && g.Line(addr) == g.Line(lower) + 1
  {
    var l, q := g.lineSize, g.Line(lower);
    addr := l * (q + 1);
    DivMonotone(lower, upper, l);
    DivMod(lower, l);
    DivMod(upper, l);
    MulNext(l, q);
    MulMonotone(l, q + 1, g.Line(upper));
    DivModUnique(addr, l, q + 1, 0);
  }

  /**
   All runs whose assumed hits are true, whether the tags are listed or not, are right with
   either join exactly if every such array has at least as many lines as there are ways.
   */
  lemma HitSoundExactly(g: Geometry, a: Arrays, union: bool)
    requires g.Valid()
    ensures HitSound(CacheOf(g, a), union) <==> AtLeast(g, a, g.assoc)
  {
    AtLeastEachExactly(g, a, g.assoc);
    if AtLeast(g, a, g.assoc) {
      AtLeastIsHitSound(CacheOf(g, a), union);
    } else {
      var v :| Across(g, a, v) && Sizes(g, a)(v) < g.assoc;
      NarrowHit(g, a, v, union);
    }
  }

  lemma NarrowHit(g: Geometry, a: Arrays, v: Array, union: bool)
    requires g.Valid() && Across(g, a, v) && Sizes(g, a)(v) < g.assoc
    ensures !HitSound(CacheOf(g, a), union)
  {
    var i, x, j, t := TwoLines(g, a, v);
    NarrowHitAt(g, a, v, i, x, j, t, union);
  }

  lemma TwoLines(g: Geometry, a: Arrays, v: Array) returns (i: nat, x: Tag, j: nat, t: Tag)
    requires g.Valid() && Across(g, a, v)
    ensures i == g.SetOf(a.base(v)) && ReachesLine(g, a, Element(v), i, x) && ReachesLine(g, a, Element(v), j, t)
    ensures j != i || t != x
  {
    i, x := FirstLine(g, a, v);
    j, t := SecondLine(g, a, v, i, x);
  }

  lemma NarrowHitAt(g: Geometry, a: Arrays, v: Array, i: nat, x: Tag, j: nat, t: Tag, union: bool)
    requires g.Valid() && Across(g, a, v) && Sizes(g, a)(v) < g.assoc && i == g.SetOf(a.base(v))
    requires ReachesLine(g, a, Element(v), i, x) && ReachesLine(g, a, Element(v), j, t) && (j != i || t != x)
    ensures !HitSound(CacheOf(g, a), union)
  {
    HasWords(g, a, v);
    SizePositive(g, a, v);
    CacheOfHasLines(g, a);
    SeenAtFirst(g, a, v);
    ArrayFields(g, a, v, i);
    ArrayFields(g, a, v, j);
    NarrowIsHitUnsound(CacheOf(g, a), v, i, x, j, t, union);
  }
}
