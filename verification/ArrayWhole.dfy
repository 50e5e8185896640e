/**
 A whole cache under the array-aware must analysis: accesses are known to lie in an address
 interval or in an array, and every set is analysed on its own. How addresses map to sets
 and lines is left to the cache; `ArrayAddresses` has the real ones.
 */
module ArrayCaches {
  import opened CacheGeometry
  import opened LruSet
  import opened Classifications
  import opened Options
  import opened CacheSelections
  import ArrayMust
  import ArrayRuns
  import ArrayHits
  import ArrayUnion

  type Array = ArrayMust.Array
  type Layout = ArrayMust.Layout
  type Ages = ArrayMust.Ages

  /** What is known of the address of an access. */
  datatype Place = Interval(lower: nat, upper: nat) | Element(v: Array)

  function ArrayOf(place: Place): Option<Array> {
    match place case Interval(_, _) => None case Element(v) => Some(v)
  }

  /**
   The places that can be accessed, the sets or the line the update selects for them, the lines
   (by set and tag) that are really accessed there, and what is computed and true of the arrays.
   */
  datatype Cache = Cache(assoc: nat, nSets: nat,
    fits: Place -> bool, select: Place -> Selection, reaches: (Place, nat, Tag) -> bool,
    sizes: Array -> nat, lines: nat -> Array -> set<Tag>)

  ghost predicate Sane(k: Cache) {
    k.assoc >= 1 && SelectsLines(k) && SelectsReached(k) && SizesBound(k)
  }

  ghost predicate SelectsLines(k: Cache) {
    forall place :: k.fits(place) && k.select(place).OneLine? ==> k.select(place).i < k.nSets
  }

  ghost predicate SelectsReached(k: Cache) {
    forall place, i, t :: k.fits(place) && k.reaches(place, i, t) ==> ReachesSelected(k, place, i, t)
  }

  ghost predicate SizesBound(k: Cache) {
    forall v, i :: |k.lines(i)(v)| <= k.sizes(v)
  }

  /** The accessed line is the selected one, or in one of the selected sets. */
  ghost predicate ReachesSelected(k: Cache, place: Place, i: nat, t: Tag) {
    && i < k.nSets && t >= 0
    && (match k.select(place) case OneLine(j, s) => i == j && t == s case Sets(l, u) => InCycle(l, u, i))
    && (place.Element? ==> t in k.lines(i)(place.v))
  }

  /** An array that is not known to lie in one line, so that its accesses reach the sets as such. */
  predicate Crosses(k: Cache, v: Array) {
    k.fits(Element(v)) && k.select(Element(v)).Sets?
  }

  function CrossesOf(k: Cache): Array -> bool {
    (v: Array) => Crosses(k, v)
  }

  function LayoutAt(k: Cache, i: nat): Layout {
    ArrayMust.Layout(k.assoc, k.sizes, k.lines(i))
  }

  /** The layout of set `i`, as far as arrays are accessed as such. */
  ghost predicate Agrees(k: Cache, i: nat, l: Layout) {
    ArrayMust.SameOn(CrossesOf(k), LayoutAt(k, i), l)
  }

  /** A cache update: one set precisely, or all sets of the interval. */
  function Updated(sets: seq<Ages>, sel: Selection, arr: Option<Array>, hit: bool, sizes: Array -> nat, assoc: nat)
    : (sets': seq<Ages>)
    requires assoc >= 1 && (sel.OneLine? ==> sel.i < |sets|)
    ensures |sets'| == |sets|
  {
    match sel
    case OneLine(i, t) => sets[i := ArrayMust.Update(sets[i], t, hit, assoc)]
    case Sets(l, u) =>
      seq(|sets|, i requires 0 <= i < |sets| =>
        if InCycle(l, u, i) then ArrayMust.PotentialUpdate(sets[i], arr, sizes, assoc) else sets[i])
  }

  datatype History = Start | Then(h: History, place: Place, hit: bool) | Joined(x: History, y: History)

  ghost predicate Fits(k: Cache, h: History) {
    match h
    case Start => true
    case Then(h, place, _) => Fits(k, h) && k.fits(place)
    case Joined(x, y) => Fits(k, x) && Fits(k, y)
  }

  ghost function Eval(k: Cache, h: History, union: bool): (sets: seq<Ages>)
    requires Sane(k) && Fits(k, h)
    ensures |sets| == k.nSets
  {
    match h
    case Start => seq(k.nSets, i => map[])
    case Then(h, place, hit) =>
      Updated(Eval(k, h, union), k.select(place), ArrayOf(place), hit, k.sizes, k.assoc)
    case Joined(x, y) =>
      var ex, ey := Eval(k, x, union), Eval(k, y, union);
      seq(k.nSets, i requires 0 <= i < k.nSets => ArrayMust.Join(ex[i], ey[i], union, k.assoc))
  }

  /** What set `i` sees of an access. */
  function OpAt(sel: Selection, arr: Option<Array>, hit: bool, i: nat): Option<ArrayMust.Op> {
    match sel
    case OneLine(j, t) => if i == j then Some(ArrayMust.Precise(t, hit)) else None
    case Sets(l, u) => if InCycle(l, u, i) then Some(ArrayMust.OpFor(arr)) else None
  }

  function SeenAt(h: ArrayRuns.History, op: Option<ArrayMust.Op>): ArrayRuns.History {
    match op case Some(op) => ArrayRuns.Then(h, op) case None => h
  }

  /** What set `i` sees of a history. */
  function HistoryAt(k: Cache, h: History, i: nat): ArrayRuns.History {
    match h
    case Start => ArrayRuns.Start
    case Then(h, place, hit) => SeenAt(HistoryAt(k, h, i), OpAt(k.select(place), ArrayOf(place), hit, i))
    case Joined(x, y) => ArrayRuns.Joined(HistoryAt(k, x, i), HistoryAt(k, y, i))
  }

  lemma UpdatedAt(sets: seq<Ages>, sel: Selection, arr: Option<Array>, hit: bool, sizes: Array -> nat, l: Layout,
                  i: nat)
    requires l.assoc >= 1 && i < |sets| && (sel.OneLine? ==> sel.i < |sets|)
    requires sel.Sets? && arr.Some? ==> sizes(arr.value) == l.perSetSize(arr.value)
    ensures Updated(sets, sel, arr, hit, sizes, l.assoc)[i] ==
      match OpAt(sel, arr, hit, i) case Some(op) => ArrayRuns.Step(l, sets[i], op) case None => sets[i]
  {
    if sel.Sets? {
      SameSizes(sets[i], arr, sizes, l.perSetSize, l.assoc);
    }
  }

  lemma SameSizes(ages: Ages, arr: Option<Array>, sizes: Array -> nat, sizes': Array -> nat, assoc: nat)
    requires assoc >= 1 && (arr.Some? ==> sizes(arr.value) == sizes'(arr.value))
    ensures ArrayMust.PotentialUpdate(ages, arr, sizes, assoc) == ArrayMust.PotentialUpdate(ages, arr, sizes', assoc)
  {
    forall u | u in ages
      ensures ArrayMust.AgeFor(ages[u], arr, sizes, assoc) == ArrayMust.AgeFor(ages[u], arr, sizes', assoc)
    {}
  }

  /** Every set goes through its own history. */
  lemma {:induction false} EvalAt(k: Cache, h: History, union: bool, i: nat, l: Layout)
    requires Sane(k) && Fits(k, h) && i < k.nSets && Agrees(k, i, l)
    ensures Eval(k, h, union)[i] == ArrayRuns.Eval(l, HistoryAt(k, h, i), union)
  {
    match h
    case Start =>
    case Then(h', place, hit) =>
      EvalAt(k, h', union, i, l);
      UpdatedAt(Eval(k, h', union), k.select(place), ArrayOf(place), hit, k.sizes, l, i);
    case Joined(x, y) =>
      EvalAt(k, x, union, i, l);
      EvalAt(k, y, union, i, l);
  }

  // ---------- Executions ----------

  ghost predicate IsCache(k: Cache, c: seq<seq<Tag>>) {
    |c| == k.nSets && forall i :: 0 <= i < |c| ==> IsLruSet(c[i], k.assoc)
  }

  function Touch(k: Cache, c: seq<seq<Tag>>, i: nat, t: Tag): seq<seq<Tag>>
    requires k.assoc >= 1 && i < |c|
  {
    c[i := Access(c[i], t, k.assoc)]
  }

  /** The caches reached from `c0` by accesses where the history says, with true assumed hits. */
  ghost predicate Reaches(k: Cache, h: History, c0: seq<seq<Tag>>, c: seq<seq<Tag>>)
    requires Sane(k)
  {
    match h
    case Start => c == c0
    case Then(h, place, hit) =>
      exists c1, i: nat, t: Tag :: Reaches(k, h, c0, c1) && StepsTo(k, place, hit, c1, i, t, c)
    case Joined(x, y) => Reaches(k, x, c0, c) || Reaches(k, y, c0, c)
  }

  /** One access, to tag `t` of set `i`. */
  ghost predicate StepsTo(k: Cache, place: Place, hit: bool, c: seq<seq<Tag>>, i: nat, t: Tag, c': seq<seq<Tag>>)
    requires Sane(k)
  {
    && |c| == k.nSets && i < k.nSets && k.reaches(place, i, t)
    && (k.select(place).OneLine? && hit ==> t in c[i]) && c' == Touch(k, c, i, t)
  }

  /** What set `j` sees of an access to tag `t` of set `i`. */
  function TouchedAt(i: nat, t: Tag, j: nat): Option<Tag> {
    if i == j then Some(t) else None
  }

  function After(s: seq<Tag>, x: Option<Tag>, assoc: nat): seq<Tag>
    requires assoc >= 1
  {
    match x case Some(t) => Access(s, t, assoc) case None => s
  }

  /** One access, as set `j` sees it. */
  lemma StepAt(k: Cache, place: Place, hit: bool, c: seq<seq<Tag>>, i: nat, t: Tag, c': seq<seq<Tag>>, j: nat,
               l: Layout)
    requires Sane(k) && k.fits(place) && StepsTo(k, place, hit, c, i, t, c') && j < k.nSets && Agrees(k, j, l)
    ensures |c'| == k.nSets && c'[j] == After(c[j], TouchedAt(i, t, j), k.assoc)
    ensures match OpAt(k.select(place), ArrayOf(place), hit, j)
            case Some(op) => ArrayMust.Resolves(l, op, TouchedAt(i, t, j)) && (op.Precise? && op.hit ==> op.tag in c[j])
            case None => i != j
  {
    assert ReachesSelected(k, place, i, t);
  }

  /** Every execution of the whole cache is one of set `i`. */
  lemma {:induction false} ExecutionAt(k: Cache, h: History, c0: seq<seq<Tag>>, c: seq<seq<Tag>>, i: nat, l: Layout)
    returns (p: seq<ArrayMust.Op>, r: ArrayMust.Resolution)
    requires Sane(k) && Fits(k, h) && IsCache(k, c0) && Reaches(k, h, c0, c) && i < k.nSets && Agrees(k, i, l)
    ensures ArrayRuns.Executes(l, HistoryAt(k, h, i), p, r, c0[i])
    ensures |c| == k.nSets && c[i] == Run(c0[i], ArrayMust.Accesses(r), k.assoc)
  {
    match h
    case Start => p, r := [], [];
    case Then(h', place, hit) =>
      var c1, j: nat, t: Tag :| Reaches(k, h', c0, c1) && StepsTo(k, place, hit, c1, j, t, c);
      p, r := ExecutionAt(k, h', c0, c1, i, l);
      StepAt(k, place, hit, c1, j, t, c, i, l);
      p, r := ExecutionThen(l, HistoryAt(k, h', i), p, r, c0[i], OpAt(k.select(place), ArrayOf(place), hit, i),
        TouchedAt(j, t, i));
    case Joined(x, y) =>
      if Reaches(k, x, c0, c) {
        p, r := ExecutionAt(k, x, c0, c, i, l);
      } else {
        p, r := ExecutionAt(k, y, c0, c, i, l);
      }
  }

  /** One access more. */
  lemma ExecutionThen(l: Layout, h: ArrayRuns.History, p: seq<ArrayMust.Op>, r: ArrayMust.Resolution, s: seq<Tag>,
                      op: Option<ArrayMust.Op>, x: Option<Tag>)
    returns (p': seq<ArrayMust.Op>, r': ArrayMust.Resolution)
    requires l.assoc >= 1 && ArrayRuns.Executes(l, h, p, r, s)
    requires match op
             case Some(op) => ArrayMust.Resolves(l, op, x) &&
               (op.Precise? && op.hit ==> op.tag in Run(s, ArrayMust.Accesses(r), l.assoc))
             case None => x.None?
    ensures ArrayRuns.Executes(l, SeenAt(h, op), p', r', s)
    ensures Run(s, ArrayMust.Accesses(r'), l.assoc) == After(Run(s, ArrayMust.Accesses(r), l.assoc), x, l.assoc)
  {
    if op.Some? {
      ArrayRuns.ExecutesThen(l, h, p, r, s, op.value, x);
      p', r' := p + [op.value], r + [x];
    } else {
      p', r' := p, r;
    }
  }

  lemma {:induction false} ReachesCache(k: Cache, h: History, c0: seq<seq<Tag>>, c: seq<seq<Tag>>)
    requires Sane(k) && IsCache(k, c0) && Reaches(k, h, c0, c)
    ensures IsCache(k, c)
  {
    match h
    case Start =>
    case Then(h', place, hit) =>
      var c1, i: nat, t: Tag :| Reaches(k, h', c0, c1) && StepsTo(k, place, hit, c1, i, t, c);
      ReachesCache(k, h', c0, c1);
      AccessStaysLru(c1[i], t, k.assoc);
    case Joined(x, y) =>
      if Reaches(k, x, c0, c) {
        ReachesCache(k, x, c0, c);
      } else {
        ReachesCache(k, y, c0, c);
      }
  }

  // ---------- Soundness ----------

  /** Both definite classifications are right for every line. */
  ghost predicate RightAbout(k: Cache, sets: seq<Ages>, c: seq<seq<Tag>>) {
    && |sets| == |c| == k.nSets
    && forall i, t :: 0 <= i < k.nSets ==>
         (ArrayMust.Classify(sets[i], t, k.assoc) == Hit ==> t in c[i]) &&
         (ArrayMust.Classify(sets[i], t, k.assoc) == Miss ==> t !in c[i])
  }

  /** In every set hits are assumed where that is safe, and uniting joins are tame. */
  ghost predicate Guarded(k: Cache, h: History, union: bool)
    requires Sane(k)
  {
    forall i :: 0 <= i < k.nSets ==> ArrayRuns.Guarded(LayoutAt(k, i), HistoryAt(k, h, i), union)
  }

  lemma LayoutAgrees(k: Cache, i: nat)
    requires Sane(k)
    ensures Agrees(k, i, LayoutAt(k, i)) && ArrayMust.LayoutValid(LayoutAt(k, i))
  {}

  /** Guarded runs are sound for the cache as a whole, from every cache. */
  lemma RunSound(k: Cache, h: History, union: bool, c0: seq<seq<Tag>>, c: seq<seq<Tag>>)
    requires Sane(k) && Fits(k, h) && Guarded(k, h, union) && IsCache(k, c0) && Reaches(k, h, c0, c)
    ensures RightAbout(k, Eval(k, h, union), c)
  {
    ReachesCache(k, h, c0, c);
    forall i, t | 0 <= i < k.nSets
      ensures ArrayMust.Classify(Eval(k, h, union)[i], t, k.assoc) == Hit ==> t in c[i]
      ensures ArrayMust.Classify(Eval(k, h, union)[i], t, k.assoc) == Miss ==> t !in c[i]
    {
      LayoutAgrees(k, i);
      var p, r := ExecutionAt(k, h, c0, c, i, LayoutAt(k, i));
      EvalAt(k, h, union, i, LayoutAt(k, i));
      ArrayRuns.RunSound(LayoutAt(k, i), HistoryAt(k, h, i), union, p, r, c0[i], t);
    }
  }

  /** Where all listed tags are cached, a full list names all cached tags. */
  lemma ListedSuffices(k: Cache, sets: seq<Ages>, c: seq<seq<Tag>>)
    requires |sets| == k.nSets && IsCache(k, c)
    requires forall i, t :: 0 <= i < k.nSets && t in sets[i] ==> t in c[i]
    ensures RightAbout(k, sets, c)
  {
    forall i, t | 0 <= i < k.nSets
      ensures ArrayMust.Classify(sets[i], t, k.assoc) == Hit ==> t in c[i]
      ensures ArrayMust.Classify(sets[i], t, k.assoc) == Miss ==> t !in c[i]
    {
      FullListNamesAll(sets[i], c[i], k.assoc);
    }
  }

  lemma FullListNamesAll(ages: Ages, s: seq<Tag>, assoc: nat)
    requires IsLruSet(s, assoc) && forall t :: t in ages ==> t in s
    ensures |ages| == assoc ==> forall t :: t in s ==> t in ages
  {
    var cached := set t | t in s;
    SeqSetSize(s);
    forall t | t in ages ensures t in cached {}
    SubsetSize(ages.Keys, cached);
    forall t | t in s ensures t in cached {}
  }

  // ---------- The arrays that matter ----------

  /** The layout of set `i` without the arrays that are never accessed as such. */
  ghost function Reduced(k: Cache, i: nat): Layout {
    ArrayMust.Only(CrossesOf(k), LayoutAt(k, i))
  }

  /** Every array that is accessed as such has at least `n` lines in a set, as computed. */
  ghost predicate AtLeastEach(k: Cache, n: int) {
    forall v :: Crosses(k, v) ==> k.sizes(v) >= n
  }

  lemma ReducedAgrees(k: Cache, i: nat, n: int)
    requires Sane(k) && AtLeastEach(k, n)
    ensures Agrees(k, i, Reduced(k, i)) && ArrayMust.LayoutValid(Reduced(k, i))
    ensures forall v :: Reduced(k, i).perSetSize(v) == 0 || Reduced(k, i).perSetSize(v) >= n
  {
    LayoutAgrees(k, i);
    ArrayMust.OnlyKept(CrossesOf(k), LayoutAt(k, i));
  }

  /** Hits are assumed for listed tags only. */
  ghost predicate Legal(k: Cache, h: History, union: bool)
    requires Sane(k) && Fits(k, h)
  {
    match h
    case Start => true
    case Then(h', place, hit) =>
      && Legal(k, h', union)
      && (k.select(place).OneLine? && hit ==> k.select(place).t in Eval(k, h', union)[k.select(place).i])
    case Joined(x, y) => Legal(k, x, union) && Legal(k, y, union)
  }

  lemma {:induction false} LegalAt(k: Cache, h: History, union: bool, i: nat, l: Layout)
    requires Sane(k) && Fits(k, h) && i < k.nSets && Agrees(k, i, l) && Legal(k, h, union)
    ensures ArrayHits.Legal(l, HistoryAt(k, h, i), union)
  {
    match h
    case Start =>
    case Then(h', place, hit) =>
      LegalAt(k, h', union, i, l);
      EvalAt(k, h', union, i, l);
    case Joined(x, y) =>
      LegalAt(k, x, union, i, l);
      LegalAt(k, y, union, i, l);
  }

  /** The uniting join, where no array can be used up before a tag is given up. */
  lemma UnionRunSound(k: Cache, h: History, c0: seq<seq<Tag>>, c: seq<seq<Tag>>)
    requires Sane(k) && Fits(k, h) && Legal(k, h, true) && AtLeastEach(k, k.assoc - 1)
    requires IsCache(k, c0) && Reaches(k, h, c0, c)
    ensures RightAbout(k, Eval(k, h, true), c)
  {
    ReachesCache(k, h, c0, c);
    forall i, t | 0 <= i < k.nSets && t in Eval(k, h, true)[i] ensures t in c[i] {
      var l := Reduced(k, i);
      ReducedAgrees(k, i, k.assoc - 1);
      var p, r := ExecutionAt(k, h, c0, c, i, l);
      EvalAt(k, h, true, i, l);
      LegalAt(k, h, true, i, l);
      ArrayUnion.WideRunSound(l, HistoryAt(k, h, i), p, r, c0[i], t);
    }
    ListedSuffices(k, Eval(k, h, true), c);
  }

  /** Either join, and true hits for any tags, where no array can be used up at all. */
  lemma HitRunSound(k: Cache, h: History, union: bool, c0: seq<seq<Tag>>, c: seq<seq<Tag>>)
    requires Sane(k) && Fits(k, h) && AtLeastEach(k, k.assoc) && IsCache(k, c0) && Reaches(k, h, c0, c)
    ensures RightAbout(k, Eval(k, h, union), c)
  {
    ReachesCache(k, h, c0, c);
    forall i, t | 0 <= i < k.nSets && t in Eval(k, h, union)[i] ensures t in c[i] {
      var l := Reduced(k, i);
      ReducedAgrees(k, i, k.assoc);
      var p, r := ExecutionAt(k, h, c0, c, i, l);
      EvalAt(k, h, union, i, l);
      ArrayHits.RealMeansCached(l, HistoryAt(k, h, i), union, p, r, c0[i], t);
    }
    ListedSuffices(k, Eval(k, h, union), c);
  }
}
