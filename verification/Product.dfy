/**
 The reduced product of the must and the may analysis of one set: each update may use
 what the product itself knows about the access.
 */
module ProductCache {
  import opened LruSet
  import opened AgeList
  import opened Classifications
  import opened MustCache
  import opened MayCache
  import MustExact
  import MayExact

  datatype Product = Product(must: Bounds, may: May) {

    ghost predicate Valid(assoc: nat) {
      MustValid(must, assoc) && may.Valid(assoc)
    }

    ghost predicate Holds(s: seq<Tag>, assoc: nat) {
      IsLruSet(s, assoc) && MustHolds(must, s, assoc) && may.Holds(s, assoc)
    }

    function Classify(t: Tag, assoc: nat): Classification {
      var cl := MustClassify(must, t, assoc);
      if cl != Unknown then cl else MayClassify(may, t, assoc)
    }

    /** Without an outside assumption the product assumes what it knows itself. */
    function Assumed(t: Tag, assumption: Classification, assoc: nat): Classification {
      if assumption == Unknown then Classify(t, assoc) else assumption
    }

    function Update(t: Tag, assumption: Classification, level: int, assoc: nat): Product
      requires assoc >= 1
    {
      Product(MustUpdate(must, t, AssumesHit(Assumed(t, assumption, assoc), level), assoc), MayUpdate(may, t, assoc))
    }

    function PotentialUpdate(low: Tag, high: Tag, assoc: nat): Product {
      Product(MustAgeAll(must, assoc), MayPotential(may, low, high))
    }

    function Join(y: Product): Product {
      Product(MustJoin(must, y.must), MayJoin(may, y.may))
    }

    ghost predicate Leq(y: Product) {
      MustLeq(must, y.must) && MayLeq(may, y.may)
    }

    /** The assertion of the must update: an assumed hit must have room. */
    ghost predicate CanUpdate(t: Tag, assumption: Classification, level: int, assoc: nat) {
      MustCanAssume(must, t, AssumesHit(Assumed(t, assumption, assoc), level), assoc)
    }
  }

  lemma ClassifySound(p: Product, s: seq<Tag>, t: Tag, assoc: nat)
    requires p.Valid(assoc) && p.Holds(s, assoc)
    ensures p.Classify(t, assoc) == Hit ==> t in s
    ensures p.Classify(t, assoc) == Miss ==> t !in s
    ensures p.Classify(t, assoc) in {Hit, Miss, Unknown}
  {
    MustClassifySound(p.must, s, t, assoc);
    MayClassifySound(p.may, s, t, assoc);
  }

  /**
   One update is sound, and the assertion in the must update cannot fail, if an outside
   assumption of a hit is true of at least the set at hand.
   */
  lemma UpdateSound(p: Product, s: seq<Tag>, t: Tag, assumption: Classification, level: int, assoc: nat)
    requires assoc >= 1 && p.Valid(assoc) && p.Holds(s, assoc)
    requires AssumptionHolds(assumption, level, t in s)
    ensures p.CanUpdate(t, assumption, level, assoc)
    ensures p.Update(t, assumption, level, assoc).Valid(assoc)
    ensures p.Update(t, assumption, level, assoc).Holds(Access(s, t, assoc), assoc)
  {
    var hit := AssumesHit(p.Assumed(t, assumption, assoc), level);
    ClassifySound(p, s, t, assoc);
    MustCanAssumeRealHit(p.must, s, t, hit, assoc);
    MustUpdateValid(p.must, t, hit, assoc);
    MustUpdateSound(p.must, s, t, hit, assoc);
    MayUpdateSound(p.may, s, t, assoc);
    AccessStaysLru(s, t, assoc);
  }

  // ---------- Precision ----------

  /** Both parts have their say: nothing that one of them knows for certain is left unknown. */
  lemma ClassifyExactly(p: Product, t: Tag, assoc: nat)
    requires assoc >= 1 && p.Valid(assoc) && MayExact.Dense(p.may, assoc)
    ensures p.Classify(t, assoc) == Hit <==> forall s :: MustExact.Represented(p.must, s, assoc) ==> t in s
    ensures p.Classify(t, assoc) != Unknown <==>
      || (forall s :: MustExact.Represented(p.must, s, assoc) ==> t in s)
      || (forall s :: MustExact.Represented(p.must, s, assoc) ==> t !in s)
      || (forall s :: MayExact.Represented(p.may, s, assoc) ==> t !in s)
  {
    MustExact.MustClassifyExactly(p.must, t, assoc);
    MayExact.MayClassifyExactly(p.may, t, assoc);
  }

  /** Both parts of the update are the best ones possible given what is assumed from outside. */
  lemma UpdateExactly(p: Product, t: Tag, assumption: Classification, level: int, u: Tag, n: nat, assoc: nat)
    requires assoc >= 1 && p.Valid(assoc) && MayExact.Dense(p.may, assoc) && p.CanUpdate(t, assumption, level, assoc)
    ensures var q := p.Update(t, assumption, level, assoc);
      && (MustExact.AccessBounds(p.must, t, assumption, level, u, n, assoc) <==>
            MustExact.BoundOf(q.must, u, assoc) <= n)
      && (MayExact.AccessBounds(p.may, t, u, n, assoc) <==> n <= q.may.MinAge(u))
      && MayExact.Dense(q.may, assoc)
  {
    OwnHitChangesNothing(p, t, assumption, level, assoc);
    MustExact.MustUpdateExactly(p.must, t, assumption, level, u, n, assoc);
    MayExact.MayUpdateExactly(p.may, t, u, n, assoc);
    MayExact.UpdateDense(p.may, t, assoc);
  }

  /** A hit the product knows of itself is one the must part lists anyway. */
  lemma OwnHitChangesNothing(p: Product, t: Tag, assumption: Classification, level: int, assoc: nat)
    requires assoc >= 1
    ensures p.Update(t, assumption, level, assoc).must == MustUpdate(p.must, t, AssumesHit(assumption, level), assoc)
    ensures p.CanUpdate(t, assumption, level, assoc) <==> MustCanAssume(p.must, t, AssumesHit(assumption, level), assoc)
  {}

  /** Where the assertion in the must update holds, an update keeps both invariants. */
  lemma UpdateValid(p: Product, t: Tag, assumption: Classification, level: int, assoc: nat)
    requires assoc >= 1 && p.Valid(assoc) && p.CanUpdate(t, assumption, level, assoc)
    ensures p.Update(t, assumption, level, assoc).Valid(assoc)
  {
    MustUpdateValid(p.must, t, AssumesHit(p.Assumed(t, assumption, assoc), level), assoc);
    MayUpdateValid(p.may, t, assoc);
  }

  /** The product's own classification never makes the assertion fail. */
  lemma OwnAssumptionIsSafe(p: Product, t: Tag, level: int, assoc: nat)
    requires assoc >= 1 && p.Valid(assoc)
    ensures p.CanUpdate(t, Unknown, level, assoc)
    ensures p.Update(t, Unknown, level, assoc).Valid(assoc)
  {
    UpdateValid(p, t, Unknown, level, assoc);
  }

  lemma PotentialUpdateSound(p: Product, s: seq<Tag>, low: Tag, high: Tag, t: Tag, assoc: nat)
    requires assoc >= 1 && p.Valid(assoc) && p.Holds(s, assoc) && low <= t <= high
    ensures p.PotentialUpdate(low, high, assoc).Valid(assoc)
    ensures p.PotentialUpdate(low, high, assoc).Holds(s, assoc)
    ensures p.PotentialUpdate(low, high, assoc).Holds(Access(s, t, assoc), assoc)
  {
    MustAgeAllValid(p.must, assoc);
    MustAgeAllSound(p.must, s, t, assoc);
    MayPotentialSound(p.may, s, low, high, t, assoc);
    AccessStaysLru(s, t, assoc);
  }

  lemma JoinSound(x: Product, y: Product, s: seq<Tag>, assoc: nat)
    requires x.Valid(assoc) && y.Valid(assoc)
    ensures x.Join(y).Valid(assoc)
    ensures x.Holds(s, assoc) || y.Holds(s, assoc) ==> x.Join(y).Holds(s, assoc)
  {
    MustJoinValid(x.must, y.must, assoc);
    MayJoinExact(x.may, y.may, assoc);
  }

  lemma JoinIsLub(x: Product, y: Product, z: Product, s: seq<Tag>, assoc: nat)
    requires x.Valid(assoc) && y.Valid(assoc) && z.Valid(assoc)
    ensures x.Leq(x.Join(y)) && y.Leq(x.Join(y))
    ensures x.Leq(z) && y.Leq(z) ==> x.Join(y).Leq(z)
    ensures x.Leq(y) && y.Leq(x) ==> x == y
    ensures x.Leq(y) && y.Leq(z) ==> x.Leq(z)
    ensures x.Leq(y) && x.Holds(s, assoc) ==> y.Holds(s, assoc)
  {
    MustJoinIsLub(x.must, y.must, z.must, s, assoc);
    MayJoinIsLub(x.may, y.may, z.may, s, assoc);
  }

  // ---------- Runs without joins ----------

  /** The accesses of `w`, first to last, without outside assumptions. */
  function RunOf(w: seq<Tag>, assumeEmpty: bool, level: int, assoc: nat): Product
    requires assoc >= 1
  {
    if w == [] then Product(map[], May(map[], if assumeEmpty then assoc else 0))
    else RunOf(w[..|w| - 1], assumeEmpty, level, assoc).Update(w[|w| - 1], Unknown, level, assoc)
  }

  /** Of two tags the one accessed last has fewer accesses behind it. */
  lemma {:induction false} SinceOrdered(w: seq<Tag>, t: Tag, u: Tag)
    requires t != u
    ensures t in Since(w, u) ==> t in w && Since(w, t) < Since(w, u)
    ensures t !in Since(w, u) ==> Since(w, u) <= Since(w, t) && (u in w ==> u in Since(w, t))
    ensures t in w && u !in w ==> t in Since(w, u)
    ensures t !in Since(w, t) && u !in Since(w, u)
  {
    if w != [] {
      SinceOrdered(w[..|w| - 1], t, u);
    }
  }

  /** The distinct tags accessed since `u` was, or since the start if that is known to matter. */
  function Recency(w: seq<Tag>, u: Tag, sure: bool, assoc: nat): nat {
    if u in w || sure then Min(|Since(w, u)|, assoc) else assoc
  }

  /** After such a run both bounds on a tag count the distinct tags accessed since its own last access. */
  ghost predicate CountsSince(p: Product, w: seq<Tag>, assumeEmpty: bool, assoc: nat) {
    && p.Valid(assoc)
    && (forall u :: MustExact.BoundOf(p.must, u, assoc) == Recency(w, u, false, assoc))
    && (forall u :: p.may.MinAge(u) == Recency(w, u, !assumeEmpty, assoc))
  }

  lemma RecencyOf(w: seq<Tag>, t: Tag, sure: bool, assoc: nat)
    requires assoc >= 1
    ensures Recency(w + [t], t, sure, assoc) == 0
  {
    assert (w + [t])[|w|] == t;
  }

  lemma RecencyAfter(w: seq<Tag>, t: Tag, u: Tag, assoc: nat)
    requires t != u
    ensures u in w + [t] <==> u in w
    ensures |Since(w + [t], u)| == if t in Since(w, u) then |Since(w, u)| else |Since(w, u)| + 1
    ensures t in Since(w, u) ==> t in w && |Since(w, t)| < |Since(w, u)|
    ensures t !in Since(w, u) ==> |Since(w, u)| <= |Since(w, t)| && (u in w ==> |Since(w, u)| < |Since(w, t)|)
  {
    SinceAppend(w, t, u);
    SinceOrdered(w, t, u);
    if t in Since(w, u) {
      assert Since(w, u) + {t} == Since(w, u);
      SubsetSize(Since(w, t), Since(w, u));
    } else {
      SubsetSize(Since(w, u), Since(w, t));
    }
  }

  /** Recency reacts to an access as both bounds do. */
  lemma RecencyStep(w: seq<Tag>, t: Tag, u: Tag, sure: bool, assoc: nat)
    requires t != u
    ensures Recency(w + [t], u, false, assoc) == Aged(Recency(w, u, false, assoc), Recency(w, t, false, assoc))
    ensures Recency(w + [t], u, sure, assoc) ==
      var a, b := Recency(w, t, sure, assoc), Recency(w, u, sure, assoc);
      if b <= a && b < assoc then b + 1 else b
  {
    RecencyAfter(w, t, u, assoc);
  }

  lemma CountsStep(p: Product, w: seq<Tag>, t: Tag, assumeEmpty: bool, level: int, assoc: nat)
    requires assoc >= 1 && CountsSince(p, w, assumeEmpty, assoc)
    ensures CountsSince(p.Update(t, Unknown, level, assoc), w + [t], assumeEmpty, assoc)
  {
    var p', w' := p.Update(t, Unknown, level, assoc), w + [t];
    OwnAssumptionIsSafe(p, t, level, assoc);
    OwnHitChangesNothing(p, t, Unknown, level, assoc);
    forall u
      ensures MustExact.BoundOf(p'.must, u, assoc) == Recency(w', u, false, assoc)
      ensures p'.may.MinAge(u) == Recency(w', u, !assumeEmpty, assoc)
    {
      MustExact.UpdatedBound(p.must, t, false, u, assoc);
      MayExact.UpdatedMinAge(p.may, t, u, assoc);
      if u == t {
        RecencyOf(w, t, false, assoc);
        RecencyOf(w, t, !assumeEmpty, assoc);
      } else {
        RecencyStep(w, t, u, !assumeEmpty, assoc);
      }
    }
  }

  lemma {:induction false} RunCounts(w: seq<Tag>, assumeEmpty: bool, level: int, assoc: nat)
    requires assoc >= 1
    ensures CountsSince(RunOf(w, assumeEmpty, level, assoc), w, assumeEmpty, assoc)
  {
    if w == [] {
      RunStarts(assumeEmpty, assoc);
    } else {
      var w0, t := w[..|w| - 1], w[|w| - 1];
      RunCounts(w0, assumeEmpty, level, assoc);
      assert w == w0 + [t];
      CountsStep(RunOf(w0, assumeEmpty, level, assoc), w0, t, assumeEmpty, level, assoc);
    }
  }

  lemma RunStarts(assumeEmpty: bool, assoc: nat)
    requires assoc >= 1
    ensures CountsSince(Product(map[], May(map[], if assumeEmpty then assoc else 0)), [], assumeEmpty, assoc)
  {
    assert forall k: nat :: AtMost(map[], k) == {};
    assert forall u :: |Since([], u)| == 0;
  }

  /** If the must part is full of other tags, they were all accessed since. */
  lemma FullSince(p: Product, w: seq<Tag>, assumeEmpty: bool, u: Tag, assoc: nat)
    requires CountsSince(p, w, assumeEmpty, assoc) && u !in p.must && |p.must| == assoc
    ensures |Since(w, u)| >= assoc
  {
    if |Since(w, u)| < assoc {
      assert MustExact.BoundOf(p.must, u, assoc) == Recency(w, u, false, assoc);
      forall v | v in p.must ensures v in Since(w, u) {
        assert MustExact.BoundOf(p.must, v, assoc) == Recency(w, v, false, assoc);
        SinceOrdered(w, v, u);
      }
      SubsetSize(p.must.Keys, Since(w, u));
    }
  }

  /**
   A run without joins is classified as well as can be: a hit exactly if the tag was accessed and fewer
   other tags since than there are ways, a miss exactly if it cannot have survived.
   */
  lemma RunClassifiesExactly(w: seq<Tag>, assumeEmpty: bool, level: int, u: Tag, assoc: nat)
    requires assoc >= 1
    ensures RunOf(w, assumeEmpty, level, assoc).Classify(u, assoc) ==
      if u in w && |Since(w, u)| < assoc then Hit
      else if |Since(w, u)| >= assoc || (assumeEmpty && u !in w) then Miss
      else Unknown
  {
    var p := RunOf(w, assumeEmpty, level, assoc);
    RunCounts(w, assumeEmpty, level, assoc);
    assert MustExact.BoundOf(p.must, u, assoc) == Recency(w, u, false, assoc);
    assert p.may.MinAge(u) == Recency(w, u, !assumeEmpty, assoc);
    if u !in p.must && |p.must| == assoc {
      FullSince(p, w, assumeEmpty, u, assoc);
    }
  }

  class CompositionalCache {
    const assoc: nat
    const analysis1: LruMaxAgeCache
    const analysis2: LruMinAgeCache

    ghost function View(): Product
      reads this, analysis1, analysis2
    {
      Product(analysis1.bounds, analysis2.View())
    }

    ghost predicate Valid()
      reads this, analysis1, analysis1.tags, analysis1.ages, analysis2
    {
      assoc >= 1 && analysis1.assoc == assoc == analysis2.assoc && analysis1.Valid() && analysis2.Valid()
    }

    constructor (assoc: nat, level: int, assumeAnEmptyCache: bool)
      requires assoc >= 1
      ensures Valid() && this.assoc == assoc && analysis1.level == level
      ensures View() == Product(map[], May(map[], if assumeAnEmptyCache then assoc else 0))
      ensures fresh(analysis1) && fresh(analysis1.tags) && fresh(analysis1.ages) && fresh(analysis2)
    {
      this.assoc := assoc;
      analysis1 := new LruMaxAgeCache(assoc, level);
      analysis2 := new LruMinAgeCache(assoc, assumeAnEmptyCache);
    }

    method Classify(tag: Tag) returns (cl: Classification)
      requires Valid()
      ensures cl == View().Classify(tag, assoc)
    {
      cl := analysis1.Classify(tag);
      if cl == Unknown {
        cl := analysis2.Classify(tag);
      }
    }

    method Update(tag: Tag, assumption: Classification)
      requires Valid() && View().CanUpdate(tag, assumption, analysis1.level, assoc)
      modifies analysis1, analysis1.tags, analysis1.ages, analysis2
      ensures Valid() && View() == old(View().Update(tag, assumption, analysis1.level, assoc))
    {
      var cl := assumption;
      if assumption == Unknown {
        cl := Classify(tag);
      }
      var _ := analysis1.Update(tag, cl);
      var _ := analysis2.Update(tag);
    }

    method PotentialUpdate(low: Tag, high: Tag)
      requires Valid() && low <= high
      modifies analysis1, analysis1.tags, analysis1.ages, analysis2
      ensures Valid() && View() == old(View().PotentialUpdate(low, high, assoc))
    {
      var _ := analysis1.PotentialUpdate();
      var _ := analysis2.PotentialUpdate(low, high);
    }

    method Join(y: CompositionalCache)
      requires Valid() && y.Valid() && assoc == y.assoc
      modifies analysis1, analysis1.tags, analysis1.ages, analysis2
      ensures Valid() && View() == old(View().Join(y.View()))
    {
      analysis1.Join(y.analysis1);
      analysis2.Join(y.analysis2);
    }

    method LessEqual(y: CompositionalCache) returns (leq: bool)
      requires Valid() && y.Valid() && assoc == y.assoc
      ensures leq <==> View().Leq(y.View())
    {
      leq := analysis1.LessEqual(y.analysis1);
      if leq {
        leq := analysis2.LessEqual(y.analysis2);
      }
    }
  }
}
