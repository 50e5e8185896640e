/** Joins and whole runs of the array-aware must analysis: histories, and their executions. */
module ArrayRuns {
  import opened LruSet
  import opened Classifications
  import opened Options
  import opened ArrayMust
  import opened ArrayAccesses

  // ---------- Joins ----------

  /** A uniting join that merges equal conflict sets, or gives the tag up. */
  ghost predicate TameUnion(x: Ages, y: Ages, assoc: nat) {
    forall u :: u in x && u in y ==>
      x[u].arrays == y[u].arrays || UnionJoin(x[u], y[u], assoc).age == assoc
  }

  /** The two joins coincide exactly for equal conflict sets. */
  lemma JoinsCoincide(x: Bound, y: Bound, assoc: nat)
    requires x.age < assoc && y.age < assoc
    ensures UnionJoin(x, y, assoc) == IntersectJoin(x, y) <==> x.arrays == y.arrays
  {
    if x.arrays == y.arrays {
      assert x.arrays - y.arrays == multiset{};
      assert x.arrays + multiset{} == x.arrays == x.arrays * y.arrays;
    }
    if UnionJoin(x, y, assoc) == IntersectJoin(x, y) {
      var u := x.arrays + (y.arrays - x.arrays);
      forall v ensures x.arrays[v] == y.arrays[v] {
        assert u[v] == (x.arrays * y.arrays)[v];
      }
    }
  }

  lemma JoinedBound(l: Layout, x: Ages, y: Ages, union: bool, u: Tag)
    requires u in Join(x, y, union, l.assoc) && x[u].age < l.assoc && y[u].age < l.assoc
    requires union ==> TameUnion(x, y, l.assoc)
    ensures Join(x, y, union, l.assoc)[u] == IntersectJoin(x[u], y[u])
  {
    if union {
      JoinsCoincide(x[u], y[u], l.assoc);
    }
  }

  /** Greater bounds with fewer counted accesses hold where the others do. */
  lemma WeakerHolds(l: Layout, m: Ages, z: Ages, p: seq<Op>, r: Resolution, s: seq<Tag>)
    requires l.assoc >= 1 && Holds(l, m, p, r, s)
    requires forall u :: u in z ==> u in m && m[u].age <= z[u].age < l.assoc && z[u].arrays <= m[u].arrays
    ensures Holds(l, z, p, r, s)
  {
    forall u | u in z ensures BoundHolds(l, p, u, m[u]) ==> BoundHolds(l, p, u, z[u]) {}
    if NoneUsedUp(m, l.perSetSize) {
      forall u, v | u in z ensures !UsedUp(z[u], v, l.perSetSize) {
        assert !UsedUp(m[u], v, l.perSetSize) && z[u].arrays[v] <= m[u].arrays[v];
      }
    }
  }

  /** What holds on one side holds after the join, for the intersecting join and tame uniting ones. */
  lemma JoinSound(l: Layout, x: Ages, y: Ages, union: bool, p: seq<Op>, r: Resolution, s: seq<Tag>)
    requires l.assoc >= 1 && (Holds(l, x, p, r, s) || Holds(l, y, p, r, s))
    requires forall u :: u in x && u in y ==> x[u].age < l.assoc && y[u].age < l.assoc
    requires union ==> TameUnion(x, y, l.assoc)
    ensures Holds(l, Join(x, y, union, l.assoc), p, r, s)
  {
    var z := Join(x, y, union, l.assoc);
    forall u | u in z ensures z[u] == IntersectJoin(x[u], y[u]) {
      JoinedBound(l, x, y, union, u);
    }
    WeakerHolds(l, if Holds(l, x, p, r, s) then x else y, z, p, r, s);
  }

  // ---------- Histories ----------

  datatype History = Start | Then(h: History, op: Op) | Joined(x: History, y: History)

  function Step(l: Layout, ages: Ages, op: Op): Ages
    requires l.assoc >= 1
  {
    match op
    case Precise(t, hit) => Update(ages, t, hit, l.assoc)
    case ArrayAccess(v) => PotentialUpdate(ages, Some(v), l.perSetSize, l.assoc)
    case Anywhere => PotentialUpdate(ages, None, l.perSetSize, l.assoc)
  }

  function Eval(l: Layout, h: History, union: bool): Ages
    requires l.assoc >= 1
  {
    match h
    case Start => map[]
    case Then(h, op) => Step(l, Eval(l, h, union), op)
    case Joined(x, y) => Join(Eval(l, x, union), Eval(l, y, union), union, l.assoc)
  }

  /** Hits are assumed where that is safe, and uniting joins are tame. */
  ghost predicate Guarded(l: Layout, h: History, union: bool)
    requires l.assoc >= 1
  {
    match h
    case Start => true
    case Then(h, op) =>
      Guarded(l, h, union) && (op.Precise? ==> CanAssume(Eval(l, h, union), op.tag, op.hit, l.perSetSize))
    case Joined(x, y) =>
      && Guarded(l, x, union) && Guarded(l, y, union)
      && (union ==> TameUnion(Eval(l, x, union), Eval(l, y, union), l.assoc))
  }

  ghost predicate PathOf(h: History, p: seq<Op>) {
    match h
    case Start => p == []
    case Then(h, op) => |p| > 0 && p[|p| - 1] == op && PathOf(h, p[..|p| - 1])
    case Joined(x, y) => PathOf(x, p) || PathOf(y, p)
  }

  lemma {:induction false} EvalBelow(l: Layout, h: History, union: bool)
    requires l.assoc >= 1
    ensures forall u :: u in Eval(l, h, union) ==> Eval(l, h, union)[u].age < l.assoc
  {
    match h
    case Start =>
    case Then(h', op) =>
      EvalBelow(l, h', union);
    case Joined(x, y) =>
      EvalBelow(l, x, union);
      EvalBelow(l, y, union);
  }

  lemma StepHolds(l: Layout, ages: Ages, p: seq<Op>, r: Resolution, s: seq<Tag>, op: Op, x: Option<Tag>)
    requires LayoutValid(l) && Holds(l, ages, p, r, s) && ResolvesAll(l, p, r) && IsLruSet(s, l.assoc)
    requires Resolves(l, op, x) && (op.Precise? && op.hit ==> op.tag in Run(s, Accesses(r), l.assoc))
    requires op.Precise? ==> CanAssume(ages, op.tag, op.hit, l.perSetSize)
    ensures Holds(l, Step(l, ages, op), p + [op], r + [x], s)
  {
    match op
    case Precise(t, hit) => UpdateSound(l, ages, p, r, s, t, hit);
    case ArrayAccess(v) => PotentialUpdateSound(l, ages, p, r, s, Some(v), x);
    case Anywhere => PotentialUpdateSound(l, ages, p, r, s, None, x);
  }

  lemma {:induction false} RunHolds(l: Layout, h: History, union: bool, p: seq<Op>, r: Resolution, s: seq<Tag>)
    requires LayoutValid(l) && Guarded(l, h, union) && PathOf(h, p) && ResolvesAll(l, p, r)
    requires IsLruSet(s, l.assoc) && TrueHits(p, r, s, l.assoc)
    ensures Holds(l, Eval(l, h, union), p, r, s)
  {
    match h
    case Start =>
    case Then(h', op) =>
      var n := |p| - 1;
      var p0, r0, ages := p[..n], r[..n], Eval(l, h', union);
      assert p == p0 + [op] && r == r0 + [r[n]];
      ResolvesPrefix(l, p, r, n);
      RunHolds(l, h', union, p0, r0, s);
      TrueHitsAppend(p0, r0, op, r[n], s, l.assoc);
      StepHolds(l, ages, p0, r0, s, op, r[n]);
    case Joined(x, y) =>
      if PathOf(x, p) {
        RunHolds(l, x, union, p, r, s);
      } else {
        RunHolds(l, y, union, p, r, s);
      }
      EvalBelow(l, x, union);
      EvalBelow(l, y, union);
      JoinSound(l, Eval(l, x, union), Eval(l, y, union), union, p, r, s);
  }

  /** No more tags are listed than fit into the set. */
  lemma SizeBounded(l: Layout, ages: Ages, p: seq<Op>, r: Resolution, s: seq<Tag>)
    requires l.assoc >= 1 && Holds(l, ages, p, r, s) && ResolvesAll(l, p, r) && IsLruSet(s, l.assoc)
    ensures |ages| <= l.assoc
    ensures |ages| == l.assoc ==> forall t :: t in Run(s, Accesses(r), l.assoc) ==> t in ages
  {
    var end := Run(s, Accesses(r), l.assoc);
    var cached := set t | t in end;
    RunStaysLru(s, Accesses(r), l.assoc);
    SeqSetSize(end);
    forall t | t in ages ensures t in cached {
      ListedAreCached(l, ages, p, r, s, t);
    }
    assert ages.Keys <= cached;
    SubsetSize(ages.Keys, cached);
    forall t | t in end ensures t in cached {}
  }

  /** The path that takes each precise access and leaves all others out resolves every path. */
  function Least(p: seq<Op>): Resolution {
    seq(|p|, i requires 0 <= i < |p| => if p[i].Precise? then Some(p[i].tag) else None)
  }

  lemma LeastResolves(l: Layout, p: seq<Op>)
    ensures ResolvesAll(l, p, Least(p))
  {}

  lemma {:induction false} SomePath(h: History) returns (p: seq<Op>)
    ensures PathOf(h, p)
  {
    match h
    case Start => p := [];
    case Then(h', op) =>
      var p0 := SomePath(h');
      p := p0 + [op];
      assert p[..|p| - 1] == p0;
    case Joined(x, y) => p := SomePath(x);
  }

  /**
   Soundness of every guarded run: each listed tag is cached with at most its bound as age,
   for every path through the history, every resolution of the array accesses and every
   initial content, as long as the assumed hits are true. A classification of a miss is
   right as well.
   */
  lemma RunSound(l: Layout, h: History, union: bool, p: seq<Op>, r: Resolution, s: seq<Tag>, u: Tag)
    requires LayoutValid(l) && Guarded(l, h, union) && PathOf(h, p) && ResolvesAll(l, p, r)
    requires IsLruSet(s, l.assoc) && TrueHits(p, r, s, l.assoc)
    ensures var ages, end := Eval(l, h, union), Run(s, Accesses(r), l.assoc);
      && |ages| <= l.assoc
      && (u in ages ==> u in end && Age(end, u, l.assoc) <= ages[u].age)
      && (Classify(ages, u, l.assoc) == Hit ==> u in end)
      && (Classify(ages, u, l.assoc) == Miss ==> u !in end)
  {
    RunHolds(l, h, union, p, r, s);
    SizeBounded(l, Eval(l, h, union), p, r, s);
    if u in Eval(l, h, union) {
      ListedAreCached(l, Eval(l, h, union), p, r, s, u);
    }
  }

  /** A path through the history, what it touched, and from where, so that the assumed hits are true. */
  ghost predicate Executes(l: Layout, h: History, p: seq<Op>, r: Resolution, s: seq<Tag>)
    requires l.assoc >= 1
  {
    PathOf(h, p) && ResolvesAll(l, p, r) && IsLruSet(s, l.assoc) && TrueHits(p, r, s, l.assoc)
  }

  lemma ExecutesThen(l: Layout, h: History, p: seq<Op>, r: Resolution, s: seq<Tag>, op: Op, x: Option<Tag>)
    requires l.assoc >= 1 && Executes(l, h, p, r, s) && Resolves(l, op, x)
    requires op.Precise? && op.hit ==> op.tag in Run(s, Accesses(r), l.assoc)
    ensures Executes(l, Then(h, op), p + [op], r + [x], s)
    ensures Run(s, Accesses(r + [x]), l.assoc) ==
      if x.Some? then Access(Run(s, Accesses(r), l.assoc), x.value, l.assoc) else Run(s, Accesses(r), l.assoc)
  {
    assert (p + [op])[..|p|] == p;
    TrueHitsAppend(p, r, op, x, s, l.assoc);
    RunAppend(r, x, s, l.assoc);
  }

  /** An execution in which a listed tag, classified a hit, is not cached. */
  ghost predicate WrongHit(l: Layout, h: History, union: bool, p: seq<Op>, r: Resolution, s: seq<Tag>, u: Tag) {
    && LayoutValid(l) && Executes(l, h, p, r, s)
    && u in Eval(l, h, union) && u !in Run(s, Accesses(r), l.assoc)
  }

  /** The ages depend on what the analysis knows of the arrays only, not on where their lines are. */
  lemma {:induction false} EvalSame(l: Layout, l': Layout, h: History, union: bool)
    requires l.assoc == l'.assoc >= 1 && l.perSetSize == l'.perSetSize
    ensures Eval(l, h, union) == Eval(l', h, union)
    ensures Guarded(l, h, union) <==> Guarded(l', h, union)
  {
    match h
    case Start =>
    case Then(h', _) => EvalSame(l, l', h', union);
    case Joined(x, y) =>
      EvalSame(l, l', x, union);
      EvalSame(l, l', y, union);
  }
}
