/**
 How precise the array-aware must analysis is: its order and the intersecting join, and what exactly
 it computes on a path without joins.
 */
module ArrayPrecision {
  import opened LruSet
  import opened Options
  import opened ArrayMust
  import opened ArrayAccesses
  import opened ArrayRuns

  // ---------- The order ----------

  /** Knowing more of a tag: a smaller bound, with more array accesses counted towards it. */
  ghost predicate BoundLeq(x: Bound, y: Bound) {
    x.age <= y.age && y.arrays <= x.arrays
  }

  ghost predicate AgesLeq(x: Ages, y: Ages) {
    forall u :: u in y ==> u in x && BoundLeq(x[u], y[u])
  }

  ghost predicate Below(x: Ages, assoc: nat) {
    forall u :: u in x ==> x[u].age < assoc
  }

  lemma JoinedBounds(x: Ages, y: Ages, assoc: nat)
    requires Below(x, assoc) && Below(y, assoc)
    ensures Below(Join(x, y, false, assoc), assoc)
    ensures forall u :: u in Join(x, y, false, assoc) <==> u in x && u in y
    ensures forall u :: u in x && u in y ==>
      BoundLeq(x[u], Join(x, y, false, assoc)[u]) && BoundLeq(y[u], Join(x, y, false, assoc)[u])
  {}

  lemma LeastBound(x: Bound, y: Bound, z: Bound)
    requires BoundLeq(x, z) && BoundLeq(y, z)
    ensures BoundLeq(IntersectJoin(x, y), z)
  {}

  lemma AgesLeqPartial(x: Ages, y: Ages, z: Ages)
    ensures AgesLeq(x, y) && AgesLeq(y, x) ==> x == y
    ensures AgesLeq(x, y) && AgesLeq(y, z) ==> AgesLeq(x, z)
  {
    if AgesLeq(x, y) && AgesLeq(y, x) {
      forall u | u in x ensures x[u] == y[u] {
        assert x[u].arrays == y[u].arrays;
      }
      SameMap(x, y);
    }
  }

  lemma AgesLeqMeaning(x: Ages, y: Ages, l: Layout, p: seq<Op>)
    requires AgesLeq(x, y) && Represents(l, x, p) && Below(y, l.assoc)
    ensures Represents(l, y, p)
  {
    forall u | u in y ensures BoundHolds(l, p, u, y[u]) {
      assert BoundHolds(l, p, u, x[u]) && BoundLeq(x[u], y[u]);
    }
  }

  /** The intersecting join is the least upper bound of a partial order that respects what bounds mean. */
  lemma IntersectJoinIsLub(x: Ages, y: Ages, z: Ages, l: Layout, p: seq<Op>)
    requires Below(x, l.assoc) && Below(y, l.assoc) && Below(z, l.assoc)
    ensures var j := Join(x, y, false, l.assoc);
      && Below(j, l.assoc) && AgesLeq(x, j) && AgesLeq(y, j)
      && (AgesLeq(x, z) && AgesLeq(y, z) ==> AgesLeq(j, z))
    ensures AgesLeq(x, y) && AgesLeq(y, x) ==> x == y
    ensures AgesLeq(x, y) && AgesLeq(y, z) ==> AgesLeq(x, z)
    ensures AgesLeq(x, y) && Represents(l, x, p) ==> Represents(l, y, p)
  {
    JoinedBounds(x, y, l.assoc);
    AgesLeqPartial(x, y, z);
    if AgesLeq(x, z) && AgesLeq(y, z) {
      forall u | u in z ensures BoundLeq(Join(x, y, false, l.assoc)[u], z[u]) {
        LeastBound(x[u], y[u], z[u]);
      }
    }
    if AgesLeq(x, y) && Represents(l, x, p) {
      AgesLeqMeaning(x, y, l, p);
    }
  }

  /** Deciding the order by joining and comparing decides the order of the bounds. */
  lemma AgesLeqIsJoin(x: Ages, y: Ages, assoc: nat)
    requires Below(x, assoc) && Below(y, assoc)
    ensures AgesLeq(x, y) <==> Join(x, y, false, assoc) == y
  {
    JoinedBounds(x, y, assoc);
    if AgesLeq(x, y) {
      forall u | u in y ensures Join(x, y, false, assoc)[u] == y[u] {
        assert x[u].arrays * y[u].arrays == y[u].arrays;
      }
      SameMap(Join(x, y, false, assoc), y);
    } else if Join(x, y, false, assoc) == y {
      forall u | u in y ensures u in x && BoundLeq(x[u], y[u]) {
        assert u in Join(x, y, false, assoc);
      }
    }
  }

  // ---------- Paths without joins ----------

  function Along(p: seq<Op>): History {
    if p == [] then Start else Then(Along(p[..|p| - 1]), p[|p| - 1])
  }

  /** The tags accessed precisely since `u` was. */
  function PreciseSince(p: seq<Op>, u: Tag): set<Tag> {
    if p == [] then {}
    else
      var before, op := p[..|p| - 1], p[|p| - 1];
      if op.Precise? then (if op.tag == u then {} else PreciseSince(before, u) + {op.tag})
      else PreciseSince(before, u)
  }

  /** How many accesses to anything there were since then. */
  function AnywhereSince(p: seq<Op>, u: Tag): nat {
    if p == [] then 0
    else
      var before, op := p[..|p| - 1], p[|p| - 1];
      match op
      case Precise(t, _) => if t == u then 0 else AnywhereSince(before, u)
      case ArrayAccess(_) => AnywhereSince(before, u)
      case Anywhere => AnywhereSince(before, u) + 1
  }

  /** The array accesses since then, each array as often as it has lines at most. */
  ghost function ArraysSince(p: seq<Op>, u: Tag, size: Array -> nat): multiset<Array> {
    if p == [] then multiset{}
    else
      var before, op := p[..|p| - 1], p[|p| - 1];
      match op
      case Precise(t, _) => if t == u then multiset{} else ArraysSince(before, u, size)
      case ArrayAccess(v) =>
        var counted := ArraysSince(before, u, size);
        if counted[v] < size(v) then counted + multiset{v} else counted
      case Anywhere => ArraysSince(before, u, size)
  }

  /** How many other tags can have been touched since `u` was accessed. */
  ghost function Worst(p: seq<Op>, u: Tag, size: Array -> nat): nat {
    |PreciseSince(p, u)| + |ArraysSince(p, u, size)| + AnywhereSince(p, u)
  }

  ghost function Capped(count: nat, limit: nat): nat {
    if count <= limit then count else limit
  }

  lemma {:induction false} ArraysSinceExactly(p: seq<Op>, u: Tag, size: Array -> nat)
    ensures forall v :: ArraysSince(p, u, size)[v] == Capped(CountSince(p, u, v), size(v))
  {
    if p != [] {
      ArraysSinceExactly(p[..|p| - 1], u, size);
    }
  }

  ghost predicate SinceWithin(p: seq<Op>, t: Tag, u: Tag) {
    && PreciseSince(p, t) <= PreciseSince(p, u)
    && AnywhereSince(p, t) <= AnywhereSince(p, u)
    && forall v :: CountSince(p, t, v) <= CountSince(p, u, v)
  }

  /** Of two tags, less happened since the one accessed last. */
  lemma {:induction false} SinceOrdered(p: seq<Op>, t: Tag, u: Tag)
    requires t != u
    ensures t in PreciseSince(p, u) ==> Seen(p, t) && SinceWithin(p, t, u)
    ensures t !in PreciseSince(p, u) ==> SinceWithin(p, u, t) && (Seen(p, u) ==> u in PreciseSince(p, t))
    ensures Seen(p, t) && !Seen(p, u) ==> t in PreciseSince(p, u)
    ensures t !in PreciseSince(p, t) && u !in PreciseSince(p, u)
  {
    if p != [] {
      var n := |p| - 1;
      SinceOrdered(p[..n], t, u);
      SeenLast(p, t);
      SeenLast(p, u);
    }
  }

  lemma SeenLast(p: seq<Op>, u: Tag)
    requires p != []
    ensures Seen(p, u) <==> Seen(p[..|p| - 1], u) || (p[|p| - 1].Precise? && p[|p| - 1].tag == u)
  {
    assert p == p[..|p| - 1] + [p[|p| - 1]];
    if Seen(p[..|p| - 1], u) || (p[|p| - 1].Precise? && p[|p| - 1].tag == u) {
      SeenAfter(p[..|p| - 1], p[|p| - 1], u);
    } else if Seen(p, u) {
      SeenBefore(p, u);
    }
  }

  lemma MultisetSize(a: multiset<Array>, b: multiset<Array>)
    requires a <= b
    ensures |a| <= |b|
  {
    assert b == a + (b - a);
  }

  lemma WorstWithin(p: seq<Op>, t: Tag, u: Tag, size: Array -> nat)
    requires SinceWithin(p, t, u)
    ensures Worst(p, t, size) <= Worst(p, u, size)
    ensures |PreciseSince(p, t)| < |PreciseSince(p, u)| ==> Worst(p, t, size) < Worst(p, u, size)
  {
    ArraysSinceExactly(p, t, size);
    ArraysSinceExactly(p, u, size);
    forall v ensures ArraysSince(p, t, size)[v] <= ArraysSince(p, u, size)[v] {
      assert CountSince(p, t, v) <= CountSince(p, u, v);
    }
    MultisetSize(ArraysSince(p, t, size), ArraysSince(p, u, size));
    SubsetSize(PreciseSince(p, t), PreciseSince(p, u));
  }

  /** The tag accessed last has the smaller count. */
  lemma WorstOrdered(p: seq<Op>, t: Tag, u: Tag, size: Array -> nat)
    requires t != u && Seen(p, u)
    ensures t in PreciseSince(p, u) ==> Seen(p, t) && Worst(p, t, size) < Worst(p, u, size)
    ensures t !in PreciseSince(p, u) ==> Worst(p, u, size) < Worst(p, t, size)
  {
    SinceOrdered(p, t, u);
    if t in PreciseSince(p, u) {
      SubsetSize(PreciseSince(p, t) + {t}, PreciseSince(p, u));
      WorstWithin(p, t, u, size);
    } else {
      SubsetSize(PreciseSince(p, u) + {u}, PreciseSince(p, t));
      WorstWithin(p, u, t, size);
    }
  }

  /** What the analysis keeps is exactly that count, where it is below the associativity. */
  ghost predicate Counts(ages: Ages, p: seq<Op>, u: Tag, size: Array -> nat, assoc: nat) {
    && (u in ages <==> Seen(p, u) && Worst(p, u, size) < assoc)
    && (u in ages ==> ages[u] == Bound(Worst(p, u, size), ArraysSince(p, u, size)))
  }

  lemma SinceAppended(p: seq<Op>, op: Op, u: Tag, size: Array -> nat)
    requires !(op.Precise? && op.tag == u)
    ensures PreciseSince(p + [op], u) == PreciseSince(p, u) + (if op.Precise? then {op.tag} else {})
    ensures AnywhereSince(p + [op], u) == AnywhereSince(p, u) + (if op.Anywhere? then 1 else 0)
    ensures ArraysSince(p + [op], u, size) ==
      if op.ArrayAccess? && ArraysSince(p, u, size)[op.v] < size(op.v)
      then ArraysSince(p, u, size) + multiset{op.v} else ArraysSince(p, u, size)
    ensures Seen(p + [op], u) <==> Seen(p, u)
  {
    assert (p + [op])[..|p|] == p;
    SeenLast(p + [op], u);
  }

  lemma SinceItself(p: seq<Op>, t: Tag, hit: bool, size: Array -> nat)
    ensures Seen(p + [Precise(t, hit)], t) && Worst(p + [Precise(t, hit)], t, size) == 0
    ensures ArraysSince(p + [Precise(t, hit)], t, size) == multiset{}
  {
    assert (p + [Precise(t, hit)])[..|p|] == p;
    SeenLast(p + [Precise(t, hit)], t);
  }

  lemma CountsAfterArray(l: Layout, ages: Ages, p: seq<Op>, v: Array, u: Tag)
    requires l.assoc >= 1 && Counts(ages, p, u, l.perSetSize, l.assoc)
    ensures Counts(PotentialUpdate(ages, Some(v), l.perSetSize, l.assoc), p + [ArrayAccess(v)], u, l.perSetSize,
                   l.assoc)
  {
    SinceAppended(p, ArrayAccess(v), u, l.perSetSize);
  }

  lemma CountsAfterAnywhere(l: Layout, ages: Ages, p: seq<Op>, u: Tag)
    requires l.assoc >= 1 && Counts(ages, p, u, l.perSetSize, l.assoc)
    ensures Counts(PotentialUpdate(ages, None, l.perSetSize, l.assoc), p + [Anywhere], u, l.perSetSize, l.assoc)
  {
    SinceAppended(p, Anywhere, u, l.perSetSize);
  }

  lemma CountsAfterPrecise(l: Layout, ages: Ages, p: seq<Op>, t: Tag, hit: bool, u: Tag)
    requires l.assoc >= 1 && Counts(ages, p, t, l.perSetSize, l.assoc) && Counts(ages, p, u, l.perSetSize, l.assoc)
    requires hit ==> t in ages
    ensures Counts(Update(ages, t, hit, l.assoc), p + [Precise(t, hit)], u, l.perSetSize, l.assoc)
  {
    if u == t {
      SinceItself(p, t, hit, l.perSetSize);
    } else {
      SinceAppended(p, Precise(t, hit), u, l.perSetSize);
      if Seen(p, u) {
        WorstOrdered(p, t, u, l.perSetSize);
        if t in PreciseSince(p, u) {
          assert PreciseSince(p, u) + {t} == PreciseSince(p, u);
        }
      }
    }
  }

  /** Hits are assumed for listed tags only, as the analysis itself classifies. */
  ghost predicate HitsListed(l: Layout, p: seq<Op>, union: bool)
    requires l.assoc >= 1
  {
    p == [] ||
    (HitsListed(l, p[..|p| - 1], union) &&
     (p[|p| - 1].Precise? && p[|p| - 1].hit ==> p[|p| - 1].tag in Eval(l, Along(p[..|p| - 1]), union)))
  }

  lemma StepCounts(l: Layout, ages: Ages, p: seq<Op>, op: Op, u: Tag)
    requires l.assoc >= 1 && Counts(ages, p, u, l.perSetSize, l.assoc)
    requires op.Precise? ==> Counts(ages, p, op.tag, l.perSetSize, l.assoc) && (op.hit ==> op.tag in ages)
    ensures Counts(Step(l, ages, op), p + [op], u, l.perSetSize, l.assoc)
  {
    match op
    case Precise(t, hit) => CountsAfterPrecise(l, ages, p, t, hit, u);
    case ArrayAccess(v) => CountsAfterArray(l, ages, p, v, u);
    case Anywhere => CountsAfterAnywhere(l, ages, p, u);
  }

  lemma AlongNext(l: Layout, p: seq<Op>, op: Op, union: bool)
    requires l.assoc >= 1
    ensures Eval(l, Along(p + [op]), union) == Step(l, Eval(l, Along(p), union), op)
  {
    assert (p + [op])[..|p|] == p;
  }

  lemma {:induction false} RunCounts(l: Layout, p: seq<Op>, union: bool, u: Tag)
    requires l.assoc >= 1 && HitsListed(l, p, union)
    ensures Counts(Eval(l, Along(p), union), p, u, l.perSetSize, l.assoc)
  {
    if p != [] {
      var p0, op := p[..|p| - 1], p[|p| - 1];
      assert p == p0 + [op];
      RunCounts(l, p0, union, u);
      if op.Precise? {
        RunCounts(l, p0, union, op.tag);
      }
      StepCounts(l, Eval(l, Along(p0), union), p0, op, u);
      AlongNext(l, p0, op, union);
    }
  }

  // ---------- The bounds are the best ones possible ----------

  /** The layout the bounds reckon with: full arrays that share no line with each other or with precise accesses. */
  ghost predicate Apart(l: Layout, vs: set<Array>, ts: set<Tag>) {
    && (forall v :: v in vs ==> |l.lines(v)| == l.perSetSize(v) && l.lines(v) !! ts)
    && (forall v, w :: v in vs && w in vs && v != w ==> l.lines(v) !! l.lines(w))
  }

  predicate OpIn(op: Op, vs: set<Array>, ts: set<Tag>) {
    match op
    case Precise(t, _) => t in ts
    case ArrayAccess(v) => v in vs
    case Anywhere => true
  }

  ghost predicate PathIn(p: seq<Op>, vs: set<Array>, ts: set<Tag>) {
    forall i :: 0 <= i < |p| ==> OpIn(p[i], vs, ts)
  }

  /** A resolution that touches as many tags as possible. */
  ghost predicate Attains(l: Layout, p: seq<Op>, touched: set<Tag>, u: Tag, vs: set<Array>, ts: set<Tag>) {
    && |touched| == Worst(p, u, l.perSetSize)
    && touched * ts == PreciseSince(p, u)
    && forall v :: v in vs ==> |touched * l.lines(v)| == ArraysSince(p, u, l.perSetSize)[v]
  }

  lemma AttainedItself(l: Layout, p: seq<Op>, u: Tag, hit: bool, vs: set<Array>, ts: set<Tag>)
    ensures Attains(l, p + [Precise(u, hit)], {}, u, vs, ts)
  {
    assert (p + [Precise(u, hit)])[..|p|] == p;
  }

  lemma AttainedPrecise(l: Layout, p: seq<Op>, touched: set<Tag>, t: Tag, hit: bool, u: Tag, vs: set<Array>,
                        ts: set<Tag>)
    requires Apart(l, vs, ts) && Attains(l, p, touched, u, vs, ts) && t in ts && t != u
    ensures Attains(l, p + [Precise(t, hit)], touched + {t}, u, vs, ts)
  {
    SinceAppended(p, Precise(t, hit), u, l.perSetSize);
    assert t in touched <==> t in PreciseSince(p, u);
    assert (touched + {t}) * ts == touched * ts + {t};
    if t in touched {
      assert touched + {t} == touched && PreciseSince(p, u) + {t} == PreciseSince(p, u);
    }
    forall v | v in vs ensures (touched + {t}) * l.lines(v) == touched * l.lines(v) {
      assert t !in l.lines(v);
    }
  }

  lemma AttainedArray(l: Layout, p: seq<Op>, touched: set<Tag>, v: Array, u: Tag, vs: set<Array>, ts: set<Tag>)
    returns (x: Option<Tag>)
    requires Apart(l, vs, ts) && Attains(l, p, touched, u, vs, ts) && v in vs && u in ts
    ensures Resolves(l, ArrayAccess(v), x) && (x.Some? ==> x.value != u)
    ensures Attains(l, p + [ArrayAccess(v)], if x.Some? then touched + {x.value} else touched, u, vs, ts)
  {
    if ArraysSince(p, u, l.perSetSize)[v] < l.perSetSize(v) {
      var y := LineLeft(touched, l.lines(v));
      x := Some(y);
      AttainedLine(l, p, touched, v, y, u, vs, ts);
    } else {
      x := None;
      SinceAppended(p, ArrayAccess(v), u, l.perSetSize);
    }
  }

  lemma AttainedLine(l: Layout, p: seq<Op>, touched: set<Tag>, v: Array, y: Tag, u: Tag, vs: set<Array>, ts: set<Tag>)
    requires Apart(l, vs, ts) && Attains(l, p, touched, u, vs, ts) && v in vs
    requires ArraysSince(p, u, l.perSetSize)[v] < l.perSetSize(v) && y in l.lines(v) && y !in touched
    ensures Attains(l, p + [ArrayAccess(v)], touched + {y}, u, vs, ts)
  {
    SinceAppended(p, ArrayAccess(v), u, l.perSetSize);
    Outside(touched, y, ts);
    forall w | w in vs ensures |(touched + {y}) * l.lines(w)| == |touched * l.lines(w)| + (if w == v then 1 else 0) {
      LinesAfter(l, touched, v, y, w, vs, ts);
    }
    OneMoreEach(touched, y, ArraysSince(p, u, l.perSetSize), v);
  }

  lemma OneMoreEach(touched: set<Tag>, y: Tag, arrays: multiset<Array>, v: Array)
    requires y !in touched
    ensures |touched + {y}| == |touched| + 1 && |arrays + multiset{v}| == |arrays| + 1
  {}

  lemma LinesAfter(l: Layout, touched: set<Tag>, v: Array, y: Tag, w: Array, vs: set<Array>, ts: set<Tag>)
    requires Apart(l, vs, ts) && v in vs && w in vs && y in l.lines(v) && y !in touched
    ensures |(touched + {y}) * l.lines(w)| == |touched * l.lines(w)| + (if w == v then 1 else 0)
  {
    if w == v {
      assert (touched + {y}) * l.lines(w) == touched * l.lines(w) + {y};
    } else {
      Outside(touched, y, l.lines(w));
    }
  }

  lemma Outside(touched: set<Tag>, y: Tag, s: set<Tag>)
    requires y !in s
    ensures (touched + {y}) * s == touched * s
  {}

  lemma LineLeft(touched: set<Tag>, lines: set<Tag>) returns (y: Tag)
    requires |touched * lines| < |lines|
    ensures y in lines && y !in touched
  {
    if lines - touched == {} {
      forall x | x in lines ensures x in touched * lines {
        assert x !in lines - touched;
      }
      SubsetSize(lines, touched * lines);
    }
    y := SomeOf(lines - touched);
    assert y in lines - touched;
  }

  lemma AttainedAnywhere(l: Layout, p: seq<Op>, touched: set<Tag>, u: Tag, vs: set<Array>, ts: set<Tag>)
    returns (x: Tag)
    requires Apart(l, vs, ts) && Attains(l, p, touched, u, vs, ts) && u in ts
    ensures x != u && Attains(l, p + [Anywhere], touched + {x}, u, vs, ts)
  {
    SinceAppended(p, Anywhere, u, l.perSetSize);
    var used := touched + ts + LinesOf(l, vs);
    x := NewTag(used);
    assert x !in touched && x !in ts;
    assert (touched + {x}) * ts == touched * ts;
    forall v | v in vs ensures (touched + {x}) * l.lines(v) == touched * l.lines(v) {
      assert x !in l.lines(v);
    }
  }

  ghost function LinesOf(l: Layout, vs: set<Array>): (used: set<Tag>)
    ensures forall v :: v in vs ==> l.lines(v) <= used
    decreases |vs|
  {
    if vs == {} then {} else var v := SomeOf(vs); l.lines(v) + LinesOf(l, vs - {v})
  }

  lemma {:induction false} Attained(l: Layout, p: seq<Op>, u: Tag, vs: set<Array>, ts: set<Tag>)
    returns (r: Resolution)
    requires Apart(l, vs, ts) && PathIn(p, vs, ts) && u in ts
    ensures ResolvesAll(l, p, r) && Attains(l, p, Touched(p, r, u), u, vs, ts)
  {
    if p == [] {
      r := [];
    } else {
      var p0, op := p[..|p| - 1], p[|p| - 1];
      assert p == p0 + [op] && OpIn(op, vs, ts);
      assert forall i :: 0 <= i < |p0| ==> p0[i] == p[i];
      var r0 := Attained(l, p0, u, vs, ts);
      var x := AttainedStep(l, p0, op, Touched(p0, r0, u), u, vs, ts);
      r := r0 + [x];
      TouchedAppend(p0, r0, op, x, u);
    }
  }

  lemma AttainedStep(l: Layout, p: seq<Op>, op: Op, touched: set<Tag>, u: Tag, vs: set<Array>, ts: set<Tag>)
    returns (x: Option<Tag>)
    requires Apart(l, vs, ts) && OpIn(op, vs, ts) && u in ts && Attains(l, p, touched, u, vs, ts)
    ensures Resolves(l, op, x) && Attains(l, p + [op], TouchedNext(touched, op, x, u), u, vs, ts)
  {
    match op
    case Precise(t, hit) =>
      x := Some(t);
      if t == u {
        AttainedItself(l, p, u, hit, vs, ts);
      } else {
        AttainedPrecise(l, p, touched, t, hit, u, vs, ts);
      }
    case ArrayAccess(v) => x := AttainedArray(l, p, touched, v, u, vs, ts);
    case Anywhere =>
      var y := AttainedAnywhere(l, p, touched, u, vs, ts);
      x := Some(y);
  }

  lemma {:induction false} RunRepresents(l: Layout, p: seq<Op>, union: bool)
    requires LayoutValid(l) && HitsListed(l, p, union)
    ensures Represents(l, Eval(l, Along(p), union), p)
  {
    if p != [] {
      var p0, op := p[..|p| - 1], p[|p| - 1];
      var ages := Eval(l, Along(p0), union);
      assert p == p0 + [op];
      RunRepresents(l, p0, union);
      forall u | u in Step(l, ages, op)
        ensures Step(l, ages, op)[u].age < l.assoc && BoundHolds(l, p, u, Step(l, ages, op)[u])
      {
        StepRepresents(l, ages, p0, op, u);
      }
    }
  }

  lemma StepRepresents(l: Layout, ages: Ages, p: seq<Op>, op: Op, u: Tag)
    requires LayoutValid(l) && Represents(l, ages, p) && (op.Precise? && op.hit ==> op.tag in ages)
    requires u in Step(l, ages, op)
    ensures Step(l, ages, op)[u].age < l.assoc && BoundHolds(l, p + [op], u, Step(l, ages, op)[u])
  {
    match op
    case Precise(t, hit) =>
      if u == t {
        FreshSound(l, p, t, hit);
      } else {
        LeastResolves(l, p);
        if hit {
          ListedAreCached(l, ages, p, Least(p), [], t);
        }
        OtherAfterUpdate(l, ages, p, Least(p), [], t, hit, u);
      }
    case ArrayAccess(v) => BoundAfterPotential(l, p, Some(v), u, ages[u]);
    case Anywhere => BoundAfterPotential(l, p, None, u, ages[u]);
  }

  /** Whatever the accesses of the path resolve to, at most `n` other tags are touched since `u` was. */
  ghost predicate TouchesAtMost(l: Layout, p: seq<Op>, u: Tag, n: nat) {
    forall r :: ResolvesAll(l, p, r) ==> |Touched(p, r, u)| <= n
  }

  /**
   On a path without joins the analysis knows exactly as much as can be known of it: `u` is listed with
   a bound of at most `n` exactly if no resolution touches more than `n` other tags.
   */
  lemma BoundExactly(l: Layout, p: seq<Op>, union: bool, u: Tag, vs: set<Array>, ts: set<Tag>, n: nat)
    requires LayoutValid(l) && HitsListed(l, p, union) && n < l.assoc
    requires Apart(l, vs, ts) && PathIn(p, vs, ts)
    ensures var ages := Eval(l, Along(p), union);
      u in ages && ages[u].age <= n <==> Seen(p, u) && TouchesAtMost(l, p, u, n)
  {
    RunCounts(l, p, union, u);
    RunRepresents(l, p, union);
    if Seen(p, u) && TouchesAtMost(l, p, u, n) {
      var i :| 0 <= i < |p| && p[i].Precise? && p[i].tag == u;
      assert OpIn(p[i], vs, ts);
      var r := Attained(l, p, u, vs, ts);
    }
  }
}
