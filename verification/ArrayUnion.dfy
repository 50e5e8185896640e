/**
 The uniting join of conflict sets: what it keeps, and for which caches the runs that use
 it are sound. Hits are assumed for listed tags here.
 */
module ArrayUnion {
  import opened LruSet
  import opened Options
  import opened ArrayMust
  import opened ArrayRuns
  import opened ArrayHits

  // ---------- States of sound runs ----------

  /** Every array has no lines here, or so many that using it up takes the whole age. */
  ghost predicate Wide(assoc: nat, perSetSize: Array -> nat) {
    forall v :: perSetSize(v) == 0 || perSetSize(v) + 1 >= assoc
  }

  /** An age that comes from accesses to array `v` alone. */
  ghost predicate Pure(b: Bound, v: Array) {
    b.age == |b.arrays| == b.arrays[v]
  }

  /** The array accesses counted do not exceed the age. */
  ghost predicate Sized(ages: Ages, assoc: nat) {
    forall u :: u in ages ==> |ages[u].arrays| <= ages[u].age < assoc
  }

  /** A tag with a pure age is younger than all other listed tags. */
  ghost predicate Ordered(ages: Ages) {
    forall u, t, v :: u in ages && t in ages && u != t && Pure(ages[u], v) ==> ages[u].age < ages[t].age
  }

  lemma OnlyOf(m: multiset<Array>, v: Array)
    ensures m[v] <= |m|
    ensures |m| == m[v] ==> forall w :: w != v ==> m[w] == 0
    ensures (forall w :: w != v ==> m[w] == 0) ==> |m| == m[v]
  {
    var rest := m - multiset{}[v := m[v]];
    assert m == rest + multiset{}[v := m[v]];
    if |m| == m[v] {
      assert rest == multiset{};
    }
    if forall w :: w != v ==> m[w] == 0 {
      assert rest == multiset{};
    }
  }

  /** After a precise access no other tag has a pure age. */
  lemma OthersNotPure(ages: Ages, t: Tag, hit: bool, u: Tag, assoc: nat)
    requires assoc >= 1 && Sized(ages, assoc) && Ordered(ages) && (hit ==> t in ages) && u in ages && u != t
    ensures var b := AgeBelow(ages[u], AccessedAge(ages, t, hit, assoc), assoc);
      b.age >= 1 && (b.age < assoc ==> |b.arrays| <= b.age && forall v :: !Pure(b, v))
  {
    if ages[u].age >= AccessedAge(ages, t, hit, assoc) {
      forall v ensures !Pure(ages[u], v) {}
      assert ages[u].age == 0 ==> Pure(ages[u], 0);
    }
  }

  lemma OrderedAfterUpdate(ages: Ages, t: Tag, hit: bool, assoc: nat)
    requires assoc >= 1 && Sized(ages, assoc) && Ordered(ages) && (hit ==> t in ages)
    ensures Ordered(Update(ages, t, hit, assoc))
  {
    forall u | u in Update(ages, t, hit, assoc) && u != t
      ensures Update(ages, t, hit, assoc)[u].age >= 1 && forall v :: !Pure(Update(ages, t, hit, assoc)[u], v)
    {
      OthersNotPure(ages, t, hit, u, assoc);
    }
  }

  /** What an access to array `v` does to a bound: nothing, one count, or the array is used up. */
  lemma ArrayStep(b: Bound, v: Array, perSetSize: Array -> nat, assoc: nat)
    requires assoc >= 1 && Wide(assoc, perSetSize) && |b.arrays| <= b.age < assoc && perSetSize(v) > 0
    requires AgeByArray(b, v, perSetSize, assoc).age != assoc
    ensures var b' := AgeByArray(b, v, perSetSize, assoc);
      || (b' == Bound(b.age + 1, b.arrays + multiset{v}) && forall w :: Pure(b', w) ==> w == v && Pure(b, v))
      || (b' == b && Pure(b, v) && b.age == assoc - 1 == perSetSize(v))
  {
    OnlyOf(b.arrays, v);
    var b' := AgeByArray(b, v, perSetSize, assoc);
    if b.arrays[v] < perSetSize(v) {
      forall w | Pure(b', w) ensures w == v && Pure(b, v) {
        OnlyOf(b'.arrays, w);
      }
    }
  }

  lemma OrderedAfterArray(ages: Ages, v: Array, perSetSize: Array -> nat, assoc: nat)
    requires assoc >= 1 && Wide(assoc, perSetSize) && Sized(ages, assoc) && Ordered(ages)
    ensures Ordered(PotentialUpdate(ages, Some(v), perSetSize, assoc))
  {
    var ages' := PotentialUpdate(ages, Some(v), perSetSize, assoc);
    if perSetSize(v) == 0 {
      forall u | u in ages' ensures ages'[u] == ages[u] {}
    } else {
      forall u, t, w | u in ages' && t in ages' && u != t && Pure(ages'[u], w)
        ensures ages'[u].age < ages'[t].age
      {
        ArrayStep(ages[u], v, perSetSize, assoc);
        ArrayStep(ages[t], v, perSetSize, assoc);
        assert Pure(ages[u], v);
      }
    }
  }

  lemma OrderedAfterAnywhere(ages: Ages, perSetSize: Array -> nat, assoc: nat)
    requires assoc >= 1 && Sized(ages, assoc)
    ensures forall u, v :: u in PotentialUpdate(ages, None, perSetSize, assoc) ==>
      !Pure(PotentialUpdate(ages, None, perSetSize, assoc)[u], v)
  {}

  /** Pure ages of a uniting join are pure on both sides, and the greater of the two. */
  lemma UnionPure(x: Bound, y: Bound, v: Array, assoc: nat)
    requires |x.arrays| <= x.age < assoc && |y.arrays| <= y.age < assoc && UnionJoin(x, y, assoc).age != assoc
    ensures x.age <= UnionJoin(x, y, assoc).age && y.age <= UnionJoin(x, y, assoc).age
    ensures Pure(UnionJoin(x, y, assoc), v) ==>
      Pure(x, v) && Pure(y, v) && UnionJoin(x, y, assoc).age == Max(x.age, y.age)
  {
    var z := UnionJoin(x, y, assoc);
    assert z.arrays == y.arrays + (x.arrays - y.arrays);
    if Pure(z, v) {
      OnlyOf(z.arrays, v);
      OnlyOf(x.arrays, v);
      OnlyOf(y.arrays, v);
      forall w | w != v ensures x.arrays[w] == 0 && y.arrays[w] == 0 {
        assert z.arrays[w] == 0;
      }
    }
  }

  lemma OrderedAfterJoin(x: Ages, y: Ages, assoc: nat)
    requires Sized(x, assoc) && Sized(y, assoc) && Ordered(x) && Ordered(y)
    ensures Ordered(Join(x, y, true, assoc))
  {
    var z := Join(x, y, true, assoc);
    forall u, t, v | u in z && t in z && u != t && Pure(z[u], v) ensures z[u].age < z[t].age {
      UnionPure(x[u], y[u], v, assoc);
      UnionPure(x[t], y[t], v, assoc);
    }
  }

  lemma {:induction false} RunOrdered(l: Layout, h: History)
    requires l.assoc >= 1 && Wide(l.assoc, l.perSetSize) && Legal(l, h, true)
    ensures Sized(Eval(l, h, true), l.assoc) && Ordered(Eval(l, h, true))
  {
    EntrySizes(l, h, true);
    match h
    case Start =>
    case Then(h', op) =>
      var ages := Eval(l, h', true);
      RunOrdered(l, h');
      match op {
        case Precise(t, hit) => OrderedAfterUpdate(ages, t, hit, l.assoc);
        case ArrayAccess(v) => OrderedAfterArray(ages, v, l.perSetSize, l.assoc);
        case Anywhere => OrderedAfterAnywhere(ages, l.perSetSize, l.assoc);
      }
    case Joined(x, y) =>
      RunOrdered(l, x);
      RunOrdered(l, y);
      OrderedAfterJoin(Eval(l, x, true), Eval(l, y, true), l.assoc);
  }

  // ---------- What the bounds mean ----------

  /** The age bounds what was touched since, and where it is pure only lines of that array were. */
  ghost predicate Kept(l: Layout, p: seq<Op>, u: Tag, b: Bound) {
    && BoundHolds(l, p, u, Bound(b.age, multiset{}))
    && forall v :: Pure(b, v) ==> OnlyLines(l, p, u, v)
  }

  ghost predicate OnlyLines(l: Layout, p: seq<Op>, u: Tag, v: Array) {
    forall r :: ResolvesAll(l, p, r) ==> Touched(p, r, u) <= l.lines(v)
  }

  ghost predicate KeptAll(l: Layout, p: seq<Op>, ages: Ages) {
    forall u :: u in ages ==> Kept(l, p, u, ages[u])
  }

  lemma FreshKept(l: Layout, p: seq<Op>, t: Tag, hit: bool)
    ensures Kept(l, p + [Precise(t, hit)], t, Bound(0, multiset{}))
  {
    var p' := p + [Precise(t, hit)];
    FreshSound(l, p, t, hit);
    forall v ensures OnlyLines(l, p', t, v) {
      forall r | ResolvesAll(l, p', r) ensures Touched(p', r, t) <= l.lines(v) {
        assert |Touched(p', r, t)| <= 0;
      }
    }
  }

  lemma KeptAfterUpdate(l: Layout, p: seq<Op>, ages: Ages, t: Tag, hit: bool)
    requires l.assoc >= 1 && Sized(ages, l.assoc) && Ordered(ages) && (hit ==> t in ages) && KeptAll(l, p, ages)
    ensures KeptAll(l, p + [Precise(t, hit)], Update(ages, t, hit, l.assoc))
  {
    FreshKept(l, p, t, hit);
    forall u | u in Update(ages, t, hit, l.assoc) && u != t
      ensures Kept(l, p + [Precise(t, hit)], u, Update(ages, t, hit, l.assoc)[u])
    {
      OthersNotPure(ages, t, hit, u, l.assoc);
      if ages[u].age >= AccessedAge(ages, t, hit, l.assoc) {
        OlderSound(l, p, t, Bound(ages[t].age, multiset{}), hit, u, Bound(ages[u].age, multiset{}));
      } else {
        AgeBySound(l, p, Precise(t, hit), u, Bound(ages[u].age, multiset{}), multiset{});
      }
    }
  }

  lemma OnlyLinesAfter(l: Layout, p: seq<Op>, u: Tag, v: Array)
    requires OnlyLines(l, p, u, v)
    ensures OnlyLines(l, p + [ArrayAccess(v)], u, v)
  {
    forall r | ResolvesAll(l, p + [ArrayAccess(v)], r) ensures Touched(p + [ArrayAccess(v)], r, u) <= l.lines(v) {
      var r0, x := Split(l, p, ArrayAccess(v), r);
    }
  }

  /** An access to an array without lines in this set touches nothing. */
  lemma NothingTouched(l: Layout, p: seq<Op>, u: Tag, v: Array, b: Bound)
    requires LayoutValid(l) && l.perSetSize(v) == 0 && Kept(l, p, u, b)
    ensures Kept(l, p + [ArrayAccess(v)], u, b)
  {
    var p' := p + [ArrayAccess(v)];
    assert |l.lines(v)| == 0;
    SeenAfter(p, ArrayAccess(v), u);
    forall r | ResolvesAll(l, p', r)
      ensures ResolvesAll(l, p, r[..|p|]) && Touched(p', r, u) == Touched(p, r[..|p|], u)
    {
      var r0, x := Split(l, p, ArrayAccess(v), r);
      assert r[..|p|] == r0;
    }
  }

  lemma KeptAfterArray(l: Layout, p: seq<Op>, u: Tag, v: Array, b: Bound)
    requires LayoutValid(l) && Wide(l.assoc, l.perSetSize) && |b.arrays| <= b.age < l.assoc && Kept(l, p, u, b)
    requires AgeByArray(b, v, l.perSetSize, l.assoc).age != l.assoc
    ensures Kept(l, p + [ArrayAccess(v)], u, AgeByArray(b, v, l.perSetSize, l.assoc))
  {
    if l.perSetSize(v) == 0 {
      NothingTouched(l, p, u, v, b);
    } else {
      ArrayStep(b, v, l.perSetSize, l.assoc);
      if OnlyLines(l, p, u, v) {
        OnlyLinesAfter(l, p, u, v);
      }
      if AgeByArray(b, v, l.perSetSize, l.assoc) == b {
        UsedUpKept(l, p, u, v, b);
      } else {
        AgeBySound(l, p, ArrayAccess(v), u, Bound(b.age, multiset{}), multiset{});
      }
    }
  }

  /** A used-up array touches its own lines only, and these are no more than the age. */
  lemma UsedUpKept(l: Layout, p: seq<Op>, u: Tag, v: Array, b: Bound)
    requires LayoutValid(l) && Kept(l, p, u, b) && Pure(b, v) && b.age == l.perSetSize(v) > 0
    ensures Kept(l, p + [ArrayAccess(v)], u, b)
  {
    var p' := p + [ArrayAccess(v)];
    SeenAfter(p, ArrayAccess(v), u);
    OnlyLinesAfter(l, p, u, v);
    forall r | ResolvesAll(l, p', r) ensures |Touched(p', r, u)| <= b.age {
      SubsetSize(Touched(p', r, u), l.lines(v));
    }
    forall w | Pure(b, w) ensures w == v {
      OnlyOf(b.arrays, v);
    }
  }

  lemma {:induction false} RunKept(l: Layout, h: History, p: seq<Op>)
    requires LayoutValid(l) && Wide(l.assoc, l.perSetSize) && Legal(l, h, true) && PathOf(h, p)
    ensures KeptAll(l, p, Eval(l, h, true))
  {
    match h
    case Start =>
    case Then(h', op) =>
      var p0 := p[..|p| - 1];
      assert p == p0 + [op];
      RunKept(l, h', p0);
      RunOrdered(l, h');
      StepKept(l, p0, Eval(l, h', true), op);
    case Joined(x, y) =>
      if PathOf(x, p) {
        RunKept(l, x, p);
      } else {
        RunKept(l, y, p);
      }
      EntrySizes(l, x, true);
      EntrySizes(l, y, true);
      JoinKept(l, p, Eval(l, x, true), Eval(l, y, true));
  }

  lemma StepKept(l: Layout, p: seq<Op>, ages: Ages, op: Op)
    requires LayoutValid(l) && Wide(l.assoc, l.perSetSize) && Sized(ages, l.assoc) && Ordered(ages)
    requires KeptAll(l, p, ages) && (op.Precise? && op.hit ==> op.tag in ages)
    ensures KeptAll(l, p + [op], Step(l, ages, op))
  {
    match op
    case Precise(t, hit) => KeptAfterUpdate(l, p, ages, t, hit);
    case ArrayAccess(v) =>
      forall u | u in Step(l, ages, op) ensures Kept(l, p + [op], u, Step(l, ages, op)[u]) {
        KeptAfterArray(l, p, u, v, ages[u]);
      }
    case Anywhere =>
      forall u | u in Step(l, ages, op) ensures Kept(l, p + [op], u, Step(l, ages, op)[u]) {
        AgeBySound(l, p, op, u, Bound(ages[u].age, multiset{}), multiset{});
      }
  }

  lemma JoinKept(l: Layout, p: seq<Op>, x: Ages, y: Ages)
    requires Sized(x, l.assoc) && Sized(y, l.assoc) && (KeptAll(l, p, x) || KeptAll(l, p, y))
    ensures KeptAll(l, p, Join(x, y, true, l.assoc))
  {
    var z := Join(x, y, true, l.assoc);
    forall u | u in z ensures Kept(l, p, u, z[u]) {
      var b := if KeptAll(l, p, x) then x[u] else y[u];
      assert Kept(l, p, u, b);
      forall v ensures b.age <= z[u].age && (Pure(z[u], v) ==> Pure(b, v)) {
        UnionPure(x[u], y[u], v, l.assoc);
      }
    }
  }

  /** Runs with the uniting join are sound where all arrays are wide, whatever is joined. */
  lemma WideRunSound(l: Layout, h: History, p: seq<Op>, r: Resolution, s: seq<Tag>, u: Tag)
    requires LayoutValid(l) && Wide(l.assoc, l.perSetSize) && Legal(l, h, true) && PathOf(h, p)
    requires ResolvesAll(l, p, r) && IsLruSet(s, l.assoc) && u in Eval(l, h, true)
    ensures var end := Run(s, Accesses(r), l.assoc);
      u in end && Age(end, u, l.assoc) <= Eval(l, h, true)[u].age < l.assoc
  {
    RunKept(l, h, p);
    RunOrdered(l, h);
    RealAge(l, p, r, s, u, Bound(Eval(l, h, true)[u].age, multiset{}));
  }

  // ---------- A wrong hit ----------

  predicate Has(ages: Ages, u: Tag, b: Bound) {
    u in ages && ages[u] == b
  }

  ghost predicate Below(ages: Ages, n: Tag) {
    forall w :: w in ages ==> w < n
  }

  lemma ReadUnlisted(ages: Ages, t: Tag, assoc: nat)
    requires assoc >= 1 && t !in ages
    ensures Has(Update(ages, t, false, assoc), t, Bound(0, multiset{}))
    ensures forall u, b :: Has(ages, u, b) && b.age + 1 < assoc ==>
      Has(Update(ages, t, false, assoc), u, Bound(b.age + 1, b.arrays))
    ensures forall n :: Below(ages, n) && t < n ==> Below(Update(ages, t, false, assoc), n)
  {}

  /** Reading a tag leaves older ones as they are. */
  lemma ReadYounger(ages: Ages, t: Tag, u: Tag, b: Bound, assoc: nat)
    requires assoc >= 1 && t in ages && t != u && Has(ages, u, b) && ages[t].age <= b.age < assoc
    ensures Has(Update(ages, t, false, assoc), u, b)
    ensures forall n :: Below(ages, n) ==> Below(Update(ages, t, false, assoc), n)
  {}

  lemma CountOnce(ages: Ages, v: Array, k: nat, u: Tag, perSetSize: Array -> nat, assoc: nat)
    requires 1 <= k <= perSetSize(v) && k < assoc && Has(ages, u, Bound(k - 1, multiset{}[v := k - 1]))
    ensures Has(PotentialUpdate(ages, Some(v), perSetSize, assoc), u, Bound(k, multiset{}[v := k]))
  {
    assert multiset{}[v := k - 1] + multiset{v} == multiset{}[v := k];
  }

  /** Precise accesses to tags that real addresses have, and accesses to array `v`. */
  ghost predicate Plain(h: History, v: Array) {
    match h
    case Start => true
    case Then(h, op) => Plain(h, v) && (op == ArrayAccess(v) || (op.Precise? && op.tag >= 0))
    case Joined(x, y) => Plain(x, v) && Plain(y, v)
  }

  /** Every access touches this set. */
  ghost predicate AllTouch(r: Resolution) {
    forall k :: 0 <= k < |r| ==> r[k].Some?
  }

  predicate Only(ages: Ages, u: Tag) {
    ages.Keys <= {u}
  }

  /** Only tag `u` is listed, and has counted `k` accesses to array `v` and nothing else. */
  ghost predicate Counted(l: Layout, h: History, v: Array, k: nat, u: Tag) {
    && l.assoc >= 1 && Legal(l, h, true) && Plain(h, v) && Only(Eval(l, h, true), u)
    && Has(Eval(l, h, true), u, Bound(k, multiset{}[v := k]))
  }

  lemma CountNext(l: Layout, h: History, v: Array, k: nat, u: Tag)
    requires 1 <= k <= l.perSetSize(v) && k < l.assoc && Counted(l, h, v, k - 1, u)
    ensures Counted(l, Then(h, ArrayAccess(v)), v, k, u)
  {
    CountOnce(Eval(l, h, true), v, k, u, l.perSetSize, l.assoc);
  }

  lemma {:induction false} CountUp(l: Layout, h: History, v: Array, k: nat, u: Tag) returns (h': History)
    requires k <= l.perSetSize(v) && k < l.assoc && Counted(l, h, v, 0, u)
    ensures Counted(l, h', v, k, u)
  {
    if k == 0 {
      h' := h;
    } else {
      var before := CountUp(l, h, v, k - 1, u);
      CountNext(l, before, v, k, u);
      h' := Then(before, ArrayAccess(v));
    }
  }

  function Read(t: Tag): Op {
    Precise(t, false)
  }

  /** A path of the history that touches exactly the tags of `since` after its last access to `u`. */
  ghost predicate On(l: Layout, h: History, p: seq<Op>, r: Resolution, v: Array, u: Tag, since: set<Tag>) {
    && l.assoc >= 1 && Legal(l, h, true) && Plain(h, v) && Executes(l, h, p, r, []) && AllTouch(r)
    && u in Accesses(r) && Since(Accesses(r), u) == since
  }

  lemma OnThen(l: Layout, h: History, p: seq<Op>, r: Resolution, v: Array, u: Tag, since: set<Tag>, op: Op, x: Tag)
    requires On(l, h, p, r, v, u, since) && Resolves(l, op, Some(x)) && x != u
    requires op == ArrayAccess(v) || (op.Precise? && op.tag >= 0 && !op.hit)
    ensures On(l, Then(h, op), p + [op], r + [Some(x)], v, u, since + {x})
  {
    ExecutesThen(l, h, p, r, [], op, Some(x));
    OneMoreSince(r, u, since, x);
  }

  lemma OneMoreSince(r: Resolution, u: Tag, since: set<Tag>, x: Tag)
    requires AllTouch(r) && u in Accesses(r) && Since(Accesses(r), u) == since && x != u
    ensures var r' := r + [Some(x)];
      AllTouch(r') && u in Accesses(r') && Since(Accesses(r'), u) == since + {x}
  {
    AccessesAppend(r, Some(x));
    SinceAppend(Accesses(r), x, u);
  }

  /** Tag n, then the tag to go wrong, then one more. */
  lemma Left(l: Layout, n: Tag, v: Array) returns (h: History, p: seq<Op>, r: Resolution)
    requires l.assoc >= 3 && n >= 0
    ensures On(l, h, p, r, v, n + 1, {n + 2})
    ensures Has(Eval(l, h, true), n, Bound(2, multiset{})) && Has(Eval(l, h, true), n + 1, Bound(1, multiset{}))
    ensures Below(Eval(l, h, true), n + 3)
  {
    var h2, p2, r2 := FirstTwo(l, n, v);
    OnThen(l, h2, p2, r2, v, n + 1, {}, Read(n + 2), n + 2);
    ReadUnlisted(Eval(l, h2, true), n + 2, l.assoc);
    h, p, r := Then(h2, Read(n + 2)), p2 + [Read(n + 2)], r2 + [Some(n + 2)];
    assert {} + {n + 2} == {n + 2};
  }

  lemma FirstTwo(l: Layout, n: Tag, v: Array) returns (h: History, p: seq<Op>, r: Resolution)
    requires l.assoc >= 3 && n >= 0
    ensures On(l, h, p, r, v, n + 1, {})
    ensures Has(Eval(l, h, true), n, Bound(1, multiset{})) && Has(Eval(l, h, true), n + 1, Bound(0, multiset{}))
    ensures Below(Eval(l, h, true), n + 2) && Below(Eval(l, h, true), n + 3)
  {
    var h1, p1, r1 := ReadFirst(l, n, v);
    OnFirst(l, h1, p1, r1, v, n + 1);
    h, p, r := Then(h1, Read(n + 1)), p1 + [Read(n + 1)], r1 + [Some(n + 1)];
    ReadTwo(l, n, h);
  }

  lemma ReadTwo(l: Layout, n: Tag, h: History)
    requires l.assoc >= 3 && h == Then(Then(Start, Read(n)), Read(n + 1))
    ensures Has(Eval(l, h, true), n, Bound(1, multiset{})) && Has(Eval(l, h, true), n + 1, Bound(0, multiset{}))
    ensures Below(Eval(l, h, true), n + 2)
  {
    var e0, e1 := Eval(l, Start, true), Eval(l, Then(Start, Read(n)), true);
    assert e1 == Update(e0, n, false, l.assoc);
    ReadUnlisted(e0, n, l.assoc);
    assert Below(e0, n + 1) && Below(e1, n + 1) && Has(e1, n, Bound(0, multiset{}));
    ReadUnlisted(e1, n + 1, l.assoc);
    assert Below(e1, n + 2);
  }

  lemma OnFirst(l: Layout, h: History, p: seq<Op>, r: Resolution, v: Array, u: Tag)
    requires l.assoc >= 1 && Legal(l, h, true) && Plain(h, v) && Executes(l, h, p, r, []) && AllTouch(r) && u >= 0
    ensures On(l, Then(h, Read(u)), p + [Read(u)], r + [Some(u)], v, u, {})
  {
    ExecutesThen(l, h, p, r, [], Read(u), Some(u));
    AccessesAppend(r, Some(u));
    SinceAppend(Accesses(r), u, u);
  }

  lemma ReadFirst(l: Layout, n: Tag, v: Array) returns (h: History, p: seq<Op>, r: Resolution)
    requires l.assoc >= 1 && n >= 0
    ensures h == Then(Start, Read(n)) && Legal(l, h, true) && Plain(h, v) && Executes(l, h, p, r, []) && AllTouch(r)
  {
    ExecutesThen(l, Start, [], [], [], Read(n), Some(n));
    h, p, r := Then(Start, Read(n)), [] + [Read(n)], [] + [Some(n)];
  }

  /** The tag to go wrong, then `k` accesses to array `v`, then tag n. */
  lemma Right(l: Layout, n: Tag, v: Array, k: nat) returns (h: History)
    requires k <= l.perSetSize(v) && k + 2 <= l.assoc && n >= 0
    ensures Legal(l, h, true) && Plain(h, v)
    ensures Has(Eval(l, h, true), n, Bound(0, multiset{}))
    ensures Has(Eval(l, h, true), n + 1, Bound(k + 1, multiset{}[v := k]))
  {
    var h1 := Then(Start, Read(n + 1));
    CountedFirst(l, n + 1, v);
    var h2 := CountUp(l, h1, v, k, n + 1);
    h := Then(h2, Read(n));
    ReadUnlisted(Eval(l, h2, true), n, l.assoc);
  }

  lemma CountedFirst(l: Layout, u: Tag, v: Array)
    requires l.assoc >= 1 && u >= 0
    ensures Counted(l, Then(Start, Read(u)), v, 0, u)
  {
    ReadUnlisted(Eval(l, Start, true), u, l.assoc);
    assert multiset{}[v := 0] == multiset{};
  }

  lemma JoinedEntries(x: Ages, y: Ages, n: Tag, v: Array, k: nat, assoc: nat)
    requires k + 2 <= assoc && assoc >= 3
    requires Has(x, n, Bound(2, multiset{})) && Has(x, n + 1, Bound(1, multiset{}))
    requires Has(y, n, Bound(0, multiset{})) && Has(y, n + 1, Bound(k + 1, multiset{}[v := k]))
    ensures Has(Join(x, y, true, assoc), n, Bound(2, multiset{}))
    ensures Has(Join(x, y, true, assoc), n + 1, Bound(k + 1, multiset{}[v := k]))
  {
    var m: multiset<Array> := multiset{}[v := k];
    assert m - multiset{} == m && multiset{} - m == multiset{} && multiset{} + m == m;
    assert UnionJoin(Bound(2, multiset{}), Bound(0, multiset{}), assoc) == Bound(2, multiset{});
    assert UnionJoin(Bound(1, multiset{}), Bound(k + 1, m), assoc) == Bound(k + 1, m);
  }

  /** Both paths joined. */
  lemma Diamond(l: Layout, n: Tag, v: Array, k: nat) returns (h: History, p: seq<Op>, r: Resolution)
    requires 1 <= k <= l.perSetSize(v) && k + 2 <= l.assoc && n >= 0
    ensures On(l, h, p, r, v, n + 1, {n + 2}) && Has(Eval(l, h, true), n, Bound(2, multiset{}))
    ensures Has(Eval(l, h, true), n + 1, Bound(k + 1, multiset{}[v := k])) && Below(Eval(l, h, true), n + 3)
  {
    var x, y;
    x, p, r := Left(l, n, v);
    y := Right(l, n, v, k);
    h := Joined(x, y);
    JoinedEntries(Eval(l, x, true), Eval(l, y, true), n, v, k, l.assoc);
  }

  /** Then tag n again: it is taken to be younger than it is. */
  lemma AfterDiamond(l: Layout, n: Tag, v: Array, k: nat) returns (h: History, p: seq<Op>, r: Resolution)
    requires 1 <= k <= l.perSetSize(v) && k + 2 <= l.assoc && n >= 0
    ensures On(l, h, p, r, v, n + 1, {n + 2, n})
    ensures Has(Eval(l, h, true), n + 1, Bound(k + 1, multiset{}[v := k])) && Below(Eval(l, h, true), n + 3)
  {
    h, p, r := Diamond(l, n, v, k);
    ReadYounger(Eval(l, h, true), n, n + 1, Bound(k + 1, multiset{}[v := k]), l.assoc);
    OnThen(l, h, p, r, v, n + 1, {n + 2}, Read(n), n);
    h, p, r := Then(h, Read(n)), p + [Read(n)], r + [Some(n)];
  }

  /** Accesses to the used-up array touch all of its lines, and leave the tag as it is. */
  lemma {:induction false} TouchLines(l: Layout, h: History, p: seq<Op>, r: Resolution, v: Array, u: Tag,
                                      since: set<Tag>, lines: set<Tag>, b: Bound, n: Tag)
    returns (h': History, p': seq<Op>, r': Resolution)
    requires On(l, h, p, r, v, u, since) && lines <= l.lines(v) && u !in lines
    requires Has(Eval(l, h, true), u, b) && b.arrays[v] >= l.perSetSize(v) && b.age < l.assoc
    requires Below(Eval(l, h, true), n)
    ensures On(l, h', p', r', v, u, since + lines) && Has(Eval(l, h', true), u, b) && Below(Eval(l, h', true), n)
    decreases lines
  {
    if lines == {} {
      assert since + lines == since;
      h', p', r' := h, p, r;
    } else {
      var x := SomeOf(lines);
      OnThen(l, h, p, r, v, u, since, ArrayAccess(v), x);
      h', p', r' := TouchLines(l, Then(h, ArrayAccess(v)), p + [ArrayAccess(v)], r + [Some(x)], v, u, since + {x},
        lines - {x}, b, n);
      assert since + {x} + (lines - {x}) == since + lines;
    }
  }

  /** Unlisted tags are read until the tag's age reaches the limit. */
  lemma {:induction false} ReadMore(l: Layout, h: History, p: seq<Op>, r: Resolution, v: Array, u: Tag,
                                    since: set<Tag>, b: Bound, n: Tag)
    returns (h': History, p': seq<Op>, r': Resolution, since': set<Tag>)
    requires On(l, h, p, r, v, u, since) && Has(Eval(l, h, true), u, b) && b.age < l.assoc && Below(Eval(l, h, true), n)
    requires forall t :: t in since ==> t < n
    requires u < n && n >= 0
    ensures On(l, h', p', r', v, u, since') && u in Eval(l, h', true)
    ensures |since'| == |since| + (l.assoc - 1 - b.age)
    decreases l.assoc - b.age
  {
    if b.age == l.assoc - 1 {
      h', p', r', since' := h, p, r, since;
    } else {
      OnThen(l, h, p, r, v, u, since, Read(n), n);
      ReadUnlisted(Eval(l, h, true), n, l.assoc);
      assert Below(Eval(l, h, true), n + 1);
      h', p', r', since' := ReadMore(l, Then(h, Read(n)), p + [Read(n)], r + [Some(n)], v, u, since + {n},
        Bound(b.age + 1, b.arrays), n + 1);
    }
  }

  /**
   The uniting join is unsound: an array all of whose lines, at least one and at most
   assoc - 2, can be used up leads to a tag that is classified a hit and has been evicted.
   */
  lemma UnionUnsound(l: Layout, v: Array) returns (h: History, p: seq<Op>, r: Resolution, u: Tag)
    requires LayoutValid(l) && 1 <= |l.lines(v)| == l.perSetSize(v) && l.perSetSize(v) + 2 <= l.assoc
    ensures Legal(l, h, true) && WrongHit(l, h, true, p, r, [], u) && Plain(h, v) && AllTouch(r) && u >= 0
  {
    var k := l.perSetSize(v);
    var b := Bound(k + 1, multiset{}[v := k]);
    var n := AboveAll(l.lines(v));
    u := n + 1;
    h, p, r := AfterTouching(l, v, n, k, b);
    SizeOfUnion({n + 2, n}, l.lines(v));
    var since;
    h, p, r, since := ReadMore(l, h, p, r, v, u, {n + 2, n} + l.lines(v), b, n + 3);
    EvictedByDistinct([], Accesses(r), u, l.assoc);
  }

  lemma AfterTouching(l: Layout, v: Array, n: Tag, k: nat, b: Bound)
    returns (h: History, p: seq<Op>, r: Resolution)
    requires 1 <= k == l.perSetSize(v) && k + 2 <= l.assoc && n >= 0 && b == Bound(k + 1, multiset{}[v := k])
    requires forall t :: t in l.lines(v) ==> t < n
    ensures On(l, h, p, r, v, n + 1, {n + 2, n} + l.lines(v))
    ensures Has(Eval(l, h, true), n + 1, b) && Below(Eval(l, h, true), n + 3)
  {
    h, p, r := AfterDiamond(l, n, v, k);
    h, p, r := TouchLines(l, h, p, r, v, n + 1, {n + 2, n}, l.lines(v), b, n + 3);
  }

  lemma SizeOfUnion(a: set<Tag>, b: set<Tag>)
    requires forall t :: t in a ==> t !in b
    ensures |a + b| == |a| + |b|
  {
    SameTagSet(a * b, {});
  }

  // ---------- Exactly when ----------

  /** Every listed tag is cached, in every run with the uniting join that assumes hits for listed tags. */
  ghost predicate UnionRunsSound(l: Layout) {
    forall h, p, r, s, u :: l.assoc >= 1 && Legal(l, h, true) ==> !WrongHit(l, h, true, p, r, s, u)
  }

  lemma WideIsSound(l: Layout)
    requires LayoutValid(l) && Wide(l.assoc, l.perSetSize)
    ensures UnionRunsSound(l)
  {
    forall h, p, r, s, u | Legal(l, h, true) ensures !WrongHit(l, h, true, p, r, s, u) {
      if WrongHit(l, h, true, p, r, s, u) {
        WideRunSound(l, h, p, r, s, u);
      }
    }
  }

  lemma SomeNarrow(assoc: nat, perSetSize: Array -> nat) returns (v: Array)
    requires !Wide(assoc, perSetSize)
    ensures 0 < perSetSize(v) && perSetSize(v) + 2 <= assoc
  {
    v :| perSetSize(v) != 0 && perSetSize(v) + 1 < assoc;
  }

  lemma NarrowIsUnsound(l: Layout, v: Array)
    requires LayoutValid(l) && 1 <= |l.lines(v)| == l.perSetSize(v) && l.perSetSize(v) + 2 <= l.assoc
    ensures !UnionRunsSound(l)
  {
    var h, p, r, u := UnionUnsound(l, v);
  }

  /** Where the computed sizes are reached, the uniting join is sound for exactly the wide arrays. */
  lemma UnionSoundExactly(l: Layout)
    requires LayoutValid(l) && forall v :: |l.lines(v)| == l.perSetSize(v)
    ensures UnionRunsSound(l) <==> Wide(l.assoc, l.perSetSize)
  {
    if Wide(l.assoc, l.perSetSize) {
      WideIsSound(l);
    } else {
      var v := SomeNarrow(l.assoc, l.perSetSize);
      NarrowIsUnsound(l, v);
    }
  }

  /** Lines for which the computed sizes are reached. */
  lemma Reached(assoc: nat, perSetSize: Array -> nat) returns (l: Layout)
    requires assoc >= 1
    ensures l.assoc == assoc && l.perSetSize == perSetSize && LayoutValid(l)
    ensures forall v :: |l.lines(v)| == l.perSetSize(v)
  {
    l := Layout(assoc, perSetSize, (v: Array) => FirstTags(perSetSize(v)));
  }

  /** The same for what the analysis knows: the sizes, but not which lines an array has. */
  lemma UnionSoundForAllExactly(assoc: nat, perSetSize: Array -> nat)
    requires assoc >= 1
    ensures (forall l: Layout :: l.assoc == assoc && l.perSetSize == perSetSize && LayoutValid(l) ==> UnionRunsSound(l))
      <==> Wide(assoc, perSetSize)
  {
    if Wide(assoc, perSetSize) {
      forall l: Layout | l.assoc == assoc && l.perSetSize == perSetSize && LayoutValid(l) ensures UnionRunsSound(l) {
        WideIsSound(l);
      }
    } else {
      var l := Reached(assoc, perSetSize);
      UnionSoundExactly(l);
      assert !UnionRunsSound(l);
    }
  }

  function FirstTags(k: nat): (s: set<Tag>)
    ensures |s| == k && forall t :: t in s ==> t < k
  {
    if k == 0 then {} else FirstTags(k - 1) + {k - 1}
  }

  // ---------- What one join keeps ----------

  /** A path with exactly the given array accesses since the precise access to `u`. */
  ghost function ArrayPath(u: Tag, arrays: multiset<Array>): seq<Op>
    decreases |arrays|
  {
    if arrays == multiset{} then [Precise(u, false)]
    else
      var v := SomeArray(arrays);
      ArrayPath(u, arrays - multiset{v}) + [ArrayAccess(v)]
  }

  ghost function SomeArray(arrays: multiset<Array>): (v: Array)
    requires arrays != multiset{}
    ensures v in arrays
  {
    var v :| v in arrays; v
  }

  /** Arrays without lines in this set: no access resolves to anything. */
  ghost function NoLines(assoc: nat): Layout {
    Layout(assoc, v => 0, v => {})
  }

  lemma {:induction false} ArrayPathHolds(assoc: nat, u: Tag, b: Bound)
    ensures BoundHolds(NoLines(assoc), ArrayPath(u, b.arrays), u, b)
    ensures forall v :: CountSince(ArrayPath(u, b.arrays), u, v) == b.arrays[v]
    decreases |b.arrays|
  {
    var l := NoLines(assoc);
    if b.arrays == multiset{} {
      ArrayPathStart(l, [], u, b);
      assert [] + [Precise(u, false)] == [Precise(u, false)];
    } else {
      var v := SomeArray(b.arrays);
      var rest := b.arrays - multiset{v};
      ArrayPathHolds(assoc, u, Bound(b.age, rest));
      assert b == Bound(b.age, rest + multiset{v});
      ArrayPathStep(l, ArrayPath(u, rest), u, b.age, rest, v);
    }
  }

  lemma ArrayPathStart(l: Layout, p: seq<Op>, u: Tag, b: Bound)
    requires b.arrays == multiset{}
    ensures BoundHolds(l, p + [Precise(u, false)], u, b)
    ensures forall v :: CountSince(p + [Precise(u, false)], u, v) == 0
  {
    FreshSound(l, p, u, false);
    assert forall r :: ResolvesAll(l, p + [Precise(u, false)], r) ==> |Touched(p + [Precise(u, false)], r, u)| <= 0;
  }

  /** An access to an array without lines adds one to its count, and nothing else. */
  lemma ArrayPathStep(l: Layout, p: seq<Op>, u: Tag, age: nat, rest: multiset<Array>, v: Array)
    requires BoundHolds(l, p, u, Bound(age, rest)) && l.lines(v) == {}
    requires forall w :: CountSince(p, u, w) == rest[w]
    ensures BoundHolds(l, p + [ArrayAccess(v)], u, Bound(age, rest + multiset{v}))
    ensures forall w :: CountSince(p + [ArrayAccess(v)], u, w) == (rest + multiset{v})[w]
  {
    SeenAfter(p, ArrayAccess(v), u);
    forall r | ResolvesAll(l, p + [ArrayAccess(v)], r)
      ensures |Touched(p + [ArrayAccess(v)], r, u)| <= age
    {
      var r0, x := Split(l, p, ArrayAccess(v), r);
    }
    forall w ensures CountSince(p + [ArrayAccess(v)], u, w) == (rest + multiset{v})[w] {
      CountAfter(p, ArrayAccess(v), u, w);
    }
  }

  /** The joined bound is true of every path one of the two bounds is true of. */
  ghost predicate UnionKeepsBounds(x: Bound, y: Bound, assoc: nat) {
    forall l: Layout, p: seq<Op>, u: Tag :: BoundHolds(l, p, u, x) || BoundHolds(l, p, u, y) ==>
      BoundHolds(l, p, u, UnionJoin(x, y, assoc))
  }

  /** That is so exactly when the conflict sets are equal or the join gives the tag up. */
  lemma UnionKeepsBoundsExactly(x: Bound, y: Bound, assoc: nat)
    requires x.age < assoc && y.age < assoc
    ensures UnionKeepsBounds(x, y, assoc) <==> x.arrays == y.arrays || UnionJoin(x, y, assoc).age == assoc
  {
    var z := UnionJoin(x, y, assoc);
    if UnionKeepsBounds(x, y, assoc) && z.age != assoc {
      var px, py := ArrayPath(0, x.arrays), ArrayPath(0, y.arrays);
      ArrayPathHolds(assoc, 0, x);
      ArrayPathHolds(assoc, 0, y);
      assert BoundHolds(NoLines(assoc), px, 0, z) && BoundHolds(NoLines(assoc), py, 0, z);
      forall v ensures x.arrays[v] == y.arrays[v] {
        assert z.arrays[v] <= CountSince(px, 0, v) && z.arrays[v] <= CountSince(py, 0, v);
      }
    }
    if x.arrays == y.arrays {
      JoinsCoincide(x, y, assoc);
    }
    assert x.age <= z.age && y.age <= z.age;
  }

  /** All joins of the history merge bounds with equal conflict sets. */
  ghost predicate EqualConflicts(l: Layout, h: History)
    requires l.assoc >= 1
  {
    match h
    case Start => true
    case Then(h, _) => EqualConflicts(l, h)
    case Joined(x, y) =>
      && EqualConflicts(l, x) && EqualConflicts(l, y)
      && forall u :: u in Eval(l, x, true) && u in Eval(l, y, true) ==>
           Eval(l, x, true)[u].arrays == Eval(l, y, true)[u].arrays
  }

  /** Then the uniting join computes the same states, and its runs are sound too. */
  lemma {:induction false} UnionWithEqualConflicts(l: Layout, h: History)
    requires l.assoc >= 1 && EqualConflicts(l, h)
    ensures Eval(l, h, true) == Eval(l, h, false)
  {
    match h
    case Start =>
    case Then(h', _) => UnionWithEqualConflicts(l, h');
    case Joined(x, y) =>
      UnionWithEqualConflicts(l, x);
      UnionWithEqualConflicts(l, y);
      EvalBelow(l, x, true);
      EvalBelow(l, y, true);
      var ex, ey := Eval(l, x, true), Eval(l, y, true);
      forall u | u in ex && u in ey
        ensures JoinBounds(ex[u], ey[u], true, l.assoc) == JoinBounds(ex[u], ey[u], false, l.assoc)
      {
        JoinsCoincide(ex[u], ey[u], l.assoc);
      }
      SameMap(Join(ex, ey, true, l.assoc), Join(ex, ey, false, l.assoc));
  }
}
