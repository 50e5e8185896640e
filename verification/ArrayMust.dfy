/**
 The array-aware must analysis of one set. Besides precise accesses it knows accesses
 to "some element of array v". Every tag carries an age bound and the multiset of array
 accesses that raised it; once an array has been counted as often as it has lines in
 the set, further accesses to it no longer raise the bound.
 */
module ArrayMust {
  import opened LruSet
  import opened Classifications
  import opened Options

  type Array = nat

  /** An age bound; `age` equals the associativity once the tag may be evicted. */
  datatype Bound = Bound(age: nat, arrays: multiset<Array>)

  type Ages = map<Tag, Bound>

  /** How many lines an array has in this set, at most, and which ones they are. */
  datatype Layout = Layout(assoc: nat, perSetSize: Array -> nat, lines: Array -> set<Tag>)

  ghost predicate LayoutValid(l: Layout) {
    l.assoc >= 1 && forall v :: |l.lines(v)| <= l.perSetSize(v)
  }

  /** The layouts agree on the arrays to keep. */
  ghost predicate SameOn(keep: Array -> bool, l: Layout, l': Layout) {
    l.assoc == l'.assoc && forall v :: keep(v) ==> l.perSetSize(v) == l'.perSetSize(v) && l.lines(v) == l'.lines(v)
  }

  /** The layout as if the other arrays had no lines here. */
  function Only(keep: Array -> bool, l: Layout): Layout {
    Layout(l.assoc, (v: Array) => if keep(v) then l.perSetSize(v) else 0,
      (v: Array) => if keep(v) then l.lines(v) else {})
  }

  lemma OnlyKept(keep: Array -> bool, l: Layout)
    ensures SameOn(keep, l, Only(keep, l)) && (LayoutValid(l) ==> LayoutValid(Only(keep, l)))
    ensures forall v :: Only(keep, l).perSetSize(v) == if keep(v) then l.perSetSize(v) else 0
  {}

  // ---------- The operations ----------

  function AgeBy(b: Bound, amount: nat, assoc: nat): Bound
    requires amount <= assoc
  {
    if b.age >= assoc - amount then Bound(assoc, multiset{}) else Bound(b.age + amount, b.arrays)
  }

  function AgeByArray(b: Bound, v: Array, perSetSize: Array -> nat, assoc: nat): Bound
    requires assoc >= 1
  {
    if b.arrays[v] < perSetSize(v) then AgeBy(Bound(b.age, b.arrays + multiset{v}), 1, assoc) else b
  }

  /** An access to some element of `arr`, or to anything when no array is known. */
  function PotentialUpdate(ages: Ages, arr: Option<Array>, perSetSize: Array -> nat, assoc: nat): Ages
    requires assoc >= 1
  {
    map u | u in ages && AgeFor(ages[u], arr, perSetSize, assoc).age != assoc :: AgeFor(ages[u], arr, perSetSize, assoc)
  }

  function AgeFor(b: Bound, arr: Option<Array>, perSetSize: Array -> nat, assoc: nat): Bound
    requires assoc >= 1
  {
    match arr case Some(v) => AgeByArray(b, v, perSetSize, assoc) case None => AgeBy(b, 1, assoc)
  }

  function AccessedAge(ages: Ages, t: Tag, hit: bool, assoc: nat): nat
    requires assoc >= 1
  {
    if t in ages then ages[t].age else if hit then assoc - 1 else assoc
  }

  function AgeBelow(b: Bound, accessed: nat, assoc: nat): Bound
    requires assoc >= 1
  {
    if b.age >= accessed then b else AgeBy(b, 1, assoc)
  }

  function Update(ages: Ages, t: Tag, hit: bool, assoc: nat): Ages
    requires assoc >= 1
  {
    var a := AccessedAge(ages, t, hit, assoc);
    map u | u in ages.Keys + {t} && (u != t ==> AgeBelow(ages[u], a, assoc).age != assoc) ::
      if u == t then Bound(0, multiset{}) else AgeBelow(ages[u], a, assoc)
  }

  function Max(x: nat, y: nat): nat {
    if x >= y then x else y
  }

  /** The join that keeps what both conflict sets have. */
  function IntersectJoin(x: Bound, y: Bound): Bound {
    Bound(Max(x.age, y.age), x.arrays * y.arrays)
  }

  /** The join that raises both bounds to a common conflict set. */
  function UnionJoin(x: Bound, y: Bound, assoc: nat): Bound {
    var age := Max(x.age + |y.arrays - x.arrays|, y.age + |x.arrays - y.arrays|);
    if age >= assoc then Bound(assoc, multiset{}) else Bound(age, x.arrays + (y.arrays - x.arrays))
  }

  function JoinBounds(x: Bound, y: Bound, union: bool, assoc: nat): Bound {
    if union then UnionJoin(x, y, assoc) else IntersectJoin(x, y)
  }

  function Join(x: Ages, y: Ages, union: bool, assoc: nat): Ages {
    map u | u in x && u in y && JoinBounds(x[u], y[u], union, assoc).age != assoc ::
      JoinBounds(x[u], y[u], union, assoc)
  }

  function Classify(ages: Ages, t: Tag, assoc: nat): Classification {
    if t in ages then Hit else if |ages| == assoc then Miss else Unknown
  }

  // ---------- Executions ----------

  datatype Op = Precise(tag: Tag, hit: bool) | ArrayAccess(v: Array) | Anywhere

  /** What each access of a path really touched in this set, if anything. */
  type Resolution = seq<Option<Tag>>

  ghost predicate Resolves(l: Layout, op: Op, x: Option<Tag>) {
    match op
    case Precise(t, _) => x == Some(t)
    case ArrayAccess(v) => x.Some? ==> x.value in l.lines(v)
    case Anywhere => true
  }

  ghost predicate ResolvesAll(l: Layout, p: seq<Op>, r: Resolution) {
    |r| == |p| && forall i :: 0 <= i < |p| ==> Resolves(l, p[i], r[i])
  }

  /** The other tags touched since the last precise access to `u`. */
  ghost function Touched(p: seq<Op>, r: Resolution, u: Tag): set<Tag>
    requires |r| == |p|
  {
    if p == [] then {}
    else
      var n := |p| - 1;
      if p[n].Precise? && p[n].tag == u then {}
      else if r[n].Some? && r[n].value != u then Touched(p[..n], r[..n], u) + {r[n].value}
      else Touched(p[..n], r[..n], u)
  }

  ghost predicate Seen(p: seq<Op>, u: Tag) {
    exists i :: 0 <= i < |p| && p[i].Precise? && p[i].tag == u
  }

  /** How many accesses to array `v` happened since the last precise access to `u`. */
  ghost function CountSince(p: seq<Op>, u: Tag, v: Array): nat {
    if p == [] then 0
    else
      var n := |p| - 1;
      if p[n].Precise? && p[n].tag == u then 0
      else CountSince(p[..n], u, v) + (if p[n] == ArrayAccess(v) then 1 else 0)
  }

  /**
   The meaning of a bound, for one path: whatever the array accesses resolve to, no more
   than `age` other tags were touched since u's last precise access; and every counted
   array access did happen since then.
   */
  ghost predicate BoundHolds(l: Layout, p: seq<Op>, u: Tag, b: Bound) {
    && Seen(p, u)
    && (forall r :: ResolvesAll(l, p, r) ==> |Touched(p, r, u)| <= b.age)
    && (forall v :: b.arrays[v] <= CountSince(p, u, v))
  }

  ghost predicate Represents(l: Layout, ages: Ages, p: seq<Op>) {
    forall u :: u in ages ==> ages[u].age < l.assoc && BoundHolds(l, p, u, ages[u])
  }

  // ---------- The rerouting argument ----------

  lemma ResolvesPrefix(l: Layout, p: seq<Op>, r: Resolution, n: nat)
    requires ResolvesAll(l, p, r) && n <= |p|
    ensures ResolvesAll(l, p[..n], r[..n])
  {}

  ghost function TouchedNext(before: set<Tag>, op: Op, x: Option<Tag>, u: Tag): set<Tag> {
    if op.Precise? && op.tag == u then {}
    else if x.Some? && x.value != u then before + {x.value}
    else before
  }

  lemma TouchedAppend(p: seq<Op>, r: Resolution, op: Op, x: Option<Tag>, u: Tag)
    requires |r| == |p|
    ensures Touched(p + [op], r + [x], u) == TouchedNext(Touched(p, r, u), op, x, u)
  {
    assert (p + [op])[..|p|] == p && (r + [x])[..|p|] == r;
  }

  lemma CountAfter(p: seq<Op>, op: Op, u: Tag, v: Array)
    ensures CountSince(p + [op], u, v) ==
      (if op.Precise? && op.tag == u then 0 else CountSince(p, u, v) + (if op == ArrayAccess(v) then 1 else 0))
  {
    assert (p + [op])[..|p|] == p;
  }

  /** An access that is not redundant leaves the surplus of accesses to the path before it. */
  lemma SurplusBefore(lines: set<Tag>, before: set<Tag>, op: Op, y: Option<Tag>, u: Tag, v: Array, count: nat)
    requires count + (if op == ArrayAccess(v) then 1 else 0) > |TouchedNext(before, op, y, u) * lines|
    requires !(op.Precise? && op.tag == u)
    requires op == ArrayAccess(v) ==> y.Some? && y.value in lines && y.value != u && y.value !in before
    ensures count > |before * lines|
  {
    SubsetSize(before * lines, TouchedNext(before, op, y, u) * lines);
    if op == ArrayAccess(v) {
      assert TouchedNext(before, op, y, u) * lines == before * lines + {y.value};
    }
  }

  /**
   If array v was accessed more often than lines of v were touched, one of these
   accesses was redundant: sending it to line `x` instead touches everything as before,
   and x as well.
   */
  lemma {:induction false} Reroute(l: Layout, p: seq<Op>, r: Resolution, u: Tag, v: Array, x: Tag)
    returns (r': Resolution)
    requires ResolvesAll(l, p, r) && x in l.lines(v) && x != u
    requires CountSince(p, u, v) > |Touched(p, r, u) * l.lines(v)|
    ensures ResolvesAll(l, p, r') && Touched(p, r, u) + {x} <= Touched(p, r', u)
  {
    var n := |p| - 1;
    var p0, r0, op, y := p[..n], r[..n], p[n], r[n];
    assert p == p0 + [op] && r == r0 + [y];
    TouchedAppend(p0, r0, op, y, u);
    CountAfter(p0, op, u, v);
    assert Resolves(l, op, y);
    if op == ArrayAccess(v) && (y.None? || y.value == u || y.value in Touched(p0, r0, u)) {
      r' := r0 + [Some(x)];
      TouchedAppend(p0, r0, op, Some(x), u);
    } else {
      SurplusBefore(l.lines(v), Touched(p0, r0, u), op, y, u, v, CountSince(p0, u, v));
      var r1 := Reroute(l, p0, r0, u, v, x);
      r' := r1 + [y];
      TouchedAppend(p0, r1, op, y, u);
    }
  }

  /** If `t` was not touched since u's last precise access, everything since then also came after t's. */
  lemma {:induction false} TouchedNested(l: Layout, p: seq<Op>, r: Resolution, t: Tag, u: Tag)
    requires ResolvesAll(l, p, r) && Seen(p, t) && Seen(p, u) && t != u && t !in Touched(p, r, u)
    ensures Touched(p, r, u) + {u} <= Touched(p, r, t)
  {
    var n := |p| - 1;
    if !(p[n].Precise? && p[n].tag == u) {
      SeenBefore(p, u);
      assert !(p[n].Precise? && p[n].tag == t);
      SeenBefore(p, t);
      ResolvesPrefix(l, p, r, n);
      TouchedNested(l, p[..n], r[..n], t, u);
    }
  }

  lemma SeenBefore(p: seq<Op>, u: Tag)
    requires Seen(p, u) && !(p[|p| - 1].Precise? && p[|p| - 1].tag == u)
    ensures Seen(p[..|p| - 1], u)
  {
    var i :| 0 <= i < |p| && p[i].Precise? && p[i].tag == u;
    assert p[..|p| - 1][i] == p[i];
  }

  lemma SeenAfter(p: seq<Op>, op: Op, u: Tag)
    requires Seen(p, u) || (op.Precise? && op.tag == u)
    ensures Seen(p + [op], u)
  {
    if Seen(p, u) {
      var i :| 0 <= i < |p| && p[i].Precise? && p[i].tag == u;
      assert (p + [op])[i] == p[i];
    } else {
      assert (p + [op])[|p|] == op;
    }
  }

  // ---------- The accesses of an execution ----------

  /** The tags really accessed in this set. */
  function Accesses(r: Resolution): seq<Tag> {
    if r == [] then [] else Accesses(r[..|r| - 1]) + (if r[|r| - 1].Some? then [r[|r| - 1].value] else [])
  }

  lemma AccessesAppend(r: Resolution, y: Option<Tag>)
    ensures Accesses(r + [y]) == Accesses(r) + (if y.Some? then [y.value] else [])
  {
    assert (r + [y])[..|r|] == r;
  }

  /** What an execution really accesses since the last precise access is touched since then. */
  lemma {:induction false} SinceTouched(l: Layout, p: seq<Op>, r: Resolution, u: Tag)
    requires ResolvesAll(l, p, r)
    ensures Since(Accesses(r), u) <= Touched(p, r, u)
  {
    if p != [] {
      var n := |p| - 1;
      assert Resolves(l, p[n], r[n]);
      ResolvesPrefix(l, p, r, n);
      SinceTouched(l, p[..n], r[..n], u);
      SinceStep(l, Accesses(r[..n]), Touched(p[..n], r[..n], u), p[n], r[n], u);
    }
  }

  lemma SinceStep(l: Layout, w: seq<Tag>, before: set<Tag>, op: Op, y: Option<Tag>, u: Tag)
    requires Resolves(l, op, y) && Since(w, u) <= before
    ensures Since(w + (if y.Some? then [y.value] else []), u) <= TouchedNext(before, op, y, u)
  {
    if y.Some? {
      SinceAppend(w, y.value, u);
    } else {
      assert w + [] == w;
    }
  }

  lemma {:induction false} SeenIsAccessed(l: Layout, p: seq<Op>, r: Resolution, u: Tag)
    requires ResolvesAll(l, p, r) && Seen(p, u)
    ensures u in Accesses(r)
  {
    var n := |p| - 1;
    assert Resolves(l, p[n], r[n]);
    if p[n].Precise? && p[n].tag == u {
      assert Accesses(r)[|Accesses(r)| - 1] == u;
    } else {
      SeenBefore(p, u);
      ResolvesPrefix(l, p, r, n);
      SeenIsAccessed(l, p[..n], r[..n], u);
    }
  }

  /** Where a hit is assumed, the tag is really cached in this execution. */
  ghost predicate TrueHits(p: seq<Op>, r: Resolution, s: seq<Tag>, assoc: nat)
    requires |r| == |p| && assoc >= 1
  {
    p == [] ||
    (TrueHits(p[..|p| - 1], r[..|p| - 1], s, assoc) &&
     (p[|p| - 1].Precise? && p[|p| - 1].hit ==> p[|p| - 1].tag in Run(s, Accesses(r[..|p| - 1]), assoc)))
  }

  lemma TrueHitsAppend(p: seq<Op>, r: Resolution, op: Op, y: Option<Tag>, s: seq<Tag>, assoc: nat)
    requires |r| == |p| && assoc >= 1
    ensures TrueHits(p + [op], r + [y], s, assoc) <==>
      TrueHits(p, r, s, assoc) && (op.Precise? && op.hit ==> op.tag in Run(s, Accesses(r), assoc))
  {
    assert (p + [op])[..|p|] == p && (r + [y])[..|p|] == r;
  }

  /** What the cache holds after one more access. */
  lemma RunAppend(r: Resolution, y: Option<Tag>, s: seq<Tag>, assoc: nat)
    requires assoc >= 1
    ensures Run(s, Accesses(r + [y]), assoc) ==
      if y.Some? then Access(Run(s, Accesses(r), assoc), y.value, assoc) else Run(s, Accesses(r), assoc)
  {
    AccessesAppend(r, y);
    if y.Some? {
      assert (Accesses(r) + [y.value])[..|Accesses(r)|] == Accesses(r);
    } else {
      assert Accesses(r) + [] == Accesses(r);
    }
  }

  /** A bound that is true of a path holds in the real cache, whatever it contained at the start. */
  lemma RealAge(l: Layout, p: seq<Op>, r: Resolution, s: seq<Tag>, u: Tag, b: Bound)
    requires l.assoc >= 1 && BoundHolds(l, p, u, b) && b.age < l.assoc
    requires ResolvesAll(l, p, r) && IsLruSet(s, l.assoc)
    ensures u in Run(s, Accesses(r), l.assoc) && Age(Run(s, Accesses(r), l.assoc), u, l.assoc) <= b.age
  {
    SinceTouched(l, p, r, u);
    SeenIsAccessed(l, p, r, u);
    SubsetSize(Since(Accesses(r), u), Touched(p, r, u));
    AgeBoundedByDistinct(s, Accesses(r), u, l.assoc);
    RunStaysLru(s, Accesses(r), l.assoc);
    AgesDiffer(Run(s, Accesses(r), l.assoc), u, u + 1, l.assoc);
  }

  // ---------- Soundness of one step ----------

  /** Splits an extended resolution into the one of the path before and the last access. */
  lemma Split(l: Layout, p: seq<Op>, op: Op, r: Resolution) returns (r0: Resolution, x: Option<Tag>)
    requires ResolvesAll(l, p + [op], r)
    ensures ResolvesAll(l, p, r0) && Resolves(l, op, x) && r == r0 + [x]
    ensures forall u :: Touched(p + [op], r, u) == TouchedNext(Touched(p, r0, u), op, x, u)
  {
    r0, x := r[..|p|], r[|p|];
    ResolvesPrefix(l, p + [op], r, |p|);
    assert (p + [op])[..|p|] == p && (p + [op])[|p|] == op;
  }

  /** Ageing by one covers any further access. */
  lemma AgeBySound(l: Layout, p: seq<Op>, op: Op, u: Tag, b: Bound, arrays: multiset<Array>)
    requires BoundHolds(l, p, u, b) && !(op.Precise? && op.tag == u)
    requires forall v :: arrays[v] <= b.arrays[v] + (if op == ArrayAccess(v) then 1 else 0)
    ensures BoundHolds(l, p + [op], u, Bound(b.age + 1, arrays))
  {
    SeenAfter(p, op, u);
    forall r | ResolvesAll(l, p + [op], r) ensures |Touched(p + [op], r, u)| <= b.age + 1 {
      var r0, x := Split(l, p, op, r);
    }
    forall v ensures arrays[v] <= CountSince(p + [op], u, v) {
      CountAfter(p, op, u, v);
    }
  }

  /** A used-up array: its further accesses leave the bound valid. */
  lemma UsedUpSound(l: Layout, p: seq<Op>, v: Array, u: Tag, b: Bound)
    requires LayoutValid(l) && BoundHolds(l, p, u, b) && b.arrays[v] >= l.perSetSize(v)
    ensures BoundHolds(l, p + [ArrayAccess(v)], u, b)
  {
    var op := ArrayAccess(v);
    SeenAfter(p, op, u);
    forall r | ResolvesAll(l, p + [op], r) ensures |Touched(p + [op], r, u)| <= b.age {
      var r0, x := Split(l, p, op, r);
      if x.Some? && x.value != u && x.value !in Touched(p, r0, u) {
        var common := Touched(p, r0, u) * l.lines(v);
        assert |common + {x.value}| == |common| + 1;
        SubsetSize(common + {x.value}, l.lines(v));
        var r' := Reroute(l, p, r0, u, v, x.value);
        SubsetSize(Touched(p, r0, u) + {x.value}, Touched(p, r', u));
      }
    }
    forall w ensures b.arrays[w] <= CountSince(p + [op], u, w) {
      CountAfter(p, op, u, w);
    }
  }

  /** A tag that is not younger than the accessed one keeps its bound. */
  lemma OlderSound(l: Layout, p: seq<Op>, t: Tag, c: Bound, hit: bool, u: Tag, b: Bound)
    requires BoundHolds(l, p, t, c) && BoundHolds(l, p, u, b) && u != t && b.age >= c.age
    ensures BoundHolds(l, p + [Precise(t, hit)], u, b)
  {
    var op := Precise(t, hit);
    SeenAfter(p, op, u);
    forall r | ResolvesAll(l, p + [op], r) ensures |Touched(p + [op], r, u)| <= b.age {
      var r0, x := Split(l, p, op, r);
      NestedSize(l, p, r0, t, u, c.age, b.age);
    }
    forall v ensures b.arrays[v] <= CountSince(p + [op], u, v) {
      CountAfter(p, op, u, v);
    }
  }

  /** An access to a tag with no larger bound does not exceed the bound. */
  lemma NestedSize(l: Layout, p: seq<Op>, r: Resolution, t: Tag, u: Tag, tAge: nat, uAge: nat)
    requires ResolvesAll(l, p, r) && Seen(p, t) && Seen(p, u) && t != u
    requires |Touched(p, r, t)| <= tAge <= uAge && |Touched(p, r, u)| <= uAge
    ensures |Touched(p, r, u) + {t}| <= uAge
  {
    if t in Touched(p, r, u) {
      assert Touched(p, r, u) + {t} == Touched(p, r, u);
    } else {
      TouchedNested(l, p, r, t, u);
      NotTouchedItself(p, r, u);
      SubsetSize(Touched(p, r, u) + {u}, Touched(p, r, t));
    }
  }

  lemma NotTouchedItself(p: seq<Op>, r: Resolution, u: Tag)
    requires |r| == |p|
    ensures u !in Touched(p, r, u)
  {
    if p != [] {
      NotTouchedItself(p[..|p| - 1], r[..|p| - 1], u);
    }
  }

  lemma FreshSound(l: Layout, p: seq<Op>, t: Tag, hit: bool)
    ensures BoundHolds(l, p + [Precise(t, hit)], t, Bound(0, multiset{}))
  {
    var op := Precise(t, hit);
    SeenAfter(p, op, t);
    forall r | ResolvesAll(l, p + [op], r) ensures |Touched(p + [op], r, t)| <= 0 {
      var _, _ := Split(l, p, op, r);
    }
  }

  /** An array with lines in this set that has been counted as often as it has lines. */
  predicate UsedUp(b: Bound, v: Array, perSetSize: Array -> nat) {
    0 < perSetSize(v) <= b.arrays[v]
  }

  /** No listed tag has used an array up. */
  ghost predicate NoneUsedUp(ages: Ages, perSetSize: Array -> nat) {
    forall u, v :: u in ages ==> !UsedUp(ages[u], v, perSetSize)
  }

  /** A bound at the limit of which only the execution at hand knows that the tag is still cached. */
  ghost predicate Loose(b: Bound, u: Tag, end: seq<Tag>, assoc: nat) {
    b.age == assoc - 1 && u in end
  }

  /**
   The meaning of the ages for one execution. Bounds are true for all resolutions, or loose:
   after true assumed hits a tag may have seen more than its bound tells and still be cached.
   While there are loose bounds, no array may be used up.
   */
  ghost predicate Holds(l: Layout, ages: Ages, p: seq<Op>, r: Resolution, s: seq<Tag>)
    requires l.assoc >= 1
  {
    var end := Run(s, Accesses(r), l.assoc);
    && (forall u :: u in ages ==> ages[u].age < l.assoc)
    && (forall u :: u in ages ==> BoundHolds(l, p, u, ages[u]) || Loose(ages[u], u, end, l.assoc))
    && (Represents(l, ages, p) || NoneUsedUp(ages, l.perSetSize))
  }

  /** Where a hit may be assumed: for a listed tag, or while no array is used up. */
  ghost predicate CanAssume(ages: Ages, t: Tag, hit: bool, perSetSize: Array -> nat) {
    hit ==> t in ages || NoneUsedUp(ages, perSetSize)
  }

  /** An access to a cached tag evicts nothing. */
  lemma HitKeeps(s: seq<Tag>, t: Tag, u: Tag, assoc: nat)
    requires assoc >= 1 && IsLruSet(s, assoc) && t in s && u in s
    ensures u in Access(s, t, assoc)
  {
    AccessAges(s, t, assoc);
    AccessStaysLru(s, t, assoc);
    AgesDiffer(s, t, t + 1, assoc);
    AgesDiffer(s, u, if u == t then t + 1 else t, assoc);
    AgesDiffer(Access(s, t, assoc), u, u + 1, assoc);
  }

  lemma ListedAreCached(l: Layout, ages: Ages, p: seq<Op>, r: Resolution, s: seq<Tag>, u: Tag)
    requires l.assoc >= 1 && Holds(l, ages, p, r, s) && ResolvesAll(l, p, r) && IsLruSet(s, l.assoc) && u in ages
    ensures var end := Run(s, Accesses(r), l.assoc);
      IsLruSet(end, l.assoc) && u in end && Age(end, u, l.assoc) <= ages[u].age
  {
    RunStaysLru(s, Accesses(r), l.assoc);
    AgesDiffer(Run(s, Accesses(r), l.assoc), u, u + 1, l.assoc);
    if BoundHolds(l, p, u, ages[u]) {
      RealAge(l, p, r, s, u, ages[u]);
    }
  }

  /** What a precise access does to the bound of another tag that stays listed. */
  lemma OtherAfterUpdate(l: Layout, ages: Ages, p: seq<Op>, r: Resolution, s: seq<Tag>, t: Tag, hit: bool, u: Tag)
    requires LayoutValid(l) && Holds(l, ages, p, r, s) && ResolvesAll(l, p, r) && IsLruSet(s, l.assoc)
    requires hit ==> t in Run(s, Accesses(r), l.assoc)
    requires u != t && u in Update(ages, t, hit, l.assoc)
    ensures var b := Update(ages, t, hit, l.assoc)[u];
      && b.age < l.assoc && b.arrays == ages[u].arrays
      && (BoundHolds(l, p + [Precise(t, hit)], u, b) ||
          Loose(b, u, Access(Run(s, Accesses(r), l.assoc), t, l.assoc), l.assoc))
    ensures Represents(l, ages, p) && (hit ==> t in ages) ==>
      BoundHolds(l, p + [Precise(t, hit)], u, Update(ages, t, hit, l.assoc)[u])
  {
    var a := AccessedAge(ages, t, hit, l.assoc);
    if ages[u].age < a {
      if BoundHolds(l, p, u, ages[u]) {
        AgeBySound(l, p, Precise(t, hit), u, ages[u], ages[u].arrays);
      }
    } else {
      if t in ages && BoundHolds(l, p, t, ages[t]) && BoundHolds(l, p, u, ages[u]) {
        OlderSound(l, p, t, ages[t], hit, u, ages[u]);
      }
      if ages[u].age == l.assoc - 1 {
        if t in ages {
          ListedAreCached(l, ages, p, r, s, t);
        }
        ListedAreCached(l, ages, p, r, s, u);
        HitKeeps(Run(s, Accesses(r), l.assoc), t, u, l.assoc);
      }
    }
  }

  /** A precise access, with or without a true assumed hit. */
  lemma UpdateSound(l: Layout, ages: Ages, p: seq<Op>, r: Resolution, s: seq<Tag>, t: Tag, hit: bool)
    requires LayoutValid(l) && Holds(l, ages, p, r, s) && ResolvesAll(l, p, r) && IsLruSet(s, l.assoc)
    requires hit ==> t in Run(s, Accesses(r), l.assoc)
    requires CanAssume(ages, t, hit, l.perSetSize)
    ensures Holds(l, Update(ages, t, hit, l.assoc), p + [Precise(t, hit)], r + [Some(t)], s)
  {
    var ages' := Update(ages, t, hit, l.assoc);
    RunAppend(r, Some(t), s, l.assoc);
    FreshSound(l, p, t, hit);
    forall u | u in ages' && u != t
      ensures ages'[u].age < l.assoc && ages'[u].arrays == ages[u].arrays
      ensures BoundHolds(l, p + [Precise(t, hit)], u, ages'[u]) ||
              Loose(ages'[u], u, Run(s, Accesses(r + [Some(t)]), l.assoc), l.assoc)
      ensures Represents(l, ages, p) && (hit ==> t in ages) ==> BoundHolds(l, p + [Precise(t, hit)], u, ages'[u])
    {
      OtherAfterUpdate(l, ages, p, r, s, t, hit, u);
    }
    if NoneUsedUp(ages, l.perSetSize) {
      forall u, v | u in ages' ensures !UsedUp(ages'[u], v, l.perSetSize) {
        assert u != t ==> !UsedUp(ages[u], v, l.perSetSize);
      }
    }
  }

  function OpFor(arr: Option<Array>): Op {
    match arr case Some(v) => ArrayAccess(v) case None => Anywhere
  }
}
