/**
 The array-aware must analysis when hits are assumed for tags it does not list, as its
 callers do where they follow a hit and a miss separately: when that is sound, and when not.
 */
module ArrayHits {
  import opened LruSet
  import opened Options
  import opened ArrayMust
  import opened ArrayRuns

  // ---------- Hits assumed for listed tags ----------

  /** Hits are assumed for listed tags only. */
  ghost predicate Legal(l: Layout, h: History, union: bool)
    requires l.assoc >= 1
  {
    match h
    case Start => true
    case Then(h, op) => Legal(l, h, union) && (op.Precise? && op.hit ==> op.tag in Eval(l, h, union))
    case Joined(x, y) => Legal(l, x, union) && Legal(l, y, union)
  }

  lemma {:induction false} LegalIsGuarded(l: Layout, l': Layout, h: History)
    requires l.assoc == l'.assoc >= 1 && l.perSetSize == l'.perSetSize && Legal(l, h, false)
    ensures Guarded(l', h, false)
  {
    match h
    case Start =>
    case Then(h', _) =>
      LegalIsGuarded(l, l', h');
      EvalSame(l, l', h', false);
    case Joined(x, y) =>
      LegalIsGuarded(l, l', x);
      LegalIsGuarded(l, l', y);
  }

  /** Such hits are true in every execution. */
  lemma {:induction false} ListedHitsAreTrue(l: Layout, h: History, p: seq<Op>, r: Resolution, s: seq<Tag>)
    requires LayoutValid(l) && Legal(l, h, false) && PathOf(h, p) && ResolvesAll(l, p, r) && IsLruSet(s, l.assoc)
    ensures TrueHits(p, r, s, l.assoc)
  {
    match h
    case Start =>
    case Then(h', op) =>
      var n := |p| - 1;
      ResolvesPrefix(l, p, r, n);
      ListedHitsAreTrue(l, h', p[..n], r[..n], s);
      LegalIsGuarded(l, l, h');
      if op.Precise? {
        RunSound(l, h', false, p[..n], r[..n], s, op.tag);
      }
    case Joined(x, y) =>
      if PathOf(x, p) {
        ListedHitsAreTrue(l, x, p, r, s);
      } else {
        ListedHitsAreTrue(l, y, p, r, s);
      }
  }

  // ---------- Bursts of hits ----------

  /** `h` followed by accesses that are assumed to hit. */
  ghost predicate HitsAfter(h: History, h': History) {
    h' == h || (h'.Then? && h'.op.Precise? && h'.op.hit && HitsAfter(h, h'.h))
  }

  /** ... and then by accesses to arrays. */
  ghost predicate ArraysAfter(h: History, h': History) {
    HitsAfter(h, h') || (h'.Then? && h'.op.ArrayAccess? && ArraysAfter(h, h'.h))
  }

  lemma NoneUsedUpAfterHit(ages: Ages, t: Tag, perSetSize: Array -> nat, assoc: nat)
    requires assoc >= 1 && NoneUsedUp(ages, perSetSize)
    ensures NoneUsedUp(Update(ages, t, true, assoc), perSetSize)
  {
    var ages' := Update(ages, t, true, assoc);
    forall u, v | u in ages' ensures !UsedUp(ages'[u], v, perSetSize) {
      assert u != t ==> !UsedUp(ages[u], v, perSetSize);
    }
  }

  lemma {:induction false} HitsAreGuarded(l: Layout, h: History, h': History)
    requires l.assoc >= 1 && Guarded(l, h, false) && NoneUsedUp(Eval(l, h, false), l.perSetSize) && HitsAfter(h, h')
    ensures Guarded(l, h', false) && NoneUsedUp(Eval(l, h', false), l.perSetSize)
    decreases h'
  {
    if h' != h {
      HitsAreGuarded(l, h, h'.h);
      NoneUsedUpAfterHit(Eval(l, h'.h, false), h'.op.tag, l.perSetSize, l.assoc);
    }
  }

  lemma {:induction false} BurstIsGuarded(l: Layout, h: History, h': History)
    requires l.assoc >= 1 && Guarded(l, h, false) && NoneUsedUp(Eval(l, h, false), l.perSetSize) && ArraysAfter(h, h')
    ensures Guarded(l, h', false)
    decreases h'
  {
    if HitsAfter(h, h') {
      HitsAreGuarded(l, h, h');
    } else {
      BurstIsGuarded(l, h, h'.h);
    }
  }

  // ---------- Driving a tag out ----------

  lemma {:induction false} FullStays(s: seq<Tag>, w: seq<Tag>, assoc: nat)
    requires assoc >= 1 && |s| == assoc
    ensures |Run(s, w, assoc)| == assoc
  {
    if w != [] {
      FullStays(s, w[..|w| - 1], assoc);
    }
  }

  /** Accessing the oldest block makes all others older by one. */
  lemma OldestToFront(s: seq<Tag>, u: Tag, assoc: nat)
    requires assoc >= 1 && IsLruSet(s, assoc) && |s| == assoc && u in s && u != s[assoc - 1]
    ensures Age(Access(s, s[assoc - 1], assoc), u, assoc) == Age(s, u, assoc) + 1
    ensures forall x :: x in Access(s, s[assoc - 1], assoc) ==> x in s
  {
    AgeAt(s, assoc - 1, assoc);
    AccessAges(s, s[assoc - 1], assoc);
    AgesDiffer(s, u, s[assoc - 1], assoc);
  }

  lemma OldestLeaves(s: seq<Tag>, x: Tag, assoc: nat)
    requires assoc >= 1 && IsLruSet(s, assoc) && |s| == assoc && x !in s
    ensures s[assoc - 1] !in Access(s, x, assoc)
  {
    AgeAt(s, assoc - 1, assoc);
    AccessAges(s, x, assoc);
    AccessStaysLru(s, x, assoc);
    AgesDiffer(s, s[assoc - 1], x, assoc);
    AgesDiffer(Access(s, x, assoc), s[assoc - 1], x, assoc);
  }

  /** In the middle of a burst of hits on other tags: `u` is cached, line `x` is not. */
  ghost predicate Poised(l: Layout, h0: History, h: History, p: seq<Op>, r: Resolution, s: seq<Tag>, u: Tag, x: Tag) {
    && LayoutValid(l) && HitsElsewhere(h0, h, u) && Executes(l, h, p, r, s)
    && InFullSet(Run(s, Accesses(r), l.assoc), u, x, l.assoc)
  }

  /** `h` followed by accesses to other tags than `u` that are assumed to hit. */
  ghost predicate HitsElsewhere(h: History, h': History, u: Tag) {
    h' == h || (h'.Then? && h'.op.Precise? && h'.op.hit && h'.op.tag != u && HitsElsewhere(h, h'.h, u))
  }

  ghost predicate InFullSet(end: seq<Tag>, u: Tag, x: Tag, assoc: nat) {
    IsLruSet(end, assoc) && |end| == assoc && u in end && x !in end
  }

  /** A listed tag has used an array up. */
  ghost predicate Spent(l: Layout, h: History, u: Tag, v: Array)
    requires l.assoc >= 1
  {
    u in Eval(l, h, false) && UsedUp(Eval(l, h, false)[u], v, l.perSetSize)
  }

  /** An assumed hit does not change that. */
  lemma HitStaysSpent(l: Layout, h: History, u: Tag, v: Array, t: Tag)
    requires l.assoc >= 1 && Spent(l, h, u, v) && t != u
    ensures Spent(l, Then(h, Precise(t, true)), u, v)
  {
    EvalBelow(l, h, false);
    assert Eval(l, Then(h, Precise(t, true)), false) == Update(Eval(l, h, false), t, true, l.assoc);
  }

  lemma {:induction false} SpentAfterHits(l: Layout, h: History, h': History, u: Tag, v: Array)
    requires l.assoc >= 1 && Spent(l, h, u, v) && HitsElsewhere(h, h', u)
    ensures Spent(l, h', u, v) && HitsAfter(h, h')
    decreases h'
  {
    if h' != h {
      SpentAfterHits(l, h, h'.h, u, v);
      HitStaysSpent(l, h'.h, u, v, h'.op.tag);
    }
  }

  /** Nor do accesses to the array. */
  lemma ArrayStaysSpent(l: Layout, h: History, u: Tag, v: Array)
    requires l.assoc >= 1 && Spent(l, h, u, v)
    ensures Spent(l, Then(h, ArrayAccess(v)), u, v)
  {
    EvalBelow(l, h, false);
  }

  /** An access to the oldest block keeps the set full. */
  lemma StaysFull(end: seq<Tag>, u: Tag, x: Tag, assoc: nat)
    requires assoc >= 1 && InFullSet(end, u, x, assoc) && end[assoc - 1] != u
    ensures InFullSet(Access(end, end[assoc - 1], assoc), u, x, assoc)
    ensures Age(Access(end, end[assoc - 1], assoc), u, assoc) == Age(end, u, assoc) + 1
  {
    OldestToFront(end, u, assoc);
    AccessStaysLru(end, end[assoc - 1], assoc);
    AgeAt(end, assoc - 1, assoc);
    AgesDiffer(end, u, end[assoc - 1], assoc);
    AgesDiffer(Access(end, end[assoc - 1], assoc), u, u + 1, assoc);
  }

  lemma FullAfterHit(r: Resolution, s: seq<Tag>, end: seq<Tag>, u: Tag, x: Tag, assoc: nat)
    requires assoc >= 1 && end == Run(s, Accesses(r), assoc) && InFullSet(end, u, x, assoc) && end[assoc - 1] != u
    ensures InFullSet(Run(s, Accesses(r + [Some(end[assoc - 1])]), assoc), u, x, assoc)
    ensures Age(Run(s, Accesses(r + [Some(end[assoc - 1])]), assoc), u, assoc) == Age(end, u, assoc) + 1
  {
    RunAppend(r, Some(end[assoc - 1]), s, assoc);
    StaysFull(end, u, x, assoc);
  }

  /** One more true hit, on the oldest block: `u` becomes older. */
  lemma OneMoreHit(l: Layout, h0: History, h: History, p: seq<Op>, r: Resolution, s: seq<Tag>, u: Tag, x: Tag,
                   end: seq<Tag>)
    returns (h': History, p': seq<Op>, r': Resolution)
    requires Poised(l, h0, h, p, r, s, u, x) && end == Run(s, Accesses(r), l.assoc) && end[l.assoc - 1] != u
    ensures Poised(l, h0, h', p', r', s, u, x)
    ensures Age(Run(s, Accesses(r'), l.assoc), u, l.assoc) == Age(end, u, l.assoc) + 1
  {
    var t := end[l.assoc - 1];
    h', p', r' := Then(h, Precise(t, true)), p + [Precise(t, true)], r + [Some(t)];
    FullAfterHit(r, s, end, u, x, l.assoc);
    assert Executes(l, h', p', r', s) by {
      ExecutesThen(l, h, p, r, s, Precise(t, true), Some(t));
    }
  }

  lemma {:induction false} Burst(l: Layout, h0: History, h: History, p: seq<Op>, r: Resolution, s: seq<Tag>, u: Tag,
                                 x: Tag)
    returns (h': History, p': seq<Op>, r': Resolution)
    requires Poised(l, h0, h, p, r, s, u, x)
    ensures Poised(l, h0, h', p', r', s, u, x) && Run(s, Accesses(r'), l.assoc)[l.assoc - 1] == u
    decreases l.assoc - Age(Run(s, Accesses(r), l.assoc), u, l.assoc)
  {
    var end := Run(s, Accesses(r), l.assoc);
    AgesDiffer(end, u, u + 1, l.assoc);
    if end[l.assoc - 1] == u {
      h', p', r' := h, p, r;
    } else {
      h', p', r' := OneMoreHit(l, h0, h, p, r, s, u, x, end);
      h', p', r' := Burst(l, h0, h', p', r', s, u, x);
    }
  }

  /** The last access: array `v` touches line `x`, which costs `u` its place but not its entry. */
  lemma LastStraw(l: Layout, h0: History, h: History, p: seq<Op>, r: Resolution, s: seq<Tag>, u: Tag, v: Array, x: Tag)
    requires Poised(l, h0, h, p, r, s, u, x) && Run(s, Accesses(r), l.assoc)[l.assoc - 1] == u && x in l.lines(v)
    requires Spent(l, h0, u, v)
    ensures WrongHit(l, Then(h, ArrayAccess(v)), false, p + [ArrayAccess(v)], r + [Some(x)], s, u)
    ensures ArraysAfter(h0, Then(h, ArrayAccess(v)))
  {
    var op := ArrayAccess(v);
    ExecutesThen(l, h, p, r, s, op, Some(x));
    SpentAfterHits(l, h0, h, u, v);
    ArrayStaysSpent(l, h, u, v);
    OldestLeaves(Run(s, Accesses(r), l.assoc), x, l.assoc);
  }

  lemma StartPoised(l: Layout, h: History, p: seq<Op>, s: seq<Tag>, u: Tag, x: Tag)
    requires LayoutValid(l) && Guarded(l, h, false) && PathOf(h, p) && IsLruSet(s, l.assoc) && |s| == l.assoc
    requires TrueHits(p, Least(p), s, l.assoc) && u in Eval(l, h, false)
    requires forall t :: t in Run(s, Accesses(Least(p)), l.assoc) ==> t < x
    ensures Poised(l, h, h, p, Least(p), s, u, x)
  {
    LeastResolves(l, p);
    RunSound(l, h, false, p, Least(p), s, u);
    RunStaysLru(s, Accesses(Least(p)), l.assoc);
    FullStays(s, Accesses(Least(p)), l.assoc);
  }

  /** Lines for the sizes of `l`: `x` is the only one. */
  function WithLine(l: Layout, v: Array, x: Tag): Layout {
    Layout(l.assoc, l.perSetSize, (w: Array) => if w == v then {x} else {})
  }

  /**
   Where some listed tag has used up an array, true assumed hits lead to a wrong one: from
   every execution so far in a full set whose array accesses touched nothing here.
   */
  lemma UsedUpUnsound(l: Layout, h: History, p: seq<Op>, s: seq<Tag>, u: Tag, v: Array)
    returns (l': Layout, h': History, p': seq<Op>, r': Resolution)
    requires l.assoc >= 1 && Guarded(l, h, false) && PathOf(h, p) && IsLruSet(s, l.assoc) && |s| == l.assoc
    requires TrueHits(p, Least(p), s, l.assoc)
    requires l.assoc >= 1 && Spent(l, h, u, v)
    ensures l'.assoc == l.assoc && l'.perSetSize == l.perSetSize && ArraysAfter(h, h')
    ensures WrongHit(l', h', false, p', r', s, u)
  {
    var r := Least(p);
    var end := Run(s, Accesses(r), l.assoc);
    var x := AboveAll(TagSet(end));
    forall t | t in end ensures t < x {
      assert t in TagSet(end);
    }
    l' := WithLine(l, v, x);
    EvalSame(l, l', h, false);
    StartPoised(l', h, p, s, u, x);
    h', p', r' := Burst(l', h, h, p, r, s, u, x);
    LastStraw(l', h, h', p', r', s, u, v, x);
    h', p', r' := Then(h', ArrayAccess(v)), p' + [ArrayAccess(v)], r' + [Some(x)];
  }

  // ---------- Exactly when ----------

  /** From the state after `h` on, no burst of true hits and array accesses leads to a wrong hit. */
  ghost predicate BurstsSound(assoc: nat, perSetSize: Array -> nat, h: History) {
    forall l: Layout, h': History, p: seq<Op>, r: Resolution, s: seq<Tag>, u: Tag ::
      l.assoc == assoc && l.perSetSize == perSetSize && ArraysAfter(h, h') ==> !WrongHit(l, h', false, p, r, s, u)
  }

  /** That is so exactly when no listed tag has used an array up. */
  lemma BurstsSoundExactly(l: Layout, h: History)
    requires LayoutValid(l) && Legal(l, h, false)
    ensures BurstsSound(l.assoc, l.perSetSize, h) <==> NoneUsedUp(Eval(l, h, false), l.perSetSize)
  {
    var ages := Eval(l, h, false);
    if NoneUsedUp(ages, l.perSetSize) {
      forall l': Layout, h', p, r, s, u | l'.assoc == l.assoc && l'.perSetSize == l.perSetSize && ArraysAfter(h, h')
        ensures !WrongHit(l', h', false, p, r, s, u)
      {
        LegalIsGuarded(l, l', h);
        EvalSame(l, l', h, false);
        BurstIsGuarded(l', h, h');
        if WrongHit(l', h', false, p, r, s, u) {
          RunSound(l', h', false, p, r, s, u);
        }
      }
    } else {
      var u, v :| u in ages && UsedUp(ages[u], v, l.perSetSize);
      var l', h', p', r', s := UsedUpIsReached(l, h, u, v);
      assert WrongHit(l', h', false, p', r', s, u);
    }
  }

  function FullSet(assoc: nat): seq<Tag> {
    seq(assoc, i => i)
  }

  lemma UsedUpIsReached(l: Layout, h: History, u: Tag, v: Array)
    returns (l': Layout, h': History, p': seq<Op>, r': Resolution, s: seq<Tag>)
    requires LayoutValid(l) && Legal(l, h, false)
    requires l.assoc >= 1 && Spent(l, h, u, v)
    ensures l'.assoc == l.assoc && l'.perSetSize == l.perSetSize && ArraysAfter(h, h')
    ensures WrongHit(l', h', false, p', r', s, u)
  {
    var p := SomePath(h);
    s := FullSet(l.assoc);
    LeastResolves(l, p);
    LegalIsGuarded(l, l, h);
    ListedHitsAreTrue(l, h, p, Least(p), s);
    l', h', p', r' := UsedUpUnsound(l, h, p, s, u, v);
  }

  /** No run with true assumed hits leads to a wrong hit, whatever the arrays' lines are. */
  ghost predicate AllRunsSound(assoc: nat, perSetSize: Array -> nat, union: bool) {
    forall l: Layout, h: History, p: seq<Op>, r: Resolution, s: seq<Tag>, u: Tag ::
      l.assoc == assoc && l.perSetSize == perSetSize ==> !WrongHit(l, h, union, p, r, s, u)
  }

  /** No array can be used up before the tag is given up. */
  ghost predicate NeverUsedUp(assoc: nat, perSetSize: Array -> nat) {
    forall v :: perSetSize(v) == 0 || perSetSize(v) >= assoc
  }

  /** An upper bound of the real age in this execution, raised once for every counted array access. */
  ghost predicate RealBound(b: Bound, u: Tag, s: seq<Tag>, assoc: nat) {
    |b.arrays| <= b.age < assoc && Age(s, u, assoc) <= b.age
  }

  /** The ages as a classical must analysis: upper bounds of the real ages of this execution. */
  ghost predicate Real(ages: Ages, s: seq<Tag>, assoc: nat) {
    IsLruSet(s, assoc) && forall u :: u in ages ==> RealBound(ages[u], u, s, assoc)
  }

  lemma CachedByAge(s: seq<Tag>, u: Tag, assoc: nat)
    requires IsLruSet(s, assoc)
    ensures u in s <==> Age(s, u, assoc) < assoc
  {
    AgesDiffer(s, u, u + 1, assoc);
  }

  lemma RealOther(ages: Ages, s: seq<Tag>, t: Tag, hit: bool, u: Tag, b: Bound, assoc: nat)
    requires assoc >= 1 && IsLruSet(s, assoc) && RealBound(b, u, s, assoc) && u != t && (hit ==> t in s)
    requires t in ages ==> RealBound(ages[t], t, s, assoc)
    requires AgeBelow(b, AccessedAge(ages, t, hit, assoc), assoc).age != assoc
    ensures RealBound(AgeBelow(b, AccessedAge(ages, t, hit, assoc), assoc), u, Access(s, t, assoc), assoc)
  {
    AccessAges(s, t, assoc);
    CachedByAge(s, t, assoc);
    AgesDiffer(s, u, t, assoc);
  }

  lemma RealAfterUpdate(ages: Ages, s: seq<Tag>, t: Tag, hit: bool, assoc: nat)
    requires assoc >= 1 && Real(ages, s, assoc) && (hit ==> t in s)
    ensures Real(Update(ages, t, hit, assoc), Access(s, t, assoc), assoc)
  {
    var ages' := Update(ages, t, hit, assoc);
    AccessAges(s, t, assoc);
    forall u | u in ages' ensures RealBound(ages'[u], u, Access(s, t, assoc), assoc) {
      if u != t {
        RealOther(ages, s, t, hit, u, ages[u], assoc);
      }
    }
  }

  lemma RealAfterPotential(l: Layout, ages: Ages, s: seq<Tag>, arr: Option<Array>, x: Option<Tag>)
    requires LayoutValid(l) && NeverUsedUp(l.assoc, l.perSetSize) && Real(ages, s, l.assoc)
    requires Resolves(l, OpFor(arr), x)
    ensures Real(PotentialUpdate(ages, arr, l.perSetSize, l.assoc),
      if x.Some? then Access(s, x.value, l.assoc) else s, l.assoc)
  {
    var s' := if x.Some? then Access(s, x.value, l.assoc) else s;
    if x.Some? {
      AccessAges(s, x.value, l.assoc);
      AccessStaysLru(s, x.value, l.assoc);
    }
    var ages' := PotentialUpdate(ages, arr, l.perSetSize, l.assoc);
    forall u | u in ages'
      ensures RealBound(ages'[u], u, s', l.assoc)
    {
      if x.Some? {
        AgesDiffer(s, u, if u == x.value then u + 1 else x.value, l.assoc);
      }
      RealEntry(l, ages[u], arr, x);
    }
  }

  /** An entry that stays is aged by one, or the array has no lines here. */
  lemma RealEntry(l: Layout, b: Bound, arr: Option<Array>, x: Option<Tag>)
    requires LayoutValid(l) && NeverUsedUp(l.assoc, l.perSetSize) && Resolves(l, OpFor(arr), x)
    requires |b.arrays| <= b.age < l.assoc && AgeFor(b, arr, l.perSetSize, l.assoc).age != l.assoc
    ensures var b' := AgeFor(b, arr, l.perSetSize, l.assoc);
      (b'.age == b.age + 1 < l.assoc && |b'.arrays| <= |b.arrays| + 1) || (b' == b && x.None?)
  {
    if arr.Some? {
      var v := arr.value;
      CountedOnce(b.arrays, v);
      assert x.Some? ==> x.value in l.lines(v) && |l.lines(v)| > 0;
      assert l.perSetSize(v) == 0 || l.perSetSize(v) >= l.assoc;
    }
  }

  lemma CountedOnce(arrays: multiset<Array>, v: Array)
    ensures arrays[v] <= |arrays|
  {
    assert arrays == (arrays - multiset{}[v := arrays[v]]) + multiset{}[v := arrays[v]];
  }

  lemma RealAfterJoin(x: Ages, y: Ages, union: bool, s: seq<Tag>, assoc: nat)
    requires Real(x, s, assoc) || Real(y, s, assoc)
    requires forall u :: u in x ==> |x[u].arrays| <= x[u].age < assoc
    requires forall u :: u in y ==> |y[u].arrays| <= y[u].age < assoc
    ensures Real(Join(x, y, union, assoc), s, assoc)
  {
    var z := Join(x, y, union, assoc);
    forall u | u in z ensures |z[u].arrays| <= z[u].age < assoc && x[u].age <= z[u].age && y[u].age <= z[u].age {
      JoinSizes(x[u], y[u], union, assoc);
    }
  }

  lemma JoinSizes(x: Bound, y: Bound, union: bool, assoc: nat)
    requires |x.arrays| <= x.age < assoc && |y.arrays| <= y.age < assoc
    ensures var z := JoinBounds(x, y, union, assoc);
      z.age <= assoc && (z.age < assoc ==> |z.arrays| <= z.age && x.age <= z.age && y.age <= z.age)
  {
    assert x.arrays == (x.arrays * y.arrays) + (x.arrays - y.arrays);
  }

  lemma {:induction false} EntrySizes(l: Layout, h: History, union: bool)
    requires l.assoc >= 1
    ensures forall u :: u in Eval(l, h, union) ==> |Eval(l, h, union)[u].arrays| <= Eval(l, h, union)[u].age < l.assoc
  {
    EvalBelow(l, h, union);
    match h
    case Start =>
    case Then(h', op) => EntrySizes(l, h', union);
    case Joined(x, y) =>
      EntrySizes(l, x, union);
      EntrySizes(l, y, union);
      var ex, ey, e := Eval(l, x, union), Eval(l, y, union), Eval(l, h, union);
      forall u | u in e ensures |e[u].arrays| <= e[u].age {
        JoinSizes(ex[u], ey[u], union, l.assoc);
      }
  }

  /** So a listed tag is cached. */
  lemma RealMeansCached(l: Layout, h: History, union: bool, p: seq<Op>, r: Resolution, s: seq<Tag>, u: Tag)
    requires LayoutValid(l) && NeverUsedUp(l.assoc, l.perSetSize) && PathOf(h, p) && ResolvesAll(l, p, r)
    requires IsLruSet(s, l.assoc) && TrueHits(p, r, s, l.assoc) && u in Eval(l, h, union)
    ensures u in Run(s, Accesses(r), l.assoc)
  {
    RunIsReal(l, h, union, p, r, s);
    CachedByAge(Run(s, Accesses(r), l.assoc), u, l.assoc);
  }

  lemma {:induction false} RunIsReal(l: Layout, h: History, union: bool, p: seq<Op>, r: Resolution, s: seq<Tag>)
    requires LayoutValid(l) && NeverUsedUp(l.assoc, l.perSetSize) && PathOf(h, p) && ResolvesAll(l, p, r)
    requires IsLruSet(s, l.assoc) && TrueHits(p, r, s, l.assoc)
    ensures Real(Eval(l, h, union), Run(s, Accesses(r), l.assoc), l.assoc)
  {
    match h
    case Start =>
    case Then(h', op) =>
      var n := |p| - 1;
      var r0, ages := r[..n], Eval(l, h', union);
      var end := Run(s, Accesses(r0), l.assoc);
      assert r == r0 + [r[n]] && Resolves(l, p[n], r[n]);
      ResolvesPrefix(l, p, r, n);
      RunIsReal(l, h', union, p[..n], r0, s);
      RunAppend(r0, r[n], s, l.assoc);
      match op {
        case Precise(t, hit) => RealAfterUpdate(ages, end, t, hit, l.assoc);
        case ArrayAccess(v) => RealAfterPotential(l, ages, end, Some(v), r[n]);
        case Anywhere => RealAfterPotential(l, ages, end, None, r[n]);
      }
    case Joined(x, y) =>
      EntrySizes(l, x, union);
      EntrySizes(l, y, union);
      if PathOf(x, p) {
        RunIsReal(l, x, union, p, r, s);
      } else {
        RunIsReal(l, y, union, p, r, s);
      }
      RealAfterJoin(Eval(l, x, union), Eval(l, y, union), union, Run(s, Accesses(r), l.assoc), l.assoc);
  }

  /** An access to tag `u` and `k` accesses to array `v`. */
  function UseUp(u: Tag, v: Array, k: nat): History {
    if k == 0 then Then(Start, Precise(u, false)) else Then(UseUp(u, v, k - 1), ArrayAccess(v))
  }

  lemma {:induction false} UseUpListed(l: Layout, u: Tag, v: Array, k: nat, union: bool)
    requires k <= l.perSetSize(v) && k < l.assoc
    ensures u in Eval(l, UseUp(u, v, k), union)
    ensures Eval(l, UseUp(u, v, k), union)[u].age == k && Eval(l, UseUp(u, v, k), union)[u].arrays[v] == k
    ensures Legal(l, UseUp(u, v, k), union)
  {
    if k > 0 {
      UseUpListed(l, u, v, k - 1, union);
    }
  }

  lemma {:induction false} NoJoins(l: Layout, h: History)
    requires l.assoc >= 1 && Straight(h)
    ensures Eval(l, h, true) == Eval(l, h, false)
  {
    if h.Then? {
      NoJoins(l, h.h);
    }
  }

  /** A history without joins. */
  predicate Straight(h: History) {
    h.Start? || (h.Then? && Straight(h.h))
  }

  lemma {:induction false} BurstIsStraight(h: History, h': History)
    requires Straight(h) && ArraysAfter(h, h')
    ensures Straight(h')
    decreases h'
  {
    if h' != h {
      BurstIsStraight(h, h'.h);
    }
  }

  lemma UseUpStraight(u: Tag, v: Array, k: nat)
    ensures Straight(UseUp(u, v, k))
  {
    if k > 0 {
      UseUpStraight(u, v, k - 1);
    }
  }

  /**
   With true assumed hits for tags that are not listed, the analysis is right about all runs,
   with either join, exactly if no array has lines here but fewer than there are ways.
   */
  lemma AllRunsSoundExactly(assoc: nat, perSetSize: Array -> nat, union: bool)
    requires assoc >= 1
    ensures AllRunsSound(assoc, perSetSize, union) <==> NeverUsedUp(assoc, perSetSize)
  {
    if NeverUsedUp(assoc, perSetSize) {
      forall l: Layout, h, p, r, s, u | l.assoc == assoc && l.perSetSize == perSetSize
        ensures !WrongHit(l, h, union, p, r, s, u)
      {
        if WrongHit(l, h, union, p, r, s, u) {
          RealMeansCached(l, h, union, p, r, s, u);
        }
      }
    } else {
      var v :| 0 < perSetSize(v) < assoc;
      var l := Layout(assoc, perSetSize, (w: Array) => {});
      var h := UseUp(0, v, perSetSize(v));
      UseUpListed(l, 0, v, perSetSize(v), false);
      UseUpStraight(0, v, perSetSize(v));
      var l', h', p', r', s := UsedUpIsReached(l, h, 0, v);
      BurstIsStraight(h, h');
      NoJoins(l', h');
      assert WrongHit(l', h', union, p', r', s, 0);
    }
  }

  // ---------- An example: three ways, one array with one line ----------

  function SmallLayout(): Layout {
    Layout(3, v => 1, v => {10})
  }

  /** An execution that has reached cache contents `end`. */
  ghost predicate At(l: Layout, h: History, p: seq<Op>, r: Resolution, s: seq<Tag>, end: seq<Tag>) {
    l.assoc >= 1 && Executes(l, h, p, r, s) && Run(s, Accesses(r), l.assoc) == end
  }

  lemma MissOfThree(s: seq<Tag>, t: Tag)
    requires |s| == 3 && t !in s
    ensures Access(s, t, 3) == [t, s[0], s[1]]
  {
    assert [t] + s[..2] == [t, s[0], s[1]];
  }

  lemma HitsOfThree(a: Tag, b: Tag, c: Tag)
    requires a != b && b != c && a != c
    ensures Access([a, b, c], b, 3) == [b, a, c] && Access([a, b, c], c, 3) == [c, a, b]
  {
    var s := [a, b, c];
    assert s[1] == b && s[2] == c;
    assert IndexOf(s, b) == 1 && IndexOf(s, c) == 2;
    assert [b] + s[..1] + s[2..] == [b, a, c];
    assert [c] + s[..2] + s[3..] == [c, a, b];
  }

  /** A tag is read, and array 0 accessed, but none of its lines: the tag has used it up. */
  lemma ReadAndArray(l: Layout, s: seq<Tag>, t: Tag) returns (h: History)
    requires l == SmallLayout() && IsLruSet(s, 3)
    ensures At(l, h, [Precise(t, false)] + [ArrayAccess(0)], [Some(t)] + [None], s, Access(s, t, 3))
    ensures Spent(l, h, t, 0)
  {
    var read := Precise(t, false);
    ExecutesThen(l, Start, [], [], s, read, Some(t));
    assert [] + [read] == [read] && [] + [Some(t)] == [Some(t)];
    ExecutesThen(l, Then(Start, read), [read], [Some(t)], s, ArrayAccess(0), None);
    h := Then(Then(Start, read), ArrayAccess(0));
    ReadThenArray(l, t);
  }

  lemma ReadThenArray(l: Layout, t: Tag)
    requires l == SmallLayout()
    ensures Spent(l, Then(Then(Start, Precise(t, false)), ArrayAccess(0)), t, 0)
  {
    var e := Eval(l, Then(Start, Precise(t, false)), false);
    assert e == Update(Eval(l, Start, false), t, false, 3);
    assert e[t] == Bound(0, multiset{});
    assert Eval(l, Then(Then(Start, Precise(t, false)), ArrayAccess(0)), false) ==
           PotentialUpdate(e, Some(0), l.perSetSize, 3);
  }

  /** Two true hits, on the middle block and on the oldest one: tag 0 is the oldest then. */
  lemma TwoHits(l: Layout, h: History, p: seq<Op>, r: Resolution, s: seq<Tag>, a: Tag, b: Tag) returns (h': History)
    requires l.assoc == 3 && At(l, h, p, r, s, [0, a, b]) && Spent(l, h, 0, 0)
    requires a != 0 && b != 0 && a != b
    ensures At(l, h', p + [Precise(a, true)] + [Precise(b, true)], r + [Some(a)] + [Some(b)], s, [b, a, 0])
    ensures Spent(l, h', 0, 0)
  {
    var h1 := Then(h, Precise(a, true));
    HitsOfThree(0, a, b);
    HitStaysSpent(l, h, 0, 0, a);
    ExecutesThen(l, h, p, r, s, Precise(a, true), Some(a));
    HitsOfThree(a, 0, b);
    HitStaysSpent(l, h1, 0, 0, b);
    ExecutesThen(l, h1, p + [Precise(a, true)], r + [Some(a)], s, Precise(b, true), Some(b));
    h' := Then(h1, Precise(b, true));
  }

  /** Three ways, one array with one line: two true hits on tags that are not listed, then that line. */
  lemma UnlistedHitsUnsound() returns (l: Layout, h: History, p: seq<Op>, r: Resolution)
    ensures l.assoc == 3 && l.perSetSize(0) == 1 && l.lines(0) == {10}
    ensures p == [Precise(0, false)] + [ArrayAccess(0)] + [Precise(5, true)] + [Precise(12, true)] + [ArrayAccess(0)]
    ensures r == [Some(0)] + [None] + [Some(5)] + [Some(12)] + [Some(10)]
    ensures Run([5, 12, 7], Accesses(r), 3) == [10, 12, 5]
    ensures WrongHit(l, h, false, p, r, [5, 12, 7], 0)
  {
    l := SmallLayout();
    MissOfThree([5, 12, 7], 0);
    h := ReadAndArray(l, [5, 12, 7], 0);
    p, r := [Precise(0, false)] + [ArrayAccess(0)], [Some(0)] + [None];
    h := TwoHits(l, h, p, r, [5, 12, 7], 5, 12);
    p, r := p + [Precise(5, true)] + [Precise(12, true)], r + [Some(5)] + [Some(12)];
    MissOfThree([12, 5, 0], 10);
    ArrayStaysSpent(l, h, 0, 0);
    ExecutesThen(l, h, p, r, [5, 12, 7], ArrayAccess(0), Some(10));
    h, p, r := Then(h, ArrayAccess(0)), p + [ArrayAccess(0)], r + [Some(10)];
  }
}
