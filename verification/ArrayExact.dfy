/**
 Which caches the array-aware analysis is wrong about: runs of one set as runs of the cache,
 for the uniting join and for hits assumed for tags that are not listed.
 */
module ArrayCachesExact {
  import opened CacheGeometry
  import opened LruSet
  import opened Classifications
  import opened Options
  import opened CacheSelections
  import ArrayMust
  import ArrayRuns
  import ArrayHits
  import ArrayUnion
  import opened ArrayCaches

  /** A place that is known to be one line. */
  predicate IsLine(k: Cache, place: Place, i: nat, t: Tag) {
    k.fits(place) && k.select(place) == OneLine(i, t) && k.reaches(place, i, t)
  }

  /** Every line can be accessed precisely. */
  ghost predicate HasLines(k: Cache) {
    forall i: nat, t: Tag :: i < k.nSets && t >= 0 ==> SomeLine(k, i, t)
  }

  ghost predicate SomeLine(k: Cache, i: nat, t: Tag) {
    exists place :: IsLine(k, place, i, t)
  }

  ghost function LineOf(k: Cache, i: nat, t: Tag): (place: Place)
    requires HasLines(k) && i < k.nSets && t >= 0
    ensures IsLine(k, place, i, t)
  {
    assert SomeLine(k, i, t);
    var place :| IsLine(k, place, i, t);
    place
  }

  lemma ReachesThen(k: Cache, h: History, place: Place, hit: bool, c0: seq<seq<Tag>>, c: seq<seq<Tag>>, i: nat, t: Tag,
                    c': seq<seq<Tag>>)
    requires Sane(k) && Reaches(k, h, c0, c) && StepsTo(k, place, hit, c, i, t, c')
    ensures Reaches(k, Then(h, place, hit), c0, c')
  {}

  // ---------- From a set's history to one of the cache ----------

  /** The accesses of set `i`'s history, as accesses to its lines and to elements of array `v`. */
  ghost function Lift(k: Cache, i: nat, v: Array, h: ArrayRuns.History): History
    requires HasLines(k) && i < k.nSets && ArrayUnion.Plain(h, v)
  {
    match h
    case Start => Start
    case Then(h', op) =>
      if op.Precise? then Then(Lift(k, i, v, h'), LineOf(k, i, op.tag), op.hit)
      else Then(Lift(k, i, v, h'), Element(v), false)
    case Joined(x, y) => Joined(Lift(k, i, v, x), Lift(k, i, v, y))
  }

  /** An array whose accesses set `i` sees as such. */
  predicate CrossesAt(k: Cache, v: Array, i: nat) {
    Crosses(k, v) && i < k.nSets && InCycle(k.select(Element(v)).l, k.select(Element(v)).u, i)
  }

  lemma {:induction false} LiftAt(k: Cache, i: nat, v: Array, h: ArrayRuns.History)
    requires HasLines(k) && CrossesAt(k, v, i) && ArrayUnion.Plain(h, v)
    ensures Fits(k, Lift(k, i, v, h)) && HistoryAt(k, Lift(k, i, v, h), i) == h
  {
    match h
    case Start =>
    case Then(h', op) => LiftAt(k, i, v, h');
    case Joined(x, y) =>
      LiftAt(k, i, v, x);
      LiftAt(k, i, v, y);
  }

  lemma {:induction false} LiftLegal(k: Cache, i: nat, v: Array, h: ArrayRuns.History, l: Layout)
    requires Sane(k) && HasLines(k) && CrossesAt(k, v, i) && ArrayUnion.Plain(h, v)
    requires Agrees(k, i, l) && ArrayHits.Legal(l, h, true)
    ensures Fits(k, Lift(k, i, v, h)) && Legal(k, Lift(k, i, v, h), true)
  {
    LiftAt(k, i, v, h);
    match h
    case Start =>
    case Then(h', op) =>
      LiftLegal(k, i, v, h', l);
      LiftAt(k, i, v, h');
      EvalAt(k, Lift(k, i, v, h'), true, i, l);
    case Joined(x, y) =>
      LiftLegal(k, i, v, x, l);
      LiftLegal(k, i, v, y, l);
  }

  /** All the array's lines in set `i` can be accessed. */
  ghost predicate ReachesAll(k: Cache, v: Array, i: nat) {
    forall t :: t in k.lines(i)(v) ==> k.reaches(Element(v), i, t)
  }

  /** An execution of set `i` that touches it with every access is one of the cache. */
  lemma {:induction false} LiftReaches(k: Cache, i: nat, v: Array, h: ArrayRuns.History, p: seq<ArrayMust.Op>,
                                       r: ArrayMust.Resolution, l: Layout, c0: seq<seq<Tag>>)
    returns (c: seq<seq<Tag>>)
    requires Sane(k) && HasLines(k) && CrossesAt(k, v, i) && ReachesAll(k, v, i) && ArrayUnion.Plain(h, v)
    requires Agrees(k, i, l) && IsCache(k, c0) && ArrayRuns.Executes(l, h, p, r, c0[i]) && ArrayUnion.AllTouch(r)
    ensures Reaches(k, Lift(k, i, v, h), c0, c)
    ensures |c| == k.nSets && c[i] == Run(c0[i], ArrayMust.Accesses(r), k.assoc)
  {
    match h
    case Start => c := c0;
    case Then(h', op) =>
      var n := |p| - 1;
      ArrayMust.ResolvesPrefix(l, p, r, n);
      var c1 := LiftReaches(k, i, v, h', p[..n], r[..n], l, c0);
      assert ArrayMust.Resolves(l, p[n], r[n]) && CrossesOf(k)(v);
      c := Touch(k, c1, i, r[n].value);
      LastAccessed(c0[i], r, k.assoc);
      ReachesThen(k, Lift(k, i, v, h'), if op.Precise? then LineOf(k, i, op.tag) else Element(v),
        op.Precise? && op.hit, c0, c1, i, r[n].value, c);
    case Joined(x, y) =>
      if ArrayRuns.PathOf(x, p) {
        c := LiftReaches(k, i, v, x, p, r, l, c0);
      } else {
        c := LiftReaches(k, i, v, y, p, r, l, c0);
      }
  }

  lemma LastAccessed(s: seq<Tag>, r: ArrayMust.Resolution, assoc: nat)
    requires assoc >= 1 && |r| > 0
    ensures Run(s, ArrayMust.Accesses(r), assoc) ==
      After(Run(s, ArrayMust.Accesses(r[..|r| - 1]), assoc), r[|r| - 1], assoc)
  {
    assert r == r[..|r| - 1] + [r[|r| - 1]];
    ArrayMust.RunAppend(r[..|r| - 1], r[|r| - 1], s, assoc);
  }

  // ---------- The uniting join ----------

  /** An array all of whose lines in set `i`, as many as computed, are accessed leads to a wrong hit. */
  lemma UnionUnsound(k: Cache, v: Array, i: nat) returns (h: History, c0: seq<seq<Tag>>, c: seq<seq<Tag>>)
    requires Sane(k) && HasLines(k) && CrossesAt(k, v, i) && ReachesAll(k, v, i)
    requires 1 <= |k.lines(i)(v)| == k.sizes(v) && k.sizes(v) + 2 <= k.assoc
    ensures Fits(k, h) && Legal(k, h, true) && IsCache(k, c0) && Reaches(k, h, c0, c)
    ensures !RightAbout(k, Eval(k, h, true), c)
  {
    var l := LayoutAt(k, i);
    LayoutAgrees(k, i);
    var hi, p, r, u := ArrayUnion.UnionUnsound(l, v);
    c0 := seq(k.nSets, _ => []);
    c := LiftReaches(k, i, v, hi, p, r, l, c0);
    h := Lift(k, i, v, hi);
    LiftAt(k, i, v, hi);
    LiftLegal(k, i, v, hi, l);
    EvalAt(k, h, true, i, l);
    WrongAbout(k, Eval(k, h, true), c, i, u);
  }

  lemma WrongAbout(k: Cache, sets: seq<Ages>, c: seq<seq<Tag>>, i: nat, u: Tag)
    requires |sets| == |c| == k.nSets && i < k.nSets && u in sets[i] && u !in c[i]
    ensures !RightAbout(k, sets, c)
  {
    assert ArrayMust.Classify(sets[i], u, k.assoc) == Hit;
  }

  // ---------- Hits on tags that are not listed ----------

  /** In set `i`: it is full, and `x` is not in it. */
  ghost predicate FullWithout(k: Cache, c: seq<seq<Tag>>, i: nat, x: Tag) {
    && IsCache(k, c) && i < k.nSets && |c[i]| == k.assoc && x !in c[i] && forall t :: t in c[i] ==> t >= 0
  }

  /** The tags from `n` on, in every set. */
  lemma FullOfOthers(k: Cache, i: nat, n: nat, x: Tag) returns (c: seq<seq<Tag>>)
    requires i < k.nSets && x < n
    ensures FullWithout(k, c, i, x) && forall t :: t in c[i] ==> t < n + k.assoc
  {
    c := seq(k.nSets, _ => seq(k.assoc, j => n + j));
  }

  /** An access to another line keeps this. */
  lemma TouchKeepsFull(k: Cache, c: seq<seq<Tag>>, i: nat, x: Tag, j: nat, t: Tag)
    requires k.assoc >= 1 && FullWithout(k, c, i, x) && j < k.nSets && t >= 0 && (j != i || t != x)
    ensures FullWithout(k, Touch(k, c, j, t), i, x)
  {
    AccessStaysLru(c[j], t, k.assoc);
    if j == i {
      AccessedTags(c[i], t, k.assoc);
    }
  }

  lemma AccessedTags(s: seq<Tag>, t: Tag, assoc: nat)
    requires assoc >= 1 && IsLruSet(s, assoc) && |s| == assoc
    ensures |Access(s, t, assoc)| == assoc && forall x :: x in Access(s, t, assoc) ==> x == t || x in s
  {}

  /** Tag `u` is read, and then array `v` is accessed `n` times, always in line `t` of set `j`. */
  lemma {:induction false} SpendIn(k: Cache, v: Array, i: nat, u: Tag, n: nat, j: nat, t: Tag, x: Tag,
                                   c0: seq<seq<Tag>>)
    returns (h: History, c: seq<seq<Tag>>)
    requires Sane(k) && HasLines(k) && CrossesAt(k, v, i) && u >= 0 && u != x
    requires k.reaches(Element(v), j, t) && (j != i || t != x) && FullWithout(k, c0, i, x)
    ensures Fits(k, h) && Reaches(k, h, c0, c) && FullWithout(k, c, i, x)
    ensures HistoryAt(k, h, i) == ArrayHits.UseUp(u, v, n)
  {
    if n == 0 {
      c := Touch(k, c0, i, u);
      TouchKeepsFull(k, c0, i, x, i, u);
      ReachesThen(k, Start, LineOf(k, i, u), false, c0, c0, i, u, c);
      h := Then(Start, LineOf(k, i, u), false);
      assert HistoryAt(k, Start, i) == ArrayRuns.Start;
    } else {
      var h1, c1 := SpendIn(k, v, i, u, n - 1, j, t, x, c0);
      assert ReachesSelected(k, Element(v), j, t);
      c := Touch(k, c1, j, t);
      TouchKeepsFull(k, c1, i, x, j, t);
      ReachesThen(k, h1, Element(v), false, c0, c1, j, t, c);
      h := Then(h1, Element(v), false);
    }
  }

  /** In the middle of a burst of hits on other tags of set `i`. */
  ghost predicate Bursting(k: Cache, i: nat, u: Tag, x: Tag, hi: ArrayRuns.History, h: History, c0: seq<seq<Tag>>,
                           c: seq<seq<Tag>>)
  {
    && Sane(k) && Fits(k, h) && Reaches(k, h, c0, c) && FullWithout(k, c, i, x) && u in c[i]
    && ArrayHits.HitsElsewhere(hi, HistoryAt(k, h, i), u)
  }

  /** Hits on the oldest blocks until `u` is the oldest one. */
  lemma {:induction false} Burst(k: Cache, i: nat, u: Tag, x: Tag, hi: ArrayRuns.History, h: History,
                                 c0: seq<seq<Tag>>, c: seq<seq<Tag>>)
    returns (h': History, c': seq<seq<Tag>>)
    requires HasLines(k) && Bursting(k, i, u, x, hi, h, c0, c)
    ensures Bursting(k, i, u, x, hi, h', c0, c') && c'[i][k.assoc - 1] == u
    decreases k.assoc - Age(c[i], u, k.assoc)
  {
    AgesDiffer(c[i], u, u + 1, k.assoc);
    if c[i][k.assoc - 1] == u {
      h', c' := h, c;
    } else {
      h', c' := OneMoreHit(k, i, u, x, hi, h, c0, c, c[i][k.assoc - 1]);
      h', c' := Burst(k, i, u, x, hi, h', c0, c');
    }
  }

  lemma OneMoreHit(k: Cache, i: nat, u: Tag, x: Tag, hi: ArrayRuns.History, h: History, c0: seq<seq<Tag>>,
                   c: seq<seq<Tag>>, t: Tag)
    returns (h': History, c': seq<seq<Tag>>)
    requires HasLines(k) && Bursting(k, i, u, x, hi, h, c0, c) && t == c[i][k.assoc - 1] != u
    ensures Bursting(k, i, u, x, hi, h', c0, c') && Age(c'[i], u, k.assoc) == Age(c[i], u, k.assoc) + 1
  {
    assert t in c[i];
    c' := Touch(k, c, i, t);
    TouchKeepsFull(k, c, i, x, i, t);
    ArrayHits.StaysFull(c[i], u, x, k.assoc);
    ReachesThen(k, h, LineOf(k, i, t), true, c0, c, i, t, c');
    h' := Then(h, LineOf(k, i, t), true);
  }

  /**
   An array with two lines of which one can be left out, used up before a tag is given up,
   leads to a wrong hit with either join.
   */
  lemma HitUnsound(k: Cache, v: Array, i: nat, x: Tag, j: nat, t: Tag, union: bool)
    returns (h: History, c0: seq<seq<Tag>>, c: seq<seq<Tag>>)
    requires Sane(k) && HasLines(k) && CrossesAt(k, v, i) && 1 <= k.sizes(v) < k.assoc
    requires k.reaches(Element(v), i, x) && k.reaches(Element(v), j, t) && (j != i || t != x)
    ensures Fits(k, h) && IsCache(k, c0) && Reaches(k, h, c0, c) && !RightAbout(k, Eval(k, h, union), c)
  {
    assert ReachesSelected(k, Element(v), i, x);
    var n := x + 1;
    var u := n + k.assoc;
    c0 := FullOfOthers(k, i, n, x);
    h, c := SpendIn(k, v, i, u, k.sizes(v), j, t, x, c0);
    var hi := HistoryAt(k, h, i);
    UsedUpCached(k, v, i, u, h, c0, c);
    h, c := Burst(k, i, u, x, hi, h, c0, c);
    h, c := LastStraw(k, v, i, x, u, hi, h, c0, c, union);
  }

  lemma UsedUpCached(k: Cache, v: Array, i: nat, u: Tag, h: History, c0: seq<seq<Tag>>, c: seq<seq<Tag>>)
    requires Sane(k) && Fits(k, h) && CrossesAt(k, v, i) && k.sizes(v) < k.assoc
    requires HistoryAt(k, h, i) == ArrayHits.UseUp(u, v, k.sizes(v)) && IsCache(k, c0) && Reaches(k, h, c0, c)
    ensures |c| == k.nSets && u in c[i]
  {
    var l, hi := LayoutAt(k, i), HistoryAt(k, h, i);
    LayoutAgrees(k, i);
    ArrayHits.UseUpListed(l, u, v, k.sizes(v), false);
    ArrayHits.LegalIsGuarded(l, l, hi);
    var p, r := ExecutionAt(k, h, c0, c, i, l);
    ArrayRuns.RunSound(l, hi, false, p, r, c0[i], u);
  }

  /** Then the line that was left out comes in. */
  lemma LastStraw(k: Cache, v: Array, i: nat, x: Tag, u: Tag, hi: ArrayRuns.History, h: History, c0: seq<seq<Tag>>,
                  c: seq<seq<Tag>>, union: bool)
    returns (h': History, c': seq<seq<Tag>>)
    requires Bursting(k, i, u, x, hi, h, c0, c) && c[i][k.assoc - 1] == u && CrossesAt(k, v, i)
    requires k.reaches(Element(v), i, x) && 1 <= k.sizes(v) < k.assoc && hi == ArrayHits.UseUp(u, v, k.sizes(v))
    ensures Fits(k, h') && Reaches(k, h', c0, c') && !RightAbout(k, Eval(k, h', union), c')
  {
    var l := LayoutAt(k, i);
    c' := Touch(k, c, i, x);
    h' := Then(h, Element(v), false);
    ReachesThen(k, h, Element(v), false, c0, c, i, x, c');
    ArrayHits.OldestLeaves(c[i], x, k.assoc);
    LayoutAgrees(k, i);
    StillListed(l, hi, HistoryAt(k, h, i), u, v, union);
    EvalAt(k, h', union, i, l);
    WrongAbout(k, Eval(k, h', union), c', i, u);
  }

  lemma StillListed(l: Layout, hi: ArrayRuns.History, h: ArrayRuns.History, u: Tag, v: Array, union: bool)
    requires 1 <= l.perSetSize(v) < l.assoc && hi == ArrayHits.UseUp(u, v, l.perSetSize(v))
    requires ArrayHits.HitsElsewhere(hi, h, u)
    ensures u in ArrayRuns.Eval(l, ArrayRuns.Then(h, ArrayMust.ArrayAccess(v)), union)
  {
    var last := ArrayRuns.Then(h, ArrayMust.ArrayAccess(v));
    ArrayHits.UseUpListed(l, u, v, l.perSetSize(v), false);
    ArrayHits.SpentAfterHits(l, hi, h, u, v);
    ArrayHits.ArrayStaysSpent(l, h, u, v);
    ArrayHits.UseUpStraight(u, v, l.perSetSize(v));
    ArrayHits.BurstIsStraight(hi, last);
    ArrayHits.NoJoins(l, last);
  }

  // ---------- What soundness means ----------

  /** Every run that assumes hits for listed tags, from every cache, ends with right classifications. */
  ghost predicate UnionSound(k: Cache)
    requires Sane(k)
  {
    forall h, c0, c :: Fits(k, h) && Legal(k, h, true) && IsCache(k, c0) && Reaches(k, h, c0, c) ==>
      RightAbout(k, Eval(k, h, true), c)
  }

  /** So does every run whose assumed hits are true, whether the tags are listed or not. */
  ghost predicate HitSound(k: Cache, union: bool)
    requires Sane(k)
  {
    forall h, c0, c :: Fits(k, h) && IsCache(k, c0) && Reaches(k, h, c0, c) ==> RightAbout(k, Eval(k, h, union), c)
  }

  lemma AtLeastIsUnionSound(k: Cache)
    requires Sane(k) && AtLeastEach(k, k.assoc - 1)
    ensures UnionSound(k)
  {
    forall h, c0, c | Fits(k, h) && Legal(k, h, true) && IsCache(k, c0) && Reaches(k, h, c0, c)
      ensures RightAbout(k, Eval(k, h, true), c)
    {
      UnionRunSound(k, h, c0, c);
    }
  }

  lemma AtLeastIsHitSound(k: Cache, union: bool)
    requires Sane(k) && AtLeastEach(k, k.assoc)
    ensures HitSound(k, union)
  {
    forall h, c0, c | Fits(k, h) && IsCache(k, c0) && Reaches(k, h, c0, c)
      ensures RightAbout(k, Eval(k, h, union), c)
    {
      HitRunSound(k, h, union, c0, c);
    }
  }

  lemma NarrowIsUnionUnsound(k: Cache, v: Array, i: nat)
    requires Sane(k) && HasLines(k) && CrossesAt(k, v, i) && ReachesAll(k, v, i)
    requires 1 <= |k.lines(i)(v)| == k.sizes(v) && k.sizes(v) + 2 <= k.assoc
    ensures !UnionSound(k)
  {
    var h, c0, c := UnionUnsound(k, v, i);
  }

  lemma NarrowIsHitUnsound(k: Cache, v: Array, i: nat, x: Tag, j: nat, t: Tag, union: bool)
    requires Sane(k) && HasLines(k) && CrossesAt(k, v, i) && 1 <= k.sizes(v) < k.assoc
    requires k.reaches(Element(v), i, x) && k.reaches(Element(v), j, t) && (j != i || t != x)
    ensures !HitSound(k, union)
  {
    var h, c0, c := HitUnsound(k, v, i, x, j, t, union);
  }
}
