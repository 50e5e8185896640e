/**
 The must analysis of one LRU set: an upper bound on the age of every tag that is
 certainly cached.
 */
module MustCache {
  import opened LruSet
  import opened AgeList
  import opened Classifications

  /** The concrete sets a must state stands for. */
  ghost predicate MustHolds(m: Bounds, s: seq<Tag>, assoc: nat) {
    forall u :: u in m ==> Age(s, u, assoc) <= m[u]
  }

  function AtMost(m: Bounds, k: nat): set<Tag> {
    set u | u in m && m[u] <= k
  }

  /** Bounds below `assoc`, and never more tags bounded by k than positions up to k. */
  ghost predicate MustValid(m: Bounds, assoc: nat) {
    && (forall u :: u in m ==> m[u] < assoc)
    && (forall k: nat :: |AtMost(m, k)| <= k + 1)
  }

  function AccessedAge(m: Bounds, t: Tag, hit: bool, assoc: nat): nat
    requires assoc >= 1
  {
    if t in m then m[t] else if hit then assoc - 1 else assoc
  }

  function MustUpdate(m: Bounds, t: Tag, hit: bool, assoc: nat): Bounds
    requires assoc >= 1
  {
    var a := AccessedAge(m, t, hit, assoc);
    map u | u in m.Keys + {t} && (u != t ==> Aged(m[u], a) < assoc) :: if u == t then 0 else Aged(m[u], a)
  }

  function MustAgeAll(m: Bounds, assoc: nat): Bounds {
    map u | u in m && m[u] + 1 < assoc :: m[u] + 1
  }

  function MustJoin(x: Bounds, y: Bounds): Bounds {
    map u | u in x && u in y :: if x[u] >= y[u] then x[u] else y[u]
  }

  ghost predicate MustLeq(x: Bounds, y: Bounds) {
    forall u :: u in y ==> u in x && x[u] <= y[u]
  }

  function MustClassify(m: Bounds, t: Tag, assoc: nat): Classification {
    if t in m then Hit else if |m| == assoc then Miss else Unknown
  }

  /** The update may assume a hit only while there is room for the tag. */
  ghost predicate MustCanAssume(m: Bounds, t: Tag, hit: bool, assoc: nat) {
    hit && t !in m ==> |m| < assoc
  }

  // ---------- Soundness ----------

  lemma MustUpdateSound(m: Bounds, s: seq<Tag>, t: Tag, hit: bool, assoc: nat)
    requires assoc >= 1 && IsLruSet(s, assoc) && MustHolds(m, s, assoc)
    requires hit ==> t in s
    ensures MustHolds(MustUpdate(m, t, hit, assoc), Access(s, t, assoc), assoc)
  {
    AccessAges(s, t, assoc);
    AgesDiffer(s, t, t + 1, assoc);
    forall u | u in MustUpdate(m, t, hit, assoc)
      ensures Age(Access(s, t, assoc), u, assoc) <= MustUpdate(m, t, hit, assoc)[u]
    {
      AgesDiffer(s, u, u + 1, assoc);
    }
  }

  /** `after` is right after every access to `t` of which the assumption is true. */
  ghost predicate AccessCovered(before: Bounds, after: Bounds, t: Tag, assumption: Classification, level: int,
                                assoc: nat)
    requires assoc >= 1
  {
    forall s :: IsLruSet(s, assoc) && MustHolds(before, s, assoc) && AssumptionHolds(assumption, level, t in s) ==>
      MustHolds(after, Access(s, t, assoc), assoc)
  }

  lemma UpdateCovers(m: Bounds, t: Tag, assumption: Classification, level: int, assoc: nat)
    requires assoc >= 1
    ensures AccessCovered(m, MustUpdate(m, t, AssumesHit(assumption, level), assoc), t, assumption, level, assoc)
  {
    forall s | IsLruSet(s, assoc) && MustHolds(m, s, assoc) && AssumptionHolds(assumption, level, t in s)
      ensures MustHolds(MustUpdate(m, t, AssumesHit(assumption, level), assoc), Access(s, t, assoc), assoc)
    {
      MustUpdateSound(m, s, t, AssumesHit(assumption, level), assoc);
    }
  }

  /** Ageing everything covers an access to any tag, and no access at all. */
  lemma MustAgeAllSound(m: Bounds, s: seq<Tag>, t: Tag, assoc: nat)
    requires assoc >= 1 && IsLruSet(s, assoc) && MustHolds(m, s, assoc)
    ensures MustHolds(MustAgeAll(m, assoc), Access(s, t, assoc), assoc)
    ensures MustHolds(MustAgeAll(m, assoc), s, assoc)
  {
    AccessAges(s, t, assoc);
  }

  /** A hit is always a hit; a full must set that does not list the tag proves a miss. */
  lemma MustClassifySound(m: Bounds, s: seq<Tag>, t: Tag, assoc: nat)
    requires IsLruSet(s, assoc) && MustValid(m, assoc) && MustHolds(m, s, assoc)
    ensures MustClassify(m, t, assoc) == Hit ==> t in s
    ensures MustClassify(m, t, assoc) == Miss ==> t !in s
  {
    if t !in m && |m| == assoc {
      forall u | u in m ensures u in s {
        AgesDiffer(s, u, u + 1, assoc);
      }
      var cached := set u | u in s;
      SeqSetSize(s);
      assert m.Keys <= cached;
      SubsetSize(m.Keys, cached);
      assert |cached| == assoc;
    } else if t in m {
      AgesDiffer(s, t, t + 1, assoc);
    }
  }

  /** Whenever some represented set really hits, assuming the hit cannot overflow the list. */
  lemma MustCanAssumeRealHit(m: Bounds, s: seq<Tag>, t: Tag, hit: bool, assoc: nat)
    requires assoc >= 1 && IsLruSet(s, assoc) && MustValid(m, assoc) && MustHolds(m, s, assoc)
    requires hit ==> t in s
    ensures MustCanAssume(m, t, hit, assoc)
  {
    MustClassifySound(m, s, t, assoc);
    MustSize(m, assoc);
  }

  // ---------- The representation invariant ----------

  lemma MustSize(m: Bounds, assoc: nat)
    requires assoc >= 1 && MustValid(m, assoc)
    ensures |m| <= assoc
  {
    forall u | u in m ensures u in AtMost(m, assoc - 1) {}
    SubsetSize(m.Keys, AtMost(m, assoc - 1));
  }

  /** Below the accessed age, the updated bounds up to k are the old ones up to k - 1 and the tag. */
  lemma RoomBelow(m: Bounds, t: Tag, hit: bool, k: nat, assoc: nat)
    requires assoc >= 1 && MustValid(m, assoc) && k < assoc && k < AccessedAge(m, t, hit, assoc)
    ensures |AtMost(MustUpdate(m, t, hit, assoc), k)| <= k + 1
  {
    var r, a := MustUpdate(m, t, hit, assoc), AccessedAge(m, t, hit, assoc);
    var younger := if k == 0 then {} else AtMost(m, k - 1);
    forall u | u in AtMost(r, k) ensures u in {t} + younger {
      assert u == t || r[u] == Aged(m[u], a);
    }
    SubsetSize(AtMost(r, k), {t} + younger);
  }

  lemma MustUpdateRoom(m: Bounds, t: Tag, hit: bool, k: nat, assoc: nat)
    requires assoc >= 1 && MustValid(m, assoc) && MustCanAssume(m, t, hit, assoc) && k < assoc
    ensures |AtMost(MustUpdate(m, t, hit, assoc), k)| <= k + 1
  {
    var r, a := MustUpdate(m, t, hit, assoc), AccessedAge(m, t, hit, assoc);
    if k < a {
      RoomBelow(m, t, hit, k, assoc);
    } else {
      var before := if t in m then AtMost(m, k) else {t} + m.Keys;
      forall u | u in AtMost(r, k) ensures u in before {
        assert u == t || r[u] == Aged(m[u], a);
      }
      SubsetSize(AtMost(r, k), before);
    }
  }

  lemma MustUpdateValid(m: Bounds, t: Tag, hit: bool, assoc: nat)
    requires assoc >= 1 && MustValid(m, assoc) && MustCanAssume(m, t, hit, assoc)
    ensures MustValid(MustUpdate(m, t, hit, assoc), assoc)
  {
    var r := MustUpdate(m, t, hit, assoc);
    forall k: nat ensures |AtMost(r, k)| <= k + 1 {
      MustUpdateRoom(m, t, hit, if k < assoc then k else assoc - 1, assoc);
      SubsetSize(AtMost(r, k), AtMost(r, if k < assoc then k else assoc - 1));
    }
  }

  lemma MustAgeAllValid(m: Bounds, assoc: nat)
    requires MustValid(m, assoc)
    ensures MustValid(MustAgeAll(m, assoc), assoc)
  {
    forall k: nat ensures |AtMost(MustAgeAll(m, assoc), k)| <= k + 1 {
      SubsetSize(AtMost(MustAgeAll(m, assoc), k), AtMost(m, k));
    }
  }

  lemma MustJoinValid(x: Bounds, y: Bounds, assoc: nat)
    requires MustValid(x, assoc) && MustValid(y, assoc)
    ensures MustValid(MustJoin(x, y), assoc)
  {
    forall k: nat ensures |AtMost(MustJoin(x, y), k)| <= k + 1 {
      SubsetSize(AtMost(MustJoin(x, y), k), AtMost(x, k));
    }
  }

  // ---------- The order ----------

  lemma MustLeqIsJoin(x: Bounds, y: Bounds)
    ensures MustLeq(x, y) <==> MustJoin(x, y) == y
  {
    if MustJoin(x, y) == y {
      forall u | u in y ensures u in x && x[u] <= y[u] {
        assert u in MustJoin(x, y);
      }
    }
    if MustLeq(x, y) {
      forall u | u in y ensures u in MustJoin(x, y) && MustJoin(x, y)[u] == y[u] {}
    }
  }

  /** `MustJoin` is the least upper bound of a partial order that implies inclusion of meanings. */
  lemma MustJoinIsLub(x: Bounds, y: Bounds, z: Bounds, s: seq<Tag>, assoc: nat)
    ensures MustLeq(x, MustJoin(x, y)) && MustLeq(y, MustJoin(x, y))
    ensures MustLeq(x, z) && MustLeq(y, z) ==> MustLeq(MustJoin(x, y), z)
    ensures MustLeq(x, y) && MustLeq(y, x) ==> x == y
    ensures MustLeq(x, y) && MustLeq(y, z) ==> MustLeq(x, z)
    ensures MustLeq(x, y) && MustHolds(x, s, assoc) ==> MustHolds(y, s, assoc)
  {
    if MustLeq(x, y) && MustLeq(y, x) {
      MustLeqIsJoin(x, y);
      forall u | u in x ensures u in y && MustJoin(x, y)[u] == x[u] {}
      assert x == MustJoin(x, y);
    }
  }

  // ---------- The array representation ----------

  function Zip(tags: seq<Tag>, ages: seq<nat>): (es: seq<Entry>)
    requires |tags| == |ages|
    ensures |es| == |tags|
    ensures forall i :: 0 <= i < |es| ==> es[i] == Entry(tags[i], ages[i])
  {
    seq(|tags|, i requires 0 <= i < |tags| => Entry(tags[i], ages[i]))
  }

  /** In a sorted list, room for the tags means that entry i is at least i old. */
  lemma AgesAtLeastIndex(es: seq<Entry>, m: Bounds, assoc: nat)
    requires Sorted(es) && Lists(es, m) && MustValid(m, assoc)
    ensures forall i :: 0 <= i < |es| ==> i <= es[i].age < assoc
  {
    forall i | 0 <= i < |es| ensures i <= es[i].age < assoc {
      assert es[i] in es;
      TagsDiffer(es, m);
      FirstTags(es, i + 1);
      forall t | t in TagsOf(es[..i + 1]) ensures t in AtMost(m, es[i].age) {
        var j :| 0 <= j <= i && es[j].tag == t;
        assert es[j] in es;
      }
      SubsetSize(TagsOf(es[..i + 1]), AtMost(m, es[i].age));
    }
  }

  function TagsOf(es: seq<Entry>): set<Tag> {
    set i | 0 <= i < |es| :: es[i].tag
  }

  lemma FirstTags(es: seq<Entry>, n: nat)
    requires n <= |es| && forall i, j :: 0 <= i < j < |es| ==> es[i].tag != es[j].tag
    ensures |TagsOf(es[..n])| == n
  {
    if n > 0 {
      FirstTags(es, n - 1);
      assert TagsOf(es[..n]) == TagsOf(es[..n - 1]) + {es[n - 1].tag};
      assert es[n - 1].tag !in TagsOf(es[..n - 1]);
    }
  }

  /**
   Where the bounds leave no slack they pin down contents: if entry n - 1 has age
   n - 1, then in every represented set the first n positions hold exactly the
   first n listed tags.
   */
  lemma ConcreteSubStack(es: seq<Entry>, m: Bounds, s: seq<Tag>, n: nat, assoc: nat)
    requires Sorted(es) && Lists(es, m) && MustValid(m, assoc)
    requires IsLruSet(s, assoc) && MustHolds(m, s, assoc)
    requires 0 < n <= |es| && es[n - 1].age == n - 1
    ensures n <= |s| && (set i | 0 <= i < n :: s[i]) == TagsOf(es[..n])
  {
    TagsDiffer(es, m);
    FirstTags(es, n);
    var k := if n < |s| then n else |s|;
    SeqSetSize(s[..k]);
    forall t | t in TagsOf(es[..n]) ensures t in set x | x in s[..k] {
      var j :| 0 <= j < n && es[j].tag == t;
      assert es[j] in es;
      AgesDiffer(s, t, t + 1, assoc);
      assert s[..k][IndexOf(s, t)] == t;
    }
    SubsetSize(TagsOf(es[..n]), set x | x in s[..k]);
    PrefixSet(s, n);
  }

  lemma PrefixSet(s: seq<Tag>, n: nat)
    requires n <= |s|
    ensures (set i | 0 <= i < n :: s[i]) == set x | x in s[..n]
  {
    forall x | x in s[..n] ensures x in set i | 0 <= i < n :: s[i] {
      var i :| 0 <= i < n && s[..n][i] == x;
      assert s[i] == x;
    }
    forall i | 0 <= i < n ensures s[i] in s[..n] {
      assert s[..n][i] == s[i];
    }
  }

  /** From position `lo` on, the two arrays hold the entries `es`. */
  ghost predicate Shows(tags: array<Tag>, ages: array<nat>, lo: nat, es: seq<Entry>)
    reads tags, ages
  {
    && lo + |es| <= tags.Length == ages.Length
    && forall k :: 0 <= k < |es| ==> tags[lo + k] == es[k].tag && ages[lo + k] == es[k].age
  }

  /**
   The inner loop of the update: the entry at `pos` just reached age `accessed` and
   moves right past the entries of that age with smaller tags. Only tags move.
   */
  method SiftRight(tags: array<Tag>, ages: array<nat>, size: nat, pos: nat, accessed: nat, ghost rest: seq<Entry>)
    requires tags as object != ages && pos < size <= tags.Length == ages.Length
    requires ages[pos] == accessed
    requires |rest| == size - pos - 1 && Shows(tags, ages, pos + 1, rest) && Sorted(rest)
    requires forall k :: 0 <= k < |rest| ==> rest[k].age >= accessed && rest[k].tag != tags[pos]
    modifies tags
    ensures forall k :: 0 <= k < pos ==> tags[k] == old(tags[k])
    ensures Shows(tags, ages, pos, Insert(Entry(old(tags[pos]), accessed), rest))
  {
    var currentTag := tags[pos];
    ghost var e := Entry(currentTag, accessed);
    var i := pos;
    while i < size - 1 && ages[i + 1] == accessed && tags[i + 1] < currentTag
      invariant pos <= i < size
      invariant forall k :: 0 <= k < pos ==> tags[k] == old(tags[k])
      invariant forall k :: 0 <= k < i - pos ==>
        tags[pos + k] == rest[k].tag && rest[k].age == accessed && rest[k].tag < currentTag
      invariant forall k :: i - pos <= k < |rest| ==> tags[pos + 1 + k] == rest[k].tag
    {
      assert rest[i - pos] == Entry(tags[i + 1], ages[i + 1]);
      tags[i] := tags[i + 1];
      i := i + 1;
    }
    tags[i] := currentTag;
    ghost var j := i - pos;
    InsertAt(e, rest, j);
    ghost var r := rest[..j] + [e] + rest[j..];
    forall k | 0 <= k < |r| ensures tags[pos + k] == r[k].tag && ages[pos + k] == r[k].age {
      if k > 0 {
        assert ages[pos + k] == ages[pos + 1 + (k - 1)] == rest[k - 1].age;
      }
    }
  }

  /** The aged entries from `p` on, and how the one before them is inserted. */
  lemma TailAged(es: seq<Entry>, p: nat, accessed: nat, tail: seq<Entry>)
    requires Sorted(es) && forall i, j :: 0 <= i < j < |es| ==> es[i].tag != es[j].tag
    requires 0 < p <= |es| && tail == AgeAll(es[p..], accessed)
    ensures Sorted(tail) && |tail| == |es| - p
    ensures forall k :: 0 <= k < |tail| ==>
      tail[k].age >= Aged(es[p - 1].age, accessed) && tail[k].tag != es[p - 1].tag
    ensures AgeAll(es[p - 1..], accessed) == Insert(AgedEntry(es[p - 1], accessed), tail)
    ensures Aged(es[p - 1].age, accessed) != accessed ==>
      AgeAll(es[p - 1..], accessed) == [AgedEntry(es[p - 1], accessed)] + tail
  {
    assert es[p - 1..][1..] == es[p..];
    InsertInPlace(es[p - 1..], accessed);
    AgeAllContents(es[p..], accessed);
    forall k | 0 <= k < |tail| ensures tail[k].age >= Aged(es[p - 1].age, accessed) && tail[k].tag != es[p - 1].tag {
      assert tail[k] in tail;
    }
  }

  /** One step of the outer loop: entry `p - 1` moves to `p` and ages. */
  method ShiftOne(tags: array<Tag>, ages: array<nat>, size: nat, p: nat, accessed: nat, ghost es: seq<Entry>)
    requires tags as object != ages && 0 < p < size <= tags.Length == ages.Length
    requires Sorted(es) && forall i, j :: 0 <= i < j < |es| ==> es[i].tag != es[j].tag
    requires |es| == size - 1 && Shows(tags, ages, 0, es[..p])
    requires Shows(tags, ages, p + 1, AgeAll(es[p..], accessed))
    modifies tags, ages
    ensures Shows(tags, ages, 0, es[..p - 1])
    ensures Shows(tags, ages, p, AgeAll(es[p - 1..], accessed))
  {
    ghost var tail := AgeAll(es[p..], accessed);
    TailAged(es, p, accessed, tail);
    assert es[..p][p - 1] == es[p - 1];
    assert forall k :: 0 <= k < p - 1 ==> es[..p][k] == es[..p - 1][k];
    tags[p] := tags[p - 1];
    ages[p] := ages[p - 1] + (if ages[p - 1] < accessed then 1 else 0);
    assert Shows(tags, ages, p + 1, tail);
    assert Entry(tags[p], ages[p]) == AgedEntry(es[p - 1], accessed);
    if ages[p] == accessed {
      SiftRight(tags, ages, size, p, accessed, tail);
    }
  }

  /**
   The outer loop of the update: the entries left of the free slot `pos` move one
   to the right, ageing where they are younger than `accessed`.
   */
  method ShiftRight(tags: array<Tag>, ages: array<nat>, size: nat, pos: nat, accessed: nat, ghost es: seq<Entry>)
    requires tags as object != ages && pos < size <= tags.Length == ages.Length
    requires |es| == size - 1 && Shows(tags, ages, 0, es[..pos]) && Shows(tags, ages, pos + 1, es[pos..])
    requires Sorted(es) && forall i, j :: 0 <= i < j < |es| ==> es[i].tag != es[j].tag
    requires forall k :: pos <= k < |es| ==> es[k].age >= accessed
    modifies tags, ages
    ensures Shows(tags, ages, 1, AgeAll(es, accessed))
  {
    var p := pos;
    AgeAllOld(es[pos..], accessed);
    while p > 0
      invariant 0 <= p <= pos
      invariant Shows(tags, ages, 0, es[..p]) && Shows(tags, ages, p + 1, AgeAll(es[p..], accessed))
    {
      ShiftOne(tags, ages, size, p, accessed, es);
      p := p - 1;
    }
    assert es[0..] == es;
  }

  /** Nothing but the accessed tag has age 0 afterwards. */
  lemma SurvivorsAge(es: seq<Entry>, kept: seq<Entry>, m: Bounds, t: Tag, a: nat, assoc: nat)
    requires MustValid(m, assoc) && Lists(es, m) && Survivors(kept, es, t, a, assoc)
    requires t in m ==> a == m[t]
    requires t !in m ==> a >= 1 || kept == []
    ensures forall i, j :: 0 <= i < j < |kept| ==> kept[i].tag != kept[j].tag
    ensures forall e :: e in kept ==> Aged(e.age, a) >= 1
  {
    forall i, j | 0 <= i < j < |kept| ensures kept[i].tag != kept[j].tag {
      assert kept[i] in kept && kept[j] in kept;
    }
    forall e | e in kept ensures Aged(e.age, a) >= 1 {
      if a == 0 && e.age == 0 {
        SubsetSize({t, e.tag}, AtMost(m, 0));
      }
    }
  }

  /** The list an update leaves behind. */
  lemma UpdatedList(es: seq<Entry>, kept: seq<Entry>, m: Bounds, t: Tag, hit: bool, a: nat, assoc: nat)
    requires assoc >= 1 && MustValid(m, assoc) && MustCanAssume(m, t, hit, assoc)
    requires Lists(es, m) && Survivors(kept, es, t, a, assoc) && a == AccessedAge(m, t, hit, assoc)
    ensures Sorted([Entry(t, 0)] + AgeAll(kept, a))
    ensures Lists([Entry(t, 0)] + AgeAll(kept, a), MustUpdate(m, t, hit, assoc))
  {
    var aged := AgeAll(kept, a);
    if t !in m && a == 0 {
      KeysListed(es, m);
      Inhabited(kept);
    }
    SurvivorsAge(es, kept, m, t, a, assoc);
    AgeAllContents(kept, a);
    forall k | 0 <= k < |aged| ensures aged[k].age >= 1 {
      assert aged[k] in aged;
    }
    UpdatedContents(es, kept, m, t, hit, a, assoc);
  }

  lemma UpdatedContents(es: seq<Entry>, kept: seq<Entry>, m: Bounds, t: Tag, hit: bool, a: nat, assoc: nat)
    requires assoc >= 1 && Lists(es, m) && Survivors(kept, es, t, a, assoc) && a == AccessedAge(m, t, hit, assoc)
    requires forall f :: f in AgeAll(kept, a) <==> exists e :: e in kept && f == AgedEntry(e, a)
    ensures Lists([Entry(t, 0)] + AgeAll(kept, a), MustUpdate(m, t, hit, assoc))
  {
    var r, m' := [Entry(t, 0)] + AgeAll(kept, a), MustUpdate(m, t, hit, assoc);
    forall f: Entry ensures f in r <==> f.tag in m' && m'[f.tag] == f.age {
      if f.tag in m' && f.tag != t {
        var e := Entry(f.tag, m[f.tag]);
        assert e in es && e in kept && AgedEntry(e, a) in AgeAll(kept, a);
      }
      if f in AgeAll(kept, a) {
        var e :| e in kept && f == AgedEntry(e, a);
        assert e in es;
      }
    }
  }

  lemma EvictedTags(m: Bounds, t: Tag, hit: bool, assoc: nat)
    requires assoc >= 1
    ensures forall u :: u in m && u !in MustUpdate(m, t, hit, assoc) <==>
      u in m && u != t && Aged(m[u], AccessedAge(m, t, hit, assoc)) >= assoc
  {}

  lemma AgedList(es: seq<Entry>, r: seq<Entry>, m: Bounds, assoc: nat)
    requires Sorted(es) && Lists(es, m) && |r| <= |es|
    requires forall k :: 0 <= k < |r| ==> r[k] == Entry(es[k].tag, es[k].age + 1)
    requires forall e :: e in es[..|r|] <==> e in es && e.age + 1 < assoc
    ensures Sorted(r) && Lists(r, MustAgeAll(m, assoc))
  {
    forall f: Entry ensures f in r <==> f.tag in MustAgeAll(m, assoc) && MustAgeAll(m, assoc)[f.tag] == f.age {
      if f in r {
        var k :| 0 <= k < |r| && r[k] == f;
        assert es[..|r|][k] == es[k];
        assert es[k] in es[..|r|];
      }
      if f.tag in MustAgeAll(m, assoc) && f.age == m[f.tag] + 1 {
        var e := Entry(f.tag, m[f.tag]);
        assert e in es && e in es[..|r|];
        var k :| 0 <= k < |r| && es[..|r|][k] == e;
        assert r[k] == f;
      }
    }
  }

  /** The descending merge has `i` and `j` entries still to visit, all below the visited ones. */
  ghost predicate MergeOrder(xs: seq<Entry>, ys: seq<Entry>, i: nat, j: nat) {
    && i <= |xs| && j <= |ys|
    && (forall k, l :: 0 <= k < i && j <= l < |ys| ==> Less(xs[k], ys[l]))
    && (forall k, l :: i <= k < |xs| && 0 <= l < j ==> !Less(xs[k], ys[l]))
  }

  ghost function Visited(xs: seq<Entry>, ys: seq<Entry>, i: nat, j: nat): set<Entry>
    requires i <= |xs| && j <= |ys|
  {
    (set e | e in xs[i..]) + (set e | e in ys[j..])
  }

  /** `out` lists, in order, the bindings of `m` among the visited entries. */
  ghost predicate Collected(out: seq<Entry>, m: Bounds, visited: set<Entry>) {
    && Sorted(out)
    && forall e: Entry :: e in out <==> e in visited && e.tag in m && m[e.tag] == e.age
  }

  lemma CollectStep(out: seq<Entry>, m: Bounds, visited: set<Entry>, e: Entry, found: bool)
    requires Collected(out, m, visited)
    requires found <==> e !in visited && e.tag in m && m[e.tag] == e.age
    requires forall f :: f in visited && f != e ==> Less(e, f)
    ensures Collected(if found then [e] + out else out, m, visited + {e})
  {}

  /** One of the first `n` entries is for tag `t`. */
  ghost predicate HasTag(es: seq<Entry>, n: nat, t: Tag)
    requires n <= |es|
  {
    exists k :: 0 <= k < n && es[k].tag == t
  }

  /**
   Searching the tag of `e` among the entries still to come finds it exactly if it is
   bounded by at most e's age, unless e itself was visited on the other side.
   */
  lemma SearchBelow(es: seq<Entry>, b: Bounds, n: nat, e: Entry)
    requires Sorted(es) && Lists(es, b) && n <= |es|
    requires forall k :: 0 <= k < n ==> !Less(e, es[k])
    requires forall k :: n <= k < |es| ==> !Less(es[k], e)
    ensures HasTag(es, n, e.tag) <==> e.tag in b && b[e.tag] <= e.age && e !in es[n..]
  {
    KeysListed(es, b);
    TagsDiffer(es, b);
    if HasTag(es, n, e.tag) {
      var k :| 0 <= k < n && es[k].tag == e.tag;
      assert es[k] in es;
    } else if e.tag in b && b[e.tag] <= e.age {
      var k :| 0 <= k < |es| && es[k] == Entry(e.tag, b[e.tag]);
      assert es[n..][k - n] == e;
    }
  }

  lemma MergeStepX(xs: seq<Entry>, ys: seq<Entry>, x: Bounds, y: Bounds, i: nat, j: nat)
    requires Sorted(xs) && Lists(xs, x) && Sorted(ys) && Lists(ys, y) && MergeOrder(xs, ys, i, j)
    requires i > 0 && (j == 0 || !Less(xs[i - 1], ys[j - 1]))
    ensures MergeOrder(xs, ys, i - 1, j)
    ensures Visited(xs, ys, i - 1, j) == Visited(xs, ys, i, j) + {xs[i - 1]}
    ensures forall f :: f in Visited(xs, ys, i, j) ==> Less(xs[i - 1], f)
    ensures HasTag(ys, j, xs[i - 1].tag) <==> MustJoined(x, y, xs[i - 1]) && xs[i - 1] !in Visited(xs, ys, i, j)
  {
    var e := xs[i - 1];
    assert xs[i - 1..] == [e] + xs[i..];
    forall k, l | i - 1 <= k < |xs| && 0 <= l < j ensures !Less(xs[k], ys[l]) {
      assert l == j - 1 || Less(ys[l], ys[j - 1]);
    }
    assert e in xs;
    SearchBelow(ys, y, j, e);
  }

  lemma MergeStepY(xs: seq<Entry>, ys: seq<Entry>, x: Bounds, y: Bounds, i: nat, j: nat)
    requires Sorted(xs) && Lists(xs, x) && Sorted(ys) && Lists(ys, y) && MergeOrder(xs, ys, i, j)
    requires j > 0 && (i == 0 || Less(xs[i - 1], ys[j - 1]))
    ensures MergeOrder(xs, ys, i, j - 1)
    ensures Visited(xs, ys, i, j - 1) == Visited(xs, ys, i, j) + {ys[j - 1]}
    ensures forall f :: f in Visited(xs, ys, i, j) && f != ys[j - 1] ==> Less(ys[j - 1], f)
    ensures HasTag(xs, i, ys[j - 1].tag) <==> MustJoined(x, y, ys[j - 1]) && ys[j - 1] !in Visited(xs, ys, i, j)
  {
    var e := ys[j - 1];
    assert ys[j - 1..] == [e] + ys[j..];
    forall k, l | 0 <= k < i && j - 1 <= l < |ys| ensures Less(xs[k], ys[l]) {
      assert k == i - 1 || Less(xs[k], xs[i - 1]);
    }
    assert e in ys;
    SearchBelow(xs, x, i, e);
  }

  ghost predicate MustJoined(x: Bounds, y: Bounds, e: Entry) {
    e.tag in MustJoin(x, y) && MustJoin(x, y)[e.tag] == e.age
  }

  lemma MergeRoom(out: seq<Entry>, m: Bounds)
    requires Sorted(out) && forall e :: e in out ==> e.tag in m && m[e.tag] == e.age
    ensures |out| <= |m|
  {
    forall i, j | 0 <= i < j < |out| ensures out[i].tag != out[j].tag {
      assert out[i] in out && out[j] in out;
    }
    FirstTags(out, |out|);
    assert out[..|out|] == out;
    forall t | t in TagsOf(out) ensures t in m.Keys {
      var k :| 0 <= k < |out| && out[k].tag == t;
      assert out[k] in out;
    }
    SubsetSize(TagsOf(out), m.Keys);
  }

  method Contains(tags: array<Tag>, n: nat, tag: Tag) returns (found: bool)
    requires n <= tags.Length
    ensures found <==> exists k :: 0 <= k < n && tags[k] == tag
  {
    var first := 0;
    while first < n
      invariant 0 <= first <= n
      invariant forall k :: 0 <= k < first ==> tags[k] != tag
    {
      if tags[first] == tag {
        return true;
      }
      first := first + 1;
    }
    return false;
  }

  /** A must list in its arrays. */
  ghost predicate ListIn(tags: array<Tag>, ages: array<nat>, size: nat, es: seq<Entry>, b: Bounds)
    reads tags, ages
  {
    |es| == size && Shows(tags, ages, 0, es) && Sorted(es) && Lists(es, b)
  }

  /** Takes the greater of the two last entries and searches its tag on the other side. */
  method VisitGreater(xTags: array<Tag>, xAges: array<nat>, yTags: array<Tag>, yAges: array<nat>, i: nat, j: nat,
                      ghost xs: seq<Entry>, ghost ys: seq<Entry>, ghost x: Bounds, ghost y: Bounds)
    returns (i': nat, j': nat, tag: Tag, age: nat, found: bool)
    requires ListIn(xTags, xAges, |xs|, xs, x) && ListIn(yTags, yAges, |ys|, ys, y)
    requires MergeOrder(xs, ys, i, j) && i + j > 0
    ensures i' + j' == i + j - 1 && MergeOrder(xs, ys, i', j')
    ensures Visited(xs, ys, i', j') == Visited(xs, ys, i, j) + {Entry(tag, age)}
    ensures forall f :: f in Visited(xs, ys, i, j) && f != Entry(tag, age) ==> Less(Entry(tag, age), f)
    ensures found <==> MustJoined(x, y, Entry(tag, age)) && Entry(tag, age) !in Visited(xs, ys, i, j)
  {
    var xElemIsGreater := i > 0 && (j == 0 || xAges[i - 1] > yAges[j - 1]
                           || (xAges[i - 1] == yAges[j - 1] && xTags[i - 1] >= yTags[j - 1]));
    if xElemIsGreater {
      MergeStepX(xs, ys, x, y, i, j);
      tag, age := xTags[i - 1], xAges[i - 1];
      assert xs[i - 1] == Entry(tag, age);
      found := Contains(yTags, j, tag);
      SameTags(yTags, yAges, ys, j, tag);
      i', j' := i - 1, j;
    } else {
      MergeStepY(xs, ys, x, y, i, j);
      tag, age := yTags[j - 1], yAges[j - 1];
      assert ys[j - 1] == Entry(tag, age);
      found := Contains(xTags, i, tag);
      SameTags(xTags, xAges, xs, i, tag);
      i', j' := i, j - 1;
    }
  }

  method PutInFront(outTags: array<Tag>, outAges: array<nat>, out: nat, tag: Tag, age: nat, ghost joined: seq<Entry>)
    returns (out': nat)
    requires outTags as object != outAges && 0 < out && Shows(outTags, outAges, out, joined)
    modifies outTags, outAges
    ensures out' == out - 1 && Shows(outTags, outAges, out', [Entry(tag, age)] + joined)
  {
    out' := out - 1;
    outTags[out'], outAges[out'] := tag, age;
  }

  method AgeEach(ages: array<nat>, n: nat)
    requires n <= ages.Length
    modifies ages
    ensures forall k :: 0 <= k < ages.Length ==> ages[k] == old(ages[k]) + if k < n then 1 else 0
  {
    var pos := n;
    while pos > 0
      invariant 0 <= pos <= n
      invariant forall k :: 0 <= k < ages.Length ==> ages[k] == old(ages[k]) + if pos <= k < n then 1 else 0
    {
      ages[pos - 1] := ages[pos - 1] + 1;
      pos := pos - 1;
    }
  }

  /** Copies the entries behind `out` to the front of the other pair of arrays. */
  method CopyDown(outTags: array<Tag>, outAges: array<nat>, out: nat, tags: array<Tag>, ages: array<nat>, n: nat,
                  ghost es: seq<Entry>)
    requires Shows(outTags, outAges, out, es) && n == |es| <= tags.Length == ages.Length
    requires tags as object != ages && {tags as object, ages} !! {outTags as object, outAges}
    modifies tags, ages
    ensures Shows(tags, ages, 0, es)
  {
    var i := 0;
    while i < n
      invariant 0 <= i <= n && Shows(outTags, outAges, out, es)
      invariant forall k :: 0 <= k < i ==> tags[k] == es[k].tag && ages[k] == es[k].age
    {
      tags[i], ages[i] := outTags[out + i], outAges[out + i];
      i := i + 1;
    }
  }

  /** The descending merge of two must lists; the result fills the output arrays from `out` on. */
  method MergeDown(xTags: array<Tag>, xAges: array<nat>, xSize: nat, yTags: array<Tag>, yAges: array<nat>, ySize: nat,
                   outTags: array<Tag>, outAges: array<nat>,
                   ghost xs: seq<Entry>, ghost ys: seq<Entry>, ghost x: Bounds, ghost y: Bounds)
    returns (out: nat, ghost joined: seq<Entry>)
    requires ListIn(xTags, xAges, xSize, xs, x) && ListIn(yTags, yAges, ySize, ys, y)
    requires outTags.Length == outAges.Length >= |MustJoin(x, y)| && outTags as object != outAges
    requires {outTags as object, outAges} !! {xTags as object, xAges, yTags, yAges}
    modifies outTags, outAges
    ensures out + |joined| == outTags.Length && Shows(outTags, outAges, out, joined)
    ensures Sorted(joined) && Lists(joined, MustJoin(x, y))
  {
    var i, j := xSize, ySize;
    out, joined := outTags.Length, [];
    ghost var m := MustJoin(x, y);
    while i > 0 || j > 0
      invariant 0 <= i && 0 <= j && MergeOrder(xs, ys, i, j)
      invariant Collected(joined, m, Visited(xs, ys, i, j))
      invariant out + |joined| == outTags.Length && Shows(outTags, outAges, out, joined)
      decreases i + j
    {
      ghost var before, visited := joined, Visited(xs, ys, i, j);
      var tag, age, found;
      i, j, tag, age, found := VisitGreater(xTags, xAges, yTags, yAges, i, j, xs, ys, x, y);
      CollectStep(before, m, visited, Entry(tag, age), found);
      if found {
        joined := [Entry(tag, age)] + joined;
        MergeRoom(joined, m);
        out := PutInFront(outTags, outAges, out, tag, age, before);
      }
    }
    AllVisited(xs, ys, x, y, joined);
  }

  lemma SameTags(tags: array<Tag>, ages: array<nat>, es: seq<Entry>, n: nat, tag: Tag)
    requires Shows(tags, ages, 0, es) && n <= |es|
    ensures HasTag(es, n, tag) <==> exists k :: 0 <= k < n && tags[k] == tag
  {
    assert forall k :: 0 <= k < n ==> es[k].tag == tags[k];
  }

  lemma AllVisited(xs: seq<Entry>, ys: seq<Entry>, x: Bounds, y: Bounds, out: seq<Entry>)
    requires Lists(xs, x) && Lists(ys, y) && Collected(out, MustJoin(x, y), Visited(xs, ys, 0, 0))
    ensures Lists(out, MustJoin(x, y))
  {
    assert xs[0..] == xs && ys[0..] == ys;
  }

  method SamePrefix<T(==)>(x: array<T>, y: array<T>, n: nat) returns (eq: bool)
    requires n <= x.Length && n <= y.Length
    ensures eq <==> x[..n] == y[..n]
  {
    var i := 0;
    while i < n
      invariant 0 <= i <= n && x[..i] == y[..i]
    {
      if x[i] != y[i] {
        assert x[..n][i] != y[..n][i];
        return false;
      }
      i := i + 1;
    }
    return true;
  }

  lemma SameZip(t: seq<Tag>, a: seq<nat>, t': seq<Tag>, a': seq<nat>)
    requires |t| == |a| && |t'| == |a'|
    ensures Zip(t, a) == Zip(t', a') <==> t == t' && a == a'
  {
    if Zip(t, a) == Zip(t', a') {
      forall i | 0 <= i < |t| ensures t[i] == t'[i] && a[i] == a'[i] {
        assert Zip(t, a)[i] == Zip(t', a')[i];
      }
    }
  }

  lemma YoungSurvive(es: seq<Entry>, kept: seq<Entry>, m: Bounds, t: Tag, assoc: nat)
    requires assoc >= 1 && Lists(es, m) && t !in m && Sorted(kept)
    requires forall e :: e in es ==> e.age < assoc
    requires forall e :: e in kept <==> e in es && e.age + 1 < assoc
    ensures Survivors(kept, es, t, assoc, assoc)
  {}

  /** Everything but the accessed entry survives a hit. */
  lemma KeptSurvive(es: seq<Entry>, m: Bounds, pos: nat, kept: seq<Entry>, assoc: nat)
    requires Sorted(es) && Lists(es, m) && pos < |es| && kept == es[..pos] + es[pos + 1..]
    requires forall i, j :: 0 <= i < j < |es| ==> es[i].tag != es[j].tag
    requires forall i :: 0 <= i < |es| ==> es[i].age < assoc
    ensures Survivors(kept, es, es[pos].tag, es[pos].age, assoc)
    ensures kept[..pos] == es[..pos] && kept[pos..] == es[pos + 1..]
    ensures forall k :: pos <= k < |kept| ==> kept[k].age >= es[pos].age
  {
    assert forall e :: e in es <==> e in es[..pos] || e == es[pos] || e in es[pos + 1..];
    assert forall k :: 0 <= k < |kept| ==> kept[k] == es[if k < pos then k else k + 1];
    forall k | pos <= k < |kept| ensures kept[k].age >= es[pos].age {
      assert Less(es[pos], es[k + 1]);
    }
  }

  /** The tags behind a prefix of younger ones are those that may have the greatest age. */
  lemma OldestTags(es: seq<Entry>, m: Bounds, n: nat, evicted: set<Tag>, assoc: nat)
    requires assoc >= 1 && Lists(es, m) && n <= |es| && evicted == set k | n <= k < |es| :: es[k].tag
    requires forall i :: 0 <= i < n ==> es[i].age < assoc - 1
    requires forall i :: n <= i < |es| ==> es[i].age == assoc - 1
    ensures forall u :: u in evicted <==> u in m && m[u] == assoc - 1
  {
    forall k | 0 <= k < |es| ensures es[k].tag in m && m[es[k].tag] == es[k].age {
      assert es[k] in es;
    }
    forall u | u in m ensures Entry(u, m[u]) in es {}
  }

  class LruMaxAgeCache {
    const assoc: nat
    const level: int
    const tags: array<Tag>
    const ages: array<nat>
    var size: nat
    ghost var bounds: Bounds

    ghost function Entries(): seq<Entry>
      requires size <= tags.Length == ages.Length
      reads this, tags, ages
    {
      Zip(tags[..size], ages[..size])
    }

    ghost predicate Valid()
      reads this, tags, ages
    {
      && assoc >= 1 && tags as object != ages && size <= assoc && tags.Length == ages.Length == assoc
      && Sorted(Entries()) && Lists(Entries(), bounds) && MustValid(bounds, assoc)
    }

    constructor (assoc: nat, level: int)
      requires assoc >= 1
      ensures Valid() && bounds == map[] && this.assoc == assoc && this.level == level
      ensures fresh(tags) && fresh(ages)
    {
      this.assoc, this.level := assoc, level;
      tags := new Tag[assoc](_ => 0);
      ages := new nat[assoc](_ => 0);
      size, bounds := 0, map[];
      new;
      assert forall k: nat :: AtMost(bounds, k) == {};
    }

    method Search(tag: Tag) returns (pos: nat)
      requires Valid()
      ensures pos <= size && (pos < size ==> tags[pos] == tag)
      ensures forall k :: 0 <= k < pos ==> tags[k] != tag
    {
      pos := 0;
      while pos < size && tags[pos] != tag
        invariant pos <= size
        invariant forall k :: 0 <= k < pos ==> tags[k] != tag
      {
        pos := pos + 1;
      }
    }

    method GetMaxAge(tag: Tag) returns (age: nat)
      requires Valid()
      ensures age == if tag in bounds then bounds[tag] else assoc
    {
      var pos := Search(tag);
      Listed(pos, tag);
      age := if pos < size then ages[pos] else assoc;
    }

    /** What a search outcome means for the bounds. */
    lemma Listed(pos: nat, tag: Tag)
      requires Valid()
      requires pos <= size && (pos < size ==> tags[pos] == tag)
      requires forall k :: 0 <= k < pos ==> tags[k] != tag
      ensures tag in bounds <==> pos < size
      ensures pos < size ==> ages[pos] == bounds[tag]
    {
      var es := Entries();
      KeysListed(es, bounds);
      if pos < size {
        assert es[pos] in es;
      }
    }

    method Classify(tag: Tag) returns (cl: Classification)
      requires Valid()
      ensures cl == MustClassify(bounds, tag, assoc)
    {
      var pos := Search(tag);
      Listed(pos, tag);
      ListSize(Entries(), bounds);
      AgesAtLeastIndex(Entries(), bounds, assoc);
      if pos < size {
        cl := if ages[pos] >= assoc then Miss else Hit;
      } else if size == assoc {
        cl := Miss;
      } else {
        cl := Unknown;
      }
    }

    /** Drops the entries of age assoc - 1, which sit at the end of the list. */
    method EvictOldest() returns (evicted: set<Tag>)
      requires Valid()
      modifies this`size
      ensures size <= old(size)
      ensures forall e :: e in Entries() <==> e in old(Entries()) && e.age + 1 < assoc
      ensures forall u :: u in evicted <==> u in bounds && bounds[u] == assoc - 1
      ensures Entries() == old(Entries())[..size] && size < assoc
    {
      ghost var es := Entries();
      evicted := {};
      AgesAtLeastIndex(es, bounds, assoc);
      while size > 0 && ages[size - 1] == assoc - 1
        invariant 0 <= size <= |es|
        invariant forall k :: size <= k < |es| ==> es[k].age == assoc - 1
        invariant evicted == set k | size <= k < |es| :: es[k].tag
      {
        assert es[size - 1] == Entry(tags[size - 1], ages[size - 1]);
        evicted := evicted + {tags[size - 1]};
        size := size - 1;
      }
      assert size > 0 ==> es[size - 1] == Entry(tags[size - 1], ages[size - 1]);
      YoungPrefix(es, size, assoc);
      assert Entries() == es[..size];
      OldestTags(es, bounds, size, evicted, assoc);
      assert size > 0 ==> es[size - 1].age >= size - 1;
    }

    /** The survivors of an access, in each of the three situations an update distinguishes. */
    lemma SurvivorsOf(pos: nat, tag: Tag, hit: bool)
      requires Valid() && MustCanAssume(bounds, tag, hit, assoc)
      requires pos <= size && (pos < size ==> tags[pos] == tag)
      requires forall k :: 0 <= k < pos ==> tags[k] != tag
      ensures tag in bounds <==> pos < size
      ensures pos < size ==> ages[pos] == bounds[tag] && bounds[tag] < assoc
      ensures pos < size ==>
        var kept := Entries()[..pos] + Entries()[pos + 1..];
        && Survivors(kept, Entries(), tag, bounds[tag], assoc)
        && Shows(tags, ages, 0, kept[..pos]) && Shows(tags, ages, pos + 1, kept[pos..])
        && forall k :: pos <= k < |kept| ==> kept[k].age >= bounds[tag]
      ensures pos == size && hit ==> Survivors(Entries(), Entries(), tag, assoc - 1, assoc) && size < assoc
    {
      Listed(pos, tag);
      var es := Entries();
      TagsDiffer(es, bounds);
      AgesAtLeastIndex(es, bounds, assoc);
      ListSize(es, bounds);
      if pos < size {
        assert es[pos] == Entry(tag, bounds[tag]);
        KeptSurvive(es, bounds, pos, es[..pos] + es[pos + 1..], assoc);
      }
    }

    /** A miss that is not assumed a hit: the oldest entries leave, the slot follows the others. */
    method EvictForMiss(tag: Tag) returns (slot: nat, evicted: set<Tag>, ghost kept: seq<Entry>)
      requires Valid() && tag !in bounds
      modifies this`size
      ensures slot == |kept| == size - 1 && size <= assoc
      ensures Survivors(kept, old(Entries()), tag, assoc, assoc)
      ensures Shows(tags, ages, 0, kept)
      ensures forall u :: u in evicted <==> u in bounds && bounds[u] == assoc - 1
    {
      ghost var es := Entries();
      AgesAtLeastIndex(es, bounds, assoc);
      evicted := EvictOldest();
      slot, kept := size, es[..size];
      YoungSurvive(es, kept, bounds, tag, assoc);
      size := size + 1;
    }

    /**
     Opens the slot the list is shifted into: the position of the accessed tag, or one
     past the entries that stay.
     */
    method OpenSlot(tag: Tag, assumption: Classification)
      returns (slot: nat, accessedAge: nat, evicted: set<Tag>, ghost kept: seq<Entry>)
      requires Valid() && MustCanAssume(bounds, tag, AssumesHit(assumption, level), assoc)
      modifies this`size
      ensures slot < size <= assoc && |kept| == size - 1
      ensures accessedAge == AccessedAge(bounds, tag, AssumesHit(assumption, level), assoc)
      ensures Survivors(kept, old(Entries()), tag, accessedAge, assoc)
      ensures Shows(tags, ages, 0, kept[..slot]) && Shows(tags, ages, slot + 1, kept[slot..])
      ensures forall k :: slot <= k < |kept| ==> kept[k].age >= accessedAge
      ensures forall u :: u in evicted <==> u in bounds && u != tag && Aged(bounds[u], accessedAge) >= assoc
    {
      ghost var es, hit := Entries(), AssumesHit(assumption, level);
      slot := Search(tag);
      SurvivorsOf(slot, tag, hit);
      accessedAge := if slot < size then ages[slot] else assoc;
      evicted := {};
      if slot < size {
        kept := es[..slot] + es[slot + 1..];
      } else if AssumesHit(assumption, level) {
        accessedAge := assoc - 1;
        kept := es;
        size := size + 1;
      } else {
        slot, evicted, kept := EvictForMiss(tag);
      }
      assert slot == |kept| ==> kept[..slot] == kept && kept[slot..] == [];
    }

    /** Shifts the surviving entries and puts the accessed tag in front. */
    method Rebuild(tag: Tag, slot: nat, accessedAge: nat, ghost kept: seq<Entry>)
      requires tags as object != ages && slot < size <= tags.Length == ages.Length && |kept| == size - 1
      requires Shows(tags, ages, 0, kept[..slot]) && Shows(tags, ages, slot + 1, kept[slot..])
      requires Sorted(kept) && forall i, j :: 0 <= i < j < |kept| ==> kept[i].tag != kept[j].tag
      requires forall k :: slot <= k < |kept| ==> kept[k].age >= accessedAge
      modifies tags, ages
      ensures Entries() == [Entry(tag, 0)] + AgeAll(kept, accessedAge)
    {
      ShiftRight(tags, ages, size, slot, accessedAge, kept);
      tags[0], ages[0] := tag, 0;
    }

    /** The report lists the tags whose bound was lost. */
    method Update(tag: Tag, assumption: Classification) returns (evicted: set<Tag>)
      requires Valid() && MustCanAssume(bounds, tag, AssumesHit(assumption, level), assoc)
      modifies this, tags, ages
      ensures Valid()
      ensures bounds == old(MustUpdate(bounds, tag, AssumesHit(assumption, level), assoc))
      ensures AccessCovered(old(bounds), bounds, tag, assumption, level, assoc)
      ensures forall u :: u in evicted <==> u in old(bounds) && u !in bounds
    {
      ghost var es, m, hit := Entries(), bounds, AssumesHit(assumption, level);
      UpdateCovers(m, tag, assumption, level, assoc);
      var slot, accessedAge;
      ghost var kept;
      slot, accessedAge, evicted, kept := OpenSlot(tag, assumption);
      UpdatedList(es, kept, m, tag, hit, accessedAge, assoc);
      SurvivorsAge(es, kept, m, tag, accessedAge, assoc);
      MustUpdateValid(m, tag, hit, assoc);
      EvictedTags(m, tag, hit, assoc);
      Rebuild(tag, slot, accessedAge, kept);
      bounds := MustUpdate(m, tag, hit, assoc);
    }

    /** An access to an unknown tag, or no access: everything ages, the oldest bounds are lost. */
    method PotentialUpdate() returns (evicted: set<Tag>)
      requires Valid()
      modifies this, ages
      ensures Valid()
      ensures bounds == old(MustAgeAll(bounds, assoc))
      ensures forall u :: u in evicted <==> u in old(bounds) && u !in bounds
    {
      ghost var es, m := Entries(), bounds;
      evicted := EvictOldest();
      AgeEach(ages, size);
      MustAgeAllValid(m, assoc);
      AgedList(es, Entries(), m, assoc);
      bounds := MustAgeAll(m, assoc);
    }

    /** Keeps the tags bounded on both sides, each with the larger bound. */
    method Join(y: LruMaxAgeCache)
      requires Valid() && y.Valid() && assoc == y.assoc
      modifies this, tags, ages
      ensures Valid()
      ensures bounds == old(MustJoin(bounds, y.bounds))
    {
      var outTags := new Tag[assoc](_ => 0);
      var outAges := new nat[assoc](_ => 0);
      ghost var m := MustJoin(bounds, y.bounds);
      MustJoinValid(bounds, y.bounds, assoc);
      MustSize(m, assoc);
      var out, joined := MergeDown(tags, ages, size, y.tags, y.ages, y.size, outTags, outAges,
                                   Entries(), y.Entries(), bounds, y.bounds);
      ListSize(joined, m);
      size, bounds := assoc - out, m;
      CopyDown(outTags, outAges, out, tags, ages, size, joined);
      assert Entries() == joined;
    }

    /** The order is decided by joining a copy and comparing: it is the order of the lattice. */
    method LessEqual(y: LruMaxAgeCache) returns (leq: bool)
      requires Valid() && y.Valid() && assoc == y.assoc
      ensures leq <==> MustLeq(bounds, y.bounds)
    {
      var copy := Clone();
      copy.Join(y);
      leq := copy.Equals(y);
      MustLeqIsJoin(bounds, y.bounds);
    }

    method Clone() returns (copy: LruMaxAgeCache)
      requires Valid()
      ensures fresh(copy) && fresh(copy.tags) && fresh(copy.ages)
      ensures copy.Valid() && copy.assoc == assoc && copy.level == level && copy.bounds == bounds
    {
      copy := new LruMaxAgeCache(assoc, level);
      var i := 0;
      while i < size
        invariant 0 <= i <= size
        invariant forall k :: 0 <= k < i ==> copy.tags[k] == tags[k] && copy.ages[k] == ages[k]
        modifies copy.tags, copy.ages
      {
        copy.tags[i], copy.ages[i] := tags[i], ages[i];
        i := i + 1;
      }
      copy.size, copy.bounds := size, bounds;
      assert copy.Entries() == Entries();
    }

    method Equals(y: LruMaxAgeCache) returns (eq: bool)
      requires Valid() && y.Valid()
      ensures eq <==> bounds == y.bounds
    {
      SameBounds(Entries(), y.Entries(), bounds, y.bounds);
      eq := size == y.size;
      if eq {
        eq := SamePrefix(tags, y.tags, size);
        if eq {
          eq := SamePrefix(ages, y.ages, size);
        }
      }
      SameZip(tags[..size], ages[..size], y.tags[..y.size], y.ages[..y.size]);
    }

    /** How many of the youngest positions are known exactly, up to `maxStackSize`. */
    method GetMaxConcreteSubStackSize(maxStackSize: int) returns (res: nat)
      requires Valid()
      ensures res <= size && (res > 0 ==> res <= maxStackSize && ages[res - 1] == res - 1)
      ensures forall i :: 0 <= i < size && ages[i] == i < maxStackSize ==> i < res
    {
      AgesAtLeastIndex(Entries(), bounds, assoc);
      res := 0;
      var i := 0;
      while i < size && ages[i] < maxStackSize
        invariant 0 <= i <= size
        invariant res <= i && (res > 0 ==> res <= maxStackSize && ages[res - 1] == res - 1)
        invariant forall k :: 0 <= k < i && ages[k] == k ==> k < res
      {
        if ages[i] == i {
          res := i + 1;
        }
        i := i + 1;
      }
      forall k | i <= k < size ensures ages[k] >= maxStackSize {
        assert k == i || Less(Entries()[i], Entries()[k]);
      }
    }
  }
}
