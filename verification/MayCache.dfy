/**
 The may analysis of one LRU set: a lower bound on the age of every tag. Tags that
 are not listed explicitly share one bound.
 */
module MayCache {
  import opened LruSet
  import opened AgeList
  import opened Classifications

  datatype May = May(tags: Bounds, implicitAge: nat) {

    function MinAge(t: Tag): nat {
      if t in tags then tags[t] else implicitAge
    }

    /** Explicit bounds are always better than the implicit one. */
    ghost predicate Valid(assoc: nat) {
      implicitAge <= assoc && forall u :: u in tags ==> tags[u] < implicitAge
    }

    /** The concrete sets the state stands for. */
    ghost predicate Holds(s: seq<Tag>, assoc: nat) {
      forall u :: MinAge(u) <= Age(s, u, assoc)
    }
  }

  function Top(): May {
    May(map[], 0)
  }

  function MayUpdate(m: May, t: Tag, assoc: nat): May {
    var a := m.MinAge(t);
    var implicitAge := if m.implicitAge <= a && m.implicitAge < assoc then m.implicitAge + 1 else m.implicitAge;
    May(map u | u in m.tags.Keys + {t} && (u != t ==> Aged(m.tags[u], a + 1) < implicitAge) ::
          if u == t then 0 else Aged(m.tags[u], a + 1),
        implicitAge)
  }

  /** How many tags an interval may span before the analysis gives up on it. */
  const MAX_WORTHWHILE_TAGS := 4

  function MayPotential(m: May, low: Tag, high: Tag): May {
    if m.implicitAge == 0 then m
    else if high - low + 1 > MAX_WORTHWHILE_TAGS then Top()
    else May(map u | u in m.tags.Keys + TagRange(low, high) :: if low <= u <= high then 0 else m.tags[u],
             m.implicitAge)
  }

  function TagRange(low: Tag, high: Tag): (r: set<Tag>)
    ensures forall u :: u in r <==> low <= u <= high
    decreases high - low
  {
    if low > high then {} else {low} + TagRange(low + 1, high)
  }

  function Min(x: nat, y: nat): nat {
    if x <= y then x else y
  }

  function MayJoin(x: May, y: May): May {
    var implicitAge := Min(x.implicitAge, y.implicitAge);
    May(map u | u in x.tags.Keys + y.tags.Keys && Min(x.MinAge(u), y.MinAge(u)) < implicitAge ::
          Min(x.MinAge(u), y.MinAge(u)),
        implicitAge)
  }

  ghost predicate MayLeq(x: May, y: May) {
    y.implicitAge <= x.implicitAge && forall u :: y.MinAge(u) <= x.MinAge(u)
  }

  function MayClassify(m: May, t: Tag, assoc: nat): Classification {
    if m.MinAge(t) >= assoc then Miss else Unknown
  }

  // ---------- Soundness ----------

  lemma MayUpdateSound(m: May, s: seq<Tag>, t: Tag, assoc: nat)
    requires assoc >= 1 && IsLruSet(s, assoc) && m.Valid(assoc) && m.Holds(s, assoc)
    ensures MayUpdate(m, t, assoc).Valid(assoc)
    ensures MayUpdate(m, t, assoc).Holds(Access(s, t, assoc), assoc)
  {
    AccessAges(s, t, assoc);
    forall u ensures MayUpdate(m, t, assoc).MinAge(u) <= Age(Access(s, t, assoc), u, assoc) {
      if u != t {
        AgesDiffer(s, t, u, assoc);
        AgesDiffer(s, u, t, assoc);
      }
    }
  }

  lemma MayUpdateValid(m: May, t: Tag, assoc: nat)
    requires assoc >= 1 && m.Valid(assoc)
    ensures MayUpdate(m, t, assoc).Valid(assoc)
  {}

  /** A potential update covers an access to any tag of the interval, and no access at all. */
  lemma MayPotentialSound(m: May, s: seq<Tag>, low: Tag, high: Tag, t: Tag, assoc: nat)
    requires assoc >= 1 && IsLruSet(s, assoc) && m.Valid(assoc) && m.Holds(s, assoc)
    requires low <= t <= high
    ensures MayPotential(m, low, high).Valid(assoc)
    ensures MayPotential(m, low, high).Holds(s, assoc)
    ensures MayPotential(m, low, high).Holds(Access(s, t, assoc), assoc)
  {
    AccessAges(s, t, assoc);
    MayPotentialValid(m, low, high, assoc);
    forall u
      ensures MayPotential(m, low, high).MinAge(u) <= Age(s, u, assoc)
      ensures MayPotential(m, low, high).MinAge(u) <= Age(Access(s, t, assoc), u, assoc)
    {
      PotentialBelow(m, low, high, u, assoc);
      if u != t {
        AgesDiffer(s, t, u, assoc);
      }
    }
  }

  lemma PotentialBelow(m: May, low: Tag, high: Tag, u: Tag, assoc: nat)
    requires m.Valid(assoc)
    ensures MayPotential(m, low, high).MinAge(u) <= m.MinAge(u)
    ensures low <= u <= high ==> MayPotential(m, low, high).MinAge(u) == 0
  {}

  lemma MayPotentialValid(m: May, low: Tag, high: Tag, assoc: nat)
    requires m.Valid(assoc)
    ensures MayPotential(m, low, high).Valid(assoc)
  {}

  /** The join is exact: for every tag, listed or not, it is the smaller of the two bounds. */
  lemma MayJoinExact(x: May, y: May, assoc: nat)
    requires x.Valid(assoc) && y.Valid(assoc)
    ensures MayJoin(x, y).Valid(assoc)
    ensures forall u :: MayJoin(x, y).MinAge(u) == Min(x.MinAge(u), y.MinAge(u))
  {}

  lemma MayJoinIsLub(x: May, y: May, z: May, s: seq<Tag>, assoc: nat)
    requires x.Valid(assoc) && y.Valid(assoc) && z.Valid(assoc)
    ensures MayLeq(x, MayJoin(x, y)) && MayLeq(y, MayJoin(x, y))
    ensures MayLeq(x, z) && MayLeq(y, z) ==> MayLeq(MayJoin(x, y), z)
    ensures MayLeq(x, y) && MayLeq(y, x) ==> x == y
    ensures MayLeq(x, y) && MayLeq(y, z) ==> MayLeq(x, z)
    ensures MayLeq(x, y) && x.Holds(s, assoc) ==> y.Holds(s, assoc)
  {
    MayJoinExact(x, y, assoc);
    if MayLeq(x, y) && MayLeq(y, x) {
      SameMay(x, y, assoc);
    }
  }

  lemma SameMay(x: May, y: May, assoc: nat)
    requires x.Valid(assoc) && y.Valid(assoc)
    requires x.implicitAge == y.implicitAge && forall u :: x.MinAge(u) == y.MinAge(u)
    ensures x == y
  {
    forall u | u in x.tags ensures u in y.tags && y.tags[u] == x.tags[u] {
      assert x.MinAge(u) == y.MinAge(u);
    }
    forall u | u in y.tags ensures u in x.tags {
      assert x.MinAge(u) == y.MinAge(u);
    }
  }

  lemma MayLeqIsJoin(x: May, y: May, assoc: nat)
    requires x.Valid(assoc) && y.Valid(assoc)
    ensures MayLeq(x, y) <==> MayJoin(x, y) == y
  {
    MayJoinExact(x, y, assoc);
    if MayLeq(x, y) {
      SameMay(MayJoin(x, y), y, assoc);
    }
  }

  lemma MayClassifySound(m: May, s: seq<Tag>, t: Tag, assoc: nat)
    requires IsLruSet(s, assoc) && m.Holds(s, assoc)
    ensures MayClassify(m, t, assoc) == Miss ==> t !in s
  {
    AgesDiffer(s, t, t + 1, assoc);
  }

  // ---------- The list representation ----------

  /** The entries younger than the implicit bound; the others carry no information. */
  method RemoveRedundantTags(es: seq<Entry>, implicitAge: nat) returns (r: seq<Entry>)
    requires Sorted(es)
    ensures Sorted(r) && forall e :: e in r <==> e in es && e.age < implicitAge
  {
    var size := |es|;
    while size > 0 && es[size - 1].age >= implicitAge
      invariant 0 <= size <= |es|
      invariant forall k :: size <= k < |es| ==> es[k].age >= implicitAge
    {
      size := size - 1;
    }
    r := es[..size];
    forall k | 0 <= k < size ensures es[k].age < implicitAge {
      assert k == size - 1 || Less(es[k], es[size - 1]);
    }
  }

  /**
   Moves the entry at `i` right past the entries of the same age with smaller tags.
   Only the tags move, the ages there are all equal.
   */
  method SiftRight(es: seq<Entry>, i: nat) returns (r: seq<Entry>)
    requires i < |es| && Sorted(es[i + 1..])
    requires forall k :: i < k < |es| ==> es[k].age >= es[i].age && es[k].tag != es[i].tag
    ensures r == es[..i] + Insert(es[i], es[i + 1..])
  {
    r := es;
    var e := es[i];
    ghost var rest := es[i + 1..];
    var p := i;
    while p < |r| - 1 && r[p + 1].age <= e.age && r[p + 1].tag < e.tag
      invariant i <= p < |r| == |es|
      invariant forall k :: 0 <= k < i ==> r[k] == es[k]
      invariant forall k :: 0 <= k < p - i ==> r[i + k] == rest[k] && rest[k].age == e.age && rest[k].tag < e.tag
      invariant forall k :: p < k < |es| ==> r[k] == es[k]
      invariant r[p].age == e.age
    {
      assert r[p + 1] == rest[p - i];
      r := r[p := r[p].(tag := r[p + 1].tag)];
      p := p + 1;
    }
    SiftedIn(es, r, i, p, rest);
    r := r[p := r[p].(tag := e.tag)];
  }

  /** Where the entry goes that has been moved past the smaller ones up to `p`. */
  lemma SiftedIn(es: seq<Entry>, s: seq<Entry>, i: nat, p: nat, rest: seq<Entry>)
    requires i <= p < |s| == |es| && rest == es[i + 1..] && Sorted(rest)
    requires forall k :: i < k < |es| ==> es[k].age >= es[i].age && es[k].tag != es[i].tag
    requires forall k :: 0 <= k < i ==> s[k] == es[k]
    requires forall k :: 0 <= k < p - i ==>
      s[i + k] == rest[k] && rest[k].age == es[i].age && rest[k].tag < es[i].tag
    requires forall k :: p < k < |es| ==> s[k] == es[k]
    requires s[p].age == es[i].age && (p == |s| - 1 || s[p + 1].age > es[i].age || s[p + 1].tag >= es[i].tag)
    ensures s[p := s[p].(tag := es[i].tag)] == es[..i] + Insert(es[i], rest)
  {
    InsertAt(es[i], rest, p - i);
  }

  /** Shifts the first `n` entries one to the right, ageing each, and puts `t` in front. */
  method ShiftFront(es: seq<Entry>, n: nat, t: Tag) returns (r: seq<Entry>)
    requires n < |es|
    ensures |r| == |es| && r[0] == Entry(t, 0)
    ensures forall k :: 0 < k <= n ==> r[k] == Entry(es[k - 1].tag, es[k - 1].age + 1)
    ensures forall k :: n < k < |es| ==> r[k] == es[k]
  {
    r := es;
    var i := n;
    while i > 0
      invariant 0 <= i <= n && |r| == |es|
      invariant forall k :: 0 <= k <= i ==> r[k] == es[k] || k == i
      invariant forall k :: i < k <= n ==> r[k] == Entry(es[k - 1].tag, es[k - 1].age + 1)
      invariant forall k :: n < k < |es| ==> r[k] == es[k]
    {
      r := r[i := Entry(r[i - 1].tag, r[i - 1].age + 1)];
      i := i - 1;
    }
    r := r[0 := Entry(t, 0)];
  }

  /** Entries younger than `accessed` by more than one age without changing places. */
  lemma {:induction false} AgeAllYoung(es: seq<Entry>, rest: seq<Entry>, accessed: nat)
    requires Sorted(es + rest) && forall i, j :: 0 <= i < j < |es + rest| ==> (es + rest)[i].tag != (es + rest)[j].tag
    requires forall k :: 0 <= k < |es| ==> es[k].age + 1 < accessed
    ensures |AgeAll(es + rest, accessed)| == |es| + |rest|
    ensures forall k :: 0 <= k < |es| ==> AgeAll(es + rest, accessed)[k] == Entry(es[k].tag, es[k].age + 1)
    ensures AgeAll(es + rest, accessed)[|es|..] == AgeAll(rest, accessed)
  {
    if es == [] {
      assert es + rest == rest;
    } else {
      assert (es + rest)[1..] == es[1..] + rest;
      AgeAllYoung(es[1..], rest, accessed);
      InsertInPlace(es + rest, accessed);
    }
  }

  /** Left of `pos`, the entries of the accessed age move one to the right and age. */
  method AgeLeft(es: seq<Entry>, pos: nat) returns (r: seq<Entry>, lower: nat)
    requires Sorted(es) && pos < |es|
    ensures |r| == |es| && lower <= pos
    ensures forall k :: 0 <= k < lower ==> r[k] == es[k] && es[k].age < es[pos].age
    ensures forall k :: lower <= k < pos ==> r[k + 1] == Entry(es[k].tag, es[pos].age + 1) && es[k].age == es[pos].age
    ensures forall k :: pos < k < |es| ==> r[k] == es[k]
  {
    var age := es[pos].age;
    r := es;
    var i: int := pos - 1;
    while i >= 0 && r[i].age == age
      invariant -1 <= i < pos && |r| == |es|
      invariant forall k :: 0 <= k <= i ==> r[k] == es[k]
      invariant forall k :: i < k < pos ==> r[k + 1] == Entry(es[k].tag, age + 1) && es[k].age == age
      invariant forall k :: pos < k < |es| ==> r[k] == es[k]
    {
      r := r[i + 1 := Entry(r[i].tag, age + 1)];
      i := i - 1;
    }
    lower := i + 1;
    forall k | 0 <= k < lower ensures es[k].age < age {
      assert k == i || Less(es[k], es[i]);
      assert Less(es[i], es[pos]);
    }
  }

  /** Right of `pos`, they age in place. */
  method AgeRight(es: seq<Entry>, pos: nat, age: nat) returns (r: seq<Entry>, upper: nat)
    requires pos < |es|
    requires forall k :: pos < k < |es| ==> es[k].age >= age
    requires forall k, l :: pos < k < l < |es| ==> es[k].age <= es[l].age
    ensures |r| == |es| && pos <= upper < |es|
    ensures forall k :: 0 <= k <= pos ==> r[k] == es[k]
    ensures forall k :: pos < k <= upper ==> r[k] == Entry(es[k].tag, age + 1) && es[k].age == age
    ensures forall k :: upper < k < |es| ==> r[k] == es[k] && es[k].age > age
  {
    r := es;
    var i := pos + 1;
    while i < |r| && r[i].age == age
      invariant pos < i <= |es| == |r|
      invariant forall k :: 0 <= k <= pos ==> r[k] == es[k]
      invariant forall k :: pos < k < i ==> r[k] == Entry(es[k].tag, age + 1) && es[k].age == age
      invariant forall k :: i <= k < |es| ==> r[k] == es[k]
    {
      r := r[i := r[i].(age := age + 1)];
      i := i + 1;
    }
    upper := i - 1;
  }

  method MergeOne(es: seq<Entry>, ghost others: seq<Entry>, i: nat, accessed: nat) returns (r: seq<Entry>)
    requires Sorted(others) && forall i, j :: 0 <= i < j < |others| ==> others[i].tag != others[j].tag
    requires 0 < i < |es| == |others| + 1
    requires es[i] == AgedEntry(others[i - 1], accessed) && es[i + 1..] == AgeAll(others[i..], accessed)
    ensures |r| == |es| && forall k :: 0 <= k < i ==> r[k] == es[k]
    ensures r[i..] == AgeAll(others[i - 1..], accessed)
  {
    ghost var tail := AgeAll(others[i..], accessed);
    AgeAllContents(others[i..], accessed);
    assert others[i - 1..][1..] == others[i..];
    InsertInPlace(others[i - 1..], accessed);
    forall k | i < k < |es| ensures es[k].age >= es[i].age && es[k].tag != es[i].tag {
      assert es[k] == es[i + 1..][k - i - 1];
      assert tail[k - i - 1] in tail;
    }
    r := SiftRight(es, i);
  }

  /** The aged entries at `lower + 1` to `upper` are merged into the ones that already had their age. */
  method MergeEquals(es: seq<Entry>, ghost others: seq<Entry>, lower: nat, upper: nat, accessed: nat)
    returns (r: seq<Entry>)
    requires Sorted(others) && forall i, j :: 0 <= i < j < |others| ==> others[i].tag != others[j].tag
    requires lower <= upper < |es| == |others| + 1
    requires forall k :: lower <= k < upper ==>
      es[k + 1] == AgedEntry(others[k], accessed) && Aged(others[k].age, accessed) == accessed
    requires forall k :: upper <= k < |others| ==> es[k + 1] == others[k] && others[k].age >= accessed
    ensures |r| == |es| && forall k :: 0 <= k <= lower ==> r[k] == es[k]
    ensures r[lower + 1..] == AgeAll(others[lower..], accessed)
  {
    r := es;
    var i := upper;
    AgeAllOld(others[upper..], accessed);
    assert r[upper + 1..] == others[upper..];
    while i > lower
      invariant lower <= i <= upper && |r| == |es|
      invariant forall k :: 0 <= k <= i ==> r[k] == es[k]
      invariant r[i + 1..] == AgeAll(others[i..], accessed)
    {
      assert r[i] == AgedEntry(others[i - 1], accessed);
      r := MergeOne(r, others, i, accessed);
      i := i - 1;
    }
  }

  lemma OthersSorted(es: seq<Entry>, pos: nat, others: seq<Entry>)
    requires Sorted(es) && forall i, j :: 0 <= i < j < |es| ==> es[i].tag != es[j].tag
    requires pos < |es| && others == es[..pos] + es[pos + 1..]
    ensures Sorted(others) && forall i, j :: 0 <= i < j < |others| ==> others[i].tag != others[j].tag
  {
    assert forall k :: 0 <= k < |others| ==> others[k] == es[if k < pos then k else k + 1];
  }

  /** Where the entries other than the accessed one are after the ones of its age were aged on both sides. */
  lemma Regrouped(es: seq<Entry>, pos: nat, left: seq<Entry>, lower: nat, s: seq<Entry>, upper: nat, others: seq<Entry>,
                  age: nat)
    requires lower <= pos <= upper < |es| == |left| == |s| && others == es[..pos] + es[pos + 1..]
    requires forall k :: lower <= k < pos ==> left[k + 1] == Entry(es[k].tag, age + 1) && es[k].age == age
    requires forall k :: pos < k < |es| ==> left[k] == es[k]
    requires forall k :: 0 <= k <= pos ==> s[k] == left[k]
    requires forall k :: pos < k <= upper ==> s[k] == Entry(left[k].tag, age + 1) && left[k].age == age
    requires forall k :: upper < k < |es| ==> s[k] == left[k] && left[k].age > age
    ensures |others| == |es| - 1
    ensures forall k :: lower <= k < upper ==>
      s[k + 1] == AgedEntry(others[k], age + 1) && Aged(others[k].age, age + 1) == age + 1
    ensures forall k :: upper <= k < |others| ==> s[k + 1] == others[k] && others[k].age >= age + 1
  {
    forall k | lower <= k < upper ensures s[k + 1] == AgedEntry(others[k], age + 1) && others[k].age == age {
      assert k < pos ==> left[k + 1] == Entry(es[k].tag, age + 1);
      assert k >= pos ==> others[k] == es[k + 1] == left[k + 1];
    }
    forall k | upper <= k < |others| ensures s[k + 1] == others[k] && others[k].age >= age + 1 {
      assert others[k] == es[k + 1] == left[k + 1];
    }
  }

  /** The tags of the accessed age, on both sides of the accessed entry, age by one. */
  method AgeBothSides(es: seq<Entry>, pos: nat, ghost others: seq<Entry>)
    returns (s: seq<Entry>, lower: nat, upper: nat)
    requires Sorted(es) && forall i, j :: 0 <= i < j < |es| ==> es[i].tag != es[j].tag
    requires pos < |es| && others == es[..pos] + es[pos + 1..]
    ensures lower <= pos && lower <= upper < |es| == |s| == |others| + 1
    ensures forall k :: 0 <= k < lower ==> s[k] == es[k] && es[k].age < es[pos].age
    ensures forall k :: lower <= k < upper ==>
      s[k + 1] == AgedEntry(others[k], es[pos].age + 1) && Aged(others[k].age, es[pos].age + 1) == es[pos].age + 1
    ensures forall k :: upper <= k < |others| ==> s[k + 1] == others[k] && others[k].age >= es[pos].age + 1
  {
    var left;
    left, lower := AgeLeft(es, pos);
    s, upper := AgeRight(left, pos, es[pos].age);
    Regrouped(es, pos, left, lower, s, upper, others, es[pos].age);
    assert forall k :: 0 <= k < lower ==> s[k] == left[k] && left[k] == es[k];
  }

  /** They are merged with those that already had the next age. Slot `lower` becomes free. */
  method AgeEquals(es: seq<Entry>, pos: nat, ghost others: seq<Entry>) returns (r: seq<Entry>, lower: nat)
    requires Sorted(es) && forall i, j :: 0 <= i < j < |es| ==> es[i].tag != es[j].tag
    requires pos < |es| && others == es[..pos] + es[pos + 1..]
    ensures lower <= pos && |r| == |es|
    ensures forall k :: 0 <= k < lower ==> r[k] == es[k] && es[k].age < es[pos].age
    ensures r[lower + 1..] == AgeAll(others[lower..], es[pos].age + 1)
  {
    var s, upper;
    s, lower, upper := AgeBothSides(es, pos, others);
    OthersSorted(es, pos, others);
    r := MergeEquals(s, others, lower, upper, es[pos].age + 1);
  }

  /** The survivors are distinct, and the list they leave with the accessed tag in front is sorted. */
  lemma MayShiftedList(es: seq<Entry>, kept: seq<Entry>, b: Bounds, t: Tag, accessed: nat, assoc: nat)
    requires accessed >= 1 && Lists(es, b) && Survivors(kept, es, t, accessed, assoc)
    ensures forall i, j :: 0 <= i < j < |kept| ==> kept[i].tag != kept[j].tag
    ensures Sorted([Entry(t, 0)] + AgeAll(kept, accessed))
    ensures forall f :: f in AgeAll(kept, accessed) <==> exists e :: e in kept && f == AgedEntry(e, accessed)
  {
    forall i, j | 0 <= i < j < |kept| ensures kept[i].tag != kept[j].tag {
      assert kept[i] in kept && kept[j] in kept;
    }
    AgeAllContents(kept, accessed);
    var aged := AgeAll(kept, accessed);
    forall k | 0 <= k < |aged| ensures aged[k].age >= 1 {
      assert aged[k] in aged;
    }
  }

  /** What remains of that list lists the updated bounds. */
  lemma MayUpdatedList(es: seq<Entry>, kept: seq<Entry>, r: seq<Entry>, m: May, t: Tag, assoc: nat)
    requires assoc >= 1 && m.Valid(assoc) && Lists(es, m.tags)
    requires Survivors(kept, es, t, m.MinAge(t) + 1, assoc)
    requires forall e :: e in r <==>
      e in [Entry(t, 0)] + AgeAll(kept, m.MinAge(t) + 1) && e.age < MayUpdate(m, t, assoc).implicitAge
    ensures Lists(r, MayUpdate(m, t, assoc).tags)
  {
    var a, m' := m.MinAge(t), MayUpdate(m, t, assoc);
    MayShiftedList(es, kept, m.tags, t, a + 1, assoc);
    forall f: Entry ensures f in r <==> f.tag in m'.tags && m'.tags[f.tag] == f.age {
      if f.tag in m'.tags && m'.tags[f.tag] == f.age && f.tag != t {
        var e := Entry(f.tag, m.tags[f.tag]);
        assert e in es && e in kept && AgedEntry(e, a + 1) in AgeAll(kept, a + 1);
      }
      if f in AgeAll(kept, a + 1) {
        var e :| e in kept && f == AgedEntry(e, a + 1);
        assert e in es;
      }
    }
  }

  /** Nothing young enough to need sorting: the list is shifted and every entry ages. */
  lemma AgeAllPlain(es: seq<Entry>, accessed: nat)
    requires Sorted(es) && forall i, j :: 0 <= i < j < |es| ==> es[i].tag != es[j].tag
    requires forall k :: 0 <= k < |es| ==> es[k].age + 1 < accessed
    ensures forall k :: 0 <= k < |es| ==> AgeAll(es, accessed)[k] == Entry(es[k].tag, es[k].age + 1)
  {
    assert es + [] == es;
    AgeAllYoung(es, [], accessed);
  }

  /** When the accessed tag is not younger than assoc - 1, exactly the entries of that age leave. */
  lemma OldestLeave(es: seq<Entry>, kept: seq<Entry>, m: May, t: Tag, assoc: nat)
    requires assoc >= 1 && Sorted(es) && Lists(es, m.tags) && m.Valid(assoc) && Sorted(kept)
    requires t in m.tags ==> m.tags[t] == assoc - 1
    requires forall e :: e in kept <==> e in es && e.age + 1 < assoc
    ensures Survivors(kept, es, t, m.MinAge(t) + 1, assoc)
    ensures forall k :: 0 <= k < |kept| ==> kept[k].age < m.MinAge(t)
    ensures forall i, j :: 0 <= i < j < |kept| ==> kept[i].tag != kept[j].tag
  {
    forall e | e in es ensures e.tag in m.tags && e.age == m.tags[e.tag] {}
    forall k | 0 <= k < |kept| ensures kept[k].age < m.MinAge(t) {
      assert kept[k] in kept;
    }
    forall i, j | 0 <= i < j < |kept| ensures kept[i].tag != kept[j].tag {
      assert kept[i] in kept && kept[j] in kept;
    }
  }

  method ShiftAll(es: seq<Entry>, t: Tag, ghost accessed: nat) returns (r: seq<Entry>)
    requires Sorted(es) && forall i, j :: 0 <= i < j < |es| ==> es[i].tag != es[j].tag
    requires forall k :: 0 <= k < |es| ==> es[k].age + 1 < accessed
    ensures r == [Entry(t, 0)] + AgeAll(es, accessed)
  {
    AgeAllPlain(es, accessed);
    r := ShiftFront(es + [Entry(t, 0)], |es|, t);
  }

  /** The shifted young part and the aged rest are together the aged list. */
  lemma ShiftedIsAgeAll(s: seq<Entry>, r: seq<Entry>, kept: seq<Entry>, lower: nat, t: Tag, accessed: nat)
    requires Sorted(kept) && forall i, j :: 0 <= i < j < |kept| ==> kept[i].tag != kept[j].tag
    requires lower <= |kept| && |s| == |r| == |kept| + 1 && r[0] == Entry(t, 0)
    requires forall k :: 0 <= k < lower ==> s[k] == kept[k] && kept[k].age + 1 < accessed
    requires s[lower + 1..] == AgeAll(kept[lower..], accessed)
    requires forall k :: 0 < k <= lower ==> r[k] == Entry(s[k - 1].tag, s[k - 1].age + 1)
    requires forall k :: lower < k < |s| ==> r[k] == s[k]
    ensures r == [Entry(t, 0)] + AgeAll(kept, accessed)
  {
    var aged, tail := AgeAll(kept, accessed), AgeAll(kept[lower..], accessed);
    AgedInTwoParts(kept, lower, accessed, aged, tail);
    forall k | 0 < k < |r| ensures r[k] == aged[k - 1] {
      if k > lower {
        assert r[k] == s[lower + 1..][k - lower - 1] && s[lower + 1..][k - lower - 1] == tail[k - lower - 1];
      }
    }
  }

  /** The younger entries age in place, in front of the others. */
  lemma AgedInTwoParts(kept: seq<Entry>, lower: nat, accessed: nat, aged: seq<Entry>, tail: seq<Entry>)
    requires Sorted(kept) && forall i, j :: 0 <= i < j < |kept| ==> kept[i].tag != kept[j].tag
    requires lower <= |kept| && aged == AgeAll(kept, accessed) && tail == AgeAll(kept[lower..], accessed)
    requires forall k :: 0 <= k < lower ==> kept[k].age + 1 < accessed
    ensures |aged| == |kept| == lower + |tail|
    ensures forall k :: 0 <= k < lower ==> aged[k] == Entry(kept[k].tag, kept[k].age + 1)
    ensures forall k :: lower <= k < |kept| ==> aged[k] == tail[k - lower]
  {
    var young := kept[..lower];
    assert young + kept[lower..] == kept;
    AgeAllYoung(young, kept[lower..], accessed);
    forall k | lower <= k < |kept| ensures aged[k] == tail[k - lower] {
      assert aged[lower..][k - lower] == aged[k];
    }
  }

  lemma YoungerKept(es: seq<Entry>, pos: nat, kept: seq<Entry>, s: seq<Entry>, lower: nat)
    requires lower <= pos < |es| == |s| && kept == es[..pos] + es[pos + 1..]
    requires forall k :: 0 <= k < lower ==> s[k] == es[k] && es[k].age < es[pos].age
    ensures |kept| == |es| - 1
    ensures forall k :: 0 <= k < lower ==> s[k] == kept[k] && kept[k].age + 1 < es[pos].age + 1
  {}

  /** The whole list update for an entry that is found and not among the oldest. */
  method AgeAround(es: seq<Entry>, pos: nat, ghost kept: seq<Entry>) returns (r: seq<Entry>)
    requires Sorted(es) && forall i, j :: 0 <= i < j < |es| ==> es[i].tag != es[j].tag
    requires pos < |es| && kept == es[..pos] + es[pos + 1..]
    ensures r == [Entry(es[pos].tag, 0)] + AgeAll(kept, es[pos].age + 1)
  {
    var s, lower := AgeEquals(es, pos, kept);
    r := ShiftFront(s, lower, es[pos].tag);
    YoungerKept(es, pos, kept, s, lower);
    OthersSorted(es, pos, kept);
    ShiftedIsAgeAll(s, r, kept, lower, es[pos].tag, es[pos].age + 1);
  }

  /** Every entry but the accessed one survives an access to an entry younger than assoc - 1. */
  lemma OthersSurvive(es: seq<Entry>, m: May, pos: nat, assoc: nat)
    requires Sorted(es) && Lists(es, m.tags) && m.Valid(assoc) && pos < |es| && es[pos].age < assoc - 1
    ensures Survivors(es[..pos] + es[pos + 1..], es, es[pos].tag, es[pos].age + 1, assoc)
    ensures forall i, j :: 0 <= i < j < |es| ==> es[i].tag != es[j].tag
  {
    TagsDiffer(es, m.tags);
    assert forall e :: e in es <==> e in es[..pos] || e == es[pos] || e in es[pos + 1..];
    forall e | e in es ensures e.age < assoc {
      assert e.tag in m.tags;
    }
  }

  /** The listed tags that an update proves evicted. */
  lemma MayEvicted(m: May, t: Tag, assoc: nat)
    requires assoc >= 1 && m.Valid(assoc)
    ensures forall u :: u in m.tags && MayUpdate(m, t, assoc).MinAge(u) == assoc <==>
      u in m.tags && u != t && m.tags[u] == assoc - 1 <= m.MinAge(t)
  {}

  /** `es` followed by one entry of age 0 for every tag from `low` to `high`. */
  method PushRange(es: seq<Entry>, low: Tag, high: Tag) returns (r: seq<Entry>)
    requires low <= high && Sorted(es) && forall e :: e in es ==> e.age == 0 && e.tag < low
    ensures Sorted(r) && forall e: Entry :: e in r <==> e in es || (e.age == 0 && low <= e.tag <= high)
  {
    r := es;
    var t := low;
    while t <= high
      invariant low <= t <= high + 1 && Sorted(r)
      invariant forall e: Entry :: e in r <==> e in es || (e.age == 0 && low <= e.tag < t)
    {
      forall k | 0 <= k < |r| ensures Less(r[k], Entry(t, 0)) {
        assert r[k] in r;
      }
      r := r + [Entry(t, 0)];
      t := t + 1;
    }
  }

  /** The potentially accessed tags become the youngest; nobody else changes. */
  method InsertRange(es: seq<Entry>, low: Tag, high: Tag) returns (r: seq<Entry>)
    requires low <= high && Sorted(es)
    ensures Sorted(r)
    ensures forall e: Entry :: e in r <==>
      (e.age == 0 && low <= e.tag <= high) || (e in es && !(low <= e.tag <= high))
  {
    r := [];
    var inserted := false;
    var i := 0;
    while i < |es|
      invariant 0 <= i <= |es| && Sorted(r)
      invariant forall e: Entry :: e in r <==>
        (inserted && e.age == 0 && low <= e.tag <= high) || (e in es[..i] && !(low <= e.tag <= high))
      invariant !inserted ==> forall e :: e in r ==> e.age == 0 && e.tag < low
      invariant inserted ==> i > 0 && (es[i - 1].age > 0 || es[i - 1].tag >= low)
    {
      var info := es[i];
      if !inserted && (info.age > 0 || info.tag >= low) {
        r := PushRange(r, low, high);
        inserted := true;
      }
      assert es[..i + 1] == es[..i] + [info];
      if info.tag < low || info.tag > high {
        forall k | 0 <= k < |r| ensures Less(r[k], info) {
          assert r[k] in r;
          if r[k] in es[..i] {
            var j :| 0 <= j < i && es[..i][j] == r[k];
            assert es[j] == r[k];
          } else {
            assert i > 0 ==> es[i - 1] == info || Less(es[i - 1], info);
          }
        }
        r := r + [info];
      }
      i := i + 1;
    }
    assert es[..i] == es;
    if !inserted {
      r := PushRange(r, low, high);
    }
  }

  /** The explicit bound of a join before redundant entries are dropped. */
  function ExplicitMin(x: Bounds, y: Bounds): Bounds {
    map u | u in x.Keys + y.Keys ::
      if u in x && u in y then Min(x[u], y[u]) else if u in x then x[u] else y[u]
  }

  /** The ascending merge has visited `i` and `j` entries, all below the ones to come. */
  ghost predicate MergeOrder(xs: seq<Entry>, ys: seq<Entry>, i: nat, j: nat) {
    && i <= |xs| && j <= |ys|
    && (forall k, l :: 0 <= k < i && j <= l < |ys| ==> !Less(ys[l], xs[k]))
    && (forall k, l :: i <= k < |xs| && 0 <= l < j ==> Less(ys[l], xs[k]))
  }

  ghost function Visited(xs: seq<Entry>, ys: seq<Entry>, i: nat, j: nat): set<Entry>
    requires i <= |xs| && j <= |ys|
  {
    (set e | e in xs[..i]) + (set e | e in ys[..j])
  }

  /** `out` lists, in order, the bindings of `m` among the visited entries. */
  ghost predicate Collected(out: seq<Entry>, m: Bounds, visited: set<Entry>) {
    && Sorted(out)
    && forall e: Entry :: e in out <==> e in visited && e.tag in m && m[e.tag] == e.age
  }

  lemma CollectStep(out: seq<Entry>, m: Bounds, visited: set<Entry>, e: Entry, fresh': bool)
    requires Collected(out, m, visited)
    requires fresh' <==> e !in visited && e.tag in m && m[e.tag] == e.age
    requires forall f :: f in visited && f != e ==> Less(f, e)
    ensures Collected(if fresh' then out + [e] else out, m, visited + {e})
  {}

  ghost predicate HasTag(es: seq<Entry>, n: nat, t: Tag)
    requires n <= |es|
  {
    exists k :: 0 <= k < n && es[k].tag == t
  }

  /**
   The tag of `e` was seen on the other side exactly if that side bounds it at least as
   well as e does, unless e itself is still to come there.
   */
  lemma SearchVisited(es: seq<Entry>, b: Bounds, n: nat, e: Entry)
    requires Sorted(es) && Lists(es, b) && n <= |es|
    requires forall k :: 0 <= k < n ==> !Less(e, es[k])
    requires forall k :: n <= k < |es| ==> !Less(es[k], e)
    ensures HasTag(es, n, e.tag) <==> e.tag in b && (b[e.tag] < e.age || e in es[..n])
  {
    KeysListed(es, b);
    TagsDiffer(es, b);
    if HasTag(es, n, e.tag) {
      var k :| 0 <= k < n && es[k].tag == e.tag;
      assert es[k] in es && es[..n][k] == es[k];
    }
    if e.tag in b && b[e.tag] < e.age {
      var k :| 0 <= k < |es| && es[k] == Entry(e.tag, b[e.tag]);
      assert Less(es[k], e);
    } else if e in es[..n] {
      var k :| 0 <= k < n && es[..n][k] == e;
      assert es[k].tag == e.tag;
    }
  }

  lemma MergeStepX(xs: seq<Entry>, ys: seq<Entry>, x: Bounds, y: Bounds, i: nat, j: nat)
    requires Sorted(xs) && Lists(xs, x) && Sorted(ys) && Lists(ys, y) && MergeOrder(xs, ys, i, j)
    requires i < |xs| && (j == |ys| || !Less(ys[j], xs[i]))
    ensures MergeOrder(xs, ys, i + 1, j)
    ensures Visited(xs, ys, i + 1, j) == Visited(xs, ys, i, j) + {xs[i]}
    ensures forall f :: f in Visited(xs, ys, i, j) ==> Less(f, xs[i])
    ensures !HasTag(ys, j, xs[i].tag) <==>
      xs[i] !in Visited(xs, ys, i, j) && ExplicitMin(x, y)[xs[i].tag] == xs[i].age
  {
    var e := xs[i];
    assert xs[..i + 1] == xs[..i] + [e];
    assert e in xs;
    forall k, l | 0 <= k < i + 1 && j <= l < |ys| ensures !Less(ys[l], xs[k]) {
      assert l == j || Less(ys[j], ys[l]);
    }
    SearchVisited(ys, y, j, e);
  }

  lemma MergeStepY(xs: seq<Entry>, ys: seq<Entry>, x: Bounds, y: Bounds, i: nat, j: nat)
    requires Sorted(xs) && Lists(xs, x) && Sorted(ys) && Lists(ys, y) && MergeOrder(xs, ys, i, j)
    requires j < |ys| && (i == |xs| || Less(ys[j], xs[i]))
    ensures MergeOrder(xs, ys, i, j + 1)
    ensures Visited(xs, ys, i, j + 1) == Visited(xs, ys, i, j) + {ys[j]}
    ensures forall f :: f in Visited(xs, ys, i, j) && f != ys[j] ==> Less(f, ys[j])
    ensures !HasTag(xs, i, ys[j].tag) <==>
      ys[j] !in Visited(xs, ys, i, j) && ExplicitMin(x, y)[ys[j].tag] == ys[j].age
  {
    var e := ys[j];
    assert ys[..j + 1] == ys[..j] + [e];
    assert e in ys;
    forall k, l | i <= k < |xs| && 0 <= l < j + 1 ensures Less(ys[l], xs[k]) {
      assert k == i || Less(xs[i], xs[k]);
    }
    SearchVisited(xs, x, i, e);
  }

  /** Searches backwards from `n`. */
  method SearchBackwards(es: seq<Entry>, n: nat, tag: Tag) returns (found: bool)
    requires n <= |es|
    ensures found <==> HasTag(es, n, tag)
  {
    var first := n;
    while first > 0
      invariant 0 <= first <= n
      invariant forall k :: first <= k < n ==> es[k].tag != tag
    {
      first := first - 1;
      if es[first].tag == tag {
        return true;
      }
    }
    return false;
  }

  /** Takes the lesser of the two next entries and looks whether its tag was seen before. */
  method VisitLesser(xs: seq<Entry>, ys: seq<Entry>, i: nat, j: nat, ghost x: Bounds, ghost y: Bounds)
    returns (i': nat, j': nat, joined: Entry, found: bool)
    requires Sorted(xs) && Lists(xs, x) && Sorted(ys) && Lists(ys, y)
    requires MergeOrder(xs, ys, i, j) && (i < |xs| || j < |ys|)
    ensures i' + j' == i + j + 1 && MergeOrder(xs, ys, i', j')
    ensures Visited(xs, ys, i', j') == Visited(xs, ys, i, j) + {joined}
    ensures forall f :: f in Visited(xs, ys, i, j) && f != joined ==> Less(f, joined)
    ensures joined.tag in x.Keys + y.Keys
    ensures !found <==> joined !in Visited(xs, ys, i, j) && ExplicitMin(x, y)[joined.tag] == joined.age
  {
    var xElemIsLesser := i < |xs| && (j == |ys| || xs[i].age < ys[j].age
                         || (xs[i].age == ys[j].age && xs[i].tag <= ys[j].tag));
    if xElemIsLesser {
      assert xs[i] in xs;
      MergeStepX(xs, ys, x, y, i, j);
      joined := xs[i];
      found := SearchBackwards(ys, j, joined.tag);
      i', j' := i + 1, j;
    } else {
      assert ys[j] in ys;
      MergeStepY(xs, ys, x, y, i, j);
      joined := ys[j];
      found := SearchBackwards(xs, i, joined.tag);
      i', j' := i, j + 1;
    }
  }

  /** The one-pass ascending merge: every tag with the smaller of its explicit ages. */
  method MergeUp(xs: seq<Entry>, ys: seq<Entry>, ghost x: Bounds, ghost y: Bounds) returns (res: seq<Entry>)
    requires Sorted(xs) && Lists(xs, x) && Sorted(ys) && Lists(ys, y)
    ensures Sorted(res) && Lists(res, ExplicitMin(x, y))
  {
    var i, j := 0, 0;
    res := [];
    ghost var m := ExplicitMin(x, y);
    while i < |xs| || j < |ys|
      invariant 0 <= i && 0 <= j && MergeOrder(xs, ys, i, j) && Collected(res, m, Visited(xs, ys, i, j))
      decreases |xs| + |ys| - i - j
    {
      ghost var before, visited := res, Visited(xs, ys, i, j);
      var joined, found;
      i, j, joined, found := VisitLesser(xs, ys, i, j, x, y);
      CollectStep(before, m, visited, joined, !found);
      if !found {
        res := res + [joined];
      }
    }
    AllVisited(xs, ys, x, y, res);
  }

  lemma AllVisited(xs: seq<Entry>, ys: seq<Entry>, x: Bounds, y: Bounds, res: seq<Entry>)
    requires Lists(xs, x) && Lists(ys, y) && Collected(res, ExplicitMin(x, y), Visited(xs, ys, |xs|, |ys|))
    ensures Lists(res, ExplicitMin(x, y))
  {
    assert xs[..|xs|] == xs && ys[..|ys|] == ys;
  }

  /** Dropping the redundant explicit minima leaves exactly the join. */
  lemma JoinedList(res: seq<Entry>, r: seq<Entry>, x: May, y: May, assoc: nat)
    requires x.Valid(assoc) && y.Valid(assoc) && Lists(res, ExplicitMin(x.tags, y.tags))
    requires forall e :: e in r <==> e in res && e.age < MayJoin(x, y).implicitAge
    ensures Lists(r, MayJoin(x, y).tags)
  {
    forall e: Entry ensures e in r <==> e.tag in MayJoin(x, y).tags && MayJoin(x, y).tags[e.tag] == e.age {}
  }

  datatype MayReport = MayReport(evicted: set<Tag>, justEvictedUnknowns: bool, justIntroducedUnknowns: bool)

  class LruMinAgeCache {
    const assoc: nat
    var explicitTags: seq<Entry>
    var ageOfImplicitTags: nat
    ghost var tags: Bounds

    ghost function View(): May
      reads this
    {
      May(tags, ageOfImplicitTags)
    }

    ghost predicate Valid()
      reads this
    {
      assoc >= 1 && Sorted(explicitTags) && Lists(explicitTags, tags) && View().Valid(assoc)
    }

    constructor (assoc: nat, assumeAnEmptyCache: bool)
      requires assoc >= 1
      ensures Valid() && this.assoc == assoc
      ensures View() == May(map[], if assumeAnEmptyCache then assoc else 0)
    {
      this.assoc := assoc;
      explicitTags, tags := [], map[];
      ageOfImplicitTags := if assumeAnEmptyCache then assoc else 0;
    }

    method Search(tag: Tag) returns (pos: nat)
      requires Valid()
      ensures pos <= |explicitTags|
      ensures pos < |explicitTags| ==> explicitTags[pos] == Entry(tag, View().MinAge(tag)) && tag in tags
      ensures pos == |explicitTags| ==> tag !in tags && forall e :: e in explicitTags ==> e.tag != tag
      ensures forall k :: 0 <= k < pos ==> explicitTags[k].tag != tag
    {
      pos := 0;
      while pos < |explicitTags| && explicitTags[pos].tag != tag
        invariant 0 <= pos <= |explicitTags|
        invariant forall k :: 0 <= k < pos ==> explicitTags[k].tag != tag
      {
        pos := pos + 1;
      }
      KeysListed(explicitTags, tags);
      if pos < |explicitTags| {
        assert explicitTags[pos] in explicitTags;
      }
    }

    method GetMinAge(tag: Tag) returns (age: nat)
      requires Valid()
      ensures age == View().MinAge(tag)
    {
      var pos := Search(tag);
      age := if pos < |explicitTags| then explicitTags[pos].age else ageOfImplicitTags;
    }

    method Classify(tag: Tag) returns (cl: Classification)
      requires Valid()
      ensures cl == MayClassify(View(), tag, assoc)
    {
      if ageOfImplicitTags < assoc {
        cl := Unknown;
      } else {
        var pos := Search(tag);
        if pos < |explicitTags| {
          cl := if explicitTags[pos].age >= assoc then Miss else Unknown;
        } else {
          cl := Miss;
        }
      }
    }

    /** Walks back over the entries of age assoc - 1, all of which leave. */
    method TrimOldest(pos: nat) returns (size: nat, evicted: set<Tag>)
      requires Valid()
      ensures size <= |explicitTags|
      ensures forall k :: 0 <= k < size ==> explicitTags[k].age < assoc - 1
      ensures forall k :: size <= k < |explicitTags| ==> explicitTags[k].age == assoc - 1
      ensures forall e :: e in explicitTags[..size] <==> e in explicitTags && e.age + 1 < assoc
      ensures evicted == set k | size <= k < |explicitTags| && k != pos :: explicitTags[k].tag
    {
      size := |explicitTags|;
      evicted := {};
      forall k | 0 <= k < |explicitTags| ensures explicitTags[k].age < ageOfImplicitTags {
        assert explicitTags[k] in explicitTags;
      }
      while size > 0 && explicitTags[size - 1].age == assoc - 1
        invariant 0 <= size <= |explicitTags|
        invariant forall k :: size <= k < |explicitTags| ==> explicitTags[k].age == assoc - 1
        invariant evicted == set k | size <= k < |explicitTags| && k != pos :: explicitTags[k].tag
      {
        if pos != size - 1 && ageOfImplicitTags == assoc {
          evicted := evicted + {explicitTags[size - 1].tag};
        }
        size := size - 1;
      }
      YoungPrefix(explicitTags, size, assoc);
    }

    /**
     The accessed tag is not listed, or is among the oldest: every younger entry
     ages, and the entries of age assoc - 1 leave.
     */
    method AgeYounger(tag: Tag, pos: nat, ghost m: May)
      returns (r: seq<Entry>, evicted: set<Tag>, ghost kept: seq<Entry>)
      requires Valid() && pos <= |explicitTags| && m.tags == tags && m.Valid(assoc)
      requires tag in tags ==> pos < |explicitTags| && explicitTags[pos].tag == tag && tags[tag] == assoc - 1
      requires tag !in tags ==> pos == |explicitTags|
      ensures Survivors(kept, explicitTags, tag, m.MinAge(tag) + 1, assoc)
      ensures r == [Entry(tag, 0)] + AgeAll(kept, m.MinAge(tag) + 1)
      ensures forall u :: u in evicted <==> u in tags && u != tag && tags[u] == assoc - 1
    {
      var size;
      size, evicted := TrimOldest(pos);
      EvictedAt(pos, size, evicted, tag);
      kept := explicitTags[..size];
      OldestLeave(explicitTags, kept, m, tag, assoc);
      r := ShiftAll(explicitTags[..size], tag, m.MinAge(tag) + 1);
    }

    lemma EvictedAt(pos: nat, size: nat, evicted: set<Tag>, tag: Tag)
      requires Valid() && size <= |explicitTags|
      requires tag in tags ==> pos < |explicitTags| && explicitTags[pos].tag == tag
      requires tag !in tags ==> pos == |explicitTags|
      requires forall k :: 0 <= k < size ==> explicitTags[k].age != assoc - 1
      requires forall k :: size <= k < |explicitTags| ==> explicitTags[k].age == assoc - 1
      requires evicted == set k | size <= k < |explicitTags| && k != pos :: explicitTags[k].tag
      ensures forall u :: u in evicted <==> u in tags && u != tag && tags[u] == assoc - 1
    {
      TagsDiffer(explicitTags, tags);
      forall u | u in evicted ensures u in tags && u != tag && tags[u] == assoc - 1 {
        var k :| size <= k < |explicitTags| && k != pos && explicitTags[k].tag == u;
        assert explicitTags[k] in explicitTags;
      }
      forall u | u in tags && u != tag && tags[u] == assoc - 1 ensures u in evicted {
        assert Entry(u, tags[u]) in explicitTags;
      }
    }

    /** The accessed tag is listed with age below assoc - 1: nothing is evicted. */
    method AgeUpTo(tag: Tag, pos: nat) returns (r: seq<Entry>, ghost kept: seq<Entry>)
      requires Valid() && pos < |explicitTags| && explicitTags[pos].tag == tag
      requires explicitTags[pos].age < assoc - 1
      ensures Survivors(kept, explicitTags, tag, explicitTags[pos].age + 1, assoc)
      ensures r == [Entry(tag, 0)] + AgeAll(kept, explicitTags[pos].age + 1)
    {
      kept := explicitTags[..pos] + explicitTags[pos + 1..];
      OthersSurvive(explicitTags, View(), pos, assoc);
      r := AgeAround(explicitTags, pos, kept);
    }

    /** Drops what became redundant and adopts the list as the new state. */
    method Install(tag: Tag, r: seq<Entry>, ghost es: seq<Entry>, ghost kept: seq<Entry>, ghost m: May)
      requires assoc >= 1 && m.Valid(assoc) && Lists(es, m.tags)
      requires Survivors(kept, es, tag, m.MinAge(tag) + 1, assoc)
      requires r == [Entry(tag, 0)] + AgeAll(kept, m.MinAge(tag) + 1)
      requires ageOfImplicitTags == MayUpdate(m, tag, assoc).implicitAge
      modifies this`explicitTags, this`tags
      ensures Valid() && View() == MayUpdate(m, tag, assoc)
    {
      MayUpdateValid(m, tag, assoc);
      MayShiftedList(es, kept, m.tags, tag, m.MinAge(tag) + 1, assoc);
      explicitTags := RemoveRedundantTags(r, ageOfImplicitTags);
      MayUpdatedList(es, kept, explicitTags, m, tag, assoc);
      tags := MayUpdate(m, tag, assoc).tags;
    }

    method Update(tag: Tag) returns (report: MayReport)
      requires Valid()
      modifies this
      ensures Valid()
      ensures View() == old(MayUpdate(View(), tag, assoc))
      ensures forall u :: u in report.evicted <==> u in old(tags) && View().MinAge(u) == assoc
      ensures report.justEvictedUnknowns <==> old(ageOfImplicitTags) < assoc == ageOfImplicitTags
      ensures !report.justIntroducedUnknowns
    {
      ghost var m, es := View(), explicitTags;
      MayUpdateValid(m, tag, assoc);
      var pos := Search(tag);
      var found := pos < |explicitTags|;
      var accessedAge := if found then explicitTags[pos].age else ageOfImplicitTags;
      var justEvicted := false;
      if ageOfImplicitTags <= accessedAge && ageOfImplicitTags < assoc {
        ageOfImplicitTags := ageOfImplicitTags + 1;
        justEvicted := ageOfImplicitTags == assoc;
      }
      var r, evicted := [], {};
      ghost var kept;
      if !found || accessedAge == assoc - 1 {
        r, evicted, kept := AgeYounger(tag, pos, m);
      } else {
        r, kept := AgeUpTo(tag, pos);
      }
      MayEvicted(m, tag, assoc);
      Install(tag, r, es, kept, m);
      report := MayReport(evicted, justEvicted, false);
    }

    /** An access to some tag between `low` and `high`, or no access at all. */
    method PotentialUpdate(low: Tag, high: Tag) returns (report: MayReport)
      requires Valid() && low <= high
      modifies this
      ensures Valid()
      ensures View() == old(MayPotential(View(), low, high))
      ensures report.evicted == {} && !report.justEvictedUnknowns
    {
      report := MayReport({}, false, false);
      if ageOfImplicitTags == 0 {
        KeysListed(explicitTags, tags);
        Inhabited(explicitTags);
        assert explicitTags == [];
        return;
      }
      var numTags := high - low + 1;
      if numTags > MAX_WORTHWHILE_TAGS {
        ageOfImplicitTags, explicitTags := 0, [];
        tags := map[];
        report := MayReport({}, false, true);
        return;
      }
      ghost var m := View();
      explicitTags := InsertRange(explicitTags, low, high);
      tags := MayPotential(m, low, high).tags;
    }

    method Join(y: LruMinAgeCache)
      requires Valid() && y.Valid() && assoc == y.assoc
      modifies this
      ensures Valid()
      ensures View() == old(MayJoin(View(), y.View()))
    {
      ghost var mx, my := View(), y.View();
      var res := MergeUp(explicitTags, y.explicitTags, tags, y.tags);
      ageOfImplicitTags := if ageOfImplicitTags <= y.ageOfImplicitTags then ageOfImplicitTags else y.ageOfImplicitTags;
      explicitTags := RemoveRedundantTags(res, ageOfImplicitTags);
      JoinedList(res, explicitTags, mx, my, assoc);
      MayJoinExact(mx, my, assoc);
      tags := MayJoin(mx, my).tags;
    }

    method LessEqual(y: LruMinAgeCache) returns (leq: bool)
      requires Valid() && y.Valid() && assoc == y.assoc
      ensures leq <==> MayLeq(View(), y.View())
    {
      var copy := Clone();
      copy.Join(y);
      leq := copy.Equals(y);
      MayLeqIsJoin(View(), y.View(), assoc);
    }

    method Clone() returns (copy: LruMinAgeCache)
      requires Valid()
      ensures fresh(copy) && copy.Valid() && copy.assoc == assoc && copy.View() == View()
    {
      copy := new LruMinAgeCache(assoc, false);
      copy.explicitTags, copy.ageOfImplicitTags, copy.tags := explicitTags, ageOfImplicitTags, tags;
    }

    method Equals(y: LruMinAgeCache) returns (eq: bool)
      requires Valid() && y.Valid()
      ensures eq <==> View() == y.View()
    {
      eq := ageOfImplicitTags == y.ageOfImplicitTags && explicitTags == y.explicitTags;
      SameBounds(explicitTags, y.explicitTags, tags, y.tags);
    }
  }
}
