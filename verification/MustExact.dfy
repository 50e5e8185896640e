/**
 How precise the must analysis is. Every bound it keeps is attained in some cache set the state
 stands for, so no sound update, classification or order on such bounds can be better.
 */
module MustExact {
  import opened LruSet
  import opened AgeList
  import opened Classifications
  import opened MustCache

  ghost predicate Represented(m: Bounds, s: seq<Tag>, assoc: nat) {
    IsLruSet(s, assoc) && MustHolds(m, s, assoc)
  }

  /** The bound on a tag, listed or not. */
  function BoundOf(m: Bounds, u: Tag, assoc: nat): nat {
    if u in m then m[u] else assoc
  }

  // ---------- Arranging the tags of a state in a set ----------

  lemma {:induction false} ListOf(m: Bounds) returns (es: seq<Entry>)
    ensures Sorted(es) && Lists(es, m)
    decreases |m|
  {
    if m == map[] {
      es := [];
    } else {
      var u := SomeOf(m.Keys);
      var rest := ListOf(m - {u});
      var e := Entry(u, m[u]);
      forall i | 0 <= i < |rest| ensures rest[i].tag != u {
        assert rest[i] in rest;
      }
      InsertSorted(e, rest);
      InsertContents(e, rest);
      es := Insert(e, rest);
    }
  }

  /** New tags to fill gaps with. */
  lemma {:induction false} NewTags(n: nat, used: set<Tag>) returns (q: seq<Tag>)
    ensures |q| == n && forall i :: 0 <= i < n ==> q[i] !in used
    ensures forall i, j :: 0 <= i < j < n ==> q[i] != q[j]
  {
    if n == 0 {
      q := [];
    } else {
      var x := NewTag(used);
      var rest := NewTags(n - 1, used + {x});
      q := [x] + rest;
    }
  }

  /** At position `i` the tag can still move back once for every pin that is no older than it may be. */
  ghost predicate HasRoom(m: Bounds, pins: set<Tag>, u: Tag, i: nat)
    requires u in m
  {
    i + |AtMost(m, m[u]) * pins| <= m[u]
  }

  /**
   An arrangement of all listed tags but the pins, with room left for those: each tag could
   move back once for every pin.
   */
  ghost predicate Roomy(q: seq<Tag>, m: Bounds, pins: set<Tag>) {
    && (forall i, j :: 0 <= i < j < |q| ==> q[i] != q[j])
    && (forall i :: 0 <= i < |q| ==> q[i] !in pins)
    && (forall i :: 0 <= i < |q| && q[i] in m ==> HasRoom(m, pins, q[i], i))
    && (forall u :: u in m ==> u in q || u in pins)
    && (q != [] ==> q[|q| - 1] in m)
  }

  lemma Arranged(m: Bounds, pins: set<Tag>, assoc: nat) returns (q: seq<Tag>)
    requires MustValid(m, assoc) && pins <= m.Keys
    ensures Roomy(q, m, pins) && forall x :: x in q ==> x in m
  {
    var es := ListOf(m - pins);
    TagsDiffer(es, m - pins);
    q := seq(|es|, i requires 0 <= i < |es| => es[i].tag);
    forall i | 0 <= i < |q| ensures q[i] in m - pins && HasRoom(m, pins, q[i], i) {
      ArrangedRoom(m, pins, es, i, assoc);
    }
    forall u | u in m && u !in pins ensures u in q {
      assert Entry(u, m[u]) in es;
      var j :| 0 <= j < |es| && es[j] == Entry(u, m[u]);
      assert q[j] == u;
    }
  }

  /** The first tags of the sorted list and the pins that are no older all have to fit. */
  lemma ArrangedRoom(m: Bounds, pins: set<Tag>, es: seq<Entry>, i: nat, assoc: nat)
    requires MustValid(m, assoc) && pins <= m.Keys && Sorted(es) && Lists(es, m - pins) && i < |es|
    ensures es[i].tag in m - pins && HasRoom(m, pins, es[i].tag, i)
  {
    assert es[i] in es;
    TagsDiffer(es, m - pins);
    FirstTags(es, i + 1);
    var k := m[es[i].tag];
    var first, pinned := TagsOf(es[..i + 1]), AtMost(m, k) * pins;
    forall t | t in first ensures t in AtMost(m, k) && t !in pins {
      var j :| 0 <= j <= i && es[j].tag == t;
      assert es[j] in es;
    }
    assert |first + pinned| == |first| + |pinned|;
    SubsetSize(first + pinned, AtMost(m, k));
  }

  /** Puts `p` at position `n`, behind new tags if the arrangement is shorter. */
  function PutIn(q: seq<Tag>, p: Tag, n: nat, gap: seq<Tag>): seq<Tag>
    requires n <= |q| + |gap|
  {
    if n <= |q| then q[..n] + [p] + q[n..] else q + gap[..n - |q|] + [p]
  }

  lemma PutInAt(q: seq<Tag>, p: Tag, n: nat, gap: seq<Tag>, i: nat)
    requires n <= |q| + |gap| && i < |PutIn(q, p, n, gap)|
    ensures PutIn(q, p, n, gap)[i] ==
      if i == n then p else if i < n then (if i < |q| then q[i] else gap[i - |q|]) else q[i - 1]
    ensures i > n ==> i - 1 < |q|
  {}

  lemma PutInDistinct(q: seq<Tag>, p: Tag, n: nat, gap: seq<Tag>)
    requires n <= |q| + |gap| && p !in q && p !in gap
    requires forall i, j :: 0 <= i < j < |q| ==> q[i] != q[j]
    requires forall i, j :: 0 <= i < j < |gap| ==> gap[i] != gap[j]
    requires forall i :: 0 <= i < |gap| ==> gap[i] !in q
    ensures var r := PutIn(q, p, n, gap); forall i, j :: 0 <= i < j < |r| ==> r[i] != r[j]
  {
    var r := PutIn(q, p, n, gap);
    forall i, j | 0 <= i < j < |r| ensures r[i] != r[j] {
      PutInAt(q, p, n, gap, i);
      PutInAt(q, p, n, gap, j);
    }
  }

  /** Placing the pin with the least bound at its bound leaves room for the others. */
  lemma PutInRoomy(q: seq<Tag>, m: Bounds, pins: set<Tag>, p: Tag, gap: seq<Tag>, r: seq<Tag>)
    requires Roomy(q, m, pins) && pins <= m.Keys && p in pins
    requires forall x :: x in pins && x != p ==> m[x] > m[p]
    requires |gap| == m[p] && forall i :: 0 <= i < |gap| ==> gap[i] !in q && gap[i] !in m
    requires forall i, j :: 0 <= i < j < |gap| ==> gap[i] != gap[j]
    requires r == PutIn(q, p, m[p], gap)
    ensures Roomy(r, m, pins - {p})
  {
    PutInDistinct(q, p, m[p], gap);
    PutInRooms(q, m, pins, p, gap, r);
    PutInLast(q, m, pins, p, gap, r);
  }

  lemma PutInRooms(q: seq<Tag>, m: Bounds, pins: set<Tag>, p: Tag, gap: seq<Tag>, r: seq<Tag>)
    requires Roomy(q, m, pins) && pins <= m.Keys && p in pins
    requires forall x :: x in pins && x != p ==> m[x] > m[p]
    requires |gap| == m[p] && forall i :: 0 <= i < |gap| ==> gap[i] !in m
    requires r == PutIn(q, p, m[p], gap)
    ensures forall i :: 0 <= i < |r| ==> r[i] !in pins - {p}
    ensures forall i :: 0 <= i < |r| && r[i] in m ==> HasRoom(m, pins - {p}, r[i], i)
  {
    forall i | 0 <= i < |r| ensures r[i] !in pins - {p} && (r[i] in m ==> HasRoom(m, pins - {p}, r[i], i)) {
      PutInRoom(q, m, pins, p, gap, i);
    }
  }

  lemma PutInLast(q: seq<Tag>, m: Bounds, pins: set<Tag>, p: Tag, gap: seq<Tag>, r: seq<Tag>)
    requires Roomy(q, m, pins) && p in m && |gap| == m[p] && r == PutIn(q, p, m[p], gap)
    ensures r[|r| - 1] in m && forall u :: u in m ==> u in r || u in pins - {p}
  {
    forall u | u in m ensures u in r || u in pins - {p} {
      PutInKeeps(q, m, pins, p, gap, u);
    }
    PutInAt(q, p, m[p], gap, |r| - 1);
  }

  lemma PutInRoom(q: seq<Tag>, m: Bounds, pins: set<Tag>, p: Tag, gap: seq<Tag>, i: nat)
    requires Roomy(q, m, pins) && pins <= m.Keys && p in pins
    requires forall x :: x in pins && x != p ==> m[x] > m[p]
    requires |gap| == m[p] && forall i :: 0 <= i < |gap| ==> gap[i] !in m
    requires i < |PutIn(q, p, m[p], gap)|
    ensures var x := PutIn(q, p, m[p], gap)[i];
      x !in pins - {p} && (x in m ==> HasRoom(m, pins - {p}, x, i))
  {
    var n := m[p];
    PutInAt(q, p, n, gap, i);
    if i == n {
      NoPinBelow(m, pins - {p}, n);
    } else if i > n {
      if q[i - 1] in m {
        RoomLeft(q, m, pins, p, i - 1);
      }
    } else if i < |q| && q[i] in m {
      RoomLeft(q, m, pins, p, i);
    }
  }

  lemma PutInKeeps(q: seq<Tag>, m: Bounds, pins: set<Tag>, p: Tag, gap: seq<Tag>, u: Tag)
    requires Roomy(q, m, pins) && p in m && |gap| == m[p] && u in m
    ensures u in PutIn(q, p, m[p], gap) || u in pins - {p}
  {
    var n := m[p];
    if u == p {
      PutInAt(q, p, n, gap, n);
    } else if u in q {
      var i :| 0 <= i < |q| && q[i] == u;
      PutInAt(q, p, n, gap, if i < n then i else i + 1);
    }
  }

  lemma NoPinBelow(m: Bounds, pins: set<Tag>, n: nat)
    requires forall x :: x in pins && x in m ==> m[x] > n
    ensures |AtMost(m, n) * pins| == 0
  {
    if |AtMost(m, n) * pins| != 0 {
      var x := SomeOf(AtMost(m, n) * pins);
    }
  }

  lemma RoomLeft(q: seq<Tag>, m: Bounds, pins: set<Tag>, p: Tag, i: nat)
    requires Roomy(q, m, pins) && p in pins && p in m && i < |q| && q[i] in m
    ensures i + |AtMost(m, m[q[i]]) * (pins - {p})| <= m[q[i]]
    ensures i >= m[p] ==> i + 1 + |AtMost(m, m[q[i]]) * (pins - {p})| <= m[q[i]]
  {
    var before, after := AtMost(m, m[q[i]]) * pins, AtMost(m, m[q[i]]) * (pins - {p});
    SubsetSize(after, before);
    if i >= m[p] {
      assert p in before && before == after + {p};
    }
  }

  /** The pins, in the order of their bounds. */
  ghost predicate PinsOf(m: Bounds, ps: seq<Tag>) {
    && (forall i :: 0 <= i < |ps| ==> ps[i] in m)
    && (forall i, j :: 0 <= i < j < |ps| ==> m[ps[i]] < m[ps[j]])
  }

  ghost predicate Placed(q: seq<Tag>, m: Bounds, ps: seq<Tag>, k: nat)
    requires PinsOf(m, ps) && k <= |ps|
  {
    forall i :: 0 <= i < k ==> m[ps[i]] < |q| && q[m[ps[i]]] == ps[i]
  }

  lemma {:induction false} PlaceFirst(m: Bounds, ps: seq<Tag>, k: nat, avoid: set<Tag>, assoc: nat)
    returns (q: seq<Tag>)
    requires MustValid(m, assoc) && PinsOf(m, ps) && k <= |ps|
    ensures Roomy(q, m, TagSet(ps[k..])) && Placed(q, m, ps, k)
    ensures forall x :: x in q ==> x in m || x !in avoid
  {
    if k == 0 {
      forall x | x in ps[0..] ensures x in m {}
      q := Arranged(m, TagSet(ps[0..]), assoc);
    } else {
      var q0 := PlaceFirst(m, ps, k - 1, avoid, assoc);
      q := PlaceNext(m, ps, k, q0, avoid);
    }
  }

  lemma PlaceNext(m: Bounds, ps: seq<Tag>, k: nat, q0: seq<Tag>, avoid: set<Tag>) returns (q: seq<Tag>)
    requires PinsOf(m, ps) && 0 < k <= |ps|
    requires Roomy(q0, m, TagSet(ps[k - 1..])) && Placed(q0, m, ps, k - 1)
    requires forall x :: x in q0 ==> x in m || x !in avoid
    ensures Roomy(q, m, TagSet(ps[k..])) && Placed(q, m, ps, k)
    ensures forall x :: x in q ==> x in m || x !in avoid
  {
    var p := ps[k - 1];
    var used := TagSet(q0) + m.Keys + avoid;
    var gap := NewTags(m[p], used);
    forall i | 0 <= i < |gap| ensures gap[i] !in q0 && gap[i] !in m && gap[i] !in avoid {
      assert gap[i] !in used;
    }
    PinsLeft(m, ps, k);
    q := PutIn(q0, p, m[p], gap);
    PutInRoomy(q0, m, TagSet(ps[k - 1..]), p, gap, q);
    PutInPlaced(q0, m, ps, k, gap);
    forall x | x in q ensures x in m || x !in avoid {
      var i :| 0 <= i < |q| && q[i] == x;
      PutInAt(q0, p, m[p], gap, i);
    }
  }

  lemma PutInPlaced(q: seq<Tag>, m: Bounds, ps: seq<Tag>, k: nat, gap: seq<Tag>)
    requires PinsOf(m, ps) && 0 < k <= |ps| && |gap| == m[ps[k - 1]] && Placed(q, m, ps, k - 1)
    ensures Placed(PutIn(q, ps[k - 1], m[ps[k - 1]], gap), m, ps, k)
  {
    var p := ps[k - 1];
    forall i | 0 <= i < k ensures m[ps[i]] < |PutIn(q, p, m[p], gap)| && PutIn(q, p, m[p], gap)[m[ps[i]]] == ps[i] {
      PutInAt(q, p, m[p], gap, m[ps[i]]);
    }
  }

  lemma PinsLeft(m: Bounds, ps: seq<Tag>, k: nat)
    requires PinsOf(m, ps) && 0 < k <= |ps|
    ensures var pins := TagSet(ps[k - 1..]);
      && pins <= m.Keys && ps[k - 1] in pins
      && (forall x :: x in pins && x != ps[k - 1] ==> m[x] > m[ps[k - 1]])
      && pins - {ps[k - 1]} == TagSet(ps[k..])
  {
    var pins := TagSet(ps[k - 1..]);
    assert ps[k - 1..][0] == ps[k - 1];
    forall x | x in pins && x != ps[k - 1] ensures x in m && m[x] > m[ps[k - 1]] && x in ps[k..] {
      var i :| 0 <= i < |ps[k - 1..]| && ps[k - 1..][i] == x;
      assert ps[k..][i - 1] == x;
    }
    forall x | x in ps[k..] ensures x in pins && x != ps[k - 1] {
      var i :| 0 <= i < |ps[k..]| && ps[k..][i] == x;
      assert ps[k - 1..][i + 1] == x;
    }
  }

  /**
   Some represented set attains the bounds of all the pins at once, and no set is forced to hold a
   tag that is not listed.
   */
  lemma Realize(m: Bounds, ps: seq<Tag>, avoid: set<Tag>, assoc: nat) returns (s: seq<Tag>)
    requires MustValid(m, assoc) && PinsOf(m, ps)
    ensures Represented(m, s, assoc)
    ensures forall i :: 0 <= i < |ps| ==> Age(s, ps[i], assoc) == m[ps[i]]
    ensures forall x :: x in s ==> x in m || x !in avoid
  {
    s := PlaceFirst(m, ps, |ps|, avoid, assoc);
    assert TagSet(ps[|ps|..]) == {};
    forall u | u in m ensures Age(s, u, assoc) <= m[u] {
      assert s[IndexOf(s, u)] == u;
    }
    if s != [] {
      assert s[|s| - 1] in m;
    }
    forall i | 0 <= i < |ps| ensures Age(s, ps[i], assoc) == m[ps[i]] {
      AgeAt(s, m[ps[i]], assoc);
    }
  }

  // ---------- The update ----------

  /** The bounds once a hit is assumed: the tag is cached, at whatever position. */
  function Assumed(m: Bounds, t: Tag, hit: bool, assoc: nat): Bounds
    requires assoc >= 1
  {
    if hit && t !in m then m[t := assoc - 1] else m
  }

  lemma AssumedValid(m: Bounds, t: Tag, hit: bool, assoc: nat)
    requires assoc >= 1 && MustValid(m, assoc) && MustCanAssume(m, t, hit, assoc)
    ensures MustValid(Assumed(m, t, hit, assoc), assoc)
  {
    var m2 := Assumed(m, t, hit, assoc);
    forall k: nat ensures |AtMost(m2, k)| <= k + 1 {
      if k < assoc - 1 {
        SubsetSize(AtMost(m2, k), AtMost(m, k));
      } else {
        SubsetSize(AtMost(m2, k), m.Keys + {t});
        MustSize(m, assoc);
        SubsetSize(AtMost(m2, k), m2.Keys);
      }
    }
  }

  /** The update in one formula: the younger bounds age. */
  lemma UpdatedBound(m: Bounds, t: Tag, hit: bool, u: Tag, assoc: nat)
    requires assoc >= 1 && MustValid(m, assoc)
    ensures var m2 := Assumed(m, t, hit, assoc);
      BoundOf(MustUpdate(m, t, hit, assoc), u, assoc) ==
      if u == t then 0 else Aged(BoundOf(m2, u, assoc), BoundOf(m2, t, assoc))
  {}

  /** A set in which `u` is as old as its bound allows, and `t` is older if it may be. */
  lemma Oldest(m: Bounds, t: Tag, u: Tag, assoc: nat) returns (s: seq<Tag>)
    requires MustValid(m, assoc) && u != t
    ensures Represented(m, s, assoc) && Age(s, u, assoc) == BoundOf(m, u, assoc)
    ensures BoundOf(m, u, assoc) < BoundOf(m, t, assoc) ==> Age(s, u, assoc) < Age(s, t, assoc)
  {
    if u in m && t in m && m[u] < m[t] {
      s := Realize(m, [u, t], {}, assoc);
      assert [u, t][0] == u && [u, t][1] == t;
    } else if u in m {
      s := Realize(m, [u], {t}, assoc);
      assert [u][0] == u;
    } else {
      s := Realize(m, [], {u}, assoc);
    }
  }

  /** A represented set, containing the accessed tag if a hit is assumed, in which the new bound is attained. */
  lemma MustUpdateAttained(m: Bounds, t: Tag, hit: bool, u: Tag, assoc: nat) returns (s: seq<Tag>)
    requires assoc >= 1 && MustValid(m, assoc) && MustCanAssume(m, t, hit, assoc)
    ensures Represented(m, s, assoc) && (hit ==> t in s)
    ensures Age(Access(s, t, assoc), u, assoc) == BoundOf(MustUpdate(m, t, hit, assoc), u, assoc)
  {
    var m2 := Assumed(m, t, hit, assoc);
    AssumedValid(m, t, hit, assoc);
    UpdatedBound(m, t, hit, u, assoc);
    s := Oldest(m2, t, if u == t then u + 1 else u, assoc);
    AccessAges(s, t, assoc);
    AgesDiffer(s, t, t + 1, assoc);
    assert forall x :: x in m ==> x in m2 && m2[x] == m[x];
  }

  /** After every access to `t` of which the assumption is true, `u` is at most `n` old. */
  ghost predicate AccessBounds(m: Bounds, t: Tag, assumption: Classification, level: int, u: Tag, n: nat, assoc: nat)
    requires assoc >= 1
  {
    forall s :: Represented(m, s, assoc) && AssumptionHolds(assumption, level, t in s) ==>
      Age(Access(s, t, assoc), u, assoc) <= n
  }

  /** The updated bounds are the best ones possible, whatever is assumed. */
  lemma MustUpdateExactly(m: Bounds, t: Tag, assumption: Classification, level: int, u: Tag, n: nat, assoc: nat)
    requires assoc >= 1 && MustValid(m, assoc) && MustCanAssume(m, t, AssumesHit(assumption, level), assoc)
    ensures AccessBounds(m, t, assumption, level, u, n, assoc) <==>
      BoundOf(MustUpdate(m, t, AssumesHit(assumption, level), assoc), u, assoc) <= n
  {
    var m' := MustUpdate(m, t, AssumesHit(assumption, level), assoc);
    var w := MustUpdateAttained(m, t, AssumesHit(assumption, level), u, assoc);
    forall s | Represented(m, s, assoc) && AssumptionHolds(assumption, level, t in s)
      ensures Age(Access(s, t, assoc), u, assoc) <= BoundOf(m', u, assoc)
    {
      MustUpdateSound(m, s, t, AssumesHit(assumption, level), assoc);
      AccessStaysLru(s, t, assoc);
      AgesDiffer(Access(s, t, assoc), u, u + 1, assoc);
    }
  }

  // ---------- The potential update ----------

  /** Whatever is accessed, or nothing, `u` is at most `n` old afterwards. */
  ghost predicate AnyAccessBounds(m: Bounds, u: Tag, n: nat, assoc: nat)
    requires assoc >= 1
  {
    && (forall s, t :: Represented(m, s, assoc) ==> Age(Access(s, t, assoc), u, assoc) <= n)
    && (forall s :: Represented(m, s, assoc) ==> Age(s, u, assoc) <= n)
  }

  lemma MustAgeAllExactly(m: Bounds, u: Tag, n: nat, assoc: nat)
    requires assoc >= 1 && MustValid(m, assoc)
    ensures AnyAccessBounds(m, u, n, assoc) <==> BoundOf(MustAgeAll(m, assoc), u, assoc) <= n
  {
    var m' := MustAgeAll(m, assoc);
    forall s, t | Represented(m, s, assoc)
      ensures Age(Access(s, t, assoc), u, assoc) <= BoundOf(m', u, assoc) && Age(s, u, assoc) <= BoundOf(m', u, assoc)
    {
      MustAgeAllSound(m, s, t, assoc);
      AccessStaysLru(s, t, assoc);
      AgesDiffer(Access(s, t, assoc), u, u + 1, assoc);
      AgesDiffer(s, u, u + 1, assoc);
    }
    var t := NewTag(m.Keys + {u});
    var w := Oldest(m, t, u, assoc);
    AccessAges(w, t, assoc);
  }

  // ---------- Classification and order ----------

  lemma MustClassifyExactly(m: Bounds, t: Tag, assoc: nat)
    requires assoc >= 1 && MustValid(m, assoc)
    ensures MustClassify(m, t, assoc) == Hit <==> forall s :: Represented(m, s, assoc) ==> t in s
    ensures MustClassify(m, t, assoc) == Miss <==> forall s :: Represented(m, s, assoc) ==> t !in s
    ensures MustClassify(m, t, assoc) in {Hit, Miss, Unknown}
  {
    forall s | Represented(m, s, assoc)
      ensures MustClassify(m, t, assoc) == Hit ==> t in s
      ensures MustClassify(m, t, assoc) == Miss ==> t !in s
    {
      MustClassifySound(m, s, t, assoc);
    }
    MustSize(m, assoc);
    var without := Realize(m, [], {t}, assoc);
    if t in m || |m| < assoc {
      var w := MustUpdateAttained(m, t, true, t, assoc);
    }
  }

  /** Every set that `x` stands for, `y` stands for as well. */
  ghost predicate Includes(y: Bounds, x: Bounds, assoc: nat) {
    forall s :: Represented(x, s, assoc) ==> Represented(y, s, assoc)
  }

  /** The order of the analysis is inclusion of meanings. */
  lemma MustLeqExactly(x: Bounds, y: Bounds, assoc: nat)
    requires MustValid(x, assoc) && MustValid(y, assoc)
    ensures MustLeq(x, y) <==> Includes(y, x, assoc)
  {
    if Includes(y, x, assoc) {
      forall u | u in y ensures u in x && x[u] <= y[u] {
        var s := Oldest(x, u + 1, u, assoc);
        assert Represented(y, s, assoc);
      }
    }
  }

  /** No bounds that stand for what either side stands for say more than the join. */
  lemma MustJoinExactly(x: Bounds, y: Bounds, z: Bounds, assoc: nat)
    requires MustValid(x, assoc) && MustValid(y, assoc) && MustValid(z, assoc)
    ensures Includes(z, x, assoc) && Includes(z, y, assoc) <==> Includes(z, MustJoin(x, y), assoc)
  {
    MustJoinValid(x, y, assoc);
    MustLeqExactly(x, z, assoc);
    MustLeqExactly(y, z, assoc);
    MustLeqExactly(MustJoin(x, y), z, assoc);
    MustJoinIsLub(x, y, z, [], assoc);
  }
}
