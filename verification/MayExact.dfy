/**
 How precise the may analysis is. In every state it can reach, each bound is attained in some cache
 set the state stands for, so no sound update, classification or order on such bounds can be better.
 */
module MayExact {
  import opened LruSet
  import opened AgeList
  import opened Classifications
  import opened MayCache

  /** The explicitly listed tags that may be as young as `p`. */
  function Young(m: May, p: nat): set<Tag> {
    set u | u in m.tags && m.tags[u] <= p
  }

  /** Some tag may be cached, but only behind position `p`. */
  ghost predicate SomeBehind(m: May, p: nat, assoc: nat) {
    exists u :: p < m.MinAge(u) < assoc
  }

  /** In front of a tag that may be cached there are tags enough to fill the positions. */
  ghost predicate Dense(m: May, assoc: nat) {
    forall p: nat :: SomeBehind(m, p, assoc) ==> |Young(m, p)| > p
  }

  // ---------- Every reachable state is dense ----------

  lemma StartDense(assumeEmpty: bool, assoc: nat)
    ensures Dense(May(map[], if assumeEmpty then assoc else 0), assoc)
  {}

  lemma UpdateDense(m: May, t: Tag, assoc: nat)
    requires assoc >= 1 && m.Valid(assoc) && Dense(m, assoc)
    ensures Dense(MayUpdate(m, t, assoc), assoc)
  {
    var m', a := MayUpdate(m, t, assoc), m.MinAge(t);
    forall p: nat | SomeBehind(m', p, assoc) ensures |Young(m', p)| > p {
      var u :| p < m'.MinAge(u) < assoc;
      UpdatedMinAge(m, t, u, assoc);
      if p > a {
        assert SomeBehind(m, p, assoc);
        YoungBehind(m, t, p, assoc);
        SubsetSize((Young(m, p) - {t}) + {t}, Young(m', p));
      } else if p > 0 {
        assert SomeBehind(m, p - 1, assoc);
        YoungInFront(m, t, p, assoc);
        SubsetSize(Young(m, p - 1) + {t}, Young(m', p));
      } else {
        SubsetSize({t}, Young(m', p));
      }
    }
  }

  /** The update in one formula. */
  lemma UpdatedMinAge(m: May, t: Tag, u: Tag, assoc: nat)
    requires assoc >= 1 && m.Valid(assoc)
    ensures MayUpdate(m, t, assoc).MinAge(u) ==
      if u == t then 0
      else if m.MinAge(u) <= m.MinAge(t) && m.MinAge(u) < assoc then m.MinAge(u) + 1 else m.MinAge(u)
  {}

  lemma IsYoung(m: May, u: Tag, p: nat, assoc: nat)
    requires SomeBehind(m, p, assoc) && m.Valid(assoc) && m.MinAge(u) <= p
    ensures u in Young(m, p)
  {}

  lemma YoungBehind(m: May, t: Tag, p: nat, assoc: nat)
    requires assoc >= 1 && m.Valid(assoc) && m.MinAge(t) < p && SomeBehind(MayUpdate(m, t, assoc), p, assoc)
    ensures (Young(m, p) - {t}) + {t} <= Young(MayUpdate(m, t, assoc), p)
    ensures |(Young(m, p) - {t}) + {t}| >= |Young(m, p)|
  {
    var m' := MayUpdate(m, t, assoc);
    forall u | u in Young(m, p) || u == t ensures u in Young(m', p) {
      UpdatedMinAge(m, t, u, assoc);
      IsYoung(m', u, p, assoc);
    }
    SubsetSize(Young(m, p), (Young(m, p) - {t}) + {t});
  }

  lemma YoungInFront(m: May, t: Tag, p: nat, assoc: nat)
    requires assoc >= 1 && m.Valid(assoc) && 0 < p <= m.MinAge(t) && SomeBehind(MayUpdate(m, t, assoc), p, assoc)
    ensures Young(m, p - 1) + {t} <= Young(MayUpdate(m, t, assoc), p) && t !in Young(m, p - 1)
    ensures |Young(m, p - 1) + {t}| == |Young(m, p - 1)| + 1
  {
    var m' := MayUpdate(m, t, assoc);
    forall u | u in Young(m, p - 1) || u == t ensures u in Young(m', p) {
      UpdatedMinAge(m, t, u, assoc);
      IsYoung(m', u, p, assoc);
    }
  }

  lemma PotentialMinAge(m: May, low: Tag, high: Tag, u: Tag, assoc: nat)
    requires m.Valid(assoc)
    ensures MayPotential(m, low, high).MinAge(u) <= m.MinAge(u)
    ensures MayPotential(m, low, high).implicitAge <= m.implicitAge
  {}

  lemma PotentialDense(m: May, low: Tag, high: Tag, assoc: nat)
    requires m.Valid(assoc) && Dense(m, assoc)
    ensures Dense(MayPotential(m, low, high), assoc)
  {
    var m' := MayPotential(m, low, high);
    forall p: nat | SomeBehind(m', p, assoc) ensures |Young(m', p)| > p {
      var u :| p < m'.MinAge(u) < assoc;
      assert m.MinAge(u) == m'.MinAge(u);
      SubsetSize(Young(m, p), Young(m', p));
    }
  }

  lemma JoinDense(x: May, y: May, assoc: nat)
    requires x.Valid(assoc) && y.Valid(assoc) && Dense(x, assoc) && Dense(y, assoc)
    ensures Dense(MayJoin(x, y), assoc)
  {
    var z := MayJoin(x, y);
    MayJoinExact(x, y, assoc);
    forall p: nat | SomeBehind(z, p, assoc) ensures |Young(z, p)| > p {
      var u :| p < z.MinAge(u) < assoc;
      if x.MinAge(u) < assoc {
        JoinYoung(x, z, p, u, assoc);
      } else {
        JoinYoung(y, z, p, u, assoc);
      }
    }
  }

  lemma JoinYoung(d: May, z: May, p: nat, u: Tag, assoc: nat)
    requires z.Valid(assoc) && Dense(d, assoc) && p < z.MinAge(u) && d.MinAge(u) < assoc
    requires forall v :: z.MinAge(v) <= d.MinAge(v)
    ensures |Young(z, p)| > p
  {
    assert SomeBehind(d, p, assoc);
    forall v | v in Young(d, p) ensures v in Young(z, p) {
      assert z.MinAge(v) <= p;
    }
    SubsetSize(Young(d, p), Young(z, p));
  }

  // ---------- Filling a set in front of a tag ----------

  ghost predicate Represented(m: May, s: seq<Tag>, assoc: nat) {
    IsLruSet(s, assoc) && m.Holds(s, assoc)
  }

  /** The first positions of a set: nothing is younger than it may be, and `t` comes as early as it may. */
  ghost predicate Front(m: May, q: seq<Tag>, t: Tag, u: Tag) {
    && (forall i, j :: 0 <= i < j < |q| ==> q[i] != q[j])
    && (forall i :: 0 <= i < |q| ==> q[i] != u && m.MinAge(q[i]) <= i)
    && (if m.MinAge(t) < |q| then q[m.MinAge(t)] == t else t !in q)
  }

  lemma LargerSet(a: set<Tag>, b: set<Tag>)
    requires |a| > |b|
    ensures a - b != {}
  {
    if a - b == {} {
      forall u | u in a ensures u in b {
        assert u !in a - b;
      }
      SubsetSize(a, b);
    }
  }

  /** The next position can be filled. */
  lemma NextTag(m: May, q: seq<Tag>, t: Tag, u: Tag, assoc: nat) returns (x: Tag)
    requires m.Valid(assoc) && Dense(m, assoc) && t != u && |q| < m.MinAge(u) < assoc && Front(m, q, t, u)
    requires |q| != m.MinAge(t)
    ensures x !in q && x != u && x != t && m.MinAge(x) <= |q|
  {
    assert SomeBehind(m, |q|, assoc);
    SeqSetSize(q);
    LargerSet(Young(m, |q|), TagSet(q));
    x := SomeOf(Young(m, |q|) - TagSet(q));
    assert x in Young(m, |q|) && x !in TagSet(q);
  }

  lemma {:induction false} FillFront(m: May, n: nat, t: Tag, u: Tag, assoc: nat) returns (q: seq<Tag>)
    requires m.Valid(assoc) && Dense(m, assoc) && t != u && n <= m.MinAge(u) < assoc
    ensures |q| == n && Front(m, q, t, u)
  {
    if n == 0 {
      q := [];
    } else {
      var q0 := FillFront(m, n - 1, t, u, assoc);
      var x := t;
      if m.MinAge(t) != n - 1 {
        x := NextTag(m, q0, t, u, assoc);
      }
      q := q0 + [x];
    }
  }

  /** A set in which `u` is as young as its bound allows, behind `t` or without it. */
  lemma Youngest(m: May, t: Tag, u: Tag, assoc: nat) returns (s: seq<Tag>)
    requires m.Valid(assoc) && Dense(m, assoc) && u != t
    ensures Represented(m, s, assoc) && Age(s, u, assoc) == m.MinAge(u)
    ensures m.MinAge(t) < m.MinAge(u) < assoc ==> Age(s, t, assoc) == m.MinAge(t)
    ensures m.MinAge(u) <= m.MinAge(t) || m.MinAge(u) == assoc ==> t !in s
  {
    if m.MinAge(u) < assoc {
      var q := FillFront(m, m.MinAge(u), t, u, assoc);
      s := q + [u];
      AgeAt(s, |q|, assoc);
      assert forall i :: 0 <= i < |s| ==> m.MinAge(s[i]) <= i;
      if m.MinAge(t) < |q| {
        assert s[m.MinAge(t)] == t;
        AgeAt(s, m.MinAge(t), assoc);
      }
    } else {
      s := [];
    }
  }

  // ---------- The update ----------

  lemma MayUpdateAttained(m: May, t: Tag, u: Tag, assoc: nat) returns (s: seq<Tag>)
    requires assoc >= 1 && m.Valid(assoc) && Dense(m, assoc)
    ensures Represented(m, s, assoc)
    ensures Age(Access(s, t, assoc), u, assoc) == MayUpdate(m, t, assoc).MinAge(u)
  {
    UpdatedMinAge(m, t, u, assoc);
    s := Youngest(m, t, if u == t then t + 1 else u, assoc);
    AccessAges(s, t, assoc);
  }

  /** After every access to `t`, `u` is at least `n` old. */
  ghost predicate AccessBounds(m: May, t: Tag, u: Tag, n: nat, assoc: nat)
    requires assoc >= 1
  {
    forall s :: Represented(m, s, assoc) ==> Age(Access(s, t, assoc), u, assoc) >= n
  }

  /** The updated bounds are the best ones possible. */
  lemma MayUpdateExactly(m: May, t: Tag, u: Tag, n: nat, assoc: nat)
    requires assoc >= 1 && m.Valid(assoc) && Dense(m, assoc)
    ensures AccessBounds(m, t, u, n, assoc) <==> n <= MayUpdate(m, t, assoc).MinAge(u)
  {
    var w := MayUpdateAttained(m, t, u, assoc);
    forall s | Represented(m, s, assoc)
      ensures Age(Access(s, t, assoc), u, assoc) >= MayUpdate(m, t, assoc).MinAge(u)
    {
      MayUpdateSound(m, s, t, assoc);
    }
  }

  // ---------- The potential update ----------

  /** Whichever tag of the interval is accessed, or none, `u` is at least `n` old afterwards. */
  ghost predicate AnyAccessBounds(m: May, low: Tag, high: Tag, u: Tag, n: nat, assoc: nat)
    requires assoc >= 1
  {
    && (forall s, t :: Represented(m, s, assoc) && low <= t <= high ==> Age(Access(s, t, assoc), u, assoc) >= n)
    && (forall s :: Represented(m, s, assoc) ==> Age(s, u, assoc) >= n)
  }

  /** For up to four tags the new bounds are the best ones possible; for more, all bounds are given up. */
  lemma MayPotentialExactly(m: May, low: Tag, high: Tag, u: Tag, n: nat, assoc: nat)
    requires assoc >= 1 && m.Valid(assoc) && Dense(m, assoc) && low <= high
    ensures high - low < 4 ==>
      (AnyAccessBounds(m, low, high, u, n, assoc) <==> n <= MayPotential(m, low, high).MinAge(u))
    ensures high - low >= 4 ==> MayPotential(m, low, high).MinAge(u) == 0
  {
    var m' := MayPotential(m, low, high);
    forall s, t | Represented(m, s, assoc) && low <= t <= high
      ensures Age(Access(s, t, assoc), u, assoc) >= m'.MinAge(u)
    {
      MayPotentialSound(m, s, low, high, t, assoc);
    }
    forall s | Represented(m, s, assoc) ensures Age(s, u, assoc) >= m'.MinAge(u) {
      MayPotentialSound(m, s, low, high, low, assoc);
    }
    var w := Youngest(m, u + 1, u, assoc);
    if low <= u <= high {
      AccessAges(w, u, assoc);
    }
  }

  // ---------- Classification and order ----------

  lemma MayClassifyExactly(m: May, t: Tag, assoc: nat)
    requires assoc >= 1 && m.Valid(assoc) && Dense(m, assoc)
    ensures MayClassify(m, t, assoc) == Miss <==> forall s :: Represented(m, s, assoc) ==> t !in s
    ensures MayClassify(m, t, assoc) in {Miss, Unknown}
  {
    forall s | Represented(m, s, assoc) ensures MayClassify(m, t, assoc) == Miss ==> t !in s {
      MayClassifySound(m, s, t, assoc);
    }
    var w := Youngest(m, t + 1, t, assoc);
    AgesDiffer(w, t, t + 1, assoc);
  }

  ghost predicate Includes(y: May, x: May, assoc: nat) {
    forall s :: Represented(x, s, assoc) ==> Represented(y, s, assoc)
  }

  /** The order of the analysis is inclusion of meanings. */
  lemma MayLeqExactly(x: May, y: May, assoc: nat)
    requires x.Valid(assoc) && y.Valid(assoc) && Dense(x, assoc)
    ensures MayLeq(x, y) <==> Includes(y, x, assoc)
  {
    if MayLeq(x, y) {
      forall s | Represented(x, s, assoc) ensures Represented(y, s, assoc) {
        MayJoinIsLub(x, y, y, s, assoc);
      }
    }
    if Includes(y, x, assoc) {
      forall u ensures y.MinAge(u) <= x.MinAge(u) {
        var s := Youngest(x, u + 1, u, assoc);
        assert Represented(y, s, assoc);
      }
      var v := NewTag(x.tags.Keys + y.tags.Keys);
      assert y.MinAge(v) <= x.MinAge(v);
    }
  }

  /** No bounds that stand for what either side stands for say more than the join. */
  lemma MayJoinExactly(x: May, y: May, z: May, assoc: nat)
    requires x.Valid(assoc) && y.Valid(assoc) && z.Valid(assoc) && Dense(x, assoc) && Dense(y, assoc)
    ensures Includes(z, x, assoc) && Includes(z, y, assoc) <==> Includes(z, MayJoin(x, y), assoc)
  {
    JoinDense(x, y, assoc);
    MayJoinExact(x, y, assoc);
    MayLeqExactly(x, z, assoc);
    MayLeqExactly(y, z, assoc);
    MayLeqExactly(MayJoin(x, y), z, assoc);
    MayJoinIsLub(x, y, z, [], assoc);
  }
}
