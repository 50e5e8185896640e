/** The array-aware must cache of one set as the objects the analysis updates in place. */
module ArrayMustCache {
  import opened LruSet
  import opened Classifications
  import opened ArrayMust
  import opened Options

  /**
   A uniting merge of `x` and `y` under way: `b` and `yAge` are the ages so far, `xs` and
   `ys` the accesses not yet compared.
   */
  ghost predicate Merging(x: Bound, y: Bound, b: Bound, yAge: nat, xs: multiset<Array>, ys: multiset<Array>) {
    && b.age + |ys - xs| == x.age + |y.arrays - x.arrays|
    && yAge + |xs - ys| == y.age + |x.arrays - y.arrays|
    && b.arrays + (ys - xs) == x.arrays + (y.arrays - x.arrays)
  }

  /** Taking a pending element that only one side has. */
  lemma TakeMissing(x: multiset<Array>, y: multiset<Array>, v: Array)
    requires v in x && v !in y
    ensures |(x - multiset{v}) - y| == |x - y| - 1
    ensures y - (x - multiset{v}) == y - x
  {
    assert (x - multiset{v}) - y == (x - y) - multiset{v};
    assert y - (x - multiset{v}) == y - x;
  }

  lemma TakeX(x: Bound, y: Bound, b: Bound, yAge: nat, xs: multiset<Array>, ys: multiset<Array>, v: Array)
    requires Merging(x, y, b, yAge, xs, ys) && v in xs && v !in ys
    ensures Merging(x, y, b, yAge + 1, xs - multiset{v}, ys)
  {
    TakeMissing(xs, ys, v);
  }

  lemma TakeY(x: Bound, y: Bound, b: Bound, yAge: nat, xs: multiset<Array>, ys: multiset<Array>, v: Array)
    requires Merging(x, y, b, yAge, xs, ys) && v in ys && v !in xs
    ensures Merging(x, y, Bound(b.age + 1, b.arrays + multiset{v}), yAge, xs, ys - multiset{v})
  {
    TakeMissing(ys, xs, v);
    assert (b.arrays + multiset{v}) + ((ys - multiset{v}) - xs) == b.arrays + (ys - xs);
  }

  lemma TakeBoth(x: Bound, y: Bound, b: Bound, yAge: nat, xs: multiset<Array>, ys: multiset<Array>, v: Array)
    requires Merging(x, y, b, yAge, xs, ys) && v in xs && v in ys
    ensures Merging(x, y, b, yAge, xs - multiset{v}, ys - multiset{v})
  {
    assert (xs - multiset{v}) - (ys - multiset{v}) == xs - ys;
    assert (ys - multiset{v}) - (xs - multiset{v}) == ys - xs;
  }

  /** Where a merge ends: everything compared, or an age has reached the associativity. */
  lemma Merged(x: Bound, y: Bound, b: Bound, yAge: nat, xs: multiset<Array>, ys: multiset<Array>, assoc: nat)
    requires Merging(x, y, b, yAge, xs, ys) && b.age <= assoc && yAge <= assoc
    requires (xs == multiset{} && ys == multiset{}) || b.age == assoc || yAge == assoc
    ensures UnionJoin(x, y, assoc) ==
      Bound(Max(b.age, yAge), if Max(b.age, yAge) == assoc then multiset{} else b.arrays)
  {
    if xs == multiset{} && ys == multiset{} {
      assert ys - xs == multiset{} && xs - ys == multiset{};
      assert b.arrays + multiset{} == b.arrays;
    }
  }

  /** The bound of one tag, with one of the two joins. */
  class MustAgeConflictSet {
    const assoc: nat
    const perSetSize: Array -> nat
    const union: bool
    var age: nat
    var arrayAccesses: multiset<Array>

    ghost function View(): Bound
      reads this
    {
      Bound(age, arrayAccesses)
    }

    constructor (assoc: nat, perSetSize: Array -> nat, union: bool)
      ensures this.assoc == assoc && this.perSetSize == perSetSize && this.union == union
      ensures View() == Bound(0, multiset{})
    {
      this.assoc, this.perSetSize, this.union := assoc, perSetSize, union;
      age, arrayAccesses := 0, multiset{};
    }

    method AgeByAmount(amount: nat)
      requires age < assoc && amount <= assoc
      modifies this
      ensures View() == AgeBy(old(View()), amount, assoc)
    {
      if age >= assoc - amount {
        arrayAccesses := multiset{};
        age := assoc;
        return;
      }
      age := age + amount;
    }

    method AgeByVariable(v: Array)
      requires age < assoc
      modifies this
      ensures View() == AgeByArray(old(View()), v, perSetSize, assoc)
    {
      if arrayAccesses[v] < perSetSize(v) {
        arrayAccesses := arrayAccesses + multiset{v};
        AgeByAmount(1);
      }
    }

    method Join(other: MustAgeConflictSet)
      requires age < assoc && other.age < other.assoc == assoc
      modifies this
      ensures other == this || other.View() == old(other.View())
      ensures View() == JoinBounds(old(View()), old(other.View()), union, assoc)
    {
      if union {
        JoinUnion(other);
      } else {
        age := Max(age, other.age);
        arrayAccesses := arrayAccesses * other.arrayAccesses;
      }
    }

    /** Walks both conflict sets, adding what is missing here and counting what is missing there. */
    method JoinUnion(other: MustAgeConflictSet)
      requires age < assoc && other.age < other.assoc == assoc
      modifies this
      ensures other == this || other.View() == old(other.View())
      ensures View() == UnionJoin(old(View()), old(other.View()), assoc)
    {
      var adjustedYAge: nat := other.age;
      ghost var x, y := View(), other.View();
      var xs, ys := arrayAccesses, other.arrayAccesses;
      while xs != multiset{} || ys != multiset{}
        invariant Merging(x, y, View(), adjustedYAge, xs, ys)
        invariant age < assoc && adjustedYAge < assoc
        decreases |xs| + |ys|
      {
        var v := AnyArray(xs + ys);
        if v !in ys {
          TakeX(x, y, View(), adjustedYAge, xs, ys, v);
          adjustedYAge := adjustedYAge + 1;
          xs := xs - multiset{v};
        } else if v !in xs {
          TakeY(x, y, View(), adjustedYAge, xs, ys, v);
          age := age + 1;
          arrayAccesses := arrayAccesses + multiset{v};
          ys := ys - multiset{v};
        } else {
          TakeBoth(x, y, View(), adjustedYAge, xs, ys, v);
          xs, ys := xs - multiset{v}, ys - multiset{v};
        }
        if age == assoc || adjustedYAge == assoc {
          break;
        }
      }
      Merged(x, y, View(), adjustedYAge, xs, ys, assoc);
      age := Max(age, adjustedYAge);
      if age == assoc {
        arrayAccesses := multiset{};
      }
    }
  }

  method AnyArray(s: multiset<Array>) returns (v: Array)
    requires s != multiset{}
    ensures v in s
  {
    v :| v in s;
  }

  class LruMaxAgeArrayAwareCache {
    const assoc: nat
    const perSetSize: Array -> nat
    const union: bool
    var ages: map<Tag, MustAgeConflictSet>
    /** The bounds the entries stand for. */
    ghost var view: Ages

    ghost predicate Fits(e: MustAgeConflictSet)
      reads e
    {
      e.assoc == assoc && e.perSetSize == perSetSize && e.union == union && e.age < assoc
    }

    ghost predicate Distinct()
      reads this
    {
      forall u, w :: u in ages && w in ages && u != w ==> ages[u] != ages[w]
    }

    ghost predicate Valid()
      reads this, ages.Values
    {
      && assoc >= 1
      && (forall u :: u in ages ==> Fits(ages[u]))
      && Distinct()
      && view.Keys == ages.Keys && forall u :: u in ages ==> view[u] == ages[u].View()
    }

    constructor (assoc: nat, perSetSize: Array -> nat, union: bool)
      requires assoc >= 1
      ensures Valid() && this.assoc == assoc && this.perSetSize == perSetSize && this.union == union
      ensures view == map[]
    {
      this.assoc, this.perSetSize, this.union := assoc, perSetSize, union;
      ages, view := map[], map[];
    }

    method Search(t: Tag) returns (cl: Classification)
      requires Valid()
      ensures cl == Classify(view, t, assoc)
      ensures cl == Hit <==> t in view
      ensures cl == Miss <==> t !in view && |view| == assoc
    {
      assert |view.Keys| == |ages.Keys|;
      if t in ages {
        return Hit;
      }
      return if |ages| == assoc then Miss else Unknown;
    }

    method GetMaxAge(t: Tag) returns (a: nat)
      requires Valid()
      ensures a == if t in view then view[t].age else assoc
    {
      if t in ages {
        return ages[t].age;
      }
      return assoc;
    }

    /** Entry `u`, whose object has just changed, is erased when its age has reached the associativity. */
    method EraseIfOld(u: Tag)
      requires assoc >= 1 && u in ages && (forall w :: w in ages && w != u ==> Fits(ages[w]))
      requires ages[u].assoc == assoc && ages[u].perSetSize == perSetSize && ages[u].union == union
      requires ages[u].age <= assoc && Distinct()
      requires view.Keys == ages.Keys && forall w :: w in ages && w != u ==> view[w] == ages[w].View()
      modifies this`ages, this`view
      ensures Valid() && ages.Values <= old(ages.Values)
      ensures view == old(Put(view, u, ages[u].View(), assoc))
    {
      view := Put(view, u, ages[u].View(), assoc);
      if ages[u].age == assoc {
        ages := ages - {u};
      }
    }

    /** One entry is aged, and erased when it reaches the associativity. */
    method AgeEntry(u: Tag, arr: Option<Array>)
      requires Valid() && u in ages
      modifies this`ages, this`view, ages[u]
      ensures Valid() && ages.Values <= old(ages.Values)
      ensures view == old(Put(view, u, AgeFor(view[u], arr, perSetSize, assoc), assoc))
    {
      var entry := ages[u];
      match arr {
        case Some(v) => entry.AgeByVariable(v);
        case None => entry.AgeByAmount(1);
      }
      EraseIfOld(u);
    }

    /** All entries are aged, those that reach the associativity are erased. */
    method PotentialUpdate(arr: Option<Array>)
      requires Valid()
      modifies this`ages, this`view, ages.Values
      ensures Valid()
      ensures view == old(ArrayMust.PotentialUpdate(view, arr, perSetSize, assoc))
    {
      ghost var next := map u | u in view :: AgeFor(view[u], arr, perSetSize, assoc);
      ghost var was := view;
      var todo := ages.Keys;
      while todo != {}
        invariant Valid() && ages.Values <= old(ages.Values)
        invariant Progress(was, next, view, todo, assoc)
      {
        var u := AnyOf(todo);
        ProgressStep(was, next, view, todo, u, assoc);
        todo := todo - {u};
        AgeEntry(u, arr);
      }
      ProgressDone(was, next, view, assoc);
      SameAges(view, ArrayMust.PotentialUpdate(was, arr, perSetSize, assoc));
    }

    /** Ages the entries that are younger than `accessedAge`. */
    method AgeYounger(accessedAge: nat)
      requires Valid()
      modifies this`ages, this`view, ages.Values
      ensures Valid()
      ensures view == Kept(AgedBelow(old(view), accessedAge, assoc), assoc)
    {
      ghost var was, next := view, AgedBelow(view, accessedAge, assoc);
      var todo := ages.Keys;
      while todo != {}
        invariant Valid() && ages.Values <= old(ages.Values)
        invariant Progress(was, next, view, todo, assoc)
      {
        var u := AnyOf(todo);
        ProgressStep(was, next, view, todo, u, assoc);
        todo := todo - {u};
        if ages[u].age >= accessedAge {
          assert Put(view, u, next[u], assoc) == view;
          continue;
        }
        AgeEntry(u, None);
      }
      ProgressDone(was, next, view, assoc);
    }

    method Update(t: Tag, hit: bool)
      requires Valid()
      modifies this`ages, this`view, ages.Values
      ensures Valid()
      ensures view == old(ArrayMust.Update(view, t, hit, assoc))
    {
      ghost var was := view;
      var accessedAge: nat := if hit then assoc - 1 else assoc;
      if t in ages {
        accessedAge := ages[t].age;
      }
      AgeYounger(accessedAge);
      var entry := new MustAgeConflictSet(assoc, perSetSize, union);
      Insert(t, entry);
      SameAges(view, ArrayMust.Update(was, t, hit, assoc));
    }

    method Insert(t: Tag, entry: MustAgeConflictSet)
      requires Valid() && Fits(entry) && entry !in ages.Values
      modifies this`ages, this`view
      ensures Valid() && view == old(view)[t := entry.View()]
    {
      ages := ages[t := entry];
      view := view[t := entry.View()];
    }

    /** Entry `u` takes over the join with a bound of the other cache. */
    method JoinEntry(u: Tag, other: MustAgeConflictSet)
      requires Valid() && u in ages && other !in ages.Values && other.age < other.assoc == assoc
      modifies this`ages, this`view, ages[u]
      ensures Valid() && ages.Values <= old(ages.Values)
      ensures view == old(Put(view, u, JoinBounds(view[u], other.View(), union, assoc), assoc))
    {
      var entry := ages[u];
      entry.Join(other);
      JoinBelow(old(entry.View()), other.View(), union, assoc);
      EraseIfOld(u);
    }

    method Erase(u: Tag)
      requires Valid() && u in ages
      modifies this`ages, this`view
      ensures Valid() && ages.Values <= old(ages.Values)
      ensures view == old(view) - {u}
    {
      ages := ages - {u};
      view := view - {u};
    }

    /** The other cache, untouched by what is done to the objects `mine`. */
    ghost predicate Apart(y: LruMaxAgeArrayAwareCache, other: Ages, mine: set<object>)
      reads this, y, y.ages.Values
    {
      y != this && y.Valid() && y.view == other && y.assoc == assoc && ages.Values <= mine && mine !! y.ages.Values
    }

    /** Entry `u` is joined with the other cache's entry, or erased when there is none. */
    method Visit(u: Tag, y: LruMaxAgeArrayAwareCache, ghost mine: set<object>)
      requires Valid() && u in ages && Apart(y, y.view, mine)
      modifies this`ages, this`view, ages[u]
      ensures Valid() && Apart(y, old(y.view), mine)
      ensures view == old(Put(view, u, JoinedWith(view[u], y.view, u, union, assoc), assoc))
    {
      if u in y.ages {
        JoinEntry(u, y.ages[u]);
      } else {
        Erase(u);
      }
    }

    method Join(y: LruMaxAgeArrayAwareCache)
      requires Valid() && y.Valid() && y.assoc == assoc && ages.Values !! y.ages.Values && y != this
      modifies this`ages, this`view, ages.Values
      ensures Valid() && y.Valid() && y.view == old(y.view)
      ensures view == old(ArrayMust.Join(view, y.view, union, assoc))
    {
      ghost var was, other, mine := view, y.view, ages.Values;
      ghost var next := JoinedAges(was, other, union, assoc);
      var todo := ages.Keys;
      while todo != {}
        invariant Valid() && Apart(y, other, mine)
        invariant Progress(was, next, view, todo, assoc)
      {
        var u := AnyOf(todo);
        ProgressStep(was, next, view, todo, u, assoc);
        todo := todo - {u};
        Visit(u, y, mine);
      }
      ProgressDone(was, next, view, assoc);
      JoinedAreKept(was, other, union, assoc);
    }
  }

  lemma JoinBelow(x: Bound, y: Bound, union: bool, assoc: nat)
    requires x.age < assoc && y.age < assoc
    ensures JoinBounds(x, y, union, assoc).age <= assoc
  {}

  ghost function JoinedWith(b: Bound, other: Ages, u: Tag, union: bool, assoc: nat): Bound {
    if u in other then JoinBounds(b, other[u], union, assoc) else Bound(assoc, multiset{})
  }

  ghost function JoinedAges(a: Ages, other: Ages, union: bool, assoc: nat): Ages {
    map u | u in a :: JoinedWith(a[u], other, u, union, assoc)
  }

  lemma JoinedAreKept(a: Ages, other: Ages, union: bool, assoc: nat)
    ensures Kept(JoinedAges(a, other, union, assoc), assoc) == ArrayMust.Join(a, other, union, assoc)
  {
    SameAges(Kept(JoinedAges(a, other, union, assoc), assoc), ArrayMust.Join(a, other, union, assoc));
  }

  ghost function AgedBelow(a: Ages, accessedAge: nat, assoc: nat): Ages
    requires assoc >= 1
  {
    map u | u in a :: AgeBelow(a[u], accessedAge, assoc)
  }

  /** The bounds below the associativity. */
  ghost function Kept(a: Ages, assoc: nat): Ages {
    map u | u in a && a[u].age != assoc :: a[u]
  }

  /** The bound of `u` replaced, or the entry gone when the bound has reached the associativity. */
  ghost function Put(a: Ages, u: Tag, b: Bound, assoc: nat): Ages {
    if b.age == assoc then a - {u} else a[u := b]
  }

  /** From `was` on the way to `next`, with the entries of `todo` still to be visited. */
  ghost predicate Progress(was: Ages, next: Ages, a: Ages, todo: set<Tag>, assoc: nat) {
    && a.Keys <= was.Keys == next.Keys && todo <= a.Keys
    && (forall u :: u in todo ==> a[u] == was[u])
    && forall u :: u in was && u !in todo ==> if next[u].age == assoc then u !in a else u in a && a[u] == next[u]
  }

  lemma ProgressStep(was: Ages, next: Ages, a: Ages, todo: set<Tag>, u: Tag, assoc: nat)
    requires Progress(was, next, a, todo, assoc) && u in todo
    ensures u in a && a[u] == was[u]
    ensures Progress(was, next, Put(a, u, next[u], assoc), todo - {u}, assoc)
  {
    var b := Put(a, u, next[u], assoc);
    forall w: Tag | w in todo - {u} ensures w in b.Keys {}
  }

  lemma ProgressDone(was: Ages, next: Ages, a: Ages, assoc: nat)
    requires Progress(was, next, a, {}, assoc)
    ensures a == Kept(next, assoc)
  {
    SameAges(a, Kept(next, assoc));
  }

  lemma SameAges(a: Ages, b: Ages)
    requires forall u :: u in a <==> u in b
    requires forall u :: u in a ==> a[u] == b[u]
    ensures a == b
  {
    SameMap(a, b);
  }
}
