/** Accesses to some element of an array, or to anything, keep the meaning of the ages. */
module ArrayAccesses {
  import opened LruSet
  import opened Options
  import opened ArrayMust

  /** An access to an array, or to anything, keeps a bound that is true for all resolutions. */
  lemma BoundAfterPotential(l: Layout, p: seq<Op>, arr: Option<Array>, u: Tag, b: Bound)
    requires LayoutValid(l) && BoundHolds(l, p, u, b) && b.age < l.assoc
    requires AgeFor(b, arr, l.perSetSize, l.assoc).age < l.assoc
    ensures BoundHolds(l, p + [OpFor(arr)], u, AgeFor(b, arr, l.perSetSize, l.assoc))
  {
    if arr.Some? && b.arrays[arr.value] >= l.perSetSize(arr.value) {
      UsedUpSound(l, p, arr.value, u, b);
    } else {
      AgeBySound(l, p, OpFor(arr), u, b, if arr.Some? then b.arrays + multiset{arr.value} else b.arrays);
    }
  }

  /** Only an array without lines here can leave a loose bound listed, and it touches nothing. */
  lemma LooseAfterPotential(l: Layout, arr: Option<Array>, x: Option<Tag>, u: Tag, b: Bound, end: seq<Tag>)
    requires LayoutValid(l) && Resolves(l, OpFor(arr), x) && Loose(b, u, end, l.assoc)
    requires forall v :: !UsedUp(b, v, l.perSetSize)
    ensures AgeFor(b, arr, l.perSetSize, l.assoc).age == l.assoc ||
            (AgeFor(b, arr, l.perSetSize, l.assoc) == b && arr.Some? && l.perSetSize(arr.value) == 0 && x.None?)
  {
    if arr.Some? {
      assert !UsedUp(b, arr.value, l.perSetSize);
      assert x.Some? ==> x.value in l.lines(arr.value) && |l.lines(arr.value)| > 0;
    }
  }

  lemma ListedAfterPotential(l: Layout, ages: Ages, p: seq<Op>, r: Resolution, s: seq<Tag>, arr: Option<Array>,
                             x: Option<Tag>, u: Tag)
    requires LayoutValid(l) && Holds(l, ages, p, r, s) && Resolves(l, OpFor(arr), x)
    requires u in ages && AgeFor(ages[u], arr, l.perSetSize, l.assoc).age != l.assoc
    ensures var b := AgeFor(ages[u], arr, l.perSetSize, l.assoc);
      && b.age < l.assoc
      && (BoundHolds(l, p, u, ages[u]) ==> BoundHolds(l, p + [OpFor(arr)], u, b))
      && (!BoundHolds(l, p, u, ages[u]) ==>
            b == ages[u] && Loose(b, u, Run(s, Accesses(r), l.assoc), l.assoc) && x.None? && NothingHere(l, arr))
  {
    if BoundHolds(l, p, u, ages[u]) {
      BoundAfterPotential(l, p, arr, u, ages[u]);
    } else {
      LooseAfterPotential(l, arr, x, u, ages[u], Run(s, Accesses(r), l.assoc));
    }
  }

  /** The access is to an array without lines in this set. */
  predicate NothingHere(l: Layout, arr: Option<Array>) {
    arr.Some? && l.perSetSize(arr.value) == 0
  }

  lemma PotentialUpdateSound(l: Layout, ages: Ages, p: seq<Op>, r: Resolution, s: seq<Tag>, arr: Option<Array>,
                             x: Option<Tag>)
    requires LayoutValid(l) && Holds(l, ages, p, r, s) && ResolvesAll(l, p, r) && Resolves(l, OpFor(arr), x)
    ensures Holds(l, PotentialUpdate(ages, arr, l.perSetSize, l.assoc), p + [OpFor(arr)], r + [x], s)
  {
    var ages' := PotentialUpdate(ages, arr, l.perSetSize, l.assoc);
    RunAppend(r, x, s, l.assoc);
    forall u | u in ages'
      ensures ages'[u].age < l.assoc
      ensures BoundHolds(l, p + [OpFor(arr)], u, ages'[u]) ||
        (Loose(ages'[u], u, Run(s, Accesses(r + [x]), l.assoc), l.assoc) && NothingHere(l, arr) &&
         !BoundHolds(l, p, u, ages[u]))
    {
      ListedAfterPotential(l, ages, p, r, s, arr, x, u);
    }
    if !Represents(l, ages', p + [OpFor(arr)]) {
      NoneUsedUpAfter(l, ages, arr);
    }
  }

  lemma NoneUsedUpAfter(l: Layout, ages: Ages, arr: Option<Array>)
    requires l.assoc >= 1 && NothingHere(l, arr) && NoneUsedUp(ages, l.perSetSize)
    ensures NoneUsedUp(PotentialUpdate(ages, arr, l.perSetSize, l.assoc), l.perSetSize)
  {
    var ages' := PotentialUpdate(ages, arr, l.perSetSize, l.assoc);
    forall u, v | u in ages' ensures !UsedUp(ages'[u], v, l.perSetSize) {
      assert !UsedUp(ages[u], v, l.perSetSize);
    }
  }
}
