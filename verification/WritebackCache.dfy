/**
 A whole write-back cache under the dirtiness analysis: one state per set, updated for accesses
 known to lie in an address interval, with one report joined over all sets that are touched.
 */
module WritebackCaches {
  import opened CacheGeometry
  import opened LruSet
  import opened Options
  import opened MustCache
  import opened MayCache
  import opened CacheSelections
  import WholeCache
  import opened Dirtiness

  // ---------- The concrete cache ----------

  ghost predicate IsWbCache(g: Geometry, c: seq<WbSet>) {
    |c| == g.nSets && forall i :: 0 <= i < |c| ==> IsWbSet(c[i], g.assoc)
  }

  function CacheAccess(g: Geometry, c: seq<WbSet>, addr: nat, store: bool): seq<WbSet>
    requires g.Valid() && |c| == g.nSets
  {
    Touch(c, g.SetOf(addr), g.TagOf(addr), store, g.assoc)
  }

  function Touch(c: seq<WbSet>, i: nat, t: Tag, store: bool, assoc: nat): seq<WbSet>
    requires assoc >= 1 && i < |c|
  {
    c[i := WbAccess(c[i], t, store, assoc)]
  }

  /** Some dirty line of some set is no longer cached. */
  ghost predicate LosesDirty(c: seq<WbSet>, c': seq<WbSet>)
    requires |c| == |c'|
  {
    exists i, u :: 0 <= i < |c| && u in c[i].dirty && u !in c'[i].blocks
  }

  // ---------- The abstract cache ----------

  ghost predicate AllValid(sets: seq<State>, assoc: nat) {
    forall i :: 0 <= i < |sets| ==> sets[i].Valid(assoc)
  }

  ghost predicate AllHold(sets: seq<State>, c: seq<WbSet>, assoc: nat) {
    |sets| == |c| && forall i :: 0 <= i < |sets| ==> sets[i].Holds(c[i], assoc)
  }

  /** An access: what it selects, the tags of the interval, and what is known about it. */
  datatype Access = Access(sel: Selection, low: Tag, high: Tag, store: bool, hit: bool)

  function AccessTo(g: Geometry, lower: nat, upper: nat, store: bool, hit: bool): (x: Access)
    requires g.Valid()
    ensures x.sel.OneLine? ==> x.sel.i < g.nSets
  {
    Access(Select(g, lower, upper), g.TagOf(lower), g.TagOf(upper), store, hit)
  }

  function UpdatedAll(sets: seq<State>, x: Access, assoc: nat): (sets': seq<State>)
    requires assoc >= 1 && (x.sel.OneLine? ==> x.sel.i < |sets|)
    ensures |sets'| == |sets|
  {
    match x.sel
    case OneLine(i, t) => sets[i := Dirtiness.Updated(sets[i], t, x.store, x.hit, assoc)]
    case Sets(l, u) => CycleUpdated(sets, x, l, u, assoc)
  }

  function CycleUpdated(sets: seq<State>, x: Access, l: nat, u: nat, assoc: nat): (sets': seq<State>)
    ensures |sets'| == |sets|
  {
    seq(|sets|, i requires 0 <= i < |sets| =>
      if InCycle(l, u, i) then PotentiallyUpdated(sets[i], x.low, x.high, x.store, assoc) else sets[i])
  }

  /** What each set reports of an access to an unknown line. */
  function SetReports(sets: seq<State>, x: Access, assoc: nat): seq<WritebackReport> {
    seq(|sets|, i requires 0 <= i < |sets| => PotentialReport(sets[i], x.low, x.high, x.store, assoc))
  }

  function JoinReports(x: WritebackReport, y: WritebackReport): WritebackReport {
    WritebackReport(x.wbPossible || y.wbPossible, x.dirtifyingStore || y.dirtifyingStore)
  }

  /** The reports from `l` on, below `n`. */
  function RangeReport(reports: seq<WritebackReport>, l: nat, n: nat): WritebackReport
    requires n <= |reports|
  {
    if l >= n then WritebackReport(false, false) else JoinReports(RangeReport(reports, l, n - 1), reports[n - 1])
  }

  function CycleReport(reports: seq<WritebackReport>, l: nat, u: nat): WritebackReport
    requires u < |reports|
  {
    if l <= u then RangeReport(reports, l, u + 1)
    else JoinReports(RangeReport(reports, l, |reports|), RangeReport(reports, 0, u + 1))
  }

  predicate Inside(sel: Selection, n: nat) {
    match sel case OneLine(i, _) => i < n case Sets(l, u) => l < n && u < n
  }

  function Report(sets: seq<State>, x: Access, assoc: nat): WritebackReport
    requires assoc >= 1 && Inside(x.sel, |sets|)
  {
    match x.sel
    case OneLine(i, t) => UpdateReport(sets[i], t, x.store, x.hit, assoc)
    case Sets(l, u) => CycleReport(SetReports(sets, x, assoc), l, u)
  }

  lemma {:induction false} RangeReportExactly(reports: seq<WritebackReport>, l: nat, n: nat)
    requires n <= |reports|
    ensures RangeReport(reports, l, n).wbPossible <==> exists i :: l <= i < n && reports[i].wbPossible
    ensures RangeReport(reports, l, n).dirtifyingStore <==> exists i :: l <= i < n && reports[i].dirtifyingStore
  {
    if l < n {
      RangeReportExactly(reports, l, n - 1);
    }
  }

  /** The joined report says what some set on the way from `l` to `u` says, and nothing more. */
  lemma CycleReportExactly(reports: seq<WritebackReport>, l: nat, u: nat)
    requires l < |reports| && u < |reports|
    ensures CycleReport(reports, l, u).wbPossible <==>
      exists i :: 0 <= i < |reports| && InCycle(l, u, i) && reports[i].wbPossible
    ensures CycleReport(reports, l, u).dirtifyingStore <==>
      exists i :: 0 <= i < |reports| && InCycle(l, u, i) && reports[i].dirtifyingStore
  {
    if l <= u {
      RangeReportExactly(reports, l, u + 1);
    } else {
      RangeReportExactly(reports, l, |reports|);
      RangeReportExactly(reports, 0, u + 1);
    }
  }

  // ---------- Soundness of one access ----------

  /** The access really goes to tag `t` of set `i`. */
  ghost predicate GoesTo(x: Access, c: seq<WbSet>, i: nat, t: Tag) {
    && i < |c| && x.low <= t <= x.high && Selected(x.sel, i, Some(t))
    && (x.sel.OneLine? && x.hit ==> t in c[i].blocks)
    && (x.sel.OneLine? ==> x.sel.i == i && x.sel.t == t)
  }

  lemma UpdatedAllSound(sets: seq<State>, x: Access, c: seq<WbSet>, i: nat, t: Tag, assoc: nat)
    requires assoc >= 1 && AllValid(sets, assoc) && AllHold(sets, c, assoc) && GoesTo(x, c, i, t)
    ensures AllHold(UpdatedAll(sets, x, assoc), Touch(c, i, t, x.store, assoc), assoc)
  {
    if x.sel.OneLine? {
      Dirtiness.UpdateSound(sets[i], c[i], t, x.store, x.hit, assoc);
    } else {
      var sets' := UpdatedAll(sets, x, assoc);
      forall j | 0 <= j < |sets|
        ensures sets'[j].Holds(if j == i then WbAccess(c[j], t, x.store, assoc) else c[j], assoc)
      {
        Dirtiness.PotentialUpdateSound(sets[j], c[j], x.low, x.high, t, x.store, assoc);
      }
    }
  }

  /**
   The joined report is right: if it excludes a write-back, no dirty line leaves any set, and if
   it excludes a dirtifying store, a store finds its line dirty.
   */
  lemma ReportSound(sets: seq<State>, x: Access, c: seq<WbSet>, i: nat, t: Tag, assoc: nat)
    requires assoc >= 1 && AllValid(sets, assoc) && AllHold(sets, c, assoc) && GoesTo(x, c, i, t)
    requires Inside(x.sel, |sets|)
    ensures !Report(sets, x, assoc).wbPossible ==> !LosesDirty(c, Touch(c, i, t, x.store, assoc))
    ensures x.store && !Report(sets, x, assoc).dirtifyingStore ==> t in c[i].dirty
  {
    if x.sel.OneLine? {
      UpdateReportSound(sets[i], c[i], t, x.store, x.hit, assoc);
    } else {
      PotentialReportSound(sets[i], c[i], x.low, x.high, t, x.store, assoc);
      CycleReportExactly(SetReports(sets, x, assoc), x.sel.l, x.sel.u);
      assert SetReports(sets, x, assoc)[i] == PotentialReport(sets[i], x.low, x.high, x.store, assoc);
    }
    OnlyHere(c, i, t, x.store, assoc);
  }

  /** Only the accessed set can lose a line. */
  lemma OnlyHere(c: seq<WbSet>, i: nat, t: Tag, store: bool, assoc: nat)
    requires assoc >= 1 && i < |c| && forall j :: 0 <= j < |c| ==> IsWbSet(c[j], assoc)
    ensures LosesDirty(c, Touch(c, i, t, store, assoc)) ==> WritesBack(c[i], t, assoc)
  {
    var c' := Touch(c, i, t, store, assoc);
    forall j, u | 0 <= j < |c| && u in c[j].dirty && u !in c'[j].blocks ensures j == i {}
  }

  // ---------- Whole runs ----------

  datatype History = Start(assumeEmpty: bool, assumeClean: bool)
                   | Then(h: History, lower: nat, upper: nat, store: bool, hit: bool)
                   | Joined(x: History, y: History)

  function JoinAll(x: seq<State>, y: seq<State>): seq<State>
    requires |x| == |y|
  {
    seq(|x|, i requires 0 <= i < |x| => JoinStates(x[i], y[i]))
  }

  function InitialSets(g: Geometry, assumeEmpty: bool, assumeClean: bool): (sets: seq<State>)
    ensures |sets| == g.nSets
  {
    seq(g.nSets, i => Initial(assumeEmpty, assumeClean, g.assoc))
  }

  lemma InitialSetsValid(g: Geometry, assumeEmpty: bool, assumeClean: bool)
    requires g.Valid()
    ensures AllValid(InitialSets(g, assumeEmpty, assumeClean), g.assoc)
  {
    Dirtiness.EvalValid(Dirtiness.Start(assumeEmpty, assumeClean), g.assoc);
  }

  function Eval(g: Geometry, h: History): (sets: seq<State>)
    requires g.Valid()
    ensures |sets| == g.nSets
  {
    match h
    case Start(assumeEmpty, assumeClean) => InitialSets(g, assumeEmpty, assumeClean)
    case Then(h, lower, upper, store, hit) => UpdatedAll(Eval(g, h), AccessTo(g, lower, upper, store, hit), g.assoc)
    case Joined(x, y) => JoinAll(Eval(g, x), Eval(g, y))
  }

  /** The assertion of the must update in the line that is accessed, if it is one. */
  ghost predicate CanUpdate(sets: seq<State>, x: Access, assoc: nat) {
    x.sel.OneLine? ==> x.sel.i < |sets| && MustCanAssume(sets[x.sel.i].must, x.sel.t, x.hit, assoc)
  }

  ghost predicate Fits(g: Geometry, h: History)
    requires g.Valid()
  {
    match h
    case Start(_, _) => true
    case Then(h, lower, upper, store, hit) =>
      && Fits(g, h) && lower <= upper && WholeCache.IntervalFits(g, lower, upper)
      && CanUpdate(Eval(g, h), AccessTo(g, lower, upper, store, hit), g.assoc)
    case Joined(x, y) => Fits(g, x) && Fits(g, y)
  }

  /** Where an access to one line is assumed to hit, it does. */
  ghost predicate TrueOf(g: Geometry, c: seq<WbSet>, lower: nat, addr: nat, upper: nat, hit: bool)
    requires g.Valid() && |c| == g.nSets
  {
    g.Line(lower) == g.Line(upper) && hit ==> g.TagOf(addr) in c[g.SetOf(addr)].blocks
  }

  /** The caches some execution ends in. */
  ghost predicate Reaches(g: Geometry, h: History, c: seq<WbSet>)
    requires g.Valid()
  {
    match h
    case Start(assumeEmpty, assumeClean) =>
      && IsWbCache(g, c) && (assumeEmpty ==> forall i :: 0 <= i < |c| ==> c[i].blocks == [])
      && (assumeClean ==> forall i :: 0 <= i < |c| ==> c[i].dirty == {})
    case Then(h, lower, upper, store, hit) =>
      exists c0, addr: nat :: |c0| == g.nSets && Reaches(g, h, c0) && lower <= addr <= upper
                              && TrueOf(g, c0, lower, addr, upper, hit) && c == CacheAccess(g, c0, addr, store)
    case Joined(x, y) => Reaches(g, x, c) || Reaches(g, y, c)
  }

  /** An address of the interval is where the access goes to. */
  lemma AddressGoesTo(g: Geometry, c: seq<WbSet>, lower: nat, addr: nat, upper: nat, store: bool, hit: bool)
    requires g.Valid() && |c| == g.nSets && lower <= addr <= upper && WholeCache.IntervalFits(g, lower, upper)
    requires TrueOf(g, c, lower, addr, upper, hit)
    ensures GoesTo(AccessTo(g, lower, upper, store, hit), c, g.SetOf(addr), g.TagOf(addr))
  {
    SelectedAt(g, lower, addr, upper, g.SetOf(addr));
    WholeCache.TagsBetween(g, lower, addr, upper);
    if g.Line(lower) == g.Line(upper) {
      WholeCache.SameLine(g, lower, addr, upper);
    }
  }

  lemma UpdatedAllValid(sets: seq<State>, x: Access, assoc: nat)
    requires assoc >= 1 && AllValid(sets, assoc) && CanUpdate(sets, x, assoc)
    ensures AllValid(UpdatedAll(sets, x, assoc), assoc)
  {
    if x.sel.OneLine? {
      UpdateValid(sets[x.sel.i], x.sel.t, x.store, x.hit, assoc);
    } else {
      forall i | 0 <= i < |sets| ensures PotentiallyUpdated(sets[i], x.low, x.high, x.store, assoc).Valid(assoc) {
        PotentialUpdateValid(sets[i], x.low, x.high, x.store, assoc);
      }
    }
  }

  lemma {:induction false} EvalValid(g: Geometry, h: History)
    requires g.Valid() && Fits(g, h)
    ensures AllValid(Eval(g, h), g.assoc)
  {
    match h
    case Start(assumeEmpty, assumeClean) => InitialSetsValid(g, assumeEmpty, assumeClean);
    case Then(h', lower, upper, store, hit) =>
      EvalValid(g, h');
      UpdatedAllValid(Eval(g, h'), AccessTo(g, lower, upper, store, hit), g.assoc);
    case Joined(x, y) =>
      EvalValid(g, x);
      EvalValid(g, y);
      forall i | 0 <= i < g.nSets ensures JoinStates(Eval(g, x)[i], Eval(g, y)[i]).Valid(g.assoc) {
        JoinValid(Eval(g, x)[i], Eval(g, y)[i], g.assoc);
      }
  }

  /** Every cache an execution ends in is represented, set by set. */
  lemma {:induction false} RunSound(g: Geometry, h: History, c: seq<WbSet>)
    requires g.Valid() && Fits(g, h) && Reaches(g, h, c)
    ensures AllHold(Eval(g, h), c, g.assoc)
  {
    match h
    case Start(assumeEmpty, assumeClean) =>
      forall i | 0 <= i < g.nSets ensures Initial(assumeEmpty, assumeClean, g.assoc).Holds(c[i], g.assoc) {
        Dirtiness.RunSound(Dirtiness.Start(assumeEmpty, assumeClean), c[i], g.assoc);
      }
    case Then(h', lower, upper, store, hit) =>
      var c0, addr: nat :| |c0| == g.nSets && Reaches(g, h', c0) && lower <= addr <= upper
                           && TrueOf(g, c0, lower, addr, upper, hit) && c == CacheAccess(g, c0, addr, store);
      RunSound(g, h', c0);
      EvalValid(g, h');
      AddressGoesTo(g, c0, lower, addr, upper, store, hit);
      UpdatedAllSound(Eval(g, h'), AccessTo(g, lower, upper, store, hit), c0, g.SetOf(addr), g.TagOf(addr), g.assoc);
    case Joined(x, y) =>
      EvalValid(g, x);
      EvalValid(g, y);
      if Reaches(g, x, c) {
        RunSound(g, x, c);
      } else {
        RunSound(g, y, c);
      }
      forall i | 0 <= i < g.nSets ensures JoinStates(Eval(g, x)[i], Eval(g, y)[i]).Holds(c[i], g.assoc) {
        Dirtiness.JoinSound(Eval(g, x)[i], Eval(g, y)[i], c[i], g.assoc);
      }
  }

  lemma SelectInside(g: Geometry, lower: nat, upper: nat)
    requires g.Valid() && lower <= upper
    ensures Inside(Select(g, lower, upper), g.nSets)
  {}

  /**
   At every point of every run: if the report of the next access excludes a write-back, the access
   evicts no dirty line in any set, wherever in the interval it goes; and likewise for stores.
   */
  lemma ReportsSound(g: Geometry, h: History, c: seq<WbSet>, lower: nat, addr: nat, upper: nat, store: bool, hit: bool)
    requires g.Valid() && Fits(g, h) && Reaches(g, h, c) && |c| == g.nSets
    requires lower <= addr <= upper && WholeCache.IntervalFits(g, lower, upper)
    requires TrueOf(g, c, lower, addr, upper, hit)
    ensures Inside(Select(g, lower, upper), g.nSets)
    ensures var report := Report(Eval(g, h), AccessTo(g, lower, upper, store, hit), g.assoc);
      && (!report.wbPossible ==> !LosesDirty(c, CacheAccess(g, c, addr, store)))
      && (store && !report.dirtifyingStore ==> g.TagOf(addr) in c[g.SetOf(addr)].dirty)
  {
    RunSound(g, h, c);
    EvalValid(g, h);
    SelectInside(g, lower, upper);
    AddressGoesTo(g, c, lower, addr, upper, store, hit);
    ReportSound(Eval(g, h), AccessTo(g, lower, upper, store, hit), c, g.SetOf(addr), g.TagOf(addr), g.assoc);
  }

  // ---------- Precision ----------

  /** The joined sets know of each block what both sides know, and bound it as both sides do. */
  lemma JoinAllExactly(g: Geometry, x: seq<State>, y: seq<State>, i: nat, u: Tag)
    requires g.Valid() && |x| == |y| == g.nSets && i < g.nSets && x[i].Valid(g.assoc) && y[i].Valid(g.assoc)
    ensures var d := JoinAll(x, y)[i];
      && d.must == MustJoin(x[i].must, y[i].must) && d.may == MayJoin(x[i].may, y[i].may)
      && (d.Get(u) == Dirty <==> x[i].Get(u) == Dirty && y[i].Get(u) == Dirty)
      && (d.Get(u) != Clean <==> x[i].Get(u) != Clean || y[i].Get(u) != Clean)
  {
    Dirtiness.JoinedExactly(x[i], y[i], u);
  }

  /** Exactly the sets that addresses of the interval lie in are updated. */
  lemma UpdatedAllExactly(g: Geometry, sets: seq<State>, lower: nat, upper: nat, store: bool, hit: bool, i: nat)
    requires g.Valid() && |sets| == g.nSets && lower <= upper && i < g.nSets
    requires WholeCache.IntervalFits(g, lower, upper) && (g.lineSize >= 4 || !g.SpansAllSets(lower, upper))
    ensures UpdatedAll(sets, AccessTo(g, lower, upper, store, hit), g.assoc)[i] ==
      if !WholeCache.SomeAddressIn(g, lower, upper, i) then sets[i]
      else if g.Line(lower) == g.Line(upper) then Updated(sets[i], g.TagOf(lower), store, hit, g.assoc)
      else PotentiallyUpdated(sets[i], g.TagOf(lower), g.TagOf(upper), store, g.assoc)
  {
    if g.Line(lower) == g.Line(upper) {
      if addr: nat :| lower <= addr <= upper && g.SetOf(addr) == i {
        WholeCache.SameLine(g, lower, addr, upper);
      }
    } else {
      WholeCache.TouchedExactly(g, lower, upper, i);
    }
  }

  /** Set `i` reports a possible write-back, and some address of the interval lies in it. */
  ghost predicate WritebackIn(g: Geometry, reports: seq<WritebackReport>, lower: nat, upper: nat, i: nat)
    requires g.Valid() && |reports| == g.nSets
  {
    i < g.nSets && WholeCache.SomeAddressIn(g, lower, upper, i) && reports[i].wbPossible
  }

  ghost predicate DirtifyingIn(g: Geometry, reports: seq<WritebackReport>, lower: nat, upper: nat, i: nat)
    requires g.Valid() && |reports| == g.nSets
  {
    i < g.nSets && WholeCache.SomeAddressIn(g, lower, upper, i) && reports[i].dirtifyingStore
  }

  /** The joined report of an interval is that of the sets its addresses lie in, and of no others. */
  lemma ReportExactly(g: Geometry, sets: seq<State>, lower: nat, upper: nat, store: bool, hit: bool)
    requires g.Valid() && |sets| == g.nSets && lower <= upper && g.Line(lower) != g.Line(upper)
    requires WholeCache.IntervalFits(g, lower, upper) && (g.lineSize >= 4 || !g.SpansAllSets(lower, upper))
    requires Inside(Select(g, lower, upper), g.nSets)
    ensures var x := AccessTo(g, lower, upper, store, hit);
      var reports := SetReports(sets, x, g.assoc);
      && (Report(sets, x, g.assoc).wbPossible <==> exists i :: WritebackIn(g, reports, lower, upper, i))
      && (Report(sets, x, g.assoc).dirtifyingStore <==> exists i :: DirtifyingIn(g, reports, lower, upper, i))
  {
    var x := AccessTo(g, lower, upper, store, hit);
    var reports := SetReports(sets, x, g.assoc);
    CycleReportExactly(reports, x.sel.l, x.sel.u);
    forall i: nat | i < g.nSets
      ensures InCycle(x.sel.l, x.sel.u, i) <==> WholeCache.SomeAddressIn(g, lower, upper, i)
    {
      WholeCache.TouchedExactly(g, lower, upper, i);
    }
    SameSets(g, reports, lower, upper, x.sel.l, x.sel.u);
  }

  lemma SameSets(g: Geometry, reports: seq<WritebackReport>, lower: nat, upper: nat, l: nat, u: nat)
    requires g.Valid() && |reports| == g.nSets
    requires forall i: nat :: i < g.nSets ==> (InCycle(l, u, i) <==> WholeCache.SomeAddressIn(g, lower, upper, i))
    ensures (exists i :: 0 <= i < |reports| && InCycle(l, u, i) && reports[i].wbPossible) <==>
      exists i :: WritebackIn(g, reports, lower, upper, i)
    ensures (exists i :: 0 <= i < |reports| && InCycle(l, u, i) && reports[i].dirtifyingStore) <==>
      exists i :: DirtifyingIn(g, reports, lower, upper, i)
  {
    forall i: nat | i < g.nSets
      ensures WritebackIn(g, reports, lower, upper, i) <==> InCycle(l, u, i) && reports[i].wbPossible
      ensures DirtifyingIn(g, reports, lower, upper, i) <==> InCycle(l, u, i) && reports[i].dirtifyingStore
    {}
  }

  // ---------- The cache object ----------

  function SetUpdated(sets: seq<State>, x: Access, i: nat, assoc: nat): seq<State>
    requires i < |sets|
  {
    sets[i := PotentiallyUpdated(sets[i], x.low, x.high, x.store, assoc)]
  }

  function RangeUpdated(sets: seq<State>, x: Access, l: nat, n: nat, assoc: nat): (sets': seq<State>)
    ensures |sets'| == |sets|
  {
    seq(|sets|, i requires 0 <= i < |sets| =>
      if l <= i < n then PotentiallyUpdated(sets[i], x.low, x.high, x.store, assoc) else sets[i])
  }

  lemma RangeNext(sets: seq<State>, x: Access, l: nat, n: nat, assoc: nat)
    requires l <= n < |sets|
    ensures RangeUpdated(sets, x, l, n + 1, assoc) == SetUpdated(RangeUpdated(sets, x, l, n, assoc), x, n, assoc)
    ensures SetReports(RangeUpdated(sets, x, l, n, assoc), x, assoc)[n] == SetReports(sets, x, assoc)[n]
  {}

  lemma {:induction false} SameReports(reports: seq<WritebackReport>, reports': seq<WritebackReport>, l: nat, n: nat)
    requires n <= |reports| == |reports'| && forall i :: l <= i < n ==> reports'[i] == reports[i]
    ensures RangeReport(reports', l, n) == RangeReport(reports, l, n)
  {
    if l < n {
      SameReports(reports, reports', l, n - 1);
    }
  }

  /** With wraparound the second range is untouched by the update of the first one. */
  lemma TwoRanges(sets: seq<State>, sets': seq<State>, x: Access, l: nat, u: nat, assoc: nat)
    requires u < l < |sets| && sets' == RangeUpdated(sets, x, l, |sets|, assoc)
    ensures RangeUpdated(sets', x, 0, u + 1, assoc) == CycleUpdated(sets, x, l, u, assoc)
    ensures RangeReport(SetReports(sets', x, assoc), 0, u + 1) == RangeReport(SetReports(sets, x, assoc), 0, u + 1)
  {
    SameReports(SetReports(sets, x, assoc), SetReports(sets', x, assoc), 0, u + 1);
  }

  class WritebackCacheImpl {
    const g: Geometry
    const cacheSets: array<State>

    ghost predicate Valid()
      reads this, cacheSets
    {
      g.Valid() && cacheSets.Length == g.nSets && AllValid(cacheSets[..], g.assoc)
    }

    constructor (g: Geometry, assumeAnEmptyCache: bool, assumeCleanCache: bool)
      requires g.Valid()
      ensures Valid() && this.g == g && fresh(cacheSets)
      ensures cacheSets[..] == InitialSets(g, assumeAnEmptyCache, assumeCleanCache)
    {
      this.g := g;
      cacheSets := new State[g.nSets](i => Initial(assumeAnEmptyCache, assumeCleanCache, g.assoc));
      new;
      InitialSetsValid(g, assumeAnEmptyCache, assumeCleanCache);
      assert cacheSets[..] == InitialSets(g, assumeAnEmptyCache, assumeCleanCache);
    }

    /** An access somewhere in [lower, upper], with the report of all sets it may touch. */
    method Update(lower: nat, upper: nat, store: bool, hit: bool) returns (report: WritebackReport)
      requires Valid() && lower <= upper && WholeCache.IntervalFits(g, lower, upper)
      requires CanUpdate(cacheSets[..], AccessTo(g, lower, upper, store, hit), g.assoc)
      modifies cacheSets
      ensures Valid()
      ensures cacheSets[..] == old(UpdatedAll(cacheSets[..], AccessTo(g, lower, upper, store, hit), g.assoc))
      ensures Inside(Select(g, lower, upper), g.nSets)
      ensures report == Report(old(cacheSets[..]), AccessTo(g, lower, upper, store, hit), g.assoc)
    {
      var x := AccessTo(g, lower, upper, store, hit);
      SelectInside(g, lower, upper);
      UpdatedAllValid(cacheSets[..], x, g.assoc);
      match x.sel {
        case OneLine(i, t) =>
          report := UpdateReport(cacheSets[i], t, store, hit, g.assoc);
          cacheSets[i] := Dirtiness.Updated(cacheSets[i], t, store, hit, g.assoc);
        case Sets(l, u) =>
          report := UpdateCycle(x, l, u);
      }
    }

    /** All sets from `l` on to `u`, with wraparound. */
    method UpdateCycle(x: Access, l: nat, u: nat) returns (report: WritebackReport)
      requires l < cacheSets.Length && u < cacheSets.Length
      modifies cacheSets
      ensures cacheSets[..] == CycleUpdated(old(cacheSets[..]), x, l, u, g.assoc)
      ensures report == CycleReport(SetReports(old(cacheSets[..]), x, g.assoc), l, u)
    {
      ghost var sets := cacheSets[..];
      if l <= u {
        report := UpdateUnknownSets(x, l, u + 1);
      } else {
        report := UpdateUnknownSets(x, l, cacheSets.Length);
        TwoRanges(sets, cacheSets[..], x, l, u, g.assoc);
        var report2 := UpdateUnknownSets(x, 0, u + 1);
        report := JoinReports(report, report2);
      }
    }

    /** The sets from `l` on, below `n`: each is updated, and its report joined to those before. */
    method UpdateUnknownSets(x: Access, l: nat, n: nat) returns (report: WritebackReport)
      requires l < n <= cacheSets.Length
      modifies cacheSets
      ensures cacheSets[..] == RangeUpdated(old(cacheSets[..]), x, l, n, g.assoc)
      ensures report == RangeReport(SetReports(old(cacheSets[..]), x, g.assoc), l, n)
    {
      ghost var sets := cacheSets[..];
      assert RangeUpdated(sets, x, l, l, g.assoc) == sets;
      RangeNext(sets, x, l, l, g.assoc);
      report := Visit(x, l);
      var index := l + 1;
      while index < n
        invariant l < index <= n && report == RangeReport(SetReports(sets, x, g.assoc), l, index)
        invariant cacheSets[..] == RangeUpdated(sets, x, l, index, g.assoc)
      {
        RangeNext(sets, x, l, index, g.assoc);
        var next := Visit(x, index);
        report := JoinReports(report, next);
        index := index + 1;
      }
    }

    method Visit(x: Access, index: nat) returns (report: WritebackReport)
      requires index < cacheSets.Length
      modifies cacheSets
      ensures report == SetReports(old(cacheSets[..]), x, g.assoc)[index]
      ensures cacheSets[..] == old(SetUpdated(cacheSets[..], x, index, g.assoc))
    {
      report := PotentialReport(cacheSets[index], x.low, x.high, x.store, g.assoc);
      cacheSets[index] := PotentiallyUpdated(cacheSets[index], x.low, x.high, x.store, g.assoc);
    }

    method Join(y: WritebackCacheImpl)
      requires Valid() && y.Valid() && g == y.g
      modifies cacheSets
      ensures Valid() && cacheSets[..] == JoinAll(old(cacheSets[..]), old(y.cacheSets[..]))
    {
      ghost var sx, sy := cacheSets[..], y.cacheSets[..];
      var index := 0;
      while index < g.nSets
        invariant 0 <= index <= g.nSets
        invariant forall i :: 0 <= i < g.nSets ==> cacheSets[i] == if i < index then JoinStates(sx[i], sy[i]) else sx[i]
        invariant y.cacheSets != cacheSets ==> y.cacheSets[..] == sy
      {
        cacheSets[index] := JoinStates(cacheSets[index], y.cacheSets[index]);
        index := index + 1;
      }
      forall i | 0 <= i < g.nSets ensures JoinStates(sx[i], sy[i]).Valid(g.assoc) {
        JoinValid(sx[i], sy[i], g.assoc);
      }
    }
  }
}
