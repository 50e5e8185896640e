/**
 The dirtiness analysis of one write-back LRU set. It runs on top of a must and a may
 analysis and keeps a table of tags, with one flag for all tags the table does not list.
 */
module Dirtiness {
  import opened LruSet
  import opened AgeList
  import opened Classifications
  import opened MustCache
  import opened MayCache
  import MustExact
  import MayExact

  // ---------- The concrete write-back set ----------

  datatype WbSet = WbSet(blocks: seq<Tag>, dirty: set<Tag>)

  ghost predicate IsWbSet(c: WbSet, assoc: nat) {
    IsLruSet(c.blocks, assoc) && forall u :: u in c.dirty ==> u in c.blocks
  }

  /** Write-allocate: a store makes its block dirty; an evicted block is clean again. */
  function WbAccess(c: WbSet, t: Tag, store: bool, assoc: nat): WbSet
    requires assoc >= 1
  {
    var blocks := Access(c.blocks, t, assoc);
    WbSet(blocks, set u | u in c.dirty + (if store then {t} else {}) && u in blocks)
  }

  /** The access evicts a dirty block, which has to be written back. */
  ghost predicate WritesBack(c: WbSet, t: Tag, assoc: nat)
    requires assoc >= 1
  {
    exists u :: u in c.dirty && u !in Access(c.blocks, t, assoc)
  }

  // ---------- The abstract state ----------

  datatype Dcl = Dirty | Clean | Unclear {
    function Join(other: Dcl): Dcl {
      if this == other then this else Unclear
    }
  }

  datatype State = State(must: Bounds, may: May, implicitDirty: bool, table: map<Tag, Dcl>) {

    function Implicit(): Dcl {
      if implicitDirty then Unclear else Clean
    }

    function Get(t: Tag): Dcl {
      if t in table then table[t] else Implicit()
    }

    /** A certainly dirty block is certainly cached. */
    ghost predicate Valid(assoc: nat) {
      && MustValid(must, assoc) && may.Valid(assoc)
      && forall u :: u in table && table[u] == Dirty ==> u in must
    }

    /** The concrete sets the state stands for. */
    ghost predicate Holds(c: WbSet, assoc: nat) {
      HoldsBut(c, {}, assoc)
    }

    /**
     The meaning while an update is under way: entries of the tags in `lost` may still
     call a block dirty that just left the cache. The third conjunct on the table is the
     invariant that makes forgetting sound: a dirty block the table does not list is at
     least as old as the tags the may analysis does not list.
     */
    ghost predicate HoldsBut(c: WbSet, lost: set<Tag>, assoc: nat) {
      && IsWbSet(c, assoc)
      && MustHolds(must, c.blocks, assoc) && may.Holds(c.blocks, assoc)
      && (forall u :: u in c.dirty && u in table ==> table[u] != Clean)
      && (forall u :: u in c.dirty && u !in table ==> implicitDirty && may.implicitAge <= Age(c.blocks, u, assoc))
      && (forall u :: u in table && table[u] == Dirty && u !in lost ==> u in c.dirty)
    }

    /** What the analysis asserts about itself, beyond `Valid`. */
    ghost predicate Consistent(assoc: nat) {
      && (forall u :: u in table && table[u] != Clean ==> may.MinAge(u) < assoc)
      && (implicitDirty ==> may.implicitAge < assoc)
    }
  }

  function Initial(assumeEmpty: bool, assumeClean: bool, assoc: nat): State {
    State(map[], May(map[], if assumeEmpty then assoc else 0), !assumeClean, map[])
  }

  function Track(d: State, t: Tag): State {
    if t in d.table then d else d.(table := d.table[t := d.Implicit()])
  }

  /** Some block that may be dirty is not guaranteed to be cached. */
  predicate ExistsDirtyVictim(d: State) {
    d.implicitDirty || exists u :: u in d.table && d.table[u] != Clean && u !in d.must
  }

  /** The tags an update of the may analysis reports as evicted. */
  function MayEvictions(before: May, after: May, assoc: nat): set<Tag> {
    set u | u in before.tags && after.MinAge(u) == assoc
  }

  /** Forgets what the eviction of the last unlisted tag makes redundant. */
  function ForgetUnknowns(d: State, assoc: nat): State {
    d.(implicitDirty := false,
       table := map u | u in d.table && d.table[u] != Clean && d.may.MinAge(u) != assoc :: d.table[u])
  }

  /** A block that may have left the cache is no longer certainly dirty. */
  function Weaken(table: map<Tag, Dcl>, evicted: set<Tag>): map<Tag, Dcl> {
    map u | u in table :: if u in evicted && table[u] == Dirty then Unclear else table[u]
  }

  /** An evicted block is clean; without an implicit dirty block this need not be remembered. */
  function CleanEvicted(d: State, evicted: set<Tag>): State {
    d.(table := if d.implicitDirty then d.table + (map u | u in evicted :: Clean) else d.table - evicted)
  }

  /** `d` already carries the updated must and may state; `before` is the state they came from. */
  function Incorporate(before: State, d: State, justEvictedUnknowns: bool, assoc: nat): State {
    var d1 := if justEvictedUnknowns then ForgetUnknowns(d, assoc) else d;
    var d2 := d1.(table := Weaken(d1.table, before.must.Keys - d.must.Keys));
    CleanEvicted(d2, MayEvictions(before.may, d.may, assoc))
  }

  /** The branch of `Incorporate` that the source marks as unreachable. */
  predicate MarkedUnreachable(before: State, d: State, justEvictedUnknowns: bool, assoc: nat) {
    d.implicitDirty && !justEvictedUnknowns && MayEvictions(before.may, d.may, assoc) != {}
  }

  predicate EvictsUnknowns(before: May, after: May, assoc: nat) {
    before.implicitAge < assoc == after.implicitAge
  }

  function StoreTo(d: State, t: Tag): State {
    d.(table := d.table[t := Dirty])
  }

  /** Must and may move on; the table already accounts for the accessed tag. */
  function Advance(d: State, t: Tag, store: bool, hit: bool, assoc: nat): State
    requires assoc >= 1
  {
    var d' := if store then StoreTo(Track(d, t), t) else Track(d, t);
    d'.(must := MustUpdate(d.must, t, hit, assoc), may := MayUpdate(d.may, t, assoc))
  }

  function Updated(d: State, t: Tag, store: bool, hit: bool, assoc: nat): State
    requires assoc >= 1
  {
    var d' := Advance(d, t, store, hit, assoc);
    Incorporate(d, d', EvictsUnknowns(d.may, d'.may, assoc), assoc)
  }

  datatype WritebackReport = WritebackReport(wbPossible: bool, dirtifyingStore: bool)

  function UpdateReport(d: State, t: Tag, store: bool, hit: bool, assoc: nat): WritebackReport
    requires assoc >= 1
  {
    WritebackReport(ExistsDirtyVictim(Advance(d, t, store, hit, assoc)), store && d.Get(t) != Dirty)
  }

  function AdvancePotential(d: State, low: Tag, high: Tag, assoc: nat): State {
    d.(must := MustAgeAll(d.must, assoc), may := MayPotential(d.may, low, high))
  }

  /** A store to an unknown tag: every clean entry might just have become dirty. */
  function ForgetClean(d: State): State {
    d.(implicitDirty := true, table := map u | u in d.table && d.table[u] != Clean :: d.table[u])
  }

  function TrackRange(d: State, low: Tag, high: Tag, store: bool): State {
    d.(table := map u | u in d.table.Keys + TagRange(low, high) ::
         if low <= u <= high && store then d.Get(u).Join(Dirty) else d.Get(u))
  }

  function TrackTag(d: State, t: Tag, store: bool): State {
    d.(table := d.table[t := if store then d.Get(t).Join(Dirty) else d.Get(t)])
  }

  lemma TrackNothing(d: State, low: Tag, store: bool)
    ensures TrackRange(d, low, low - 1, store) == d
  {
    SameMap(TrackRange(d, low, low - 1, store).table, d.table);
  }

  /** Tracking one more tag of the interval. */
  lemma TrackNext(d: State, low: Tag, t: Tag, store: bool)
    requires low <= t
    ensures TrackRange(d, low, t, store) == TrackTag(TrackRange(d, low, t - 1, store), t, store)
    ensures TrackRange(d, low, t - 1, store).Get(t) == d.Get(t)
  {
    SameMap(TrackRange(d, low, t, store).table, TrackTag(TrackRange(d, low, t - 1, store), t, store).table);
  }

  function PotentiallyUpdated(d: State, low: Tag, high: Tag, store: bool, assoc: nat): State {
    var d' := Incorporate(d, AdvancePotential(d, low, high, assoc), false, assoc);
    if high - low + 1 > MAX_WORTHWHILE_TAGS then (if store then ForgetClean(d') else d')
    else TrackRange(d', low, high, store)
  }

  function PotentialReport(d: State, low: Tag, high: Tag, store: bool, assoc: nat): WritebackReport {
    var advanced := AdvancePotential(d, low, high, assoc);
    var d' := Incorporate(d, advanced, false, assoc);
    WritebackReport(ExistsDirtyVictim(advanced),
                    store && (high - low + 1 > MAX_WORTHWHILE_TAGS ||
                              exists u :: u in TagRange(low, high) && d'.Get(u) != Dirty))
  }

  function JoinStates(x: State, y: State): State {
    State(MustJoin(x.must, y.must), MayJoin(x.may, y.may), x.implicitDirty || y.implicitDirty,
          map u | u in x.table.Keys + y.table.Keys :: x.Get(u).Join(y.Get(u)))
  }

  // ---------- Soundness of one step ----------

  /** A block that is not accessed stays older than the unlisted tags if it was. */
  lemma UnlistedStaysOld(m: May, s: seq<Tag>, t: Tag, u: Tag, assoc: nat)
    requires assoc >= 1 && IsLruSet(s, assoc) && m.Valid(assoc) && m.Holds(s, assoc)
    requires u != t && m.implicitAge <= Age(s, u, assoc)
    ensures MayUpdate(m, t, assoc).implicitAge <= Age(Access(s, t, assoc), u, assoc)
  {
    AccessAges(s, t, assoc);
    AgesDiffer(s, t, u, assoc);
    AgesDiffer(s, u, t, assoc);
  }

  /** Once no unlisted tag can be cached, forgetting loses no dirty block. */
  lemma ForgetSound(d: State, c: WbSet, lost: set<Tag>, assoc: nat)
    requires d.HoldsBut(c, lost, assoc) && d.may.implicitAge >= assoc
    ensures ForgetUnknowns(d, assoc).HoldsBut(c, lost, assoc)
  {
    forall u | u in c.dirty ensures d.may.MinAge(u) < assoc && Age(c.blocks, u, assoc) < assoc {
      AgesDiffer(c.blocks, u, u + 1, assoc);
    }
  }

  lemma WeakenSound(d: State, c: WbSet, lost: set<Tag>, assoc: nat)
    requires d.HoldsBut(c, lost, assoc)
    ensures d.(table := Weaken(d.table, lost)).Holds(c, assoc)
  {}

  /** Blocks that have left the cache are not dirty. */
  lemma CleanSound(d: State, c: WbSet, evicted: set<Tag>, assoc: nat)
    requires d.Holds(c, assoc) && forall u :: u in evicted ==> d.may.MinAge(u) >= assoc
    ensures CleanEvicted(d, evicted).Holds(c, assoc)
  {
    forall u | u in c.dirty ensures u !in evicted {
      AgesDiffer(c.blocks, u, u + 1, assoc);
    }
  }

  lemma IncorporateSound(before: State, d: State, just: bool, c: WbSet, assoc: nat)
    requires d.HoldsBut(c, before.must.Keys - d.must.Keys, assoc)
    requires just ==> d.may.implicitAge >= assoc
    ensures Incorporate(before, d, just, assoc).Holds(c, assoc)
  {
    var lost := before.must.Keys - d.must.Keys;
    if just {
      ForgetSound(d, c, lost, assoc);
    }
    var d1 := if just then ForgetUnknowns(d, assoc) else d;
    WeakenSound(d1, c, lost, assoc);
    CleanSound(d1.(table := Weaken(d1.table, lost)), c, MayEvictions(before.may, d.may, assoc), assoc);
  }

  lemma AdvanceMustMay(d: State, c: WbSet, t: Tag, hit: bool, assoc: nat)
    requires assoc >= 1 && d.Valid(assoc) && d.Holds(c, assoc)
    requires hit ==> t in c.blocks
    ensures IsLruSet(Access(c.blocks, t, assoc), assoc) && t in Access(c.blocks, t, assoc)
    ensures MustHolds(MustUpdate(d.must, t, hit, assoc), Access(c.blocks, t, assoc), assoc)
    ensures MayUpdate(d.may, t, assoc).Holds(Access(c.blocks, t, assoc), assoc)
    ensures forall u :: u in MustUpdate(d.must, t, hit, assoc) ==> u in Access(c.blocks, t, assoc)
  {
    var s' := Access(c.blocks, t, assoc);
    AccessAges(c.blocks, t, assoc);
    MustUpdateSound(d.must, c.blocks, t, hit, assoc);
    MayUpdateSound(d.may, c.blocks, t, assoc);
    AgesDiffer(s', t, t + 1, assoc);
    forall u | u in MustUpdate(d.must, t, hit, assoc) ensures u in s' {
      AgesDiffer(s', u, u + 1, assoc);
    }
  }

  lemma AdvanceTable(d: State, t: Tag, store: bool, hit: bool, assoc: nat)
    requires assoc >= 1
    ensures var d' := Advance(d, t, store, hit, assoc);
      && t in d'.table && (store ==> d'.table[t] == Dirty) && d'.implicitDirty == d.implicitDirty
      && (!store ==> d'.table[t] == d.Get(t))
      && forall u :: u != t ==> (u in d'.table <==> u in d.table) && (u in d.table ==> d'.table[u] == d.table[u])
  {}

  lemma AdvanceSound(d: State, c: WbSet, t: Tag, store: bool, hit: bool, assoc: nat)
    requires assoc >= 1 && d.Valid(assoc) && d.Holds(c, assoc)
    requires hit ==> t in c.blocks
    ensures var d' := Advance(d, t, store, hit, assoc);
      d'.HoldsBut(WbAccess(c, t, store, assoc), d.must.Keys - d'.must.Keys, assoc)
  {
    AdvanceMustMay(d, c, t, hit, assoc);
    AdvanceTable(d, t, store, hit, assoc);
    AdvanceDirty(d, Advance(d, t, store, hit, assoc), c, t, store, assoc);
  }

  lemma AdvanceDirty(d: State, d': State, c: WbSet, t: Tag, store: bool, assoc: nat)
    requires assoc >= 1 && d.Valid(assoc) && d.Holds(c, assoc) && t in Access(c.blocks, t, assoc)
    requires t in d'.table && d'.table[t] == (if store then Dirty else d.Get(t)) && d'.implicitDirty == d.implicitDirty
    requires forall u :: u != t ==> (u in d'.table <==> u in d.table) && (u in d.table ==> d'.table[u] == d.table[u])
    requires d'.may == MayUpdate(d.may, t, assoc)
    requires IsLruSet(Access(c.blocks, t, assoc), assoc)
    requires MustHolds(d'.must, Access(c.blocks, t, assoc), assoc)
    requires d'.may.Holds(Access(c.blocks, t, assoc), assoc)
    requires forall u :: u in d'.must ==> u in Access(c.blocks, t, assoc)
    ensures d'.HoldsBut(WbAccess(c, t, store, assoc), d.must.Keys - d'.must.Keys, assoc)
  {
    var c' := WbAccess(c, t, store, assoc);
    forall u | u in c'.dirty && u !in d'.table
      ensures d'.implicitDirty && d'.may.implicitAge <= Age(c'.blocks, u, assoc)
    {
      UnlistedStaysOld(d.may, c.blocks, t, u, assoc);
    }
  }

  lemma UpdateSound(d: State, c: WbSet, t: Tag, store: bool, hit: bool, assoc: nat)
    requires assoc >= 1 && d.Valid(assoc) && d.Holds(c, assoc)
    requires hit ==> t in c.blocks
    ensures Updated(d, t, store, hit, assoc).Holds(WbAccess(c, t, store, assoc), assoc)
  {
    AdvanceSound(d, c, t, store, hit, assoc);
    var d' := Advance(d, t, store, hit, assoc);
    IncorporateSound(d, d', EvictsUnknowns(d.may, d'.may, assoc), WbAccess(c, t, store, assoc), assoc);
  }

  lemma IncorporateValid(before: State, d: State, just: bool, assoc: nat)
    requires MustValid(d.must, assoc) && d.may.Valid(assoc)
    requires forall u :: u in d.table && d.table[u] == Dirty ==> u in before.must || u in d.must
    ensures Incorporate(before, d, just, assoc).Valid(assoc)
  {}

  lemma UpdateValid(d: State, t: Tag, store: bool, hit: bool, assoc: nat)
    requires assoc >= 1 && d.Valid(assoc) && MustCanAssume(d.must, t, hit, assoc)
    ensures Updated(d, t, store, hit, assoc).Valid(assoc)
  {
    var d' := Advance(d, t, store, hit, assoc);
    MustUpdateValid(d.must, t, hit, assoc);
    MayUpdateValid(d.may, t, assoc);
    AdvanceTable(d, t, store, hit, assoc);
    assert t in d'.must;
    IncorporateValid(d, d', EvictsUnknowns(d.may, d'.may, assoc), assoc);
  }

  /** The report is right: no write-back possible means no dirty eviction, and so on. */
  lemma UpdateReportSound(d: State, c: WbSet, t: Tag, store: bool, hit: bool, assoc: nat)
    requires assoc >= 1 && d.Valid(assoc) && d.Holds(c, assoc)
    requires hit ==> t in c.blocks
    ensures !UpdateReport(d, t, store, hit, assoc).wbPossible ==> !WritesBack(c, t, assoc)
    ensures store && !UpdateReport(d, t, store, hit, assoc).dirtifyingStore ==> t in c.dirty
  {
    AdvanceMustMay(d, c, t, hit, assoc);
    var d' := Advance(d, t, store, hit, assoc);
    if u :| u in c.dirty && u !in Access(c.blocks, t, assoc) {
      assert u in d.table ==> u in d'.table && d'.table[u] != Clean;
    }
  }

  // ---------- Imprecise accesses ----------

  lemma AdvancePotentialSound(d: State, c: WbSet, low: Tag, high: Tag, t: Tag, assoc: nat)
    requires assoc >= 1 && d.Valid(assoc) && d.Holds(c, assoc) && low <= t <= high
    ensures var d' := AdvancePotential(d, low, high, assoc);
      && IsLruSet(Access(c.blocks, t, assoc), assoc) && t in Access(c.blocks, t, assoc)
      && MustHolds(d'.must, Access(c.blocks, t, assoc), assoc) && d'.may.Holds(Access(c.blocks, t, assoc), assoc)
      && d'.HoldsBut(c, d.must.Keys - d'.must.Keys, assoc)
      && forall u :: u in d'.must ==> u in Access(c.blocks, t, assoc)
  {
    var s' := Access(c.blocks, t, assoc);
    AccessAges(c.blocks, t, assoc);
    MustAgeAllSound(d.must, c.blocks, t, assoc);
    MayPotentialSound(d.may, c.blocks, low, high, t, assoc);
    AgesDiffer(s', t, t + 1, assoc);
    forall u | u in AdvancePotential(d, low, high, assoc).must ensures u in s' {
      AgesDiffer(s', u, u + 1, assoc);
    }
  }

  /** The state after `Incorporate`, seen from the set after the access, when nothing was stored. */
  lemma PotentialLoad(d: State, c: WbSet, low: Tag, high: Tag, t: Tag, assoc: nat)
    requires assoc >= 1 && d.Valid(assoc) && d.Holds(c, assoc) && low <= t <= high
    ensures var d' := Incorporate(d, AdvancePotential(d, low, high, assoc), false, assoc);
      && d'.Holds(c, assoc)
      && d'.may == MayPotential(d.may, low, high)
      && (forall u :: u in c.dirty && u !in d'.table && u in Access(c.blocks, t, assoc) && u != t ==>
            d'.may.implicitAge <= Age(Access(c.blocks, t, assoc), u, assoc))
      && (forall u :: u in d'.table && d'.table[u] == Dirty ==> u in Access(c.blocks, t, assoc))
  {
    var d1 := AdvancePotential(d, low, high, assoc);
    AdvancePotentialSound(d, c, low, high, t, assoc);
    IncorporateSound(d, d1, false, c, assoc);
    UnlistedStayOld(Incorporate(d, d1, false, assoc), c, t, assoc);
    DirtyAreInMust(d, d1, assoc);
  }

  lemma UnlistedStayOld(d: State, c: WbSet, t: Tag, assoc: nat)
    requires assoc >= 1 && d.Holds(c, assoc)
    ensures forall u :: u in c.dirty && u !in d.table && u in Access(c.blocks, t, assoc) && u != t ==>
      d.may.implicitAge <= Age(Access(c.blocks, t, assoc), u, assoc)
  {
    AccessAges(c.blocks, t, assoc);
  }

  /** What stays certainly dirty is still guaranteed to be cached. */
  lemma DirtyAreInMust(d: State, d1: State, assoc: nat)
    requires d.Valid(assoc) && d1.table == d.table
    ensures var d' := Incorporate(d, d1, false, assoc);
      forall u :: u in d'.table && d'.table[u] == Dirty ==> u in d1.must
  {}

  lemma ForgetCleanSound(d: State, c: WbSet, t: Tag, assoc: nat)
    requires assoc >= 1 && d.Holds(c, assoc) && d.may.implicitAge == 0
    requires d.may.Holds(Access(c.blocks, t, assoc), assoc)
    requires IsLruSet(Access(c.blocks, t, assoc), assoc) && MustHolds(d.must, Access(c.blocks, t, assoc), assoc)
    requires forall u :: u in d.table && d.table[u] == Dirty ==> u in Access(c.blocks, t, assoc)
    ensures ForgetClean(d).Holds(c, assoc)
    ensures ForgetClean(d).Holds(WbAccess(c, t, true, assoc), assoc)
    ensures d.Holds(WbAccess(c, t, false, assoc), assoc)
  {}

  /** `e` knows no more about any tag than `d`, and lists all tags d lists. */
  ghost predicate Coarser(d: State, e: State) {
    && e.must == d.must && e.may == d.may && e.implicitDirty == d.implicitDirty
    && (forall u :: u in d.table ==> u in e.table)
    && (forall u :: u in e.table && e.table[u] == Dirty ==> u in d.table && d.table[u] == Dirty)
    && (forall u :: u in e.table && e.table[u] == Clean ==> d.Get(u) == Clean)
  }

  lemma TrackRangeCoarser(d: State, low: Tag, high: Tag, store: bool)
    ensures Coarser(d, TrackRange(d, low, high, store))
    ensures forall u :: low <= u <= high ==> u in TrackRange(d, low, high, store).table
    ensures forall u :: store && low <= u <= high ==> TrackRange(d, low, high, store).table[u] != Clean
  {
    var e := TrackRange(d, low, high, store);
    forall u | u in e.table
      ensures e.table[u] == if low <= u <= high && store then d.Get(u).Join(Dirty) else d.Get(u)
    {}
  }

  lemma CoarserHolds(d: State, e: State, c: WbSet, assoc: nat)
    requires d.Holds(c, assoc) && Coarser(d, e)
    ensures e.Holds(c, assoc)
  {
    forall u | u in c.dirty && u in e.table ensures e.table[u] != Clean {
      assert d.Get(u) != Clean;
    }
  }

  /** The accessed tag is listed, as possibly dirty after a store. */
  lemma CoarserAccess(d: State, e: State, c: WbSet, t: Tag, store: bool, assoc: nat)
    requires assoc >= 1 && d.Holds(c, assoc) && Coarser(d, e) && t in e.table && (store ==> e.table[t] != Clean)
    requires d.may.Holds(Access(c.blocks, t, assoc), assoc)
    requires IsLruSet(Access(c.blocks, t, assoc), assoc) && MustHolds(d.must, Access(c.blocks, t, assoc), assoc)
    requires forall u :: u in d.table && d.table[u] == Dirty ==> u in Access(c.blocks, t, assoc)
    requires forall u :: u in c.dirty && u !in d.table && u in Access(c.blocks, t, assoc) && u != t ==>
      d.may.implicitAge <= Age(Access(c.blocks, t, assoc), u, assoc)
    ensures e.Holds(WbAccess(c, t, store, assoc), assoc)
  {
    CoarserHolds(d, e, c, assoc);
  }

  /**
   An imprecise access is covered whether it happens, to any tag of the interval, or
   not at all.
   */
  lemma PotentialUpdateSound(d: State, c: WbSet, low: Tag, high: Tag, t: Tag, store: bool, assoc: nat)
    requires assoc >= 1 && d.Valid(assoc) && d.Holds(c, assoc) && low <= t <= high
    ensures PotentiallyUpdated(d, low, high, store, assoc).Holds(WbAccess(c, t, store, assoc), assoc)
    ensures PotentiallyUpdated(d, low, high, store, assoc).Holds(c, assoc)
  {
    AdvancePotentialSound(d, c, low, high, t, assoc);
    PotentialLoad(d, c, low, high, t, assoc);
    var d' := Incorporate(d, AdvancePotential(d, low, high, assoc), false, assoc);
    if high - low + 1 > MAX_WORTHWHILE_TAGS {
      ForgetCleanSound(d', c, t, assoc);
    } else {
      var e := TrackRange(d', low, high, store);
      TrackRangeCoarser(d', low, high, store);
      CoarserHolds(d', e, c, assoc);
      CoarserAccess(d', e, c, t, store, assoc);
    }
  }

  lemma PotentialUpdateValid(d: State, low: Tag, high: Tag, store: bool, assoc: nat)
    requires d.Valid(assoc)
    ensures PotentiallyUpdated(d, low, high, store, assoc).Valid(assoc)
  {
    var d1 := AdvancePotential(d, low, high, assoc);
    MustAgeAllValid(d.must, assoc);
    MayPotentialValid(d.may, low, high, assoc);
    IncorporateValid(d, d1, false, assoc);
    TrackRangeCoarser(Incorporate(d, d1, false, assoc), low, high, store);
  }

  lemma PotentialWriteback(d: State, c: WbSet, low: Tag, high: Tag, t: Tag, assoc: nat)
    requires assoc >= 1 && d.Valid(assoc) && d.Holds(c, assoc) && low <= t <= high
    ensures WritesBack(c, t, assoc) ==> ExistsDirtyVictim(AdvancePotential(d, low, high, assoc))
  {
    AdvancePotentialSound(d, c, low, high, t, assoc);
    if u :| u in c.dirty && u !in Access(c.blocks, t, assoc) {
      assert u in d.table ==> d.table[u] != Clean;
    }
  }

  lemma PotentialReportSound(d: State, c: WbSet, low: Tag, high: Tag, t: Tag, store: bool, assoc: nat)
    requires assoc >= 1 && d.Valid(assoc) && d.Holds(c, assoc) && low <= t <= high
    ensures !PotentialReport(d, low, high, store, assoc).wbPossible ==> !WritesBack(c, t, assoc)
    ensures store && !PotentialReport(d, low, high, store, assoc).dirtifyingStore ==> t in c.dirty
  {
    PotentialWriteback(d, c, low, high, t, assoc);
    AdvancePotentialSound(d, c, low, high, t, assoc);
    var d1 := AdvancePotential(d, low, high, assoc);
    IncorporateSound(d, d1, false, c, assoc);
    var d' := Incorporate(d, d1, false, assoc);
    assert t in TagRange(low, high);
    if d'.Get(t) == Dirty {
      assert t in d'.table && d'.table[t] == Dirty;
    }
  }

  // ---------- Joins ----------

  lemma JoinTable(x: State, y: State)
    ensures forall u :: u in JoinStates(x, y).table ==> JoinStates(x, y).table[u] == x.Get(u).Join(y.Get(u))
    ensures forall u :: u in JoinStates(x, y).table <==> u in x.table || u in y.table
  {}

  /** What the join says of a tag is implied by what either side says. */
  lemma JoinSound(x: State, y: State, c: WbSet, assoc: nat)
    requires x.Valid(assoc) && y.Valid(assoc)
    requires x.Holds(c, assoc) || y.Holds(c, assoc)
    ensures JoinStates(x, y).Holds(c, assoc)
  {
    MayJoinExact(x.may, y.may, assoc);
    JoinTable(x, y);
    JoinHolds(if x.Holds(c, assoc) then x else y, JoinStates(x, y), c, assoc);
  }

  lemma JoinHolds(d: State, z: State, c: WbSet, assoc: nat)
    requires d.Holds(c, assoc) && MustLeq(d.must, z.must)
    requires z.may.implicitAge <= d.may.implicitAge && forall u :: z.may.MinAge(u) <= d.may.MinAge(u)
    requires d.implicitDirty ==> z.implicitDirty
    requires forall u :: u in d.table ==> u in z.table
    requires forall u :: u in z.table ==> z.table[u] == d.Get(u) || z.table[u] == Unclear
    ensures z.Holds(c, assoc)
  {
    forall u | u in c.dirty && u in z.table ensures z.table[u] != Clean {
      assert d.Get(u) != Clean;
    }
    forall u | u in z.table && z.table[u] == Dirty ensures u in c.dirty {
      assert d.Get(u) == Dirty;
    }
  }

  lemma JoinValid(x: State, y: State, assoc: nat)
    requires x.Valid(assoc) && y.Valid(assoc)
    ensures JoinStates(x, y).Valid(assoc)
  {
    MustJoinValid(x.must, y.must, assoc);
    MayJoinExact(x.may, y.may, assoc);
    JoinTable(x, y);
    forall u | u in JoinStates(x, y).table && JoinStates(x, y).table[u] == Dirty ensures u in x.must && u in y.must {
      assert x.Get(u) == Dirty && y.Get(u) == Dirty;
    }
  }

  // ---------- Self-consistency ----------

  lemma IncorporateConsistent(before: State, d: State, just: bool, assoc: nat)
    requires just ==> d.may.implicitAge >= assoc
    requires !just && d.implicitDirty ==> d.may.implicitAge < assoc
    requires forall u :: u in d.table && d.table[u] != Clean ==>
      d.may.MinAge(u) < assoc || u in MayEvictions(before.may, d.may, assoc) || (just && d.may.MinAge(u) == assoc)
    ensures Incorporate(before, d, just, assoc).Consistent(assoc)
  {}

  lemma UpdateConsistent(d: State, t: Tag, store: bool, hit: bool, assoc: nat)
    requires assoc >= 1 && d.Valid(assoc) && d.Consistent(assoc)
    ensures Updated(d, t, store, hit, assoc).Consistent(assoc)
    ensures var d' := Advance(d, t, store, hit, assoc);
      !MarkedUnreachable(d, d', EvictsUnknowns(d.may, d'.may, assoc), assoc)
  {
    var d' := Advance(d, t, store, hit, assoc);
    MayUpdateValid(d.may, t, assoc);
    MayEvicted(d.may, t, assoc);
    IncorporateConsistent(d, d', EvictsUnknowns(d.may, d'.may, assoc), assoc);
  }

  lemma PotentialUpdateConsistent(d: State, low: Tag, high: Tag, store: bool, assoc: nat)
    requires assoc >= 1 && d.Valid(assoc) && d.Consistent(assoc) && low <= high
    ensures PotentiallyUpdated(d, low, high, store, assoc).Consistent(assoc)
    ensures !MarkedUnreachable(d, AdvancePotential(d, low, high, assoc), false, assoc)
  {
    var d1 := AdvancePotential(d, low, high, assoc);
    MayPotentialValid(d.may, low, high, assoc);
    IncorporateConsistent(d, d1, false, assoc);
    var d' := Incorporate(d, d1, false, assoc);
    if high - low + 1 <= MAX_WORTHWHILE_TAGS {
      var e := TrackRange(d', low, high, store);
      forall u | u in e.table && e.table[u] != Clean ensures e.may.MinAge(u) < assoc {
        if !(low <= u <= high) {
          assert e.table[u] == d'.Get(u) && u in d'.table;
        }
      }
    }
  }

  lemma JoinConsistent(x: State, y: State, assoc: nat)
    requires x.Valid(assoc) && y.Valid(assoc) && x.Consistent(assoc) && y.Consistent(assoc)
    ensures JoinStates(x, y).Consistent(assoc)
  {
    var z := JoinStates(x, y);
    MayJoinExact(x.may, y.may, assoc);
    JoinTable(x, y);
    forall u | u in z.table && z.table[u] != Clean ensures z.may.MinAge(u) < assoc {
      assert x.Get(u) != Clean || y.Get(u) != Clean;
    }
  }

  // ---------- Whole runs ----------

  datatype Op = Precise(tag: Tag, store: bool, hit: bool) | Imprecise(low: Tag, high: Tag, store: bool)

  /** How an analysis state came about: a start, one more access, or a join of two. */
  datatype History = Start(assumeEmpty: bool, assumeClean: bool) | Then(h: History, op: Op)
                   | Joined(x: History, y: History)

  function StepOf(d: State, op: Op, assoc: nat): State
    requires assoc >= 1
  {
    match op
    case Precise(t, store, hit) => Updated(d, t, store, hit, assoc)
    case Imprecise(low, high, store) => PotentiallyUpdated(d, low, high, store, assoc)
  }

  function ReportOf(d: State, op: Op, assoc: nat): WritebackReport
    requires assoc >= 1
  {
    match op
    case Precise(t, store, hit) => UpdateReport(d, t, store, hit, assoc)
    case Imprecise(low, high, store) => PotentialReport(d, low, high, store, assoc)
  }

  function Eval(h: History, assoc: nat): State
    requires assoc >= 1
  {
    match h
    case Start(assumeEmpty, assumeClean) => Initial(assumeEmpty, assumeClean, assoc)
    case Then(h, op) => StepOf(Eval(h, assoc), op, assoc)
    case Joined(x, y) => JoinStates(Eval(x, assoc), Eval(y, assoc))
  }

  /** Intervals are not empty, and a hit is only assumed where the must list has room. */
  ghost predicate Legal(h: History, assoc: nat)
    requires assoc >= 1
  {
    match h
    case Start(_, _) => true
    case Then(h, Precise(t, _, hit)) => Legal(h, assoc) && MustCanAssume(Eval(h, assoc).must, t, hit, assoc)
    case Then(h, Imprecise(low, high, _)) => Legal(h, assoc) && low <= high
    case Joined(x, y) => Legal(x, assoc) && Legal(y, assoc)
  }

  /** One concrete step: an access the operation allows; an imprecise one may also not happen. */
  ghost predicate CanStep(c: WbSet, op: Op, c': WbSet, assoc: nat)
    requires assoc >= 1
  {
    match op
    case Precise(t, store, hit) => (hit ==> t in c.blocks) && c' == WbAccess(c, t, store, assoc)
    case Imprecise(low, high, store) =>
      c' == c || exists t :: low <= t <= high && c' == WbAccess(c, t, store, assoc)
  }

  /** The concrete sets that some execution described by the history ends in. */
  ghost predicate Reaches(h: History, c: WbSet, assoc: nat)
    requires assoc >= 1
  {
    match h
    case Start(assumeEmpty, assumeClean) =>
      IsWbSet(c, assoc) && (assumeEmpty ==> c.blocks == []) && (assumeClean ==> c.dirty == {})
    case Then(h, op) => exists c0 :: Reaches(h, c0, assoc) && CanStep(c0, op, c, assoc)
    case Joined(x, y) => Reaches(x, c, assoc) || Reaches(y, c, assoc)
  }

  lemma {:induction false} EvalValid(h: History, assoc: nat)
    requires assoc >= 1 && Legal(h, assoc)
    ensures Eval(h, assoc).Valid(assoc)
  {
    match h
    case Start(assumeEmpty, assumeClean) =>
      assert forall k: nat :: AtMost(map[], k) == {};
    case Then(h', op) =>
      EvalValid(h', assoc);
      match op {
        case Precise(t, store, hit) => UpdateValid(Eval(h', assoc), t, store, hit, assoc);
        case Imprecise(low, high, store) => PotentialUpdateValid(Eval(h', assoc), low, high, store, assoc);
      }
    case Joined(x, y) =>
      EvalValid(x, assoc);
      EvalValid(y, assoc);
      JoinValid(Eval(x, assoc), Eval(y, assoc), assoc);
  }

  /** Soundness: every set an execution ends in is represented by the analysis state. */
  lemma {:induction false} RunSound(h: History, c: WbSet, assoc: nat)
    requires assoc >= 1 && Legal(h, assoc) && Reaches(h, c, assoc)
    ensures Eval(h, assoc).Holds(c, assoc)
  {
    match h
    case Start(assumeEmpty, assumeClean) =>
    case Then(h', op) =>
      var c0 :| Reaches(h', c0, assoc) && CanStep(c0, op, c, assoc);
      RunSound(h', c0, assoc);
      EvalValid(h', assoc);
      match op {
        case Precise(t, store, hit) => UpdateSound(Eval(h', assoc), c0, t, store, hit, assoc);
        case Imprecise(low, high, store) =>
          if c == c0 {
            PotentialUpdateSound(Eval(h', assoc), c0, low, high, low, store, assoc);
          } else {
            var t :| low <= t <= high && c == WbAccess(c0, t, store, assoc);
            PotentialUpdateSound(Eval(h', assoc), c0, low, high, t, store, assoc);
          }
      }
    case Joined(x, y) =>
      EvalValid(x, assoc);
      EvalValid(y, assoc);
      if Reaches(x, c, assoc) {
        RunSound(x, c, assoc);
      } else {
        RunSound(y, c, assoc);
      }
      JoinSound(Eval(x, assoc), Eval(y, assoc), c, assoc);
  }

  /**
   The reports of every run are right: if none says so, no access of `t` writes back a
   dirty block, and no store of `t` makes a clean block dirty.
   */
  lemma ReportsSound(h: History, c: WbSet, op: Op, t: Tag, assoc: nat)
    requires assoc >= 1 && Legal(Then(h, op), assoc) && Reaches(h, c, assoc)
    requires match op
      case Precise(tag, _, hit) => t == tag && (hit ==> t in c.blocks)
      case Imprecise(low, high, _) => low <= t <= high
    ensures !ReportOf(Eval(h, assoc), op, assoc).wbPossible ==> !WritesBack(c, t, assoc)
    ensures op.store && !ReportOf(Eval(h, assoc), op, assoc).dirtifyingStore ==> t in c.dirty
  {
    RunSound(h, c, assoc);
    EvalValid(h, assoc);
    match op {
      case Precise(tag, store, hit) => UpdateReportSound(Eval(h, assoc), c, t, store, hit, assoc);
      case Imprecise(low, high, store) => PotentialReportSound(Eval(h, assoc), c, low, high, t, store, assoc);
    }
  }

  // ---------- Precision ----------

  /** `u` may be dirty, and the must bounds of `d` allow it not to be in the set. */
  ghost predicate MayBeGone(d: State, s: seq<Tag>, u: Tag, assoc: nat) {
    d.Get(u) != Clean && MustExact.Represented(d.must, s, assoc) && u !in s
  }

  lemma VictimOf(d: State) returns (u: Tag)
    requires ExistsDirtyVictim(d)
    ensures d.Get(u) != Clean && u !in d.must
  {
    u := NewTag(d.table.Keys + d.must.Keys);
    if !d.implicitDirty {
      u :| u in d.table && d.table[u] != Clean && u !in d.must;
    }
  }

  /** A victim is found exactly if some block that may be dirty is in not all of the sets represented. */
  lemma DirtyVictimExactly(d: State, assoc: nat)
    requires assoc >= 1 && MustValid(d.must, assoc)
    ensures ExistsDirtyVictim(d) <==> exists u, s :: MayBeGone(d, s, u, assoc)
  {
    if ExistsDirtyVictim(d) {
      var u := VictimOf(d);
      var s := MustExact.Realize(d.must, [], {u}, assoc);
      assert MayBeGone(d, s, u, assoc);
    }
    if u, s :| MayBeGone(d, s, u, assoc) {
      AgesDiffer(s, u, u + 1, assoc);
    }
  }

  /** `u` may be dirty, and the access to `t` evicts it or finds it gone in a set that `d` allows. */
  ghost predicate MayLose(d: State, s: seq<Tag>, t: Tag, u: Tag, assoc: nat)
    requires assoc >= 1
  {
    d.Get(u) != Clean && MustExact.Represented(d.must, s, assoc) && u !in Access(s, t, assoc)
  }

  /** Not listed after the update means not cached after the access in some represented set. */
  lemma LostExactly(d: State, t: Tag, hit: bool, u: Tag, assoc: nat)
    requires assoc >= 1 && d.Valid(assoc) && MustCanAssume(d.must, t, hit, assoc)
    ensures u !in MustUpdate(d.must, t, hit, assoc) <==>
      exists s :: MustExact.Represented(d.must, s, assoc) && (hit ==> t in s) && u !in Access(s, t, assoc)
  {
    var m' := MustUpdate(d.must, t, hit, assoc);
    var w := MustExact.MustUpdateAttained(d.must, t, hit, u, assoc);
    AccessStaysLru(w, t, assoc);
    AgesDiffer(Access(w, t, assoc), u, u + 1, assoc);
    if s :| MustExact.Represented(d.must, s, assoc) && (hit ==> t in s) && u !in Access(s, t, assoc) {
      MustUpdateSound(d.must, s, t, hit, assoc);
    }
  }

  lemma LostByAnyExactly(d: State, u: Tag, assoc: nat)
    requires assoc >= 1 && d.Valid(assoc)
    ensures u !in MustAgeAll(d.must, assoc) <==>
      exists s, t :: MustExact.Represented(d.must, s, assoc) && u !in Access(s, t, assoc)
  {
    var t := NewTag(d.must.Keys + {u});
    var w := MustExact.Oldest(d.must, t, u, assoc);
    AccessAges(w, t, assoc);
    AgesDiffer(Access(w, t, assoc), u, u + 1, assoc);
    if s, x :| MustExact.Represented(d.must, s, assoc) && u !in Access(s, x, assoc) {
      MustAgeAllSound(d.must, s, x, assoc);
    }
  }

  /** Whether a block is certainly dirty is exactly whether it is dirty in every set represented, if there is one. */
  lemma CertainlyDirtyExactly(d: State, c0: WbSet, t: Tag, assoc: nat)
    requires assoc >= 1 && d.Valid(assoc) && d.Holds(c0, assoc)
    ensures d.Get(t) == Dirty <==> forall c :: d.Holds(c, assoc) ==> t in c.dirty
  {
    if d.Get(t) != Dirty {
      var c := WbSet(c0.blocks, c0.dirty - {t});
      assert d.Holds(c, assoc);
    }
  }

  /**
   A write-back is reported exactly if some block that may be dirty need not be in the set after the
   access, and a dirtifying store exactly if a store need not find its block dirty.
   */
  lemma UpdateReportExactly(d: State, c0: WbSet, t: Tag, store: bool, hit: bool, assoc: nat)
    requires assoc >= 1 && d.Valid(assoc) && d.Holds(c0, assoc) && MustCanAssume(d.must, t, hit, assoc)
    ensures UpdateReport(d, t, store, hit, assoc).wbPossible <==>
      exists s, u :: MayLose(d, s, t, u, assoc) && (hit ==> t in s)
    ensures UpdateReport(d, t, store, hit, assoc).dirtifyingStore <==>
      store && exists c :: d.Holds(c, assoc) && t !in c.dirty
  {
    CertainlyDirtyExactly(d, c0, t, assoc);
    UpdateVictimExactly(d, t, store, hit, assoc);
  }

  lemma UpdateVictimExactly(d: State, t: Tag, store: bool, hit: bool, assoc: nat)
    requires assoc >= 1 && d.Valid(assoc) && MustCanAssume(d.must, t, hit, assoc)
    ensures ExistsDirtyVictim(Advance(d, t, store, hit, assoc)) <==>
      exists s, u :: MayLose(d, s, t, u, assoc) && (hit ==> t in s)
  {
    var d' := Advance(d, t, store, hit, assoc);
    AdvanceKeeps(d, t, store, hit, assoc);
    if ExistsDirtyVictim(d') {
      var u := VictimOf(d');
      LostExactly(d, t, hit, u, assoc);
      var s :| MustExact.Represented(d.must, s, assoc) && (hit ==> t in s) && u !in Access(s, t, assoc);
      assert MayLose(d, s, t, u, assoc);
    }
    if s, u :| MayLose(d, s, t, u, assoc) && (hit ==> t in s) {
      LostExactly(d, t, hit, u, assoc);
      assert d'.Get(u) != Clean && u !in d'.must;
    }
  }

  lemma AdvanceKeeps(d: State, t: Tag, store: bool, hit: bool, assoc: nat)
    requires assoc >= 1
    ensures var d' := Advance(d, t, store, hit, assoc);
      && d'.must == MustUpdate(d.must, t, hit, assoc)
      && forall u :: u !in d'.must ==> d'.Get(u) == d.Get(u)
  {
    AdvanceTable(d, t, store, hit, assoc);
  }

  /** The same, for what the caller assumes of the access. */
  ghost predicate ReportIsExact(d: State, t: Tag, store: bool, assumption: Classification, level: int,
                                report: WritebackReport, assoc: nat)
    requires assoc >= 1
  {
    && (report.wbPossible <==> exists s, u :: MayLose(d, s, t, u, assoc) && AssumptionHolds(assumption, level, t in s))
    && forall c0 :: d.Holds(c0, assoc) ==>
         (report.dirtifyingStore <==> store && exists c :: d.Holds(c, assoc) && t !in c.dirty)
  }

  /** `d'` is right after every access of which the assumption is true. */
  ghost predicate StepCovered(d: State, d': State, t: Tag, store: bool, assumption: Classification, level: int,
                                assoc: nat)
    requires assoc >= 1
  {
    forall c :: d.Holds(c, assoc) && AssumptionHolds(assumption, level, t in c.blocks) ==>
      d'.Holds(WbAccess(c, t, store, assoc), assoc)
  }

  lemma UpdateMeets(d: State, t: Tag, store: bool, assumption: Classification, level: int, assoc: nat)
    requires assoc >= 1 && d.Valid(assoc) && MustCanAssume(d.must, t, AssumesHit(assumption, level), assoc)
    ensures StepCovered(d, Updated(d, t, store, AssumesHit(assumption, level), assoc),
                        t, store, assumption, level, assoc)
    ensures ReportIsExact(d, t, store, assumption, level,
                          UpdateReport(d, t, store, AssumesHit(assumption, level), assoc), assoc)
  {
    var hit := AssumesHit(assumption, level);
    forall c | d.Holds(c, assoc) && AssumptionHolds(assumption, level, t in c.blocks)
      ensures Updated(d, t, store, hit, assoc).Holds(WbAccess(c, t, store, assoc), assoc)
    {
      UpdateSound(d, c, t, store, hit, assoc);
    }
    UpdateVictimExactly(d, t, store, hit, assoc);
    forall c0 | d.Holds(c0, assoc)
      ensures UpdateReport(d, t, store, hit, assoc).dirtifyingStore <==>
        store && exists c :: d.Holds(c, assoc) && t !in c.dirty
    {
      UpdateReportExactly(d, c0, t, store, hit, assoc);
    }
  }

  /** An access somewhere in an interval may evict like any access, and a store anywhere in it may be dirtifying. */
  lemma PotentialReportExactly(d: State, c0: WbSet, low: Tag, high: Tag, store: bool, assoc: nat)
    requires assoc >= 1 && d.Valid(assoc) && d.Holds(c0, assoc) && low <= high
    ensures PotentialReport(d, low, high, store, assoc).wbPossible <==> exists s, t, u :: MayLose(d, s, t, u, assoc)
    ensures PotentialReport(d, low, high, store, assoc).dirtifyingStore <==>
      store && (high - low >= 4 || exists u :: low <= u <= high && !StaysDirty(d, u, assoc))
  {
    PotentialVictimExactly(d, low, high, assoc);
    PotentialKeepsDirty(d, low, high, assoc);
    forall u ensures StaysDirty(d, u, assoc) <==> d.Get(u) == Dirty && u in MustAgeAll(d.must, assoc) {
      CertainlyDirtyExactly(d, c0, u, assoc);
      LostByAnyExactly(d, u, assoc);
    }
  }

  /** `u` is dirty in every set represented, and no single access can evict it. */
  ghost predicate StaysDirty(d: State, u: Tag, assoc: nat)
    requires assoc >= 1
  {
    && (forall c :: d.Holds(c, assoc) ==> u in c.dirty)
    && forall s, t :: MustExact.Represented(d.must, s, assoc) ==> u in Access(s, t, assoc)
  }

  lemma PotentialKeepsDirty(d: State, low: Tag, high: Tag, assoc: nat)
    requires assoc >= 1 && d.Valid(assoc)
    ensures forall u :: Incorporate(d, AdvancePotential(d, low, high, assoc), false, assoc).Get(u) == Dirty <==>
      d.Get(u) == Dirty && u in MustAgeAll(d.must, assoc)
  {
    NoPotentialEviction(d.may, low, high, assoc);
  }

  lemma PotentialVictimExactly(d: State, low: Tag, high: Tag, assoc: nat)
    requires assoc >= 1 && d.Valid(assoc)
    ensures ExistsDirtyVictim(AdvancePotential(d, low, high, assoc)) <==> exists s, t, u :: MayLose(d, s, t, u, assoc)
  {
    if ExistsDirtyVictim(AdvancePotential(d, low, high, assoc)) {
      var u := VictimOf(AdvancePotential(d, low, high, assoc));
      LostByAnyExactly(d, u, assoc);
      var s, t :| MustExact.Represented(d.must, s, assoc) && u !in Access(s, t, assoc);
      assert MayLose(d, s, t, u, assoc);
    }
    if s, t, u :| MayLose(d, s, t, u, assoc) {
      LostByAnyExactly(d, u, assoc);
    }
  }

  /**
   After an update a block is certainly dirty, or possibly dirty, exactly if it was or was stored to,
   and stays or may stay. Where a block is not tracked, the age of the unlisted tags decides.
   */
  lemma UpdatedExactly(d: State, t: Tag, store: bool, hit: bool, u: Tag, assoc: nat)
    requires assoc >= 1 && d.Valid(assoc) && d.Consistent(assoc)
    ensures var d' := Updated(d, t, store, hit, assoc);
      && d'.must == MustUpdate(d.must, t, hit, assoc) && d'.may == MayUpdate(d.may, t, assoc)
      && (d'.Get(u) == Dirty <==>
            (d.Get(u) == Dirty || (store && u == t)) && u in d'.must && d'.may.MinAge(u) < assoc)
      && (d'.Get(u) != Clean <==>
            && (d.Get(u) != Clean || (store && u == t))
            && (if u in d.table || u == t then d'.may.MinAge(u) else d'.may.implicitAge) < assoc)
      && (d'.implicitDirty <==> d.implicitDirty && d'.may.implicitAge < assoc)
      && (d'.implicitDirty ==> (u in d'.table <==> u in d.table || u == t))
  {
    var d' := Advance(d, t, store, hit, assoc);
    AdvanceTable(d, t, store, hit, assoc);
    MayUpdateValid(d.may, t, assoc);
    MayEvicted(d.may, t, assoc);
    MayExact.UpdatedMinAge(d.may, t, u, assoc);
    UpdateConsistent(d, t, store, hit, assoc);
    IncorporatedExactly(d, d', EvictsUnknowns(d.may, d'.may, assoc), u, assoc);
  }

  lemma IncorporatedExactly(before: State, d: State, just: bool, u: Tag, assoc: nat)
    requires d.may.Valid(assoc) && (d.implicitDirty ==> (just <==> d.may.implicitAge == assoc))
    requires just ==> d.may.implicitAge == assoc
    requires u in d.table && d.table[u] != Clean && d.may.MinAge(u) >= assoc ==>
      just || u in MayEvictions(before.may, d.may, assoc)
    requires d.Get(u) == Dirty ==> u in before.must || u in d.must
    requires !MarkedUnreachable(before, d, just, assoc)
    ensures var d' := Incorporate(before, d, just, assoc);
      && (d'.Get(u) == Dirty <==> d.Get(u) == Dirty && u in d.must && d.may.MinAge(u) < assoc)
      && (d'.Get(u) != Clean <==>
            d.Get(u) != Clean && (if u in d.table then d.may.MinAge(u) else d.may.implicitAge) < assoc)
      && (d'.implicitDirty <==> d.implicitDirty && d.may.implicitAge < assoc)
      && (d'.implicitDirty ==> (u in d'.table <==> u in d.table))
  {
    if !just && d.implicitDirty {
      assert MayEvictions(before.may, d.may, assoc) == {};
    }
  }

  /** After an access somewhere in an interval: likewise, and a store may have dirtied any tag of it. */
  lemma PotentiallyUpdatedExactly(d: State, low: Tag, high: Tag, store: bool, u: Tag, assoc: nat)
    requires assoc >= 1 && d.Valid(assoc) && d.Consistent(assoc) && low <= high
    ensures var d' := PotentiallyUpdated(d, low, high, store, assoc);
      && d'.must == MustAgeAll(d.must, assoc) && d'.may == MayPotential(d.may, low, high)
      && (d'.Get(u) == Dirty <==> d.Get(u) == Dirty && u in d'.must)
      && (d'.Get(u) != Clean <==> d.Get(u) != Clean || (store && (low <= u <= high || high - low >= 4)))
      && (d'.implicitDirty <==> d.implicitDirty || (store && high - low >= 4))
  {
    var d1 := AdvancePotential(d, low, high, assoc);
    NoPotentialEviction(d.may, low, high, assoc);
    PotentialUpdateConsistent(d, low, high, store, assoc);
    MayExact.PotentialMinAge(d.may, low, high, u, assoc);
    IncorporatedExactly(d, d1, false, u, assoc);
  }

  /** Joined blocks are certainly dirty exactly if they are on both sides, and possibly if they are on either. */
  lemma JoinedExactly(x: State, y: State, u: Tag)
    ensures JoinStates(x, y).Get(u) == Dirty <==> x.Get(u) == Dirty && y.Get(u) == Dirty
    ensures JoinStates(x, y).Get(u) != Clean <==> x.Get(u) != Clean || y.Get(u) != Clean
    ensures JoinStates(x, y).implicitDirty <==> x.implicitDirty || y.implicitDirty
  {
    JoinTable(x, y);
  }

  /** The state of a start stands for exactly the write-back sets that are possible there. */
  lemma StartExactly(assumeEmpty: bool, assumeClean: bool, c: WbSet, assoc: nat)
    requires assoc >= 1
    ensures Initial(assumeEmpty, assumeClean, assoc).Holds(c, assoc) <==>
      Reaches(Start(assumeEmpty, assumeClean), c, assoc)
  {
    var d := Initial(assumeEmpty, assumeClean, assoc);
    if d.Holds(c, assoc) {
      if c.blocks != [] {
        AgeAt(c.blocks, 0, assoc);
        assert d.may.MinAge(c.blocks[0]) <= Age(c.blocks, c.blocks[0], assoc);
      }
      forall u: Tag | u in c.dirty ensures !assumeClean {}
      assert assumeClean ==> c.dirty == {};
    } else if Reaches(Start(assumeEmpty, assumeClean), c, assoc) {
      RunSound(Start(assumeEmpty, assumeClean), c, assoc);
    }
  }

  lemma {:induction false} EvalDense(h: History, assoc: nat)
    requires assoc >= 1 && Legal(h, assoc)
    ensures MayExact.Dense(Eval(h, assoc).may, assoc)
  {
    match h
    case Start(assumeEmpty, _) => MayExact.StartDense(assumeEmpty, assoc);
    case Then(h', op) =>
      EvalValid(h', assoc);
      EvalDense(h', assoc);
      match op {
        case Precise(t, store, hit) =>
          UpdateMay(Eval(h', assoc), t, store, hit, assoc);
          MayExact.UpdateDense(Eval(h', assoc).may, t, assoc);
        case Imprecise(low, high, store) => MayExact.PotentialDense(Eval(h', assoc).may, low, high, assoc);
      }
    case Joined(x, y) =>
      EvalValid(x, assoc);
      EvalValid(y, assoc);
      EvalDense(x, assoc);
      EvalDense(y, assoc);
      MayExact.JoinDense(Eval(x, assoc).may, Eval(y, assoc).may, assoc);
  }

  // ---------- The branch marked unreachable ----------

  ghost predicate AllStart(h: History, assumeEmpty: bool, assumeClean: bool) {
    match h
    case Start(e, c) => e == assumeEmpty && c == assumeClean
    case Then(h, _) => AllStart(h, assumeEmpty, assumeClean)
    case Joined(x, y) => AllStart(x, assumeEmpty, assumeClean) && AllStart(y, assumeEmpty, assumeClean)
  }

  predicate TakesMarkedBranch(d: State, op: Op, assoc: nat)
    requires assoc >= 1
  {
    match op
    case Precise(t, store, hit) =>
      var d' := Advance(d, t, store, hit, assoc);
      MarkedUnreachable(d, d', EvictsUnknowns(d.may, d'.may, assoc), assoc)
    case Imprecise(low, high, store) => MarkedUnreachable(d, AdvancePotential(d, low, high, assoc), false, assoc)
  }

  /** Unless the cache is assumed empty and yet possibly dirty, the analysis stays consistent. */
  lemma {:induction false} RunConsistent(h: History, assumeEmpty: bool, assumeClean: bool, assoc: nat)
    requires assoc >= 1 && Legal(h, assoc) && AllStart(h, assumeEmpty, assumeClean)
    requires assumeEmpty ==> assumeClean
    ensures Eval(h, assoc).Consistent(assoc)
  {
    match h
    case Start(_, _) =>
    case Then(h', op) =>
      RunConsistent(h', assumeEmpty, assumeClean, assoc);
      EvalValid(h', assoc);
      match op {
        case Precise(t, store, hit) => UpdateConsistent(Eval(h', assoc), t, store, hit, assoc);
        case Imprecise(low, high, store) => PotentialUpdateConsistent(Eval(h', assoc), low, high, store, assoc);
      }
    case Joined(x, y) =>
      RunConsistent(x, assumeEmpty, assumeClean, assoc);
      RunConsistent(y, assumeEmpty, assumeClean, assoc);
      EvalValid(x, assoc);
      EvalValid(y, assoc);
      JoinConsistent(Eval(x, assoc), Eval(y, assoc), assoc);
  }

  /** Loads of the tags 0 to n - 1, starting from an empty cache that is assumed possibly dirty. */
  function Walk(n: nat): History {
    if n == 0 then Start(true, false) else Then(Walk(n - 1), Precise(n - 1, false, false))
  }

  /** The tags 0 to n - 1 are listed, the last one youngest, and nothing else can be cached. */
  ghost predicate Filled(m: May, n: nat, assoc: nat) {
    m.implicitAge == assoc && forall u :: (u in m.tags <==> 0 <= u < n) && (u in m.tags ==> m.tags[u] == n - 1 - u)
  }

  lemma FilledStep(m: May, n: nat, assoc: nat)
    requires n < assoc && Filled(m, n, assoc)
    ensures Filled(MayUpdate(m, n, assoc), n + 1, assoc)
  {}

  lemma UpdateMay(d: State, t: Tag, store: bool, hit: bool, assoc: nat)
    requires assoc >= 1
    ensures Updated(d, t, store, hit, assoc).may == MayUpdate(d.may, t, assoc)
    ensures Updated(d, t, store, hit, assoc).implicitDirty ==
      (d.implicitDirty && !EvictsUnknowns(d.may, MayUpdate(d.may, t, assoc), assoc))
  {}

  ghost predicate FilledAfter(h: History, n: nat, assoc: nat)
    requires assoc >= 1
  {
    Eval(h, assoc).implicitDirty && Filled(Eval(h, assoc).may, n, assoc)
  }

  lemma FillStep(h: History, h': History, n: nat, assoc: nat)
    requires assoc >= 1 && n < assoc && h' == Then(h, Precise(n, false, false))
    requires FilledAfter(h, n, assoc)
    ensures FilledAfter(h', n + 1, assoc)
  {
    var d := Eval(h, assoc);
    UpdateMay(d, n, false, false, assoc);
    FilledStep(d.may, n, assoc);
  }

  lemma FillStart(h: History, assoc: nat)
    requires assoc >= 1 && h == Start(true, false)
    ensures FilledAfter(h, 0, assoc)
  {}

  lemma {:induction false} WalkFills(h: History, n: nat, assoc: nat)
    requires assoc >= 1 && n <= assoc && h == Walk(n)
    ensures FilledAfter(h, n, assoc)
    decreases n
  {
    if n == 0 {
      FillStart(h, assoc);
    } else {
      WalkFills(h.h, n - 1, assoc);
      FillStep(h.h, h, n - 1, assoc);
    }
  }

  lemma {:induction false} WalkLegal(n: nat, assoc: nat)
    requires assoc >= 1
    ensures Legal(Walk(n), assoc) && AllStart(Walk(n), true, false)
  {
    if n > 0 {
      WalkLegal(n - 1, assoc);
    }
  }

  /** One more tag than fits evicts tag 0 while an unlisted block may still be dirty. */
  lemma OverflowTakesBranch(d: State, assoc: nat)
    requires assoc >= 1 && d.implicitDirty && Filled(d.may, assoc, assoc)
    ensures TakesMarkedBranch(d, Precise(assoc, false, false), assoc)
  {
    MayEvicted(d.may, assoc, assoc);
    assert 0 in MayEvictions(d.may, MayUpdate(d.may, assoc, assoc), assoc);
  }

  lemma BranchNotTaken(h: History, op: Op, assumeEmpty: bool, assumeClean: bool, assoc: nat)
    requires assoc >= 1 && Legal(Then(h, op), assoc) && AllStart(h, assumeEmpty, assumeClean)
    requires assumeEmpty ==> assumeClean
    ensures !TakesMarkedBranch(Eval(h, assoc), op, assoc)
  {
    RunConsistent(h, assumeEmpty, assumeClean, assoc);
    EvalValid(h, assoc);
    match op {
      case Precise(t, store, hit) => UpdateConsistent(Eval(h, assoc), t, store, hit, assoc);
      case Imprecise(low, high, store) => PotentialUpdateConsistent(Eval(h, assoc), low, high, store, assoc);
    }
  }

  ghost predicate BranchIn(h: History, op: Op, assumeEmpty: bool, assumeClean: bool, assoc: nat)
    requires assoc >= 1
  {
    && Legal(Then(h, op), assoc) && AllStart(h, assumeEmpty, assumeClean)
    && TakesMarkedBranch(Eval(h, assoc), op, assoc)
  }

  /** The branch is taken in some run exactly if the start is empty but not clean. */
  lemma MarkedBranchReachable(assumeEmpty: bool, assumeClean: bool, assoc: nat)
    requires assoc >= 1
    ensures (exists h, op :: BranchIn(h, op, assumeEmpty, assumeClean, assoc)) <==> assumeEmpty && !assumeClean
  {
    if assumeEmpty && !assumeClean {
      WalkFills(Walk(assoc), assoc, assoc);
      WalkLegal(assoc, assoc);
      OverflowTakesBranch(Eval(Walk(assoc), assoc), assoc);
      assert BranchIn(Walk(assoc), Precise(assoc, false, false), true, false, assoc);
    } else {
      forall h, op | Legal(Then(h, op), assoc) && AllStart(h, assumeEmpty, assumeClean)
        ensures !BranchIn(h, op, assumeEmpty, assumeClean, assoc)
      {
        BranchNotTaken(h, op, assumeEmpty, assumeClean, assoc);
      }
    }
  }

  lemma NoPotentialEviction(m: May, low: Tag, high: Tag, assoc: nat)
    requires assoc >= 1 && m.Valid(assoc)
    ensures forall u :: u in m.tags ==> MayPotential(m, low, high).MinAge(u) < assoc
  {}

  // ---------- The analysis object ----------

  lemma UpdateReady(d: State, d': State, t: Tag, store: bool, hit: bool, assoc: nat, just: bool)
    requires assoc >= 1 && d.Valid(assoc) && MustCanAssume(d.must, t, hit, assoc)
    requires d' == Advance(d, t, store, hit, assoc) && just == EvictsUnknowns(d.may, d'.may, assoc)
    ensures Incorporate(d, d', just, assoc) == Updated(d, t, store, hit, assoc)
    ensures MarkedUnreachable(d, d', just, assoc) == TakesMarkedBranch(d, Precise(t, store, hit), assoc)
    ensures Updated(d, t, store, hit, assoc).Valid(assoc)
    ensures d.Consistent(assoc) ==>
      Updated(d, t, store, hit, assoc).Consistent(assoc) && !TakesMarkedBranch(d, Precise(t, store, hit), assoc)
  {
    UpdateValid(d, t, store, hit, assoc);
    if d.Consistent(assoc) {
      UpdateConsistent(d, t, store, hit, assoc);
    }
  }

  lemma PotentialUpdateReady(d: State, low: Tag, high: Tag, store: bool, assoc: nat)
    requires assoc >= 1 && d.Valid(assoc) && low <= high
    ensures PotentiallyUpdated(d, low, high, store, assoc).Valid(assoc)
    ensures d.Consistent(assoc) ==>
      && PotentiallyUpdated(d, low, high, store, assoc).Consistent(assoc)
      && !TakesMarkedBranch(d, Imprecise(low, high, store), assoc)
  {
    PotentialUpdateValid(d, low, high, store, assoc);
    if d.Consistent(assoc) {
      PotentialUpdateConsistent(d, low, high, store, assoc);
    }
  }

  lemma JoinReady(x: State, y: State, assoc: nat)
    requires x.Valid(assoc) && y.Valid(assoc)
    ensures JoinStates(x, y).Valid(assoc)
    ensures x.Consistent(assoc) && y.Consistent(assoc) ==> JoinStates(x, y).Consistent(assoc)
  {
    JoinValid(x, y, assoc);
    if x.Consistent(assoc) && y.Consistent(assoc) {
      JoinConsistent(x, y, assoc);
    }
  }

  /** One more evicted tag has been visited. */
  lemma CleanOneMore(d: State, evicted: set<Tag>, todo: set<Tag>, u: Tag)
    requires todo <= evicted && u in todo
    ensures CleanEvicted(d, evicted - (todo - {u})).table ==
      if d.implicitDirty then CleanEvicted(d, evicted - todo).table[u := Clean]
      else CleanEvicted(d, evicted - todo).table - {u}
    ensures todo - {u} != evicted
  {
    SameTagSet(evicted - (todo - {u}), evicted - todo + {u});
    var next := CleanEvicted(d, evicted - (todo - {u})).table;
    if d.implicitDirty {
      SameMap(next, CleanEvicted(d, evicted - todo).table[u := Clean]);
    } else {
      SameMap(next, CleanEvicted(d, evicted - todo).table - {u});
    }
  }

  class DirtinessAnalysis {
    const assoc: nat
    const must: LruMaxAgeCache
    const may: LruMinAgeCache
    var implicitDirty: bool
    var dirtiness: map<Tag, Dcl>

    ghost function View(): State
      reads this, must, may
    {
      State(must.bounds, may.View(), implicitDirty, dirtiness)
    }

    ghost predicate Valid()
      reads this, must, must.tags, must.ages, may
    {
      && assoc >= 1 && must.assoc == assoc == may.assoc && must.Valid() && may.Valid()
      && View().Valid(assoc)
    }

    constructor (assoc: nat, level: int, assumeAnEmptyCache: bool, assumeCleanCache: bool)
      requires assoc >= 1
      ensures Valid() && this.assoc == assoc
      ensures View() == Initial(assumeAnEmptyCache, assumeCleanCache, assoc)
      ensures (assumeAnEmptyCache ==> assumeCleanCache) ==> View().Consistent(assoc)
      ensures fresh(must) && fresh(must.tags) && fresh(must.ages) && fresh(may)
    {
      this.assoc := assoc;
      must := new LruMaxAgeCache(assoc, level);
      may := new LruMinAgeCache(assoc, assumeAnEmptyCache);
      implicitDirty, dirtiness := !assumeCleanCache, map[];
    }

    method ExistsVictim() returns (dirty: bool)
      requires must.Valid() && must.assoc == assoc >= 1
      ensures dirty == ExistsDirtyVictim(View())
      ensures dirty <==> exists u, s :: MayBeGone(View(), s, u, assoc)
    {
      DirtyVictimExactly(View(), assoc);
      if implicitDirty {
        return true;
      }
      var todo := dirtiness.Keys;
      while todo != {}
        invariant todo <= dirtiness.Keys
        invariant forall u :: u in dirtiness && u !in todo ==> dirtiness[u] == Clean || u in must.bounds
        decreases todo
      {
        var u := AnyOf(todo);
        todo := todo - {u};
        if dirtiness[u] != Clean {
          var age := must.GetMaxAge(u);
          if age == assoc {
            assert u in dirtiness && dirtiness[u] != Clean && u !in must.bounds by { BoundsBelow(u); }
            return true;
          }
        }
      }
      return false;
    }

    lemma BoundsBelow(u: Tag)
      requires must.Valid()
      ensures u in must.bounds ==> must.bounds[u] < must.assoc
    {}

    method EraseForgotten()
      requires may.Valid() && may.assoc == assoc
      modifies this`implicitDirty, this`dirtiness
      ensures View() == ForgetUnknowns(old(View()), assoc)
    {
      ghost var table := dirtiness;
      ghost var kept := ForgetUnknowns(View(), assoc).table;
      implicitDirty := false;
      var todo := dirtiness.Keys;
      while todo != {}
        invariant todo <= table.Keys && !implicitDirty
        invariant forall u :: u in dirtiness <==> u in todo || u in kept
        invariant forall u :: u in dirtiness ==> u in table && dirtiness[u] == table[u]
        decreases todo
      {
        var u := AnyOf(todo);
        todo := todo - {u};
        if dirtiness[u] == Clean {
          dirtiness := dirtiness - {u};
        } else {
          var age := may.GetMinAge(u);
          if age == assoc {
            dirtiness := dirtiness - {u};
          }
        }
      }
      SameMap(dirtiness, kept);
    }

    method WeakenEvicted(evicted: set<Tag>)
      modifies this`dirtiness
      ensures dirtiness == Weaken(old(dirtiness), evicted)
    {
      ghost var table := dirtiness;
      var todo := evicted;
      while todo != {}
        invariant todo <= evicted && dirtiness.Keys == table.Keys
        invariant forall u :: u in table ==>
          dirtiness[u] == (if u in evicted && u !in todo && table[u] == Dirty then Unclear else table[u])
        decreases todo
      {
        var u := AnyOf(todo);
        todo := todo - {u};
        if u in dirtiness && dirtiness[u] == Dirty {
          dirtiness := dirtiness[u := Unclear];
        }
      }
      SameMap(dirtiness, Weaken(table, evicted));
    }

    /** Evicted blocks are clean. The branch marked unreachable is taken where an unlisted block may be dirty. */
    method EraseEvicted(evicted: set<Tag>) returns (marked: bool)
      modifies this`dirtiness
      ensures View() == CleanEvicted(old(View()), evicted) && marked == (implicitDirty && evicted != {})
    {
      ghost var d := View();
      var todo := evicted;
      marked := false;
      while todo != {}
        invariant todo <= evicted && marked == (implicitDirty && todo != evicted)
        invariant View() == CleanEvicted(d, evicted - todo)
        decreases todo
      {
        var u := AnyOf(todo);
        CleanOneMore(d, evicted, todo, u);
        todo := todo - {u};
        if implicitDirty {
          marked := true;
          dirtiness := dirtiness[u := Clean];
        } else {
          dirtiness := dirtiness - {u};
        }
      }
      assert evicted - {} == evicted;
    }

    /** What both updates do once must and may have moved on. */
    method IncorporateMustMayUpdates(mustEvicted: set<Tag>, mayReport: MayReport, ghost before: State)
      returns (marked: bool)
      requires must.Valid() && may.Valid() && must.assoc == assoc == may.assoc
      requires forall u :: u in mustEvicted <==> u in before.must && u !in must.bounds
      requires forall u :: u in mayReport.evicted <==> u in before.may.tags && may.View().MinAge(u) == assoc
      modifies this`implicitDirty, this`dirtiness
      ensures View() == old(Incorporate(before, View(), mayReport.justEvictedUnknowns, assoc))
      ensures marked == old(MarkedUnreachable(before, View(), mayReport.justEvictedUnknowns, assoc))
    {
      SameTagSet(mustEvicted, before.must.Keys - must.bounds.Keys);
      SameTagSet(mayReport.evicted, MayEvictions(before.may, may.View(), assoc));
      if mayReport.justEvictedUnknowns {
        EraseForgotten();
      }
      WeakenEvicted(mustEvicted);
      marked := EraseEvicted(mayReport.evicted);
    }

    /** Looks for a victim first. */
    method Settle(mustEvicted: set<Tag>, mayReport: MayReport, ghost before: State)
      returns (canWriteback: bool, marked: bool)
      requires must.Valid() && may.Valid() && must.assoc == assoc == may.assoc && assoc >= 1
      requires forall u :: u in mustEvicted <==> u in before.must && u !in must.bounds
      requires forall u :: u in mayReport.evicted <==> u in before.may.tags && may.View().MinAge(u) == assoc
      modifies this`implicitDirty, this`dirtiness
      ensures canWriteback == old(ExistsDirtyVictim(View()))
      ensures View() == old(Incorporate(before, View(), mayReport.justEvictedUnknowns, assoc))
      ensures marked == old(MarkedUnreachable(before, View(), mayReport.justEvictedUnknowns, assoc))
    {
      canWriteback := ExistsVictim();
      marked := IncorporateMustMayUpdates(mustEvicted, mayReport, before);
    }

    /** Tracks the accessed tag and moves the must and may states on. */
    method AdvanceBoth(tag: Tag, store: bool, assumption: Classification)
      returns (dirtifyingStore: bool, mustEvicted: set<Tag>, mayReport: MayReport)
      requires Valid() && MustCanAssume(must.bounds, tag, AssumesHit(assumption, must.level), assoc)
      modifies this, must, must.tags, must.ages, may
      ensures must.Valid() && may.Valid()
      ensures View() == old(Advance(View(), tag, store, AssumesHit(assumption, must.level), assoc))
      ensures dirtifyingStore == (store && old(View().Get(tag)) != Dirty)
      ensures forall u :: u in mustEvicted <==> u in old(must.bounds) && u !in must.bounds
      ensures forall u :: u in mayReport.evicted <==> u in old(may.tags) && may.View().MinAge(u) == assoc
      ensures mayReport.justEvictedUnknowns <==> EvictsUnknowns(old(may.View()), may.View(), assoc)
    {
      if tag !in dirtiness {
        dirtiness := dirtiness[tag := if implicitDirty then Unclear else Clean];
      }
      dirtifyingStore := false;
      if store {
        dirtifyingStore := dirtiness[tag] != Dirty;
        dirtiness := dirtiness[tag := Dirty];
      }
      mustEvicted := must.Update(tag, assumption);
      mayReport := may.Update(tag);
    }

    /**
     The report is the best one possible for what is assumed, and `marked` tells whether the branch marked
     unreachable was taken: never in a consistent state.
     */
    method Update(tag: Tag, store: bool, assumption: Classification) returns (report: WritebackReport, marked: bool)
      requires Valid() && MustCanAssume(must.bounds, tag, AssumesHit(assumption, must.level), assoc)
      modifies this, must, must.tags, must.ages, may
      ensures Valid() && View() == old(Updated(View(), tag, store, AssumesHit(assumption, must.level), assoc))
      ensures report == old(UpdateReport(View(), tag, store, AssumesHit(assumption, must.level), assoc))
      ensures StepCovered(old(View()), View(), tag, store, assumption, must.level, assoc)
      ensures ReportIsExact(old(View()), tag, store, assumption, must.level, report, assoc)
      ensures marked == old(TakesMarkedBranch(View(), Precise(tag, store, AssumesHit(assumption, must.level)), assoc))
      ensures old(View().Consistent(assoc)) ==> View().Consistent(assoc) && !marked
    {
      ghost var d := View();
      report, marked := Perform(tag, store, assumption);
      UpdateMeets(d, tag, store, assumption, must.level, assoc);
    }

    method Perform(tag: Tag, store: bool, assumption: Classification) returns (report: WritebackReport, marked: bool)
      requires Valid() && MustCanAssume(must.bounds, tag, AssumesHit(assumption, must.level), assoc)
      modifies this, must, must.tags, must.ages, may
      ensures Valid() && View() == old(Updated(View(), tag, store, AssumesHit(assumption, must.level), assoc))
      ensures report == old(UpdateReport(View(), tag, store, AssumesHit(assumption, must.level), assoc))
      ensures marked == old(TakesMarkedBranch(View(), Precise(tag, store, AssumesHit(assumption, must.level)), assoc))
      ensures old(View().Consistent(assoc)) ==> View().Consistent(assoc) && !marked
    {
      ghost var d, hit := View(), AssumesHit(assumption, must.level);
      var dirtifyingStore, mustEvicted, mayReport := AdvanceBoth(tag, store, assumption);
      UpdateReady(d, View(), tag, store, hit, assoc, mayReport.justEvictedUnknowns);
      var canWriteback;
      canWriteback, marked := Settle(mustEvicted, mayReport, d);
      report := WritebackReport(canWriteback, dirtifyingStore);
    }

    method AdvanceBothPotential(low: Tag, high: Tag) returns (mustEvicted: set<Tag>, mayReport: MayReport)
      requires Valid() && low <= high
      modifies this, must, must.tags, must.ages, may
      ensures must.Valid() && may.Valid()
      ensures View() == old(AdvancePotential(View(), low, high, assoc))
      ensures forall u :: u in mustEvicted <==> u in old(must.bounds) && u !in must.bounds
      ensures forall u :: u in mayReport.evicted <==> u in old(may.tags) && may.View().MinAge(u) == assoc
      ensures !mayReport.justEvictedUnknowns
    {
      ghost var m := may.View();
      mustEvicted := must.PotentialUpdate();
      mayReport := may.PotentialUpdate(low, high);
      NoPotentialEviction(m, low, high, assoc);
    }

    /** The clean entries become implicit. */
    method DeleteClean()
      modifies this`implicitDirty, this`dirtiness
      ensures View() == ForgetClean(old(View()))
    {
      ghost var table := dirtiness;
      ghost var kept := ForgetClean(View()).table;
      implicitDirty := true;
      var todo := dirtiness.Keys;
      while todo != {}
        invariant todo <= table.Keys && implicitDirty
        invariant forall u :: u in dirtiness <==> u in todo || u in kept
        invariant forall u :: u in dirtiness ==> u in table && dirtiness[u] == table[u]
        decreases todo
      {
        var u := AnyOf(todo);
        todo := todo - {u};
        if dirtiness[u] == Clean {
          dirtiness := dirtiness - {u};
        }
      }
      SameMap(dirtiness, kept);
    }

    /** Tracks one tag; a store may have dirtied it. */
    method Track(t: Tag, store: bool) returns (dirtified: bool)
      modifies this`dirtiness
      ensures View() == old(TrackTag(View(), t, store)) && dirtified == (store && old(View()).Get(t) != Dirty)
    {
      dirtified := false;
      if t !in dirtiness {
        dirtiness := dirtiness[t := if implicitDirty then Unclear else Clean];
      }
      if store {
        dirtified := dirtiness[t] != Dirty;
        dirtiness := dirtiness[t := dirtiness[t].Join(Dirty)];
      }
    }

    /** Tracks every tag of the interval. */
    method JoinRange(low: Tag, high: Tag, store: bool) returns (dirtifyingStore: bool)
      requires low <= high
      modifies this`dirtiness
      ensures View() == TrackRange(old(View()), low, high, store)
      ensures dirtifyingStore <==> store && exists u :: u in TagRange(low, high) && old(View()).Get(u) != Dirty
    {
      ghost var d := View();
      dirtifyingStore := false;
      var t := low;
      TrackNothing(d, low, store);
      while t <= high
        invariant low <= t <= high + 1 && View() == TrackRange(d, low, t - 1, store)
        invariant dirtifyingStore <==> store && exists u :: low <= u < t && d.Get(u) != Dirty
      {
        TrackNext(d, low, t, store);
        var dirtified := Track(t, store);
        dirtifyingStore := dirtifyingStore || dirtified;
        t := t + 1;
      }
    }

    method PotentialUpdate(low: Tag, high: Tag, store: bool) returns (report: WritebackReport, marked: bool)
      requires Valid() && low <= high
      modifies this, must, must.tags, must.ages, may
      ensures Valid() && View() == old(PotentiallyUpdated(View(), low, high, store, assoc))
      ensures report == old(PotentialReport(View(), low, high, store, assoc))
      ensures report.wbPossible <==> exists s, t, u :: MayLose(old(View()), s, t, u, assoc)
      ensures marked == old(TakesMarkedBranch(View(), Imprecise(low, high, store), assoc))
      ensures old(View().Consistent(assoc)) ==> View().Consistent(assoc) && !marked
    {
      ghost var d := View();
      PotentialUpdateReady(d, low, high, store, assoc);
      PotentialVictimExactly(d, low, high, assoc);
      var mustEvicted, mayReport := AdvanceBothPotential(low, high);
      var canWriteback;
      canWriteback, marked := Settle(mustEvicted, mayReport, d);
      var dirtifyingStore := false;
      var numTags := high - low + 1;
      if numTags > MAX_WORTHWHILE_TAGS {
        if store {
          dirtifyingStore := true;
          DeleteClean();
        }
      } else {
        dirtifyingStore := JoinRange(low, high, store);
      }
      report := WritebackReport(canWriteback, dirtifyingStore);
    }

    method JoinTables(y: DirtinessAnalysis)
      modifies this`dirtiness
      ensures dirtiness == old(JoinStates(View(), y.View()).table)
    {
      ghost var dx, dy := View(), y.View();
      var newmap: map<Tag, Dcl> := map[];
      var todo := dirtiness.Keys + y.dirtiness.Keys;
      while todo != {}
        invariant todo <= dx.table.Keys + dy.table.Keys && View() == dx && y.View() == dy
        invariant forall u :: u in newmap <==> u in dx.table.Keys + dy.table.Keys && u !in todo
        invariant forall u :: u in newmap ==> newmap[u] == dx.Get(u).Join(dy.Get(u))
        decreases todo
      {
        var tag := AnyOf(todo);
        todo := todo - {tag};
        var xelem := if tag in dirtiness then dirtiness[tag] else if implicitDirty then Unclear else Clean;
        var yelem := if tag in y.dirtiness then y.dirtiness[tag] else if y.implicitDirty then Unclear else Clean;
        newmap := newmap[tag := xelem.Join(yelem)];
      }
      SameMap(newmap, JoinStates(dx, dy).table);
      dirtiness := newmap;
    }

    method Join(y: DirtinessAnalysis)
      requires Valid() && y.Valid() && assoc == y.assoc
      modifies this, must, must.tags, must.ages, may
      ensures Valid() && View() == old(JoinStates(View(), y.View()))
      ensures old(View().Consistent(assoc) && y.View().Consistent(assoc)) ==> View().Consistent(assoc)
    {
      JoinReady(View(), y.View(), assoc);
      JoinTables(y);
      implicitDirty := implicitDirty || y.implicitDirty;
      must.Join(y.must);
      may.Join(y.may);
    }
  }
}
