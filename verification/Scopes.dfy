/**
 Persistence in nested scopes: every open scope runs its own analysis, restarted when the
 scope is entered from outside, with a counter for entering it again while it is open.
 */
module Scopes {
  import opened LruSet
  import opened Persistence
  import opened Options

  type Scope = nat

  datatype Event = Accesses(a: Access) | Enters(sc: Scope) | Leaves(sc: Scope)

  datatype Walk = Begin | Next(r: Walk, e: Event) | Merge(x: Walk, y: Walk)

  datatype State<!P> = State(infos: map<Scope, P>, counts: map<Scope, nat>)

  // ---------- The operations ----------

  function Entered<P>(p: Analysis<P>, s: State<P>, sc: Scope): State<P>
    requires sc in s.infos ==> sc in s.counts
  {
    if sc !in s.infos then State(s.infos[sc := p.init], s.counts[sc := 1])
    else State(s.infos, s.counts[sc := s.counts[sc] + 1])
  }

  function Left<P>(s: State<P>, sc: Scope): State<P>
    requires sc in s.infos && sc in s.counts
  {
    if s.counts[sc] > 1 then State(s.infos, s.counts[sc := s.counts[sc] - 1])
    else State(s.infos - {sc}, s.counts - {sc})
  }

  function OneAccess<P>(p: Analysis<P>, v: P, a: Access): P {
    match a case Known(t) => p.update(v, t) case Anywhere => p.potential(v)
  }

  function Accessed<P>(p: Analysis<P>, s: State<P>, a: Access): State<P> {
    State(map sc | sc in s.infos :: OneAccess(p, s.infos[sc], a), s.counts)
  }

  /** The assertions of the join: the same scopes, entered equally often. */
  predicate SameScopes<P>(x: State<P>, y: State<P>) {
    x.infos.Keys == y.infos.Keys && x.counts == y.counts
  }

  function Merged<P>(p: Analysis<P>, x: State<P>, y: State<P>): State<P>
    requires SameScopes(x, y)
  {
    State(map sc | sc in x.infos :: p.join(x.infos[sc], y.infos[sc]), x.counts)
  }

  // ---------- What a run means for one scope ----------

  /** How often the scope has been entered and not left. */
  function Depth(r: Walk, sc: Scope): int {
    match r
    case Begin => 0
    case Next(r', Enters(e)) => Depth(r', sc) + (if e == sc then 1 else 0)
    case Next(r', Leaves(e)) => Depth(r', sc) - (if e == sc then 1 else 0)
    case Next(r', Accesses(_)) => Depth(r', sc)
    case Merge(x, _) => Depth(x, sc)
  }

  /** Only open scopes are left, and joined runs have the same scopes open equally often. */
  ghost predicate Balanced(r: Walk) {
    match r
    case Begin => true
    case Next(r', e) => Balanced(r') && (e.Leaves? ==> Depth(r', e.sc) > 0)
    case Merge(x, y) => Balanced(x) && Balanced(y) && forall sc :: Depth(x, sc) == Depth(y, sc)
  }

  /** The accesses since the scope was last entered from outside. */
  function SinceEntered(r: Walk, sc: Scope): History {
    match r
    case Begin => Start
    case Next(r', Accesses(a)) => Then(SinceEntered(r', sc), a)
    case Next(r', Enters(e)) => if e == sc && Depth(r', sc) <= 0 then Start else SinceEntered(r', sc)
    case Next(r', Leaves(_)) => SinceEntered(r', sc)
    case Merge(x, y) => Joined(SinceEntered(x, sc), SinceEntered(y, sc))
  }

  /** The state after a run, in terms of the scope's own accesses. */
  ghost predicate TracksScope<P>(p: Analysis<P>, s: State<P>, r: Walk, sc: Scope) {
    && (sc in s.infos <==> Depth(r, sc) > 0)
    && (sc in s.counts <==> Depth(r, sc) > 0)
    && (sc in s.infos && sc in s.counts ==> s.counts[sc] == Depth(r, sc) && s.infos[sc] == Eval(p, SinceEntered(r, sc)))
  }

  ghost predicate Tracks<P>(p: Analysis<P>, s: State<P>, r: Walk) {
    forall sc :: TracksScope(p, s, r, sc)
  }

  lemma {:induction false} DepthNotNegative(r: Walk, sc: Scope)
    requires Balanced(r)
    ensures Depth(r, sc) >= 0
  {
    match r
    case Begin =>
    case Next(r', e) => DepthNotNegative(r', sc);
    case Merge(x, y) => DepthNotNegative(x, sc);
  }

  lemma EnteredTracks<P>(p: Analysis<P>, s: State<P>, r: Walk, e: Scope)
    requires Tracks(p, s, r) && Balanced(r)
    ensures e in s.infos ==> e in s.counts
    ensures Tracks(p, Entered(p, s, e), Next(r, Enters(e)))
  {
    assert TracksScope(p, s, r, e);
    forall sc ensures TracksScope(p, Entered(p, s, e), Next(r, Enters(e)), sc) {
      assert TracksScope(p, s, r, sc);
      DepthNotNegative(r, sc);
    }
  }

  lemma LeftTracks<P>(p: Analysis<P>, s: State<P>, r: Walk, e: Scope)
    requires Tracks(p, s, r) && Depth(r, e) > 0
    ensures e in s.infos && e in s.counts
    ensures Tracks(p, Left(s, e), Next(r, Leaves(e)))
  {
    assert TracksScope(p, s, r, e);
    forall sc ensures TracksScope(p, Left(s, e), Next(r, Leaves(e)), sc) {
      assert TracksScope(p, s, r, sc);
    }
  }

  lemma AccessedTracks<P>(p: Analysis<P>, s: State<P>, r: Walk, a: Access)
    requires Tracks(p, s, r)
    ensures Tracks(p, Accessed(p, s, a), Next(r, Accesses(a)))
  {
    forall sc ensures TracksScope(p, Accessed(p, s, a), Next(r, Accesses(a)), sc) {
      assert TracksScope(p, s, r, sc);
    }
  }

  /** The assertions of the join hold in every balanced run. */
  lemma MergedTracks<P>(p: Analysis<P>, s: State<P>, s': State<P>, x: Walk, y: Walk)
    requires Tracks(p, s, x) && Tracks(p, s', y) && forall sc :: Depth(x, sc) == Depth(y, sc)
    ensures SameScopes(s, s')
    ensures Tracks(p, Merged(p, s, s'), Merge(x, y))
  {
    forall sc: Scope ensures (sc in s.infos <==> sc in s'.infos) && (sc in s.counts <==> sc in s'.counts)
      && (sc in s.counts ==> s.counts[sc] == s'.counts[sc])
    {
      assert TracksScope(p, s, x, sc) && TracksScope(p, s', y, sc);
    }
    assert SameScopes(s, s');
    forall sc ensures TracksScope(p, Merged(p, s, s'), Merge(x, y), sc) {
      assert TracksScope(p, s, x, sc) && TracksScope(p, s', y, sc);
    }
  }

  /**
   The state of a run. Every open scope holds exactly what its analysis computes for the
   accesses since the scope was last entered from outside, however scopes are nested.
   */
  ghost function EvalRun<P>(p: Analysis<P>, r: Walk): (s: State<P>)
    requires Balanced(r)
    ensures Tracks(p, s, r)
  {
    match r
    case Begin =>
      State(map[], map[])
    case Next(r', Accesses(a)) =>
      AccessedTracks(p, EvalRun(p, r'), r', a);
      Accessed(p, EvalRun(p, r'), a)
    case Next(r', Enters(sc)) =>
      EnteredTracks(p, EvalRun(p, r'), r', sc);
      Entered(p, EvalRun(p, r'), sc)
    case Next(r', Leaves(sc)) =>
      LeftTracks(p, EvalRun(p, r'), r', sc);
      Left(EvalRun(p, r'), sc)
    case Merge(x, y) =>
      MergedTracks(p, EvalRun(p, x), EvalRun(p, y), x, y);
      Merged(p, EvalRun(p, x), EvalRun(p, y))
  }

  // ---------- Paths through a run ----------

  datatype Move = Touches(x: Touch) | Opens(sc: Scope) | Closes(sc: Scope)

  predicate MoveMatches(e: Event, m: Move) {
    match e
    case Accesses(a) => m.Touches? && Matches(a, m.x)
    case Enters(sc) => m == Opens(sc)
    case Leaves(sc) => m == Closes(sc)
  }

  ghost predicate PathOfRun(r: Walk, w: seq<Move>) {
    match r
    case Begin => w == []
    case Next(r', e) => |w| > 0 && MoveMatches(e, w[|w| - 1]) && PathOfRun(r', w[..|w| - 1])
    case Merge(x, y) => PathOfRun(x, w) || PathOfRun(y, w)
  }

  function PathDepth(w: seq<Move>, sc: Scope): int {
    if w == [] then 0
    else
      var change := if w[|w| - 1] == Opens(sc) then 1 else if w[|w| - 1] == Closes(sc) then -1 else 0;
      PathDepth(w[..|w| - 1], sc) + change
  }

  /** The accesses of the path since its outermost unmatched entry to the scope. */
  function SinceOpened(w: seq<Move>, sc: Scope): seq<Touch> {
    if w == [] then []
    else
      var before := w[..|w| - 1];
      match w[|w| - 1]
      case Touches(x) => SinceOpened(before, sc) + [x]
      case Opens(e) => if e == sc && PathDepth(before, sc) <= 0 then [] else SinceOpened(before, sc)
      case Closes(_) => SinceOpened(before, sc)
  }

  lemma {:induction false} SinceOpenedIsPath(r: Walk, w: seq<Move>, sc: Scope)
    requires Balanced(r) && PathOfRun(r, w)
    ensures PathDepth(w, sc) == Depth(r, sc)
    ensures PathOf(SinceEntered(r, sc), SinceOpened(w, sc))
  {
    match r
    case Begin =>
    case Next(r', e) =>
      var before := w[..|w| - 1];
      SinceOpenedIsPath(r', before, sc);
      if e.Accesses? {
        var x := w[|w| - 1].x;
        assert SinceOpened(w, sc)[..|SinceOpened(before, sc)|] == SinceOpened(before, sc);
      }
    case Merge(x, y) =>
      if PathOfRun(x, w) {
        SinceOpenedIsPath(x, w, sc);
      } else {
        SinceOpenedIsPath(y, w, sc);
      }
  }

  // ---------- The two analyses in nested scopes ----------

  /**
   Set-wise counting: while the info of an open scope is not top, each block has missed
   at most once since the scope was entered, on every path and whatever was cached then.
   */
  lemma NestedSetWise(r: Walk, w: seq<Move>, sc: Scope, s: seq<Tag>, t: Tag, assoc: nat)
    requires assoc >= 1 && IsLruSet(s, assoc) && Balanced(r) && PathOfRun(r, w)
    ensures sc in EvalRun(SetWise(assoc), r).infos <==> PathDepth(w, sc) > 0
    ensures sc in EvalRun(SetWise(assoc), r).infos && !EvalRun(SetWise(assoc), r).infos[sc].top ==>
      Misses(s, Blocks(SinceOpened(w, sc)), t, assoc) <= 1
  {
    assert TracksScope(SetWise(assoc), EvalRun(SetWise(assoc), r), r, sc);
    SinceOpenedIsPath(r, w, sc);
    if Depth(r, sc) > 0 && !EvalRun(SetWise(assoc), r).infos[sc].top {
      SetWisePersistent(SinceEntered(r, sc), SinceOpened(w, sc), s, t, assoc);
    }
  }

  /** Element-wise counting: a persistent block is accessed for the first time in the scope, or hits. */
  lemma NestedElementWise(r: Walk, w: seq<Move>, sc: Scope, s: seq<Tag>, t: Tag, assoc: nat)
    requires assoc >= 1 && IsLruSet(s, assoc) && Balanced(r) && PathOfRun(r, w)
    ensures sc in EvalRun(ElementWise(assoc), r).infos && IsPersistent(EvalRun(ElementWise(assoc), r).infos[sc], t) ==>
      !Seen(SinceOpened(w, sc), t) || t in Run(s, Blocks(SinceOpened(w, sc)), assoc)
  {
    assert TracksScope(ElementWise(assoc), EvalRun(ElementWise(assoc), r), r, sc);
    SinceOpenedIsPath(r, w, sc);
    if Depth(r, sc) > 0 && IsPersistent(EvalRun(ElementWise(assoc), r).infos[sc], t) {
      ElementWisePersistent(SinceEntered(r, sc), SinceOpened(w, sc), s, t, assoc);
    }
  }

  // ---------- The wrapper object ----------

  /** Every open scope, once per entry, is what a balanced run makes of it. */
  class MultiScopePersistence<P> {
    const analysis: Analysis<P>
    var scopes2info: map<Scope, P>
    var scopes2entercount: map<Scope, nat>

    ghost function View(): State<P>
      reads this
    {
      State(scopes2info, scopes2entercount)
    }

    ghost predicate Valid()
      reads this
    {
      scopes2info.Keys == scopes2entercount.Keys
    }

    constructor (analysis: Analysis<P>)
      ensures Valid() && this.analysis == analysis && View() == EvalRun(analysis, Begin)
    {
      this.analysis := analysis;
      scopes2info, scopes2entercount := map[], map[];
    }

    method EnterScope(sc: Scope)
      requires Valid()
      modifies this
      ensures Valid() && View() == Entered(analysis, old(View()), sc)
    {
      if sc !in scopes2info {
        scopes2info := scopes2info[sc := analysis.init];
        scopes2entercount := scopes2entercount[sc := 1];
      } else {
        scopes2entercount := scopes2entercount[sc := scopes2entercount[sc] + 1];
      }
    }

    method LeaveScope(sc: Scope)
      requires Valid() && sc in scopes2info
      modifies this
      ensures Valid() && View() == Left(old(View()), sc)
    {
      if scopes2entercount[sc] > 1 {
        scopes2entercount := scopes2entercount[sc := scopes2entercount[sc] - 1];
      } else {
        scopes2info := scopes2info - {sc};
        scopes2entercount := scopes2entercount - {sc};
      }
    }

    method Update(t: Tag)
      requires Valid()
      modifies this
      ensures Valid() && View() == Accessed(analysis, old(View()), Known(t))
    {
      AccessAll(Known(t));
    }

    method PotentialUpdate()
      requires Valid()
      modifies this
      ensures Valid() && View() == Accessed(analysis, old(View()), Anywhere)
    {
      AccessAll(Anywhere);
    }

    /** The loop of both updates. */
    method AccessAll(a: Access)
      requires Valid()
      modifies this`scopes2info
      ensures Valid() && View() == Accessed(analysis, old(View()), a)
    {
      var todo := scopes2info.Keys;
      while todo != {}
        invariant todo <= scopes2info.Keys == old(scopes2info).Keys
        invariant forall sc :: sc in scopes2info ==>
          scopes2info[sc] == if sc in todo then old(scopes2info)[sc] else OneAccess(analysis, old(scopes2info)[sc], a)
      {
        var sc := AnyOf(todo);
        todo := todo - {sc};
        scopes2info := scopes2info[sc := OneAccess(analysis, scopes2info[sc], a)];
      }
      assert scopes2info == Accessed(analysis, old(View()), a).infos;
    }

    method Join(y: MultiScopePersistence<P>)
      requires Valid() && y.Valid() && SameScopes(View(), y.View())
      modifies this
      ensures Valid() && View() == Merged(analysis, old(View()), old(y.View()))
    {
      ghost var xs, ys := scopes2info, y.scopes2info;
      var todo := scopes2info.Keys;
      while todo != {}
        invariant todo <= scopes2info.Keys == xs.Keys && scopes2entercount == old(scopes2entercount)
        invariant y.scopes2info.Keys == ys.Keys && forall sc :: sc in todo ==> y.scopes2info[sc] == ys[sc]
        invariant forall sc :: sc in scopes2info ==>
          scopes2info[sc] == if sc in todo then xs[sc] else analysis.join(xs[sc], ys[sc])
      {
        var sc := AnyOf(todo);
        todo := todo - {sc};
        scopes2info := scopes2info[sc := analysis.join(scopes2info[sc], y.scopes2info[sc])];
      }
      assert scopes2info == Merged(analysis, old(View()), old(y.View())).infos;
    }

    /** The open scopes in which the analysis calls a block persistent. */
    method GetPersistentScopes(persistent: P -> bool) returns (result: set<Scope>)
      requires Valid()
      ensures result == set sc | sc in scopes2info && persistent(scopes2info[sc])
    {
      result := {};
      var todo := scopes2info.Keys;
      while todo != {}
        invariant todo <= scopes2info.Keys
        invariant result == set sc | sc in scopes2info && sc !in todo && persistent(scopes2info[sc])
      {
        var sc := AnyOf(todo);
        todo := todo - {sc};
        if persistent(scopes2info[sc]) {
          result := result + {sc};
        }
      }
    }
  }
}
