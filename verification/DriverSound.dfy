/**
 What a post-fixpoint is good for: if the transfer functions are locally sound, the
 tables cover every state of every run of the program, across calls and returns.
 */
module DriverSoundness {
  import opened AnalysisDriver
  import opened Options
  import opened ContextTokens

  /** The concrete program: which states an abstract value covers and how states change. */
  datatype Semantics<!D, !S> = Semantics(
    covers: (S, D) -> bool,
    exec: (Instr, S, S) -> bool,
    callInto: (Instr, S, S) -> bool,
    returnTo: (Instr, S, S, S) -> bool,
    jumps: (Instr, Block, S) -> bool,
    passes: (Instr, S) -> bool,
    leaves: (Instr, S) -> bool)

  /** Each transfer function covers what the program does at one instruction. */
  ghost predicate LocallySound<D(!new), S(!new)>(a: Analysis<D>, m: Semantics<D, S>) {
    && (forall s, x, y :: m.covers(s, x) && a.leq(x, y) ==> m.covers(s, y))
    && (forall s :: !m.covers(s, a.bottom))
    && (forall i: Instr, c, v, s, s' :: i.op.Plain? && m.covers(s, v) && m.exec(i, s, s') ==>
          m.covers(s', a.transfer(i, c, v)))
    && (forall i: Instr, c, v, s, s' :: i.op.External? && m.covers(s, v) && m.exec(i, s, s') ==>
          m.covers(s', a.external(i, c, v)))
    && (forall i, c, v, o, s, s' :: m.covers(s, v) && m.callInto(i, s, s') ==> m.covers(s', a.toCallee(i, c, v, o)))
    && (forall i, c, v, o, s, e, s' ::
          m.covers(s, v) && m.covers(e, o) && m.returnTo(i, s, e, s') ==> m.covers(s', a.afterCall(i, c, v, o)))
    && (forall i: Instr, c, b, v, s :: !i.exit.Goto? && m.covers(s, v) && m.jumps(i, b, s) ==>
          m.covers(s, a.taken(i, c, b, v)))
    && (forall i, c, v, s :: m.covers(s, v) && m.passes(i, s) ==> m.covers(s, a.notTaken(i, c, v)))
    && (forall i, c, v, s :: m.covers(s, v) && m.leaves(i, s) ==> m.covers(s, a.returning(i, c, v)))
    && (forall b, v, s :: m.covers(s, v) ==> m.covers(s, a.enter(b, v)))
  }

  /** Between call and return of `f`, no token of another call lies on top of its own. */
  ghost predicate Inside(f: Func, c: Context, ctx: Context) {
    && |c| < |ctx| && ctx[..|c| + 1] == OnCall(f, c)
    && forall i :: |c| < i < |ctx| ==> !ctx[i].Callee?
  }

  /** Edges leave the tokens of calls alone, and returning takes the token of the call away. */
  ghost predicate ContextsNest<D>(pr: Program, a: Analysis<D>) {
    && (forall f, c, ctx, b, b' :: Inside(f, c, ctx) ==> Inside(f, c, a.edge(b, b', ctx)))
    && (forall f, c, ctx :: Inside(f, c, ctx) ==> a.onReturn(f, ctx) == c)
    && (forall b, k, t :: 0 <= k < |pr.instrs(b)| && GoesTo(pr.instrs(b)[k].exit, t) ==>
          pr.functionOf(t) == pr.functionOf(b))
    && (forall b :: pr.layoutSuccessor(b).Some? ==> pr.functionOf(pr.layoutSuccessor(b).value) == pr.functionOf(b))
  }

  // ---------- Runs ----------

  /** Where a branch may go. */
  predicate GoesTo(e: Exit, target: Block) {
    match e
    case Goto(b) => target == b
    case Conditional(b) => target == b
    case JumpTable(bs) => exists k :: 0 <= k < |bs| && bs[k] == target
    case _ => false
  }

  /** The analysis takes exactly these targets into account. */
  lemma TargetsExactly(pr: Program, e: Exit, target: Block)
    ensures target in pr.Targets(e) <==> GoesTo(e, target)
  {}

  /** One activation of a function, from its entry to some place in it; finished calls are runs themselves. */
  datatype Run<S> =
    | Enter(s: S)
    | Executed(before: Run<S>, s: S)
    | Called(before: Run<S>, callee: Run<S>, s: S)
    | Passed(before: Run<S>)
    | Jumped(before: Run<S>, target: Block)
    | FellThrough(before: Run<S>)

  /** Where a run has got to: before instruction `k`, or after it but before its exit. */
  datatype Place<S> = Place(b: Block, ctx: Context, k: nat, opDone: bool, s: S)

  function StartOf<S>(r: Run<S>): S {
    match r
    case Enter(s) => s
    case _ => StartOf(r.before)
  }

  function PlaceOf<D, S>(pr: Program, a: Analysis<D>, f: Func, c: Context, r: Run<S>): Place<S> {
    match r
    case Enter(s) => Place(pr.firstBlock(f), OnCall(f, c), 0, false, s)
    case Executed(r0, s) => PlaceOf(pr, a, f, c, r0).(opDone := true, s := s)
    case Called(r0, _, s) => PlaceOf(pr, a, f, c, r0).(opDone := true, s := s)
    case Passed(r0) =>
      var p := PlaceOf(pr, a, f, c, r0);
      p.(opDone := false, k := p.k + 1)
    case Jumped(r0, target) =>
      var p := PlaceOf(pr, a, f, c, r0);
      Place(target, a.edge(p.b, target, p.ctx), 0, false, p.s)
    case FellThrough(r0) =>
      var p := PlaceOf(pr, a, f, c, r0);
      if pr.layoutSuccessor(p.b).None? then p
      else Place(pr.layoutSuccessor(p.b).value, a.edge(p.b, pr.layoutSuccessor(p.b).value, p.ctx), 0, false, p.s)
  }

  predicate AtInstr<S>(pr: Program, p: Place<S>, opDone: bool) {
    p.k < |pr.instrs(p.b)| && p.opDone == opDone
  }

  /** The run stands at a return that leaves the function. */
  ghost predicate Leaving<D, S>(pr: Program, m: Semantics<D, S>, p: Place<S>) {
    AtInstr(pr, p, true) && pr.instrs(p.b)[p.k].exit.Return? && m.leaves(pr.instrs(p.b)[p.k], p.s)
  }

  ghost predicate Passes<D, S>(m: Semantics<D, S>, ins: Instr, s: S) {
    match ins.exit
    case NoExit => true
    case Conditional(_) => m.passes(ins, s)
    case Return(predicated) => predicated && m.passes(ins, s)
    case _ => false
  }

  /** Each step of the run is one the program can take. */
  ghost predicate IsRun<D, S>(pr: Program, a: Analysis<D>, m: Semantics<D, S>, f: Func, c: Context, r: Run<S>)
    decreases r, 0
  {
    r.Enter? ||
    (IsRun(pr, a, m, f, c, r.before) &&
     var p := PlaceOf(pr, a, f, c, r.before);
     match r
     case Enter(_) => true
     case Executed(_, s) =>
       AtInstr(pr, p, false) && !pr.instrs(p.b)[p.k].op.Call? && m.exec(pr.instrs(p.b)[p.k], p.s, s)
     case Called(_, callee, s) => AtInstr(pr, p, false) && IsCall(pr, a, m, p, callee, s)
     case Passed(_) => AtInstr(pr, p, true) && Passes(m, pr.instrs(p.b)[p.k], p.s)
     case Jumped(_, target) =>
       && AtInstr(pr, p, true) && GoesTo(pr.instrs(p.b)[p.k].exit, target)
       && m.jumps(pr.instrs(p.b)[p.k], target, p.s)
     case FellThrough(_) => p.k == |pr.instrs(p.b)| && pr.layoutSuccessor(p.b).Some?)
  }

  ghost predicate CanCall<D, S>(pr: Program, m: Semantics<D, S>, p: Place<S>, g: Func, s: S) {
    AtInstr(pr, p, false) && pr.instrs(p.b)[p.k].op == Call(g) && m.callInto(pr.instrs(p.b)[p.k], p.s, s)
  }

  /** A call at `p` that runs `callee` to a return and continues with state `s`. */
  ghost predicate IsCall<D, S>(pr: Program, a: Analysis<D>, m: Semantics<D, S>, p: Place<S>, callee: Run<S>, s: S)
    requires AtInstr(pr, p, false)
    decreases callee, 1
  {
    var ins := pr.instrs(p.b)[p.k];
    ins.op.Call? &&
    var g, c := ins.op.callee, a.calleeContext(ins, p.ctx);
    && CanCall(pr, m, p, g, StartOf(callee)) && IsRun(pr, a, m, g, c, callee)
    && Leaving(pr, m, PlaceOf(pr, a, g, c, callee)) && m.returnTo(ins, p.s, PlaceOf(pr, a, g, c, callee).s, s)
  }

  // ---------- What the tables say about a place ----------

  ghost predicate Covered<D, S>(pr: Program, a: Analysis<D>, m: Semantics<D, S>, t: Table<D>, f: Func, c: Context,
                                p: Place<S>)
  {
    && At(p.b, p.ctx) in t && Inside(f, c, p.ctx) && pr.functionOf(p.b) == f && p.k <= |pr.instrs(p.b)|
    && var v := ValueAt(pr, a, t, p.b, p.ctx, p.k);
       if p.opDone then p.k < |pr.instrs(p.b)| && m.covers(p.s, AfterOp(a, t, pr.instrs(p.b)[p.k], p.ctx, v))
       else m.covers(p.s, v)
  }

  ghost predicate EntryCovered<D, S>(a: Analysis<D>, m: Semantics<D, S>, t: Table<D>, f: Func, c: Context, s: S) {
    In(f, c) in t && m.covers(s, t[In(f, c)])
  }

  ghost predicate Sound<D(!new), S(!new)>(pr: Program, a: Analysis<D>, m: Semantics<D, S>, t: Table<D>, entry: Func) {
    Lawful(a) && pr.WellFormed() && ContextsNest(pr, a) && LocallySound(a, m) && PostFixpoint(pr, a, t, entry)
  }

  lemma CoveredStays<D(!new), S(!new)>(a: Analysis<D>, m: Semantics<D, S>, t: Table<D>, p: Point, d: D, s: S)
    requires LocallySound(a, m) && Included(a, t, p, d) && m.covers(s, d)
    ensures p in t && m.covers(s, t[p])
  {}

  lemma EnterCovered<D(!new), S(!new)>(pr: Program, a: Analysis<D>, m: Semantics<D, S>, t: Table<D>, entry: Func,
                                       f: Func, c: Context, s: S)
    requires Sound(pr, a, m, t, entry) && EntryCovered(a, m, t, f, c, s)
    ensures Covered(pr, a, m, t, f, c, Place(pr.firstBlock(f), OnCall(f, c), 0, false, s))
  {
    assert EntryClosed(pr, a, t, f, c);
  }

  lemma InstrFlows<D(!new), S(!new)>(pr: Program, a: Analysis<D>, m: Semantics<D, S>, t: Table<D>, entry: Func,
                                     p: Place<S>)
    returns (ins: Instr, v: D)
    requires Sound(pr, a, m, t, entry) && At(p.b, p.ctx) in t && p.k < |pr.instrs(p.b)|
    ensures ins == pr.instrs(p.b)[p.k] && v == ValueAt(pr, a, t, p.b, p.ctx, p.k)
    ensures CallIncluded(a, t, ins, p.ctx, v) && ExitIncluded(pr, a, t, p.b, ins, p.ctx, AfterOp(a, t, ins, p.ctx, v))
  {
    ins, v := pr.instrs(p.b)[p.k], ValueAt(pr, a, t, p.b, p.ctx, p.k);
    assert BlockClosed(pr, a, t, p.b, p.ctx);
    assert InstrIncluded(pr, a, t, p.b, p.ctx, p.k);
  }

  lemma NotBottom<D(!new), S(!new)>(a: Analysis<D>, m: Semantics<D, S>, s: S, v: D)
    requires LocallySound(a, m) && m.covers(s, v)
    ensures !IsBottom(a, v)
  {}

  /** A call from a covered place enters the callee in a covered state. */
  lemma CallCovered<D(!new), S(!new)>(pr: Program, a: Analysis<D>, m: Semantics<D, S>, t: Table<D>, entry: Func,
                                      f: Func, c: Context, p: Place<S>, g: Func, s: S)
    requires Sound(pr, a, m, t, entry) && Covered(pr, a, m, t, f, c, p) && CanCall(pr, m, p, g, s)
    ensures EntryCovered(a, m, t, g, a.calleeContext(pr.instrs(p.b)[p.k], p.ctx), s)
  {
    var ins, v := InstrFlows(pr, a, m, t, entry, p);
    var c' := a.calleeContext(ins, p.ctx);
    NotBottom(a, m, p.s, v);
    CoveredStays(a, m, t, In(g, c'), a.toCallee(ins, p.ctx, v, Look(a, t, Out(g, c'))), s);
  }

  /** A callee that leaves from a covered place brings its state to the function exit. */
  lemma LeaveCovered<D(!new), S(!new)>(pr: Program, a: Analysis<D>, m: Semantics<D, S>, t: Table<D>, entry: Func,
                                       f: Func, c: Context, p: Place<S>)
    requires Sound(pr, a, m, t, entry) && Covered(pr, a, m, t, f, c, p) && Leaving(pr, m, p)
    ensures m.covers(p.s, Look(a, t, Out(f, c)))
  {
    var ins, v := InstrFlows(pr, a, m, t, entry, p);
    CoveredStays(a, m, t, Out(f, c), a.returning(ins, p.ctx, AfterOp(a, t, ins, p.ctx, v)), p.s);
  }

  lemma ReturnCovered<D(!new), S(!new)>(pr: Program, a: Analysis<D>, m: Semantics<D, S>, t: Table<D>, entry: Func,
                                        f: Func, c: Context, p: Place<S>, g: Func, e: S, s: S)
    requires Sound(pr, a, m, t, entry) && Covered(pr, a, m, t, f, c, p) && AtInstr(pr, p, false)
    requires pr.instrs(p.b)[p.k].op == Call(g) && m.returnTo(pr.instrs(p.b)[p.k], p.s, e, s)
    requires m.covers(e, Look(a, t, Out(g, a.calleeContext(pr.instrs(p.b)[p.k], p.ctx))))
    ensures Covered(pr, a, m, t, f, c, p.(opDone := true, s := s))
  {
    var ins, v := InstrFlows(pr, a, m, t, entry, p);
    NotBottom(a, m, p.s, v);
    var o := Look(a, t, Out(g, a.calleeContext(ins, p.ctx)));
    assert m.covers(s, a.afterCall(ins, p.ctx, v, o));
    assert a.leq(a.afterCall(ins, p.ctx, v, o), a.join(a.bottom, a.afterCall(ins, p.ctx, v, o)));
  }

  lemma ExecCovered<D(!new), S(!new)>(pr: Program, a: Analysis<D>, m: Semantics<D, S>, t: Table<D>, entry: Func,
                                      f: Func, c: Context, p: Place<S>, s: S)
    requires Sound(pr, a, m, t, entry) && Covered(pr, a, m, t, f, c, p) && AtInstr(pr, p, false)
    requires !pr.instrs(p.b)[p.k].op.Call? && m.exec(pr.instrs(p.b)[p.k], p.s, s)
    ensures Covered(pr, a, m, t, f, c, p.(opDone := true, s := s))
  {
    NotBottom(a, m, p.s, ValueAt(pr, a, t, p.b, p.ctx, p.k));
  }

  lemma PassCovered<D(!new), S(!new)>(pr: Program, a: Analysis<D>, m: Semantics<D, S>, t: Table<D>, entry: Func,
                                      f: Func, c: Context, p: Place<S>)
    requires Sound(pr, a, m, t, entry) && Covered(pr, a, m, t, f, c, p) && AtInstr(pr, p, true)
    requires Passes(m, pr.instrs(p.b)[p.k], p.s)
    ensures Covered(pr, a, m, t, f, c, p.(opDone := false, k := p.k + 1))
  {}

  /** What is sent to a target covers the states that jump there. */
  lemma TargetCovered<D(!new), S(!new)>(a: Analysis<D>, m: Semantics<D, S>, ins: Instr, ctx: Context, target: Block,
                                        v: D, s: S)
    requires LocallySound(a, m) && m.covers(s, v) && m.jumps(ins, target, s)
    ensures m.covers(s, ToTarget(a, ins, ctx, target, v))
  {}

  lemma JumpCovered<D(!new), S(!new)>(pr: Program, a: Analysis<D>, m: Semantics<D, S>, t: Table<D>, entry: Func,
                                      f: Func, c: Context, p: Place<S>, target: Block)
    requires Sound(pr, a, m, t, entry) && Covered(pr, a, m, t, f, c, p) && AtInstr(pr, p, true)
    requires GoesTo(pr.instrs(p.b)[p.k].exit, target) && m.jumps(pr.instrs(p.b)[p.k], target, p.s)
    ensures Covered(pr, a, m, t, f, c, Place(target, a.edge(p.b, target, p.ctx), 0, false, p.s))
  {
    var ins, v := InstrFlows(pr, a, m, t, entry, p);
    var u := AfterOp(a, t, ins, p.ctx, v);
    TargetsExactly(pr, ins.exit, target);
    assert TargetIncluded(a, t, p.b, ins, p.ctx, target, u);
    TargetCovered(a, m, ins, p.ctx, target, u, p.s);
    CoveredStays(a, m, t, At(target, a.edge(p.b, target, p.ctx)), ToTarget(a, ins, p.ctx, target, u), p.s);
  }

  lemma FallCovered<D(!new), S(!new)>(pr: Program, a: Analysis<D>, m: Semantics<D, S>, t: Table<D>, entry: Func,
                                      f: Func, c: Context, p: Place<S>, target: Block)
    requires Sound(pr, a, m, t, entry) && Covered(pr, a, m, t, f, c, p) && p.k == |pr.instrs(p.b)|
    requires pr.layoutSuccessor(p.b) == Some(target)
    ensures Covered(pr, a, m, t, f, c, Place(target, a.edge(p.b, target, p.ctx), 0, false, p.s))
  {
    var v := ValueAt(pr, a, t, p.b, p.ctx, p.k);
    assert BlockClosed(pr, a, t, p.b, p.ctx);
    CoveredStays(a, m, t, At(target, a.edge(p.b, target, p.ctx)), a.enter(target, v), p.s);
  }

  // ---------- Whole runs ----------

  lemma {:induction false} RunCovered<D(!new), S(!new)>(pr: Program, a: Analysis<D>, m: Semantics<D, S>, t: Table<D>,
                                                        entry: Func, f: Func, c: Context, r: Run<S>)
    requires Sound(pr, a, m, t, entry) && IsRun(pr, a, m, f, c, r) && EntryCovered(a, m, t, f, c, StartOf(r))
    ensures Covered(pr, a, m, t, f, c, PlaceOf(pr, a, f, c, r))
    decreases r
  {
    if r.Enter? {
      EnterCovered(pr, a, m, t, entry, f, c, r.s);
      return;
    }
    RunCovered(pr, a, m, t, entry, f, c, r.before);
    var p := PlaceOf(pr, a, f, c, r.before);
    match r
    case Executed(_, s) => ExecCovered(pr, a, m, t, entry, f, c, p, s);
    case Called(_, callee, s) =>
      var ins := pr.instrs(p.b)[p.k];
      var g, c' := ins.op.callee, a.calleeContext(ins, p.ctx);
      CallCovered(pr, a, m, t, entry, f, c, p, g, StartOf(callee));
      RunCovered(pr, a, m, t, entry, g, c', callee);
      LeaveCovered(pr, a, m, t, entry, g, c', PlaceOf(pr, a, g, c', callee));
      ReturnCovered(pr, a, m, t, entry, f, c, p, g, PlaceOf(pr, a, g, c', callee).s, s);
    case Passed(_) => PassCovered(pr, a, m, t, entry, f, c, p);
    case Jumped(_, target) => JumpCovered(pr, a, m, t, entry, f, c, p, target);
    case FellThrough(_) => FallCovered(pr, a, m, t, entry, f, c, p, pr.layoutSuccessor(p.b).value);
  }

  /** The activations that are under way: the bottom one is that of the start function. */
  datatype Stack<S> = Bottom(r: Run<S>) | Calling(below: Stack<S>, g: Func, r: Run<S>)

  function TopFunction<S>(entry: Func, st: Stack<S>): Func {
    match st case Bottom(_) => entry case Calling(_, g, _) => g
  }

  function TopContext<D, S>(pr: Program, a: Analysis<D>, entry: Func, st: Stack<S>): Context
    decreases st, 0
  {
    match st
    case Bottom(_) => []
    case Calling(below, _, _) =>
      var p := TopPlace(pr, a, entry, below);
      if p.k < |pr.instrs(p.b)| then a.calleeContext(pr.instrs(p.b)[p.k], p.ctx) else []
  }

  function TopPlace<D, S>(pr: Program, a: Analysis<D>, entry: Func, st: Stack<S>): Place<S>
    decreases st, 1
  {
    PlaceOf(pr, a, TopFunction(entry, st), TopContext(pr, a, entry, st), st.r)
  }

  ghost predicate IsStack<D, S>(pr: Program, a: Analysis<D>, m: Semantics<D, S>, entry: Func, st: Stack<S>) {
    && IsRun(pr, a, m, TopFunction(entry, st), TopContext(pr, a, entry, st), st.r)
    && (st.Calling? ==>
          IsStack(pr, a, m, entry, st.below) && CanCall(pr, m, TopPlace(pr, a, entry, st.below), st.g, StartOf(st.r)))
  }

  function FirstState<S>(st: Stack<S>): S {
    match st case Bottom(r) => StartOf(r) case Calling(below, _, _) => FirstState(below)
  }

  /**
   Whatever the program does from a start state that the analysis starts with: wherever it
   gets to, in however many pending calls, the tables cover the state it is in there.
   */
  lemma {:induction false} ProgramCovered<D(!new), S(!new)>(pr: Program, a: Analysis<D>, m: Semantics<D, S>,
                                                            t: Table<D>, entry: Func, st: Stack<S>)
    requires Sound(pr, a, m, t, entry) && IsStack(pr, a, m, entry, st) && m.covers(FirstState(st), a.start)
    ensures Covered(pr, a, m, t, TopFunction(entry, st), TopContext(pr, a, entry, st), TopPlace(pr, a, entry, st))
  {
    var f, c := TopFunction(entry, st), TopContext(pr, a, entry, st);
    match st {
      case Bottom(r) =>
        CoveredStays(a, m, t, In(entry, []), a.start, StartOf(r));
      case Calling(below, g, r) =>
        ProgramCovered(pr, a, m, t, entry, below);
        CallCovered(pr, a, m, t, entry, TopFunction(entry, below), TopContext(pr, a, entry, below),
          TopPlace(pr, a, entry, below), g, StartOf(r));
    }
    RunCovered(pr, a, m, t, entry, f, c, st.r);
  }

  // ---------- Exact flows ----------

  /** Each parameter covers only what the program does at one instruction. */
  ghost predicate LocallyExact<D(!new), S(!new)>(a: Analysis<D>, m: Semantics<D, S>) {
    && (forall s, x, y :: m.covers(s, x) && a.leq(x, y) ==> m.covers(s, y))
    && (forall s :: !m.covers(s, a.bottom))
    && (forall s, x, y :: m.covers(s, a.join(x, y)) ==> m.covers(s, x) || m.covers(s, y))
    && (forall i: Instr, c, v, s' :: i.op.Plain? && m.covers(s', a.transfer(i, c, v)) ==> ExecutesFrom(m, i, v, s'))
    && (forall i: Instr, c, v, s' :: i.op.External? && m.covers(s', a.external(i, c, v)) ==> ExecutesFrom(m, i, v, s'))
    && (forall i, c, v, o, s' :: m.covers(s', a.afterCall(i, c, v, o)) ==> ReturnsFrom(m, i, v, o, s'))
    && (forall i: Instr, c, b, v, s :: m.covers(s, a.taken(i, c, b, v)) ==> m.covers(s, v) && m.jumps(i, b, s))
    && (forall i, c, v, s :: m.covers(s, a.notTaken(i, c, v)) ==> m.covers(s, v) && m.passes(i, s))
    && (forall b, v, s :: m.covers(s, a.enter(b, v)) ==> m.covers(s, v))
  }

  ghost predicate ExecutesFrom<D, S(!new)>(m: Semantics<D, S>, i: Instr, v: D, s': S) {
    exists s :: m.covers(s, v) && m.exec(i, s, s')
  }

  ghost predicate ReturnsFrom<D, S(!new)>(m: Semantics<D, S>, i: Instr, v: D, o: D, s': S) {
    exists s, e :: m.covers(s, v) && m.covers(e, o) && m.returnTo(i, s, e, s')
  }

  /** Then the value after an instruction covers exactly the states it can end in. */
  lemma AfterOpExactly<D(!new), S(!new)>(a: Analysis<D>, m: Semantics<D, S>, t: Table<D>, ins: Instr, ctx: Context,
                                         v: D, s': S)
    requires Lawful(a) && LocallySound(a, m) && LocallyExact(a, m)
    ensures m.covers(s', AfterOp(a, t, ins, ctx, v)) <==>
      match ins.op
      case Call(f) => ReturnsFrom(m, ins, v, Look(a, t, Out(f, a.calleeContext(ins, ctx))), s')
      case _ => ExecutesFrom(m, ins, v, s')
  {
    if ins.op.Call? {
      var o := Look(a, t, Out(ins.op.callee, a.calleeContext(ins, ctx)));
      var d := a.afterCall(ins, ctx, v, o);
      assert a.leq(d, a.join(a.bottom, d));
      if ReturnsFrom(m, ins, v, o, s') {
        var s, e :| m.covers(s, v) && m.covers(e, o) && m.returnTo(ins, s, e, s');
        NotBottom(a, m, s, v);
      }
    } else if ExecutesFrom(m, ins, v, s') {
      var s :| m.covers(s, v) && m.exec(ins, s, s');
      NotBottom(a, m, s, v);
    }
  }

  /** Exactly the states that pass the exit of an instruction go on to the next one. */
  lemma AfterExitExactly<D(!new), S(!new)>(a: Analysis<D>, m: Semantics<D, S>, ins: Instr, ctx: Context, v: D, s: S)
    requires LocallySound(a, m) && LocallyExact(a, m)
    ensures m.covers(s, AfterExit(a, ins, ctx, v)) <==> m.covers(s, v) && Passes(m, ins, s)
  {}

  /** Exactly the states that jump to a target are sent there; an unconditional branch always jumps. */
  lemma ToTargetExactly<D(!new), S(!new)>(a: Analysis<D>, m: Semantics<D, S>, ins: Instr, ctx: Context, target: Block,
                                          v: D, s: S)
    requires LocallySound(a, m) && LocallyExact(a, m)
    ensures m.covers(s, ToTarget(a, ins, ctx, target, v)) <==>
      m.covers(s, v) && (ins.exit.Goto? || m.jumps(ins, target, s))
  {}
}
