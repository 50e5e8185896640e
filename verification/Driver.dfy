/**
 The context-sensitive interprocedural fixpoint iteration. The abstract domain, its
 transfer functions and the effect of edges and calls on contexts are parameters.
 */
module AnalysisDriver {
  import opened LruSet
  import opened Options
  import opened ContextTokens

  type Block = nat
  type Func = nat

  /** Calling a function pushes a token for it. */
  function OnCall(f: Func, c: Context): Context {
    c + [Callee(f)]
  }

  datatype Op = Plain | External | Call(callee: Func)
  datatype Exit = NoExit | Goto(target: Block) | Conditional(target: Block) | JumpTable(targets: seq<Block>)
                | Return(predicated: bool)
  datatype Instr = Instr(id: nat, op: Op, exit: Exit)

  /** An instruction of a block that is a call. */
  datatype CallSite = CallSite(b: Block, k: nat)

  datatype Program = Program(
    instrs: Block -> seq<Instr>,
    layoutSuccessor: Block -> Option<Block>,
    functionOf: Block -> Func,
    firstBlock: Func -> Block,
    callSites: Func -> set<CallSite>)
  {
    predicate IsFirst(b: Block) {
      firstBlock(functionOf(b)) == b
    }

    function Targets(e: Exit): seq<Block> {
      match e
      case Goto(b) => [b]
      case Conditional(b) => [b]
      case JumpTable(bs) => bs
      case _ => []
    }

    ghost predicate WellFormed() {
      && (forall f :: functionOf(firstBlock(f)) == f)
      && (forall f, b, k: nat :: CallSite(b, k) in callSites(f) <==> k < |instrs(b)| && instrs(b)[k].op == Call(f))
      && (forall b, k, t :: 0 <= k < |instrs(b)| && t in Targets(instrs(b)[k].exit) ==> !IsFirst(t))
      && (forall b :: layoutSuccessor(b).Some? ==> !IsFirst(layoutSuccessor(b).value))
    }
  }

  /** An abstract domain with its transfer functions, and how contexts change on the way. */
  datatype Analysis<!D> = Analysis(
    bottom: D, start: D,
    join: (D, D) -> D, leq: (D, D) -> bool,
    ghost height: D -> nat, ghost maxHeight: nat,
    transfer: (Instr, Context, D) -> D,
    external: (Instr, Context, D) -> D,
    toCallee: (Instr, Context, D, D) -> D,
    afterCall: (Instr, Context, D, D) -> D,
    taken: (Instr, Context, Block, D) -> D,
    notTaken: (Instr, Context, D) -> D,
    returning: (Instr, Context, D) -> D,
    enter: (Block, D) -> D,
    calleeContext: (Instr, Context) -> Context,
    edge: (Block, Block, Context) -> Context,
    onReturn: (Func, Context) -> Context)

  /** A partial order with upper bounds, a least element and finite height. Nothing is asked of the transfers. */
  ghost predicate Lawful<D(!new)>(a: Analysis<D>) {
    && (forall x :: a.leq(x, x) && a.leq(a.bottom, x) && a.height(x) <= a.maxHeight)
    && (forall x, y :: a.leq(x, y) && a.leq(y, x) ==> x == y)
    && (forall x, y, z :: a.leq(x, y) && a.leq(y, z) ==> a.leq(x, z))
    && (forall x, y :: a.leq(x, a.join(x, y)) && a.leq(y, a.join(x, y)))
    && (forall x, y :: a.leq(x, y) && x != y ==> a.height(y) < a.height(x))
  }

  // ---------- Tables and flows ----------

  /** What the tables are indexed by: a block, or the entry or exit of a function, each in a context. */
  datatype Point = At(b: Block, ctx: Context) | In(f: Func, ctx: Context) | Out(f: Func, ctx: Context)

  type Table<!D> = map<Point, D>

  datatype Item = Item(b: Block, ctx: Context)

  function Look<D>(a: Analysis<D>, t: Table<D>, p: Point): D {
    if p in t then t[p] else a.bottom
  }

  ghost predicate Included<D>(a: Analysis<D>, t: Table<D>, p: Point, d: D) {
    p in t && a.leq(d, t[p])
  }

  predicate IsBottom<D>(a: Analysis<D>, d: D) {
    a.leq(d, a.bottom)
  }

  /** After the instruction itself; a call continues with what is known about the callee's exit. */
  function AfterOp<D>(a: Analysis<D>, t: Table<D>, ins: Instr, ctx: Context, v: D): D {
    match ins.op
    case Plain => a.transfer(ins, ctx, v)
    case External => if IsBottom(a, v) then a.bottom else a.external(ins, ctx, v)
    case Call(f) =>
      if IsBottom(a, v) then a.bottom
      else a.join(a.bottom, a.afterCall(ins, ctx, v, Look(a, t, Out(f, a.calleeContext(ins, ctx)))))
  }

  /** What goes on to the next instruction. */
  function AfterExit<D>(a: Analysis<D>, ins: Instr, ctx: Context, v: D): D {
    match ins.exit
    case NoExit => v
    case Goto(_) => a.bottom
    case Conditional(_) => a.notTaken(ins, ctx, v)
    case JumpTable(_) => a.bottom
    case Return(predicated) => if predicated then a.notTaken(ins, ctx, v) else a.bottom
  }

  /** What goes to a branch target. */
  function ToTarget<D>(a: Analysis<D>, ins: Instr, ctx: Context, target: Block, v: D): D {
    a.enter(target, if ins.exit.Goto? then v else a.taken(ins, ctx, target, v))
  }

  /** The value before instruction `k` of the block. */
  ghost function ValueAt<D>(pr: Program, a: Analysis<D>, t: Table<D>, b: Block, ctx: Context, k: nat): D
    requires k <= |pr.instrs(b)|
  {
    if k == 0 then Look(a, t, At(b, ctx))
    else
      var ins := pr.instrs(b)[k - 1];
      AfterExit(a, ins, ctx, AfterOp(a, t, ins, ctx, ValueAt(pr, a, t, b, ctx, k - 1)))
  }

  ghost predicate CallIncluded<D>(a: Analysis<D>, t: Table<D>, ins: Instr, ctx: Context, v: D) {
    ins.op.Call? && !IsBottom(a, v) ==>
      var f, c := ins.op.callee, a.calleeContext(ins, ctx);
      Included(a, t, In(f, c), a.toCallee(ins, ctx, v, Look(a, t, Out(f, c))))
  }

  ghost predicate TargetIncluded<D>(a: Analysis<D>, t: Table<D>, b: Block, ins: Instr, ctx: Context, target: Block,
                                    v: D)
  {
    Included(a, t, At(target, a.edge(b, target, ctx)), ToTarget(a, ins, ctx, target, v))
  }

  ghost predicate TargetsIncluded<D>(a: Analysis<D>, t: Table<D>, b: Block, ins: Instr, ctx: Context,
                                     targets: seq<Block>, v: D)
  {
    forall target :: target in targets ==> TargetIncluded(a, t, b, ins, ctx, target, v)
  }

  ghost predicate ExitIncluded<D>(pr: Program, a: Analysis<D>, t: Table<D>, b: Block, ins: Instr, ctx: Context, v: D) {
    && TargetsIncluded(a, t, b, ins, ctx, pr.Targets(ins.exit), v)
    && (ins.exit.Return? ==>
          Included(a, t, Out(pr.functionOf(b), a.onReturn(pr.functionOf(b), ctx)), a.returning(ins, ctx, v)))
  }

  /** Everything instruction `k` sends to callees, branch targets and the function exit is in the table. */
  ghost predicate InstrIncluded<D>(pr: Program, a: Analysis<D>, t: Table<D>, b: Block, ctx: Context, k: nat)
    requires k < |pr.instrs(b)|
  {
    var ins, v := pr.instrs(b)[k], ValueAt(pr, a, t, b, ctx, k);
    CallIncluded(a, t, ins, ctx, v) && ExitIncluded(pr, a, t, b, ins, ctx, AfterOp(a, t, ins, ctx, v))
  }

  ghost predicate FallThroughIncluded<D>(pr: Program, a: Analysis<D>, t: Table<D>, b: Block, ctx: Context, v: D) {
    pr.layoutSuccessor(b).Some? ==>
      var target := pr.layoutSuccessor(b).value;
      Included(a, t, At(target, a.edge(b, target, ctx)), a.enter(target, v))
  }

  /** The first `k` instructions of the block are accounted for. */
  ghost predicate PrefixClosed<D>(pr: Program, a: Analysis<D>, t: Table<D>, b: Block, ctx: Context, k: nat)
    requires k <= |pr.instrs(b)|
  {
    forall i :: 0 <= i < k ==> InstrIncluded(pr, a, t, b, ctx, i)
  }

  ghost predicate BlockClosed<D>(pr: Program, a: Analysis<D>, t: Table<D>, b: Block, ctx: Context) {
    var n := |pr.instrs(b)|;
    PrefixClosed(pr, a, t, b, ctx, n) && FallThroughIncluded(pr, a, t, b, ctx, ValueAt(pr, a, t, b, ctx, n))
  }

  /** What enters a function arrives at its first block. */
  ghost predicate EntryClosed<D>(pr: Program, a: Analysis<D>, t: Table<D>, f: Func, c: Context)
    requires In(f, c) in t
  {
    Included(a, t, At(pr.firstBlock(f), OnCall(f, c)), t[In(f, c)])
  }

  /** The table includes everything that flows out of it, and the start of the program. */
  ghost predicate PostFixpoint<D(!new)>(pr: Program, a: Analysis<D>, t: Table<D>, entry: Func) {
    && (forall b, ctx :: At(b, ctx) in t ==> BlockClosed(pr, a, t, b, ctx))
    && (forall f, c :: In(f, c) in t ==> EntryClosed(pr, a, t, f, c))
    && Included(a, t, In(entry, []), a.start)
  }

  // ---------- What a change of the table leaves intact ----------

  ghost predicate Grows<D>(a: Analysis<D>, t: Table<D>, t': Table<D>) {
    forall p :: p in t ==> Included(a, t', p, t[p])
  }

  /** The parts of the table that the flows of a block read. */
  ghost predicate ReadsSame<D>(pr: Program, a: Analysis<D>, t: Table<D>, t': Table<D>, b: Block, ctx: Context) {
    && Look(a, t, At(b, ctx)) == Look(a, t', At(b, ctx))
    && forall k :: 0 <= k < |pr.instrs(b)| ==> ReadSame(a, t, t', pr.instrs(b)[k], ctx)
  }

  /** What is known about the exit of the function that is called, if any. */
  ghost predicate ReadSame<D>(a: Analysis<D>, t: Table<D>, t': Table<D>, ins: Instr, ctx: Context) {
    ins.op.Call? ==>
      var p := Out(ins.op.callee, a.calleeContext(ins, ctx));
      Look(a, t, p) == Look(a, t', p)
  }

  lemma {:induction false} ValueSame<D>(pr: Program, a: Analysis<D>, t: Table<D>, t': Table<D>, b: Block,
                                        ctx: Context, k: nat)
    requires ReadsSame(pr, a, t, t', b, ctx) && k <= |pr.instrs(b)|
    ensures ValueAt(pr, a, t, b, ctx, k) == ValueAt(pr, a, t', b, ctx, k)
  {
    if k > 0 {
      ValueSame(pr, a, t, t', b, ctx, k - 1);
      OpSame(pr, a, t, t', b, ctx, k - 1, ValueAt(pr, a, t, b, ctx, k - 1));
    }
  }

  lemma OpSame<D>(pr: Program, a: Analysis<D>, t: Table<D>, t': Table<D>, b: Block, ctx: Context, k: nat, v: D)
    requires ReadsSame(pr, a, t, t', b, ctx) && k < |pr.instrs(b)|
    ensures AfterOp(a, t, pr.instrs(b)[k], ctx, v) == AfterOp(a, t', pr.instrs(b)[k], ctx, v)
  {
    assert ReadSame(a, t, t', pr.instrs(b)[k], ctx);
  }

  lemma NextTarget<D(!new)>(a: Analysis<D>, t: Table<D>, t': Table<D>, b: Block, ins: Instr, ctx: Context,
                            targets: seq<Block>, j: nat, v: D)
    requires Lawful(a) && Grows(a, t, t') && j < |targets| && TargetsIncluded(a, t, b, ins, ctx, targets[..j], v)
    requires TargetIncluded(a, t', b, ins, ctx, targets[j], v)
    ensures TargetsIncluded(a, t', b, ins, ctx, targets[..j + 1], v)
  {
    assert targets[..j + 1] == targets[..j] + [targets[j]];
  }

  lemma InstrStillIncluded<D(!new)>(pr: Program, a: Analysis<D>, t: Table<D>, t': Table<D>, b: Block, ctx: Context,
                                    k: nat)
    requires Lawful(a) && Grows(a, t, t') && ReadsSame(pr, a, t, t', b, ctx) && k < |pr.instrs(b)|
    requires InstrIncluded(pr, a, t, b, ctx, k)
    ensures InstrIncluded(pr, a, t', b, ctx, k)
  {
    var ins, v := pr.instrs(b)[k], ValueAt(pr, a, t, b, ctx, k);
    ValueSame(pr, a, t, t', b, ctx, k);
    OpSame(pr, a, t, t', b, ctx, k, v);
    assert ReadSame(a, t, t', ins, ctx);
  }

  lemma PrefixStillClosed<D(!new)>(pr: Program, a: Analysis<D>, t: Table<D>, t': Table<D>, b: Block, ctx: Context,
                                   k: nat)
    requires Lawful(a) && Grows(a, t, t') && ReadsSame(pr, a, t, t', b, ctx) && k <= |pr.instrs(b)|
    requires PrefixClosed(pr, a, t, b, ctx, k)
    ensures PrefixClosed(pr, a, t', b, ctx, k)
  {
    forall i | 0 <= i < k ensures InstrIncluded(pr, a, t', b, ctx, i) {
      InstrStillIncluded(pr, a, t, t', b, ctx, i);
    }
  }

  lemma BlockStillClosed<D(!new)>(pr: Program, a: Analysis<D>, t: Table<D>, t': Table<D>, b: Block, ctx: Context)
    requires Lawful(a) && Grows(a, t, t') && ReadsSame(pr, a, t, t', b, ctx) && BlockClosed(pr, a, t, b, ctx)
    ensures BlockClosed(pr, a, t', b, ctx)
  {
    var n := |pr.instrs(b)|;
    PrefixStillClosed(pr, a, t, t', b, ctx, n);
    ValueSame(pr, a, t, t', b, ctx, n);
  }

  // ---------- Termination ----------

  ghost function Remaining<D>(a: Analysis<D>, t: Table<D>, p: Point): nat {
    if p in t then a.height(t[p]) else a.maxHeight + 1
  }

  /** How far the table can still rise, summed over all points there are. */
  ghost function Potential<D>(a: Analysis<D>, t: Table<D>, points: seq<Point>): nat {
    if points == [] then 0 else Remaining(a, t, points[0]) + Potential(a, t, points[1..])
  }

  lemma {:induction false} PotentialFalls<D(!new)>(a: Analysis<D>, t: Table<D>, t': Table<D>, points: seq<Point>)
    requires Lawful(a) && Grows(a, t, t')
    ensures Potential(a, t', points) <= Potential(a, t, points)
    ensures (exists p :: p in points && p in t' && (p !in t || t[p] != t'[p])) ==>
      Potential(a, t', points) < Potential(a, t, points)
  {
    if points != [] {
      PotentialFalls(a, t, t', points[1..]);
      assert points == [points[0]] + points[1..];
    }
  }

  // ---------- The invariant of the iteration ----------

  /** All points that flows out of known points reach are known. */
  ghost predicate Universe<D(!new)>(pr: Program, a: Analysis<D>, points: seq<Point>, entry: Func) {
    && In(entry, []) in points
    && (forall f, c :: In(f, c) in points ==> At(pr.firstBlock(f), OnCall(f, c)) in points)
    && (forall b, ctx :: At(b, ctx) in points ==> BlockInUniverse(pr, a, points, b, ctx))
  }

  ghost predicate BlockInUniverse<D>(pr: Program, a: Analysis<D>, points: seq<Point>, b: Block, ctx: Context) {
    && (forall k :: 0 <= k < |pr.instrs(b)| && pr.instrs(b)[k].op.Call? ==>
          In(pr.instrs(b)[k].op.callee, a.calleeContext(pr.instrs(b)[k], ctx)) in points)
    && (forall k, t :: 0 <= k < |pr.instrs(b)| && t in pr.Targets(pr.instrs(b)[k].exit) ==>
          At(t, a.edge(b, t, ctx)) in points)
    && (pr.layoutSuccessor(b).Some? ==>
          At(pr.layoutSuccessor(b).value, a.edge(b, pr.layoutSuccessor(b).value, ctx)) in points)
    && Out(pr.functionOf(b), a.onReturn(pr.functionOf(b), ctx)) in points
  }

  /** A first block is only looked at in a context that a call with known information has made. */
  ghost predicate EntryContext<D>(pr: Program, t: Table<D>, b: Block, ctx: Context) {
    pr.IsFirst(b) ==>
      && |ctx| > 0 && ctx == OnCall(pr.functionOf(b), ctx[..|ctx| - 1])
      && In(pr.functionOf(b), ctx[..|ctx| - 1]) in t
  }

  /**
   Everything that is not waiting in the worklist, and is not the item being worked on,
   is accounted for.
   */
  ghost predicate Accounted<D(!new)>(pr: Program, a: Analysis<D>, t: Table<D>, w: set<Item>, cur: Option<Item>) {
    && (forall b, ctx :: At(b, ctx) in t ==>
          Item(b, ctx) in w || cur == Some(Item(b, ctx)) || BlockClosed(pr, a, t, b, ctx))
    && (forall f, c :: In(f, c) in t ==>
          Item(pr.firstBlock(f), OnCall(f, c)) in w || EntryClosed(pr, a, t, f, c))
  }

  ghost predicate Known<D(!new)>(pr: Program, a: Analysis<D>, t: Table<D>, w: set<Item>, points: seq<Point>,
                                 entry: Func)
  {
    && (forall p :: p in t ==> p in points)
    && (forall b, ctx :: At(b, ctx) in t ==> EntryContext(pr, t, b, ctx))
    && (forall b, ctx :: Item(b, ctx) in w ==>
          At(b, ctx) in points && EntryContext(pr, t, b, ctx) && (pr.IsFirst(b) || At(b, ctx) in t))
    && Included(a, t, In(entry, []), a.start)
  }

  /** One or more propagations: who reads something that changed is queued. */
  ghost predicate Step<D(!new)>(pr: Program, a: Analysis<D>, t: Table<D>, w: set<Item>, t': Table<D>, w': set<Item>,
                                points: seq<Point>)
  {
    && Grows(a, t, t') && w <= w'
    && (forall b, ctx :: At(b, ctx) in t' ==>
          Item(b, ctx) in w' || (At(b, ctx) in t && ReadsSame(pr, a, t, t', b, ctx)))
    && (forall f, c :: In(f, c) in t' ==>
          Item(pr.firstBlock(f), OnCall(f, c)) in w' || (In(f, c) in t && t[In(f, c)] == t'[In(f, c)]))
    && ((t == t' && w == w') || Potential(a, t', points) < Potential(a, t, points))
  }

  lemma NoStep<D(!new)>(pr: Program, a: Analysis<D>, t: Table<D>, w: set<Item>, points: seq<Point>)
    requires Lawful(a)
    ensures Step(pr, a, t, w, t, w, points)
  {}

  lemma StepsCompose<D(!new)>(pr: Program, a: Analysis<D>, t: Table<D>, w: set<Item>, t': Table<D>, w': set<Item>,
                              t'': Table<D>, w'': set<Item>, points: seq<Point>)
    requires Lawful(a) && Step(pr, a, t, w, t', w', points) && Step(pr, a, t', w', t'', w'', points)
    ensures Step(pr, a, t, w, t'', w'', points)
  {}

  lemma StepKeepsAccounts<D(!new)>(pr: Program, a: Analysis<D>, t: Table<D>, w: set<Item>, t': Table<D>, w': set<Item>,
                                   points: seq<Point>, cur: Option<Item>)
    requires Lawful(a) && Step(pr, a, t, w, t', w', points) && Accounted(pr, a, t, w, cur)
    ensures Accounted(pr, a, t', w', cur)
  {
    forall b, ctx | At(b, ctx) in t'
      ensures Item(b, ctx) in w' || cur == Some(Item(b, ctx)) || BlockClosed(pr, a, t', b, ctx)
    {
      if Item(b, ctx) !in w' && cur != Some(Item(b, ctx)) {
        BlockStillClosed(pr, a, t, t', b, ctx);
      }
    }
  }

  // ---------- The single propagations ----------

  /** Joins a value into the table. */
  function Added<D>(a: Analysis<D>, t: Table<D>, p: Point, d: D): Table<D> {
    t[p := if p in t then a.join(t[p], d) else d]
  }

  predicate Changes<D>(a: Analysis<D>, t: Table<D>, p: Point, d: D) {
    p in t ==> !(a.leq(t[p], a.join(t[p], d)) && a.leq(a.join(t[p], d), t[p]))
  }

  lemma AddedGrows<D(!new)>(a: Analysis<D>, t: Table<D>, p: Point, d: D, points: seq<Point>)
    requires Lawful(a) && p in points
    ensures Grows(a, t, Added(a, t, p, d)) && Included(a, Added(a, t, p, d), p, d)
    ensures !Changes(a, t, p, d) ==> Added(a, t, p, d) == t
    ensures Changes(a, t, p, d) ==> Potential(a, Added(a, t, p, d), points) < Potential(a, t, points)
    ensures Potential(a, Added(a, t, p, d), points) <= Potential(a, t, points)
  {
    PotentialFalls(a, t, Added(a, t, p, d), points);
  }

  function Queue(w: set<Item>, changed: bool, item: Item): set<Item> {
    if changed then w + {item} else w
  }

  lemma BlockPropagated<D(!new)>(pr: Program, a: Analysis<D>, t: Table<D>, w: set<Item>, b: Block, ctx: Context, d: D,
                                 points: seq<Point>)
    requires Lawful(a) && At(b, ctx) in points
    ensures Step(pr, a, t, w, Added(a, t, At(b, ctx), d), Queue(w, Changes(a, t, At(b, ctx), d), Item(b, ctx)), points)
  {
    AddedGrows(a, t, At(b, ctx), d, points);
  }

  lemma CallPropagated<D(!new)>(pr: Program, a: Analysis<D>, t: Table<D>, w: set<Item>, f: Func, c: Context, d: D,
                                points: seq<Point>)
    requires Lawful(a) && In(f, c) in points
    ensures Step(pr, a, t, w, Added(a, t, In(f, c), d),
      Queue(w, Changes(a, t, In(f, c), d), Item(pr.firstBlock(f), OnCall(f, c))), points)
  {
    AddedGrows(a, t, In(f, c), d, points);
  }

  lemma CalleeKnown<D(!new)>(pr: Program, a: Analysis<D>, t: Table<D>, w: set<Item>, f: Func, c: Context, d: D,
                             points: seq<Point>, entry: Func)
    requires Lawful(a) && pr.WellFormed() && Universe(pr, a, points, entry) && Known(pr, a, t, w, points, entry)
    requires In(f, c) in points
    ensures Known(pr, a, Added(a, t, In(f, c), d),
      Queue(w, Changes(a, t, In(f, c), d), Item(pr.firstBlock(f), OnCall(f, c))), points, entry)
  {
    AddedGrows(a, t, In(f, c), d, points);
    assert OnCall(f, c)[..|c|] == c;
  }

  /** A known context in which the callsite calls its function in context `c`. */
  predicate CallsIn<D>(pr: Program, a: Analysis<D>, t: Table<D>, site: CallSite, c: Context, ctx: Context) {
    site.k < |pr.instrs(site.b)| && At(site.b, ctx) in t && a.calleeContext(pr.instrs(site.b)[site.k], ctx) == c
  }

  /** The blocks and known contexts that call `f` in context `c`. */
  ghost predicate IsCaller<D>(pr: Program, a: Analysis<D>, t: Table<D>, f: Func, c: Context, item: Item) {
    exists site :: site in pr.callSites(f) && site.b == item.b && CallsIn(pr, a, t, site, c, item.ctx)
  }

  lemma ReturnPropagated<D(!new)>(pr: Program, a: Analysis<D>, t: Table<D>, w: set<Item>, w': set<Item>, f: Func,
                                  c: Context, d: D, points: seq<Point>)
    requires Lawful(a) && pr.WellFormed() && Out(f, c) in points && w <= w'
    requires if Changes(a, t, Out(f, c), d) then forall i :: IsCaller(pr, a, t, f, c, i) ==> i in w' else w == w'
    ensures Step(pr, a, t, w, Added(a, t, Out(f, c), d), w', points)
  {
    var t' := Added(a, t, Out(f, c), d);
    AddedGrows(a, t, Out(f, c), d, points);
    forall b, ctx | At(b, ctx) in t'
      ensures Item(b, ctx) in w' || (At(b, ctx) in t && ReadsSame(pr, a, t, t', b, ctx))
    {
      forall k | 0 <= k < |pr.instrs(b)| && Item(b, ctx) !in w' ensures ReadSame(a, t, t', pr.instrs(b)[k], ctx) {
        var ins := pr.instrs(b)[k];
        if t != t' && ins.op == Call(f) && a.calleeContext(ins, ctx) == c {
          assert CallSite(b, k) in pr.callSites(f) && CallsIn(pr, a, t, CallSite(b, k), c, ctx);
        }
      }
    }
  }

  // ---------- The block being worked on ----------

  /** The first `k` instructions are done and `v` is the value after them, unless the block waits again. */
  ghost predicate Progressed<D>(pr: Program, a: Analysis<D>, t: Table<D>, w: set<Item>, b: Block, ctx: Context,
                                k: nat, v: D)
    requires k <= |pr.instrs(b)|
  {
    Item(b, ctx) in w || (PrefixClosed(pr, a, t, b, ctx, k) && v == ValueAt(pr, a, t, b, ctx, k))
  }

  /** Of instruction `k` everything but its exit is done as well. */
  ghost predicate OpDone<D>(pr: Program, a: Analysis<D>, t: Table<D>, w: set<Item>, b: Block, ctx: Context, k: nat,
                            v: D)
    requires k < |pr.instrs(b)|
  {
    var ins, u := pr.instrs(b)[k], ValueAt(pr, a, t, b, ctx, k);
    Item(b, ctx) in w ||
    (PrefixClosed(pr, a, t, b, ctx, k) && CallIncluded(a, t, ins, ctx, u) && v == AfterOp(a, t, ins, ctx, u))
  }

  lemma ProgressKept<D(!new)>(pr: Program, a: Analysis<D>, t: Table<D>, w: set<Item>, t': Table<D>, w': set<Item>,
                              points: seq<Point>, b: Block, ctx: Context, k: nat, v: D)
    requires Lawful(a) && Step(pr, a, t, w, t', w', points) && k <= |pr.instrs(b)| && At(b, ctx) in t
    requires Progressed(pr, a, t, w, b, ctx, k, v)
    ensures Progressed(pr, a, t', w', b, ctx, k, v)
  {
    if Item(b, ctx) !in w' {
      PrefixStillClosed(pr, a, t, t', b, ctx, k);
      ValueSame(pr, a, t, t', b, ctx, k);
    }
  }

  lemma OpDoneKept<D(!new)>(pr: Program, a: Analysis<D>, t: Table<D>, w: set<Item>, t': Table<D>, w': set<Item>,
                            points: seq<Point>, b: Block, ctx: Context, k: nat, v: D)
    requires Lawful(a) && Step(pr, a, t, w, t', w', points) && k < |pr.instrs(b)| && At(b, ctx) in t
    requires OpDone(pr, a, t, w, b, ctx, k, v)
    ensures OpDone(pr, a, t', w', b, ctx, k, v)
  {
    if Item(b, ctx) !in w' {
      PrefixStillClosed(pr, a, t, t', b, ctx, k);
      ValueSame(pr, a, t, t', b, ctx, k);
      OpSame(pr, a, t, t', b, ctx, k, ValueAt(pr, a, t, b, ctx, k));
      assert ReadSame(a, t, t', pr.instrs(b)[k], ctx);
    }
  }

  lemma InstrDone<D>(pr: Program, a: Analysis<D>, t: Table<D>, w: set<Item>, b: Block, ctx: Context, k: nat, v: D)
    requires k < |pr.instrs(b)| && OpDone(pr, a, t, w, b, ctx, k, v)
    requires ExitIncluded(pr, a, t, b, pr.instrs(b)[k], ctx, v)
    ensures Progressed(pr, a, t, w, b, ctx, k + 1, AfterExit(a, pr.instrs(b)[k], ctx, v))
  {
    if Item(b, ctx) !in w {
      assert InstrIncluded(pr, a, t, b, ctx, k);
    }
  }

  lemma BlockDone<D(!new)>(pr: Program, a: Analysis<D>, t: Table<D>, w: set<Item>, b: Block, ctx: Context, v: D)
    requires Accounted(pr, a, t, w, Some(Item(b, ctx))) && Progressed(pr, a, t, w, b, ctx, |pr.instrs(b)|, v)
    requires FallThroughIncluded(pr, a, t, b, ctx, v)
    ensures Accounted(pr, a, t, w, None)
  {}

  /** Taking an item from the worklist; a first block joins what has entered its function. */
  lemma ItemTaken<D(!new)>(pr: Program, a: Analysis<D>, t: Table<D>, t': Table<D>, w: set<Item>, b: Block, ctx: Context)
    requires Lawful(a) && pr.WellFormed() && Accounted(pr, a, t, w, None)
    requires Item(b, ctx) in w && EntryContext(pr, t, b, ctx)
    requires if pr.IsFirst(b) then t' == Added(a, t, At(b, ctx), t[In(pr.functionOf(b), ctx[..|ctx| - 1])]) else t' == t
    ensures Grows(a, t, t')
    ensures Accounted(pr, a, t', w - {Item(b, ctx)}, Some(Item(b, ctx)))
  {
    forall b', ctx' | At(b', ctx') in t' && Item(b', ctx') !in w && Item(b', ctx') != Item(b, ctx)
      ensures BlockClosed(pr, a, t', b', ctx')
    {
      BlockStillClosed(pr, a, t, t', b', ctx');
    }
    forall f, c | In(f, c) in t' && Item(pr.firstBlock(f), OnCall(f, c)) !in w - {Item(b, ctx)}
      ensures EntryClosed(pr, a, t', f, c)
    {
      if b == pr.firstBlock(f) && ctx == OnCall(f, c) {
        assert ctx[..|ctx| - 1] == c;
      }
    }
  }

  // ---------- The least post-fixpoint ----------

  /** Joins are least upper bounds, and knowing more never makes a transfer say less. */
  ghost predicate Monotone<D(!new)>(a: Analysis<D>) {
    && (forall x, y, z :: a.leq(x, z) && a.leq(y, z) ==> a.leq(a.join(x, y), z))
    && (forall i, c, x, y :: a.leq(x, y) ==> a.leq(a.transfer(i, c, x), a.transfer(i, c, y)))
    && (forall i, c, x, y :: a.leq(x, y) ==> a.leq(a.external(i, c, x), a.external(i, c, y)))
    && (forall i, c, x, y, o, q :: a.leq(x, y) && a.leq(o, q) ==>
          a.leq(a.toCallee(i, c, x, o), a.toCallee(i, c, y, q)))
    && (forall i, c, x, y, o, q :: a.leq(x, y) && a.leq(o, q) ==>
          a.leq(a.afterCall(i, c, x, o), a.afterCall(i, c, y, q)))
    && (forall i, c, b, x, y :: a.leq(x, y) ==> a.leq(a.taken(i, c, b, x), a.taken(i, c, b, y)))
    && (forall i, c, x, y :: a.leq(x, y) ==> a.leq(a.notTaken(i, c, x), a.notTaken(i, c, y)))
    && (forall i, c, x, y :: a.leq(x, y) ==> a.leq(a.returning(i, c, x), a.returning(i, c, y)))
    && (forall b, x, y :: a.leq(x, y) ==> a.leq(a.enter(b, x), a.enter(b, y)))
  }

  /** The table is below every post-fixpoint, if the transfers are monotone. */
  ghost predicate Least<D(!new)>(pr: Program, a: Analysis<D>, t: Table<D>, entry: Func) {
    Monotone(a) ==> forall z :: PostFixpoint(pr, a, z, entry) ==> Grows(a, t, z)
  }

  /** Every post-fixpoint includes this information. */
  ghost predicate AlwaysIncluded<D(!new)>(pr: Program, a: Analysis<D>, entry: Func, p: Point, d: D) {
    Monotone(a) ==> forall z :: PostFixpoint(pr, a, z, entry) ==> Included(a, z, p, d)
  }

  /** In every post-fixpoint the value before instruction `k` includes `v`. */
  ghost predicate AlwaysBefore<D(!new)>(pr: Program, a: Analysis<D>, entry: Func, b: Block, ctx: Context, k: nat, v: D)
    requires k <= |pr.instrs(b)|
  {
    Monotone(a) ==> forall z :: PostFixpoint(pr, a, z, entry) ==> a.leq(v, ValueAt(pr, a, z, b, ctx, k))
  }

  /** In every post-fixpoint the value after instruction `k`, before its exit, includes `v`. */
  ghost predicate AlwaysAfter<D(!new)>(pr: Program, a: Analysis<D>, entry: Func, b: Block, ctx: Context, k: nat, v: D)
    requires k < |pr.instrs(b)|
  {
    Monotone(a) ==> forall z :: PostFixpoint(pr, a, z, entry) ==>
      a.leq(v, AfterOp(a, z, pr.instrs(b)[k], ctx, ValueAt(pr, a, z, b, ctx, k)))
  }

  lemma AddedLeast<D(!new)>(pr: Program, a: Analysis<D>, t: Table<D>, entry: Func, p: Point, d: D)
    requires Lawful(a) && Least(pr, a, t, entry) && AlwaysIncluded(pr, a, entry, p, d)
    ensures Least(pr, a, Added(a, t, p, d), entry)
  {
    if Monotone(a) {
      forall z | PostFixpoint(pr, a, z, entry) ensures Grows(a, Added(a, t, p, d), z) {
        assert Grows(a, t, z) && Included(a, z, p, d);
        AddedBelow(a, t, z, p, d);
      }
    }
  }

  lemma AddedBelow<D(!new)>(a: Analysis<D>, t: Table<D>, z: Table<D>, p: Point, d: D)
    requires Monotone(a) && Grows(a, t, z) && Included(a, z, p, d)
    ensures Grows(a, Added(a, t, p, d), z)
  {
    forall q | q in Added(a, t, p, d) ensures Included(a, z, q, Added(a, t, p, d)[q]) {
      assert q in t ==> Included(a, z, q, t[q]);
    }
  }

  lemma LookBelow<D(!new)>(a: Analysis<D>, t: Table<D>, z: Table<D>, p: Point)
    requires Lawful(a) && Grows(a, t, z)
    ensures a.leq(Look(a, t, p), Look(a, z, p))
  {
    if p in t {
      assert Included(a, z, p, t[p]);
    }
  }

  lemma AfterOpBelow<D(!new)>(a: Analysis<D>, t: Table<D>, z: Table<D>, ins: Instr, ctx: Context, v: D, u: D)
    requires Lawful(a) && Monotone(a) && Grows(a, t, z) && a.leq(v, u)
    ensures a.leq(AfterOp(a, t, ins, ctx, v), AfterOp(a, z, ins, ctx, u))
  {
    match ins.op
    case Plain =>
    case External => assert IsBottom(a, u) ==> IsBottom(a, v);
    case Call(f) =>
      assert IsBottom(a, u) ==> IsBottom(a, v);
      var p := Out(f, a.calleeContext(ins, ctx));
      LookBelow(a, t, z, p);
      JoinBelow(a, a.afterCall(ins, ctx, v, Look(a, t, p)), a.afterCall(ins, ctx, u, Look(a, z, p)));
  }

  lemma JoinBelow<D(!new)>(a: Analysis<D>, x: D, y: D)
    requires Lawful(a) && Monotone(a) && a.leq(x, y)
    ensures a.leq(a.join(a.bottom, x), a.join(a.bottom, y))
  {}

  lemma OpLeast<D(!new)>(pr: Program, a: Analysis<D>, t: Table<D>, entry: Func, b: Block, ctx: Context, k: nat, v: D)
    requires Lawful(a) && Least(pr, a, t, entry) && k < |pr.instrs(b)| && AlwaysBefore(pr, a, entry, b, ctx, k, v)
    ensures AlwaysAfter(pr, a, entry, b, ctx, k, AfterOp(a, t, pr.instrs(b)[k], ctx, v))
  {
    var ins := pr.instrs(b)[k];
    if Monotone(a) {
      forall z | PostFixpoint(pr, a, z, entry)
        ensures a.leq(AfterOp(a, t, ins, ctx, v), AfterOp(a, z, ins, ctx, ValueAt(pr, a, z, b, ctx, k)))
      {
        AfterOpBelow(a, t, z, ins, ctx, v, ValueAt(pr, a, z, b, ctx, k));
      }
    }
  }

  /** The flows of one instruction of a known block are in every post-fixpoint. */
  lemma SolutionIncludes<D(!new)>(pr: Program, a: Analysis<D>, t: Table<D>, z: Table<D>, entry: Func, b: Block,
                                  ctx: Context)
    requires PostFixpoint(pr, a, z, entry) && Grows(a, t, z) && At(b, ctx) in t
    ensures At(b, ctx) in z && BlockClosed(pr, a, z, b, ctx)
  {
    assert Included(a, z, At(b, ctx), t[At(b, ctx)]);
  }

  lemma CalleeLeast<D(!new)>(pr: Program, a: Analysis<D>, t: Table<D>, entry: Func, b: Block, ctx: Context, k: nat,
                             v: D)
    requires Lawful(a) && Least(pr, a, t, entry) && At(b, ctx) in t && k < |pr.instrs(b)|
    requires AlwaysBefore(pr, a, entry, b, ctx, k, v) && pr.instrs(b)[k].op.Call? && !IsBottom(a, v)
    ensures var f, c := pr.instrs(b)[k].op.callee, a.calleeContext(pr.instrs(b)[k], ctx);
      AlwaysIncluded(pr, a, entry, In(f, c), a.toCallee(pr.instrs(b)[k], ctx, v, Look(a, t, Out(f, c))))
  {
    var ins := pr.instrs(b)[k];
    var f, c := ins.op.callee, a.calleeContext(ins, ctx);
    if Monotone(a) {
      forall z | PostFixpoint(pr, a, z, entry)
        ensures Included(a, z, In(f, c), a.toCallee(ins, ctx, v, Look(a, t, Out(f, c))))
      {
        SolutionIncludes(pr, a, t, z, entry, b, ctx);
        LookBelow(a, t, z, Out(f, c));
        var u := ValueAt(pr, a, z, b, ctx, k);
        assert InstrIncluded(pr, a, z, b, ctx, k) && a.leq(v, u);
        assert !IsBottom(a, u);
      }
    }
  }

  lemma TargetLeast<D(!new)>(pr: Program, a: Analysis<D>, t: Table<D>, entry: Func, b: Block, ctx: Context, k: nat,
                             v: D, target: Block)
    requires Lawful(a) && Least(pr, a, t, entry) && At(b, ctx) in t && k < |pr.instrs(b)|
    requires AlwaysAfter(pr, a, entry, b, ctx, k, v) && target in pr.Targets(pr.instrs(b)[k].exit)
    ensures AlwaysIncluded(pr, a, entry, At(target, a.edge(b, target, ctx)),
                           ToTarget(a, pr.instrs(b)[k], ctx, target, v))
  {
    var ins := pr.instrs(b)[k];
    if Monotone(a) {
      forall z | PostFixpoint(pr, a, z, entry)
        ensures Included(a, z, At(target, a.edge(b, target, ctx)), ToTarget(a, ins, ctx, target, v))
      {
        SolutionIncludes(pr, a, t, z, entry, b, ctx);
        assert InstrIncluded(pr, a, z, b, ctx, k);
        assert TargetIncluded(a, z, b, ins, ctx, target, AfterOp(a, z, ins, ctx, ValueAt(pr, a, z, b, ctx, k)));
      }
    }
  }

  lemma ReturnLeast<D(!new)>(pr: Program, a: Analysis<D>, t: Table<D>, entry: Func, b: Block, ctx: Context, k: nat,
                             v: D)
    requires Lawful(a) && Least(pr, a, t, entry) && At(b, ctx) in t && k < |pr.instrs(b)|
    requires AlwaysAfter(pr, a, entry, b, ctx, k, v) && pr.instrs(b)[k].exit.Return?
    ensures AlwaysIncluded(pr, a, entry, Out(pr.functionOf(b), a.onReturn(pr.functionOf(b), ctx)),
                           a.returning(pr.instrs(b)[k], ctx, v))
  {
    var ins, f := pr.instrs(b)[k], pr.functionOf(b);
    if Monotone(a) {
      forall z | PostFixpoint(pr, a, z, entry)
        ensures Included(a, z, Out(f, a.onReturn(f, ctx)), a.returning(ins, ctx, v))
      {
        SolutionIncludes(pr, a, t, z, entry, b, ctx);
        assert InstrIncluded(pr, a, z, b, ctx, k);
      }
    }
  }

  lemma ExitLeast<D(!new)>(pr: Program, a: Analysis<D>, entry: Func, b: Block, ctx: Context, k: nat, v: D)
    requires Lawful(a) && k < |pr.instrs(b)| && AlwaysAfter(pr, a, entry, b, ctx, k, v)
    ensures AlwaysBefore(pr, a, entry, b, ctx, k + 1, AfterExit(a, pr.instrs(b)[k], ctx, v))
  {}

  lemma FallThroughLeast<D(!new)>(pr: Program, a: Analysis<D>, t: Table<D>, entry: Func, b: Block, ctx: Context, v: D)
    requires Lawful(a) && Least(pr, a, t, entry) && At(b, ctx) in t && pr.layoutSuccessor(b).Some?
    requires AlwaysBefore(pr, a, entry, b, ctx, |pr.instrs(b)|, v)
    ensures var target := pr.layoutSuccessor(b).value;
      AlwaysIncluded(pr, a, entry, At(target, a.edge(b, target, ctx)), a.enter(target, v))
  {
    var target := pr.layoutSuccessor(b).value;
    if Monotone(a) {
      forall z | PostFixpoint(pr, a, z, entry)
        ensures Included(a, z, At(target, a.edge(b, target, ctx)), a.enter(target, v))
      {
        SolutionIncludes(pr, a, t, z, entry, b, ctx);
      }
    }
  }

  /** What has entered a function is in every post-fixpoint at its first block. */
  lemma EntryLeast<D(!new)>(pr: Program, a: Analysis<D>, t: Table<D>, entry: Func, f: Func, c: Context)
    requires Lawful(a) && Least(pr, a, t, entry) && In(f, c) in t
    ensures AlwaysIncluded(pr, a, entry, At(pr.firstBlock(f), OnCall(f, c)), t[In(f, c)])
  {
    if Monotone(a) {
      forall z | PostFixpoint(pr, a, z, entry)
        ensures Included(a, z, At(pr.firstBlock(f), OnCall(f, c)), t[In(f, c)])
      {
        assert Included(a, z, In(f, c), t[In(f, c)]) && EntryClosed(pr, a, z, f, c);
      }
    }
  }

  lemma BlockStartLeast<D(!new)>(pr: Program, a: Analysis<D>, t: Table<D>, entry: Func, b: Block, ctx: Context)
    requires Lawful(a) && Least(pr, a, t, entry) && At(b, ctx) in t
    ensures AlwaysBefore(pr, a, entry, b, ctx, 0, t[At(b, ctx)])
  {
    if Monotone(a) {
      forall z | PostFixpoint(pr, a, z, entry) ensures a.leq(t[At(b, ctx)], ValueAt(pr, a, z, b, ctx, 0)) {
        assert Included(a, z, At(b, ctx), t[At(b, ctx)]);
      }
    }
  }

  lemma StartLeast<D(!new)>(pr: Program, a: Analysis<D>, entry: Func)
    requires Lawful(a)
    ensures Least(pr, a, map[In(entry, []) := a.start], entry)
  {}

  // ---------- The driver object ----------

  class AnalysisDriverInstr<D(==,!new)> {
    const pr: Program
    const a: Analysis<D>
    const entry: Func
    ghost const points: seq<Point>
    var table: Table<D>
    var worklist: set<Item>

    ghost predicate Setup() {
      Lawful(a) && pr.WellFormed() && Universe(pr, a, points, entry)
    }

    ghost predicate Inv(cur: Option<Item>)
      reads this
    {
      && Setup() && Known(pr, a, table, worklist, points, entry) && Accounted(pr, a, table, worklist, cur)
      && Least(pr, a, table, entry)
    }

    /** All is bottom but the entry of the start function, whose first block is waiting. */
    constructor (pr: Program, a: Analysis<D>, entry: Func, ghost points: seq<Point>)
      requires Lawful(a) && pr.WellFormed() && Universe(pr, a, points, entry)
      ensures this.pr == pr && this.a == a && this.entry == entry && Inv(None)
    {
      this.pr, this.a, this.entry, this.points := pr, a, entry, points;
      table := map[In(entry, []) := a.start];
      worklist := {Item(pr.firstBlock(entry), OnCall(entry, []))};
      new;
      assert OnCall(entry, [])[..0] == [];
      StartLeast(pr, a, entry);
    }

    /** Works until nothing is waiting; the tables then are a post-fixpoint, the least one of monotone transfers. */
    method RunAnalysis()
      requires Inv(None)
      modifies this
      ensures PostFixpoint(pr, a, table, entry) && Least(pr, a, table, entry)
    {
      while worklist != {}
        invariant Inv(None)
        decreases Potential(a, table, points), |worklist|
      {
        var item := TakeItem();
        AnalyseBlock(item.b, item.ctx);
      }
    }

    /** Takes any item; a first block takes over what has entered its function. */
    method TakeItem() returns (item: Item)
      requires Inv(None) && worklist != {}
      modifies this
      ensures Inv(Some(item)) && At(item.b, item.ctx) in table
      ensures (table == old(table) && |worklist| < old(|worklist|)) ||
              Potential(a, table, points) < Potential(a, old(table), points)
    {
      ghost var t, w := table, worklist;
      item := AnyOf(worklist);
      var b, ctx := item.b, item.ctx;
      assert item == Item(b, ctx) && EntryContext(pr, table, b, ctx);
      worklist := worklist - {item};
      if pr.IsFirst(b) {
        var newIn := table[In(pr.functionOf(b), ctx[..|ctx| - 1])];
        AddedGrows(a, table, At(b, ctx), newIn, points);
        EntryLeast(pr, a, table, entry, pr.functionOf(b), ctx[..|ctx| - 1]);
        AddedLeast(pr, a, table, entry, At(b, ctx), newIn);
        table := Added(a, table, At(b, ctx), newIn);
      }
      ItemTaken(pr, a, t, table, w, b, ctx);
      TakenKnown(pr, a, t, table, w, b, ctx, points, entry);
    }

    method AnalyseBlock(b: Block, ctx: Context)
      requires Inv(Some(Item(b, ctx))) && At(b, ctx) in table
      modifies this
      ensures Inv(None)
      ensures (table == old(table) && worklist == old(worklist)) ||
              Potential(a, table, points) < Potential(a, old(table), points)
    {
      ghost var t, w := table, worklist;
      var newOut := AnalyseInstructions(b, ctx);
      if pr.layoutSuccessor(b).Some? {
        ghost var t1, w1 := table, worklist;
        var target := pr.layoutSuccessor(b).value;
        assert BlockInUniverse(pr, a, points, b, ctx);
        FallThroughLeast(pr, a, table, entry, b, ctx, newOut);
        PropagateToBlock(target, a.edge(b, target, ctx), a.enter(target, newOut), Some(Item(b, ctx)));
        ProgressKept(pr, a, t1, w1, table, worklist, points, b, ctx, |pr.instrs(b)|, newOut);
        StepsCompose(pr, a, t, w, t1, w1, table, worklist, points);
      }
      BlockDone(pr, a, table, worklist, b, ctx, newOut);
    }

    /** One instruction after the other. */
    method AnalyseInstructions(b: Block, ctx: Context) returns (newOut: D)
      requires Inv(Some(Item(b, ctx))) && At(b, ctx) in table
      modifies this
      ensures Inv(Some(Item(b, ctx))) && Step(pr, a, old(table), old(worklist), table, worklist, points)
      ensures Progressed(pr, a, table, worklist, b, ctx, |pr.instrs(b)|, newOut)
      ensures AlwaysBefore(pr, a, entry, b, ctx, |pr.instrs(b)|, newOut)
    {
      ghost var t, w := table, worklist;
      newOut := table[At(b, ctx)];
      BlockStartLeast(pr, a, table, entry, b, ctx);
      NoStep(pr, a, t, w, points);
      var k := 0;
      while k < |pr.instrs(b)|
        invariant 0 <= k <= |pr.instrs(b)|
        invariant Inv(Some(Item(b, ctx))) && Step(pr, a, t, w, table, worklist, points)
        invariant Progressed(pr, a, table, worklist, b, ctx, k, newOut)
        invariant AlwaysBefore(pr, a, entry, b, ctx, k, newOut)
      {
        ghost var t1, w1 := table, worklist;
        newOut := AnalyseInstruction(b, ctx, k, newOut);
        StepsCompose(pr, a, t, w, t1, w1, table, worklist, points);
        t1, w1 := table, worklist;
        newOut := HandleBranchInstruction(b, ctx, k, newOut);
        StepsCompose(pr, a, t, w, t1, w1, table, worklist, points);
        k := k + 1;
      }
    }

    /** The instruction itself; a call passes its information on to the callee. */
    method AnalyseInstruction(b: Block, ctx: Context, k: nat, v: D) returns (newOut: D)
      requires Inv(Some(Item(b, ctx))) && At(b, ctx) in table && k < |pr.instrs(b)|
      requires Progressed(pr, a, table, worklist, b, ctx, k, v) && AlwaysBefore(pr, a, entry, b, ctx, k, v)
      modifies this
      ensures Inv(Some(Item(b, ctx))) && Step(pr, a, old(table), old(worklist), table, worklist, points)
      ensures OpDone(pr, a, table, worklist, b, ctx, k, newOut) && AlwaysAfter(pr, a, entry, b, ctx, k, newOut)
    {
      var ins := pr.instrs(b)[k];
      newOut := AfterOp(a, table, ins, ctx, v);
      OpLeast(pr, a, table, entry, b, ctx, k, v);
      if ins.op.Call? && !IsBottom(a, v) {
        var f, reduced := ins.op.callee, a.calleeContext(ins, ctx);
        ghost var t, w := table, worklist;
        assert BlockInUniverse(pr, a, points, b, ctx);
        CalleeLeast(pr, a, table, entry, b, ctx, k, v);
        PropagateToCallee(f, reduced, a.toCallee(ins, ctx, v, Look(a, table, Out(f, reduced))), Some(Item(b, ctx)));
        ProgressKept(pr, a, t, w, table, worklist, points, b, ctx, k, v);
      }
    }

    method HandleBranchInstruction(b: Block, ctx: Context, k: nat, v: D) returns (newOut: D)
      requires Inv(Some(Item(b, ctx))) && At(b, ctx) in table && k < |pr.instrs(b)|
      requires OpDone(pr, a, table, worklist, b, ctx, k, v) && AlwaysAfter(pr, a, entry, b, ctx, k, v)
      modifies this
      ensures Inv(Some(Item(b, ctx))) && Step(pr, a, old(table), old(worklist), table, worklist, points)
      ensures Progressed(pr, a, table, worklist, b, ctx, k + 1, newOut)
      ensures AlwaysBefore(pr, a, entry, b, ctx, k + 1, newOut)
    {
      var ins := pr.instrs(b)[k];
      HandleTargets(b, ctx, k, v);
      if ins.exit.Return? {
        ghost var t, w := table, worklist;
        var f := pr.functionOf(b);
        assert BlockInUniverse(pr, a, points, b, ctx);
        ReturnLeast(pr, a, table, entry, b, ctx, k, v);
        PropagateToExit(f, a.onReturn(f, ctx), a.returning(ins, ctx, v), Some(Item(b, ctx)));
        OpDoneKept(pr, a, t, w, table, worklist, points, b, ctx, k, v);
        StepsCompose(pr, a, old(table), old(worklist), t, w, table, worklist, points);
      }
      newOut := AfterExit(a, ins, ctx, v);
      ExitLeast(pr, a, entry, b, ctx, k, v);
      InstrDone(pr, a, table, worklist, b, ctx, k, v);
    }

    /** The value goes to each target of a branch. */
    method HandleTargets(b: Block, ctx: Context, k: nat, v: D)
      requires Inv(Some(Item(b, ctx))) && At(b, ctx) in table && k < |pr.instrs(b)|
      requires OpDone(pr, a, table, worklist, b, ctx, k, v) && AlwaysAfter(pr, a, entry, b, ctx, k, v)
      modifies this
      ensures Inv(Some(Item(b, ctx))) && Step(pr, a, old(table), old(worklist), table, worklist, points)
      ensures OpDone(pr, a, table, worklist, b, ctx, k, v)
      ensures TargetsIncluded(a, table, b, pr.instrs(b)[k], ctx, pr.Targets(pr.instrs(b)[k].exit), v)
    {
      ghost var t, w := table, worklist;
      var targets := pr.Targets(pr.instrs(b)[k].exit);
      NoStep(pr, a, t, w, points);
      var j := 0;
      while j < |targets|
        invariant 0 <= j <= |targets|
        invariant Inv(Some(Item(b, ctx))) && Step(pr, a, t, w, table, worklist, points)
        invariant OpDone(pr, a, table, worklist, b, ctx, k, v)
        invariant TargetsIncluded(a, table, b, pr.instrs(b)[k], ctx, targets[..j], v)
      {
        ghost var t1, w1 := table, worklist;
        HandleTarget(b, ctx, k, v, targets[j]);
        StepsCompose(pr, a, t, w, t1, w1, table, worklist, points);
        NextTarget(a, t1, table, b, pr.instrs(b)[k], ctx, targets, j, v);
        j := j + 1;
      }
      assert targets[..j] == targets;
    }

    method HandleTarget(b: Block, ctx: Context, k: nat, v: D, target: Block)
      requires Inv(Some(Item(b, ctx))) && At(b, ctx) in table && k < |pr.instrs(b)|
      requires OpDone(pr, a, table, worklist, b, ctx, k, v) && target in pr.Targets(pr.instrs(b)[k].exit)
      requires AlwaysAfter(pr, a, entry, b, ctx, k, v)
      modifies this
      ensures Inv(Some(Item(b, ctx))) && Step(pr, a, old(table), old(worklist), table, worklist, points)
      ensures OpDone(pr, a, table, worklist, b, ctx, k, v)
      ensures TargetIncluded(a, table, b, pr.instrs(b)[k], ctx, target, v)
    {
      ghost var t, w := table, worklist;
      assert BlockInUniverse(pr, a, points, b, ctx);
      var toTarget := ToTarget(a, pr.instrs(b)[k], ctx, target, v);
      TargetLeast(pr, a, table, entry, b, ctx, k, v, target);
      PropagateToBlock(target, a.edge(b, target, ctx), toTarget, Some(Item(b, ctx)));
      OpDoneKept(pr, a, t, w, table, worklist, points, b, ctx, k, v);
    }

    /** Joins a value into the table and tells whether this changed anything. */
    method AddContext(p: Point, d: D) returns (changed: bool)
      modifies this`table
      ensures table == Added(a, old(table), p, d) && changed == Changes(a, old(table), p, d)
    {
      changed := Changes(a, table, p, d);
      table := Added(a, table, p, d);
    }

    method PropagateToBlock(b: Block, ctx: Context, d: D, ghost cur: Option<Item>)
      requires Inv(cur) && At(b, ctx) in points && !pr.IsFirst(b) && AlwaysIncluded(pr, a, entry, At(b, ctx), d)
      modifies this
      ensures Inv(cur) && Step(pr, a, old(table), old(worklist), table, worklist, points)
      ensures Included(a, table, At(b, ctx), d)
    {
      ghost var t, w := table, worklist;
      AddedGrows(a, t, At(b, ctx), d, points);
      AddedLeast(pr, a, t, entry, At(b, ctx), d);
      BlockPropagated(pr, a, t, w, b, ctx, d, points);
      var changed := AddContext(At(b, ctx), d);
      if changed {
        worklist := worklist + {Item(b, ctx)};
      }
      StepKeepsAccounts(pr, a, t, w, table, worklist, points, cur);
    }

    method PropagateToCallee(f: Func, c: Context, d: D, ghost cur: Option<Item>)
      requires Inv(cur) && In(f, c) in points && AlwaysIncluded(pr, a, entry, In(f, c), d)
      modifies this
      ensures Inv(cur) && Step(pr, a, old(table), old(worklist), table, worklist, points)
      ensures Included(a, table, In(f, c), d)
    {
      ghost var t, w := table, worklist;
      AddedGrows(a, t, In(f, c), d, points);
      AddedLeast(pr, a, t, entry, In(f, c), d);
      CallPropagated(pr, a, t, w, f, c, d, points);
      CalleeKnown(pr, a, t, w, f, c, d, points, entry);
      var changed := AddContext(In(f, c), d);
      if changed {
        worklist := worklist + {Item(pr.firstBlock(f), OnCall(f, c))};
      }
      StepKeepsAccounts(pr, a, t, w, table, worklist, points, cur);
    }

    /** A changed function exit makes all its callers wait again. */
    method PropagateToExit(f: Func, c: Context, d: D, ghost cur: Option<Item>)
      requires Inv(cur) && Out(f, c) in points && AlwaysIncluded(pr, a, entry, Out(f, c), d)
      modifies this
      ensures Inv(cur) && Step(pr, a, old(table), old(worklist), table, worklist, points)
      ensures Included(a, table, Out(f, c), d)
    {
      ghost var t, w := table, worklist;
      AddedGrows(a, t, Out(f, c), d, points);
      AddedLeast(pr, a, t, entry, Out(f, c), d);
      var changed := AddContext(Out(f, c), d);
      if changed {
        RequeueCallers(f, c);
      }
      ReturnPropagated(pr, a, t, w, worklist, f, c, d, points);
      StepKeepsAccounts(pr, a, t, w, table, worklist, points, cur);
    }

    method RequeueCallers(f: Func, c: Context)
      modifies this`worklist
      ensures forall i :: i in worklist <==> i in old(worklist) || IsCaller(pr, a, table, f, c, i)
    {
      var todo := pr.callSites(f);
      ghost var done: set<CallSite> := {};
      while todo != {}
        invariant done + todo == pr.callSites(f)
        invariant forall i :: i in worklist <==>
          i in old(worklist) || exists s :: s in done && s.b == i.b && CallsIn(pr, a, table, s, c, i.ctx)
      {
        var site := AnyOf(todo);
        RequeueContexts(site, c);
        todo, done := todo - {site}, done + {site};
      }
    }

    /** The known contexts of one callsite that are affected. */
    method RequeueContexts(site: CallSite, c: Context)
      modifies this`worklist
      ensures forall i :: i in worklist <==>
        i in old(worklist) || (i.b == site.b && CallsIn(pr, a, table, site, c, i.ctx))
    {
      var todo := table.Keys;
      while todo != {}
        invariant todo <= table.Keys
        invariant forall i :: i in worklist <==>
          i in old(worklist) || (i.b == site.b && CallsIn(pr, a, table, site, c, i.ctx) && At(site.b, i.ctx) !in todo)
      {
        var p := AnyOf(todo);
        todo := todo - {p};
        if p.At? && p.b == site.b && CallsIn(pr, a, table, site, c, p.ctx) {
          worklist := worklist + {Item(site.b, p.ctx)};
        }
      }
    }
  }

  lemma TakenKnown<D(!new)>(pr: Program, a: Analysis<D>, t: Table<D>, t': Table<D>, w: set<Item>, b: Block,
                            ctx: Context, points: seq<Point>, entry: Func)
    requires Lawful(a) && Known(pr, a, t, w, points, entry) && Item(b, ctx) in w && Grows(a, t, t')
    requires forall p :: p in t' ==> p in t || p == At(b, ctx)
    ensures Known(pr, a, t', w - {Item(b, ctx)}, points, entry)
  {}
}
