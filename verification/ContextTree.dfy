/**
 Analysis information per context, stored as a tree whose edges carry context tokens. The
 tree stands for a finite map from contexts to information; no tree at all is bottom.
 */
module ContextTree {
  import opened LruSet
  import opened Options
  import opened ContextTokens

  datatype Domain<!D> = Domain(bottom: D, join: (D, D) -> D, leq: (D, D) -> bool)

  /** A join semilattice with a least element. */
  ghost predicate Lawful<D(!new)>(a: Domain<D>) {
    && (forall x :: a.leq(x, x) && a.leq(a.bottom, x))
    && (forall x, y :: a.leq(x, y) && a.leq(y, x) ==> x == y)
    && (forall x, y, z :: a.leq(x, y) && a.leq(y, z) ==> a.leq(x, z))
    && (forall x, y, z :: a.leq(a.join(x, y), z) <==> a.leq(x, z) && a.leq(y, z))
  }

  /** An inner node may hold information for its own context: the child under the label NONE. */
  datatype Tree<D> = Leaf(v: D) | Node(none: Option<D>, kids: map<Token, Tree<D>>)

  function Lookup<D>(t: Tree<D>, ctx: Context): Option<D> {
    match t
    case Leaf(v) => if ctx == [] then Some(v) else None
    case Node(none, kids) =>
      if ctx == [] then none else if ctx[0] in kids then Lookup(kids[ctx[0]], ctx[1..]) else None
  }

  function LookupRoot<D>(r: Option<Tree<D>>, ctx: Context): Option<D> {
    if r.None? then None else Lookup(r.value, ctx)
  }

  /** The contexts there is information for. */
  function Contexts<D>(t: Tree<D>): set<Context> {
    match t
    case Leaf(_) => {[]}
    case Node(none, kids) =>
      (if none.Some? then {[]} else {}) + set tok, c | tok in kids && c in Contexts(kids[tok]) :: [tok] + c
  }

  /** No inner node is empty. */
  ghost predicate WellFormed<D>(t: Tree<D>) {
    t.Node? ==> (t.none.Some? || t.kids.Keys != {}) && forall tok :: tok in t.kids ==> WellFormed(t.kids[tok])
  }

  lemma {:induction false} ContextsAreLookups<D>(t: Tree<D>, ctx: Context)
    ensures ctx in Contexts(t) <==> Lookup(t, ctx).Some?
  {
    if t.Node? && ctx != [] {
      assert ctx == [ctx[0]] + ctx[1..];
      if ctx[0] in t.kids {
        ContextsAreLookups(t.kids[ctx[0]], ctx[1..]);
      }
      if ctx in Contexts(t) {
        var tok, c :| tok in t.kids && c in Contexts(t.kids[tok]) && ctx == [tok] + c;
        assert tok == ctx[0] && c == ctx[1..];
      }
    }
  }

  // ---------- Adding information ----------

  function MakePath<D>(ctx: Context, d: D): Tree<D> {
    if ctx == [] then Leaf(d) else Node(None, map[ctx[0] := MakePath(ctx[1..], d)])
  }

  predicate Equivalent<D>(a: Domain<D>, x: D, y: D) {
    a.leq(x, y) && a.leq(y, x)
  }

  /** The tree with the information added, and whether this changed anything. */
  function Add<D>(a: Domain<D>, t: Tree<D>, ctx: Context, d: D): (Tree<D>, bool) {
    match t
    case Leaf(v) =>
      if ctx == [] then (Leaf(a.join(v, d)), !Equivalent(a, v, a.join(v, d)))
      else (Node(Some(v), map[ctx[0] := MakePath(ctx[1..], d)]), true)
    case Node(none, kids) =>
      if ctx == [] then
        if none.None? then (Node(Some(d), kids), true)
        else (Node(Some(a.join(none.value, d)), kids), !Equivalent(a, none.value, a.join(none.value, d)))
      else if ctx[0] !in kids then (Node(none, kids[ctx[0] := MakePath(ctx[1..], d)]), true)
      else
        var sub := Add(a, kids[ctx[0]], ctx[1..], d);
        (Node(none, kids[ctx[0] := sub.0]), sub.1)
  }

  function AddRoot<D>(a: Domain<D>, r: Option<Tree<D>>, ctx: Context, d: D): (Tree<D>, bool) {
    if r.None? then (MakePath(ctx, d), true) else Add(a, r.value, ctx, d)
  }

  /** What joining means for an entry that may be missing. */
  function JoinOption<D>(a: Domain<D>, x: Option<D>, y: Option<D>): Option<D> {
    if x.None? then y else if y.None? then x else Some(a.join(x.value, y.value))
  }

  lemma {:induction false} PathLookup<D>(ctx: Context, d: D, c: Context)
    ensures Lookup(MakePath(ctx, d), c) == if c == ctx then Some(d) else None
    ensures WellFormed(MakePath(ctx, d))
  {
    if ctx != [] {
      PathLookup(ctx[1..], d, if c == [] then [] else c[1..]);
      assert ctx == [ctx[0]] + ctx[1..];
      assert c != [] ==> c == [c[0]] + c[1..];
      assert ctx[0] in MakePath(ctx, d).kids;
    }
  }

  lemma {:induction false} AddLookup<D>(a: Domain<D>, t: Tree<D>, ctx: Context, d: D, c: Context)
    ensures Lookup(Add(a, t, ctx, d).0, c) == if c == ctx then JoinOption(a, Lookup(t, ctx), Some(d)) else Lookup(t, c)
    ensures WellFormed(t) ==> WellFormed(Add(a, t, ctx, d).0)
  {
    if ctx != [] {
      var rest := if c == [] then [] else c[1..];
      assert ctx == [ctx[0]] + ctx[1..];
      assert c != [] ==> c == [c[0]] + rest;
      if t.Node? && ctx[0] in t.kids {
        AddLookup(a, t.kids[ctx[0]], ctx[1..], d, rest);
      } else {
        PathLookup(ctx[1..], d, rest);
      }
      assert ctx[0] in Add(a, t, ctx, d).0.kids;
    }
  }

  /** Adding joins at exactly the given context, and a leaf that is pushed down keeps its own. */
  lemma AddRootLookup<D>(a: Domain<D>, r: Option<Tree<D>>, ctx: Context, d: D, c: Context)
    ensures Lookup(AddRoot(a, r, ctx, d).0, c) ==
      if c == ctx then JoinOption(a, LookupRoot(r, ctx), Some(d)) else LookupRoot(r, c)
    ensures (r.Some? ==> WellFormed(r.value)) ==> WellFormed(AddRoot(a, r, ctx, d).0)
  {
    PathLookup(ctx, d, c);
    if r.Some? {
      AddLookup(a, r.value, ctx, d, c);
    }
  }

  lemma {:induction false} AddFlag<D(!new)>(a: Domain<D>, t: Tree<D>, ctx: Context, d: D)
    requires Lawful(a)
    ensures Add(a, t, ctx, d).1 <==> JoinOption(a, Lookup(t, ctx), Some(d)) != Lookup(t, ctx)
  {
    if t.Node? && ctx != [] && ctx[0] in t.kids {
      AddFlag(a, t.kids[ctx[0]], ctx[1..], d);
    }
  }

  /** The flag tells exactly whether the map from contexts to information has changed. */
  lemma AddReportsChange<D(!new)>(a: Domain<D>, r: Option<Tree<D>>, ctx: Context, d: D)
    requires Lawful(a)
    ensures AddRoot(a, r, ctx, d).1 <==> exists c :: Lookup(AddRoot(a, r, ctx, d).0, c) != LookupRoot(r, c)
  {
    var t := AddRoot(a, r, ctx, d).0;
    forall c ensures Lookup(t, c) == if c == ctx then JoinOption(a, LookupRoot(r, ctx), Some(d)) else LookupRoot(r, c) {
      AddRootLookup(a, r, ctx, d, c);
    }
    if r.Some? {
      AddFlag(a, r.value, ctx, d);
    }
    assert Lookup(t, ctx) != LookupRoot(r, ctx) ==> exists c :: Lookup(t, c) != LookupRoot(r, c);
  }

  // ---------- Finding information early ----------

  /** A lookup while the tree is still growing: bottom for what is not there yet. */
  datatype Outcome<D> = Found(d: D) | AssertionFails

  function FindEarly<D>(a: Domain<D>, t: Tree<D>, ctx: Context): Outcome<D> {
    match t
    case Leaf(v) => if ctx == [] then Found(v) else Found(a.bottom)
    case Node(none, kids) =>
      if ctx == [] then (if none.Some? then Found(none.value) else AssertionFails)
      else if ctx[0] in kids then FindEarly(a, kids[ctx[0]], ctx[1..])
      else Found(a.bottom)
  }

  lemma {:induction false} SomeContext<D>(t: Tree<D>) returns (c: Context)
    requires WellFormed(t)
    ensures Lookup(t, c).Some? && (t.Node? && t.none.None? ==> c != [])
  {
    if t.Leaf? || t.none.Some? {
      c := [];
    } else {
      var tok := SomeOf(t.kids.Keys);
      var rest := SomeContext(t.kids[tok]);
      c := [tok] + rest;
    }
  }

  /** Some longer context than this one has information. */
  ghost predicate HasExtension<D>(t: Tree<D>, ctx: Context) {
    exists c :: ctx < c && Lookup(t, c).Some?
  }

  lemma ExtensionBelow<D>(t: Tree<D>, ctx: Context)
    requires t.Node? && ctx != []
    ensures HasExtension(t, ctx) <==> ctx[0] in t.kids && HasExtension(t.kids[ctx[0]], ctx[1..])
  {
    if HasExtension(t, ctx) {
      var c :| ctx < c && Lookup(t, c).Some?;
      assert c[0] == ctx[0] && ctx[1..] < c[1..];
      assert Lookup(t.kids[ctx[0]], c[1..]).Some?;
    }
    if ctx[0] in t.kids && HasExtension(t.kids[ctx[0]], ctx[1..]) {
      var c :| ctx[1..] < c && Lookup(t.kids[ctx[0]], c).Some?;
      var longer := [ctx[0]] + c;
      assert longer[1..] == c && ctx == [ctx[0]] + ctx[1..];
      assert ctx < longer && Lookup(t, longer).Some?;
    }
  }

  /** Missing information is bottom; the assertion fails exactly for contexts others extend. */
  lemma {:induction false} FindEarlyExactly<D>(a: Domain<D>, t: Tree<D>, ctx: Context)
    requires WellFormed(t)
    ensures FindEarly(a, t, ctx) == match Lookup(t, ctx)
                                    case Some(d) => Found(d)
                                    case None => if HasExtension(t, ctx) then AssertionFails else Found(a.bottom)
  {
    if t.Leaf? {
    } else if ctx == [] {
      if t.none.None? {
        var c := SomeContext(t);
        assert ctx < c;
      }
    } else {
      ExtensionBelow(t, ctx);
      if ctx[0] in t.kids {
        FindEarlyExactly(a, t.kids[ctx[0]], ctx[1..]);
      }
    }
  }

  // ---------- Taking a backedge ----------

  predicate IsLoopToken(tok: Token, loop: nat) {
    (tok.Peel? || tok.Iter?) && tok.loop == loop
  }

  function Taken(tok: Token): nat {
    match tok case Peel(_, k) => k case Iter(_, k) => k case _ => 0
  }

  predicate LeafAt<D>(kids: map<Token, Tree<D>>, tok: Token) {
    tok in kids && kids[tok].Leaf?
  }

  /** The assertions of the shift: a loop leaf is a leaf, and so is the one of the iteration before. */
  predicate LoopLeaf<D>(kids: map<Token, Tree<D>>, tok: Token) {
    LeafAt(kids, tok) && (Taken(tok) > 0 ==> LeafAt(kids, Peel(tok.loop, Taken(tok) - 1)))
  }

  ghost predicate CanShift<D>(t: Tree<D>, loop: nat) {
    t.Node? ==> forall tok :: tok in t.kids ==>
      if IsLoopToken(tok, loop) then LoopLeaf(t.kids, tok) else CanShift(t.kids[tok], loop)
  }

  function LeafValue<D>(a: Domain<D>, kids: map<Token, Tree<D>>, tok: Token): D {
    if LeafAt(kids, tok) then kids[tok].v else a.bottom
  }

  /** The new information of a loop leaf: that of one iteration before. */
  function ShiftedValue<D>(a: Domain<D>, kids: map<Token, Tree<D>>, tok: Token): D
    requires LoopLeaf(kids, tok) && (tok.Peel? || tok.Iter?)
  {
    match tok
    case Peel(loop, k) => if k == 0 then a.bottom else kids[Peel(loop, k - 1)].v
    case Iter(loop, k) => if k == 0 then kids[tok].v else a.join(kids[tok].v, kids[Peel(loop, k - 1)].v)
  }

  function TransferEdge<D>(a: Domain<D>, t: Tree<D>, loop: nat): Tree<D>
    requires CanShift(t, loop)
  {
    match t
    case Leaf(_) => t
    case Node(none, kids) =>
      Node(none, map tok | tok in kids ::
        if IsLoopToken(tok, loop) then Leaf(ShiftedValue(a, kids, tok)) else TransferEdge(a, kids[tok], loop))
  }

  /** A loop whose first `n` iterations are kept apart, and the rest together. */
  ghost predicate IsPeeled<D>(kids: map<Token, Tree<D>>, loop: nat, n: nat) {
    && LeafAt(kids, Iter(loop, n))
    && (forall k: nat :: k < n ==> LeafAt(kids, Peel(loop, k)))
    && (forall k: nat :: Peel(loop, k) in kids ==> k < n)
    && (forall k: nat :: Iter(loop, k) in kids ==> k == n)
  }

  /** The join of the leaves of the first `k` iterations. */
  function JoinPeels<D>(a: Domain<D>, kids: map<Token, Tree<D>>, loop: nat, k: nat): D {
    if k == 0 then a.bottom else a.join(JoinPeels(a, kids, loop, k - 1), LeafValue(a, kids, Peel(loop, k - 1)))
  }

  /** The join of all leaves of the loop. */
  function JoinLoop<D>(a: Domain<D>, kids: map<Token, Tree<D>>, loop: nat, n: nat): D {
    a.join(JoinPeels(a, kids, loop, n), LeafValue(a, kids, Iter(loop, n)))
  }

  ghost predicate PeelsBelow<D>(a: Domain<D>, kids: map<Token, Tree<D>>, loop: nat, k: nat, z: D) {
    forall i: nat :: i < k ==> a.leq(LeafValue(a, kids, Peel(loop, i)), z)
  }

  lemma {:induction false} PeelsAreBelow<D(!new)>(a: Domain<D>, kids: map<Token, Tree<D>>, loop: nat, k: nat, z: D)
    requires Lawful(a)
    ensures a.leq(JoinPeels(a, kids, loop, k), z) <==> PeelsBelow(a, kids, loop, k, z)
  {
    if k > 0 {
      PeelsAreBelow(a, kids, loop, k - 1, z);
    }
  }

  /** The join of a loop is below exactly what all its leaves are below. */
  lemma LoopIsBelow<D(!new)>(a: Domain<D>, kids: map<Token, Tree<D>>, loop: nat, n: nat, z: D)
    requires Lawful(a)
    ensures a.leq(JoinLoop(a, kids, loop, n), z) <==>
      PeelsBelow(a, kids, loop, n, z) && a.leq(LeafValue(a, kids, Iter(loop, n)), z)
  {
    PeelsAreBelow(a, kids, loop, n, z);
  }

  /** What the leaf of iteration `k` gets. */
  function PeelBefore<D>(a: Domain<D>, kids: map<Token, Tree<D>>, loop: nat, k: nat): D {
    if k == 0 then a.bottom else LeafValue(a, kids, Peel(loop, k - 1))
  }

  /** The loop leaves of `kids'` are those of `kids` one iteration later. */
  ghost predicate OneIterationOn<D>(a: Domain<D>, kids: map<Token, Tree<D>>, kids': map<Token, Tree<D>>, loop: nat,
                                    n: nat)
  {
    && (forall k: nat :: k < n ==> LeafValue(a, kids', Peel(loop, k)) == PeelBefore(a, kids, loop, k))
    && var last := LeafValue(a, kids, Iter(loop, n));
       LeafValue(a, kids', Iter(loop, n)) == if n == 0 then last else a.join(last, PeelBefore(a, kids, loop, n))
  }

  /** Both loops have the same upper bounds. */
  lemma ShiftKeepsBounds<D(!new)>(a: Domain<D>, kids: map<Token, Tree<D>>, kids': map<Token, Tree<D>>, loop: nat,
                                  n: nat, z: D)
    requires Lawful(a) && OneIterationOn(a, kids, kids', loop, n)
    ensures a.leq(JoinLoop(a, kids, loop, n), z) <==> a.leq(JoinLoop(a, kids', loop, n), z)
  {
    LoopIsBelow(a, kids, loop, n, z);
    LoopIsBelow(a, kids', loop, n, z);
    if a.leq(JoinLoop(a, kids', loop, n), z) {
      forall i: nat | i < n ensures a.leq(LeafValue(a, kids, Peel(loop, i)), z) {
        if i + 1 < n {
          assert a.leq(LeafValue(a, kids', Peel(loop, i + 1)), z);
        }
      }
    }
    if a.leq(JoinLoop(a, kids, loop, n), z) {
      forall i: nat | i < n ensures a.leq(LeafValue(a, kids', Peel(loop, i)), z) {
        assert LeafValue(a, kids', Peel(loop, i)) == PeelBefore(a, kids, loop, i);
        assert a.leq(a.bottom, z) && (i > 0 ==> a.leq(LeafValue(a, kids, Peel(loop, i - 1)), z));
      }
    }
  }

  /** The path does not go through the loop. */
  ghost predicate Outside(path: Context, loop: nat) {
    forall i :: 0 <= i < |path| ==> !OfLoop(path[i], loop)
  }

  ghost predicate OfLoop(tok: Token, loop: nat) {
    exists k :: tok == Peel(loop, k) || tok == Iter(loop, k)
  }

  lemma LoopTokens(tok: Token, loop: nat)
    ensures IsLoopToken(tok, loop) <==> OfLoop(tok, loop)
  {
    if IsLoopToken(tok, loop) {
      assert tok == Peel(loop, Taken(tok)) || tok == Iter(loop, Taken(tok));
    }
  }

  /** Wherever the loop is entered, its first iterations are kept apart and the rest together. */
  ghost predicate AllPeeled<D>(t: Tree<D>, loop: nat) {
    forall path :: OnPath(t, path) && Outside(path, loop) ==> PeeledAt(SubtreeAt(t, path), loop)
  }

  ghost predicate PeeledAt<D>(t: Tree<D>, loop: nat) {
    t.Node? ==>
      || (forall tok :: tok in t.kids ==> !OfLoop(tok, loop))
      || exists n :: IsPeeled(t.kids, loop, n)
  }

  /** In such trees the assertions of the shift hold. */
  lemma {:induction false} PeeledCanShift<D>(t: Tree<D>, loop: nat)
    requires AllPeeled(t, loop)
    ensures CanShift(t, loop)
    decreases t
  {
    assert OnPath(t, []) && SubtreeAt(t, []) == t && PeeledAt(t, loop);
    if t.Node? {
      forall tok | tok in t.kids
        ensures if IsLoopToken(tok, loop) then LoopLeaf(t.kids, tok) else CanShift(t.kids[tok], loop)
      {
        LoopTokens(tok, loop);
        if !IsLoopToken(tok, loop) {
          PeeledBelow(t, tok, loop);
          PeeledCanShift(t.kids[tok], loop);
        }
      }
    }
  }

  lemma PeeledBelow<D>(t: Tree<D>, tok: Token, loop: nat)
    requires AllPeeled(t, loop) && t.Node? && tok in t.kids && !OfLoop(tok, loop)
    ensures AllPeeled(t.kids[tok], loop)
  {
    forall path | OnPath(t.kids[tok], path) && Outside(path, loop)
      ensures PeeledAt(SubtreeAt(t.kids[tok], path), loop)
    {
      var longer := [tok] + path;
      assert longer[1..] == path;
      assert OnPath(t, longer) && Outside(longer, loop) && SubtreeAt(t, longer) == SubtreeAt(t.kids[tok], path);
    }
  }

  /** The transfer works on every subtree outside of the loop on its own. */
  lemma {:induction false} TransferBelow<D>(a: Domain<D>, t: Tree<D>, path: Context, loop: nat)
    requires CanShift(t, loop) && OnPath(t, path) && Outside(path, loop)
    ensures CanShift(SubtreeAt(t, path), loop) && OnPath(TransferEdge(a, t, loop), path)
    ensures SubtreeAt(TransferEdge(a, t, loop), path) == TransferEdge(a, SubtreeAt(t, path), loop)
  {
    if path != [] {
      LoopTokens(path[0], loop);
      TransferBelow(a, t.kids[path[0]], path[1..], loop);
    }
  }

  /**
   Taking a backedge moves the information of a loop one iteration on and loses none of it,
   below every path on which the loop is entered.
   */
  lemma BackedgeKeepsJoin<D(!new)>(a: Domain<D>, t: Tree<D>, path: Context, loop: nat, n: nat)
    requires Lawful(a) && CanShift(t, loop) && OnPath(t, path) && Outside(path, loop)
    requires SubtreeAt(t, path).Node? && IsPeeled(SubtreeAt(t, path).kids, loop, n)
    ensures OnPath(TransferEdge(a, t, loop), path)
    ensures var pos, pos' := SubtreeAt(t, path), SubtreeAt(TransferEdge(a, t, loop), path);
      && pos'.Node? && pos'.none == pos.none && pos'.kids.Keys == pos.kids.Keys && IsPeeled(pos'.kids, loop, n)
      && OneIterationOn(a, pos.kids, pos'.kids, loop, n)
      && JoinLoop(a, pos'.kids, loop, n) == JoinLoop(a, pos.kids, loop, n)
  {
    TransferBelow(a, t, path, loop);
    ShiftedHere(a, SubtreeAt(t, path), loop, n);
  }

  lemma ShiftedHere<D(!new)>(a: Domain<D>, t: Tree<D>, loop: nat, n: nat)
    requires Lawful(a) && CanShift(t, loop) && t.Node? && IsPeeled(t.kids, loop, n)
    ensures var t' := TransferEdge(a, t, loop);
      && t'.Node? && t'.none == t.none && t'.kids.Keys == t.kids.Keys && IsPeeled(t'.kids, loop, n)
      && OneIterationOn(a, t.kids, t'.kids, loop, n)
      && JoinLoop(a, t'.kids, loop, n) == JoinLoop(a, t.kids, loop, n)
  {
    var kids, kids' := t.kids, TransferEdge(a, t, loop).kids;
    assert kids'.Keys == kids.Keys;
    forall tok ensures Shifts(a, kids, kids', tok, loop) {}
    ShiftedLeaves(a, kids, kids', loop, n);
    ShiftKeepsJoin(a, kids, kids', loop, n);
  }

  lemma ShiftKeepsJoin<D(!new)>(a: Domain<D>, kids: map<Token, Tree<D>>, kids': map<Token, Tree<D>>, loop: nat, n: nat)
    requires Lawful(a) && OneIterationOn(a, kids, kids', loop, n)
    ensures JoinLoop(a, kids', loop, n) == JoinLoop(a, kids, loop, n)
  {
    var x, y := JoinLoop(a, kids, loop, n), JoinLoop(a, kids', loop, n);
    ShiftKeepsBounds(a, kids, kids', loop, n, x);
    ShiftKeepsBounds(a, kids, kids', loop, n, y);
    assert a.leq(x, x) && a.leq(y, y);
  }

  lemma ShiftedLeaves<D>(a: Domain<D>, kids: map<Token, Tree<D>>, kids': map<Token, Tree<D>>, loop: nat, n: nat)
    requires IsPeeled(kids, loop, n) && kids'.Keys == kids.Keys
    requires forall tok :: Shifts(a, kids, kids', tok, loop)
    ensures IsPeeled(kids', loop, n) && OneIterationOn(a, kids, kids', loop, n)
  {
    forall k: nat | k < n
      ensures LeafAt(kids', Peel(loop, k)) && LeafValue(a, kids', Peel(loop, k)) == PeelBefore(a, kids, loop, k)
    {
      assert LeafAt(kids, Peel(loop, k));
      ShiftedPeel(a, kids, kids', loop, k);
    }
    ShiftedIter(a, kids, kids', loop, n);
  }

  lemma ShiftedPeel<D>(a: Domain<D>, kids: map<Token, Tree<D>>, kids': map<Token, Tree<D>>, loop: nat, k: nat)
    requires LeafAt(kids, Peel(loop, k)) && Shifts(a, kids, kids', Peel(loop, k), loop)
    ensures LeafAt(kids', Peel(loop, k)) && LeafValue(a, kids', Peel(loop, k)) == PeelBefore(a, kids, loop, k)
  {}

  lemma ShiftedIter<D>(a: Domain<D>, kids: map<Token, Tree<D>>, kids': map<Token, Tree<D>>, loop: nat, n: nat)
    requires LeafAt(kids, Iter(loop, n)) && Shifts(a, kids, kids', Iter(loop, n), loop)
    ensures LeafAt(kids', Iter(loop, n))
    ensures var last := LeafValue(a, kids, Iter(loop, n));
      LeafValue(a, kids', Iter(loop, n)) == if n == 0 then last else a.join(last, PeelBefore(a, kids, loop, n))
  {}

  /** What the transfer does to one loop leaf. */
  ghost predicate Shifts<D>(a: Domain<D>, kids: map<Token, Tree<D>>, kids': map<Token, Tree<D>>, tok: Token,
                            loop: nat)
  {
    tok in kids && IsLoopToken(tok, loop) ==>
      LoopLeaf(kids, tok) && tok in kids' && kids'[tok] == Leaf(ShiftedValue(a, kids, tok))
  }

  /** Every other leaf keeps its information. */
  lemma {:induction false} OtherLeavesKept<D>(a: Domain<D>, t: Tree<D>, loop: nat, ctx: Context)
    requires CanShift(t, loop) && Outside(ctx, loop)
    ensures Lookup(TransferEdge(a, t, loop), ctx) == Lookup(t, ctx)
  {
    if t.Node? && ctx != [] && ctx[0] in t.kids {
      LoopTokens(ctx[0], loop);
      OtherLeavesKept(a, t.kids[ctx[0]], loop, ctx[1..]);
    }
  }

  // ---------- Descending in a tree ----------

  predicate OnPath<D>(t: Tree<D>, path: Context) {
    path == [] || (t.Node? && path[0] in t.kids && OnPath(t.kids[path[0]], path[1..]))
  }

  function SubtreeAt<D>(t: Tree<D>, path: Context): Tree<D>
    requires OnPath(t, path)
  {
    if path == [] then t else SubtreeAt(t.kids[path[0]], path[1..])
  }

  function ReplaceAt<D>(t: Tree<D>, path: Context, sub: Tree<D>): Tree<D>
    requires OnPath(t, path)
  {
    if path == [] then sub else Node(t.none, t.kids[path[0] := ReplaceAt(t.kids[path[0]], path[1..], sub)])
  }

  /** Replacing a child of the subtree at a path, or replacing the subtree one step further on. */
  lemma {:induction false} OneDeeper<D>(t: Tree<D>, path: Context, tok: Token, sub: Tree<D>)
    requires OnPath(t, path) && SubtreeAt(t, path).Node? && tok in SubtreeAt(t, path).kids
    ensures OnPath(t, path + [tok]) && SubtreeAt(t, path + [tok]) == SubtreeAt(t, path).kids[tok]
    ensures var pos := SubtreeAt(t, path);
      ReplaceAt(t, path + [tok], sub) == ReplaceAt(t, path, Node(pos.none, pos.kids[tok := sub]))
  {
    if path == [] {
      assert [] + [tok] == [tok] && [tok][1..] == [];
    } else {
      assert (path + [tok])[1..] == path[1..] + [tok];
      OneDeeper(t.kids[path[0]], path[1..], tok, sub);
    }
  }

  /** Adding at a path is adding the rest of the path in the subtree there. */
  ghost predicate AddedBelow<D>(a: Domain<D>, t: Tree<D>, ctx: Context, d: D, i: nat, pos: Tree<D>) {
    && i <= |ctx| && OnPath(t, ctx[..i]) && pos == SubtreeAt(t, ctx[..i])
    && Add(a, t, ctx, d) == (ReplaceAt(t, ctx[..i], Add(a, pos, ctx[i..], d).0), Add(a, pos, ctx[i..], d).1)
  }

  lemma Descend<D>(a: Domain<D>, t: Tree<D>, ctx: Context, d: D, i: nat, pos: Tree<D>)
    requires AddedBelow(a, t, ctx, d, i, pos) && pos.Node? && i < |ctx| && ctx[i] in pos.kids
    ensures AddedBelow(a, t, ctx, d, i + 1, pos.kids[ctx[i]])
  {
    var sub := Add(a, pos.kids[ctx[i]], ctx[i + 1..], d);
    assert ctx[i..][1..] == ctx[i + 1..] && ctx[..i + 1] == ctx[..i] + [ctx[i]];
    OneDeeper(t, ctx[..i], ctx[i], sub.0);
  }

  /** In the middle of a join: the contexts of `todo` are still those of `x`. */
  ghost predicate JoinedBut<D>(a: Domain<D>, x: Option<Tree<D>>, y: Option<Tree<D>>, t: Option<Tree<D>>,
                               todo: set<Context>, c: Context)
  {
    LookupRoot(t, c) == if c in todo then LookupRoot(x, c) else JoinOption(a, LookupRoot(x, c), LookupRoot(y, c))
  }

  // ---------- The domain element ----------

  /** The tree is a value here: writing at a position in it rebuilds the path to that position. */
  class PartitioningDomain<D> {
    const a: Domain<D>
    var tree: Option<Tree<D>>

    constructor (a: Domain<D>)
      ensures this.a == a && tree == None
    {
      this.a := a;
      tree := None;
    }

    method AddContext(ctx: Context, d: D) returns (changed: bool)
      modifies this
      ensures tree == Some(AddRoot(a, old(tree), ctx, d).0) && changed == AddRoot(a, old(tree), ctx, d).1
    {
      if tree.None? {
        tree := Some(MakePath(ctx, d));
        return true;
      }
      var root, pos, i := tree.value, tree.value, 0;
      assert ctx[..0] == [] && ctx[0..] == ctx;
      while pos.Node? && i < |ctx| && ctx[i] in pos.kids
        invariant AddedBelow(a, root, ctx, d, i, pos)
        invariant tree == old(tree)
        decreases |ctx| - i
      {
        Descend(a, root, ctx, d, i, pos);
        pos, i := pos.kids[ctx[i]], i + 1;
      }
      var sub: Tree<D>;
      match pos {
        case Leaf(v) =>
          if i == |ctx| {
            sub, changed := Leaf(a.join(v, d)), !Equivalent(a, v, a.join(v, d));
          } else {
            sub, changed := Node(Some(v), map[ctx[i] := MakePath(ctx[i + 1..], d)]), true;
          }
        case Node(none, kids) =>
          if i == |ctx| {
            if none.None? {
              sub, changed := Node(Some(d), kids), true;
            } else {
              sub := Node(Some(a.join(none.value, d)), kids);
              changed := !Equivalent(a, none.value, a.join(none.value, d));
            }
          } else {
            sub, changed := Node(none, kids[ctx[i] := MakePath(ctx[i + 1..], d)]), true;
          }
      }
      assert i < |ctx| ==> ctx[i..][1..] == ctx[i + 1..];
      assert (sub, changed) == Add(a, pos, ctx[i..], d);
      tree := Some(ReplaceAt(root, ctx[..i], sub));
    }

    method FindAnalysisInfoEarly(ctx: Context) returns (r: Outcome<D>)
      ensures r == if tree.None? then Found(a.bottom) else FindEarly(a, tree.value, ctx)
    {
      if tree.None? {
        return Found(a.bottom);
      }
      var pos, i := tree.value, 0;
      assert ctx[0..] == ctx;
      while pos.Node?
        invariant i <= |ctx| && FindEarly(a, tree.value, ctx) == FindEarly(a, pos, ctx[i..])
        decreases |ctx| - i
      {
        if i == |ctx| {
          return if pos.none.Some? then Found(pos.none.value) else AssertionFails;
        }
        if ctx[i] !in pos.kids {
          return Found(a.bottom);
        }
        assert ctx[i..][1..] == ctx[i + 1..];
        pos, i := pos.kids[ctx[i]], i + 1;
      }
      return if i < |ctx| then Found(a.bottom) else Found(pos.v);
    }

    /** Adds the information of each context of the other tree: the join is pointwise. */
    method Join(y: PartitioningDomain<D>)
      requires y != this
      modifies this
      ensures forall c :: LookupRoot(tree, c) == JoinOption(a, old(LookupRoot(tree, c)), LookupRoot(y.tree, c))
    {
      if y.tree.None? {
        return;
      }
      if tree.None? {
        tree := y.tree;
        return;
      }
      ghost var x := tree;
      var todo := Contexts(y.tree.value);
      forall c ensures c in todo <==> LookupRoot(y.tree, c).Some? {
        ContextsAreLookups(y.tree.value, c);
      }
      while todo != {}
        invariant y.tree == old(y.tree) && todo <= Contexts(y.tree.value)
        invariant forall c :: JoinedBut(a, x, y.tree, tree, todo, c)
      {
        var ctx := AnyOf(todo);
        ContextsAreLookups(y.tree.value, ctx);
        assert JoinedBut(a, x, y.tree, tree, todo, ctx);
        ghost var before := tree;
        var d := Lookup(y.tree.value, ctx).value;
        var _ := AddContext(ctx, d);
        forall c ensures JoinedBut(a, x, y.tree, tree, todo - {ctx}, c) {
          assert JoinedBut(a, x, y.tree, before, todo, c);
          AddRootLookup(a, before, ctx, d, c);
        }
        todo := todo - {ctx};
      }
      forall c ensures LookupRoot(tree, c) == JoinOption(a, LookupRoot(x, c), LookupRoot(y.tree, c)) {
        assert JoinedBut(a, x, y.tree, tree, todo, c);
      }
    }
  }
}
