/** The tables of the iteration are context trees: one for each block, function entry and function exit. */
module TreeTables {
  import opened Options
  import opened ContextTokens
  import AnalysisDriver
  import opened ContextTree

  type Point = AnalysisDriver.Point

  datatype Key = Block(b: AnalysisDriver.Block) | Entry(f: AnalysisDriver.Func) | Exit(f: AnalysisDriver.Func)

  function KeyOf(p: Point): Key {
    match p case At(b, _) => Block(b) case In(f, _) => Entry(f) case Out(f, _) => Exit(f)
  }

  /** A key without a tree has bottom. */
  type Trees<!D> = map<Key, Tree<D>>

  function TreeAt<D>(trees: Trees<D>, k: Key): Option<Tree<D>> {
    if k in trees then Some(trees[k]) else None
  }

  function DomainOf<D>(a: AnalysisDriver.Analysis<D>): Domain<D> {
    Domain(a.bottom, a.join, a.leq)
  }

  /** The trees hold exactly what is in the table, and no empty inner nodes. */
  ghost predicate Stores<D>(trees: Trees<D>, t: AnalysisDriver.Table<D>) {
    && (forall p: Point :: StoresAt(trees, t, p))
    && forall k :: k in trees ==> WellFormed(trees[k])
  }

  ghost predicate StoresAt<D>(trees: Trees<D>, t: AnalysisDriver.Table<D>, p: Point) {
    LookupRoot(TreeAt(trees, KeyOf(p)), p.ctx) == if p in t then Some(t[p]) else None
  }

  lemma {:induction false} AddFlagAt<D>(a: Domain<D>, t: Tree<D>, ctx: Context, d: D)
    ensures Add(a, t, ctx, d).1 == match Lookup(t, ctx)
                                   case Some(v) => !Equivalent(a, v, a.join(v, d))
                                   case None => true
  {
    if t.Node? && ctx != [] && ctx[0] in t.kids {
      AddFlagAt(a, t.kids[ctx[0]], ctx[1..], d);
    }
  }

  /** Adding to the tree of a point does to the table what the iteration does, with the same report. */
  lemma AddedIsAddContext<D>(a: AnalysisDriver.Analysis<D>, trees: Trees<D>, t: AnalysisDriver.Table<D>, p: Point, d: D)
    requires Stores(trees, t)
    ensures var r := AddRoot(DomainOf(a), TreeAt(trees, KeyOf(p)), p.ctx, d);
      Stores(trees[KeyOf(p) := r.0], AnalysisDriver.Added(a, t, p, d)) && r.1 == AnalysisDriver.Changes(a, t, p, d)
  {
    var root := TreeAt(trees, KeyOf(p));
    var r := AddRoot(DomainOf(a), root, p.ctx, d);
    var trees', t' := trees[KeyOf(p) := r.0], AnalysisDriver.Added(a, t, p, d);
    assert StoresAt(trees, t, p);
    if root.Some? {
      AddFlagAt(DomainOf(a), root.value, p.ctx, d);
    }
    forall q: Point ensures StoresAt(trees', t', q) {
      assert StoresAt(trees, t, q);
      if KeyOf(q) == KeyOf(p) {
        AddRootLookup(DomainOf(a), root, p.ctx, d, q.ctx);
        assert q == p <==> q.ctx == p.ctx;
      }
    }
    AddRootLookup(DomainOf(a), root, p.ctx, d, p.ctx);
  }

  /** The early lookup gives what the iteration reads, unless it meets a context that others extend. */
  lemma LookIsFindEarly<D>(a: AnalysisDriver.Analysis<D>, trees: Trees<D>, t: AnalysisDriver.Table<D>, p: Point)
    requires Stores(trees, t)
    ensures var root := TreeAt(trees, KeyOf(p));
      var found := if root.None? then Found(a.bottom) else FindEarly(DomainOf(a), root.value, p.ctx);
      found == if p !in t && Extended(t, p) then AssertionFails else Found(AnalysisDriver.Look(a, t, p))
  {
    var root := TreeAt(trees, KeyOf(p));
    assert StoresAt(trees, t, p);
    if root.Some? {
      FindEarlyExactly(DomainOf(a), root.value, p.ctx);
    }
    ExtendedInTree(trees, t, p);
  }

  /** The table has information for a longer context at the same place. */
  ghost predicate Extended<D>(t: AnalysisDriver.Table<D>, p: Point) {
    exists q: Point :: q in t && KeyOf(q) == KeyOf(p) && p.ctx < q.ctx
  }

  function WithContext(p: Point, ctx: Context): Point {
    match p
    case At(b, _) => AnalysisDriver.At(b, ctx)
    case In(f, _) => AnalysisDriver.In(f, ctx)
    case Out(f, _) => AnalysisDriver.Out(f, ctx)
  }

  lemma ExtendedInTree<D>(trees: Trees<D>, t: AnalysisDriver.Table<D>, p: Point)
    requires Stores(trees, t)
    ensures Extended(t, p) <==>
      TreeAt(trees, KeyOf(p)).Some? && HasExtension(TreeAt(trees, KeyOf(p)).value, p.ctx)
  {
    var root := TreeAt(trees, KeyOf(p));
    if Extended(t, p) {
      var q: Point :| q in t && KeyOf(q) == KeyOf(p) && p.ctx < q.ctx;
      assert StoresAt(trees, t, q);
    }
    if root.Some? && HasExtension(root.value, p.ctx) {
      var c :| p.ctx < c && Lookup(root.value, c).Some?;
      assert StoresAt(trees, t, WithContext(p, c));
    }
  }
}
