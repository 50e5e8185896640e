/**
 Counting persistence of one cache set: as long as no more blocks than there are ways
 have been accessed, none of them can be evicted again.
 */
module Persistence {
  import opened LruSet
  import opened Options

  // ---------- Executions ----------

  /** An access to a known block, or one that may be to any block or go to another set. */
  datatype Access = Known(tag: Tag) | Anywhere

  datatype History = Start | Then(h: History, a: Access) | Joined(x: History, y: History)

  /** What an access really touched in this set. */
  datatype Touch = Touch(known: bool, block: Option<Tag>)

  predicate Matches(a: Access, x: Touch) {
    match a
    case Known(t) => x == Touch(true, Some(t))
    case Anywhere => !x.known
  }

  ghost predicate PathOf(h: History, w: seq<Touch>) {
    match h
    case Start => w == []
    case Then(h', a) => |w| > 0 && Matches(a, w[|w| - 1]) && PathOf(h', w[..|w| - 1])
    case Joined(x, y) => PathOf(x, w) || PathOf(y, w)
  }

  /** The blocks that were accessed, in order. */
  function Blocks(w: seq<Touch>): seq<Tag> {
    if w == [] then []
    else Blocks(w[..|w| - 1]) + (if w[|w| - 1].block.Some? then [w[|w| - 1].block.value] else [])
  }

  /** How many of the accesses to `t` miss. */
  function Misses(s: seq<Tag>, q: seq<Tag>, t: Tag, assoc: nat): nat
    requires assoc >= 1
  {
    if q == [] then 0
    else
      var before := q[..|q| - 1];
      Misses(s, before, t, assoc) + (if q[|q| - 1] == t && t !in Run(s, before, assoc) then 1 else 0)
  }

  // ---------- Persistence analyses ----------

  /** What the wrapper for scopes needs of an analysis. */
  datatype Analysis<!P> = Analysis(init: P, update: (P, Tag) -> P, potential: P -> P, join: (P, P) -> P)

  function Eval<P>(a: Analysis<P>, h: History): P {
    match h
    case Start => a.init
    case Then(h', Known(t)) => a.update(Eval(a, h'), t)
    case Then(h', Anywhere) => a.potential(Eval(a, h'))
    case Joined(x, y) => a.join(Eval(a, x), Eval(a, y))
  }

  // ---------- Set-wise counting ----------

  /** The blocks accessed so far, or top when there may have been too many. */
  datatype Conflicts = Conflicts(top: bool, blocks: set<Tag>)

  function Fresh(): Conflicts {
    Conflicts(false, {})
  }

  function Top(): Conflicts {
    Conflicts(true, {})
  }

  function Limited(blocks: set<Tag>, assoc: nat): Conflicts {
    if |blocks| > assoc then Top() else Conflicts(false, blocks)
  }

  function Updated(c: Conflicts, t: Tag, assoc: nat): Conflicts {
    if c.top || t in c.blocks then c else Limited(c.blocks + {t}, assoc)
  }

  function PotentiallyUpdated(c: Conflicts): Conflicts {
    if c.top then c else Top()
  }

  function JoinOf(x: Conflicts, y: Conflicts, assoc: nat): Conflicts {
    if x.top || y.top then Top() else Limited(x.blocks + y.blocks, assoc)
  }

  function SetWise(assoc: nat): Analysis<Conflicts> {
    Analysis(Fresh(), (c, t) => Updated(c, t, assoc), c => PotentiallyUpdated(c), (x, y) => JoinOf(x, y, assoc))
  }

  /** All known blocks on any path of the history. */
  function KnownBlocks(h: History): set<Tag> {
    match h
    case Start => {}
    case Then(h', Known(t)) => KnownBlocks(h') + {t}
    case Then(h', Anywhere) => KnownBlocks(h')
    case Joined(x, y) => KnownBlocks(x) + KnownBlocks(y)
  }

  predicate SomewhereUnknown(h: History) {
    match h
    case Start => false
    case Then(h', a) => a.Anywhere? || SomewhereUnknown(h')
    case Joined(x, y) => SomewhereUnknown(x) || SomewhereUnknown(y)
  }

  /** The counting is exact: top exactly if something is unknown or more blocks than ways are known. */
  lemma {:induction false} CountsExactly(h: History, assoc: nat)
    ensures Eval(SetWise(assoc), h).top <==> SomewhereUnknown(h) || |KnownBlocks(h)| > assoc
    ensures Eval(SetWise(assoc), h).blocks == if Eval(SetWise(assoc), h).top then {} else KnownBlocks(h)
  {
    match h
    case Start =>
    case Then(h', a) =>
      CountsExactly(h', assoc);
      SubsetSize(KnownBlocks(h'), KnownBlocks(h));
      if a.Known? && a.tag in KnownBlocks(h') {
        assert KnownBlocks(h') + {a.tag} == KnownBlocks(h');
      }
    case Joined(x, y) =>
      CountsExactly(x, assoc);
      CountsExactly(y, assoc);
      SubsetSize(KnownBlocks(x), KnownBlocks(h));
      SubsetSize(KnownBlocks(y), KnownBlocks(h));
  }

  /** All accesses were to known blocks of the set. */
  ghost predicate Within(w: seq<Touch>, blocks: set<Tag>) {
    forall i :: 0 <= i < |w| ==> w[i].known && w[i].block.Some? && w[i].block.value in blocks
  }

  lemma {:induction false} PathsWithin(h: History, w: seq<Touch>)
    requires PathOf(h, w) && !SomewhereUnknown(h)
    ensures Within(w, KnownBlocks(h))
  {
    match h
    case Start =>
    case Then(h', a) => PathsWithin(h', w[..|w| - 1]);
    case Joined(x, y) =>
      if PathOf(x, w) {
        PathsWithin(x, w);
      } else {
        PathsWithin(y, w);
      }
  }

  lemma {:induction false} BlocksWithin(w: seq<Touch>, blocks: set<Tag>)
    requires Within(w, blocks)
    ensures forall t :: t in Blocks(w) ==> t in blocks
  {
    if w != [] {
      BlocksWithin(w[..|w| - 1], blocks);
    }
  }

  lemma {:induction false} SinceWithin(q: seq<Tag>, t: Tag, blocks: set<Tag>)
    requires forall x :: x in q ==> x in blocks
    ensures Since(q, t) <= blocks - {t}
  {
    if q != [] && q[|q| - 1] != t {
      SinceWithin(q[..|q| - 1], t, blocks);
    }
  }

  /** Among no more blocks than there are ways, an accessed block stays. */
  lemma StaysCached(s: seq<Tag>, q: seq<Tag>, t: Tag, blocks: set<Tag>, assoc: nat)
    requires assoc >= 1 && IsLruSet(s, assoc) && t in q && t in blocks && |blocks| <= assoc
    requires Since(q, t) <= blocks - {t}
    ensures t in Run(s, q, assoc)
  {
    SubsetSize(Since(q, t), blocks - {t});
    AgeBoundedByDistinct(s, q, t, assoc);
    RunStaysLru(s, q, assoc);
    AgesDiffer(Run(s, q, assoc), t, t + 1, assoc);
  }

  lemma {:induction false} MissedOnce(s: seq<Tag>, q: seq<Tag>, t: Tag, blocks: set<Tag>, assoc: nat)
    requires assoc >= 1 && IsLruSet(s, assoc) && |blocks| <= assoc && forall x :: x in q ==> x in blocks
    ensures Misses(s, q, t, assoc) <= 1 && (t !in q ==> Misses(s, q, t, assoc) == 0)
  {
    if q != [] {
      var before := q[..|q| - 1];
      MissedOnce(s, before, t, blocks, assoc);
      if t in before {
        SinceWithin(before, t, blocks);
        StaysCached(s, before, t, blocks, assoc);
      }
    }
  }

  /** While the set is not top, each block missed at most once, whatever was cached at the start. */
  lemma SetWisePersistent(h: History, w: seq<Touch>, s: seq<Tag>, t: Tag, assoc: nat)
    requires assoc >= 1 && IsLruSet(s, assoc) && PathOf(h, w) && !Eval(SetWise(assoc), h).top
    ensures Misses(s, Blocks(w), t, assoc) <= 1
  {
    CountsExactly(h, assoc);
    PathsWithin(h, w);
    BlocksWithin(w, KnownBlocks(h));
    MissedOnce(s, Blocks(w), t, KnownBlocks(h), assoc);
  }

  // ---------- Element-wise counting ----------

  type Elements = map<Tag, Conflicts>

  /** The accessed block starts counting afresh, all others count it as one more conflict. */
  function ElementUpdated(m: Elements, t: Tag, assoc: nat): Elements {
    map u | u in m.Keys + {t} :: Updated(if u == t then Fresh() else m[u], t, assoc)
  }

  function ElementPotential(m: Elements): Elements {
    map u | u in m :: PotentiallyUpdated(m[u])
  }

  function ElementJoin(x: Elements, y: Elements, assoc: nat): Elements {
    map u | u in x.Keys + y.Keys ::
      if u in x && u in y then JoinOf(x[u], y[u], assoc) else if u in x then x[u] else y[u]
  }

  function ElementWise(assoc: nat): Analysis<Elements> {
    Analysis(map[], (m, t) => ElementUpdated(m, t, assoc), m => ElementPotential(m), (x, y) => ElementJoin(x, y, assoc))
  }

  predicate IsPersistent(m: Elements, t: Tag) {
    t in m && !m[t].top
  }

  predicate Seen(w: seq<Touch>, t: Tag) {
    Touch(true, Some(t)) in w
  }

  /** The path from the last known access to `t` on. */
  function FromLast(w: seq<Touch>, t: Tag): seq<Touch> {
    if w == [] then []
    else
      var x := w[|w| - 1];
      if x == Touch(true, Some(t)) then [x] else FromLast(w[..|w| - 1], t) + [x]
  }

  /** What an entry says about one path: it holds all blocks touched since the block itself was. */
  ghost predicate EntryCovers(c: Conflicts, w: seq<Touch>, t: Tag, assoc: nat) {
    !c.top ==> Within(FromLast(w, t), c.blocks) && t in c.blocks && |c.blocks| <= assoc
  }

  ghost predicate ElementsCover(m: Elements, w: seq<Touch>, assoc: nat) {
    forall t :: Seen(w, t) ==> t in m && EntryCovers(m[t], w, t, assoc)
  }

  lemma ElementUpdatedCovers(m: Elements, w: seq<Touch>, t: Tag, assoc: nat)
    requires assoc >= 1 && ElementsCover(m, w, assoc)
    ensures ElementsCover(ElementUpdated(m, t, assoc), w + [Touch(true, Some(t))], assoc)
  {
    var w', m' := w + [Touch(true, Some(t))], ElementUpdated(m, t, assoc);
    assert w'[..|w|] == w;
    forall u | Seen(w', u) ensures u in m' && EntryCovers(m'[u], w', u, assoc) {
      if u != t {
        assert Seen(w, u) && EntryCovers(m[u], w, u, assoc);
      }
    }
  }

  lemma ElementPotentialCovers(m: Elements, w: seq<Touch>, x: Touch, assoc: nat)
    requires ElementsCover(m, w, assoc) && !x.known
    ensures ElementsCover(ElementPotential(m), w + [x], assoc)
  {
    assert (w + [x])[..|w|] == w;
    forall u | Seen(w + [x], u) ensures u in ElementPotential(m) {
      assert Seen(w, u);
    }
  }

  lemma ElementJoinCovers(x: Elements, y: Elements, w: seq<Touch>, assoc: nat)
    requires ElementsCover(x, w, assoc) || ElementsCover(y, w, assoc)
    ensures ElementsCover(ElementJoin(x, y, assoc), w, assoc)
  {}

  lemma {:induction false} ElementsEvalCovers(h: History, w: seq<Touch>, assoc: nat)
    requires assoc >= 1 && PathOf(h, w)
    ensures ElementsCover(Eval(ElementWise(assoc), h), w, assoc)
  {
    match h
    case Start =>
    case Then(h', a) =>
      var w0, x := w[..|w| - 1], w[|w| - 1];
      assert w == w0 + [x];
      ElementsEvalCovers(h', w0, assoc);
      if a.Known? {
        ElementUpdatedCovers(Eval(ElementWise(assoc), h'), w0, a.tag, assoc);
      } else {
        ElementPotentialCovers(Eval(ElementWise(assoc), h'), w0, x, assoc);
      }
    case Joined(x, y) =>
      if PathOf(x, w) {
        ElementsEvalCovers(x, w, assoc);
      } else {
        ElementsEvalCovers(y, w, assoc);
      }
      ElementJoinCovers(Eval(ElementWise(assoc), x), Eval(ElementWise(assoc), y), w, assoc);
  }

  lemma {:induction false} SinceFromLast(w: seq<Touch>, t: Tag, blocks: set<Tag>)
    requires Seen(w, t) && Within(FromLast(w, t), blocks)
    ensures t in Blocks(w) && Since(Blocks(w), t) <= blocks - {t}
  {
    var w0, x := w[..|w| - 1], w[|w| - 1];
    assert w == w0 + [x];
    if x != Touch(true, Some(t)) {
      assert FromLast(w, t)[..|FromLast(w0, t)|] == FromLast(w0, t);
      assert x == FromLast(w, t)[|FromLast(w0, t)|];
      SinceFromLast(w0, t, blocks);
    }
    assert Blocks(w)[..|Blocks(w0)|] == Blocks(w0);
  }

  /**
   An access to a block that is classified persistent is the first known access to it on
   this path, or it hits, whatever was cached at the start.
   */
  lemma ElementWisePersistent(h: History, w: seq<Touch>, s: seq<Tag>, t: Tag, assoc: nat)
    requires assoc >= 1 && IsLruSet(s, assoc) && PathOf(h, w) && IsPersistent(Eval(ElementWise(assoc), h), t)
    ensures Seen(w, t) ==> t in Run(s, Blocks(w), assoc)
  {
    if Seen(w, t) {
      var c := Eval(ElementWise(assoc), h)[t];
      ElementsEvalCovers(h, w, assoc);
      SinceFromLast(w, t, c.blocks);
      StaysCached(s, Blocks(w), t, c.blocks, assoc);
    }
  }

  // ---------- Precision ----------

  lemma {:induction false} SomePath(h: History) returns (w: seq<Touch>)
    ensures PathOf(h, w)
  {
    match h
    case Start => w := [];
    case Then(h', a) =>
      var w0 := SomePath(h');
      w := Extended(h', w0, a);
    case Joined(x, y) => w := SomePath(x);
  }

  /** The access at the end of the path: to its block, or to none if that is unknown. */
  function TouchOf(a: Access): Touch {
    match a case Known(t) => Touch(true, Some(t)) case Anywhere => Touch(false, None)
  }

  lemma Extended(h: History, w: seq<Touch>, a: Access) returns (w': seq<Touch>)
    requires PathOf(h, w)
    ensures w' == w + [TouchOf(a)] && PathOf(Then(h, a), w')
    ensures forall x :: x in w ==> x in w'
    ensures TouchOf(a) in w'
    ensures forall t :: (FromLast(w', t) ==
      if TouchOf(a) == Touch(true, Some(t)) then [TouchOf(a)] else FromLast(w, t) + [TouchOf(a)])
  {
    w' := w + [TouchOf(a)];
    assert w'[..|w|] == w;
  }

  /** An access of the history on a path through it. */
  ghost predicate OnPath(h: History, w: seq<Touch>, x: Touch) {
    PathOf(h, w) && x in w
  }

  lemma {:induction false} KnownOnPath(h: History, t: Tag) returns (w: seq<Touch>)
    requires t in KnownBlocks(h)
    ensures OnPath(h, w, Touch(true, Some(t)))
  {
    match h
    case Start =>
    case Then(h', a) =>
      if a == Known(t) {
        var w0 := SomePath(h');
        w := Extended(h', w0, a);
      } else {
        var w0 := KnownOnPath(h', t);
        w := Extended(h', w0, a);
      }
    case Joined(x, y) =>
      if t in KnownBlocks(x) {
        w := KnownOnPath(x, t);
      } else {
        w := KnownOnPath(y, t);
      }
  }

  lemma {:induction false} UnknownOnPath(h: History) returns (w: seq<Touch>)
    requires SomewhereUnknown(h)
    ensures OnPath(h, w, TouchOf(Anywhere))
  {
    match h
    case Start =>
    case Then(h', a) =>
      if a.Anywhere? {
        var w0 := SomePath(h');
        w := Extended(h', w0, a);
      } else {
        var w0 := UnknownOnPath(h');
        w := Extended(h', w0, a);
      }
    case Joined(x, y) =>
      if SomewhereUnknown(x) {
        w := UnknownOnPath(x);
      } else {
        w := UnknownOnPath(y);
      }
  }

  /** On every path only these blocks are accessed. */
  ghost predicate AllWithin(h: History, blocks: set<Tag>) {
    forall w :: PathOf(h, w) ==> Within(w, blocks)
  }

  /** The set-wise count is not top exactly if no more blocks than there are ways are accessed on all the paths. */
  lemma SetWiseExactly(h: History, assoc: nat)
    ensures !Eval(SetWise(assoc), h).top <==> exists blocks :: |blocks| <= assoc && AllWithin(h, blocks)
  {
    CountsExactly(h, assoc);
    if !Eval(SetWise(assoc), h).top {
      forall w | PathOf(h, w) ensures Within(w, KnownBlocks(h)) {
        PathsWithin(h, w);
      }
      assert AllWithin(h, KnownBlocks(h));
    }
    if blocks :| |blocks| <= assoc && AllWithin(h, blocks) {
      if SomewhereUnknown(h) {
        var w := UnknownOnPath(h);
        assert Within(w, blocks);
      }
      forall t | t in KnownBlocks(h) ensures t in blocks {
        var w := KnownOnPath(h, t);
        assert Within(w, blocks);
      }
      SubsetSize(KnownBlocks(h), blocks);
    }
  }

  /** `t` is accessed on some path. */
  predicate SeenSomewhere(h: History, t: Tag) {
    t in KnownBlocks(h)
  }

  /** The known blocks accessed on some path after the last access to `t`, and `t` itself. */
  function ConflictsOf(h: History, t: Tag): set<Tag> {
    match h
    case Start => {}
    case Then(h', a) =>
      if a == Known(t) then {t}
      else if a.Known? && SeenSomewhere(h', t) then ConflictsOf(h', t) + {a.tag}
      else ConflictsOf(h', t)
    case Joined(x, y) => ConflictsOf(x, t) + ConflictsOf(y, t)
  }

  /** On some path an unknown access follows the last one to `t`. */
  predicate UnknownAfter(h: History, t: Tag) {
    match h
    case Start => false
    case Then(h', a) => if a.Anywhere? then SeenSomewhere(h', t) else a.tag != t && UnknownAfter(h', t)
    case Joined(x, y) => UnknownAfter(x, t) || UnknownAfter(y, t)
  }

  lemma {:induction false} NothingUnseen(h: History, t: Tag)
    requires !SeenSomewhere(h, t)
    ensures ConflictsOf(h, t) == {} && !UnknownAfter(h, t)
  {
    match h
    case Start =>
    case Then(h', a) => NothingUnseen(h', t);
    case Joined(x, y) =>
      NothingUnseen(x, t);
      NothingUnseen(y, t);
  }

  /** What an entry is for: the conflicts of its block, while they are known and not too many. */
  ghost predicate EntryExact(m: Elements, h: History, t: Tag, assoc: nat) {
    && (t in m <==> SeenSomewhere(h, t))
    && (t in m ==>
          && (m[t].top <==> UnknownAfter(h, t) || |ConflictsOf(h, t)| > assoc)
          && m[t].blocks == if m[t].top then {} else ConflictsOf(h, t))
  }

  lemma {:induction false} ElementsExactly(h: History, t: Tag, assoc: nat)
    requires assoc >= 1
    ensures EntryExact(Eval(ElementWise(assoc), h), h, t, assoc)
  {
    match h
    case Start =>
    case Then(h', a) =>
      ElementsExactly(h', t, assoc);
      NothingAdded(h', a, t);
    case Joined(x, y) =>
      ElementsExactly(x, t, assoc);
      ElementsExactly(y, t, assoc);
      JoinedExact(Eval(ElementWise(assoc), x), Eval(ElementWise(assoc), y), x, y, t, assoc);
  }

  lemma NothingAdded(h: History, a: Access, t: Tag)
    ensures a != Known(t) ==> |ConflictsOf(h, t)| <= |ConflictsOf(Then(h, a), t)|
    ensures a.Known? && a.tag in ConflictsOf(h, t) && a.tag != t ==> ConflictsOf(Then(h, a), t) == ConflictsOf(h, t)
    ensures !SeenSomewhere(h, t) ==> ConflictsOf(h, t) == {} && !UnknownAfter(h, t)
  {
    if a != Known(t) {
      SubsetSize(ConflictsOf(h, t), ConflictsOf(Then(h, a), t));
    }
    if !SeenSomewhere(h, t) {
      NothingUnseen(h, t);
    }
  }

  lemma JoinedExact(m: Elements, n: Elements, x: History, y: History, t: Tag, assoc: nat)
    requires EntryExact(m, x, t, assoc) && EntryExact(n, y, t, assoc)
    ensures EntryExact(ElementJoin(m, n, assoc), Joined(x, y), t, assoc)
  {
    var h := Joined(x, y);
    SubsetSize(ConflictsOf(x, t), ConflictsOf(h, t));
    SubsetSize(ConflictsOf(y, t), ConflictsOf(h, t));
    if !SeenSomewhere(x, t) {
      NothingUnseen(x, t);
      assert ConflictsOf(h, t) == ConflictsOf(y, t);
    }
    if !SeenSomewhere(y, t) {
      NothingUnseen(y, t);
      assert ConflictsOf(h, t) == ConflictsOf(x, t);
    }
  }

  /** A path on which `x` comes after the last access to `t`, or is that access. */
  ghost predicate After(h: History, w: seq<Touch>, t: Tag, x: Touch) {
    PathOf(h, w) && Seen(w, t) && x in FromLast(w, t)
  }

  lemma AfterExtended(h: History, w: seq<Touch>, a: Access, t: Tag, x: Touch) returns (w': seq<Touch>)
    requires PathOf(h, w) && Seen(w, t) && (x in FromLast(w, t) || x == TouchOf(a)) && a != Known(t)
    ensures After(Then(h, a), w', t, x)
  {
    w' := Extended(h, w, a);
  }

  lemma {:induction false} ConflictOnPath(h: History, t: Tag, c: Tag) returns (w: seq<Touch>)
    requires c in ConflictsOf(h, t)
    ensures After(h, w, t, Touch(true, Some(c)))
  {
    match h
    case Start =>
    case Then(h', a) =>
      if a == Known(t) {
        var w0 := SomePath(h');
        w := Extended(h', w0, a);
      } else if c in ConflictsOf(h', t) {
        var w0 := ConflictOnPath(h', t, c);
        w := AfterExtended(h', w0, a, t, Touch(true, Some(c)));
      } else {
        var w0 := KnownOnPath(h', t);
        w := AfterExtended(h', w0, a, t, Touch(true, Some(c)));
      }
    case Joined(x, y) =>
      if c in ConflictsOf(x, t) {
        w := ConflictOnPath(x, t, c);
      } else {
        w := ConflictOnPath(y, t, c);
      }
  }

  lemma {:induction false} UnknownAfterOnPath(h: History, t: Tag) returns (w: seq<Touch>)
    requires UnknownAfter(h, t)
    ensures After(h, w, t, TouchOf(Anywhere))
  {
    match h
    case Start =>
    case Then(h', a) =>
      if a.Anywhere? {
        var w0 := KnownOnPath(h', t);
        w := AfterExtended(h', w0, a, t, TouchOf(Anywhere));
      } else {
        var w0 := UnknownAfterOnPath(h', t);
        w := AfterExtended(h', w0, a, t, TouchOf(Anywhere));
      }
    case Joined(x, y) =>
      if UnknownAfter(x, t) {
        w := UnknownAfterOnPath(x, t);
      } else {
        w := UnknownAfterOnPath(y, t);
      }
  }

  /** On every path with an access to `t` only these blocks are accessed from the last one on. */
  ghost predicate AllWithinSince(h: History, t: Tag, blocks: set<Tag>) {
    forall w :: PathOf(h, w) && Seen(w, t) ==> Within(FromLast(w, t), blocks)
  }

  /**
   A block is classified persistent exactly if it is accessed on some path, and on all paths with an
   access to it no more blocks than there are ways, itself included, follow the last one.
   */
  lemma ElementWiseExactly(h: History, t: Tag, assoc: nat)
    requires assoc >= 1
    ensures IsPersistent(Eval(ElementWise(assoc), h), t) <==>
      (exists w :: PathOf(h, w) && Seen(w, t)) && exists blocks :: |blocks| <= assoc && AllWithinSince(h, t, blocks)
  {
    var m := Eval(ElementWise(assoc), h);
    ElementsExactly(h, t, assoc);
    if IsPersistent(m, t) {
      var w0 := KnownOnPath(h, t);
      assert PathOf(h, w0) && Seen(w0, t);
      forall w | PathOf(h, w) && Seen(w, t) ensures Within(FromLast(w, t), m[t].blocks) {
        ElementsEvalCovers(h, w, assoc);
      }
      assert AllWithinSince(h, t, m[t].blocks);
    }
    if w, blocks :| PathOf(h, w) && Seen(w, t) && |blocks| <= assoc && AllWithinSince(h, t, blocks) {
      ElementsEvalCovers(h, w, assoc);
      FewConflicts(h, t, blocks);
    }
  }

  lemma FewConflicts(h: History, t: Tag, blocks: set<Tag>)
    requires AllWithinSince(h, t, blocks)
    ensures !UnknownAfter(h, t) && |ConflictsOf(h, t)| <= |blocks|
  {
    if UnknownAfter(h, t) {
      var w := UnknownAfterOnPath(h, t);
    }
    forall c | c in ConflictsOf(h, t) ensures c in blocks {
      var w := ConflictOnPath(h, t, c);
      assert Within(FromLast(w, t), blocks);
    }
    SubsetSize(ConflictsOf(h, t), blocks);
  }

  // ---------- The joins ----------

  /** The order is that of the joins: below means that joining changes nothing. */
  ghost predicate Leq(x: Conflicts, y: Conflicts, assoc: nat) {
    JoinOf(x, y, assoc) == y
  }

  ghost predicate Canonical(c: Conflicts, assoc: nat) {
    if c.top then c.blocks == {} else |c.blocks| <= assoc
  }

  lemma LeqExactly(x: Conflicts, y: Conflicts, assoc: nat)
    requires Canonical(x, assoc) && Canonical(y, assoc)
    ensures Leq(x, y, assoc) <==> y.top || (!x.top && x.blocks <= y.blocks)
  {
    if x.blocks - y.blocks == {} {
      forall t: Tag | t in x.blocks ensures t in y.blocks {
        assert t !in x.blocks - y.blocks;
      }
      assert x.blocks + y.blocks == y.blocks;
    } else {
      var t := SomeOf(x.blocks - y.blocks);
      assert t in x.blocks + y.blocks;
    }
  }

  lemma JoinIsLub(x: Conflicts, y: Conflicts, z: Conflicts, assoc: nat)
    requires Canonical(x, assoc) && Canonical(y, assoc) && Canonical(z, assoc)
    ensures Canonical(JoinOf(x, y, assoc), assoc)
    ensures Leq(x, JoinOf(x, y, assoc), assoc) && Leq(y, JoinOf(x, y, assoc), assoc)
    ensures Leq(x, z, assoc) && Leq(y, z, assoc) ==> Leq(JoinOf(x, y, assoc), z, assoc)
    ensures Leq(x, y, assoc) && Leq(y, x, assoc) ==> x == y
    ensures Leq(x, y, assoc) && Leq(y, z, assoc) ==> Leq(x, z, assoc)
  {
    var u := x.blocks + y.blocks;
    assert x.blocks + u == u && y.blocks + u == u && u + z.blocks == x.blocks + (y.blocks + z.blocks);
    if Leq(x, z, assoc) && Leq(y, z, assoc) && !z.top {
      assert u + z.blocks == z.blocks;
      SubsetSize(u, z.blocks);
    }
    assert x.blocks + y.blocks == y.blocks + x.blocks;
  }

  // ---------- The analysis objects ----------

  class SetWiseCountingPersistence {
    const assoc: nat
    var top: bool
    var accessedBlocks: set<Tag>

    ghost function View(): Conflicts
      reads this
    {
      Conflicts(top, accessedBlocks)
    }

    /** At top nothing is stored, below no more than fits. */
    ghost predicate Valid()
      reads this
    {
      Canonical(View(), assoc)
    }

    constructor (assoc: nat)
      ensures Valid() && this.assoc == assoc && !top && accessedBlocks == {}
    {
      this.assoc := assoc;
      top, accessedBlocks := false, {};
    }

    method GotoTop()
      modifies this
      ensures top && accessedBlocks == {}
    {
      top := true;
      accessedBlocks := {};
    }

    method Update(t: Tag)
      requires Valid()
      modifies this
      ensures Valid() && View() == Updated(old(View()), t, assoc)
      ensures top <==> old(top) || |old(accessedBlocks) + {t}| > assoc
      ensures accessedBlocks == if top then {} else old(accessedBlocks) + {t}
    {
      if top {
        return;
      }
      var inserted := t !in accessedBlocks;
      assert !inserted ==> accessedBlocks + {t} == accessedBlocks;
      accessedBlocks := accessedBlocks + {t};
      if inserted && |accessedBlocks| > assoc {
        GotoTop();
      }
    }

    method PotentialUpdate()
      requires Valid()
      modifies this
      ensures Valid() && View() == PotentiallyUpdated(old(View()))
      ensures top && accessedBlocks == {}
    {
      if !top {
        GotoTop();
      }
    }

    method Join(y: SetWiseCountingPersistence)
      requires Valid() && y.Valid() && y.assoc == assoc
      modifies this
      ensures Valid() && View() == JoinOf(old(View()), old(y.View()), assoc)
      ensures top <==> old(top) || old(y.top) || |old(accessedBlocks) + old(y.accessedBlocks)| > assoc
      ensures accessedBlocks == if top then {} else old(accessedBlocks) + old(y.accessedBlocks)
    {
      if top || y.top {
        GotoTop();
        return;
      }
      accessedBlocks := accessedBlocks + y.accessedBlocks;
      if |accessedBlocks| > assoc {
        GotoTop();
      }
    }

    method LessEqual(y: SetWiseCountingPersistence) returns (r: bool)
      requires Valid() && y.Valid() && y.assoc == assoc
      ensures r == (JoinOf(View(), y.View(), assoc) == y.View())
      ensures r <==> y.top || (!top && accessedBlocks <= y.accessedBlocks)
    {
      var copy := new SetWiseCountingPersistence(assoc);
      copy.top, copy.accessedBlocks := top, accessedBlocks;
      copy.Join(y);
      r := copy.top == y.top && copy.accessedBlocks == y.accessedBlocks;
      LeqExactly(View(), y.View(), assoc);
    }
  }

  /** The entries are values of the map, as the source stores them. */
  class ElementWiseCountingPersistence {
    const assoc: nat
    var ele2conflicts: Elements

    constructor (assoc: nat)
      ensures this.assoc == assoc && ele2conflicts == map[]
    {
      this.assoc := assoc;
      ele2conflicts := map[];
    }

    method Update(t: Tag)
      modifies this
      ensures ele2conflicts == ElementUpdated(old(ele2conflicts), t, assoc)
    {
      ghost var was := ele2conflicts[t := Fresh()];
      ele2conflicts := ele2conflicts[t := Fresh()];
      var todo := ele2conflicts.Keys;
      while todo != {}
        invariant todo <= ele2conflicts.Keys == was.Keys
        invariant forall u :: u in was ==> ele2conflicts[u] == if u in todo then was[u] else Updated(was[u], t, assoc)
      {
        var u := AnyOf(todo);
        todo := todo - {u};
        ele2conflicts := ele2conflicts[u := Updated(ele2conflicts[u], t, assoc)];
      }
      SameMap(ele2conflicts, ElementUpdated(old(ele2conflicts), t, assoc));
    }

    method PotentialUpdate()
      modifies this
      ensures ele2conflicts == ElementPotential(old(ele2conflicts))
    {
      ghost var was := ele2conflicts;
      var todo := ele2conflicts.Keys;
      while todo != {}
        invariant todo <= ele2conflicts.Keys == was.Keys
        invariant forall u :: u in was ==> ele2conflicts[u] == if u in todo then was[u] else PotentiallyUpdated(was[u])
      {
        var u := AnyOf(todo);
        todo := todo - {u};
        ele2conflicts := ele2conflicts[u := PotentiallyUpdated(ele2conflicts[u])];
      }
      SameMap(ele2conflicts, ElementPotential(was));
    }

    /** First the entries both sides have are joined, then those only the other side has are added. */
    method Join(y: ElementWiseCountingPersistence)
      requires y != this
      modifies this
      ensures ele2conflicts == ElementJoin(old(ele2conflicts), y.ele2conflicts, assoc)
    {
      ghost var was, other := ele2conflicts, y.ele2conflicts;
      JoinCommon(y);
      var todo := y.ele2conflicts.Keys;
      while todo != {}
        invariant todo <= other.Keys && y.ele2conflicts == other
        invariant forall u :: u in ele2conflicts <==> u in was || (u in other && u !in todo)
        invariant forall u :: u in ele2conflicts ==> ele2conflicts[u] == ElementJoin(was, other, assoc)[u]
      {
        var u := AnyOf(todo);
        todo := todo - {u};
        if u !in ele2conflicts {
          ele2conflicts := ele2conflicts[u := y.ele2conflicts[u]];
        }
      }
      SameMap(ele2conflicts, ElementJoin(was, other, assoc));
    }

    method JoinCommon(y: ElementWiseCountingPersistence)
      requires y != this
      modifies this
      ensures ele2conflicts.Keys == old(ele2conflicts).Keys
      ensures forall u :: u in ele2conflicts ==>
        ele2conflicts[u] == ElementJoin(old(ele2conflicts), y.ele2conflicts, assoc)[u]
    {
      ghost var was := ele2conflicts;
      var todo := ele2conflicts.Keys;
      while todo != {}
        invariant todo <= ele2conflicts.Keys == was.Keys && y.ele2conflicts == old(y.ele2conflicts)
        invariant forall u :: u in was ==>
          ele2conflicts[u] == if u in todo then was[u] else ElementJoin(was, y.ele2conflicts, assoc)[u]
      {
        var u := AnyOf(todo);
        todo := todo - {u};
        if u in y.ele2conflicts {
          ele2conflicts := ele2conflicts[u := JoinOf(ele2conflicts[u], y.ele2conflicts[u], assoc)];
        }
      }
    }
  }
}
