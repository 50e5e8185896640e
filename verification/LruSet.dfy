/**
 The concrete cache set every abstract domain is measured against: one set of an
 LRU cache of associativity `assoc`, as the duplicate-free sequence of its tags,
 most recently used first. A tag's age is its position; a tag that is not cached
 has age `assoc`.
 */
module LruSet {

  type Tag = int

  ghost predicate IsLruSet(s: seq<Tag>, assoc: nat) {
    && |s| <= assoc
    && forall i, j :: 0 <= i < j < |s| ==> s[i] != s[j]
  }

  /** The first position of `t`, or |s| when it does not occur. */
  function IndexOf(s: seq<Tag>, t: Tag): (i: nat)
    ensures i <= |s|
    ensures i < |s| ==> s[i] == t
    ensures forall j :: 0 <= j < i ==> s[j] != t
  {
    if s == [] || s[0] == t then 0 else 1 + IndexOf(s[1..], t)
  }

  function Age(s: seq<Tag>, t: Tag, assoc: nat): nat {
    if t in s then IndexOf(s, t) else assoc
  }

  /** One access: the tag moves to the front; on a miss in a full set the oldest leaves. */
  function Access(s: seq<Tag>, t: Tag, assoc: nat): seq<Tag>
    requires assoc >= 1
  {
    var i := IndexOf(s, t);
    if i < |s| then [t] + s[..i] + s[i + 1..]
    else if |s| >= assoc then [t] + s[..assoc - 1]
    else [t] + s
  }

  /** The accesses of `w`, first to last. */
  function Run(s: seq<Tag>, w: seq<Tag>, assoc: nat): seq<Tag>
    requires assoc >= 1
  {
    if w == [] then s else Access(Run(s, w[..|w| - 1], assoc), w[|w| - 1], assoc)
  }

  /** How an age reacts to an access of something whose age is `accessed`. */
  function Aged(age: nat, accessed: nat): nat {
    if age < accessed then age + 1 else age
  }

  lemma AgeAt(s: seq<Tag>, i: nat, assoc: nat)
    requires IsLruSet(s, assoc) && i < |s|
    ensures Age(s, s[i], assoc) == i
  {}

  lemma AgesDiffer(s: seq<Tag>, t: Tag, u: Tag, assoc: nat)
    requires IsLruSet(s, assoc) && t != u
    ensures Age(s, t, assoc) <= assoc
    ensures Age(s, t, assoc) == Age(s, u, assoc) ==> Age(s, t, assoc) == assoc
    ensures t in s <==> Age(s, t, assoc) < assoc
  {}

  lemma AccessStaysLru(s: seq<Tag>, t: Tag, assoc: nat)
    requires assoc >= 1 && IsLruSet(s, assoc)
    ensures IsLruSet(Access(s, t, assoc), assoc)
  {}

  /** The law all age reasoning rests on: exactly the younger blocks age, by one. */
  lemma AccessAges(s: seq<Tag>, t: Tag, assoc: nat)
    requires assoc >= 1 && IsLruSet(s, assoc)
    ensures IsLruSet(Access(s, t, assoc), assoc)
    ensures Age(Access(s, t, assoc), t, assoc) == 0
    ensures forall u :: u != t ==>
      Age(Access(s, t, assoc), u, assoc) == Aged(Age(s, u, assoc), Age(s, t, assoc))
  {
    AccessStaysLru(s, t, assoc);
    var s' := Access(s, t, assoc);
    AgeAt(s', 0, assoc);
    forall u | u != t
      ensures Age(s', u, assoc) == Aged(Age(s, u, assoc), Age(s, t, assoc))
    {
      if u in s {
        var k := IndexOf(s, u);
        var i := IndexOf(s, t);
        if k < i && k + 1 < assoc {
          assert s'[k + 1] == u;
          AgeAt(s', k + 1, assoc);
        } else if k > i {
          assert s'[k] == u;
          AgeAt(s', k, assoc);
        } else {
          assert u !in s';
        }
      }
    }
  }

  lemma SeqSetSize(q: seq<Tag>)
    ensures |set x | x in q| <= |q|
  {
    if q != [] {
      SeqSetSize(q[1..]);
      assert (set x | x in q) == (set x | x in q[1..]) + {q[0]};
    }
  }

  /** Pigeonhole: at most `k` tags are younger than `k`. */
  lemma YoungerThan(s: seq<Tag>, tags: set<Tag>, k: nat, assoc: nat)
    requires IsLruSet(s, assoc) && k <= assoc
    requires forall u :: u in tags ==> Age(s, u, assoc) < k
    ensures |tags| <= k
  {
    var m := if k < |s| then k else |s|;
    SeqSetSize(s[..m]);
    forall u | u in tags ensures u in s[..m] {
      AgesDiffer(s, u, u + 1, assoc);
      assert s[..m][IndexOf(s, u)] == u;
    }
    SubsetSize(tags, set x | x in s[..m]);
  }

  lemma SubsetSize<T>(a: set<T>, b: set<T>)
    requires a <= b
    ensures |a| <= |b|
    ensures |a| == |b| ==> a == b
  {
    assert b == a + (b - a);
  }

  lemma SameTagSet(a: set<Tag>, b: set<Tag>)
    requires forall u :: u in a <==> u in b
    ensures a == b
  {
    forall u: Tag | u in a ensures u in b {}
    forall u: Tag | u in b ensures u in a {}
  }

  lemma SameMap<V>(a: map<Tag, V>, b: map<Tag, V>)
    requires forall u :: u in a <==> u in b
    requires forall u :: u in a && u in b ==> a[u] == b[u]
    ensures a == b
  {
    forall u: Tag | u in a ensures u in b && a[u] == b[u] {}
    forall u: Tag | u in b ensures u in a {}
  }

  /** Some element of a set: the order in which a set or map is walked is left open. */
  method AnyOf<T(==)>(s: set<T>) returns (t: T)
    requires s != {}
    ensures t in s
  {
    t :| t in s;
  }

  ghost function SomeOf<T>(s: set<T>): (t: T)
    requires s != {}
    ensures t in s
  {
    var t :| t in s; t
  }

  lemma {:induction false} AboveAll(s: set<Tag>) returns (n: Tag)
    ensures n >= 0 && forall t :: t in s ==> t < n
  {
    if s == {} {
      n := 0;
    } else {
      var t := SomeOf(s);
      var m := AboveAll(s - {t});
      n := if m > t then m else t + 1;
      forall x | x in s ensures x < n {
        assert x == t || x in s - {t};
      }
    }
  }

  function TagSet(q: seq<Tag>): set<Tag> {
    set x | x in q
  }

  lemma NewTag(used: set<Tag>) returns (x: Tag)
    ensures x !in used
  {
    x := AboveAll(used);
  }

  /** The distinct tags accessed in `w` after the last access of `u`. */
  function Since(w: seq<Tag>, u: Tag): set<Tag> {
    if w == [] || w[|w| - 1] == u then {}
    else Since(w[..|w| - 1], u) + {w[|w| - 1]}
  }

  lemma SinceAppend(w: seq<Tag>, t: Tag, u: Tag)
    ensures Since(w + [t], u) == if t == u then {} else Since(w, u) + {t}
  {
    assert (w + [t])[..|w|] == w;
  }

  lemma RunStaysLru(s: seq<Tag>, w: seq<Tag>, assoc: nat)
    requires assoc >= 1 && IsLruSet(s, assoc)
    ensures IsLruSet(Run(s, w, assoc), assoc)
  {
    if w != [] {
      RunStaysLru(s, w[..|w| - 1], assoc);
      AccessStaysLru(Run(s, w[..|w| - 1], assoc), w[|w| - 1], assoc);
    }
  }

  /**
   A block that was accessed stays cached as long as fewer than `assoc` other
   blocks were accessed since, and its age never exceeds their number.
   */
  lemma {:induction false} AgeBoundedByDistinct(s: seq<Tag>, w: seq<Tag>, u: Tag, assoc: nat)
    requires assoc >= 1 && IsLruSet(s, assoc)
    requires u in w || Age(s, u, assoc) == 0
    ensures Age(Run(s, w, assoc), u, assoc) <= |Since(w, u)|
    ensures Age(Run(s, w, assoc), u, assoc) < assoc ==>
      forall x :: x in Since(w, u) ==> Age(Run(s, w, assoc), x, assoc) < Age(Run(s, w, assoc), u, assoc)
  {
    if w != [] {
      var w', t := w[..|w| - 1], w[|w| - 1];
      var r := Run(s, w', assoc);
      RunStaysLru(s, w', assoc);
      AccessAges(r, t, assoc);
      if t != u {
        assert u in w ==> u in w';
        AgeBoundedByDistinct(s, w', u, assoc);
        AgesDiffer(r, t, u, assoc);
        if t in Since(w', u) {
          assert Since(w, u) == Since(w', u);
        } else {
          assert |Since(w, u)| == |Since(w', u)| + 1;
        }
      }
    }
  }

  /** A block is gone once `assoc` other blocks were accessed since its own last access. */
  lemma EvictedByDistinct(s: seq<Tag>, w: seq<Tag>, u: Tag, assoc: nat)
    requires assoc >= 1 && IsLruSet(s, assoc) && u in w && |Since(w, u)| >= assoc
    ensures u !in Run(s, w, assoc)
  {
    var end := Run(s, w, assoc);
    RunStaysLru(s, w, assoc);
    AgesDiffer(end, u, u + 1, assoc);
    AgeBoundedByDistinct(s, w, u, assoc);
    if Age(end, u, assoc) < assoc {
      YoungerThan(end, Since(w, u), Age(end, u, assoc), assoc);
    }
  }
}
