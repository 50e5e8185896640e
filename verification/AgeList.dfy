/**
 Age bounds as the analyses store them: a list of (tag, age) entries, strictly
 increasing by age and then by tag. Such a list is the unique representation of
 a finite map from tags to ages.
 */
module AgeList {
  import opened LruSet

  type Bounds = map<Tag, nat>

  datatype Entry = Entry(tag: Tag, age: nat)

  predicate Less(x: Entry, y: Entry) {
    x.age < y.age || (x.age == y.age && x.tag < y.tag)
  }

  ghost predicate Sorted(es: seq<Entry>) {
    forall i, j :: 0 <= i < j < |es| ==> Less(es[i], es[j])
  }

  /** `es` lists exactly the bindings of `b`. */
  ghost predicate Lists(es: seq<Entry>, b: Bounds) {
    forall e: Entry :: e in es <==> e.tag in b && b[e.tag] == e.age
  }

  lemma TagsDiffer(es: seq<Entry>, b: Bounds)
    requires Sorted(es) && Lists(es, b)
    ensures forall i, j :: 0 <= i < j < |es| ==> es[i].tag != es[j].tag
  {
    forall i, j | 0 <= i < j < |es| ensures es[i].tag != es[j].tag {
      assert es[i] in es && es[j] in es;
    }
  }

  lemma KeysListed(es: seq<Entry>, b: Bounds)
    requires Lists(es, b)
    ensures b.Keys == set e | e in es :: e.tag
  {
    forall t | t in b ensures t in set e | e in es :: e.tag {
      assert Entry(t, b[t]) in es;
    }
  }

  lemma ListSize(es: seq<Entry>, b: Bounds)
    requires Sorted(es) && Lists(es, b)
    ensures |es| == |b|
  {
    if es == [] {
      KeysListed(es, b);
    } else {
      TagsDiffer(es, b);
      var rest, b' := es[1..], b - {es[0].tag};
      assert es[0] in es;
      forall e: Entry ensures e in rest <==> e.tag in b' && b'[e.tag] == e.age {
        if e in rest { assert e in es; }
        if e in es && e.tag != es[0].tag { assert e in rest; }
      }
      ListSize(rest, b');
      assert b.Keys == b'.Keys + {es[0].tag};
    }
  }

  lemma Inhabited<T>(s: seq<T>)
    ensures s == [] || exists e :: e in s
  {
    if s != [] {
      assert s[0] in s;
    }
  }

  /** The representation is canonical: equal bounds, equal lists. */
  lemma {:induction false} ListUnique(x: seq<Entry>, y: seq<Entry>)
    requires Sorted(x) && Sorted(y)
    requires forall e :: e in x <==> e in y
    ensures x == y
  {
    if x == [] {
      Inhabited(y);
    } else {
      assert x[0] in x;
      assert y[0] in y;
      assert x[0] == y[0];
      forall e ensures e in x[1..] <==> e in y[1..] {
        if e in x[1..] { assert e in x; }
        if e in y[1..] { assert e in y; }
      }
      ListUnique(x[1..], y[1..]);
    }
  }

  function AgedEntry(e: Entry, accessed: nat): Entry {
    Entry(e.tag, Aged(e.age, accessed))
  }

  /** Insertion of one entry in front of a sorted list, into its proper place. */
  function Insert(e: Entry, rest: seq<Entry>): (r: seq<Entry>)
    ensures |r| == |rest| + 1
  {
    if rest == [] || Less(e, rest[0]) then [e] + rest else [rest[0]] + Insert(e, rest[1..])
  }

  /** The insertion that stops behind `j` smaller entries. */
  lemma {:induction false} InsertAt(e: Entry, rest: seq<Entry>, j: nat)
    requires j <= |rest| && forall k :: 0 <= k < j ==> !Less(e, rest[k])
    requires j < |rest| ==> Less(e, rest[j])
    ensures Insert(e, rest) == rest[..j] + [e] + rest[j..]
  {
    if j > 0 {
      var tail := rest[1..];
      assert !Less(e, rest[0]);
      assert forall k :: 0 <= k < j - 1 ==> tail[k] == rest[k + 1];
      InsertAt(e, tail, j - 1);
      assert rest[..j] == [rest[0]] + tail[..j - 1] && rest[j..] == tail[j - 1..];
    }
  }

  lemma {:induction false} InsertContents(e: Entry, rest: seq<Entry>)
    ensures forall f :: f in Insert(e, rest) <==> f == e || f in rest
  {
    if !(rest == [] || Less(e, rest[0])) {
      InsertContents(e, rest[1..]);
      assert rest == [rest[0]] + rest[1..];
    }
  }

  lemma {:induction false} InsertSorted(e: Entry, rest: seq<Entry>)
    requires Sorted(rest) && forall i :: 0 <= i < |rest| ==> rest[i].tag != e.tag
    ensures Sorted(Insert(e, rest))
  {
    if rest == [] || Less(e, rest[0]) {
    } else {
      InsertSorted(e, rest[1..]);
      InsertContents(e, rest[1..]);
      var tail := Insert(e, rest[1..]);
      forall j | 0 <= j < |tail| ensures Less(rest[0], tail[j]) {
        assert tail[j] in tail;
      }
    }
  }

  /** Every entry younger than `accessed` ages by one; the result is sorted again. */
  function AgeAll(es: seq<Entry>, accessed: nat): (r: seq<Entry>)
    ensures |r| == |es|
  {
    if es == [] then [] else Insert(AgedEntry(es[0], accessed), AgeAll(es[1..], accessed))
  }

  lemma {:induction false} AgeAllContents(es: seq<Entry>, accessed: nat)
    requires Sorted(es) && forall i, j :: 0 <= i < j < |es| ==> es[i].tag != es[j].tag
    ensures Sorted(AgeAll(es, accessed))
    ensures forall f :: f in AgeAll(es, accessed) <==> exists e :: e in es && f == AgedEntry(e, accessed)
  {
    if es != [] {
      var e, tail := AgedEntry(es[0], accessed), AgeAll(es[1..], accessed);
      AgeAllContents(es[1..], accessed);
      InsertContents(e, tail);
      forall i | 0 <= i < |tail| ensures tail[i].tag != e.tag {
        assert tail[i] in tail;
      }
      InsertSorted(e, tail);
      forall f ensures f in AgeAll(es, accessed) <==> exists e :: e in es && f == AgedEntry(e, accessed) {
        if f in AgeAll(es, accessed) {
          if f != e {
            var g :| g in es[1..] && f == AgedEntry(g, accessed);
            assert g in es;
          } else {
            assert es[0] in es;
          }
        }
        if g :| g in es && f == AgedEntry(g, accessed) {
          assert g == es[0] || g in es[1..];
        }
      }
    }
  }

  /** Entries that are all at least `accessed` old are left as they are. */
  lemma {:induction false} AgeAllOld(es: seq<Entry>, accessed: nat)
    requires Sorted(es) && forall i :: 0 <= i < |es| ==> es[i].age >= accessed
    ensures AgeAll(es, accessed) == es
  {
    if es != [] {
      AgeAllOld(es[1..], accessed);
    }
  }

  /** Only an entry that just reached `accessed` can be out of place after ageing. */
  lemma InsertInPlace(es: seq<Entry>, accessed: nat)
    requires Sorted(es) && forall i, j :: 0 <= i < j < |es| ==> es[i].tag != es[j].tag
    requires es != []
    ensures forall f :: f in AgeAll(es[1..], accessed) ==> f.age >= Aged(es[0].age, accessed)
    ensures Aged(es[0].age, accessed) != accessed ==>
      Insert(AgedEntry(es[0], accessed), AgeAll(es[1..], accessed)) ==
      [AgedEntry(es[0], accessed)] + AgeAll(es[1..], accessed)
  {
    AgeAllContents(es[1..], accessed);
    var tail := AgeAll(es[1..], accessed);
    if tail != [] {
      assert tail[0] in tail;
    }
  }

  /** `kept` holds the entries that survive an access to `t` besides the one of `t` itself. */
  ghost predicate Survivors(kept: seq<Entry>, es: seq<Entry>, t: Tag, a: nat, assoc: nat) {
    && Sorted(kept)
    && forall e :: e in kept <==> e in es && e.tag != t && Aged(e.age, a) < assoc
  }

  /** Dropping the entries of age assoc - 1 from the end keeps exactly the younger ones. */
  lemma YoungPrefix(es: seq<Entry>, n: nat, assoc: nat)
    requires assoc >= 1 && Sorted(es) && n <= |es|
    requires forall i :: 0 <= i < |es| ==> es[i].age < assoc
    requires forall i :: n <= i < |es| ==> es[i].age == assoc - 1
    requires n > 0 ==> es[n - 1].age != assoc - 1
    ensures forall i :: 0 <= i < n ==> es[i].age < assoc - 1
    ensures forall e :: e in es[..n] <==> e in es && e.age + 1 < assoc
  {}

  lemma SameBounds(xs: seq<Entry>, ys: seq<Entry>, x: Bounds, y: Bounds)
    requires Sorted(xs) && Lists(xs, x) && Sorted(ys) && Lists(ys, y)
    ensures xs == ys <==> x == y
  {
    if x == y {
      ListUnique(xs, ys);
    }
    if xs == ys {
      forall u | u in x ensures u in y && y[u] == x[u] {
        assert Entry(u, x[u]) in xs;
      }
      forall u | u in y ensures u in x {
        assert Entry(u, y[u]) in ys;
      }
    }
  }
}
