/**
 How many access cycles a program that is started again and again can cause on the bus
 within a time interval, computed from its period and its accesses per run.
 */
module ArrivalCurve {
  import opened Arith

  datatype AccessBound = Infinity | AtMost(n: nat)

  function Min(x: nat, y: nat): nat {
    if x < y then x else y
  }

  /** The curve for at most `u` access cycles per run and runs at least `period` apart. */
  function CyclesWithin(u: nat, period: nat, time: nat): nat
    requires period > 0
  {
    var exceed := Exceed(u, time);
    var d, m := exceed / period, exceed % period;
    LeastBound(u, d * u, m, time)
  }

  /** The least of the three bounds, `du` being the accesses of all complete periods beyond the first run. */
  function LeastBound(u: nat, du: nat, m: nat, time: nat): nat {
    var bound1 := u + du + (if m != 0 then u else 0);
    var bound2 := u + du + m;
    Min(Min(bound1, bound2), time)
  }

  /** By how much the interval is longer than the accesses of one run. */
  function Exceed(u: nat, time: nat): nat {
    if time < u then 0 else time - u
  }

  function MaxAccessCycles(bound: AccessBound, cyclesPerAccess: nat, period: nat, time: nat): nat {
    if time == 0 then 0
    else if bound.Infinity? || period == 0 then time
    else CyclesWithin(bound.n * cyclesPerAccess, period, time)
  }

  // ---------- Schedules ----------

  /** Run `j` starts at `start(j)`; `access` says in which cycles the program is accessing the bus. */
  datatype Schedule = Schedule(start: nat -> int, access: int -> bool)

  function Count(access: int -> bool, lo: int, hi: int): nat
    decreases hi - lo
  {
    if lo >= hi then 0 else Count(access, lo, hi - 1) + (if access(hi - 1) then 1 else 0)
  }

  ghost predicate LegalRun(s: Schedule, u: nat, period: nat, j: nat) {
    && s.start(j) + period <= s.start(j + 1)
    && Count(s.access, s.start(j), s.start(j + 1)) <= u
  }

  ghost predicate Legal(s: Schedule, u: nat, period: nat) {
    && (forall j: nat :: LegalRun(s, u, period, j))
    && (forall c :: s.access(c) ==> s.start(0) <= c)
  }

  // ---------- Counting ----------

  lemma CountSplit(access: int -> bool, lo: int, mid: int, hi: int)
    requires lo <= mid <= hi
    ensures Count(access, lo, hi) == Count(access, lo, mid) + Count(access, mid, hi)
    decreases hi - mid
  {
    if mid < hi {
      CountSplit(access, lo, mid, hi - 1);
    }
  }

  lemma CountAtMost(access: int -> bool, lo: int, hi: int)
    requires lo <= hi
    ensures Count(access, lo, hi) <= hi - lo
    decreases hi - lo
  {
    if lo < hi {
      CountAtMost(access, lo, hi - 1);
    }
  }

  /** A part of one run, or of the time before the first run. */
  lemma PartOfRun(s: Schedule, u: nat, period: nat, i: nat, lo: int, hi: int)
    requires Legal(s, u, period) && (i == 0 || s.start(i - 1) <= lo) && lo <= hi <= s.start(i)
    ensures Count(s.access, lo, hi) <= Min(u, hi - lo)
  {
    CountAtMost(s.access, lo, hi);
    if i == 0 {
      NoneBefore(s, u, period, lo, hi);
    } else {
      CountSplit(s.access, s.start(i - 1), lo, s.start(i));
      CountSplit(s.access, lo, hi, s.start(i));
      assert LegalRun(s, u, period, i - 1);
    }
  }

  lemma NoneBefore(s: Schedule, u: nat, period: nat, lo: int, hi: int)
    requires Legal(s, u, period) && hi <= s.start(0)
    ensures Count(s.access, lo, hi) == 0
    decreases hi - lo
  {
    if lo < hi {
      NoneBefore(s, u, period, lo, hi - 1);
    }
  }

  /** `q` complete runs. */
  lemma {:induction false} CompleteRuns(s: Schedule, u: nat, period: nat, i: nat, q: nat)
    requires Legal(s, u, period)
    ensures s.start(i) + period * q <= s.start(i + q)
    ensures Count(s.access, s.start(i), s.start(i + q)) <= u * q
  {
    if q > 0 {
      CompleteRuns(s, u, period, i, q - 1);
      MulNext(period, q - 1);
      MulNext(u, q - 1);
      assert LegalRun(s, u, period, i + (q - 1));
      assert s.start(i) <= s.start(i + (q - 1)) by { MulMonotone(period, 0, q - 1); }
      CountSplit(s.access, s.start(i), s.start(i + (q - 1)), s.start(i + q));
    }
  }

  /** The first run, from `i` on, that starts at `x` or later. */
  lemma FirstStartFrom(s: Schedule, u: nat, period: nat, i: nat, x: int) returns (j: nat)
    requires Legal(s, u, period) && period > 0
    ensures i <= j && x <= s.start(j) && (i < j ==> s.start(j - 1) < x)
    decreases if x <= s.start(i) then 0 else x - s.start(i)
  {
    if x <= s.start(i) {
      j := i;
    } else {
      assert LegalRun(s, u, period, i);
      j := FirstStartFrom(s, u, period, i + 1, x);
    }
  }

  // ---------- The curve is an upper bound ----------

  /** With more access cycles per run than cycles per period, only the interval length bounds the accesses. */
  lemma DenseRuns(u: nat, period: nat, time: nat)
    requires 0 < period < u
    ensures CyclesWithin(u, period, time) == time
  {
    var exceed := Exceed(u, time);
    DivMod(exceed, period);
    MulMonotone(exceed / period, period, u);
  }

  /** How multiples of `c` compare when the factors differ by none, one or more. */
  lemma Multiples(c: nat, d: nat, q: nat)
    ensures d == q ==> c * d == c * q
    ensures d + 1 == q ==> c * d == c * q - c
    ensures d + 1 < q ==> c * d <= c * q - 2 * c
    ensures d > q ==> c * d >= c * q + c
  {
    MulNext(c, d);
    MulNext(c, d + 1);
    MulOrder(c, d + 2, q);
    MulOrder(c, d, q);
  }

  /** `e` cycles in the first and the last run, and `q` runs in between. */
  lemma BoundsCover(u: nat, period: nat, time: nat, e: nat, q: nat)
    requires 0 < u <= period && 0 < e <= 2 * u && e + period * q <= time
    ensures e + u * q <= CyclesWithin(u, period, time)
  {
    var d, m := Exceed(u, time) / period, Exceed(u, time) % period;
    DivMod(Exceed(u, time), period);
    BoundsCoverAt(u, period, time, e, q, d, m);
    assert CyclesWithin(u, period, time) == LeastBound(u, d * u, m, time);
  }

  lemma BoundsCoverAt(u: nat, period: nat, time: nat, e: nat, q: nat, d: nat, m: nat)
    requires 0 < u <= period && 0 < e <= 2 * u && e + period * q <= time
    requires Exceed(u, time) == period * d + m && m < period
    ensures e + u * q <= LeastBound(u, d * u, m, time)
  {
    Multiples(period, d, q);
    Multiples(u, d, q);
    MulMonotone(q, u, period);
    assert u * q <= period * q;
    CoverCases(u, period, time, e, q, d, m, d * u, u * q, period * d, period * q);
  }

  lemma CoverCases(u: nat, period: nat, time: nat, e: nat, q: nat, d: nat, m: nat, ud: nat, uq: nat, pd: nat, pq: nat)
    requires 0 < u <= period && 0 < e <= 2 * u && e + pq <= time && m < period && uq <= pq
    requires Exceed(u, time) == pd + m
    requires d == q ==> pd == pq && ud == uq
    requires d + 1 == q ==> pd == pq - period && ud == uq - u
    requires d + 1 < q ==> pd <= pq - 2 * period
    requires d > q ==> ud >= uq + u
    ensures e + uq <= LeastBound(u, ud, m, time)
  {}

  lemma CoversOneRun(u: nat, period: nat, time: nat, n: nat)
    requires 0 < period && n <= u && n <= time
    ensures n <= CyclesWithin(u, period, time)
  {}

  /** No interval of the given length contains more access cycles than the curve allows. */
  lemma CurveBounds(s: Schedule, u: nat, period: nat, lo: int, time: nat)
    requires Legal(s, u, period) && period > 0
    ensures Count(s.access, lo, lo + time) <= CyclesWithin(u, period, time)
  {
    var hi := lo + time;
    CountAtMost(s.access, lo, hi);
    var i := FirstStartFrom(s, u, period, 0, lo);
    if period < u {
      DenseRuns(u, period, time);
    } else if hi <= s.start(i) {
      PartOfRun(s, u, period, i, lo, hi);
      CoversOneRun(u, period, time, Count(s.access, lo, hi));
    } else {
      SeveralRuns(s, u, period, lo, time, i);
    }
  }

  lemma SeveralRuns(s: Schedule, u: nat, period: nat, lo: int, time: nat, i: nat)
    requires Legal(s, u, period) && u <= period && period > 0
    requires lo <= s.start(i) < lo + time && (i == 0 || s.start(i - 1) < lo)
    ensures Count(s.access, lo, lo + time) <= CyclesWithin(u, period, time)
  {
    var hi := lo + time;
    var j := FirstStartFrom(s, u, period, i, hi);
    var q := j - 1 - i;
    PartOfRun(s, u, period, i, lo, s.start(i));
    PartOfRun(s, u, period, j, s.start(j - 1), hi);
    CompleteRuns(s, u, period, i, q);
    var x, y := s.start(i) - lo, hi - s.start(j - 1);
    assert s.start(i) <= s.start(i + q) by { MulMonotone(period, 0, q); }
    CountSplit(s.access, lo, s.start(i), hi);
    CountSplit(s.access, s.start(i), s.start(j - 1), hi);
    var e := Min(u, x) + Min(u, y);
    assert Count(s.access, lo, hi) <= e + u * q;
    if u > 0 {
      assert e + period * q <= time;
      BoundsCover(u, period, time, e, q);
    }
  }

  /** The same for the complete function, for schedules that respect its inputs. */
  lemma AccessCyclesBounded(s: Schedule, bound: AccessBound, cyclesPerAccess: nat, period: nat, lo: int, time: nat)
    requires bound.AtMost? ==> Legal(s, bound.n * cyclesPerAccess, period)
    ensures Count(s.access, lo, lo + time) <= MaxAccessCycles(bound, cyclesPerAccess, period, time) <= time
  {
    CountAtMost(s.access, lo, lo + time);
    if bound.AtMost? && period > 0 {
      CurveBounds(s, bound.n * cyclesPerAccess, period, lo, time);
    }
  }

  // ---------- The curve is the best upper bound ----------

  /** The densest schedule: one run accesses at its very end, the next ones at their very beginning. */
  function Densest(u: nat, period: nat): Schedule
    requires period > 0
  {
    if period < u then Schedule((j: nat) => period * j, (c: int) => c >= 0)
    else Schedule((j: nat) => u + period * (j - 1), (c: int) => 0 <= c && (c < u || (c - u) % period < u))
  }

  /** The curve in the sparse case: all of the first run, all complete periods, and the start of the last one. */
  lemma SparseCycles(u: nat, period: nat, x: nat)
    requires 0 < period && u <= period
    ensures CyclesWithin(u, period, u + x) == u + u * (x / period) + Min(u, x % period)
  {
    DivMod(x, period);
    MulMonotone(x / period, u, period);
  }

  lemma ShortInterval(u: nat, period: nat, time: nat)
    requires 0 < period && time <= u
    ensures CyclesWithin(u, period, time) == time
  {
    DivModUnique(0, period, 0, 0);
  }

  /** The cycle after `x` cycles beyond the first u counts exactly when it is among the first u of its period. */
  lemma OneMoreCycle(u: nat, period: nat, x: nat)
    requires 0 < period && u <= period
    ensures CyclesWithin(u, period, u + (x + 1)) == CyclesWithin(u, period, u + x) + (if x % period < u then 1 else 0)
  {
    var ud, m, ud', m' := NextProducts(u, period, x);
    SparseAt(u, period, x, ud, m);
    SparseAt(u, period, x + 1, ud', m');
    OneMoreCase(u, period, ud, m, ud', m');
  }

  lemma SparseAt(u: nat, period: nat, x: nat, ud: nat, m: nat)
    requires 0 < period && u <= period && ud == u * (x / period) && m == x % period
    ensures CyclesWithin(u, period, u + x) == u + ud + Min(u, m)
  {
    SparseCycles(u, period, x);
  }

  lemma NextProducts(u: nat, period: nat, x: nat) returns (ud: nat, m: nat, ud': nat, m': nat)
    requires period > 0
    ensures ud == u * (x / period) && m == x % period < period
    ensures ud' == u * ((x + 1) / period) && m' == (x + 1) % period
    ensures if m + 1 < period then ud' == ud && m' == m + 1 else ud' == ud + u && m' == 0
  {
    var d := x / period;
    m := x % period;
    NextCycle(x, period, d, m);
    MulNext(u, d);
    ud, ud', m' := u * d, if m + 1 < period then u * d else u * (d + 1), if m + 1 < period then m + 1 else 0;
  }

  lemma OneMoreCase(u: nat, period: nat, ud: nat, m: nat, ud': nat, m': nat)
    requires u <= period && m < period
    requires if m + 1 < period then ud' == ud && m' == m + 1 else ud' == ud + u && m' == 0
    ensures u + ud' + Min(u, m') == u + ud + Min(u, m) + (if m < u then 1 else 0)
  {}

  lemma NextCycle(x: nat, period: nat, d: nat, m: nat)
    requires period > 0 && d == x / period && m == x % period
    ensures if m + 1 < period then (x + 1) / period == d && (x + 1) % period == m + 1
            else (x + 1) / period == d + 1 && (x + 1) % period == 0 && m + 1 == period
  {
    DivMod(x, period);
    if m + 1 < period {
      DivModUnique(x + 1, period, d, m + 1);
    } else {
      MulNext(period, d);
      DivModUnique(x + 1, period, d + 1, 0);
    }
  }

  lemma {:induction false} DensestCount(u: nat, period: nat, time: nat)
    requires period > 0
    ensures Count(Densest(u, period).access, 0, time) == CyclesWithin(u, period, time)
  {
    if time == 0 {
      ShortInterval(u, period, 0);
    } else {
      DensestCount(u, period, time - 1);
      if period < u {
        DenseRuns(u, period, time);
        DenseRuns(u, period, time - 1);
      } else if time > u {
        OneMoreCycle(u, period, time - 1 - u);
      } else {
        ShortInterval(u, period, time);
        ShortInterval(u, period, time - 1);
      }
    }
  }

  lemma DensestIsLegal(u: nat, period: nat)
    requires period > 0
    ensures Legal(Densest(u, period), u, period)
  {
    forall j: nat ensures LegalRun(Densest(u, period), u, period, j) {
      DensestRun(u, period, j);
    }
  }

  lemma DensestRun(u: nat, period: nat, j: nat)
    requires period > 0
    ensures LegalRun(Densest(u, period), u, period, j)
  {
    var s := Densest(u, period);
    if period < u {
      MulNext(period, j);
      CountAtMost(s.access, s.start(j), s.start(j + 1));
    } else if j == 0 {
      NegativeFree(u, period, u - period);
      CountSplit(s.access, u - period, 0, u);
      CountAtMost(s.access, 0, u);
    } else {
      MulNext(period, j - 1);
      SparseRun(u, period, j - 1, period * (j - 1));
    }
  }

  /** The run that starts after the first u cycles and `k` more periods. */
  lemma SparseRun(u: nat, period: nat, k: nat, x: nat)
    requires 0 < period && u <= period && x == period * k
    ensures Count(Densest(u, period).access, u + x, u + x + period) <= u
  {
    CountSplit(Densest(u, period).access, 0, u + x, u + x + period);
    DensestCount(u, period, u + x);
    DensestCount(u, period, u + (x + period));
    SparseCycles(u, period, x);
    SparseCycles(u, period, x + period);
    DivModUnique(x, period, k, 0);
    MulNext(period, k);
    DivModUnique(x + period, period, k + 1, 0);
    MulNext(u, k);
  }

  lemma NegativeFree(u: nat, period: nat, lo: int)
    requires 0 < period && u <= period && lo <= 0
    ensures Count(Densest(u, period).access, lo, 0) == 0
  {
    NegativeCount(Densest(u, period).access, lo, 0);
  }

  lemma NegativeCount(access: int -> bool, lo: int, hi: int)
    requires forall c :: access(c) ==> 0 <= c
    requires hi <= 0
    ensures Count(access, lo, hi) == 0
    decreases hi - lo
  {
    if lo < hi {
      NegativeCount(access, lo, hi - 1);
    }
  }

  function InWindow(s: Schedule, lo: int, time: nat): nat {
    Count(s.access, lo, lo + time)
  }

  ghost predicate BoundsAllWindows(u: nat, period: nat, time: nat, n: nat) {
    forall s, lo :: Legal(s, u, period) ==> InWindow(s, lo, time) <= n
  }

  /** A number bounds the accesses in every interval of every schedule exactly from the curve upwards. */
  lemma CurveIsExact(u: nat, period: nat, time: nat, n: nat)
    requires period > 0
    ensures BoundsAllWindows(u, period, time, n) <==> CyclesWithin(u, period, time) <= n
  {
    forall s, lo | Legal(s, u, period)
      ensures InWindow(s, lo, time) <= CyclesWithin(u, period, time)
    {
      CurveBounds(s, u, period, lo, time);
    }
    DensestIsLegal(u, period);
    DensestCount(u, period, time);
    assert InWindow(Densest(u, period), 0, time) == CyclesWithin(u, period, time);
  }

  /** Every schedule that respects what is known of the program accesses the bus in `n` cycles at most. */
  ghost predicate BoundsAll(bound: AccessBound, cyclesPerAccess: nat, period: nat, time: nat, n: nat) {
    forall s, lo :: (bound.AtMost? ==> Legal(s, bound.n * cyclesPerAccess, period)) ==> InWindow(s, lo, time) <= n
  }

  /** Runs that are not kept apart, and an access in every cycle from 0 on. */
  function Unlimited(): Schedule {
    Schedule((j: nat) => 0, (c: int) => 0 <= c)
  }

  lemma {:induction false} UnlimitedCount(time: nat)
    ensures InWindow(Unlimited(), 0, time) == time
  {
    if time > 0 {
      UnlimitedCount(time - 1);
    }
  }

  /** The complete function is exact as well, whatever is known of the program. */
  lemma CompleteIsExact(bound: AccessBound, cyclesPerAccess: nat, period: nat, time: nat, n: nat)
    ensures BoundsAll(bound, cyclesPerAccess, period, time, n) <==>
      MaxAccessCycles(bound, cyclesPerAccess, period, time) <= n
  {
    forall s, lo | bound.AtMost? ==> Legal(s, bound.n * cyclesPerAccess, period)
      ensures InWindow(s, lo, time) <= MaxAccessCycles(bound, cyclesPerAccess, period, time)
    {
      AccessCyclesBounded(s, bound, cyclesPerAccess, period, lo, time);
    }
    if BoundsAll(bound, cyclesPerAccess, period, time, n) {
      if bound.AtMost? && period > 0 {
        KnownIsExact(bound, cyclesPerAccess, period, time, n);
      } else {
        UnlimitedCount(time);
        assert InWindow(Unlimited(), 0, time) <= n;
      }
    }
  }

  lemma KnownIsExact(bound: AccessBound, cyclesPerAccess: nat, period: nat, time: nat, n: nat)
    requires bound.AtMost? && period > 0 && BoundsAll(bound, cyclesPerAccess, period, time, n)
    ensures MaxAccessCycles(bound, cyclesPerAccess, period, time) <= n
  {
    var u := bound.n * cyclesPerAccess;
    assert BoundsAllWindows(u, period, time, n);
    CurveIsExact(u, period, time, n);
  }

  /** Longer intervals never have a smaller bound, although the second bound alone can fall. */
  lemma CurveIsMonotone(bound: AccessBound, cyclesPerAccess: nat, period: nat, time: nat, longer: nat)
    requires time <= longer
    ensures MaxAccessCycles(bound, cyclesPerAccess, period, time) <=
            MaxAccessCycles(bound, cyclesPerAccess, period, longer)
  {
    if bound.AtMost? && period > 0 {
      var u := bound.n * cyclesPerAccess;
      DensestCount(u, period, time);
      DensestCount(u, period, longer);
      CountSplit(Densest(u, period).access, 0, time, longer);
    }
  }
}
