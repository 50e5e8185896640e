/**
 A memory with a fixed latency behind a shared bus: after the memory has served an access,
 the access may still be blocked for a bounded number of cycles. States are values; each
 step lists the possible next states.
 */
module BlockingMemory {
  import opened Arith
  import opened Options

  /** An access and the number of words it transfers. */
  datatype Request = Request(addr: int, store: bool, words: nat)

  /** Lower and upper bound of a metric. */
  datatype Interval = Interval(lb: nat, ub: nat) {
    function Plus(y: Interval): Interval {
      Interval(lb + y.lb, ub + y.ub)
    }
  }

  datatype Config = Config(latency: nat, perWordLatency: nat, maxBlocking: nat, accessLatency: nat,
                           compositional: bool)
  {
    function AccessTime(words: nat): nat {
      latency + words * perWordLatency
    }

    /** The blocking to be counted cycle by cycle: none if it is accounted for elsewhere. */
    function Bound(): nat {
      if compositional then 0 else maxBlocking
    }
  }

  // ---------- The wrapped memory ----------

  datatype Inner = Inner(timeBlocked: nat, fastForwarded: Interval) {
    predicate Busy() {
      timeBlocked > 0
    }

    function Cycle(): Inner {
      if Busy() then this.(timeBlocked := timeBlocked - 1) else this
    }

    function FastForward(): Inner
      requires Busy()
    {
      Inner(1, fastForwarded.Plus(Interval(timeBlocked - 1, timeBlocked - 1)))
    }
  }

  // ---------- The blocking memory with its counter ----------

  datatype Memory = Memory(
    inner: Inner,
    delayed: Option<Request>,
    addedBlocking: nat,
    fastForwarded: Interval,
    concAccesses: nat)
  {
    predicate Busy() {
      delayed.Some? || inner.Busy()
    }

    /** Where an access can be announced: initially, and after each access. */
    predicate Idle() {
      !Busy() && addedBlocking == 0
    }

    function Announce(cfg: Config, r: Request): seq<Memory>
      requires !Busy()
    {
      [this.(inner := inner.(timeBlocked := cfg.AccessTime(r.words)), delayed := Some(r))]
    }

    function IncrementBlocking(cfg: Config): Memory
      requires cfg.accessLatency > 0
    {
      var added := addedBlocking + 1;
      this.(addedBlocking := added,
            concAccesses := concAccesses + (if added % cfg.accessLatency == 1 then 1 else 0))
    }

    /** With the memory done, the access is blocked for one more cycle or is over. */
    function Split(cfg: Config): seq<Memory>
      requires cfg.accessLatency > 0
    {
      if delayed.None? then [this]
      else
        var over := this.(delayed := None, addedBlocking := 0);
        if !cfg.compositional && addedBlocking < cfg.maxBlocking then [IncrementBlocking(cfg), over] else [over]
    }

    function Cycle(cfg: Config): seq<Memory>
      requires cfg.accessLatency > 0
    {
      var next := this.(inner := inner.Cycle());
      if next.inner.Busy() then [next] else next.Split(cfg)
    }

    /** The assertions of fast-forwarding. */
    predicate CanFastForward(cfg: Config) {
      delayed.Some? &&
      if inner.Busy() then !cfg.compositional ==> addedBlocking == 0
      else !cfg.compositional && addedBlocking <= cfg.maxBlocking
    }

    function FastForward(cfg: Config): seq<Memory>
      requires CanFastForward(cfg)
    {
      if inner.Busy() then
        var next := this.(inner := inner.FastForward());
        if cfg.compositional then [next]
        else [next.(addedBlocking := cfg.maxBlocking,
                    fastForwarded := fastForwarded.Plus(Interval(0, cfg.maxBlocking)))]
      else
        [this.(addedBlocking := cfg.maxBlocking,
               fastForwarded := fastForwarded.Plus(Interval(0, cfg.maxBlocking - addedBlocking)))]
    }

    /** A state in the middle of an access. */
    predicate Serving(cfg: Config) {
      delayed.Some? && addedBlocking <= cfg.Bound()
    }

    /** The least number of cycles until the access can be over, and how many more it may take. */
    function Least(): nat {
      if inner.Busy() then inner.timeBlocked else 1
    }

    function Slack(cfg: Config): nat
      requires Serving(cfg)
    {
      cfg.Bound() - addedBlocking
    }
  }

  // ---------- Cycle by cycle ----------

  /** After exactly `n` cycles the access is over, in state `end`. */
  ghost predicate EndsIn(cfg: Config, m: Memory, n: nat, end: Memory)
    requires cfg.accessLatency > 0
    decreases n
  {
    if n == 0 then !m.Busy() && end == m
    else m.Busy() && exists m' :: m' in m.Cycle(cfg) && EndsIn(cfg, m', n - 1, end)
  }

  ghost predicate CompletesIn(cfg: Config, m: Memory, n: nat)
    requires cfg.accessLatency > 0
  {
    exists end :: EndsIn(cfg, m, n, end)
  }

  lemma CycleServing(cfg: Config, m: Memory, m': Memory)
    requires cfg.accessLatency > 0 && m.Serving(cfg) && m' in m.Cycle(cfg)
    ensures if m'.Busy() then m'.Serving(cfg) &&
      m'.Least() + 1 + m'.Slack(cfg) == m.Least() + m.Slack(cfg) && m.Least() <= m'.Least() + 1
      else m.Least() == 1 && m'.Idle()
    ensures m'.fastForwarded == m.fastForwarded && m'.inner.fastForwarded == m.inner.fastForwarded
  {}

  lemma {:induction false} EndsWithinBounds(cfg: Config, m: Memory, n: nat, end: Memory)
    requires cfg.accessLatency > 0 && m.Serving(cfg) && EndsIn(cfg, m, n, end)
    ensures m.Least() <= n <= m.Least() + m.Slack(cfg)
    ensures end.Idle() && end.fastForwarded == m.fastForwarded && end.inner.fastForwarded == m.inner.fastForwarded
    decreases n
  {
    var m' :| m' in m.Cycle(cfg) && EndsIn(cfg, m', n - 1, end);
    CycleServing(cfg, m, m');
    if m'.Busy() {
      EndsWithinBounds(cfg, m', n - 1, end);
    }
  }

  lemma {:induction false} EachTimePossible(cfg: Config, m: Memory, n: nat) returns (end: Memory)
    requires cfg.accessLatency > 0 && m.Serving(cfg) && m.Least() <= n <= m.Least() + m.Slack(cfg)
    ensures EndsIn(cfg, m, n, end)
    decreases n
  {
    var next := m.(inner := m.inner.Cycle());
    var m' := if next.inner.Busy() then next
              else if n == 1 then next.(delayed := None, addedBlocking := 0)
              else next.IncrementBlocking(cfg);
    assert m' in m.Cycle(cfg);
    if m'.Busy() {
      end := EachTimePossible(cfg, m', n - 1);
    } else {
      end := m';
      assert EndsIn(cfg, m', 0, end);
    }
  }

  /** The times at which an access under way can be over form one interval. */
  lemma CompletionTimes(cfg: Config, m: Memory, n: nat)
    requires cfg.accessLatency > 0 && m.Serving(cfg)
    ensures CompletesIn(cfg, m, n) <==> m.Least() <= n <= m.Least() + m.Slack(cfg)
  {
    if CompletesIn(cfg, m, n) {
      var end :| EndsIn(cfg, m, n, end);
      EndsWithinBounds(cfg, m, n, end);
    }
    if m.Least() <= n <= m.Least() + m.Slack(cfg) {
      var end := EachTimePossible(cfg, m, n);
    }
  }

  /** From an announcement on, these are exactly the latency up to the latency plus the blocking bound. */
  lemma AnnouncedCompletionTimes(cfg: Config, m: Memory, r: Request, m': Memory, n: nat)
    requires cfg.accessLatency > 0 && m.Idle() && cfg.latency + r.words * cfg.perWordLatency > 0
    requires m' in m.Announce(cfg, r)
    ensures var served := cfg.latency + r.words * cfg.perWordLatency;
      CompletesIn(cfg, m', n) <==> served <= n <= served + (if cfg.compositional then 0 else cfg.maxBlocking)
  {
    CompletionTimes(cfg, m', n);
  }

  // ---------- Fast-forwarding ----------

  /** `n` is the time still simulated plus what fast-forwarding has put into the two metrics. */
  ghost predicate AddsUp(cfg: Config, m: Memory, m': Memory, n: nat, k: nat, blocked: nat)
    requires cfg.accessLatency > 0
  {
    && CompletesIn(cfg, m', k)
    && m'.fastForwarded.lb - m.fastForwarded.lb <= blocked <= m'.fastForwarded.ub - m.fastForwarded.ub
    && n == k + (m'.inner.fastForwarded.lb - m.inner.fastForwarded.lb) + blocked
    && m'.inner.fastForwarded.ub - m.inner.fastForwarded.ub == m'.inner.fastForwarded.lb - m.inner.fastForwarded.lb
  }

  /** Fast-forwarding at any point keeps the completion times, once the metrics are added back. */
  lemma FastForwardExact(cfg: Config, m: Memory, m': Memory, n: nat)
    requires cfg.accessLatency > 0 && m.Serving(cfg) && m.CanFastForward(cfg) && m' in m.FastForward(cfg)
    ensures m'.Serving(cfg)
    ensures CompletesIn(cfg, m, n) <==> exists k, blocked :: AddsUp(cfg, m, m', n, k, blocked)
  {
    CompletionTimes(cfg, m, n);
    forall k ensures CompletesIn(cfg, m', k) <==> k == 1 {
      CompletionTimes(cfg, m', k);
    }
    if CompletesIn(cfg, m, n) {
      assert AddsUp(cfg, m, m', n, 1, n - m.Least());
    }
  }

  /** Total times when cycling and fast-forwarding are mixed in any way. */
  ghost predicate MixedIn(cfg: Config, m: Memory, n: nat, steps: nat)
    requires cfg.accessLatency > 0
    decreases steps
  {
    if steps == 0 then n == 0 && !m.Busy()
    else m.Busy() && (MixedCycle(cfg, m, n, steps) || MixedForward(cfg, m, n, steps))
  }

  ghost predicate MixedCycle(cfg: Config, m: Memory, n: nat, steps: nat)
    requires cfg.accessLatency > 0 && steps > 0
    decreases steps, 0
  {
    n > 0 && exists m' :: m' in m.Cycle(cfg) && MixedIn(cfg, m', n - 1, steps - 1)
  }

  /** What was recorded: the inner cycles, and any number of blocked cycles within the recorded interval. */
  ghost predicate Recorded(m: Memory, m': Memory, n: nat, k: nat, blocked: nat) {
    && m'.fastForwarded.lb - m.fastForwarded.lb <= blocked <= m'.fastForwarded.ub - m.fastForwarded.ub
    && n == k + (m'.inner.fastForwarded.lb - m.inner.fastForwarded.lb) + blocked
  }

  ghost predicate MixedForward(cfg: Config, m: Memory, n: nat, steps: nat)
    requires cfg.accessLatency > 0 && steps > 0
    decreases steps, 0
  {
    m.CanFastForward(cfg) &&
    exists m', k, blocked ::
      m' in m.FastForward(cfg) && Recorded(m, m', n, k, blocked) && MixedIn(cfg, m', k, steps - 1)
  }

  /** No mixture of cycling and fast-forwarding yields a time that cycling alone could not. */
  lemma {:induction false} MixedIsExact(cfg: Config, m: Memory, n: nat, steps: nat)
    requires cfg.accessLatency > 0 && m.Serving(cfg) && MixedIn(cfg, m, n, steps)
    ensures CompletesIn(cfg, m, n)
    decreases steps
  {
    if MixedCycle(cfg, m, n, steps) {
      var m' :| m' in m.Cycle(cfg) && MixedIn(cfg, m', n - 1, steps - 1);
      CycleServing(cfg, m, m');
      if m'.Busy() {
        MixedIsExact(cfg, m', n - 1, steps - 1);
      } else {
        assert EndsIn(cfg, m', n - 1, m');
      }
      var end :| EndsIn(cfg, m', n - 1, end);
      assert EndsIn(cfg, m, n, end);
    } else {
      var m', k, blocked :|
        m' in m.FastForward(cfg) && Recorded(m, m', n, k, blocked) && MixedIn(cfg, m', k, steps - 1);
      FastForwardExact(cfg, m, m', n);
      MixedIsExact(cfg, m', k, steps - 1);
      assert AddsUp(cfg, m, m', n, k, blocked);
    }
  }

  /** Fast-forwarding twice in a row trips an assertion, unless nothing can be blocked. */
  lemma OnlyOnce(cfg: Config, m: Memory, m': Memory)
    requires m.CanFastForward(cfg) && m' in m.FastForward(cfg) && m.inner.Busy()
    ensures m'.CanFastForward(cfg) <==> cfg.Bound() == 0
  {}

  // ---------- Counting concurrent accesses ----------

  function CeilDiv(x: nat, d: nat): nat
    requires d > 0
  {
    x / d + (if x % d != 0 then 1 else 0)
  }

  /** The increments that `b` blocked cycles make. */
  function Increments(b: nat, accessLatency: nat): nat
    requires accessLatency > 0
  {
    if b == 0 then 0 else Increments(b - 1, accessLatency) + (if b % accessLatency == 1 then 1 else 0)
  }

  lemma {:induction false} IncrementsAreCeiling(b: nat, accessLatency: nat)
    requires accessLatency > 1
    ensures Increments(b, accessLatency) == CeilDiv(b, accessLatency)
  {
    if b == 0 {
      DivModUnique(0, accessLatency, 0, 0);
    } else {
      IncrementsAreCeiling(b - 1, accessLatency);
      NextQuotient(b - 1, accessLatency, (b - 1) / accessLatency, (b - 1) % accessLatency);
    }
  }

  lemma NextQuotient(x: nat, d: nat, q: nat, r: nat)
    requires d > 1 && q == x / d && r == x % d
    ensures if r + 1 < d then (x + 1) / d == q && (x + 1) % d == r + 1 else (x + 1) / d == q + 1 && (x + 1) % d == 0
  {
    DivMod(x, d);
    if r + 1 < d {
      DivModUnique(x + 1, d, q, r + 1);
    } else {
      MulNext(d, q);
      DivModUnique(x + 1, d, q + 1, 0);
    }
  }

  lemma {:induction false} NoIncrements(b: nat)
    ensures Increments(b, 1) == 0
  {
    if b > 0 {
      NoIncrements(b - 1);
    }
  }

  /** The counter is the number of accesses the blocking amounts to exactly if their latency is above one cycle. */
  lemma CounterExactly(b: nat, accessLatency: nat)
    requires accessLatency > 0
    ensures Increments(b, accessLatency) == CeilDiv(b, accessLatency) <==> accessLatency > 1 || b == 0
  {
    if accessLatency > 1 {
      IncrementsAreCeiling(b, accessLatency);
    } else {
      NoIncrements(b);
      DivModUnique(b, 1, b, 0);
    }
  }

  lemma {:induction false} CounterAtEnd(cfg: Config, m: Memory, n: nat, end: Memory)
    requires cfg.accessLatency > 0 && m.Serving(cfg) && EndsIn(cfg, m, n, end)
    ensures n >= m.Least()
    ensures end.concAccesses + Increments(m.addedBlocking, cfg.accessLatency) ==
      m.concAccesses + Increments(m.addedBlocking + (n - m.Least()), cfg.accessLatency)
    decreases n
  {
    EndsWithinBounds(cfg, m, n, end);
    var m' :| m' in m.Cycle(cfg) && EndsIn(cfg, m', n - 1, end);
    CycleServing(cfg, m, m');
    if m'.Busy() {
      CounterAtEnd(cfg, m', n - 1, end);
    }
  }

  /** An access that was blocked for b cycles has met ceil(b / latency) concurrent accesses. */
  lemma ConcurrentAccesses(cfg: Config, m: Memory, r: Request, m': Memory, n: nat, end: Memory)
    requires cfg.accessLatency > 0 && m.Idle() && cfg.latency + r.words * cfg.perWordLatency > 0
    requires m' in m.Announce(cfg, r) && EndsIn(cfg, m', n, end)
    ensures n >= cfg.latency + r.words * cfg.perWordLatency
    ensures var b := n - (cfg.latency + r.words * cfg.perWordLatency);
      end.concAccesses == m.concAccesses + CeilDiv(b, cfg.accessLatency) <==> cfg.accessLatency > 1 || b == 0
  {
    CounterAtEnd(cfg, m', n, end);
    CounterExactly(n - cfg.AccessTime(r.words), cfg.accessLatency);
  }
}
