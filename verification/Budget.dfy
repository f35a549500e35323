/**
  How often a scheduling context is refilled, and so how much it can consume, over whole runs of ticks
  (kernel/src/sched.c).
 */
module Budget {
  import opened Kernel
  import opened Sched

  datatype Event = TickEvent(now: nat) | ConsumeEvent(k: nat, amount: nat)

  /** The scheduler with counters for one watched context: refills so far and time consumed so far. */
  datatype Meter = Meter(s: State, now: nat, refills: nat, used: nat)

  /** The environment charges consumed time against a context; the kernel itself never lowers `remaining`. */
  function Consume(s: State, k: nat, amount: nat): State
    requires k < |s.contexts| && amount <= s.contexts[k].remaining
  {
    s.(contexts := s.contexts[k := s.contexts[k].(remaining := s.contexts[k].remaining - amount,
                                                  consumed := s.contexts[k].consumed + amount)])
  }

  /** Ticks do not go back in time and deadlines stay below 2^64; nobody consumes more than remains. */
  predicate Legal(m: Meter, i: nat, ev: Event)
    requires i < |m.s.contexts|
  {
    match ev
    case TickEvent(t) => m.now <= t && t + m.s.contexts[i].period < WORD
    case ConsumeEvent(k, a) => k < |m.s.contexts| && a <= m.s.contexts[k].remaining
  }

  predicate Watched(m: Meter, i: nat) {
    Shaped(m.s) && m.s.frameStart == 0 && i < MAX_CONTEXTS
  }

  function Step(m: Meter, i: nat, ev: Event): (m': Meter)
    requires Watched(m, i) && Legal(m, i, ev)
    ensures Watched(m', i)
  {
    match ev
    case TickEvent(t) =>
      var c := m.s.contexts[i];
      Meter(Tick(m.s, t), t, if c.bound && t >= c.deadline then m.refills + 1 else m.refills, m.used)
    case ConsumeEvent(k, a) =>
      m.(s := Consume(m.s, k, a), used := if k == i then m.used + a else m.used)
  }

  /** A context as sched_context_bind leaves it. */
  predicate JustBound(m: Meter, i: nat) {
    && Watched(m, i) && m.refills == 0 && m.used == 0
    && var c := m.s.contexts[i]; c.bound && c.period > 0 && c.deadline == c.period && c.remaining == c.budget
  }

  /** A successful sched_context_bind leaves such a context, with the parameters asked for. */
  lemma BindIsJustBound(s: State, sc: nat, tcb: nat, part: nat, budget: Word, period: Word, prio: nat,
                        now: nat)
    requires Shaped(s) && s.frameStart == 0 && Bind(s, sc, tcb, part, budget, period, prio).1 == Ok
    ensures JustBound(Meter(Bind(s, sc, tcb, part, budget, period, prio).0, now, 0, 0), sc)
    ensures Bind(s, sc, tcb, part, budget, period, prio).0.contexts[sc].budget == budget <= s.partitions[part].budget
    ensures Bind(s, sc, tcb, part, budget, period, prio).0.contexts[sc].period == period
  {
  }

  ghost predicate Inv(m: Meter, i: nat, budget: nat, period: nat) {
    && Watched(m, i) && period > 0
    && (var c := m.s.contexts[i];
        && c.bound && c.budget == budget && c.period == period
        && c.deadline == period * (m.refills + 1)
        && c.remaining + m.used <= budget * (m.refills + 1))
    && period * m.refills <= m.now
  }

  lemma Distribute(a: nat, n: nat)
    ensures a * (n + 1) == a * n + a
  {
  }

  lemma StepKeepsInv(m: Meter, i: nat, ev: Event, budget: nat, period: nat)
    requires Inv(m, i, budget, period) && Legal(m, i, ev)
    ensures Inv(Step(m, i, ev), i, budget, period)
  {
    Distribute(period, m.refills + 1);
    Distribute(budget, m.refills + 1);
  }

  /** The refill counter is at most the number of whole periods elapsed. */
  lemma RefillsBelowQuotient(refills: nat, period: nat, now: nat)
    requires period > 0 && period * refills <= now
    ensures refills <= now / period
  {
    var q := now / period;
    assert now < period * (q + 1);
    if refills >= q + 1 {
      MulMonotone(period, q + 1, refills);
    }
  }

  // ----- Whole runs

  ghost predicate LegalRun(m: Meter, i: nat, evs: seq<Event>)
    requires Watched(m, i)
    decreases |evs|
  {
    evs == [] || (Legal(m, i, evs[0]) && LegalRun(Step(m, i, evs[0]), i, evs[1..]))
  }

  ghost function Run(m: Meter, i: nat, evs: seq<Event>): (m': Meter)
    requires Watched(m, i) && LegalRun(m, i, evs)
    ensures Watched(m', i)
    decreases |evs|
  {
    if evs == [] then m else Run(Step(m, i, evs[0]), i, evs[1..])
  }

  lemma {:induction false} RunKeepsInv(m: Meter, i: nat, evs: seq<Event>, budget: nat, period: nat)
    requires Inv(m, i, budget, period) && LegalRun(m, i, evs)
    ensures Inv(Run(m, i, evs), i, budget, period)
    decreases |evs|
  {
    if evs != [] {
      StepKeepsInv(m, i, evs[0], budget, period);
      RunKeepsInv(Step(m, i, evs[0]), i, evs[1..], budget, period);
    }
  }

  /**
    In every run of non-decreasing ticks a bound context is refilled at most floor(now / period) times, so it never
    consumes more than its budget times one more than that.
   */
  lemma RunBoundsConsumption(m: Meter, i: nat, evs: seq<Event>)
    requires JustBound(m, i) && LegalRun(m, i, evs)
    ensures var c, m' := m.s.contexts[i], Run(m, i, evs);
            && m'.refills <= m'.now / c.period
            && m'.used <= c.budget * (1 + m'.now / c.period)
  {
    var c, m' := m.s.contexts[i], Run(m, i, evs);
    RunKeepsInv(m, i, evs, c.budget, c.period);
    RefillsBelowQuotient(m'.refills, c.period, m'.now);
    MulMonotone(c.budget, m'.refills + 1, 1 + m'.now / c.period);
  }

  /**
    From its binding on a context consumes at most its budget, once more than there were whole periods since time 0.
   */
  lemma BoundContextConsumes(s: State, sc: nat, tcb: nat, part: nat, budget: Word, period: Word, prio: nat,
                             now: nat, evs: seq<Event>)
    requires Shaped(s) && s.frameStart == 0 && Bind(s, sc, tcb, part, budget, period, prio).1 == Ok
    requires LegalRun(Meter(Bind(s, sc, tcb, part, budget, period, prio).0, now, 0, 0), sc, evs)
    ensures var m := Run(Meter(Bind(s, sc, tcb, part, budget, period, prio).0, now, 0, 0), sc, evs);
            period > 0 && m.used <= budget * (1 + m.now / period) && budget <= s.partitions[part].budget
  {
    BindIsJustBound(s, sc, tcb, part, budget, period, prio, now);
    hide Bind;
    RunBoundsConsumption(Meter(Bind(s, sc, tcb, part, budget, period, prio).0, now, 0, 0), sc, evs);
  }

  /** No two consecutive ticks are more than the period apart. */
  ghost predicate CloseTicks(m: Meter, i: nat, evs: seq<Event>)
    requires Watched(m, i) && LegalRun(m, i, evs)
    decreases |evs|
  {
    evs == [] ||
    ((evs[0].TickEvent? ==> evs[0].now <= m.now + m.s.contexts[i].period)
     && CloseTicks(Step(m, i, evs[0]), i, evs[1..]))
  }

  lemma QuotientIs(now: nat, period: nat, q: nat)
    requires period > 0 && period * q <= now < period * (q + 1)
    ensures now / period == q
  {
    RefillsBelowQuotient(q, period, now);
    if now / period >= q + 1 {
      MulMonotone(period, q + 1, now / period);
    }
  }

  lemma {:induction false} CloseTicksAreExact(m: Meter, i: nat, evs: seq<Event>, budget: nat, period: nat)
    requires Inv(m, i, budget, period) && LegalRun(m, i, evs) && CloseTicks(m, i, evs)
    requires m.now < period * (m.refills + 1)
    ensures Run(m, i, evs).now < period * (Run(m, i, evs).refills + 1)
    decreases |evs|
  {
    if evs != [] {
      StepKeepsInv(m, i, evs[0], budget, period);
      Distribute(period, m.refills + 1);
      CloseTicksAreExact(Step(m, i, evs[0]), i, evs[1..], budget, period);
    }
  }

  /** From time 0, with no tick gap longer than the period, the refill count is exactly floor(now / period). */
  lemma RunRefillsExactly(m: Meter, i: nat, evs: seq<Event>)
    requires JustBound(m, i) && m.now == 0 && LegalRun(m, i, evs) && CloseTicks(m, i, evs)
    ensures Run(m, i, evs).refills == Run(m, i, evs).now / m.s.contexts[i].period
  {
    var c, m' := m.s.contexts[i], Run(m, i, evs);
    RunKeepsInv(m, i, evs, c.budget, c.period);
    CloseTicksAreExact(m, i, evs, c.budget, c.period);
    QuotientIs(m'.now, c.period, m'.refills);
  }

  // ----- From a given moment on

  /** Periods begun between `t1` and `now`, the last one perhaps not over. */
  function PeriodsSince(t1: nat, now: nat, period: nat): nat
    requires t1 <= now && period > 0
  {
    (now - t1 + period - 1) / period
  }

  /**
    The watched context since meter `m0`: deadlines advance by one period per refill, each refill not before it was
    due.
   */
  ghost predicate Since(m0: Meter, m: Meter, i: nat) {
    && Watched(m0, i) && Watched(m, i) && m0.refills <= m.refills && m0.now <= m.now && m0.used <= m.used
    && var c0, c, r := m0.s.contexts[i], m.s.contexts[i], m.refills - m0.refills;
    && c0.bound && c.bound && c.budget == c0.budget && c.period == c0.period > 0
    && c.deadline == c0.deadline + c0.period * r
    && (r > 0 ==> c0.deadline + c0.period * (r - 1) <= m.now)
    && c.remaining + (m.used - m0.used) <= c0.remaining + c0.budget * r
  }

  lemma StepKeepsSince(m0: Meter, m: Meter, i: nat, ev: Event)
    requires Since(m0, m, i) && Legal(m, i, ev)
    ensures Since(m0, Step(m, i, ev), i)
  {
    var c0, r := m0.s.contexts[i], m.refills - m0.refills;
    Distribute(c0.period, r);
    Distribute(c0.budget, r);
  }

  lemma {:induction false} RunKeepsSince(m0: Meter, m: Meter, i: nat, evs: seq<Event>)
    requires Since(m0, m, i) && LegalRun(m, i, evs)
    ensures Since(m0, Run(m, i, evs), i)
    decreases |evs|
  {
    assert Watched(m, i);
    hide Since, Step;
    if evs != [] {
      StepKeepsSince(m0, m, i, evs[0]);
      RunKeepsSince(m0, Step(m, i, evs[0]), i, evs[1..]);
    }
  }

  lemma SinceStart(m: Meter, i: nat)
    requires Watched(m, i) && m.s.contexts[i].bound && m.s.contexts[i].period > 0
    ensures Since(m, m, i)
  {
  }

  /** With the deadline still ahead at `m0`, refills keep pace with the periods begun since. */
  lemma AheadKeepsPace(m0: Meter, m: Meter, i: nat)
    requires Since(m0, m, i) && m0.now < m0.s.contexts[i].deadline
    ensures var c := m0.s.contexts[i];
            var n := PeriodsSince(m0.now, m.now, c.period);
            && m.refills <= m0.refills + n
            && m.used - m0.used <= c.remaining + c.budget * n
  {
    var c, r := m0.s.contexts[i], m.refills - m0.refills;
    var n := PeriodsSince(m0.now, m.now, c.period);
    if r > 0 {
      Distribute(c.period, r - 1);
      RefillsBelowQuotient(r, c.period, m.now - m0.now + c.period - 1);
    }
    MulMonotone(c.budget, r, n);
  }

  /**
    From a moment on, a bound context is refilled at most once per period begun, in every run, if and only if its
    deadline lies ahead at that moment.
   */
  lemma PaceIsExact(m: Meter, i: nat)
    requires Watched(m, i) && m.s.contexts[i].bound && m.s.contexts[i].period > 0
    requires m.now + m.s.contexts[i].period < WORD
    ensures (forall evs :: LegalRun(m, i, evs) ==> InPace(m, i, evs)) <==> m.now < m.s.contexts[i].deadline
  {
    SinceStart(m, i);
    if m.now < m.s.contexts[i].deadline {
      forall evs | LegalRun(m, i, evs)
        ensures InPace(m, i, evs)
      {
        RunKeepsSince(m, m, i, evs);
        AheadKeepsPace(m, Run(m, i, evs), i);
      }
    } else {
      TickAtOnce(m, i);
    }
  }

  ghost predicate InPace(m: Meter, i: nat, evs: seq<Event>)
    requires Watched(m, i) && LegalRun(m, i, evs)
  {
    var m', p := Run(m, i, evs), m.s.contexts[i].period;
    m.now <= m'.now && p > 0 && m'.refills <= m.refills + PeriodsSince(m.now, m'.now, p)
  }

  /** A context whose deadline has passed is refilled by a tick at the same instant. */
  lemma TickAtOnce(m: Meter, i: nat)
    requires Watched(m, i) && m.s.contexts[i].bound && m.s.contexts[i].period > 0
    requires m.now + m.s.contexts[i].period < WORD && m.s.contexts[i].deadline <= m.now
    ensures LegalRun(m, i, [TickEvent(m.now)]) && !InPace(m, i, [TickEvent(m.now)])
  {
    var evs := [TickEvent(m.now)];
    assert evs[1..] == [];
    var m' := Step(m, i, evs[0]);
    assert LegalRun(m', i, evs[1..]) && Run(m', i, evs[1..]) == m';
    assert Run(m, i, evs) == m' && m'.refills == m.refills + 1 && m'.now == m.now;
    assert PeriodsSince(m.now, m.now, m.s.contexts[i].period) == 0;
  }

  /**
    Deadlines count from time 0, so from a binding on refills keep pace with the periods begun if and only if it comes
    before the first period is over.
   */
  lemma BindingPaceIsExact(s: State, sc: nat, tcb: nat, part: nat, budget: Word, period: Word, prio: nat, now: nat)
    requires Shaped(s) && s.frameStart == 0 && Bind(s, sc, tcb, part, budget, period, prio).1 == Ok
    requires now + period < WORD
    ensures var m := Meter(Bind(s, sc, tcb, part, budget, period, prio).0, now, 0, 0);
            && Watched(m, sc)
            && ((forall evs :: LegalRun(m, sc, evs) ==> InPace(m, sc, evs)) <==> now < period)
  {
    BindIsJustBound(s, sc, tcb, part, budget, period, prio, now);
    PaceIsExact(Meter(Bind(s, sc, tcb, part, budget, period, prio).0, now, 0, 0), sc);
  }

  /** A context bound at 1 s with a budget of 100 us per ms spends three budgets within 2 us. */
  lemma LateBindingSpendsAtOnce(s: State, sc: nat, tcb: nat, part: nat, prio: nat)
    requires Shaped(s) && s.frameStart == 0 && Bind(s, sc, tcb, part, 100, 1000, prio).1 == Ok
    ensures var m := Meter(Bind(s, sc, tcb, part, 100, 1000, prio).0, 1000000, 0, 0);
            var spend := ConsumeEvent(sc, 100);
            var evs := [spend, TickEvent(1000001), spend, TickEvent(1000002), spend];
            && Watched(m, sc) && LegalRun(m, sc, evs)
            && Run(m, sc, evs).used == 300 && Run(m, sc, evs).now == 1000002
  {
    var m0 := Meter(Bind(s, sc, tcb, part, 100, 1000, prio).0, 1000000, 0, 0);
    BindIsJustBound(s, sc, tcb, part, 100, 1000, prio, 1000000);
    hide Bind;
    var spend := ConsumeEvent(sc, 100);
    var evs := [spend, TickEvent(1000001), spend, TickEvent(1000002), spend];
    SpendAndTick(m0, sc, 1000001);
    var m2 := Step(Step(m0, sc, evs[0]), sc, evs[1]);
    SpendAndTick(m2, sc, 1000002);
    var m4 := Step(Step(m2, sc, evs[2]), sc, evs[3]);
    hide Step;
    var m5 := Step(m4, sc, spend);
    Prepend(m4, sc, spend, []);
    Prepend(Step(m2, sc, spend), sc, evs[3], [spend]);
    Prepend(m2, sc, spend, [evs[3], spend]);
    Prepend(Step(m0, sc, spend), sc, evs[1], [spend, evs[3], spend]);
    Prepend(m0, sc, spend, [evs[1], spend, evs[3], spend]);
    assert [spend] + [] == [spend] && [evs[3]] + [spend] == [evs[3], spend];
    assert [spend] + [evs[3], spend] == [spend, evs[3], spend];
    assert [evs[1]] + [spend, evs[3], spend] == [evs[1], spend, evs[3], spend];
    assert [spend] + [evs[1], spend, evs[3], spend] == evs;
  }

  lemma Prepend(m: Meter, i: nat, ev: Event, evs: seq<Event>)
    requires Watched(m, i) && Legal(m, i, ev) && LegalRun(Step(m, i, ev), i, evs)
    ensures LegalRun(m, i, [ev] + evs) && Run(m, i, [ev] + evs) == Run(Step(m, i, ev), i, evs)
  {
    assert ([ev] + evs)[1..] == evs;
    hide Step;
  }

  /** Spending a full budget of 100 and ticking past the deadline gives a full budget again. */
  lemma SpendAndTick(m: Meter, i: nat, now: nat)
    requires Watched(m, i) && m.now <= now && now + 1000 < WORD
    requires var c := m.s.contexts[i];
             c.bound && c.period == 1000 && c.budget == c.remaining == 100 && c.deadline <= now
    ensures Legal(m, i, ConsumeEvent(i, 100))
    ensures var m1 := Step(m, i, ConsumeEvent(i, 100));
            && Legal(m1, i, TickEvent(now))
            && var m2 := Step(m1, i, TickEvent(now));
               var c := m2.s.contexts[i];
               && Watched(m2, i) && m2.now == now && m2.used == m.used + 100
               && c.bound && c.period == 1000 && c.budget == c.remaining == 100
               && c.deadline == m.s.contexts[i].deadline + 1000
               && Legal(m2, i, ConsumeEvent(i, 100))
               && Step(m2, i, ConsumeEvent(i, 100)).used == m.used + 200
               && Step(m2, i, ConsumeEvent(i, 100)).now == now
  {
  }
}
