/**
  The two-level scheduler (kernel/src/sched.c) as values: time windows, ticks and refills, priority pick, admission
  test.
 */
module Sched {
  import opened Kernel
  import opened Sets
  import opened Tcb
  import opened Utilization

  const FRAME_US: nat := 10000
  const MAX_CONTEXTS: nat := 64

  datatype Partition = Partition(offset: Word, budget: Word, criticality: nat, colorBase: nat, active: bool)

  datatype Context = Context(bound: bool, tcb: nat, partition: nat, budget: Word, period: Word,
                             remaining: Word, deadline: Word, priority: nat, consumed: nat)

  datatype State = State(partitions: seq<Partition>, num: nat, frameStart: nat, current: nat, contexts: seq<Context>)

  const NO_PARTITION := Partition(0, 0, 0, 0, false)
  const NO_CONTEXT := Context(false, 0, 0, 0, 0, 0, 0, 0, 0)

  function Init(): State {
    State(seq(MAX_PARTITIONS, _ => NO_PARTITION), 0, 0, 0, seq(MAX_CONTEXTS, _ => NO_CONTEXT))
  }

  predicate Shaped(s: State) {
    |s.partitions| == MAX_PARTITIONS && s.num <= MAX_PARTITIONS && |s.contexts| == MAX_CONTEXTS
  }

  // ----- Time windows

  /** The overlap test of sched_partition_create, in 64-bit arithmetic. */
  predicate Clashes(p: Partition, offset: Word, budget: Word) {
    !((offset + budget) % WORD <= p.offset || offset >= (p.offset + p.budget) % WORD)
  }

  function CreatePartition(s: State, id: nat, offset: Word, budget: Word, crit: nat): (State, Error)
    requires Shaped(s)
  {
    if id >= MAX_PARTITIONS then (s, InvalidArg)
    else if (offset + budget) % WORD > FRAME_US then (s, InvalidArg)
    else if exists i :: 0 <= i < s.num && Clashes(s.partitions[i], offset, budget) then (s, InvalidArg)
    else (s.(partitions := s.partitions[id := Partition(offset, budget, crit, id * 2, true)],
             num := if id >= s.num then id + 1 else s.num), Ok)
  }

  predicate Apart(p: Partition, q: Partition) {
    p.offset + p.budget <= q.offset || q.offset + q.budget <= p.offset
  }

  predicate InFrame(p: Partition) {
    p.offset + p.budget <= FRAME_US
  }

  /** Windows lie in the frame and are pairwise disjoint; ids never created have empty windows. */
  predicate WindowsOk(s: State) {
    && Shaped(s)
    && (forall i :: 0 <= i < MAX_PARTITIONS ==> InFrame(s.partitions[i]))
    && (forall i :: s.num <= i < MAX_PARTITIONS ==> s.partitions[i] == NO_PARTITION)
    && (forall i, j :: 0 <= i < j < MAX_PARTITIONS ==> Apart(s.partitions[i], s.partitions[j]))
  }

  lemma InitWindows()
    ensures WindowsOk(Init())
  {
  }

  /** An accepted window keeps the invariant if and only if its end does not wrap around 64 bits. */
  lemma CreateIsExact(s: State, id: nat, offset: Word, budget: Word, crit: nat)
    requires WindowsOk(s) && CreatePartition(s, id, offset, budget, crit).1 == Ok
    ensures WindowsOk(CreatePartition(s, id, offset, budget, crit).0) <==> offset + budget < WORD
  {
    var s' := CreatePartition(s, id, offset, budget, crit).0;
    if offset + budget < WORD {
      forall j | 0 <= j < MAX_PARTITIONS && j != id
        ensures Apart(s'.partitions[id], s'.partitions[j])
      {
        if j < s.num {
          assert !Clashes(s.partitions[j], offset, budget);
          assert InFrame(s.partitions[j]);
        }
      }
    } else {
      assert s'.partitions[id].offset + s'.partitions[id].budget >= WORD;
      assert !InFrame(s'.partitions[id]);
    }
  }

  /**
    When a window is accepted: for an id below 8, with an end inside the frame, apart from every window set up so far.
    It is then recorded under the id and no other partition changes; a refusal changes nothing.
   */
  lemma CreateAcceptsExactly(s: State, id: nat, offset: Word, budget: Word, crit: nat)
    requires WindowsOk(s) && offset + budget < WORD
    ensures var (s', e) := CreatePartition(s, id, offset, budget, crit);
            && (e == Ok <==> && id < 8 && offset + budget <= 10000
                             && forall i :: 0 <= i < s.num ==>
                                  offset + budget <= s.partitions[i].offset
                                  || s.partitions[i].offset + s.partitions[i].budget <= offset)
            && (e != Ok ==> e == InvalidArg && s' == s)
            && (e == Ok ==> && s'.partitions == s.partitions[id := Partition(offset, budget, crit, 2 * id, true)]
                            && s'.num == (if id < s.num then s.num else id + 1)
                            && s' == s.(partitions := s'.partitions, num := s'.num))
  {
    forall i | 0 <= i < s.num
      ensures Clashes(s.partitions[i], offset, budget) <==>
              !(offset + budget <= s.partitions[i].offset
                || s.partitions[i].offset + s.partitions[i].budget <= offset)
    {
      assert InFrame(s.partitions[i]);
    }
    hide WindowsOk, Clashes;
  }

  /** The smallest wrap: a huge offset is accepted into an empty frame. */
  lemma WrappedWindowIsAccepted()
    ensures var (s, e) := CreatePartition(Init(), 0, WORD - 1, 2, 0); e == Ok && !WindowsOk(s)
  {
    InitWindows();
    CreateIsExact(Init(), 0, WORD - 1, 2, 0);
  }

  datatype Window = Window(id: nat, offset: Word, budget: Word, crit: nat)

  function CreateAll(ws: seq<Window>): (s: State)
    ensures Shaped(s)
  {
    if ws == [] then Init()
    else
      var w := ws[|ws| - 1];
      CreatePartition(CreateAll(ws[..|ws| - 1]), w.id, w.offset, w.budget, w.crit).0
  }

  ghost function Instants(p: Partition): set<nat> {
    Range(p.offset + p.budget) - Range(p.offset)
  }

  lemma InstantsSize(p: Partition)
    ensures |Instants(p)| == p.budget
  {
    assert Range(p.offset + p.budget) == Instants(p) + Range(p.offset);
  }

  function BudgetSum(ps: seq<Partition>): nat {
    if ps == [] then 0 else BudgetSum(ps[..|ps| - 1]) + ps[|ps| - 1].budget
  }

  ghost function Covered(ps: seq<Partition>): set<nat> {
    if ps == [] then {} else Covered(ps[..|ps| - 1]) + Instants(ps[|ps| - 1])
  }

  lemma {:induction false} CoveredBy(ps: seq<Partition>, t: nat)
    requires t in Covered(ps)
    ensures exists i :: 0 <= i < |ps| && t in Instants(ps[i])
  {
    var n := |ps| - 1;
    if t in Instants(ps[n]) {
    } else {
      CoveredBy(ps[..n], t);
      var i :| 0 <= i < n && t in Instants(ps[..n][i]);
      assert t in Instants(ps[i]);
    }
  }

  lemma LastIsApart(ps: seq<Partition>)
    requires ps != [] && forall i, j :: 0 <= i < j < |ps| ==> Apart(ps[i], ps[j])
    ensures Covered(ps[..|ps| - 1]) !! Instants(ps[|ps| - 1])
  {
    var n := |ps| - 1;
    forall t | t in Covered(ps[..n])
      ensures t !in Instants(ps[n])
    {
      CoveredBy(ps[..n], t);
      var i :| 0 <= i < n && t in Instants(ps[..n][i]);
      assert Apart(ps[i], ps[n]);
    }
  }

  lemma InstantsInFrame(p: Partition)
    requires InFrame(p)
    ensures Instants(p) <= Range(FRAME_US)
  {
  }

  /** Disjoint windows use separate instants, so their budgets add up to what they cover. */
  lemma {:induction false} DisjointSum(ps: seq<Partition>)
    requires forall i :: 0 <= i < |ps| ==> InFrame(ps[i])
    requires forall i, j :: 0 <= i < j < |ps| ==> Apart(ps[i], ps[j])
    ensures Covered(ps) <= Range(FRAME_US) && |Covered(ps)| == BudgetSum(ps)
  {
    hide Instants, Apart, InFrame;
    if ps != [] {
      var n := |ps| - 1;
      DisjointSum(ps[..n]);
      InstantsSize(ps[n]);
      InstantsInFrame(ps[n]);
      LastIsApart(ps);
    }
  }

  /**
    Every run of partition creations, with gaps and re-created ids, keeps disjoint windows whose budgets fit the
    frame.
   */
  lemma {:induction false} RunKeepsWindows(ws: seq<Window>)
    requires forall w :: w in ws ==> w.offset + w.budget < WORD
    ensures WindowsOk(CreateAll(ws))
    ensures BudgetSum(CreateAll(ws).partitions) <= FRAME_US
  {
    if ws == [] {
      InitWindows();
    } else {
      var w := ws[|ws| - 1];
      RunKeepsWindows(ws[..|ws| - 1]);
      var s := CreateAll(ws[..|ws| - 1]);
      if CreatePartition(s, w.id, w.offset, w.budget, w.crit).1 == Ok {
        CreateIsExact(s, w.id, w.offset, w.budget, w.crit);
      }
    }
    DisjointSum(CreateAll(ws).partitions);
    SubsetSize(Covered(CreateAll(ws).partitions), Range(FRAME_US));
  }

  // ----- Ticks

  /** A window inside the frame owns the instants from its offset to before its end. */
  lemma OwnsIs(p: Partition, t: nat)
    requires InFrame(p)
    ensures Owns(p, t) <==> p.offset <= t < p.offset + p.budget
  {
  }

  /**
    What a tick does besides choosing the partition: a bound context whose deadline has come gets its full budget and
    the next deadline, and nothing else changes.
   */
  lemma TickRefillsExactly(s: State, now: nat, i: nat)
    requires Shaped(s) && s.frameStart <= WORD && i < |s.contexts|
    ensures var s' := Tick(s, now);
            && |s'.contexts| == |s.contexts| && s' == s.(current := s'.current, contexts := s'.contexts)
            && (s.contexts[i].bound && s.contexts[i].deadline <= now ==>
                  && s'.contexts[i].remaining == s.contexts[i].budget && s'.contexts[i].consumed == 0
                  && s'.contexts[i].deadline == (s.contexts[i].deadline + s.contexts[i].period) % WORD
                  && s'.contexts[i] == s.contexts[i].(remaining := s'.contexts[i].remaining, consumed := 0,
                                                      deadline := s'.contexts[i].deadline))
            && (!(s.contexts[i].bound && s.contexts[i].deadline <= now) ==> s'.contexts[i] == s.contexts[i])
  {
    hide FindOwner;
  }

  predicate Owns(p: Partition, t: nat) {
    p.offset <= t < (p.offset + p.budget) % WORD
  }

  /** The first partition whose window holds instant `t`, scanning from `i`. */
  function FindOwner(ps: seq<Partition>, t: nat, i: nat): (r: Option<nat>)
    requires i <= |ps|
    ensures r.Some? ==> i <= r.value < |ps| && Owns(ps[r.value], t)
    ensures r.None? ==> forall j :: i <= j < |ps| ==> !Owns(ps[j], t)
    decreases |ps| - i
  {
    if i == |ps| then None else if Owns(ps[i], t) then Some(i) else FindOwner(ps, t, i + 1)
  }

  function FrameOffset(s: State, now: nat): nat
    requires s.frameStart <= WORD
  {
    (now + WORD - s.frameStart) % WORD % FRAME_US
  }

  /** A due context gets a full budget and its next deadline. */
  function Refill(c: Context, now: nat): Context {
    if c.bound && now >= c.deadline
    then c.(remaining := c.budget, deadline := (c.deadline + c.period) % WORD, consumed := 0)
    else c
  }

  function Refilled(cs: seq<Context>, now: nat): (r: seq<Context>)
    ensures |r| == |cs|
  {
    seq(|cs|, i requires 0 <= i < |cs| => Refill(cs[i], now))
  }

  function Tick(s: State, now: nat): State
    requires Shaped(s) && s.frameStart <= WORD
  {
    var owner := FindOwner(s.partitions[..s.num], FrameOffset(s, now), 0);
    s.(current := if owner.Some? then owner.value else s.current, contexts := Refilled(s.contexts, now))
  }

  /** After a tick inside some window the current partition is that window's, the only one holding the instant. */
  lemma TickFindsOwner(s: State, now: nat, i: nat)
    requires WindowsOk(s) && s.frameStart == 0 && now < WORD
    requires i < MAX_PARTITIONS && Owns(s.partitions[i], now % FRAME_US)
    ensures Tick(s, now).current == i
    ensures forall j :: 0 <= j < MAX_PARTITIONS && Owns(s.partitions[j], now % FRAME_US) ==> j == i
  {
    assert FrameOffset(s, now) == now % FRAME_US;
    forall j | 0 <= j < MAX_PARTITIONS && j != i
      ensures !Owns(s.partitions[j], now % FRAME_US)
    {
      assert if j < i then Apart(s.partitions[j], s.partitions[i]) else Apart(s.partitions[i], s.partitions[j]);
      assert InFrame(s.partitions[i]) && InFrame(s.partitions[j]);
    }
    assert i < s.num;
    assert s.partitions[..s.num][i] == s.partitions[i];
  }

  /** Which partition runs at a covered instant depends on nothing but the instant within the frame. */
  lemma TickIsPeriodic(s: State, s': State, now: nat, now': nat, i: nat)
    requires WindowsOk(s) && WindowsOk(s') && s.partitions == s'.partitions && s.frameStart == s'.frameStart == 0
    requires now < WORD && now' < WORD && now % FRAME_US == now' % FRAME_US
    requires i < MAX_PARTITIONS && Owns(s.partitions[i], now % FRAME_US)
    ensures Tick(s, now).current == Tick(s', now').current == i
  {
    TickFindsOwner(s, now, i);
    TickFindsOwner(s', now', i);
  }

  /**
    Time isolation, exactly: after a tick the current partition owns the instant if and only if some partition does.
    In a gap between windows the partition that ran last goes on.
   */
  lemma TickIsExact(s: State, now: nat)
    requires WindowsOk(s) && s.frameStart == 0 && now < WORD && s.current < MAX_PARTITIONS
    ensures Tick(s, now).current < MAX_PARTITIONS
    ensures Owns(s.partitions[Tick(s, now).current], now % FRAME_US) <==>
            exists i :: 0 <= i < MAX_PARTITIONS && Owns(s.partitions[i], now % FRAME_US)
    ensures Tick(s, now).current == s.current || Owns(s.partitions[Tick(s, now).current], now % FRAME_US)
  {
    if i :| 0 <= i < MAX_PARTITIONS && Owns(s.partitions[i], now % FRAME_US) {
      TickFindsOwner(s, now, i);
    } else {
      assert FrameOffset(s, now) == now % FRAME_US;
      assert forall i :: 0 <= i < s.num ==> s.partitions[..s.num][i] == s.partitions[i];
    }
  }

  /** A partition with the first millisecond of the frame is still current in the middle of an otherwise empty frame. */
  lemma GapRunsPrevious()
    ensures var s := Tick(CreatePartition(Init(), 1, 0, 1000, 0).0, 0);
            s.current == 1 && !Owns(s.partitions[1], 5000) && Tick(s, 5000).current == 1
  {
    InitWindows();
    CreateIsExact(Init(), 1, 0, 1000, 0);
    var s := CreatePartition(Init(), 1, 0, 1000, 0).0;
    assert Owns(s.partitions[1], 0);
    TickFindsOwner(s, 0, 1);
    var s' := Tick(s, 0);
    assert forall i :: 0 <= i < MAX_PARTITIONS && i != 1 ==> s.partitions[i] == NO_PARTITION;
    TickIsExact(s', 5000);
  }

  // ----- Priority pick

  predicate Eligible(s: State, threads: seq<Thread>, i: nat) {
    && i < |s.contexts| && s.contexts[i].bound && s.contexts[i].partition == s.current && s.contexts[i].remaining != 0
    && s.contexts[i].tcb < |threads| && threads[s.contexts[i].tcb].state == Runnable
  }

  /** Context `i` comes before context `j`: higher priority, or the same and a lower index. */
  predicate Before(s: State, i: nat, j: nat)
    requires i < |s.contexts| && j < |s.contexts|
  {
    s.contexts[i].priority < s.contexts[j].priority || (s.contexts[i].priority == s.contexts[j].priority && i <= j)
  }

  /** Bound contexts name existing threads; priorities are bytes. */
  predicate ContextsOk(s: State) {
    forall i :: 0 <= i < |s.contexts| && s.contexts[i].bound ==>
      s.contexts[i].tcb < MAX_TCBS && s.contexts[i].priority < 256
  }

  /** The choice is unique: first in the order among the eligible. */
  ghost predicate IsPick(s: State, threads: seq<Thread>, r: Option<nat>) {
    match r
    case None => forall j: nat :: !Eligible(s, threads, j)
    case Some(i) => Eligible(s, threads, i) && forall j: nat :: Eligible(s, threads, j) ==> Before(s, i, j)
  }

  lemma PickIsUnique(s: State, threads: seq<Thread>, r: Option<nat>, r': Option<nat>)
    requires IsPick(s, threads, r) && IsPick(s, threads, r')
    ensures r == r'
  {
  }

  /**
    After a tick inside a window, what is picked is a runnable thread of that window's partition with budget left,
    first by priority and then by index among those; and there is none only if none has budget left.
   */
  lemma PickServesOwner(s: State, now: nat, i: nat, threads: seq<Thread>, r: Option<nat>)
    requires WindowsOk(s) && s.frameStart == 0 && now < WORD
    requires i < MAX_PARTITIONS && Owns(s.partitions[i], now % FRAME_US)
    requires IsPick(Tick(s, now), threads, r)
    ensures r.Some? ==>
              var c := Tick(s, now).contexts[r.value];
              c.bound && c.partition == i && c.remaining > 0 && c.tcb < |threads| && threads[c.tcb].state == Runnable
    ensures r.Some? ==>
              var s' := Tick(s, now);
              forall k :: 0 <= k < |s'.contexts| && s'.contexts[k].bound && s'.contexts[k].partition == i
                          && s'.contexts[k].remaining > 0 && s'.contexts[k].tcb < |threads|
                          && threads[s'.contexts[k].tcb].state == Runnable ==>
                || s'.contexts[r.value].priority < s'.contexts[k].priority
                || (s'.contexts[r.value].priority == s'.contexts[k].priority && r.value <= k)
    ensures r.None? ==>
              forall k :: 0 <= k < |s.contexts| && s.contexts[k].bound && s.contexts[k].partition == i
                          && s.contexts[k].tcb < |threads| && threads[s.contexts[k].tcb].state == Runnable ==>
                Tick(s, now).contexts[k].remaining == 0
  {
    TickFindsOwner(s, now, i);
    var s' := Tick(s, now);
    if r.None? {
      forall k: nat | k < |s.contexts| && s.contexts[k].bound && s.contexts[k].partition == i
                      && s.contexts[k].tcb < |threads| && threads[s.contexts[k].tcb].state == Runnable
        ensures s'.contexts[k].remaining == 0
      {
        assert !Eligible(s', threads, k);
      }
    } else {
      hide Tick;
      forall k: nat | k < |s'.contexts| && s'.contexts[k].bound && s'.contexts[k].partition == i
                      && s'.contexts[k].remaining > 0 && s'.contexts[k].tcb < |threads|
                      && threads[s'.contexts[k].tcb].state == Runnable
        ensures Before(s', r.value, k)
      {
        assert Eligible(s', threads, k);
      }
    }
  }

  // ----- Binding and admission

  function Bind(s: State, sc: nat, tcb: nat, part: nat, budget: Word, period: Word, prio: nat)
    : (State, Error)
    requires Shaped(s)
  {
    if sc >= MAX_CONTEXTS then (s, InvalidArg)
    else if part >= MAX_PARTITIONS || !s.partitions[part].active then (s, InvalidArg)
    else if budget == 0 || period == 0 || budget > period then (s, InvalidArg)
    else if budget > s.partitions[part].budget then (s, InvalidArg)
    else
      var c := s.contexts[sc].(bound := true, tcb := tcb, partition := part, budget := budget, period := period,
                               priority := prio, remaining := budget, deadline := period);
      (s.(contexts := s.contexts[sc := c]), Ok)
  }

  /** When a binding is accepted, what it sets, and that nothing else changes; a refusal changes nothing. */
  lemma BindIsExact(s: State, sc: nat, tcb: nat, part: nat, budget: Word, period: Word, prio: nat)
    requires Shaped(s)
    ensures var (s', e) := Bind(s, sc, tcb, part, budget, period, prio);
            && (e == Ok <==> && sc < 64 && part < 8 && s.partitions[part].active
                             && 0 < budget <= period && budget <= s.partitions[part].budget)
            && (e != Ok ==> e == InvalidArg && s' == s)
            && (e == Ok ==>
                  && |s'.contexts| == |s.contexts| && s' == s.(contexts := s.contexts[sc := s'.contexts[sc]])
                  && var c := s'.contexts[sc];
                     && c.bound && c.tcb == tcb && c.partition == part && c.priority == prio
                     && c.budget == c.remaining == budget && c.period == c.deadline == period
                     && c.consumed == s.contexts[sc].consumed)
  {
  }

  /** Releasing a context clears its bound flag and nothing else. */
  lemma UnbindIsExact(s: State, sc: nat)
    ensures var s' := Unbind(s, sc);
            && |s'.contexts| == |s.contexts| && s' == s.(contexts := s'.contexts)
            && (sc < |s.contexts| ==> s'.contexts == s.contexts[sc := s.contexts[sc].(bound := false)])
            && (sc >= |s.contexts| ==> s' == s)
  {
  }

  function Unbind(s: State, sc: nat): State {
    if sc < |s.contexts| then s.(contexts := s.contexts[sc := s.contexts[sc].(bound := false)]) else s
  }

  function TaskOf(c: Context): Task {
    Task(c.partition, c.budget, c.period)
  }

  /** The bound contexts as tasks, in index order. */
  function TasksOf(cs: seq<Context>): seq<Task> {
    if cs == [] then []
    else
      var n := |cs| - 1;
      TasksOf(cs[..n]) + if cs[n].bound then [TaskOf(cs[n])] else []
  }

  /** A bound context has a period, and a budget within it. */
  predicate PeriodsOk(cs: seq<Context>) {
    forall i :: 0 <= i < |cs| && cs[i].bound ==> cs[i].period > 0 && cs[i].budget <= cs[i].period
  }

  lemma {:induction false} TasksAreOk(cs: seq<Context>)
    requires PeriodsOk(cs)
    ensures TasksOk(TasksOf(cs))
  {
    if cs != [] {
      TasksAreOk(cs[..|cs| - 1]);
    }
  }

  /** The percentage sum of partition `p` over the bound contexts. */
  ghost function PartitionLoad(cs: seq<Context>, p: nat): nat
    requires PeriodsOk(cs)
  {
    TasksAreOk(cs);
    Load(TasksOf(cs), p)
  }

  /** sched_is_schedulable. */
  ghost predicate Schedulable(s: State)
    requires PeriodsOk(s.contexts)
  {
    forall p: nat :: p < s.num ==> PartitionLoad(s.contexts, p) <= LIMIT
  }

  /** No window and no bound context is longer than the frame, so no percentage wraps. */
  predicate BudgetsFit(s: State) {
    && (forall p :: 0 <= p < |s.partitions| ==> s.partitions[p].budget <= FRAME_US)
    && (forall c :: 0 <= c < |s.contexts| && s.contexts[c].bound ==> s.contexts[c].budget <= FRAME_US)
  }

  lemma {:induction false} FitIsSmall(cs: seq<Context>, p: nat)
    requires forall c :: 0 <= c < |cs| && cs[c].bound ==> cs[c].budget <= FRAME_US
    ensures AllSmall(TasksOf(cs), p)
  {
    if cs != [] {
      FitIsSmall(cs[..|cs| - 1], p);
    }
  }

  /** A schedulable system's partitions are below 0.99 + n/100 exactly. */
  lemma SchedulableIsBounded(s: State, p: nat)
    requires PeriodsOk(s.contexts) && Schedulable(s) && BudgetsFit(s) && p < s.num
    ensures TasksOk(TasksOf(s.contexts))
    ensures var ts := TasksOf(s.contexts);
            Count(ts, p) > 0 ==> Exact(ts, p) < 0.99 + Count(ts, p) as real / 100.0
  {
    TasksAreOk(s.contexts);
    FitIsSmall(s.contexts, p);
    TestBound(TasksOf(s.contexts), p);
    assert PartitionLoad(s.contexts, p) <= LIMIT;
  }

  lemma LoadStep(cs: seq<Context>, p: nat)
    requires cs != [] && PeriodsOk(cs)
    ensures var n := |cs| - 1;
            PartitionLoad(cs, p) == PartitionLoad(cs[..n], p) +
              if cs[n].bound && cs[n].partition == p then Share(TaskOf(cs[n])) else 0
  {
    var n := |cs| - 1;
    TasksAreOk(cs[..n]);
    if cs[n].bound {
      LoadAppend(TasksOf(cs[..n]), TaskOf(cs[n]), p);
    } else {
      assert TasksOf(cs[..n]) + [] == TasksOf(cs[..n]);
    }
  }

  lemma {:induction false} NothingBound(cs: seq<Context>)
    requires forall c :: 0 <= c < |cs| ==> !cs[c].bound
    ensures TasksOf(cs) == []
  {
    if cs != [] {
      NothingBound(cs[..|cs| - 1]);
    }
  }

  /** Releasing a context lowers its partition's sum by its share and touches no other. */
  lemma {:induction false} LoadUnbind(cs: seq<Context>, k: nat, c: Context, p: nat)
    requires PeriodsOk(cs) && k < |cs| && !c.bound
    ensures PeriodsOk(cs[k := c])
    ensures PartitionLoad(cs, p) == PartitionLoad(cs[k := c], p) +
              if cs[k].bound && cs[k].partition == p then Share(TaskOf(cs[k])) else 0
    decreases |cs|
  {
    hide PartitionLoad;
    var n := |cs| - 1;
    LoadStep(cs, p);
    LoadStep(cs[k := c], p);
    if k == n {
      assert cs[k := c][..n] == cs[..n];
    } else {
      assert cs[k := c][..n] == cs[..n][k := c];
      LoadUnbind(cs[..n], k, c, p);
    }
  }

  lemma UnbindKeepsSchedulable(s: State, k: nat)
    requires PeriodsOk(s.contexts) && Schedulable(s)
    ensures PeriodsOk(Unbind(s, k).contexts) && Schedulable(Unbind(s, k))
  {
    if k < |s.contexts| {
      forall p: nat | p < s.num
        ensures PeriodsOk(Unbind(s, k).contexts) && PartitionLoad(Unbind(s, k).contexts, p) <= LIMIT
      {
        LoadUnbind(s.contexts, k, s.contexts[k].(bound := false), p);
      }
    }
  }
}
