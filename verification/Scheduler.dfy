/** The scheduler as the kernel keeps it: partition and context tables updated in place (kernel/src/sched.c). */
module Scheduler {
  import opened Kernel
  import opened Tcb
  import opened Utilization
  import opened Sched

  const IDLE: nat := 0xFFFF_FFFF

  class SchedTable {
    const partitions: array<Partition>
    var num: nat
    var frameStart: nat
    var current: nat
    const contexts: array<Context>

    ghost function Value(): State
      reads this, partitions, contexts
    {
      State(partitions[..], num, frameStart, current, contexts[..])
    }

    ghost predicate Ready()
      reads this
    {
      partitions.Length == MAX_PARTITIONS && num <= MAX_PARTITIONS && contexts.Length == MAX_CONTEXTS && frameStart == 0
    }

    constructor ()
      ensures Ready() && Value() == Init() && fresh(partitions) && fresh(contexts)
    {
      partitions := new Partition[MAX_PARTITIONS](_ => NO_PARTITION);
      contexts := new Context[MAX_CONTEXTS](_ => NO_CONTEXT);
      num, frameStart, current := 0, 0, 0;
      new;
      assert partitions[..] == Init().partitions && contexts[..] == Init().contexts;
    }

    method Create(id: nat, offset: Word, budget: Word, crit: nat) returns (e: Error)
      requires Ready()
      modifies this, partitions
      ensures Ready() && (Value(), e) == CreatePartition(old(Value()), id, offset, budget, crit)
    {
      if id >= MAX_PARTITIONS {
        return InvalidArg;
      }
      if (offset + budget) % WORD > FRAME_US {
        return InvalidArg;
      }
      for i := 0 to num
        invariant Value() == old(Value())
        invariant forall j :: 0 <= j < i ==> !Clashes(partitions[j], offset, budget)
      {
        var a := partitions[i].offset;
        var b := (a + partitions[i].budget) % WORD;
        var c := offset;
        var d := (offset + budget) % WORD;
        if !(d <= a || c >= b) {
          assert Clashes(Value().partitions[i], offset, budget);
          return InvalidArg;
        }
      }
      partitions[id] := Partition(offset, budget, crit, id * 2, true);
      if id >= num {
        num := id + 1;
      }
      return Ok;
    }

    method BindContext(sc: nat, tcb: nat, part: nat, budget: Word, period: Word, prio: nat) returns (e: Error)
      requires Ready()
      modifies contexts
      ensures (Value(), e) == Bind(old(Value()), sc, tcb, part, budget, period, prio)
    {
      if sc >= MAX_CONTEXTS {
        return InvalidArg;
      }
      if part >= MAX_PARTITIONS || !partitions[part].active {
        return InvalidArg;
      }
      if budget == 0 || period == 0 || budget > period {
        return InvalidArg;
      }
      if budget > partitions[part].budget {
        return InvalidArg;
      }
      contexts[sc] := contexts[sc].(bound := true, tcb := tcb, partition := part, budget := budget, period := period,
                                    priority := prio, remaining := budget, deadline := period);
      return Ok;
    }

    /** Clears the bound flag, as process creation and destruction do. */
    method Release(sc: nat)
      requires Ready()
      modifies contexts
      ensures Value() == Unbind(old(Value()), sc)
    {
      if sc < MAX_CONTEXTS {
        contexts[sc] := contexts[sc].(bound := false);
      }
    }

    method TickAt(now: nat)
      requires Ready()
      modifies this, contexts
      ensures Ready() && Value() == Tick(old(Value()), now)
    {
      var offset := (now + WORD - frameStart) % WORD % FRAME_US;
      var newPart := current;
      var i := 0;
      ghost var ps := partitions[..num];
      while i < num
        invariant i <= num && newPart == current
        invariant FindOwner(ps, offset, 0) == FindOwner(ps, offset, i)
      {
        var off := partitions[i].offset;
        var end := (off + partitions[i].budget) % WORD;
        if offset >= off && offset < end {
          newPart := i;
          break;
        }
        i := i + 1;
      }
      if newPart != current {
        current := newPart;
      }
      RefillLoop(now);
    }

    method RefillLoop(now: nat)
      requires Ready()
      modifies contexts
      ensures contexts[..] == Refilled(old(contexts[..]), now)
    {
      for i := 0 to MAX_CONTEXTS
        invariant forall j :: 0 <= j < i ==> contexts[j] == Refill(old(contexts[j]), now)
        invariant forall j :: i <= j < MAX_CONTEXTS ==> contexts[j] == old(contexts[j])
      {
        if !contexts[i].bound {
          continue;
        }
        if now >= contexts[i].deadline {
          contexts[i] := contexts[i].(remaining := contexts[i].budget,
                                      deadline := (contexts[i].deadline + contexts[i].period) % WORD, consumed := 0);
        }
      }
    }

    /** The thread of the eligible context with least (priority, index), or idle when no context is eligible. */
    method PickNext(tcbs: TcbTable) returns (r: nat, ghost choice: Option<nat>)
      requires Ready() && ContextsOk(Value()) && tcbs.threads.Length == MAX_TCBS
      ensures IsPick(Value(), tcbs.threads[..], choice)
      ensures r == if choice.Some? then contexts[choice.value].tcb else IDLE
      ensures r == IDLE <==> choice.None?
    {
      ghost var s, ts := Value(), tcbs.threads[..];
      for prio := 0 to 256
        invariant forall j: nat :: Eligible(s, ts, j) ==> s.contexts[j].priority >= prio
      {
        for i := 0 to MAX_CONTEXTS
          invariant forall j: nat :: Eligible(s, ts, j) ==>
                      s.contexts[j].priority > prio || (s.contexts[j].priority == prio && j >= i)
        {
          if !contexts[i].bound || contexts[i].partition != current || contexts[i].priority != prio
             || contexts[i].remaining == 0 {
            continue;
          }
          if tcbs.threads[contexts[i].tcb].state != Runnable {
            continue;
          }
          return contexts[i].tcb, Some(i);
        }
      }
      return IDLE, None;
    }

    method IsSchedulable() returns (r: bool)
      requires Ready() && PeriodsOk(contexts[..])
      ensures r <==> Schedulable(Value())
    {
      ghost var cs := contexts[..];
      for p := 0 to num
        invariant forall q: nat :: q < p ==> PartitionLoad(cs, q) <= LIMIT
      {
        var sum := 0;
        for i := 0 to MAX_CONTEXTS
          invariant PeriodsOk(cs[..i]) && sum == PartitionLoad(cs[..i], p) <= 100 * i
        {
          LoadStep(cs[..i + 1], p);
          assert cs[..i + 1][..i] == cs[..i];
          if !contexts[i].bound {
            continue;
          }
          if contexts[i].partition != p {
            continue;
          }
          ShareIsSmall(TaskOf(contexts[i]));
          SmallWord(sum + Share(TaskOf(contexts[i])));
          sum := (sum + contexts[i].budget * 100 % WORD / contexts[i].period) % WORD;
        }
        assert cs[..MAX_CONTEXTS] == cs;
        if sum > LIMIT {
          return false;
        }
      }
      return true;
    }
  }
}
