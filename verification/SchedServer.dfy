/** The admission policy of the user-space scheduling server (userspace/sched_server/server.c). */
module SchedServer {
  import opened Kernel
  import opened Utilization
  import Sched

  const MAX_TASKS: nat := 64

  /** What the test sums over: the admitted tasks and the candidate. */
  function With(ts: seq<Task>, extra: Option<Task>): seq<Task> {
    if extra.Some? then ts + [extra.value] else ts
  }

  /** The server's test: every partial sum, in 64-bit arithmetic, is within the limit. */
  predicate Passes(ts: seq<Task>, p: nat)
    requires TasksOk(ts)
  {
    forall k :: 0 <= k <= |ts| ==> Load(ts[..k], p) % WORD <= LIMIT
  }

  /** The kernel's test on the same tasks: the full sum, in 64-bit arithmetic, without early exit. */
  predicate FullSumPasses(ts: seq<Task>, p: nat)
    requires TasksOk(ts)
  {
    Load(ts, p) % WORD <= LIMIT
  }

  /** What passes with early exits passes the full sum; the two agree whenever the sum itself does not wrap. */
  lemma EarlyExitIsStricter(ts: seq<Task>, p: nat)
    requires TasksOk(ts)
    ensures Passes(ts, p) ==> FullSumPasses(ts, p)
    ensures Load(ts, p) < WORD ==> (Passes(ts, p) <==> FullSumPasses(ts, p))
  {
    assert ts[..|ts|] == ts;
    forall k | 0 <= k <= |ts|
      ensures Load(ts[..k], p) <= Load(ts, p)
    {
      LoadPrefix(ts, k, p);
    }
    hide Load;
    if Load(ts, p) < WORD {
      SmallWord(Load(ts, p));
      forall k | 0 <= k <= |ts| && Load(ts, p) <= LIMIT
        ensures Load(ts[..k], p) % WORD <= LIMIT
      {
        SmallWord(Load(ts[..k], p));
      }
    }
  }

  /** A sum that wraps back under the limit: the full sum accepts what the early exit refuses. */
  lemma EarlyExitCanDiffer(p: nat)
    ensures var t, u := Task(p, 2, 1), Task(p, 184467440737095515, 1);
            !Passes([t, u], p) && FullSumPasses([t, u], p)
  {
    var t, u := Task(p, 2, 1), Task(p, 184467440737095515, 1);
    assert Share(t) == 200 && Share(u) == 18446744073709551500;
    hide Share;
    LoadAppend([], t, p);
    LoadAppend([t], u, p);
    assert [] + [t] == [t] && [t] + [u] == [t, u] && Load([], p) == 0;
    hide Load;
    assert [t, u][..1] == [t];
  }

  /** On a table that passes, the early exits and the full sum give every candidate the same verdict. */
  lemma CandidateVerdictsAgree(ts: seq<Task>, t: Task, p: nat)
    requires TasksOk(ts) && t.period > 0 && Passes(ts, p)
    ensures TasksOk(ts + [t]) && (Passes(ts + [t], p) <==> FullSumPasses(ts + [t], p))
  {
    PassesAppend(ts, t, p);
    hide Passes, Load;
  }

  lemma {:induction false} TasksLoad(cs: seq<Sched.Context>, p: nat)
    requires Sched.PeriodsOk(cs)
    ensures Sched.PartitionLoad(cs, p) <= 100 * |cs|
  {
    if cs != [] {
      var n := |cs| - 1;
      TasksLoad(cs[..n], p);
      Sched.LoadStep(cs, p);
      if cs[n].bound {
        ShareIsSmall(Sched.TaskOf(cs[n]));
      }
      hide Sched.PartitionLoad, Share;
    }
  }

  /** On every set of contexts the kernel can hold, the server's test is the kernel's. */
  lemma KernelVerdictsAgree(cs: seq<Sched.Context>, p: nat)
    requires Sched.PeriodsOk(cs) && |cs| <= Sched.MAX_CONTEXTS
    ensures TasksOk(Sched.TasksOf(cs))
    ensures Passes(Sched.TasksOf(cs), p) <==> Sched.PartitionLoad(cs, p) <= LIMIT
    ensures FullSumPasses(Sched.TasksOf(cs), p) <==> Sched.PartitionLoad(cs, p) <= LIMIT
  {
    Sched.TasksAreOk(cs);
    TasksLoad(cs, p);
    SmallWord(Sched.PartitionLoad(cs, p));
    EarlyExitIsStricter(Sched.TasksOf(cs), p);
    hide Passes, Load;
  }

  lemma PassesAppend(ts: seq<Task>, t: Task, p: nat)
    requires TasksOk(ts) && t.period > 0
    ensures TasksOk(ts + [t])
    ensures Passes(ts + [t], p) <==> Passes(ts, p) && Load(ts + [t], p) % WORD <= LIMIT
    ensures t.partition != p ==> (Passes(ts + [t], p) <==> Passes(ts, p))
  {
    var all := ts + [t];
    LoadAppend(ts, t, p);
    hide Load, Share;
    assert all[..|all|] == all && ts[..|ts|] == ts;
    assert forall k :: 0 <= k <= |ts| ==> all[..k] == ts[..k];
    if Passes(all, p) {
      forall k | 0 <= k <= |ts|
        ensures Load(ts[..k], p) % WORD <= LIMIT
      {
        assert all[..k] == ts[..k];
      }
    }
  }

  lemma PassesPrefix(ts: seq<Task>, n: nat, p: nat)
    requires TasksOk(ts) && n <= |ts| && Passes(ts, p)
    ensures Passes(ts[..n], p)
  {
    forall k | 0 <= k <= n
      ensures Load(ts[..n][..k], p) % WORD <= LIMIT
    {
      assert ts[..n][..k] == ts[..k];
    }
  }

  class Server {
    var tasks: seq<Task>

    /** Every partition, listed or not, passes the server's own test. */
    ghost predicate Valid()
      reads this
    {
      TasksOk(tasks) && |tasks| <= MAX_TASKS && forall p: nat :: Passes(tasks, p)
    }

    constructor ()
      ensures Valid() && tasks == []
    {
      tasks := [];
    }

    /** The loop with its early exits: true exactly when all partial sums pass. */
    method IsSchedulableFor(part: nat, extra: Option<Task>) returns (r: bool)
      requires TasksOk(tasks) && (extra.Some? ==> extra.value.period > 0)
      ensures TasksOk(With(tasks, extra))
      ensures r <==> Passes(With(tasks, extra), part)
    {
      hide Load, Share, Passes;
      if extra.Some? {
        LoadAppend(tasks, extra.value, part);
        PassesAppend(tasks, extra.value, part);
      }
      var sum := 0;
      NothingLoads(part);
      for i := 0 to |tasks|
        invariant TasksOk(tasks[..i]) && sum == Load(tasks[..i], part) % WORD && Passes(tasks[..i], part)
      {
        assert tasks[..i + 1] == tasks[..i] + [tasks[i]];
        LoadAppend(tasks[..i], tasks[i], part);
        PassesAppend(tasks[..i], tasks[i], part);
        if tasks[i].partition == part {
          AddWraps(Load(tasks[..i], part), Share(tasks[i]));
          sum := (sum + Share(tasks[i])) % WORD;
          if sum > LIMIT {
            PrefixFails(tasks, extra, i + 1, part);
            return false;
          }
        }
      }
      assert tasks[..|tasks|] == tasks;
      if extra.Some? && extra.value.partition == part {
        AddWraps(Load(tasks, part), Share(extra.value));
        sum := (sum + Share(extra.value)) % WORD;
        if sum > LIMIT {
          return false;
        }
      }
      return true;
    }

    /** Admits exactly when there is room and the partition passes with the candidate. */
    method Admit(cfg: Task) returns (r: int)
      requires Valid() && cfg.period > 0
      modifies this
      ensures Valid()
      ensures TasksOk(old(tasks) + [cfg])
      ensures r == 0 <==> Passes(old(tasks) + [cfg], cfg.partition) && |old(tasks)| < MAX_TASKS
      ensures r == 0 || r == -1
      ensures tasks == if r == 0 then old(tasks) + [cfg] else old(tasks)
    {
      hide Passes;
      var ok := IsSchedulableFor(cfg.partition, Some(cfg));
      if !ok {
        return -1;
      }
      if |tasks| >= MAX_TASKS {
        return -1;
      }
      ghost var before := tasks;
      tasks := tasks + [cfg];
      forall p: nat
        ensures Passes(tasks, p)
      {
        PassesAppend(before, cfg, p);
      }
      return 0;
    }

    /** True of every valid server: its own admissions never fail its own test. */
    method IsAdmissible() returns (r: bool)
      requires TasksOk(tasks)
      ensures r <==> forall p: nat :: p < 8 ==> Passes(tasks, p)
    {
      hide Passes;
      for p := 0 to 8
        invariant forall q: nat :: q < p ==> Passes(tasks, q)
      {
        var ok := IsSchedulableFor(p, None);
        if !ok {
          return false;
        }
      }
      return true;
    }
  }

  lemma NothingLoads(p: nat)
    ensures Load([], p) == 0 && Passes([], p)
  {
  }

  lemma PrefixFails(ts: seq<Task>, extra: Option<Task>, n: nat, p: nat)
    requires TasksOk(ts) && (extra.Some? ==> extra.value.period > 0) && n <= |ts| && !Passes(ts[..n], p)
    ensures TasksOk(With(ts, extra)) && !Passes(With(ts, extra), p)
  {
    var all := With(ts, extra);
    assert all[..n] == ts[..n];
    hide Passes;
    if Passes(all, p) {
      PassesPrefix(all, n, p);
    }
  }

  // ----- What an admission is worth

  /** The computed shares are the true ones rounded down, and every partition's add up to at most the limit. */
  ghost predicate Sound(ts: seq<Task>) {
    TasksOk(ts) && (forall p: nat :: Load(ts, p) <= LIMIT) && forall i :: 0 <= i < |ts| ==> Small(ts[i])
  }

  /** Neither the candidate's product nor its partition's sum wraps: a check to make before asking. */
  predicate Safe(ts: seq<Task>, t: Task)
    requires TasksOk(ts) && t.period > 0
  {
    Small(t) && Load(ts, t.partition) + Share(t) < WORD
  }

  /** An admission keeps the table sound if and only if nothing wraps. */
  lemma AdmissionIsExact(ts: seq<Task>, t: Task)
    requires Sound(ts) && t.period > 0 && Passes(ts + [t], t.partition)
    ensures Sound(ts + [t]) <==> Safe(ts, t)
  {
    var all := ts + [t];
    PassesAppend(ts, t, t.partition);
    forall p: nat
      ensures TasksOk(all) && Load(all, p) == Load(ts, p) + if t.partition == p then Share(t) else 0
    {
      LoadAppend(ts, t, p);
    }
    hide Load, Share, Small, Passes;
    assert all[|ts|] == t;
    assert forall i :: 0 <= i < |ts| ==> all[i] == ts[i];
  }

  /** A sound table is within the exact bound in every partition. */
  lemma SoundIsBounded(ts: seq<Task>, p: nat)
    requires Sound(ts) && Count(ts, p) > 0
    ensures Exact(ts, p) < 0.99 + Count(ts, p) as real / 100.0
  {
    TestBound(ts, p);
  }

  /** A budget whose product wraps is admitted at zero percent, whatever it asks for. */
  lemma WrappedBudgetIsAdmitted(p: nat)
    ensures var t := Task(p, 184467440737095517, 1000);
            Passes([t], p) && !Small(t) && Exact([t], p) > 184467440737095.0
  {
    var t := Task(p, 184467440737095517, 1000);
    assert Share(t) == 0;
    NothingLoads(p);
    PassesAppend([], t, p);
    LoadAppend([], t, p);
    assert [] + [t] == [t] && [t][..0] == [];
  }

  /** Without any product wrapping, a sum that wraps is admitted too. */
  lemma WrappedSumIsAdmitted(p: nat)
    ensures var t, u := Task(p, 99, 100), Task(p, 184467440737095516, 1);
            Passes([t], p) && Passes([t, u], p) && Small(t) && Small(u) && !Safe([t], u) && Load([t, u], p) > LIMIT
  {
    var t, u := Task(p, 99, 100), Task(p, 184467440737095516, 1);
    assert Share(t) == 99 && Share(u) == WORD - 16;
    hide Share, Load, Passes;
    NothingLoads(p);
    PassesAppend([], t, p);
    LoadAppend([], t, p);
    assert [] + [t] == [t];
    PassesAppend([t], u, p);
    LoadAppend([t], u, p);
    assert [t] + [u] == [t, u];
  }

  // ----- Whole runs

  predicate Admits(ts: seq<Task>, t: Task)
    requires TasksOk(ts) && t.period > 0
  {
    PassesAppend(ts, t, t.partition);
    Passes(ts + [t], t.partition) && |ts| < MAX_TASKS
  }

  function AdmitTask(ts: seq<Task>, t: Task): seq<Task>
    requires TasksOk(ts) && t.period > 0
  {
    if Admits(ts, t) then ts + [t] else ts
  }

  function Run(cfgs: seq<Task>): (ts: seq<Task>)
    requires TasksOk(cfgs)
    ensures TasksOk(ts)
  {
    if cfgs == [] then [] else AdmitTask(Run(cfgs[..|cfgs| - 1]), cfgs[|cfgs| - 1])
  }

  /** Every run of admission requests leaves every partition passing the server's own test. */
  lemma {:induction false} RunStaysAdmissible(cfgs: seq<Task>, p: nat)
    requires TasksOk(cfgs)
    ensures Passes(Run(cfgs), p) && |Run(cfgs)| <= MAX_TASKS
  {
    hide Passes;
    if cfgs == [] {
      NothingLoads(p);
    } else {
      var ts, t := Run(cfgs[..|cfgs| - 1]), cfgs[|cfgs| - 1];
      RunStaysAdmissible(cfgs[..|cfgs| - 1], p);
      PassesAppend(ts, t, p);
    }
  }

  /** In every run the server gives every candidate the verdict of the kernel's full sum. */
  lemma RunVerdictsAgree(cfgs: seq<Task>, t: Task)
    requires TasksOk(cfgs) && t.period > 0
    ensures TasksOk(Run(cfgs) + [t])
    ensures Passes(Run(cfgs) + [t], t.partition) <==> FullSumPasses(Run(cfgs) + [t], t.partition)
  {
    RunStaysAdmissible(cfgs, t.partition);
    CandidateVerdictsAgree(Run(cfgs), t, t.partition);
    hide Passes, FullSumPasses, Run;
  }

  /** No admission of the run wraps. */
  ghost predicate AllSafe(cfgs: seq<Task>)
    requires TasksOk(cfgs)
  {
    forall k :: 0 <= k < |cfgs| && Admits(Run(cfgs[..k]), cfgs[k]) ==> Safe(Run(cfgs[..k]), cfgs[k])
  }

  lemma RunNext(cfgs: seq<Task>, k: nat)
    requires TasksOk(cfgs) && k < |cfgs|
    ensures Run(cfgs[..k + 1]) == AdmitTask(Run(cfgs[..k]), cfgs[k])
  {
    assert cfgs[..k + 1][..k] == cfgs[..k];
  }

  lemma StepIsExact(ts: seq<Task>, t: Task)
    requires Sound(ts) && t.period > 0
    ensures Sound(AdmitTask(ts, t)) <==> (Admits(ts, t) ==> Safe(ts, t))
  {
    assert TasksOk(ts);
    hide Sound, Safe, Passes;
    if Admits(ts, t) {
      AdmissionIsExact(ts, t);
    }
  }

  lemma {:induction false} SafeRunIsSound(cfgs: seq<Task>, k: nat)
    requires TasksOk(cfgs) && AllSafe(cfgs) && k <= |cfgs|
    ensures Sound(Run(cfgs[..k]))
  {
    if k > 0 {
      SafeRunIsSound(cfgs, k - 1);
      RunNext(cfgs, k - 1);
      StepIsExact(Run(cfgs[..k - 1]), cfgs[k - 1]);
    }
  }

  /** The table stays sound throughout a run if and only if no admission of the run wraps. */
  lemma RunIsExact(cfgs: seq<Task>)
    requires TasksOk(cfgs)
    ensures (forall k :: 0 <= k <= |cfgs| ==> Sound(Run(cfgs[..k]))) <==> AllSafe(cfgs)
  {
    hide Sound, Run;
    if AllSafe(cfgs) {
      forall k | 0 <= k <= |cfgs|
        ensures Sound(Run(cfgs[..k]))
      {
        SafeRunIsSound(cfgs, k);
      }
    }
    if forall k :: 0 <= k <= |cfgs| ==> Sound(Run(cfgs[..k])) {
      forall k | 0 <= k < |cfgs| && Admits(Run(cfgs[..k]), cfgs[k])
        ensures Safe(Run(cfgs[..k]), cfgs[k])
      {
        RunNext(cfgs, k);
        assert Sound(Run(cfgs[..k])) && Sound(Run(cfgs[..k + 1]));
        StepIsExact(Run(cfgs[..k]), cfgs[k]);
      }
    }
  }

  /** Every run without wrap-around leaves every partition within the limit, and below 0.99 + n/100 exactly. */
  lemma RunStaysBounded(cfgs: seq<Task>, p: nat)
    requires TasksOk(cfgs) && AllSafe(cfgs)
    ensures Load(Run(cfgs), p) <= LIMIT
    ensures Count(Run(cfgs), p) > 0 ==> Exact(Run(cfgs), p) < 0.99 + Count(Run(cfgs), p) as real / 100.0
  {
    assert cfgs[..|cfgs|] == cfgs;
    SafeRunIsSound(cfgs, |cfgs|);
    if Count(Run(cfgs), p) > 0 {
      SoundIsBounded(Run(cfgs), p);
    }
  }
}
