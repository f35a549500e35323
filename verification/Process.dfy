/**
  The process life cycle (kernel/src/process.c): creating and destroying processes across the thread table, the
  scheduling contexts, the derivation tree, the frame allocator and the endpoints.
 */
module Process {
  import opened Kernel
  import opened Tcb
  import Alloc
  import Mdb
  import Sched
  import Endpoint
  import Ipc
  import CNode
  import Utilization

  datatype Args = Args(partition: nat, budget: Word, period: Word, priority: nat, pc: Word, spTop: Word,
                       stackSize: Word)

  datatype System = System(tcbs: seq<Thread>, count: nat, sched: Sched.State, mdb: Mdb.Tree, alloc: Alloc.State,
                           eps: seq<Endpoint.Mode>, cnodes: seq<CNode.Node>)

  /** A TCB is free when its pc, sp and cspace are all zero. */
  predicate InUse(t: Thread) {
    t.pc != 0 || t.sp != 0 || t.cspace != 0
  }

  function FirstFree(tcbs: seq<Thread>, from: nat): (r: nat)
    requires from <= |tcbs|
    ensures from <= r <= |tcbs|
    ensures forall i :: from <= i < r ==> InUse(tcbs[i])
    ensures r < |tcbs| ==> !InUse(tcbs[r])
    decreases |tcbs| - from
  {
    if from < |tcbs| && InUse(tcbs[from]) then FirstFree(tcbs, from + 1) else from
  }

  function FirstUnbound(cs: seq<Sched.Context>, from: nat): (r: nat)
    requires from <= |cs|
    ensures from <= r <= |cs|
    ensures forall i :: from <= i < r ==> cs[i].bound
    ensures r < |cs| ==> !cs[r].bound
    decreases |cs| - from
  {
    if from < |cs| && cs[from].bound then FirstUnbound(cs, from + 1) else from
  }

  /** The TCB of a new process: code and stack capabilities bounded to its image and its stack frame. */
  function NewThread(id: nat, args: Args, stack: Cap, context: nat): Thread {
    var page := args.pc - args.pc % PAGE_SIZE;
    EmptyThread().(id := id, partition := args.partition, priority := args.priority, pc := args.pc, sp := args.spTop,
                   pcc := HwCap(page, (page + 0x10000) % WORD, args.pc, 0, 0, true, false),
                   csp := HwCap(stack.hw.base, (stack.hw.base + args.stackSize) % WORD, args.spTop, 0, 0, true, false),
                   schedContext := context, state := Inactive)
  }

  // ----- Invariant

  predicate StackNode(n: Mdb.Node, i: nat) {
    n.cptr == i && n.cnodeId == 0 && n.slot == 0 && n.parent == Mdb.NIL && n.firstChild == Mdb.NIL
  }

  /** In-use threads and bound contexts name each other. */
  ghost predicate Paired(tcbs: seq<Thread>, cs: seq<Sched.Context>) {
    && (forall i :: 0 <= i < |tcbs| && InUse(tcbs[i]) ==>
          tcbs[i].schedContext < |cs| && cs[tcbs[i].schedContext].bound && cs[tcbs[i].schedContext].tcb == i)
    && (forall c :: 0 <= c < |cs| && cs[c].bound ==>
          cs[c].tcb < |tcbs| && InUse(tcbs[cs[c].tcb]) && tcbs[cs[c].tcb].schedContext == c)
  }

  ghost predicate FreeIsEmpty(tcbs: seq<Thread>) {
    forall i :: 0 <= i < |tcbs| && !InUse(tcbs[i]) ==> tcbs[i] == EmptyThread()
  }

  ghost function Used(tcbs: seq<Thread>): set<nat> {
    set i: nat | i < |tcbs| && InUse(tcbs[i])
  }

  ghost function Bound(cs: seq<Sched.Context>): set<nat> {
    set c: nat | c < |cs| && cs[c].bound
  }

  /** The admission test has been passed, and it covered every bound context. */
  ghost predicate Admitted(s: Sched.State) {
    && Sched.Shaped(s) && Sched.PeriodsOk(s.contexts) && Sched.Schedulable(s)
    && (forall p :: 0 <= p < MAX_PARTITIONS && s.partitions[p].active ==> p < s.num)
    && (forall c :: 0 <= c < |s.contexts| && s.contexts[c].bound ==> s.contexts[c].partition < s.num)
  }

  /** The tables have their sizes, the tree is well formed, and no bound context divides by zero. */
  ghost predicate Ready(sys: System) {
    && |sys.tcbs| == MAX_TCBS && Mdb.Valid(sys.mdb) && CNode.AllShaped(sys.cnodes)
    && Sched.Shaped(sys.sched) && Sched.PeriodsOk(sys.sched.contexts)
  }

  /** What creation and destruction keep whatever the derivation tree holds besides. */
  ghost predicate Inv(sys: System) {
    && Ready(sys)
    && Paired(sys.tcbs, sys.sched.contexts)
    && FreeIsEmpty(sys.tcbs)
    && sys.count == |Used(sys.tcbs)|
    && Admitted(sys.sched)
  }

  lemma SizesOf(sys: System)
    requires Inv(sys)
    ensures Ready(sys) && |sys.tcbs| == MAX_TCBS && Sched.PeriodsOk(sys.sched.contexts)
  {
  }

  // ----- Creation

  /** Scheduling: bind the first free context and test admission; what is left and whether it was accepted. */
  ghost function Admit(s: Sched.State, id: nat, args: Args): (r: (Sched.State, Error, nat))
    requires Sched.Shaped(s) && Sched.PeriodsOk(s.contexts)
  {
    var c := FirstUnbound(s.contexts, 0);
    if c >= |s.contexts| then (s, NoMem, 0)
    else
      var (s1, e) := Sched.Bind(s, c, id, args.partition, args.budget, args.period, args.priority);
      if e != Ok then (s1, e, 0)
      else if !Sched.Schedulable(s1) then (Sched.Unbind(s1, c), InvalidArg, 0)
      else (s1, Ok, c)
  }

  ghost function Create(sys: System, args: Args): (System, Error, nat)
    requires Ready(sys)
  {
    if args.partition >= MAX_PARTITIONS then (sys, InvalidArg, 0)
    else if args.budget > args.period || args.budget == 0 then (sys, InvalidArg, 0)
    else
      var id := FirstFree(sys.tcbs, 0);
      if id >= MAX_TCBS then (sys, NoMem, 0)
      else
        var (alloc, e, stack) := Alloc.AllocFrame(sys.alloc, args.partition, args.stackSize);
        if e != Ok then (sys.(alloc := alloc), e, 0)
        else
          var (sched, e1, c) := Admit(sys.sched, id, args);
          if e1 != Ok then (sys.(alloc := alloc, sched := sched, tcbs := sys.tcbs[id := EmptyThread()]), e1, 0)
          else (System(sys.tcbs[id := NewThread(id, args, stack, c)], sys.count + 1, sched,
                       Mdb.Insert(sys.mdb, Mdb.NIL, id, stack).0, alloc, sys.eps, sys.cnodes), Ok, id)
  }

  /** The first tree node that matches (0, id), or NIL. */
  function FirstMatch(nodes: seq<Mdb.Node>, slot: nat, from: nat): (r: nat)
    requires |nodes| == Mdb.MAX_NODES && from <= Mdb.MAX_NODES
    ensures r == Mdb.NIL <==> forall i :: from <= i < Mdb.MAX_NODES ==> !Mdb.Matches(nodes[i], 0, slot)
    ensures r != Mdb.NIL ==> from <= r < Mdb.MAX_NODES && Mdb.Matches(nodes[r], 0, slot)
                             && forall i :: from <= i < r ==> !Mdb.Matches(nodes[i], 0, slot)
    decreases Mdb.MAX_NODES - from
  {
    if from == Mdb.MAX_NODES then Mdb.NIL
    else if Mdb.Matches(nodes[from], 0, slot) then from
    else FirstMatch(nodes, slot, from + 1)
  }

  /** The tree after the dying process's stack capability and everything derived from it are revoked and deleted. */
  ghost function Forget(t: Mdb.Tree, id: nat): Mdb.Tree
    requires Mdb.Valid(t)
  {
    var idx := FirstMatch(t.nodes, id, 0);
    if idx == Mdb.NIL then t
    else
      Mdb.RevokeKeepsValid(t, idx);
      Mdb.Delete(Mdb.Revoke(t, idx).0, idx).0
  }

  ghost function Destroy(sys: System, id: nat): (System, Error)
    requires Ready(sys)
  {
    if id >= MAX_TCBS then (sys, InvalidArg)
    else if !InUse(sys.tcbs[id]) then (sys, InvalidArg)
    else
      (System(sys.tcbs[id := EmptyThread()], if sys.count > 0 then sys.count - 1 else 0,
              Sched.Unbind(sys.sched, sys.tcbs[id].schedContext), Forget(sys.mdb, id), sys.alloc,
              Ipc.CleanedAll(sys.eps, id), CNode.ClearSpace(sys.cnodes, sys.tcbs[id].cspace)), Ok)
  }

  /** tcb_configure on a thread of the table. */
  function Configure(sys: System, id: nat, c: Setup): (System, Error)
    requires id < |sys.tcbs|
  {
    (sys.(tcbs := sys.tcbs[id := Configured(sys.tcbs[id], c).0]), Configured(sys.tcbs[id], c).1)
  }

  /** The three ways a creation can end: refused early, refused by admission, or done. */
  lemma CreateCases(sys: System, args: Args)
    requires Ready(sys)
    ensures var (sys', e, id) := Create(sys, args);
            var free := FirstFree(sys.tcbs, 0);
            var (a, ea, stack) := Alloc.AllocFrame(sys.alloc, args.partition, args.stackSize);
            var (s, es, c) := Admit(sys.sched, free, args);
            && (e != Ok ==>
                  || sys' == sys
                  || (free < MAX_TCBS && sys' == sys.(alloc := a))
                  || (free < MAX_TCBS && ea == Ok && es != Ok
                      && sys' == sys.(alloc := a, sched := s, tcbs := sys.tcbs[free := EmptyThread()])))
            && (e == Ok ==>
                  && id == free < MAX_TCBS && ea == Ok && es == Ok
                  && sys' == System(sys.tcbs[id := NewThread(id, args, stack, c)], sys.count + 1, s,
                                    Mdb.Insert(sys.mdb, Mdb.NIL, id, stack).0, a, sys.eps, sys.cnodes))
  {
    hide Mdb.Valid, Alloc.AllocFrame, Admit, Mdb.Insert, NewThread, CNode.AllShaped;
  }

  // ----- What creation keeps

  /**
    Recording a stack under no parent: the lowest free slot of the tree takes it, if there is one, and nothing else
    changes.
   */
  lemma InsertRoot(t: Mdb.Tree, id: nat, stack: Cap)
    requires Mdb.Valid(t)
    ensures var (t', e, idx) := Mdb.Insert(t, Mdb.NIL, id, stack);
            && Mdb.Valid(t')
            && (e != Ok ==> t' == t)
            && (e == Ok ==> idx < |t.nodes| == |t'.nodes| == Mdb.MAX_NODES && !t.nodes[idx].valid
                            && t'.nodes == t.nodes[idx := t'.nodes[idx]]
                            && t'.nodes[idx].valid && StackNode(t'.nodes[idx], id))
  {
    Mdb.InsertKeepsValid(t, Mdb.NIL, id, stack);
    Mdb.InsertTakesLowest(t, Mdb.NIL, id, stack);
    ValidSize(t);
    hide Mdb.Valid;
  }

  /** Scheduling a new process keeps the tables' shape. */
  lemma AdmitKeepsShape(s: Sched.State, id: nat, args: Args)
    requires Sched.Shaped(s) && Sched.PeriodsOk(s.contexts)
    ensures Sched.Shaped(Admit(s, id, args).0) && Sched.PeriodsOk(Admit(s, id, args).0.contexts)
  {
    hide Sched.Schedulable;
  }

  lemma CreateKeepsReady(sys: System, args: Args)
    requires Ready(sys)
    ensures Ready(Create(sys, args).0)
  {
    CreateCases(sys, args);
    var id := FirstFree(sys.tcbs, 0);
    AdmitKeepsShape(sys.sched, id, args);
    InsertRoot(sys.mdb, id, Alloc.AllocFrame(sys.alloc, args.partition, args.stackSize).2);
    hide Create, Mdb.Valid, Mdb.Insert, Alloc.AllocFrame, Admit, Sched.PeriodsOk, CNode.AllShaped;
  }


  lemma UsedGrows(tcbs: seq<Thread>, id: nat, th: Thread)
    requires id < |tcbs| && !InUse(tcbs[id]) && InUse(th)
    ensures |Used(tcbs[id := th])| == |Used(tcbs)| + 1
  {
    assert Used(tcbs[id := th]) == Used(tcbs) + {id};
  }

  lemma UsedShrinks(tcbs: seq<Thread>, id: nat)
    requires id < |tcbs| && InUse(tcbs[id])
    ensures |Used(tcbs[id := EmptyThread()])| == |Used(tcbs)| - 1
  {
    assert Used(tcbs[id := EmptyThread()]) == Used(tcbs) - {id};
  }

  /**
    A binding that passes the test keeps the scheduler admitted; one that fails leaves every bound context as it was.
   */
  lemma AdmitKeeps(s: Sched.State, id: nat, args: Args)
    requires Admitted(s)
    ensures var (s', e, c) := Admit(s, id, args);
            && Admitted(s')
            && SameBound(s, s') == (e != Ok)
            && (e == Ok ==> c < |s.contexts| && !s.contexts[c].bound && s'.contexts[c].bound && s'.contexts[c].tcb == id
                            && |s'.contexts| == |s.contexts|
                            && forall k :: 0 <= k < |s.contexts| && k != c ==> s'.contexts[k] == s.contexts[k])
  {
    var c := FirstUnbound(s.contexts, 0);
    if c < |s.contexts| {
      var (s1, e) := Sched.Bind(s, c, id, args.partition, args.budget, args.period, args.priority);
      if e == Ok {
        if !Sched.Schedulable(s1) {
          assert Sched.Unbind(s1, c).contexts == s.contexts[c := s1.contexts[c].(bound := false)];
          forall p: nat | p < s.num
            ensures Sched.PeriodsOk(Sched.Unbind(s1, c).contexts)
            ensures Sched.PartitionLoad(Sched.Unbind(s1, c).contexts, p) == Sched.PartitionLoad(s.contexts, p)
          {
            Sched.LoadUnbind(s.contexts, c, s1.contexts[c].(bound := false), p);
          }
        }
      }
    }
  }

  /** Same partitions, and the same contexts bound, with the same parameters. */
  ghost predicate SameBound(s: Sched.State, s': Sched.State) {
    && s'.partitions == s.partitions && s'.num == s.num && s'.current == s.current && s'.frameStart == s.frameStart
    && |s'.contexts| == |s.contexts|
    && forall c :: 0 <= c < |s.contexts| ==>
         s'.contexts[c].bound == s.contexts[c].bound && (s.contexts[c].bound ==> s'.contexts[c] == s.contexts[c])
  }

  lemma PairedSame(tcbs: seq<Thread>, s: Sched.State, s': Sched.State)
    requires Paired(tcbs, s.contexts) && SameBound(s, s')
    ensures Paired(tcbs, s'.contexts)
  {
  }

  lemma PairedGrows(tcbs: seq<Thread>, cs: seq<Sched.Context>, id: nat, th: Thread, c: nat, cs': seq<Sched.Context>)
    requires Paired(tcbs, cs) && id < |tcbs| && !InUse(tcbs[id]) && InUse(th) && th.schedContext == c
    requires c < |cs| == |cs'| && !cs[c].bound && cs'[c].bound && cs'[c].tcb == id
    requires forall k :: 0 <= k < |cs| && k != c ==> cs'[k] == cs[k]
    ensures Paired(tcbs[id := th], cs')
  {
  }

  /** Creation keeps the invariant. */
  lemma CreateKeepsInv(sys: System, args: Args)
    requires Inv(sys) && (args.pc != 0 || args.spTop != 0)
    ensures Inv(Create(sys, args).0)
  {
    SizesOf(sys);
    CreateCases(sys, args);
    var id := FirstFree(sys.tcbs, 0);
    if id < MAX_TCBS {
      AdmitKeeps(sys.sched, id, args);
      var (a, _, stack) := Alloc.AllocFrame(sys.alloc, args.partition, args.stackSize);
      var (s, e, c) := Admit(sys.sched, id, args);
      assert e != Ok ==> sys.tcbs[id := EmptyThread()] == sys.tcbs;
      hide Create, Inv, Ready, Alloc.AllocFrame, Admit, Mdb.Insert, Admitted, SameBound;
      if e == Ok {
        AddedKeepsInv(sys, id, NewThread(id, args, stack, c), stack, s, c, a);
      } else {
        RefusedKeepsInv(sys, s, a);
      }
      RefusedKeepsInv(sys, sys.sched, a);
    }
  }

  lemma RefusedKeepsInv(sys: System, s: Sched.State, a: Alloc.State)
    requires Inv(sys) && (s == sys.sched || (Admitted(s) && SameBound(sys.sched, s)))
    ensures Inv(sys.(alloc := a, sched := s)) && Inv(sys.(alloc := a))
  {
    hide Mdb.Valid, Admitted, Paired, Used, SameBound, FreeIsEmpty;
    if s != sys.sched {
      AdmittedIsShaped(s);
      PairedSame(sys.tcbs, sys.sched, s);
    }
  }

  lemma AddedKeepsInv(sys: System, id: nat, th: Thread, stack: Cap, s: Sched.State, c: nat, a: Alloc.State)
    requires Inv(sys) && id == FirstFree(sys.tcbs, 0) < MAX_TCBS && InUse(th) && th.schedContext == c && Admitted(s)
    requires c < |sys.sched.contexts| == |s.contexts| && !sys.sched.contexts[c].bound
    requires s.contexts[c].bound && s.contexts[c].tcb == id
    requires forall k :: 0 <= k < |s.contexts| && k != c ==> s.contexts[k] == sys.sched.contexts[k]
    ensures Mdb.Shaped(sys.mdb)
    ensures Inv(System(sys.tcbs[id := th], sys.count + 1, s, Mdb.Insert(sys.mdb, Mdb.NIL, id, stack).0, a,
                       sys.eps, sys.cnodes))
  {
    Mdb.ValidIsShaped(sys.mdb);
    AdmittedIsShaped(s);
    hide Mdb.Valid, Admitted, Mdb.Insert, Paired, Used;
    InsertRoot(sys.mdb, id, stack);
    UsedGrows(sys.tcbs, id, th);
    PairedGrows(sys.tcbs, sys.sched.contexts, id, th, c, s.contexts);
  }

  lemma AdmittedIsShaped(s: Sched.State)
    requires Admitted(s)
    ensures Sched.Shaped(s) && Sched.PeriodsOk(s.contexts)
  {
  }

  /**
    A successful creation keeps the invariant if and only if the new thread has a code or stack address: without, it
    looks free.
   */
  lemma CreateIsExact(sys: System, args: Args)
    requires Inv(sys) && Create(sys, args).1 == Ok
    ensures Inv(Create(sys, args).0) <==> args.pc != 0 || args.spTop != 0
  {
    if args.pc != 0 || args.spTop != 0 {
      CreateKeepsInv(sys, args);
    } else {
      var id, sys' := FirstFree(sys.tcbs, 0), Create(sys, args).0;
      hide Mdb.Valid, Alloc.AllocFrame, Admitted, Admit, Mdb.Insert, Paired;
      assert sys'.count == sys.count + 1;
      assert Used(sys'.tcbs) == Used(sys.tcbs);
    }
  }

  // ----- A thread that looks free

  /** One partition that fills the frame, an empty table of everything else, and a pool of 4 MB. */
  ghost function OnePartition(): System {
    System(seq(MAX_TCBS, _ => EmptyThread()), 0, Sched.CreatePartition(Sched.Init(), 0, 0, Sched.FRAME_US, 0).0,
           Mdb.Init(), Alloc.POOL, seq(MAX_ENDPOINTS, _ => Endpoint.Idle), [])
  }

  lemma OnePartitionIsReady()
    ensures NoProcesses(OnePartition()) && Inv(OnePartition())
    ensures OnePartition().sched.partitions[0].active && OnePartition().sched.partitions[0].budget == Sched.FRAME_US
    ensures OnePartition().sched.num == 1
  {
    Mdb.InitIsValid();
    NoProcessesIsInv(OnePartition());
    hide Inv, Mdb.Valid;
  }

  /** Binding the first context of an empty scheduler to ten percent is admitted. */
  lemma FirstIsAdmitted(s: Sched.State, args: Args)
    requires Sched.Shaped(s) && s.partitions[0].active && s.partitions[0].budget == Sched.FRAME_US
    requires forall c :: 0 <= c < |s.contexts| ==> !s.contexts[c].bound
    requires args.partition == 0 && args.budget == 100 && args.period == 1000
    ensures Sched.PeriodsOk(s.contexts) && Admit(s, 0, args).1 == Ok
  {
    var (s1, e) := Sched.Bind(s, 0, 0, 0, 100, 1000, args.priority);
    var cs := s1.contexts;
    assert Utilization.Share(Sched.TaskOf(cs[0])) == 10;
    forall p: nat | p < s.num
      ensures Sched.PartitionLoad(cs, p) <= 99
    {
      Sched.LoadUnbind(cs, 0, cs[0].(bound := false), p);
      Sched.NothingBound(cs[0 := cs[0].(bound := false)]);
      hide Utilization.Share, Sched.TasksOf;
    }
  }

  /**
    A creation with neither code nor stack address is accepted, and leaves its slot looking free: the next one takes
    it too.
   */
  lemma ZeroThreadIsAccepted()
    ensures Inv(OnePartition())
    ensures var args := Args(0, 100, 1000, 0, 0, 0, 4096);
            var (sys', e, id) := Create(OnePartition(), args);
            && e == Ok && id == 0 && sys'.count == 1 && |sys'.tcbs| == MAX_TCBS
            && FirstFree(sys'.tcbs, 0) == 0 && !Inv(sys')
  {
    OnePartitionIsReady();
    var sys, args := OnePartition(), Args(0, 100, 1000, 0, 0, 0, 4096);
    SizesOf(sys);
    FirstIsAdmitted(sys.sched, args);
    assert Alloc.ColorOf(sys.alloc.next) == 0;
    Alloc.GrantAt(sys.alloc, 4096, 0);
    assert FirstFree(sys.tcbs, 0) == 0;
    hide Inv, Admit, Alloc.AllocFrame, Mdb.Insert, OnePartition;
    var (sys', e, id) := Create(sys, args);
    assert sys'.tcbs[0].pc == 0 && sys'.tcbs[0].sp == 0 && sys'.tcbs[0].cspace == 0;
    CreateIsExact(sys, args);
  }

  /**
    A failed creation leaves the threads, the tree, the endpoints and every bound context as they were; only the frame
    allocator may have advanced.
   */
  lemma FailedCreateChangesNothing(sys: System, args: Args)
    requires Inv(sys) && Create(sys, args).1 != Ok
    ensures var sys' := Create(sys, args).0;
            && sys'.tcbs == sys.tcbs && sys'.count == sys.count && sys'.mdb == sys.mdb && sys'.eps == sys.eps
            && SameBound(sys.sched, sys'.sched)
            && sys'.cnodes == sys.cnodes
            && sys'.alloc.base == sys.alloc.base && sys'.alloc.top == sys.alloc.top
            && (sys'.alloc != sys.alloc ==> sys'.alloc == Alloc.AllocFrame(sys.alloc, args.partition, args.stackSize).0)
            && (Alloc.NoWrap(sys.alloc, args.partition, args.stackSize) ==> sys.alloc.next <= sys'.alloc.next)
  {
    var id := FirstFree(sys.tcbs, 0);
    Alloc.AllocEffect(sys.alloc, args.partition, args.stackSize);
    hide Mdb.Valid, Admitted, Admit, Mdb.Insert, Paired, Alloc.AllocFrame, Alloc.NoWrap, Alloc.ColorOf;
    if id < MAX_TCBS {
      AdmitKeeps(sys.sched, id, args);
      assert sys.tcbs[id := EmptyThread()] == sys.tcbs;
    }
  }

  /**
    A successful creation fills the lowest free thread slot with the image and stack asked for, binds one context with
    the parameters asked for, records the stack capability in the tree if that has room, and changes nothing else.
   */
  lemma CreateEffect(sys: System, args: Args)
    requires Inv(sys) && (args.pc != 0 || args.spTop != 0) && Create(sys, args).1 == Ok
    ensures var (sys', _, id) := Create(sys, args);
            && Filled(sys, sys', id, args) && OnlyChanged(sys, sys', id)
            && Recorded(sys.mdb, sys'.mdb, id, sys'.tcbs[id].csp.base, sys'.tcbs[id].csp.top)
  {
    CreateFills(sys, args);
    CreateRecords(sys, args);
    hide Create, Inv, Recorded, OnlyChanged;
  }

  lemma CreateFills(sys: System, args: Args)
    requires Inv(sys) && Create(sys, args).1 == Ok
    ensures var (sys', _, id) := Create(sys, args); Filled(sys, sys', id, args) && OnlyChanged(sys, sys', id)
  {
    SizesOf(sys);
    CreateCases(sys, args);
    hide Create, Inv, Ready, Mdb.Insert, Alloc.AllocFrame, Alloc.NoWrap, Admit;
    var id := FirstFree(sys.tcbs, 0);
    FillsStack(sys.alloc, args, id, Admit(sys.sched, id, args).2);
    AdmitBinds(sys.sched, id, args);
    hide Own, StackOwn;
  }

  lemma FillsStack(a: Alloc.State, args: Args, id: nat, c: nat)
    requires Alloc.AllocFrame(a, args.partition, args.stackSize).1 == Ok
    ensures var (a', _, stack) := Alloc.AllocFrame(a, args.partition, args.stackSize);
            var t := NewThread(id, args, stack, c);
            Own(t, id, args) && StackOwn(t, a, a', args) && t.schedContext == c
  {
    Alloc.AllocEffect(a, args.partition, args.stackSize);
    Alloc.GrantIsExact(a, args.partition, args.stackSize);
    Alloc.GrantEnds(a, args.partition, args.stackSize);
    hide Alloc.AllocFrame, Alloc.ColorOf, Alloc.NoWrap;
  }

  lemma CreateRecords(sys: System, args: Args)
    requires Inv(sys) && Create(sys, args).1 == Ok
    ensures var (sys', _, id) := Create(sys, args);
            id < |sys'.tcbs| && Recorded(sys.mdb, sys'.mdb, id, sys'.tcbs[id].csp.base, sys'.tcbs[id].csp.top)
  {
    SizesOf(sys);
    Mdb.ValidIsShaped(sys.mdb);
    CreateCases(sys, args);
    hide Create, Inv, Ready, Mdb.Insert, Alloc.AllocFrame, Admit, Recorded, NewThread, Mdb.Valid;
    var id := FirstFree(sys.tcbs, 0);
    var stack := Alloc.AllocFrame(sys.alloc, args.partition, args.stackSize).2;
    Alloc.GrantEnds(sys.alloc, args.partition, args.stackSize);
    StackOf(id, args, stack, Admit(sys.sched, id, args).2);
    InsertRecords(sys.mdb, id, stack);
  }

  lemma StackOf(id: nat, args: Args, stack: Cap, c: nat)
    requires (stack.hw.base + args.stackSize) % WORD == stack.hw.top
    ensures var t := NewThread(id, args, stack, c); t.csp.base == stack.hw.base && t.csp.top == stack.hw.top
  {
  }

  /** The lowest free slot holds the thread asked for, with a context and a stack frame of its own. */
  ghost predicate Filled(sys: System, sys': System, id: nat, args: Args) {
    && id < |sys.tcbs| == |sys'.tcbs| == MAX_TCBS
    && !InUse(sys.tcbs[id]) && (forall i :: 0 <= i < id ==> InUse(sys.tcbs[i]))
    && var t := sys'.tcbs[id];
    && Own(t, id, args) && StackOwn(t, sys.alloc, sys'.alloc, args)
    && t.schedContext < |sys'.sched.contexts|
    && (var c := sys'.sched.contexts[t.schedContext];
        && c.bound && c.tcb == id && c.partition == args.partition && c.priority == args.priority
        && c.budget == c.remaining == args.budget && c.period == c.deadline == args.period)
  }

  /** A thread with the image, priority and partition asked for, bounded to its code, and otherwise blank. */
  predicate Own(t: Thread, id: nat, args: Args) {
    && t.id == id && t.state == Inactive && t.pc == args.pc && t.sp == args.spTop && t.partition == args.partition
    && t.priority == args.priority && t.cspace == 0 && t.ipc == EmptyMsg() && t.faultAddr == t.faultType == 0
    && t.vspaceRoot == t.asid == 0
    && t.pcc.base == args.pc - args.pc % 4096 && t.pcc.top == (t.pcc.base + 0x10000) % WORD && t.pcc.addr == args.pc
    && t.pcc.tag && !t.pcc.sealed && t.csp.addr == args.spTop && t.csp.tag && !t.csp.sealed
  }

  /** The stack ends at the new bump pointer, and is made of new bytes exactly when its end does not wrap. */
  predicate StackOwn(t: Thread, a: Alloc.State, a': Alloc.State, args: Args) {
    && t.csp.top == a'.next <= a.top
    && (a.next <= t.csp.base && t.csp.base + args.stackSize == t.csp.top <==>
          Alloc.NoWrap(a, args.partition, args.stackSize))
  }

  /** The lowest free node of the tree, if there is one, holds the stack of process `id`; no other node changed. */
  ghost predicate Recorded(t: Mdb.Tree, t': Mdb.Tree, id: nat, base: nat, top: nat) {
    if forall i :: 0 <= i < |t.nodes| ==> t.nodes[i].valid then t' == t
    else exists idx :: 0 <= idx < |t.nodes| == |t'.nodes| && RecordedAt(t.nodes, t'.nodes, idx, id, base, top)
  }

  ghost predicate RecordedAt(ns: seq<Mdb.Node>, ns': seq<Mdb.Node>, idx: nat, id: nat, base: nat, top: nat)
    requires idx < |ns| == |ns'|
  {
    && !ns[idx].valid && (forall i :: 0 <= i < idx ==> ns[i].valid)
    && ns'[idx].valid && StackNode(ns'[idx], id)
    && ns'[idx].cap.hw.base == base && ns'[idx].cap.hw.top == top
    && (forall i :: 0 <= i < |ns| && i != idx ==> ns'[i] == ns[i])
  }

  lemma InsertRecords(t: Mdb.Tree, id: nat, stack: Cap)
    requires Mdb.Valid(t) && Mdb.Shaped(t)
    ensures Recorded(t, Mdb.Insert(t, Mdb.NIL, id, stack).0, id, stack.hw.base, stack.hw.top)
  {
    Mdb.InsertTakesLowest(t, Mdb.NIL, id, stack);
    var (t', e, idx) := Mdb.Insert(t, Mdb.NIL, id, stack);
    if e == Ok {
      Mdb.InsertEffect(t, Mdb.NIL, id, stack);
      hide Mdb.Valid;
      assert RecordedAt(t.nodes, t'.nodes, idx, id, stack.hw.base, stack.hw.top);
    }
  }

  /** Nothing but slot `id`, its context, the tree, the allocator and the count has changed. */
  ghost predicate OnlyChanged(sys: System, sys': System, id: nat) {
    && id < |sys.tcbs| == |sys'.tcbs| && |sys.sched.contexts| == |sys'.sched.contexts|
    && sys'.tcbs == sys.tcbs[id := sys'.tcbs[id]]
    && (forall k :: 0 <= k < |sys.sched.contexts| && k != sys'.tcbs[id].schedContext ==>
          sys'.sched.contexts[k] == sys.sched.contexts[k])
    && sys'.sched.partitions == sys.sched.partitions && sys'.sched.num == sys.sched.num
    && sys'.sched.current == sys.sched.current && sys'.sched.frameStart == sys.sched.frameStart
    && sys'.eps == sys.eps && sys'.cnodes == sys.cnodes && sys'.count == sys.count + 1
  }

  lemma AdmitBinds(s: Sched.State, id: nat, args: Args)
    requires Sched.Shaped(s) && Sched.PeriodsOk(s.contexts) && Admit(s, id, args).1 == Ok
    ensures var (s', _, k) := Admit(s, id, args);
            && k < |s.contexts| == |s'.contexts|
            && (var c := s'.contexts[k];
                && c.bound && c.tcb == id && c.partition == args.partition && c.priority == args.priority
                && c.budget == c.remaining == args.budget && c.period == c.deadline == args.period)
            && (forall j :: 0 <= j < |s.contexts| && j != k ==> s'.contexts[j] == s.contexts[j])
            && s'.partitions == s.partitions && s'.num == s.num
            && s'.current == s.current && s'.frameStart == s.frameStart
  {
    hide Sched.Schedulable;
  }

  // ----- When creation succeeds

  /** No code address, no stack address and no capability node. */
  predicate LooksFree(t: Thread) {
    t.pc == 0 && t.sp == 0 && t.cspace == 0
  }

  /**
    The frame request for the stack is granted: it is a page multiple and the pool has room, or its end wraps into it.
   */
  ghost predicate StackGranted(a: Alloc.State, args: Args) {
    args.stackSize % 4096 == 0 && (Alloc.HasRoom(a, args.partition, args.stackSize)
                                   || Alloc.WrapsInto(a, args.partition, args.stackSize))
  }

  lemma StackIsGranted(a: Alloc.State, args: Args)
    requires args.partition < 8
    ensures var e := Alloc.AllocFrame(a, args.partition, args.stackSize).1;
            && (e == Ok <==> StackGranted(a, args))
            && (e == InvalidArg <==> args.stackSize % 4096 != 0) && (e == Ok || e == NoMem || e == InvalidArg)
  {
    Alloc.AllocCases(a, args.partition, args.stackSize);
    if args.stackSize % 4096 == 0 {
      Alloc.NoMemIsExact(a, args.partition, args.stackSize);
      Alloc.WrapsIsGranted(a, Alloc.Request(args.partition, args.stackSize));
    }
    hide Alloc.AllocFrame, Alloc.HasRoom, Alloc.WrapsInto, Alloc.NoWrap;
  }

  /** The partition is set up, the budget is within the period and the window, and the load stays within 99 percent. */
  ghost predicate TimeGranted(s: Sched.State, args: Args)
    requires Sched.PeriodsOk(s.contexts)
  {
    && args.partition < 8 && args.partition < |s.partitions| && s.partitions[args.partition].active
    && 0 < args.budget <= args.period && args.budget <= s.partitions[args.partition].budget
    && Sched.PartitionLoad(s.contexts, args.partition)
       + Utilization.Share(Utilization.Task(args.partition, args.budget, args.period)) <= 99
  }

  lemma TimeIsGranted(s: Sched.State, id: nat, args: Args)
    requires Admitted(s) && args.partition < 8
    ensures var e := Admit(s, id, args).1;
            && (e == Ok <==> TimeGranted(s, args) && exists c :: 0 <= c < 64 && !s.contexts[c].bound)
            && (e == NoMem <==> forall c :: 0 <= c < 64 ==> s.contexts[c].bound)
            && (e == Ok || e == NoMem || e == InvalidArg)
  {
    var c := FirstUnbound(s.contexts, 0);
    if c < |s.contexts| {
      assert !s.contexts[c].bound;
      Sched.BindIsExact(s, c, id, args.partition, args.budget, args.period, args.priority);
      var (s1, e) := Sched.Bind(s, c, id, args.partition, args.budget, args.period, args.priority);
      if e == Ok {
        BoundLoad(s, s1, c, args);
      }
      hide Sched.Bind, Sched.Schedulable, Sched.PartitionLoad, Utilization.Share;
    }
  }

  /** After the binding the test passes exactly when the partition's load has room for the new share. */
  lemma BoundLoad(s: Sched.State, s1: Sched.State, c: nat, args: Args)
    requires Admitted(s) && c < |s.contexts| && !s.contexts[c].bound && args.partition < s.num && args.period > 0
    requires |s1.contexts| == |s.contexts| && s1 == s.(contexts := s.contexts[c := s1.contexts[c]])
    requires var x := s1.contexts[c];
             x.bound && x.partition == args.partition && x.budget == args.budget <= x.period == args.period
    ensures Sched.PeriodsOk(s1.contexts)
    ensures Sched.Schedulable(s1) <==>
            Sched.PartitionLoad(s.contexts, args.partition)
            + Utilization.Share(Utilization.Task(args.partition, args.budget, args.period)) <= 99
  {
    var cs, cs1 := s.contexts, s1.contexts;
    assert cs1[c := cs[c]] == cs;
    var share := Utilization.Share(Utilization.Task(args.partition, args.budget, args.period));
    forall p: nat | p < s.num
      ensures Sched.PartitionLoad(cs1, p) == Sched.PartitionLoad(cs, p) + if p == args.partition then share else 0
    {
      Sched.LoadUnbind(cs1, c, cs[c], p);
    }
    hide Sched.PartitionLoad, Utilization.Share;
    assert Sched.PartitionLoad(cs1, args.partition) == Sched.PartitionLoad(cs, args.partition) + share;
  }

  /**
    A creation succeeds exactly when: the partition exists and is set up, the budget is positive and within period and
    window, a thread and a scheduling context are free, the stack frame is granted, and the partition's load has room
    for the new share. It answers NO_MEM exactly when the parameters are in range and no thread is free, or a well-
    formed stack is not granted, or no context is free; and INVALID_ARG otherwise.
   */
  lemma CreateSucceedsExactly(sys: System, args: Args)
    requires Inv(sys)
    ensures var e := Create(sys, args).1;
            var threadFree := exists i :: 0 <= i < 128 && LooksFree(sys.tcbs[i]);
            var contextFree := exists c :: 0 <= c < 64 && !sys.sched.contexts[c].bound;
            && (e == Ok <==> TimeGranted(sys.sched, args) && threadFree && contextFree && StackGranted(sys.alloc, args))
            && (e == NoMem <==> && args.partition < 8 && 0 < args.budget <= args.period
                                && (!threadFree
                                    || (args.stackSize % 4096 == 0
                                        && (!StackGranted(sys.alloc, args) || !contextFree))))
            && (e == Ok || e == NoMem || e == InvalidArg)
  {
    SizesOf(sys);
    if args.partition < 8 {
      StackIsGranted(sys.alloc, args);
      TimeIsGranted(sys.sched, FirstFree(sys.tcbs, 0), args);
    }
    hide Alloc.AllocFrame, Admit, Admitted, Mdb.Insert, Mdb.Valid, StackGranted, Paired;
    var id := FirstFree(sys.tcbs, 0);
    if id < MAX_TCBS {
      assert LooksFree(sys.tcbs[id]);
    }
    hide Sched.PartitionLoad, Utilization.Share;
  }

  /** Destruction is refused, and changes nothing, exactly for an index out of range or a slot not in use. */
  lemma DestroyRefusesExactly(sys: System, id: nat)
    requires Ready(sys)
    ensures var (sys', e) := Destroy(sys, id);
            && (e == Ok <==> id < 128 && !LooksFree(sys.tcbs[id])) && (e != Ok ==> e == InvalidArg && sys' == sys)
  {
    hide Mdb.Valid, Forget, Ipc.CleanedAll, CNode.ClearSpace, Sched.Unbind;
  }

  // ----- What destruction keeps

  /** Forgetting a childless root erases exactly its node. */
  lemma ForgetErases(t: Mdb.Tree, id: nat, own: nat)
    requires Mdb.Valid(t) && own < Mdb.MAX_NODES && t.nodes[own].valid && StackNode(t.nodes[own], id)
    requires FirstMatch(t.nodes, id, 0) == own
    ensures Mdb.Valid(Forget(t, id)) && Forget(t, id).nodes == t.nodes[own := Mdb.ERASED_NODE]
  {
    hide Mdb.Valid, Mdb.Revoke, Mdb.Detach;
    ValidSize(t);
    Mdb.RevokeLeaf(t, own);
    Mdb.DeleteKeepsValid(t, own);
    Mdb.DetachRoot(t.nodes, own);
  }

  lemma ValidSize(t: Mdb.Tree)
    requires Mdb.Valid(t)
    ensures |t.nodes| == Mdb.MAX_NODES
  {
  }

  /** Forgetting a process erases the node that the lookup finds, whoever's it is. */
  lemma ForgetFreesFound(t: Mdb.Tree, id: nat)
    requires Mdb.Valid(t) && |t.nodes| == Mdb.MAX_NODES && FirstMatch(t.nodes, id, 0) != Mdb.NIL
    ensures |Forget(t, id).nodes| == Mdb.MAX_NODES && !Forget(t, id).nodes[FirstMatch(t.nodes, id, 0)].valid
    ensures Mdb.Valid(Forget(t, id))
  {
    var idx := FirstMatch(t.nodes, id, 0);
    Mdb.RevokeKeepsValid(t, idx);
    var t' := Mdb.Revoke(t, idx).0;
    assert t'.nodes[idx] == t.nodes[idx].(firstChild := Mdb.NIL);
    Mdb.DeleteKeepsValid(t', idx);
    hide Mdb.Valid, Mdb.Revoke;
  }

  lemma ForgetKeepsValid(t: Mdb.Tree, id: nat)
    requires Mdb.Valid(t) && |t.nodes| == Mdb.MAX_NODES
    ensures Mdb.Valid(Forget(t, id))
  {
    if FirstMatch(t.nodes, id, 0) != Mdb.NIL {
      ForgetFreesFound(t, id);
    }
  }

  lemma DestroyKeepsReady(sys: System, id: nat)
    requires Ready(sys)
    ensures Ready(Destroy(sys, id).0)
  {
    ValidSize(sys.mdb);
    ForgetKeepsValid(sys.mdb, id);
    hide Mdb.Valid, Forget;
  }

  /**
    Forgetting process `id` frees the node that the lookup finds and its live descendants, and no other; a node that
    stays keeps everything but its child and sibling links.
   */
  lemma ForgetEffect(t: Mdb.Tree, id: nat)
    requires Mdb.Valid(t) && |t.nodes| == Mdb.MAX_NODES
    ensures |Forget(t, id).nodes| == Mdb.MAX_NODES
    ensures var idx, ns := FirstMatch(t.nodes, id, 0), Forget(t, id).nodes;
            && (idx == Mdb.NIL ==> Forget(t, id) == t)
            && (idx != Mdb.NIL ==>
                  forall i :: 0 <= i < Mdb.MAX_NODES ==>
                    && (t.nodes[i].valid && !ns[i].valid <==> t.nodes[i].valid && Mdb.IsAncestor(t.nodes, idx, i))
                    && (ns[i].valid ==> Mdb.SameButLinks(ns[i], t.nodes[i])))
  {
    var idx := FirstMatch(t.nodes, id, 0);
    if idx != Mdb.NIL {
      Mdb.RevokeKeepsValid(t, idx);
      Mdb.RevokeEffect(t, idx);
      Mdb.RevokeLeavesLeaf(t.nodes, idx);
      var t' := Mdb.Revoke(t, idx).0;
      assert t'.nodes == Mdb.RevokedNodes(t.nodes, idx);
      var kids, rank :| Mdb.Forest(t'.nodes, kids, rank);
      Mdb.DeleteEffect(t', idx, kids, rank);
      Mdb.SelfIsAncestor(t.nodes, idx);
      hide Mdb.Revoke, Mdb.Delete, Mdb.Valid, Mdb.IsAncestor, Mdb.Forest, Mdb.Descendants, Mdb.RevokedNodes;
      var ns := Forget(t, id).nodes;
      assert Mdb.Live(ns) == Mdb.Live(t'.nodes) - {idx};
      forall i: nat | i < Mdb.MAX_NODES
        ensures ns[i].valid <==> t'.nodes[i].valid && i != idx
      {
        assert i in Mdb.Live(ns) <==> ns[i].valid;
        assert i in Mdb.Live(t'.nodes) <==> t'.nodes[i].valid;
      }
    }
  }

  lemma PairedShrinks(tcbs: seq<Thread>, s: Sched.State, id: nat)
    requires Paired(tcbs, s.contexts) && id < |tcbs| && InUse(tcbs[id])
    ensures Paired(tcbs[id := EmptyThread()], Sched.Unbind(s, tcbs[id].schedContext).contexts)
  {
  }

  lemma UnbindKeepsAdmitted(s: Sched.State, c: nat)
    requires Admitted(s)
    ensures Admitted(Sched.Unbind(s, c))
  {
    Sched.UnbindKeepsSchedulable(s, c);
  }

  lemma DestroyKeepsInv(sys: System, id: nat)
    requires Inv(sys)
    ensures Inv(Destroy(sys, id).0)
  {
    hide Mdb.Valid, Forget, Admitted, Paired, Ipc.CleanedAll, FirstMatch;
    if id < MAX_TCBS && InUse(sys.tcbs[id]) {
      DestroyKeepsReady(sys, id);
      PairedShrinks(sys.tcbs, sys.sched, id);
      UsedShrinks(sys.tcbs, id);
      UnbindKeepsAdmitted(sys.sched, sys.tcbs[id].schedContext);
    }
  }

  /**
    Destroying a live process scrubs its thread, releases its context, forgets the node that the lookup finds for it,
    and cleans its capability node and every endpoint.
   */
  lemma DestroyEffect(sys: System, id: nat)
    requires Inv(sys) && id < MAX_TCBS && InUse(sys.tcbs[id])
    ensures var (sys', e) := Destroy(sys, id);
            && e == Ok && sys'.tcbs == sys.tcbs[id := EmptyThread()] && sys'.count == sys.count - 1
            && |sys'.sched.contexts| == |sys.sched.contexts|
            && (forall k :: 0 <= k < |sys.sched.contexts| ==>
                  if sys.sched.contexts[k].bound && sys.sched.contexts[k].tcb == id then !sys'.sched.contexts[k].bound
                  else sys'.sched.contexts[k] == sys.sched.contexts[k])
            && sys'.mdb == Forget(sys.mdb, id)
            && sys'.alloc == sys.alloc
            && sys'.cnodes == CNode.ClearSpace(sys.cnodes, sys.tcbs[id].cspace)
            && (forall e :: 0 <= e < |sys.eps| ==>
                  sys'.eps[e] == Endpoint.Cleaned(sys.eps[e], id) && sys'.eps[e] != Endpoint.Waiting(id))
  {
    hide Mdb.Valid, Forget, Admitted, Paired, Sched.Unbind, FreeIsEmpty, Used, CNode.ClearSpace;
    SizesOf(sys);
    CountPositive(sys, id);
    OwnContextReleased(sys.tcbs, sys.sched, id);
    forall e | 0 <= e < |sys.eps|
      ensures Ipc.CleanedAll(sys.eps, id)[e] == Endpoint.Cleaned(sys.eps[e], id) != Endpoint.Waiting(id)
    {
    }
    hide Ipc.CleanedAll, Endpoint.Cleaned;
  }

  lemma DestroyIs(sys: System, id: nat)
    requires Inv(sys) && id < MAX_TCBS && InUse(sys.tcbs[id])
    ensures sys.count > 0 && Ready(sys) && Mdb.Valid(sys.mdb)
    ensures Destroy(sys, id).0 ==
            System(sys.tcbs[id := EmptyThread()], sys.count - 1, Sched.Unbind(sys.sched, sys.tcbs[id].schedContext),
                   Forget(sys.mdb, id), sys.alloc, Ipc.CleanedAll(sys.eps, id),
                   CNode.ClearSpace(sys.cnodes, sys.tcbs[id].cspace))
  {
    CountPositive(sys, id);
    hide Mdb.Valid, Forget, CNode.ClearSpace, Ipc.CleanedAll, Sched.Unbind;
  }

  lemma CountPositive(sys: System, id: nat)
    requires Inv(sys) && id < MAX_TCBS && InUse(sys.tcbs[id])
    ensures sys.count > 0
  {
    assert id in Used(sys.tcbs);
  }

  lemma OwnContextReleased(tcbs: seq<Thread>, s: Sched.State, id: nat)
    requires Paired(tcbs, s.contexts) && id < |tcbs| && InUse(tcbs[id])
    ensures var s' := Sched.Unbind(s, tcbs[id].schedContext);
            && |s'.contexts| == |s.contexts|
            && (forall k :: 0 <= k < |s.contexts| ==>
                  if s.contexts[k].bound && s.contexts[k].tcb == id then !s'.contexts[k].bound
                  else s'.contexts[k] == s.contexts[k])
  {
  }

  // ----- Whole runs

  datatype Op = CreateOp(args: Args) | DestroyOp(id: nat) | ConfigureOp(id: nat, setup: Setup)

  predicate OpOk(op: Op) {
    op.CreateOp? ==> op.args.pc != 0 || op.args.spTop != 0
  }

  /** Configuring a thread that exists keeps the tables consistent; doing so to a free slot makes it look in use. */
  lemma ConfigureIsExact(sys: System, id: nat, c: Setup)
    requires Inv(sys) && id < MAX_TCBS && Configure(sys, id, c).1 == Ok
    ensures Inv(Configure(sys, id, c).0) <==> InUse(sys.tcbs[id])
  {
    var sys' := Configure(sys, id, c).0;
    if InUse(sys.tcbs[id]) {
      assert Used(sys'.tcbs) == Used(sys.tcbs);
      hide Mdb.Valid, Admitted;
      forall i | 0 <= i < |sys'.tcbs| && !InUse(sys'.tcbs[i])
        ensures sys'.tcbs[i] == EmptyThread()
      {
        assert !InUse(sys.tcbs[i]);
      }
    } else {
      assert Used(sys'.tcbs) == Used(sys.tcbs) + {id};
    }
  }

  ghost function Step(sys: System, op: Op): (sys': System)
    requires Inv(sys) && OpOk(op)
    ensures Inv(sys')
  {
    match op
    case CreateOp(args) => CreateKeepsInv(sys, args); Create(sys, args).0
    case DestroyOp(id) => DestroyKeepsInv(sys, id); Destroy(sys, id).0
    case ConfigureOp(id, c) => ConfigureKeepsInv(sys, id, c); ConfigureLive(sys, id, c)
  }

  /** tcb_configure as the kernel's callers use it: on a thread that exists. */
  function ConfigureLive(sys: System, id: nat, c: Setup): System {
    if id < |sys.tcbs| && InUse(sys.tcbs[id]) then Configure(sys, id, c).0 else sys
  }

  lemma ConfigureKeepsInv(sys: System, id: nat, c: Setup)
    requires Inv(sys)
    ensures Inv(ConfigureLive(sys, id, c))
  {
    SizesOf(sys);
    hide Inv;
    if id < |sys.tcbs| && InUse(sys.tcbs[id]) {
      if Configure(sys, id, c).1 == Ok {
        ConfigureIsExact(sys, id, c);
      } else {
        assert sys.tcbs[id := sys.tcbs[id]] == sys.tcbs;
      }
    }
  }

  ghost function Run(sys: System, ops: seq<Op>): (sys': System)
    requires Inv(sys) && forall op :: op in ops ==> OpOk(op)
    ensures Inv(sys')
  {
    if ops == [] then sys else Step(Run(sys, ops[..|ops| - 1]), ops[|ops| - 1])
  }

  /** No thread yet, partitions set up but nothing bound, and any well-formed tree, such as the booted kernel's. */
  ghost predicate NoProcesses(sys: System) {
    && |sys.tcbs| == MAX_TCBS && (forall i :: 0 <= i < MAX_TCBS ==> sys.tcbs[i] == EmptyThread())
    && sys.count == 0 && Mdb.Valid(sys.mdb) && CNode.AllShaped(sys.cnodes)
    && Sched.Shaped(sys.sched)
    && (forall p :: 0 <= p < MAX_PARTITIONS && sys.sched.partitions[p].active ==> p < sys.sched.num)
    && (forall c :: 0 <= c < |sys.sched.contexts| ==> !sys.sched.contexts[c].bound)
  }

  lemma NoProcessesIsInv(sys: System)
    requires NoProcesses(sys)
    ensures Inv(sys)
  {
    hide Mdb.Valid;
    Sched.NothingBound(sys.sched.contexts);
    assert Used(sys.tcbs) == {};
    forall p: nat | p < sys.sched.num
      ensures Sched.PartitionLoad(sys.sched.contexts, p) <= 99
    {
    }
  }

  lemma {:induction false} PairedSize(tcbs: seq<Thread>, cs: seq<Sched.Context>, us: set<nat>, bs: set<nat>)
    requires Paired(tcbs, cs) && us <= Used(tcbs) && bs <= Bound(cs)
    requires forall i :: i in us ==> tcbs[i].schedContext in bs
    requires forall c :: c in bs ==> cs[c].tcb in us
    ensures |us| == |bs|
    decreases |us|
  {
    if us == {} {
      assert bs <= {};
    } else {
      var i :| i in us;
      var c := tcbs[i].schedContext;
      PairedSize(tcbs, cs, us - {i}, bs - {c});
    }
  }

  lemma PairedCount(sys: System)
    requires Inv(sys)
    ensures |Used(sys.tcbs)| == |Bound(sys.sched.contexts)|
  {
    hide Admitted, Ready, FreeIsEmpty;
    PairedSize(sys.tcbs, sys.sched.contexts, Used(sys.tcbs), Bound(sys.sched.contexts));
  }

  /**
    From no processes and any tree, in every run of creations, configurations and destructions: in-use threads and bound
    contexts are in bijection and both number `count`, and every partition passes the admission test.
   */
  lemma RunKeepsTables(sys: System, ops: seq<Op>)
    requires NoProcesses(sys) && (forall op :: op in ops ==> OpOk(op))
    ensures Inv(sys)
    ensures var sys' := Run(sys, ops);
            && Paired(sys'.tcbs, sys'.sched.contexts)
            && sys'.count == |Used(sys'.tcbs)| == |Bound(sys'.sched.contexts)|
            && Admitted(sys'.sched) && Mdb.Valid(sys'.mdb)
  {
    NoProcessesIsInv(sys);
    hide NoProcesses, Admitted, Mdb.Valid, FreeIsEmpty;
    PairedCount(Run(sys, ops));
  }

  /** The tree as the kernel boots, with a root capability inserted first, is a tree to start from. */
  lemma BootTreeIsValid(untyped: Cap)
    ensures Mdb.Valid(Mdb.Insert(Mdb.Init(), Mdb.NIL, 0, untyped).0)
  {
    Mdb.InitIsValid();
    Mdb.InsertKeepsValid(Mdb.Init(), Mdb.NIL, 0, untyped);
  }

  lemma AdmitKeepsFit(s: Sched.State, id: nat, args: Args)
    requires Sched.Shaped(s) && Sched.PeriodsOk(s.contexts) && Sched.BudgetsFit(s)
    ensures Sched.BudgetsFit(Admit(s, id, args).0) && Admit(s, id, args).0.num == s.num
  {
    hide Sched.Schedulable;
  }

  lemma StepKeepsFit(sys: System, op: Op)
    requires Inv(sys) && OpOk(op) && Sched.BudgetsFit(sys.sched)
    ensures Sched.BudgetsFit(Step(sys, op).sched) && Step(sys, op).sched.num == sys.sched.num
  {
    SizesOf(sys);
    if op.CreateOp? {
      CreateKeepsFit(sys, op.args);
      hide Create, Inv, Ready, Sched.BudgetsFit;
    } else {
      hide Inv, Mdb.Valid, Forget;
    }
  }

  lemma CreateKeepsFit(sys: System, args: Args)
    requires Ready(sys) && Sched.BudgetsFit(sys.sched)
    ensures var s := Create(sys, args).0.sched; Sched.BudgetsFit(s) && s.num == sys.sched.num
  {
    CreateCases(sys, args);
    AdmitKeepsFit(sys.sched, FirstFree(sys.tcbs, 0), args);
    hide Create, Ready, Admit, Alloc.AllocFrame, Mdb.Insert, Sched.BudgetsFit;
  }

  /**
    From windows inside the frame, every run keeps the exact utilization of every partition of n threads below 0.99 +
    n/100.
   */
  lemma {:induction false} RunStaysBounded(sys: System, ops: seq<Op>, p: nat)
    requires Inv(sys) && (forall op :: op in ops ==> OpOk(op)) && Sched.BudgetsFit(sys.sched) && p < sys.sched.num
    ensures var s := Run(sys, ops).sched;
            var ts := Sched.TasksOf(s.contexts);
            && Sched.BudgetsFit(s) && s.num == sys.sched.num && Utilization.TasksOk(ts)
            && (Utilization.Count(ts, p) > 0 ==>
                  Utilization.Exact(ts, p) < 0.99 + Utilization.Count(ts, p) as real / 100.0)
  {
    hide Inv, Step, Sched.BudgetsFit;
    if ops != [] {
      RunStaysBounded(sys, ops[..|ops| - 1], p);
      StepKeepsFit(Run(sys, ops[..|ops| - 1]), ops[|ops| - 1]);
    }
    AdmittedOf(Run(sys, ops));
    Sched.SchedulableIsBounded(Run(sys, ops).sched, p);
  }

  lemma AdmittedOf(sys: System)
    requires Inv(sys)
    ensures Sched.PeriodsOk(sys.sched.contexts) && Sched.Schedulable(sys.sched)
  {
  }
}
