/**
  The parts together: any interleaving of process creation, configuration, start and destruction, capability operations,
  the three IPC system calls and scheduler ticks keeps every table consistent with every other. No endpoint waits for a
  dead thread or queues its messages; only a message already handed over can outlive its sender or its receiver.
 */
module WholeKernel {
  import opened Kernel
  import opened Tcb
  import opened Endpoint
  import Alloc
  import Mdb
  import Sched
  import Ipc
  import CNode
  import EmptyTree
  import opened Traces
  import opened Process

  /** A step of IPC on a thread that may take it: a system call, or a start of a live thread. */
  predicate IpcOk(sys: System, op: Ipc.Op) {
    !op.DestroyOp? && Ipc.OpOk(op) && (op.StartOp? ==> op.t < |sys.tcbs| && InUse(sys.tcbs[op.t]))
  }

  function IpcPart(sys: System): Ipc.State {
    Ipc.State(sys.tcbs, sys.eps)
  }

  ghost predicate Live(tcbs: seq<Thread>, i: nat) {
    i < |tcbs| && InUse(tcbs[i])
  }

  /** Every registered receiver and every sender of a queued message is a live thread. */
  ghost predicate NoDangling(tcbs: seq<Thread>, ep: Mode) {
    && (ep.Waiting? ==> Live(tcbs, ep.receiver))
    && (ep.Queued? ==> forall i :: 0 <= i < |ep.q| ==> Live(tcbs, ep.q[i].sender))
  }

  ghost predicate AllNoDangling(tcbs: seq<Thread>, eps: seq<Mode>) {
    forall e :: 0 <= e < |eps| ==> NoDangling(tcbs, eps[e])
  }

  ghost predicate CoreInv(sys: System) {
    && Process.Inv(sys) && Ipc.Inv(IpcPart(sys)) && AllNoDangling(sys.tcbs, sys.eps)
    && sys.sched.frameStart == 0
  }

  // ----- What IPC leaves alone in a thread

  /** IPC changes a thread's state, buffer and fault record; never what makes it this process's thread. */
  predicate SameProcess(t: Thread, u: Thread) {
    t.pc == u.pc && t.sp == u.sp && t.cspace == u.cspace && t.schedContext == u.schedContext
  }

  ghost predicate SameProcesses(ts: seq<Thread>, us: seq<Thread>) {
    && |ts| == |us|
    && (forall i :: 0 <= i < |ts| ==> SameProcess(ts[i], us[i]))
    && (forall i :: 0 <= i < |ts| && ts[i].state == Inactive && !InUse(ts[i]) ==> us[i] == ts[i])
  }

  lemma IpcKeepsProcesses(s: Ipc.State, op: Ipc.Op)
    requires Ipc.Inv(s) && Ipc.OpOk(op) && !op.DestroyOp?
    requires op.StartOp? ==> op.t < |s.threads| && InUse(s.threads[op.t])
    ensures SameProcesses(s.threads, Ipc.Step(s, op).threads)
  {
    match op
    case CallOp(r) => SendKeepsProcesses(s, r);
    case SendOp(r) => SendKeepsProcesses(s, r);
    case ReplyRecvOp(r) =>
    case StartOp(t) =>
  }

  lemma SendKeepsProcesses(s: Ipc.State, r: Ipc.Request)
    requires Ipc.Inv(s) && Ipc.RequestOk(r)
    ensures SameProcesses(s.threads, Ipc.SysCall(s, r).0.threads)
    ensures SameProcesses(s.threads, Ipc.SysSend(s, r).0.threads)
  {
    if r.cap.Some? && r.cap.value.kind == EndpointCap {
      var ep := s.eps[r.cap.value.obj.ep];
      assert Ipc.ReceiverBlocked(s.threads, ep);
    }
  }

  /** The process tables cannot tell the difference. */
  lemma SameProcessesKeepInv(sys: System, us: seq<Thread>, eps: seq<Mode>)
    requires Process.Inv(sys) && SameProcesses(sys.tcbs, us)
    ensures Process.Inv(sys.(tcbs := us, eps := eps))
  {
    assert Used(us) == Used(sys.tcbs);
    hide Mdb.Valid, Admitted;
    forall i | 0 <= i < |us| && !InUse(us[i])
      ensures us[i] == EmptyThread()
    {
      assert !InUse(sys.tcbs[i]);
    }
  }

  // ----- No dangling references

  /** A runnable thread is live: free slots are zeroed and inactive. */
  lemma RunnableIsLive(sys: System, t: nat)
    requires Process.Inv(sys) && t < |sys.tcbs| && sys.tcbs[t].state != Inactive
    ensures Live(sys.tcbs, t)
  {
  }

  lemma NoDanglingCarries(ts: seq<Thread>, us: seq<Thread>, ep: Mode)
    requires NoDangling(ts, ep) && |us| == |ts| && forall i :: 0 <= i < |ts| && InUse(ts[i]) ==> InUse(us[i])
    ensures NoDangling(us, ep)
  {
  }

  lemma SendNoDangling(tcbs: seq<Thread>, ep: Mode, sender: nat, msg: Msg)
    requires NoDangling(tcbs, ep) && Live(tcbs, sender)
    ensures NoDangling(tcbs, Send(ep, sender, msg).0)
  {
  }

  lemma RecvNoDangling(tcbs: seq<Thread>, ep: Mode, receiver: nat)
    requires NoDangling(tcbs, ep) && Live(tcbs, receiver)
    ensures NoDangling(tcbs, Recv(ep, receiver).0)
  {
  }

  lemma CleanedNoDangling(tcbs: seq<Thread>, ep: Mode, id: nat)
    requires NoDangling(tcbs, ep) && id < |tcbs|
    ensures NoDangling(tcbs[id := EmptyThread()], Cleaned(ep, id))
  {
    if ep.Queued? {
      var r := Others(ep.q, id);
      forall i | 0 <= i < |r|
        ensures Live(tcbs[id := EmptyThread()], r[i].sender)
      {
        OthersMembers(ep.q, id, r[i]);
      }
    }
  }

  /** One endpoint changes, for a live caller, and nothing dangles. */
  lemma IpcNoDangling(sys: System, op: Ipc.Op, e: nat)
    requires CoreInv(sys) && IpcOk(sys, op) && e < |sys.eps|
    ensures NoDangling(sys.tcbs, Ipc.Step(IpcPart(sys), op).eps[e])
  {
    assert NoDangling(sys.tcbs, sys.eps[e]);
    if op.CallOp? || op.SendOp? || op.ReplyRecvOp? {
      if sys.tcbs[op.r.cur].state == Runnable {
        RunnableIsLive(sys, op.r.cur);
        CallerNoDangling(IpcPart(sys), op, e);
      }
    }
  }

  lemma CallerNoDangling(s: Ipc.State, op: Ipc.Op, e: nat)
    requires Ipc.Inv(s) && Ipc.OpOk(op) && (op.CallOp? || op.SendOp? || op.ReplyRecvOp?)
    requires e < |s.eps| && NoDangling(s.threads, s.eps[e]) && Live(s.threads, op.r.cur)
    ensures NoDangling(s.threads, Ipc.Step(s, op).eps[e])
  {
    var r := op.r;
    var buf := s.threads[r.cur].ipc;
    RecvNoDangling(s.threads, s.eps[e], r.cur);
    if r.arg % 256 <= IPC_MSG_MAX {
      SendNoDangling(s.threads, s.eps[e], r.cur, Ipc.CallMsg(buf, r.arg % 256));
      SendNoDangling(s.threads, s.eps[e], r.cur, Ipc.SendMsg(buf, r.arg % 256));
    }
    hide NoDangling, Send, Recv, Ipc.CallMsg, Ipc.SendMsg;
  }

  // ----- Steps

  lemma IpcKeepsKernel(sys: System, op: Ipc.Op)
    requires CoreInv(sys) && IpcOk(sys, op)
    ensures var s := Ipc.Step(IpcPart(sys), op); CoreInv(sys.(tcbs := s.threads, eps := s.eps))
  {
    var s := Ipc.Step(IpcPart(sys), op);
    IpcKeepsProcesses(IpcPart(sys), op);
    SameProcessesKeepInv(sys, s.threads, s.eps);
    SizesOf(sys);
    hide Process.Inv, Ipc.Step, NoDangling;
    forall e: nat | e < |s.eps|
      ensures NoDangling(s.threads, s.eps[e])
    {
      IpcNoDangling(sys, op, e);
      NoDanglingCarries(sys.tcbs, s.threads, s.eps[e]);
    }
  }

  /** A thread slot filled by creation was free and zeroed, so it was registered nowhere. */
  lemma CreateKeepsIpc(sys: System, args: Args)
    requires CoreInv(sys) && (args.pc != 0 || args.spTop != 0)
    ensures Ipc.Inv(IpcPart(Create(sys, args).0))
    ensures AllNoDangling(Create(sys, args).0.tcbs, Create(sys, args).0.eps)
    ensures Create(sys, args).0.sched.frameStart == 0
  {
    var (sys', e, id) := Create(sys, args);
    if e != Ok {
      FailedCreateChangesNothing(sys, args);
    } else {
      CreateEffect(sys, args);
      SizesOf(sys);
      NewThreadQuiet(sys, args);
      hide Create, Process.Inv, NoDangling, InUse;
      assert sys'.tcbs == sys.tcbs[id := sys'.tcbs[id]];
      Ipc.ThreadChangeKeepsInv(IpcPart(sys), id, sys'.tcbs[id]);
      forall e: nat | e < |sys.eps|
        ensures NoDangling(sys'.tcbs, sys.eps[e])
      {
        NoDanglingCarries(sys.tcbs, sys'.tcbs, sys.eps[e]);
      }
    }
  }

  lemma NewThreadQuiet(sys: System, args: Args)
    requires Process.Inv(sys) && Create(sys, args).1 == Ok && sys.sched.frameStart == 0
    ensures var (sys', _, id) := Create(sys, args);
            && id < |sys.tcbs| == |sys'.tcbs| && sys.tcbs[id].state == Inactive && Ipc.Sized(sys'.tcbs[id].ipc)
            && sys'.sched.frameStart == 0 && sys'.eps == sys.eps
  {
    hide Mdb.Valid, Mdb.Insert, Alloc.AllocFrame;
  }

  lemma DestroyKeepsKernel(sys: System, id: nat)
    requires CoreInv(sys)
    ensures CoreInv(Destroy(sys, id).0)
  {
    DestroyKeepsInv(sys, id);
    SizesOf(sys);
    if id < MAX_TCBS && InUse(sys.tcbs[id]) {
      Ipc.DestroyKeepsInv(IpcPart(sys), id);
      var sys' := Destroy(sys, id).0;
      assert IpcPart(sys') == Ipc.Destroy(IpcPart(sys), id);
      hide Process.Inv, NoDangling;
      forall e: nat | e < |sys.eps|
        ensures NoDangling(sys'.tcbs, sys'.eps[e])
      {
        assert NoDangling(sys.tcbs, sys.eps[e]);
        CleanedNoDangling(sys.tcbs, sys.eps[e], id);
      }
    }
  }

  lemma {:induction false} RefillKeepsTasks(cs: seq<Sched.Context>, now: nat)
    ensures Sched.TasksOf(Sched.Refilled(cs, now)) == Sched.TasksOf(cs)
  {
    if cs != [] {
      var n := |cs| - 1;
      RefillKeepsTasks(cs[..n], now);
      assert Sched.Refilled(cs, now)[..n] == Sched.Refilled(cs[..n], now);
    }
  }

  /** Refills touch neither bindings nor budgets, so the admission test still holds. */
  lemma TickKeepsKernel(sys: System, now: nat)
    requires CoreInv(sys)
    ensures CoreInv(sys.(sched := Sched.Tick(sys.sched, now)))
  {
    RefillKeepsTasks(sys.sched.contexts, now);
    hide Mdb.Valid, Ipc.Inv, NoDangling, FreeIsEmpty, Sched.TasksOf, Sched.FindOwner;
    var s, s' := sys.sched, Sched.Tick(sys.sched, now);
    assert Sched.PeriodsOk(s'.contexts);
    forall p: nat | p < s.num
      ensures Sched.PartitionLoad(s'.contexts, p) == Sched.PartitionLoad(s.contexts, p)
    {
    }
  }

  // ----- Capabilities and configuration

  /** Every endpoint capability in the nodes names an endpoint that exists. */
  ghost predicate CapOk(c: Cap) {
    c.valid && c.kind == EndpointCap ==> c.obj.EndpointObject? && c.obj.ep < MAX_ENDPOINTS
  }

  ghost predicate CapsOk(ns: seq<CNode.Node>) {
    && CNode.AllShaped(ns)
    && forall n, i :: 0 <= n < |ns| && 0 <= i < |ns[n].slots| ==> CapOk(ns[n].slots[i])
  }

  /** Every thread's capability node exists, or is null. */
  ghost predicate SpacesOk(tcbs: seq<Thread>, count: nat) {
    forall i :: 0 <= i < |tcbs| ==> tcbs[i].cspace <= count
  }

  ghost predicate KernelInv(sys: System) {
    CoreInv(sys) && CapsOk(sys.cnodes) && SpacesOk(sys.tcbs, |sys.cnodes|)
  }

  /** Derivation keeps kind and object, so copies, mints and moves name only endpoints that exist. */
  lemma CapStepKeepsCaps(ns: seq<CNode.Node>, op: CNode.Op)
    requires CapsOk(ns) && CNode.OpOk(op)
    ensures CapsOk(CNode.Step(ns, op).0)
  {
    var ns' := CNode.Step(ns, op).0;
    hide CNode.Step, CNode.DerivedFrom;
    forall n, i | 0 <= n < |ns'| && 0 <= i < |ns'[n].slots|
      ensures CapOk(ns'[n].slots[i])
    {
      if ns'[n].slots[i].valid {
        CNode.SlotHolds(ns', n, i);
        var p := CNode.StepDerives(ns, op, ns'[n].slots[i]);
        HeldIsOk(ns, p);
        SameObject(ns'[n].slots[i], p);
      }
    }
  }

  lemma HeldIsOk(ns: seq<CNode.Node>, c: Cap)
    requires CapsOk(ns) && CNode.Holds(ns, c)
    ensures CapOk(c) && c.valid
  {
  }

  lemma SameObject(c: Cap, p: Cap)
    requires CNode.DerivedFrom(c, p) && CapOk(p) && p.valid
    ensures CapOk(c)
  {
  }

  lemma ClearKeepsCaps(ns: seq<CNode.Node>, cspace: nat)
    requires CapsOk(ns)
    ensures CapsOk(CNode.ClearSpace(ns, cspace))
  {
    var ns' := CNode.ClearSpace(ns, cspace);
    forall n, i | 0 <= n < |ns'| && 0 <= i < |ns'[n].slots|
      ensures CapOk(ns'[n].slots[i])
    {
      assert CapOk(ns[n].slots[i]);
    }
  }

  /** The capability a thread's call names, through its own capability node; none without a node. */
  function CapAt(sys: System, t: nat, cptr: nat): Option<Cap>
    requires t < |sys.tcbs| && CNode.AllShaped(sys.cnodes)
  {
    var k := sys.tcbs[t].cspace;
    if k == 0 || k > |sys.cnodes| then None
    else
      var i := CNode.Lookup(sys.cnodes[k - 1], cptr);
      if i.Some? then Some(sys.cnodes[k - 1].slots[i.value]) else None
  }

  function BudgetOf(sys: System, t: nat): nat
    requires t < |sys.tcbs|
  {
    var c := sys.tcbs[t].schedContext;
    if c < |sys.sched.contexts| then sys.sched.contexts[c].remaining else 0
  }

  datatype Call = SysCallNo | SysSendNo | SysReplyRecvNo

  /** The system call of thread `t`: capability and budget are the thread's own. */
  function CallOf(sys: System, call: Call, t: nat, cptr: nat, arg: nat, overran: bool): Ipc.Op
    requires t < |sys.tcbs| && CNode.AllShaped(sys.cnodes)
  {
    var r := Ipc.Request(t, CapAt(sys, t, cptr), BudgetOf(sys, t), arg, overran);
    match call
    case SysCallNo => Ipc.CallOp(r)
    case SysSendNo => Ipc.SendOp(r)
    case SysReplyRecvNo => Ipc.ReplyRecvOp(r)
  }

  lemma CallIsOk(sys: System, call: Call, t: nat, cptr: nat, arg: nat, overran: bool)
    requires KernelInv(sys) && t < MAX_TCBS
    ensures |sys.tcbs| == MAX_TCBS && IpcOk(sys, CallOf(sys, call, t, cptr, arg, overran))
  {
    SizesOf(sys);
    hide Process.Inv, Ipc.Inv, AllNoDangling;
    var k := sys.tcbs[t].cspace;
    if k != 0 && k <= |sys.cnodes| {
      var i := CNode.Lookup(sys.cnodes[k - 1], cptr);
      hide CNode.Lookup;
      assert i.Some? ==> CapOk(sys.cnodes[k - 1].slots[i.value]);
    }
  }

  /**
    A system call uses the caller's own capability and budget: in a plain node of radix 8 the capability in the slot it
    names, and what remains of the context bound to the caller.
   */
  lemma CallUsesOwn(sys: System, call: Call, t: nat, cptr: nat, arg: nat, overran: bool)
    requires KernelInv(sys) && t < |sys.tcbs| == MAX_TCBS && InUse(sys.tcbs[t]) && CNode.AllShaped(sys.cnodes)
    requires 0 < sys.tcbs[t].cspace <= |sys.cnodes|
    requires var n := sys.cnodes[sys.tcbs[t].cspace - 1]; n.radix == 8 && n.guardSize == 0 && cptr < 256
    ensures var op := CallOf(sys, call, t, cptr, arg, overran);
            var c := sys.cnodes[sys.tcbs[t].cspace - 1].slots[cptr];
            && (call == SysCallNo <==> op.CallOp?) && (call == SysSendNo <==> op.SendOp?)
            && (call == SysReplyRecvNo <==> op.ReplyRecvOp?)
            && op.r.cur == t && op.r.arg == arg && op.r.overran == overran
            && op.r.cap == (if c.valid && c.hw.tag then Some(c) else None)
            && (var cs := sys.sched.contexts;
                forall k :: 0 <= k < |cs| && cs[k].bound && cs[k].tcb == t ==> op.r.budget == cs[k].remaining)
  {
    CNode.PlainLookup(sys.cnodes[sys.tcbs[t].cspace - 1], cptr);
    hide CNode.Lookup, Ipc.Inv, AllNoDangling, Mdb.Valid, Admitted, CapsOk;
  }

  /** Without a capability node every system call is refused, and changes nothing. */
  lemma NullSpaceIsRefused(sys: System, call: Call, t: nat, cptr: nat, arg: nat, overran: bool)
    requires KernelInv(sys) && t < |sys.tcbs| == MAX_TCBS && sys.tcbs[t].cspace == 0
    requires IpcOk(sys, CallOf(sys, call, t, cptr, arg, overran))
    ensures Ipc.Step(IpcPart(sys), CallOf(sys, call, t, cptr, arg, overran)) == IpcPart(sys)
  {
    hide Process.Inv, AllNoDangling, SpacesOk;
    Ipc.GateRefuses(IpcPart(sys), CallOf(sys, call, t, cptr, arg, overran).r);
  }

  // ----- Events

  datatype Event =
    | CreateEvent(args: Args)
    | ConfigureEvent(t: nat, setup: Setup)
    | StartEvent(t: nat)
    | DestroyEvent(t: nat)
    | CallEvent(call: Call, t: nat, cptr: nat, arg: nat, overran: bool)
    | CapEvent(op: CNode.Op)
    | TickEvent(now: nat)

  /** Threads are configured before they start and with a node that exists; destination slots of moves are in range. */
  predicate EventOk(sys: System, ev: Event) {
    match ev
    case CreateEvent(args) => args.pc != 0 || args.spTop != 0
    case ConfigureEvent(t, setup) =>
      t < |sys.tcbs| && InUse(sys.tcbs[t]) && sys.tcbs[t].state == Inactive && setup.cspace <= |sys.cnodes|
    case StartEvent(t) => t < |sys.tcbs| && InUse(sys.tcbs[t])
    case CallEvent(_, t, _, _, _) => t < |sys.tcbs|
    case CapEvent(op) => CNode.OpOk(op)
    case _ => true
  }

  ghost function AfterIpc(sys: System, op: Ipc.Op): System
    requires KernelInv(sys) && IpcOk(sys, op)
  {
    var s := Ipc.Step(IpcPart(sys), op);
    sys.(tcbs := s.threads, eps := s.eps)
  }

  lemma IpcStepKeeps(sys: System, op: Ipc.Op)
    requires KernelInv(sys) && IpcOk(sys, op)
    ensures KernelInv(AfterIpc(sys, op))
  {
    IpcKeepsKernel(sys, op);
    IpcKeepsProcesses(IpcPart(sys), op);
    var us := Ipc.Step(IpcPart(sys), op).threads;
    hide CoreInv, Ipc.Step, CapsOk;
    assert forall i :: 0 <= i < |us| ==> SameProcess(sys.tcbs[i], us[i]);
  }

  lemma CreateStepKeeps(sys: System, args: Args)
    requires KernelInv(sys) && (args.pc != 0 || args.spTop != 0)
    ensures Process.Ready(sys) && KernelInv(Create(sys, args).0)
  {
    CreateKeepsInv(sys, args);
    CreateKeepsIpc(sys, args);
    SizesOf(sys);
    CreateKeepsSpaces(sys, args);
    hide Create, Process.Inv, Ipc.Inv, AllNoDangling, CapsOk, SpacesOk, Process.Ready;
  }

  lemma CreateKeepsSpaces(sys: System, args: Args)
    requires Process.Inv(sys) && SpacesOk(sys.tcbs, |sys.cnodes|)
    ensures var sys' := Create(sys, args).0; sys'.cnodes == sys.cnodes && SpacesOk(sys'.tcbs, |sys.cnodes|)
  {
    SizesOf(sys);
    CreateCases(sys, args);
    hide Create, Process.Inv, Mdb.Insert, Alloc.AllocFrame, Admit, Process.Ready;
  }

  lemma DestroyStepKeeps(sys: System, t: nat)
    requires KernelInv(sys)
    ensures Process.Ready(sys) && KernelInv(Destroy(sys, t).0)
  {
    DestroyKeepsKernel(sys, t);
    SizesOf(sys);
    if t < MAX_TCBS && InUse(sys.tcbs[t]) {
      DestroyIs(sys, t);
      ClearKeepsCaps(sys.cnodes, sys.tcbs[t].cspace);
    }
    hide CoreInv, CapsOk, CNode.ClearSpace;
  }

  /** Configuring a thread that has not started gives it a capability node and disturbs nothing else. */
  lemma ConfigureStepKeeps(sys: System, t: nat, c: Setup)
    requires KernelInv(sys) && EventOk(sys, ConfigureEvent(t, c))
    ensures KernelInv(Configure(sys, t, c).0)
  {
    SizesOf(sys);
    ConfigureKeepsInv(sys, t, c);
    var sys' := Configure(sys, t, c).0;
    Ipc.ThreadChangeKeepsInv(IpcPart(sys), t, sys'.tcbs[t]);
    assert IpcPart(sys') == IpcPart(sys).(threads := sys.tcbs[t := sys'.tcbs[t]]);
    hide Process.Inv, Ipc.Inv, NoDangling, CapsOk;
    forall e: nat | e < |sys.eps|
      ensures NoDangling(sys'.tcbs, sys.eps[e])
    {
      NoDanglingCarries(sys.tcbs, sys'.tcbs, sys.eps[e]);
    }
  }

  lemma CapStepKeeps(sys: System, op: CNode.Op)
    requires KernelInv(sys) && CNode.OpOk(op)
    ensures KernelInv(sys.(cnodes := CNode.Step(sys.cnodes, op).0))
  {
    CapStepKeepsCaps(sys.cnodes, op);
    hide CNode.Step, Mdb.Valid, Paired, Admitted, Ipc.Inv, AllNoDangling;
  }

  lemma TickStepKeeps(sys: System, now: nat)
    requires KernelInv(sys)
    ensures Sched.Shaped(sys.sched) && sys.sched.frameStart == 0
    ensures KernelInv(sys.(sched := Sched.Tick(sys.sched, now)))
  {
    TickKeepsKernel(sys, now);
    hide Sched.Tick, Mdb.Valid, Paired, Ipc.Inv, AllNoDangling;
  }

  ghost function Step(sys: System, ev: Event): (sys': System)
    requires KernelInv(sys) && EventOk(sys, ev)
    ensures KernelInv(sys')
  {
    hide KernelInv;
    match ev
    case CreateEvent(args) => CreateStepKeeps(sys, args); Create(sys, args).0
    case DestroyEvent(t) => DestroyStepKeeps(sys, t); Destroy(sys, t).0
    case ConfigureEvent(t, setup) => ConfigureStepKeeps(sys, t, setup); Configure(sys, t, setup).0
    case StartEvent(t) => IpcStepKeeps(sys, Ipc.StartOp(t)); AfterIpc(sys, Ipc.StartOp(t))
    case CallEvent(call, t, cptr, arg, overran) =>
      Shapes(sys);
      CallIsOk(sys, call, t, cptr, arg, overran);
      IpcStepKeeps(sys, CallOf(sys, call, t, cptr, arg, overran));
      AfterIpc(sys, CallOf(sys, call, t, cptr, arg, overran))
    case CapEvent(op) => Shapes(sys); CapStepKeeps(sys, op); sys.(cnodes := CNode.Step(sys.cnodes, op).0)
    case TickEvent(now) => TickStepKeeps(sys, now); sys.(sched := Sched.Tick(sys.sched, now))
  }

  lemma Shapes(sys: System)
    requires KernelInv(sys)
    ensures |sys.tcbs| == MAX_TCBS && |sys.eps| == MAX_ENDPOINTS && CNode.AllShaped(sys.cnodes)
  {
  }

  // ----- Whole runs

  ghost predicate LegalRun(sys: System, evs: seq<Event>)
    requires KernelInv(sys)
    decreases |evs|
  {
    evs == [] || (EventOk(sys, evs[0]) && LegalRun(Step(sys, evs[0]), evs[1..]))
  }

  ghost function Run(sys: System, evs: seq<Event>): (sys': System)
    requires KernelInv(sys) && LegalRun(sys, evs)
    ensures KernelInv(sys')
    decreases |evs|
  {
    if evs == [] then sys else Run(Step(sys, evs[0]), evs[1..])
  }

  /**
    No process yet and every endpoint idle; the derivation tree and the capability nodes hold what booting put there,
    the nodes naming only endpoints that exist.
   */
  ghost predicate Booted(sys: System) {
    && NoProcesses(sys) && sys.sched.frameStart == 0 && CapsOk(sys.cnodes)
    && |sys.eps| == MAX_ENDPOINTS && forall e :: 0 <= e < MAX_ENDPOINTS ==> sys.eps[e] == Idle
  }

  lemma BootedIsInv(sys: System)
    requires Booted(sys)
    ensures KernelInv(sys)
  {
    NoProcessesIsInv(sys);
    hide Process.Inv, CapsOk;
    Ipc.FreshIsInv(IpcPart(sys));
  }

  /**
    In every run of the whole kernel, from any tree: the tree stays a forest; threads in use and bound scheduling
    contexts name each other, and `count` is their number; a registered receiver is a live thread blocked in receive,
    at one endpoint only; every queued message comes from a live thread; every partition passes the admission test;
    and every endpoint capability names an endpoint that exists.
   */
  lemma RunStaysConsistent(sys: System, evs: seq<Event>, e: nat)
    requires Booted(sys) && e < MAX_ENDPOINTS
    ensures KernelInv(sys)
    ensures LegalRun(sys, evs) ==>
              var k := Run(sys, evs);
              && Paired(k.tcbs, k.sched.contexts) && k.count == |Used(k.tcbs)| == |Bound(k.sched.contexts)|
              && Admitted(k.sched) && Mdb.Valid(k.mdb)
              && CapsOk(k.cnodes) && SpacesOk(k.tcbs, |k.cnodes|)
              && |k.eps| == MAX_ENDPOINTS
              && (k.eps[e].Waiting? ==>
                    var r := k.eps[e].receiver;
                    && Live(k.tcbs, r) && k.tcbs[r].state == BlockedRecv
                    && forall f :: 0 <= f < MAX_ENDPOINTS && f != e ==> k.eps[f] != Waiting(r))
              && (k.eps[e].Queued? ==> forall i :: 0 <= i < |k.eps[e].q| ==> Live(k.tcbs, k.eps[e].q[i].sender))
  {
    BootedIsInv(sys);
    if LegalRun(sys, evs) {
      hide Booted, LegalRun, Mdb.Valid, Paired, Admitted, CapsOk, SpacesOk;
      var k := Run(sys, evs);
      InvOf(k);
      PairedCount(k);
      assert Ipc.ReceiverBlocked(k.tcbs, k.eps[e]) && NoDangling(k.tcbs, k.eps[e]);
    }
  }

  lemma EventKeepsLockstep(sys: System, ev: Event)
    requires KernelInv(sys) && EventOk(sys, ev) && EmptyTree.Lockstep(sys.tcbs, sys.mdb.nodes)
    ensures EmptyTree.Lockstep(Step(sys, ev).tcbs, Step(sys, ev).mdb.nodes)
  {
    SizesHere(sys);
    Shapes(sys);
    match ev
    case CreateEvent(args) => EmptyTree.CreateKeepsLockstep(sys, args);
    case DestroyEvent(t) => EmptyTree.DestroyKeepsLockstep(sys, t);
    case ConfigureEvent(t, setup) =>
      EmptyTree.SameUseKeepsLockstep(sys.tcbs, Configure(sys, t, setup).0.tcbs, sys.mdb.nodes);
    case StartEvent(t) => IpcKeepsLockstep(sys, Ipc.StartOp(t));
    case CallEvent(call, t, cptr, arg, overran) =>
      CallIsOk(sys, call, t, cptr, arg, overran);
      IpcKeepsLockstep(sys, CallOf(sys, call, t, cptr, arg, overran));
    case CapEvent(op) =>
    case TickEvent(now) =>
  }

  lemma IpcKeepsLockstep(sys: System, op: Ipc.Op)
    requires KernelInv(sys) && IpcOk(sys, op) && EmptyTree.Lockstep(sys.tcbs, sys.mdb.nodes)
    ensures EmptyTree.Lockstep(AfterIpc(sys, op).tcbs, sys.mdb.nodes)
  {
    IpcKeepsProcesses(IpcPart(sys), op);
    var us := Ipc.Step(IpcPart(sys), op).threads;
    hide KernelInv, Ipc.Step, EmptyTree.Lockstep;
    assert forall i :: 0 <= i < |us| ==> SameProcess(sys.tcbs[i], us[i]);
    EmptyTree.SameUseKeepsLockstep(sys.tcbs, us, sys.mdb.nodes);
  }

  /**
    If the tree was empty at the start, then node `i` is live exactly when thread `i` is in use, throughout every run.
   */
  lemma {:induction false} RunKeepsLockstep(sys: System, evs: seq<Event>)
    requires KernelInv(sys) && LegalRun(sys, evs) && EmptyTree.Lockstep(sys.tcbs, sys.mdb.nodes)
    ensures EmptyTree.Lockstep(Run(sys, evs).tcbs, Run(sys, evs).mdb.nodes)
    decreases |evs|
  {
    hide KernelInv, Step, EmptyTree.Lockstep;
    if evs != [] {
      EventKeepsLockstep(sys, evs[0]);
      RunKeepsLockstep(Step(sys, evs[0]), evs[1..]);
    }
  }

  // ----- What outlives a thread

  /** No endpoint holds an unclaimed hand-off from or to thread `t`. */
  ghost predicate Unhanded(eps: seq<Mode>, t: nat) {
    forall e :: 0 <= e < |eps| ==> !HandsOff(eps[e], t)
  }

  /** No endpoint waits for thread `t`, nor holds a message from it or meant for it. */
  ghost predicate Unknown(eps: seq<Mode>, t: nat) {
    forall e :: 0 <= e < |eps| ==> !Mentions(eps[e], t)
  }

  /**
    After a process is destroyed no endpoint knows its thread if and only if none held an unclaimed hand-off from or to
    it.
   */
  lemma DestroyForgetsExactly(sys: System, id: nat)
    requires KernelInv(sys) && id < MAX_TCBS && |sys.tcbs| == MAX_TCBS && InUse(sys.tcbs[id])
    ensures Process.Ready(sys)
    ensures Unknown(Destroy(sys, id).0.eps, id) <==> Unhanded(sys.eps, id)
  {
    hide CoreInv, CapsOk, SpacesOk, Process.Ready, Destroy, CNode.ClearSpace, Mentions, HandsOff;
    hide Forget, Sched.Unbind;
    InvOf(sys);
    DestroyIs(sys, id);
    Traces.DestroyForgetsExactly(IpcPart(sys), id);
    assert Destroy(sys, id).0.eps == Ipc.Destroy(IpcPart(sys), id).eps;
    hide Ipc.CleanedAll, Ipc.Destroy;
  }

  /** The capability node of a destroyed process holds nothing any more, so nothing can be looked up in it. */
  lemma DestroyClearsSpace(sys: System, id: nat, cptr: nat)
    requires KernelInv(sys) && id < MAX_TCBS && |sys.tcbs| == MAX_TCBS && InUse(sys.tcbs[id])
    ensures Process.Ready(sys)
    ensures CNode.Emptied(sys.cnodes, Destroy(sys, id).0.cnodes, sys.tcbs[id].cspace, cptr)
    ensures sys.tcbs[id].cspace <= |sys.cnodes|
  {
    Shapes(sys);
    CNode.ClearSpaceEmpties(sys.cnodes, sys.tcbs[id].cspace, cptr);
    InvOf(sys);
    DestroyIs(sys, id);
    hide CoreInv, CapsOk, Process.Ready, Destroy, CNode.Emptied, CNode.ClearSpace;
  }

  lemma InvOf(sys: System)
    requires CoreInv(sys)
    ensures Process.Inv(sys)
  {
  }

  /** The threads at both ends of every unclaimed hand-off are live. */
  ghost predicate HandoffsLive(tcbs: seq<Thread>, eps: seq<Mode>) {
    forall e :: 0 <= e < |eps| ==> HandoffLive(tcbs, eps[e])
  }

  ghost predicate HandoffLive(tcbs: seq<Thread>, ep: Mode) {
    ep.Handoff? ==> Live(tcbs, ep.from) && Live(tcbs, ep.to)
  }

  /** The event does not destroy a thread while a message from or to it lies unclaimed. */
  ghost predicate QuietEvent(sys: System, ev: Event) {
    ev.DestroyEvent? && ev.t < |sys.tcbs| && InUse(sys.tcbs[ev.t]) ==> Unhanded(sys.eps, ev.t)
  }

  lemma SendHandsLive(tcbs: seq<Thread>, ep: Mode, sender: nat, msg: Msg)
    requires NoDangling(tcbs, ep) && HandoffLive(tcbs, ep) && Live(tcbs, sender)
    ensures HandoffLive(tcbs, Send(ep, sender, msg).0)
  {
  }

  lemma CallHandsLive(s: Ipc.State, op: Ipc.Op, e: nat)
    requires Ipc.Inv(s) && Ipc.OpOk(op) && (op.CallOp? || op.SendOp? || op.ReplyRecvOp?)
    requires e < |s.eps| && NoDangling(s.threads, s.eps[e]) && HandoffLive(s.threads, s.eps[e])
    requires Live(s.threads, op.r.cur)
    ensures HandoffLive(s.threads, Ipc.Step(s, op).eps[e])
  {
    var r := op.r;
    var buf := s.threads[r.cur].ipc;
    if r.arg % 256 <= IPC_MSG_MAX {
      SendHandsLive(s.threads, s.eps[e], r.cur, Ipc.CallMsg(buf, r.arg % 256));
      SendHandsLive(s.threads, s.eps[e], r.cur, Ipc.SendMsg(buf, r.arg % 256));
    }
    hide NoDangling, Send, Ipc.CallMsg, Ipc.SendMsg;
  }

  lemma HandoffLiveCarries(ts: seq<Thread>, us: seq<Thread>, ep: Mode)
    requires HandoffLive(ts, ep) && |us| == |ts| && forall i :: 0 <= i < |ts| && InUse(ts[i]) ==> InUse(us[i])
    ensures HandoffLive(us, ep)
  {
  }

  lemma IpcHandsLive(sys: System, op: Ipc.Op)
    requires KernelInv(sys) && IpcOk(sys, op) && HandoffsLive(sys.tcbs, sys.eps)
    ensures HandoffsLive(AfterIpc(sys, op).tcbs, AfterIpc(sys, op).eps)
  {
    Shapes(sys);
    IpcKeepsProcesses(IpcPart(sys), op);
    var s := Ipc.Step(IpcPart(sys), op);
    forall e: nat | e < |s.eps|
      ensures HandoffLive(s.threads, s.eps[e])
    {
      IpcHandsLiveAt(sys, op, e);
      hide CoreInv, Ipc.Step, HandoffLive, CapsOk, SpacesOk;
      HandoffLiveCarries(sys.tcbs, s.threads, s.eps[e]);
    }
  }

  lemma IpcHandsLiveAt(sys: System, op: Ipc.Op, e: nat)
    requires KernelInv(sys) && IpcOk(sys, op) && e < |sys.eps| && HandoffLive(sys.tcbs, sys.eps[e])
    ensures HandoffLive(sys.tcbs, Ipc.Step(IpcPart(sys), op).eps[e])
  {
    assert NoDangling(sys.tcbs, sys.eps[e]);
    if op.CallOp? || op.SendOp? || op.ReplyRecvOp? {
      if sys.tcbs[op.r.cur].state == Runnable {
        RunnableIsLive(sys, op.r.cur);
        CallHandsLive(IpcPart(sys), op, e);
      } else {
        Ipc.GateRefuses(IpcPart(sys), op.r);
      }
    }
  }

  lemma DestroyHandsLive(sys: System, t: nat)
    requires KernelInv(sys) && HandoffsLive(sys.tcbs, sys.eps) && t < |sys.tcbs| && InUse(sys.tcbs[t])
    ensures Process.Ready(sys)
    ensures HandoffsLive(Destroy(sys, t).0.tcbs, Destroy(sys, t).0.eps) <==> Unhanded(sys.eps, t)
  {
    Shapes(sys);
    InvOf(sys);
    DestroyIs(sys, t);
    CleanedHandoffs(sys.tcbs, sys.eps, t);
    hide *;
  }

  lemma CleanedHandoffs(tcbs: seq<Thread>, eps: seq<Mode>, t: nat)
    requires HandoffsLive(tcbs, eps) && t < |tcbs|
    ensures HandoffsLive(tcbs[t := EmptyThread()], Ipc.CleanedAll(eps, t)) <==> Unhanded(eps, t)
  {
    hide HandsOff, HandoffLive, Cleaned;
    forall e: nat | e < |eps|
      ensures HandoffLive(tcbs[t := EmptyThread()], Ipc.CleanedAll(eps, t)[e]) <==> !HandsOff(eps[e], t)
    {
      CleanedHandoff(tcbs, eps[e], t);
    }
  }

  lemma CleanedHandoff(tcbs: seq<Thread>, ep: Mode, t: nat)
    requires HandoffLive(tcbs, ep) && t < |tcbs|
    ensures HandoffLive(tcbs[t := EmptyThread()], Cleaned(ep, t)) <==> !HandsOff(ep, t)
  {
  }

  lemma CreateHandsLive(sys: System, args: Args)
    requires KernelInv(sys) && HandoffsLive(sys.tcbs, sys.eps) && (args.pc != 0 || args.spTop != 0)
    ensures Process.Ready(sys)
    ensures HandoffsLive(Create(sys, args).0.tcbs, Create(sys, args).0.eps)
  {
    SizesOf(sys);
    if Create(sys, args).1 == Ok {
      CreateEffect(sys, args);
    } else {
      FailedCreateChangesNothing(sys, args);
    }
    var sys' := Create(sys, args).0;
    hide Create, CoreInv, CapsOk, SpacesOk, Process.Ready, HandoffLive;
    forall e: nat | e < |sys.eps|
      ensures HandoffLive(sys'.tcbs, sys.eps[e])
    {
      HandoffLiveCarries(sys.tcbs, sys'.tcbs, sys.eps[e]);
    }
  }

  /** One event keeps both ends of every hand-off live if and only if it destroys neither. */
  lemma EventIsExact(sys: System, ev: Event)
    requires KernelInv(sys) && EventOk(sys, ev) && HandoffsLive(sys.tcbs, sys.eps)
    ensures HandoffsLive(Step(sys, ev).tcbs, Step(sys, ev).eps) <==> QuietEvent(sys, ev)
  {
    Shapes(sys);
    hide KernelInv, Ipc.Step;
    match ev
    case CreateEvent(args) => CreateHandsLive(sys, args);
    case DestroyEvent(t) =>
      SizesHere(sys);
      if t < MAX_TCBS && InUse(sys.tcbs[t]) { DestroyHandsLive(sys, t); }
    case ConfigureEvent(t, setup) =>
      forall e: nat | e < |sys.eps|
        ensures HandoffLive(Configure(sys, t, setup).0.tcbs, sys.eps[e])
      {
        HandoffLiveCarries(sys.tcbs, Configure(sys, t, setup).0.tcbs, sys.eps[e]);
      }
    case StartEvent(t) => IpcHandsLive(sys, Ipc.StartOp(t));
    case CallEvent(call, t, cptr, arg, overran) =>
      CallIsOk(sys, call, t, cptr, arg, overran);
      IpcHandsLive(sys, CallOf(sys, call, t, cptr, arg, overran));
    case CapEvent(op) =>
    case TickEvent(now) => SizesHere(sys);
  }

  lemma SizesHere(sys: System)
    requires KernelInv(sys)
    ensures Process.Ready(sys) && Sched.Shaped(sys.sched) && sys.sched.frameStart == 0
  {
  }

  ghost predicate QuietRun(sys: System, evs: seq<Event>)
    requires KernelInv(sys) && LegalRun(sys, evs)
    decreases |evs|
  {
    evs == [] || (QuietEvent(sys, evs[0]) && QuietRun(Step(sys, evs[0]), evs[1..]))
  }

  /** Now and after every event, both ends of every unclaimed hand-off are live. */
  ghost predicate AlwaysLive(sys: System, evs: seq<Event>)
    requires KernelInv(sys) && LegalRun(sys, evs)
    decreases |evs|
  {
    HandoffsLive(sys.tcbs, sys.eps) && (evs == [] || AlwaysLive(Step(sys, evs[0]), evs[1..]))
  }

  lemma {:induction false} QuietIsExact(sys: System, evs: seq<Event>)
    requires KernelInv(sys) && LegalRun(sys, evs) && HandoffsLive(sys.tcbs, sys.eps)
    ensures AlwaysLive(sys, evs) <==> QuietRun(sys, evs)
    decreases |evs|
  {
    hide KernelInv, Step, HandoffsLive, QuietEvent;
    if evs != [] {
      EventIsExact(sys, evs[0]);
      var sys' := Step(sys, evs[0]);
      if HandoffsLive(sys'.tcbs, sys'.eps) {
        QuietIsExact(sys', evs[1..]);
      }
    }
  }

  /**
    Throughout a run of the whole kernel every thread an endpoint knows - waiting, sender of a queued message, either
    end of a hand-off - is live, if and only if no process is destroyed while a message from or to it lies unclaimed.
   */
  lemma RunKnowsOnlyLive(sys: System, evs: seq<Event>)
    requires Booted(sys)
    ensures KernelInv(sys)
    ensures LegalRun(sys, evs) ==> (AlwaysLive(sys, evs) <==> QuietRun(sys, evs))
  {
    BootedIsInv(sys);
    if LegalRun(sys, evs) {
      hide KernelInv, LegalRun, CapsOk;
      QuietIsExact(sys, evs);
    }
  }

  /** Where both ends of every hand-off are live, a new process is unknown to every endpoint: it inherits nothing. */
  lemma NewProcessIsUnknown(sys: System, args: Args)
    requires KernelInv(sys) && HandoffsLive(sys.tcbs, sys.eps) && (args.pc != 0 || args.spTop != 0)
    ensures Process.Ready(sys)
    ensures Create(sys, args).1 == Ok ==> Unknown(Create(sys, args).0.eps, Create(sys, args).2)
  {
    SizesOf(sys);
    if Create(sys, args).1 == Ok {
      CreateEffect(sys, args);
      var id := Create(sys, args).2;
      hide Create, Process.Inv, Ipc.Inv, CapsOk, SpacesOk, Process.Ready;
      forall e | 0 <= e < |sys.eps|
        ensures !Mentions(sys.eps[e], id)
      {
        assert NoDangling(sys.tcbs, sys.eps[e]) && HandoffLive(sys.tcbs, sys.eps[e]);
      }
    }
  }
}
