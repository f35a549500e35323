/**
  Who can still be woken (kernel/src/endpoint.c and kernel/src/syscall.c): an endpoint remembers one receiver, so a
  second receive on it forgets the first, which then sleeps for ever.
 */
module Wakeup {
  import opened Kernel
  import opened Tcb
  import opened Endpoint
  import opened Ipc

  ghost predicate Registered(eps: seq<Mode>, t: nat) {
    exists e :: 0 <= e < |eps| && eps[e] == Waiting(t)
  }

  /** Every thread blocked in receive is registered where a sender can find it. */
  ghost predicate Wakeable(s: State) {
    forall t :: 0 <= t < |s.threads| && s.threads[t].state == BlockedRecv ==> Registered(s.eps, t)
  }

  /** The request is a receive on an endpoint where another thread already waits. */
  predicate Displaces(s: State, op: Op)
    requires |s.threads| == MAX_TCBS && |s.eps| == MAX_ENDPOINTS && OpOk(op)
  {
    && op.ReplyRecvOp? && Gate(s, op.r) == Ok && op.r.cap.value.kind == EndpointCap
    && s.eps[op.r.cap.value.obj.ep].Waiting?
  }

  lemma StaysRegistered(eps: seq<Mode>, eps': seq<Mode>, t: nat)
    requires Registered(eps, t) && |eps'| == |eps|
    requires forall e :: 0 <= e < |eps| && eps[e] == Waiting(t) ==> eps'[e] == eps[e]
    ensures Registered(eps', t)
  {
    var e :| 0 <= e < |eps| && eps[e] == Waiting(t);
    assert eps'[e] == Waiting(t);
  }

  /** A receive keeps every sleeper wakeable exactly when nobody was waiting there before. */
  lemma ReceiveIsExact(s: State, r: Request)
    requires Inv(s) && Wakeable(s) && RequestOk(r)
    ensures Wakeable(SysReplyRecv(s, r).0) <==> !Displaces(s, ReplyRecvOp(r))
  {
    var s' := SysReplyRecv(s, r).0;
    if Gate(s, r) == Ok && r.cap.value.kind == EndpointCap {
      var e := r.cap.value.obj.ep;
      assert EpOk(s.eps[e]) && ReceiverBlocked(s.threads, s.eps[e]);
      if s.eps[e].Waiting? {
        Forgotten(s, r, e, s.eps[e].receiver);
      } else {
        forall t: nat | t < MAX_TCBS && s'.threads[t].state == BlockedRecv
          ensures Registered(s'.eps, t)
        {
          if t == r.cur {
            assert s'.eps[e] == Waiting(t);
          } else {
            StaysRegistered(s.eps, s'.eps, t);
          }
        }
      }
    }
  }

  /** The receiver found waiting stays blocked and is registered nowhere any more. */
  lemma Forgotten(s: State, r: Request, e: nat, t: nat)
    requires Inv(s) && RequestOk(r) && Gate(s, r) == Ok && r.cap.value.kind == EndpointCap
    requires e == r.cap.value.obj.ep && s.eps[e] == Waiting(t)
    ensures var s' := SysReplyRecv(s, r).0; t < MAX_TCBS && s'.threads[t].state == BlockedRecv && !Registered(s'.eps, t)
  {
    var s' := SysReplyRecv(s, r).0;
    assert ReceiverBlocked(s.threads, s.eps[e]) && t != r.cur;
    forall f | 0 <= f < |s'.eps|
      ensures s'.eps[f] != Waiting(t)
    {
      if f != e && s.eps[f].Waiting? {
        assert s.eps[f].receiver != s.eps[e].receiver;
      }
    }
  }

  /** A send wakes the one it unregisters. */
  lemma SendKeepsWakeable(s: State, e: nat, sender: nat, msg: Msg)
    requires Inv(s) && Wakeable(s) && e < MAX_ENDPOINTS && Sized(msg)
    ensures var (ep, _, who) := Send(s.eps[e], sender, msg);
            Wakeable(State(Woken(s.threads, who), s.eps[e := ep]))
  {
    var (ep, _, who) := Send(s.eps[e], sender, msg);
    var s' := State(Woken(s.threads, who), s.eps[e := ep]);
    assert ReceiverBlocked(s.threads, s.eps[e]);
    forall t: nat | t < |s'.threads| && s'.threads[t].state == BlockedRecv
      ensures Registered(s'.eps, t)
    {
      StaysRegistered(s.eps, s'.eps, t);
    }
  }

  lemma DestroyKeepsWakeable(s: State, t: nat)
    requires Inv(s) && Wakeable(s) && t < MAX_TCBS
    ensures Wakeable(Destroy(s, t))
  {
    var s' := Destroy(s, t);
    forall u: nat | u < |s'.threads| && s'.threads[u].state == BlockedRecv
      ensures Registered(s'.eps, u)
    {
      StaysRegistered(s.eps, s'.eps, u);
    }
  }

  lemma CallsKeepWakeable(s: State, r: Request)
    requires Inv(s) && Wakeable(s) && RequestOk(r)
    ensures Wakeable(SysCall(s, r).0) && Wakeable(SysSend(s, r).0)
  {
    if r.cap.Some? && r.cap.value.kind == EndpointCap && r.arg % 256 <= IPC_MSG_MAX {
      var e, buf := r.cap.value.obj.ep, s.threads[r.cur].ipc;
      SendKeepsWakeable(s, e, r.cur, CallMsg(buf, r.arg % 256));
      SendKeepsWakeable(s, e, r.cur, SendMsg(buf, r.arg % 256));
      hide Send, CallMsg, SendMsg, Inv;
    }
  }

  /** One step keeps every sleeper wakeable exactly when it is not a displacing receive. */
  lemma StepIsExact(s: State, op: Op)
    requires Inv(s) && Wakeable(s) && OpOk(op)
    ensures Wakeable(Step(s, op)) <==> !Displaces(s, op)
  {
    match op
    case CallOp(r) => CallsKeepWakeable(s, r);
    case SendOp(r) => CallsKeepWakeable(s, r);
    case ReplyRecvOp(r) => ReceiveIsExact(s, r);
    case DestroyOp(t) => if t < MAX_TCBS { DestroyKeepsWakeable(s, t); }
    case StartOp(t) =>
  }

  // ----- Whole runs

  /** Some step of the run displaces a waiting receiver. */
  ghost predicate SomeoneDisplaced(s: State, ops: seq<Op>)
    requires Inv(s) && forall op :: op in ops ==> OpOk(op)
  {
    ops != [] && (Displaces(Run(s, ops[..|ops| - 1]), ops[|ops| - 1]) || SomeoneDisplaced(s, ops[..|ops| - 1]))
  }

  /** In every run in which no receive finds another receiver waiting, every thread blocked in receive can be woken. */
  lemma {:induction false} RunKeepsWakeable(s: State, ops: seq<Op>)
    requires Inv(s) && Wakeable(s) && (forall op :: op in ops ==> OpOk(op)) && !SomeoneDisplaced(s, ops)
    ensures Wakeable(Run(s, ops))
  {
    hide Inv, Step, Wakeable, Displaces;
    if ops != [] {
      RunKeepsWakeable(s, ops[..|ops| - 1]);
      StepIsExact(Run(s, ops[..|ops| - 1]), ops[|ops| - 1]);
    }
  }

  lemma SleepsStep(s: State, op: Op, t: nat)
    requires Inv(s) && OpOk(op) && t < MAX_TCBS && op != DestroyOp(t)
    requires s.threads[t].state == BlockedRecv && !Registered(s.eps, t)
    ensures Step(s, op).threads[t].state == BlockedRecv && !Registered(Step(s, op).eps, t)
  {
    var s' := Step(s, op);
    assert forall e :: 0 <= e < |s.eps| ==> s.eps[e] != Waiting(t);
    assert forall e :: 0 <= e < |s'.eps| ==> s'.eps[e] != Waiting(t);
  }

  /** A forgotten receiver stays blocked through every continuation, until it is destroyed. */
  lemma {:induction false} ForgottenSleepsForever(s: State, ops: seq<Op>, t: nat)
    requires Inv(s) && (forall op :: op in ops ==> OpOk(op) && op != DestroyOp(t))
    requires t < MAX_TCBS && s.threads[t].state == BlockedRecv && !Registered(s.eps, t)
    ensures Run(s, ops).threads[t].state == BlockedRecv && !Registered(Run(s, ops).eps, t)
  {
    hide Inv, Step, Registered;
    if ops != [] {
      ForgottenSleepsForever(s, ops[..|ops| - 1], t);
      SleepsStep(Run(s, ops[..|ops| - 1]), ops[|ops| - 1], t);
    }
  }

  lemma RunNext(s: State, ops: seq<Op>, op: Op)
    requires Inv(s) && (forall o :: o in ops ==> OpOk(o)) && OpOk(op)
    ensures Run(s, []) == s
    ensures forall o :: o in ops + [op] ==> OpOk(o)
    ensures Run(s, ops + [op]) == Step(Run(s, ops), op)
  {
    assert (ops + [op])[..|ops|] == ops;
    hide Inv, Step;
  }

  /** A receive by `t` on endpoint `e`, with budget left. */
  function ReceiveOn(t: nat, cap: Cap): Op {
    ReplyRecvOp(Request(t, Some(cap), 1, 0, false))
  }

  /** Two threads, started and then receiving on one endpoint: the first is forgotten. */
  lemma SecondReceiverDisplacesFirst(s: State, a: nat, b: nat, cap: Cap)
    requires Fresh(s) && a < MAX_TCBS && b < MAX_TCBS && a != b
    requires s.threads[a].state == s.threads[b].state == Inactive
    requires cap.kind == EndpointCap && cap.obj.EndpointObject? && cap.obj.ep < MAX_ENDPOINTS
    ensures Inv(s)
    ensures var ops := [StartOp(a), StartOp(b), ReceiveOn(a, cap), ReceiveOn(b, cap)];
            && (forall op :: op in ops ==> OpOk(op))
            && Run(s, ops).threads[a].state == BlockedRecv && !Registered(Run(s, ops).eps, a)
            && !Wakeable(Run(s, ops))
  {
    FreshIsInv(s);
    var o0, o1, o2, o3 := StartOp(a), StartOp(b), ReceiveOn(a, cap), ReceiveOn(b, cap);
    hide Run, Step, Inv, Fresh;
    RunNext(s, [], o0);
    RunNext(s, [o0], o1);
    RunNext(s, [o0, o1], o2);
    RunNext(s, [o0, o1, o2], o3);
    assert [] + [o0] == [o0] && [o0] + [o1] == [o0, o1] && [o0, o1] + [o2] == [o0, o1, o2];
    assert [o0, o1, o2] + [o3] == [o0, o1, o2, o3];
    FirstWaits(s, a, b, cap);
    SecondTakesOver(Step(Step(Step(s, o0), o1), o2), a, b, cap);
  }

  lemma FirstWaits(s: State, a: nat, b: nat, cap: Cap)
    requires Inv(s) && Fresh(s) && a < MAX_TCBS && b < MAX_TCBS && a != b
    requires s.threads[a].state == s.threads[b].state == Inactive
    requires cap.kind == EndpointCap && cap.obj.EndpointObject? && cap.obj.ep < MAX_ENDPOINTS
    ensures var s2 := Step(Step(Step(s, StartOp(a)), StartOp(b)), ReceiveOn(a, cap));
            |s2.eps| == MAX_ENDPOINTS && s2.eps[cap.obj.ep] == Waiting(a)
            && |s2.threads| == MAX_TCBS && s2.threads[b].state == Runnable
  {
    var s1 := Step(Step(s, StartOp(a)), StartOp(b));
    assert s1.eps == s.eps && s1.threads[a].state == s1.threads[b].state == Runnable;
  }

  lemma SecondTakesOver(s: State, a: nat, b: nat, cap: Cap)
    requires Inv(s) && a < MAX_TCBS && b < MAX_TCBS && a != b && s.threads[b].state == Runnable
    requires cap.kind == EndpointCap && cap.obj.EndpointObject? && cap.obj.ep < MAX_ENDPOINTS
    requires s.eps[cap.obj.ep] == Waiting(a)
    ensures var s' := Step(s, ReceiveOn(b, cap));
            |s'.threads| == MAX_TCBS && s'.threads[a].state == BlockedRecv && !Registered(s'.eps, a) && !Wakeable(s')
  {
    Forgotten(s, Request(b, Some(cap), 1, 0, false), cap.obj.ep, a);
  }

  /**
    A thread started from fresh tables that calls on an idle endpoint is blocked for a reply that nothing can wake it
    for.
   */
  lemma FirstCallerBlocks(s: State, a: nat, cap: Cap)
    requires Fresh(s) && a < MAX_TCBS && s.threads[a].state == Inactive
    requires cap.kind == EndpointCap && cap.obj.EndpointObject? && cap.obj.ep < MAX_ENDPOINTS
    requires HasRight(cap, CAP_RIGHTS_READ | CAP_RIGHTS_WRITE)
    ensures Inv(s)
    ensures var ops := [StartOp(a), CallOp(Request(a, Some(cap), 1, 0, false))];
            && (forall op :: op in ops ==> OpOk(op))
            && Run(s, ops).threads[a].state == BlockedReply
  {
    FreshIsInv(s);
    var o0, o1 := StartOp(a), CallOp(Request(a, Some(cap), 1, 0, false));
    RunNext(s, [], o0);
    RunNext(s, [o0], o1);
    assert [] + [o0] == [o0] && [o0] + [o1] == [o0, o1];
    hide Run;
    var s1 := Step(s, o0);
    assert s1.eps == s.eps && s1.threads[a].state == Runnable;
  }
}
