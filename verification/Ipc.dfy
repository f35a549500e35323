/**
  The IPC system calls over all threads and endpoints (the SYS_CALL, SYS_REPLY_RECV and SYS_SEND cases of
  kernel/src/syscall.c, with the endpoint cleanup of process_destroy): which thread waits where.
 */
module Ipc {
  import opened Kernel
  import opened Tcb
  import opened Endpoint

  datatype State = State(threads: seq<Thread>, eps: seq<Mode>)

  // ----- Messages and buffers

  predicate Sized(m: Msg) {
    |m.words| == IPC_MSG_MAX && |m.capPtrs| == IPC_CAPS_MAX && MsgOk(m)
  }

  /** The first `n` elements of `src` over `dst`: the kernel's copy loops. */
  function CopyFirst(dst: seq<nat>, src: seq<nat>, n: nat): (r: seq<nat>)
    requires n <= |dst| && n <= |src|
    ensures |r| == |dst|
  {
    src[..n] + dst[n..]
  }

  /** The message SYS_CALL builds: `length` words of the caller's buffer and no capabilities. */
  function CallMsg(buf: Msg, length: nat): (m: Msg)
    requires Sized(buf) && length <= IPC_MSG_MAX
    ensures Sized(m)
  {
    EmptyMsg().(length := length, words := CopyFirst(EmptyMsg().words, buf.words, length))
  }

  /** The message SYS_SEND builds: the capability pointers go along. */
  function SendMsg(buf: Msg, length: nat): (m: Msg)
    requires Sized(buf) && length <= IPC_MSG_MAX
    ensures Sized(m)
  {
    CallMsg(buf, length).(caps := buf.caps, capPtrs := CopyFirst(EmptyMsg().capPtrs, buf.capPtrs, buf.caps))
  }

  /** A receiver's buffer after delivery. */
  function Delivered(buf: Msg, m: Msg): (r: Msg)
    requires Sized(buf) && Sized(m)
    ensures Sized(r) && r.length == m.length && r.words[..m.length] == m.words[..m.length]
  {
    buf.(length := m.length, words := CopyFirst(buf.words, m.words, m.length))
  }

  // ----- Invariant

  ghost predicate EpOk(ep: Mode) {
    && ModeOk(ep)
    && (ep.Handoff? ==> Sized(ep.msg))
    && (ep.Queued? ==> forall i :: 0 <= i < |ep.q| ==> Sized(ep.q[i].msg))
  }

  /** A registered receiver exists and is blocked in receive. */
  ghost predicate ReceiverBlocked(threads: seq<Thread>, ep: Mode) {
    ep.Waiting? ==> ep.receiver < |threads| && threads[ep.receiver].state == BlockedRecv
  }

  ghost predicate Inv(s: State) {
    && |s.threads| == MAX_TCBS && |s.eps| == MAX_ENDPOINTS
    && (forall i :: 0 <= i < MAX_TCBS ==> Sized(s.threads[i].ipc))
    && (forall e :: 0 <= e < MAX_ENDPOINTS ==> EpOk(s.eps[e]) && ReceiverBlocked(s.threads, s.eps[e]))
    && (forall e, f :: 0 <= e < f < MAX_ENDPOINTS && s.eps[e].Waiting? && s.eps[f].Waiting? ==>
          s.eps[e].receiver != s.eps[f].receiver)
  }

  // ----- System calls

  /**
    What a system call brings along: the caller, the capability its slot holds, the budget left, the argument, and
    whether the clock finds the call over its time bound at the end.
   */
  datatype Request = Request(cur: nat, cap: Option<Cap>, budget: nat, arg: nat, overran: bool)

  /** The time check at the end of the handler, after the call has taken effect. */
  function Late(r: Request, e: Error): Error {
    if r.overran then WcetExceeded else e
  }

  predicate RequestOk(r: Request) {
    && r.cur < MAX_TCBS
    && (r.cap.Some? && r.cap.value.kind == EndpointCap ==>
          r.cap.value.obj.EndpointObject? && r.cap.value.obj.ep < MAX_ENDPOINTS)
  }

  /** The checks every system call passes through before its own case. */
  function Gate(s: State, r: Request): Error
    requires r.cur < |s.threads|
  {
    if s.threads[r.cur].state != Runnable then PartitionDenied
    else if r.cap.None? then InvalidCap
    else if r.budget == 0 then WcetExceeded
    else Ok
  }

  ghost function SysCall(s: State, r: Request): (State, Error)
    requires RequestOk(r) && Inv(s)
  {
    if Gate(s, r) != Ok then (s, Gate(s, r))
    else if !HasRight(r.cap.value, CAP_RIGHTS_READ | CAP_RIGHTS_WRITE) then (s, NoRights)
    else if r.cap.value.kind != EndpointCap then (s, InvalidCap)
    else if r.arg % 256 > IPC_MSG_MAX then (s, InvalidArg)
    else
      var e := r.cap.value.obj.ep;
      var (ep, err, who) := Send(s.eps[e], r.cur, CallMsg(s.threads[r.cur].ipc, r.arg % 256));
      var threads := Woken(s.threads, who);
      (State(if err == Ok then threads[r.cur := threads[r.cur].(state := BlockedReply)] else threads,
             s.eps[e := ep]), Late(r, err))
  }

  ghost function SysSend(s: State, r: Request): (State, Error)
    requires RequestOk(r) && Inv(s)
  {
    if Gate(s, r) != Ok then (s, Gate(s, r))
    else if r.cap.value.kind != EndpointCap then (s, InvalidCap)
    else if r.arg % 256 > IPC_MSG_MAX then (s, InvalidArg)
    else
      var e := r.cap.value.obj.ep;
      var (ep, err, who) := Send(s.eps[e], r.cur, SendMsg(s.threads[r.cur].ipc, r.arg % 256));
      (State(Woken(s.threads, who), s.eps[e := ep]), Late(r, err))
  }

  ghost function SysReplyRecv(s: State, r: Request): (State, Error)
    requires RequestOk(r) && Inv(s)
  {
    if Gate(s, r) != Ok then (s, Gate(s, r))
    else if r.cap.value.kind != EndpointCap then (s, InvalidCap)
    else
      var e := r.cap.value.obj.ep;
      var (ep, out, from) := Recv(s.eps[e], r.cur);
      var threads := Released(s.threads, from);
      var t := threads[r.cur];
      assert EpOk(s.eps[e]);
      (State(threads[r.cur := if out.Some? then t.(ipc := Delivered(t.ipc, out.value)) else t.(state := BlockedRecv)],
             s.eps[e := ep]), Late(r, Ok))
  }

  function CleanedAll(eps: seq<Mode>, t: nat): (r: seq<Mode>)
    ensures |r| == |eps|
  {
    seq(|eps|, i requires 0 <= i < |eps| => Cleaned(eps[i], t))
  }

  /** The part of process_destroy that concerns IPC: clean the endpoints, scrub the thread. */
  function Destroy(s: State, t: nat): State {
    if t >= |s.threads| then s else State(s.threads[t := EmptyThread()], CleanedAll(s.eps, t))
  }

  /** tcb_resume on a thread that has not started. */
  function Start(s: State, t: nat): State {
    if t < |s.threads| && s.threads[t].state == Inactive then s.(threads := s.threads[t := Resume(s.threads[t])]) else s
  }

  datatype Op =
    | CallOp(r: Request)
    | SendOp(r: Request)
    | ReplyRecvOp(r: Request)
    | DestroyOp(t: nat)
    | StartOp(t: nat)

  predicate OpOk(op: Op) {
    op.CallOp? || op.SendOp? || op.ReplyRecvOp? ==> RequestOk(op.r)
  }

  /** The common checks pass exactly for a runnable caller with a capability and budget left. */
  lemma GateIsExact(s: State, r: Request)
    requires r.cur < |s.threads|
    ensures Gate(s, r) == Ok <==> s.threads[r.cur].state == Runnable && r.cap.Some? && r.budget > 0
  {
  }

  /** A call stopped by the common checks changes nothing, and all three calls report the first check that fails. */
  lemma GateRefuses(s: State, r: Request)
    requires Inv(s) && RequestOk(r) && Gate(s, r) != Ok
    ensures SysCall(s, r).0 == SysSend(s, r).0 == SysReplyRecv(s, r).0 == s
    ensures var e := if s.threads[r.cur].state != Runnable then PartitionDenied
                     else if r.cap.None? then InvalidCap else WcetExceeded;
            SysCall(s, r).1 == SysSend(s, r).1 == SysReplyRecv(s, r).1 == e
  {
  }

  /** The endpoint a call names holds as many messages as it can. */
  predicate Full(ep: Mode) {
    ep.Queued? && |ep.q| >= RING
  }

  /** A receive that passes its checks. */
  predicate Receives(s: State, r: Request) {
    && RequestOk(r) && r.cur < |s.threads| && |s.eps| == MAX_ENDPOINTS
    && Gate(s, r) == Ok && r.cap.value.kind == EndpointCap
  }

  /** A send that passes its checks and finds room. */
  predicate Sends(s: State, r: Request) {
    Receives(s, r) && r.arg % 256 <= IPC_MSG_MAX && !Full(s.eps[r.cap.value.obj.ep])
  }

  /**
    An error leaves every thread and endpoint as it was if and only if the call did not overrun its time after passing
    its checks and finding room: the late error comes when the send or receive has taken effect.
   */
  lemma ErrorIsExact(s: State, r: Request)
    requires Inv(s) && RequestOk(r)
    ensures SysSend(s, r).1 != Ok ==> (SysSend(s, r).0 == s <==> !(r.overran && Sends(s, r)))
    ensures SysCall(s, r).1 != Ok ==>
              (SysCall(s, r).0 == s <==>
               !(r.overran && Sends(s, r) && HasRight(r.cap.value, CAP_RIGHTS_READ | CAP_RIGHTS_WRITE)))
    ensures SysReplyRecv(s, r).1 != Ok ==> (SysReplyRecv(s, r).0 == s <==> !(r.overran && Receives(s, r)))
  {
    if Receives(s, r) {
      var e := r.cap.value.obj.ep;
      assert EpOk(s.eps[e]);
      assert s.eps[e := s.eps[e]] == s.eps;
      RunnableIsNotWaiting(s, r.cur, e);
      if Sends(s, r) {
        SendChanges(s.eps[e], r.cur, CallMsg(s.threads[r.cur].ipc, r.arg % 256));
        SendChanges(s.eps[e], r.cur, SendMsg(s.threads[r.cur].ipc, r.arg % 256));
      }
    }
  }

  lemma SendChanges(ep: Mode, sender: nat, msg: Msg)
    requires !Full(ep) && MsgOk(msg)
    ensures Send(ep, sender, msg).1 == Ok && Send(ep, sender, msg).0 != ep
  {
  }

  // ----- What every step keeps

  /** A runnable thread is registered nowhere. */
  lemma RunnableIsNotWaiting(s: State, t: nat, e: nat)
    requires Inv(s) && t < MAX_TCBS && e < MAX_ENDPOINTS && s.threads[t].state != BlockedRecv
    ensures s.eps[e] != Waiting(t)
  {
  }

  /** Sending to a registered receiver makes it runnable and unregisters it, though the wake's result is ignored. */
  lemma SendWakesReceiver(s: State, e: nat, sender: nat, msg: Msg)
    requires Inv(s) && e < MAX_ENDPOINTS && s.eps[e].Waiting? && MsgOk(msg)
    ensures var (ep, err, who) := Send(s.eps[e], sender, msg);
            var r := s.eps[e].receiver;
            && err == Ok && ep == Handoff(sender, r, msg)
            && Woken(s.threads, who)[r].state == Runnable
            && (forall f :: 0 <= f < MAX_ENDPOINTS && f != e ==> s.eps[f] != Waiting(r))
  {
    assert ReceiverBlocked(s.threads, s.eps[e]);
    var r := s.eps[e].receiver;
    forall f | 0 <= f < MAX_ENDPOINTS && f != e
      ensures s.eps[f] != Waiting(r)
    {
      if s.eps[f].Waiting? {
        assert s.eps[f].receiver != r;
      }
    }
  }

  lemma SendKeepsEpOk(ep: Mode, sender: nat, msg: Msg)
    requires EpOk(ep) && Sized(msg)
    ensures EpOk(Send(ep, sender, msg).0)
  {
  }

  /** The common part of SYS_CALL and SYS_SEND. */
  lemma SendKeepsInv(s: State, e: nat, sender: nat, msg: Msg)
    requires Inv(s) && e < MAX_ENDPOINTS && Sized(msg)
    ensures var (ep, err, who) := Send(s.eps[e], sender, msg);
            Inv(State(Woken(s.threads, who), s.eps[e := ep]))
  {
    var (ep, err, who) := Send(s.eps[e], sender, msg);
    SendKeepsEpOk(s.eps[e], sender, msg);
    var s' := State(Woken(s.threads, who), s.eps[e := ep]);
    if s.eps[e].Waiting? {
      SendWakesReceiver(s, e, sender, msg);
    }
    forall f | 0 <= f < MAX_ENDPOINTS
      ensures EpOk(s'.eps[f]) && ReceiverBlocked(s'.threads, s'.eps[f])
    {
      assert EpOk(s.eps[f]) && ReceiverBlocked(s.threads, s.eps[f]);
    }
  }

  /** Changing the state of a thread that is not blocked in receive, or any buffer, disturbs no registration. */
  lemma ThreadChangeKeepsInv(s: State, t: nat, th: Thread)
    requires Inv(s) && t < MAX_TCBS && Sized(th.ipc)
    requires s.threads[t].state != BlockedRecv || th.state == BlockedRecv
    ensures Inv(s.(threads := s.threads[t := th]))
  {
    var s' := s.(threads := s.threads[t := th]);
    forall f | 0 <= f < MAX_ENDPOINTS
      ensures EpOk(s'.eps[f]) && ReceiverBlocked(s'.threads, s'.eps[f])
    {
      assert EpOk(s.eps[f]) && ReceiverBlocked(s.threads, s.eps[f]);
    }
  }

  /** SYS_CALL is a send followed, when it succeeds, by blocking the caller. */
  lemma CallKeepsInv(s: State, r: Request)
    requires Inv(s) && RequestOk(r)
    ensures Inv(SysCall(s, r).0)
  {
    if SysCall(s, r).0 != s {
      var e, msg := r.cap.value.obj.ep, CallMsg(s.threads[r.cur].ipc, r.arg % 256);
      var (ep, err, who) := Send(s.eps[e], r.cur, msg);
      SendKeepsInv(s, e, r.cur, msg);
      RunnableIsNotWaiting(s, r.cur, e);
      var s1 := State(Woken(s.threads, who), s.eps[e := ep]);
      assert s1.threads[r.cur] == s.threads[r.cur];
      ThreadChangeKeepsInv(s1, r.cur, s1.threads[r.cur].(state := BlockedReply));
    }
  }

  lemma SysSendKeepsInv(s: State, r: Request)
    requires Inv(s) && RequestOk(r)
    ensures Inv(SysSend(s, r).0)
  {
    if SysSend(s, r).0 != s {
      SendKeepsInv(s, r.cap.value.obj.ep, r.cur, SendMsg(s.threads[r.cur].ipc, r.arg % 256));
    }
  }

  lemma ReplyRecvKeepsInv(s: State, r: Request)
    requires Inv(s) && RequestOk(r)
    ensures Inv(SysReplyRecv(s, r).0)
  {
    if Gate(s, r) == Ok && r.cap.value.kind == EndpointCap {
      var e := r.cap.value.obj.ep;
      var (ep, out, from) := Recv(s.eps[e], r.cur);
      assert EpOk(s.eps[e]);
      ReleaseKeepsInv(s, from);
      var s1 := State(Released(s.threads, from), s.eps);
      var t := s1.threads[r.cur];
      assert t == s.threads[r.cur];
      if out.Some? {
        ThreadChangeKeepsInv(s1, r.cur, t.(ipc := Delivered(t.ipc, out.value)));
        QuietKeepsInv(s1.(threads := s1.threads[r.cur := t.(ipc := Delivered(t.ipc, out.value))]), e, ep);
      } else {
        RegisterKeepsInv(s1, e, r.cur);
      }
    }
  }

  lemma ReleaseKeepsInv(s: State, who: Option<nat>)
    requires Inv(s)
    ensures Inv(State(Released(s.threads, who), s.eps))
  {
    if who.Some? && who.value < MAX_TCBS && s.threads[who.value].state == BlockedSend {
      ThreadChangeKeepsInv(s, who.value, Resume(s.threads[who.value]));
    }
  }

  /** An endpoint with no registered receiver may take over at any endpoint. */
  lemma QuietKeepsInv(s: State, e: nat, ep: Mode)
    requires Inv(s) && e < MAX_ENDPOINTS && EpOk(ep) && !ep.Waiting?
    ensures Inv(s.(eps := s.eps[e := ep]))
  {
    var s' := s.(eps := s.eps[e := ep]);
    forall f | 0 <= f < MAX_ENDPOINTS
      ensures EpOk(s'.eps[f]) && ReceiverBlocked(s'.threads, s'.eps[f])
    {
      assert EpOk(s.eps[f]) && ReceiverBlocked(s.threads, s.eps[f]);
    }
  }

  /** A runnable thread that registers and blocks is registered there only. */
  lemma RegisterKeepsInv(s: State, e: nat, t: nat)
    requires Inv(s) && e < MAX_ENDPOINTS && t < MAX_TCBS && s.threads[t].state == Runnable
    ensures Inv(State(s.threads[t := s.threads[t].(state := BlockedRecv)], s.eps[e := Waiting(t)]))
  {
    var s' := State(s.threads[t := s.threads[t].(state := BlockedRecv)], s.eps[e := Waiting(t)]);
    forall f | 0 <= f < MAX_ENDPOINTS
      ensures EpOk(s'.eps[f]) && ReceiverBlocked(s'.threads, s'.eps[f])
      ensures f != e ==> s'.eps[f] != Waiting(t)
    {
      assert EpOk(s.eps[f]) && ReceiverBlocked(s.threads, s.eps[f]);
    }
  }

  lemma CleanedKeepsEpOk(ep: Mode, t: nat)
    requires EpOk(ep)
    ensures EpOk(Cleaned(ep, t)) && Cleaned(ep, t) != Waiting(t)
    ensures Cleaned(ep, t).Waiting? ==> ep == Cleaned(ep, t)
  {
    if ep.Queued? {
      var r := Others(ep.q, t);
      forall i | 0 <= i < |r|
        ensures Sized(r[i].msg)
      {
        OthersMembers(ep.q, t, r[i]);
      }
    }
  }

  /** A dead thread is registered nowhere, and scrubbing it disturbs nobody. */
  lemma DestroyKeepsInv(s: State, t: nat)
    requires Inv(s) && t < MAX_TCBS
    ensures Inv(Destroy(s, t))
    ensures forall e :: 0 <= e < MAX_ENDPOINTS ==> Destroy(s, t).eps[e] != Waiting(t)
  {
    var s' := Destroy(s, t);
    forall f | 0 <= f < MAX_ENDPOINTS
      ensures EpOk(s'.eps[f]) && ReceiverBlocked(s'.threads, s'.eps[f]) && s'.eps[f] != Waiting(t)
      ensures s'.eps[f].Waiting? ==> s'.eps[f] == s.eps[f]
    {
      assert EpOk(s.eps[f]) && ReceiverBlocked(s.threads, s.eps[f]);
      CleanedKeepsEpOk(s.eps[f], t);
    }
  }

  // ----- Whole runs

  ghost function Step(s: State, op: Op): (s': State)
    requires Inv(s) && OpOk(op)
    ensures Inv(s')
  {
    match op
    case CallOp(r) => CallKeepsInv(s, r); SysCall(s, r).0
    case SendOp(r) => SysSendKeepsInv(s, r); SysSend(s, r).0
    case ReplyRecvOp(r) => ReplyRecvKeepsInv(s, r); SysReplyRecv(s, r).0
    case DestroyOp(t) => if t < MAX_TCBS then DestroyKeepsInv(s, t); Destroy(s, t) else s
    case StartOp(t) =>
      if t < MAX_TCBS then
        var th := if s.threads[t].state == Inactive then Resume(s.threads[t]) else s.threads[t];
        ThreadChangeKeepsInv(s, t, th);
        Start(s, t)
      else s
  }

  ghost function Run(s: State, ops: seq<Op>): (s': State)
    requires Inv(s) && forall op :: op in ops ==> OpOk(op)
    ensures Inv(s')
  {
    if ops == [] then s else Step(Run(s, ops[..|ops| - 1]), ops[|ops| - 1])
  }

  /** A start state: buffers of the right size and every endpoint idle. */
  ghost predicate Fresh(s: State) {
    && |s.threads| == MAX_TCBS && |s.eps| == MAX_ENDPOINTS
    && (forall i :: 0 <= i < MAX_TCBS ==> Sized(s.threads[i].ipc))
    && (forall e :: 0 <= e < MAX_ENDPOINTS ==> s.eps[e] == Idle)
  }

  lemma FreshIsInv(s: State)
    requires Fresh(s)
    ensures Inv(s)
  {
  }

  /** In every run a registered receiver is blocked in receive, and is registered at one endpoint only. */
  lemma RunReceiversAreBlocked(s: State, ops: seq<Op>, e: nat, r: nat)
    requires Fresh(s) && (forall op :: op in ops ==> OpOk(op))
    requires e < MAX_ENDPOINTS
    ensures Inv(s)
    ensures Run(s, ops).eps[e] == Waiting(r) ==>
              && r < MAX_TCBS && Run(s, ops).threads[r].state == BlockedRecv
              && (forall f :: 0 <= f < MAX_ENDPOINTS && f != e ==> Run(s, ops).eps[f] != Waiting(r))
  {
    FreshIsInv(s);
    var s' := Run(s, ops);
    assert ReceiverBlocked(s'.threads, s'.eps[e]);
  }

  /**
    A receive that passes its checks blocks the caller exactly when the endpoint holds no message; otherwise the caller
    stays runnable with the first held message in its buffer.
   */
  lemma ReceiveBlocksOnlyWhenEmpty(s: State, r: Request)
    requires Inv(s) && RequestOk(r) && Gate(s, r) == Ok && r.cap.value.kind == EndpointCap
    ensures var ep := s.eps[r.cap.value.obj.ep];
            var s' := SysReplyRecv(s, r).0;
            var t := s'.threads[r.cur];
            && (t.state == BlockedRecv <==> ep.Idle? || ep.Waiting?)
            && (t.state == BlockedRecv ==> s'.eps[r.cap.value.obj.ep] == Waiting(r.cur))
            && (ep.Handoff? || ep.Queued? ==>
                  var m := if ep.Handoff? then ep.msg else ep.q[0].msg;
                  t.state == Runnable && t.ipc.length == m.length <= IPC_MSG_MAX
                  && t.ipc.words[..m.length] == m.words[..m.length])
  {
    assert EpOk(s.eps[r.cap.value.obj.ep]);
  }

  lemma CallerStaysBlockedStep(s: State, op: Op, t: nat)
    requires Inv(s) && OpOk(op) && t < MAX_TCBS && op != DestroyOp(t) && s.threads[t].state == BlockedReply
    ensures Step(s, op).threads[t].state == BlockedReply
  {
    match op
    case CallOp(r) =>
      if r.cap.Some? && r.cap.value.kind == EndpointCap { RunnableIsNotWaiting(s, t, r.cap.value.obj.ep); }
    case SendOp(r) =>
      if r.cap.Some? && r.cap.value.kind == EndpointCap { RunnableIsNotWaiting(s, t, r.cap.value.obj.ep); }
    case ReplyRecvOp(r) =>
    case DestroyOp(u) =>
    case StartOp(u) =>
  }

  /** A thread blocked by SYS_CALL is never woken by IPC: it stays blocked for the reply until it is destroyed. */
  lemma {:induction false} RunLeavesCallersBlocked(s: State, ops: seq<Op>, t: nat)
    requires Inv(s) && (forall op :: op in ops ==> OpOk(op) && op != DestroyOp(t))
    requires t < MAX_TCBS && s.threads[t].state == BlockedReply
    ensures Run(s, ops).threads[t].state == BlockedReply
  {
    hide Inv, Step;
    if ops != [] {
      RunLeavesCallersBlocked(s, ops[..|ops| - 1], t);
      CallerStaysBlockedStep(Run(s, ops[..|ops| - 1]), ops[|ops| - 1], t);
    }
  }

  // ----- What each call does

  /** Starting makes an inactive thread runnable and does nothing else; any other thread is left alone. */
  lemma StartIs(s: State, t: nat)
    ensures var s' := Start(s, t);
            && s'.eps == s.eps && |s'.threads| == |s.threads|
            && forall u :: 0 <= u < |s.threads| ==>
                 s'.threads[u] == if u == t && s.threads[u].state == Inactive then s.threads[u].(state := Runnable)
                                  else s.threads[u]
  {
  }

  /** The message built from the first `n` words of a buffer, with `caps` of its capability pointers. */
  predicate IsMessage(m: Msg, buf: Msg, n: nat, caps: nat) {
    && n <= 30 == |m.words| == |buf.words| && caps <= 3 == |m.capPtrs| == |buf.capPtrs|
    && m.tag == 0 && m.length == n && m.caps == caps
    && (forall i :: 0 <= i < 30 ==> m.words[i] == if i < n then buf.words[i] else 0)
    && (forall i :: 0 <= i < 3 ==> m.capPtrs[i] == if i < caps then buf.capPtrs[i] else 0)
  }

  /**
    From `s` to `s'` thread `cur` sent `m` on endpoint `e` and is left in state `after`: the message is handed to the
    waiting receiver, which runs with its fault cleared, or queued last; nothing else has changed.
   */
  ghost predicate Sent(s: State, s': State, cur: nat, e: nat, m: Msg, after: ThreadState) {
    && cur < |s.threads| == |s'.threads| && e < |s.eps| == |s'.eps|
    && (forall f :: 0 <= f < |s.eps| && f != e ==> s'.eps[f] == s.eps[f])
    && s'.eps[e] == (match s.eps[e]
                     case Waiting(w) => Handoff(cur, w, m)
                     case Queued(q) => Queued(q + [Item(cur, m)])
                     case _ => Queued([Item(cur, m)]))
    && s'.threads[cur] == s.threads[cur].(state := after)
    && forall t :: 0 <= t < |s.threads| && t != cur ==>
         s'.threads[t] ==
         if s.eps[e] == Waiting(t) then s.threads[t].(state := Runnable, faultAddr := 0, faultType := 0)
         else s.threads[t]
  }

  /** SYS_SEND, past its checks, sends the words asked for with the capability pointers, and the caller runs on. */
  lemma SendIs(s: State, r: Request)
    requires Inv(s) && Sends(s, r)
    ensures var m := SendMsg(s.threads[r.cur].ipc, r.arg % 256);
            && IsMessage(m, s.threads[r.cur].ipc, r.arg % 256, s.threads[r.cur].ipc.caps)
            && Sent(s, SysSend(s, r).0, r.cur, r.cap.value.obj.ep, m, Runnable)
  {
    var e := r.cap.value.obj.ep;
    assert ReceiverBlocked(s.threads, s.eps[e]);
    RunnableIsNotWaiting(s, r.cur, e);
  }

  /** SYS_CALL, past its checks, sends the words asked for without capabilities, and the caller waits for a reply. */
  lemma CallIs(s: State, r: Request)
    requires Inv(s) && Sends(s, r) && HasRight(r.cap.value, CAP_RIGHTS_READ | CAP_RIGHTS_WRITE)
    ensures var m := CallMsg(s.threads[r.cur].ipc, r.arg % 256);
            && IsMessage(m, s.threads[r.cur].ipc, r.arg % 256, 0)
            && Sent(s, SysCall(s, r).0, r.cur, r.cap.value.obj.ep, m, BlockedReply)
  {
    var e := r.cap.value.obj.ep;
    assert ReceiverBlocked(s.threads, s.eps[e]);
    RunnableIsNotWaiting(s, r.cur, e);
  }

  /** Why a send or call that the common checks let through is refused, in order. */
  lemma CallRefusals(s: State, r: Request)
    requires Inv(s) && RequestOk(r) && Gate(s, r) == Ok
    ensures var send, call := SysSend(s, r).1, SysCall(s, r).1;
            var c := r.cap.value;
            && (c.kind != EndpointCap ==> send == InvalidCap)
            && (c.kind == EndpointCap && r.arg % 256 > 30 ==> send == InvalidArg)
            && (c.kind == EndpointCap && r.arg % 256 <= 30 && Full(s.eps[c.obj.ep]) && !r.overran ==> send == Overflow)
            && (!HasRight(c, CAP_RIGHTS_READ | CAP_RIGHTS_WRITE) ==> call == NoRights)
            && (HasRight(c, CAP_RIGHTS_READ | CAP_RIGHTS_WRITE) ==> call == send)
            && SysReplyRecv(s, r).1 ==
               (if c.kind != EndpointCap then InvalidCap else if r.overran then WcetExceeded else Ok)
            && (Sends(s, r) ==> send == if r.overran then WcetExceeded else Ok)
  {
    if r.cap.value.kind == EndpointCap && r.arg % 256 <= IPC_MSG_MAX {
      var ep := s.eps[r.cap.value.obj.ep];
      SendIsExact(ep, r.cur, CallMsg(s.threads[r.cur].ipc, r.arg % 256));
      SendIsExact(ep, r.cur, SendMsg(s.threads[r.cur].ipc, r.arg % 256));
    }
    hide Send;
  }

  /**
    SYS_REPLY_RECV, past its checks: with a message there, the caller runs on, its buffer has that message's length and
    words and is otherwise as before, and a sender blocked for its queued message runs again; without, the caller is
    blocked and registered. Nothing else has changed.
   */
  ghost predicate Received(s: State, s': State, cur: nat, e: nat) {
    && cur < |s.threads| == |s'.threads| && e < |s.eps| == |s'.eps|
    && (forall f :: 0 <= f < |s.eps| && f != e ==> s'.eps[f] == s.eps[f])
    && (match s.eps[e]
        case Queued(q) => q != [] && s'.eps[e] == (if |q| == 1 then Idle else Queued(q[1..]))
                          && Took(s.threads[cur], s'.threads[cur], q[0].msg)
        case Handoff(_, _, m) => s'.eps[e] == Idle && Took(s.threads[cur], s'.threads[cur], m)
        case _ => s'.eps[e] == Waiting(cur) && s'.threads[cur] == s.threads[cur].(state := BlockedRecv))
    && forall t :: 0 <= t < |s.threads| && t != cur ==>
         s'.threads[t] == if s.eps[e].Queued? && s.eps[e].q != [] && s.eps[e].q[0].sender == t
                             && s.threads[t].state == BlockedSend
                          then s.threads[t].(state := Runnable) else s.threads[t]
  }

  /** The thread took message `m` into its buffer: length and that many words, and nothing else. */
  predicate Took(t: Thread, t': Thread, m: Msg) {
    && t' == t.(ipc := t.ipc.(length := m.length, words := t'.ipc.words))
    && |t'.ipc.words| == |t.ipc.words| == |m.words|
    && forall i :: 0 <= i < |m.words| ==> t'.ipc.words[i] == if i < m.length then m.words[i] else t.ipc.words[i]
  }

  lemma ReceiveIs(s: State, r: Request)
    requires Inv(s) && Receives(s, r)
    ensures Received(s, SysReplyRecv(s, r).0, r.cur, r.cap.value.obj.ep)
  {
    assert EpOk(s.eps[r.cap.value.obj.ep]);
  }

  // ----- Messages end to end

  /** A SYS_SEND that will be accepted: checks pass, the length fits. */
  ghost predicate GoodSend(s: State, r: Request) {
    && RequestOk(r) && r.cur < |s.threads| && Gate(s, r) == Ok && r.cap.value.kind == EndpointCap
    && r.arg % 256 <= IPC_MSG_MAX
  }

  ghost predicate GoodRecv(s: State, r: Request) {
    RequestOk(r) && r.cur < |s.threads| && Gate(s, r) == Ok && r.cap.value.kind == EndpointCap
  }

  /**
    Through an idle endpoint: what one thread sends, the next receiver gets, word for word; the endpoint is idle
    again.
   */
  lemma SendThenReceive(s: State, snd: Request, rcv: Request)
    requires Inv(s) && GoodSend(s, snd) && GoodRecv(s, rcv) && snd.cur != rcv.cur
    requires snd.cap.value.obj.ep == rcv.cap.value.obj.ep && s.eps[snd.cap.value.obj.ep] == Idle
    ensures Inv(SysSend(s, snd).0)
    ensures var s1 := SysSend(s, snd).0;
            var s2 := SysReplyRecv(s1, rcv).0;
            var n := snd.arg % 256;
            && SysSend(s, snd).1 == Late(snd, Ok) && s2.eps == s.eps
            && s2.threads[rcv.cur].state == Runnable && s2.threads[rcv.cur].ipc.length == n
            && s2.threads[rcv.cur].ipc.words[..n] == s.threads[snd.cur].ipc.words[..n]
  {
    SysSendKeepsInv(s, snd);
    var e, n := snd.cap.value.obj.ep, snd.arg % 256;
    var msg := SendMsg(s.threads[snd.cur].ipc, n);
    var s1 := SysSend(s, snd).0;
    assert s1 == State(s.threads, s.eps[e := Queued([Item(snd.cur, msg)])]);
    assert msg.words[..n] == s.threads[snd.cur].ipc.words[..n];
    ReceiveBlocksOnlyWhenEmpty(s1, rcv);
    assert SysReplyRecv(s1, rcv).0.eps == s1.eps[e := Idle] == s.eps;
  }

  /** A send reported as over its time has happened: the next receiver gets the message word for word. */
  lemma OverrunSendIsDelivered(s: State, snd: Request, rcv: Request)
    requires Inv(s) && GoodSend(s, snd) && GoodRecv(s, rcv) && snd.cur != rcv.cur && snd.overran
    requires snd.cap.value.obj.ep == rcv.cap.value.obj.ep && s.eps[snd.cap.value.obj.ep] == Idle
    ensures SysSend(s, snd).1 == WcetExceeded && SysSend(s, snd).0 != s && Inv(SysSend(s, snd).0)
    ensures var t := SysReplyRecv(SysSend(s, snd).0, rcv).0.threads[rcv.cur];
            var n := snd.arg % 256;
            t.ipc.length == n && t.ipc.words[..n] == s.threads[snd.cur].ipc.words[..n]
  {
    SendThenReceive(s, snd, rcv);
    ErrorIsExact(s, snd);
    hide SysReplyRecv;
  }

  /**
    Rendezvous: a receiver that found the endpoint idle and blocked is made runnable by the next send, and its next
    receive gets that message, word for word.
   */
  lemma RendezvousDelivers(s: State, rcv: Request, snd: Request)
    requires Inv(s) && GoodRecv(s, rcv) && GoodSend(s, snd) && snd.cur != rcv.cur
    requires snd.cap.value.obj.ep == rcv.cap.value.obj.ep && s.eps[rcv.cap.value.obj.ep] == Idle
    ensures Inv(SysReplyRecv(s, rcv).0)
    ensures Inv(SysSend(SysReplyRecv(s, rcv).0, snd).0)
    ensures var s1 := SysReplyRecv(s, rcv).0;
            var s2 := SysSend(s1, snd).0;
            var s3 := SysReplyRecv(s2, rcv).0;
            var n := snd.arg % 256;
            && s1.threads[rcv.cur].state == BlockedRecv && s2.threads[rcv.cur].state == Runnable
            && s3.eps == s.eps && s3.threads[rcv.cur].state == Runnable && s3.threads[rcv.cur].ipc.length == n
            && s3.threads[rcv.cur].ipc.words[..n] == s.threads[snd.cur].ipc.words[..n]
  {
    var e, n := rcv.cap.value.obj.ep, snd.arg % 256;
    ReplyRecvKeepsInv(s, rcv);
    ReceiveBlocksOnlyWhenEmpty(s, rcv);
    var s1 := SysReplyRecv(s, rcv).0;
    assert s1.eps == s.eps[e := Waiting(rcv.cur)] && s1.threads[snd.cur] == s.threads[snd.cur];
    SysSendKeepsInv(s1, snd);
    var msg := SendMsg(s.threads[snd.cur].ipc, n);
    var s2 := SysSend(s1, snd).0;
    assert s2.eps == s1.eps[e := Handoff(snd.cur, rcv.cur, msg)] && s2.threads[rcv.cur].state == Runnable;
    assert msg.words[..n] == s.threads[snd.cur].ipc.words[..n];
    ReceiveBlocksOnlyWhenEmpty(s2, rcv);
    assert SysReplyRecv(s2, rcv).0.eps == s2.eps[e := Idle] == s.eps;
  }

  /** A SYS_CALL that will be accepted. */
  ghost predicate GoodCall(s: State, r: Request) {
    GoodSend(s, r) && HasRight(r.cap.value, CAP_RIGHTS_READ | CAP_RIGHTS_WRITE)
  }

  /**
    Through an idle endpoint: the words a caller sends are those the next receiver gets, and the caller waits for a
    reply.
   */
  lemma CallThenReceive(s: State, snd: Request, rcv: Request)
    requires Inv(s) && GoodCall(s, snd) && GoodRecv(s, rcv) && snd.cur != rcv.cur
    requires snd.cap.value.obj.ep == rcv.cap.value.obj.ep && s.eps[snd.cap.value.obj.ep] == Idle
    ensures Inv(SysCall(s, snd).0)
    ensures var s1 := SysCall(s, snd).0;
            var s2 := SysReplyRecv(s1, rcv).0;
            var n := snd.arg % 256;
            && s2.eps == s.eps && s1.threads[snd.cur].state == s2.threads[snd.cur].state == BlockedReply
            && s2.threads[rcv.cur].state == Runnable && s2.threads[rcv.cur].ipc.length == n
            && s2.threads[rcv.cur].ipc.words[..n] == s.threads[snd.cur].ipc.words[..n]
            && s1.eps[snd.cap.value.obj.ep].Queued? && s1.eps[snd.cap.value.obj.ep].q[0].msg.caps == 0
  {
    CallKeepsInv(s, snd);
    CallIs(s, snd);
    var s1 := SysCall(s, snd).0;
    assert s1.threads[rcv.cur] == s.threads[rcv.cur];
    ReceiveIs(s1, rcv);
    hide SysCall, SysReplyRecv, Inv, CallMsg;
    assert SysReplyRecv(s1, rcv).0.eps == s.eps;
  }

  /** Rendezvous with a caller: the blocked receiver runs, gets the caller's words, and the caller waits for a reply. */
  lemma CallRendezvous(s: State, rcv: Request, snd: Request)
    requires Inv(s) && GoodRecv(s, rcv) && GoodCall(s, snd) && snd.cur != rcv.cur
    requires snd.cap.value.obj.ep == rcv.cap.value.obj.ep && s.eps[rcv.cap.value.obj.ep] == Idle
    ensures Inv(SysReplyRecv(s, rcv).0) && Inv(SysCall(SysReplyRecv(s, rcv).0, snd).0)
    ensures var s2 := SysCall(SysReplyRecv(s, rcv).0, snd).0;
            var s3 := SysReplyRecv(s2, rcv).0;
            var n := snd.arg % 256;
            && s2.threads[rcv.cur].state == Runnable && s2.threads[snd.cur].state == BlockedReply
            && s3.eps == s.eps && s3.threads[rcv.cur].ipc.length == n
            && s3.threads[rcv.cur].ipc.words[..n] == s.threads[snd.cur].ipc.words[..n]
  {
    ReplyRecvKeepsInv(s, rcv);
    ReceiveIs(s, rcv);
    var s1 := SysReplyRecv(s, rcv).0;
    assert s1.threads[snd.cur] == s.threads[snd.cur];
    CallKeepsInv(s1, snd);
    CallIs(s1, snd);
    var s2 := SysCall(s1, snd).0;
    ReceiveIs(s2, rcv);
    hide SysCall, SysReplyRecv, Inv, CallMsg;
    assert SysReplyRecv(s2, rcv).0.eps == s.eps;
  }
}
