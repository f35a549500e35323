/**
  What an endpoint still knows of a dead thread (endpoint_cleanup_for_tcb in kernel/src/process.c): queued messages and
  registrations go, a handed-off message stays, whether it came from the thread or was meant for it.
 */
module Traces {
  import opened Kernel
  import opened Tcb
  import opened Endpoint
  import opened Ipc

  /** The endpoint holds an unclaimed hand-off from or to thread `t`. */
  predicate HandsOff(ep: Mode, t: nat) {
    ep.Handoff? && (ep.from == t || ep.to == t)
  }

  /** Thread `t` waits here, or a message held here came from it or was meant for it. */
  predicate Mentions(ep: Mode, t: nat) {
    match ep
    case Idle => false
    case Waiting(r) => r == t
    case Handoff(_, _, _) => HandsOff(ep, t)
    case Queued(q) => exists i :: 0 <= i < |q| && q[i].sender == t
  }

  /** Cleaning an endpoint for a thread removes every mention of it, except exactly its hand-offs. */
  lemma CleanedMentions(ep: Mode, t: nat)
    ensures Mentions(Cleaned(ep, t), t) <==> HandsOff(ep, t)
  {
    if ep.Queued? {
      var r := Others(ep.q, t);
      forall i | 0 <= i < |r|
        ensures r[i].sender != t
      {
        OthersMembers(ep.q, t, r[i]);
      }
    }
  }

  /** Cleaning for one thread keeps what is known of every other. */
  lemma CleanedKeepsOthers(ep: Mode, t: nat, u: nat)
    requires u != t
    ensures Mentions(Cleaned(ep, t), u) <==> Mentions(ep, u)
  {
    if ep.Queued? {
      var q, r := ep.q, Others(ep.q, t);
      if i :| 0 <= i < |q| && q[i].sender == u {
        OthersMembers(q, t, q[i]);
        var j :| 0 <= j < |r| && r[j] == q[i];
      }
      if j :| 0 <= j < |r| && r[j].sender == u {
        OthersMembers(q, t, r[j]);
        var i :| 0 <= i < |q| && q[i] == r[j];
      }
    }
  }

  /**
    After a thread is destroyed no endpoint mentions it if and only if none held an unclaimed hand-off from or to it.
   */
  lemma DestroyForgetsExactly(s: State, t: nat)
    requires t < |s.threads|
    ensures (forall e :: 0 <= e < |s.eps| ==> !Mentions(Destroy(s, t).eps[e], t)) <==>
            (forall e :: 0 <= e < |s.eps| ==> !HandsOff(s.eps[e], t))
  {
    forall e | 0 <= e < |s.eps|
      ensures Mentions(Destroy(s, t).eps[e], t) <==> HandsOff(s.eps[e], t)
    {
      CleanedMentions(s.eps[e], t);
    }
    hide Mentions, HandsOff;
  }

  // ----- Two runs that leave a trace

  /**
    After a receiver blocked and a send handed over, the endpoint holds the sender's words for whoever receives next.
   */
  lemma HandedOver(s: State, rcv: Request, snd: Request)
    requires Inv(s) && GoodRecv(s, rcv) && GoodSend(s, snd) && snd.cur != rcv.cur
    requires snd.cap.value.obj.ep == rcv.cap.value.obj.ep && s.eps[rcv.cap.value.obj.ep] == Idle
    ensures Inv(SysReplyRecv(s, rcv).0)
    ensures var s2 := SysSend(SysReplyRecv(s, rcv).0, snd).0;
            && Inv(s2) && s2.threads[rcv.cur].state == Runnable
            && s2.eps[rcv.cap.value.obj.ep] ==
               Handoff(snd.cur, rcv.cur, SendMsg(s.threads[snd.cur].ipc, snd.arg % 256))
  {
    RendezvousDelivers(s, rcv, snd);
    var s1 := SysReplyRecv(s, rcv).0;
    assert s1.threads[snd.cur] == s.threads[snd.cur];
  }

  /** Whoever receives on an endpoint with a hand-off gets that message's words. */
  lemma HandoffGoesToNext(s: State, r: Request, from: nat, to: nat, buf: Msg, n: nat)
    requires Inv(s) && GoodRecv(s, r) && Sized(buf) && n <= IPC_MSG_MAX
    requires s.eps[r.cap.value.obj.ep] == Handoff(from, to, SendMsg(buf, n))
    ensures var t := SysReplyRecv(s, r).0.threads[r.cur];
            t.state == Runnable && t.ipc.length == n && t.ipc.words[..n] == buf.words[..n]
  {
    ReceiveBlocksOnlyWhenEmpty(s, r);
    assert SendMsg(buf, n).words[..n] == buf.words[..n];
  }

  /** The receiver gets the message of a sender that was destroyed in between. */
  lemma DeadSenderIsHeard(s: State, rcv: Request, snd: Request)
    requires Inv(s) && GoodRecv(s, rcv) && GoodSend(s, snd) && snd.cur != rcv.cur
    requires snd.cap.value.obj.ep == rcv.cap.value.obj.ep && s.eps[rcv.cap.value.obj.ep] == Idle
    ensures Inv(SysReplyRecv(s, rcv).0) && Inv(SysSend(SysReplyRecv(s, rcv).0, snd).0)
    ensures var s3 := Destroy(SysSend(SysReplyRecv(s, rcv).0, snd).0, snd.cur);
            && Inv(s3)
            && var t := SysReplyRecv(s3, rcv).0.threads[rcv.cur];
               var n := snd.arg % 256;
               t.state == Runnable && t.ipc.length == n && t.ipc.words[..n] == s.threads[snd.cur].ipc.words[..n]
  {
    HandedOver(s, rcv, snd);
    hide SysSend, SysReplyRecv;
    var s2 := SysSend(SysReplyRecv(s, rcv).0, snd).0;
    DestroyKeepsInv(s2, snd.cur);
    var s3 := Destroy(s2, snd.cur);
    HandoffGoesToNext(s3, rcv, snd.cur, rcv.cur, s.threads[snd.cur].ipc, snd.arg % 256);
  }

  /** A new thread in the slot of a destroyed receiver gets the message that was handed to its predecessor. */
  lemma SuccessorInheritsHandoff(s: State, rcv: Request, snd: Request, successor: Thread)
    requires Inv(s) && GoodRecv(s, rcv) && GoodSend(s, snd) && snd.cur != rcv.cur
    requires snd.cap.value.obj.ep == rcv.cap.value.obj.ep && s.eps[rcv.cap.value.obj.ep] == Idle
    requires successor.state == Inactive && Sized(successor.ipc)
    ensures Inv(SysReplyRecv(s, rcv).0) && Inv(SysSend(SysReplyRecv(s, rcv).0, snd).0)
    ensures var s3 := Destroy(SysSend(SysReplyRecv(s, rcv).0, snd).0, rcv.cur);
            && |s3.threads| == MAX_TCBS
            && var s4 := Start(s3.(threads := s3.threads[rcv.cur := successor]), rcv.cur);
               && Inv(s4)
               && var t := SysReplyRecv(s4, rcv).0.threads[rcv.cur];
                  var n := snd.arg % 256;
                  t.state == Runnable && t.ipc.length == n && t.ipc.words[..n] == s.threads[snd.cur].ipc.words[..n]
  {
    HandedOver(s, rcv, snd);
    hide SysSend, SysReplyRecv;
    var s2 := SysSend(SysReplyRecv(s, rcv).0, snd).0;
    DestroyKeepsInv(s2, rcv.cur);
    var s3 := Destroy(s2, rcv.cur);
    ThreadChangeKeepsInv(s3, rcv.cur, Resume(successor));
    var s4 := Start(s3.(threads := s3.threads[rcv.cur := successor]), rcv.cur);
    assert s4.threads == s3.threads[rcv.cur := Resume(successor)];
    HandoffGoesToNext(s4, rcv, snd.cur, rcv.cur, s.threads[snd.cur].ipc, snd.arg % 256);
  }
}
