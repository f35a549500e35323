/** The IPC system calls on the kernel's own objects: the thread table and the ring endpoints (kernel/src/syscall.c). */
module IpcKernel {
  import opened Kernel
  import opened Tcb
  import opened Endpoint
  import opened Ipc

  class IpcSystem {
    const tcbs: TcbTable
    const eps: seq<RingEndpoint>

    ghost function Queues(): set<object> {
      set x | x in eps :: x.queue
    }

    ghost function Buffers(): set<object> {
      set x | x in eps :: x.msgs
    }

    /** Sixty-four separate, well-formed endpoints and a full thread table. */
    ghost predicate Ready()
      reads eps
    {
      && tcbs.threads.Length == MAX_TCBS && |eps| == MAX_ENDPOINTS
      && (forall i, j :: 0 <= i < j < |eps| ==>
            eps[i] != eps[j] && eps[i].queue != eps[j].queue && eps[i].msgs != eps[j].msgs)
      && (forall i :: 0 <= i < |eps| ==> eps[i].Valid())
    }

    ghost function Modes(): (ms: seq<Mode>)
      requires Ready()
      reads eps, Queues(), Buffers()
      ensures |ms| == |eps|
    {
      seq(|eps|, i requires 0 <= i < |eps| && eps[i].Valid() reads eps, Queues(), Buffers() => eps[i].Mode())
    }

    ghost function View(): State
      requires Ready()
      reads tcbs.threads, eps, Queues(), Buffers()
    {
      State(tcbs.threads[..], Modes())
    }

    constructor (tcbs: TcbTable, eps: seq<RingEndpoint>)
      ensures this.tcbs == tcbs && this.eps == eps
    {
      this.tcbs, this.eps := tcbs, eps;
    }

    twostate lemma OneChanged(k: nat)
      requires old(Ready()) && k < |eps| && eps[k].Valid()
      requires forall i :: 0 <= i < |eps| && i != k ==>
                 unchanged(eps[i]) && unchanged(eps[i].queue) && unchanged(eps[i].msgs)
      ensures Ready() && Modes() == old(Modes())[k := eps[k].Mode()]
    {
      forall i | 0 <= i < |eps| && i != k
        ensures eps[i].Valid() && eps[i].Mode() == old(eps[i].Mode())
      {
      }
    }

    /** The checks before the switch of syscall_handler. */
    method Check(r: Request) returns (e: Error)
      requires Ready() && r.cur < MAX_TCBS
      ensures e == Gate(View(), r)
      ensures e == Ok <==> tcbs.threads[r.cur].state == Runnable && r.cap.Some? && r.budget > 0
    {
      if tcbs.threads[r.cur].state != Runnable {
        return PartitionDenied;
      }
      if r.cap.None? {
        return InvalidCap;
      }
      if r.budget == 0 {
        return WcetExceeded;
      }
      return Ok;
    }

    method DoSend(r: Request) returns (e: Error)
      requires Ready() && Inv(View()) && RequestOk(r)
      modifies tcbs.threads, eps, Queues(), Buffers()
      ensures Ready() && (View(), e) == SysSend(old(View()), r)
    {
      e := Check(r);
      if e != Ok {
        return;
      }
      var t := tcbs.threads[r.cur];
      if r.cap.value.kind != EndpointCap {
        return InvalidCap;
      }
      var length := r.arg % 256;
      if length > IPC_MSG_MAX {
        return InvalidArg;
      }
      var words := CopyLoop(EmptyMsg().words, t.ipc.words, length);
      var ptrs := CopyLoop(EmptyMsg().capPtrs, t.ipc.capPtrs, t.ipc.caps);
      var msg := Msg(0, length, t.ipc.caps, words, ptrs);
      var k := r.cap.value.obj.ep;
      e := eps[k].SendMsg(r.cur, msg, tcbs);
      OneChanged(k);
      if r.overran {
        return WcetExceeded;
      }
    }

    method DoCall(r: Request) returns (e: Error)
      requires Ready() && Inv(View()) && RequestOk(r)
      modifies tcbs.threads, eps, Queues(), Buffers()
      ensures Ready() && (View(), e) == SysCall(old(View()), r)
    {
      e := Check(r);
      if e != Ok {
        return;
      }
      var t := tcbs.threads[r.cur];
      if !HasRight(r.cap.value, CAP_RIGHTS_READ | CAP_RIGHTS_WRITE) {
        return NoRights;
      }
      if r.cap.value.kind != EndpointCap {
        return InvalidCap;
      }
      var length := r.arg % 256;
      if length > IPC_MSG_MAX {
        return InvalidArg;
      }
      var words := CopyLoop(EmptyMsg().words, t.ipc.words, length);
      var msg := EmptyMsg().(length := length, words := words);
      var k := r.cap.value.obj.ep;
      e := eps[k].SendMsg(r.cur, msg, tcbs);
      if e == Ok {
        tcbs.threads[r.cur] := tcbs.threads[r.cur].(state := BlockedReply);
      }
      OneChanged(k);
      if r.overran {
        return WcetExceeded;
      }
    }

    method DoReplyRecv(r: Request) returns (e: Error)
      requires Ready() && Inv(View()) && RequestOk(r)
      modifies tcbs.threads, eps, Queues(), Buffers()
      ensures Ready() && (View(), e) == SysReplyRecv(old(View()), r)
    {
      e := Check(r);
      if e != Ok {
        return;
      }
      if r.cap.value.kind != EndpointCap {
        return InvalidCap;
      }
      var k := r.cap.value.obj.ep;
      var wasPending := eps[k].pending || eps[k].len > 0;
      ghost var ep := eps[k].Mode();
      assert ep == View().eps[k] && EpOk(ep) && Sized(tcbs.threads[r.cur].ipc);
      hide Inv, IpcSystem.Ready;
      var out := eps[k].RecvMsg(r.cur, tcbs);
      OneChanged(k);
      Settle(r.cur, wasPending, out);
      if r.overran {
        return WcetExceeded;
      }
      return Ok;
    }

    /** Copies a delivered message into the receiver's buffer, or blocks the receiver. */
    method Settle(cur: nat, wasPending: bool, out: Option<Msg>)
      requires cur < tcbs.threads.Length == MAX_TCBS && Sized(tcbs.threads[cur].ipc)
      requires wasPending ==> out.Some? && Sized(out.value)
      modifies tcbs.threads
      ensures tcbs.threads[..] == old(tcbs.threads[..])[cur :=
                if wasPending then old(tcbs.threads[cur]).(ipc := Delivered(old(tcbs.threads[cur]).ipc, out.value))
                else old(tcbs.threads[cur]).(state := BlockedRecv)]
    {
      var t := tcbs.threads[cur];
      if wasPending {
        var words := CopyLoop(t.ipc.words, out.value.words, out.value.length);
        tcbs.threads[cur] := t.(ipc := t.ipc.(words := words, length := out.value.length));
      } else {
        tcbs.threads[cur] := t.(state := BlockedRecv);
      }
    }

    /** endpoint_cleanup_for_tcb over all endpoints. */
    method CleanupAll(t: nat)
      requires Ready()
      modifies eps, Queues(), Buffers()
      ensures Ready() && Modes() == CleanedAll(old(Modes()), t)
    {
      for i := 0 to |eps|
        invariant Ready()
        invariant forall j :: 0 <= j < i ==> Modes()[j] == Cleaned(old(Modes())[j], t)
        invariant forall j :: i <= j < |eps| ==> Modes()[j] == old(Modes())[j]
      {
        label before:
        eps[i].Cleanup(t);
        OneChanged@before(i);
      }
    }
  }

  /** The kernel's word-by-word copy. */
  method CopyLoop(dst: seq<nat>, src: seq<nat>, n: nat) returns (r: seq<nat>)
    requires n <= |dst| && n <= |src|
    ensures r == CopyFirst(dst, src, n)
  {
    r := dst;
    for i := 0 to n
      invariant r == CopyFirst(dst, src, i)
    {
      r := r[i := src[i]];
    }
  }
}
