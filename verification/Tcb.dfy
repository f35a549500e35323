/** Thread control blocks and their state changes (kernel/src/tcb.c, kernel/include/tcb.h). */
module Tcb {
  import opened Kernel

  datatype Msg = Msg(tag: nat, length: nat, caps: nat, words: seq<nat>, capPtrs: seq<nat>)

  function EmptyMsg(): Msg {
    Msg(0, 0, 0, seq(IPC_MSG_MAX, _ => 0), seq(IPC_CAPS_MAX, _ => 0))
  }

  datatype ThreadState = Inactive | Runnable | BlockedSend | BlockedRecv | BlockedReply

  /** A TCB; `cspace` 0 is the null pointer, `k + 1` names capability node `k`. */
  datatype Thread = Thread(id: nat, state: ThreadState, pc: nat, sp: nat, csp: HwCap, pcc: HwCap, cspace: nat,
                           vspaceRoot: nat, asid: nat, partition: nat, schedContext: nat, priority: nat, ipc: Msg,
                           faultAddr: nat, faultType: nat)

  /** An all-zero tcb_t. */
  function EmptyThread(): Thread {
    Thread(0, Inactive, 0, 0, NULL_HW, NULL_HW, 0, 0, 0, 0, 0, 0, EmptyMsg(), 0, 0)
  }

  /** Waking validates the state: only a thread blocked in receive or reply becomes runnable. */
  function WakeFromIpc(t: Thread): (Thread, Error) {
    if t.state != BlockedRecv && t.state != BlockedReply then (t, InvalidArg)
    else (t.(state := Runnable, faultAddr := 0, faultType := 0), Ok)
  }

  function Resume(t: Thread): Thread {
    if t.state == Runnable then t else t.(state := Runnable)
  }

  /**
    Waking touches the state and the fault record of a thread blocked in receive or reply, and nothing of any other.
   */
  lemma WakeIsExact(t: Thread)
    ensures var (t', e) := WakeFromIpc(t);
            if t.state == BlockedRecv || t.state == BlockedReply
            then e == Ok && t'.state == Runnable && t'.faultAddr == t'.faultType == 0
                 && t' == t.(state := t'.state, faultAddr := t'.faultAddr, faultType := t'.faultType)
            else e == InvalidArg && t' == t
  {
  }

  /** Resuming makes any thread runnable and touches nothing else. */
  lemma ResumeIsExact(t: Thread)
    ensures Resume(t).state == Runnable && Resume(t) == t.(state := Resume(t).state)
  {
  }

  /** Configuring is refused exactly without a capability node; it sets four fields and makes the thread inactive. */
  lemma ConfigureThreadIsExact(t: Thread, c: Setup)
    ensures var (t', e) := Configured(t, c);
            && (e == Ok <==> c.cspace != 0) && (e != Ok ==> e == InvalidArg && t' == t)
            && (e == Ok ==> && t'.cspace == c.cspace && t'.vspaceRoot == c.vspaceRoot && t'.asid == c.asid
                            && t'.partition == c.partition && t'.state == Inactive
                            && t' == t.(cspace := t'.cspace, vspaceRoot := t'.vspaceRoot, asid := t'.asid,
                                        partition := t'.partition, state := t'.state))
  {
  }

  /** What tcb_configure is given. */
  datatype Setup = Setup(cspace: nat, vspaceRoot: nat, asid: nat, partition: nat)

  /** tcb_configure: a null capability node is refused; the thread becomes inactive. */
  function Configured(t: Thread, c: Setup): (Thread, Error) {
    if c.cspace == 0 then (t, InvalidArg)
    else (t.(cspace := c.cspace, vspaceRoot := c.vspaceRoot, asid := c.asid, partition := c.partition,
             state := Inactive), Ok)
  }

  class TcbTable {
    const threads: array<Thread>
    var count: nat

    constructor ()
      ensures threads.Length == MAX_TCBS && fresh(threads) && count == 0
      ensures forall i :: 0 <= i < MAX_TCBS ==> threads[i] == EmptyThread()
    {
      threads := new Thread[MAX_TCBS](_ => EmptyThread());
      count := 0;
    }

    method Wake(i: nat) returns (e: Error)
      requires i < threads.Length
      modifies threads
      ensures threads[..] == old(threads[..])[i := WakeFromIpc(old(threads[i])).0]
      ensures e == WakeFromIpc(old(threads[i])).1
      ensures e == Ok <==> old(threads[i]).state in {BlockedRecv, BlockedReply}
      ensures e != Ok ==> e == InvalidArg && threads[i] == old(threads[i])
    {
      if threads[i].state != BlockedRecv && threads[i].state != BlockedReply {
        return InvalidArg;
      }
      threads[i] := threads[i].(state := Runnable, faultAddr := 0, faultType := 0);
      return Ok;
    }

    method ConfigureAt(i: nat, c: Setup) returns (e: Error)
      requires i < threads.Length
      modifies threads
      ensures threads[..] == old(threads[..])[i := Configured(old(threads[i]), c).0]
      ensures e == Configured(old(threads[i]), c).1
    {
      if c.cspace == 0 {
        return InvalidArg;
      }
      var t := threads[i];
      threads[i] := t.(cspace := c.cspace, vspaceRoot := c.vspaceRoot, asid := c.asid, partition := c.partition,
                       state := Inactive);
      return Ok;
    }

    method ResumeAt(i: nat)
      requires i < threads.Length
      modifies threads
      ensures threads[..] == old(threads[..])[i := Resume(old(threads[i]))]
    {
      var s := threads[i].state;
      if s == Inactive || s == BlockedRecv || s == BlockedSend || s == BlockedReply {
        threads[i] := threads[i].(state := Runnable);
      }
    }
  }
}
