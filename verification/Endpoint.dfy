/**
  Endpoint IPC (kernel/src/endpoint.c): a 16-slot ring with a separate hand-off slot. Seen from outside an
  endpoint is in one of four modes; this module gives the modes, the ring that implements them, and what
  happens to every message over whole runs.
 */
module Endpoint {
  import opened Kernel
  import opened Tcb

  const RING: nat := 16

  datatype Item = Item(sender: nat, msg: Msg)

  /** A handed-off message waits for whoever receives next; it came from `from` and was meant for `to`. */
  datatype Mode =
    | Idle
    | Waiting(receiver: nat)
    | Handoff(from: nat, to: nat, msg: Msg)
    | Queued(q: seq<Item>)

  predicate ModeOk(m: Mode) {
    m.Queued? ==> 0 < |m.q| <= RING
  }

  function QueueOf(q: seq<Item>): Mode {
    if q == [] then Idle else Queued(q)
  }

  predicate MsgOk(m: Msg) {
    m.length <= IPC_MSG_MAX && m.caps <= IPC_CAPS_MAX
  }

  /** A send: the mode after it, the error, and the receiver to wake. */
  function Send(ep: Mode, sender: nat, msg: Msg): (Mode, Error, Option<nat>) {
    if !MsgOk(msg) then (ep, InvalidArg, None)
    else match ep
      case Waiting(r) => (Handoff(sender, r, msg), Ok, Some(r))
      case Queued(q) => if |q| >= RING then (ep, Overflow, None) else (Queued(q + [Item(sender, msg)]), Ok, None)
      case _ => (Queued([Item(sender, msg)]), Ok, None)
  }

  /** A receive: the mode after it, the message delivered if any, and the queued sender it came from. */
  function Recv(ep: Mode, receiver: nat): (Mode, Option<Msg>, Option<nat>) {
    match ep
    case Queued(q) =>
      if q == [] then (Waiting(receiver), None, None)
      else (QueueOf(q[1..]), Some(q[0].msg), Some(q[0].sender))
    case Handoff(_, _, m) => (Idle, Some(m), None)
    case _ => (Waiting(receiver), None, None)
  }

  /**
    When a send is accepted and why it is refused, and what it does in each mode: it hands over to a waiting receiver,
    which is to be woken, and otherwise queues behind what is queued. A refusal changes nothing.
   */
  lemma SendIsExact(ep: Mode, sender: nat, msg: Msg)
    ensures var (ep', e, who) := Send(ep, sender, msg);
            && (e == InvalidArg <==> msg.length > 30 || msg.caps > 3)
            && (e == Overflow <==> msg.length <= 30 && msg.caps <= 3 && ep.Queued? && |ep.q| >= 16)
            && (e == Ok <==> msg.length <= 30 && msg.caps <= 3 && !(ep.Queued? && |ep.q| >= 16))
            && (e != Ok ==> ep' == ep && who == None)
            && (e == Ok && ep.Waiting? ==> ep' == Handoff(sender, ep.receiver, msg) && who == Some(ep.receiver))
            && (e == Ok && ep.Queued? ==> ep' == Queued(ep.q + [Item(sender, msg)]) && who == None)
            && (e == Ok && (ep.Idle? || ep.Handoff?) ==> ep' == Queued([Item(sender, msg)]) && who == None)
  {
  }

  /**
    What a receive takes in each mode: the first queued message, whose sender is to be released, or the message handed
    over; and otherwise the receiver is registered.
   */
  lemma RecvIsExact(ep: Mode, receiver: nat)
    requires ModeOk(ep)
    ensures var (ep', out, from) := Recv(ep, receiver);
            && (ep.Idle? || ep.Waiting? ==> ep' == Waiting(receiver) && out == None && from == None)
            && (ep.Handoff? ==> ep' == Idle && out == Some(ep.msg) && from == None)
            && (ep.Queued? ==> && out == Some(ep.q[0].msg) && from == Some(ep.q[0].sender)
                               && ep' == if |ep.q| == 1 then Idle else Queued(ep.q[1..]))
  {
  }

  /** Messages not sent by `t`, in order. */
  function Others(q: seq<Item>, t: nat): (r: seq<Item>)
    ensures |r| <= |q|
  {
    if q == [] then []
    else if q[0].sender == t then Others(q[1..], t)
    else [q[0]] + Others(q[1..], t)
  }

  /** What remains of an endpoint when thread `t` dies. */
  function Cleaned(ep: Mode, t: nat): Mode {
    match ep
    case Waiting(r) => if r == t then Idle else ep
    case Queued(q) => QueueOf(Others(q, t))
    case _ => ep
  }

  /** A dead thread's registration goes and its queued messages go; everything else at the endpoint stays. */
  lemma CleanedIsExact(ep: Mode, t: nat)
    requires ModeOk(ep)
    ensures var ep' := Cleaned(ep, t);
            && (ep == Waiting(t) ==> ep' == Idle)
            && (!ep.Queued? && ep != Waiting(t) ==> ep' == ep)
            && (ep.Queued? && (forall i :: 0 <= i < |ep.q| ==> ep.q[i].sender == t) ==> ep' == Idle)
            && (ep.Queued? && (forall i :: 0 <= i < |ep.q| ==> ep.q[i].sender != t) ==> ep' == ep)
  {
    if ep.Queued? {
      if forall i :: 0 <= i < |ep.q| ==> ep.q[i].sender != t {
        OthersAll(ep.q, t);
      }
      if forall i :: 0 <= i < |ep.q| ==> ep.q[i].sender == t {
        OthersNone(ep.q, t);
      }
    }
  }

  lemma {:induction false} OthersNone(q: seq<Item>, t: nat)
    requires forall i :: 0 <= i < |q| ==> q[i].sender == t
    ensures Others(q, t) == []
  {
    if q != [] {
      OthersNone(q[1..], t);
    }
  }

  /** The threads after waking `who`, whether or not the wake is accepted. */
  function Woken(threads: seq<Thread>, who: Option<nat>): seq<Thread> {
    if who.Some? && who.value < |threads| then threads[who.value := WakeFromIpc(threads[who.value]).0] else threads
  }

  /** The threads after releasing a queued sender that was blocked. */
  function Released(threads: seq<Thread>, who: Option<nat>): seq<Thread> {
    if who.Some? && who.value < |threads| && threads[who.value].state == BlockedSend
    then threads[who.value := Resume(threads[who.value])] else threads
  }

  /** Exactly the other threads' messages remain. */
  lemma {:induction false} OthersMembers(q: seq<Item>, t: nat, x: Item)
    ensures x in Others(q, t) <==> x in q && x.sender != t
  {
    if q != [] {
      assert q == [q[0]] + q[1..];
      OthersMembers(q[1..], t, x);
    }
  }

  lemma {:induction false} OthersConcat(a: seq<Item>, b: seq<Item>, t: nat)
    ensures Others(a + b, t) == Others(a, t) + Others(b, t)
  {
    if a == [] {
      assert a + b == b;
    } else {
      OthersConcat(a[1..], b, t);
      assert (a + b)[0] == a[0] && (a + b)[1..] == a[1..] + b;
      var x, y := Others(a[1..], t), Others(b, t);
      assert [a[0]] + (x + y) == ([a[0]] + x) + y;
    }
  }

  /** A cleaning pass over `c` has reached item `q` of what is left of it. */
  ghost predicate Scanned(c: seq<Item>, s: seq<Item>, q: nat, t: nat) {
    q <= |s| && Others(s, t) == Others(c, t) && forall i :: 0 <= i < q ==> s[i].sender != t
  }

  lemma ScanStart(c: seq<Item>, t: nat)
    ensures Scanned(c, c, 0, t)
  {
  }

  lemma ScanKeep(c: seq<Item>, s: seq<Item>, q: nat, t: nat)
    requires Scanned(c, s, q, t) && q < |s| && s[q].sender != t
    ensures Scanned(c, s, q + 1, t)
  {
    hide Others;
  }

  lemma ScanDrop(c: seq<Item>, s: seq<Item>, q: nat, t: nat)
    requires Scanned(c, s, q, t) && q < |s| && s[q].sender == t
    ensures Scanned(c, Dropped(s, q), q, t)
  {
    hide Others;
    OthersDrop(s, q, t);
  }

  lemma ScanEnd(c: seq<Item>, s: seq<Item>, q: nat, t: nat)
    requires Scanned(c, s, q, t) && q == |s|
    ensures s == Others(c, t)
  {
    hide Others;
    OthersAll(s, t);
  }

  lemma {:induction false} OthersAll(q: seq<Item>, t: nat)
    requires forall i :: 0 <= i < |q| ==> q[i].sender != t
    ensures Others(q, t) == q
  {
    if q != [] {
      OthersAll(q[1..], t);
    }
  }

  // ----- The ring

  /** The slot `i` places after `head`. */
  function Slot(head: nat, i: nat): (s: nat)
    ensures s < RING
  {
    (head + i) % RING
  }

  lemma SlotNext(head: nat, i: nat)
    ensures Slot(Slot(head, 1), i) == Slot(head, i + 1)
  {
    var q, r := (head + 1) / RING, (head + 1) % RING;
    assert head + 1 + i == RING * q + (r + i);
    assert (RING * q + (r + i)) % RING == (r + i) % RING;
  }

  lemma TailMoves(head: nat, len: nat)
    ensures Slot(Slot(head, len), 1) == Slot(head, len + 1)
  {
    var q, r := (head + len) / RING, (head + len) % RING;
    assert head + len + 1 == RING * q + (r + 1);
    assert (RING * q + (r + 1)) % RING == (r + 1) % RING;
  }

  lemma SlotsDiffer(head: nat, i: nat, j: nat)
    requires i < j < i + RING
    ensures Slot(head, i) != Slot(head, j)
  {
  }

  /** The `len` items of a ring from slot `head` on, wrapping round. */
  function Ring(qs: seq<nat>, ms: seq<Msg>, head: nat, len: nat): (s: seq<Item>)
    requires |qs| == |ms| == RING
    ensures |s| == len
  {
    seq(len, i requires 0 <= i < len => Item(qs[Slot(head, i)], ms[Slot(head, i)]))
  }

  lemma RingPush(qs: seq<nat>, ms: seq<Msg>, head: nat, len: nat, x: Item)
    requires |qs| == |ms| == RING && len < RING
    ensures var t := Slot(head, len);
            Ring(qs[t := x.sender], ms[t := x.msg], head, len + 1) == Ring(qs, ms, head, len) + [x]
  {
    forall i: nat | i < len
      ensures Slot(head, i) != Slot(head, len)
    {
      SlotsDiffer(head, i, len);
    }
    hide Slot;
  }

  lemma RingPop(qs: seq<nat>, ms: seq<Msg>, head: nat, len: nat)
    requires |qs| == |ms| == RING && head < RING && 0 < len
    ensures Ring(qs, ms, Slot(head, 1), len - 1) == Ring(qs, ms, head, len)[1..]
    ensures Ring(qs, ms, head, len)[0] == Item(qs[head], ms[head])
  {
    assert Slot(head, 0) == head;
    hide Slot;
    forall i: nat | i < len - 1
      ensures Slot(Slot(head, 1), i) == Slot(head, i + 1)
    {
      SlotNext(head, i);
    }
  }

  lemma RingSet(qs: seq<nat>, ms: seq<Msg>, head: nat, len: nat, k: nat, x: Item)
    requires |qs| == |ms| == RING && k < len <= RING
    ensures Ring(qs[Slot(head, k) := x.sender], ms[Slot(head, k) := x.msg], head, len) ==
            Ring(qs, ms, head, len)[k := x]
  {
    forall i: nat | i < len && i != k
      ensures Slot(head, i) != Slot(head, k)
    {
      if i < k { SlotsDiffer(head, i, k); } else { SlotsDiffer(head, k, i); }
    }
    hide Slot;
  }

  lemma RingAt(qs: seq<nat>, ms: seq<Msg>, head: nat, len: nat, i: nat)
    requires |qs| == |ms| == RING && i < len
    ensures Ring(qs, ms, head, len)[i] == Item(qs[Slot(head, i)], ms[Slot(head, i)])
  {
  }

  lemma RingPrefix(qs: seq<nat>, ms: seq<Msg>, head: nat, len: nat)
    requires |qs| == |ms| == RING && len > 0
    ensures Ring(qs, ms, head, len - 1) == Ring(qs, ms, head, len)[..len - 1]
  {
    hide Slot;
  }

  function Dropped(c: seq<Item>, q: nat): seq<Item>
    requires q < |c|
  {
    c[..q] + c[q + 1..]
  }

  /** The queue while item `q` is being dropped and items up to `k` have moved. */
  function Shifted(c: seq<Item>, q: nat, k: nat): (s: seq<Item>)
    requires q <= k < |c|
    ensures |s| == |c|
  {
    c[..q] + c[q + 1..k + 1] + c[k..]
  }

  lemma ShiftedNext(c: seq<Item>, q: nat, k: nat)
    requires q <= k < |c| - 1
    ensures Shifted(c, q, k)[k := c[k + 1]] == Shifted(c, q, k + 1)
  {
  }

  lemma OthersDrop(c: seq<Item>, q: nat, t: nat)
    requires q < |c| && c[q].sender == t
    ensures Others(Dropped(c, q), t) == Others(c, t)
  {
    assert c == c[..q] + c[q..];
    OthersConcat(c[..q], c[q..], t);
    OthersConcat(c[..q], c[q + 1..], t);
    assert c[q..][1..] == c[q + 1..];
  }

  class RingEndpoint {
    var hasReceiver: bool
    var receiver: nat
    var pendingMsg: Msg
    var pending: bool
    /** The thread a handed-off message came from; the kernel does not record it. */
    ghost var handedBy: nat
    const queue: array<nat>
    const msgs: array<Msg>
    var head: nat
    var tail: nat
    var len: nat

    ghost predicate Shaped()
      reads this
    {
      queue.Length == RING && msgs.Length == RING && head < RING && len <= RING && tail == Slot(head, len)
    }

    /** The four modes exclude each other. */
    ghost predicate Valid()
      reads this
    {
      && Shaped()
      && (hasReceiver ==> !pending && len == 0)
      && (len > 0 ==> pending)
    }

    ghost function Contents(): (s: seq<Item>)
      requires Shaped()
      reads this, queue, msgs
    {
      Ring(queue[..], msgs[..], head, len)
    }

    ghost function Mode(): (m: Mode)
      requires Valid()
      reads this, queue, msgs
      ensures ModeOk(m)
    {
      if hasReceiver then Waiting(receiver)
      else if len > 0 then Queued(Contents())
      else if pending then Handoff(handedBy, receiver, pendingMsg)
      else Idle
    }

    constructor ()
      ensures Valid() && Mode() == Idle && fresh(queue) && fresh(msgs)
    {
      hasReceiver, receiver, pendingMsg, pending, handedBy := false, 0, EmptyMsg(), false, 0;
      queue := new nat[RING](_ => 0);
      msgs := new Msg[RING](_ => EmptyMsg());
      head, tail, len := 0, 0, 0;
    }

    method SendMsg(sender: nat, msg: Msg, tcbs: TcbTable) returns (e: Error)
      requires Valid() && tcbs.threads.Length == MAX_TCBS
      modifies this, queue, msgs, tcbs.threads
      ensures Valid()
      ensures Mode() == Send(old(Mode()), sender, msg).0 && e == Send(old(Mode()), sender, msg).1
      ensures tcbs.threads[..] == Woken(old(tcbs.threads[..]), Send(old(Mode()), sender, msg).2)
    {
      if msg.length > IPC_MSG_MAX {
        return InvalidArg;
      }
      if msg.caps > IPC_CAPS_MAX {
        return InvalidArg;
      }
      if hasReceiver {
        pendingMsg := msg;
        pending := true;
        handedBy := sender;
        var recvr := receiver;
        hasReceiver := false;
        if recvr < MAX_TCBS {
          var ignored := tcbs.Wake(recvr);
        }
        return Ok;
      }
      if len >= RING {
        return Overflow;
      }
      RingPush(queue[..], msgs[..], head, len, Item(sender, msg));
      TailMoves(head, len);
      queue[tail] := sender;
      msgs[tail] := msg;
      tail := Slot(tail, 1);
      len := len + 1;
      pendingMsg := msg;
      pending := true;
      return Ok;
    }

    method RecvMsg(who: nat, tcbs: TcbTable) returns (out: Option<Msg>)
      requires Valid() && tcbs.threads.Length == MAX_TCBS
      modifies this, tcbs.threads
      ensures Valid()
      ensures Mode() == Recv(old(Mode()), who).0 && out == Recv(old(Mode()), who).1
      ensures tcbs.threads[..] == Released(old(tcbs.threads[..]), Recv(old(Mode()), who).2)
    {
      if len > 0 {
        RingPop(queue[..], msgs[..], head, len);
        SlotNext(head, len - 1);
        hide Slot;
        out := Some(msgs[head]);
        var sender := queue[head];
        head := Slot(head, 1);
        len := len - 1;
        if len == 0 {
          pending := false;
        } else {
          pendingMsg := msgs[head];
        }
        if sender < MAX_TCBS {
          if tcbs.threads[sender].state == BlockedSend {
            tcbs.ResumeAt(sender);
          }
        }
        return;
      }
      if pending {
        out := Some(pendingMsg);
        pending := false;
        hasReceiver := false;
        return;
      }
      hasReceiver := true;
      receiver := who;
      return None;
    }

    /** The shifting loop: drops item `q` by moving every later item one slot down. */
    method ShiftDown(q: nat)
      requires Shaped() && q < len
      modifies queue, msgs
      ensures Ring(queue[..], msgs[..], head, len - 1) == Dropped(old(Contents()), q)
    {
      hide Slot;
      ghost var c := Contents();
      var k := q;
      while k < len - 1
        invariant q <= k < len
        invariant Contents() == Shifted(c, q, k)
      {
        ghost var s := Contents();
        RingSet(queue[..], msgs[..], head, len, k, s[k + 1]);
        assert s[k + 1] == c[k + 1];
        queue[Slot(head, k)] := queue[Slot(head, k + 1)];
        msgs[Slot(head, k)] := msgs[Slot(head, k + 1)];
        ShiftedNext(c, q, k);
        k := k + 1;
      }
      RingPrefix(queue[..], msgs[..], head, len);
      assert Shifted(c, q, k)[..len - 1] == Dropped(c, q);
    }

    /**
      The inner loop of endpoint_cleanup_for_tcb: keeps the other threads' messages, in order, each with its sender.
     */
    method DropSender(t: nat)
      requires Shaped()
      modifies this`len, this`tail, this`pending, queue, msgs
      ensures Shaped() && Contents() == Others(old(Contents()), t)
      ensures pending == (old(pending) && (old(len) == 0 || len > 0))
    {
      hide Slot, Ring, Others, Scanned;
      ghost var c := Contents();
      var q := 0;
      ScanStart(c, t);
      while q < len
        invariant Shaped() && q <= len <= |c|
        invariant pending == (old(pending) && (|c| == 0 || len > 0))
        invariant Scanned(c, Contents(), q, t)
        decreases len - q
      {
        ghost var s := Contents();
        RingAt(queue[..], msgs[..], head, len, q);
        if queue[Slot(head, q)] == t {
          ScanDrop(c, s, q, t);
          ShiftDown(q);
          len := len - 1;
          tail := Slot(head, len);
          if len == 0 {
            pending := false;
          }
        } else {
          ScanKeep(c, s, q, t);
          q := q + 1;
        }
      }
      ScanEnd(c, Contents(), q, t);
    }

    /** endpoint_cleanup_for_tcb on one endpoint: unregisters the dead thread and removes its messages. */
    method Cleanup(t: nat)
      requires Valid()
      modifies this, queue, msgs
      ensures Valid()
      ensures Mode() == Cleaned(old(Mode()), t)
    {
      if hasReceiver && receiver == t {
        hasReceiver := false;
        pending := false;
        receiver := 0xFFFF_FFFF;
      }
      DropSender(t);
    }
  }
}
