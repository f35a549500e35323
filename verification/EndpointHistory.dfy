/**
  What becomes of every message over whole runs of sends, receives and clean-ups on one endpoint (kernel/src/endpoint.c,
  endpoint_cleanup_for_tcb in kernel/src/process.c).
 */
module EndpointHistory {
  import opened Kernel
  import opened Tcb
  import opened Endpoint

  datatype Event = SendEvent(sender: nat, msg: Msg) | RecvEvent(receiver: nat) | CleanEvent(t: nat)

  /**
    The endpoint, the messages accepted and delivered so far with their senders, and the positions in `accepted` of
    those overwritten and of those cleaned away. What was delivered came from before position `cut`.
   */
  datatype History = History(ep: Mode, accepted: seq<Item>, delivered: seq<Item>, cut: nat,
                             overwritten: set<int>, cleaned: set<int>)
  {
    function Lost(): set<int> {
      overwritten + cleaned
    }
  }

  const START := History(Idle, [], [], 0, {}, {})

  /** Messages the endpoint still holds, next to be delivered first. */
  function Held(ep: Mode): seq<Item> {
    match ep
    case Handoff(f, _, m) => [Item(f, m)]
    case Queued(q) => q
    case _ => []
  }

  /** A receive returns the first message held, and leaves the rest. */
  lemma ReceiveTakesFirst(ep: Mode, r: nat)
    requires ModeOk(ep)
    ensures Recv(ep, r).1 == if Held(ep) == [] then None else Some(Held(ep)[0].msg)
    ensures Held(Recv(ep, r).0) == if Held(ep) == [] then [] else Held(ep)[1..]
  {
  }

  /** A send that finds a handed-off message still unclaimed overwrites it. */
  predicate Overwrites(ep: Mode, ev: Event) {
    ev.SendEvent? && ep.Handoff? && MsgOk(ev.msg)
  }

  /** How many messages a clean-up takes away: those of the thread that are queued. */
  function CleanedNow(ep: Mode, ev: Event): int {
    if ev.CleanEvent? && ep.Queued? then |ep.q| - |Others(ep.q, ev.t)| else 0
  }

  /** The first position from `a` on that is not lost. */
  function NextKept(lost: set<int>, a: nat, n: nat): (j: nat)
    ensures a <= j && (a <= n ==> j <= n) && (forall i :: a <= i < j ==> i in lost) && (j < n ==> j !in lost)
    decreases n - a
  {
    if a < n && a in lost then NextKept(lost, a + 1, n) else a
  }

  function Step(h: History, ev: Event): History {
    var n := |h.accepted|;
    match ev
    case SendEvent(s, m) =>
      var (ep, e, _) := Send(h.ep, s, m);
      if e != Ok then h.(ep := ep)
      else h.(ep := ep, accepted := h.accepted + [Item(s, m)],
              overwritten := if Overwrites(h.ep, ev) then h.overwritten + {n - 1} else h.overwritten)
    case RecvEvent(r) =>
      var ep := Recv(h.ep, r).0;
      if Held(h.ep) == [] then h.(ep := ep)
      else h.(ep := ep, delivered := h.delivered + [Held(h.ep)[0]], cut := NextKept(h.Lost(), h.cut, n) + 1)
    case CleanEvent(t) =>
      h.(ep := Cleaned(h.ep, t), cleaned := if h.ep.Queued? then h.cleaned + Sent(h, t) else h.cleaned)
  }

  /** Positions of the messages of thread `t` that are neither delivered nor lost. */
  function Sent(h: History, t: nat): set<int> {
    set i: int | h.cut <= i < |h.accepted| && i !in h.Lost() && h.accepted[i].sender == t
  }

  function Run(evs: seq<Event>): History {
    if evs == [] then START else Step(Run(evs[..|evs| - 1]), evs[|evs| - 1])
  }

  function OverwriteCount(evs: seq<Event>): nat {
    if evs == [] then 0
    else
      var before := evs[..|evs| - 1];
      OverwriteCount(before) + if Overwrites(Run(before).ep, evs[|evs| - 1]) then 1 else 0
  }

  function CleanCount(evs: seq<Event>): int {
    if evs == [] then 0
    else
      var before := evs[..|evs| - 1];
      CleanCount(before) + CleanedNow(Run(before).ep, evs[|evs| - 1])
  }

  // ----- What is kept of a sequence

  /** The elements of `s` from position `a` to before `b` that are not lost, in order. */
  function Kept(s: seq<Item>, lost: set<int>, a: nat, b: nat): seq<Item>
    requires b <= |s|
    decreases b
  {
    if a >= b then [] else Kept(s, lost, a, b - 1) + if b - 1 in lost then [] else [s[b - 1]]
  }

  lemma {:induction false} KeptSame(s: seq<Item>, lost: set<int>, s': seq<Item>, lost': set<int>, a: nat, b: nat)
    requires b <= |s| && b <= |s'|
    requires forall i :: a <= i < b ==> s[i] == s'[i] && (i in lost <==> i in lost')
    ensures Kept(s, lost, a, b) == Kept(s', lost', a, b)
    decreases b
  {
    if a < b {
      KeptSame(s, lost, s', lost', a, b - 1);
    }
  }

  lemma {:induction false} KeptSplit(s: seq<Item>, lost: set<int>, a: nat, b: nat, c: nat)
    requires a <= b <= c <= |s|
    ensures Kept(s, lost, a, c) == Kept(s, lost, a, b) + Kept(s, lost, b, c)
    decreases c
  {
    if b < c {
      KeptSplit(s, lost, a, b, c - 1);
      var x, y := Kept(s, lost, a, b), Kept(s, lost, b, c - 1);
      var z := if c - 1 in lost then [] else [s[c - 1]];
      assert (x + y) + z == x + (y + z);
    } else {
      assert Kept(s, lost, b, c) == [];
    }
  }

  /** What is kept starts with the element at the first position not lost. */
  lemma KeptFirst(s: seq<Item>, lost: set<int>, a: nat, n: nat)
    requires n <= |s| && Kept(s, lost, a, n) != []
    ensures var j := NextKept(lost, a, n);
            && a <= j < n && Kept(s, lost, a, j + 1) == [s[j]]
            && Kept(s, lost, a, n) == [s[j]] + Kept(s, lost, j + 1, n)
  {
    hide Kept, NextKept;
    var j := NextKept(lost, a, n);
    NothingKept(s, lost, a, n);
    KeptNone(s, lost, a, j);
    if j < n {
      KeptOne(s, lost, j);
      KeptSplit(s, lost, a, j, j + 1);
      KeptSplit(s, lost, a, j + 1, n);
    }
  }

  lemma {:induction false} KeptNone(s: seq<Item>, lost: set<int>, a: nat, b: nat)
    requires b <= |s| && forall i :: a <= i < b ==> i in lost
    ensures Kept(s, lost, a, b) == []
    decreases b
  {
    if a < b {
      KeptNone(s, lost, a, b - 1);
    }
  }

  /** Taking the first of what is kept from `cut` on, and moving the cut past it. */
  lemma KeptTaken(s: seq<Item>, lost: set<int>, cut: nat, delivered: seq<Item>, held: seq<Item>)
    requires cut <= |s| && delivered == Kept(s, lost, 0, cut) && held == Kept(s, lost, cut, |s|) && held != []
    ensures var j := NextKept(lost, cut, |s|);
            && j < |s| && delivered + [held[0]] == Kept(s, lost, 0, j + 1) && held[1..] == Kept(s, lost, j + 1, |s|)
  {
    hide NextKept, Kept;
    var j := NextKept(lost, cut, |s|);
    KeptFirst(s, lost, cut, |s|);
    KeptSplit(s, lost, 0, cut, j + 1);
    FirstOf(held, s[j], Kept(s, lost, j + 1, |s|));
  }

  lemma FirstOf(held: seq<Item>, x: Item, rest: seq<Item>)
    requires held == [x] + rest
    ensures held[0] == x && held[1..] == rest
  {
  }

  lemma NothingKept(s: seq<Item>, lost: set<int>, a: nat, n: nat)
    requires n <= |s| && Kept(s, lost, a, n) != []
    ensures a < n
  {
  }

  lemma KeptOne(s: seq<Item>, lost: set<int>, a: nat)
    requires a < |s|
    ensures Kept(s, lost, a, a + 1) == if a in lost then [] else [s[a]]
  {
    assert Kept(s, lost, a, a) == [];
  }

  lemma KeptNext(s: seq<Item>, lost: set<int>, x: Item, a: nat)
    requires a <= |s| && |s| !in lost
    ensures Kept(s + [x], lost, a, |s| + 1) == Kept(s, lost, a, |s|) + [x]
  {
    KeptSame(s, lost, s + [x], lost, a, |s|);
  }

  /** Losing the only message kept and adding one leaves that one. */
  lemma KeptReplaced(s: seq<Item>, lost: set<int>, x: Item, a: nat)
    requires a < |s| && |s| !in lost && |s| - 1 !in lost && |Kept(s, lost, a, |s|)| == 1
    ensures Kept(s + [x], lost + {|s| - 1}, a, |s| + 1) == [x]
  {
    var n, lost' := |s|, lost + {|s| - 1};
    KeptSame(s, lost, s, lost', a, n - 1);
    assert |Kept(s, lost, a, n)| == |Kept(s, lost, a, n - 1)| + 1;
    assert Kept(s, lost', a, n) == Kept(s, lost', a, n - 1) == [];
    KeptNext(s, lost', x, a);
  }

  /** Losing the messages of one sender from position `a` on filters what is kept there. */
  lemma {:induction false} KeptOthers(s: seq<Item>, lost: set<int>, more: set<int>, t: nat, a: nat, b: nat)
    requires b <= |s|
    requires forall i :: a <= i < b && i !in lost ==> (i in more <==> s[i].sender == t)
    ensures Kept(s, lost + more, a, b) == Others(Kept(s, lost, a, b), t)
    decreases b
  {
    if a < b {
      KeptOthers(s, lost, more, t, a, b - 1);
      var x := s[b - 1];
      var before, z := Kept(s, lost, a, b - 1), if b - 1 in lost then [] else [x];
      assert Kept(s, lost, a, b) == before + z;
      OthersConcat(before, z, t);
      assert Others(z, t) == if b - 1 in lost + more then [] else [x];
    }
  }

  lemma {:induction false} KeptSize(s: seq<Item>, lost: set<int>, n: nat)
    requires n <= |s| && forall i :: i in lost ==> 0 <= i < n
    ensures |Kept(s, lost, 0, n)| == n - |lost|
  {
    if n == 0 {
      forall i | i in lost
        ensures false
      {
      }
      assert lost == {};
    } else {
      var rest := lost - {n - 1};
      KeptSize(s, rest, n - 1);
      KeptSame(s, lost, s, rest, 0, n - 1);
      if n - 1 !in lost {
        assert rest == lost;
      }
    }
  }

  // ----- What every event keeps

  /** No message is lost twice, and only accepted ones are. */
  ghost predicate LossOk(h: History) {
    h.overwritten !! h.cleaned && forall i :: i in h.Lost() ==> 0 <= i < |h.accepted|
  }

  ghost predicate Inv(h: History) {
    && LossOk(h) && ModeOk(h.ep) && h.cut <= |h.accepted|
    && h.delivered == Kept(h.accepted, h.Lost(), 0, h.cut)
    && Held(h.ep) == Kept(h.accepted, h.Lost(), h.cut, |h.accepted|)
    && (h.ep.Handoff? ==> h.cut < |h.accepted| && |h.accepted| - 1 !in h.Lost())
  }

  lemma SendKeepsInv(h: History, ev: Event)
    requires Inv(h) && ev.SendEvent?
    ensures Inv(Step(h, ev))
    ensures |Step(h, ev).overwritten| == |h.overwritten| + if Overwrites(h.ep, ev) then 1 else 0
    ensures Step(h, ev).cleaned == h.cleaned
  {
    SendAdds(h.ep, ev.sender, ev.msg);
    var (ep, e, _) := Send(h.ep, ev.sender, ev.msg);
    if e == Ok {
      if h.ep.Handoff? {
        OverwriteKeepsInv(h, ep, Item(ev.sender, ev.msg));
      } else {
        AppendKeepsInv(h, ep, Item(ev.sender, ev.msg));
      }
    }
    hide Inv, Send, Held, ModeOk;
  }

  lemma AppendKeepsInv(h: History, ep: Mode, x: Item)
    requires Inv(h) && ModeOk(ep) && Held(ep) == Held(h.ep) + [x]
    ensures Inv(h.(ep := ep, accepted := h.accepted + [x]))
  {
    var s, lost, n := h.accepted, h.Lost(), |h.accepted|;
    assert n !in lost;
    hide Kept, Held, ModeOk;
    KeptSame(s, lost, s + [x], lost, 0, h.cut);
    KeptNext(s, lost, x, h.cut);
  }

  function Overwritten(h: History, ep: Mode, x: Item): History {
    h.(ep := ep, accepted := h.accepted + [x], overwritten := h.overwritten + {|h.accepted| - 1})
  }

  lemma OverwriteLoses(h: History, ep: Mode, x: Item)
    requires LossOk(h) && |h.accepted| > 0 && |h.accepted| - 1 !in h.Lost()
    ensures LossOk(Overwritten(h, ep, x)) && |Overwritten(h, ep, x).overwritten| == |h.overwritten| + 1
    ensures Overwritten(h, ep, x).Lost() == h.Lost() + {|h.accepted| - 1} && |h.accepted| !in h.Lost()
  {
  }

  lemma OverwriteKeepsInv(h: History, ep: Mode, x: Item)
    requires Inv(h) && ModeOk(ep) && h.ep.Handoff? && Held(ep) == [x]
    ensures Inv(Overwritten(h, ep, x)) && |Overwritten(h, ep, x).overwritten| == |h.overwritten| + 1
  {
    var s, lost, n := h.accepted, h.Lost(), |h.accepted|;
    OverwriteLoses(h, ep, x);
    assert |Held(h.ep)| == 1;
    KeptBefore(s, lost, x, h.cut);
    hide Kept, ModeOk, LossOk, History.Lost;
    KeptReplaced(s, lost, x, h.cut);
    hide Held, Inv;
    MakeInv(Overwritten(h, ep, x));
  }

  lemma KeptBefore(s: seq<Item>, lost: set<int>, x: Item, cut: nat)
    requires cut < |s|
    ensures Kept(s + [x], lost + {|s| - 1}, 0, cut) == Kept(s, lost, 0, cut)
  {
    KeptSame(s, lost, s + [x], lost + {|s| - 1}, 0, cut);
  }

  lemma MakeInv(h: History)
    requires LossOk(h) && ModeOk(h.ep) && h.cut < |h.accepted| && |h.accepted| - 1 !in h.Lost()
    requires h.delivered == Kept(h.accepted, h.Lost(), 0, h.cut)
    requires Held(h.ep) == Kept(h.accepted, h.Lost(), h.cut, |h.accepted|)
    ensures Inv(h)
  {
  }

  lemma RecvKeepsInv(h: History, ev: Event)
    requires Inv(h) && ev.RecvEvent?
    ensures Inv(Step(h, ev))
    ensures Step(h, ev).overwritten == h.overwritten && Step(h, ev).cleaned == h.cleaned
  {
    ReceiveTakesFirst(h.ep, ev.receiver);
    if Held(h.ep) != [] {
      KeptTaken(h.accepted, h.Lost(), h.cut, h.delivered, Held(h.ep));
    }
    RecvStaysOk(h.ep, ev.receiver);
    hide Kept, NextKept, Recv, Held, ModeOk;
  }

  lemma RecvStaysOk(ep: Mode, r: nat)
    requires ModeOk(ep)
    ensures ModeOk(Recv(ep, r).0) && !Recv(ep, r).0.Handoff?
  {
  }

  lemma SendAdds(ep: Mode, s: nat, m: Msg)
    requires ModeOk(ep)
    ensures var (ep', e, _) := Send(ep, s, m);
            && ModeOk(ep') && (e != Ok ==> ep' == ep) && (e == Ok ==> MsgOk(m))
            && (e == Ok ==> Held(ep') == if ep.Handoff? then [Item(s, m)] else Held(ep) + [Item(s, m)])
  {
  }

  lemma CleanLoses(h: History, t: nat)
    requires LossOk(h)
    ensures LossOk(h.(cleaned := h.cleaned + Sent(h, t))) && h.cleaned !! Sent(h, t) && h.Lost() !! Sent(h, t)
    ensures h.(cleaned := h.cleaned + Sent(h, t)).Lost() == h.Lost() + Sent(h, t)
  {
  }

  /** What a clean-up leaves of the positions kept, and how many it takes. */
  lemma CleanFilters(h: History, t: nat)
    requires Inv(h)
    ensures var lost' := h.Lost() + Sent(h, t);
            && Kept(h.accepted, lost', 0, h.cut) == Kept(h.accepted, h.Lost(), 0, h.cut)
            && Kept(h.accepted, lost', h.cut, |h.accepted|) == Others(Held(h.ep), t)
            && |Sent(h, t)| == |Held(h.ep)| - |Others(Held(h.ep), t)|
  {
    var s, n, lost, more := h.accepted, |h.accepted|, h.Lost(), Sent(h, t);
    CleanLoses(h, t);
    assert forall i :: i in lost + more ==> 0 <= i < n;
    hide Kept, Others, LossOk, Held, ModeOk, History.Lost;
    KeptOthers(s, lost, more, t, h.cut, n);
    KeptSame(s, lost, s, lost + more, 0, h.cut);
    KeptSplit(s, lost, 0, h.cut, n);
    KeptSplit(s, lost + more, 0, h.cut, n);
    KeptSize(s, lost, n);
    KeptSize(s, lost + more, n);
    assert |lost + more| == |lost| + |more|;
  }

  lemma CleanKeepsInv(h: History, ev: Event)
    requires Inv(h) && ev.CleanEvent?
    ensures Inv(Step(h, ev))
    ensures Step(h, ev).overwritten == h.overwritten
    ensures |Step(h, ev).cleaned| == |h.cleaned| + CleanedNow(h.ep, ev)
  {
    hide Kept, Others, LossOk, Sent, History.Lost;
    if h.ep.Queued? {
      CleanFilters(h, ev.t);
      CleanLoses(h, ev.t);
      assert |h.cleaned + Sent(h, ev.t)| == |h.cleaned| + |Sent(h, ev.t)|;
      CleanedHolds(h.ep.q, ev.t);
      LossStays(h.(cleaned := h.cleaned + Sent(h, ev.t)), Cleaned(h.ep, ev.t));
    } else {
      LossStays(h, Cleaned(h.ep, ev.t));
    }
  }

  lemma CleanedHolds(q: seq<Item>, t: nat)
    requires ModeOk(Queued(q))
    ensures var ep := Cleaned(Queued(q), t); Held(ep) == Others(q, t) && ModeOk(ep) && !ep.Handoff?
  {
    assert Cleaned(Queued(q), t) == QueueOf(Others(q, t));
  }

  lemma LossStays(h: History, ep: Mode)
    requires LossOk(h)
    ensures LossOk(h.(ep := ep)) && h.(ep := ep).Lost() == h.Lost()
  {
    var h' := h.(ep := ep);
    assert h'.overwritten == h.overwritten && h'.cleaned == h.cleaned && h'.accepted == h.accepted;
    assert h'.Lost() == h.Lost();
  }

  lemma {:induction false} RunKeepsInv(evs: seq<Event>)
    ensures Inv(Run(evs))
    ensures |Run(evs).overwritten| == OverwriteCount(evs) && |Run(evs).cleaned| == CleanCount(evs)
  {
    if evs != [] {
      var before, ev := evs[..|evs| - 1], evs[|evs| - 1];
      RunKeepsInv(before);
      hide Inv;
      match ev
      case SendEvent(_, _) => SendKeepsInv(Run(before), ev);
      case RecvEvent(_) => RecvKeepsInv(Run(before), ev);
      case CleanEvent(_) => CleanKeepsInv(Run(before), ev);
    }
  }

  // ----- Whole runs

  /**
    In every run, the messages delivered followed by those still held are the accepted ones in send order, minus
    exactly one message for each send that found a handed-off message unclaimed, and minus exactly the queued messages
    of threads when they were cleaned up after; the two kinds of loss never fall on the same message.
   */
  lemma RunAccountsForEveryMessage(evs: seq<Event>)
    ensures var h := Run(evs);
            && h.delivered + Held(h.ep) == Kept(h.accepted, h.Lost(), 0, |h.accepted|)
            && |h.overwritten| == OverwriteCount(evs) && |h.cleaned| == CleanCount(evs)
            && h.overwritten !! h.cleaned && (forall i :: i in h.Lost() ==> 0 <= i < |h.accepted|)
            && |h.accepted| == |h.delivered| + |Held(h.ep)| + OverwriteCount(evs) + CleanCount(evs)
  {
    RunKeepsInv(evs);
    var h := Run(evs);
    KeptSplit(h.accepted, h.Lost(), 0, h.cut, |h.accepted|);
    KeptSize(h.accepted, h.Lost(), |h.accepted|);
    assert |h.Lost()| == |h.overwritten| + |h.cleaned|;
  }

  lemma {:induction false} KeptAll(s: seq<Item>, n: nat)
    requires n <= |s|
    ensures Kept(s, {}, 0, n) == s[..n]
  {
    if n > 0 {
      KeptAll(s, n - 1);
    }
  }

  /**
    Every message accepted is delivered or held, in order, if and only if no send overwrote one and no clean-up took
    one.
   */
  lemma RunLosesNothing(evs: seq<Event>)
    ensures var h := Run(evs);
            h.delivered + Held(h.ep) == h.accepted <==> OverwriteCount(evs) == 0 && CleanCount(evs) == 0
  {
    RunAccountsForEveryMessage(evs);
    var h := Run(evs);
    hide Run, OverwriteCount, CleanCount;
    if OverwriteCount(evs) == 0 && CleanCount(evs) == 0 {
      assert h.Lost() == {};
      KeptAll(h.accepted, |h.accepted|);
    }
  }

  /** Every message cleaned away came from a thread that was cleaned up after. */
  lemma {:induction false} RunCleansOnlyTheDead(evs: seq<Event>, i: int)
    requires i in Run(evs).cleaned
    ensures 0 <= i < |Run(evs).accepted| && CleanEvent(Run(evs).accepted[i].sender) in evs
    decreases |evs|
  {
    var before, ev := evs[..|evs| - 1], evs[|evs| - 1];
    StepCleans(Run(before), ev, i);
    hide Step;
    assert forall e :: e in before ==> e in evs;
    if i in Run(before).cleaned {
      RunCleansOnlyTheDead(before, i);
    }
  }

  lemma StepCleans(h: History, ev: Event, i: int)
    requires i in Step(h, ev).cleaned
    ensures |h.accepted| <= |Step(h, ev).accepted| && Step(h, ev).accepted[..|h.accepted|] == h.accepted
    ensures i in h.cleaned || (0 <= i < |h.accepted| && ev == CleanEvent(h.accepted[i].sender))
  {
    hide Send, Recv, Cleaned, NextKept, Held;
  }

  lemma RunNext(evs: seq<Event>, ev: Event)
    ensures Run([]) == START && Run(evs + [ev]) == Step(Run(evs), ev)
  {
    assert (evs + [ev])[..|evs|] == evs;
  }

  /** A handed-off message is lost to the next send: the smallest run that loses a message. */
  lemma HandoffCanBeOverwritten(r: nat, s: nat, m: Msg, m': Msg)
    requires MsgOk(m) && MsgOk(m')
    ensures var h := Run([RecvEvent(r), SendEvent(s, m), SendEvent(s, m'), RecvEvent(r)]);
            && h.accepted == [Item(s, m), Item(s, m')] && h.delivered == [Item(s, m')]
            && h.overwritten == {0} && h.cleaned == {} && h.ep == Idle
  {
    var e0, e1, e2 := RecvEvent(r), SendEvent(s, m), SendEvent(s, m');
    RunNext([], e0);
    RunNext([e0], e1);
    RunNext([e0, e1], e2);
    RunNext([e0, e1, e2], e0);
    hide Run;
    assert [] + [e0] == [e0] && [e0] + [e1] == [e0, e1] && [e0, e1] + [e2] == [e0, e1, e2];
    assert [e0, e1, e2] + [e0] == [e0, e1, e2, e0];
    assert Run([e0, e1]) == History(Handoff(s, r, m), [Item(s, m)], [], 0, {}, {});
    assert Run([e0, e1, e2]).ep == Queued([Item(s, m')]);
  }
}
