/** The cache-colouring bump allocator of page frames (kernel/src/alloc.c). */
module Alloc {
  import opened Kernel

  const NUM_COLORS: nat := 16
  const COLORS_PER_PARTITION: nat := 2
  const FRAME_LOG: nat := 512
  const OTYPE_FRAME: nat := 0x105

  datatype State = State(base: Word, next: Word, top: Word, frames: seq<Cap>)

  function Init(base: Word, size: Word): State {
    State(base, base, (base + size) % WORD, [])
  }

  function ColorOf(paddr: nat): nat {
    paddr / PAGE_SIZE % NUM_COLORS
  }

  function PartitionColor(partition: nat): nat {
    partition * COLORS_PER_PARTITION % NUM_COLORS
  }

  predicate ColorIsValid(partition: nat, color: nat) {
    color == PartitionColor(partition) || color == PartitionColor(partition) + 1
  }

  /** Pages skipped from `next` to reach `color`. */
  function Skip(next: nat, color: nat): nat
    requires color < NUM_COLORS
  {
    (color + NUM_COLORS - ColorOf(next)) % NUM_COLORS
  }

  function Place(next: nat, color: nat): nat
    requires color < NUM_COLORS
  {
    next + PAGE_SIZE * Skip(next, color)
  }

  function FrameOf(paddr: Word, end: Word, color: nat): Cap {
    // LOAD | STORE | LOAD_CAP | STORE_CAP
    Cap(FrameCap, 0x1B, 0, true, true, color, FrameObject(paddr, 0, color),
        HwCap(paddr, end, paddr, 0, OTYPE_FRAME, true, true))
  }

  /** What one allocation does to the allocator, and what it answers; addresses are 64-bit words. */
  function AllocFrame(a: State, partition: nat, size: Word): (State, Error, Cap) {
    if size % PAGE_SIZE != 0 || partition >= 8 then (a, InvalidArg, EMPTY_CAP)
    else
      var color := PartitionColor(partition);
      var paddr := Place(a.next, color) % WORD;
      var end := (paddr + size) % WORD;
      if end > a.top then (a, NoMem, EMPTY_CAP)
      else
        var f := FrameOf(paddr, end, color);
        (a.(next := end, frames := if |a.frames| < FRAME_LOG then a.frames + [f] else a.frames), Ok, f)
  }

  /** The end of the frame asked for, at the least suitable place, is below 2^64. */
  predicate NoWrap(a: State, partition: nat, size: nat) {
    Place(a.next, PartitionColor(partition)) + size < WORD
  }

  /** `Place` is the first address at or above `next`, in page steps, with the colour; at most 15 pages are skipped. */
  lemma PlaceIsFirst(next: nat, color: nat)
    requires color < NUM_COLORS
    ensures Skip(next, color) <= 15
    ensures ColorOf(Place(next, color)) == color
    ensures forall k: nat :: k < Skip(next, color) ==> ColorOf(next + PAGE_SIZE * k) != color
  {
    forall k: nat | k <= Skip(next, color)
      ensures ColorOf(next + PAGE_SIZE * k) == (ColorOf(next) + k) % NUM_COLORS
    {
      ColorStep(next, k);
    }
    ColorBound(next);
    hide ColorOf;
  }

  lemma ColorBound(a: nat)
    ensures ColorOf(a) < NUM_COLORS
  {
  }

  lemma ColorStep(a: nat, k: nat)
    ensures ColorOf(a + PAGE_SIZE * k) == (ColorOf(a) + k) % NUM_COLORS
  {
    assert (a + PAGE_SIZE * k) / PAGE_SIZE == a / PAGE_SIZE + k;
  }

  /** From a page-aligned bump pointer, no suitably coloured page below the chosen one was passed over. */
  lemma PlaceIsLeast(next: nat, color: nat, a: nat)
    requires color < NUM_COLORS
    requires next % PAGE_SIZE == 0 && a % PAGE_SIZE == 0
    requires next <= a && ColorOf(a) == color
    ensures Place(next, color) <= a
  {
    PlaceIsFirst(next, color);
    var k := (a - next) / PAGE_SIZE;
    assert a == next + PAGE_SIZE * k;
  }

  predicate Aligned(x: nat) {
    x % PAGE_SIZE == 0
  }

  /** Colours and page alignment survive reduction to 64 bits. */
  lemma WrapKeepsColor(x: nat)
    ensures ColorOf(x % WORD) == ColorOf(x)
    ensures x % WORD % PAGE_SIZE == x % PAGE_SIZE
  {
    var k, r := x / WORD, x % WORD;
    var q, o := r / PAGE_SIZE, r % PAGE_SIZE;
    assert x == PAGE_SIZE * (0x10_0000_0000_0000 * k + q) + o;
    assert x / PAGE_SIZE == 0x10_0000_0000_0000 * k + q;
    ColorPeriod(q, 0x1_0000_0000_0000 * k);
  }

  lemma StepWraps(next: nat, k: nat)
    ensures ((next + PAGE_SIZE * k) % WORD + PAGE_SIZE) % WORD == (next + PAGE_SIZE * (k + 1)) % WORD
    ensures ColorOf((next + PAGE_SIZE * (k + 1)) % WORD) == ColorOf(next + PAGE_SIZE * (k + 1))
  {
    WrapKeepsColor(next + PAGE_SIZE * (k + 1));
    var x := next + PAGE_SIZE * k;
    var q, r := x / WORD, x % WORD;
    assert x + PAGE_SIZE == WORD * q + (r + PAGE_SIZE);
    if r + PAGE_SIZE < WORD {
      assert (x + PAGE_SIZE) / WORD == q;
    } else {
      assert (x + PAGE_SIZE) / WORD == q + 1;
    }
  }

  lemma ColorPeriod(q: nat, k: nat)
    ensures (q + NUM_COLORS * k) % NUM_COLORS == q % NUM_COLORS
  {
    var d, r := q / NUM_COLORS, q % NUM_COLORS;
    assert q + NUM_COLORS * k == NUM_COLORS * (d + k) + r;
  }

  lemma PlaceAligned(next: nat, color: nat)
    requires color < NUM_COLORS
    ensures Aligned(next) ==> Aligned(Place(next, color))
  {
  }

  lemma EndAligned(paddr: nat, size: nat)
    requires Aligned(paddr) && Aligned(size)
    ensures Aligned((paddr + size) % WORD)
  {
    WrapKeepsColor(paddr + size);
  }

  /**
    What a successful allocation hands out and where it leaves the bump pointer. Unless the end wraps, the frame is
    made of bytes not handed out before and the bump pointer only moves up.
   */
  lemma AllocEffect(a: State, partition: nat, size: Word)
    ensures var (a', e, f) := AllocFrame(a, partition, size);
            && a'.base == a.base && a'.top == a.top
            && (e != Ok ==> a' == a)
            && (e == Ok ==> && partition < 8 && Aligned(size)
                            && f.hw.top == a'.next <= a.top
                            && ColorOf(f.hw.base) == PartitionColor(partition)
                            && f.kind == FrameCap && f.valid && f.sealed && f.hw.tag && f.hw.sealed
                            && f.hw.addr == f.hw.base && f.color == PartitionColor(partition)
                            && f.obj == FrameObject(f.hw.base, 0, PartitionColor(partition))
                            && (Aligned(a.next) ==> Aligned(f.hw.base) && Aligned(a'.next))
                            && (NoWrap(a, partition, size) ==> OwnBytes(a, f, size, a')))
  {
    if partition < 8 {
      PlaceFacts(a.next, PartitionColor(partition), size);
    }
    hide ColorOf, PartitionColor, Aligned, Place;
  }

  lemma PlaceFacts(next: nat, color: nat, size: nat)
    requires color < NUM_COLORS
    ensures next <= Place(next, color) && ColorOf(Place(next, color) % WORD) == color
    ensures Aligned(next) ==> Aligned(Place(next, color) % WORD)
    ensures Aligned(next) && Aligned(size) ==> Aligned((Place(next, color) % WORD + size) % WORD)
  {
    var place := Place(next, color);
    PlaceIsFirst(next, color);
    PlaceBound(next, color);
    PlaceAligned(next, color);
    hide Place;
    WrapKeepsColor(place);
    if Aligned(next) && Aligned(size) {
      EndAligned(place % WORD, size);
    }
    hide ColorOf;
  }

  /** The `size` bytes of frame `f` lie in the pool at or above the old bump pointer, and end at the new one. */
  predicate OwnBytes(a: State, f: Cap, size: nat, a': State) {
    a.next <= f.hw.base && f.hw.base + size == a'.next <= a.top
  }

  lemma AllocCases(a: State, partition: nat, size: Word)
    ensures var e := AllocFrame(a, partition, size).1;
            (e == InvalidArg <==> partition >= 8 || !Aligned(size)) && (e == Ok || e == NoMem || e == InvalidArg)
  {
  }

  /** Without wrap-around a request is granted exactly when the least suitable place leaves room. */
  lemma PlainGrant(a: State, partition: nat, size: Word)
    requires partition < 8 && Aligned(size) && NoWrap(a, partition, size)
    ensures var (a', e, _) := AllocFrame(a, partition, size);
            var end := Place(a.next, PartitionColor(partition)) + size;
            && (e == Ok <==> end <= a.top)
            && (e == Ok ==> a'.next == end && a'.top == a.top)
  {
    hide Place, PartitionColor;
  }

  /** Partition `p` has colours 2p and 2p + 1 of the sixteen. */
  lemma ColorsOfPartition(p: nat, c: nat)
    requires p < 8
    ensures PartitionColor(p) == 2 * p && (ColorIsValid(p, c) <==> c == 2 * p || c == 2 * p + 1)
  {
  }

  /**
    What a granted frame is: a read-write frame capability for the bytes of the frame, of the partition's first colour;
    the first 512 are logged.
   */
  lemma GrantCarries(a: State, partition: nat, size: Word)
    requires AllocFrame(a, partition, size).1 == Ok
    ensures var (a', _, f) := AllocFrame(a, partition, size);
            && f.hw.base / 4096 % 16 == 2 * partition && f.color == 2 * partition
            && f == Cap(FrameCap, 0x1B, 0, true, true, 2 * partition, FrameObject(f.hw.base, 0, 2 * partition),
                        HwCap(f.hw.base, (f.hw.base + size) % WORD, f.hw.base, 0, 0x105, true, true))
            && a'.frames == if |a.frames| < 512 then a.frames + [f] else a.frames
  {
    PlaceFacts(a.next, PartitionColor(partition), size);
    hide Place;
  }

  /** Where a granted frame ends. */
  lemma GrantEnds(a: State, partition: nat, size: Word)
    requires AllocFrame(a, partition, size).1 == Ok
    ensures var (a', _, f) := AllocFrame(a, partition, size); (f.hw.base + size) % WORD == a'.next == f.hw.top
  {
    hide Place, PartitionColor;
  }

  /**
    A granted request gets bytes of its own, and keeps the bump pointer monotone, if and only if its end does not
    wrap.
   */
  lemma GrantIsExact(a: State, partition: nat, size: Word)
    requires AllocFrame(a, partition, size).1 == Ok
    ensures var (a', _, f) := AllocFrame(a, partition, size);
            OwnBytes(a, f, size, a') <==> NoWrap(a, partition, size)
  {
    PlaceBound(a.next, PartitionColor(partition));
    hide Place, PartitionColor;
  }

  lemma PlaceBound(next: nat, color: nat)
    requires color < NUM_COLORS
    ensures next <= Place(next, color) <= next + 15 * PAGE_SIZE
  {
    PlaceIsFirst(next, color);
  }

  class FrameAllocator {
    var base: Word
    var next: Word
    var top: Word
    var frames: seq<Cap>

    ghost function Value(): State
      reads this
    {
      State(base, next, top, frames)
    }

    constructor (base: Word, size: Word)
      ensures Value() == Init(base, size)
    {
      this.base, this.next, this.top, this.frames := base, base, (base + size) % WORD, [];
    }

    /** The search for a page of the colour. */
    method FindPage(color: nat) returns (paddr: Word)
      requires color < NUM_COLORS
      ensures paddr == Place(next, color) % WORD
    {
      paddr := next;
      ghost var k := 0;
      PlaceIsFirst(next, color);
      WrapKeepsColor(next);
      while ColorOf(paddr) != color
        invariant paddr == (next + PAGE_SIZE * k) % WORD && ColorOf(paddr) == ColorOf(next + PAGE_SIZE * k)
        invariant k <= Skip(next, color)
        decreases Skip(next, color) - k
      {
        hide ColorOf;
        StepWraps(next, k);
        paddr := (paddr + PAGE_SIZE) % WORD;
        k := k + 1;
      }
    }

    method Allocate(partition: nat, size: Word) returns (e: Error, out: Cap)
      modifies this
      ensures (Value(), e, out) == AllocFrame(old(Value()), partition, size)
    {
      if size % PAGE_SIZE != 0 || partition >= 8 {
        return InvalidArg, EMPTY_CAP;
      }
      var color := PartitionColor(partition);
      var paddr := FindPage(color);
      hide Place, PartitionColor;
      var end := (paddr + size) % WORD;
      if end > top {
        return NoMem, EMPTY_CAP;
      }
      out := FrameOf(paddr, end, color);
      next := end;
      if |frames| < FRAME_LOG {
        frames := frames + [out];
      }
      e := Ok;
    }
  }

  // ----- Whole runs

  datatype Request = Request(partition: nat, size: Word)

  /** A frame handed out to a partition. */
  datatype Grant = Grant(partition: nat, paddr: nat, size: nat)

  function Run(a: State, reqs: seq<Request>): (r: (State, seq<Grant>)) {
    if reqs == [] then (a, [])
    else
      var (a', gs) := Run(a, reqs[..|reqs| - 1]);
      var q := reqs[|reqs| - 1];
      var (a'', e, f) := AllocFrame(a', q.partition, q.size);
      (a'', if e == Ok then gs + [Grant(q.partition, f.hw.base, q.size)] else gs)
  }

  predicate Disjoint(g: Grant, h: Grant) {
    g.paddr + g.size <= h.paddr || h.paddr + h.size <= g.paddr
  }

  /** Cache colours touched by the bytes of a grant. */
  ghost function Colors(g: Grant): set<nat> {
    set x: nat | g.paddr <= x < g.paddr + g.size :: ColorOf(x)
  }

  /** Granted frames lie in the pool one after another, each of its partition's colour, and end at the bump pointer. */
  ghost predicate InOrder(gs: seq<Grant>, a: State) {
    && (forall i :: 0 <= i < |gs| ==> GrantOk(gs[i], a))
    && (forall i, j :: 0 <= i < j < |gs| ==> gs[i].paddr + gs[i].size <= gs[j].paddr)
    && a.base <= a.next
    && (Aligned(a.base) ==> Aligned(a.next))
    && a.next == LastEnd(gs, a)
    && (gs == [] || a.next <= a.top)
  }

  function LastEnd(gs: seq<Grant>, a: State): nat {
    if gs == [] then a.base else gs[|gs| - 1].paddr + gs[|gs| - 1].size
  }

  ghost predicate GrantOk(g: Grant, a: State) {
    && a.base <= g.paddr && g.paddr + g.size <= a.next
    && Aligned(g.size) && g.partition < 8 && ColorOf(g.paddr) == PartitionColor(g.partition)
    && (Aligned(a.base) ==> Aligned(g.paddr))
  }

  /** A well-formed request whose end wraps to within the pool's top. */
  predicate Wraps(a: State, q: Request) {
    q.partition < 8 && Aligned(q.size) && WrapsInto(a, q.partition, q.size)
  }

  predicate WrapsInto(a: State, partition: nat, size: nat) {
    var end := Place(a.next, PartitionColor(partition)) + size;
    WORD <= end && end % WORD <= a.top
  }

  /** Such requests, and no others that wrap, are granted. */
  lemma WrapsIsGranted(a: State, q: Request)
    ensures Wraps(a, q) <==> AllocFrame(a, q.partition, q.size).1 == Ok && !NoWrap(a, q.partition, q.size)
  {
    AddWraps(Place(a.next, PartitionColor(q.partition)), q.size);
    hide Place, PartitionColor;
  }

  /** After the step the grants are still in order if and only if the request was not granted by wrapping round. */
  lemma StepInOrder(a: State, gs: seq<Grant>, q: Request)
    requires InOrder(gs, a)
    ensures var (a', e, f) := AllocFrame(a, q.partition, q.size);
            && (InOrder(if e == Ok then gs + [Grant(q.partition, f.hw.base, q.size)] else gs, a') <==> !Wraps(a, q))
            && a'.base == a.base && a'.top == a.top
  {
    AllocEffect(a, q.partition, q.size);
    WrapsIsGranted(a, q);
    hide Wraps;
    var (a', e, f) := AllocFrame(a, q.partition, q.size);
    if e == Ok {
      GrantIsExact(a, q.partition, q.size);
      var g := Grant(q.partition, f.hw.base, q.size);
      hide AllocFrame, ColorOf, PartitionColor, Aligned, NoWrap;
      forall i | 0 <= i < |gs| && OwnBytes(a, f, q.size, a')
        ensures GrantOk(gs[i], a')
      {
        assert GrantOk(gs[i], a);
      }
      if InOrder(gs + [g], a') {
        LastGrantIsOwn(gs, g, a, a');
      }
    }
  }

  lemma LastGrantIsOwn(gs: seq<Grant>, g: Grant, a: State, a': State)
    requires InOrder(gs, a) && InOrder(gs + [g], a') && a.base == a'.base && a.top == a'.top
    ensures a.next <= g.paddr && g.paddr + g.size == a'.next <= a.top
  {
    hide ColorOf, PartitionColor, Aligned;
    var all := gs + [g];
    assert all[|gs|] == g && GrantOk(g, a');
    assert gs != [] ==> all[|gs| - 1] == gs[|gs| - 1];
  }

  /** No request of the run is granted by wrapping round. */
  ghost predicate NoWraps(a: State, reqs: seq<Request>) {
    forall k :: 0 <= k < |reqs| ==> !Wraps(Run(a, reqs[..k]).0, reqs[k])
  }

  lemma NoWrapsPrefix(a: State, reqs: seq<Request>, n: nat)
    requires NoWraps(a, reqs) && n <= |reqs|
    ensures NoWraps(a, reqs[..n])
  {
    forall k | 0 <= k < n
      ensures !Wraps(Run(a, reqs[..n][..k]).0, reqs[..n][k])
    {
      assert reqs[..n][..k] == reqs[..k];
    }
  }

  lemma {:induction false} RunInOrder(a: State, reqs: seq<Request>)
    requires a.base == a.next && NoWraps(a, reqs)
    ensures InOrder(Run(a, reqs).1, Run(a, reqs).0)
    ensures Run(a, reqs).0.base == a.base && Run(a, reqs).0.top == a.top
  {
    if reqs != [] {
      var n := |reqs| - 1;
      NoWrapsPrefix(a, reqs, n);
      RunInOrder(a, reqs[..n]);
      var (a', gs) := Run(a, reqs[..n]);
      StepInOrder(a', gs, reqs[n]);
      hide InOrder, AllocFrame;
    }
  }

  /** The grants stay in order throughout a run if and only if no request is granted by wrapping round. */
  lemma RunIsExact(a: State, reqs: seq<Request>)
    requires a.base == a.next
    ensures (forall k :: 0 <= k <= |reqs| ==> InOrder(Run(a, reqs[..k]).1, Run(a, reqs[..k]).0)) <==> NoWraps(a, reqs)
  {
    hide InOrder, AllocFrame;
    if NoWraps(a, reqs) {
      forall k | 0 <= k <= |reqs|
        ensures InOrder(Run(a, reqs[..k]).1, Run(a, reqs[..k]).0)
      {
        NoWrapsPrefix(a, reqs, k);
        RunInOrder(a, reqs[..k]);
      }
    }
    if forall k :: 0 <= k <= |reqs| ==> InOrder(Run(a, reqs[..k]).1, Run(a, reqs[..k]).0) {
      forall k | 0 <= k < |reqs|
        ensures !Wraps(Run(a, reqs[..k]).0, reqs[k])
      {
        assert reqs[..k + 1][..k] == reqs[..k] && reqs[..k + 1][k] == reqs[k];
        StepInOrder(Run(a, reqs[..k]).0, Run(a, reqs[..k]).1, reqs[k]);
        assert InOrder(Run(a, reqs[..k + 1]).1, Run(a, reqs[..k + 1]).0);
      }
    }
  }

  lemma SmallNeverWraps(a: State, q: Request)
    requires a.next <= a.top && a.top + 15 * PAGE_SIZE + q.size < WORD
    ensures !Wraps(a, q)
  {
    if q.partition < 8 {
      PlaceBound(a.next, PartitionColor(q.partition));
    }
    hide Place;
  }

  /** A caller's check: requests that end well below 2^64 wherever they are placed never wrap. */
  lemma {:induction false} SmallRequestsNeverWrap(a: State, reqs: seq<Request>)
    requires a.base == a.next && a.base <= a.top
    requires forall q :: q in reqs ==> a.top + 15 * PAGE_SIZE + q.size < WORD
    ensures NoWraps(a, reqs)
    decreases |reqs|
  {
    if reqs != [] {
      var n := |reqs| - 1;
      SmallRequestsNeverWrap(a, reqs[..n]);
      RunInOrder(a, reqs[..n]);
      hide Run, Wraps;
      forall k | 0 <= k < |reqs|
        ensures !Wraps(Run(a, reqs[..k]).0, reqs[k])
      {
        if k < n {
          assert reqs[..n][..k] == reqs[..k] && reqs[..n][k] == reqs[k];
        } else {
          SmallNeverWraps(Run(a, reqs[..n]).0, reqs[n]);
        }
      }
    }
  }

  /**
    Every run without wrap-around hands out frames that lie in the pool, pairwise disjoint, each of its partition's
    colour.
   */
  lemma RunGrantsAreDisjoint(base: Word, size: Word, reqs: seq<Request>)
    requires base + size < WORD && NoWraps(Init(base, size), reqs)
    ensures var gs := Run(Init(base, size), reqs).1;
            && (forall i :: 0 <= i < |gs| ==>
                  && base <= gs[i].paddr && gs[i].paddr + gs[i].size <= base + size
                  && ColorOf(gs[i].paddr) == PartitionColor(gs[i].partition))
            && (forall i, j :: 0 <= i < j < |gs| ==> Disjoint(gs[i], gs[j]))
  {
    hide Run, AllocFrame, NoWraps, ColorOf, PartitionColor;
    RunInOrder(Init(base, size), reqs);
    var (a, gs) := Run(Init(base, size), reqs);
    assert forall i :: 0 <= i < |gs| ==> GrantOk(gs[i], a);
  }

  /** A pool of 4 MB, and two requests that wrap its bump pointer to below the pool. */
  const POOL := Init(0x8040_0000, 0x40_0000)
  const PAGE_REQUEST := Request(0, 0x1000)
  const HUGE_REQUEST := Request(0, WORD - 0x1_1000)

  lemma WrappedBumpFallsBelow()
    ensures var (a, gs) := Run(POOL, [PAGE_REQUEST, HUGE_REQUEST]);
            && a.next == 0x803F_F000 < POOL.base && a.top == POOL.top
            && |gs| == 2 && gs[0] == Grant(0, 0x8040_0000, 0x1000)
  {
    hide Run, AllocFrame;
    var q0, q1 := PAGE_REQUEST, HUGE_REQUEST;
    assert [] + [q0] == [q0] && [q0] + [q1] == [q0, q1];
    RunNext(POOL, [], q0);
    GrantAt(POOL, 0x1000, 0);
    RunNext(POOL, [q0], q1);
    GrantAt(Run(POOL, [q0]).0, WORD - 0x1_1000, 15);
  }

  /** The next request is granted a page that was granted before. */
  lemma WrappedRequestGrantsTwice()
    ensures var (a, gs) := Run(POOL, [PAGE_REQUEST, HUGE_REQUEST, PAGE_REQUEST]);
            |gs| == 3 && gs[0] == gs[2] == Grant(0, 0x8040_0000, 0x1000)
  {
    hide Run, AllocFrame;
    var before := [PAGE_REQUEST, HUGE_REQUEST];
    WrappedBumpFallsBelow();
    assert before + [PAGE_REQUEST] == [PAGE_REQUEST, HUGE_REQUEST, PAGE_REQUEST];
    RunNext(POOL, before, PAGE_REQUEST);
    GrantAt(Run(POOL, before).0, 0x1000, 1);
  }

  /** Where a request of partition 0 is placed, from an aligned bump pointer. */
  lemma GrantAt(a: State, size: Word, k: nat)
    requires Aligned(a.next) && Aligned(size) && k < NUM_COLORS && (ColorOf(a.next) + k) % NUM_COLORS == 0
    requires a.next + PAGE_SIZE * k < WORD && (a.next + PAGE_SIZE * k + size) % WORD <= a.top
    ensures var (a', e, f) := AllocFrame(a, 0, size);
            && e == Ok && f.hw.base == a.next + PAGE_SIZE * k && a'.next == (a.next + PAGE_SIZE * k + size) % WORD
            && a'.top == a.top && a'.base == a.base
  {
    ColorBound(a.next);
    hide ColorOf;
    assert Skip(a.next, 0) == k;
  }

  lemma RunNext(a: State, reqs: seq<Request>, q: Request)
    ensures Run(a, []) == (a, [])
    ensures var (a', gs) := Run(a, reqs);
            var (a'', e, f) := AllocFrame(a', q.partition, q.size);
            Run(a, reqs + [q]) == (a'', if e == Ok then gs + [Grant(q.partition, f.hw.base, q.size)] else gs)
  {
    assert (reqs + [q])[..|reqs|] == reqs;
    hide AllocFrame;
  }

  /** The pool has room for the request at a page of the partition's colour not below the bump pointer. */
  ghost predicate HasRoom(a: State, partition: nat, size: nat) {
    exists k: nat :: ColorOf(a.next + PAGE_SIZE * k) == PartitionColor(partition)
        && a.next + PAGE_SIZE * k + size <= a.top
  }

  lemma RoomIsAtPlace(a: State, partition: nat, size: nat)
    requires partition < 8
    ensures HasRoom(a, partition, size) <==> Place(a.next, PartitionColor(partition)) + size <= a.top
  {
    var color := PartitionColor(partition);
    PlaceIsFirst(a.next, color);
    hide ColorOf, PartitionColor;
    if HasRoom(a, partition, size) {
      var k: nat :| ColorOf(a.next + PAGE_SIZE * k) == color && a.next + PAGE_SIZE * k + size <= a.top;
      assert k >= Skip(a.next, color);
    }
    if Place(a.next, color) + size <= a.top {
      assert ColorOf(a.next + PAGE_SIZE * Skip(a.next, color)) == color;
    }
  }

  /**
    A well-formed request is granted exactly when the pool has room, unless its end wraps: then it is granted without
    room.
   */
  lemma NoMemIsExact(a: State, partition: nat, size: Word)
    requires partition < 8 && size % PAGE_SIZE == 0
    ensures var e := AllocFrame(a, partition, size).1;
            && (e == Ok || e == NoMem)
            && ((e == Ok <==> HasRoom(a, partition, size)) <==> !WrapsInto(a, partition, size))
            && (HasRoom(a, partition, size) ==> e == Ok)
  {
    RoomIsAtPlace(a, partition, size);
    PlaceBound(a.next, PartitionColor(partition));
    WrapsIsGranted(a, Request(partition, size));
    AddWraps(Place(a.next, PartitionColor(partition)), size);
    hide HasRoom, Place, PartitionColor;
  }

  lemma ColorInside(g: Grant, x: nat)
    requires g.paddr % PAGE_SIZE == 0 && g.paddr <= x
    ensures ColorOf(x) == (ColorOf(g.paddr) + (x - g.paddr) / PAGE_SIZE) % NUM_COLORS
  {
    assert x / PAGE_SIZE == g.paddr / PAGE_SIZE + (x - g.paddr) / PAGE_SIZE;
  }

  /** A page-aligned frame keeps to its partition's two colours exactly when it has at most two pages. */
  lemma ColorsStayInPartition(g: Grant)
    requires g.partition < 8 && g.paddr % PAGE_SIZE == 0 && g.size % PAGE_SIZE == 0
    requires ColorOf(g.paddr) == PartitionColor(g.partition)
    ensures (forall c :: c in Colors(g) ==> ColorIsValid(g.partition, c)) <==> g.size <= 2 * PAGE_SIZE
  {
    if g.size <= 2 * PAGE_SIZE {
      forall x: nat | g.paddr <= x < g.paddr + g.size
        ensures ColorIsValid(g.partition, ColorOf(x))
      {
        ColorInside(g, x);
      }
    } else {
      ThirdPageStrays(g);
      hide ColorOf;
      assert ColorOf(g.paddr + 2 * PAGE_SIZE) in Colors(g);
    }
  }

  lemma ThirdPageStrays(g: Grant)
    requires g.partition < 8 && g.paddr % PAGE_SIZE == 0 && ColorOf(g.paddr) == PartitionColor(g.partition)
    ensures !ColorIsValid(g.partition, ColorOf(g.paddr + 2 * PAGE_SIZE))
  {
    ColorInside(g, g.paddr + 2 * PAGE_SIZE);
    hide ColorOf;
  }

  lemma PartitionColorsDiffer(p: nat, q: nat, c: nat)
    requires p < 8 && q < 8 && p != q
    ensures !(ColorIsValid(p, c) && ColorIsValid(q, c))
  {
  }

  /** In every run from a page-aligned base, frames of at most two pages of different partitions share no colour. */
  lemma RunColorsIsolated(base: Word, size: Word, reqs: seq<Request>, i: nat, j: nat)
    requires base % PAGE_SIZE == 0 && base + size < WORD && NoWraps(Init(base, size), reqs)
    requires i < |Run(Init(base, size), reqs).1| && j < |Run(Init(base, size), reqs).1|
    requires Run(Init(base, size), reqs).1[i].partition != Run(Init(base, size), reqs).1[j].partition
    requires Run(Init(base, size), reqs).1[i].size <= 2 * PAGE_SIZE
    requires Run(Init(base, size), reqs).1[j].size <= 2 * PAGE_SIZE
    ensures Colors(Run(Init(base, size), reqs).1[i]) !! Colors(Run(Init(base, size), reqs).1[j])
  {
    RunInOrder(Init(base, size), reqs);
    var g, h := Run(Init(base, size), reqs).1[i], Run(Init(base, size), reqs).1[j];
    assert GrantOk(g, Run(Init(base, size), reqs).0) && GrantOk(h, Run(Init(base, size), reqs).0);
    assert ColorOf(g.paddr) == PartitionColor(g.partition) && ColorOf(h.paddr) == PartitionColor(h.partition);
    ColorsStayInPartition(g);
    ColorsStayInPartition(h);
    forall c | c in Colors(g)
      ensures c !in Colors(h)
    {
      PartitionColorsDiffer(g.partition, h.partition, c);
    }
  }
}
