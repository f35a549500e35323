/**
  Several address spaces fed by one frame allocator that also serves others, such as process stacks (kernel/src/vspace.c
  over kernel/src/alloc.c), over whole runs of creating, mapping and unmapping: every space behaves as its own flat map.
 */
module Spaces {
  import opened Kernel
  import Alloc
  import opened PageTable
  import opened FlatMap

  datatype System = System(w: World, spaces: seq<Space>)

  datatype Op =
    | NewOp(partition: nat)
    | MapOp(k: nat, va: nat, pa: nat, size: nat, perms: nat, color: nat)
    | UnmapOp(k: nat, va: nat, size: nat)
    | GrantOp(partition: nat, frame: Word)

  /** An address space seen from outside. */
  datatype View = View(partition: nat, flat: Flat)

  /** A page-aligned pool that ends more than a round of colours below 2^64. */
  predicate PoolOk(base: Word, size: Word) {
    base % PAGE_SIZE == 0 && base + size + 16 * PAGE_SIZE < WORD
  }

  function Start(base: Word, size: Word): System {
    System(World(map[], Alloc.Init(base, size)), [])
  }

  /** One operation: the system after it, the error returned, and the pages it mapped. */
  function Step(sys: System, op: Op): (System, Error, nat) {
    match op
    case NewOp(p) =>
      var (w, s, e) := NewSpace(sys.w, p);
      (System(w, if e == Ok then sys.spaces + [s] else sys.spaces), e, 0)
    case MapOp(k, va, pa, size, perms, color) =>
      if k >= |sys.spaces| then (sys, InvalidArg, 0)
      else
        var (w, s, e, n) := Map(sys.w, sys.spaces[k], va, pa, size, perms, color);
        (System(w, sys.spaces[k := s]), e, n)
    case UnmapOp(k, va, size) =>
      if k >= |sys.spaces| then (sys, InvalidArg, 0)
      else
        var (w, e) := Unmap(sys.w, sys.spaces[k], va, size);
        (sys.(w := w), e, 0)
    case GrantOp(p, frame) =>
      var (a, e, _) := Alloc.AllocFrame(sys.w.alloc, p, frame);
      (sys.(w := sys.w.(alloc := a)), e, 0)
  }

  ghost function ViewOf(sys: System, k: nat): View
    requires k < |sys.spaces|
  {
    View(sys.spaces[k].partition, FlatOf(sys.w.mem, sys.spaces[k].root))
  }

  ghost function Views(sys: System): (vs: seq<View>)
    ensures |vs| == |sys.spaces|
  {
    seq(|sys.spaces|, k requires 0 <= k < |sys.spaces| => ViewOf(sys, k))
  }

  /** The same operation on flat maps, given how it ended. */
  ghost function FlatStep(vs: seq<View>, op: Op, e: Error, n: nat): seq<View> {
    match op
    case NewOp(p) => if e == Ok then vs + [View(p, map[])] else vs
    case MapOp(k, va, pa, size, perms, color) =>
      if k >= |vs| then vs
      else vs[k := vs[k].(flat := vs[k].flat + Pages(Vpn(va), pa, n, Flags(vs[k].partition, perms)))]
    case UnmapOp(k, va, size) =>
      if k >= |vs| || e != Ok then vs
      else vs[k := vs[k].(flat := vs[k].flat - PageRange(Vpn(va), size / PAGE_SIZE))]
    case GrantOp(_, _) => vs
  }

  /**
    How an operation may end, told from the flat maps alone: a map that passes its checks and succeeds adds all its
    pages, one that fails adds a prefix, and stops where a page is mapped already or for lack of memory where none is.
   */
  ghost predicate FlatOutcome(vs: seq<View>, op: Op, e: Error, n: nat) {
    match op
    case NewOp(_) => n == 0 && (e == Ok || e == NoMem)
    case MapOp(k, va, pa, size, perms, color) =>
      if k >= |vs| then e == InvalidArg && n == 0
      else if va % 4096 != 0 || pa % 4096 != 0 || size % 4096 != 0 || color % 2 != 0 then e == InvalidArg && n == 0
      else if color != 0 && va / 4096 % 16 != color then e == PartitionDenied && n == 0
      else
        Mapped(vs[k].flat, FlatStep(vs, op, e, n)[k].flat, Vpn(va), pa, size / PAGE_SIZE,
               Flags(vs[k].partition, perms), e, n)
    case UnmapOp(k, va, size) =>
      n == 0 && e == if k < |vs| && va % PAGE_SIZE == 0 && size % PAGE_SIZE == 0 then Ok else InvalidArg
    case GrantOp(p, frame) =>
      n == 0 && (e == InvalidArg <==> p >= 8 || frame % PAGE_SIZE != 0) && (e == Ok || e == NoMem || e == InvalidArg)
  }

  /** All spaces are well formed, and no table page belongs to two of them. */
  ghost predicate Inv(sys: System, shapes: seq<Shape>) {
    && |shapes| == |sys.spaces|
    && AllocOk(sys.w.alloc)
    && (forall k :: 0 <= k < |shapes| ==> SpaceInv(sys.w, sys.spaces[k], shapes[k]))
    && (forall j, k :: 0 <= j < k < |shapes| ==> shapes[j].Keys !! shapes[k].Keys)
  }

  /** A step of space `k` leaves every other space as it was. */
  lemma OthersUntouched(sys: System, shapes: seq<Shape>, k: nat, w': World, s': Space, shape': Shape)
    requires Inv(sys, shapes) && k < |shapes| && SpaceStep(sys.w, sys.spaces[k], shapes[k], w', s', shape')
    ensures var sys' := System(w', sys.spaces[k := s']);
            && Inv(sys', shapes[k := shape'])
            && (forall j :: 0 <= j < |shapes| && j != k ==> ViewOf(sys', j) == ViewOf(sys, j))
            && (forall j, va :: 0 <= j < |shapes| && j != k ==>
                  Resolve(w'.mem, sys.spaces[j].root, va) == Resolve(sys.w.mem, sys.spaces[j].root, va))
  {
    var sys' := System(w', sys.spaces[k := s']);
    forall j | 0 <= j < |shapes| && j != k
      ensures shapes[j].Keys !! shape'.Keys
      ensures SpaceInv(w', sys.spaces[j], shapes[j])
      ensures ViewOf(sys', j) == ViewOf(sys, j)
      ensures forall va :: Resolve(w'.mem, sys.spaces[j].root, va) == Resolve(sys.w.mem, sys.spaces[j].root, va)
    {
      OtherUntouched(sys.w, sys.spaces[j], shapes[j], shapes[k], w', s', shape');
    }
  }

  lemma OtherUntouched(w: World, s: Space, shape: Shape, own: Shape, w': World, s': Space, own': Shape)
    requires SpaceInv(w, s, shape) && Extends(w, own, w', own') && AllocOk(w'.alloc)
    requires shape.Keys !! own.Keys
    ensures shape.Keys !! own'.Keys
    ensures SpaceInv(w', s, shape)
    ensures FlatOf(w'.mem, s.root) == FlatOf(w.mem, s.root)
    ensures forall va :: Resolve(w'.mem, s.root, va) == Resolve(w.mem, s.root, va)
  {
    forall a | a in shape
      ensures a !in own'
    {
      assert a !in own && a + PAGE_SIZE <= w.alloc.next;
    }
    WalkFrame(w.mem, w'.mem, s.root, shape);
    assert Leaves(w'.mem, s.root) == Leaves(w.mem, s.root);
  }

  /**
    Arguments are 64-bit words, and frames for others end below 2^64 wherever they are placed in a pool up to `top`.
   */
  predicate Fits(top: nat, op: Op) {
    && (op.MapOp? ==> op.pa < WORD)
    && (op.GrantOp? ==> top + 15 * PAGE_SIZE + op.frame < WORD)
  }

  predicate AllFit(top: nat, ops: seq<Op>) {
    forall op :: op in ops ==> Fits(top, op)
  }

  lemma LastFits(top: nat, ops: seq<Op>)
    requires AllFit(top, ops) && ops != []
    ensures AllFit(top, ops[..|ops| - 1]) && Fits(top, ops[|ops| - 1])
  {
    hide Fits;
  }

  /** New table pages come from above the old bump pointer, which moves up. */
  ghost predicate Fresher(sys: System, shapes: seq<Shape>, sys': System, shapes': seq<Shape>) {
    && sys.w.alloc.next <= sys'.w.alloc.next && sys'.w.alloc.top == sys.w.alloc.top
    && forall k, a :: 0 <= k < |shapes'| && a in shapes'[k] ==>
         (k < |shapes| && a in shapes[k]) || sys.w.alloc.next <= a
  }

  /** A frame granted to somebody else changes no table. */
  lemma GrantRefines(sys: System, shapes: seq<Shape>, op: Op)
    requires Inv(sys, shapes) && op.GrantOp? && Fits(sys.w.alloc.top, op)
    ensures var (sys', e, n) := Step(sys, op);
            && Inv(sys', shapes) && Fresher(sys, shapes, sys', shapes)
            && Views(sys') == FlatStep(Views(sys), op, e, n)
            && FlatOutcome(Views(sys), op, e, n)
            && (e == Ok ==> sys.w.alloc.next <= FrameBase(sys, op)
                            && FrameBase(sys, op) + op.frame == sys'.w.alloc.next)
  {
    var a := sys.w.alloc;
    Alloc.AllocEffect(a, op.partition, op.frame);
    Alloc.AllocCases(a, op.partition, op.frame);
    Alloc.SmallNeverWraps(a, Alloc.Request(op.partition, op.frame));
    Alloc.WrapsIsGranted(a, Alloc.Request(op.partition, op.frame));
    hide Alloc.AllocFrame, Alloc.Wraps, Alloc.NoWrap, Alloc.ColorOf, Alloc.PartitionColor, TreeInv, Backed, FlatOf;
    var sys' := Step(sys, op).0;
    forall k | 0 <= k < |shapes|
      ensures SpaceInv(sys'.w, sys.spaces[k], shapes[k])
    {
      assert SpaceInv(sys.w, sys.spaces[k], shapes[k]);
    }
    assert Views(sys') == Views(sys);
  }

  /** Where the frame of a grant starts. */
  function FrameBase(sys: System, op: Op): nat
    requires op.GrantOp?
  {
    Alloc.AllocFrame(sys.w.alloc, op.partition, op.frame).2.hw.base
  }

  /** Creating a space leaves the others as they are. */
  lemma NewKeepsOthers(sys: System, shapes: seq<Shape>, partition: nat)
    requires Inv(sys, shapes)
    ensures var (w', s, n) := AllocTable(sys.w, Space(0, partition, 0, []));
            forall k :: 0 <= k < |shapes| ==>
              && SpaceInv(w', sys.spaces[k], shapes[k]) && n !in shapes[k]
              && FlatOf(w'.mem, sys.spaces[k].root) == FlatOf(sys.w.mem, sys.spaces[k].root)
  {
    FreshTable(sys.w, Space(0, partition, 0, []));
    hide AllocTable, FlatOf, SpaceInv, T, ZeroTable;
    var (w', s, n) := AllocTable(sys.w, Space(0, partition, 0, []));
    forall k | 0 <= k < |shapes|
      ensures SpaceInv(w', sys.spaces[k], shapes[k]) && n !in shapes[k]
      ensures FlatOf(w'.mem, sys.spaces[k].root) == FlatOf(sys.w.mem, sys.spaces[k].root)
    {
      assert SpaceInv(sys.w, sys.spaces[k], shapes[k]);
      KeptByAlloc(sys.w, sys.spaces[k], shapes[k], w', n);
    }
  }

  /** A created space is a lone, empty, backed root table. */
  lemma NewIsEmpty(w: World, partition: nat)
    requires AllocOk(w.alloc)
    ensures var (w', s, e) := NewSpace(w, partition);
            && AllocOk(w'.alloc) && w'.alloc.top == w.alloc.top && w.alloc.next <= w'.alloc.next
            && (e == Ok ==> w.alloc.next <= s.root)
            && (e == Ok ==>
                  SpaceInv(w', s, map[s.root := Root]) && FlatOf(w'.mem, s.root) == map[] && s.partition == partition)
  {
    var s := Space(0, partition, 0, []);
    FreshTable(w, s);
    FirstTableBacks(w, partition);
    AllocKeepsPartition(w, s);
    hide AllocTable, Backed, FlatOf, TreeInv;
    var (w', _, n) := AllocTable(w, s);
    if n != 0 {
      RootAlone(w'.mem, n);
    }
  }

  lemma NewRefines(sys: System, shapes: seq<Shape>, partition: nat) returns (shapes': seq<Shape>)
    requires Inv(sys, shapes)
    ensures var (sys', e, n) := Step(sys, NewOp(partition));
            && Inv(sys', shapes') && Fresher(sys, shapes, sys', shapes')
            && Views(sys') == FlatStep(Views(sys), NewOp(partition), e, n)
            && FlatOutcome(Views(sys), NewOp(partition), e, n)
  {
    NewKeepsOthers(sys, shapes, partition);
    NewIsEmpty(sys.w, partition);
    var (w', s, e) := NewSpace(sys.w, partition);
    hide AllocTable, FlatOf, SpaceInv, Views;
    shapes' := shapes;
    if e == Ok {
      shapes' := shapes + [map[s.root := Root]];
      JoinInv(sys, shapes, w', s, map[s.root := Root]);
    }
    JoinViews(sys, w', if e == Ok then [s] else []);
  }

  lemma JoinInv(sys: System, shapes: seq<Shape>, w': World, s: Space, shape: Shape)
    requires Inv(sys, shapes) && AllocOk(w'.alloc) && SpaceInv(w', s, shape)
    requires forall k :: 0 <= k < |shapes| ==> SpaceInv(w', sys.spaces[k], shapes[k]) && shapes[k].Keys !! shape.Keys
    ensures Inv(System(w', sys.spaces + [s]), shapes + [shape])
  {
    hide SpaceInv, AllocOk;
  }

  lemma JoinViews(sys: System, w': World, more: seq<Space>)
    requires forall k :: 0 <= k < |sys.spaces| ==>
               FlatOf(w'.mem, sys.spaces[k].root) == FlatOf(sys.w.mem, sys.spaces[k].root)
    ensures Views(System(w', sys.spaces + more)) ==
            Views(sys) +
            seq(|more|, i requires 0 <= i < |more| => View(more[i].partition, FlatOf(w'.mem, more[i].root)))
  {
    hide FlatOf;
  }

  lemma FirstTableBacks(w: World, partition: nat)
    ensures var (w', s, n) := AllocTable(w, Space(0, partition, 0, []));
            n != 0 ==> Backed(s.(root := n), map[n := Root])
  {
    var s := Space(0, partition, 0, []);
    assert Backed(s, map[]);
    AllocTableBacks(w, s, map[], Root);
    assert map[][AllocTable(w, s).2 := Root] == map[AllocTable(w, s).2 := Root];
  }

  lemma AllocKeepsPartition(w: World, s: Space)
    ensures AllocTable(w, s).1.partition == s.partition
  {
  }

  /** A table page fresh from the allocator lies above everything handed out before. */
  lemma FreshTable(w: World, s: Space)
    requires AllocOk(w.alloc)
    ensures var (w', s', n) := AllocTable(w, s);
            && AllocOk(w'.alloc) && w.alloc.next <= w'.alloc.next && w'.alloc.top == w.alloc.top
            && (forall a :: a != n ==> T(w'.mem, a) == T(w.mem, a))
            && (n != 0 ==> n % PAGE_SIZE == 0 && n < WORD && w.alloc.next <= n && n + PAGE_SIZE <= w'.alloc.next
                           && T(w'.mem, n) == ZeroTable())
  {
    Alloc.AllocEffect(w.alloc, s.partition, PAGE_SIZE);
    if s.partition < 8 {
      PageNeverWraps(w.alloc, s.partition);
    }
    hide Alloc.AllocFrame, Alloc.ColorOf, Alloc.PartitionColor, Alloc.NoWrap;
  }

  lemma KeptByAlloc(w: World, s: Space, shape: Shape, w': World, n: nat)
    requires SpaceInv(w, s, shape) && AllocOk(w'.alloc) && w.alloc.next <= w'.alloc.next
    requires n == 0 || w.alloc.next <= n
    requires forall a :: a != n ==> T(w'.mem, a) == T(w.mem, a)
    ensures n !in shape && SpaceInv(w', s, shape) && FlatOf(w'.mem, s.root) == FlatOf(w.mem, s.root)
  {
    assert n in shape ==> n + PAGE_SIZE <= w.alloc.next;
    WalkFrame(w.mem, w'.mem, s.root, shape);
    assert Leaves(w'.mem, s.root) == Leaves(w.mem, s.root);
  }

  lemma RootAlone(mem: Memory, n: nat)
    requires T(mem, n) == ZeroTable() && n % PAGE_SIZE == 0 && 0 < n < WORD
    ensures TreeInv(mem, n, map[n := Root])
    ensures FlatOf(mem, n) == map[]
  {
  }

  /**
    What a map request is refused for before any page is mapped: with PARTITION_DENIED exactly when everything is a
    page multiple and the colour, even and not 0, is not that of the virtual address; with INVALID_ARG exactly when
    something is not a page multiple or the colour is odd. Any other request maps its pages, or a prefix for the
    stated reason.
   */
  lemma MapRefusesExactly(sys: System, shapes: seq<Shape>, op: Op)
    requires Inv(sys, shapes) && op.MapOp? && Fits(sys.w.alloc.top, op) && op.k < |shapes|
    ensures var (sys', e, n) := Step(sys, op);
            var multiples := op.va % 4096 == 0 && op.pa % 4096 == 0 && op.size % 4096 == 0;
            var flat := Views(sys)[op.k].flat;
            && (e == PartitionDenied <==>
                  multiples && op.color % 2 == 0 && op.color != 0 && Alloc.ColorOf(op.va) != op.color)
            && (!multiples || op.color % 2 != 0 ==> e == InvalidArg)
            && (e == PartitionDenied || !multiples || op.color % 2 != 0 ==> n == 0 && Views(sys') == Views(sys))
            && (multiples && op.color % 2 == 0 && (op.color == 0 || Alloc.ColorOf(op.va) == op.color) ==>
                  Mapped(flat, Views(sys')[op.k].flat, Vpn(op.va), op.pa, op.size / 4096,
                         Flags(Views(sys)[op.k].partition, op.perms), e, n))
  {
    var shapes' := MapRefines(sys, shapes, op);
    SameCount(sys, shapes);
    var vs := Views(sys);
    hide Step, Inv, Views, Vpn, Pages, Flags, Fits;
    NoPages(Vpn(op.va), op.pa, Flags(vs[op.k].partition, op.perms));
    assert vs[op.k].flat + map[] == vs[op.k].flat && vs[op.k := vs[op.k]] == vs;
  }

  /**
    Mapping in space `k`: its flat map gains exactly a prefix of the request, for the stated reason; the others keep
    theirs.
   */
  lemma MapRefines(sys: System, shapes: seq<Shape>, op: Op) returns (shapes': seq<Shape>)
    requires Inv(sys, shapes) && op.MapOp? && Fits(sys.w.alloc.top, op) && op.k < |shapes|
    ensures var (sys', e, n) := Step(sys, op);
            && Inv(sys', shapes') && Fresher(sys, shapes, sys', shapes')
            && Views(sys') == FlatStep(Views(sys), op, e, n)
            && FlatOutcome(Views(sys), op, e, n)
  {
    RootIsThere(sys, shapes, op.k);
    hide MapPages, Flags, SpaceInv, FlatOf, Mapped, Vpn, Pages;
    var s, shape := sys.spaces[op.k], shapes[op.k];
    var f := Flags(s.partition, op.perms);
    var vs := Views(sys);
    if MapCheck(s, op.va, op.pa, op.size, op.color) == Ok {
      var shape' := MapPagesShape(sys.w, s, shape, op.va, op.pa, op.size / PAGE_SIZE, f);
      MapPagesFlat(sys.w, s, shape, op.va, op.pa, op.size / PAGE_SIZE, f);
      var (w', s', e, n) := MapPages(sys.w, s, op.va, op.pa, op.size / PAGE_SIZE, f);
      OthersUntouched(sys, shapes, op.k, w', s', shape');
      ViewsUpdate(sys, op.k, w', s');
      hide Inv, Extends, Views, ViewOf;
      shapes' := shapes[op.k := shape'];
    } else {
      shapes' := shapes;
      NoPages(Vpn(op.va), op.pa, f);
      assert sys.spaces[op.k := s] == sys.spaces;
      assert vs[op.k].flat + map[] == vs[op.k].flat;
      assert vs[op.k := vs[op.k]] == vs;
    }
  }

  lemma ViewsUpdate(sys: System, k: nat, w': World, s': Space)
    requires k < |sys.spaces| && s'.root == sys.spaces[k].root && s'.partition == sys.spaces[k].partition
    requires forall j :: 0 <= j < |sys.spaces| && j != k ==>
               ViewOf(System(w', sys.spaces[k := s']), j) == ViewOf(sys, j)
    ensures Views(System(w', sys.spaces[k := s'])) == Views(sys)[k := View(s'.partition, FlatOf(w'.mem, s'.root))]
    ensures Views(sys)[k] == View(sys.spaces[k].partition, FlatOf(sys.w.mem, sys.spaces[k].root))
  {
    hide FlatOf;
  }

  lemma RootIsThere(sys: System, shapes: seq<Shape>, k: nat)
    requires Inv(sys, shapes) && k < |shapes|
    ensures k < |sys.spaces| && sys.spaces[k].root != 0
  {
    assert SpaceInv(sys.w, sys.spaces[k], shapes[k]);
  }

  lemma NoPages(v: nat, pa: nat, flags: nat)
    requires v < PAGES
    ensures Pages(v, pa, 0, flags) == map[]
  {
  }

  lemma UnmapRefines(sys: System, shapes: seq<Shape>, op: Op)
    requires Inv(sys, shapes) && op.UnmapOp? && op.k < |shapes|
    ensures var (sys', e, n) := Step(sys, op);
            && Inv(sys', shapes) && Fresher(sys, shapes, sys', shapes)
            && Views(sys') == FlatStep(Views(sys), op, e, n)
            && FlatOutcome(Views(sys), op, e, n)
  {
    RootIsThere(sys, shapes, op.k);
    hide UnmapPages, SpaceInv, FlatOf;
    var s, shape := sys.spaces[op.k], shapes[op.k];
    var (w', e) := Unmap(sys.w, s, op.va, op.size);
    if e == Ok {
      UnmapPagesRefines(sys.w, s, shape, op.va, op.size / PAGE_SIZE);
      OthersUntouched(sys, shapes, op.k, w', s, shape);
      assert sys.spaces[op.k := s] == sys.spaces && shapes[op.k := shape] == shapes;
      ViewsUpdate(sys, op.k, w', s);
      hide Inv, Extends;
    }
  }

  lemma StepRefines(sys: System, shapes: seq<Shape>, op: Op) returns (shapes': seq<Shape>)
    requires Inv(sys, shapes) && Fits(sys.w.alloc.top, op)
    ensures var (sys', e, n) := Step(sys, op);
            && Inv(sys', shapes') && Fresher(sys, shapes, sys', shapes')
            && Views(sys') == FlatStep(Views(sys), op, e, n)
            && FlatOutcome(Views(sys), op, e, n)
  {
    hide Inv, Map, Unmap, NewSpace, Views;
    match op
    case NewOp(p) => shapes' := NewRefines(sys, shapes, p);
    case MapOp(k, _, _, _, _, _) =>
      shapes' := shapes;
      if k < |sys.spaces| { SameCount(sys, shapes); shapes' := MapRefines(sys, shapes, op); }
    case UnmapOp(k, _, _) =>
      shapes' := shapes;
      if k < |sys.spaces| { SameCount(sys, shapes); UnmapRefines(sys, shapes, op); }
    case GrantOp(_, _) =>
      shapes' := shapes;
      GrantRefines(sys, shapes, op);
  }

  lemma SameCount(sys: System, shapes: seq<Shape>)
    requires Inv(sys, shapes)
    ensures |shapes| == |sys.spaces|
  {
  }

  // ----- Whole runs

  function Run(base: Word, size: Word, ops: seq<Op>): System {
    if ops == [] then Start(base, size)
    else Step(Run(base, size, ops[..|ops| - 1]), ops[|ops| - 1]).0
  }

  /** The run of flat maps with the same outcomes. */
  ghost function FlatRun(base: Word, size: Word, ops: seq<Op>): seq<View> {
    if ops == [] then []
    else
      var before := ops[..|ops| - 1];
      var (_, e, n) := Step(Run(base, size, before), ops[|ops| - 1]);
      FlatStep(FlatRun(base, size, before), ops[|ops| - 1], e, n)
  }

  /** How operation `i` of the run ended, and how many pages it mapped. */
  function Outcome(base: Word, size: Word, ops: seq<Op>, i: nat): (Error, nat)
    requires i < |ops|
  {
    var r := Step(Run(base, size, ops[..i]), ops[i]);
    (r.1, r.2)
  }

  /** Operation `i` of the run ended as the flat maps of that moment allow. */
  ghost predicate EndedWell(base: Word, size: Word, ops: seq<Op>, i: nat)
    requires i < |ops|
  {
    FlatOutcome(FlatRun(base, size, ops[..i]), ops[i], Outcome(base, size, ops, i).0, Outcome(base, size, ops, i).1)
  }

  /**
    After every run the tables of all spaces hold exactly the flat maps of the flat run, and every operation of the run
    ended as the flat maps of that moment allow.
   */
  lemma {:induction false} RunRefines(base: Word, size: Word, ops: seq<Op>) returns (shapes: seq<Shape>)
    requires PoolOk(base, size)
    requires AllFit(base + size, ops)
    ensures Inv(Run(base, size, ops), shapes) && Run(base, size, ops).w.alloc.top == base + size
    ensures Views(Run(base, size, ops)) == FlatRun(base, size, ops)
    ensures forall i :: 0 <= i < |ops| ==> EndedWell(base, size, ops, i)
  {
    hide Step, FlatStep, FlatOutcome;
    if ops == [] {
      shapes := [];
    } else {
      var n := |ops| - 1;
      LastFits(base + size, ops);
      var before := ops[..n];
      var sh := RunRefines(base, size, before);
      shapes := StepRefines(Run(base, size, before), sh, ops[n]);
      hide Run, FlatRun, Views;
      forall i | 0 <= i < n
        ensures EndedWell(base, size, ops, i)
      {
        assert before[..i] == ops[..i] && before[i] == ops[i];
        assert Outcome(base, size, before, i) == Outcome(base, size, ops, i);
        assert EndedWell(base, size, before, i);
      }
    }
  }

  // ----- Frames granted to others

  /** The frames handed to other clients of the allocator in a run. */
  function Frames(base: Word, size: Word, ops: seq<Op>): seq<Alloc.Grant> {
    if ops == [] then []
    else
      var before, op := ops[..|ops| - 1], ops[|ops| - 1];
      var sys := Run(base, size, before);
      Frames(base, size, before) +
      if op.GrantOp? && Step(sys, op).1 == Ok then [Alloc.Grant(op.partition, FrameBase(sys, op), op.frame)] else []
  }

  /** A frame and a table page have no byte in common. */
  predicate Clear(g: Alloc.Grant, a: nat) {
    a + PAGE_SIZE <= g.paddr || g.paddr + g.size <= a
  }

  ghost predicate FramesOk(gs: seq<Alloc.Grant>, shapes: seq<Shape>, next: nat) {
    && (forall i :: 0 <= i < |gs| ==> gs[i].paddr + gs[i].size <= next)
    && (forall i, j :: 0 <= i < j < |gs| ==> Alloc.Disjoint(gs[i], gs[j]))
    && (forall i, k, a :: 0 <= i < |gs| && 0 <= k < |shapes| && a in shapes[k] ==> Clear(gs[i], a))
  }

  lemma FramesStay(gs: seq<Alloc.Grant>, sys: System, shapes: seq<Shape>, sys': System, shapes': seq<Shape>)
    requires FramesOk(gs, shapes, sys.w.alloc.next) && Fresher(sys, shapes, sys', shapes')
    ensures FramesOk(gs, shapes', sys'.w.alloc.next)
  {
  }

  lemma FrameJoins(gs: seq<Alloc.Grant>, sys: System, shapes: seq<Shape>, g: Alloc.Grant, next: nat)
    requires FramesOk(gs, shapes, sys.w.alloc.next) && Inv(sys, shapes)
    requires sys.w.alloc.next <= g.paddr && g.paddr + g.size == next
    ensures FramesOk(gs + [g], shapes, next)
  {
    forall k, a | 0 <= k < |shapes| && a in shapes[k]
      ensures Clear(g, a)
    {
      assert SpaceInv(sys.w, sys.spaces[k], shapes[k]);
    }
    hide Inv;
  }

  lemma {:induction false} RunFrames(base: Word, size: Word, ops: seq<Op>) returns (shapes: seq<Shape>)
    requires PoolOk(base, size)
    requires AllFit(base + size, ops)
    ensures Inv(Run(base, size, ops), shapes) && Run(base, size, ops).w.alloc.top == base + size
    ensures FramesOk(Frames(base, size, ops), shapes, Run(base, size, ops).w.alloc.next)
  {
    hide Step, FlatStep, FlatOutcome, FrameBase;
    if ops == [] {
      shapes := [];
    } else {
      var n := |ops| - 1;
      LastFits(base + size, ops);
      var sh := RunFrames(base, size, ops[..n]);
      var sys := Run(base, size, ops[..n]);
      var gs := Frames(base, size, ops[..n]);
      hide Inv, FramesOk;
      if ops[n].GrantOp? {
        shapes := sh;
        GrantRefines(sys, sh, ops[n]);
        if Step(sys, ops[n]).1 == Ok {
          var g := Alloc.Grant(ops[n].partition, FrameBase(sys, ops[n]), ops[n].frame);
          FrameJoins(gs, sys, sh, g, Step(sys, ops[n]).0.w.alloc.next);
        } else {
          FramesStay(gs, sys, sh, Step(sys, ops[n]).0, sh);
          assert gs + [] == gs;
        }
      } else {
        shapes := StepRefines(sys, sh, ops[n]);
        FramesStay(gs, sys, sh, Step(sys, ops[n]).0, shapes);
        assert gs + [] == gs;
      }
    }
  }

  /**
    After any run in which other clients took frames from the same allocator, their frames are pairwise disjoint and
    have no byte in common with any table page of any space.
   */
  lemma RunFramesApart(base: Word, size: Word, ops: seq<Op>, i: nat, k: nat, a: nat)
    requires PoolOk(base, size)
    requires AllFit(base + size, ops)
    requires i < |Frames(base, size, ops)|
    ensures Frames(base, size, ops)[i].paddr + Frames(base, size, ops)[i].size <= base + size
    ensures forall j :: i < j < |Frames(base, size, ops)| ==>
              Alloc.Disjoint(Frames(base, size, ops)[i], Frames(base, size, ops)[j])
    ensures k < |Run(base, size, ops).spaces| && a in Bases(Run(base, size, ops).spaces[k].caps) ==>
              Clear(Frames(base, size, ops)[i], a)
  {
    hide Run, Frames, Bases, TreeInv, Alloc.ColorOf, Alloc.PartitionColor;
    var sys := Run(base, size, ops);
    var shapes := RunFrames(base, size, ops);
    if k < |sys.spaces| {
      assert SpaceInv(sys.w, sys.spaces[k], shapes[k]);
    }
  }

  lemma {:induction false} MapCount(w: World, s: Space, va: nat, pa: nat, n: nat, flags: nat)
    ensures MapPages(w, s, va, pa, n, flags).3 <= n
    decreases n
  {
    hide MapPage;
    if n > 0 {
      var (w1, s1, e1) := MapPage(w, s, Vpn(va), pa, flags);
      MapCount(w1, s1, (va + PAGE_SIZE) % WORD, (pa + PAGE_SIZE) % WORD, n - 1, flags);
    }
  }

  /** A property of frames and flags that every mapping request of a run guarantees. */
  ghost predicate Guarantees(op: Op, good: Mapping -> bool) {
    op.MapOp? ==>
      forall partition: nat, i: nat :: i < op.size / PAGE_SIZE ==>
        good(Mapping(FrameAt(op.pa, i), Flags(partition, op.perms)))
  }

  lemma StepMappings(vs: seq<View>, op: Op, e: Error, n: nat, good: Mapping -> bool, k: nat, v: nat)
    requires Guarantees(op, good) && (op.MapOp? ==> n <= op.size / PAGE_SIZE)
    requires k < |FlatStep(vs, op, e, n)| && v in FlatStep(vs, op, e, n)[k].flat
    requires k < |vs| && v in vs[k].flat ==> good(vs[k].flat[v])
    ensures good(FlatStep(vs, op, e, n)[k].flat[v])
  {
    hide Flags, Vpn;
  }

  lemma StepCount(sys: System, op: Op)
    ensures op.MapOp? ==> Step(sys, op).2 <= op.size / PAGE_SIZE
  {
    hide MapPages, Flags, Unmap, NewSpace;
    if op.MapOp? && op.k < |sys.spaces| {
      MapCount(sys.w, sys.spaces[op.k], op.va, op.pa, op.size / PAGE_SIZE, Flags(sys.spaces[op.k].partition, op.perms));
    }
  }

  /** What every request guarantees holds of every mapping, in every space, at every moment of the run. */
  lemma {:induction false} RunMappings(base: Word, size: Word, ops: seq<Op>, good: Mapping -> bool, k: nat, v: nat)
    requires forall op :: op in ops ==> Guarantees(op, good)
    requires k < |FlatRun(base, size, ops)| && v in FlatRun(base, size, ops)[k].flat
    ensures good(FlatRun(base, size, ops)[k].flat[v])
    decreases |ops|
  {
    hide Step, FlatStep, Run, Guarantees;
    var before, op := ops[..|ops| - 1], ops[|ops| - 1];
    var vs := FlatRun(base, size, before);
    if k < |vs| && v in vs[k].flat {
      RunMappings(base, size, before, good, k, v);
    }
    var sys := Run(base, size, before);
    StepCount(sys, op);
    var (_, e, n) := Step(sys, op);
    StepMappings(vs, op, e, n, good, k, v);
  }

  /** After any run, resolving any address in any space gives exactly what that space's flat map holds. */
  lemma RunResolves(base: Word, size: Word, ops: seq<Op>, k: nat, va: nat)
    requires PoolOk(base, size)
    requires AllFit(base + size, ops)
    requires k < |Run(base, size, ops).spaces|
    ensures |FlatRun(base, size, ops)| == |Run(base, size, ops).spaces|
    ensures var sys := Run(base, size, ops);
            var flat := FlatRun(base, size, ops)[k].flat;
            && (Vpn(va) in flat ==> flat[Vpn(va)].pa < WORD)
            && Resolve(sys.w.mem, sys.spaces[k].root, va) ==
               if Vpn(va) in flat then Some(flat[Vpn(va)].pa + va % PAGE_SIZE) else None
  {
    hide Run, FlatRun, Resolve, FlatOf, Inv;
    var sys := Run(base, size, ops);
    var shapes := RunRefines(base, size, ops);
    assert Views(sys)[k] == ViewOf(sys, k);
    ResolveIsLookup(sys.w.mem, sys.spaces[k].root, va);
    if Vpn(va) in FlatRun(base, size, ops)[k].flat {
      RunMappings(base, size, ops, (m: Mapping) => m.pa < WORD, k, Vpn(va));
    }
  }

  /** After any run a space's table pages are the frames of its own capabilities, at most 64, all of its colour. */
  lemma RunTablesColored(base: Word, size: Word, ops: seq<Op>, k: nat, a: nat)
    requires PoolOk(base, size)
    requires AllFit(base + size, ops)
    requires k < |Run(base, size, ops).spaces|
    ensures var s := Run(base, size, ops).spaces[k];
            && |s.caps| == s.pagesUsed <= MAX_TABLES && s.root in Bases(s.caps)
            && (a in Bases(s.caps) ==> a < WORD && Alloc.ColorOf(a) == Alloc.PartitionColor(s.partition))
  {
    hide Run, FlatRun, Bases, Alloc.ColorOf, Alloc.PartitionColor;
    var sys := Run(base, size, ops);
    var shapes := RunRefines(base, size, ops);
    assert SpaceInv(sys.w, sys.spaces[k], shapes[k]);
  }

  /** After any run no two spaces share a table page. */
  lemma RunTablesApart(base: Word, size: Word, ops: seq<Op>, j: nat, k: nat)
    requires PoolOk(base, size)
    requires AllFit(base + size, ops)
    requires j < k < |Run(base, size, ops).spaces|
    ensures Bases(Run(base, size, ops).spaces[j].caps) !! Bases(Run(base, size, ops).spaces[k].caps)
  {
    hide Run, FlatRun, TreeInv, Bases, Alloc.ColorOf, Alloc.PartitionColor;
    var sys := Run(base, size, ops);
    var shapes := RunRefines(base, size, ops);
    assert SpaceInv(sys.w, sys.spaces[j], shapes[j]) && SpaceInv(sys.w, sys.spaces[k], shapes[k]);
    assert shapes[j].Keys !! shapes[k].Keys;
  }
}
