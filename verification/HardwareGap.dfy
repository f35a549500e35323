/** Where vspace_resolve answers and the hardware faults: the smallest runs (kernel/src/vspace.c). */
module HardwareGap {
  import opened Kernel
  import Alloc
  import opened PageTable
  import opened FlatMap
  import opened TableSupply
  import opened Spaces
  import opened Sv39

  const BASE: Word := 0x8040_0000
  const SIZE: Word := 0x40_0000

  /** One space, and page 0 of it mapped to frame 0x9000_0000. */
  function OnePage(perms: nat): seq<Op> {
    [NewOp(0), MapOp(0, 0, 0x9000_0000, PAGE_SIZE, perms, 0)]
  }

  /** The pool has 64 pages of colour 0. */
  lemma PoolHasTables()
    ensures TablesLeft(Start(BASE, SIZE).w, Space(0, 0, 0, [])) == 64
  {
    var a := Start(BASE, SIZE).w.alloc;
    assert Alloc.ColorOf(a.next) == 0;
    assert Alloc.Place(a.next, Alloc.PartitionColor(0)) == a.next;
    hide Alloc.ColorOf, Alloc.Place;
    assert (a.top - a.next - PAGE_SIZE) / STRIDE == 63;
  }

  lemma FirstSpace() returns (w: World, s: Space, shape: Shape)
    ensures Run(BASE, SIZE, [NewOp(0)]) == System(w, [s])
    ensures w.alloc.top == BASE + SIZE
    ensures SpaceInv(w, s, shape) && s.partition == 0 && FlatOf(w.mem, s.root) == map[] && TablesLeft(w, s) == 63
  {
    PoolHasTables();
    var start := Start(BASE, SIZE);
    TableCounts(start.w, Space(0, 0, 0, []));
    NewIsEmpty(start.w, 0);
    AllocKeepsPartition(start.w, Space(0, 0, 0, []));
    hide AllocTable, FramesLeft, SpaceInv, FlatOf;
    var (w1, s1, e1) := NewSpace(start.w, 0);
    w, s, shape := w1, s1, map[s1.root := Root];
    assert [NewOp(0)][..0] == [];
    assert [] + [s] == [s];
  }

  lemma RootPositive(w: World, s: Space, shape: Shape)
    requires SpaceInv(w, s, shape)
    ensures s.root != 0
  {
  }

  lemma MapOnce(w: World, s: Space, pa: nat, flags: nat)
    requires MapPage(w, s, 0, pa, flags).2 == Ok
    ensures MapPages(w, s, 0, pa, 1, flags).0 == MapPage(w, s, 0, pa, flags).0
    ensures MapPages(w, s, 0, pa, 1, flags).1 == MapPage(w, s, 0, pa, flags).1
  {
    assert Vpn(0) == 0;
    hide MapPage;
  }

  lemma MapStep(w: World, s: Space, perms: nat)
    requires s.root != 0 && s.partition == 0 && MapPage(w, s, 0, 0x9000_0000, Flags(0, perms)).2 == Ok
    ensures var (w', s', _) := MapPage(w, s, 0, 0x9000_0000, Flags(0, perms));
            Step(System(w, [s]), MapOp(0, 0, 0x9000_0000, PAGE_SIZE, perms, 0)).0 == System(w', [s'])
  {
    MapOnce(w, s, 0x9000_0000, Flags(0, perms));
    hide MapPage, MapPages, Flags;
    var s' := MapPage(w, s, 0, 0x9000_0000, Flags(0, perms)).1;
    assert [s][0 := s'] == [s'];
  }

  /** The page is mapped, with the flags asked for. */
  lemma OnePageMapped(perms: nat) returns (w: World, s: Space, shape: Shape)
    ensures Run(BASE, SIZE, OnePage(perms)) == System(w, [s])
    ensures SpaceInv(w, s, shape) && FlatOf(w.mem, s.root) == map[0 := Mapping(0x9000_0000, Flags(0, perms))]
    ensures w.alloc.top == BASE + SIZE
  {
    hide MapPage, FlatOf, SpaceInv, Flags, TablesLeft, AllocOk, Step;
    var w1, s1, sh1 := FirstSpace();
    var f := Flags(0, perms);
    RootPositive(w1, s1, sh1);
    NoMemIsExact(w1, s1, sh1, 0, 0x9000_0000, f);
    shape := MapPageRefines(w1, s1, sh1, 0, 0x9000_0000, f);
    var (w2, s2, e2) := MapPage(w1, s1, 0, 0x9000_0000, f);
    w, s := w2, s2;
    MapStep(w1, s1, perms);
    assert OnePage(perms)[..1] == [NewOp(0)];
    assert map[][0 := Mapping(0x9000_0000, f)] == map[0 := Mapping(0x9000_0000, f)];
  }

  lemma TablesBelow(w: World, s: Space, shape: Shape)
    requires SpaceInv(w, s, shape) && w.alloc.top <= PHYS
    ensures TreeInv(w.mem, s.root, shape) && forall a :: a in shape ==> a < PHYS
  {
  }

  lemma LeafHasFlags(mem: Memory, root: nat, f: nat)
    requires FlatOf(mem, root) == map[0 := Mapping(0x9000_0000, f)]
    ensures Walk(mem, root, 0) % 1024 == f
  {
    hide Walk;
    var pte := Walk(mem, root, 0);
    assert Leaves(mem, root)[0] == pte;
    assert 0 in FlatOf(mem, root);
  }

  /** A request for neither R nor X, or for W without R. */
  predicate NoLeaf(perms: nat) {
    (perms % 2 == 0 && perms / 4 % 2 == 0) || (perms % 2 == 0 && perms / 2 % 2 == 1)
  }

  lemma NoLeafBits(pte: nat, perms: nat, acc: Access)
    requires NoLeaf(perms) && pte % 1024 == Flags(0, perms)
    ensures !LeafOkFor(pte, acc)
  {
    FlagBits(0, perms);
    SameBits(pte, Flags(0, perms));
    hide R, W, X, U, A, D, Present, Flags;
  }

  /** In the space with page 0 mapped, what resolve and the hardware make of an address of page 0. */
  lemma OnePageRead(perms: nat, va: nat, acc: Access)
    requires Vpn(va) == 0
    ensures |Run(BASE, SIZE, OnePage(perms)).spaces| == 1
    ensures var sys := Run(BASE, SIZE, OnePage(perms));
            && Resolve(sys.w.mem, sys.spaces[0].root, va) == Some(0x9000_0000 + va % PAGE_SIZE)
            && (!Canonical(va) || NoLeaf(perms) ==> Translate(sys.w.mem, sys.spaces[0].root, va, acc) == None)
  {
    hide Run, Resolve, Translate, Walk, Flags, FlatOf, Vpn, TreeInv, SpaceInv, NoLeaf, LeafOkFor, Canonical, Allowed;
    var w, s, shape := OnePageMapped(perms);
    ResolveIsLookup(w.mem, s.root, va);
    TablesBelow(w, s, shape);
    TranslateIsResolve(w.mem, s.root, shape, va, acc);
    LeafHasFlags(w.mem, s.root, Flags(0, perms));
    if NoLeaf(perms) {
      NoLeafBits(Walk(w.mem, s.root, 0), perms, acc);
    }
  }

  /** A write-only mapping: resolve gives the frame, the hardware faults on every access. */
  lemma WriteOnlyPageFaults(acc: Access)
    ensures var sys := Run(BASE, SIZE, OnePage(2));
            && |sys.spaces| == 1
            && Resolve(sys.w.mem, sys.spaces[0].root, 0) == Some(0x9000_0000)
            && Translate(sys.w.mem, sys.spaces[0].root, 0, acc) == None
  {
    hide Run, Resolve, Translate;
    OnePageRead(2, 0, acc);
  }

  /** A non-canonical address: resolve ignores its upper bits, the hardware faults. */
  lemma NonCanonicalAddressFaults(acc: Access)
    ensures var sys := Run(BASE, SIZE, OnePage(1));
            && |sys.spaces| == 1
            && Resolve(sys.w.mem, sys.spaces[0].root, 0x80_0000_0000) == Some(0x9000_0000)
            && Translate(sys.w.mem, sys.spaces[0].root, 0x80_0000_0000, acc) == None
  {
    hide Run, Resolve, Translate;
    OnePageRead(1, 0x80_0000_0000, acc);
  }
}
