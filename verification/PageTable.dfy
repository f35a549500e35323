/**
  Three-level page tables (kernel/src/vspace.c, the RISC-V build) as values: physical memory holding
  512-entry tables, an address space rooted in one of them, and what map, unmap and resolve do to them.
 */
module PageTable {
  import opened Kernel
  import Alloc

  const ENTRIES: nat := 512
  const PAGES: nat := 0x800_0000
  const MAX_TABLES: nat := 64

  const PTE_V: nat := 1
  const PTE_R: nat := 2
  const PTE_W: nat := 4
  const PTE_X: nat := 8
  const PTE_U: nat := 16
  const PTE_A: nat := 64
  const PTE_D: nat := 128

  /** Page-table memory by table address; unlisted pages read as zero. */
  type Memory = map<nat, seq<nat>>

  function ZeroTable(): (t: seq<nat>)
    ensures |t| == ENTRIES
  {
    seq(ENTRIES, _ => 0)
  }

  function T(mem: Memory, a: nat): (t: seq<nat>)
    ensures |t| == ENTRIES
  {
    if a in mem && |mem[a]| == ENTRIES then mem[a] else ZeroTable()
  }

  function Write(mem: Memory, a: nat, i: nat, pte: nat): Memory
    requires i < ENTRIES
  {
    mem[a := T(mem, a)[i := pte]]
  }

  function PteEncode(ppn: nat, flags: nat): nat {
    BitOr(ppn * 1024 % WORD, flags)
  }

  function PtePpn(pte: nat): nat {
    pte / 1024
  }

  predicate Present(pte: nat) {
    pte % 2 == 1
  }

  /** The address a page-table entry names. */
  function Target(pte: nat): nat {
    PtePpn(pte) * PAGE_SIZE % WORD
  }

  /** Virtual page number of an address; bits above 38 are ignored by the kernel. */
  function Vpn(va: nat): (v: nat)
    ensures v < PAGES
  {
    va / PAGE_SIZE % PAGES
  }

  function I2(v: nat): (i: nat)
    ensures i < ENTRIES
  {
    v / 0x40000 % ENTRIES
  }

  function I1(v: nat): (i: nat)
    ensures i < ENTRIES
  {
    v / 512 % ENTRIES
  }

  function I0(v: nat): (i: nat)
    ensures i < ENTRIES
  {
    v % ENTRIES
  }

  lemma Cut30(va: nat)
    ensures va / 0x4000_0000 == va / PAGE_SIZE / 0x40000
  {
    var q, r := va / PAGE_SIZE, va % PAGE_SIZE;
    var s, t := q / 0x40000, q % 0x40000;
    assert va == 0x4000_0000 * s + (PAGE_SIZE * t + r);
  }

  lemma Cut21(va: nat)
    ensures va / 0x20_0000 == va / PAGE_SIZE / 512
  {
    var q, r := va / PAGE_SIZE, va % PAGE_SIZE;
    var s, t := q / 512, q % 512;
    assert va == 0x20_0000 * s + (PAGE_SIZE * t + r);
  }

  lemma TopField(q: nat)
    ensures q % PAGES / 0x40000 == q / 0x40000 % 512
  {
    var s, t := q / 0x40000, q % 0x40000;
    var u, w := s / 512, s % 512;
    assert q == PAGES * u + (0x40000 * w + t);
    assert q % PAGES == 0x40000 * w + t;
  }

  lemma MiddleField(q: nat)
    ensures q % PAGES / 512 % 512 == q / 512 % 512
  {
    var s, t := q / 512, q % 512;
    var u, w := s / 0x40000, s % 0x40000;
    assert q == PAGES * u + (512 * w + t);
    assert q % PAGES == 512 * w + t;
    SameLow(s, 512 * u, w);
  }

  lemma SameLow(s: nat, k: nat, w: nat)
    requires s == 512 * k + w
    ensures w % 512 == s % 512
  {
    var a, b := w / 512, w % 512;
    assert s == 512 * (k + a) + b;
  }

  lemma LowField(q: nat)
    ensures q % PAGES % 512 == q % 512
  {
    var u, w := q / PAGES, q % PAGES;
    SameLow(q, 0x40000 * u, w);
  }

  /** The three indices the C code cuts out of an address are those of its page number. */
  lemma VpnFields(va: nat)
    ensures I2(Vpn(va)) == va / 0x4000_0000 % 512
    ensures I1(Vpn(va)) == va / 0x20_0000 % 512
    ensures I0(Vpn(va)) == va / 0x1000 % 512
  {
    var q := va / PAGE_SIZE;
    Cut30(va);
    Cut21(va);
    TopField(q);
    MiddleField(q);
    LowField(q);
    assert q / 0x40000 % 512 % 512 == q / 0x40000 % 512;
  }

  lemma VpnIsItsFields(v: nat, w: nat)
    requires v < PAGES && w < PAGES && I2(v) == I2(w) && I1(v) == I1(w) && I0(v) == I0(w)
    ensures v == w
  {
    VpnJoined(v);
    VpnJoined(w);
    hide I2, I1, I0;
  }

  lemma VpnJoined(v: nat)
    requires v < PAGES
    ensures v == I2(v) * 0x40000 + I1(v) * 512 + I0(v)
  {
    var s, t := v / 512, v % 512;
    var u, w := s / 512, s % 512;
    assert v == 0x40000 * u + (512 * w + t);
    assert v / 0x40000 == u;
  }

  // ----- Packing of entries

  lemma TenBits()
    ensures Pow2(10) == 1024
  {
  }

  lemma Unpack(ppn: nat, flags: nat)
    requires flags < 1024
    ensures (ppn * 1024 + flags) / 1024 == ppn && (ppn * 1024 + flags) % 1024 == flags
  {
  }

  lemma PteRoundTrip(ppn: nat, flags: nat)
    requires ppn < 0x40_0000_0000_0000 && flags < 1024
    ensures PteEncode(ppn, flags) == ppn * 1024 + flags
    ensures PtePpn(PteEncode(ppn, flags)) == ppn
    ensures PteEncode(ppn, flags) % 1024 == flags
  {
    TenBits();
    hide BitOr, Pow2;
    BitOrIsSum(ppn, flags, 10);
    Unpack(ppn, flags);
  }

  /** Every page-aligned 64-bit address survives being packed into an entry. */
  lemma TargetRoundTrip(pa: nat, flags: nat)
    requires pa % PAGE_SIZE == 0 && pa < WORD && flags < 1024
    ensures PteEncode(pa / PAGE_SIZE, flags) == pa / PAGE_SIZE * 1024 + flags
    ensures Target(PteEncode(pa / PAGE_SIZE, flags)) == pa == PtePpn(PteEncode(pa / PAGE_SIZE, flags)) * PAGE_SIZE
    ensures PteEncode(pa / PAGE_SIZE, flags) % 1024 == flags
    ensures Present(PteEncode(pa / PAGE_SIZE, flags)) <==> flags % 2 == 1
  {
    PteRoundTrip(pa / PAGE_SIZE, flags);
  }

  // ----- Walks

  /** The bottom-level entry for page `v`, or 0 when a level above is missing. */
  function Walk(mem: Memory, root: nat, v: nat): nat {
    var e2 := T(mem, root)[I2(v)];
    if !Present(e2) then 0
    else
      var e1 := T(mem, Target(e2))[I1(v)];
      if !Present(e1) then 0 else T(mem, Target(e1))[I0(v)]
  }

  function Resolve(mem: Memory, root: nat, va: nat): Option<nat> {
    var pte := Walk(mem, root, Vpn(va));
    if Present(pte) then Some(BitOr(Target(pte), va % PAGE_SIZE)) else None
  }

  // ----- Address spaces

  datatype Space = Space(root: nat, partition: nat, pagesUsed: nat, caps: seq<Cap>)

  datatype World = World(mem: Memory, alloc: Alloc.State)

  /** A zeroed table page of the space's colour, or 0. */
  function AllocTable(w: World, s: Space): (World, Space, nat) {
    if |s.caps| >= MAX_TABLES || s.pagesUsed >= MAX_TABLES then (w, s, 0)
    else
      var (a, e, c) := Alloc.AllocFrame(w.alloc, s.partition, PAGE_SIZE);
      if e != Ok then (w.(alloc := a), s, 0)
      else
        (World(w.mem[c.hw.base := ZeroTable()], a), s.(caps := s.caps + [c], pagesUsed := s.pagesUsed + 1), c.hw.base)
  }

  /** Makes entry `i` of table `t` present, hanging a new table there if need be. */
  function Grow(w: World, s: Space, t: nat, i: nat): (World, Space, bool)
    requires i < ENTRIES
  {
    if Present(T(w.mem, t)[i]) then (w, s, true)
    else
      var (w', s', n) := AllocTable(w, s);
      if n == 0 then (w', s', false)
      else (w'.(mem := Write(w'.mem, t, i, PteEncode(n / PAGE_SIZE, PTE_V))), s', true)
  }

  function MapPage(w: World, s: Space, v: nat, pa: nat, flags: nat): (World, Space, Error) {
    var (w1, s1, ok1) := Grow(w, s, s.root, I2(v));
    if !ok1 then (w1, s1, NoMem)
    else
      var l1 := Target(T(w1.mem, s.root)[I2(v)]);
      var (w2, s2, ok2) := Grow(w1, s1, l1, I1(v));
      if !ok2 then (w2, s2, NoMem)
      else
        var l0 := Target(T(w2.mem, l1)[I1(v)]);
        if Present(T(w2.mem, l0)[I0(v)]) then (w2, s2, InvalidArg)
        else (w2.(mem := Write(w2.mem, l0, I0(v), PteEncode(pa / PAGE_SIZE, flags))), s2, Ok)
  }

  /** Maps up to `n` pages; the last component counts the pages mapped. */
  function MapPages(w: World, s: Space, va: nat, pa: nat, n: nat, flags: nat): (World, Space, Error, nat)
    decreases n
  {
    if n == 0 then (w, s, Ok, 0)
    else
      var (w1, s1, e) := MapPage(w, s, Vpn(va), pa, flags);
      if e != Ok then (w1, s1, e, 0)
      else
        var (w2, s2, e2, k) := MapPages(w1, s1, (va + PAGE_SIZE) % WORD, (pa + PAGE_SIZE) % WORD, n - 1, flags);
        (w2, s2, e2, k + 1)
  }

  function UnmapPage(mem: Memory, root: nat, v: nat): Memory {
    var e2 := T(mem, root)[I2(v)];
    if !Present(e2) then mem
    else
      var e1 := T(mem, Target(e2))[I1(v)];
      if !Present(e1) then mem else Write(mem, Target(e1), I0(v), 0)
  }

  function UnmapPages(mem: Memory, root: nat, va: nat, n: nat): Memory
    decreases n
  {
    if n == 0 then mem
    else UnmapPages(UnmapPage(mem, root, Vpn(va)), root, (va + PAGE_SIZE) % WORD, n - 1)
  }

  /**
    Leaf flags: V, A and D always, R W X as asked, U outside partition 0. The bits are distinct, so or-ing is adding.
   */
  function Flags(partition: nat, perms: nat): (f: nat)
    ensures f % 2 == 1 && f < 1024
  {
    PTE_V + PTE_A + PTE_D
    + (if perms % 2 == 1 then PTE_R else 0)
    + (if perms / 2 % 2 == 1 then PTE_W else 0)
    + (if perms / 4 % 2 == 1 then PTE_X else 0)
    + (if partition != 0 then PTE_U else 0)
  }

  /** The argument checks of vspace_map, in order. */
  function MapCheck(s: Space, va: nat, pa: nat, size: nat, color: nat): Error {
    if s.root == 0 then InvalidArg else RangeCheck(va, pa, size, color)
  }

  function RangeCheck(va: nat, pa: nat, size: nat, color: nat): Error {
    if va % PAGE_SIZE != 0 || pa % PAGE_SIZE != 0 || size % PAGE_SIZE != 0 then InvalidArg
    else if color % 2 != 0 then InvalidArg
    else if va / PAGE_SIZE % 16 != color && color != 0 then PartitionDenied
    else Ok
  }

  function Map(w: World, s: Space, va: nat, pa: nat, size: nat, perms: nat, color: nat): (World, Space, Error, nat) {
    var c := MapCheck(s, va, pa, size, color);
    if c != Ok then (w, s, c, 0)
    else MapPages(w, s, va, pa, size / PAGE_SIZE, Flags(s.partition, perms))
  }

  function Unmap(w: World, s: Space, va: nat, size: nat): (World, Error) {
    if s.root == 0 || va % PAGE_SIZE != 0 || size % PAGE_SIZE != 0 then (w, InvalidArg)
    else (w.(mem := UnmapPages(w.mem, s.root, va, size / PAGE_SIZE)), Ok)
  }

  /** vspace_init_with_alloc. */
  function NewSpace(w: World, partition: nat): (World, Space, Error) {
    var (w', s, n) := AllocTable(w, Space(0, partition, 0, []));
    (w', s.(root := n), if n == 0 then NoMem else Ok)
  }

  // ----- The shape of a well-formed table tree

  datatype Pos = Root | Mid(i: nat) | Bottom(i: nat, j: nat)

  /** Where each table page of one space hangs. */
  type Shape = map<nat, Pos>

  /** A pure pointer entry: V set, R W X U A D clear, naming the table at `pos`. */
  ghost predicate PointsTo(pte: nat, shape: Shape, pos: Pos) {
    Target(pte) in shape && shape[Target(pte)] == pos && pte == Target(pte) / PAGE_SIZE * 1024 + PTE_V
  }

  ghost predicate Names(mem: Memory, t: nat, i: nat, a: nat) {
    i < ENTRIES && Present(T(mem, t)[i]) && Target(T(mem, t)[i]) == a
  }

  /** Table `a` hangs from the parent entry its position says. */
  ghost predicate Hangs(mem: Memory, root: nat, pos: Pos, a: nat) {
    match pos
    case Root => a == root
    case Mid(i) => Names(mem, root, i, a)
    case Bottom(i, j) => i < ENTRIES && Present(T(mem, root)[i]) && Names(mem, Target(T(mem, root)[i]), j, a)
  }

  ghost predicate RootPoints(mem: Memory, root: nat, shape: Shape) {
    forall i: nat :: i < ENTRIES && Present(T(mem, root)[i]) ==> PointsTo(T(mem, root)[i], shape, Mid(i))
  }

  ghost predicate MidPoints(mem: Memory, shape: Shape) {
    forall a, j: nat :: a in shape && shape[a].Mid? && j < ENTRIES && Present(T(mem, a)[j]) ==>
      PointsTo(T(mem, a)[j], shape, Bottom(shape[a].i, j))
  }

  /** Every table page of the space hangs from exactly one entry, and every upper entry names a table of the space. */
  ghost predicate TreeInv(mem: Memory, root: nat, shape: Shape) {
    && root in shape && shape[root] == Root
    && (forall a :: a in shape ==> a % PAGE_SIZE == 0 && 0 < a < WORD)
    && (forall a :: a in shape ==> Hangs(mem, root, shape[a], a))
    && RootPoints(mem, root, shape)
    && MidPoints(mem, shape)
  }

  /** A walk only meets tables of the space, each at the expected position. */
  lemma WalkStays(mem: Memory, root: nat, shape: Shape, v: nat)
    requires TreeInv(mem, root, shape) && Present(T(mem, root)[I2(v)])
    ensures var a := Target(T(mem, root)[I2(v)]);
            && a in shape && shape[a] == Mid(I2(v))
            && (Present(T(mem, a)[I1(v)]) ==>
                  var b := Target(T(mem, a)[I1(v)]); b in shape && shape[b] == Bottom(I2(v), I1(v)))
  {
  }

  /** The tables of a space determine its walks: nothing outside its shape matters. */
  lemma WalkFrame(mem: Memory, mem': Memory, root: nat, shape: Shape)
    requires TreeInv(mem, root, shape) && forall a :: a in shape ==> T(mem', a) == T(mem, a)
    ensures TreeInv(mem', root, shape)
    ensures forall v: nat :: Walk(mem', root, v) == Walk(mem, root, v)
  {
    forall v: nat
      ensures Walk(mem', root, v) == Walk(mem, root, v)
    {
      if Present(T(mem, root)[I2(v)]) {
        WalkStays(mem, root, shape, v);
      }
    }
    forall a | a in shape
      ensures Hangs(mem', root, shape[a], a)
    {
      assert Hangs(mem, root, shape[a], a);
    }
  }

  /** Writing a bottom entry changes the walk of its own page and of no other. */
  lemma WriteBottom(mem: Memory, root: nat, shape: Shape, v: nat, b: nat, pte: nat)
    requires TreeInv(mem, root, shape) && v < PAGES
    requires b in shape && shape[b] == Bottom(I2(v), I1(v))
    ensures TreeInv(Write(mem, b, I0(v), pte), root, shape)
    ensures forall u: nat :: u < PAGES ==>
              Walk(Write(mem, b, I0(v), pte), root, u) == if u == v then pte else Walk(mem, root, u)
  {
    hide Target, Present, I2, I1, I0;
    var mem' := Write(mem, b, I0(v), pte);
    assert Hangs(mem, root, shape[b], b);
    forall a | a in shape && a != b
      ensures T(mem', a) == T(mem, a)
    {
    }
    forall u: nat | u < PAGES
      ensures Walk(mem', root, u) == if u == v then pte else Walk(mem, root, u)
    {
      if Present(T(mem, root)[I2(u)]) {
        WalkStays(mem, root, shape, u);
      }
      if u != v && I2(u) == I2(v) && I1(u) == I1(v) && I0(u) == I0(v) {
        VpnIsItsFields(u, v);
      }
    }
    forall a | a in shape
      ensures Hangs(mem', root, shape[a], a)
    {
      assert Hangs(mem, root, shape[a], a);
    }
  }

  /** Hanging a zeroed table from an absent upper entry keeps the tree and changes no walk. */
  lemma HangTable(mem: Memory, root: nat, shape: Shape, t: nat, i: nat, n: nat)
    requires TreeInv(mem, root, shape) && t in shape && !shape[t].Bottom?
    requires i < ENTRIES && !Present(T(mem, t)[i])
    requires n !in shape && n % PAGE_SIZE == 0 && 0 < n < WORD
    ensures var mem' := Write(mem[n := ZeroTable()], t, i, PteEncode(n / PAGE_SIZE, PTE_V));
            var pos := if shape[t].Root? then Mid(i) else Bottom(shape[t].i, i);
            && TreeInv(mem', root, shape[n := pos])
            && Names(mem', t, i, n)
            && (forall v: nat :: Walk(mem', root, v) == Walk(mem, root, v))
  {
    var pte := PteEncode(n / PAGE_SIZE, PTE_V);
    TargetRoundTrip(n, PTE_V);
    var mem' := Write(mem[n := ZeroTable()], t, i, pte);
    assert forall a, j: nat :: a in shape && j < ENTRIES && (a != t || j != i) ==> T(mem', a)[j] == T(mem, a)[j];
    HangWalks(mem, mem', root, shape, t, i, n);
    HangTree(mem, mem', root, shape, t, i, n);
  }

  lemma ZeroIsAbsent()
    ensures !Present(0)
  {
  }

  lemma HangTree(mem: Memory, mem': Memory, root: nat, shape: Shape, t: nat, i: nat, n: nat)
    requires TreeInv(mem, root, shape) && t in shape && !shape[t].Bottom?
    requires i < ENTRIES && !Present(T(mem, t)[i])
    requires n !in shape && n % PAGE_SIZE == 0 && 0 < n < WORD
    requires T(mem', n) == ZeroTable()
    requires forall a, j: nat :: a in shape && j < ENTRIES && (a != t || j != i) ==> T(mem', a)[j] == T(mem, a)[j]
    requires Names(mem', t, i, n) && T(mem', t)[i] == n / PAGE_SIZE * 1024 + PTE_V
    ensures TreeInv(mem', root, shape[n := if shape[t].Root? then Mid(i) else Bottom(shape[t].i, i)])
  {
    ZeroIsAbsent();
    hide Target, Present;
    var shape' := shape[n := if shape[t].Root? then Mid(i) else Bottom(shape[t].i, i)];
    assert Hangs(mem, root, shape[t], t);
    forall a | a in shape'
      ensures Hangs(mem', root, shape'[a], a)
    {
      if a != n {
        assert Hangs(mem, root, shape[a], a);
      }
    }
    forall a, j: nat | a in shape' && shape'[a].Mid? && j < ENTRIES && Present(T(mem', a)[j])
      ensures PointsTo(T(mem', a)[j], shape', Bottom(shape'[a].i, j))
    {
      if a != n && (a != t || j != i) {
        assert PointsTo(T(mem, a)[j], shape, Bottom(shape[a].i, j));
      }
    }
    forall j: nat | j < ENTRIES && Present(T(mem', root)[j])
      ensures PointsTo(T(mem', root)[j], shape', Mid(j))
    {
      if root != t || j != i {
        assert PointsTo(T(mem, root)[j], shape, Mid(j));
      }
    }
  }

  lemma HangWalks(mem: Memory, mem': Memory, root: nat, shape: Shape, t: nat, i: nat, n: nat)
    requires TreeInv(mem, root, shape) && t in shape && !shape[t].Bottom?
    requires i < ENTRIES && !Present(T(mem, t)[i]) && n !in shape
    requires T(mem', n) == ZeroTable()
    requires forall a, j: nat :: a in shape && j < ENTRIES && (a != t || j != i) ==> T(mem', a)[j] == T(mem, a)[j]
    requires Target(T(mem', t)[i]) == n
    ensures forall v: nat :: Walk(mem', root, v) == Walk(mem, root, v)
  {
    assert Hangs(mem, root, shape[t], t);
    forall v: nat
      ensures Walk(mem', root, v) == Walk(mem, root, v)
    {
      if Present(T(mem, root)[I2(v)]) {
        WalkStays(mem, root, shape, v);
      }
    }
  }

  // ----- Growing and mapping

  /** Page-aligned, inside a pool that leaves a round of colours below 2^64: no table page can wrap. */
  ghost predicate AllocOk(a: Alloc.State) {
    a.next % PAGE_SIZE == 0 && a.next <= a.top && a.top + 16 * PAGE_SIZE < WORD
  }

  lemma PageNeverWraps(a: Alloc.State, partition: nat)
    requires AllocOk(a) && partition < 8
    ensures Alloc.NoWrap(a, partition, PAGE_SIZE)
  {
    Alloc.PlaceBound(a.next, Alloc.PartitionColor(partition));
  }

  ghost predicate Below(shape: Shape, next: nat) {
    forall a :: a in shape ==> a + PAGE_SIZE <= next
  }

  ghost function Bases(caps: seq<Cap>): set<nat> {
    set i | 0 <= i < |caps| :: caps[i].hw.base
  }

  /** The tables are exactly the frames of the space's capabilities, at most 64, all of its partition's colour. */
  ghost predicate Backed(s: Space, shape: Shape) {
    && shape.Keys == Bases(s.caps)
    && |s.caps| == s.pagesUsed <= MAX_TABLES
    && forall a :: a in shape ==> Alloc.ColorOf(a) == Alloc.PartitionColor(s.partition)
  }

  /** One space is well formed, its tables are backed, and they all lie below the bump pointer. */
  ghost predicate SpaceInv(w: World, s: Space, shape: Shape) {
    TreeInv(w.mem, s.root, shape) && Backed(s, shape) && Below(shape, w.alloc.next) && AllocOk(w.alloc)
  }

  /** From `w` to `w'` the space only gained fresh tables, and no table of anybody else was written. */
  ghost predicate Extends(w: World, shape: Shape, w': World, shape': Shape) {
    && (forall a :: a in shape ==> a in shape' && shape'[a] == shape[a])
    && (forall a :: a in shape' && a !in shape ==> w.alloc.next <= a)
    && (forall a :: a !in shape' ==> T(w'.mem, a) == T(w.mem, a))
    && w.alloc.next <= w'.alloc.next && w'.alloc.top == w.alloc.top
  }

  lemma AllocTableEffect(w: World, s: Space)
    requires AllocOk(w.alloc) && w.alloc.next > 0
    ensures var (w', s', n) := AllocTable(w, s);
            && s'.root == s.root && s'.partition == s.partition && AllocOk(w'.alloc) && w'.alloc.top == w.alloc.top
            && (n == 0 ==> w' == w && s' == s)
            && (n != 0 ==> w.alloc.next <= n && n + PAGE_SIZE == w'.alloc.next && n % PAGE_SIZE == 0 && n < WORD
                           && w'.mem == w.mem[n := ZeroTable()])
  {
    Alloc.AllocEffect(w.alloc, s.partition, PAGE_SIZE);
    if s.partition < 8 {
      PageNeverWraps(w.alloc, s.partition);
    }
    hide Alloc.AllocFrame, Alloc.ColorOf, Alloc.PartitionColor, Alloc.NoWrap;
  }

  /** A new table is backed by a new capability of the right colour. */
  lemma AllocTableBacks(w: World, s: Space, shape: Shape, pos: Pos)
    requires Backed(s, shape)
    ensures var (w', s', n) := AllocTable(w, s); n != 0 ==> Backed(s', shape[n := pos])
  {
    Alloc.AllocEffect(w.alloc, s.partition, PAGE_SIZE);
    hide Alloc.AllocFrame, Alloc.ColorOf, Alloc.PartitionColor;
    var (a, e, c) := Alloc.AllocFrame(w.alloc, s.partition, PAGE_SIZE);
    BasesAppend(s.caps, c);
  }

  lemma BasesAppend(caps: seq<Cap>, c: Cap)
    ensures Bases(caps + [c]) == Bases(caps) + {c.hw.base}
  {
    var all := caps + [c];
    assert all[|caps|] == c;
    assert forall i :: 0 <= i < |caps| ==> all[i] == caps[i];
  }

  lemma GrowEffect(w: World, s: Space, shape: Shape, t: nat, i: nat) returns (shape': Shape)
    requires SpaceInv(w, s, shape) && t in shape && !shape[t].Bottom? && i < ENTRIES
    ensures var (w', s', ok) := Grow(w, s, t, i);
            && s'.root == s.root && s'.partition == s.partition
            && SpaceInv(w', s', shape') && Extends(w, shape, w', shape')
            && (ok ==> Present(T(w'.mem, t)[i]))
            && (!ok ==> !Present(T(w.mem, t)[i]))
            && (forall v: nat :: Walk(w'.mem, s.root, v) == Walk(w.mem, s.root, v))
  {
    shape' := shape;
    hide Backed;
    if Present(T(w.mem, t)[i]) {
      hide TreeInv;
      NothingExtends(w, shape);
    } else {
      assert s.root + PAGE_SIZE <= w.alloc.next;
      AllocTableEffect(w, s);
      var pos := if shape[t].Root? then Mid(i) else Bottom(shape[t].i, i);
      AllocTableBacks(w, s, shape, pos);
      hide AllocTable, TreeInv, PteEncode, Present, Extends;
      NothingExtends(w, shape);
      var (w1, s1, n) := AllocTable(w, s);
      if n != 0 {
        assert n !in shape;
        shape' := shape[n := pos];
        HangTable(w.mem, s.root, shape, t, i, n);
        FreshExtends(w, shape, w1, t, i, n, pos, PteEncode(n / PAGE_SIZE, PTE_V));
      }
    }
  }

  lemma NothingExtends(w: World, shape: Shape)
    ensures Extends(w, shape, w, shape)
  {
  }

  lemma FreshExtends(w: World, shape: Shape, w1: World, t: nat, i: nat, n: nat, pos: Pos, pte: nat)
    requires t in shape && i < ENTRIES && n !in shape && w.alloc.next <= n && w1.mem == w.mem[n := ZeroTable()]
    requires w.alloc.next <= w1.alloc.next && w1.alloc.top == w.alloc.top
    ensures Extends(w, shape, w1.(mem := Write(w1.mem, t, i, pte)), shape[n := pos])
  {
  }

  lemma ExtendsTransitive(w: World, sh: Shape, w1: World, sh1: Shape, w2: World, sh2: Shape)
    requires Extends(w, sh, w1, sh1) && Extends(w1, sh1, w2, sh2)
    ensures Extends(w, sh, w2, sh2)
  {
    forall a | a !in sh2
      ensures T(w2.mem, a) == T(w.mem, a)
    {
      assert a !in sh1;
    }
  }

  /** Mapping one page: what becomes of every walk of the space. */
  lemma MapPageEffect(w: World, s: Space, shape: Shape, v: nat, pa: nat, flags: nat) returns (shape': Shape)
    requires SpaceInv(w, s, shape) && v < PAGES
    ensures var (w', s', e) := MapPage(w, s, v, pa, flags);
            && s'.root == s.root && s'.partition == s.partition
            && SpaceInv(w', s', shape') && Extends(w, shape, w', shape')
            && (e == Ok || e == NoMem || e == InvalidArg)
            && (e == InvalidArg <==> Present(Walk(w.mem, s.root, v)))
            && (forall u: nat :: u < PAGES ==>
                  Walk(w'.mem, s.root, u) ==
                  if e == Ok && u == v then PteEncode(pa / PAGE_SIZE, flags) else Walk(w.mem, s.root, u))
  {
    hide Backed;
    var sh1 := GrowEffect(w, s, shape, s.root, I2(v));
    var (w1, s1, ok1) := Grow(w, s, s.root, I2(v));
    shape' := sh1;
    if ok1 {
      WalkStays(w1.mem, s.root, sh1, v);
      var l1 := Target(T(w1.mem, s.root)[I2(v)]);
      var sh2 := GrowEffect(w1, s1, sh1, l1, I1(v));
      var (w2, s2, ok2) := Grow(w1, s1, l1, I1(v));
      shape' := sh2;
      ExtendsTransitive(w, shape, w1, sh1, w2, sh2);
      if ok2 {
        FinishPage(w1, s1, sh1, w2, s2, sh2, v, pa, flags);
        var w3 := MapPage(w, s, v, pa, flags).0;
        ExtendsTransitive(w, shape, w2, sh2, w3, sh2);
      }
    }
  }

  /** The last step of mapping a page, once both upper levels are there. */
  lemma FinishPage(w1: World, s1: Space, sh1: Shape, w2: World, s2: Space, sh2: Shape, v: nat, pa: nat, flags: nat)
    requires SpaceInv(w1, s1, sh1) && SpaceInv(w2, s2, sh2) && Extends(w1, sh1, w2, sh2) && s1.root == s2.root
    requires v < PAGES && Present(T(w1.mem, s1.root)[I2(v)])
    requires var l1 := Target(T(w1.mem, s1.root)[I2(v)]);
             l1 in sh1 && sh1[l1] == Mid(I2(v)) && Present(T(w2.mem, l1)[I1(v)])
    ensures var l1 := Target(T(w1.mem, s1.root)[I2(v)]);
            var l0 := Target(T(w2.mem, l1)[I1(v)]);
            var w3 := w2.(mem := Write(w2.mem, l0, I0(v), PteEncode(pa / PAGE_SIZE, flags)));
            && Walk(w2.mem, s1.root, v) == T(w2.mem, l0)[I0(v)]
            && SpaceInv(w3, s2, sh2) && Extends(w2, sh2, w3, sh2)
            && (forall u: nat :: u < PAGES ==>
                  Walk(w3.mem, s1.root, u) ==
                  if u == v then PteEncode(pa / PAGE_SIZE, flags) else Walk(w2.mem, s1.root, u))
  {
    hide Target, Present, I2, I1, I0, PteEncode, Backed;
    var l1 := Target(T(w1.mem, s1.root)[I2(v)]);
    assert Hangs(w2.mem, s2.root, sh2[l1], l1);
    WalkStays(w2.mem, s2.root, sh2, v);
    WriteBottom(w2.mem, s2.root, sh2, v, Target(T(w2.mem, l1)[I1(v)]), PteEncode(pa / PAGE_SIZE, flags));
  }
}
