/**
  The three-level tables of kernel/src/vspace.c refine a flat map from virtual pages to frames:
  one space at a time, and over whole runs of spaces that share one allocator.
 */
module FlatMap {
  import opened Kernel
  import opened PageTable

  /** What a page is mapped to. */
  datatype Mapping = Mapping(pa: nat, flags: nat)

  type Flat = map<nat, Mapping>

  function Decode(pte: nat): Mapping {
    Mapping(PtePpn(pte) * PAGE_SIZE, pte % 1024)
  }

  /** The bottom entries of all pages. */
  ghost function Leaves(mem: Memory, root: nat): (s: seq<nat>)
    ensures |s| == PAGES
  {
    seq(PAGES, v requires 0 <= v < PAGES => Walk(mem, root, v))
  }

  ghost function Flatten(leaves: seq<nat>): Flat {
    map v: nat | v < |leaves| && Present(leaves[v]) :: Decode(leaves[v])
  }

  /** The flat map held by the tables below `root`. */
  ghost function FlatOf(mem: Memory, root: nat): Flat {
    Flatten(Leaves(mem, root))
  }

  /** How many pages `u` lies after `v`, wrapping at the top of the 39-bit space. */
  function Index(v: nat, u: nat): nat
    requires v < PAGES && u < PAGES
  {
    if u >= v then u - v else u + PAGES - v
  }

  /** The `n` consecutive pages from `v`. */
  ghost function PageRange(v: nat, n: nat): set<nat>
    requires v < PAGES
  {
    set u: nat | u < PAGES && Index(v, u) < n
  }

  /** The frame `i` pages after `pa`, as 64-bit arithmetic gives it. */
  function FrameAt(pa: nat, i: nat): nat {
    (pa + PAGE_SIZE * i) % WORD
  }

  /** `k` consecutive pages mapped to consecutive frames. */
  ghost function Pages(v: nat, pa: nat, k: nat, flags: nat): Flat
    requires v < PAGES
  {
    map u: nat | u < PAGES && Index(v, u) < k :: Mapping(FrameAt(pa, Index(v, u)), flags)
  }

  lemma PagesFromFront(v: nat, pa: nat, k: nat, flags: nat)
    requires v < PAGES && pa < WORD && k < PAGES
    ensures Pages(v, pa, k + 1, flags) ==
            Pages((v + 1) % PAGES, (pa + PAGE_SIZE) % WORD, k, flags)[v := Mapping(pa, flags)]
  {
    var whole := Pages(v, pa, k + 1, flags);
    var rest := Pages((v + 1) % PAGES, (pa + PAGE_SIZE) % WORD, k, flags)[v := Mapping(pa, flags)];
    forall u: nat | u < PAGES
      ensures u in whole <==> u in rest
      ensures u in whole ==> whole[u] == rest[u]
    {
      if u != v {
        assert Index(v, u) == Index((v + 1) % PAGES, u) + 1;
        WrapTwice(pa, Index((v + 1) % PAGES, u));
      } else {
        assert Index((v + 1) % PAGES, v) == PAGES - 1;
      }
    }
  }

  lemma WrapTwice(pa: nat, i: nat)
    requires pa < WORD
    ensures FrameAt((pa + PAGE_SIZE) % WORD, i) == FrameAt(pa, i + 1)
  {
    if pa + PAGE_SIZE >= WORD {
      assert (pa + PAGE_SIZE) % WORD == pa + PAGE_SIZE - WORD;
    }
  }

  /** resolve answers exactly what the flat map holds. */
  lemma ResolveIsLookup(mem: Memory, root: nat, va: nat)
    ensures var flat := FlatOf(mem, root);
            Resolve(mem, root, va) ==
            if Vpn(va) in flat then Some(flat[Vpn(va)].pa % WORD + va % PAGE_SIZE) else None
  {
    hide Walk, Vpn, Target, PtePpn, BitOr, Present;
    var v := Vpn(va);
    var pte := Walk(mem, root, v);
    assert Leaves(mem, root)[v] == pte;
    OffsetJoins(pte, va % PAGE_SIZE);
  }

  /** A page address and an offset into the page do not overlap. */
  lemma OffsetJoins(pte: nat, off: nat)
    requires off < PAGE_SIZE
    ensures BitOr(Target(pte), off) == Target(pte) + off
    ensures Target(pte) == Decode(pte).pa % WORD
  {
    hide BitOr;
    var ppn := PtePpn(pte);
    var k := ppn * PAGE_SIZE / WORD;
    var frame := ppn - FRAMES * k;
    assert ppn * PAGE_SIZE == WORD * k + Target(pte);
    assert Target(pte) == frame * PAGE_SIZE;
    assert Pow2(12) == 4096;
    BitOrIsSum(frame, off, 12);
  }

  const FRAMES: nat := 0x10_0000_0000_0000

  lemma WrapPage(x: nat)
    ensures x % WORD / PAGE_SIZE == x / PAGE_SIZE % FRAMES
  {
    var k, r := x / WORD, x % WORD;
    assert x == k * FRAMES * PAGE_SIZE + r;
    assert x / PAGE_SIZE == k * FRAMES + r / PAGE_SIZE;
    assert r / PAGE_SIZE < FRAMES;
  }

  lemma NextPage(va: nat)
    ensures Vpn((va + PAGE_SIZE) % WORD) == (Vpn(va) + 1) % PAGES
  {
    WrapPage(va + PAGE_SIZE);
    var q := va / PAGE_SIZE;
    assert (va + PAGE_SIZE) / PAGE_SIZE == q + 1;
    ModOfMod(q + 1);
    StepMod(q, 1);
  }

  lemma NextFrame(pa: nat)
    requires pa % PAGE_SIZE == 0 && pa < WORD
    ensures (pa + PAGE_SIZE) % WORD % PAGE_SIZE == 0
  {
    if pa + PAGE_SIZE >= WORD {
      assert (pa + PAGE_SIZE) % WORD == pa + PAGE_SIZE - WORD;
    }
  }

  lemma StepMod(v: nat, k: nat)
    ensures (v % PAGES + k) % PAGES == (v + k) % PAGES
  {
    AddMultiple(v % PAGES + k, v / PAGES);
    assert v % PAGES + k + PAGES * (v / PAGES) == v + k;
  }

  lemma ModOfMod(x: nat)
    ensures x % FRAMES % PAGES == x % PAGES
  {
    var k := x / FRAMES;
    AddMultiple(x % FRAMES, 0x200_0000 * k);
  }

  lemma {:induction false} AddMultiple(x: nat, k: nat)
    ensures (x + PAGES * k) % PAGES == x % PAGES
  {
    if k > 0 {
      AddMultiple(x, k - 1);
    }
  }

  // ----- One space

  /** What vspace_map leaves behind: a prefix of the pages asked for, and the reason for stopping. */
  ghost predicate Mapped(flat: Flat, flat': Flat, v: nat, pa: nat, n: nat, flags: nat, e: Error, k: nat)
    requires v < PAGES
  {
    && k <= n && k <= PAGES
    && Pages(v, pa, k, flags).Keys !! flat.Keys
    && flat' == flat + Pages(v, pa, k, flags)
    && (e == Ok || e == NoMem || e == InvalidArg)
    && (e == Ok <==> k == n)
    && (e == InvalidArg ==> (v + k) % PAGES in flat')
    && (e == NoMem ==> (v + k) % PAGES !in flat')
  }

  lemma FlattenSet(leaves: seq<nat>, v: nat, pte: nat)
    requires v < |leaves| && Present(pte)
    ensures Flatten(leaves[v := pte]) == Flatten(leaves)[v := Decode(pte)]
  {
  }

  lemma FlattenDrop(leaves: seq<nat>, v: nat)
    requires v < |leaves|
    ensures Flatten(leaves[v := 0]) == Flatten(leaves) - {v}
  {
  }

  /** Nothing was mapped. */
  lemma MappedNone(flat: Flat, v: nat, pa: nat, n: nat, flags: nat, e: Error)
    requires v < PAGES
    requires if n == 0 then e == Ok else (e == NoMem && v !in flat) || (e == InvalidArg && v in flat)
    ensures Mapped(flat, flat, v, pa, n, flags, e, 0)
  {
    assert Pages(v, pa, 0, flags) == map[];
    assert flat == flat + map[];
  }

  /** Composing the first page with the rest of the request. */
  lemma MappedCons(flat: Flat, flat1: Flat, flat2: Flat, v: nat, pa: nat, n: nat, flags: nat, e: Error, k: nat)
    requires v < PAGES && pa < WORD && v !in flat && flat1 == flat[v := Mapping(pa, flags)]
    requires Mapped(flat1, flat2, (v + 1) % PAGES, (pa + PAGE_SIZE) % WORD, n, flags, e, k)
    ensures Mapped(flat, flat2, v, pa, n + 1, flags, e, k + 1)
  {
    hide Pages, Index;
    var rest := Pages((v + 1) % PAGES, (pa + PAGE_SIZE) % WORD, k, flags);
    assert v in flat1.Keys;
    PagesStopShort(v, (pa + PAGE_SIZE) % WORD, k, flags);
    PagesFromFront(v, pa, k, flags);
    assert flat2 == flat + rest[v := Mapping(pa, flags)];
    StepMod(v + 1, k);
  }

  /** A range starting after `v` that does not come round to `v` has fewer than all pages. */
  lemma PagesStopShort(v: nat, pa: nat, k: nat, flags: nat)
    requires v < PAGES && k <= PAGES && v !in Pages((v + 1) % PAGES, pa, k, flags)
    ensures k < PAGES
  {
    assert Index((v + 1) % PAGES, v) == PAGES - 1;
  }

  /** The space stays well formed, gains only fresh tables, and writes no table of anybody else. */
  ghost predicate SpaceStep(w: World, s: Space, shape: Shape, w': World, s': Space, shape': Shape) {
    s'.root == s.root && s'.partition == s.partition && SpaceInv(w', s', shape') && Extends(w, shape, w', shape')
  }

  lemma MapPageLeaves(w: World, s: Space, shape: Shape, v: nat, pa: nat, flags: nat) returns (shape': Shape)
    requires SpaceInv(w, s, shape) && v < PAGES
    ensures var (w', s', e) := MapPage(w, s, v, pa, flags);
            && SpaceStep(w, s, shape, w', s', shape')
            && (e == Ok || e == NoMem || e == InvalidArg)
            && (e == InvalidArg <==> Present(Leaves(w.mem, s.root)[v]))
            && Leaves(w'.mem, s.root) == if e == Ok then Leaves(w.mem, s.root)[v := PteEncode(pa / PAGE_SIZE, flags)]
                                         else Leaves(w.mem, s.root)
  {
    hide MapPage, SpaceInv, Extends, PteEncode;
    shape' := MapPageEffect(w, s, shape, v, pa, flags);
  }

  lemma MapPageRefines(w: World, s: Space, shape: Shape, v: nat, pa: nat, flags: nat) returns (shape': Shape)
    requires SpaceInv(w, s, shape) && v < PAGES
    requires pa % PAGE_SIZE == 0 && pa < WORD && flags % 2 == 1 && flags < 1024
    ensures var (w', s', e) := MapPage(w, s, v, pa, flags);
            var flat := FlatOf(w.mem, s.root);
            && SpaceStep(w, s, shape, w', s', shape')
            && (e == Ok || e == NoMem || e == InvalidArg)
            && (e == InvalidArg <==> v in flat)
            && FlatOf(w'.mem, s.root) == if e == Ok then flat[v := Mapping(pa, flags)] else flat
  {
    hide MapPage, SpaceStep, Leaves;
    shape' := MapPageLeaves(w, s, shape, v, pa, flags);
    TargetRoundTrip(pa, flags);
    FlattenSet(Leaves(w.mem, s.root), v, PteEncode(pa / PAGE_SIZE, flags));
  }


  lemma {:induction false} MapPagesShape(w: World, s: Space, shape: Shape, va: nat, pa: nat, n: nat, flags: nat)
    returns (shape': Shape)
    requires SpaceInv(w, s, shape)
    ensures var (w', s', _, _) := MapPages(w, s, va, pa, n, flags); SpaceStep(w, s, shape, w', s', shape')
    decreases n
  {
    hide MapPage, Extends, SpaceInv, Leaves, Vpn;
    shape' := shape;
    NothingExtends(w, shape);
    if n > 0 {
      var (w1, s1, e1) := MapPage(w, s, Vpn(va), pa, flags);
      var sh1 := MapPageLeaves(w, s, shape, Vpn(va), pa, flags);
      shape' := sh1;
      if e1 == Ok {
        var va1, pa1 := (va + PAGE_SIZE) % WORD, (pa + PAGE_SIZE) % WORD;
        shape' := MapPagesShape(w1, s1, sh1, va1, pa1, n - 1, flags);
        ExtendsTransitive(w, shape, w1, sh1, MapPages(w1, s1, va1, pa1, n - 1, flags).0, shape');
      }
    }
  }

  lemma {:induction false} MapPagesFlat(w: World, s: Space, shape: Shape, va: nat, pa: nat, n: nat, flags: nat)
    requires SpaceInv(w, s, shape) && pa % PAGE_SIZE == 0 && pa < WORD && flags % 2 == 1 && flags < 1024
    ensures var (w', _, e, k) := MapPages(w, s, va, pa, n, flags);
            Mapped(FlatOf(w.mem, s.root), FlatOf(w'.mem, s.root), Vpn(va), pa, n, flags, e, k)
    decreases n
  {
    hide MapPage, SpaceInv, FlatOf, Extends, Mapped, Pages, Vpn;
    var flat, v := FlatOf(w.mem, s.root), Vpn(va);
    if n == 0 {
      MappedNone(flat, v, pa, n, flags, Ok);
    } else {
      var sh1 := MapPageRefines(w, s, shape, v, pa, flags);
      var (w1, s1, e1) := MapPage(w, s, v, pa, flags);
      if e1 != Ok {
        MappedNone(flat, v, pa, n, flags, e1);
      } else {
        NextPage(va);
        NextFrame(pa);
        var va1, pa1 := (va + PAGE_SIZE) % WORD, (pa + PAGE_SIZE) % WORD;
        MapPagesFlat(w1, s1, sh1, va1, pa1, n - 1, flags);
        var (w2, s2, e2, k) := MapPages(w1, s1, va1, pa1, n - 1, flags);
        MappedCons(flat, FlatOf(w1.mem, s.root), FlatOf(w2.mem, s.root), v, pa, n - 1, flags, e2, k);
      }
    }
  }

  lemma UnmapPageLeaves(mem: Memory, root: nat, shape: Shape, v: nat)
    requires TreeInv(mem, root, shape) && v < PAGES
    ensures var mem' := UnmapPage(mem, root, v);
            && TreeInv(mem', root, shape)
            && (forall a :: a !in shape ==> T(mem', a) == T(mem, a))
            && Leaves(mem', root)[v] == 0
            && (forall u: nat :: u < PAGES && u != v ==> Leaves(mem', root)[u] == Leaves(mem, root)[u])
  {
    if Present(T(mem, root)[I2(v)]) {
      WalkStays(mem, root, shape, v);
      var a := Target(T(mem, root)[I2(v)]);
      if Present(T(mem, a)[I1(v)]) {
        WriteBottom(mem, root, shape, v, Target(T(mem, a)[I1(v)]), 0);
      }
    }
  }

  lemma UnmapPageRefines(w: World, s: Space, shape: Shape, v: nat)
    requires SpaceInv(w, s, shape) && v < PAGES
    ensures var w' := w.(mem := UnmapPage(w.mem, s.root, v));
            && SpaceStep(w, s, shape, w', s, shape)
            && FlatOf(w'.mem, s.root) == FlatOf(w.mem, s.root) - {v}
  {
    UnmapPageLeaves(w.mem, s.root, shape, v);
    FlattenDrop(Leaves(w.mem, s.root), v);
    assert Leaves(UnmapPage(w.mem, s.root, v), s.root) == Leaves(w.mem, s.root)[v := 0];
  }

  /** Unmapping removes exactly its range. */
  lemma {:induction false} UnmapPagesRefines(w: World, s: Space, shape: Shape, va: nat, n: nat)
    requires SpaceInv(w, s, shape)
    ensures var w' := w.(mem := UnmapPages(w.mem, s.root, va, n));
            && SpaceStep(w, s, shape, w', s, shape)
            && FlatOf(w'.mem, s.root) == FlatOf(w.mem, s.root) - PageRange(Vpn(va), n)
    decreases n
  {
    var v := Vpn(va);
    var flat := FlatOf(w.mem, s.root);
    if n == 0 {
      assert PageRange(v, 0) == {} && flat - {} == flat;
    } else {
      UnmapPageRefines(w, s, shape, v);
      var w1 := w.(mem := UnmapPage(w.mem, s.root, v));
      NextPage(va);
      UnmapPagesRefines(w1, s, shape, (va + PAGE_SIZE) % WORD, n - 1);
      RangeFromFront(v, n);
      var w2 := w1.(mem := UnmapPages(w1.mem, s.root, (va + PAGE_SIZE) % WORD, n - 1));
      ExtendsTransitive(w, shape, w1, shape, w2, shape);
      RemoveTwice(flat, v, PageRange((v + 1) % PAGES, n - 1));
    }
  }

  lemma RemoveTwice(flat: Flat, v: nat, rest: set<nat>)
    ensures flat - {v} - rest == flat - ({v} + rest)
  {
  }

  lemma RangeFromFront(v: nat, n: nat)
    requires v < PAGES && n > 0
    ensures PageRange(v, n) == {v} + PageRange((v + 1) % PAGES, n - 1)
  {
    forall u: nat | u < PAGES
      ensures u in PageRange(v, n) <==> u == v || u in PageRange((v + 1) % PAGES, n - 1)
    {
      if u != v {
        assert Index(v, u) == Index((v + 1) % PAGES, u) + 1;
      }
    }
  }
}
