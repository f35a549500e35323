/**
  When mapping runs out of table pages (kernel/src/vspace.c over kernel/src/alloc.c): exactly when no more can be had.
 */
module TableSupply {
  import opened Kernel
  import Alloc
  import opened PageTable
  import opened FlatMap

  /** Pages of one colour come round every sixteen pages. */
  const STRIDE: nat := 16 * PAGE_SIZE

  /** Single-page frames the allocator can still hand to a partition. */
  function FramesLeft(a: Alloc.State, partition: nat): nat {
    if partition >= 8 then 0
    else
      var p := Alloc.Place(a.next, Alloc.PartitionColor(partition));
      if p + PAGE_SIZE > a.top then 0 else (a.top - p - PAGE_SIZE) / STRIDE + 1
  }

  /** Table pages the space can still get: it may hold 64, and the allocator must have room. */
  function TablesLeft(w: World, s: Space): nat {
    var quota := if |s.caps| < MAX_TABLES then MAX_TABLES - |s.caps| else 0;
    var frames := FramesLeft(w.alloc, s.partition);
    if quota <= frames then quota else frames
  }

  /** Table pages missing on the way to page `v`. */
  function Missing(mem: Memory, root: nat, v: nat): nat {
    var e2 := T(mem, root)[I2(v)];
    if !Present(e2) then 2 else if !Present(T(mem, Target(e2))[I1(v)]) then 1 else 0
  }

  /** From just past a page of the colour, the next one of the colour is sixteen pages after it. */
  lemma NextOfColor(p: nat, color: nat)
    requires color < Alloc.NUM_COLORS && Alloc.ColorOf(p) == color
    ensures Alloc.Place(p + PAGE_SIZE, color) == p + STRIDE
  {
    Alloc.ColorStep(p, 1);
    hide Alloc.ColorOf;
    assert Alloc.ColorOf(p + PAGE_SIZE) == (color + 1) % 16;
    assert Alloc.Skip(p + PAGE_SIZE, color) == 15;
  }

  /** Each frame granted uses up exactly one, and a grant is refused exactly when none is left. */
  lemma FramesLeftCounts(a: Alloc.State, partition: nat)
    requires partition < 8 ==> Alloc.NoWrap(a, partition, PAGE_SIZE)
    ensures var (a', e, _) := Alloc.AllocFrame(a, partition, PAGE_SIZE);
            && (e == Ok <==> FramesLeft(a, partition) > 0)
            && (e == Ok ==> FramesLeft(a', partition) == FramesLeft(a, partition) - 1)
  {
    if partition < 8 {
      var color := Alloc.PartitionColor(partition);
      Alloc.PlaceIsFirst(a.next, color);
      var p := Alloc.Place(a.next, color);
      NextOfColor(p, color);
      Alloc.PlainGrant(a, partition, PAGE_SIZE);
      hide Alloc.AllocFrame, Alloc.Place, Alloc.PartitionColor, Alloc.NoWrap;
      if p + PAGE_SIZE <= a.top {
        CountDown(a.top, p);
      }
    }
  }

  lemma CountDown(top: nat, p: nat)
    requires p + PAGE_SIZE <= top
    ensures (top - p - PAGE_SIZE) / STRIDE ==
            if p + STRIDE + PAGE_SIZE > top then 0 else (top - p - STRIDE - PAGE_SIZE) / STRIDE + 1
  {
  }

  lemma TableCounts(w: World, s: Space)
    requires |s.caps| == s.pagesUsed && AllocOk(w.alloc) && w.alloc.next > 0
    ensures var (w', s', n) := AllocTable(w, s);
            && (n == 0 <==> TablesLeft(w, s) == 0)
            && TablesLeft(w', s') == (if n == 0 then 0 else TablesLeft(w, s) - 1)
            && |s'.caps| == s'.pagesUsed
  {
    if s.partition < 8 {
      PageNeverWraps(w.alloc, s.partition);
    }
    FramesLeftCounts(w.alloc, s.partition);
    Alloc.AllocEffect(w.alloc, s.partition, PAGE_SIZE);
    hide Alloc.AllocFrame, Alloc.ColorOf, Alloc.PartitionColor, FramesLeft;
  }

  lemma GrowCounts(w: World, s: Space, t: nat, i: nat)
    requires |s.caps| == s.pagesUsed && AllocOk(w.alloc) && w.alloc.next > 0 && i < ENTRIES
    ensures var (w', s', ok) := Grow(w, s, t, i);
            var need := if Present(T(w.mem, t)[i]) then 0 else 1;
            && (ok <==> need <= TablesLeft(w, s))
            && (ok ==> TablesLeft(w', s') == TablesLeft(w, s) - need)
            && (!ok ==> w'.mem == w.mem && TablesLeft(w', s') == 0)
            && (need == 0 ==> w' == w && s' == s)
            && s'.root == s.root
  {
    TableCounts(w, s);
    AllocTableEffect(w, s);
    hide AllocTable, FramesLeft;
  }

  /** A table just hung is empty. */
  lemma GrownIsEmpty(w: World, s: Space, shape: Shape, t: nat, i: nat)
    requires SpaceInv(w, s, shape) && t in shape && i < ENTRIES && !Present(T(w.mem, t)[i]) && Grow(w, s, t, i).2
    ensures var mem' := Grow(w, s, t, i).0.mem;
            Present(T(mem', t)[i]) && T(mem', Target(T(mem', t)[i])) == ZeroTable()
  {
    AllocTableEffect(w, s);
    var n := AllocTable(w, s).2;
    hide AllocTable;
    TargetRoundTrip(n, PTE_V);
    hide PteEncode, Target;
    assert t + PAGE_SIZE <= w.alloc.next;
  }

  lemma SupplyOk(w: World, s: Space, shape: Shape)
    requires SpaceInv(w, s, shape)
    ensures |s.caps| == s.pagesUsed && AllocOk(w.alloc) && w.alloc.next > 0
    ensures s.root in shape && shape[s.root] == Root
  {
    assert s.root + PAGE_SIZE <= w.alloc.next;
  }

  /** Mapping a page fails for memory exactly when it needs more new tables than can be had, and then none is left. */
  lemma NoMemIsExact(w: World, s: Space, shape: Shape, v: nat, pa: nat, flags: nat)
    requires SpaceInv(w, s, shape) && v < PAGES
    ensures var (w', s', e) := MapPage(w, s, v, pa, flags);
            && (e == NoMem <==> TablesLeft(w, s) < Missing(w.mem, s.root, v))
            && TablesLeft(w', s') == (if e == NoMem then 0 else TablesLeft(w, s) - Missing(w.mem, s.root, v))
  {
    hide SpaceInv, Grow, Extends, Walk, FramesLeft, AllocOk;
    SupplyOk(w, s, shape);
    GrowCounts(w, s, s.root, I2(v));
    var (w1, s1, ok1) := Grow(w, s, s.root, I2(v));
    var sh1 := GrowEffect(w, s, shape, s.root, I2(v));
    if ok1 {
      if !Present(T(w.mem, s.root)[I2(v)]) {
        GrownIsEmpty(w, s, shape, s.root, I2(v));
      }
      SupplyOk(w1, s1, sh1);
      var l1 := Target(T(w1.mem, s.root)[I2(v)]);
      GrowCounts(w1, s1, l1, I1(v));
      ZeroIsAbsent();
    }
    hide Target, I2, I1, I0, T;
  }

  /** A space is created exactly when a frame for its root can be had, at an address other than 0. */
  lemma NewIsExact(w: World, partition: nat)
    requires partition < 8 ==> Alloc.NoWrap(w.alloc, partition, PAGE_SIZE)
    ensures var (w', s, e) := NewSpace(w, partition);
            var place := if partition < 8 then Alloc.Place(w.alloc.next, 2 * partition) else 0;
            && (e == Ok <==> FramesLeft(w.alloc, partition) > 0 && place != 0)
            && (e == Ok || e == NoMem)
            && (e == Ok ==> s.root == place && s.partition == partition && s.pagesUsed == 1 && |s.caps| == 1
                            && s.caps[0].hw.base == place)
  {
    FramesLeftCounts(w.alloc, partition);
    var (a', e, c) := Alloc.AllocFrame(w.alloc, partition, PAGE_SIZE);
    if partition < 8 {
      Alloc.ColorsOfPartition(partition, 0);
      assert e == Ok ==> c.hw.base == Alloc.Place(w.alloc.next, 2 * partition) by {
        SmallWord(Alloc.Place(w.alloc.next, 2 * partition));
      }
    }
    hide Alloc.AllocFrame, Alloc.Place, FramesLeft;
  }

  /** A request that stops for memory leaves the space unable to get another table page. */
  lemma {:induction false} MapStopsOnlyWhenEmpty(w: World, s: Space, shape: Shape, va: nat, pa: nat, n: nat, flags: nat)
    requires SpaceInv(w, s, shape)
    ensures var (w', s', e, _) := MapPages(w, s, va, pa, n, flags); e == NoMem ==> TablesLeft(w', s') == 0
    decreases n
  {
    hide MapPage, SpaceInv, Extends, TablesLeft, Missing, Leaves, Vpn;
    if n > 0 {
      NoMemIsExact(w, s, shape, Vpn(va), pa, flags);
      var sh1 := MapPageLeaves(w, s, shape, Vpn(va), pa, flags);
      var (w1, s1, e1) := MapPage(w, s, Vpn(va), pa, flags);
      if e1 == Ok {
        MapStopsOnlyWhenEmpty(w1, s1, sh1, (va + PAGE_SIZE) % WORD, (pa + PAGE_SIZE) % WORD, n - 1, flags);
      }
    }
  }
}
