/**
  Address spaces as the kernel keeps them: tables in shared physical memory, updated in place (kernel/src/vspace.c).
 */
module VSpace {
  import opened Kernel
  import opened Alloc
  import opened PageTable
  import opened FlatMap

  class PhysicalMemory {
    var pages: Memory

    constructor ()
      ensures pages == map[]
    {
      pages := map[];
    }
  }

  class AddressSpace {
    var root: nat
    var asid: nat
    var partition: nat
    var pagesUsed: nat
    var caps: seq<Cap>
    const mem: PhysicalMemory
    const alloc: FrameAllocator

    ghost function Value(): Space
      reads this
    {
      Space(root, partition, pagesUsed, caps)
    }

    ghost function Around(): World
      reads this, mem, alloc
    {
      World(mem.pages, alloc.Value())
    }

    constructor (mem: PhysicalMemory, alloc: FrameAllocator)
      ensures this.mem == mem && this.alloc == alloc
    {
      this.mem, this.alloc := mem, alloc;
      root, asid, partition, pagesUsed, caps := 0, 0, 0, 0, [];
    }

    method Init(asid: nat, partition: nat) returns (e: Error)
      modifies this, mem, alloc
      ensures this.asid == asid
      ensures (Around(), Value(), e) == NewSpace(old(Around()), partition)
    {
      this.asid, this.partition, root, pagesUsed, caps := asid, partition, 0, 0, [];
      root := AllocTablePage();
      if root == 0 {
        return NoMem;
      }
      return Ok;
    }

    method AllocTablePage() returns (p: nat)
      modifies this, mem, alloc
      ensures (Around(), Value(), p) == AllocTable(old(Around()), old(Value())) && asid == old(asid)
    {
      if |caps| >= MAX_TABLES {
        return 0;
      }
      if pagesUsed >= MAX_TABLES {
        return 0;
      }
      var e, c := alloc.Allocate(partition, PAGE_SIZE);
      if e != Ok {
        return 0;
      }
      caps := caps + [c];
      pagesUsed := pagesUsed + 1;
      p := c.hw.base;
      mem.pages := mem.pages[p := ZeroTable()];
    }

    method GrowAt(t: nat, i: nat) returns (ok: bool)
      requires i < ENTRIES
      modifies this, mem, alloc
      ensures (Around(), Value(), ok) == Grow(old(Around()), old(Value()), t, i) && asid == old(asid)
    {
      if !Present(T(mem.pages, t)[i]) {
        var n := AllocTablePage();
        if n == 0 {
          return false;
        }
        mem.pages := Write(mem.pages, t, i, PteEncode(n / PAGE_SIZE, PTE_V));
      }
      return true;
    }

    /** One round of the loop of vspace_map. */
    method MapOne(va: nat, pa: nat, flags: nat) returns (e: Error)
      modifies this, mem, alloc
      ensures (Around(), Value(), e) == MapPage(old(Around()), old(Value()), Vpn(va), pa, flags) && asid == old(asid)
    {
      VpnFields(va);
      var vpn2, vpn1, vpn0 := va / 0x4000_0000 % 512, va / 0x20_0000 % 512, va / 0x1000 % 512;
      var l2 := root;
      var ok := GrowAt(l2, vpn2);
      if !ok {
        return NoMem;
      }
      var l1 := Target(T(mem.pages, l2)[vpn2]);
      ok := GrowAt(l1, vpn1);
      if !ok {
        return NoMem;
      }
      var l0 := Target(T(mem.pages, l1)[vpn1]);
      if Present(T(mem.pages, l0)[vpn0]) {
        return InvalidArg;
      }
      mem.pages := Write(mem.pages, l0, vpn0, PteEncode(pa / PAGE_SIZE, flags));
      return Ok;
    }

    /** vspace_map; `done` counts the pages mapped. */
    method MapRange(va: nat, pa: nat, size: nat, perms: nat, color: nat) returns (e: Error, ghost done: nat)
      requires va < WORD && pa < WORD && size < WORD
      modifies this, mem, alloc
      ensures (Around(), Value(), e, done) == Map(old(Around()), old(Value()), va, pa, size, perms, color)
      ensures asid == old(asid)
    {
      if root == 0 || va % PAGE_SIZE != 0 || pa % PAGE_SIZE != 0 || size % PAGE_SIZE != 0 || color % 2 != 0 {
        return InvalidArg, 0;
      }
      if va / PAGE_SIZE % 16 != color && color != 0 {
        return PartitionDenied, 0;
      }
      hide MapPages;
      e, done := MapLoop(va, pa, size, Flags(partition, perms));
    }

    /** The loop of vspace_map. */
    method MapLoop(va: nat, pa: nat, size: nat, flags: nat) returns (e: Error, ghost done: nat)
      requires va < WORD && pa < WORD && size % PAGE_SIZE == 0
      modifies this, mem, alloc
      ensures (Around(), Value(), e, done) == MapPages(old(Around()), old(Value()), va, pa, size / PAGE_SIZE, flags)
      ensures asid == old(asid)
    {
      hide MapPages, MapPage, Vpn;
      ghost var whole := MapPages(Around(), Value(), va, pa, size / PAGE_SIZE, flags);
      var off := 0;
      done := 0;
      while off < size
        invariant off % PAGE_SIZE == 0 && off <= size && done == off / PAGE_SIZE && asid == old(asid)
        invariant Chained(whole, Rest(Around(), Value(), va, pa, off, size, flags), done)
        decreases size - off
      {
        RestUnfold(Around(), Value(), va, pa, off, size, flags);
        e := MapOne((va + off) % WORD, (pa + off) % WORD, flags);
        if e != Ok {
          return;
        }
        off := off + PAGE_SIZE;
        done := done + 1;
      }
      RestDone(Around(), Value(), va, pa, off, size, flags);
      return Ok, done;
    }

    method UnmapRange(va: nat, size: nat) returns (e: Error)
      requires va < WORD && size < WORD
      modifies mem
      ensures (Around(), e) == Unmap(old(Around()), old(Value()), va, size)
    {
      if root == 0 || va % PAGE_SIZE != 0 || size % PAGE_SIZE != 0 {
        return InvalidArg;
      }
      UnmapLoop(va, size);
      return Ok;
    }

    /** The loop of vspace_unmap. */
    method UnmapLoop(va: nat, size: nat)
      requires va < WORD && size % PAGE_SIZE == 0
      modifies mem
      ensures mem.pages == UnmapPages(old(mem.pages), root, va, size / PAGE_SIZE)
    {
      hide UnmapPages, UnmapPage, Vpn;
      var off := 0;
      while off < size
        invariant off % PAGE_SIZE == 0 && off <= size
        invariant UnmapPages(old(mem.pages), root, va, size / PAGE_SIZE) == UnmapRest(mem.pages, root, va, off, size)
        decreases size - off
      {
        UnmapUnfold(mem.pages, root, va, off, size);
        UnmapOne((va + off) % WORD);
        off := off + PAGE_SIZE;
      }
      UnmapDone(mem.pages, root, va, off, size);
    }

    /** One round of the loop of vspace_unmap. */
    method UnmapOne(va: nat)
      modifies mem
      ensures mem.pages == UnmapPage(old(mem.pages), root, Vpn(va))
    {
      VpnFields(va);
      var vpn2, vpn1, vpn0 := va / 0x4000_0000 % 512, va / 0x20_0000 % 512, va / 0x1000 % 512;
      var l2 := root;
      if !Present(T(mem.pages, l2)[vpn2]) {
        return;
      }
      var l1 := Target(T(mem.pages, l2)[vpn2]);
      if !Present(T(mem.pages, l1)[vpn1]) {
        return;
      }
      var l0 := Target(T(mem.pages, l1)[vpn1]);
      mem.pages := Write(mem.pages, l0, vpn0, 0);
    }

    /** Answers what the space's flat map holds. */
    method Lookup(va: nat) returns (pa: Option<nat>)
      ensures root == 0 ==> pa == None
      ensures root != 0 ==>
                var flat := FlatOf(mem.pages, root);
                pa == if Vpn(va) in flat then Some(flat[Vpn(va)].pa % WORD + va % PAGE_SIZE) else None
    {
      if root == 0 {
        return None;
      }
      VpnFields(va);
      ResolveIsLookup(mem.pages, root, va);
      hide FlatOf;
      var vpn2, vpn1, vpn0 := va / 0x4000_0000 % 512, va / 0x20_0000 % 512, va / 0x1000 % 512;
      var l2 := root;
      if !Present(T(mem.pages, l2)[vpn2]) {
        return None;
      }
      var l1 := Target(T(mem.pages, l2)[vpn2]);
      if !Present(T(mem.pages, l1)[vpn1]) {
        return None;
      }
      var l0 := Target(T(mem.pages, l1)[vpn1]);
      if !Present(T(mem.pages, l0)[vpn0]) {
        return None;
      }
      return Some(BitOr(Target(T(mem.pages, l0)[vpn0]), va % PAGE_SIZE));
    }
  }

  /** A run of `done` pages followed by the outcome `rest` has outcome `whole`. */
  ghost predicate Chained(whole: (World, Space, Error, nat), rest: (World, Space, Error, nat), done: nat) {
    whole == (rest.0, rest.1, rest.2, rest.3 + done)
  }

  /** What is left to do from offset `off`. */
  ghost function Rest(w: World, s: Space, va: nat, pa: nat, off: nat, size: nat, flags: nat): (World, Space, Error, nat)
    requires off <= size
  {
    MapPages(w, s, (va + off) % WORD, (pa + off) % WORD, (size - off) / PAGE_SIZE, flags)
  }

  lemma RestDone(w: World, s: Space, va: nat, pa: nat, off: nat, size: nat, flags: nat)
    requires off == size
    ensures Rest(w, s, va, pa, off, size, flags) == (w, s, Ok, 0)
  {
  }

  lemma RestUnfold(w: World, s: Space, va: nat, pa: nat, off: nat, size: nat, flags: nat)
    requires off < size && off % PAGE_SIZE == 0 && size % PAGE_SIZE == 0
    ensures var (w', s', e) := MapPage(w, s, Vpn((va + off) % WORD), (pa + off) % WORD, flags);
            && off + PAGE_SIZE <= size
            && (e != Ok ==> Rest(w, s, va, pa, off, size, flags) == (w', s', e, 0))
            && (e == Ok ==>
                  Chained(Rest(w, s, va, pa, off, size, flags), Rest(w', s', va, pa, off + PAGE_SIZE, size, flags), 1))
  {
    hide MapPage, Vpn;
    AddWrap(va, off);
    AddWrap(pa, off);
  }

  ghost function UnmapRest(m: Memory, root: nat, va: nat, off: nat, size: nat): Memory
    requires off <= size
  {
    UnmapPages(m, root, (va + off) % WORD, (size - off) / PAGE_SIZE)
  }

  lemma UnmapDone(m: Memory, root: nat, va: nat, off: nat, size: nat)
    requires off == size
    ensures UnmapRest(m, root, va, off, size) == m
  {
  }

  lemma UnmapUnfold(m: Memory, root: nat, va: nat, off: nat, size: nat)
    requires off < size && off % PAGE_SIZE == 0 && size % PAGE_SIZE == 0
    ensures off + PAGE_SIZE <= size
    ensures UnmapRest(m, root, va, off, size) ==
            UnmapRest(UnmapPage(m, root, Vpn((va + off) % WORD)), root, va, off + PAGE_SIZE, size)
  {
    hide UnmapPage, Vpn;
    AddWrap(va, off);
  }

  lemma AddWrap(a: nat, off: nat)
    ensures ((a + off) % WORD + PAGE_SIZE) % WORD == (a + (off + PAGE_SIZE)) % WORD
  {
    var q, r := (a + off) / WORD, (a + off) % WORD;
    assert a + off == q * WORD + r;
    if r + PAGE_SIZE < WORD {
      assert (a + off + PAGE_SIZE) / WORD == q;
    } else {
      assert (a + off + PAGE_SIZE) / WORD == q + 1;
    }
  }
}
