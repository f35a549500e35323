/**
  The address translation of the RISC-V Privileged Architecture, version 20211203: the Sv39 scheme of section 4.4
  with the walk of section 4.3.2. The kernel's tables are read by this walk exactly as vspace_resolve reads them.
 */
module Sv39 {
  import opened Kernel
  import opened PageTable
  import opened FlatMap
  import opened Spaces

  /** Physical addresses have 56 bits. */
  const PHYS: nat := 0x100_0000_0000_0000

  datatype Kind = Load | Store | Fetch

  datatype Access = Access(kind: Kind, user: bool, sum: bool, mxr: bool)

  // Flag bits live in the low ten bits of an entry.
  predicate R(pte: nat) { pte % 1024 / 2 % 2 == 1 }
  predicate W(pte: nat) { pte % 1024 / 4 % 2 == 1 }
  predicate X(pte: nat) { pte % 1024 / 8 % 2 == 1 }
  predicate U(pte: nat) { pte % 1024 / 16 % 2 == 1 }
  predicate A(pte: nat) { pte % 1024 / 64 % 2 == 1 }
  predicate D(pte: nat) { pte % 1024 / 128 % 2 == 1 }

  /** Step 5: is the access allowed by the R, W, X and U bits? */
  predicate Allowed(pte: nat, acc: Access) {
    && (match acc.kind
        case Load => R(pte) || (acc.mxr && X(pte))
        case Store => W(pte)
        case Fetch => X(pte))
    && (if acc.user then U(pte) else U(pte) ==> acc.sum && acc.kind != Fetch)
  }

  /** Bits 63 to 39 of an address must equal bit 38. */
  predicate Canonical(va: nat) {
    va < 0x40_0000_0000 || (0xFFFF_FFC0_0000_0000 <= va < WORD)
  }

  /** 512 to the power `i`. */
  function Span(i: nat): nat {
    if i == 0 then 1 else 512 * Span(i - 1)
  }

  /** Virtual page number field `i` of an address. */
  function VpnField(va: nat, i: nat): nat {
    if i == 0 then va / 0x1000 % 512 else if i == 1 then va / 0x20_0000 % 512 else va / 0x4000_0000 % 512
  }

  /** Steps 2 to 8 at level `i`, in the table at `a`; None is a page fault. */
  function WalkLevel(mem: Memory, a: nat, i: nat, va: nat, acc: Access): Option<nat>
    requires i <= 2
    decreases i
  {
    var pte := T(mem, a)[VpnField(va, i)];
    var ppn := pte / 1024;
    if !Present(pte) || (!R(pte) && W(pte)) || ppn >= 0x1000_0000_0000 then None
    else if R(pte) || X(pte) then
      if !Allowed(pte, acc) then None
      else if ppn % Span(i) != 0 then None
      else if !A(pte) || (acc.kind == Store && !D(pte)) then None
      else Some((ppn + va / PAGE_SIZE % Span(i)) * PAGE_SIZE + va % PAGE_SIZE)
    else if U(pte) || A(pte) || D(pte) then None
    else if i == 0 then None
    else WalkLevel(mem, ppn * PAGE_SIZE, i - 1, va, acc)
  }

  /** Translation with the root table at `root`, as satp names it. */
  function Translate(mem: Memory, root: nat, va: nat, acc: Access): Option<nat> {
    if Canonical(va) then WalkLevel(mem, root, 2, va, acc) else None
  }

  /** A bottom entry the hardware accepts as a leaf for this kind of access. */
  predicate LeafOkFor(pte: nat, acc: Access) {
    && Present(pte) && (R(pte) || X(pte)) && (W(pte) ==> R(pte)) && A(pte)
    && (acc.kind == Store ==> D(pte)) && pte / 1024 < 0x1000_0000_0000
  }

  lemma PointerBits(q: nat)
    ensures var pte := q * 1024 + PTE_V;
            !R(pte) && !W(pte) && !X(pte) && !U(pte) && !A(pte) && !D(pte) && Present(pte) && pte / 1024 == q
  {
    var pte := q * 1024 + PTE_V;
    assert pte % 1024 == PTE_V && pte / 1024 == q;
    SameBits(pte, PTE_V);
    hide R, W, X, U, A, D, Present;
    VBitAlone();
  }

  lemma VBitAlone()
    ensures !R(PTE_V) && !W(PTE_V) && !X(PTE_V) && !U(PTE_V) && !A(PTE_V) && !D(PTE_V) && Present(PTE_V)
  {
  }

  lemma SameBits(pte: nat, f: nat)
    requires pte % 1024 == f
    ensures (Present(pte) <==> Present(f)) && (R(pte) <==> R(f)) && (W(pte) <==> W(f)) && (X(pte) <==> X(f))
    ensures (U(pte) <==> U(f)) && (A(pte) <==> A(f)) && (D(pte) <==> D(f))
  {
    assert f % 1024 == f;
    SameParity(pte);
    hide Present;
  }

  lemma SameParity(pte: nat)
    ensures Present(pte) <==> Present(pte % 1024)
  {
    var q, f := pte / 1024, pte % 1024;
    var h, g := f / 2, f % 2;
    assert pte == 2 * (512 * q + h) + g;
  }

  /** At an upper level the hardware takes the kernel's pointer and goes on in the table it names. */
  lemma UpperLevel(mem: Memory, a: nat, i: nat, va: nat, acc: Access)
    requires 0 < i <= 2
    requires var pte := T(mem, a)[VpnField(va, i)];
             Present(pte) ==>
               Target(pte) % PAGE_SIZE == 0 && Target(pte) < PHYS && pte == Target(pte) / PAGE_SIZE * 1024 + PTE_V
    ensures var pte := T(mem, a)[VpnField(va, i)];
            WalkLevel(mem, a, i, va, acc) == if Present(pte) then WalkLevel(mem, Target(pte), i - 1, va, acc) else None
  {
    var pte := T(mem, a)[VpnField(va, i)];
    if Present(pte) {
      PointerBits(Target(pte) / PAGE_SIZE);
    }
  }

  lemma BottomLevel(mem: Memory, a: nat, va: nat, acc: Access)
    ensures var pte := T(mem, a)[VpnField(va, 0)];
            WalkLevel(mem, a, 0, va, acc) ==
            if LeafOkFor(pte, acc) && Allowed(pte, acc) then Some(pte / 1024 * PAGE_SIZE + va % PAGE_SIZE) else None
  {
    var pte := T(mem, a)[VpnField(va, 0)];
    assert Span(0) == 1;
  }

  /** The hardware walk ends at the kernel's bottom entry: it faults or yields the frame that entry names. */
  lemma WalkAgrees(mem: Memory, root: nat, shape: Shape, va: nat, acc: Access)
    requires TreeInv(mem, root, shape) && (forall a :: a in shape ==> a < PHYS)
    ensures var pte := Walk(mem, root, Vpn(va));
            WalkLevel(mem, root, 2, va, acc) ==
            if LeafOkFor(pte, acc) && Allowed(pte, acc) then Some(pte / 1024 * PAGE_SIZE + va % PAGE_SIZE) else None
  {
    hide WalkLevel, LeafOkFor, Allowed;
    VpnFields(va);
    var e2 := T(mem, root)[VpnField(va, 2)];
    UpperLevel(mem, root, 2, va, acc);
    if Present(e2) {
      WalkStays(mem, root, shape, Vpn(va));
      var a := Target(e2);
      UpperLevel(mem, a, 1, va, acc);
      if Present(T(mem, a)[VpnField(va, 1)]) {
        BottomLevel(mem, Target(T(mem, a)[VpnField(va, 1)]), va, acc);
      } else {
        AbsentIsNoLeaf(0, acc);
      }
    } else {
      AbsentIsNoLeaf(0, acc);
    }
  }

  /**
    Resolve and the hardware, exactly: for an access the entry's bits allow, they give the same physical address if
    and only if the address is canonical and the bottom entry is a leaf the hardware accepts; otherwise the hardware
    faults.
   */
  lemma TranslateIsResolve(mem: Memory, root: nat, shape: Shape, va: nat, acc: Access)
    requires TreeInv(mem, root, shape) && (forall a :: a in shape ==> a < PHYS)
    ensures var pte := Walk(mem, root, Vpn(va));
            Translate(mem, root, va, acc) ==
            if Canonical(va) && LeafOkFor(pte, acc) && Allowed(pte, acc) then Resolve(mem, root, va) else None
  {
    hide WalkLevel, Walk, Allowed, TreeInv;
    WalkAgrees(mem, root, shape, va, acc);
    var pte := Walk(mem, root, Vpn(va));
    if LeafOkFor(pte, acc) {
      assert Target(pte) == pte / 1024 * PAGE_SIZE;
      assert Pow2(12) == 4096;
      BitOrIsSum(pte / 1024, va % PAGE_SIZE, 12);
    }
  }

  // ----- Whole runs

  /**
    A mapping request the hardware can honour: frames of 56 bits, readable or executable, writable only if readable.
   */
  predicate HwSafe(op: Op) {
    op.MapOp? ==>
      && op.pa + op.size <= PHYS
      && (op.perms % 2 == 1 || op.perms / 4 % 2 == 1)
      && (op.perms / 2 % 2 == 1 ==> op.perms % 2 == 1)
  }

  predicate HwGood(m: Mapping) {
    && m.pa < PHYS && Present(m.flags) && A(m.flags) && D(m.flags)
    && (R(m.flags) || X(m.flags)) && (W(m.flags) ==> R(m.flags))
  }

  lemma FlagBits(partition: nat, perms: nat)
    ensures var f := Flags(partition, perms);
            && Present(f) && A(f) && D(f)
            && (R(f) <==> perms % 2 == 1) && (W(f) <==> perms / 2 % 2 == 1) && (X(f) <==> perms / 4 % 2 == 1)
            && (U(f) <==> partition != 0) && f / 32 % 2 == 0 && f < 256
  {
  }

  /** Which requests make leaves the hardware accepts: exactly the hardware-safe ones. */
  lemma LeafIsExact(pa: nat, partition: nat, perms: nat, acc: Access)
    requires pa % PAGE_SIZE == 0 && pa < WORD
    ensures LeafOkFor(PteEncode(pa / PAGE_SIZE, Flags(partition, perms)), acc) <==>
            pa < PHYS && (perms % 2 == 1 || perms / 4 % 2 == 1) && (perms / 2 % 2 == 1 ==> perms % 2 == 1)
  {
    hide Flags, PteEncode;
    var f := Flags(partition, perms);
    FlagBits(partition, perms);
    TargetRoundTrip(pa, f);
    PteRoundTrip(pa / PAGE_SIZE, f);
    SameBits(PteEncode(pa / PAGE_SIZE, f), f);
  }

  lemma SafeGuarantees(op: Op)
    requires HwSafe(op)
    ensures Guarantees(op, HwGood)
  {
    hide Flags, R, W, X, A, D, Present;
    if op.MapOp? {
      forall partition: nat, i: nat | i < op.size / PAGE_SIZE
        ensures HwGood(Mapping(FrameAt(op.pa, i), Flags(partition, op.perms)))
      {
        FlagBits(partition, op.perms);
        assert PAGE_SIZE * i < op.size;
      }
    }
  }

  /** A bottom entry with a good mapping is a leaf the hardware accepts. */
  lemma GoodLeaf(pte: nat, acc: Access)
    requires HwGood(Decode(pte))
    ensures LeafOkFor(pte, acc)
    ensures Allowed(pte, acc) <==> Allowed(pte % 1024, acc)
  {
    SameBits(pte, pte % 1024);
    hide R, W, X, U, A, D, Present;
  }

  /**
    After any run of hardware-safe requests, the translation of the architecture and vspace_resolve agree on every
    canonical address of every space: same physical address when mapped and permitted, page fault otherwise.
   */
  lemma RunMatchesHardware(base: Word, size: Word, ops: seq<Op>, k: nat, va: nat, acc: Access)
    requires base % PAGE_SIZE == 0 && base + size <= PHYS
    requires AllFit(base + size, ops) && forall op :: op in ops ==> HwSafe(op)
    requires k < |Run(base, size, ops).spaces|
    ensures |FlatRun(base, size, ops)| == |Run(base, size, ops).spaces|
    ensures var sys := Run(base, size, ops);
            var flat := FlatRun(base, size, ops)[k].flat;
            Translate(sys.w.mem, sys.spaces[k].root, va, acc) ==
            if Canonical(va) && Vpn(va) in flat && Allowed(flat[Vpn(va)].flags, acc)
            then Resolve(sys.w.mem, sys.spaces[k].root, va) else None
  {
    hide Run, FlatRun, Resolve, Translate, Canonical, Allowed, TreeInv, Guarantees, HwSafe, LeafOkFor, Walk;
    var sys := Run(base, size, ops);
    var shapes := RunRefines(base, size, ops);
    var s := sys.spaces[k];
    assert SpaceInv(sys.w, s, shapes[k]);
    var mem, root, v := sys.w.mem, s.root, Vpn(va);
    TranslateIsResolve(mem, root, shapes[k], va, acc);
    assert Views(sys)[k] == ViewOf(sys, k);
    var pte := Walk(mem, root, v);
    assert Leaves(mem, root)[v] == pte;
    if Present(pte) {
      forall op | op in ops
        ensures Guarantees(op, HwGood)
      {
        SafeGuarantees(op);
      }
      RunMappings(base, size, ops, HwGood, k, v);
      GoodLeaf(pte, acc);
    } else {
      AbsentIsNoLeaf(pte, acc);
    }
  }

  lemma AbsentIsNoLeaf(pte: nat, acc: Access)
    requires !Present(pte)
    ensures !LeafOkFor(pte, acc)
  {
  }
}
