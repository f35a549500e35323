/** Capability nodes and rights derivation (kernel/src/cnode.c, kernel/src/cap.c). */
module CNode {
  import opened Kernel

  const SLOTS: nat := 256

  /** `r` asks for nothing beyond `held`. */
  predicate Within(r: bv32, held: bv32) {
    r & !held == 0
  }

  /** cap_derive in the hybrid build: an amplified capability comes back invalid. */
  function Derive(parent: Cap, rights: bv32, badge: nat): Cap {
    if !Within(rights, parent.rights) then parent.(valid := false)
    else parent.(rights := rights, badge := badge)
  }

  datatype Node = Node(slots: seq<Cap>, guard: nat, radix: nat, guardSize: nat, used: int)

  predicate Shaped(n: Node) {
    |n.slots| == SLOTS
  }

  /** The slot an index decodes to: guard check, then the low `radix` bits. */
  function Decode(n: Node, idx: nat): (r: Option<nat>)
    ensures r.Some? ==> r.value < SLOTS
  {
    if n.radix == 0 || n.radix > 8 then None
    else if n.guardSize > 0 && idx / Pow2(n.radix) != n.guard % Pow2(n.guardSize) then None
    else
      RadixBound(n.radix);
      Some(idx % Pow2(n.radix))
  }

  lemma RadixBound(k: nat)
    requires k <= 8
    ensures Pow2(k) <= SLOTS
  {
    assert Pow2(8) == 256 && Pow2(7) == 128 && Pow2(6) == 64 && Pow2(5) == 32;
    assert Pow2(4) == 16 && Pow2(3) == 8 && Pow2(2) == 4 && Pow2(1) == 2;
  }

  /** The slot of the live, tagged capability an index names. */
  function Lookup(n: Node, idx: nat): (r: Option<nat>)
    requires Shaped(n)
    ensures r.Some? ==> r.value < SLOTS && n.slots[r.value].valid && n.slots[r.value].hw.tag
  {
    var d := Decode(n, idx);
    if d.Some? && n.slots[d.value].valid && n.slots[d.value].hw.tag then d else None
  }

  function Put(n: Node, i: nat, c: Cap): Node
    requires Shaped(n) && i < SLOTS
  {
    n.(slots := n.slots[i := c])
  }

  /** What copy or mint leaves in the destination. */
  function CopyInto(dst: Node, di: nat, src: Node, si: nat, rights: bv32): (Node, Error)
    requires Shaped(dst) && Shaped(src)
  {
    if di >= SLOTS || si >= SLOTS then (dst, InvalidArg)
    else if Lookup(src, si).None? then (dst, InvalidCap)
    else
      var sc := src.slots[Lookup(src, si).value];
      if !Within(rights, sc.rights) then (dst, NoRights)
      else if !Derive(sc, rights, sc.badge).valid then (dst, InvalidCap)
      else if dst.slots[di].valid then (dst, RevokeNeeded)
      else (Put(dst, di, Derive(sc, rights, sc.badge)).(used := dst.used + 1), Ok)
  }

  function MintInto(dst: Node, di: nat, src: Node, si: nat, rights: bv32, badge: nat): (Node, Error)
    requires Shaped(dst) && Shaped(src)
  {
    if di >= SLOTS || si >= SLOTS then (dst, InvalidArg)
    else if Lookup(src, si).None? then (dst, InvalidCap)
    else
      var sc := src.slots[Lookup(src, si).value];
      if !HasRight(sc, CAP_RIGHTS_GRANT) then (dst, NoRights)
      else if dst.slots[di].valid then (dst, RevokeNeeded)
      else if !Derive(sc, rights, badge).valid then (dst, InvalidCap)
      else (Put(dst, di, Derive(sc, rights, badge)).(used := dst.used + 1), Ok)
  }

  /** Whether a move goes ahead; the destination index is not checked by the kernel. */
  function MoveCheck(dst: Node, di: nat, src: Node, si: nat): Error
    requires Shaped(dst) && Shaped(src) && di < SLOTS
  {
    if Lookup(src, si).None? then InvalidCap
    else if dst.slots[di].valid then RevokeNeeded
    else Ok
  }

  function DeleteAt(n: Node, i: nat): (Node, Error)
    requires Shaped(n)
  {
    if i >= SLOTS then (n, InvalidArg)
    else if !n.slots[i].valid then (n, InvalidCap)
    else (Put(n, i, EMPTY_CAP).(used := n.used - 1), Ok)
  }

  /** Copy and mint fill one free slot with exactly the rights asked for, and touch no other slot. */
  lemma CopyEffect(dst: Node, di: nat, src: Node, si: nat, rights: bv32)
    requires Shaped(dst) && Shaped(src) && CopyInto(dst, di, src, si, rights).1 == Ok
    ensures var n := CopyInto(dst, di, src, si, rights).0;
            && Lookup(src, si).Some? && !dst.slots[di].valid && n.slots[di].valid
            && n.slots[di].rights == rights && n.slots[di].badge == src.slots[Lookup(src, si).value].badge
            && DerivedFrom(n.slots[di], src.slots[Lookup(src, si).value])
            && (forall i :: 0 <= i < SLOTS && i != di ==> n.slots[i] == dst.slots[i])
  {
    hide Lookup;
  }

  lemma MintEffect(dst: Node, di: nat, src: Node, si: nat, rights: bv32, badge: nat)
    requires Shaped(dst) && Shaped(src) && MintInto(dst, di, src, si, rights, badge).1 == Ok
    ensures var n := MintInto(dst, di, src, si, rights, badge).0;
            && Lookup(src, si).Some? && HasRight(src.slots[Lookup(src, si).value], CAP_RIGHTS_GRANT)
            && !dst.slots[di].valid && n.slots[di].valid && n.slots[di].rights == rights && n.slots[di].badge == badge
            && DerivedFrom(n.slots[di], src.slots[Lookup(src, si).value])
            && (forall i :: 0 <= i < SLOTS && i != di ==> n.slots[i] == dst.slots[i])
  {
    hide Lookup;
  }

  /**
    Which slot an index names: its low `radix` bits, if the slot holds a valid, tagged capability and the bits above
    agree with the guard. Any other radix names nothing.
   */
  lemma LookupIsExact(n: Node, idx: nat, g: nat, i: nat)
    requires Shaped(n)
    ensures !(1 <= n.radix <= 8) ==> Lookup(n, idx) == None
    ensures 1 <= n.radix <= 8 && idx == g * Pow2(n.radix) + i && i < Pow2(n.radix) ==>
              && i < 256
              && Lookup(n, idx) ==
                 (if n.slots[i].valid && n.slots[i].hw.tag && (n.guardSize == 0 || g == n.guard % Pow2(n.guardSize))
                  then Some(i) else None)
  {
    if 1 <= n.radix <= 8 && idx == g * Pow2(n.radix) + i && i < Pow2(n.radix) {
      RadixBound(n.radix);
      var p := Pow2(n.radix);
      hide Pow2;
      SplitIndex(g, p, i);
    }
  }

  lemma SplitIndex(g: nat, p: nat, i: nat)
    requires i < p
    ensures (g * p + i) / p == g && (g * p + i) % p == i
  {
    var x := g * p + i;
    var q, r := x / p, x % p;
    assert x == p * q + r;
    if q < g {
      MulMonotone(p, q + 1, g);
    } else if g < q {
      MulMonotone(p, g + 1, q);
    }
  }

  /** In a node of radix 8 without guard, index `i` is slot `i`. */
  lemma PlainLookup(n: Node, i: nat)
    requires Shaped(n) && n.radix == 8 && n.guardSize == 0 && i < 256
    ensures Lookup(n, i) == if n.slots[i].valid && n.slots[i].hw.tag then Some(i) else None
  {
    assert Pow2(8) == 256;
    LookupIsExact(n, i, 0, i);
    hide Lookup;
  }

  /** Adding the rights `r` to `held` gives nothing new. */
  predicate Attenuates(r: bv32, held: bv32) {
    r | held == held
  }

  /** The grant right is bit 2. */
  predicate MayGrant(c: Cap) {
    c.rights & 4 == 4
  }

  lemma WithinIs(r: bv32, held: bv32)
    ensures Within(r, held) <==> Attenuates(r, held)
  {
    if r & !held == 0 {
      NothingMore(r, held);
    }
    if r | held == held {
      NothingElse(r, held);
    }
  }

  lemma NothingMore(r: bv32, held: bv32)
    requires r & !held == 0
    ensures r | held == held
  {
  }

  lemma NothingElse(r: bv32, held: bv32)
    requires r | held == held
    ensures r & !held == 0
  {
  }

  /** Read, write and grant are bits 0, 1 and 2. */
  lemma RightsAre(c: Cap)
    ensures HasRight(c, CAP_RIGHTS_READ | CAP_RIGHTS_WRITE) <==> c.rights & 3 == 3
    ensures HasRight(c, CAP_RIGHTS_GRANT) <==> MayGrant(c)
  {
  }

  /** When a copy succeeds, why it fails, and that failure changes nothing. */
  lemma CopyIsExact(dst: Node, di: nat, src: Node, si: nat, rights: bv32)
    requires Shaped(dst) && Shaped(src)
    ensures var (n, e) := CopyInto(dst, di, src, si, rights);
            var from := Lookup(src, si);
            && (e == InvalidArg <==> di >= 256 || si >= 256)
            && (e == InvalidCap <==> di < 256 && si < 256 && from == None)
            && (e == NoRights <==> di < 256 && si < 256 && from.Some?
                                   && !Attenuates(rights, src.slots[from.value].rights))
            && (e == RevokeNeeded <==> di < 256 && si < 256 && from.Some?
                                       && Attenuates(rights, src.slots[from.value].rights)
                                       && dst.slots[di].valid)
            && (e == Ok <==> di < 256 && si < 256 && from.Some?
                             && Attenuates(rights, src.slots[from.value].rights)
                             && !dst.slots[di].valid)
            && (e != Ok ==> n == dst)
            && (e == Ok ==> n == Filled(dst, di, src.slots[from.value].(rights := rights)))
  {
    hide Lookup, Within, HasRight, Attenuates, MayGrant;
    if Lookup(src, si).Some? {
      var sc := src.slots[Lookup(src, si).value];
      WithinIs(rights, sc.rights);
      RightsAre(sc);
    }
  }

  /** From a node of radix 8 without guard, a copy comes from the slot it names. */
  lemma PlainCopy(dst: Node, di: nat, src: Node, si: nat, rights: bv32)
    requires Shaped(dst) && Shaped(src) && src.radix == 8 && src.guardSize == 0 && di < 256 && si < 256
    ensures var (n, e) := CopyInto(dst, di, src, si, rights);
            && (e == Ok <==> src.slots[si].valid && src.slots[si].hw.tag && Attenuates(rights, src.slots[si].rights)
                             && !dst.slots[di].valid)
            && (e == Ok ==> n.slots[di] == src.slots[si].(rights := rights))
  {
    PlainLookup(src, si);
    CopyIsExact(dst, di, src, si, rights);
    hide CopyInto, Lookup, Attenuates;
  }

  /** A node with one more capability. */
  function Filled(n: Node, i: nat, c: Cap): Node
    requires i < |n.slots|
  {
    n.(slots := n.slots[i := c], used := n.used + 1)
  }

  /** When a mint succeeds, why it fails, and that failure changes nothing. */
  lemma MintIsExact(dst: Node, di: nat, src: Node, si: nat, rights: bv32, badge: nat)
    requires Shaped(dst) && Shaped(src)
    ensures var (n, e) := MintInto(dst, di, src, si, rights, badge);
            var from := Lookup(src, si);
            && (e == InvalidArg <==> di >= 256 || si >= 256)
            && (e == NoRights <==> di < 256 && si < 256 && from.Some? && !MayGrant(src.slots[from.value]))
            && (e == RevokeNeeded <==> di < 256 && si < 256 && from.Some? && MayGrant(src.slots[from.value])
                                       && dst.slots[di].valid)
            && (e == Ok <==> di < 256 && si < 256 && from.Some? && MayGrant(src.slots[from.value])
                             && Attenuates(rights, src.slots[from.value].rights)
                             && !dst.slots[di].valid)
            && (e == Ok || e == InvalidArg || e == NoRights || e == RevokeNeeded || e == InvalidCap)
            && (e != Ok ==> n == dst)
            && (e == Ok ==> n == Filled(dst, di, src.slots[from.value].(rights := rights, badge := badge)))
  {
    hide Lookup, Within, HasRight, Attenuates, MayGrant;
    if Lookup(src, si).Some? {
      var sc := src.slots[Lookup(src, si).value];
      WithinIs(rights, sc.rights);
      RightsAre(sc);
    }
  }

  /** When a deletion succeeds; the slot is blank after, and nothing else has changed. */
  lemma DeleteIsExact(n: Node, i: nat)
    requires Shaped(n)
    ensures var (n', e) := DeleteAt(n, i);
            && (e == InvalidArg <==> i >= 256) && (e == InvalidCap <==> i < 256 && !n.slots[i].valid)
            && (e == Ok <==> i < 256 && n.slots[i].valid)
            && (e != Ok ==> n' == n)
            && (e == Ok ==> n' == n.(slots := n.slots[i := EMPTY_CAP], used := n.used - 1))
  {
  }

  // ----- Derivation

  /**
    `c` stands for no more authority than `root`: same object and bounds, fewer rights, badge changed only under
    GRANT.
   */
  predicate DerivedFrom(c: Cap, root: Cap) {
    && c.kind == root.kind && c.obj == root.obj && c.hw == root.hw
    && Within(c.rights, root.rights)
    && (c.badge != root.badge ==> HasRight(root, CAP_RIGHTS_GRANT))
  }

  lemma DerivedReflexive(c: Cap)
    ensures DerivedFrom(c, c)
  {
  }

  lemma DerivedTransitive(a: Cap, b: Cap, c: Cap)
    requires DerivedFrom(a, b) && DerivedFrom(b, c)
    ensures DerivedFrom(a, c)
  {
    RightsTransitive(a.rights, b.rights, c.rights);
  }

  lemma RightsTransitive(a: bv32, b: bv32, c: bv32)
    requires Within(a, b) && Within(b, c)
    ensures Within(a, c)
    ensures b & CAP_RIGHTS_GRANT == CAP_RIGHTS_GRANT ==> c & CAP_RIGHTS_GRANT == CAP_RIGHTS_GRANT
  {
  }

  // ----- Whole runs over several nodes

  datatype Op =
    | CopyOp(d: nat, di: nat, s: nat, si: nat, rights: bv32)
    | MintOp(d: nat, di: nat, s: nat, si: nat, rights: bv32, badge: nat)
    | MoveOp(d: nat, di: nat, s: nat, si: nat)
    | DeleteOp(d: nat, di: nat)

  predicate AllShaped(ns: seq<Node>) {
    forall i :: 0 <= i < |ns| ==> Shaped(ns[i])
  }

  /**
    Node indices stand for pointers, so a null pointer is an index out of range; a move's destination slot is in
    range.
   */
  predicate OpOk(op: Op) {
    op.MoveOp? ==> op.di < SLOTS
  }

  function Step(ns: seq<Node>, op: Op): (r: (seq<Node>, Error))
    requires AllShaped(ns) && OpOk(op)
    ensures AllShaped(r.0) && |r.0| == |ns|
  {
    if op.d >= |ns| || (!op.DeleteOp? && op.s >= |ns|) then (ns, InvalidArg)
    else match op
      case CopyOp(d, di, s, si, rights) =>
        var (n, e) := CopyInto(ns[d], di, ns[s], si, rights);
        (ns[d := n], e)
      case MintOp(d, di, s, si, rights, badge) =>
        var (n, e) := MintInto(ns[d], di, ns[s], si, rights, badge);
        (ns[d := n], e)
      case MoveOp(d, di, s, si) =>
        var e := MoveCheck(ns[d], di, ns[s], si);
        if e != Ok then (ns, e)
        else
          var from := Lookup(ns[s], si).value;
          var ns1 := ns[d := Put(ns[d], di, ns[s].slots[from])];
          (ns1[s := Put(ns1[s], from, EMPTY_CAP)], Ok)
      case DeleteOp(d, di) =>
        var (n, e) := DeleteAt(ns[d], di);
        (ns[d := n], e)
  }

  /**
    When a move succeeds; the capability is then in the destination slot unchanged, its old slot is blank, every other
    slot and both counters are as before.
   */
  lemma MoveIsExact(ns: seq<Node>, d: nat, di: nat, s: nat, si: nat)
    requires AllShaped(ns) && d < |ns| && s < |ns| && di < 256
    ensures var (ns', e) := Step(ns, MoveOp(d, di, s, si));
            var from := Lookup(ns[s], si);
            && (e == InvalidCap <==> from == None)
            && (e == RevokeNeeded <==> from.Some? && ns[d].slots[di].valid)
            && (e == Ok <==> from.Some? && !ns[d].slots[di].valid)
            && (e != Ok ==> ns' == ns)
            && (e == Ok ==>
                  && ns'[d].slots[di] == ns[s].slots[from.value] && ns'[s].slots[from.value] == EMPTY_CAP
                  && (forall n, i :: 0 <= n < |ns| && 0 <= i < 256 && (n, i) != (d, di) && (n, i) != (s, from.value) ==>
                        ns'[n].slots[i] == ns[n].slots[i])
                  && (forall n :: 0 <= n < |ns| ==> ns'[n] == ns[n].(slots := ns'[n].slots)))
  {
    hide Lookup;
  }

  ghost predicate Holds(ns: seq<Node>, c: Cap) {
    exists n, i :: 0 <= n < |ns| && 0 <= i < |ns[n].slots| && ns[n].slots[i] == c && c.valid
  }

  lemma SlotHolds(ns: seq<Node>, n: nat, i: nat)
    requires n < |ns| && i < |ns[n].slots| && ns[n].slots[i].valid
    ensures Holds(ns, ns[n].slots[i])
  {
  }

  /** `c` came from the slot that `si` names in `src`. */
  predicate FromSource(c: Cap, src: Node, si: nat)
    requires Shaped(src)
  {
    Lookup(src, si).Some? && DerivedFrom(c, src.slots[Lookup(src, si).value])
  }

  lemma CopySlot(dst: Node, di: nat, src: Node, si: nat, rights: bv32, i: nat)
    requires Shaped(dst) && Shaped(src) && i < SLOTS
    ensures var c := CopyInto(dst, di, src, si, rights).0.slots[i]; c == dst.slots[i] || FromSource(c, src, si)
  {
    hide Lookup;
  }

  lemma MintSlot(dst: Node, di: nat, src: Node, si: nat, rights: bv32, badge: nat, i: nat)
    requires Shaped(dst) && Shaped(src) && i < SLOTS
    ensures var c := MintInto(dst, di, src, si, rights, badge).0.slots[i]; c == dst.slots[i] || FromSource(c, src, si)
  {
    hide Lookup;
  }

  /** A step puts into a slot what was there, nothing valid, or something derived from what its source slot held. */
  lemma StepSlot(ns: seq<Node>, op: Op, n: nat, i: nat)
    requires AllShaped(ns) && OpOk(op) && n < |ns| && i < SLOTS && Step(ns, op).0[n].slots[i].valid
    ensures var c := Step(ns, op).0[n].slots[i];
            ns[n].slots[i] == c || (!op.DeleteOp? && op.s < |ns| && FromSource(c, ns[op.s], op.si))
  {
    hide Lookup, CopyInto, MintInto, DerivedFrom;
    if op.d < |ns| && (op.DeleteOp? || op.s < |ns|) {
      match op
      case CopyOp(d, di, s, si, rights) => CopySlot(ns[d], di, ns[s], si, rights, i);
      case MintOp(d, di, s, si, rights, badge) => MintSlot(ns[d], di, ns[s], si, rights, badge, i);
      case MoveOp(_, _, s, si) =>
        if Lookup(ns[s], si).Some? { DerivedReflexive(ns[s].slots[Lookup(ns[s], si).value]); }
      case DeleteOp(_, _) =>
    }
  }

  /** Every valid capability present after a step is derived from one present before. */
  lemma StepDerives(ns: seq<Node>, op: Op, c: Cap) returns (p: Cap)
    requires AllShaped(ns) && OpOk(op) && Holds(Step(ns, op).0, c)
    ensures Holds(ns, p) && DerivedFrom(c, p)
  {
    hide Step, Lookup, DerivedFrom;
    var ns' := Step(ns, op).0;
    var n, i :| 0 <= n < |ns'| && 0 <= i < |ns'[n].slots| && ns'[n].slots[i] == c && c.valid;
    StepSlot(ns, op, n, i);
    if ns[n].slots[i] == c {
      p := c;
      DerivedReflexive(c);
    } else {
      p := ns[op.s].slots[Lookup(ns[op.s], op.si).value];
      SlotHolds(ns, op.s, Lookup(ns[op.s], op.si).value);
    }
  }

  function Run(ns: seq<Node>, ops: seq<Op>): (r: seq<Node>)
    requires AllShaped(ns) && forall op :: op in ops ==> OpOk(op)
    ensures AllShaped(r) && |r| == |ns|
  {
    if ops == [] then ns else Step(Run(ns, ops[..|ops| - 1]), ops[|ops| - 1]).0
  }

  /**
    After any run of copies, mints, moves and deletes, every valid capability has the type, object and hardware bounds
    of some initial one and a subset of its rights, and another badge only if that initial one held GRANT.
   */
  lemma {:induction false} RunDerives(ns: seq<Node>, ops: seq<Op>, c: Cap) returns (p: Cap)
    requires AllShaped(ns) && (forall op :: op in ops ==> OpOk(op)) && Holds(Run(ns, ops), c)
    ensures Holds(ns, p) && DerivedFrom(c, p) && Attenuates(c.rights, p.rights)
  {
    if ops == [] {
      p := c;
      DerivedReflexive(c);
    } else {
      var q := StepDerives(Run(ns, ops[..|ops| - 1]), ops[|ops| - 1], c);
      p := RunDerives(ns, ops[..|ops| - 1], q);
      DerivedTransitive(c, q, p);
    }
    WithinIs(c.rights, p.rights);
  }

  // ----- The used counter

  ghost function Occupied(n: Node): set<nat> {
    set i: nat | i < |n.slots| && n.slots[i].valid
  }

  ghost predicate Counted(n: Node) {
    n.used == |Occupied(n)|
  }

  lemma PutFree(n: Node, i: nat, c: Cap)
    requires Shaped(n) && i < SLOTS && !n.slots[i].valid && c.valid
    ensures Occupied(Put(n, i, c)) == Occupied(n) + {i} && |Occupied(Put(n, i, c))| == |Occupied(n)| + 1
  {
    assert Occupied(Put(n, i, c)) == Occupied(n) + {i};
  }

  lemma PutEmpty(n: Node, i: nat)
    requires Shaped(n) && i < SLOTS && n.slots[i].valid
    ensures Occupied(Put(n, i, EMPTY_CAP)) == Occupied(n) - {i} && |Occupied(Put(n, i, EMPTY_CAP))| == |Occupied(n)| - 1
  {
    assert Occupied(Put(n, i, EMPTY_CAP)) == Occupied(n) - {i};
  }

  ghost predicate AllCounted(ns: seq<Node>) {
    forall n :: 0 <= n < |ns| ==> Counted(ns[n])
  }

  lemma CopyCounts(dst: Node, di: nat, src: Node, si: nat, rights: bv32)
    requires Shaped(dst) && Shaped(src) && Counted(dst)
    ensures Counted(CopyInto(dst, di, src, si, rights).0)
  {
    if CopyInto(dst, di, src, si, rights).1 == Ok {
      var sc := src.slots[Lookup(src, si).value];
      PutFree(dst, di, Derive(sc, rights, sc.badge));
    }
  }

  lemma MintCounts(dst: Node, di: nat, src: Node, si: nat, rights: bv32, badge: nat)
    requires Shaped(dst) && Shaped(src) && Counted(dst)
    ensures Counted(MintInto(dst, di, src, si, rights, badge).0)
  {
    if MintInto(dst, di, src, si, rights, badge).1 == Ok {
      PutFree(dst, di, Derive(src.slots[Lookup(src, si).value], rights, badge));
    }
  }

  /** A move that goes ahead keeps the counters right if and only if it stays inside one node. */
  lemma MoveCountsExactly(ns: seq<Node>, op: Op)
    requires AllShaped(ns) && AllCounted(ns) && op.MoveOp? && OpOk(op) && Step(ns, op).1 == Ok
    ensures AllCounted(Step(ns, op).0) <==> op.d == op.s
  {
    var d, s, di := op.d, op.s, op.di;
    var from := Lookup(ns[s], op.si).value;
    var c := ns[s].slots[from];
    var n1 := Put(ns[d], di, c);
    var ns' := Step(ns, op).0;
    PutFree(ns[d], di, c);
    assert Counted(ns[d]) && Counted(ns[s]);
    if d == s {
      PutEmpty(n1, from);
      assert ns' == ns[d := Put(n1, from, EMPTY_CAP)];
    } else {
      assert ns'[d] == n1;
      assert !Counted(ns'[d]);
    }
  }

  /** A node of radix 8 with nothing in it, and one with a single capability in slot 0. */
  function EmptyNode(): Node {
    Node(seq(SLOTS, _ => EMPTY_CAP), 0, 8, 0, 0)
  }

  function OneCapNode(c: Cap): Node {
    Put(EmptyNode(), 0, c).(used := 1)
  }

  /** The smallest miscount: a capability moved into another node leaves both counters wrong. */
  lemma MoveBetweenNodesMiscounts(c: Cap)
    requires c.valid && c.hw.tag
    ensures var ns := [OneCapNode(c), EmptyNode()];
            && AllShaped(ns) && AllCounted(ns)
            && var (ns', e) := Step(ns, MoveOp(1, 0, 0, 0));
               && e == Ok && ns'[0].used == 1 && Occupied(ns'[0]) == {} && ns'[1].used == 0 && Occupied(ns'[1]) == {0}
  {
    var n, m := OneCapNode(c), EmptyNode();
    assert Occupied(m) == {};
    PutFree(m, 0, c);
    assert Occupied(n) == Occupied(Put(m, 0, c)) == {0};
    assert Pow2(8) == 256;
    assert Lookup(n, 0) == Some(0);
    var ns' := Step([n, m], MoveOp(1, 0, 0, 0)).0;
    assert ns'[1] == Put(m, 0, c) && ns'[0] == Put(n, 0, EMPTY_CAP);
    PutEmpty(n, 0);
  }

  /** Every other step keeps them. */
  lemma StepCounts(ns: seq<Node>, op: Op)
    requires AllShaped(ns) && AllCounted(ns) && OpOk(op) && (op.MoveOp? ==> op.d == op.s)
    ensures AllCounted(Step(ns, op).0)
  {
    if op.d < |ns| && (op.DeleteOp? || op.s < |ns|) {
      assert Counted(ns[op.d]);
      match op
      case CopyOp(d, di, s, si, rights) => CopyCounts(ns[d], di, ns[s], si, rights);
      case MintOp(d, di, s, si, rights, badge) => MintCounts(ns[d], di, ns[s], si, rights, badge);
      case MoveOp(_, _, _, _) => if Step(ns, op).1 == Ok { MoveCountsExactly(ns, op); }
      case DeleteOp(d, di) => if DeleteAt(ns[d], di).1 == Ok { PutEmpty(ns[d], di); }
    }
  }

  /** Over every run whose moves stay inside one node, `used` is the number of valid slots. */
  lemma {:induction false} RunCounts(ns: seq<Node>, ops: seq<Op>)
    requires AllShaped(ns) && AllCounted(ns)
    requires forall op :: op in ops ==> OpOk(op) && (op.MoveOp? ==> op.d == op.s)
    ensures AllCounted(Run(ns, ops))
  {
    hide Step;
    if ops != [] {
      RunCounts(ns, ops[..|ops| - 1]);
      StepCounts(Run(ns, ops[..|ops| - 1]), ops[|ops| - 1]);
    }
  }

  // ----- Clearing a node

  /** A node after process_destroy: every valid slot zeroed, nothing counted. */
  function Cleared(n: Node): Node {
    n.(slots := ClearedSlots(n.slots), used := 0)
  }

  function ClearedSlots(slots: seq<Cap>): (r: seq<Cap>)
    ensures |r| == |slots|
  {
    seq(|slots|, i requires 0 <= i < |slots| => if slots[i].valid then EMPTY_CAP else slots[i])
  }

  /** Nothing can be looked up in a cleared node, and its counter is right. */
  lemma ClearedIsEmpty(n: Node, idx: nat)
    requires Shaped(n)
    ensures Shaped(Cleared(n)) && Occupied(Cleared(n)) == {} && Counted(Cleared(n)) && Lookup(Cleared(n), idx) == None
  {
    assert Occupied(Cleared(n)) == {};
  }

  /** The nodes after the capability node behind a thread's `cspace` pointer is cleared; null clears nothing. */
  function ClearSpace(ns: seq<Node>, cspace: nat): (r: seq<Node>)
    ensures |r| == |ns|
    ensures AllShaped(ns) ==> AllShaped(r)
  {
    if cspace == 0 || cspace > |ns| then ns else ns[cspace - 1 := Cleared(ns[cspace - 1])]
  }

  /**
    From `ns` to `ns'` the node behind `cspace` was emptied, so that `idx` names nothing in it, and no other changed.
   */
  ghost predicate Emptied(ns: seq<Node>, ns': seq<Node>, cspace: nat, idx: nat) {
    && AllShaped(ns') && |ns'| == |ns|
    && (0 < cspace <= |ns| ==>
          var n, n' := ns[cspace - 1], ns'[cspace - 1];
          && Occupied(n') == {} && Lookup(n', idx) == None && n' == n.(slots := n'.slots, used := 0)
          && |n'.slots| == |n.slots|
          && forall i :: 0 <= i < |n.slots| && !n.slots[i].valid ==> n'.slots[i] == n.slots[i])
    && (forall j :: 0 <= j < |ns| && j + 1 != cspace ==> ns'[j] == ns[j])
  }

  lemma ClearSpaceEmpties(ns: seq<Node>, cspace: nat, idx: nat)
    requires AllShaped(ns)
    ensures Emptied(ns, ClearSpace(ns, cspace), cspace, idx)
  {
    if 0 < cspace <= |ns| {
      ClearedIsEmpty(ns[cspace - 1], idx);
    }
  }

  // ----- The nodes themselves

  class CapTable {
    const slots: array<Cap>
    var guard: nat
    var radix: nat
    var guardSize: nat
    var used: int

    ghost function Value(): Node
      reads this, slots
    {
      Node(slots[..], guard, radix, guardSize, used)
    }

    constructor (guard: nat, radix: nat)
      ensures slots.Length == SLOTS && fresh(slots)
      ensures Counted(Value()) && this.guard == guard && this.radix == radix && guardSize == 0
    {
      slots := new Cap[SLOTS](_ => EMPTY_CAP);
      this.guard, this.radix, guardSize, used := guard, radix, 0, 0;
      new;
      assert Occupied(Value()) == {};
    }

    method Find(idx: nat) returns (r: Option<nat>)
      requires slots.Length == SLOTS
      ensures r == Lookup(Value(), idx)
    {
      if radix == 0 || radix > 8 {
        return None;
      }
      if guardSize > 0 {
        var guardBits := idx / Pow2(radix);
        if guardBits != guard % Pow2(guardSize) {
          return None;
        }
      }
      RadixBound(radix);
      var slot := idx % Pow2(radix);
      if !slots[slot].valid {
        return None;
      }
      if !slots[slot].hw.tag {
        return None;
      }
      return Some(slot);
    }

    method Copy(di: nat, src: CapTable, si: nat, rights: bv32) returns (e: Error)
      requires slots.Length == SLOTS && src.slots.Length == SLOTS
      modifies this, slots
      ensures (Value(), e) == CopyInto(old(Value()), di, old(src.Value()), si, rights)
    {
      if di >= SLOTS || si >= SLOTS {
        return InvalidArg;
      }
      var sc := src.Find(si);
      if sc.None? {
        return InvalidCap;
      }
      var cap := src.slots[sc.value];
      if !Within(rights, cap.rights) {
        return NoRights;
      }
      var derived := Derive(cap, rights, cap.badge);
      if !derived.valid {
        return InvalidCap;
      }
      if slots[di].valid {
        return RevokeNeeded;
      }
      slots[di] := derived;
      used := used + 1;
      return Ok;
    }

    method Mint(di: nat, src: CapTable, si: nat, rights: bv32, badge: nat) returns (e: Error)
      requires slots.Length == SLOTS && src.slots.Length == SLOTS
      modifies this, slots
      ensures (Value(), e) == MintInto(old(Value()), di, old(src.Value()), si, rights, badge)
    {
      if di >= SLOTS || si >= SLOTS {
        return InvalidArg;
      }
      var sc := src.Find(si);
      if sc.None? {
        return InvalidCap;
      }
      var cap := src.slots[sc.value];
      if !HasRight(cap, CAP_RIGHTS_GRANT) {
        return NoRights;
      }
      if slots[di].valid {
        return RevokeNeeded;
      }
      var derived := Derive(cap, rights, badge);
      if !derived.valid {
        return InvalidCap;
      }
      slots[di] := derived;
      used := used + 1;
      return Ok;
    }

    /** Moves within a node or between two: the result is that of the two-node step, aliased or not. */
    method Move(di: nat, src: CapTable, si: nat) returns (e: Error)
      requires slots.Length == SLOTS && src.slots.Length == SLOTS && di < SLOTS
      requires src == this || src.slots != slots
      modifies slots, src.slots
      ensures src == this ==> ([Value()], e) == Step([old(Value())], MoveOp(0, di, 0, si))
      ensures src != this ==>
                ([Value(), src.Value()], e) == Step([old(Value()), old(src.Value())], MoveOp(0, di, 1, si))
    {
      var sc := src.Find(si);
      if sc.None? {
        return InvalidCap;
      }
      if slots[di].valid {
        return RevokeNeeded;
      }
      ghost var c, n, m := src.slots[sc.value], Value(), src.Value();
      slots[di] := src.slots[sc.value];
      src.slots[sc.value] := EMPTY_CAP;
      if src == this {
        assert Value() == Put(Put(n, di, c), sc.value, EMPTY_CAP);
        assert [n][0 := Put(n, di, c)][0 := Value()] == [Value()];
      } else {
        assert Value() == Put(n, di, c) && src.Value() == Put(m, sc.value, EMPTY_CAP);
        assert [n, m][0 := Value()][1 := src.Value()] == [Value(), src.Value()];
      }
      return Ok;
    }

    method Clear()
      requires slots.Length == SLOTS
      modifies this, slots
      ensures Value() == Cleared(old(Value()))
    {
      for i := 0 to SLOTS
        invariant forall j :: 0 <= j < i ==> slots[j] == if old(slots[j]).valid then EMPTY_CAP else old(slots[j])
        invariant forall j :: i <= j < SLOTS ==> slots[j] == old(slots[j])
        invariant Value() == old(Value()).(slots := slots[..])
      {
        if slots[i].valid {
          slots[i] := EMPTY_CAP;
        }
      }
      used := 0;
      assert slots[..] == ClearedSlots(old(slots[..]));
    }

    method Delete(i: nat) returns (e: Error)
      requires slots.Length == SLOTS
      modifies this, slots
      ensures (Value(), e) == DeleteAt(old(Value()), i)
    {
      if i >= SLOTS {
        return InvalidArg;
      }
      if !slots[i].valid {
        return InvalidCap;
      }
      slots[i] := EMPTY_CAP;
      used := used - 1;
      return Ok;
    }
  }
}
