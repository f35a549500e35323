/**
  The capability derivation tree (kernel/src/revoke.c): a forest kept as first-child / next-sibling links
  in a fixed array. This module gives the tree as a value, what each operation does to it, and what the
  operations keep. MdbTree.dfy has the in-place code.
 */
module Mdb {
  import opened Kernel
  import opened Sets

  const MAX_NODES: nat := 1024
  const NIL: nat := 0xFFFF

  datatype Node = Node(valid: bool, cptr: nat, cnodeId: nat, slot: nat, parent: nat,
                       firstChild: nat, nextSibling: nat, cap: Cap, revocable: bool)

  datatype Tree = Tree(nodes: seq<Node>, count: nat, freeHead: nat)

  /** A node after mdb_init: zero, with no parent. Its child and sibling links are stale. */
  const FRESH_NODE := Node(false, 0, 0, 0, NIL, 0, 0, EMPTY_CAP, false)

  /** A node after mdb_delete. */
  const ERASED_NODE := Node(false, 0, 0, 0, NIL, NIL, NIL, EMPTY_CAP, false)

  function Init(): Tree {
    Tree(seq(MAX_NODES, _ => FRESH_NODE), 0, 0)
  }

  ghost function Live(nodes: seq<Node>): set<nat> {
    set i: nat | i < |nodes| && nodes[i].valid
  }

  // ----- Well-formed forests

  /** Element `j` of a child list, or NIL past its end. */
  function At(s: seq<nat>, j: nat): nat {
    if j < |s| then s[j] else NIL
  }

  /** Parent links, including those of freed nodes, go strictly down in `rank`. */
  ghost predicate Ranked(nodes: seq<Node>, rank: seq<nat>) {
    && |nodes| == |rank| == MAX_NODES
    && forall i :: 0 <= i < MAX_NODES && nodes[i].parent != NIL ==>
         nodes[i].parent < MAX_NODES && rank[nodes[i].parent] < rank[i]
  }

  /** `kids[i]` is the NIL-terminated, duplicate-free child list of live node `i`, and agrees with the parent links. */
  ghost predicate Linked(nodes: seq<Node>, kids: seq<seq<nat>>) {
    && |nodes| == |kids| == MAX_NODES
    && (forall i :: 0 <= i < MAX_NODES && nodes[i].valid ==> ParentKnows(nodes, kids, i))
    && (forall i :: 0 <= i < MAX_NODES ==> ListOf(nodes, kids[i], i))
  }

  ghost predicate ParentKnows(nodes: seq<Node>, kids: seq<seq<nat>>, i: nat)
    requires |nodes| == |kids| == MAX_NODES && i < MAX_NODES
  {
    var p := nodes[i].parent;
    if p == NIL then nodes[i].nextSibling == NIL
    else p < MAX_NODES && nodes[p].valid && i in kids[p]
  }

  ghost predicate ListOf(nodes: seq<Node>, s: seq<nat>, i: nat)
    requires |nodes| == MAX_NODES && i < MAX_NODES
  {
    && (if nodes[i].valid then nodes[i].firstChild == At(s, 0) else s == [])
    && (forall j: nat :: j < |s| ==> Entry(nodes, s, i, j))
    && NoDuplicates(s)
  }

  /** Entry `j` of the child list of `i` is a live child whose sibling link names entry `j + 1`. */
  ghost predicate Entry(nodes: seq<Node>, s: seq<nat>, i: nat, j: nat)
    requires |nodes| == MAX_NODES && j < |s|
  {
    s[j] < MAX_NODES && nodes[s[j]].valid && nodes[s[j]].parent == i && nodes[s[j]].nextSibling == At(s, j + 1)
  }

  ghost predicate NoDuplicates(s: seq<nat>) {
    forall j, k :: 0 <= j < k < |s| ==> s[j] != s[k]
  }

  ghost predicate Forest(nodes: seq<Node>, kids: seq<seq<nat>>, rank: seq<nat>) {
    Ranked(nodes, rank) && Linked(nodes, kids)
  }

  ghost predicate IsForest(nodes: seq<Node>) {
    exists kids, rank :: Forest(nodes, kids, rank)
  }

  /** The invariant of the derivation tree. */
  ghost predicate Valid(t: Tree) {
    && IsForest(t.nodes)
    && t.count == |Live(t.nodes)|
    && t.freeHead <= MAX_NODES
    && (forall i :: 0 <= i < t.freeHead ==> t.nodes[i].valid)
  }

  /** The child lists are determined by the links. */
  lemma {:induction false} KidsAreUnique(nodes: seq<Node>, s: seq<nat>, s': seq<nat>, i: nat, j: nat)
    requires |nodes| == MAX_NODES && i < MAX_NODES && nodes[i].valid
    requires ListOf(nodes, s, i) && ListOf(nodes, s', i)
    requires j <= |s| && j <= |s'| && (forall k :: 0 <= k < j ==> s[k] == s'[k])
    ensures s == s'
    decreases |s| - j
  {
    if j > 0 {
      assert Entry(nodes, s, i, j - 1) && Entry(nodes, s', i, j - 1);
    }
    assert At(s, j) == At(s', j);
    assert j < |s| ==> Entry(nodes, s, i, j);
    assert j < |s'| ==> Entry(nodes, s', i, j);
    assert j < |s| <==> j < |s'|;
    if j < |s| {
      KidsAreUnique(nodes, s, s', i, j + 1);
    }
  }

  lemma InitIsValid()
    ensures Valid(Init())
  {
    var t := Init();
    assert Forest(t.nodes, seq(MAX_NODES, _ => []), seq(MAX_NODES, _ => 0));
    assert Live(t.nodes) == {};
  }

  // ----- Ancestors

  /** The node `k` parent links above `d`. */
  function Climb(nodes: seq<Node>, d: nat, k: nat): nat
    decreases k
  {
    if k == 0 then d
    else if d >= |nodes| then NIL
    else Climb(nodes, nodes[d].parent, k - 1)
  }

  /** `a` is `d` or an ancestor of `d`: the reflexive-transitive closure of the parent link. */
  ghost predicate IsAncestor(nodes: seq<Node>, a: nat, d: nat) {
    exists k: nat :: Climb(nodes, d, k) == a
  }

  /** Live nodes below `a`, `a` itself excluded. */
  ghost function Descendants(nodes: seq<Node>, a: nat): set<nat> {
    set d: nat | d < |nodes| && nodes[d].valid && d != a && IsAncestor(nodes, a, d)
  }

  ghost function Subtree(nodes: seq<Node>, a: nat): set<nat> {
    set d: nat | d < |nodes| && nodes[d].valid && IsAncestor(nodes, a, d)
  }

  lemma {:induction false} ClimbAdd(nodes: seq<Node>, d: nat, j: nat, k: nat)
    requires |nodes| <= NIL
    ensures Climb(nodes, d, j + k) == Climb(nodes, Climb(nodes, d, j), k) || Climb(nodes, d, j) == NIL
    decreases j
  {
    if j > 0 && d < |nodes| {
      ClimbAdd(nodes, nodes[d].parent, j - 1, k);
    }
  }

  lemma {:induction false} ClimbRank(nodes: seq<Node>, rank: seq<nat>, d: nat, k: nat)
    requires Ranked(nodes, rank)
    requires d < MAX_NODES && k > 0 && Climb(nodes, d, k) < MAX_NODES
    ensures rank[Climb(nodes, d, k)] < rank[d]
    decreases k
  {
    var p := nodes[d].parent;
    if p == NIL {
      ClimbFromNil(nodes, k - 1);
    } else if k > 1 {
      ClimbRank(nodes, rank, p, k - 1);
    }
  }

  lemma {:induction false} ClimbFromNil(nodes: seq<Node>, k: nat)
    requires |nodes| <= NIL
    ensures Climb(nodes, NIL, k) == NIL
  {
  }

  /** One step of the ancestor relation. */
  lemma AncestorStep(nodes: seq<Node>, a: nat, d: nat)
    requires |nodes| == MAX_NODES && a < MAX_NODES && d < MAX_NODES
    ensures IsAncestor(nodes, a, d) <==> d == a || IsAncestor(nodes, a, nodes[d].parent)
  {
    if IsAncestor(nodes, a, d) && d != a {
      var k: nat :| Climb(nodes, d, k) == a;
      assert Climb(nodes, nodes[d].parent, k - 1) == a;
    }
    if d == a {
      assert Climb(nodes, d, 0) == a;
    } else if IsAncestor(nodes, a, nodes[d].parent) {
      var k: nat :| Climb(nodes, nodes[d].parent, k) == a;
      assert Climb(nodes, d, k + 1) == a;
    }
  }

  /** No node is its own strict ancestor: following parent links never cycles, even through freed nodes. */
  lemma AncestorRank(nodes: seq<Node>, rank: seq<nat>, a: nat, d: nat)
    requires Ranked(nodes, rank) && a < MAX_NODES && d < MAX_NODES && a != d
    requires IsAncestor(nodes, a, d)
    ensures rank[a] < rank[d]
  {
    var k: nat :| Climb(nodes, d, k) == a;
    ClimbRank(nodes, rank, d, k);
  }

  lemma SelfIsAncestor(nodes: seq<Node>, a: nat)
    ensures IsAncestor(nodes, a, a)
  {
    assert Climb(nodes, a, 0) == a;
  }

  lemma AncestorTransitive(nodes: seq<Node>, a: nat, b: nat, d: nat)
    requires |nodes| == MAX_NODES && a < MAX_NODES && b < MAX_NODES
    requires IsAncestor(nodes, a, b) && IsAncestor(nodes, b, d)
    ensures IsAncestor(nodes, a, d)
  {
    var j: nat :| Climb(nodes, d, j) == b;
    var k: nat :| Climb(nodes, b, k) == a;
    ClimbAdd(nodes, d, j, k);
  }

  /** Two ancestors of one node lie on one path. */
  lemma AncestorsAreComparable(nodes: seq<Node>, a: nat, b: nat, d: nat)
    requires |nodes| == MAX_NODES && a < MAX_NODES && b < MAX_NODES
    requires IsAncestor(nodes, a, d) && IsAncestor(nodes, b, d)
    ensures IsAncestor(nodes, a, b) || IsAncestor(nodes, b, a)
  {
    var j: nat :| Climb(nodes, d, j) == a;
    var k: nat :| Climb(nodes, d, k) == b;
    if j <= k {
      ClimbAdd(nodes, d, j, k - j);
      assert Climb(nodes, a, k - j) == b;
    } else {
      ClimbAdd(nodes, d, k, j - k);
      assert Climb(nodes, b, j - k) == a;
    }
  }

  /** The subtrees of two siblings have nothing in common. */
  lemma SiblingsAreApart(nodes: seq<Node>, kids: seq<seq<nat>>, rank: seq<nat>, a: nat, b: nat, d: nat)
    requires Forest(nodes, kids, rank)
    requires a < MAX_NODES && b < MAX_NODES && a != b && nodes[a].parent == nodes[b].parent != NIL
    ensures !(IsAncestor(nodes, a, d) && IsAncestor(nodes, b, d))
  {
    if IsAncestor(nodes, a, d) && IsAncestor(nodes, b, d) {
      AncestorsAreComparable(nodes, a, b, d);
      NotAboveSibling(nodes, rank, a, b);
      NotAboveSibling(nodes, rank, b, a);
    }
  }

  lemma NotAboveSibling(nodes: seq<Node>, rank: seq<nat>, a: nat, b: nat)
    requires Ranked(nodes, rank)
    requires a < MAX_NODES && b < MAX_NODES && a != b && nodes[a].parent == nodes[b].parent != NIL
    ensures !IsAncestor(nodes, a, b)
  {
    if IsAncestor(nodes, a, b) {
      var p := nodes[b].parent;
      AncestorStep(nodes, a, b);
      if a != p {
        AncestorRank(nodes, rank, a, p);
      }
    }
  }

  /** A live node strictly below `a` is at or below one of the children of `a`. */
  lemma {:induction false} ClimbThroughChild(nodes: seq<Node>, kids: seq<seq<nat>>, rank: seq<nat>,
                                             a: nat, d: nat, k: nat)
    returns (j: nat)
    requires Forest(nodes, kids, rank)
    requires a < MAX_NODES && d < MAX_NODES && nodes[d].valid && d != a && Climb(nodes, d, k) == a
    ensures j < |kids[a]| && IsAncestor(nodes, kids[a][j], d)
    decreases k
  {
    assert ParentKnows(nodes, kids, d);
    var p := nodes[d].parent;
    if p == a {
      j :| 0 <= j < |kids[a]| && kids[a][j] == d;
      assert Climb(nodes, d, 0) == d;
    } else {
      ClimbFromNil(nodes, k - 1);
      j := ClimbThroughChild(nodes, kids, rank, a, p, k - 1);
      assert ListOf(nodes, kids[a], a) && Entry(nodes, kids[a], a, j);
      AncestorStep(nodes, kids[a][j], d);
    }
  }

  // ----- Insert

  function FirstFree(nodes: seq<Node>, from: nat): (r: nat)
    requires from <= |nodes|
    ensures from <= r <= |nodes|
    ensures forall i :: from <= i < r ==> nodes[i].valid
    ensures r < |nodes| ==> !nodes[r].valid
    decreases |nodes| - from
  {
    if from < |nodes| && nodes[from].valid then FirstFree(nodes, from + 1) else from
  }

  /** The array after slot `idx` is filled; the parent is linked when it is live once the slot is. */
  function Attach(nodes: seq<Node>, idx: nat, parent: nat, cptr: nat, cap: Cap): seq<Node>
    requires idx < |nodes| == MAX_NODES
  {
    var ns := nodes[idx := Node(true, cptr, 0, 0, parent, NIL, NIL, cap, true)];
    if parent < MAX_NODES && ns[parent].valid then
      var linked := ns[idx := ns[idx].(nextSibling := ns[parent].firstChild)];
      linked[parent := linked[parent].(firstChild := idx)]
    else ns
  }

  function Insert(t: Tree, parent: nat, cptr: nat, cap: Cap): (Tree, Error, nat)
    requires |t.nodes| == MAX_NODES && t.freeHead <= MAX_NODES
  {
    if t.count >= MAX_NODES then (t, NoMem, NIL)
    else
      var idx := FirstFree(t.nodes, t.freeHead);
      if idx >= MAX_NODES then (t, NoMem, NIL)
      else (Tree(Attach(t.nodes, idx, parent, cptr, cap), t.count + 1,
                 if idx == t.freeHead then idx + 1 else t.freeHead), Ok, idx)
  }

  /** What the caller has to guarantee about the parent. */
  predicate ParentOk(t: Tree, parent: nat)
    requires |t.nodes| == MAX_NODES
  {
    parent == NIL || (parent < MAX_NODES && t.nodes[parent].valid)
  }

  function Bound(rank: seq<nat>): (m: nat)
    ensures forall i :: 0 <= i < |rank| ==> rank[i] <= m
  {
    if rank == [] then 0
    else
      var m := Bound(rank[..|rank| - 1]);
      if rank[|rank| - 1] <= m then m else rank[|rank| - 1]
  }

  /** Ranks after filling slot `idx`: above every live node, below every freed one. */
  function Rerank(nodes: seq<Node>, rank: seq<nat>, idx: nat): seq<nat>
    requires |nodes| == |rank| == MAX_NODES
  {
    var m := Bound(rank);
    seq(MAX_NODES, i requires 0 <= i < MAX_NODES =>
      if i == idx then m + 1 else if nodes[i].valid then rank[i] else rank[i] + m + 2)
  }

  function AddKid(kids: seq<seq<nat>>, parent: nat, idx: nat): seq<seq<nat>> {
    if parent < |kids| then kids[parent := [idx] + kids[parent]] else kids
  }

  lemma AttachRanked(nodes: seq<Node>, kids: seq<seq<nat>>, rank: seq<nat>, idx: nat, parent: nat, cptr: nat, cap: Cap)
    requires Forest(nodes, kids, rank)
    requires idx < MAX_NODES && !nodes[idx].valid
    requires parent == NIL || (parent < MAX_NODES && nodes[parent].valid)
    ensures Ranked(Attach(nodes, idx, parent, cptr, cap), Rerank(nodes, rank, idx))
  {
    var ns, rank' := Attach(nodes, idx, parent, cptr, cap), Rerank(nodes, rank, idx);
    forall i | 0 <= i < MAX_NODES && ns[i].parent != NIL
      ensures ns[i].parent < MAX_NODES && rank'[ns[i].parent] < rank'[i]
    {
      if i != idx {
        assert ns[i].parent == nodes[i].parent;
        assert nodes[i].valid ==> ParentKnows(nodes, kids, i);
      }
    }
  }

  lemma AttachList(nodes: seq<Node>, s: seq<nat>, i: nat, idx: nat, parent: nat, cptr: nat, cap: Cap)
    requires |nodes| == MAX_NODES && idx < MAX_NODES && !nodes[idx].valid && i < MAX_NODES
    requires parent == NIL || (parent < MAX_NODES && nodes[parent].valid)
    requires ListOf(nodes, s, i)
    ensures ListOf(Attach(nodes, idx, parent, cptr, cap), if i == parent then [idx] + s else s, i)
  {
    var ns, s' := Attach(nodes, idx, parent, cptr, cap), if i == parent then [idx] + s else s;
    forall j: nat | j < |s'|
      ensures Entry(ns, s', i, j)
    {
      if i != parent {
        assert Entry(nodes, s, i, j);
      } else if j > 0 {
        assert Entry(nodes, s, i, j - 1);
      }
    }
    forall j: nat | j < |s|
      ensures s[j] != idx
    {
      assert Entry(nodes, s, i, j);
    }
  }

  lemma AttachLinked(nodes: seq<Node>, kids: seq<seq<nat>>, idx: nat, parent: nat, cptr: nat, cap: Cap)
    requires Linked(nodes, kids)
    requires idx < MAX_NODES && !nodes[idx].valid
    requires parent == NIL || (parent < MAX_NODES && nodes[parent].valid)
    ensures Linked(Attach(nodes, idx, parent, cptr, cap), AddKid(kids, parent, idx))
  {
    var ns, kids' := Attach(nodes, idx, parent, cptr, cap), AddKid(kids, parent, idx);
    forall i | 0 <= i < MAX_NODES
      ensures ListOf(ns, kids'[i], i)
    {
      AttachList(nodes, kids[i], i, idx, parent, cptr, cap);
    }
    forall i | 0 <= i < MAX_NODES && ns[i].valid
      ensures ParentKnows(ns, kids', i)
    {
      if i == idx {
        assert parent != NIL ==> kids'[parent][0] == idx;
      } else {
        assert ParentKnows(nodes, kids, i);
      }
    }
  }

  /** Filling a free slot under NIL or a live parent keeps the forest; the node comes first among its siblings. */
  lemma AttachKeepsForest(nodes: seq<Node>, kids: seq<seq<nat>>, rank: seq<nat>, idx: nat, parent: nat,
                          cptr: nat, cap: Cap)
    requires Forest(nodes, kids, rank)
    requires idx < MAX_NODES && !nodes[idx].valid
    requires parent == NIL || (parent < MAX_NODES && nodes[parent].valid)
    ensures Forest(Attach(nodes, idx, parent, cptr, cap), AddKid(kids, parent, idx), Rerank(nodes, rank, idx))
    ensures Live(Attach(nodes, idx, parent, cptr, cap)) == Live(nodes) + {idx}
  {
    AttachRanked(nodes, kids, rank, idx, parent, cptr, cap);
    AttachLinked(nodes, kids, idx, parent, cptr, cap);
    hide Ranked, Linked;
  }

  lemma AttachIsForest(nodes: seq<Node>, idx: nat, parent: nat, cptr: nat, cap: Cap)
    requires |nodes| == MAX_NODES && IsForest(nodes)
    requires idx < MAX_NODES && !nodes[idx].valid
    requires parent == NIL || (parent < MAX_NODES && nodes[parent].valid)
    ensures IsForest(Attach(nodes, idx, parent, cptr, cap))
    ensures |Live(Attach(nodes, idx, parent, cptr, cap))| == |Live(nodes)| + 1
  {
    var kids, rank :| Forest(nodes, kids, rank);
    AttachKeepsForest(nodes, kids, rank, idx, parent, cptr, cap);
  }

  lemma InsertKeepsValid(t: Tree, parent: nat, cptr: nat, cap: Cap)
    requires Valid(t) && ParentOk(t, parent)
    ensures Valid(Insert(t, parent, cptr, cap).0)
  {
    ValidIsShaped(t);
    hide IsForest, Live;
    var (t', e, idx) := Insert(t, parent, cptr, cap);
    if e == Ok {
      AttachIsForest(t.nodes, idx, parent, cptr, cap);
    }
  }

  lemma LiveParent(nodes: seq<Node>, i: nat)
    requires IsForest(nodes) && i < MAX_NODES && nodes[i].valid
    ensures var p := nodes[i].parent; p == NIL || (p < MAX_NODES && p != i && nodes[p].valid)
  {
    var kids, rank :| Forest(nodes, kids, rank);
    assert ParentKnows(nodes, kids, i);
  }

  /** The new node carries the capability and pointer given, heads its parent's list, and no other node changes. */
  lemma InsertEffect(t: Tree, parent: nat, cptr: nat, cap: Cap)
    requires Valid(t) && ParentOk(t, parent) && Insert(t, parent, cptr, cap).1 == Ok
    ensures var (t', _, idx) := Insert(t, parent, cptr, cap);
            var n := t'.nodes[idx];
            && n.valid && n.cptr == cptr && n.cap == cap && n.parent == parent && n.firstChild == NIL
            && n.cnodeId == 0 && n.slot == 0 && n.revocable && t'.count == t.count + 1
            && t'.freeHead == (if idx == t.freeHead then idx + 1 else t.freeHead)
            && (parent == NIL ==> n.nextSibling == NIL)
            && (parent != NIL ==> t'.nodes[parent] == t.nodes[parent].(firstChild := idx)
                                  && n.nextSibling == t.nodes[parent].firstChild)
            && (forall i :: 0 <= i < MAX_NODES && i != idx && i != parent ==> t'.nodes[i] == t.nodes[i])
  {
    ValidIsShaped(t);
    hide Valid;
  }

  /** Revocation frees exactly the live descendants, clearing their capabilities, and leaves every other node alone. */
  lemma RevokeEffect(t: Tree, idx: nat)
    requires Valid(t) && idx < MAX_NODES && t.nodes[idx].valid
    ensures var t' := Revoke(t, idx).0;
            && (forall i :: 0 <= i < MAX_NODES ==>
                  (t.nodes[i].valid && !t'.nodes[i].valid <==>
                     t.nodes[i].valid && i != idx && IsAncestor(t.nodes, idx, i)))
            && (forall i :: 0 <= i < MAX_NODES && t.nodes[i].valid && !t'.nodes[i].valid ==>
                  t'.nodes[i] == t.nodes[i].(valid := false, cap := EMPTY_CAP))
            && Revoke(t, idx).1 == Ok && t'.freeHead <= t.freeHead
            && (forall i :: 0 <= i < MAX_NODES && t.nodes[i].valid && !t'.nodes[i].valid ==> t'.freeHead <= i)
            && (t'.freeHead == t.freeHead || (t.nodes[t'.freeHead].valid && !t'.nodes[t'.freeHead].valid))
            && (forall i :: 0 <= i < MAX_NODES && i != idx && t'.nodes[i].valid == t.nodes[i].valid ==>
                  t'.nodes[i] == t.nodes[i])
            && t'.nodes[idx] == t.nodes[idx].(firstChild := NIL)
  {
    ValidIsShaped(t);
    hide Valid;
    forall i: nat | i < MAX_NODES
      ensures i in Descendants(t.nodes, idx) <==> t.nodes[i].valid && i != idx && IsAncestor(t.nodes, idx, i)
    {
    }
    hide IsAncestor;
  }

  /**
    The caller's obligation is exact: a successful insertion keeps the tree well formed if and only if the parent was
    NIL or live.
   */
  lemma InsertIsExact(t: Tree, parent: nat, cptr: nat, cap: Cap)
    requires Valid(t) && Insert(t, parent, cptr, cap).1 == Ok
    ensures Valid(Insert(t, parent, cptr, cap).0) <==> ParentOk(t, parent)
  {
    var (t', _, idx) := Insert(t, parent, cptr, cap);
    if ParentOk(t, parent) {
      InsertKeepsValid(t, parent, cptr, cap);
    }
    if Valid(t') {
      assert t'.nodes[idx].valid && t'.nodes[idx].parent == parent;
      LiveParent(t'.nodes, idx);
    }
  }

  /** Naming a free slot as parent can make a node its own parent, after which climbing from it never ends. */
  lemma FreeParentCanLoop(cptr: nat, cap: Cap)
    ensures var (t, e, idx) := Insert(Init(), 0, cptr, cap);
            e == Ok && t.nodes[idx].parent == idx && !Valid(t) && forall k: nat :: Climb(t.nodes, idx, k) == idx
  {
    InitIsValid();
    InsertIsExact(Init(), 0, cptr, cap);
    var (t, _, idx) := Insert(Init(), 0, cptr, cap);
    assert idx == 0 by { assert !Init().nodes[0].valid; }
    forall k: nat
      ensures Climb(t.nodes, idx, k) == idx
    {
      ClimbLoop(t.nodes, idx, k);
    }
  }

  lemma {:induction false} ClimbLoop(nodes: seq<Node>, i: nat, k: nat)
    requires i < |nodes| && nodes[i].parent == i
    ensures Climb(nodes, i, k) == i
  {
    if k > 0 {
      ClimbLoop(nodes, i, k - 1);
    }
  }

  /** The slot chosen is the lowest free one, and insertion fails exactly when every slot is live. */
  lemma InsertTakesLowest(t: Tree, parent: nat, cptr: nat, cap: Cap)
    requires Valid(t)
    ensures var (t', e, idx) := Insert(t, parent, cptr, cap);
            && (e == NoMem <==> forall i :: 0 <= i < MAX_NODES ==> t.nodes[i].valid)
            && (e == NoMem ==> t' == t)
            && (e != NoMem ==> e == Ok && idx < MAX_NODES && !t.nodes[idx].valid
                               && forall i :: 0 <= i < idx ==> t.nodes[i].valid)
  {
    FullTable(t.nodes);
  }

  lemma FullTable(nodes: seq<Node>)
    requires |nodes| == MAX_NODES
    ensures |Live(nodes)| <= MAX_NODES
    ensures |Live(nodes)| == MAX_NODES <==> forall i :: 0 <= i < MAX_NODES ==> nodes[i].valid
  {
    LiveFits(nodes);
    if i: nat :| 0 <= i < MAX_NODES && !nodes[i].valid {
      LiveLacks(nodes, i);
    } else {
      assert Range(MAX_NODES) <= Live(nodes);
      hide Live;
      SubsetSize(Range(MAX_NODES), Live(nodes));
    }
  }

  lemma LiveFits(nodes: seq<Node>)
    requires |nodes| == MAX_NODES
    ensures |Live(nodes)| <= MAX_NODES
  {
    assert Live(nodes) <= Range(MAX_NODES);
    hide Live;
    SubsetSize(Live(nodes), Range(MAX_NODES));
  }

  lemma LiveLacks(nodes: seq<Node>, i: nat)
    requires |nodes| == MAX_NODES && i < MAX_NODES && !nodes[i].valid
    ensures |Live(nodes)| < MAX_NODES
  {
    assert i !in Live(nodes) && Live(nodes) + {i} <= Range(MAX_NODES);
    hide Live;
    SubsetSize(Live(nodes) + {i}, Range(MAX_NODES));
  }

  // ----- Revoke

  function Clear(nodes: seq<Node>, s: set<nat>): (r: seq<Node>)
    ensures |r| == |nodes|
  {
    seq(|nodes|, i requires 0 <= i < |nodes| =>
      if i in s then nodes[i].(valid := false, cap := EMPTY_CAP) else nodes[i])
  }

  /** The least of `h` and the members of `s`. */
  ghost function Lowest(h: nat, s: set<nat>): (r: nat)
    ensures r <= h && (forall x :: x in s ==> r <= x) && (r == h || r in s)
  {
    if exists x :: x in s && x < h then Lowest(h - 1, s) else h
  }

  ghost function RevokedNodes(nodes: seq<Node>, idx: nat): (r: seq<Node>)
    requires idx < |nodes|
    ensures |r| == |nodes|
  {
    Clear(nodes, Descendants(nodes, idx))[idx := nodes[idx].(firstChild := NIL)]
  }

  ghost function Revoke(t: Tree, idx: nat): (Tree, Error)
    requires |t.nodes| == MAX_NODES
  {
    if idx >= MAX_NODES then (t, InvalidArg)
    else if !t.nodes[idx].valid then (t, InvalidCap)
    else
      var ds := Descendants(t.nodes, idx);
      (Tree(RevokedNodes(t.nodes, idx), if |ds| <= t.count then t.count - |ds| else 0, Lowest(t.freeHead, ds)), Ok)
  }

  ghost function DropKids(kids: seq<seq<nat>>, gone: set<nat>): (r: seq<seq<nat>>)
    ensures |r| == |kids|
  {
    seq(|kids|, i requires 0 <= i < |kids| => if i in gone then [] else kids[i])
  }

  /** A child of a node at which nothing was revoked is not revoked either. */
  lemma SurvivorKeepsKids(nodes: seq<Node>, kids: seq<seq<nat>>, rank: seq<nat>, a: nat, i: nat, j: nat)
    requires Forest(nodes, kids, rank) && a < MAX_NODES && i < MAX_NODES && nodes[i].valid
    requires i != a && !IsAncestor(nodes, a, i) && j < |kids[i]|
    ensures kids[i][j] !in Descendants(nodes, a)
  {
    assert ListOf(nodes, kids[i], i) && Entry(nodes, kids[i], i, j);
    AncestorStep(nodes, a, kids[i][j]);
  }

  lemma RevokeList(nodes: seq<Node>, kids: seq<seq<nat>>, rank: seq<nat>, idx: nat, i: nat)
    requires Forest(nodes, kids, rank) && idx < MAX_NODES && nodes[idx].valid && i < MAX_NODES
    ensures ListOf(RevokedNodes(nodes, idx), DropKids(kids, Descendants(nodes, idx) + {idx})[i], i)
  {
    var ds := Descendants(nodes, idx);
    var ns, kids' := RevokedNodes(nodes, idx), DropKids(kids, ds + {idx});
    assert ListOf(nodes, kids[i], i);
    if nodes[i].valid && i !in ds && i != idx {
      forall j: nat | j < |kids[i]|
        ensures Entry(ns, kids'[i], i, j)
      {
        assert Entry(nodes, kids[i], i, j);
        SurvivorKeepsKids(nodes, kids, rank, idx, i, j);
        hide Descendants;
      }
    }
  }

  /** A node that survives the revocation has a parent that survives it. */
  lemma SurvivorKeepsParent(nodes: seq<Node>, kids: seq<seq<nat>>, rank: seq<nat>, idx: nat, i: nat)
    requires Forest(nodes, kids, rank) && idx < MAX_NODES && i < MAX_NODES && nodes[i].valid
    requires i !in Descendants(nodes, idx) && nodes[i].parent != NIL
    ensures nodes[i].parent < MAX_NODES && nodes[i].parent !in Descendants(nodes, idx) + {idx}
    ensures nodes[nodes[i].parent].valid && i in kids[nodes[i].parent]
  {
    var p := nodes[i].parent;
    assert ParentKnows(nodes, kids, i);
    AncestorStep(nodes, idx, i);
    assert Climb(nodes, idx, 0) == idx;
    if i == idx && p in Descendants(nodes, idx) {
      AncestorRank(nodes, rank, idx, p);
    }
  }

  lemma RevokeParent(nodes: seq<Node>, kids: seq<seq<nat>>, rank: seq<nat>, idx: nat, i: nat)
    requires Forest(nodes, kids, rank) && idx < MAX_NODES && nodes[idx].valid && i < MAX_NODES
    requires RevokedNodes(nodes, idx)[i].valid
    ensures ParentKnows(RevokedNodes(nodes, idx), DropKids(kids, Descendants(nodes, idx) + {idx}), i)
  {
    hide Forest, Descendants;
    NotOwnDescendant(nodes, idx);
    LiveIsKnown(nodes, kids, rank, i);
    if nodes[i].parent != NIL {
      SurvivorKeepsParent(nodes, kids, rank, idx, i);
    }
  }

  lemma NotOwnDescendant(nodes: seq<Node>, idx: nat)
    ensures idx !in Descendants(nodes, idx)
  {
  }

  lemma LiveIsKnown(nodes: seq<Node>, kids: seq<seq<nat>>, rank: seq<nat>, i: nat)
    requires Forest(nodes, kids, rank) && i < MAX_NODES
    ensures |nodes| == |kids| == MAX_NODES && (nodes[i].valid ==> ParentKnows(nodes, kids, i))
  {
  }

  lemma RevokeLinked(nodes: seq<Node>, kids: seq<seq<nat>>, rank: seq<nat>, idx: nat)
    requires Forest(nodes, kids, rank) && idx < MAX_NODES && nodes[idx].valid
    ensures Linked(RevokedNodes(nodes, idx), DropKids(kids, Descendants(nodes, idx) + {idx}))
  {
    var ns, kids' := RevokedNodes(nodes, idx), DropKids(kids, Descendants(nodes, idx) + {idx});
    hide Descendants, ListOf, ParentKnows, RevokedNodes, DropKids, Forest;
    ForestSize(nodes, kids, rank);
    forall i: nat | i < MAX_NODES
      ensures ListOf(ns, kids'[i], i)
    {
      RevokeList(nodes, kids, rank, idx, i);
    }
    forall i: nat | i < MAX_NODES && ns[i].valid
      ensures ParentKnows(ns, kids', i)
    {
      RevokeParent(nodes, kids, rank, idx, i);
    }
  }

  lemma ForestSize(nodes: seq<Node>, kids: seq<seq<nat>>, rank: seq<nat>)
    requires Forest(nodes, kids, rank)
    ensures |nodes| == |kids| == |rank| == MAX_NODES
  {
  }

  /** Revocation keeps the forest, empties the revoked lists and leaves every other child list, in its order. */
  lemma RevokeKeepsForest(nodes: seq<Node>, kids: seq<seq<nat>>, rank: seq<nat>, idx: nat)
    requires Forest(nodes, kids, rank) && idx < MAX_NODES && nodes[idx].valid
    ensures Forest(RevokedNodes(nodes, idx), DropKids(kids, Descendants(nodes, idx) + {idx}), rank)
  {
    RevokeLinked(nodes, kids, rank, idx);
    var ns := RevokedNodes(nodes, idx);
    assert forall i :: 0 <= i < MAX_NODES ==> ns[i].parent == nodes[i].parent;
  }

  lemma RevokeLive(nodes: seq<Node>, idx: nat)
    requires idx < |nodes| && nodes[idx].valid
    ensures Live(RevokedNodes(nodes, idx)) == Live(nodes) - Descendants(nodes, idx)
    ensures |Live(RevokedNodes(nodes, idx))| == |Live(nodes)| - |Descendants(nodes, idx)|
  {
    assert Descendants(nodes, idx) <= Live(nodes);
    assert Live(RevokedNodes(nodes, idx)) == Live(nodes) - Descendants(nodes, idx);
  }

  lemma RevokeIsForest(nodes: seq<Node>, idx: nat)
    requires IsForest(nodes) && idx < |nodes| == MAX_NODES && nodes[idx].valid
    ensures IsForest(RevokedNodes(nodes, idx))
    ensures |Live(RevokedNodes(nodes, idx))| == |Live(nodes)| - |Descendants(nodes, idx)|
  {
    var kids, rank :| Forest(nodes, kids, rank);
    RevokeKeepsForest(nodes, kids, rank, idx);
    RevokeLive(nodes, idx);
  }

  lemma RevokeKeepsHint(nodes: seq<Node>, head: nat, idx: nat)
    requires idx < |nodes| && nodes[idx].valid && head <= |nodes| && forall i :: 0 <= i < head ==> nodes[i].valid
    ensures forall i :: 0 <= i < Lowest(head, Descendants(nodes, idx)) ==> RevokedNodes(nodes, idx)[i].valid
  {
    hide Descendants;
    var ds := Descendants(nodes, idx);
    forall i: nat | i < Lowest(head, ds)
      ensures RevokedNodes(nodes, idx)[i].valid
    {
      assert i !in ds;
    }
  }

  lemma RevokeKeepsValid(t: Tree, idx: nat)
    requires Valid(t)
    ensures Valid(Revoke(t, idx).0)
  {
    hide IsForest, Descendants, RevokedNodes, Live;
    ValidIsShaped(t);
    if idx < MAX_NODES && t.nodes[idx].valid {
      RevokeIsForest(t.nodes, idx);
      RevokeKeepsHint(t.nodes, t.freeHead, idx);
    }
  }

  /** After revocation nothing live is left below the node, which itself stays. */
  lemma RevokeLeavesLeaf(nodes: seq<Node>, idx: nat)
    requires idx < |nodes| && nodes[idx].valid
    ensures RevokedNodes(nodes, idx)[idx].valid && Descendants(RevokedNodes(nodes, idx), idx) == {}
  {
    var ns := RevokedNodes(nodes, idx);
    forall d: nat | d < |nodes| && IsAncestor(ns, idx, d)
      ensures IsAncestor(nodes, idx, d)
    {
      var k: nat :| Climb(ns, d, k) == idx;
      SameParentsSameClimb(ns, nodes, d, k);
    }
  }

  lemma {:induction false} SameParentsSameClimb(ns: seq<Node>, nodes: seq<Node>, d: nat, k: nat)
    requires |ns| == |nodes| && forall i :: 0 <= i < |ns| ==> ns[i].parent == nodes[i].parent
    ensures Climb(ns, d, k) == Climb(nodes, d, k)
    decreases k
  {
    if k > 0 && d < |ns| {
      SameParentsSameClimb(ns, nodes, ns[d].parent, k - 1);
    }
  }

  /** Live nodes at or below the first `j` nodes of a child list. */
  ghost function Under(nodes: seq<Node>, s: seq<nat>, j: nat): set<nat>
    requires j <= |s|
  {
    set d: nat | d < |nodes| && nodes[d].valid && exists t :: 0 <= t < j && IsAncestor(nodes, s[t], d)
  }

  lemma UnderNext(nodes: seq<Node>, s: seq<nat>, j: nat)
    requires j < |s|
    ensures Under(nodes, s, j + 1) == Under(nodes, s, j) + Subtree(nodes, s[j])
  {
  }

  lemma UnderAll(nodes: seq<Node>, kids: seq<seq<nat>>, rank: seq<nat>, idx: nat)
    requires Forest(nodes, kids, rank) && idx < MAX_NODES
    ensures Under(nodes, kids[idx], |kids[idx]|) == Descendants(nodes, idx)
  {
    var s := kids[idx];
    forall d | d in Descendants(nodes, idx)
      ensures d in Under(nodes, s, |s|)
    {
      var k: nat :| Climb(nodes, d, k) == idx;
      var j := ClimbThroughChild(nodes, kids, rank, idx, d, k);
    }
    forall d | d in Under(nodes, s, |s|)
      ensures d in Descendants(nodes, idx)
    {
      var j: nat :| j < |s| && IsAncestor(nodes, s[j], d);
      ChildBelow(nodes, kids, rank, idx, j, d);
    }
  }

  lemma ChildBelow(nodes: seq<Node>, kids: seq<seq<nat>>, rank: seq<nat>, idx: nat, j: nat, d: nat)
    requires Forest(nodes, kids, rank) && idx < MAX_NODES && d < MAX_NODES
    requires j < |kids[idx]| && IsAncestor(nodes, kids[idx][j], d)
    ensures d != idx && IsAncestor(nodes, idx, d)
    ensures kids[idx][j] < MAX_NODES && nodes[kids[idx][j]].valid && rank[idx] < rank[kids[idx][j]]
  {
    var c := kids[idx][j];
    assert ListOf(nodes, kids[idx], idx) && Entry(nodes, kids[idx], idx, j);
    assert Climb(nodes, idx, 0) == idx;
    AncestorStep(nodes, idx, c);
    AncestorTransitive(nodes, idx, c, d);
    if d != c {
      AncestorRank(nodes, rank, c, d);
    }
  }

  /** When child `j` is revoked, its subtree is still untouched by the revocation of its elder siblings. */
  lemma ChildStillWhole(nodes: seq<Node>, kids: seq<seq<nat>>, rank: seq<nat>, idx: nat, j: nat)
    requires Forest(nodes, kids, rank) && idx < MAX_NODES && j < |kids[idx]|
    ensures Subtree(nodes, kids[idx][j]) !! Under(nodes, kids[idx], j)
    ensures Subtree(nodes, kids[idx][j]) <= Descendants(nodes, idx)
    ensures kids[idx][j] < MAX_NODES && nodes[kids[idx][j]].valid && rank[idx] < rank[kids[idx][j]]
    ensures nodes[kids[idx][j]].nextSibling == At(kids[idx], j + 1)
  {
    var s := kids[idx];
    assert ListOf(nodes, s, idx) && Entry(nodes, s, idx, j);
    assert Climb(nodes, s[j], 0) == s[j];
    ChildBelow(nodes, kids, rank, idx, j, s[j]);
    forall d | d in Subtree(nodes, s[j])
      ensures d in Descendants(nodes, idx) && d !in Under(nodes, s, j)
    {
      ChildBelow(nodes, kids, rank, idx, j, d);
      forall t | 0 <= t < j
        ensures !IsAncestor(nodes, s[t], d)
      {
        assert Entry(nodes, s, idx, t);
        SiblingsAreApart(nodes, kids, rank, s[t], s[j], d);
      }
    }
  }

  lemma SubtreeSplit(nodes: seq<Node>, idx: nat)
    requires idx < |nodes| && nodes[idx].valid
    ensures Subtree(nodes, idx) == Descendants(nodes, idx) + {idx}
  {
    assert Climb(nodes, idx, 0) == idx;
  }

  lemma ClearTwice(nodes: seq<Node>, s: set<nat>, s': set<nat>)
    ensures Clear(Clear(nodes, s), s') == Clear(nodes, s + s')
  {
  }

  lemma ClearOne(nodes: seq<Node>, s: set<nat>, idx: nat)
    requires idx < |nodes| && nodes[idx].valid && idx !in s
    ensures var ns := Clear(nodes, s);
            var ns' := ns[idx := ns[idx].(valid := false, cap := EMPTY_CAP)];
            ns' == Clear(nodes, s + {idx}) && Live(ns') == Live(ns) - {idx} && |Live(ns')| == |Live(ns)| - 1
  {
    var ns := Clear(nodes, s);
    var ns' := ns[idx := ns[idx].(valid := false, cap := EMPTY_CAP)];
    assert ns' == Clear(nodes, s + {idx});
    assert Live(ns') == Live(ns) - {idx};
    assert idx in Live(ns);
  }

  lemma LowestIsUnique(h: nat, s: set<nat>, r: nat)
    requires r <= h && (forall x :: x in s ==> r <= x) && (r == h || r in s)
    ensures r == Lowest(h, s)
  {
  }

  lemma ClearedTotals(nodes: seq<Node>, ds: set<nat>, head: nat, head': nat)
    requires ds <= Live(nodes)
    requires head' <= head && (head' == head || head' in ds)
    requires forall i :: 0 <= i < head' ==> i < |nodes| && Clear(nodes, ds)[i].valid
    ensures |Live(Clear(nodes, ds))| == |Live(nodes)| - |ds|
    ensures head' == Lowest(head, ds)
  {
    assert Live(Clear(nodes, ds)) == Live(nodes) - ds;
    forall d | d in ds
      ensures head' <= d
    {
      assert !Clear(nodes, ds)[d].valid;
    }
    LowestIsUnique(head, ds, head');
  }

  /** The bookkeeping a revocation leaves behind determines its count and free hint. */
  lemma RevokeTotals(t: Tree, idx: nat, t': Tree)
    requires idx < |t.nodes| == MAX_NODES && t.nodes[idx].valid && t.count == |Live(t.nodes)|
    requires t'.nodes == Clear(t.nodes, Descendants(t.nodes, idx)) && t'.count == |Live(t'.nodes)|
    requires t'.freeHead <= t.freeHead && (t'.freeHead == t.freeHead || t'.freeHead in Descendants(t.nodes, idx))
    requires forall i :: 0 <= i < t'.freeHead ==> i < MAX_NODES && t'.nodes[i].valid
    ensures (t'.(nodes := RevokedNodes(t.nodes, idx)), Ok) == Revoke(t, idx)
  {
    var ds := Descendants(t.nodes, idx);
    assert ds <= Live(t.nodes);
    ClearedTotals(t.nodes, ds, t.freeHead, t'.freeHead);
  }

  lemma OutsideHasNoAncestor(nodes: seq<Node>, a: nat, d: nat)
    requires a < |nodes| == MAX_NODES && d >= MAX_NODES
    ensures !IsAncestor(nodes, a, d)
  {
    forall k: nat
      ensures Climb(nodes, d, k) != a
    {
    }
  }

  // ----- Delete

  /** The array after leaf `idx` is taken out of its parent's list and erased. */
  function Detach(nodes: seq<Node>, idx: nat): (r: seq<Node>)
    requires idx < |nodes|
    ensures |r| == |nodes|
  {
    var gone := nodes[idx];
    seq(|nodes|, i requires 0 <= i < |nodes| =>
      if i == idx then ERASED_NODE
      else if gone.parent == NIL || !nodes[i].valid then nodes[i]
      else if i == gone.parent && nodes[i].firstChild == idx then nodes[i].(firstChild := gone.nextSibling)
      else if nodes[i].parent == gone.parent && nodes[i].nextSibling == idx
      then nodes[i].(nextSibling := gone.nextSibling)
      else nodes[i])
  }

  function Delete(t: Tree, idx: nat): (Tree, Error)
    requires |t.nodes| == MAX_NODES
  {
    if idx >= MAX_NODES then (t, InvalidArg)
    else if !t.nodes[idx].valid then (t, InvalidCap)
    else if t.nodes[idx].firstChild != NIL then (t, RevokeNeeded)
    else (Tree(Detach(t.nodes, idx), if t.count > 0 then t.count - 1 else 0,
               if idx < t.freeHead then idx else t.freeHead), Ok)
  }

  function Without(s: seq<nat>, x: nat): (r: seq<nat>)
    ensures forall y :: y in r <==> y in s && y != x
  {
    if s == [] then []
    else if s[0] == x then Without(s[1..], x)
    else [s[0]] + Without(s[1..], x)
  }

  lemma {:induction false} WithoutAbsent(s: seq<nat>, x: nat)
    requires x !in s
    ensures Without(s, x) == s
  {
    if s != [] {
      WithoutAbsent(s[1..], x);
    }
  }

  lemma {:induction false} WithoutOnce(s: seq<nat>, pos: nat)
    requires pos < |s| && NoDuplicates(s)
    ensures Without(s, s[pos]) == s[..pos] + s[pos + 1..]
  {
    var x, rest := s[pos], s[1..];
    if pos == 0 {
      assert x !in rest;
      WithoutAbsent(rest, x);
      assert s[..0] + s[1..] == rest;
    } else {
      assert s[0] != x && rest[pos - 1] == x;
      WithoutOnce(rest, pos - 1);
      assert s[..pos] + s[pos + 1..] == [s[0]] + (rest[..pos - 1] + rest[pos..]);
    }
  }

  function DropKid(kids: seq<seq<nat>>, parent: nat, idx: nat): seq<seq<nat>> {
    if parent < |kids| then kids[parent := Without(kids[parent], idx)] else kids
  }

  /** One entry of the shortened list: the link that named `idx` now names its successor. */
  lemma DetachEntry(nodes: seq<Node>, rank: seq<nat>, s: seq<nat>, p: nat, pos: nat, j: nat)
    requires Ranked(nodes, rank) && p < MAX_NODES && ListOf(nodes, s, p)
    requires pos < |s| && s[pos] < MAX_NODES && nodes[s[pos]].valid && nodes[s[pos]].parent == p && j < |s| - 1
    ensures Entry(Detach(nodes, s[pos]), s[..pos] + s[pos + 1..], p, j)
  {
    var k := if j < pos then j else j + 1;
    assert (s[..pos] + s[pos + 1..])[j] == s[k];
    assert Entry(nodes, s, p, pos) && Entry(nodes, s, p, k);
    assert k + 1 < |s| ==> Entry(nodes, s, p, k + 1);
    hide ListOf;
  }

  /** Taking `idx` out of its parent's list. */
  lemma DetachFromList(nodes: seq<Node>, rank: seq<nat>, s: seq<nat>, p: nat, idx: nat)
    requires Ranked(nodes, rank) && p < MAX_NODES && ListOf(nodes, s, p)
    requires idx < MAX_NODES && nodes[idx].valid && nodes[idx].parent == p && idx in s
    ensures ListOf(Detach(nodes, idx), Without(s, idx), p)
  {
    var pos: nat :| pos < |s| && s[pos] == idx;
    WithoutOnce(s, pos);
    hide Without;
    assert Entry(nodes, s, p, pos) && Entry(nodes, s, p, 0);
    forall j: nat | j < |s| - 1
      ensures Entry(Detach(nodes, idx), Without(s, idx), p, j)
    {
      DetachEntry(nodes, rank, s, p, pos, j);
    }
  }

  /** Every other list is untouched. */
  lemma DetachElsewhere(nodes: seq<Node>, kids: seq<seq<nat>>, rank: seq<nat>, i: nat, idx: nat)
    requires Forest(nodes, kids, rank) && i < MAX_NODES
    requires idx < MAX_NODES && nodes[idx].valid && nodes[idx].firstChild == NIL && nodes[idx].parent != i
    ensures i == idx ==> kids[i] == []
    ensures ListOf(Detach(nodes, idx), kids[i], i)
  {
    assert ListOf(nodes, kids[i], i);
    var ns := Detach(nodes, idx);
    if i == idx {
      assert kids[i] != [] ==> Entry(nodes, kids[i], i, 0);
    }
    forall j: nat | j < |kids[i]|
      ensures Entry(ns, kids[i], i, j)
    {
      assert Entry(nodes, kids[i], i, j);
    }
  }

  lemma DeleteLinked(nodes: seq<Node>, kids: seq<seq<nat>>, rank: seq<nat>, idx: nat)
    requires Forest(nodes, kids, rank) && idx < MAX_NODES && nodes[idx].valid && nodes[idx].firstChild == NIL
    ensures Linked(Detach(nodes, idx), DropKid(kids, nodes[idx].parent, idx))
  {
    var p := nodes[idx].parent;
    var ns, kids' := Detach(nodes, idx), DropKid(kids, p, idx);
    assert ParentKnows(nodes, kids, idx);
    forall i: nat | i < MAX_NODES
      ensures ListOf(ns, kids'[i], i)
    {
      if i == p {
        DetachFromList(nodes, rank, kids[p], p, idx);
      } else {
        DetachElsewhere(nodes, kids, rank, i, idx);
      }
    }
    forall i: nat | i < MAX_NODES && ns[i].valid
      ensures ParentKnows(ns, kids', i)
    {
      assert ParentKnows(nodes, kids, i);
      if nodes[i].parent == idx {
        DetachElsewhere(nodes, kids, rank, idx, idx);
      }
    }
  }

  /** Deletion keeps the forest and only shortens the parent's list, by the deleted node. */
  lemma DeleteKeepsForest(nodes: seq<Node>, kids: seq<seq<nat>>, rank: seq<nat>, idx: nat)
    requires Forest(nodes, kids, rank) && idx < MAX_NODES && nodes[idx].valid && nodes[idx].firstChild == NIL
    ensures Forest(Detach(nodes, idx), DropKid(kids, nodes[idx].parent, idx), rank)
    ensures Live(Detach(nodes, idx)) == Live(nodes) - {idx}
    ensures var ns := Detach(nodes, idx);
            && ns[idx].cap == EMPTY_CAP
            && forall i :: 0 <= i < MAX_NODES && i != idx ==>
                 && ns[i] == nodes[i].(firstChild := ns[i].firstChild, nextSibling := ns[i].nextSibling)
                 && (nodes[i].parent != nodes[idx].parent ==> ns[i].nextSibling == nodes[i].nextSibling)
                 && (i != nodes[idx].parent ==> ns[i].firstChild == nodes[i].firstChild)
  {
    DeleteLinked(nodes, kids, rank, idx);
    var ns := Detach(nodes, idx);
    assert forall i :: 0 <= i < MAX_NODES && i != idx ==> ns[i].parent == nodes[i].parent;
  }

  /** The array with one link redirected: the parent's first-child link, or a sibling link. */
  function Relink(nodes: seq<Node>, inFirst: bool, holder: nat, target: nat): seq<Node>
    requires holder < |nodes|
  {
    nodes[holder := if inFirst then nodes[holder].(firstChild := target) else nodes[holder].(nextSibling := target)]
  }

  /** Redirecting the link found by walking the child list is all that unlinking a node takes. */
  lemma RelinkIsDetach(nodes: seq<Node>, kids: seq<seq<nat>>, rank: seq<nat>, idx: nat, p: nat, pos: nat, holder: nat)
    requires Forest(nodes, kids, rank) && idx < MAX_NODES && nodes[idx].valid
    requires p == nodes[idx].parent && p < MAX_NODES && pos < |kids[p]| && kids[p][pos] == idx
    requires holder == if pos == 0 then p else kids[p][pos - 1]
    ensures holder < MAX_NODES
    ensures Relink(nodes, pos == 0, holder, nodes[idx].nextSibling)[idx := ERASED_NODE] == Detach(nodes, idx)
  {
    var s := kids[p];
    assert ParentKnows(nodes, kids, idx) && ListOf(nodes, s, p) && Entry(nodes, s, p, pos);
    if pos > 0 {
      assert Entry(nodes, s, p, pos - 1);
    }
    var ns := Detach(nodes, idx);
    forall i | 0 <= i < MAX_NODES && i != idx && i != holder
      ensures ns[i] == nodes[i]
    {
      if nodes[i].valid && nodes[i].parent == p {
        assert ParentKnows(nodes, kids, i);
        var k: nat :| k < |s| && s[k] == i;
        assert Entry(nodes, s, p, k);
      }
    }
  }

  lemma DeleteIsForest(nodes: seq<Node>, idx: nat)
    requires IsForest(nodes) && idx < |nodes| == MAX_NODES && nodes[idx].valid && nodes[idx].firstChild == NIL
    ensures IsForest(Detach(nodes, idx)) && |Live(Detach(nodes, idx))| == |Live(nodes)| - 1
  {
    var kids, rank :| Forest(nodes, kids, rank);
    DeleteKeepsForest(nodes, kids, rank, idx);
    assert idx in Live(nodes);
  }

  lemma DeleteKeepsValid(t: Tree, idx: nat)
    requires Valid(t)
    ensures Valid(Delete(t, idx).0)
  {
    hide IsForest;
    ValidIsShaped(t);
    if idx < MAX_NODES && t.nodes[idx].valid && t.nodes[idx].firstChild == NIL {
      DeleteIsForest(t.nodes, idx);
    }
  }

  lemma ValidIsShaped(t: Tree)
    requires Valid(t)
    ensures |t.nodes| == MAX_NODES && t.freeHead <= MAX_NODES
  {
  }

  /** Deletion is refused with RevokeNeeded exactly when a live descendant exists. */
  lemma DeleteNeedsLeaf(t: Tree, idx: nat)
    requires Valid(t) && idx < MAX_NODES && t.nodes[idx].valid
    ensures Delete(t, idx).1 == RevokeNeeded <==> Descendants(t.nodes, idx) != {}
  {
    var kids, rank :| Forest(t.nodes, kids, rank);
    assert ListOf(t.nodes, kids[idx], idx);
    if kids[idx] != [] {
      var c := kids[idx][0];
      assert Entry(t.nodes, kids[idx], idx, 0);
      AncestorStep(t.nodes, idx, c);
      assert Climb(t.nodes, idx, 0) == idx;
      assert c in Descendants(t.nodes, idx);
    } else {
      forall d | d in Descendants(t.nodes, idx)
        ensures false
      {
        var k: nat :| Climb(t.nodes, d, k) == idx;
        var j := ClimbThroughChild(t.nodes, kids, rank, idx, d, k);
      }
    }
  }

  /** A node index that names nothing: revocation and deletion say why and change nothing. */
  lemma DeadIndexIsRefused(t: Tree, idx: nat)
    requires |t.nodes| == MAX_NODES
    ensures idx >= 1024 ==> Delete(t, idx) == (t, InvalidArg) && Revoke(t, idx) == (t, InvalidArg)
    ensures idx < 1024 && !t.nodes[idx].valid ==> Delete(t, idx) == (t, InvalidCap) && Revoke(t, idx) == (t, InvalidCap)
  {
  }

  /** The child lists with `idx` taken out of whichever holds it. */
  function Pruned(kids: seq<seq<nat>>, idx: nat): seq<seq<nat>> {
    seq(|kids|, i requires 0 <= i < |kids| => Without(kids[i], idx))
  }

  lemma PrunedIsDropKid(nodes: seq<Node>, kids: seq<seq<nat>>, rank: seq<nat>, idx: nat)
    requires Forest(nodes, kids, rank) && idx < MAX_NODES && nodes[idx].valid
    ensures Pruned(kids, idx) == DropKid(kids, nodes[idx].parent, idx)
  {
    forall i | 0 <= i < MAX_NODES && i != nodes[idx].parent
      ensures Without(kids[i], idx) == kids[i]
    {
      if idx in kids[i] {
        ListedByParent(nodes, kids, rank, idx, i);
      }
      WithoutAbsent(kids[i], idx);
    }
  }

  lemma ListedByParent(nodes: seq<Node>, kids: seq<seq<nat>>, rank: seq<nat>, idx: nat, i: nat)
    requires Forest(nodes, kids, rank) && i < MAX_NODES && idx in kids[i]
    ensures idx < MAX_NODES && nodes[idx].parent == i
  {
    assert ListOf(nodes, kids[i], i);
    var j: nat :| j < |kids[i]| && kids[i][j] == idx;
    assert Entry(nodes, kids[i], i, j);
  }

  /** What two nodes have in common apart from their child and sibling links. */
  predicate SameButLinks(n: Node, m: Node) {
    && n.valid == m.valid && n.cptr == m.cptr && n.cnodeId == m.cnodeId && n.slot == m.slot
    && n.parent == m.parent && n.cap == m.cap && n.revocable == m.revocable
  }

  /**
    Deleting a live node without live descendants succeeds, blanks it, and takes it out of its parent's child list, in
    order; every other node keeps everything but its place in that list.
   */
  lemma DeleteEffect(t: Tree, idx: nat, kids: seq<seq<nat>>, rank: seq<nat>)
    requires Valid(t) && Forest(t.nodes, kids, rank)
    requires idx < MAX_NODES && t.nodes[idx].valid && Descendants(t.nodes, idx) == {}
    ensures var (t', e) := Delete(t, idx);
            && e == Ok && |t'.nodes| == MAX_NODES
            && Live(t'.nodes) == Live(t.nodes) - {idx} && t'.count == t.count - 1
            && t'.freeHead == (if idx < t.freeHead then idx else t.freeHead)
            && t'.nodes[idx] == Node(false, 0, 0, 0, NIL, NIL, NIL, EMPTY_CAP, false)
            && (forall i :: 0 <= i < MAX_NODES && i != idx ==> SameButLinks(t'.nodes[i], t.nodes[i]))
            && (forall i :: 0 <= i < MAX_NODES && i != idx && !t.nodes[i].valid ==> t'.nodes[i] == t.nodes[i])
            && Forest(t'.nodes, Pruned(kids, idx), rank)
  {
    DeleteNeedsLeaf(t, idx);
    DeleteKeepsForest(t.nodes, kids, rank, idx);
    PrunedIsDropKid(t.nodes, kids, rank, idx);
    assert idx in Live(t.nodes);
    hide Forest, Valid, Descendants, Pruned, DropKid;
  }

  predicate SameLinks(n: Node, m: Node) {
    n.parent == m.parent && n.firstChild == m.firstChild && n.nextSibling == m.nextSibling
  }

  /** Revoking a leaf changes nothing. */
  lemma RevokeLeaf(t: Tree, idx: nat)
    requires Valid(t) && idx < MAX_NODES && t.nodes[idx].valid && t.nodes[idx].firstChild == NIL
    ensures Revoke(t, idx).0 == t
  {
    DeleteNeedsLeaf(t, idx);
    hide Valid, Descendants;
    assert RevokedNodes(t.nodes, idx) == t.nodes;
  }

  /** A live child is in its parent's list. */
  lemma ListedUnder(nodes: seq<Node>, idx: nat) returns (kids: seq<seq<nat>>, rank: seq<nat>)
    requires IsForest(nodes) && idx < |nodes| == MAX_NODES && nodes[idx].valid && nodes[idx].parent != NIL
    ensures Forest(nodes, kids, rank) && nodes[idx].parent < MAX_NODES && idx in kids[nodes[idx].parent]
  {
    kids, rank :| Forest(nodes, kids, rank);
    assert ParentKnows(nodes, kids, idx);
  }

  lemma DetachRoot(nodes: seq<Node>, idx: nat)
    requires idx < |nodes| && nodes[idx].parent == NIL
    ensures Detach(nodes, idx) == nodes[idx := ERASED_NODE]
  {
  }

  // ----- Lookup

  predicate Matches(n: Node, cnodeId: nat, slot: nat) {
    n.valid && ((n.cnodeId == cnodeId && n.slot == slot)
                || (n.cptr == slot && cnodeId == 0)
                || n.cptr == BitOr(cnodeId * 256 % 0x1_0000_0000, slot))
  }

  /** What a node is found by: its node and slot, for node 0 its pointer, or pointer `node * 256 + slot`. */
  lemma LookupRules(n: Node, cnodeId: nat, slot: nat)
    requires cnodeId < 0x100_0000 && slot < 256
    ensures Matches(n, cnodeId, slot) <==>
            n.valid && ((n.cnodeId == cnodeId && n.slot == slot) || n.cptr == cnodeId * 256 + slot)
  {
    assert Pow2(8) == 256;
    BitOrIsSum(cnodeId, slot, 8);
    hide BitOr, Pow2;
  }

  // ----- Whole runs

  datatype Op = InsertOp(parent: nat, cptr: nat, cap: Cap) | RevokeOp(idx: nat) | DeleteOp(idx: nat)

  ghost predicate Shaped(t: Tree) {
    |t.nodes| == MAX_NODES && t.freeHead <= MAX_NODES
  }

  ghost function Step(t: Tree, op: Op): (t': Tree)
    requires Shaped(t)
    ensures Shaped(t')
  {
    match op
    case InsertOp(p, c, cap) => Insert(t, p, c, cap).0
    case RevokeOp(i) => Revoke(t, i).0
    case DeleteOp(i) => Delete(t, i).0
  }

  ghost function Run(ops: seq<Op>): (t: Tree)
    ensures Shaped(t)
  {
    if ops == [] then Init() else Step(Run(ops[..|ops| - 1]), ops[|ops| - 1])
  }

  /** Every insertion of the run names NIL or a node live at that moment as parent. */
  ghost predicate Legal(ops: seq<Op>) {
    forall k :: 0 <= k < |ops| && ops[k].InsertOp? ==> ParentOk(Run(ops[..k]), ops[k].parent)
  }

  /** Every legal run from a fresh table keeps a well-formed forest with exact count and free hint. */
  lemma {:induction false} RunIsValid(ops: seq<Op>)
    requires Legal(ops)
    ensures Valid(Run(ops))
  {
    if ops == [] {
      InitIsValid();
    } else {
      var n := |ops| - 1;
      forall k | 0 <= k < n && ops[..n][k].InsertOp?
        ensures ParentOk(Run(ops[..n][..k]), ops[..n][k].parent)
      {
        assert ops[..n][..k] == ops[..k];
      }
      RunIsValid(ops[..n]);
      var t := Run(ops[..n]);
      match ops[n]
      case InsertOp(p, c, cap) => InsertKeepsValid(t, p, c, cap);
      case RevokeOp(i) => RevokeKeepsValid(t, i);
      case DeleteOp(i) => DeleteKeepsValid(t, i);
    }
  }

  lemma {:induction false} ClimbEnds(nodes: seq<Node>, rank: seq<nat>, d: nat) returns (k: nat)
    requires Ranked(nodes, rank) && d < MAX_NODES
    ensures Climb(nodes, d, k) == NIL
    decreases rank[d]
  {
    k := 1;
    if nodes[d].parent != NIL {
      var j := ClimbEnds(nodes, rank, nodes[d].parent);
      k := j + 1;
    }
  }

  /**
    In every legal run the parent links never cycle and always end, from every slot, live or freed; a live node's
    parent is live.
   */
  lemma RunParentsNeverCycle(ops: seq<Op>, d: nat)
    requires Legal(ops) && d < MAX_NODES
    ensures EndsCleanly(Run(ops).nodes, d)
  {
    RunIsValid(ops);
    hide Run, EndsCleanly, Legal;
    ForestNeverCycles(Run(ops).nodes, d);
  }

  /** Climbing from `d` never comes back to it and ends; and if `d` is live, its parent is live or NIL. */
  ghost predicate EndsCleanly(nodes: seq<Node>, d: nat)
    requires d < |nodes|
  {
    && (forall k: nat :: k > 0 ==> Climb(nodes, d, k) != d)
    && (exists k: nat :: Climb(nodes, d, k) == NIL)
    && (nodes[d].valid && nodes[d].parent != NIL ==> nodes[d].parent < |nodes| && nodes[nodes[d].parent].valid)
  }

  lemma ForestNeverCycles(nodes: seq<Node>, d: nat)
    requires IsForest(nodes) && d < |nodes| == MAX_NODES
    ensures EndsCleanly(nodes, d)
  {
    var kids, rank :| Forest(nodes, kids, rank);
    if nodes[d].valid {
      LiveParent(nodes, d);
    }
    assert Ranked(nodes, rank);
    hide Forest, IsForest, Ranked;
    forall k: nat | k > 0
      ensures Climb(nodes, d, k) != d
    {
      if Climb(nodes, d, k) == d {
        ClimbRank(nodes, rank, d, k);
      }
    }
    var k := ClimbEnds(nodes, rank, d);
  }
}
