/** The derivation tree as the kernel keeps it: one array, updated in place (kernel/src/revoke.c). */
module MdbTree {
  import opened Kernel
  import opened Mdb

  class DerivationTree {
    const nodes: array<Node>
    var count: nat
    var freeHead: nat

    ghost function Value(): Tree
      reads this, nodes
    {
      Tree(nodes[..], count, freeHead)
    }

    ghost predicate Ok()
      reads this, nodes
    {
      Valid(Value())
    }

    constructor ()
      ensures Value() == Init() && Ok() && fresh(nodes)
    {
      nodes := new Node[MAX_NODES](_ => FRESH_NODE);
      count, freeHead := 0, 0;
      new;
      assert nodes[..] == Init().nodes;
      InitIsValid();
    }

    method FindFree() returns (idx: nat)
      requires nodes.Length == MAX_NODES && freeHead <= MAX_NODES
      ensures idx == FirstFree(nodes[..], freeHead)
    {
      idx := freeHead;
      while idx < MAX_NODES && nodes[idx].valid
        invariant freeHead <= idx <= MAX_NODES
        invariant FirstFree(nodes[..], freeHead) == FirstFree(nodes[..], idx)
      {
        idx := idx + 1;
      }
    }

    /** Fills slot `idx` and links it under its parent. */
    method Fill(idx: nat, parent: nat, cptr: nat, cap: Cap)
      requires idx < nodes.Length == MAX_NODES
      modifies nodes
      ensures nodes[..] == Attach(old(nodes[..]), idx, parent, cptr, cap)
    {
      nodes[idx] := Node(true, cptr, 0, 0, parent, NIL, NIL, cap, true);
      if parent != NIL && parent < MAX_NODES && nodes[parent].valid {
        nodes[idx] := nodes[idx].(nextSibling := nodes[parent].firstChild);
        nodes[parent] := nodes[parent].(firstChild := idx);
      }
    }

    method Add(parent: nat, cptr: nat, cap: Cap) returns (e: Error, idx: nat)
      requires Ok()
      modifies this, nodes
      ensures (Value(), e, idx) == Insert(old(Value()), parent, cptr, cap)
      ensures ParentOk(old(Value()), parent) ==> Ok()
    {
      hide Valid, Attach;
      ghost var t := Value();
      ValidIsShaped(t);
      if ParentOk(t, parent) {
        InsertKeepsValid(t, parent, cptr, cap);
      }
      if count >= MAX_NODES {
        return NoMem, NIL;
      }
      idx := FindFree();
      if idx >= MAX_NODES {
        return NoMem, NIL;
      }
      Fill(idx, parent, cptr, cap);
      count := count + 1;
      if idx == freeHead {
        freeHead := idx + 1;
      }
      e := Error.Ok;
    }

    method Lookup(cnodeId: nat, slot: nat) returns (r: nat)
      requires nodes.Length == MAX_NODES
      ensures r == NIL <==> forall i :: 0 <= i < MAX_NODES ==> !Matches(nodes[i], cnodeId, slot)
      ensures r != NIL ==> r < MAX_NODES && Matches(nodes[r], cnodeId, slot)
                           && forall i :: 0 <= i < r ==> !Matches(nodes[i], cnodeId, slot)
    {
      for i := 0 to MAX_NODES
        invariant forall j :: 0 <= j < i ==> !Matches(nodes[j], cnodeId, slot)
      {
        ghost var m := Matches(nodes[i], cnodeId, slot);
        hide BitOr;
        if !nodes[i].valid {
          continue;
        }
        if nodes[i].cnodeId == cnodeId && nodes[i].slot == slot {
          return i;
        }
        if nodes[i].cptr == slot && cnodeId == 0 {
          return i;
        }
        if nodes[i].cptr == BitOr(cnodeId * 256 % 0x1_0000_0000, slot) {
          return i;
        }
      }
      return NIL;
    }

    /** Decides the ancestor relation from every index, live or freed, and always terminates. */
    method IsDescendant(ancestor: nat, descendant: nat) returns (r: bool)
      requires Ok()
      ensures r <==> ancestor < MAX_NODES && IsAncestor(nodes[..], ancestor, descendant)
    {
      ghost var kids, rank :| Forest(nodes[..], kids, rank);
      var cur: nat := descendant;
      while cur != NIL && cur < MAX_NODES
        invariant ancestor < MAX_NODES ==>
                    (IsAncestor(nodes[..], ancestor, descendant) <==> IsAncestor(nodes[..], ancestor, cur))
        decreases if cur < MAX_NODES then 1 + rank[cur] else 0
      {
        if cur == ancestor {
          assert Climb(nodes[..], cur, 0) == ancestor;
          return true;
        }
        if ancestor < MAX_NODES {
          AncestorStep(nodes[..], ancestor, cur);
        }
        cur := nodes[cur].parent;
      }
      if ancestor < MAX_NODES {
        OutsideHasNoAncestor(nodes[..], ancestor, cur);
      }
      return false;
    }

    /** A revocation started from `orig` is under way: links are as they were, bookkeeping is exact. */
    ghost predicate Revoking(orig: seq<Node>, kids: seq<seq<nat>>, rank: seq<nat>)
      reads this, nodes
    {
      && Forest(orig, kids, rank)
      && nodes.Length == MAX_NODES
      && (forall i :: 0 <= i < MAX_NODES ==> SameLinks(nodes[i], orig[i]))
      && Counted()
    }

    ghost predicate Counted()
      reads this, nodes
    {
      && count == |Live(nodes[..])|
      && freeHead <= nodes.Length
      && (forall i :: 0 <= i < freeHead ==> nodes[i].valid)
    }

    /** Clears node `idx` and everything below it, and lowers the free hint to the lowest slot freed. */
    method RevokeRecursive(idx: nat, ghost orig: seq<Node>, ghost kids: seq<seq<nat>>, ghost rank: seq<nat>)
      requires Revoking(orig, kids, rank)
      requires idx < MAX_NODES && orig[idx].valid
      requires forall d :: d in Subtree(orig, idx) ==> nodes[d].valid
      modifies this, nodes
      ensures Revoking(orig, kids, rank)
      ensures nodes[..] == Clear(old(nodes[..]), Subtree(orig, idx))
      ensures freeHead <= old(freeHead) && (freeHead == old(freeHead) || freeHead in Subtree(orig, idx))
      decreases Bound(rank) - rank[idx], 1
    {
      SubtreeSplit(orig, idx);
      RevokeChildren(idx, orig, kids, rank);
      hide Forest, Descendants;
      ClearOne(old(nodes[..]), Descendants(orig, idx), idx);
      ClearNode(idx);
    }

    /** The last lines of mdb_revoke_recursive: clear the capability and the valid flag, lower the hint, count down. */
    method ClearNode(idx: nat)
      requires idx < nodes.Length == MAX_NODES && nodes[idx].valid && Counted()
      modifies this, nodes
      ensures Counted()
      ensures nodes[..] == old(nodes[..])[idx := old(nodes[idx]).(valid := false, cap := EMPTY_CAP)]
      ensures freeHead == if idx < old(freeHead) then idx else old(freeHead)
    {
      ghost var ns := nodes[..];
      nodes[idx] := nodes[idx].(valid := false, cap := EMPTY_CAP);
      assert nodes[..] == ns[idx := ns[idx].(valid := false, cap := EMPTY_CAP)];
      assert Live(nodes[..]) == Live(ns) - {idx} && idx in Live(ns);
      if idx < freeHead {
        freeHead := idx;
      }
      count := count - 1;
    }

    /** The loop over the child list, the same in mdb_revoke_recursive and mdb_revoke. */
    method RevokeChildren(idx: nat, ghost orig: seq<Node>, ghost kids: seq<seq<nat>>, ghost rank: seq<nat>)
      requires Revoking(orig, kids, rank)
      requires idx < MAX_NODES && orig[idx].valid
      requires forall d :: d in Descendants(orig, idx) ==> nodes[d].valid
      modifies this, nodes
      ensures Revoking(orig, kids, rank)
      ensures nodes[..] == Clear(old(nodes[..]), Descendants(orig, idx))
      ensures freeHead <= old(freeHead) && (freeHead == old(freeHead) || freeHead in Descendants(orig, idx))
      decreases Bound(rank) - rank[idx], 0
    {
      ghost var s, j := kids[idx], 0;
      assert ListOf(orig, s, idx);
      var child := nodes[idx].firstChild;
      while child != NIL
        invariant j <= |s| && child == At(s, j)
        invariant Revoking(orig, kids, rank)
        invariant nodes[..] == Clear(old(nodes[..]), Under(orig, s, j))
        invariant freeHead <= old(freeHead) && (freeHead == old(freeHead) || freeHead in Under(orig, s, j))
        decreases |s| - j
      {
        ChildStillWhole(orig, kids, rank, idx, j);
        ClearTwice(old(nodes[..]), Under(orig, s, j), Subtree(orig, s[j]));
        UnderNext(orig, s, j);
        var next := nodes[child].nextSibling;
        RevokeRecursive(child, orig, kids, rank);
        child := next;
        j := j + 1;
      }
      if j < |s| {
        ChildStillWhole(orig, kids, rank, idx, j);
      }
      UnderAll(orig, kids, rank, idx);
    }

    /** Frees exactly the live descendants of `idx`. */
    method RevokeAt(idx: nat) returns (e: Error)
      requires Ok()
      modifies this, nodes
      ensures (Value(), e) == Revoke(old(Value()), idx)
      ensures Ok()
    {
      if idx >= MAX_NODES {
        return InvalidArg;
      }
      if !nodes[idx].valid {
        return InvalidCap;
      }
      ghost var t := Value();
      ghost var kids, rank :| Forest(nodes[..], kids, rank);
      RevokeChildren(idx, t.nodes, kids, rank);
      RevokeKeepsValid(t, idx);
      RevokeTotals(t, idx, Value());
      nodes[idx] := nodes[idx].(firstChild := NIL);
      assert nodes[..] == RevokedNodes(t.nodes, idx);
      return Error.Ok;
    }

    /** Unlinks and erases a leaf. `inFirst` and `holder` name the link cell under the pointer of the C loop. */
    method DeleteAt(idx: nat) returns (e: Error)
      requires Ok()
      modifies this, nodes
      ensures (Value(), e) == Delete(old(Value()), idx)
      ensures Ok()
    {
      if idx >= MAX_NODES {
        return InvalidArg;
      }
      if !nodes[idx].valid {
        return InvalidCap;
      }
      if nodes[idx].firstChild != NIL {
        return RevokeNeeded;
      }
      ghost var t := Value();
      DeleteKeepsValid(t, idx);
      LiveParent(t.nodes, idx);
      assert idx in Live(t.nodes);
      hide IsForest, Live;
      var parent := nodes[idx].parent;
      if parent != NIL {
        ghost var kids, rank := ListedUnder(t.nodes, idx);
        Unlink(parent, idx, t.nodes, kids, rank);
      } else {
        DetachRoot(t.nodes, idx);
      }
      nodes[idx] := ERASED_NODE;
      if idx < freeHead {
        freeHead := idx;
      }
      count := count - 1;
      return Error.Ok;
    }

    method Unlink(parent: nat, idx: nat, ghost orig: seq<Node>, ghost kids: seq<seq<nat>>, ghost rank: seq<nat>)
      requires nodes[..] == orig && Forest(orig, kids, rank)
      requires idx < MAX_NODES && orig[idx].valid && orig[idx].parent == parent
      requires parent < MAX_NODES && idx in kids[parent]
      modifies nodes
      ensures nodes[..][idx := ERASED_NODE] == Detach(orig, idx)
    {
      ghost var s, j := kids[parent], 0;
      ghost var pos: nat :| pos < |s| && s[pos] == idx;
      assert ListOf(orig, s, parent) && Entry(orig, s, parent, 0);
      var inFirst, holder := true, parent;
      var cur := nodes[parent].firstChild;
      while cur != NIL
        invariant j <= pos && cur == s[j] && cur < MAX_NODES
        invariant inFirst == (j == 0) && holder == if j == 0 then parent else s[j - 1]
        invariant nodes[..] == orig
        decreases pos - j
      {
        if cur == idx {
          break;
        }
        assert Entry(orig, s, parent, j) && Entry(orig, s, parent, j + 1);
        inFirst, holder, cur := false, cur, nodes[cur].nextSibling;
        j := j + 1;
      }
      RelinkIsDetach(orig, kids, rank, idx, parent, pos, holder);
      if inFirst {
        nodes[holder] := nodes[holder].(firstChild := nodes[idx].nextSibling);
      } else {
        nodes[holder] := nodes[holder].(nextSibling := nodes[idx].nextSibling);
      }
      assert nodes[..] == Relink(orig, inFirst, holder, orig[idx].nextSibling);
    }
  }
}
