/**
  Processes in a derivation tree that also holds other capabilities (kernel/src/process.c over kernel/src/revoke.c): the
  booted kernel inserts root and retyped capabilities first, so thread and node numbers are not in step, and mdb_lookup
  may find somebody else's node for a dying process.
 */
module Foreign {
  import opened Kernel
  import opened Tcb
  import Alloc
  import Mdb
  import opened Process

  /** The node recorded for each process that has one; creation ignores a full tree, so some may have none. */
  type Own = map<nat, nat>

  /**
    `roots` is the tree at the start: its live nodes are still there, unchanged; every other live node is the childless
    root recorded for a process in use.
   */
  ghost predicate OwnInv(sys: System, own: Own, roots: seq<Mdb.Node>) {
    && Ready(sys) && |roots| == |sys.mdb.nodes| == Mdb.MAX_NODES
    && (forall i :: i in own ==> OwnNode(sys, own, roots, i))
    && (forall n :: 0 <= n < Mdb.MAX_NODES ==> Accounted(sys, own, roots, n))
  }

  ghost predicate OwnNode(sys: System, own: Own, roots: seq<Mdb.Node>, i: nat)
    requires i in own && |roots| == |sys.mdb.nodes| == Mdb.MAX_NODES
  {
    && i < |sys.tcbs| && InUse(sys.tcbs[i])
    && own[i] < Mdb.MAX_NODES && !roots[own[i]].valid
    && sys.mdb.nodes[own[i]].valid && StackNode(sys.mdb.nodes[own[i]], i)
  }

  ghost predicate Accounted(sys: System, own: Own, roots: seq<Mdb.Node>, n: nat)
    requires |roots| == |sys.mdb.nodes| == Mdb.MAX_NODES && n < Mdb.MAX_NODES
  {
    var node := sys.mdb.nodes[n];
    if roots[n].valid then node == roots[n] && node.cnodeId == 0 && node.slot == 0
    else node.valid ==> node.cptr in own && own[node.cptr] == n
  }

  /** No process yet, and a tree of nodes as mdb_insert makes them. */
  ghost predicate Start(sys: System) {
    && Ready(sys) && (forall i :: 0 <= i < MAX_TCBS ==> !InUse(sys.tcbs[i]))
    && forall n :: 0 <= n < |sys.mdb.nodes| && sys.mdb.nodes[n].valid ==>
         sys.mdb.nodes[n].cnodeId == 0 && sys.mdb.nodes[n].slot == 0
  }

  lemma StartIsOwn(sys: System)
    requires Start(sys)
    ensures OwnInv(sys, map[], sys.mdb.nodes)
  {
    ValidSize(sys.mdb);
    hide Mdb.Valid;
  }

  // ----- Which node the lookup finds

  /**
    What to check before destroying `id`: no lower live node carries its number; for process 0, no lower live node at
    all.
   */
  ghost predicate Clear(sys: System, own: Own, id: nat)
    requires |sys.mdb.nodes| == Mdb.MAX_NODES
  {
    var end := if id in own then own[id] else Mdb.MAX_NODES;
    forall n :: 0 <= n < end && n < Mdb.MAX_NODES && sys.mdb.nodes[n].valid ==>
      id != 0 && sys.mdb.nodes[n].cptr != id
  }

  lemma MatchIs(sys: System, own: Own, roots: seq<Mdb.Node>, n: nat, id: nat)
    requires OwnInv(sys, own, roots) && n < Mdb.MAX_NODES
    ensures Mdb.Matches(sys.mdb.nodes[n], 0, id) <==>
            sys.mdb.nodes[n].valid && (id == 0 || sys.mdb.nodes[n].cptr == id)
  {
    assert Accounted(sys, own, roots, n);
    var c := sys.mdb.nodes[n].cptr;
    if sys.mdb.nodes[n].valid && !roots[n].valid {
      assert OwnNode(sys, own, roots, c);
    }
  }

  /** The lookup finds the dying process's own node, or none if it has none, if and only if the way to it is clear. */
  lemma LookupIsClear(sys: System, own: Own, roots: seq<Mdb.Node>, id: nat)
    requires OwnInv(sys, own, roots)
    ensures FirstMatch(sys.mdb.nodes, id, 0) == (if id in own then own[id] else Mdb.NIL) <==> Clear(sys, own, id)
  {
    var nodes := sys.mdb.nodes;
    if id in own {
      assert OwnNode(sys, own, roots, id);
      MatchIs(sys, own, roots, own[id], id);
    }
    forall n: nat | n < Mdb.MAX_NODES
      ensures Mdb.Matches(nodes[n], 0, id) <==> nodes[n].valid && (id == 0 || nodes[n].cptr == id)
    {
      MatchIs(sys, own, roots, n, id);
    }
    hide OwnInv, Mdb.Matches;
  }

  /** The same told from the foreign nodes: which of them stand in the way of which process. */
  lemma ClearIsForeign(sys: System, own: Own, roots: seq<Mdb.Node>, id: nat)
    requires OwnInv(sys, own, roots) && id in own
    ensures Clear(sys, own, id) <==>
            && (forall n :: 0 <= n < own[id] && n < Mdb.MAX_NODES && roots[n].valid ==> id != 0 && roots[n].cptr != id)
            && (id == 0 ==> forall j :: j in own ==> own[0] <= own[j])
  {
    assert OwnNode(sys, own, roots, id);
    forall n: nat | n < own[id]
      ensures roots[n].valid ==> sys.mdb.nodes[n] == roots[n]
      ensures sys.mdb.nodes[n].valid && !roots[n].valid ==>
                sys.mdb.nodes[n].cptr != id && sys.mdb.nodes[n].cptr in own && own[sys.mdb.nodes[n].cptr] == n
    {
      assert Accounted(sys, own, roots, n);
    }
    forall j | j in own
      ensures own[j] < Mdb.MAX_NODES && sys.mdb.nodes[own[j]].valid
    {
      assert OwnNode(sys, own, roots, j);
    }
    hide OwnInv;
  }

  // ----- Steps

  /** The record after a creation: the new process gets the node that was inserted, if the tree had room. */
  ghost function CreateOwn(sys: System, own: Own, args: Args): Own
    requires Ready(sys)
  {
    var (_, e, id) := Create(sys, args);
    if e != Ok then own
    else
      var stack := Alloc.AllocFrame(sys.alloc, args.partition, args.stackSize).2;
      var (_, em, idx) := Mdb.Insert(sys.mdb, Mdb.NIL, id, stack);
      if em == Ok then own[id := idx] else own
  }

  lemma CreateKeepsOwn(sys: System, own: Own, roots: seq<Mdb.Node>, args: Args)
    requires OwnInv(sys, own, roots) && (args.pc != 0 || args.spTop != 0)
    ensures OwnInv(Create(sys, args).0, CreateOwn(sys, own, args), roots)
  {
    CreateKeepsReady(sys, args);
    CreateCases(sys, args);
    var (sys', e, id) := Create(sys, args);
    var stack := Alloc.AllocFrame(sys.alloc, args.partition, args.stackSize).2;
    hide Create, Ready, Alloc.AllocFrame, Admit;
    if e == Ok {
      InsertRoot(sys.mdb, id, stack);
      var (_, em, idx) := Mdb.Insert(sys.mdb, Mdb.NIL, id, stack);
      hide Mdb.Insert, Mdb.Valid;
      if em == Ok {
        NodeAdded(sys, own, roots, sys', id, idx);
      } else {
        FreshSlotOnly(sys, own, roots, sys');
      }
    } else {
      FreshSlotOnly(sys, own, roots, sys');
    }
  }

  /** A refused creation at most zeroes a free slot. */
  lemma FreshSlotOnly(sys: System, own: Own, roots: seq<Mdb.Node>, sys': System)
    requires OwnInv(sys, own, roots) && Ready(sys') && sys'.mdb == sys.mdb && |sys.tcbs| == |sys'.tcbs|
    requires forall i :: 0 <= i < |sys.tcbs| && InUse(sys.tcbs[i]) ==> InUse(sys'.tcbs[i])
    ensures OwnInv(sys', own, roots)
  {
    hide Ready;
    forall i | i in own
      ensures OwnNode(sys', own, roots, i)
    {
      assert OwnNode(sys, own, roots, i);
    }
    forall n | 0 <= n < Mdb.MAX_NODES
      ensures Accounted(sys', own, roots, n)
    {
      assert Accounted(sys, own, roots, n);
    }
  }

  lemma NodeAdded(sys: System, own: Own, roots: seq<Mdb.Node>, sys': System, id: nat, idx: nat)
    requires OwnInv(sys, own, roots) && Ready(sys') && id < |sys.tcbs| == |sys'.tcbs| && !InUse(sys.tcbs[id])
    requires sys'.tcbs == sys.tcbs[id := sys'.tcbs[id]] && InUse(sys'.tcbs[id])
    requires idx < |sys.mdb.nodes| == |sys'.mdb.nodes| && !sys.mdb.nodes[idx].valid && sys'.mdb.nodes[idx].valid
    requires sys'.mdb.nodes == sys.mdb.nodes[idx := sys'.mdb.nodes[idx]] && StackNode(sys'.mdb.nodes[idx], id)
    ensures OwnInv(sys', own[id := idx], roots)
  {
    hide Ready;
    var own' := own[id := idx];
    FreeHasNoNode(sys, own, roots, id);
    assert Accounted(sys, own, roots, idx);
    forall i | i in own'
      ensures OwnNode(sys', own', roots, i)
    {
      if i in own {
        assert OwnNode(sys, own, roots, i);
      }
    }
    forall n | 0 <= n < Mdb.MAX_NODES
      ensures Accounted(sys', own', roots, n)
    {
      assert Accounted(sys, own, roots, n);
    }
  }

  /** The node that went was live and not the dying process's: a node of the start tree, or another process's own. */
  ghost predicate WrongErased(sys: System, sys': System, own: Own, roots: seq<Mdb.Node>, id: nat)
    requires |roots| == |sys.mdb.nodes| == Mdb.MAX_NODES
  {
    var n := FirstMatch(sys.mdb.nodes, id, 0);
    && n < Mdb.MAX_NODES == |sys'.mdb.nodes| && sys.mdb.nodes[n].valid && !sys'.mdb.nodes[n].valid
    && (roots[n].valid || exists j :: j in own && j != id && own[j] == n)
  }

  lemma NotOwnIsWrong(sys: System, own: Own, roots: seq<Mdb.Node>, id: nat, n: nat)
    requires OwnInv(sys, own, roots) && n < Mdb.MAX_NODES && sys.mdb.nodes[n].valid && (id in own ==> own[id] != n)
    ensures roots[n].valid || exists j :: j in own && j != id && own[j] == n
  {
    assert Accounted(sys, own, roots, n);
    if !roots[n].valid {
      var j := sys.mdb.nodes[n].cptr;
      assert j in own && own[j] == n;
    }
  }

  /**
    Destroying a process in use keeps the record - its own node and no other is gone - if and only if the way to its
    node was clear. Otherwise a foreign node, or another process's, is erased in its place.
   */
  lemma DestroyIsExact(sys: System, own: Own, roots: seq<Mdb.Node>, id: nat)
    requires OwnInv(sys, own, roots) && id < MAX_TCBS && InUse(sys.tcbs[id])
    ensures OwnInv(Destroy(sys, id).0, own - {id}, roots) <==> Clear(sys, own, id)
    ensures !Clear(sys, own, id) ==> WrongErased(sys, Destroy(sys, id).0, own, roots, id)
  {
    DestroyKeepsReady(sys, id);
    LookupIsClear(sys, own, roots, id);
    var sys' := Destroy(sys, id).0;
    assert sys'.mdb == Forget(sys.mdb, id) && sys'.tcbs == sys.tcbs[id := EmptyThread()];
    ValidSize(sys.mdb);
    var found := FirstMatch(sys.mdb.nodes, id, 0);
    hide Clear, Destroy, Mdb.Valid;
    if id in own && found == own[id] {
      assert OwnNode(sys, own, roots, id);
      ForgetErases(sys.mdb, id, own[id]);
      hide Forget;
      NodeRemoved(sys, own, roots, sys', id);
    } else if id !in own && found == Mdb.NIL {
      NobodyRemoved(sys, own, roots, sys', id);
    } else if found == Mdb.NIL {
      assert OwnNode(sys, own, roots, id);
      MatchIs(sys, own, roots, own[id], id);
    } else {
      ForgetFreesFound(sys.mdb, id);
      hide Forget;
      WrongRemoved(sys, own, roots, sys', id, found);
      NotOwnIsWrong(sys, own, roots, id, found);
    }
  }

  lemma NodeRemoved(sys: System, own: Own, roots: seq<Mdb.Node>, sys': System, id: nat)
    requires OwnInv(sys, own, roots) && Ready(sys') && id in own && own[id] < |sys.mdb.nodes| && id < |sys.tcbs|
    requires sys'.tcbs == sys.tcbs[id := EmptyThread()]
    requires sys'.mdb.nodes == sys.mdb.nodes[own[id] := Mdb.ERASED_NODE]
    ensures OwnInv(sys', own - {id}, roots)
  {
    hide Ready;
    assert OwnNode(sys, own, roots, id);
    forall i | i in own - {id}
      ensures OwnNode(sys', own - {id}, roots, i)
    {
      assert OwnNode(sys, own, roots, i);
    }
    forall n | 0 <= n < Mdb.MAX_NODES
      ensures Accounted(sys', own - {id}, roots, n)
    {
      assert Accounted(sys, own, roots, n);
    }
  }

  lemma NobodyRemoved(sys: System, own: Own, roots: seq<Mdb.Node>, sys': System, id: nat)
    requires OwnInv(sys, own, roots) && Ready(sys') && id !in own && id < |sys.tcbs|
    requires sys'.tcbs == sys.tcbs[id := EmptyThread()] && sys'.mdb == sys.mdb
    ensures OwnInv(sys', own - {id}, roots)
  {
    hide Ready;
    assert own - {id} == own;
    forall i | i in own
      ensures OwnNode(sys', own, roots, i)
    {
      assert OwnNode(sys, own, roots, i);
    }
    forall n | 0 <= n < Mdb.MAX_NODES
      ensures Accounted(sys', own, roots, n)
    {
      assert Accounted(sys, own, roots, n);
    }
  }

  /** If a node is gone that is not the dying process's own, the record is broken. */
  lemma WrongRemoved(sys: System, own: Own, roots: seq<Mdb.Node>, sys': System, id: nat, n: nat)
    requires OwnInv(sys, own, roots) && n < Mdb.MAX_NODES && sys.mdb.nodes[n].valid && (id in own ==> own[id] != n)
    requires |sys'.mdb.nodes| == Mdb.MAX_NODES && !sys'.mdb.nodes[n].valid
    ensures !OwnInv(sys', own - {id}, roots)
  {
    if OwnInv(sys', own - {id}, roots) {
      OthersStay(sys, own, roots, sys', id, n);
    }
  }

  lemma OthersStay(sys: System, own: Own, roots: seq<Mdb.Node>, sys': System, id: nat, n: nat)
    requires OwnInv(sys, own, roots) && n < Mdb.MAX_NODES && sys.mdb.nodes[n].valid && (id in own ==> own[id] != n)
    requires OwnInv(sys', own - {id}, roots)
    ensures sys'.mdb.nodes[n].valid
  {
    hide Ready;
    assert Accounted(sys, own, roots, n) && Accounted(sys', own - {id}, roots, n);
    if !roots[n].valid {
      assert OwnNode(sys', own - {id}, roots, sys.mdb.nodes[n].cptr);
    }
  }

  lemma FreeHasNoNode(sys: System, own: Own, roots: seq<Mdb.Node>, id: nat)
    requires OwnInv(sys, own, roots) && id < |sys.tcbs| && !InUse(sys.tcbs[id])
    ensures id !in own
  {
  }

  /**
    As at boot: a root capability inserted first hides process 0's node. Destroying process 0 erases the root capability
    and leaves the stack of the dead process live.
   */
  lemma BootNodeHidesProcessZero(untyped: Cap, stack: Cap)
    ensures var t0 := Mdb.Insert(Mdb.Init(), Mdb.NIL, 0, untyped).0;
            Mdb.Shaped(t0) &&
            var (t1, e, own) := Mdb.Insert(t0, Mdb.NIL, 0, stack);
            && e == Ok && own == 1 && Mdb.Valid(t1) && |t1.nodes| == Mdb.MAX_NODES && FirstMatch(t1.nodes, 0, 0) == 0
            && Forget(t1, 0).nodes == t1.nodes[0 := Mdb.ERASED_NODE] && t1.nodes[0].cap == untyped && t1.nodes[1].valid
  {
    Mdb.InitIsValid();
    Mdb.InsertTakesLowest(Mdb.Init(), Mdb.NIL, 0, untyped);
    Mdb.InsertKeepsValid(Mdb.Init(), Mdb.NIL, 0, untyped);
    var t0 := Mdb.Insert(Mdb.Init(), Mdb.NIL, 0, untyped).0;
    Mdb.InsertTakesLowest(t0, Mdb.NIL, 0, stack);
    Mdb.InsertKeepsValid(t0, Mdb.NIL, 0, stack);
    hide Mdb.Valid;
    assert !Mdb.Init().nodes[0].valid && !Mdb.Init().nodes[1].valid;
    assert !t0.nodes[1].valid && t0.nodes[0].valid;
    ForgetErases(Mdb.Insert(t0, Mdb.NIL, 0, stack).0, 0, 0);
  }

  // ----- Whole runs

  ghost function Next(sys: System, own: Own, op: Op): (System, Own)
    requires Ready(sys) && OpOk(op)
  {
    match op
    case CreateOp(args) => (Create(sys, args).0, CreateOwn(sys, own, args))
    case DestroyOp(id) =>
      if id < MAX_TCBS && InUse(sys.tcbs[id]) then (Destroy(sys, id).0, own - {id}) else (sys, own)
    case ConfigureOp(id, c) => (ConfigureLive(sys, id, c), own)
  }

  /** The step does not destroy a process whose node stands behind another that the lookup takes for it. */
  ghost predicate SafeOp(sys: System, own: Own, op: Op)
    requires Ready(sys)
  {
    ValidSize(sys.mdb);
    op.DestroyOp? && op.id < MAX_TCBS && InUse(sys.tcbs[op.id]) ==> Clear(sys, own, op.id)
  }

  lemma NextIsReady(sys: System, own: Own, op: Op)
    requires Ready(sys) && OpOk(op)
    ensures Ready(Next(sys, own, op).0)
  {
    match op
    case CreateOp(args) => CreateKeepsReady(sys, args);
    case DestroyOp(id) => DestroyKeepsReady(sys, id);
    case ConfigureOp(id, c) =>
  }

  lemma NextIsExact(sys: System, own: Own, roots: seq<Mdb.Node>, op: Op)
    requires OwnInv(sys, own, roots) && OpOk(op)
    ensures OwnInv(Next(sys, own, op).0, Next(sys, own, op).1, roots) <==> SafeOp(sys, own, op)
  {
    NextIsReady(sys, own, op);
    match op
    case CreateOp(args) => CreateKeepsOwn(sys, own, roots, args);
    case DestroyOp(id) =>
      if id < MAX_TCBS && InUse(sys.tcbs[id]) { DestroyIsExact(sys, own, roots, id); }
    case ConfigureOp(id, c) => FreshSlotOnly(sys, own, roots, ConfigureLive(sys, id, c));
  }

  ghost predicate SafeRun(sys: System, own: Own, ops: seq<Op>)
    requires Ready(sys) && forall op :: op in ops ==> OpOk(op)
    decreases |ops|
  {
    if ops == [] then true
    else
      NextIsReady(sys, own, ops[0]);
      var (sys', own') := Next(sys, own, ops[0]);
      SafeOp(sys, own, ops[0]) && SafeRun(sys', own', ops[1..])
  }

  /** The record holds now and after every step of the run. */
  ghost predicate AlwaysOwn(sys: System, own: Own, roots: seq<Mdb.Node>, ops: seq<Op>)
    requires Ready(sys) && forall op :: op in ops ==> OpOk(op)
    decreases |ops|
  {
    && OwnInv(sys, own, roots)
    && (ops == [] ||
        (NextIsReady(sys, own, ops[0]);
         var (sys', own') := Next(sys, own, ops[0]);
         AlwaysOwn(sys', own', roots, ops[1..])))
  }

  lemma {:induction false} SafeRunIsExact(sys: System, own: Own, roots: seq<Mdb.Node>, ops: seq<Op>)
    requires OwnInv(sys, own, roots) && forall op :: op in ops ==> OpOk(op)
    ensures AlwaysOwn(sys, own, roots, ops) <==> SafeRun(sys, own, ops)
    decreases |ops|
  {
    assert Ready(sys);
    hide OwnInv, Next, SafeOp, Ready;
    if ops != [] {
      NextIsReady(sys, own, ops[0]);
      NextIsExact(sys, own, roots, ops[0]);
      var (sys', own') := Next(sys, own, ops[0]);
      if OwnInv(sys', own', roots) {
        SafeRunIsExact(sys', own', roots, ops[1..]);
      }
    }
  }

  /**
    From any tree and no process: throughout a run of creations, destructions and configurations every foreign node
    survives unchanged and every destruction erases the dying process's own node, if and only if at each destruction no
    lower live node carries the process's number and, for process 0, no lower live node exists.
   */
  lemma RunIsExact(sys: System, ops: seq<Op>)
    requires Start(sys) && forall op :: op in ops ==> OpOk(op)
    ensures AlwaysOwn(sys, map[], sys.mdb.nodes, ops) <==> SafeRun(sys, map[], ops)
  {
    StartIsOwn(sys);
    SafeRunIsExact(sys, map[], sys.mdb.nodes, ops);
  }

  /** Foreign nodes that carry no thread number, and a run that never destroys process 0: a check to make beforehand. */
  ghost predicate Apart(roots: seq<Mdb.Node>, ops: seq<Op>) {
    && (forall n :: 0 <= n < |roots| && roots[n].valid ==> roots[n].cptr == 0 || roots[n].cptr >= MAX_TCBS)
    && (forall op :: op in ops && op.DestroyOp? ==> op.id != 0)
  }

  lemma ApartIsClear(sys: System, own: Own, roots: seq<Mdb.Node>, id: nat)
    requires OwnInv(sys, own, roots) && 0 < id < MAX_TCBS
    requires forall n :: 0 <= n < |roots| && roots[n].valid ==> roots[n].cptr == 0 || roots[n].cptr >= MAX_TCBS
    ensures Clear(sys, own, id)
  {
    hide Ready;
    forall n: nat | n < Mdb.MAX_NODES && sys.mdb.nodes[n].valid && sys.mdb.nodes[n].cptr == id
      ensures id in own && own[id] == n
    {
      assert Accounted(sys, own, roots, n);
    }
  }

  lemma {:induction false} ApartIsSafe(sys: System, own: Own, roots: seq<Mdb.Node>, ops: seq<Op>)
    requires OwnInv(sys, own, roots) && (forall op :: op in ops ==> OpOk(op)) && Apart(roots, ops)
    ensures SafeRun(sys, own, ops)
    decreases |ops|
  {
    if ops != [] {
      var op := ops[0];
      if op.DestroyOp? && op.id < MAX_TCBS {
        ApartIsClear(sys, own, roots, op.id);
      }
      NextIsReady(sys, own, op);
      NextIsExact(sys, own, roots, op);
      assert SafeOp(sys, own, op);
      hide OwnInv, Next, SafeOp, Ready;
      var (sys', own') := Next(sys, own, op);
      ApartIsSafe(sys', own', roots, ops[1..]);
    }
  }

  /** From the booted kernel's tree too: such runs erase own nodes only and leave every foreign node alone. */
  lemma RunSparesForeign(sys: System, ops: seq<Op>)
    requires Start(sys) && (forall op :: op in ops ==> OpOk(op)) && Apart(sys.mdb.nodes, ops)
    ensures AlwaysOwn(sys, map[], sys.mdb.nodes, ops)
  {
    StartIsOwn(sys);
    ApartIsSafe(sys, map[], sys.mdb.nodes, ops);
    SafeRunIsExact(sys, map[], sys.mdb.nodes, ops);
  }
}
