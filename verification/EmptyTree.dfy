/**
  Processes in a derivation tree that holds nothing else (kernel/src/process.c over kernel/src/revoke.c): thread and
  node numbers stay in step, so that the overlapping rules of mdb_lookup find the right node.
 */
module EmptyTree {
  import opened Kernel
  import opened Tcb
  import Alloc
  import Mdb
  import opened Process

  /** Node `i` of the tree is live exactly when thread `i` is in use, as a childless root carrying `i`. */
  ghost predicate Lockstep(tcbs: seq<Thread>, nodes: seq<Mdb.Node>) {
    && |tcbs| == MAX_TCBS && |nodes| == Mdb.MAX_NODES
    && forall i :: 0 <= i < Mdb.MAX_NODES ==>
         && (nodes[i].valid <==> i < MAX_TCBS && InUse(tcbs[i]))
         && (nodes[i].valid ==> StackNode(nodes[i], i))
  }

  /**
    In lockstep the tree's lowest free slot is the thread table's, so the new process's node gets the thread's index.
   */
  lemma InsertInLockstep(tcbs: seq<Thread>, t: Mdb.Tree, id: nat, th: Thread, stack: Cap)
    requires Mdb.Valid(t) && Lockstep(tcbs, t.nodes) && id == FirstFree(tcbs, 0) < MAX_TCBS && InUse(th)
    ensures var (t', e, idx) := Mdb.Insert(t, Mdb.NIL, id, stack);
            e == Ok && idx == id && Mdb.Valid(t') && Lockstep(tcbs[id := th], t'.nodes)
  {
    Mdb.InsertTakesLowest(t, Mdb.NIL, id, stack);
    Mdb.InsertKeepsValid(t, Mdb.NIL, id, stack);
    hide Mdb.Valid;
    assert !t.nodes[MAX_TCBS].valid;
    var (t', e, idx) := Mdb.Insert(t, Mdb.NIL, id, stack);
    assert idx == id;
    assert t'.nodes == t.nodes[id := Mdb.Node(true, id, 0, 0, Mdb.NIL, Mdb.NIL, Mdb.NIL, stack, true)];
  }

  /** The overlapping rules of mdb_lookup find the dying process's own node. */
  lemma LookupFindsOwnNode(tcbs: seq<Thread>, nodes: seq<Mdb.Node>, id: nat)
    requires Lockstep(tcbs, nodes) && id < MAX_TCBS && InUse(tcbs[id])
    ensures FirstMatch(nodes, id, 0) == id
  {
    assert Mdb.Matches(nodes[id], 0, id);
    forall i: nat | i < id
      ensures !Mdb.Matches(nodes[i], 0, id)
    {
      assert nodes[i].valid ==> StackNode(nodes[i], i);
    }
  }

  lemma LockstepShrinks(tcbs: seq<Thread>, nodes: seq<Mdb.Node>, id: nat)
    requires Lockstep(tcbs, nodes) && id < MAX_TCBS
    ensures Lockstep(tcbs[id := EmptyThread()], nodes[id := Mdb.ERASED_NODE])
  {
  }

  lemma OwnNodeErased(tcbs: seq<Thread>, t: Mdb.Tree, id: nat)
    requires Mdb.Valid(t) && Lockstep(tcbs, t.nodes) && id < MAX_TCBS && InUse(tcbs[id])
    ensures FirstMatch(t.nodes, id, 0) == id
    ensures Mdb.Valid(Forget(t, id)) && Forget(t, id).nodes == t.nodes[id := Mdb.ERASED_NODE]
  {
    hide Mdb.Valid, Forget;
    LookupFindsOwnNode(tcbs, t.nodes, id);
    assert t.nodes[id].valid && StackNode(t.nodes[id], id);
    ForgetErases(t, id, id);
  }

  // ----- Steps

  lemma CreateKeepsLockstep(sys: System, args: Args)
    requires Ready(sys) && Lockstep(sys.tcbs, sys.mdb.nodes) && FreeIsEmpty(sys.tcbs)
    requires args.pc != 0 || args.spTop != 0
    ensures var sys' := Create(sys, args).0; Lockstep(sys'.tcbs, sys'.mdb.nodes)
  {
    CreateCases(sys, args);
    var id := FirstFree(sys.tcbs, 0);
    if id < MAX_TCBS {
      assert sys.tcbs[id := EmptyThread()] == sys.tcbs;
      var stack := Alloc.AllocFrame(sys.alloc, args.partition, args.stackSize).2;
      var c := Admit(sys.sched, id, args).2;
      InsertInLockstep(sys.tcbs, sys.mdb, id, NewThread(id, args, stack, c), stack);
    }
    hide Create, Lockstep, Mdb.Insert, Alloc.AllocFrame, Admit, Ready, Mdb.Valid;
  }

  lemma DestroyKeepsLockstep(sys: System, id: nat)
    requires Ready(sys) && Lockstep(sys.tcbs, sys.mdb.nodes)
    ensures var sys' := Destroy(sys, id).0; Lockstep(sys'.tcbs, sys'.mdb.nodes)
  {
    if id < MAX_TCBS && InUse(sys.tcbs[id]) {
      OwnNodeErased(sys.tcbs, sys.mdb, id);
      LockstepShrinks(sys.tcbs, sys.mdb.nodes, id);
    }
    hide Lockstep, Forget, Mdb.Valid;
  }

  /** Only which threads are in use matters. */
  lemma SameUseKeepsLockstep(ts: seq<Thread>, us: seq<Thread>, nodes: seq<Mdb.Node>)
    requires Lockstep(ts, nodes) && |us| == |ts| && forall i :: 0 <= i < |ts| ==> (InUse(us[i]) <==> InUse(ts[i]))
    ensures Lockstep(us, nodes)
  {
  }

  lemma StepKeepsLockstep(sys: System, op: Op)
    requires Inv(sys) && OpOk(op) && Lockstep(sys.tcbs, sys.mdb.nodes)
    ensures var sys' := Step(sys, op); Lockstep(sys'.tcbs, sys'.mdb.nodes)
  {
    match op
    case CreateOp(args) => CreateKeepsLockstep(sys, args);
    case DestroyOp(id) => DestroyKeepsLockstep(sys, id);
    case ConfigureOp(id, c) => SameUseKeepsLockstep(sys.tcbs, ConfigureLive(sys, id, c).tcbs, sys.mdb.nodes);
  }

  // ----- Whole runs

  /** No processes, and nothing in the tree. */
  ghost predicate Fresh(sys: System) {
    NoProcesses(sys) && sys.mdb == Mdb.Init()
  }

  lemma {:induction false} RunStaysLockstep(sys: System, ops: seq<Op>)
    requires Inv(sys) && (forall op :: op in ops ==> OpOk(op)) && Lockstep(sys.tcbs, sys.mdb.nodes)
    ensures var sys' := Run(sys, ops); Lockstep(sys'.tcbs, sys'.mdb.nodes)
  {
    hide Inv, Step, Lockstep;
    if ops != [] {
      RunStaysLockstep(sys, ops[..|ops| - 1]);
      StepKeepsLockstep(Run(sys, ops[..|ops| - 1]), ops[|ops| - 1]);
    }
  }

  /** In every run from an empty tree, node `i` is live exactly when thread `i` is in use, and carries its number. */
  lemma RunKeepsLockstep(sys: System, ops: seq<Op>)
    requires Fresh(sys) && (forall op :: op in ops ==> OpOk(op))
    ensures Inv(sys)
    ensures var sys' := Run(sys, ops); Lockstep(sys'.tcbs, sys'.mdb.nodes)
  {
    NoProcessesIsInv(sys);
    FreshIsLockstep(sys);
    hide Fresh, Lockstep, Inv;
    RunStaysLockstep(sys, ops);
  }

  lemma FreshIsLockstep(sys: System)
    requires Fresh(sys)
    ensures Lockstep(sys.tcbs, sys.mdb.nodes)
  {
    hide Mdb.Valid;
  }

  /** In every such run, destroying a live process revokes and deletes that process's own stack node and no other. */
  lemma RunDestroysOwnNode(sys: System, ops: seq<Op>, id: nat)
    requires Fresh(sys) && (forall op :: op in ops ==> OpOk(op))
    ensures Inv(sys)
    ensures id < MAX_TCBS && InUse(Run(sys, ops).tcbs[id]) ==>
              var sys' := Run(sys, ops);
              FirstMatch(sys'.mdb.nodes, id, 0) == id
              && Destroy(sys', id).0.mdb.nodes == sys'.mdb.nodes[id := Mdb.ERASED_NODE]
  {
    RunKeepsLockstep(sys, ops);
    hide Fresh, Admitted, Mdb.Valid, FreeIsEmpty, Paired, Forget, FirstMatch;
    var sys' := Run(sys, ops);
    if id < MAX_TCBS && InUse(sys'.tcbs[id]) {
      OwnNodeErased(sys'.tcbs, sys'.mdb, id);
    }
  }

  /**
    Why fresh tables matter: among nodes that mdb_insert made, the lookup finds a process's own node if and only if no
    lower live node carries the same pointer and, for process 0, there is no lower live node at all.
   */
  lemma LookupIsExact(nodes: seq<Mdb.Node>, id: nat, own: nat)
    requires |nodes| == Mdb.MAX_NODES && own < Mdb.MAX_NODES && nodes[own].valid && nodes[own].cptr == id
    requires forall i :: 0 <= i < Mdb.MAX_NODES && nodes[i].valid ==> nodes[i].cnodeId == 0 && nodes[i].slot == 0
    ensures FirstMatch(nodes, id, 0) == own <==>
            forall i :: 0 <= i < own && nodes[i].valid ==> id != 0 && nodes[i].cptr != id
  {
    assert Mdb.Matches(nodes[own], 0, id);
    forall i: nat | i < Mdb.MAX_NODES
      ensures Mdb.Matches(nodes[i], 0, id) <==> nodes[i].valid && (id == 0 || nodes[i].cptr == id)
    {
    }
  }
}
