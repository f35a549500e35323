/** Process creation and destruction on the kernel's own objects (kernel/src/process.c). */
module ProcessManager {
  import opened Kernel
  import opened Tcb
  import opened Alloc
  import opened MdbTree
  import opened Scheduler
  import opened IpcKernel
  import CNode
  import Mdb
  import Sched
  import Ipc
  import Process

  class Manager {
    const tcbs: TcbTable
    const sched: SchedTable
    const mdb: DerivationTree
    const alloc: FrameAllocator
    const ipc: IpcSystem
    const spaces: seq<CNode.CapTable>

    constructor (tcbs: TcbTable, sched: SchedTable, mdb: DerivationTree, alloc: FrameAllocator, ipc: IpcSystem,
                 spaces: seq<CNode.CapTable>)
      ensures this.tcbs == tcbs && this.sched == sched && this.mdb == mdb && this.alloc == alloc && this.ipc == ipc
      ensures this.spaces == spaces
    {
      this.tcbs, this.sched, this.mdb, this.alloc, this.ipc, this.spaces := tcbs, sched, mdb, alloc, ipc, spaces;
    }

    ghost function Slots(): set<object> {
      set x | x in spaces :: x.slots
    }

    ghost predicate Separate() {
      && (forall i :: 0 <= i < |spaces| ==> spaces[i].slots.Length == CNode.SLOTS)
      && (forall i, j :: 0 <= i < j < |spaces| ==> spaces[i] != spaces[j] && spaces[i].slots != spaces[j].slots)
    }

    ghost predicate Ready()
      reads tcbs, sched, ipc.eps
    {
      tcbs.threads.Length == MAX_TCBS && sched.Ready() && ipc.Ready() && ipc.tcbs == tcbs && Separate()
    }

    ghost function CNodes(): (ns: seq<CNode.Node>)
      reads spaces, Slots()
      ensures |ns| == |spaces|
    {
      seq(|spaces|, i requires 0 <= i < |spaces| reads spaces, Slots() => spaces[i].Value())
    }

    ghost function View(): Process.System
      requires Ready()
      reads tcbs, tcbs.threads, sched, sched.partitions, sched.contexts, mdb, mdb.nodes, alloc
      reads ipc.eps, ipc.Queues(), ipc.Buffers(), spaces, Slots()
    {
      Process.System(tcbs.threads[..], tcbs.count, sched.Value(), mdb.Value(), alloc.Value(), ipc.Modes(), CNodes())
    }

    /** Step 2 of process_destroy: zeroes the capabilities of the node behind a thread's pointer, if there is one. */
    method ClearNodeOf(cspace: nat)
      requires Separate()
      modifies spaces, Slots()
      ensures CNodes() == CNode.ClearSpace(old(CNodes()), cspace)
    {
      if cspace != 0 && cspace <= |spaces| {
        var k := cspace - 1;
        spaces[k].Clear();
        assert forall i :: 0 <= i < |spaces| && i != k ==> spaces[i].Value() == old(spaces[i].Value());
      }
    }

    method FindFreeTcb() returns (id: nat)
      requires tcbs.threads.Length == MAX_TCBS
      ensures id == Process.FirstFree(tcbs.threads[..], 0)
    {
      id := 0;
      while id < MAX_TCBS && Process.InUse(tcbs.threads[id])
        invariant id <= MAX_TCBS
        invariant Process.FirstFree(tcbs.threads[..], 0) == Process.FirstFree(tcbs.threads[..], id)
      {
        id := id + 1;
      }
    }

    /** Binds the first free scheduling context and tests admission, undoing the binding when the test fails. */
    method AdmitProcess(id: nat, args: Process.Args) returns (e: Error, c: nat)
      requires sched.Ready() && Sched.PeriodsOk(sched.contexts[..])
      modifies sched.contexts
      ensures (sched.Value(), e, c) == Process.Admit(old(sched.Value()), id, args)
    {
      c := 0;
      while c < Sched.MAX_CONTEXTS && sched.contexts[c].bound
        invariant c <= Sched.MAX_CONTEXTS
        invariant Process.FirstUnbound(sched.contexts[..], 0) == Process.FirstUnbound(sched.contexts[..], c)
      {
        c := c + 1;
      }
      if c == Sched.MAX_CONTEXTS {
        return NoMem, 0;
      }
      e := sched.BindContext(c, id, args.partition, args.budget, args.period, args.priority);
      if e != Error.Ok {
        return e, 0;
      }
      var ok := sched.IsSchedulable();
      if !ok {
        sched.Release(c);
        return InvalidArg, 0;
      }
    }

    /** The tables other than the endpoints hold what `v` says. */
    ghost predicate Shows(v: Process.System)
      reads tcbs, tcbs.threads, sched, sched.partitions, sched.contexts, mdb, mdb.nodes, alloc
    {
      && tcbs.threads[..] == v.tcbs && tcbs.count == v.count
      && sched.Ready() && sched.Value() == v.sched && mdb.Value() == v.mdb && alloc.Value() == v.alloc
    }

    method CreateProcess(args: Process.Args) returns (e: Error, id: nat)
      requires Ready() && Process.Ready(View())
      modifies tcbs, tcbs.threads, sched.contexts, mdb, mdb.nodes, alloc
      ensures Ready() && (View(), e, id) == Process.Create(old(View()), args)
    {
      hide Process.Ready, Process.Create;
      ghost var v := View();
      e, id := CreateIn(args, v);
      assert ipc.Modes() == v.eps && CNodes() == v.cnodes;
      CreateKeepsEndpoints(v, args);
    }

    method CreateIn(args: Process.Args, ghost v: Process.System) returns (e: Error, id: nat)
      requires Shows(v) && Process.Ready(v)
      modifies tcbs, tcbs.threads, sched.contexts, mdb, mdb.nodes, alloc
      ensures Shows(Process.Create(v, args).0) && e == Process.Create(v, args).1 && id == Process.Create(v, args).2
    {
      hide Mdb.Valid, Mdb.Insert, AllocFrame, Process.Admit, CNode.AllShaped;
      assert |v.tcbs| == MAX_TCBS && Sched.PeriodsOk(v.sched.contexts);
      if args.partition >= MAX_PARTITIONS {
        return InvalidArg, 0;
      }
      if args.budget > args.period || args.budget == 0 {
        return InvalidArg, 0;
      }
      id := FindFreeTcb();
      if id == MAX_TCBS {
        return NoMem, 0;
      }
      var stack;
      e, stack := alloc.Allocate(args.partition, args.stackSize);
      if e != Error.Ok {
        return e, 0;
      }
      tcbs.threads[id] := Process.NewThread(id, args, stack, 0);
      var c;
      e, c := AdmitProcess(id, args);
      if e != Error.Ok {
        tcbs.threads[id] := EmptyThread();
        return e, 0;
      }
      tcbs.threads[id] := tcbs.threads[id].(schedContext := c);
      assert mdb.Value() == v.mdb;
      var ignored, idx := mdb.Add(Mdb.NIL, id, stack);
      tcbs.count := tcbs.count + 1;
    }

    method DestroyProcess(id: nat) returns (e: Error)
      requires Ready() && Process.Inv(View())
      modifies tcbs, tcbs.threads, sched.contexts, mdb, mdb.nodes
      modifies ipc.eps, ipc.Queues(), ipc.Buffers(), spaces, Slots()
      ensures Ready() && (View(), e) == Process.Destroy(old(View()), id)
    {
      ghost var v := View();
      Process.SizesOf(v);
      DestroyCases(v, id);
      hide Process.Inv, Process.Destroy, Ipc.CleanedAll, IpcSystem.Modes, CNode.ClearSpace, Process.Ready;
      if id >= MAX_TCBS {
        return InvalidArg;
      }
      if !Process.InUse(tcbs.threads[id]) {
        return InvalidArg;
      }
      CleanAndDestroy(id, v);
      return Error.Ok;
    }

    method CleanAndDestroy(id: nat, ghost v: Process.System)
      requires Ready() && Shows(v) && Process.Inv(v)
      requires id < MAX_TCBS && |v.tcbs| == MAX_TCBS && Process.InUse(v.tcbs[id])
      modifies tcbs, tcbs.threads, sched.contexts, mdb, mdb.nodes
      modifies ipc.eps, ipc.Queues(), ipc.Buffers(), spaces, Slots()
      ensures Process.Ready(v)
      ensures Ready() && Shows(Process.Destroy(v, id).0) && ipc.Modes() == Ipc.CleanedAll(old(ipc.Modes()), id)
      ensures CNodes() == CNode.ClearSpace(old(CNodes()), v.tcbs[id].cspace)
    {
      hide Process.Inv, Process.Destroy, Ipc.CleanedAll, IpcSystem.Modes, CNode.ClearSpace, Process.Ready;
      hide IpcSystem.Ready;
      Process.SizesOf(v);
      CleanReferences(id, tcbs.threads[id].cspace);
      DestroyIn(id, v);
    }

    /** Steps 1 and 2 of process_destroy. */
    method CleanReferences(id: nat, cspace: nat)
      requires ipc.Ready() && Separate()
      modifies ipc.eps, ipc.Queues(), ipc.Buffers(), spaces, Slots()
      ensures ipc.Ready() && ipc.Modes() == Ipc.CleanedAll(old(ipc.Modes()), id)
      ensures CNodes() == CNode.ClearSpace(old(CNodes()), cspace)
    {
      hide Ipc.CleanedAll, IpcSystem.Modes, CNode.ClearSpace, IpcSystem.Ready;
      ipc.CleanupAll(id);
      ClearNodeOf(cspace);
    }

    /** Steps 3 and 4 of process_destroy: the tree, the scheduling context and the thread itself. */
    method DestroyIn(id: nat, ghost v: Process.System)
      requires Shows(v) && Process.Inv(v) && id < MAX_TCBS && |v.tcbs| == MAX_TCBS && Process.InUse(v.tcbs[id])
      modifies tcbs, tcbs.threads, sched.contexts, mdb, mdb.nodes
      ensures Process.Ready(v) && Shows(Process.Destroy(v, id).0)
    {
      hide Process.Inv, Process.Destroy, Mdb.Valid, Process.Forget, Ipc.CleanedAll, CNode.ClearSpace, Process.Ready;
      hide Sched.Unbind;
      Process.DestroyIs(v, id);
      ForgetCap(id);
      sched.Release(tcbs.threads[id].schedContext);
      tcbs.threads[id] := EmptyThread();
      tcbs.count := tcbs.count - 1;
    }

    /** Step 3 of process_destroy: look the stack capability up, revoke what derives from it, delete it. */
    method ForgetCap(id: nat)
      requires mdb.Ok()
      modifies mdb, mdb.nodes
      ensures mdb.Ok() && mdb.Value() == Process.Forget(old(mdb.Value()), id)
    {
      hide Mdb.Revoke, Mdb.Delete;
      ghost var t := mdb.Value();
      var idx := mdb.Lookup(0, id);
      LookupIsFirst(t.nodes, id, idx);
      if idx != Mdb.NIL {
        var ignored := mdb.RevokeAt(idx);
        ignored := mdb.DeleteAt(idx);
      }
    }
  }

  lemma CreateKeepsEndpoints(v: Process.System, args: Process.Args)
    requires Process.Ready(v)
    ensures Process.Create(v, args).0.eps == v.eps && Process.Create(v, args).0.cnodes == v.cnodes
  {
  }

  lemma DestroyCases(v: Process.System, id: nat)
    requires Process.Inv(v) && |v.tcbs| == MAX_TCBS
    ensures id >= MAX_TCBS || !Process.InUse(v.tcbs[id]) ==> Process.Destroy(v, id) == (v, InvalidArg)
    ensures id < MAX_TCBS && Process.InUse(v.tcbs[id]) ==>
              && Process.Destroy(v, id).1 == Error.Ok && Process.Destroy(v, id).0.eps == Ipc.CleanedAll(v.eps, id)
              && Process.Destroy(v, id).0.cnodes == CNode.ClearSpace(v.cnodes, v.tcbs[id].cspace)
  {
  }

  lemma LookupIsFirst(nodes: seq<Mdb.Node>, id: nat, idx: nat)
    requires |nodes| == Mdb.MAX_NODES
    requires idx == Mdb.NIL <==> forall i :: 0 <= i < Mdb.MAX_NODES ==> !Mdb.Matches(nodes[i], 0, id)
    requires idx != Mdb.NIL ==> idx < Mdb.MAX_NODES && Mdb.Matches(nodes[idx], 0, id)
                                && forall i :: 0 <= i < idx ==> !Mdb.Matches(nodes[i], 0, id)
    ensures Process.FirstMatch(nodes, id, 0) == idx
  {
    hide Mdb.Matches;
  }
}
