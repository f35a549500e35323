# Moonlight kernel proofs

Proofs in Dafny 4.11 about the core of MoonlightOS, a single-hart capability microkernel: the capability derivation
tree, Sv39 address spaces over a coloured frame allocator, endpoint IPC, the process life cycle, the two-level
scheduler with its admission test, capability nodes, and the admission policy of the scheduling server.

`dafny verify dfyconfig.toml` checks everything.

Each component comes in two parts. A module of values (`Mdb`, `PageTable`, `Endpoint`, `Ipc`, `Sched`, `Process`,
`CNode`, `Alloc`) says what an operation does to the state and proves what every operation and every run keeps. A class
(`MdbTree.DerivationTree`, `VSpace.AddressSpace`, `Endpoint.RingEndpoint`, `IpcKernel.IpcSystem`, `Scheduler.SchedTable`,
`ProcessManager.Manager`, `CNode.CapTable`, `Alloc.FrameAllocator`, `SchedServer.Server`) works in place on arrays and
fields as the C code does, and each of its methods is proved to compute the value-level operation.

| module | what it is about |
|---|---|
| `Mdb`, `MdbTree` | the derivation forest: invariant, exact descendant sets, acyclicity through stale links |
| `Alloc` | disjoint, coloured frames over whole runs |
| `PageTable`, `FlatMap`, `TableSupply`, `Spaces`, `Sv39`, `HardwareGap`, `VSpace` | three-level tables refine flat page maps, for several spaces on one allocator, and agree with the hardware walk |
| `Tcb`, `Endpoint`, `EndpointHistory` | the ring endpoint as a four-mode machine, and the fate of every message |
| `Ipc`, `Wakeup`, `Traces`, `IpcKernel` | the IPC system calls over all threads and endpoints: who can be woken, what outlives a thread |
| `Utilization`, `Sched`, `Scheduler`, `WindowTest`, `Budget`, `SchedServer` | windows, ticks, picks, refills and admission |
| `Process`, `Foreign`, `EmptyTree`, `ProcessManager` | transactional creation and destruction across all tables from any tree; which node a destruction erases, in trees with other capabilities and without |
| `CNode` | rights derivation, slot counting, clearing |
| `WholeKernel` | all of it interleaved |

## What the code does not guarantee

Where an expected property is false, the code is kept as it is and the exact condition is proved.

- Inserting under a free slot can make a node its own parent (`Mdb.FreeParentCanLoop`); the tree survives exactly when
  the parent is NIL or live (`Mdb.InsertIsExact`).
- A send that finds a handed-off message unclaimed overwrites it; exactly those messages are lost
  (`EndpointHistory.RunLosesNothing`).
- A second receive on an endpoint forgets the first receiver, which then sleeps until destroyed; no other step strands a
  thread (`Wakeup.StepIsExact`, `Wakeup.ForgottenSleepsForever`).
- The time check at the end of a system call (kernel/src/syscall.c:109) reports an error for a send or receive that has
  taken effect, with the code of a budget refusal; an error means nothing happened exactly under `Ipc.ErrorIsExact`.
- A thread blocked by SYS_CALL is never woken by IPC, since only registered receivers are woken
  (`Ipc.RunLeavesCallersBlocked`).
- Destroying a process does not remove a message already handed over: a dead sender is still heard, and a new process in
  the slot of a dead receiver gets its predecessor's message (`Traces.DeadSenderIsHeard`,
  `Traces.SuccessorInheritsHandoff`), although kernel/src/process.c:133 means to prevent cross-process injection.
  `WholeKernel.RunKnowsOnlyLive` says exactly which runs are free of this.
- alloc_frame compares and stores `paddr + size` in 64 bits, so a huge size is granted and the next request gets a page
  that was granted before (`Alloc.WrappedRequestGrantsTwice`); process_create passes its stack size there unchecked. The
  exact condition is `Alloc.GrantIsExact` and, over runs, `Alloc.RunIsExact`.
- A partition window whose end wraps around 64 bits is accepted (`Sched.CreateIsExact`), and in a gap between windows the
  last partition goes on running (`Sched.TickIsExact`); the time isolation claimed in docs/PRODUCTION.md holds exactly at
  covered instants.
- The floored admission test accepts some overloaded sets (`Utilization.OverloadIsAccepted`), within the bound of
  `Utilization.TestBound`, which is tight (`Utilization.BoundIsTight`); the sum is exact if and only if nothing is
  rounded or wraps (`Utilization.LoadIsExact`).
- The admission test compares a partition's demand with the whole processor, not with its window: eight partitions of an
  eighth of the frame can each be promised 98 percent (`WindowTest.FrameIsOvercommitted`); `WindowTest.WindowIsExact` says
  for which windows the test means anything.
- A context's first deadline is its period counted from time 0 (kernel/src/sched.c:57), so one bound late is refilled at
  every tick until the deadline catches up (`Budget.LateBindingSpendsAtOnce`); refills keep pace exactly when the deadline
  lies ahead (`Budget.PaceIsExact`).
- The scheduling server takes budgets from its clients and multiplies and adds them in 64 bits: a budget whose product
  wraps, or a sum that wraps, is admitted (`SchedServer.WrappedBudgetIsAdmitted`, `SchedServer.WrappedSumIsAdmitted`).
  `SchedServer.AdmissionIsExact` says which admissions are sound.
- Frames of three or more pages leave their partition's colours (`Alloc.ColorsStayInPartition`). docs/ARCHITECTURE.md
  line 65 says that vspace_map checks the colour of the physical address; the code compares the virtual page with the
  `color` argument and accepts any address when that is 0. The model follows the code.
- vspace_resolve ignores address bits above 38 and accepts entries the hardware rejects (write-only or flagless leaves,
  frames at or above 2^56); `Sv39.TranslateIsResolve` says exactly when the two agree, and `HardwareGap` has runs where
  they do not.
- Moving a capability between two nodes leaves both `used` counters wrong (`CNode.MoveCountsExactly`).
- The node inserted at boot hides the stack node of process 0 from mdb_lookup (`Process.BootNodeHidesProcessZero`). `Foreign.RunIsExact`
  says, from any tree, at which destructions the own node goes; in the others somebody else's goes in its place. Only the
  lockstep theorems need an empty tree.
- A process created with pc and sp_top both zero looks free (`Process.CreateIsExact`).

## Model

| member | source | states |
|---|---|---|
| `Mdb.RunIsValid` | kernel/src/revoke.c:5-106 | every run of insertions (parent NIL or live), revocations and deletions from mdb_init keeps a forest: acyclic parent links, NIL-terminated duplicate-free child lists that agree with the parent links, exact count, and a free hint below which every slot is live |
| `Mdb.RunParentsNeverCycle` | kernel/src/revoke.c:24-37 | in every such run no slot, live or freed, is reached again by climbing parent links, every climb ends at NIL, and a live node has a live parent |
| `Mdb.InsertIsExact` | kernel/src/revoke.c:26-37 | a successful insertion keeps the forest if and only if the parent was NIL or live before the call |
| `Mdb.FreeParentCanLoop` | kernel/src/revoke.c:26-37 | the failing case: naming the free slot 0 of a fresh table as parent makes the new node its own parent, and every climb from it stays there |
| `Mdb.InsertTakesLowest` | kernel/src/revoke.c:17-23 | the slot filled is the lowest free one although the search starts at the hint; NO_MEM exactly when every slot is live, and then nothing changes |
| `Mdb.InsertEffect` | kernel/src/revoke.c:24-37 | the new node holds the given pointer and capability and heads its parent's list; no other node changes |
| `Mdb.AttachKeepsForest` | kernel/src/revoke.c:24-37 | an explicit child-list and rank witness for the tree after insertion: one list gains the node in front, live set gains exactly it |
| `Mdb.InsertKeepsValid` | kernel/src/revoke.c:13-43 | insertion under NIL or a live parent keeps the tree invariant, whatever its outcome |
| `Mdb.RevokeEffect` | kernel/src/revoke.c:45-78 | revocation frees exactly the live strict descendants, clearing their capabilities and valid flags and nothing else of them; every other node is unchanged except that the revoked node becomes childless; the free hint drops to the lowest slot freed |
| `Mdb.RevokeKeepsForest` | kernel/src/revoke.c:61-78 | the child lists of all survivors are kept in their order; those of the node and its descendants become empty; ranks stay valid through the stale links |
| `Mdb.RevokeKeepsValid` | kernel/src/revoke.c:61-78 | revocation keeps the tree invariant, count and free hint included |
| `Mdb.RevokeLeavesLeaf` | kernel/src/revoke.c:61-78 | after revocation the node is live and has no live descendant |
| `Mdb.RevokeLeaf` | kernel/src/revoke.c:61-78 | revoking a childless node changes nothing |
| `Mdb.DeleteEffect` | kernel/src/revoke.c:80-106 | deleting a live node without live descendants succeeds, blanks it and takes it out of its parent's child list, in order, for every witness of the lists; every other node keeps validity, pointer, slot, parent, capability and revocability, and freed nodes keep everything |
| `Mdb.DeadIndexIsRefused` | kernel/src/revoke.c:61-65 | an index out of range or a node not live is refused by revocation and deletion, each with its error, and nothing changes |
| `Mdb.DeleteKeepsForest` | kernel/src/revoke.c:80-106 | the forest witness after a leaf is unlinked: the parent's list without it, all other lists as they were |
| `Mdb.DeleteKeepsValid` | kernel/src/revoke.c:80-106 | deletion keeps the tree invariant, whatever its outcome |
| `Mdb.DeleteNeedsLeaf` | kernel/src/revoke.c:80-86 | deletion is refused with REVOKE_NEEDED if and only if the node has a live descendant |
| `Mdb.KidsAreUnique` | kernel/src/revoke.c:45-52 | the links determine the child lists, so the witness of the invariant is unique |
| `Mdb.SiblingsAreApart` | kernel/src/revoke.c:45-52 | the subtrees of siblings are disjoint, which is why revoking one child leaves the rest of the list intact |
| `Mdb.AncestorRank` | kernel/src/revoke.c:123-132 | a strict ancestor has strictly smaller rank, also through freed nodes |
| `MdbTree.DerivationTree.constructor` | kernel/src/revoke.c:5-11 | a fresh table is a valid empty forest |
| `MdbTree.DerivationTree.Add` | kernel/src/revoke.c:13-43 | in-place insertion computes Mdb.Insert and keeps the invariant when the parent is NIL or live |
| `MdbTree.DerivationTree.RevokeRecursive` | kernel/src/revoke.c:45-59 | the recursion terminates and clears exactly the subtree of its argument, as it was before the revocation began |
| `MdbTree.DerivationTree.RevokeAt` | kernel/src/revoke.c:61-78 | in-place revocation computes Mdb.Revoke (exact descendant set, count, lowest freed slot) and keeps the invariant |
| `MdbTree.DerivationTree.DeleteAt` | kernel/src/revoke.c:80-106 | in-place deletion, with its pointer-to-link loop, computes Mdb.Delete and keeps the invariant |
| `MdbTree.DerivationTree.Lookup` | kernel/src/revoke.c:108-121 | the first node matching one of the three overlapping rules, NIL exactly when none matches |
| `Mdb.LookupRules` | kernel/src/revoke.c:112-118 | what a node is found by: its node and slot fields, or the pointer node * 256 + slot |
| `MdbTree.DerivationTree.IsDescendant` | kernel/src/revoke.c:123-132 | terminates from every index and decides exactly the reflexive-transitive ancestor relation |
| `Alloc.PlaceIsFirst` | kernel/src/alloc.c:25-29 | the colour search stops at the first page of the colour, after at most 15 pages |
| `Alloc.PlaceIsLeast` | kernel/src/alloc.c:25-29 | from an aligned bump pointer no lower page of the colour exists |
| `Alloc.AllocEffect` | kernel/src/alloc.c:21-54 | a granted frame has the partition's colour and a matching sealed capability and ends, in 64-bit arithmetic, at the new bump pointer within the pool; a refusal changes nothing; unless the end wraps the bytes are new |
| `Alloc.GrantIsExact` | kernel/src/alloc.c:29-51 | a granted request gets bytes of its own at or above the old bump pointer, and keeps that pointer monotone, if and only if place + size stays below 2^64 |
| `Alloc.GrantCarries` | kernel/src/alloc.c:32-52 | every field of a granted frame's capability, its colour 2 * partition, and the log of the first 512 frames |
| `Alloc.ColorsOfPartition` | kernel/src/alloc.c:12-19 | partition p has exactly the colours 2p and 2p + 1 |
| `Alloc.NoMemIsExact` | kernel/src/alloc.c:25-30 | a well-formed request is granted exactly when the pool has room, if and only if its end does not wrap to within the pool's top |
| `Alloc.WrapsIsGranted` | kernel/src/alloc.c:29-30 | of the requests whose end wraps exactly those that land within the pool's top are granted |
| `Alloc.RunIsExact` | kernel/src/alloc.c:21-54 | throughout a run the grants stay in the pool, in order, disjoint and coloured if and only if no request's end wraps to within the pool's top |
| `Alloc.SmallRequestsNeverWrap` | kernel/src/alloc.c:21-54 | a check beforehand: requests ending 15 pages below 2^64 wherever they are placed never wrap |
| `Alloc.RunGrantsAreDisjoint` | kernel/src/alloc.c:21-54 | in every run without wrap-around the frames granted lie in the pool, are pairwise disjoint and of their partition's colour |
| `Alloc.WrappedBumpFallsBelow` | kernel/src/alloc.c:29-51 | in a 4 MB pool a size of 2^64 - 0x11000 is granted and moves the bump pointer below the pool |
| `Alloc.WrappedRequestGrantsTwice` | kernel/src/alloc.c:29-51 | the request after it is granted a page that was granted before |
| `Alloc.ColorsStayInPartition` | kernel/src/alloc.c:12-29 | an aligned frame touches only its partition's two colours if and only if it has at most two pages |
| `Alloc.RunColorsIsolated` | kernel/src/alloc.c:12-54 | in every run from an aligned base without wrap-around, frames of at most two pages granted to different partitions share no cache colour |
| `Alloc.FrameAllocator.FindPage` | kernel/src/alloc.c:25-29 | the search loop, in 64-bit arithmetic, ends at the least page of the colour |
| `Alloc.FrameAllocator.Allocate` | kernel/src/alloc.c:21-54 | the in-place code computes AllocFrame, wrap-around included |
| `PageTable.PteRoundTrip` | kernel/src/vspace.c:65-68 | entry packing: page number and flags come back unchanged |
| `PageTable.TargetRoundTrip` | kernel/src/vspace.c:65-68 | every aligned 64-bit address survives packing, and the entry is present exactly when V was asked for |
| `PageTable.VpnFields` | kernel/src/vspace.c:104-109 | the three indices cut from an address are the digits of its page number modulo 2^27 |
| `PageTable.WalkFrame` | kernel/src/vspace.c:153-166 | the table pages of a space determine all its walks; memory outside them does not matter |
| `PageTable.WriteBottom` | kernel/src/vspace.c:122-124 | writing one bottom entry changes the walk of its own page and of no other |
| `PageTable.HangTable` | kernel/src/vspace.c:111-121 | hanging a zeroed table from an absent entry keeps the tree (each table page hangs from exactly one entry, upper entries are pure pointers) and changes no walk |
| `PageTable.GrowEffect` | kernel/src/vspace.c:111-121 | adding a level takes only fresh, suitably coloured table pages, keeps every walk, and writes no table of another space |
| `PageTable.MapPageEffect` | kernel/src/vspace.c:104-126 | mapping a page fails with INVALID_ARG exactly when it is mapped, and otherwise changes at most the walk of that page |
| `FlatMap.ResolveIsLookup` | kernel/src/vspace.c:153-166 | resolve answers exactly what the flat map from page numbers to frames holds, for every address |
| `FlatMap.MapPageRefines` | kernel/src/vspace.c:104-126 | one round of the loop adds one page to the flat map, or none |
| `FlatMap.MapPagesFlat` | kernel/src/vspace.c:104-128 | a request that succeeds adds exactly its pages, one that fails exactly a prefix of them, with the reason tied to the page where it stopped, including across the wrap of the address space |
| `FlatMap.MapPagesShape` | kernel/src/vspace.c:104-128 | any request keeps the table tree well formed and gains only fresh table pages |
| `FlatMap.UnmapPagesRefines` | kernel/src/vspace.c:130-151 | unmapping removes exactly its range from the flat map |
| `TableSupply.FramesLeftCounts` | kernel/src/alloc.c:21-54 | a closed formula for how many single-page frames a partition can still get below 2^64: positive exactly when a grant succeeds, one less after it |
| `TableSupply.NoMemIsExact` | kernel/src/vspace.c:9-22 | mapping a page fails with NO_MEM if and only if it needs more new table pages than the 64-page quota and the allocator leave, and then none is left |
| `TableSupply.NewIsExact` | kernel/src/vspace.c:74-87 | a space is created exactly when a frame for its root can be had at an address other than 0, and its root is that frame |
| `TableSupply.MapStopsOnlyWhenEmpty` | kernel/src/vspace.c:104-128 | a request of any length that stops for memory leaves no table page to be had |
| `Spaces.MapRefusesExactly` | kernel/src/vspace.c:90-95 | PARTITION_DENIED exactly when all are page multiples and the colour, even and not 0, is not that of the virtual address; INVALID_ARG before mapping when something is no page multiple or the colour is odd; any other request maps its pages or a prefix |
| `Spaces.MapRefines` | kernel/src/vspace.c:90-128 | mapping in one of several spaces: its flat map changes as the request says, the others keep theirs |
| `Spaces.UnmapRefines` | kernel/src/vspace.c:130-151 | unmapping in one of several spaces removes exactly its range there and nothing elsewhere |
| `Spaces.NewRefines` | kernel/src/vspace.c:74-87 | a new space is empty and leaves the others as they are |
| `Spaces.OthersUntouched` | kernel/src/vspace.c:9-22 | a step of one space leaves every resolve result of every other space unchanged |
| `Spaces.StepRefines` | kernel/src/vspace.c:74-151 | each operation on the tables simulates one step on flat maps and ends as the flat maps allow |
| `Spaces.RunRefines` | kernel/src/vspace.c:74-151 | after every run the tables of all spaces hold exactly the flat maps of the flat run; every map of the run that succeeded added all its pages, every one that failed a prefix, stopped by a mapped page or for lack of memory |
| `Spaces.RunResolves` | kernel/src/vspace.c:153-166 | after every run of creations, maps and unmaps, every resolve in every space gives exactly what its flat map holds |
| `Spaces.RunTablesColored` | kernel/src/vspace.c:9-22 | after every run each space's table pages are the frames of its own capabilities, at most 64, all of its partition's colour |
| `Spaces.RunTablesApart` | kernel/src/vspace.c:9-22 | after every run no two spaces share a table page |
| `Spaces.GrantRefines` | kernel/src/alloc.c:21-54 | a frame granted to another client of the allocator changes no table of any space |
| `Spaces.RunFramesApart` | kernel/src/alloc.c:21-54 | after any run interleaved with other clients of the allocator, such as process stacks, their frames are disjoint and share no byte with any table page |
| `Spaces.RunMappings` | kernel/src/vspace.c:90-128 | what every map request guarantees about frame and flags holds of every mapping at every moment |
| `Sv39.WalkAgrees` | kernel/src/vspace.c:153-166 | the walk of section 4.3.2 of the RISC-V Privileged Architecture 20211203 ends at the same bottom entry: fault or the frame it names |
| `Sv39.TranslateIsResolve` | kernel/src/vspace.c:153-166 | the hardware and vspace_resolve agree exactly when the address is canonical and the bottom entry is a leaf the access may use; otherwise the hardware faults |
| `Sv39.LeafIsExact` | kernel/src/vspace.c:97-102 | vspace_map makes a leaf the hardware accepts if and only if the frame is below 2^56, R or X is asked for, and W only with R |
| `Sv39.RunMatchesHardware` | kernel/src/vspace.c:90-166 | after every run of such requests, hardware translation and resolve agree on every canonical address of every space |
| `HardwareGap.WriteOnlyPageFaults` | kernel/src/vspace.c:97-102 | a run that maps a page write-only: resolve gives the frame, the hardware faults on every access |
| `HardwareGap.NonCanonicalAddressFaults` | kernel/src/vspace.c:153-166 | a run in which resolve answers for address 2^39 and the hardware faults |
| `VSpace.AddressSpace.Init` | kernel/src/vspace.c:74-87 | in-place initialisation computes NewSpace |
| `VSpace.AddressSpace.AllocTablePage` | kernel/src/vspace.c:9-22 | computes AllocTable: quota, colour, zeroed page, recorded capability |
| `VSpace.AddressSpace.MapRange` | kernel/src/vspace.c:90-128 | checks and loop compute Map, pages mapped before a failure included |
| `VSpace.AddressSpace.UnmapRange` | kernel/src/vspace.c:130-151 | the loop computes Unmap |
| `VSpace.AddressSpace.Lookup` | kernel/src/vspace.c:153-166 | answers what the flat map of the space holds |
| `Tcb.TcbTable.Wake` | kernel/src/tcb.c:34-43 | wakes exactly a thread blocked in receive or reply and clears its fault; refuses otherwise |
| `Tcb.WakeIsExact` | kernel/src/tcb.c:34-43 | waking changes state and fault record of a thread blocked in receive or reply, and nothing of any other thread |
| `Tcb.ResumeIsExact` | kernel/src/tcb.c:25-31 | resuming makes any thread runnable and touches nothing else |
| `Tcb.ConfigureThreadIsExact` | kernel/src/tcb.c:4-12 | refused exactly without a capability node; otherwise four fields and the state are set and nothing else |
| `Tcb.TcbTable.ConfigureAt` | kernel/src/tcb.c:4-12 | a null capability node is refused; otherwise the thread gets its node, root, asid and partition and becomes inactive |
| `Tcb.TcbTable.ResumeAt` | kernel/src/tcb.c:25-31 | makes the thread runnable from every other state |
| `Endpoint.RingEndpoint.SendMsg` | kernel/src/endpoint.c:8-34 | on the ring: computes Send on the four modes, wakes the receiver it hands to, and keeps the modes exclusive |
| `Endpoint.RingEndpoint.RecvMsg` | kernel/src/endpoint.c:36-61 | on the ring: computes Recv on the four modes, releases a blocked sender, and keeps the modes exclusive |
| `Endpoint.SendIsExact` | kernel/src/endpoint.c:8-34 | when a send is accepted and why refused, and the mode it leads to from each mode, with the receiver to wake |
| `Endpoint.RecvIsExact` | kernel/src/endpoint.c:36-61 | what a receive takes from each mode, the mode it leads to, and the sender to release |
| `Endpoint.CleanedIsExact` | kernel/src/process.c:92-124 | a dead thread's registration and queued messages go and everything else stays |
| `Endpoint.RingEndpoint.ShiftDown` | kernel/src/process.c:106-111 | the shifting loop drops one item for every head position and wrap-around |
| `Endpoint.RingEndpoint.DropSender` | kernel/src/process.c:102-119 | the removal loop leaves the order-preserving filter of the queue, each message with its sender |
| `Endpoint.RingEndpoint.Cleanup` | kernel/src/process.c:92-124 | cleaning for a dead thread computes Cleaned and restores the tail, length and mode invariants |
| `Endpoint.OthersMembers` | kernel/src/process.c:102-119 | exactly the other threads' messages remain |
| `Endpoint.OthersConcat` | kernel/src/process.c:102-119 | the filter works piecewise, so it keeps order across any split of the queue |
| `EndpointHistory.RunAccountsForEveryMessage` | kernel/src/endpoint.c:8-61 | in every run of sends, receives and clean-ups, delivered then held messages are the accepted ones in send order minus exactly one per send that overwrote a hand-off and minus exactly the queued messages cleaned away; the numbers balance |
| `EndpointHistory.RunCleansOnlyTheDead` | kernel/src/process.c:102-119 | every message cleaned away came from a thread that was cleaned up after |
| `EndpointHistory.ReceiveTakesFirst` | kernel/src/endpoint.c:36-61 | a receive returns the first message held and leaves the rest |
| `EndpointHistory.RunLosesNothing` | kernel/src/endpoint.c:8-61 | every accepted message is delivered or held, in order, if and only if no send overwrote one and no clean-up took one |
| `EndpointHistory.HandoffCanBeOverwritten` | kernel/src/endpoint.c:26-33 | the smallest run that loses a message |
| `Ipc.GateRefuses` | kernel/src/syscall.c:36-52 | a call stopped by the common checks changes nothing, and all three calls report the first check that fails |
| `Ipc.GateIsExact` | kernel/src/syscall.c:36-52 | the common checks pass exactly for a runnable caller with a capability and budget left |
| `Ipc.CallRefusals` | kernel/src/syscall.c:56-96 | why a call past the common checks is refused, in order: rights, capability type, length, full queue |
| `Ipc.CallIs` | kernel/src/syscall.c:56-68 | SYS_CALL sends the first arg % 256 words of the caller's buffer without capabilities, hands them to a waiting receiver or queues them last, blocks the caller for its reply, and changes nothing else |
| `Ipc.SendIs` | kernel/src/syscall.c:85-96 | SYS_SEND sends the words asked for with the buffer's capability pointers, leaves the caller running, and changes nothing else |
| `Ipc.ReceiveIs` | kernel/src/syscall.c:69-84 | SYS_REPLY_RECV puts length and words of the first message held into the caller's buffer, releases a blocked sender, or blocks and registers the caller, and changes nothing else |
| `Ipc.StartIs` | kernel/src/tcb.c:25-31 | starting makes an inactive thread runnable and does nothing else |
| `Ipc.ErrorIsExact` | kernel/src/syscall.c:56-109 | an error leaves every thread and endpoint as it was if and only if the call did not overrun its time after passing its checks and finding room |
| `Ipc.OverrunSendIsDelivered` | kernel/src/syscall.c:108-109 | a send reported as over its time has happened: the next receiver gets the message word for word |
| `Ipc.SendWakesReceiver` | kernel/src/endpoint.c:14-25 | a rendezvous send really makes the receiver runnable, and it waits nowhere else, although the wake result is ignored |
| `Ipc.CallKeepsInv` | kernel/src/syscall.c:56-68 | SYS_CALL keeps: registered receivers are blocked in receive, each at one endpoint only, messages and buffers in size |
| `Ipc.SysSendKeepsInv` | kernel/src/syscall.c:85-96 | SYS_SEND keeps the same |
| `Ipc.ReplyRecvKeepsInv` | kernel/src/syscall.c:69-84 | SYS_REPLY_RECV keeps the same |
| `Ipc.DestroyKeepsInv` | kernel/src/process.c:92-124 | destroying a thread keeps the same and leaves it registered nowhere |
| `Ipc.RunReceiversAreBlocked` | kernel/src/syscall.c:56-96 | in every run of the three calls, starts and destructions, a registered receiver is blocked in receive and registered at one endpoint only |
| `Ipc.ReceiveBlocksOnlyWhenEmpty` | kernel/src/syscall.c:69-84 | a receive blocks exactly when the endpoint holds no message; otherwise the caller stays runnable with the first message in its buffer |
| `Ipc.RunLeavesCallersBlocked` | kernel/src/syscall.c:56-68 | a thread blocked by SYS_CALL is woken by no later IPC: it stays blocked for its reply until destroyed |
| `Ipc.SendThenReceive` | kernel/src/syscall.c:69-96 | through an idle endpoint the next receiver gets what was sent, word for word, and the endpoint is idle again |
| `Ipc.RendezvousDelivers` | kernel/src/syscall.c:69-96 | a blocked receiver is woken by the next send and its next receive gets that message, word for word |
| `Ipc.CallThenReceive` | kernel/src/syscall.c:56-84 | through an idle endpoint the next receiver gets the caller's words, word for word and without capabilities, and the caller waits for its reply |
| `Ipc.CallRendezvous` | kernel/src/syscall.c:56-84 | a blocked receiver is woken by the next call and gets the caller's words |
| `Wakeup.ReceiveIsExact` | kernel/src/endpoint.c:58-60 | a receive leaves every sleeping receiver registered somewhere if and only if no other thread was waiting on that endpoint |
| `Wakeup.StepIsExact` | kernel/src/syscall.c:56-96 | of all steps only such a displacing receive can strand a thread |
| `Wakeup.SecondReceiverDisplacesFirst` | kernel/src/endpoint.c:58-60 | two threads started from fresh tables and receiving on one endpoint: the first is blocked and registered nowhere |
| `Wakeup.RunKeepsWakeable` | kernel/src/syscall.c:56-96 | in every run without a displacing receive, every thread blocked in receive is registered where a sender finds it |
| `Wakeup.FirstCallerBlocks` | kernel/src/syscall.c:56-68 | a thread started from fresh tables that calls on an idle endpoint is blocked for its reply |
| `Wakeup.ForgottenSleepsForever` | kernel/src/endpoint.c:58-60 | a displaced receiver stays blocked and unregistered through every continuation until it is destroyed |
| `Traces.CleanedMentions` | kernel/src/process.c:92-124 | cleaning an endpoint removes every mention of the thread except exactly an unclaimed hand-off from or to it |
| `Traces.CleanedKeepsOthers` | kernel/src/process.c:92-124 | what the endpoint knows of any other thread is kept |
| `Traces.DestroyForgetsExactly` | kernel/src/process.c:92-124 | after destruction no endpoint mentions the thread if and only if none held an unclaimed hand-off from or to it |
| `Traces.DeadSenderIsHeard` | kernel/src/process.c:120-122 | a run: the receiver gets, word for word, the message of a sender destroyed after handing it over |
| `Traces.SuccessorInheritsHandoff` | kernel/src/process.c:120-122 | a run: a new thread in the slot of a destroyed receiver gets the message handed to its predecessor |
| `IpcKernel.IpcSystem.DoCall` | kernel/src/syscall.c:56-68 | the case on the real thread table and rings computes SysCall |
| `IpcKernel.IpcSystem.DoSend` | kernel/src/syscall.c:85-96 | the case on the real thread table and rings computes SysSend |
| `IpcKernel.IpcSystem.DoReplyRecv` | kernel/src/syscall.c:69-84 | the case on the real thread table and rings computes SysReplyRecv |
| `IpcKernel.IpcSystem.CleanupAll` | kernel/src/process.c:92-124 | the loop over all endpoints cleans each and mixes up none |
| `Process.CreateKeepsInv` | kernel/src/process.c:8-90 | from any tree, creation, successful or not, keeps: the tree a forest, threads and bound contexts paired one to one, free slots zeroed, exact count, admission test passed |
| `Process.CreateSucceedsExactly` | kernel/src/process.c:8-90 | creation succeeds exactly when the partition is set up, the budget is positive and within period and window, a thread and a context are free, the stack frame is granted and the partition's load has room for the new share; NO_MEM and INVALID_ARG exactly under their own conditions |
| `Process.CreateIsExact` | kernel/src/process.c:19-25 | a successful creation keeps that invariant if and only if pc or sp_top is non-zero |
| `Process.ZeroThreadIsAccepted` | kernel/src/process.c:19-25 | a creation with both zero is accepted and the next search finds its slot free |
| `Process.CreateEffect` | kernel/src/process.c:19-90 | what a successful creation fills in, in all tables - image, priority, code and stack bounds, context, and the tree's lowest free node, if there is one, holds the stack - and that nothing else changes; the stack is new bytes of the pool if and only if its end does not wrap |
| `Process.FailedCreateChangesNothing` | kernel/src/process.c:8-90 | a failed creation leaves threads, tree, endpoints, capability nodes and bound contexts unchanged; only the allocator may have granted the stack frame, moving up unless the size wraps |
| `Process.DestroyKeepsInv` | kernel/src/process.c:126-163 | destruction keeps the invariant |
| `Process.DestroyEffect` | kernel/src/process.c:126-163 | destruction zeroes the thread, clears its capability node, releases exactly its context, forgets the node the lookup finds and cleans every endpoint |
| `Process.DestroyRefusesExactly` | kernel/src/process.c:128-132 | destruction is refused, and changes nothing, exactly for an index out of range or a slot that looks free |
| `Process.ForgetEffect` | kernel/src/process.c:151-156 | forgetting a process frees the node the lookup finds and its live descendants and no other; what stays keeps everything but child and sibling links |
| `Process.ConfigureIsExact` | kernel/src/tcb.c:4-12 | configuring keeps the tables consistent if and only if the thread was in use |
| `EmptyTree.LookupFindsOwnNode` | kernel/src/revoke.c:108-121 | in lockstep the overlapping lookup rules find the process's own node |
| `EmptyTree.LookupIsExact` | kernel/src/revoke.c:108-121 | among nodes made by mdb_insert the lookup finds the own node if and only if no lower live node carries the same pointer and, for process 0, no lower live node exists |
| `Foreign.BootNodeHidesProcessZero` | kernel/src/boot.c:196 | after the boot-time insertion the lookup for process 0 finds the boot node; destroying process 0 erases that one and leaves the dead process's stack node live |
| `Process.RunKeepsTables` | kernel/src/process.c:8-163 | from no processes and any tree, in every run of creations, configurations and destructions: a bijection of in-use threads and bound contexts whose size is the count, every partition admitted, the tree a forest |
| `Process.BootTreeIsValid` | kernel/src/boot.c:196 | the tree as the kernel boots is one to start from |
| `EmptyTree.RunKeepsLockstep` | kernel/src/process.c:8-163 | if nothing else is in the tree, in every such run node i is live exactly when thread i is in use and carries its number |
| `Process.RunStaysBounded` | kernel/src/sched.c:119-133 | from windows inside the frame and any tree every such run keeps the exact utilization of every partition of n threads below 0.99 + n/100 |
| `EmptyTree.RunDestroysOwnNode` | kernel/src/process.c:151-156 | in every such run destruction erases the dying process's own stack node and no other |
| `Foreign.LookupIsClear` | kernel/src/revoke.c:108-121 | in a tree with foreign nodes the lookup finds a process's own node if and only if no lower live node carries its number and, for process 0, no lower live node exists |
| `Foreign.ClearIsForeign` | kernel/src/revoke.c:108-121 | the same told from the foreign nodes of the start and the processes' recorded nodes |
| `Foreign.DestroyIsExact` | kernel/src/process.c:151-156 | a destruction erases the process's own node and no other if and only if that condition holds; otherwise a live foreign node or another process's own node is erased |
| `Foreign.RunIsExact` | kernel/src/process.c:8-163 | from any tree: throughout a run every foreign node survives unchanged and every destruction erases the own node, if and only if the condition holds at each destruction |
| `Foreign.RunSparesForeign` | kernel/src/process.c:8-163 | a check beforehand: foreign nodes that carry no thread number and a run that never destroys process 0 |
| `ProcessManager.Manager.CreateProcess` | kernel/src/process.c:8-90 | creation on the real tables computes Process.Create |
| `ProcessManager.Manager.AdmitProcess` | kernel/src/process.c:59-81 | context search, binding, admission test and roll-back compute Process.Admit |
| `ProcessManager.Manager.DestroyProcess` | kernel/src/process.c:126-163 | destruction on the real tables computes Process.Destroy |
| `ProcessManager.Manager.ClearNodeOf` | kernel/src/process.c:135-150 | clears exactly the capability node behind the thread's pointer |
| `ProcessManager.Manager.ForgetCap` | kernel/src/process.c:151-156 | lookup, revoke and delete compute Process.Forget |
| `Sched.CreateIsExact` | kernel/src/sched.c:13-37 | an accepted window keeps all windows disjoint and inside the frame if and only if its end does not wrap around 64 bits |
| `Sched.CreateAcceptsExactly` | kernel/src/sched.c:13-37 | a window is accepted exactly for an id below 8, an end inside the frame and no overlap with a window set up so far; it is recorded under its id and nothing else changes |
| `Sched.WrappedWindowIsAccepted` | kernel/src/sched.c:17-27 | a window that wraps is accepted into an empty frame |
| `Sched.RunKeepsWindows` | kernel/src/sched.c:13-37 | every run of creations, gaps and re-created ids included, keeps windows disjoint in the frame and budgets summing to at most 10000 |
| `Sched.DisjointSum` | kernel/src/sched.c:19-27 | disjoint windows cover as many instants as their budgets sum to |
| `Sched.TickFindsOwner` | kernel/src/sched.c:61-76 | after a tick inside a window the current partition is its unique owner |
| `Sched.TickIsPeriodic` | kernel/src/sched.c:61-76 | which partition runs at a covered instant depends only on the instant modulo the frame, whatever the history |
| `Sched.TickIsExact` | kernel/src/sched.c:61-76 | the current partition owns the instant if and only if some partition does |
| `Sched.OwnsIs` | kernel/src/sched.c:66-68 | a window owns the instants from its offset to before its end |
| `Sched.TickRefillsExactly` | kernel/src/sched.c:77-86 | a tick gives exactly the bound contexts whose deadline has come a full budget and the next deadline, and changes nothing else of them |
| `Sched.GapRunsPrevious` | kernel/src/sched.c:64-76 | in a gap the partition that ran last goes on |
| `Sched.PickIsUnique` | kernel/src/sched.c:95-117 | at most one answer is first in (priority, index) among the eligible contexts |
| `Sched.PickServesOwner` | kernel/src/sched.c:95-117 | a pick after a tick inside a window is a runnable thread of the owner with budget left, first by priority and then by index among those, and idle only if none has any |
| `Sched.LoadUnbind` | kernel/src/sched.c:119-133 | releasing a context lowers its partition's sum by exactly its share and no other sum |
| `Sched.BindIsExact` | kernel/src/sched.c:39-59 | a binding is accepted exactly for a context below 64, an active partition, and a positive budget within period and window; what it sets, and that nothing else changes |
| `Sched.UnbindIsExact` | kernel/src/process.c:157-158 | releasing a context clears its bound flag and nothing else |
| `Sched.UnbindKeepsSchedulable` | kernel/src/process.c:157-158 | releasing a context keeps the system schedulable |
| `Sched.SchedulableIsBounded` | kernel/src/sched.c:119-133 | with budgets inside the frame a schedulable system is below 0.99 + n/100 exactly in every partition |
| `WindowTest.FirstIsAccepted` | kernel/src/sched.c:39-59 | binding and test accept a partition's first context exactly under a stated condition on window, budget and period |
| `WindowTest.WindowIsExact` | kernel/src/sched.c:119-133 | every lone context accepted fits its partition's window if and only if the window is empty or lacks at most 1 us of the frame |
| `WindowTest.FrameIsOvercommitted` | kernel/src/sched.c:119-133 | eight disjoint windows of an eighth of the frame, each promised 98 percent of the processor |
| `WindowTest.PackedStep` | kernel/src/sched.c:39-59 | each of the eight bindings in turn is accepted and passes the test |
| `Scheduler.SchedTable.Create` | kernel/src/sched.c:13-37 | the in-place loop computes CreatePartition |
| `Scheduler.SchedTable.BindContext` | kernel/src/sched.c:39-59 | computes Bind |
| `Scheduler.SchedTable.TickAt` | kernel/src/sched.c:61-87 | partition switch and refills compute Tick |
| `Scheduler.SchedTable.PickNext` | kernel/src/sched.c:95-117 | returns the thread of the eligible context with least (priority, index), idle exactly when none is eligible |
| `Scheduler.SchedTable.IsSchedulable` | kernel/src/sched.c:119-133 | the loop, in 64-bit arithmetic, is true exactly when the floored sum of every partition is at most 99 |
| `Budget.RunBoundsConsumption` | kernel/src/sched.c:77-86 | in every run of non-decreasing ticks a context is refilled at most floor(now/period) times and consumes at most budget times one more |
| `Budget.BoundContextConsumes` | kernel/src/sched.c:39-86 | from a successful binding on, every run keeps consumption within budget times one more than the whole periods since time 0 |
| `Budget.PaceIsExact` | kernel/src/sched.c:77-86 | from a moment on, in every run a context is refilled at most once per period begun since, if and only if its deadline lies ahead at that moment |
| `Budget.AheadKeepsPace` | kernel/src/sched.c:77-86 | with the deadline ahead, consumption since is within what remained plus one budget per period begun |
| `Budget.BindingPaceIsExact` | kernel/src/sched.c:57-57 | at a binding that is so if and only if it comes before the first period since time 0 is over |
| `Budget.LateBindingSpendsAtOnce` | kernel/src/sched.c:57-86 | a context bound at 1 s with 100 us per ms spends 300 us within 2 us |
| `Budget.RunRefillsExactly` | kernel/src/sched.c:77-86 | from time 0 with no tick gap longer than the period the refill count is exactly floor(now/period) |
| `Utilization.ShareBound` | kernel/src/sched.c:127-127 | a share is at most the exact percentage, and less than one below it if and only if budget * 100 does not wrap |
| `Utilization.LoadBound` | kernel/src/sched.c:119-133 | the sum is at most the exact percentage and, if no product wraps, below it by less than one per context |
| `Utilization.TestBound` | kernel/src/sched.c:119-133 | every set of exact utilization below 1 passes; a passing one of n contexts whose products do not wrap is below 0.99 + n/100 |
| `Utilization.TightSetIsAccepted` | kernel/src/sched.c:119-133 | for every n and k an accepted set of n contexts lies below that bound by exactly n/(100 k) |
| `Utilization.BoundIsTight` | kernel/src/sched.c:119-133 | for every n from 1 to 64 an accepted set of n contexts comes within 10^-15 of the bound |
| `Utilization.LoadIsExact` | kernel/src/sched.c:122-128 | the sum is the exact percentage if and only if no context of the partition is rounded or wraps |
| `Utilization.OverloadIsAccepted` | kernel/src/sched.c:119-133 | three contexts needing 101.97 percent pass the test |
| `SchedServer.Server.IsSchedulableFor` | userspace/sched_server/server.c:20-31 | the loop with its early exits is true exactly when every partial sum, in 64-bit arithmetic, is within the limit |
| `SchedServer.RunVerdictsAgree` | userspace/sched_server/server.c:20-31 | in every run the server gives every candidate the verdict of the full 64-bit sum |
| `SchedServer.CandidateVerdictsAgree` | userspace/sched_server/server.c:20-31 | on every table that passes, early exits and full sum give every candidate the same verdict |
| `SchedServer.KernelVerdictsAgree` | kernel/src/sched.c:119-133 | on every set of contexts the kernel can hold, the server's test is the kernel's |
| `SchedServer.EarlyExitIsStricter` | userspace/sched_server/server.c:20-31 | what passes with early exits passes the full 64-bit sum; the two agree whenever the sum does not wrap |
| `SchedServer.EarlyExitCanDiffer` | userspace/sched_server/server.c:20-31 | two tasks whose sum wraps back under the limit: the full sum accepts what the early exit refuses |
| `SchedServer.Server.Admit` | userspace/sched_server/server.c:33-38 | admits exactly when there is room and the partition passes with the candidate; every partition still passes |
| `SchedServer.AdmissionIsExact` | userspace/sched_server/server.c:33-38 | an admission keeps all shares true and all sums within the limit if and only if neither budget * 100 nor the partition's sum wraps |
| `SchedServer.WrappedBudgetIsAdmitted` | userspace/sched_server/server.c:20-38 | budget 184467440737095517 with period 1000 is admitted at zero percent |
| `SchedServer.WrappedSumIsAdmitted` | userspace/sched_server/server.c:20-38 | without any product wrapping, a second task of 2^64 - 16 percent is admitted beside one of 99 percent |
| `SchedServer.Server.IsAdmissible` | userspace/sched_server/server.c:40-45 | true exactly when the eight partitions pass the server's test |
| `SchedServer.RunStaysAdmissible` | userspace/sched_server/server.c:20-45 | every run of admissions leaves every partition passing the server's own test |
| `SchedServer.RunIsExact` | userspace/sched_server/server.c:33-38 | the table stays sound throughout a run if and only if no admission of the run wraps |
| `SchedServer.RunStaysBounded` | userspace/sched_server/server.c:20-45 | every run without wrap-around keeps every partition within the limit and below 0.99 + n/100 exactly |
| `CNode.CopyIsExact` | kernel/src/cnode.c:42-61 | when a copy succeeds and the condition of each error; the slot then holds the source with exactly the rights asked for, and nothing else changes |
| `CNode.PlainCopy` | kernel/src/cnode.c:42-61 | from a plain node a copy comes from the slot it names |
| `CNode.CopyEffect` | kernel/src/cnode.c:42-61 | a copied capability is derived from its source |
| `CNode.MintIsExact` | kernel/src/cnode.c:63-82 | when a mint succeeds and the condition of each error; the slot then holds the source with exactly the rights and badge asked for, and nothing else changes |
| `CNode.MintEffect` | kernel/src/cnode.c:63-82 | a minted capability is derived from its source, which held GRANT |
| `CNode.MoveIsExact` | kernel/src/cnode.c:84-96 | when a move succeeds; the capability is unchanged in its new slot, its old slot blank, every other slot and both counters as before |
| `CNode.DeleteIsExact` | kernel/src/cnode.c:98-109 | when a deletion succeeds; the slot is blank after and nothing else changes |
| `CNode.WithinIs` | kernel/src/cap.c:7-7 | the rights asked for add nothing to those held |
| `CNode.RunDerives` | kernel/src/cap.c:4-19 | after every run of copies, mints, moves and deletes every valid capability has type, object and hardware bounds of some initial one, a subset of its rights, and another badge only under GRANT |
| `CNode.MoveCountsExactly` | kernel/src/cnode.c:84-96 | a move keeps the used counters right if and only if it stays inside one node |
| `CNode.MoveBetweenNodesMiscounts` | kernel/src/cnode.c:84-96 | a capability moved into another node: both counters wrong |
| `CNode.ClearSpaceEmpties` | kernel/src/process.c:135-150 | clearing a thread's node leaves it empty, with nothing to look up, and changes no other node |
| `CNode.RunCounts` | kernel/src/cnode.c:42-109 | over every run whose moves stay inside one node, used is the number of valid slots |
| `CNode.CapTable.Find` | kernel/src/cnode.c:15-40 | guard and radix decoding compute Lookup |
| `CNode.LookupIsExact` | kernel/src/cnode.c:15-40 | an index names the slot of its low radix bits, if that holds a valid, tagged capability and the bits above agree with the guard; any other radix names nothing |
| `CNode.PlainLookup` | kernel/src/cnode.c:28-39 | in a node of radix 8 without guard, index i is slot i |
| `CNode.CapTable.Copy` | kernel/src/cnode.c:42-61 | computes CopyInto, also when source and destination are the same node |
| `CNode.CapTable.Mint` | kernel/src/cnode.c:63-82 | computes MintInto, also when source and destination are the same node |
| `CNode.CapTable.Move` | kernel/src/cnode.c:84-96 | computes the two-node step, aliased or not |
| `CNode.CapTable.Clear` | kernel/src/process.c:139-145 | the loop computes Cleared |
| `CNode.CapTable.Delete` | kernel/src/cnode.c:98-109 | computes DeleteAt |
| `WholeKernel.IpcKeepsKernel` | kernel/src/syscall.c:56-96 | an IPC step keeps the process tables consistent and no endpoint refers to a dead thread |
| `WholeKernel.CreateKeepsIpc` | kernel/src/process.c:8-90 | creation keeps the IPC invariant: the slot it fills was registered nowhere |
| `WholeKernel.DestroyKeepsKernel` | kernel/src/process.c:126-163 | destruction keeps all invariants together |
| `WholeKernel.TickKeepsKernel` | kernel/src/sched.c:77-86 | refills keep the admission test and the pairing |
| `WholeKernel.CapStepKeepsCaps` | kernel/src/cnode.c:42-109 | capability operations keep every endpoint capability naming an endpoint that exists |
| `WholeKernel.ConfigureStepKeeps` | kernel/src/tcb.c:4-12 | configuring a thread that has not started keeps all invariants |
| `WholeKernel.NullSpaceIsRefused` | kernel/src/syscall.c:39-49 | without a capability node every IPC call is refused and changes nothing |
| `WholeKernel.CallUsesOwn` | kernel/src/syscall.c:36-52 | a system call uses the capability in the slot it names of the caller's own node, and what remains of the context bound to the caller |
| `WholeKernel.RunStaysConsistent` | kernel/src/process.c:8-163 | from any tree, in every interleaving of creation, configuration, start, destruction, capability operations, IPC through the threads' own nodes and budgets, and ticks: the tree stays a forest, threads and contexts are paired one to one and counted, admission holds, a registered receiver is live and blocked at one endpoint only, and every queued message is from a live thread |
| `WholeKernel.RunKeepsLockstep` | kernel/src/process.c:8-163 | if the tree was empty at the start, thread and node numbers stay in step throughout such runs |
| `WholeKernel.DestroyForgetsExactly` | kernel/src/process.c:133-134 | after destruction no endpoint knows the thread if and only if none held an unclaimed hand-off from or to it |
| `WholeKernel.DestroyClearsSpace` | kernel/src/process.c:135-150 | after destruction nothing can be looked up in the thread's capability node |
| `WholeKernel.EventIsExact` | kernel/src/process.c:126-134 | of all events only destroying a thread with an unclaimed hand-off leaves an endpoint knowing a dead thread |
| `WholeKernel.RunKnowsOnlyLive` | kernel/src/process.c:126-134 | throughout a run both ends of every hand-off are live if and only if no process is destroyed while a message from or to it lies unclaimed |
| `WholeKernel.NewProcessIsUnknown` | kernel/src/process.c:8-90 | where both ends of every hand-off are live, a new process is unknown to every endpoint |

## Left out

Numbers are unbounded naturals. 64-bit wrap-around is written out for allocator addresses, virtual and physical addresses
of a mapping, stack and code bounds, window ends, context deadlines, and the products and sums of both admission tests;
elsewhere no value comes near 2^64.

- Spaces.RunResolves: the allocator's base is page-aligned and its pool ends more than sixteen pages below 2^64, and frames for others end below it wherever they are placed; otherwise a frame can wrap, as `Alloc.GrantIsExact` says.
- Process.RunKeepsTables: every created process has pc or sp_top non-zero; the exact condition is `Process.CreateIsExact`.
- EmptyTree.RunKeepsLockstep: holds for a tree with nothing else in it, which the booted kernel's is not; `Foreign` covers the others.
- WholeKernel.RunStaysConsistent: a thread is configured only before it starts and with a capability node that exists; configuring a blocked thread would break its registration.
- Scheduler.SchedTable.PickNext: bound contexts name threads below 128, as everything bound by process_create does; priorities are bytes.
- Budget.RunBoundsConsumption: consumption is a step of the environment, since the kernel never lowers the remaining budget; deadlines stay below 2^64.
- SchedServer.Server.Admit: the period is positive, since the C code divides by it.
- IpcKernel.IpcSystem.DoSend: a thread buffer that claims more than three capabilities makes the C loop write past an array; the buffer invariant, which every run keeps, rules it out.
- CNode.RunDerives: the destination slot of a move is below 256; cnode_move does not check it and would write outside the node.
- CNode.CapTable.Move: the destination slot is below 256, for the same reason.
- Helper methods (`Fill`, `ClearNode`, `RevokeChildren`, `MapOne`, `DropSender`, `ShiftDown`, `Settle` and the like) are parts of one C function; the child loop occurs in both revoke functions and is written once.
- The sender of a handed-off message is a ghost field of the endpoint: the C structure does not keep it.
- handle_invoke: the argument encodings of SYS_INVOKE, and with them untyped retype, suspend and resume of threads, and binding a context without the admission test.
- SYS_YIELD, the bound check on the system call number, and reading the clock: whether a call overran is an input.
- Boot, UART, display, PCI, trap entry, linker scripts.
- CHERI pure-capability intrinsics, fences, satp, microarchitectural flushes: the hybrid struct form of capabilities is modelled and flushes do nothing.
- The host branches of alloc_pt_page, vspace_switch and vspace_init without an allocator.
- alloc_free, cap_can_retype, cap_retype, endpoint_call: single-branch functions.
- Any link between derivation tree and capability nodes: copy and mint do not insert into the tree and revoke does not touch nodes.
- is_canonical_addr: canonical addresses are taken from section 4.4.1 of the RISC-V Privileged Architecture.
- IOMMU windows, IRQ binding, notifications: range checks and flag updates on small tables of their own.
- ELF validation, mem_server, vfs_server, block and network drivers: message parsing and device access outside the kernel's core tables.
- Measured boot and attestation: they rest on a hash function and device secrets that are not part of this model.
- The Isabelle theories, whose invariants are mostly constant true.
