/**
  The admission test against the time windows (kernel/src/sched.c): it compares a partition's demand with the whole
  processor, not with the part of the frame that the partition gets.
 */
module WindowTest {
  import opened Kernel
  import opened Utilization
  import opened Sched
  import Sets

  /** A window of `w` us per frame gives the context its budget per period on average. */
  predicate FitsWindow(w: nat, budget: nat, period: nat) {
    budget * FRAME_US <= w * period
  }

  /** What binding and the admission test ask of a partition's only context. */
  predicate Accepted(w: nat, budget: Word, period: Word) {
    0 < budget <= period && budget <= w && Share(Task(0, budget, period)) <= LIMIT
  }

  /** That is exactly when the kernel takes the first context of a partition with that window. */
  lemma FirstIsAccepted(s: State, part: nat, tcb: nat, budget: Word, period: Word, prio: nat)
    requires Shaped(s) && part < s.num && s.partitions[part].active
    requires forall c :: 0 <= c < |s.contexts| ==> !s.contexts[c].bound
    ensures var (s', e) := Bind(s, 0, tcb, part, budget, period, prio);
            Accepted(s.partitions[part].budget, budget, period) <==>
            e == Ok && PeriodsOk(s'.contexts) && Schedulable(s')
  {
    var (s', e) := Bind(s, 0, tcb, part, budget, period, prio);
    if e == Ok {
      var cs := s'.contexts;
      assert PeriodsOk(cs);
      assert Share(TaskOf(cs[0])) == Share(Task(0, budget, period));
      forall p: nat | p < s.num
        ensures PartitionLoad(cs, p) == if p == part then Share(Task(0, budget, period)) else 0
      {
        LoadUnbind(cs, 0, cs[0].(bound := false), p);
        NothingBound(cs[0 := cs[0].(bound := false)]);
        hide Share, TasksOf;
      }
      hide PartitionLoad, Share;
      assert PartitionLoad(cs, part) == Share(Task(0, budget, period));
    }
  }

  lemma WholeIsHundred(b: nat)
    requires b > 0
    ensures b * 100 / b == 100
  {
    DivIs(100, b, 0);
  }

  lemma QuotientBelow(x: nat, d: nat, q: nat)
    requires d > 0 && x < d * q
    ensures x / d < q
  {
    if q <= x / d {
      MulMonotone(d, q, x / d);
    }
  }

  lemma AcceptedFits(w: nat, b: Word, d: Word)
    requires FRAME_US - 1 <= w <= FRAME_US && Accepted(w, b, d)
    ensures FitsWindow(w, b, d)
  {
    SmallWord(b * 100);
    WholeIsHundred(b);
    assert b < d;
    hide Share;
    MulMonotone(w, b + 1, d);
    assert w * (b + 1) == w * b + w;
    assert b * FRAME_US <= w * b + w by {
      if w == FRAME_US - 1 {
        assert b * FRAME_US == w * b + b;
      } else {
        assert b * FRAME_US == w * b;
      }
    }
  }

  lemma SmallWindowFails(w: Word)
    requires 0 < w < FRAME_US - 1
    ensures Accepted(w, w, w + 1) && !FitsWindow(w, w, w + 1)
  {
    SmallWord(w * 100);
    QuotientBelow(w * 100, w + 1, 100);
    MulMonotone(w, w + 2, FRAME_US);
    assert w * (w + 2) == w * (w + 1) + w;
  }

  /**
    Every lone context that a partition accepts fits its window if and only if the window is empty, so that nothing is
    accepted, or lacks at most one microsecond of the whole frame.
   */
  lemma WindowIsExact(w: Word)
    requires w <= FRAME_US
    ensures (forall b: Word, d: Word :: Accepted(w, b, d) ==> FitsWindow(w, b, d)) <==> w == 0 || FRAME_US - 1 <= w
  {
    if w >= FRAME_US - 1 {
      forall b: Word, d: Word | Accepted(w, b, d)
        ensures FitsWindow(w, b, d)
      {
        AcceptedFits(w, b, d);
      }
    } else if w > 0 {
      SmallWindowFails(w);
    }
  }

  // ----- A frame promised almost eight times over

  /** Eight partitions of 1250 us each, the first `k` of them with a context of 1250 us every 1263 us. */
  function Packed(k: nat): (s: State)
    requires k <= 8
    ensures Shaped(s)
  {
    State(seq(8, i requires 0 <= i < 8 => Partition(i * 1250, 1250, 0, i * 2, true)), 8, 0, 0,
          seq(MAX_CONTEXTS, i requires 0 <= i < MAX_CONTEXTS => if i < k then Greedy(i) else NO_CONTEXT))
  }

  function Greedy(i: nat): Context {
    Context(true, i, i, 1250, 1263, 1250, 1263, 0, 0)
  }

  lemma GreedyShare(i: nat)
    ensures Share(TaskOf(Greedy(i))) == 98 && !FitsWindow(1250, 1250, 1263)
  {
  }

  lemma PackedWindows()
    ensures WindowsOk(Packed(0)) && BudgetSum(Packed(0).partitions) <= FRAME_US
  {
    var s := Packed(0);
    assert WindowsOk(s);
    hide Packed;
    DisjointSum(s.partitions);
    SubsetIn(s.partitions);
  }

  lemma SubsetIn(ps: seq<Partition>)
    requires Covered(ps) <= Sets.Range(FRAME_US) && |Covered(ps)| == BudgetSum(ps)
    ensures BudgetSum(ps) <= FRAME_US
  {
    Sets.SubsetSize(Covered(ps), Sets.Range(FRAME_US));
  }

  lemma PackedPeriods(k: nat)
    requires k <= 8
    ensures PeriodsOk(Packed(k).contexts)
  {
  }

  lemma {:induction false} PackedLoad(k: nat, p: nat)
    requires k <= 8
    ensures PeriodsOk(Packed(k).contexts)
    ensures PartitionLoad(Packed(k).contexts, p) == if p < k then 98 else 0
  {
    PackedPeriods(k);
    if k == 0 {
      NothingBound(Packed(0).contexts);
      hide TasksOf;
    } else {
      PackedLoad(k - 1, p);
      var cs := Packed(k).contexts;
      assert cs[k - 1] == Greedy(k - 1);
      assert cs[k - 1 := NO_CONTEXT] == Packed(k - 1).contexts;
      LoadUnbind(cs, k - 1, NO_CONTEXT, p);
      GreedyShare(k - 1);
      hide PartitionLoad, Packed, Share;
    }
  }

  /** Each binding in turn is accepted and passes the test. */
  lemma PackedStep(k: nat)
    requires k < 8
    ensures Bind(Packed(k), k, k, k, 1250, 1263, 0) == (Packed(k + 1), Ok)
    ensures PeriodsOk(Packed(k + 1).contexts) && Schedulable(Packed(k + 1))
  {
    assert Bind(Packed(k), k, k, k, 1250, 1263, 0).0.contexts == Packed(k + 1).contexts;
    PackedPeriods(k + 1);
    var cs := Packed(k + 1).contexts;
    forall p: nat | p < 8
      ensures PartitionLoad(cs, p) <= LIMIT
    {
      PackedLoad(k + 1, p);
    }
    hide PartitionLoad;
  }

  /**
    In the end eight disjoint windows of one eighth of the frame have each been promised 98 percent of the processor.
   */
  lemma FrameIsOvercommitted(p: nat)
    requires p < 8
    ensures WindowsOk(Packed(8)) && PeriodsOk(Packed(8).contexts) && Schedulable(Packed(8))
    ensures PartitionLoad(Packed(8).contexts, p) == 98 && Packed(8).partitions[p].budget * 8 == FRAME_US
  {
    PackedWindows();
    PackedStep(7);
    PackedLoad(8, p);
    hide PartitionLoad;
    assert Packed(8).partitions == Packed(0).partitions;
  }
}
