/**
  The integer utilization test shared by the kernel (sched_is_schedulable in kernel/src/sched.c) and the scheduling
  server (userspace/sched_server/server.c), against exact utilization. Percentages are computed in 64-bit arithmetic.
 */
module Utilization {
  import opened Kernel

  datatype Task = Task(partition: nat, budget: Word, period: Word)

  const LIMIT: nat := 99

  predicate TasksOk(ts: seq<Task>) {
    forall i :: 0 <= i < |ts| ==> ts[i].period > 0
  }

  /** Percent of one task, rounded down; the product is reduced to 64 bits. */
  function Share(t: Task): nat
    requires t.period > 0
  {
    t.budget * 100 % WORD / t.period
  }

  /** The product of the share does not wrap. */
  predicate Small(t: Task) {
    t.budget * 100 < WORD
  }

  predicate AllSmall(ts: seq<Task>, p: nat) {
    forall i :: 0 <= i < |ts| && ts[i].partition == p ==> Small(ts[i])
  }

  /** The shares of partition `p`, summed. */
  function Load(ts: seq<Task>, p: nat): nat
    requires TasksOk(ts)
  {
    if ts == [] then 0
    else
      var n := |ts| - 1;
      Load(ts[..n], p) + if ts[n].partition == p then Share(ts[n]) else 0
  }

  /** Exact utilization of partition `p`. */
  function Exact(ts: seq<Task>, p: nat): real
    requires TasksOk(ts)
  {
    if ts == [] then 0.0
    else
      var n := |ts| - 1;
      Exact(ts[..n], p) + if ts[n].partition == p then ts[n].budget as real / ts[n].period as real else 0.0
  }

  function Count(ts: seq<Task>, p: nat): nat {
    if ts == [] then 0
    else
      var n := |ts| - 1;
      Count(ts[..n], p) + if ts[n].partition == p then 1 else 0
  }

  lemma QuotientBound(x: nat, d: nat)
    requires d > 0
    ensures (x / d) as real <= x as real / d as real < (x / d) as real + 1.0
    ensures x as real / d as real == (x / d) as real <==> x % d == 0
  {
    var q, r := x / d, x % d;
    assert x == d * q + r;
    assert x as real == d as real * q as real + r as real;
    assert x as real / d as real == q as real + r as real / d as real by {
      assert (q as real + r as real / d as real) * d as real == q as real * d as real + r as real;
    }
    assert 0.0 <= r as real / d as real < 1.0;
    assert r as real / d as real == 0.0 <==> r == 0;
  }

  lemma QuotientMonotone(x: nat, y: nat, d: nat)
    requires x <= y && d > 0
    ensures x as real / d as real <= y as real / d as real
  {
  }

  lemma PercentIs(b: nat, d: nat)
    requires d > 0
    ensures 100.0 * (b as real / d as real) == (b * 100) as real / d as real
  {
    assert (b * 100) as real == 100.0 * b as real;
  }

  /** A budget within its period is at most a hundred percent, wrapped or not. */
  lemma ShareIsSmall(t: Task)
    requires t.period > 0 && t.budget <= t.period
    ensures Share(t) <= 100
  {
    var q := Share(t);
    assert t.period * q <= t.budget * 100 % WORD <= t.period * 100;
    if q > 100 {
      MulMonotone(t.period, 101, q);
    }
  }

  /** A wrapped product loses at least one whole period. */
  lemma WrapLosesOne(x: nat, d: nat)
    requires 0 < d < WORD && x >= WORD
    ensures (x % WORD / d) as real + 1.0 <= x as real / d as real
  {
    var y := x % WORD;
    assert y + WORD <= x;
    QuotientBound(y, d);
    QuotientMonotone(y + d, x, d);
    AddOne(y, d);
  }

  lemma RatioOf(a: real, b: real, c: real)
    requires c != 0.0 && a == b * c
    ensures a / c == b
  {
  }

  lemma AddOne(y: nat, d: nat)
    requires d > 0
    ensures (y + d) as real / d as real == y as real / d as real + 1.0
  {
    var x, e := y as real, d as real;
    var q := x / e;
    assert q * e == x;
    assert (q + 1.0) * e == q * e + e;
    RatioOf((y + d) as real, q + 1.0, e);
  }

  /** A share is at most the exact percentage, and less than one below it if and only if the product does not wrap. */
  lemma ShareBound(t: Task)
    requires t.period > 0
    ensures Share(t) as real <= 100.0 * (t.budget as real / t.period as real)
    ensures 100.0 * (t.budget as real / t.period as real) < Share(t) as real + 1.0 <==> Small(t)
    ensures 100.0 * (t.budget as real / t.period as real) == Share(t) as real <==>
            Small(t) && t.budget * 100 % t.period == 0
  {
    PercentIs(t.budget, t.period);
    if Small(t) {
      QuotientBound(t.budget * 100, t.period);
    } else {
      WrapLosesOne(t.budget * 100, t.period);
    }
  }

  /** The integer sum is below the exact percentage; if no product wraps, by less than one per task. */
  lemma {:induction false} LoadBound(ts: seq<Task>, p: nat)
    requires TasksOk(ts)
    ensures Load(ts, p) as real <= 100.0 * Exact(ts, p)
    ensures Count(ts, p) == 0 ==> Exact(ts, p) == 0.0
    ensures Count(ts, p) > 0 && AllSmall(ts, p) ==> 100.0 * Exact(ts, p) < Load(ts, p) as real + Count(ts, p) as real
  {
    if ts != [] {
      var n := |ts| - 1;
      LoadBound(ts[..n], p);
      ShareBound(ts[n]);
      assert AllSmall(ts, p) ==> AllSmall(ts[..n], p) && (ts[n].partition == p ==> Small(ts[n]));
      hide Share, Small;
    }
  }

  /** Every set of exact utilization below one is accepted; an accepted one of n small tasks is below 0.99 + n/100. */
  lemma TestBound(ts: seq<Task>, p: nat)
    requires TasksOk(ts)
    ensures Exact(ts, p) < 1.0 ==> Load(ts, p) <= LIMIT
    ensures Load(ts, p) <= LIMIT && AllSmall(ts, p) && Count(ts, p) > 0 ==>
              Exact(ts, p) < 0.99 + Count(ts, p) as real / 100.0
  {
    LoadBound(ts, p);
  }

  /** No task of the partition loses anything to rounding or to wrap-around. */
  predicate Whole(ts: seq<Task>, p: nat)
    requires TasksOk(ts)
  {
    forall i :: 0 <= i < |ts| && ts[i].partition == p ==> Small(ts[i]) && ts[i].budget * 100 % ts[i].period == 0
  }

  /** The integer sum is the exact percentage if and only if no task of the partition is rounded or wraps. */
  lemma {:induction false} LoadIsExact(ts: seq<Task>, p: nat)
    requires TasksOk(ts)
    ensures Load(ts, p) as real == 100.0 * Exact(ts, p) <==> Whole(ts, p)
  {
    if ts != [] {
      var n := |ts| - 1;
      var whole := ts[n].partition == p ==> Small(ts[n]) && ts[n].budget * 100 % ts[n].period == 0;
      LoadIsExact(ts[..n], p);
      LoadBound(ts[..n], p);
      ShareBound(ts[n]);
      assert Whole(ts, p) <==> Whole(ts[..n], p) && whole;
      hide Share, Small, Whole;
    }
  }

  // ----- The bound is tight

  /** One task just below 100 percent and `n - 1` just below one percent, of period 100 k. */
  function TightSet(n: nat, k: nat, p: nat): (ts: seq<Task>)
    requires n >= 1 && k >= 2 && 10000 * k <= WORD
    ensures TasksOk(ts) && |ts| == n
  {
    if n == 1 then [Task(p, 100 * k - 1, 100 * k)]
    else TightSet(n - 1, k, p) + [Task(p, k - 1, 100 * k)]
  }

  /** How far one task of the set is below a whole percentage. */
  function Gap(k: nat): real
    requires k > 0
  {
    1.0 / (100 * k) as real
  }

  lemma DivIs(q: nat, d: nat, r: nat)
    requires r < d
    ensures (q * d + r) / d == q
  {
    var m := q * d + r;
    var q', r' := m / d, m % d;
    assert m == d * q' + r';
    if q' < q {
      MulMonotone(d, q' + 1, q);
    } else if q < q' {
      MulMonotone(d, q + 1, q');
    }
  }

  lemma RatioIs(b: nat, k: nat, whole: real)
    requires k > 0 && b as real == whole * (100 * k) as real - 1.0
    ensures b as real / (100 * k) as real == whole - Gap(k)
  {
    var d := (100 * k) as real;
    assert (whole - 1.0 / d) * d == whole * d - 1.0;
  }

  lemma TightFirst(k: nat, p: nat)
    requires k >= 2 && 10000 * k <= WORD
    ensures var t := Task(p, 100 * k - 1, 100 * k);
            && Small(t) && Share(t) == 99
            && t.budget as real / t.period as real == 1.0 - Gap(k)
  {
    var d := 100 * k;
    DivIs(99, d, d - 100);
    RatioIs(d - 1, k, 1.0);
    hide Gap;
    assert (d - 1) * 100 == 99 * d + (d - 100);
  }

  lemma TightNext(k: nat, p: nat)
    requires k >= 2 && 10000 * k <= WORD
    ensures var t := Task(p, k - 1, 100 * k);
            && Small(t) && Share(t) == 0
            && t.budget as real / t.period as real == 0.01 - Gap(k)
  {
    var d := 100 * k;
    DivIs(0, d, (k - 1) * 100);
    RatioIs(k - 1, k, 0.01);
    hide Gap;
  }

  lemma OneMore(n: nat, g: real, x: real)
    requires n > 0 && x == 0.99 + (n - 1) as real / 100.0 - (n - 1) as real * g
    ensures x + (0.01 - g) == 0.99 + n as real / 100.0 - n as real * g
  {
    var m := (n - 1) as real;
    assert n as real == m + 1.0;
    assert (m + 1.0) * g == m * g + g;
  }

  /** What is said of the set of `n` tasks: accepted, and below the bound 0.99 + n/100 by n gaps exactly. */
  ghost predicate Tight(ts: seq<Task>, n: nat, g: real, p: nat)
    requires TasksOk(ts)
  {
    && Count(ts, p) == n && AllSmall(ts, p) && Load(ts, p) == LIMIT
    && Exact(ts, p) == 0.99 + n as real / 100.0 - n as real * g
  }

  lemma TightAppend(ts: seq<Task>, t: Task, n: nat, g: real, p: nat)
    requires TasksOk(ts) && Tight(ts, n, g, p)
    requires t.partition == p && t.period > 0 && Small(t) && Share(t) == 0
    requires t.budget as real / t.period as real == 0.01 - g
    ensures TasksOk(ts + [t]) && Tight(ts + [t], n + 1, g, p)
  {
    Appended(ts, t, p);
    LoadAppend(ts, t, p);
    OneMore(n + 1, g, Exact(ts, p));
    hide Exact, Count, Load, AllSmall, Share, Small;
  }

  lemma Nothing(p: nat)
    ensures Exact([], p) == 0.0 && Load([], p) == 0 && Count([], p) == 0 && AllSmall([], p)
  {
  }

  lemma TightStart(t: Task, g: real, p: nat)
    requires t.partition == p && t.period > 0 && Small(t) && Share(t) == LIMIT
    requires t.budget as real / t.period as real == 1.0 - g
    ensures TasksOk([t]) && Tight([t], 1, g, p)
  {
    assert [] + [t] == [t];
    Appended([], t, p);
    LoadAppend([], t, p);
    Nothing(p);
    hide Share, Small, Exact, Load, Count, AllSmall;
  }

  /** The set is accepted, and lies below the bound 0.99 + n/100 by n gaps exactly. */
  lemma {:induction false} TightSetIsAccepted(n: nat, k: nat, p: nat)
    requires n >= 1 && k >= 2 && 10000 * k <= WORD
    ensures Tight(TightSet(n, k, p), n, Gap(k), p)
  {
    hide Share, Small, Gap, Tight;
    if n == 1 {
      TightFirst(k, p);
      TightStart(Task(p, 100 * k - 1, 100 * k), Gap(k), p);
    } else {
      TightSetIsAccepted(n - 1, k, p);
      TightNext(k, p);
      TightAppend(TightSet(n - 1, k, p), Task(p, k - 1, 100 * k), n - 1, Gap(k), p);
    }
  }

  lemma Appended(ts: seq<Task>, t: Task, p: nat)
    requires TasksOk(ts) && t.period > 0 && t.partition == p
    ensures TasksOk(ts + [t])
    ensures Count(ts + [t], p) == Count(ts, p) + 1
    ensures Exact(ts + [t], p) == Exact(ts, p) + t.budget as real / t.period as real
    ensures AllSmall(ts, p) && Small(t) ==> AllSmall(ts + [t], p)
  {
    assert (ts + [t])[..|ts|] == ts;
  }

  /** For every number of contexts the kernel can bind, some accepted set comes within 10^-15 of the bound. */
  lemma BoundIsTight(n: nat, p: nat)
    requires 1 <= n <= 64
    ensures var ts := TightSet(n, 1000000000000000, p);
            && |ts| == n && Load(ts, p) <= LIMIT
            && 0.99 + n as real / 100.0 - 0.000000000000001 < Exact(ts, p) < 0.99 + n as real / 100.0
  {
    TightSetIsAccepted(n, 1000000000000000, p);
    hide TightSet;
  }

  /**
    Rounding lets an overloaded set through: three tasks of 33.99 percent each pass the test and need 101.97 percent.
   */
  lemma OverloadIsAccepted(p: nat)
    ensures var t := Task(p, 3399, 10000);
            Load([t, t, t], p) <= LIMIT && Exact([t, t, t], p) > 1.0
  {
    var t := Task(p, 3399, 10000);
    AThird(p);
    assert Exact([], p) == 0.0 && Load([], p) == 0;
    hide Share, Exact, Load, Small;
    LoadAppend([], t, p);
    LoadAppend([t], t, p);
    LoadAppend([t, t], t, p);
    Appended([], t, p);
    Appended([t], t, p);
    Appended([t, t], t, p);
    assert [] + [t] == [t] && [t] + [t] == [t, t] && [t, t] + [t] == [t, t, t];
  }

  lemma AThird(p: nat)
    ensures var t := Task(p, 3399, 10000); Share(t) == 33 && t.budget as real / t.period as real == 0.3399
  {
    RatioOf(3399.0, 0.3399, 10000.0);
  }

  /** Adding a task adds its share; the sum never decreases. */
  lemma LoadAppend(ts: seq<Task>, t: Task, p: nat)
    requires TasksOk(ts) && t.period > 0
    ensures TasksOk(ts + [t])
    ensures Load(ts + [t], p) == Load(ts, p) + if t.partition == p then Share(t) else 0
  {
    assert (ts + [t])[..|ts|] == ts;
    hide Share;
  }

  lemma {:induction false} LoadPrefix(ts: seq<Task>, k: nat, p: nat)
    requires TasksOk(ts) && k <= |ts|
    ensures Load(ts[..k], p) <= Load(ts, p)
    decreases |ts|
  {
    if k == |ts| {
      assert ts[..k] == ts;
    } else {
      LoadPrefix(ts[..|ts| - 1], k, p);
      assert ts[..|ts| - 1][..k] == ts[..k];
    }
  }
}
