/** How many bus cycles a program can use in an interval of a given length, when it is run
    again and again. The value computed is not only a bound for every schedule of runs: it
    is the largest number any schedule reaches. */
module ArrivalCurve {
  import Arithmetic = AddressMapping

  /** The program represents "no bound" by -1. */
  const INFINITY: int := -1

  /** A bound on the accesses of one run, on the bus cycles of one access, and the least
      time between the starts of two runs. */
  datatype Program = Program(accessBound: int, busCyclesPerAccess: nat, period: nat)

  predicate ProgramValid(p: Program) {
    p.accessBound >= INFINITY
  }

  /** Whether interval lengths bound the access cycles at all. */
  predicate Bounded(p: Program) {
    p.accessBound != INFINITY && p.period != 0
  }

  /** The most access cycles of one run. */
  function PerRun(p: Program): nat
    requires ProgramValid(p) && p.accessBound != INFINITY
  {
    Product(p.accessBound, p.busCyclesPerAccess);
    p.accessBound * p.busCyclesPerAccess
  }

  function Least(x: int, y: int): int { if x < y then x else y }

  function Curve(p: Program, time: nat): (r: nat)
    requires ProgramValid(p)
  {
    if time == 0 then 0
    else if !Bounded(p) then time
    else
      var perRun := PerRun(p);
      var exceed := if time < perRun then 0 else time - perRun;
      var d, m := exceed / p.period, exceed % p.period;
      Product(d, perRun);
      var bound1 := perRun + d * perRun + (if m != 0 then perRun else 0);
      var bound2 := perRun + d * perRun + m;
      Least(Least(bound1, bound2), time)
  }

  /** Within the access cycles of one run there is no better bound than the time. */
  lemma WithinOneRun(p: Program, time: nat)
    requires ProgramValid(p) && Bounded(p) && time <= PerRun(p)
    ensures Curve(p, time) == time
  {
    assert 0 / p.period == 0 && 0 % p.period == 0;
  }

  // ---- schedules -------------------------------------------------------------------

  /** The access cycles in the interval from `from` up to `to`. */
  function Within(cycles: set<int>, from: int, to: int): (r: set<int>) {
    set t | t in cycles && from <= t < to
  }

  function Since(cycles: set<int>, from: int): (r: set<int>) {
    set t | t in cycles && from <= t
  }

  /** The cycle sets a program can produce: runs start at least a period apart, a cycle
      belongs to the last run started, and each run uses the bus for at most `perRun` cycles.
      A cycle is a point in time, so there is at most one at a time. */
  ghost predicate Schedule(starts: seq<int>, cycles: set<int>, perRun: nat, period: nat) {
    && (forall i :: 0 < i < |starts| ==> starts[i] >= starts[i - 1] + period)
    && (forall t :: t in cycles ==> |starts| > 0 && starts[0] <= t)
    && (forall i :: 0 < i < |starts| ==> |Within(cycles, starts[i - 1], starts[i])| <= perRun)
    && (|starts| > 0 ==> |Since(cycles, starts[|starts| - 1])| <= perRun)
  }

  function Interval(low: int, high: int): (r: set<int>)
    ensures forall t :: t in r <==> low <= t < high
    ensures |r| == (if low <= high then high - low else 0)
    decreases high - low
  {
    if low >= high then {} else Interval(low, high - 1) + {high - 1}
  }

  lemma SubsetSize(a: set<int>, b: set<int>)
    requires a <= b
    ensures |a| <= |b|
  {
    assert b == a + (b - a);
  }

  lemma WithinSize(cycles: set<int>, from: int, to: int)
    requires from <= to
    ensures |Within(cycles, from, to)| <= to - from
  {
    SubsetSize(Within(cycles, from, to), Interval(from, to));
  }

  lemma WithinSplit(cycles: set<int>, from: int, mid: int, to: int)
    requires from <= mid <= to
    ensures |Within(cycles, from, to)| == |Within(cycles, from, mid)| + |Within(cycles, mid, to)|
  {
    assert Within(cycles, from, to) == Within(cycles, from, mid) + Within(cycles, mid, to);
  }

  lemma WithinGrows(cycles: set<int>, from: int, to: int, from': int, to': int)
    requires from' <= from && to <= to'
    ensures |Within(cycles, from, to)| <= |Within(cycles, from', to')|
  {
    SubsetSize(Within(cycles, from, to), Within(cycles, from', to'));
  }

  /** Over `k` complete runs. */
  lemma {:induction false} CompleteRuns(starts: seq<int>, cycles: set<int>, perRun: nat, period: nat, a: nat, k: nat)
    requires Schedule(starts, cycles, perRun, period) && a + k < |starts|
    ensures starts[a + k] >= starts[a] + k * period
    ensures |Within(cycles, starts[a], starts[a + k])| <= k * perRun
  {
    if k > 0 {
      CompleteRuns(starts, cycles, perRun, period, a, k - 1);
      assert starts[a + k] >= starts[a + k - 1] + period;
      assert (k - 1) * period + period == k * period;
      assert (k - 1) * perRun + perRun == k * perRun;
      assert starts[a] <= starts[a + k - 1] by { Product(k - 1, period); }
      WithinSplit(cycles, starts[a], starts[a + k - 1], starts[a + k]);
    }
  }

  lemma Product(a: nat, b: nat)
    ensures a * b >= 0
  {
  }

  lemma ProductLeq(a: nat, b: nat, c: nat)
    requires a <= b
    ensures a * c <= b * c
  {
    assert b * c == a * c + (b - a) * c;
    Product(b - a, c);
  }

  /** How many runs have started before a point in time. */
  function Started(starts: seq<int>, t: int): (n: nat)
    ensures n <= |starts|
    ensures n < |starts| ==> starts[n] >= t
    ensures forall i :: 0 <= i < n ==> starts[i] < t
  {
    if starts == [] || starts[0] >= t then 0
    else
      var n := 1 + Started(starts[1..], t);
      assert forall i :: 0 < i < n ==> starts[i] == starts[1..][i - 1];
      n
  }

  /** An interval that no run starts in contains cycles of one run only. */
  lemma OneRun(starts: seq<int>, cycles: set<int>, perRun: nat, period: nat, from: int, to: int, a: nat)
    requires Schedule(starts, cycles, perRun, period) && a <= |starts|
    requires a > 0 ==> starts[a - 1] <= from
    requires a < |starts| ==> to <= starts[a]
    ensures |Within(cycles, from, to)| <= perRun
  {
    if a == 0 {
      assert Within(cycles, from, to) == {};
    } else if a == |starts| {
      SubsetSize(Within(cycles, from, to), Since(cycles, starts[a - 1]));
    } else {
      WithinGrows(cycles, from, to, starts[a - 1], starts[a]);
    }
  }

  /** With `j` complete runs inside an interval, its two ends share what they leave. */
  lemma CyclesAround(starts: seq<int>, cycles: set<int>, perRun: nat, period: nat, from: int, to: int)
    returns (j: int)
    requires Schedule(starts, cycles, perRun, period) && from <= to
    ensures j >= -1
    ensures j == -1 ==> |Within(cycles, from, to)| <= perRun
    ensures j >= 0 ==> j * period <= to - from
    ensures j >= 0 ==> |Within(cycles, from, to)| <= j * perRun + Least(2 * perRun, to - from - j * period)
  {
    var a, b := Started(starts, from + 1), Started(starts, to);
    if b <= a {
      OneRun(starts, cycles, perRun, period, from, to, a);
      j := -1;
    } else {
      j := b - a - 1;
      var first, last := starts[a], starts[b - 1];
      CompleteRuns(starts, cycles, perRun, period, a, j);
      Product(j, period);
      OneRun(starts, cycles, perRun, period, from, first, a);
      OneRun(starts, cycles, perRun, period, last, to, b);
      WithinSize(cycles, from, first);
      WithinSize(cycles, last, to);
      WithinSplit(cycles, from, first, to);
      WithinSplit(cycles, first, last, to);
    }
  }

  /** What the ends leave is largest when as many complete runs as possible lie between. */
  lemma EndsBound(c: nat, p: nat, time: nat, d: nat, m: nat, j: nat)
    requires c < p && m < p && time == c + d * p + m
    ensures j * c + Least(2 * c, time - j * p) <= c + d * c + Least(c, m)
  {
    if j < d {
      ProductLeq(j + 1, d, c);
      assert (j + 1) * c == j * c + c;
    } else if j > d {
      ProductLeq(1, j - d, p - c);
      assert (j - d) * (p - c) == j * p - d * p - j * c + d * c;
    }
  }

  /** Runs that fill their period use every cycle. */
  lemma DenseRuns(c: nat, p: nat, d: nat, m: nat)
    requires p <= c && m < p
    ensures c + d * p + m <= c + d * c + Least(if m == 0 then 0 else c, m)
  {
    assert d * c == d * p + d * (c - p);
    Product(d, c - p);
  }

  /** The value bounds the access cycles in every interval of its length, in every
      schedule. */
  lemma CurveBounds(p: Program, starts: seq<int>, cycles: set<int>, from: int, time: nat)
    requires ProgramValid(p)
    requires p.accessBound != INFINITY ==> Schedule(starts, cycles, PerRun(p), p.period)
    ensures |Within(cycles, from, from + time)| <= Curve(p, time)
  {
    WithinSize(cycles, from, from + time);
    if time > 0 && Bounded(p) {
      var c, period := PerRun(p), p.period;
      var exceed := if time < c then 0 else time - c;
      var d, m := exceed / period, exceed % period;
      Product(d, c);
      assert exceed == d * period + m;
      if time >= c {
        if c >= period {
          DenseRuns(c, period, d, m);
        } else {
          var j := CyclesAround(starts, cycles, c, period, from, from + time);
          if j >= 0 {
            EndsBound(c, period, time, d, m, j);
          }
        }
      }
    }
  }

  // ---- the bound is reached ----------------------------------------------------------

  /** Runs as dense as possible from the beginning of the interval: the first began before
      it and uses the bus at the end of its period, the others at the beginning. */
  function DenseCycles(c: nat, period: nat, time: nat): (r: set<int>)
    requires period > 0
  {
    set t | t in Interval(period, period + time) && Busy(c, period, t)
  }

  predicate Busy(c: nat, period: nat, t: int)
    requires period > 0
  {
    t < period + c || (t - c) % period < c
  }

  function DenseStarts(c: nat, period: nat, n: nat): (r: seq<int>)
    ensures |r| == n
  {
    seq(n, i => c + i * period)
  }

  /** The offset of a point in time in the period it falls in. */
  lemma Offset(t: int, c: nat, period: nat, i: nat)
    requires period > 0 && c + i * period <= t < c + i * period + period
    ensures (t - c) % period == t - c - i * period
  {
    Product(i, period);
    Arithmetic.DivIs(t - c, i, period);
  }

  /** In its second period and later, the dense schedule uses the first `c` cycles. */
  lemma DenseAt(c: nat, period: nat, time: nat, i: nat, t: int)
    requires 0 < period && c <= period && 1 <= i
    requires c + i * period <= t < c + i * period + period && t < period + time
    ensures t in DenseCycles(c, period, time) <==> t < c + i * period + c
  {
    ProductLeq(1, i, period);
    Offset(t, c, period, i);
    assert t in DenseCycles(c, period, time) <==> t in Interval(period, period + time) && Busy(c, period, t);
  }

  /** One period of the dense schedule, seen up to some point. */
  lemma DensePeriod(c: nat, period: nat, time: nat, i: nat, to: int)
    requires 0 < period && c <= period && 1 <= i
    requires c + i * period <= to <= c + i * period + period && to <= period + time
    ensures |Within(DenseCycles(c, period, time), c + i * period, to)| == Least(c, to - c - i * period)
  {
    var from := c + i * period;
    var cycles := DenseCycles(c, period, time);
    ProductLeq(1, i, period);
    var s := Interval(from, Least(from + c, to));
    forall t ensures t in Within(cycles, from, to) <==> t in s {
      if from <= t < to {
        DenseAt(c, period, time, i, t);
      }
    }
    assert Within(cycles, from, to) == s;
  }

  lemma FirstRun(c: nat, period: nat, time: nat, length: nat)
    requires 0 < period && length <= c && length <= time
    ensures |Within(DenseCycles(c, period, time), period, period + length)| == length
  {
    var cycles, s := DenseCycles(c, period, time), Interval(period, period + length);
    forall t ensures t in Within(cycles, period, period + length) <==> t in s {
      assert t in cycles <==> t in Interval(period, period + time) && Busy(c, period, t);
    }
    assert Within(cycles, period, period + length) == s;
  }

  /** What the dense schedule does up to the end of `d` complete periods. */
  lemma {:induction false} DenseCount(c: nat, period: nat, time: nat, d: nat)
    requires 0 < period && c <= period && c + d * period <= time
    ensures |Within(DenseCycles(c, period, time), period, period + c + d * period)| == c + d * c
  {
    var cycles := DenseCycles(c, period, time);
    Product(d, period);
    if d == 0 {
      assert d * period == 0;
      FirstRun(c, period, time, c);
    } else {
      assert (d - 1) * period + period == d * period;
      assert (d - 1) * c + c == d * c;
      DenseCount(c, period, time, d - 1);
      DensePeriod(c, period, time, d, period + c + d * period);
      Product(d - 1, period);
      WithinSplit(cycles, period, period + c + (d - 1) * period, period + c + d * period);
    }
  }

  lemma DenseStartsApart(c: nat, period: nat, n: nat)
    requires 1 <= n
    ensures var starts := DenseStarts(c, period, n);
      starts[0] == c && forall i :: 0 < i < n ==> starts[i] == starts[i - 1] + period
  {
    var starts := DenseStarts(c, period, n);
    assert 0 * period == 0;
    forall i | 0 < i < n ensures starts[i] == starts[i - 1] + period {
      OneMore(i - 1, period);
    }
  }

  lemma DenseBetween(c: nat, period: nat, time: nat, n: nat, i: nat)
    requires 0 < period && c <= period && 1 <= i < n
    ensures var starts := DenseStarts(c, period, n);
      |Within(DenseCycles(c, period, time), starts[i - 1], starts[i])| <= c
  {
    OneMore(i - 1, period);
    DenseRun(c, period, time, i - 1, c + i * period);
  }

  lemma DenseIsSchedule(c: nat, period: nat, time: nat, n: nat)
    requires 0 < period && c <= period && 1 <= n && period + time <= c + n * period
    ensures Schedule(DenseStarts(c, period, n), DenseCycles(c, period, time), c, period)
  {
    var starts, cycles := DenseStarts(c, period, n), DenseCycles(c, period, time);
    DenseStartsApart(c, period, n);
    forall i | 0 < i < n ensures |Within(cycles, starts[i - 1], starts[i])| <= c {
      DenseBetween(c, period, time, n, i);
    }
    DenseLast(c, period, time, n);
  }

  lemma DenseLast(c: nat, period: nat, time: nat, n: nat)
    requires 0 < period && c <= period && 1 <= n && period + time <= c + n * period
    ensures |Since(DenseCycles(c, period, time), DenseStarts(c, period, n)[n - 1])| <= c
  {
    DenseEnd(c, period, time, n);
  }

  lemma DenseEnd(c: nat, period: nat, time: nat, n: nat)
    requires 0 < period && c <= period && 1 <= n && period + time <= c + n * period
    ensures |Since(DenseCycles(c, period, time), c + (n - 1) * period)| <= c
  {
    var cycles := DenseCycles(c, period, time);
    assert Since(cycles, c + (n - 1) * period) == Within(cycles, c + (n - 1) * period, c + n * period);
    OneMore(n - 1, period);
    DenseRun(c, period, time, n - 1, c + n * period);
  }

  lemma DenseLaterRun(c: nat, period: nat, time: nat, i: nat, from: int, to: int)
    requires 0 < period && c <= period && 1 <= i && from == c + i * period && to <= from + period
    ensures |Within(DenseCycles(c, period, time), from, to)| <= c
  {
    var cycles := DenseCycles(c, period, time);
    ProductLeq(1, i, period);
    forall t | t in Within(cycles, from, to) ensures t in Interval(from, from + c) {
      Offset(t, c, period, i);
    }
    SubsetSize(Within(cycles, from, to), Interval(from, from + c));
  }

  lemma DenseRun(c: nat, period: nat, time: nat, i: nat, to: int)
    requires 0 < period && c <= period && to <= c + i * period + period
    ensures |Within(DenseCycles(c, period, time), c + i * period, to)| <= c
  {
    if i == 0 {
      assert 0 * period == 0;
      SubsetSize(Within(DenseCycles(c, period, time), c, to), Interval(period, period + c));
    } else {
      DenseLaterRun(c, period, time, i, c + i * period, to);
    }
  }

  /** The dense schedule of a program whose runs use the bus for at most a period. */
  lemma DenseIsPossible(p: Program, time: nat, c: nat)
    requires ProgramValid(p) && Bounded(p) && c == Least(PerRun(p), p.period)
    ensures Schedule(DenseStarts(c, p.period, time + 1), DenseCycles(c, p.period, time), PerRun(p), p.period)
  {
    ProductLeq(1, p.period, time);
    assert (time + 1) * p.period == time * p.period + p.period;
    DenseIsSchedule(c, p.period, time, time + 1);
    LessPerRun(DenseStarts(c, p.period, time + 1), DenseCycles(c, p.period, time), c, PerRun(p), p.period);
  }

  lemma Divide(x: nat, n: nat) returns (q: nat, r: nat)
    requires n > 0
    ensures x == q * n + r && r < n
    ensures q == x / n && r == x % n
  {
    q, r := x / n, x % n;
  }

  lemma DenseUsesEnough(p: Program, time: nat, c: nat)
    requires ProgramValid(p) && Bounded(p) && c == Least(PerRun(p), p.period)
    ensures Curve(p, time) <= |Within(DenseCycles(c, p.period, time), p.period, p.period + time)|
  {
    if time <= c {
      FirstRun(c, p.period, time, time);
    } else {
      var d, m := Divide(time - c, p.period);
      DenseTotal(c, p.period, time, d, m);
      CurveClosed(p, time, c, d, m);
    }
  }

  /** What all schedules are bounded by, one schedule reaches. */
  lemma CurveIsReached(p: Program, time: nat) returns (starts: seq<int>, cycles: set<int>, from: int)
    requires ProgramValid(p) && Bounded(p)
    ensures Schedule(starts, cycles, PerRun(p), p.period)
    ensures |Within(cycles, from, from + time)| == Curve(p, time)
  {
    var c := Least(PerRun(p), p.period);
    starts, cycles, from := DenseStarts(c, p.period, time + 1), DenseCycles(c, p.period, time), p.period;
    DenseIsPossible(p, time, c);
    DenseUsesEnough(p, time, c);
    CurveBounds(p, starts, cycles, from, time);
  }

  lemma DenseTotal(c: nat, period: nat, time: nat, d: nat, m: nat)
    requires 0 < period && c <= period && m < period && time == c + d * period + m
    ensures |Within(DenseCycles(c, period, time), period, period + time)| == c + d * c + Least(c, m)
  {
    DenseCount(c, period, time, d);
    Product(d, period);
    OneMore(d, period);
    DensePeriod(c, period, time, d + 1, period + time);
    WithinSplit(DenseCycles(c, period, time), period, period + c + d * period, period + time);
  }

  lemma OneMore(d: nat, n: nat)
    ensures (d + 1) * n == d * n + n
  {
  }

  lemma LessPerRun(starts: seq<int>, cycles: set<int>, c: nat, perRun: nat, period: nat)
    requires Schedule(starts, cycles, c, period) && c <= perRun
    ensures Schedule(starts, cycles, perRun, period)
  {
  }

  lemma CurveBelowTime(p: Program, time: nat)
    requires ProgramValid(p)
    ensures Curve(p, time) <= time
  {
  }

  /** The value in closed form, for runs no longer than their period, */
  lemma ShortRunsClosed(p: Program, time: nat, d: nat, m: nat)
    requires ProgramValid(p) && Bounded(p) && PerRun(p) < time
    requires d == (time - PerRun(p)) / p.period && m == (time - PerRun(p)) % p.period
    ensures Curve(p, time) <= PerRun(p) + d * PerRun(p) + Least(PerRun(p), m)
  {
    var perRun := PerRun(p);
    Product(d, perRun);
  }

  /** and for longer ones, where it is the time. */
  lemma CurveClosed(p: Program, time: nat, c: nat, d: nat, m: nat)
    requires ProgramValid(p) && Bounded(p)
    requires c == Least(PerRun(p), p.period) && c < time
    requires d == (time - c) / p.period && m == (time - c) % p.period
    ensures Curve(p, time) <= c + d * c + Least(c, m)
  {
    if PerRun(p) < p.period {
      ShortRunsClosed(p, time, d, m);
    } else {
      var q, r := Divide(time - c, p.period);
      CurveBelowTime(p, time);
    }
  }

  /** Hence the value never falls as the interval grows, and grows by at most one cycle
      per time unit. */
  lemma CurveGrows(p: Program, time: nat)
    requires ProgramValid(p)
    ensures Curve(p, time) <= Curve(p, time + 1) <= Curve(p, time) + 1
    ensures Curve(p, time) <= time
  {
    if Bounded(p) {
      var starts, cycles, from := CurveIsReached(p, time);
      CurveBounds(p, starts, cycles, from, time + 1);
      WithinGrows(cycles, from, from + time, from, from + time + 1);
      starts, cycles, from := CurveIsReached(p, time + 1);
      CurveBounds(p, starts, cycles, from, time);
      WithinSplit(cycles, from, from + time, from + time + 1);
      WithinSize(cycles, from + time, from + time + 1);
      WithinSize(cycles, from, from + time);
    }
  }

  lemma {:induction false} CurveIsMonotone(p: Program, time: nat, time': nat)
    requires ProgramValid(p) && time <= time'
    ensures Curve(p, time) <= Curve(p, time')
    decreases time' - time
  {
    if time < time' {
      CurveGrows(p, time);
      CurveIsMonotone(p, time + 1, time');
    }
  }

  // ---- the function with its cache ------------------------------------------------------

  /** The value for a length that may be unbounded. */
  function MaxAccessCycles(p: Program, time: int): int
    requires ProgramValid(p) && time >= INFINITY
  {
    if time == INFINITY then INFINITY else Curve(p, time)
  }

  class AccessCycles {
    const program: Program
    const noArrivalCurveValues: bool
    var maxAccessCyclesPerCache: map<int, int>

    ghost predicate Valid()
      reads this
    {
      && ProgramValid(program)
      && forall t :: t in maxAccessCyclesPerCache ==>
           t >= INFINITY && maxAccessCyclesPerCache[t] == MaxAccessCycles(program, t)
    }

    constructor (program: Program, noArrivalCurveValues: bool)
      requires ProgramValid(program)
      ensures Valid() && this.program == program && this.noArrivalCurveValues == noArrivalCurveValues
    {
      this.program, this.noArrivalCurveValues, maxAccessCyclesPerCache := program, noArrivalCurveValues, map[];
    }

    /** On request the length itself, which needs no curve. */
    method MaxAccessCyclesPer(time: int) returns (value: int)
      requires Valid() && time >= INFINITY
      modifies `maxAccessCyclesPerCache
      ensures Valid() && value == if noArrivalCurveValues then time else MaxAccessCycles(program, time)
    {
      if noArrivalCurveValues {
        return time;
      }
      if time in maxAccessCyclesPerCache {
        return maxAccessCyclesPerCache[time];
      }
      value := if time == INFINITY then INFINITY else Curve(program, time);
      maxAccessCyclesPerCache := maxAccessCyclesPerCache[time := value];
    }
  }
}
