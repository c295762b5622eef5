/** The iteration that makes execution time bounds and interference bounds of programs on
    several cores agree: from execution times follow bounds on each core's bus cycles, from
    these blocking bounds for the others, from these better execution times. It goes down
    from arbitrary interference towards the greatest solution, or up from none towards the
    least. The path analysis is any monotone function of the blocking bounds. */
module CoRunner {
  import ArrivalCurve

  const INFINITY: int := ArrivalCurve.INFINITY

  /** The order of bounds, of which -1 is the largest. */
  predicate Leq(x: int, y: int) {
    y == INFINITY || (x != INFINITY && x <= y)
  }

  datatype Direction = Greatest | Least

  /** What is fixed while one core's program is analysed: a bound on its accesses, on the bus
      cycles of each, its execution time bound for given bounds on blocked cycles and on
      concurrent accesses, and for each other core the bus cycles that core may use in an
      interval. */
  datatype Core = Core(accessBound: int, busCyclesPerAccess: int,
                       pathBound: (int, int) -> int, curves: seq<int -> int>)

  /** A number of cycles or accesses, or no bound on it. */
  predicate IsBound(x: int) {
    x >= INFINITY
  }

  ghost predicate PathsOrdered(w: (int, int) -> int, b: int, c: int, b': int, c': int) {
    IsBound(b) && IsBound(c) && IsBound(b') && IsBound(c') && Leq(b, b') && Leq(c, c') ==>
      IsBound(w(b, c)) && Leq(w(b, c), w(b', c'))
  }

  ghost predicate MonotonePaths(w: (int, int) -> int) {
    forall b, c, b', c' :: PathsOrdered(w, b, c, b', c')
  }

  ghost predicate CurveOrdered(f: int -> int, t: int, t': int) {
    IsBound(t) && IsBound(t') && Leq(t, t') ==> IsBound(f(t)) && Leq(f(t), f(t'))
  }

  ghost predicate MonotoneCurve(f: int -> int) {
    forall t, t' :: CurveOrdered(f, t, t')
  }

  ghost predicate CoreValid(k: Core) {
    && k.accessBound >= 0 && k.busCyclesPerAccess >= 1 && MonotonePaths(k.pathBound)
    && forall i :: 0 <= i < |k.curves| ==> MonotoneCurve(k.curves[i])
  }

  // ---- blocking bounds ----------------------------------------------------------------

  function MaxBlockingPerCore(k: Core): int {
    k.accessBound * k.busCyclesPerAccess
  }

  /** Another core blocks as long as it uses the bus, but only while this one wants to. */
  function Contribution(k: Core, accessCycles: int): int {
    if accessCycles != INFINITY && accessCycles < MaxBlockingPerCore(k) then accessCycles else MaxBlockingPerCore(k)
  }

  /** In whole accesses. */
  function AccessContribution(k: Core, accessCycles: int): int
    requires k.busCyclesPerAccess >= 1
  {
    var cycles := Contribution(k, accessCycles);
    cycles / k.busCyclesPerAccess + (if cycles % k.busCyclesPerAccess >= 1 then 1 else 0)
  }

  function BlockingSum(k: Core, bounds: seq<int>): int {
    if bounds == [] then 0 else Contribution(k, bounds[0]) + BlockingSum(k, bounds[1..])
  }

  function AccessSum(k: Core, bounds: seq<int>): int
    requires k.busCyclesPerAccess >= 1
  {
    if bounds == [] then 0 else AccessContribution(k, bounds[0]) + AccessSum(k, bounds[1..])
  }

  /** What the other cores may use of the bus in a given time. */
  function AccessCycleBounds(k: Core, time: int): (r: seq<int>)
    ensures |r| == |k.curves|
  {
    seq(|k.curves|, i requires 0 <= i < |k.curves| => k.curves[i](time))
  }

  function MaxOverallBlocking(k: Core, others: nat): int {
    others * MaxBlockingPerCore(k)
  }

  ghost predicate Bounds(bounds: seq<int>) {
    forall i :: 0 <= i < |bounds| ==> bounds[i] >= INFINITY
  }

  lemma Multiply(a: nat, b: nat)
    ensures a * b >= 0
  {
  }

  lemma Distribute(a: int, b: int, n: int)
    ensures (a + b) * n == a * n + b * n
  {
  }

  lemma Order(a: int, b: int, n: nat)
    ensures a <= b ==> a * n <= b * n
  {
    if a <= b {
      Multiply(b - a, n);
      Distribute(b - a, a, n);
    }
  }

  lemma OneAccess(k: Core, cycles: int)
    requires k.accessBound >= 0 && k.busCyclesPerAccess >= 1 && cycles >= INFINITY
    ensures 0 <= Contribution(k, cycles) <= MaxBlockingPerCore(k)
    ensures 0 <= AccessContribution(k, cycles) <= k.accessBound
    ensures Contribution(k, cycles) <= AccessContribution(k, cycles) * k.busCyclesPerAccess
    ensures AccessContribution(k, cycles) * k.busCyclesPerAccess < Contribution(k, cycles) + k.busCyclesPerAccess
  {
    Multiply(k.accessBound, k.busCyclesPerAccess);
    var x, n := Contribution(k, cycles), k.busCyclesPerAccess;
    var q, r := x / n, x % n;
    assert x == q * n + r;
    Distribute(q, 1, n);
    Distribute(AccessContribution(k, cycles), -1, n);
    Order(k.accessBound, AccessContribution(k, cycles) - 1, n);
  }

  /** The blocking bound never exceeds what the microarchitectural analysis assumed anyway,
      and rounding to whole accesses loses no cycle. */
  lemma {:induction false} BlockingFacts(k: Core, bounds: seq<int>)
    requires k.accessBound >= 0 && k.busCyclesPerAccess >= 1 && Bounds(bounds)
    ensures 0 <= BlockingSum(k, bounds) <= MaxOverallBlocking(k, |bounds|)
    ensures 0 <= AccessSum(k, bounds) <= |bounds| * k.accessBound
  {
    if bounds != [] {
      OneAccess(k, bounds[0]);
      BlockingFacts(k, bounds[1..]);
      var n, m := |bounds[1..]|, MaxBlockingPerCore(k);
      Distribute(n, 1, m);
      Distribute(n, 1, k.accessBound);
      assert |bounds| == n + 1;
    }
  }

  lemma {:induction false} RoundingFacts(k: Core, bounds: seq<int>)
    requires k.accessBound >= 0 && k.busCyclesPerAccess >= 1 && Bounds(bounds)
    ensures BlockingSum(k, bounds) <= AccessSum(k, bounds) * k.busCyclesPerAccess
    ensures AccessSum(k, bounds) * k.busCyclesPerAccess <= BlockingSum(k, bounds) + |bounds| * k.busCyclesPerAccess
    ensures bounds != [] ==>
      AccessSum(k, bounds) * k.busCyclesPerAccess < BlockingSum(k, bounds) + |bounds| * k.busCyclesPerAccess
  {
    if bounds != [] {
      OneAccess(k, bounds[0]);
      RoundingFacts(k, bounds[1..]);
      Distribute(|bounds| - 1, 1, k.busCyclesPerAccess);
      Distribute(AccessContribution(k, bounds[0]), AccessSum(k, bounds[1..]), k.busCyclesPerAccess);
    }
  }

  lemma AccessTakesCycle(k: Core, cycles: int)
    requires k.accessBound >= 0 && k.busCyclesPerAccess >= 1 && cycles >= INFINITY
    ensures AccessContribution(k, cycles) <= Contribution(k, cycles)
  {
    OneAccess(k, cycles);
    var x, c := Contribution(k, cycles), AccessContribution(k, cycles);
    if c > x {
      Order(1, k.busCyclesPerAccess, x);
      Order(x + 1, c, k.busCyclesPerAccess);
      Distribute(x, 1, k.busCyclesPerAccess);
    }
  }

  /** Every access takes a cycle. */
  lemma {:induction false} AccessesTakeCycles(k: Core, bounds: seq<int>)
    requires k.accessBound >= 0 && k.busCyclesPerAccess >= 1 && Bounds(bounds)
    ensures AccessSum(k, bounds) <= BlockingSum(k, bounds)
  {
    if bounds != [] {
      AccessTakesCycle(k, bounds[0]);
      AccessesTakeCycles(k, bounds[1..]);
    }
  }

  /** Without a bound on the accesses the sums mean nothing: -1 is multiplied out. */
  lemma {:induction false} UnboundedAccesses(k: Core, bounds: seq<int>)
    requires k.accessBound == INFINITY && k.busCyclesPerAccess >= 1 && Bounds(bounds)
    ensures BlockingSum(k, bounds) == -|bounds| * k.busCyclesPerAccess
    ensures BlockingSum(k, bounds) >= 0 <==> bounds == []
  {
    if bounds != [] {
      UnboundedAccesses(k, bounds[1..]);
      assert -|bounds| * k.busCyclesPerAccess == -|bounds[1..]| * k.busCyclesPerAccess - k.busCyclesPerAccess;
      assert Contribution(k, bounds[0]) == -k.busCyclesPerAccess;
      Multiply(|bounds[1..]|, k.busCyclesPerAccess);
      assert -|bounds[1..]| * k.busCyclesPerAccess == -(|bounds[1..]| * k.busCyclesPerAccess);
    }
  }

  lemma {:induction false} SumsAreMonotone(k: Core, x: seq<int>, y: seq<int>)
    requires k.accessBound >= 0 && k.busCyclesPerAccess >= 1 && Bounds(x) && Bounds(y) && |x| == |y|
    requires forall i :: 0 <= i < |x| ==> Leq(x[i], y[i])
    ensures BlockingSum(k, x) <= BlockingSum(k, y)
    ensures AccessSum(k, x) <= AccessSum(k, y)
    ensures BlockingSum(k, x) == BlockingSum(k, y) ==> AccessSum(k, x) == AccessSum(k, y)
  {
    if x != [] {
      SumsAreMonotone(k, x[1..], y[1..]);
      AccessesAreMonotone(k, x[0], y[0]);
    }
  }

  lemma AccessesAreMonotone(k: Core, x: int, y: int)
    requires k.accessBound >= 0 && k.busCyclesPerAccess >= 1 && x >= INFINITY && y >= INFINITY && Leq(x, y)
    ensures Contribution(k, x) <= Contribution(k, y)
    ensures AccessContribution(k, x) <= AccessContribution(k, y)
  {
    OneAccess(k, x);
    OneAccess(k, y);
    var a, b := AccessContribution(k, x), AccessContribution(k, y);
    Distribute(a, -1, k.busCyclesPerAccess);
    Order(b, a - 1, k.busCyclesPerAccess);
  }

  // ---- the iteration of one core ----------------------------------------------------------

  datatype Progress = Progress(wcet: int, previous: int, blocking: int, accesses: int)

  function Start(k: Core, dir: Direction): Progress {
    var none := if dir == Greatest then INFINITY else 0;
    Progress(k.pathBound(none, none), k.pathBound(none, none), none, none)
  }

  /** Whether a new blocking bound is worth a new path analysis. */
  predicate Worthwhile(k: Core, dir: Direction, s: Progress, newBlocking: int, others: nat) {
    if dir == Greatest then
      && ((s.blocking == INFINITY && newBlocking != INFINITY) || newBlocking < s.blocking)
      && newBlocking < s.wcet && newBlocking < MaxOverallBlocking(k, others)
    else
      (s.blocking != INFINITY && newBlocking == INFINITY) || newBlocking > s.blocking
  }

  /** In the order of bounds, -1 being the largest: upwards, exactly if the blocking bound has risen;
      downwards, if it has fallen, below the execution time and below all there can be. */
  lemma WorthwhileIff(k: Core, dir: Direction, s: Progress, newBlocking: int, others: nat)
    requires IsBound(s.blocking) && 0 <= newBlocking && (dir == Least ==> 0 <= s.blocking)
    ensures Worthwhile(k, dir, s, newBlocking, others)
       <==> if dir == Least then !Leq(newBlocking, s.blocking)
            else !Leq(s.blocking, newBlocking) && newBlocking < s.wcet && newBlocking < MaxOverallBlocking(k, others)
  {
  }

  /** A value on the wrong side of the last one is not believed. */
  function Accepted(dir: Direction, previous: int, wcet: int): int {
    if (dir == Greatest && wcet > previous) || (dir == Least && wcet < previous) then previous else wcet
  }

  /** One round, given the bus cycles of the other cores. */
  function Round(k: Core, dir: Direction, s: Progress, bounds: seq<int>): Progress
    requires k.busCyclesPerAccess >= 1
  {
    if s.wcet == INFINITY then s.(previous := s.wcet)
    else
      var (b, c) := (BlockingSum(k, bounds), AccessSum(k, bounds));
      Progress(if Worthwhile(k, dir, s, b, |bounds|) then Accepted(dir, s.wcet, k.pathBound(b, c)) else s.wcet,
               s.wcet, b, c)
  }

  predicate Changed(dir: Direction, s: Progress) {
    if dir == Greatest then s.wcet < s.previous else s.wcet > s.previous
  }

  /** After `n` rounds. All cores go through their rounds in step, and what the others may
      do to this one depends on its own execution time only. */
  function Iterate(k: Core, dir: Direction, n: nat): Progress
    requires k.busCyclesPerAccess >= 1
  {
    if n == 0 then Start(k, dir)
    else
      var s := Iterate(k, dir, n - 1);
      Round(k, dir, s, AccessCycleBounds(k, s.wcet))
  }

  /** The bounds on blocking and on concurrent accesses that follow from an execution time
      bound, and the execution time bound that follows from these. */
  function BlockingAt(k: Core, x: int): int {
    BlockingSum(k, AccessCycleBounds(k, x))
  }

  function AccessesAt(k: Core, x: int): int
    requires k.busCyclesPerAccess >= 1
  {
    AccessSum(k, AccessCycleBounds(k, x))
  }

  function Next(k: Core, x: int): int
    requires k.busCyclesPerAccess >= 1
  {
    k.pathBound(BlockingAt(k, x), AccessesAt(k, x))
  }

  lemma CurvesAreMonotone(k: Core, x: int, y: int)
    requires CoreValid(k) && IsBound(x) && IsBound(y) && Leq(x, y)
    ensures Bounds(AccessCycleBounds(k, x)) && Bounds(AccessCycleBounds(k, y))
    ensures forall i :: 0 <= i < |k.curves| ==> Leq(AccessCycleBounds(k, x)[i], AccessCycleBounds(k, y)[i])
  {
    var a, b := AccessCycleBounds(k, x), AccessCycleBounds(k, y);
    forall i | 0 <= i < |k.curves| ensures IsBound(a[i]) && IsBound(b[i]) && Leq(a[i], b[i]) {
      assert CurveOrdered(k.curves[i], x, y) && CurveOrdered(k.curves[i], y, y);
    }
  }

  /** A longer execution time means no less interference. */
  lemma BoundsAreMonotone(k: Core, x: int, y: int)
    requires CoreValid(k) && IsBound(x) && IsBound(y) && Leq(x, y)
    ensures 0 <= BlockingAt(k, x) <= BlockingAt(k, y) <= MaxOverallBlocking(k, |k.curves|)
    ensures 0 <= AccessesAt(k, x) <= AccessesAt(k, y) <= |k.curves| * k.accessBound
    ensures BlockingAt(k, x) == BlockingAt(k, y) ==> AccessesAt(k, x) == AccessesAt(k, y)
  {
    var a, b := AccessCycleBounds(k, x), AccessCycleBounds(k, y);
    CurvesAreMonotone(k, x, y);
    SumsAreMonotone(k, a, b);
    BlockingFacts(k, a);
    BlockingFacts(k, b);
  }

  /** And so no shorter execution time. */
  lemma NextIsMonotone(k: Core, x: int, y: int)
    requires CoreValid(k) && IsBound(x) && IsBound(y) && Leq(x, y)
    ensures IsBound(Next(k, x)) && Leq(Next(k, x), Next(k, y))
    ensures Leq(k.pathBound(0, 0), Next(k, x)) && Leq(Next(k, y), k.pathBound(INFINITY, INFINITY))
    ensures IsBound(k.pathBound(0, 0)) && IsBound(k.pathBound(INFINITY, INFINITY))
  {
    BoundsAreMonotone(k, x, y);
    var w := k.pathBound;
    assert PathsOrdered(w, BlockingAt(k, x), AccessesAt(k, x), BlockingAt(k, y), AccessesAt(k, y));
    assert PathsOrdered(w, 0, 0, BlockingAt(k, x), AccessesAt(k, x));
    assert PathsOrdered(w, BlockingAt(k, y), AccessesAt(k, y), INFINITY, INFINITY);
    assert PathsOrdered(w, INFINITY, INFINITY, INFINITY, INFINITY);
  }

  /** One round in terms of what follows from the execution time. */
  lemma RoundIs(k: Core, dir: Direction, n: nat)
    requires CoreValid(k)
    ensures var s, s' := Iterate(k, dir, n), Iterate(k, dir, n + 1);
      && s'.previous == s.wcet
      && (s.wcet == INFINITY ==> s' == s.(previous := s.wcet))
      && (s.wcet != INFINITY ==>
            && s'.blocking == BlockingAt(k, s.wcet) && s'.accesses == AccessesAt(k, s.wcet)
            && s'.wcet == if Worthwhile(k, dir, s, BlockingAt(k, s.wcet), |k.curves|)
                          then Accepted(dir, s.wcet, Next(k, s.wcet)) else s.wcet)
  {
  }

  // ---- downwards ---------------------------------------------------------------------------

  /** Downwards, execution times never rise, and are bounded all along or not at all. */
  lemma {:induction false} TimeNeverRises(k: Core, n: nat)
    requires CoreValid(k)
    ensures var w, w' := Iterate(k, Greatest, n).wcet, Iterate(k, Greatest, n + 1).wcet;
      && IsBound(w) && IsBound(w') && Leq(w', w)
      && (w == INFINITY <==> Start(k, Greatest).wcet == INFINITY) && (w == INFINITY <==> w' == INFINITY)
  {
    var w := Iterate(k, Greatest, n).wcet;
    if n > 0 {
      TimeNeverRises(k, n - 1);
    } else {
      NextIsMonotone(k, 0, 0);
    }
    RoundIs(k, Greatest, n);
    NextIsMonotone(k, w, w);
  }

  /** Downwards, bounds only improve, and the blocking bound with them. */
  lemma NeverRises(k: Core, n: nat)
    requires CoreValid(k)
    ensures var s, s' := Iterate(k, Greatest, n), Iterate(k, Greatest, n + 1);
      && Leq(s'.wcet, s.wcet) && s'.previous == s.wcet
      && (s.wcet != INFINITY ==>
            && 0 <= s'.blocking && 0 <= s'.accesses && Leq(s'.blocking, s.blocking) && Leq(s'.accesses, s.accesses)
            && (s'.blocking == s.blocking ==> s'.accesses == s.accesses))
  {
    var s := Iterate(k, Greatest, n);
    TimeNeverRises(k, n);
    RoundIs(k, Greatest, n);
    BoundsAreMonotone(k, s.wcet, s.wcet);
    if n > 0 {
      TimeNeverRises(k, n - 1);
      RoundIs(k, Greatest, n - 1);
      if s.wcet != INFINITY {
        BoundsAreMonotone(k, s.wcet, s.previous);
      }
    }
  }

  /** Downwards, a round brings the execution time that follows from the new bounds, unless the
      bound on blocking has not fallen, reaches the execution time, or is all there can be. */
  lemma DownwardsRoundIs(k: Core, n: nat)
    requires CoreValid(k) && Start(k, Greatest).wcet != INFINITY
    ensures var s, s' := Iterate(k, Greatest, n), Iterate(k, Greatest, n + 1);
      var b := BlockingAt(k, s.wcet);
      s'.wcet == if b == s.blocking || b >= s.wcet || b == MaxOverallBlocking(k, |k.curves|) then s.wcet
                 else if Leq(Next(k, s.wcet), s.wcet) then Next(k, s.wcet)
                 else s.wcet
  {
    var s := Iterate(k, Greatest, n);
    TimeNeverRises(k, n);
    NeverRises(k, n);
    RoundIs(k, Greatest, n);
    BoundsAreMonotone(k, s.wcet, s.wcet);
    NextIsMonotone(k, s.wcet, s.wcet);
  }

  /** Downwards, the iteration stays above every execution time that is consistent with the
      interference it implies, in particular above the greatest such time. */
  lemma {:induction false} StaysAbove(k: Core, n: nat, x: int)
    requires CoreValid(k) && IsBound(x)
    requires Leq(x, Start(k, Greatest).wcet) && Leq(x, Next(k, x))
    ensures Leq(x, Iterate(k, Greatest, n).wcet)
  {
    if n > 0 {
      var w := Iterate(k, Greatest, n - 1).wcet;
      StaysAbove(k, n - 1, x);
      TimeNeverRises(k, n - 1);
      RoundIs(k, Greatest, n - 1);
      NextIsMonotone(k, x, w);
    }
  }

  // ---- upwards -----------------------------------------------------------------------------

  /** Upwards, execution times never fall, and are bounded all along or not at all. */
  lemma {:induction false} TimeNeverFalls(k: Core, n: nat)
    requires CoreValid(k)
    ensures var w, w' := Iterate(k, Least, n).wcet, Iterate(k, Least, n + 1).wcet;
      && IsBound(w) && IsBound(w') && Leq(w, w')
      && (w == INFINITY <==> Start(k, Least).wcet == INFINITY) && (w == INFINITY <==> w' == INFINITY)
  {
    var w := Iterate(k, Least, n).wcet;
    if n > 0 {
      TimeNeverFalls(k, n - 1);
    } else {
      NextIsMonotone(k, 0, 0);
    }
    RoundIs(k, Least, n);
    NextIsMonotone(k, w, w);
  }

  /** Upwards, bounds only grow, and the blocking bound with them. */
  lemma {:induction false} NeverFalls(k: Core, n: nat)
    requires CoreValid(k)
    ensures var s, s' := Iterate(k, Least, n), Iterate(k, Least, n + 1);
      && Leq(s.wcet, s'.wcet) && s'.previous == s.wcet
      && 0 <= s.blocking <= s'.blocking <= MaxOverallBlocking(k, |k.curves|)
      && 0 <= s.accesses <= s'.accesses
      && (s'.blocking == s.blocking ==> s'.accesses == s.accesses)
  {
    var s := Iterate(k, Least, n);
    TimeNeverFalls(k, n);
    RoundIs(k, Least, n);
    BoundsAreMonotone(k, s.wcet, s.wcet);
    if n > 0 {
      NeverFalls(k, n - 1);
      TimeNeverFalls(k, n - 1);
      RoundIs(k, Least, n - 1);
      BoundsAreMonotone(k, s.previous, s.wcet);
    } else {
      NothingBlocked(k, s.wcet);
    }
  }

  /** Upwards, the iteration stays below every execution time that covers the interference
      it implies, in particular below every solution. */
  lemma {:induction false} StaysBelow(k: Core, n: nat, x: int)
    requires CoreValid(k) && IsBound(x) && Leq(Next(k, x), x)
    ensures Leq(Iterate(k, Least, n).wcet, x)
  {
    NextIsMonotone(k, x, x);
    if n > 0 {
      var w := Iterate(k, Least, n - 1).wcet;
      StaysBelow(k, n - 1, x);
      TimeNeverFalls(k, n - 1);
      RoundIs(k, Least, n - 1);
      NextIsMonotone(k, w, x);
    }
  }

  lemma {:induction false} NoBlockingNoAccesses(k: Core, bounds: seq<int>)
    requires k.accessBound >= 0 && k.busCyclesPerAccess >= 1 && Bounds(bounds)
    ensures BlockingSum(k, bounds) == 0 ==> AccessSum(k, bounds) == 0
  {
    if bounds != [] {
      OneAccess(k, bounds[0]);
      BlockingFacts(k, bounds[1..]);
      NoBlockingNoAccesses(k, bounds[1..]);
    }
  }

  lemma NothingBlocked(k: Core, x: int)
    requires CoreValid(k) && IsBound(x)
    ensures BlockingAt(k, x) == 0 ==> AccessesAt(k, x) == 0
  {
    CurvesAreMonotone(k, x, x);
    NoBlockingNoAccesses(k, AccessCycleBounds(k, x));
  }

  // ---- where the iteration ends ----------------------------------------------------------------

  /** Whether the execution time is the one that follows from the bounds on blocking. */
  predicate Follows(k: Core, s: Progress) {
    s.wcet == k.pathBound(s.blocking, s.accesses)
  }

  /** One round upwards, from an execution time that follows from its bounds or was kept where
      nothing could be found. */
  lemma UpwardsFollows(k: Core, s: Progress, s': Progress)
    requires CoreValid(k) && IsBound(s.wcet) && s.wcet != INFINITY
    requires 0 <= s.blocking <= s'.blocking && 0 <= s.accesses <= s'.accesses
    requires s'.blocking == s.blocking ==> s'.accesses == s.accesses
    requires s'.wcet == if s'.blocking > s.blocking
                        then Accepted(Least, s.wcet, k.pathBound(s'.blocking, s'.accesses)) else s.wcet
    requires k.pathBound(s.blocking, s.accesses) != INFINITY ==> Follows(k, s)
    ensures k.pathBound(s'.blocking, s'.accesses) != INFINITY ==> Follows(k, s')
  {
    assert PathsOrdered(k.pathBound, s.blocking, s.accesses, s'.blocking, s'.accesses);
  }

  /** Upwards, the execution time is always the one that follows from the last blocking
      bound, unless the path analysis that gave it found no bound. */
  lemma {:induction false} UpwardsConsistent(k: Core, n: nat)
    requires CoreValid(k) && Start(k, Least).wcet != INFINITY
    ensures var s := Iterate(k, Least, n);
      k.pathBound(s.blocking, s.accesses) != INFINITY ==> Follows(k, s)
  {
    if n > 0 {
      UpwardsConsistent(k, n - 1);
      TimeNeverFalls(k, n - 1);
      NeverFalls(k, n - 1);
      RoundIs(k, Least, n - 1);
      UpwardsFollows(k, Iterate(k, Least, n - 1), Iterate(k, Least, n));
    }
  }

  /** Upwards, a round without change has an execution time that covers its interference
      exactly if the path analysis for it is bounded. */
  lemma UpwardsEnd(k: Core, n: nat)
    requires CoreValid(k) && n > 0
    requires Start(k, Least).wcet != INFINITY && !Changed(Least, Iterate(k, Least, n))
    ensures var w := Iterate(k, Least, n).wcet;
      0 <= w && (Next(k, w) == w <==> Next(k, w) != INFINITY)
  {
    var s := Iterate(k, Least, n);
    UpwardsConsistent(k, n);
    TimeNeverFalls(k, n - 1);
    TimeNeverFalls(k, n);
    RoundIs(k, Least, n - 1);
    assert s.previous == s.wcet;
  }

  /** Some bounded execution time covers the interference it implies. */
  ghost predicate Solvable(k: Core)
    requires k.busCyclesPerAccess >= 1
  {
    exists x :: x >= 0 && Leq(Next(k, x), x)
  }

  /** Upwards, a round without change has reached a solution, and the least, exactly if the
      core has one at all. Otherwise it ends all the same: a path analysis that finds no bound
      is represented by -1, which looks like a fall and is not believed. */
  lemma UpwardsEndsAtLeastSolutionIff(k: Core, n: nat)
    requires CoreValid(k) && n > 0
    requires Start(k, Least).wcet != INFINITY && !Changed(Least, Iterate(k, Least, n))
    ensures var w := Iterate(k, Least, n).wcet;
      && (Next(k, w) == w <==> Solvable(k))
      && (Solvable(k) ==> forall x :: IsBound(x) && Leq(Next(k, x), x) ==> Leq(w, x))
  {
    var w := Iterate(k, Least, n).wcet;
    UpwardsEnd(k, n);
    if Solvable(k) {
      var x :| x >= 0 && Leq(Next(k, x), x);
      StaysBelow(k, n, x);
      NextIsMonotone(k, w, x);
    }
    if Next(k, w) == w {
      assert w >= 0 && Leq(Next(k, w), w);
    }
    forall x | IsBound(x) && Leq(Next(k, x), x) ensures Leq(w, x) {
      StaysBelow(k, n, x);
    }
  }

  /** A path analysis that is bounded under the greatest interference there can be makes the
      core solvable. */
  lemma BoundedIsSolvable(k: Core)
    requires CoreValid(k)
    requires k.pathBound(MaxOverallBlocking(k, |k.curves|), |k.curves| * k.accessBound) != INFINITY
    ensures Solvable(k)
  {
    var b, c := MaxOverallBlocking(k, |k.curves|), |k.curves| * k.accessBound;
    BoundsAreMonotone(k, 0, 0);
    var x := k.pathBound(b, c);
    assert PathsOrdered(k.pathBound, b, c, b, c);
    BoundsAreMonotone(k, x, x);
    assert PathsOrdered(k.pathBound, BlockingAt(k, x), AccessesAt(k, x), b, c);
    assert x >= 0 && Leq(Next(k, x), x);
  }

  /** A round that could have improved the blocking bound but was thought not worth it. */
  predicate Skipped(k: Core, s: Progress)
    requires k.busCyclesPerAccess >= 1
  {
    var b := BlockingAt(k, s.wcet);
    s.wcet != INFINITY && Leq(b, s.blocking) && b != s.blocking && !Worthwhile(k, Greatest, s, b, |k.curves|)
  }

  /** A skipped round that would have improved the execution time. */
  predicate Loses(k: Core, s: Progress)
    requires k.busCyclesPerAccess >= 1
  {
    Skipped(k, s) && Next(k, s.wcet) != s.wcet
  }

  /** One round downwards that loses nothing. */
  lemma DownwardsFollows(k: Core, s: Progress, s': Progress)
    requires CoreValid(k) && IsBound(s.wcet) && s.wcet != INFINITY && IsBound(s.blocking) && IsBound(s.accesses)
    requires 0 <= s'.blocking && 0 <= s'.accesses && Leq(s'.blocking, s.blocking) && Leq(s'.accesses, s.accesses)
    requires s'.blocking == s.blocking ==> s'.accesses == s.accesses
    requires s'.blocking == BlockingAt(k, s.wcet) && s'.accesses == AccessesAt(k, s.wcet)
    requires s'.wcet == if Worthwhile(k, Greatest, s, s'.blocking, |k.curves|)
                        then Accepted(Greatest, s.wcet, Next(k, s.wcet)) else s.wcet
    requires Follows(k, s) && !Loses(k, s)
    ensures Follows(k, s')
  {
    assert PathsOrdered(k.pathBound, s'.blocking, s'.accesses, s.blocking, s.accesses);
  }

  /** Downwards, as long as no skipped round loses anything the execution time follows from
      the last blocking bound. */
  lemma {:induction false} DownwardsConsistent(k: Core, n: nat)
    requires CoreValid(k) && Start(k, Greatest).wcet != INFINITY
    requires forall i :: 0 <= i < n ==> !Loses(k, Iterate(k, Greatest, i))
    ensures Follows(k, Iterate(k, Greatest, n))
  {
    if n > 0 {
      DownwardsConsistent(k, n - 1);
      TimeNeverRises(k, n - 1);
      NeverRises(k, n - 1);
      RoundIs(k, Greatest, n - 1);
      Kept(k, n - 1);
      assert !Loses(k, Iterate(k, Greatest, n - 1));
      DownwardsFollows(k, Iterate(k, Greatest, n - 1), Iterate(k, Greatest, n));
    }
  }

  lemma Kept(k: Core, n: nat)
    requires CoreValid(k) && Start(k, Greatest).wcet != INFINITY
    ensures var s := Iterate(k, Greatest, n); IsBound(s.blocking) && IsBound(s.accesses)
  {
    if n > 0 {
      TimeNeverRises(k, n - 1);
      NeverRises(k, n - 1);
    }
  }

  /** A round that is skipped, and so the next. */
  lemma SkippedAgain(k: Core, n: nat)
    requires CoreValid(k) && Start(k, Greatest).wcet != INFINITY
    requires var s := Iterate(k, Greatest, n);
      !Worthwhile(k, Greatest, s, BlockingAt(k, s.wcet), |k.curves|)
    ensures var s, s' := Iterate(k, Greatest, n), Iterate(k, Greatest, n + 1);
      && s'.wcet == s.wcet && s'.blocking == BlockingAt(k, s.wcet)
      && !Worthwhile(k, Greatest, s', BlockingAt(k, s'.wcet), |k.curves|)
  {
    TimeNeverRises(k, n);
    RoundIs(k, Greatest, n);
    var x := Iterate(k, Greatest, n).wcet;
    BoundsAreMonotone(k, x, x);
  }

  /** After a round that loses something nothing changes any more. */
  lemma {:induction false} LossIsFinal(k: Core, i: nat, n: nat)
    requires CoreValid(k) && Start(k, Greatest).wcet != INFINITY
    requires i < n && Loses(k, Iterate(k, Greatest, i))
    ensures var s := Iterate(k, Greatest, n);
      && s.wcet == Iterate(k, Greatest, i).wcet
      && !Worthwhile(k, Greatest, s, BlockingAt(k, s.wcet), |k.curves|)
    decreases n
  {
    if n - 1 > i {
      LossIsFinal(k, i, n - 1);
    }
    SkippedAgain(k, n - 1);
  }

  /** Downwards, a round without change has reached a solution, and then the greatest one not
      above the start, exactly if no skipped round lost anything. */
  lemma DownwardsEndsAtGreatestSolutionIff(k: Core, n: nat)
    requires CoreValid(k) && n > 0
    requires Start(k, Greatest).wcet != INFINITY && !Changed(Greatest, Iterate(k, Greatest, n))
    ensures var w := Iterate(k, Greatest, n).wcet;
      && (Next(k, w) == w <==> forall i :: 0 <= i < n ==> !Loses(k, Iterate(k, Greatest, i)))
      && (Next(k, w) == w ==>
            forall x :: IsBound(x) && Leq(x, Start(k, Greatest).wcet) && Leq(x, Next(k, x)) ==> Leq(x, w))
  {
    var s := Iterate(k, Greatest, n);
    TimeNeverRises(k, n - 1);
    RoundIs(k, Greatest, n - 1);
    assert s.previous == s.wcet;
    if forall i :: 0 <= i < n ==> !Loses(k, Iterate(k, Greatest, i)) {
      DownwardsConsistent(k, n);
    }
    if i :| 0 <= i < n && Loses(k, Iterate(k, Greatest, i)) {
      LossIsFinal(k, i, n);
    }
    forall x | IsBound(x) && Leq(x, Start(k, Greatest).wcet) && Leq(x, Next(k, x)) ensures Leq(x, s.wcet) {
      StaysAbove(k, n, x);
    }
  }

  /** A core whose path analysis does not improve under a blocking bound that a round would be
      skipped for. */
  ghost predicate SkippingIsIdle(k: Core)
    requires k.busCyclesPerAccess >= 1
  {
    forall b, c, b', c' :: IdleAt(k, b, c, b', c')
  }

  /** Bounds that can be in force: none, or those of a round that was not skipped. */
  ghost predicate InForce(k: Core, b: int, c: int) {
    (b == INFINITY && c == INFINITY) || 0 <= c <= b < Start(k, Greatest).wcet
  }

  /** Of two pairs of bounds, the later pair being one that whole accesses make. */
  ghost predicate IdleAt(k: Core, b: int, c: int, b': int, c': int) {
    && InForce(k, b, c) && 0 <= b' && 0 <= c' && Leq(b', b) && b' != b && Leq(c', c)
    && k.pathBound(b, c) != INFINITY && b' <= c' * k.busCyclesPerAccess
    && (b' >= k.pathBound(b, c) || b' == MaxOverallBlocking(k, |k.curves|))
    ==> k.pathBound(b', c') == k.pathBound(b, c)
  }

  /** For such a core every end of the downward iteration is the greatest solution, skipped
      rounds or not. */
  lemma {:induction false} IdleSkippingLosesNothing(k: Core, n: nat)
    requires CoreValid(k) && SkippingIsIdle(k) && Start(k, Greatest).wcet != INFINITY
    ensures forall i :: 0 <= i < n ==> !Loses(k, Iterate(k, Greatest, i))
  {
    if n > 0 {
      IdleSkippingLosesNothing(k, n - 1);
      IdleRound(k, n - 1);
    }
  }

  lemma {:induction false} StartIsLongest(k: Core, n: nat)
    requires CoreValid(k) && Start(k, Greatest).wcet != INFINITY
    ensures 0 <= Iterate(k, Greatest, n).wcet <= Start(k, Greatest).wcet
  {
    TimeNeverRises(k, n);
    if n > 0 {
      StartIsLongest(k, n - 1);
      TimeNeverRises(k, n - 1);
    }
  }

  /** What a skipped round leaves behind makes the next one be skipped with the same bounds. */
  lemma SkippedOnce(k: Core, n: nat)
    requires CoreValid(k) && Start(k, Greatest).wcet != INFINITY && n > 0 && Skipped(k, Iterate(k, Greatest, n))
    ensures var s := Iterate(k, Greatest, n - 1);
      Worthwhile(k, Greatest, s, BlockingAt(k, s.wcet), |k.curves|)
  {
    RoundIs(k, Greatest, n - 1);
  }

  /** So the bounds in force are those of a round that was not. */
  lemma BoundsInForce(k: Core, n: nat)
    requires CoreValid(k) && Start(k, Greatest).wcet != INFINITY && Skipped(k, Iterate(k, Greatest, n))
    ensures InForce(k, Iterate(k, Greatest, n).blocking, Iterate(k, Greatest, n).accesses)
  {
    if n > 0 {
      var s := Iterate(k, Greatest, n - 1);
      StartIsLongest(k, n - 1);
      RoundIs(k, Greatest, n - 1);
      SkippedOnce(k, n);
      BoundsAreMonotone(k, s.wcet, s.wcet);
      CurvesAreMonotone(k, s.wcet, s.wcet);
      AccessesTakeCycles(k, AccessCycleBounds(k, s.wcet));
    }
  }

  lemma IdleRound(k: Core, n: nat)
    requires CoreValid(k) && SkippingIsIdle(k) && Start(k, Greatest).wcet != INFINITY
    requires forall i :: 0 <= i < n ==> !Loses(k, Iterate(k, Greatest, i))
    ensures !Loses(k, Iterate(k, Greatest, n))
  {
    var s := Iterate(k, Greatest, n);
    if Skipped(k, s) {
      BoundsInForce(k, n);
      DownwardsConsistent(k, n);
      StartIsLongest(k, n);
      NeverRises(k, n);
      RoundIs(k, Greatest, n);
      BoundsAreMonotone(k, s.wcet, s.wcet);
      CurvesAreMonotone(k, s.wcet, s.wcet);
      RoundingFacts(k, AccessCycleBounds(k, s.wcet));
      assert IdleAt(k, s.blocking, s.accesses, BlockingAt(k, s.wcet), AccessesAt(k, s.wcet));
    }
  }

  lemma IdleDownwardsEnd(k: Core, n: nat)
    requires CoreValid(k) && SkippingIsIdle(k) && n > 0
    requires Start(k, Greatest).wcet != INFINITY && !Changed(Greatest, Iterate(k, Greatest, n))
    ensures var w := Iterate(k, Greatest, n).wcet;
      && Next(k, w) == w
      && forall x :: IsBound(x) && Leq(x, Start(k, Greatest).wcet) && Leq(x, Next(k, x)) ==> Leq(x, w)
  {
    IdleSkippingLosesNothing(k, n);
    DownwardsEndsAtGreatestSolutionIff(k, n);
  }
}
