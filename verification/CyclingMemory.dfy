/** A memory that is advanced cycle by cycle: a fixed latency, and behind it the bus, which
    other cores may keep busy for a while. How long they do is not known, so a cycle can have
    several successors. Fast-forwarding skips to the end of an access and counts what it
    skipped; it is shown to change no completion time. */
module CyclingMemory {
  import opened Reports
  import Arithmetic = AddressMapping

  /** Bounds on a number of cycles. */
  datatype Counter = Counter(lb: nat, ub: nat)

  function Plus(c: Counter, lo: nat, hi: nat): Counter {
    Counter(c.lb + lo, c.ub + hi)
  }

  function Hull(x: Counter, y: Counter): Counter {
    Counter(if x.lb < y.lb then x.lb else y.lb, if x.ub < y.ub then y.ub else x.ub)
  }

  /** Latencies of the memory, the most cycles an access may be blocked, the cycles of one
      concurrent access, and whether blocking is accounted for elsewhere. */
  datatype Config = Config(latency: nat, perWordLatency: nat, maxBlocking: nat, accessLatency: nat, compositional: bool)

  predicate ConfigValid(c: Config) {
    c.accessLatency >= 1
  }

  function Latency(c: Config, numWords: nat): nat {
    c.latency + numWords * c.perWordLatency
  }

  // ---- fixed latency ------------------------------------------------------------

  datatype Fixed = Fixed(timeBlocked: nat, fastForwarded: Counter)

  function FixedCycle(m: Fixed): Fixed {
    if m.timeBlocked > 0 then m.(timeBlocked := m.timeBlocked - 1) else m
  }

  function FixedFastForward(m: Fixed): Fixed
    requires m.timeBlocked > 0
  {
    Fixed(1, Plus(m.fastForwarded, m.timeBlocked - 1, m.timeBlocked - 1))
  }

  // ---- blocking -------------------------------------------------------------------

  datatype Request = Request(address: nat, op: AccessType)

  /** The access is passed to the memory at once and delayed afterwards, while blocked. */
  datatype Memory = Memory(inner: Fixed, delayed: Option<Request>, addedBlocking: nat,
                           fastForwardedBlocking: Counter, concAccesses: nat)

  predicate Busy(m: Memory) {
    m.delayed.Some? || m.inner.timeBlocked > 0
  }

  /** Another blocked cycle; every `accessLatency` of them, another access must be the cause. */
  function IncrementAddedBlocking(c: Config, m: Memory): Memory
    requires ConfigValid(c)
  {
    var added := m.addedBlocking + 1;
    m.(addedBlocking := added,
       concAccesses := if added % c.accessLatency == 1 then m.concAccesses + 1 else m.concAccesses)
  }

  function PerformSplit(c: Config, m: Memory): (r: seq<Memory>)
    requires ConfigValid(c)
  {
    if m.delayed.None? then [m]
    else
      var done := m.(delayed := None, addedBlocking := 0);
      if !c.compositional && m.addedBlocking < c.maxBlocking then [IncrementAddedBlocking(c, m), done] else [done]
  }

  function Cycle(c: Config, m: Memory): (r: seq<Memory>)
    requires ConfigValid(c)
  {
    var n := m.(inner := FixedCycle(m.inner));
    if n.inner.timeBlocked > 0 then [n] else PerformSplit(c, n)
  }

  function Announce(c: Config, m: Memory, r: Request, numWords: nat): (s: seq<Memory>)
    requires !Busy(m) && Latency(c, numWords) > 0
  {
    [m.(inner := m.inner.(timeBlocked := Latency(c, numWords)), delayed := Some(r))]
  }

  /** What the program asserts of the states it fast-forwards. */
  predicate CanForward(c: Config, m: Memory) {
    && m.delayed.Some?
    && (if m.inner.timeBlocked > 0 then c.compositional || m.addedBlocking == 0 else !c.compositional)
  }

  function FastForward(c: Config, m: Memory): (r: seq<Memory>)
    requires CanForward(c, m) && m.addedBlocking <= c.maxBlocking
  {
    if m.inner.timeBlocked > 0 then
      var copy := m.(inner := FixedFastForward(m.inner));
      if c.compositional then [copy]
      else [copy.(addedBlocking := c.maxBlocking,
                  fastForwardedBlocking := Plus(copy.fastForwardedBlocking, 0, c.maxBlocking))]
    else
      [m.(addedBlocking := c.maxBlocking,
          fastForwardedBlocking := Plus(m.fastForwardedBlocking, 0, c.maxBlocking - m.addedBlocking))]
  }

  /** States that occur: no blocking before the access is through, unless it was
      fast-forwarded, and at most the configured blocking. */
  predicate MemoryValid(c: Config, m: Memory) {
    && ConfigValid(c)
    && m.addedBlocking <= (if m.delayed.Some? then c.maxBlocking else 0)
    && (m.inner.timeBlocked > 0 ==> m.delayed.Some?)
    && (m.inner.timeBlocked > 0 && m.addedBlocking > 0 ==> m.inner.timeBlocked == 1)
    && (c.compositional ==> m.addedBlocking == 0 && (m.delayed.Some? ==> m.inner.timeBlocked > 0))
    && m.inner.fastForwarded.lb <= m.inner.fastForwarded.ub
    && m.fastForwardedBlocking.lb <= m.fastForwardedBlocking.ub
  }

  lemma StepsAreValid(c: Config, m: Memory)
    requires MemoryValid(c, m)
    ensures forall n :: n in Cycle(c, m) ==> MemoryValid(c, n)
    ensures CanForward(c, m) ==> forall n :: n in FastForward(c, m) ==> MemoryValid(c, n)
  {
  }

  // ---- completion times -------------------------------------------------------------

  /** What was fast-forwarded so far. */
  function Skipped(m: Memory): Counter {
    Plus(m.inner.fastForwarded, m.fastForwardedBlocking.lb, m.fastForwardedBlocking.ub)
  }

  /** States passed through, cycle by cycle, until the last. */
  ghost predicate IsPath(c: Config, path: seq<Memory>)
    requires ConfigValid(c)
  {
    && |path| > 0
    && (|path| > 1 ==> Busy(path[0]) && path[1] in Cycle(c, path[0]) && IsPath(c, path[1..]))
  }

  /** An access in progress in `m` may complete at a total of `t` cycles, counting what was
      fast-forwarded. */
  ghost predicate Completes(c: Config, m: Memory, t: int)
    requires ConfigValid(c)
  {
    exists path :: IsPath(c, path) && path[0] == m && !Busy(path[|path| - 1])
                   && CoveredBy(t - (|path| - 1), Skipped(path[|path| - 1]))
  }

  predicate CoveredBy(t: int, s: Counter) {
    s.lb <= t <= s.ub
  }

  /** The cycles still needed at least, and what blocking may add. */
  function Left(m: Memory): nat {
    if !Busy(m) then 0 else if m.inner.timeBlocked == 0 then 1 else m.inner.timeBlocked
  }

  function Slack(c: Config, m: Memory): int {
    if c.compositional || !Busy(m) then 0 else c.maxBlocking - m.addedBlocking
  }

  predicate InTime(c: Config, m: Memory, t: int) {
    Skipped(m).lb + Left(m) <= t <= Skipped(m).ub + Left(m) + Slack(c, m)
  }

  lemma CycleInTime(c: Config, m: Memory, n: Memory, t: int)
    requires MemoryValid(c, m) && Busy(m) && n in Cycle(c, m)
    ensures InTime(c, n, t) ==> InTime(c, m, t + 1)
  {
  }

  lemma {:induction false} PathInTime(c: Config, path: seq<Memory>, t: int)
    requires ConfigValid(c) && IsPath(c, path) && MemoryValid(c, path[0]) && !Busy(path[|path| - 1])
    requires CoveredBy(t - (|path| - 1), Skipped(path[|path| - 1]))
    ensures InTime(c, path[0], t)
    decreases |path|
  {
    if |path| > 1 {
      StepsAreValid(c, path[0]);
      PathInTime(c, path[1..], t - 1);
      CycleInTime(c, path[0], path[1], t - 1);
    }
  }

  /** Some successor leaves exactly the time that is left. */
  lemma CycleTowards(c: Config, m: Memory, t: int) returns (n: Memory)
    requires MemoryValid(c, m) && Busy(m) && InTime(c, m, t)
    ensures n in Cycle(c, m) && InTime(c, n, t - 1)
    ensures Left(n) + Slack(c, n) < Left(m) + Slack(c, m)
  {
    var s := Cycle(c, m);
    var done := s[|s| - 1];
    n := if |s| == 1 || InTime(c, done, t - 1) then done else s[0];
  }

  lemma {:induction false} TimeIsReached(c: Config, m: Memory, t: int) returns (path: seq<Memory>)
    requires MemoryValid(c, m) && InTime(c, m, t)
    ensures IsPath(c, path) && path[0] == m && !Busy(path[|path| - 1])
    ensures CoveredBy(t - (|path| - 1), Skipped(path[|path| - 1]))
    decreases Left(m) + Slack(c, m)
  {
    if !Busy(m) {
      path := [m];
    } else {
      var n := CycleTowards(c, m, t);
      StepsAreValid(c, m);
      var rest := TimeIsReached(c, n, t - 1);
      path := [m] + rest;
      assert path[1..] == rest;
    }
  }

  /** The completion times of an access in progress are exactly an interval. */
  lemma CompletionTimes(c: Config, m: Memory, t: int)
    requires MemoryValid(c, m)
    ensures Completes(c, m, t) <==> InTime(c, m, t)
  {
    if Completes(c, m, t) {
      var path :| IsPath(c, path) && path[0] == m && !Busy(path[|path| - 1])
                  && CoveredBy(t - (|path| - 1), Skipped(path[|path| - 1]));
      PathInTime(c, path, t);
    }
    if InTime(c, m, t) {
      var path := TimeIsReached(c, m, t);
    }
  }

  /** Every word takes its time on top of the latency of the access. */
  lemma LatencyOfWords(c: Config, numWords: nat)
    ensures Latency(c, 0) == c.latency
    ensures Latency(c, numWords + 1) == Latency(c, numWords) + c.perWordLatency
  {
  }

  /** A new access completes after its latency, and any blocking up to the largest. */
  lemma FreshAccess(c: Config, m: Memory, r: Request, numWords: nat, n: Memory, t: int)
    requires MemoryValid(c, m) && !Busy(m) && Latency(c, numWords) > 0
    requires Skipped(m) == Counter(0, 0)
    requires n in Announce(c, m, r, numWords)
    ensures Completes(c, n, t)
       <==> Latency(c, numWords) <= t <= Latency(c, numWords) + (if c.compositional then 0 else c.maxBlocking)
  {
    CompletionTimes(c, n, t);
  }

  /** Fast-forwarding is exact: the completion times are the same without it and with it. */
  lemma FastForwardIsExact(c: Config, m: Memory, n: Memory, t: int)
    requires MemoryValid(c, m) && CanForward(c, m) && n in FastForward(c, m)
    ensures Completes(c, n, t) <==> Completes(c, m, t)
  {
    StepsAreValid(c, m);
    CompletionTimes(c, m, t);
    CompletionTimes(c, n, t);
  }

  /** And it skips all there is to skip: the next cycle completes the access. */
  lemma ForwardedCompletes(c: Config, m: Memory, n: Memory, done: Memory)
    requires MemoryValid(c, m) && CanForward(c, m) && n in FastForward(c, m) && done in Cycle(c, n)
    ensures Busy(n) && !Busy(done)
  {
  }

  /** Also when it is applied at any points on the way. */
  datatype Move = Tick | Forward

  ghost predicate IsMixedPath(c: Config, path: seq<Memory>, moves: seq<Move>)
    requires ConfigValid(c)
  {
    && |path| == |moves| + 1
    && (moves != [] ==>
          && Busy(path[0]) && IsMixedPath(c, path[1..], moves[1..])
          && match moves[0] {
               case Tick => path[1] in Cycle(c, path[0])
               case Forward => CanForward(c, path[0]) && path[0].addedBlocking <= c.maxBlocking
                               && path[1] in FastForward(c, path[0])
             })
  }

  function Ticks(moves: seq<Move>): (n: nat) {
    if moves == [] then 0 else (if moves[0] == Tick then 1 else 0) + Ticks(moves[1..])
  }

  lemma ForwardInTime(c: Config, m: Memory, n: Memory, t: int)
    requires MemoryValid(c, m) && CanForward(c, m) && n in FastForward(c, m)
    ensures InTime(c, n, t) <==> InTime(c, m, t)
  {
  }

  lemma {:induction false} MixedPathsAgree(c: Config, path: seq<Memory>, moves: seq<Move>, t: int)
    requires ConfigValid(c) && IsMixedPath(c, path, moves) && MemoryValid(c, path[0])
    requires !Busy(path[|moves|]) && CoveredBy(t - Ticks(moves), Skipped(path[|moves|]))
    ensures Completes(c, path[0], t)
    decreases moves
  {
    MixedInTime(c, path, moves, t);
    CompletionTimes(c, path[0], t);
  }

  lemma {:induction false} MixedInTime(c: Config, path: seq<Memory>, moves: seq<Move>, t: int)
    requires ConfigValid(c) && IsMixedPath(c, path, moves) && MemoryValid(c, path[0])
    requires !Busy(path[|moves|]) && CoveredBy(t - Ticks(moves), Skipped(path[|moves|]))
    ensures InTime(c, path[0], t)
    decreases moves
  {
    if moves != [] {
      StepsAreValid(c, path[0]);
      MixedInTime(c, path[1..], moves[1..], if moves[0] == Tick then t - 1 else t);
      if moves[0] == Tick {
        CycleInTime(c, path[0], path[1], t - 1);
      } else {
        ForwardInTime(c, path[0], path[1], t);
      }
    }
  }

  // ---- joins --------------------------------------------------------------------------

  predicate Joinable(x: Memory, y: Memory) {
    x.addedBlocking == y.addedBlocking && x.delayed == y.delayed && x.inner.timeBlocked == y.inner.timeBlocked
  }

  function Join(x: Memory, y: Memory): Memory {
    Memory(Fixed(x.inner.timeBlocked, Hull(x.inner.fastForwarded, y.inner.fastForwarded)), x.delayed, x.addedBlocking,
           Hull(x.fastForwardedBlocking, y.fastForwardedBlocking),
           if x.concAccesses < y.concAccesses then x.concAccesses else y.concAccesses)
  }

  lemma JoinInTime(c: Config, x: Memory, y: Memory, t: int)
    requires MemoryValid(c, x) && MemoryValid(c, y) && Joinable(x, y)
    ensures MemoryValid(c, Join(x, y))
    ensures InTime(c, x, t) || InTime(c, y, t) ==> InTime(c, Join(x, y), t)
  {
  }

  /** A join loses no completion time of either side. */
  lemma JoinCovers(c: Config, x: Memory, y: Memory, t: int)
    requires MemoryValid(c, x) && MemoryValid(c, y) && Joinable(x, y)
    ensures MemoryValid(c, Join(x, y))
    ensures Completes(c, x, t) || Completes(c, y, t) ==> Completes(c, Join(x, y), t)
  {
    JoinInTime(c, x, y, t);
    CompletionTimes(c, x, t);
    CompletionTimes(c, y, t);
    CompletionTimes(c, Join(x, y), t);
  }

  predicate Contains(y: Counter, x: Counter) {
    y.lb <= x.lb && x.ub <= y.ub
  }

  /** The same access in progress, all that was fast-forwarded allowed for, and no concurrent
      access counted that was not there. */
  predicate MemoryLeq(x: Memory, y: Memory) {
    && Joinable(x, y) && Contains(y.inner.fastForwarded, x.inner.fastForwarded)
    && Contains(y.fastForwardedBlocking, x.fastForwardedBlocking) && y.concAccesses <= x.concAccesses
  }

  /** A join allows for nothing that neither side does, counter by counter. */
  lemma JoinIsLub(x: Memory, y: Memory, z: Memory)
    requires Joinable(x, y)
    ensures MemoryLeq(x, Join(x, y)) && MemoryLeq(y, Join(x, y))
    ensures MemoryLeq(x, z) && MemoryLeq(y, z) ==> MemoryLeq(Join(x, y), z)
    ensures Join(x, y) == y <==> MemoryLeq(x, y)
  {
  }

  // ---- concurrent accesses ---------------------------------------------------------------

  /** Blocked cycles in whole accesses. */
  function Ceiling(cycles: nat, n: nat): nat
    requires n >= 1
  {
    cycles / n + (if cycles % n >= 1 then 1 else 0)
  }

  lemma NextCycle(cycles: nat, n: nat)
    requires n >= 2
    ensures Ceiling(cycles + 1, n) == Ceiling(cycles, n) + (if (cycles + 1) % n == 1 then 1 else 0)
  {
    Successor(cycles, cycles / n, cycles % n, n);
  }

  /** Division of a successor. */
  lemma Successor(x: nat, q: nat, r: nat, n: nat)
    requires 0 < n && x == q * n + r && r < n
    ensures r + 1 < n ==> (x + 1) / n == q && (x + 1) % n == r + 1
    ensures r + 1 == n ==> (x + 1) / n == q + 1 && (x + 1) % n == 0
  {
    if r + 1 < n {
      Arithmetic.DivIs(x + 1, q, n);
    } else {
      Arithmetic.Distribute(q, 1, n);
      Arithmetic.DivIs(x + 1, q + 1, n);
    }
  }

  /** A cycle, or an access is announced. */
  ghost predicate Step(c: Config, m: Memory, n: Memory)
    requires ConfigValid(c)
  {
    n in Cycle(c, m)
    || exists r, numWords :: !Busy(m) && Latency(c, numWords) > 0 && n in Announce(c, m, r, numWords)
  }

  ghost predicate IsRun(c: Config, run: seq<Memory>)
    requires ConfigValid(c)
  {
    |run| > 0 && forall i :: 0 < i < |run| ==> Step(c, run[i - 1], run[i])
  }

  /** The blocked cycles of the accesses completed in the first `k` steps. */
  function Blocked(run: seq<Memory>, k: nat): (r: seq<nat>)
    requires k < |run|
  {
    if k == 0 then []
    else
      var before := Blocked(run, k - 1);
      if run[k - 1].delayed.Some? && run[k].delayed.None? then before + [run[k - 1].addedBlocking] else before
  }

  function TotalCeiling(cycles: seq<nat>, n: nat): nat
    requires n >= 1
  {
    if cycles == [] then 0 else TotalCeiling(cycles[..|cycles| - 1], n) + Ceiling(cycles[|cycles| - 1], n)
  }

  /** A step either completes the access, or the counter keeps up with its blocking. */
  lemma CounterStep(c: Config, m: Memory, n: Memory)
    requires ConfigValid(c) && c.accessLatency >= 2 && MemoryValid(c, m) && Step(c, m, n)
    ensures MemoryValid(c, n)
    ensures m.delayed.Some? && n.delayed.None? ==> n.concAccesses == m.concAccesses && n.addedBlocking == 0
    ensures !(m.delayed.Some? && n.delayed.None?) ==>
      n.concAccesses + Ceiling(m.addedBlocking, c.accessLatency)
      == m.concAccesses + Ceiling(n.addedBlocking, c.accessLatency)
  {
    NextCycle(m.addedBlocking, c.accessLatency);
    if n in Cycle(c, m) {
      StepsAreValid(c, m);
    }
  }

  lemma TotalCeilingMore(cycles: seq<nat>, x: nat, n: nat)
    requires n >= 1
    ensures TotalCeiling(cycles + [x], n) == TotalCeiling(cycles, n) + Ceiling(x, n)
  {
    assert (cycles + [x])[..|cycles|] == cycles;
  }

  /** In every run, the counter is the number of accesses that must have caused the blocking,
      rounded up for every access of this core by itself. */
  lemma {:induction false} ConcurrentAccesses(c: Config, run: seq<Memory>, k: nat)
    requires ConfigValid(c) && c.accessLatency >= 2 && IsRun(c, run) && k < |run|
    requires MemoryValid(c, run[0]) && !Busy(run[0]) && run[0].concAccesses == 0
    ensures MemoryValid(c, run[k])
    ensures run[k].concAccesses
         == TotalCeiling(Blocked(run, k), c.accessLatency) + Ceiling(run[k].addedBlocking, c.accessLatency)
  {
    Arithmetic.DivIs(0, 0, c.accessLatency);
    if k > 0 {
      ConcurrentAccesses(c, run, k - 1);
      assert Step(c, run[k - 1], run[k]);
      CounterStep(c, run[k - 1], run[k]);
      TotalCeilingMore(Blocked(run, k - 1), run[k - 1].addedBlocking, c.accessLatency);
    }
  }

  // ---- when the counter is right -----------------------------------------------------------

  /** The counter is right all along a run. */
  ghost predicate CountsRight(c: Config, run: seq<Memory>)
    requires ConfigValid(c)
  {
    forall k :: 0 <= k < |run| ==>
      run[k].concAccesses
      == TotalCeiling(Blocked(run, k), c.accessLatency) + Ceiling(run[k].addedBlocking, c.accessLatency)
  }

  /** A run that begins with the memory idle and nothing counted. */
  ghost predicate IsFreshRun(c: Config, run: seq<Memory>)
    requires ConfigValid(c)
  {
    IsRun(c, run) && MemoryValid(c, run[0]) && !Busy(run[0]) && run[0].concAccesses == 0
  }

  /** No access is ever blocked, or there are none. */
  predicate NeverBlocks(c: Config) {
    c.compositional || c.maxBlocking == 0 || (c.latency == 0 && c.perWordLatency == 0)
  }

  lemma CeilingOfNone(n: nat)
    requires n >= 1
    ensures Ceiling(0, n) == 0
  {
    Arithmetic.DivIs(0, 0, n);
  }

  lemma UnblockedStep(c: Config, m: Memory, n: Memory)
    requires ConfigValid(c) && NeverBlocks(c) && MemoryValid(c, m) && Step(c, m, n)
    requires m.addedBlocking == 0 && m.concAccesses == 0
    requires c.latency == 0 && c.perWordLatency == 0 ==> !Busy(m)
    ensures MemoryValid(c, n) && n.addedBlocking == 0 && n.concAccesses == 0
    ensures c.latency == 0 && c.perWordLatency == 0 ==> !Busy(n)
  {
    if n in Cycle(c, m) {
      StepsAreValid(c, m);
    }
  }

  lemma {:induction false} NeverBlocked(c: Config, run: seq<Memory>, k: nat)
    requires ConfigValid(c) && NeverBlocks(c) && IsFreshRun(c, run) && k < |run|
    ensures MemoryValid(c, run[k]) && run[k].addedBlocking == 0 && run[k].concAccesses == 0
    ensures c.latency == 0 && c.perWordLatency == 0 ==> !Busy(run[k])
    ensures TotalCeiling(Blocked(run, k), c.accessLatency) == 0
  {
    if k > 0 {
      NeverBlocked(c, run, k - 1);
      assert Step(c, run[k - 1], run[k]);
      UnblockedStep(c, run[k - 1], run[k]);
      TotalCeilingMore(Blocked(run, k - 1), 0, c.accessLatency);
      CeilingOfNone(c.accessLatency);
    }
  }

  /** The states of a memory that has just been given an access, down to the last cycle of its
      latency. */
  lemma {:induction false} Countdown(c: Config, m: Memory) returns (run: seq<Memory>)
    requires ConfigValid(c) && m.inner.timeBlocked > 0
    ensures IsRun(c, run) && run[0] == m
    ensures run[|run| - 1] == m.(inner := m.inner.(timeBlocked := 1))
    decreases m.inner.timeBlocked
  {
    if m.inner.timeBlocked == 1 {
      run := [m];
    } else {
      var n := m.(inner := FixedCycle(m.inner));
      assert n in Cycle(c, m);
      var rest := Countdown(c, n);
      run := [m] + rest;
      forall i | 0 < i < |run| ensures Step(c, run[i - 1], run[i]) {
        if i > 1 {
          assert Step(c, rest[i - 1 - 1], rest[i - 1]);
        }
      }
    }
  }

  lemma Extended(c: Config, run: seq<Memory>, m: Memory)
    requires ConfigValid(c) && IsRun(c, run) && Step(c, run[|run| - 1], m)
    ensures IsRun(c, run + [m])
  {
    forall i | 0 < i < |run + [m]| ensures Step(c, (run + [m])[i - 1], (run + [m])[i]) {
      if i < |run| {
        assert Step(c, run[i - 1], run[i]);
      }
    }
  }

  lemma Prepended(c: Config, m: Memory, run: seq<Memory>)
    requires ConfigValid(c) && IsRun(c, run) && Step(c, m, run[0])
    ensures IsRun(c, [m] + run)
  {
    forall i | 0 < i < |[m] + run| ensures Step(c, ([m] + run)[i - 1], ([m] + run)[i]) {
      if i > 1 {
        assert Step(c, run[i - 1 - 1], run[i - 1]);
      }
    }
  }

  /** Where an access of another core takes one cycle only, the first blocked cycle is already
      missed. */
  lemma OneBlockedCycle(c: Config) returns (run: seq<Memory>)
    requires ConfigValid(c) && c.accessLatency == 1 && !NeverBlocks(c)
    ensures IsFreshRun(c, run) && run[|run| - 1].addedBlocking == 1 && run[|run| - 1].concAccesses == 0
  {
    var idle := Memory(Fixed(0, Counter(0, 0)), None, 0, Counter(0, 0), 0);
    var r := Request(0, Load);
    var m := Announce(c, idle, r, 1)[0];
    assert m in Announce(c, idle, r, 1);
    var down := Countdown(c, m);
    var last := down[|down| - 1];
    var blocked := IncrementAddedBlocking(c, last.(inner := FixedCycle(last.inner)));
    assert blocked in Cycle(c, last);
    Extended(c, down, blocked);
    Prepended(c, idle, down + [blocked]);
    run := [idle] + (down + [blocked]);
  }

  /** On every run the counter rounds the blocked cycles of every access up to whole accesses
      exactly if these take at least two cycles, or nothing is ever blocked. */
  lemma CountsAccessesIff(c: Config)
    requires ConfigValid(c)
    ensures (forall run :: IsFreshRun(c, run) ==> CountsRight(c, run)) <==> c.accessLatency >= 2 || NeverBlocks(c)
  {
    forall run: seq<Memory> | IsFreshRun(c, run) && (c.accessLatency >= 2 || NeverBlocks(c))
      ensures CountsRight(c, run)
    {
      forall k | 0 <= k < |run|
        ensures run[k].concAccesses
             == TotalCeiling(Blocked(run, k), c.accessLatency) + Ceiling(run[k].addedBlocking, c.accessLatency)
      {
        if c.accessLatency >= 2 {
          ConcurrentAccesses(c, run, k);
        } else {
          NeverBlocked(c, run, k);
        }
      }
    }
    if c.accessLatency == 1 && !NeverBlocks(c) {
      var run := OneBlockedCycle(c);
      var k := |run| - 1;
      assert Ceiling(run[k].addedBlocking, 1) == 1;
      assert !CountsRight(c, run);
    }
  }
}
