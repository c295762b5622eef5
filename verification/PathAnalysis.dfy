/** What the iteration of CoRunner.dfy assumes of the path analysis and of the arrival
    curves, shown of what they stand for; and the iteration as loops: of one core over its
    variables, and of all cores until none changes. */
module PathAnalysis {
  import Arithmetic = AddressMapping
  import ArrivalCurve
  import opened CoRunner

  // ---- implicit path enumeration ----------------------------------------------------------

  /** An execution path: its duration, the blocked cycles in it, and the accesses of other
      cores it waits for. */
  datatype Path = Path(time: nat, blocking: nat, accesses: nat)

  predicate Admitted(p: Path, b: int, c: int) {
    Leq(p.blocking, b) && Leq(p.accesses, c)
  }

  /** The longest duration under bounds on blocking; -1 if no path meets them. */
  function PathBound(paths: seq<Path>, b: int, c: int): (r: int)
    ensures r >= INFINITY
  {
    if paths == [] then INFINITY
    else
      var tail := PathBound(paths[1..], b, c);
      if Admitted(paths[0], b, c) && paths[0].time > tail then paths[0].time else tail
  }

  /** The bound is the duration of a longest admitted path. */
  lemma {:induction false} PathBoundIsLongest(paths: seq<Path>, b: int, c: int)
    ensures forall p :: p in paths && Admitted(p, b, c) ==> p.time <= PathBound(paths, b, c)
    ensures PathBound(paths, b, c) != INFINITY ==>
              exists p :: p in paths && Admitted(p, b, c) && p.time == PathBound(paths, b, c)
  {
    if paths != [] {
      PathBoundIsLongest(paths[1..], b, c);
      assert forall p :: p in paths[1..] ==> p in paths;
      forall p | p in paths && Admitted(p, b, c) ensures p.time <= PathBound(paths, b, c) {
        assert p == paths[0] || p in paths[1..];
      }
    }
  }

  /** Some path does without the bus being taken. */
  ghost predicate Undisturbed(paths: seq<Path>) {
    exists p :: p in paths && p.blocking == 0 && p.accesses == 0
  }

  /** Path enumeration is monotone in the bounds, if some path is undisturbed. */
  lemma PathEnumerationIsMonotone(paths: seq<Path>, b: int, c: int, b': int, c': int)
    requires Undisturbed(paths) && Leq(b, b') && Leq(c, c') && Leq(0, b) && Leq(0, c)
    ensures Leq(PathBound(paths, b, c), PathBound(paths, b', c'))
  {
    PathBoundIsLongest(paths, b, c);
    PathBoundIsLongest(paths, b', c');
    var p :| p in paths && p.blocking == 0 && p.accesses == 0;
    assert Admitted(p, b, c) && Admitted(p, b', c');
    var q :| q in paths && Admitted(q, b, c) && q.time == PathBound(paths, b, c);
    assert Admitted(q, b', c');
  }

  // ---- cores made of these ----------------------------------------------------------------------

  /** The arrival curve of a program, as the others see it. */
  function CurveOf(p: ArrivalCurve.Program): int -> int {
    (t: int) => if ArrivalCurve.ProgramValid(p) && IsBound(t) then ArrivalCurve.MaxAccessCycles(p, t) else INFINITY
  }

  lemma ArrivalCurvesAreMonotone(p: ArrivalCurve.Program)
    ensures MonotoneCurve(CurveOf(p))
  {
    forall t, t' ensures CurveOrdered(CurveOf(p), t, t') {
      if ArrivalCurve.ProgramValid(p) && IsBound(t) && IsBound(t') && Leq(t, t') && t' != INFINITY {
        ArrivalCurve.CurveIsMonotone(p, t, t');
      }
    }
  }

  /** No schedule of the program's runs has more access cycles in an interval than its curve says,
      and some schedule has as many. */
  lemma CurveOfIsExact(p: ArrivalCurve.Program, time: nat)
    returns (starts: seq<int>, cycles: set<int>, from: int)
    requires ArrivalCurve.ProgramValid(p) && ArrivalCurve.Bounded(p)
    ensures forall starts', cycles', from' :: InSchedule(p, starts', cycles', from', time) <= CurveOf(p)(time)
    ensures InSchedule(p, starts, cycles, from, time) == CurveOf(p)(time)
  {
    forall starts', cycles', from' ensures InSchedule(p, starts', cycles', from', time) <= CurveOf(p)(time) {
      if ArrivalCurve.Schedule(starts', cycles', ArrivalCurve.PerRun(p), p.period) {
        ArrivalCurve.CurveBounds(p, starts', cycles', from', time);
      }
    }
    starts, cycles, from := ArrivalCurve.CurveIsReached(p, time);
  }

  /** The access cycles of a schedule in an interval. */
  ghost function InSchedule(p: ArrivalCurve.Program, starts: seq<int>, cycles: set<int>, from: int, time: nat): nat
    requires ArrivalCurve.ProgramValid(p) && ArrivalCurve.Bounded(p)
  {
    if ArrivalCurve.Schedule(starts, cycles, ArrivalCurve.PerRun(p), p.period)
    then |ArrivalCurve.Within(cycles, from, from + time)| else 0
  }

  function CurvesOf(others: seq<ArrivalCurve.Program>): (r: seq<int -> int>)
    ensures |r| == |others| && forall i :: 0 <= i < |r| ==> r[i] == CurveOf(others[i])
  {
    seq(|others|, i requires 0 <= i < |others| => CurveOf(others[i]))
  }

  /** A core whose execution time bound is found by path enumeration, among cores with any
      curves, ... */
  function CoreAmong(accessBound: nat, busCyclesPerAccess: nat, paths: seq<Path>, curves: seq<int -> int>): Core {
    Core(accessBound, busCyclesPerAccess, (b, c) => PathBound(paths, b, c), curves)
  }

  /** ... and among cores that run programs. */
  function CoreOf(accessBound: nat, busCyclesPerAccess: nat, paths: seq<Path>,
                  others: seq<ArrivalCurve.Program>): Core {
    CoreAmong(accessBound, busCyclesPerAccess, paths, CurvesOf(others))
  }

  ghost predicate MonotoneCurves(curves: seq<int -> int>) {
    forall i :: 0 <= i < |curves| ==> MonotoneCurve(curves[i])
  }

  lemma PathsAreMonotone(paths: seq<Path>)
    requires Undisturbed(paths)
    ensures MonotonePaths((b, c) => PathBound(paths, b, c))
  {
    var w := (b: int, c: int) => PathBound(paths, b, c);
    forall b, c, b', c' ensures PathsOrdered(w, b, c, b', c') {
      if IsBound(b) && IsBound(c) && IsBound(b') && IsBound(c') && Leq(b, b') && Leq(c, c') {
        PathEnumerationIsMonotone(paths, b, c, b', c');
      }
    }
  }

  lemma CurvesOfAreMonotone(others: seq<ArrivalCurve.Program>)
    ensures MonotoneCurves(CurvesOf(others))
  {
    forall i | 0 <= i < |others| ensures MonotoneCurve(CurvesOf(others)[i]) {
      ArrivalCurvesAreMonotone(others[i]);
    }
  }

  /** Such cores meet what the iteration assumes, if some path is undisturbed. */
  lemma CoresAreValid(accessBound: nat, busCyclesPerAccess: nat, paths: seq<Path>, others: seq<ArrivalCurve.Program>)
    requires Undisturbed(paths) && busCyclesPerAccess >= 1
    ensures CoreValid(CoreOf(accessBound, busCyclesPerAccess, paths, others))
  {
    PathsAreMonotone(paths);
    CurvesOfAreMonotone(others);
  }

  // ---- when skipping a round loses nothing ------------------------------------------------------------

  /** Blocked cycles belong to the time of a path. */
  ghost predicate InTime(paths: seq<Path>) {
    forall p :: p in paths ==> p.blocking <= p.time
  }

  /** No path exceeds what all accesses of the core can be blocked for, and by. */
  ghost predicate Blockable(paths: seq<Path>, accessBound: nat, busCyclesPerAccess: nat, others: nat) {
    forall p :: p in paths ==>
      p.blocking <= others * (accessBound * busCyclesPerAccess) && p.accesses <= others * accessBound
  }

  /** The path waits for more accesses than it takes to fill its time with them. */
  predicate Crowded(p: Path, busCyclesPerAccess: nat) {
    p.accesses * busCyclesPerAccess >= p.time + busCyclesPerAccess
  }

  ghost predicate IsLongest(paths: seq<Path>, p: Path) {
    p in paths && forall q :: q in paths ==> q.time <= p.time
  }

  ghost predicate HasLonger(paths: seq<Path>, n: nat) {
    exists p :: p in paths && n < p.time
  }

  /** The least blocking bound that can still fall where the path is the longest left without
      falling below its time. */
  function Need(q: Path): nat {
    if q.accesses > q.time then q.accesses else q.time + 1
  }

  /** Where `q` is left, so is `p`; it is longer, or as long and not crowded. */
  predicate Covers(p: Path, q: Path, busCyclesPerAccess: nat) {
    && p.blocking <= Need(q) && p.accesses <= q.accesses
    && (p.time > q.time || (p.time == q.time && !Crowded(p, busCyclesPerAccess)))
  }

  ghost predicate Covered(paths: seq<Path>, q: Path, busCyclesPerAccess: nat) {
    exists p :: p in paths && Covers(p, q, busCyclesPerAccess)
  }

  /** The crowded paths that can come to be the longest left are covered. */
  ghost predicate Spacious(paths: seq<Path>, busCyclesPerAccess: nat) {
    forall q :: q in paths && Crowded(q, busCyclesPerAccess) && (IsLongest(paths, q) || HasLonger(paths, Need(q))) ==>
      Covered(paths, q, busCyclesPerAccess)
  }

  /** Enough whole accesses for a path that is not crowded. */
  lemma EnoughAccesses(p: Path, busCyclesPerAccess: nat, b: int, c: int)
    requires busCyclesPerAccess >= 1 && !Crowded(p, busCyclesPerAccess)
    requires p.time <= b <= c * busCyclesPerAccess
    ensures p.accesses <= c
  {
    if p.accesses > c {
      Order(c + 1, p.accesses, busCyclesPerAccess);
      CoRunner.Distribute(c, 1, busCyclesPerAccess);
    }
  }

  lemma EnoughForAll(c: int, most: nat, busCyclesPerAccess: nat)
    requires busCyclesPerAccess >= 1 && most * busCyclesPerAccess <= c * busCyclesPerAccess
    ensures most <= c
  {
    if most > c {
      Order(c + 1, most, busCyclesPerAccess);
      CoRunner.Distribute(c, 1, busCyclesPerAccess);
    }
  }

  /** Under bounds in force that can fall without falling below the time of a longest path left,
      some path as long is left that is not crowded. */
  lemma UncrowdedLeft(paths: seq<Path>, busCyclesPerAccess: nat, q: Path, b: int, c: int) returns (p: Path)
    requires Spacious(paths, busCyclesPerAccess) && q in paths && Admitted(q, b, c)
    requires forall r :: r in paths && Admitted(r, b, c) ==> r.time <= q.time
    requires (b == INFINITY && c == INFINITY) || (0 <= c <= b && q.time < b && exists r :: r in paths && b < r.time)
    ensures p in paths && p.time == q.time && !Crowded(p, busCyclesPerAccess)
  {
    p := q;
    if Crowded(q, busCyclesPerAccess) {
      if b == INFINITY {
        assert IsLongest(paths, q);
      } else {
        assert HasLonger(paths, Need(q));
      }
      assert Covered(paths, q, busCyclesPerAccess);
      p :| p in paths && Covers(p, q, busCyclesPerAccess);
      assert Admitted(p, b, c);
    }
  }

  lemma Associate(a: nat, b: nat, c: nat)
    ensures a * (b * c) == (a * b) * c
  {
  }

  /** Where the bounds admit all that can be, nothing is lost. */
  lemma AllAdmitted(paths: seq<Path>, accessBound: nat, busCyclesPerAccess: nat, others: nat, q: Path, c: int)
    requires busCyclesPerAccess >= 1 && Blockable(paths, accessBound, busCyclesPerAccess, others) && q in paths
    requires others * (accessBound * busCyclesPerAccess) <= c * busCyclesPerAccess
    ensures Admitted(q, others * (accessBound * busCyclesPerAccess), c)
  {
    Associate(others, accessBound, busCyclesPerAccess);
    EnoughForAll(c, others * accessBound, busCyclesPerAccess);
  }

  lemma SomeAdmitted(paths: seq<Path>, q: Path, b: int, c: int, b': int, c': int)
    requires Undisturbed(paths) && q in paths && q.time == PathBound(paths, b, c) && Admitted(q, b', c')
    requires 0 <= b' && 0 <= c' && Leq(b', b) && Leq(c', c)
    ensures PathBound(paths, b', c') == PathBound(paths, b, c)
  {
    PathBoundIsLongest(paths, b', c');
    PathEnumerationIsMonotone(paths, b', c', b, c);
  }

  lemma SpaciousIsIdle(accessBound: nat, busCyclesPerAccess: nat, paths: seq<Path>, curves: seq<int -> int>)
    requires Undisturbed(paths) && InTime(paths) && busCyclesPerAccess >= 1 && Spacious(paths, busCyclesPerAccess)
    requires Blockable(paths, accessBound, busCyclesPerAccess, |curves|)
    ensures SkippingIsIdle(CoreAmong(accessBound, busCyclesPerAccess, paths, curves))
  {
    var k := CoreAmong(accessBound, busCyclesPerAccess, paths, curves);
    LongestIsPath(paths);
    forall b, c, b', c' ensures IdleAt(k, b, c, b', c') {
      var w := PathBound(paths, b, c);
      if && InForce(k, b, c) && 0 <= b' && 0 <= c' && Leq(b', b) && b' != b && Leq(c', c)
         && w != INFINITY && b' <= c' * busCyclesPerAccess
         && (b' >= w || b' == |curves| * (accessBound * busCyclesPerAccess))
      {
        PathBoundIsLongest(paths, b, c);
        var q :| q in paths && Admitted(q, b, c) && q.time == w;
        if b' >= w {
          var p := UncrowdedLeft(paths, busCyclesPerAccess, q, b, c);
          EnoughAccesses(p, busCyclesPerAccess, b', c');
          SomeAdmitted(paths, p, b, c, b', c');
        } else {
          AllAdmitted(paths, accessBound, busCyclesPerAccess, |curves|, q, c');
          SomeAdmitted(paths, q, b, c, b', c');
        }
      }
    }
  }

  lemma StartIsBounded(paths: seq<Path>)
    requires Undisturbed(paths)
    ensures PathBound(paths, INFINITY, INFINITY) != INFINITY
  {
    PathBoundIsLongest(paths, INFINITY, INFINITY);
    var p :| p in paths && p.blocking == 0 && p.accesses == 0;
    assert Admitted(p, INFINITY, INFINITY);
  }

  lemma LongestIsPath(paths: seq<Path>)
    requires Undisturbed(paths)
    ensures exists p :: p in paths && p.time == PathBound(paths, INFINITY, INFINITY)
    ensures forall p :: p in paths && p.time == PathBound(paths, INFINITY, INFINITY) ==> IsLongest(paths, p)
    ensures forall p :: p in paths ==> p.time <= PathBound(paths, INFINITY, INFINITY)
  {
    StartIsBounded(paths);
    PathBoundIsLongest(paths, INFINITY, INFINITY);
    forall p | p in paths ensures Admitted(p, INFINITY, INFINITY) {
    }
  }

  /** An end of the downward iteration is the greatest solution. */
  ghost predicate EndsAtSolution(k: Core, n: nat)
    requires k.busCyclesPerAccess >= 1
  {
    var w := Iterate(k, Greatest, n).wcet;
    n > 0 && !Changed(Greatest, Iterate(k, Greatest, n)) ==>
      && Next(k, w) == w
      && forall x :: IsBound(x) && Leq(x, Start(k, Greatest).wcet) && Leq(x, Next(k, x)) ==> Leq(x, w)
  }

  /** If the crowded paths that can come to be the longest left are covered, every end of the
      downward iteration is the greatest solution, rounds skipped or not. */
  lemma SpaciousEndsAtGreatestSolution(accessBound: nat, busCyclesPerAccess: nat, paths: seq<Path>,
                                       curves: seq<int -> int>, n: nat)
    requires Undisturbed(paths) && InTime(paths) && busCyclesPerAccess >= 1 && Spacious(paths, busCyclesPerAccess)
    requires Blockable(paths, accessBound, busCyclesPerAccess, |curves|) && MonotoneCurves(curves)
    ensures EndsAtSolution(CoreAmong(accessBound, busCyclesPerAccess, paths, curves), n)
  {
    var k := CoreAmong(accessBound, busCyclesPerAccess, paths, curves);
    if n > 0 && !Changed(Greatest, Iterate(k, Greatest, n)) {
      PathsAreMonotone(paths);
      SpaciousIsIdle(accessBound, busCyclesPerAccess, paths, curves);
      StartIsBounded(paths);
      IdleDownwardsEnd(k, n);
    }
  }

  // ---- what is lost otherwise ---------------------------------------------------------------------------

  /** A program that may use the bus all through an interval of length `time`. */
  function Busy(time: nat, busCyclesPerAccess: nat): ArrivalCurve.Program {
    ArrivalCurve.Program(time, busCyclesPerAccess, 1)
  }

  lemma BusyCurve(time: nat, busCyclesPerAccess: nat)
    requires time >= 1 && busCyclesPerAccess >= 1
    ensures CurveOf(Busy(time, busCyclesPerAccess))(time) == time
  {
    var p := Busy(time, busCyclesPerAccess);
    CoRunner.Order(1, busCyclesPerAccess, time);
    assert ArrivalCurve.PerRun(p) >= time;
    ArrivalCurve.WithinOneRun(p, time);
  }

  lemma {:induction false} MostAccesses(paths: seq<Path>) returns (n: nat)
    ensures forall p :: p in paths ==> p.accesses <= n && p.blocking <= n
  {
    n := 0;
    if paths != [] {
      var m := MostAccesses(paths[1..]);
      var p := paths[0];
      n := m + p.accesses + p.blocking;
      forall q | q in paths ensures q.accesses <= n && q.blocking <= n {
        assert q == p || q in paths[1..];
      }
    }
  }

  /** What one other core does to this one that uses the bus for `x` cycles in time `x`. */
  lemma OneBusy(k: Core, x: nat)
    requires k.accessBound >= x && k.busCyclesPerAccess >= 1 && |k.curves| == 1 && k.curves[0](x) == x
    ensures BlockingAt(k, x) == x && 0 <= AccessesAt(k, x)
    ensures AccessesAt(k, x) * k.busCyclesPerAccess < x + k.busCyclesPerAccess
  {
    var bounds := AccessCycleBounds(k, x);
    assert bounds[0] == x && bounds[1..] == [] && |bounds| == 1;
    CoRunner.Order(1, k.busCyclesPerAccess, k.accessBound);
    assert Contribution(k, x) == x;
    assert BlockingSum(k, bounds[1..]) == 0;
    BlockingFacts(k, bounds);
    RoundingFacts(k, bounds);
  }

  /** With no more accesses than that, no crowded path as long as `time` is admitted. */
  lemma CrowdedIsExcluded(p: Path, busCyclesPerAccess: nat, b: int, c: int)
    requires busCyclesPerAccess >= 1 && Crowded(p, busCyclesPerAccess)
    requires 0 <= c && c * busCyclesPerAccess < p.time + busCyclesPerAccess
    ensures !Admitted(p, b, c)
  {
    if p.accesses <= c {
      CoRunner.Order(p.accesses, c, busCyclesPerAccess);
    }
  }

  lemma LostRound(k: Core, paths: seq<Path>, w: nat)
    requires k.busCyclesPerAccess >= 1 && forall b, c :: k.pathBound(b, c) == PathBound(paths, b, c)
    requires w == PathBound(paths, INFINITY, INFINITY) && BlockingAt(k, w) == w
    requires 0 <= AccessesAt(k, w) && AccessesAt(k, w) * k.busCyclesPerAccess < w + k.busCyclesPerAccess
    requires forall p :: p in paths && p.time == w ==> Crowded(p, k.busCyclesPerAccess)
    ensures !Changed(Greatest, Iterate(k, Greatest, 1)) && Iterate(k, Greatest, 1).wcet == w && Next(k, w) != w
  {
    var c := AccessesAt(k, w);
    assert Iterate(k, Greatest, 0) == Progress(w, w, INFINITY, INFINITY);
    PathBoundIsLongest(paths, w, c);
    forall p | p in paths && p.time == w ensures !Admitted(p, w, c) {
      CrowdedIsExcluded(p, k.busCyclesPerAccess, w, c);
    }
  }

  lemma EnoughRoom(accessBound: nat, busCyclesPerAccess: nat, others: nat)
    requires busCyclesPerAccess >= 1 && others >= 1
    ensures others * (accessBound * busCyclesPerAccess) >= accessBound && others * accessBound >= accessBound
  {
    CoRunner.Order(1, busCyclesPerAccess, accessBound);
    CoRunner.Order(1, others, accessBound * busCyclesPerAccess);
    CoRunner.Order(1, others, accessBound);
  }

  lemma LosingCore(paths: seq<Path>, accessBound: nat, busCyclesPerAccess: nat, w: nat)
    requires busCyclesPerAccess >= 1 && 1 <= w <= accessBound && w == PathBound(paths, INFINITY, INFINITY)
    requires forall p :: p in paths && p.time == w ==> Crowded(p, busCyclesPerAccess)
    ensures !EndsAtSolution(CoreOf(accessBound, busCyclesPerAccess, paths, [Busy(w, busCyclesPerAccess)]), 1)
  {
    var k := CoreOf(accessBound, busCyclesPerAccess, paths, [Busy(w, busCyclesPerAccess)]);
    BusyCurve(w, busCyclesPerAccess);
    OneBusy(k, w);
    LostRound(k, paths, w);
  }

  /** If all longest paths are crowded, one other core that uses the bus all the time makes the
      first round be skipped although it would exclude them all. */
  lemma CrowdedLoses(paths: seq<Path>, busCyclesPerAccess: nat)
    returns (accessBound: nat, others: seq<ArrivalCurve.Program>)
    requires Undisturbed(paths) && busCyclesPerAccess >= 1
    requires forall p :: IsLongest(paths, p) ==> Crowded(p, busCyclesPerAccess)
    ensures Blockable(paths, accessBound, busCyclesPerAccess, |others|)
    ensures !EndsAtSolution(CoreOf(accessBound, busCyclesPerAccess, paths, others), 1)
  {
    LongestIsPath(paths);
    StartIsBounded(paths);
    var w := PathBound(paths, INFINITY, INFINITY);
    var u :| u in paths && u.blocking == 0 && u.accesses == 0;
    assert !Crowded(u, busCyclesPerAccess) && u.time < w;
    var most := MostAccesses(paths);
    accessBound, others := w + most, [Busy(w, busCyclesPerAccess)];
    EnoughRoom(accessBound, busCyclesPerAccess, 1);
    LosingCore(paths, accessBound, busCyclesPerAccess, w);
  }

  // ---- what is lost in a later round ----------------------------------------------------------------------

  function FirstOf(total: nat, n: nat, busCyclesPerAccess: nat): (r: nat)
    requires busCyclesPerAccess >= 1 && 1 <= n <= total
    ensures 1 <= r <= busCyclesPerAccess
  {
    if total - (n - 1) < busCyclesPerAccess then total - (n - 1) else busCyclesPerAccess
  }

  lemma OneLess(total: nat, n: nat, busCyclesPerAccess: nat)
    requires busCyclesPerAccess >= 1 && 1 <= n <= total <= n * busCyclesPerAccess
    ensures n - 1 <= total - FirstOf(total, n, busCyclesPerAccess) <= (n - 1) * busCyclesPerAccess
  {
    CoRunner.Distribute(n - 1, 1, busCyclesPerAccess);
    CoRunner.Order(1, busCyclesPerAccess, n - 1);
  }

  /** Bus cycles of single accesses, as many as make a total. */
  function Spread(total: nat, n: nat, busCyclesPerAccess: nat): (r: seq<int>)
    requires busCyclesPerAccess >= 1 && n <= total <= n * busCyclesPerAccess
    ensures |r| == n && forall i :: 0 <= i < n ==> 1 <= r[i] <= busCyclesPerAccess
    decreases n
  {
    if n == 0 then []
    else
      OneLess(total, n, busCyclesPerAccess);
      var first := FirstOf(total, n, busCyclesPerAccess);
      [first] + Spread(total - first, n - 1, busCyclesPerAccess)
  }

  lemma OneInAll(cycles: nat, n: nat)
    requires 1 <= n && cycles <= n
    ensures cycles / n + (if cycles % n >= 1 then 1 else 0) == if cycles == 0 then 0 else 1
  {
    Arithmetic.DivIs(cycles, if cycles == n then 1 else 0, n);
  }

  lemma SingleAccess(k: Core, cycles: int)
    requires k.accessBound >= 1 && 0 <= cycles <= k.busCyclesPerAccess && k.busCyclesPerAccess >= 1
    ensures Contribution(k, cycles) == cycles
    ensures AccessContribution(k, cycles) == if cycles == 0 then 0 else 1
  {
    CoRunner.Order(1, k.accessBound, k.busCyclesPerAccess);
    OneInAll(cycles, k.busCyclesPerAccess);
  }

  lemma SumsFrom(k: Core, cycles: int, rest: seq<int>)
    requires k.accessBound >= 1 && 0 <= cycles <= k.busCyclesPerAccess && k.busCyclesPerAccess >= 1
    ensures BlockingSum(k, [cycles] + rest) == cycles + BlockingSum(k, rest)
    ensures AccessSum(k, [cycles] + rest) == (if cycles == 0 then 0 else 1) + AccessSum(k, rest)
  {
    assert ([cycles] + rest)[1..] == rest;
    SingleAccess(k, cycles);
  }

  lemma {:induction false} SpreadSums(k: Core, total: nat, n: nat)
    requires k.accessBound >= 1 && k.busCyclesPerAccess >= 1 && n <= total <= n * k.busCyclesPerAccess
    ensures BlockingSum(k, Spread(total, n, k.busCyclesPerAccess)) == total
    ensures AccessSum(k, Spread(total, n, k.busCyclesPerAccess)) == n
    decreases n
  {
    if n > 0 {
      OneLess(total, n, k.busCyclesPerAccess);
      var first := FirstOf(total, n, k.busCyclesPerAccess);
      SpreadSums(k, total - first, n - 1);
      SumsFrom(k, first, Spread(total - first, n - 1, k.busCyclesPerAccess));
    }
  }

  /** A core that comes to use the bus in more than `time` cycles only, one that never does,
      and cores that always use it for the same number of cycles. */
  function LateCurves(time: nat, rest: seq<int>): (r: seq<int -> int>)
    ensures |r| == |rest| + 2
  {
    [(t: int) => if t == INFINITY || t > time then 1 else 0, (t: int) => 0]
    + seq(|rest|, i requires 0 <= i < |rest| => (t: int) => rest[i])
  }

  lemma LateIsMonotone(time: nat, rest: seq<int>)
    requires forall i :: 0 <= i < |rest| ==> rest[i] >= 0
    ensures MonotoneCurves(LateCurves(time, rest))
  {
    var curves := LateCurves(time, rest);
    forall i | 0 <= i < |curves| ensures MonotoneCurve(curves[i]) {
      forall t, t' ensures CurveOrdered(curves[i], t, t') {
      }
    }
  }

  lemma LateSums(k: Core, time: nat, rest: seq<int>, x: int)
    requires k.accessBound >= 1 && k.busCyclesPerAccess >= 1 && k.curves == LateCurves(time, rest)
    ensures var late := if x == INFINITY || x > time then 1 else 0;
      BlockingAt(k, x) == late + BlockingSum(k, rest) && AccessesAt(k, x) == late + AccessSum(k, rest)
  {
    var late := if x == INFINITY || x > time then 1 else 0;
    assert AccessCycleBounds(k, x) == [late] + ([0] + rest);
    SumsFrom(k, late, [0] + rest);
    SumsFrom(k, 0, rest);
  }

  /** Enough accesses, not counting one, for the least blocking a round can be skipped for. */
  lemma NeedIsSpread(q: Path, busCyclesPerAccess: nat)
    requires busCyclesPerAccess >= 1 && Crowded(q, busCyclesPerAccess)
    ensures q.accesses >= 1 && q.accesses - 1 <= Need(q) - 1 <= (q.accesses - 1) * busCyclesPerAccess
  {
    CoRunner.Distribute(q.accesses, -1, busCyclesPerAccess);
    CoRunner.Order(1, busCyclesPerAccess, q.accesses - 1);
  }

  /** The longest path left, and not left with one access and one cycle less. */
  lemma LeftAndLost(paths: seq<Path>, busCyclesPerAccess: nat, q: Path)
    requires InTime(paths) && q in paths && q.accesses >= 1 && !Covered(paths, q, busCyclesPerAccess)
    requires forall p :: p in paths && p.time == q.time && p.blocking <= Need(q) ==> p.accesses >= q.accesses
    ensures PathBound(paths, Need(q), q.accesses) == q.time
    ensures PathBound(paths, Need(q) - 1, q.accesses - 1) != q.time
  {
    PathBoundIsLongest(paths, Need(q), q.accesses);
    assert Admitted(q, Need(q), q.accesses);
    forall p | p in paths && Admitted(p, Need(q), q.accesses) ensures p.time <= q.time {
      assert !Covers(p, q, busCyclesPerAccess);
    }
    PathBoundIsLongest(paths, Need(q) - 1, q.accesses - 1);
  }

  /** The first round leaves `q`, the second is skipped and would not. */
  lemma LostLater(k: Core, paths: seq<Path>, w: int, q: Path)
    requires k.busCyclesPerAccess >= 1 && forall b, c :: k.pathBound(b, c) == PathBound(paths, b, c)
    requires w == PathBound(paths, INFINITY, INFINITY) && Need(q) < w && Need(q) < MaxOverallBlocking(k, |k.curves|)
    requires q.accesses >= 1
    requires BlockingAt(k, w) == Need(q) && AccessesAt(k, w) == q.accesses
    requires BlockingAt(k, q.time) == Need(q) - 1 && AccessesAt(k, q.time) == q.accesses - 1
    requires PathBound(paths, Need(q), q.accesses) == q.time
    requires PathBound(paths, Need(q) - 1, q.accesses - 1) != q.time
    ensures !EndsAtSolution(k, 2)
  {
    assert Iterate(k, Greatest, 0) == Progress(w, w, INFINITY, INFINITY);
    assert Iterate(k, Greatest, 1) == Progress(q.time, w, Need(q), q.accesses);
    assert Iterate(k, Greatest, 2) == Progress(q.time, q.time, Need(q) - 1, q.accesses - 1);
  }

  /** What such cores let the path wait for. */
  lemma LateBounds(k: Core, q: Path, x: int)
    requires k.accessBound >= 1 && k.busCyclesPerAccess >= 1 && Crowded(q, k.busCyclesPerAccess)
    requires q.accesses - 1 <= Need(q) - 1 <= (q.accesses - 1) * k.busCyclesPerAccess
    requires q.accesses >= 1 && x >= 0
    requires k.curves == LateCurves(q.time, Spread(Need(q) - 1, q.accesses - 1, k.busCyclesPerAccess))
    ensures BlockingAt(k, x) == if x > q.time then Need(q) else Need(q) - 1
    ensures AccessesAt(k, x) == if x > q.time then q.accesses else q.accesses - 1
  {
    SpreadSums(k, Need(q) - 1, q.accesses - 1);
    LateSums(k, q.time, Spread(Need(q) - 1, q.accesses - 1, k.busCyclesPerAccess), x);
  }

  lemma LongerThan(paths: seq<Path>, n: nat)
    requires Undisturbed(paths) && HasLonger(paths, n)
    ensures n < PathBound(paths, INFINITY, INFINITY)
  {
    LongestIsPath(paths);
  }

  lemma LateCore(paths: seq<Path>, busCyclesPerAccess: nat, q: Path, accessBound: nat)
    returns (curves: seq<int -> int>)
    requires Undisturbed(paths) && InTime(paths) && busCyclesPerAccess >= 1 && accessBound > Need(q)
    requires q in paths && Crowded(q, busCyclesPerAccess) && HasLonger(paths, Need(q))
    requires !Covered(paths, q, busCyclesPerAccess)
    requires forall p :: p in paths && p.time == q.time && p.blocking <= Need(q) ==> p.accesses >= q.accesses
    ensures |curves| >= 1 && MonotoneCurves(curves)
    ensures !EndsAtSolution(CoreAmong(accessBound, busCyclesPerAccess, paths, curves), 2)
  {
    NeedIsSpread(q, busCyclesPerAccess);
    var rest := Spread(Need(q) - 1, q.accesses - 1, busCyclesPerAccess);
    curves := LateCurves(q.time, rest);
    LateIsMonotone(q.time, rest);
    LongerThan(paths, Need(q));
    LeftAndLost(paths, busCyclesPerAccess, q);
    EnoughRoom(accessBound, busCyclesPerAccess, |curves|);
    var k, w := CoreAmong(accessBound, busCyclesPerAccess, paths, curves), PathBound(paths, INFINITY, INFINITY);
    LateBounds(k, q, w);
    LateBounds(k, q, q.time);
    LostLater(k, paths, w, q);
  }

  /** A crowded path that can come to be the longest left and is not covered makes a round be
      skipped that would exclude all paths of its length. */
  lemma {:induction false} UncoveredLoses(paths: seq<Path>, busCyclesPerAccess: nat, q: Path)
    returns (accessBound: nat, curves: seq<int -> int>)
    requires Undisturbed(paths) && InTime(paths) && busCyclesPerAccess >= 1
    requires q in paths && Crowded(q, busCyclesPerAccess) && HasLonger(paths, Need(q))
    requires !Covered(paths, q, busCyclesPerAccess)
    ensures Blockable(paths, accessBound, busCyclesPerAccess, |curves|) && MonotoneCurves(curves)
    ensures !EndsAtSolution(CoreAmong(accessBound, busCyclesPerAccess, paths, curves), 2)
    decreases q.accesses
  {
    if p :| p in paths && p.time == q.time && p.blocking <= Need(q) && p.accesses < q.accesses {
      FewerUncovered(paths, busCyclesPerAccess, q, p);
      accessBound, curves := UncoveredLoses(paths, busCyclesPerAccess, p);
    } else {
      var most := MostAccesses(paths);
      accessBound := most + Need(q) + 1;
      curves := LateCore(paths, busCyclesPerAccess, q, accessBound);
      EnoughRoom(accessBound, busCyclesPerAccess, |curves|);
    }
  }

  /** With fewer accesses, an equally long path is not covered either. */
  lemma FewerUncovered(paths: seq<Path>, busCyclesPerAccess: nat, q: Path, p: Path)
    requires p in paths && p.time == q.time && p.blocking <= Need(q) && p.accesses < q.accesses
    requires HasLonger(paths, Need(q)) && !Covered(paths, q, busCyclesPerAccess)
    ensures Crowded(p, busCyclesPerAccess) && HasLonger(paths, Need(p)) && !Covered(paths, p, busCyclesPerAccess)
  {
    assert !Covers(p, q, busCyclesPerAccess);
    forall r | r in paths ensures !Covers(r, p, busCyclesPerAccess) {
      assert !Covers(r, q, busCyclesPerAccess);
    }
  }

  /** A longest path that is crowded and not covered: then all longest paths are crowded. */
  lemma UncoveredLongest(paths: seq<Path>, busCyclesPerAccess: nat, q: Path)
    requires InTime(paths) && busCyclesPerAccess >= 1 && IsLongest(paths, q) && Crowded(q, busCyclesPerAccess)
    requires !Covered(paths, q, busCyclesPerAccess)
    ensures forall p :: IsLongest(paths, p) ==> Crowded(p, busCyclesPerAccess)
  {
    forall p | IsLongest(paths, p) ensures Crowded(p, busCyclesPerAccess) {
      assert !Covers(p, q, busCyclesPerAccess);
      CoRunner.Order(q.accesses, p.accesses, busCyclesPerAccess);
    }
  }

  ghost predicate Harmless(paths: seq<Path>, busCyclesPerAccess: nat, accessBound: nat, curves: seq<int -> int>,
                           n: nat)
    requires busCyclesPerAccess >= 1
  {
    Blockable(paths, accessBound, busCyclesPerAccess, |curves|) && MonotoneCurves(curves) ==>
      EndsAtSolution(CoreAmong(accessBound, busCyclesPerAccess, paths, curves), n)
  }

  lemma CrowdedHarms(paths: seq<Path>, busCyclesPerAccess: nat)
    returns (accessBound: nat, curves: seq<int -> int>, n: nat)
    requires Undisturbed(paths) && InTime(paths) && busCyclesPerAccess >= 1 && !Spacious(paths, busCyclesPerAccess)
    ensures !Harmless(paths, busCyclesPerAccess, accessBound, curves, n)
  {
    var q :| && q in paths && Crowded(q, busCyclesPerAccess) && (IsLongest(paths, q) || HasLonger(paths, Need(q)))
             && !Covered(paths, q, busCyclesPerAccess);
    if IsLongest(paths, q) {
      UncoveredLongest(paths, busCyclesPerAccess, q);
      var others;
      accessBound, others := CrowdedLoses(paths, busCyclesPerAccess);
      CurvesOfAreMonotone(others);
      curves, n := CurvesOf(others), 1;
    } else {
      accessBound, curves := UncoveredLoses(paths, busCyclesPerAccess, q);
      n := 2;
    }
  }

  /** Whatever the paths are: every end of the downward iteration, among whatever other cores,
      is the greatest solution exactly if the crowded paths that can come to be the longest left
      are covered. The comment that a skipped round loses nothing is about blocking only; the
      bound on accesses shrinks in the same round. */
  lemma SkippingIsHarmlessIff(paths: seq<Path>, busCyclesPerAccess: nat)
    requires Undisturbed(paths) && InTime(paths) && busCyclesPerAccess >= 1
    ensures (forall accessBound: nat, curves, n: nat :: Harmless(paths, busCyclesPerAccess, accessBound, curves, n))
       <==> Spacious(paths, busCyclesPerAccess)
  {
    if Spacious(paths, busCyclesPerAccess) {
      forall accessBound: nat, curves, n: nat ensures Harmless(paths, busCyclesPerAccess, accessBound, curves, n) {
        if Blockable(paths, accessBound, busCyclesPerAccess, |curves|) && MonotoneCurves(curves) {
          SpaciousEndsAtGreatestSolution(accessBound, busCyclesPerAccess, paths, curves, n);
        }
      }
    } else {
      var accessBound, curves, n := CrowdedHarms(paths, busCyclesPerAccess);
      assert !Harmless(paths, busCyclesPerAccess, accessBound, curves, n);
    }
  }

  /** Of an undisturbed path and a longer one, among cores that run programs. */
  lemma TwoPathsIff(u: Path, p: Path, busCyclesPerAccess: nat)
    requires u.blocking == 0 && u.accesses == 0 && u.time < p.time && p.blocking <= p.time && busCyclesPerAccess >= 1
    ensures (forall accessBound: nat, others, n: nat ::
               Blockable([u, p], accessBound, busCyclesPerAccess, |others|) ==>
                 EndsAtSolution(CoreOf(accessBound, busCyclesPerAccess, [u, p], others), n))
       <==> p.accesses * busCyclesPerAccess < p.time + busCyclesPerAccess
  {
    var paths := [u, p];
    assert u in paths && p in paths && forall q :: q in paths ==> q == u || q == p;
    assert IsLongest(paths, p) && !IsLongest(paths, u) && !Crowded(u, busCyclesPerAccess);
    if Crowded(p, busCyclesPerAccess) {
      var accessBound, others := CrowdedLoses(paths, busCyclesPerAccess);
      assert Blockable(paths, accessBound, busCyclesPerAccess, |others|);
      assert !EndsAtSolution(CoreOf(accessBound, busCyclesPerAccess, paths, others), 1);
    } else {
      forall accessBound: nat, others, n: nat | Blockable(paths, accessBound, busCyclesPerAccess, |others|)
        ensures EndsAtSolution(CoreOf(accessBound, busCyclesPerAccess, paths, others), n)
      {
        CurvesOfAreMonotone(others);
        SpaciousEndsAtGreatestSolution(accessBound, busCyclesPerAccess, paths, CurvesOf(others), n);
      }
    }
  }

  lemma OneOther(k: Core, x: int)
    requires k.accessBound == 3 && k.busCyclesPerAccess == 10 && |k.curves| == 1 && k.curves[0](x) == 10
    ensures BlockingAt(k, x) == 10 && AccessesAt(k, x) == 1
  {
    var bounds := AccessCycleBounds(k, x);
    assert bounds[0] == 10 && bounds[1..] == [];
    assert AccessContribution(k, 10) == 1;
    assert BlockingSum(k, bounds[1..]) == 0 && AccessSum(k, bounds[1..]) == 0;
    assert BlockingSum(k, bounds) == 10 && AccessSum(k, bounds) == 1;
  }

  /** Upwards, a path analysis that finds no bound is not believed: here it finds 5 cycles
      without interference and no bound with, and the iteration stays at 5. */
  lemma UnboundedIsNotBelieved()
    ensures var k := Core(3, 10, (b: int, c: int) => if b == 0 && c == 0 then 5 else INFINITY, [t => 10]);
      var s := Iterate(k, Direction.Least, 1);
      CoreValid(k) && !Solvable(k) && !Changed(Direction.Least, s) && s.wcet == 5 && Next(k, 5) == INFINITY
  {
    var w := (b: int, c: int) => if b == 0 && c == 0 then 5 else INFINITY;
    var k := Core(3, 10, w, [t => 10]);
    forall b, c, b', c' ensures PathsOrdered(w, b, c, b', c') {
    }
    forall x ensures Next(k, x) == INFINITY {
      OneOther(k, x);
    }
  }

  // ---- the loop of one core -------------------------------------------------------------------

  class CoreAnalysis {
    const core: Core
    const direction: Direction
    var wcetBound: int
    var previousWcetBound: int
    var blockingBound: int
    var concAccessesBound: int
    var recalculateWcetBound: bool

    function State(): Progress
      reads this
    {
      Progress(wcetBound, previousWcetBound, blockingBound, concAccessesBound)
    }

    /** The path analysis before the first round. */
    constructor (core: Core, direction: Direction)
      ensures this.core == core && this.direction == direction
      ensures State() == Start(core, direction)
    {
      this.core, this.direction := core, direction;
      var none := if direction == Greatest then INFINITY else 0;
      blockingBound, concAccessesBound := none, none;
      wcetBound := core.pathBound(none, none);
      previousWcetBound := core.pathBound(none, none);
      recalculateWcetBound := true;
    }

    /** Sums what the other cores contribute, and decides whether the new bound is worth a
        path analysis. */
    method CalcBlockingBound(accessCycleBounds: seq<int>)
      requires core.busCyclesPerAccess >= 1
      modifies `blockingBound, `concAccessesBound, `recalculateWcetBound
      ensures blockingBound == BlockingSum(core, accessCycleBounds)
      ensures concAccessesBound == AccessSum(core, accessCycleBounds)
      ensures recalculateWcetBound == Worthwhile(core, direction, old(State()), blockingBound, |accessCycleBounds|)
    {
      var maxBlockingPerCore := core.accessBound * core.busCyclesPerAccess;
      var maxOverallBlocking := |accessCycleBounds| * maxBlockingPerCore;
      var newBlockingBound, newConcAccessesBound := 0, 0;
      for i := 0 to |accessCycleBounds|
        invariant newBlockingBound + BlockingSum(core, accessCycleBounds[i..]) == BlockingSum(core, accessCycleBounds)
        invariant newConcAccessesBound + AccessSum(core, accessCycleBounds[i..]) == AccessSum(core, accessCycleBounds)
      {
        assert accessCycleBounds[i..][1..] == accessCycleBounds[i + 1..];
        var accessCycleBound := accessCycleBounds[i];
        var blockingContribution :=
          if accessCycleBound != INFINITY && accessCycleBound < maxBlockingPerCore then accessCycleBound
          else maxBlockingPerCore;
        newBlockingBound := newBlockingBound + blockingContribution;
        var concAccessesContribution := blockingContribution / core.busCyclesPerAccess;
        if blockingContribution % core.busCyclesPerAccess >= 1 {
          concAccessesContribution := concAccessesContribution + 1;
        }
        newConcAccessesBound := newConcAccessesBound + concAccessesContribution;
      }
      if direction == Greatest {
        recalculateWcetBound :=
          (blockingBound == INFINITY && newBlockingBound != INFINITY) || newBlockingBound < blockingBound;
        recalculateWcetBound := recalculateWcetBound && newBlockingBound < wcetBound;
        recalculateWcetBound := recalculateWcetBound && newBlockingBound < maxOverallBlocking;
      } else {
        recalculateWcetBound :=
          (blockingBound != INFINITY && newBlockingBound == INFINITY) || newBlockingBound > blockingBound;
      }
      blockingBound, concAccessesBound := newBlockingBound, newConcAccessesBound;
    }

    /** The body of the loop, the other cores' bus cycles having been exchanged. */
    method Iteration(accessCycleBounds: seq<int>)
      requires core.busCyclesPerAccess >= 1
      modifies this
      ensures State() == Round(core, direction, old(State()), accessCycleBounds)
    {
      if wcetBound != INFINITY {
        CalcBlockingBound(accessCycleBounds);
      } else {
        recalculateWcetBound := false;
      }
      previousWcetBound := wcetBound;
      if recalculateWcetBound {
        wcetBound := core.pathBound(blockingBound, concAccessesBound);
        if (direction == Greatest && wcetBound > previousWcetBound)
           || (direction == Direction.Least && wcetBound < previousWcetBound) {
          wcetBound := previousWcetBound;
        }
      }
    }
  }

  // ---- all cores -----------------------------------------------------------------------------------

  /** How far a core's blocking bound can still go. */
  function Room(k: Core, dir: Direction, s: Progress): int {
    if dir == Direction.Least then MaxOverallBlocking(k, |k.curves|) - s.blocking
    else if s.blocking == INFINITY then MaxOverallBlocking(k, |k.curves|) + 1
    else s.blocking
  }

  /** The room shrinks in every round, and strictly when the execution time changes. */
  lemma RoomShrinks(k: Core, dir: Direction, n: nat)
    requires CoreValid(k)
    ensures 0 <= Room(k, dir, Iterate(k, dir, n + 1)) <= Room(k, dir, Iterate(k, dir, n))
    ensures Changed(dir, Iterate(k, dir, n + 1)) ==>
              Room(k, dir, Iterate(k, dir, n + 1)) < Room(k, dir, Iterate(k, dir, n))
  {
    if dir == Direction.Least {
      NeverFalls(k, n);
    } else {
      var s := Iterate(k, Greatest, n);
      NeverRises(k, n);
      TimeNeverRises(k, n);
      BlockingIsBound(k, n);
      BoundsAreMonotone(k, s.wcet, s.wcet);
    }
  }

  lemma {:induction false} BlockingIsBound(k: Core, n: nat)
    requires CoreValid(k)
    ensures Iterate(k, Greatest, n).blocking >= INFINITY
  {
    if n > 0 {
      BlockingIsBound(k, n - 1);
      var x := Iterate(k, Greatest, n - 1).wcet;
      TimeNeverRises(k, n - 1);
      BoundsAreMonotone(k, x, x);
    }
  }

  function TotalRoom(cores: seq<Core>, dir: Direction, states: seq<Progress>): int
    requires |cores| == |states|
  {
    if cores == [] then 0 else Room(cores[0], dir, states[0]) + TotalRoom(cores[1..], dir, states[1..])
  }

  ghost predicate AllValid(cores: seq<Core>) {
    forall i :: 0 <= i < |cores| ==> cores[i].busCyclesPerAccess >= 1 && CoreValid(cores[i])
  }

  ghost predicate AllAt(cores: seq<Core>, dir: Direction, states: seq<Progress>, n: nat)
    requires AllValid(cores)
  {
    |states| == |cores| && forall i :: 0 <= i < |cores| ==> states[i] == Iterate(cores[i], dir, n)
  }

  lemma {:induction false} TotalRoomShrinks(cores: seq<Core>, dir: Direction, before: seq<Progress>,
                                            after: seq<Progress>, n: nat)
    requires AllValid(cores)
    requires AllAt(cores, dir, before, n) && AllAt(cores, dir, after, n + 1)
    ensures 0 <= TotalRoom(cores, dir, after) <= TotalRoom(cores, dir, before)
    ensures (exists i :: 0 <= i < |cores| && Changed(dir, after[i])) ==>
              TotalRoom(cores, dir, after) < TotalRoom(cores, dir, before)
  {
    if cores != [] {
      RoomShrinks(cores[0], dir, n);
      TotalRoomShrinks(cores[1..], dir, before[1..], after[1..], n);
      if i :| 0 <= i < |cores| && Changed(dir, after[i]) {
        if i > 0 {
          assert Changed(dir, after[1..][i - 1]);
        }
      }
    }
  }

  /** All cores, round by round, until none changes; which happens. Each ends where its own
      iteration is after that many rounds. */
  method AnalyseAll(cores: seq<Core>, dir: Direction) returns (states: seq<Progress>, ghost rounds: nat)
    requires AllValid(cores)
    ensures rounds > 0 && AllAt(cores, dir, states, rounds)
    ensures forall i :: 0 <= i < |cores| ==> !Changed(dir, states[i])
  {
    states := seq(|cores|, i requires 0 <= i < |cores| => Start(cores[i], dir));
    rounds := 0;
    var anyWcetBoundChanged := true;
    while anyWcetBoundChanged
      invariant AllAt(cores, dir, states, rounds)
      invariant !anyWcetBoundChanged ==> rounds > 0 && forall i :: 0 <= i < |cores| ==> !Changed(dir, states[i])
      decreases TotalRoom(cores, dir, states), anyWcetBoundChanged
    {
      ghost var before := states;
      states, anyWcetBoundChanged := RoundOfAll(cores, dir, states, rounds);
      TotalRoomShrinks(cores, dir, before, states, rounds);
      rounds := rounds + 1;
    }
  }

  method RoundOfAll(cores: seq<Core>, dir: Direction, states: seq<Progress>, ghost n: nat)
    returns (next: seq<Progress>, anyChanged: bool)
    requires AllValid(cores)
    requires AllAt(cores, dir, states, n)
    ensures AllAt(cores, dir, next, n + 1)
    ensures anyChanged <==> exists i :: 0 <= i < |cores| && Changed(dir, next[i])
  {
    next, anyChanged := [], false;
    for i := 0 to |cores|
      invariant |next| == i && forall j :: 0 <= j < i ==> next[j] == Iterate(cores[j], dir, n + 1)
      invariant anyChanged <==> exists j :: 0 <= j < i && Changed(dir, next[j])
    {
      var s := Round(cores[i], dir, states[i], AccessCycleBounds(cores[i], states[i].wcet));
      next := next + [s];
      anyChanged := anyChanged || Changed(dir, s);
    }
  }
}
