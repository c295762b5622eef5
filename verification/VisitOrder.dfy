/** The order of visits that the program has: always the smallest node of the worklist, and its
    successors in ascending order. A node then waits until all smaller ones are done with, which
    they may never be, though visits to the node that waits would end it all. */
module VisitOrder {
  import opened Lru
  import opened CacheSets
  import opened AddressMapping
  import opened AbstractCache
  import opened Reports
  import opened GraphIterator
  import opened GraphTermination
  import W = Worklist
  import H = LatticeHeight

  predicate Smallest(work: set<nat>, n: nat) {
    n in work && forall u :: u in work ==> n <= u
  }

  ghost predicate SmallestFirst(its: seq<Iteration>, visits: seq<nat>) {
    |its| == |visits| + 1 && forall i :: 0 <= i < |visits| ==> Smallest(its[i].worklist, visits[i])
  }

  lemma {:induction false} SomeSmallest(work: set<nat>) returns (n: nat)
    requires work != {}
    ensures Smallest(work, n)
  {
    n :| n in work;
    var others := work - {n};
    if others == {} {
      assert work == {n};
    } else {
      var rest := SomeSmallest(others);
      var first := if rest < n then rest else n;
      forall u | u in work ensures first <= u {
        assert u == n || u in others;
      }
      n := first;
    }
  }

  // ---- nodes below a bound ------------------------------------------------------------

  function Under(work: set<nat>, m: nat): set<nat> {
    set u | u in work && u < m
  }

  ghost function StrictBelow(t: Traits, foreign: seq<Address>, g: Graph, s: States, m: nat): W.Edges
    requires StatesValid(t, g, s)
  {
    map u | u in g.succ && u < m :: set v | v in g.succ[u] && v < m && StrictEdge(t, foreign, g, s, u, v)
  }

  /** Visits to these nodes raise none of them. */
  ghost predicate SettledBelow(t: Traits, foreign: seq<Address>, g: Graph, s: States, m: nat)
    requires StatesValid(t, g, s)
  {
    forall u, v :: u in s && u < m && v in Successors(g, u) && v < m ==> Reached(t, foreign, g, s, u, v)
  }

  ghost predicate SameBelow(s: States, s': States, m: nat) {
    forall u: nat :: u < m ==> (u in s <==> u in s') && (u in s ==> s[u] == s'[u])
  }

  /** Settled nodes below `m` that queue each other for ever. */
  ghost predicate Trapped(t: Traits, foreign: seq<Address>, g: Graph, it: Iteration, m: nat)
    requires IterationValid(t, g, it)
  {
    && SettledBelow(t, foreign, g, it.states, m)
    && W.CycleAhead(StrictBelow(t, foreign, g, it.states, m), Under(it.worklist, m))
  }

  lemma StrictBelowSuccessors(t: Traits, foreign: seq<Address>, g: Graph, s: States, m: nat, u: nat)
    requires StatesValid(t, g, s) && u < m
    ensures forall v: nat :: v in W.Succ(StrictBelow(t, foreign, g, s, m), u)
                        <==> v < m && StrictEdge(t, foreign, g, s, u, v)
  {
  }

  lemma SameIsSettled(t: Traits, foreign: seq<Address>, g: Graph, s: States, s': States, m: nat)
    requires StatesValid(t, g, s) && StatesValid(t, g, s') && SameBelow(s, s', m)
    requires SettledBelow(t, foreign, g, s, m)
    ensures SettledBelow(t, foreign, g, s', m)
  {
    forall u, v | u in s' && u < m && v in Successors(g, u) && v < m ensures Reached(t, foreign, g, s', u, v) {
      assert Reached(t, foreign, g, s, u, v);
    }
  }

  lemma SameStrictBelow(t: Traits, foreign: seq<Address>, g: Graph, s: States, s': States, m: nat)
    requires StatesValid(t, g, s) && StatesValid(t, g, s') && SameBelow(s, s', m)
    ensures StrictBelow(t, foreign, g, s, m) == StrictBelow(t, foreign, g, s', m)
  {
    var e, e' := StrictBelow(t, foreign, g, s, m), StrictBelow(t, foreign, g, s', m);
    forall u | u in e ensures e[u] == e'[u] {
      forall v: nat | v < m ensures StrictEdge(t, foreign, g, s, u, v) <==> StrictEdge(t, foreign, g, s', u, v) {
      }
    }
  }

  lemma PassBelow(t: Traits, foreign: seq<Address>, g: Graph, it: Iteration, next: nat, n: nat, m: nat)
    requires IterationValid(t, g, it) && next in it.states && n in Successors(g, next) && next < m
    requires SettledBelow(t, foreign, g, it.states, m)
    ensures var r := Passed(t, foreign, g, it, next, n);
      && SameBelow(it.states, r.states, m)
      && Under(r.worklist, m) == Under(it.worklist, m)
           + if n < m && StrictEdge(t, foreign, g, it.states, next, n) then {n} else {}
  {
    var s, r := it.states, Passed(t, foreign, g, it, next, n);
    if n < m {
      assert Reached(t, foreign, g, s, next, n);
      if StrictEdge(t, foreign, g, s, next, n) {
        var cache := Effect(t, foreign, g, s, next, n);
        EdgeUpdateValid(t, foreign, s[next], Accesses(g, next, n));
        CacheJoinIsLub(t, s[n], cache, s[n]);
        CacheLeqIsOrder(t, s[n], s[n], s[n]);
        CacheLeqIsOrder(t, CacheJoin(s[n], cache), s[n], s[n]);
        assert Under(r.worklist, m) == Under(it.worklist, m) + {n};
      }
    } else {
      assert Under(r.worklist, m) == Under(it.worklist, m);
    }
  }

  ghost function StrictTargets(t: Traits, foreign: seq<Address>, g: Graph, s: States, u: nat, nodes: set<nat>,
                               m: nat): set<nat>
    requires StatesValid(t, g, s)
  {
    set v | v in nodes && v < m && StrictEdge(t, foreign, g, s, u, v)
  }

  lemma OneMoreTarget(t: Traits, foreign: seq<Address>, g: Graph, s: States, u: nat, nodes: set<nat>, n: nat, m: nat)
    requires StatesValid(t, g, s)
    ensures StrictTargets(t, foreign, g, s, u, nodes + {n}, m)
         == StrictTargets(t, foreign, g, s, u, nodes, m)
          + if n < m && StrictEdge(t, foreign, g, s, u, n) then {n} else {}
  {
  }

  lemma {:induction false} OrderBelow(t: Traits, foreign: seq<Address>, g: Graph, it: Iteration, next: nat,
                                      order: seq<nat>, m: nat)
    requires IterationValid(t, g, it) && next in it.states && Elements(order) <= Successors(g, next) && next < m
    requires SettledBelow(t, foreign, g, it.states, m)
    ensures var r := VisitedIn(t, foreign, g, it, next, order);
      && SameBelow(it.states, r.states, m)
      && Under(r.worklist, m)
         == Under(it.worklist, m) + StrictTargets(t, foreign, g, it.states, next, Elements(order), m)
    decreases |order|
  {
    if order != [] {
      var k := |order| - 1;
      var before, n := order[..k], order[k];
      assert n in Elements(order);
      assert Elements(order) == Elements(before) + {n};
      OrderBelow(t, foreign, g, it, next, before, m);
      var b := VisitedIn(t, foreign, g, it, next, before);
      SameIsSettled(t, foreign, g, it.states, b.states, m);
      PassBelow(t, foreign, g, b, next, n, m);
      assert n < m ==>
        (StrictEdge(t, foreign, g, it.states, next, n) <==> StrictEdge(t, foreign, g, b.states, next, n));
      OneMoreTarget(t, foreign, g, it.states, next, Elements(before), n, m);
    }
  }

  /** Among settled nodes, a visit exchanges its node for the targets of its strict edges. */
  lemma VisitBelow(t: Traits, foreign: seq<Address>, g: Graph, it: Iteration, next: nat, r: Iteration, m: nat)
    requires IsVisit(t, foreign, g, it, next, r) && next < m && SettledBelow(t, foreign, g, it.states, m)
    ensures IterationValid(t, g, r) && SettledBelow(t, foreign, g, r.states, m)
    ensures var e := StrictBelow(t, foreign, g, it.states, m);
      && StrictBelow(t, foreign, g, r.states, m) == e
      && Under(r.worklist, m) == (Under(it.worklist, m) - {next}) + W.Succ(e, next)
  {
    var begun := Iteration(it.states, it.worklist - {next});
    var order :| IsOrder(order, Successors(g, next)) && r == VisitedIn(t, foreign, g, begun, next, order);
    OrderBelow(t, foreign, g, begun, next, order, m);
    SameIsSettled(t, foreign, g, it.states, r.states, m);
    SameStrictBelow(t, foreign, g, it.states, r.states, m);
    var e := StrictBelow(t, foreign, g, it.states, m);
    StrictBelowSuccessors(t, foreign, g, it.states, m, next);
    var strict := StrictTargets(t, foreign, g, it.states, next, Elements(order), m);
    forall v ensures v in strict <==> v in W.Succ(e, next) {
    }
    assert strict == W.Succ(e, next);
    assert Under(begun.worklist, m) == Under(it.worklist, m) - {next};
  }

  // ---- traps hold -----------------------------------------------------------------------------

  lemma TrapHolds(t: Traits, foreign: seq<Address>, g: Graph, it: Iteration, next: nat, r: Iteration, m: nat)
    requires IsVisit(t, foreign, g, it, next, r) && Smallest(it.worklist, next)
    requires Trapped(t, foreign, g, it, m)
    ensures IterationValid(t, g, r) && Trapped(t, foreign, g, r, m)
  {
    var e := StrictBelow(t, foreign, g, it.states, m);
    var w, c :| w in Under(it.worklist, m) && (w == c || W.Leads(e, w, c)) && W.OnCycle(e, c);
    assert next <= w < m;
    VisitBelow(t, foreign, g, it, next, r, m);
    W.CycleStays(e, Under(it.worklist, m), next);
  }

  /** Once there is a trap, the worklist is never empty. */
  lemma {:induction false} TrapNeverEnds(t: Traits, foreign: seq<Address>, g: Graph, its: seq<Iteration>,
                                         visits: seq<nat>, k: nat, n: nat, m: nat)
    requires AreVisits(t, foreign, g, its, visits) && SmallestFirst(its, visits) && k <= n <= |visits|
    requires IterationValid(t, g, its[k]) && Trapped(t, foreign, g, its[k], m)
    ensures IterationValid(t, g, its[n]) && Trapped(t, foreign, g, its[n], m) && its[n].worklist != {}
    decreases n
  {
    if k < n {
      TrapNeverEnds(t, foreign, g, its, visits, k, n - 1, m);
      assert IsVisit(t, foreign, g, its[n - 1], visits[n - 1], its[n - 1 + 1]);
      assert Smallest(its[n - 1].worklist, visits[n - 1]);
      TrapHolds(t, foreign, g, its[n - 1], visits[n - 1], its[n], m);
    }
    TrapIsWork(t, foreign, g, its[n], m);
  }

  lemma TrapIsWork(t: Traits, foreign: seq<Address>, g: Graph, it: Iteration, m: nat)
    requires IterationValid(t, g, it) && Trapped(t, foreign, g, it, m)
    ensures it.worklist != {}
  {
    var u :| u in Under(it.worklist, m);
    assert u in it.worklist;
  }

  // ---- without a trap ----------------------------------------------------------------------------

  /** How far up the nodes are settled. */
  ghost function Level(t: Traits, foreign: seq<Address>, g: Graph, s: States, m: nat): (r: nat)
    requires StatesValid(t, g, s)
    ensures r <= m && SettledBelow(t, foreign, g, s, r)
    ensures forall k: nat :: k <= m && SettledBelow(t, foreign, g, s, k) ==> k <= r
  {
    if m == 0 || SettledBelow(t, foreign, g, s, m) then m else Level(t, foreign, g, s, m - 1)
  }

  /** A smallest node that raises nothing is settled with all before it. */
  lemma IdleVisitSettles(t: Traits, foreign: seq<Address>, g: Graph, its: seq<Iteration>, visits: seq<nat>, k: nat)
    requires IsIteration(t, foreign, g, its, visits) && SmallestFirst(its, visits) && k < |visits|
    requires IterationValid(t, g, its[k]) && its[k + 1].states == its[k].states
    ensures SettledBelow(t, foreign, g, its[k].states, visits[k] + 1)
  {
    var it, next := its[k], visits[k];
    assert IsVisit(t, foreign, g, its[k], visits[k], its[k + 1]) && Smallest(its[k].worklist, visits[k]);
    var begun := Iteration(it.states, it.worklist - {next});
    var order :| IsOrder(order, Successors(g, next)) && its[k + 1] == VisitedIn(t, foreign, g, begun, next, order);
    OrderRaises(t, foreign, g, begun, next, order);
    var last := IterationExplored(t, foreign, g, its, visits, k);
    forall u, v | u in it.states && u < next + 1 && v in Successors(g, u) && v < next + 1
      ensures Reached(t, foreign, g, it.states, u, v)
    {
      if u == next {
        assert v in Elements(order);
      } else {
        assert Visited(t, foreign, g, it.states, it.worklist, last, u, v);
      }
    }
  }

  ghost function Ahead(t: Traits, foreign: seq<Address>, g: Graph, it: Iteration, m: nat): nat
    requires IterationValid(t, g, it)
  {
    var k := Level(t, foreign, g, it.states, m);
    W.Total(StrictBelow(t, foreign, g, it.states, k), Under(it.worklist, k))
  }

  /** No trap among the nodes of a graph of `m` nodes. */
  ghost predicate Untrapped(t: Traits, foreign: seq<Address>, g: Graph, it: Iteration, m: nat)
    requires IterationValid(t, g, it)
  {
    forall j: nat :: j <= m ==> !Trapped(t, foreign, g, it, j)
  }

  /** Out of a trap, a visit that raises nothing lowers what lies ahead. */
  lemma IdleVisitLowers(t: Traits, foreign: seq<Address>, g: Graph, its: seq<Iteration>, visits: seq<nat>, k: nat,
                        m: nat)
    requires IsIteration(t, foreign, g, its, visits) && SmallestFirst(its, visits) && k < |visits| && visits[k] < m
    requires IterationValid(t, g, its[k]) && its[k + 1].states == its[k].states
    requires Untrapped(t, foreign, g, its[k], m)
    ensures IterationValid(t, g, its[k + 1]) && Ahead(t, foreign, g, its[k + 1], m) < Ahead(t, foreign, g, its[k], m)
  {
    IdleVisitSettles(t, foreign, g, its, visits, k);
    var s, next := its[k].states, visits[k];
    var j := Level(t, foreign, g, s, m);
    assert next < j;
    assert IsVisit(t, foreign, g, its[k], visits[k], its[k + 1]);
    VisitBelow(t, foreign, g, its[k], next, its[k + 1], j);
    assert !Trapped(t, foreign, g, its[k], j);
    W.VisitLowers(StrictBelow(t, foreign, g, s, j), Under(its[k].worklist, j), next, Under(its[k + 1].worklist, j));
  }

  lemma AheadBound(t: Traits, foreign: seq<Address>, g: Graph, it: Iteration, m: nat)
    requires IterationValid(t, g, it)
    ensures Ahead(t, foreign, g, it, m) <= W.MostWeight(m)
  {
    var k := Level(t, foreign, g, it.states, m);
    W.TotalBound(StrictBelow(t, foreign, g, it.states, k), Under(it.worklist, k), m);
  }

  /** Falls with every visit out of a trap: the states rise, or less lies ahead. */
  ghost function Measure(t: Traits, foreign: seq<Address>, g: Graph, it: Iteration, b: nat, m: nat): nat
    requires IterationValid(t, g, it)
  {
    W.Stacked(H.StatesHeight(t, it.states, b, m), W.MostWeight(m) + 1, Ahead(t, foreign, g, it, m))
  }

  lemma MeasureFalls(t: Traits, foreign: seq<Address>, g: Graph, it: Iteration, r: Iteration, b: nat, m: nat)
    requires IterationValid(t, g, it) && IterationValid(t, g, r)
    requires H.StatesHeight(t, r.states, b, m) < H.StatesHeight(t, it.states, b, m)
    ensures Measure(t, foreign, g, r, b, m) < Measure(t, foreign, g, it, b, m)
  {
    AheadBound(t, foreign, g, r, m);
    W.LowerStack(H.StatesHeight(t, it.states, b, m), H.StatesHeight(t, r.states, b, m), W.MostWeight(m) + 1,
                 Ahead(t, foreign, g, it, m), Ahead(t, foreign, g, r, m));
  }

  lemma {:induction false} NamedAlong(t: Traits, foreign: seq<Address>, g: Graph, its: seq<Iteration>,
                                      visits: seq<nat>, k: nat, b: nat, m: nat)
    requires AreVisits(t, foreign, g, its, visits) && k <= |visits| && H.StatesNamed(its[0].states, b, m)
    requires NodesBelow(g, m) && b >= ADDRESS_SPACE
    ensures IterationValid(t, g, its[k]) && H.StatesNamed(its[k].states, b, m)
  {
    if k > 0 {
      NamedAlong(t, foreign, g, its, visits, k - 1, b, m);
      assert IsVisit(t, foreign, g, its[k - 1], visits[k - 1], its[k - 1 + 1]);
      NamedVisit(t, foreign, g, its[k - 1], visits[k - 1], its[k], b, m);
    }
  }

  lemma NamedVisit(t: Traits, foreign: seq<Address>, g: Graph, it: Iteration, next: nat, r: Iteration, b: nat, m: nat)
    requires IsVisit(t, foreign, g, it, next, r) && H.StatesNamed(it.states, b, m)
    requires NodesBelow(g, m) && b >= ADDRESS_SPACE
    ensures IterationValid(t, g, r) && H.StatesNamed(r.states, b, m)
    ensures StatesLeq(t, it.states, r.states)
  {
    var begun := Iteration(it.states, it.worklist - {next});
    var order :| IsOrder(order, Successors(g, next)) && r == VisitedIn(t, foreign, g, begun, next, order);
    OrderRaises(t, foreign, g, begun, next, order);
    OrderNamed(t, foreign, g, begun, next, order, b, m);
  }

  ghost predicate MeasureFallsAt(t: Traits, foreign: seq<Address>, g: Graph, its: seq<Iteration>, k: nat, b: nat,
                                 m: nat)
    requires k + 1 < |its|
  {
    && IterationValid(t, g, its[k]) && IterationValid(t, g, its[k + 1])
    && Measure(t, foreign, g, its[k + 1], b, m) < Measure(t, foreign, g, its[k], b, m)
  }

  lemma OrderedVisit(t: Traits, foreign: seq<Address>, g: Graph, its: seq<Iteration>, visits: seq<nat>, k: nat,
                     b: nat, m: nat)
    requires IsIteration(t, foreign, g, its, visits) && SmallestFirst(its, visits) && k < |visits|
    requires IterationValid(t, g, its[k]) && H.StatesNamed(its[k].states, b, m)
    requires NodesBelow(g, m) && b >= ADDRESS_SPACE && Untrapped(t, foreign, g, its[k], m)
    ensures MeasureFallsAt(t, foreign, g, its, k, b, m)
  {
    var it, next, r := its[k], visits[k], its[k + 1];
    assert IsVisit(t, foreign, g, its[k], visits[k], its[k + 1]);
    NamedVisit(t, foreign, g, it, next, r, b, m);
    if r.states == it.states {
      assert next in it.states;
      IdleVisitLowers(t, foreign, g, its, visits, k, m);
      W.LessStacked(H.StatesHeight(t, it.states, b, m), W.MostWeight(m) + 1,
                    Ahead(t, foreign, g, it, m), Ahead(t, foreign, g, r, m));
    } else {
      H.RisingFalls(t, it.states, r.states, b, m);
      MeasureFalls(t, foreign, g, it, r, b, m);
    }
  }

  lemma {:induction false} FallsAlong(t: Traits, foreign: seq<Address>, g: Graph, its: seq<Iteration>, k: nat,
                                      b: nat, m: nat)
    requires k < |its| && IterationValid(t, g, its[0])
    requires forall i :: 0 <= i < k ==> MeasureFallsAt(t, foreign, g, its, i, b, m)
    ensures IterationValid(t, g, its[k])
    ensures Measure(t, foreign, g, its[k], b, m) + k <= Measure(t, foreign, g, its[0], b, m)
  {
    if k > 0 {
      FallsAlong(t, foreign, g, its, k - 1, b, m);
      assert MeasureFallsAt(t, foreign, g, its, k - 1, b, m);
    }
  }

  /** A run that takes the smallest node first and comes to no trap is short, whatever order the
      successors are taken in. */
  lemma TraplessIsShort(t: Traits, foreign: seq<Address>, g: Graph, its: seq<Iteration>, visits: seq<nat>, m: nat)
    requires IsIteration(t, foreign, g, its, visits) && SmallestFirst(its, visits) && NodesBelow(g, m)
    requires forall k :: 0 <= k < |visits| ==> IterationValid(t, g, its[k]) && Untrapped(t, foreign, g, its[k], m)
    ensures IterationValid(t, g, Started(t))
    ensures |visits| <= MostVisits(t, foreign, g, m)
  {
    IterationsAreVisits(t, foreign, g, its, visits);
    forall k | 0 <= k < |visits| ensures MeasureFallsAt(t, foreign, g, its, k, ADDRESS_SPACE, m) {
      NamedAlong(t, foreign, g, its, visits, k, ADDRESS_SPACE, m);
      OrderedVisit(t, foreign, g, its, visits, k, ADDRESS_SPACE, m);
    }
    FallsAlong(t, foreign, g, its, |visits|, ADDRESS_SPACE, m);
  }

  /** What is left to do at the start. */
  ghost function MostVisits(t: Traits, foreign: seq<Address>, g: Graph, m: nat): nat
    requires TraitsValid(t) && GraphValid(g)
  {
    StartedExplored(t, foreign, g);
    Measure(t, foreign, g, Started(t), ADDRESS_SPACE, m)
  }

  // ---- the run of the program --------------------------------------------------------------------

  lemma HasSmallest(work: set<nat>)
    requires work != {}
    ensures exists n: nat :: Smallest(work, n)
  {
    var n := SomeSmallest(work);
  }

  ghost function First(work: set<nat>): (n: nat)
    requires work != {}
    ensures Smallest(work, n)
  {
    HasSmallest(work);
    var n: nat :| Smallest(work, n);
    n
  }

  ghost function Ascending(nodes: set<nat>): (order: seq<nat>)
    ensures forall i :: 0 <= i < |order| ==> order[i] in nodes
    ensures forall i, j :: 0 <= i < j < |order| ==> order[i] < order[j]
    decreases |nodes|
  {
    if nodes == {} then []
    else
      var n := First(nodes);
      [n] + Ascending(nodes - {n})
  }

  lemma FirstElement(n: nat, rest: seq<nat>)
    ensures Elements([n] + rest) == Elements(rest) + {n}
  {
    assert forall i :: 0 <= i < |rest| ==> ([n] + rest)[i + 1] == rest[i];
    assert ([n] + rest)[0] == n;
  }

  lemma {:induction false} AscendingElements(nodes: set<nat>)
    ensures Elements(Ascending(nodes)) == nodes
    decreases |nodes|
  {
    if nodes != {} {
      var n := First(nodes);
      AscendingElements(nodes - {n});
      FirstElement(n, Ascending(nodes - {n}));
    }
  }

  lemma AscendingIsOrder(nodes: set<nat>)
    ensures IsOrder(Ascending(nodes), nodes)
  {
    AscendingElements(nodes);
  }

  /** The visit the program makes next, if any. */
  ghost function VisitNext(t: Traits, foreign: seq<Address>, g: Graph, it: Iteration): (r: Iteration)
    requires IterationValid(t, g, it)
    ensures IterationValid(t, g, r)
    ensures it.worklist != {} ==> IsVisit(t, foreign, g, it, First(it.worklist), r)
  {
    if it.worklist == {} then it
    else
      var n := First(it.worklist);
      AscendingIsOrder(Successors(g, n));
      VisitedIn(t, foreign, g, Iteration(it.states, it.worklist - {n}), n, Ascending(Successors(g, n)))
  }

  /** States and worklist of the program after `k` visits, or at the end. */
  ghost function RunAt(t: Traits, foreign: seq<Address>, g: Graph, k: nat): (r: Iteration)
    requires TraitsValid(t) && GraphValid(g)
    ensures IterationValid(t, g, r)
  {
    if k == 0 then
      StartedExplored(t, foreign, g);
      Started(t)
    else VisitNext(t, foreign, g, RunAt(t, foreign, g, k - 1))
  }

  lemma {:induction false} EndStays(t: Traits, foreign: seq<Address>, g: Graph, k: nat, n: nat)
    requires TraitsValid(t) && GraphValid(g) && k <= n && RunAt(t, foreign, g, k).worklist == {}
    ensures RunAt(t, foreign, g, n).worklist == {}
    decreases n
  {
    if k < n {
      EndStays(t, foreign, g, k, n - 1);
    }
  }

  lemma RunStep(t: Traits, foreign: seq<Address>, g: Graph, k: nat)
    requires TraitsValid(t) && GraphValid(g) && RunAt(t, foreign, g, k).worklist != {}
    ensures var it := RunAt(t, foreign, g, k);
      IsVisit(t, foreign, g, it, First(it.worklist), RunAt(t, foreign, g, k + 1))
  {
  }

  lemma RunStart(t: Traits, foreign: seq<Address>, g: Graph)
    requires TraitsValid(t) && GraphValid(g)
    ensures RunAt(t, foreign, g, 0) == Started(t)
  {
  }

  ghost function Iterations(t: Traits, foreign: seq<Address>, g: Graph, n: nat): (r: seq<Iteration>)
    requires TraitsValid(t) && GraphValid(g)
    ensures |r| == n + 1 && forall k :: 0 <= k <= n ==> r[k] == RunAt(t, foreign, g, k)
  {
    seq(n + 1, k requires 0 <= k < n + 1 => RunAt(t, foreign, g, k))
  }

  ghost predicate OnGoing(t: Traits, foreign: seq<Address>, g: Graph, n: nat)
    requires TraitsValid(t) && GraphValid(g)
  {
    forall k: nat :: k < n ==> RunAt(t, foreign, g, k).worklist != {}
  }

  ghost function Visits(t: Traits, foreign: seq<Address>, g: Graph, n: nat): (r: seq<nat>)
    requires TraitsValid(t) && GraphValid(g) && OnGoing(t, foreign, g, n)
    ensures |r| == n && forall k :: 0 <= k < n ==> r[k] == First(RunAt(t, foreign, g, k).worklist)
  {
    seq(n, k requires 0 <= k < n => First(RunAt(t, foreign, g, k).worklist))
  }

  /** The run as iterations and visits. */
  lemma RunIs(t: Traits, foreign: seq<Address>, g: Graph, n: nat)
    requires TraitsValid(t) && GraphValid(g) && OnGoing(t, foreign, g, n)
    ensures var its, visits := Iterations(t, foreign, g, n), Visits(t, foreign, g, n);
      IsIteration(t, foreign, g, its, visits) && SmallestFirst(its, visits)
  {
    var its, visits := Iterations(t, foreign, g, n), Visits(t, foreign, g, n);
    RunStart(t, foreign, g);
    forall i | 0 <= i < n ensures IsVisit(t, foreign, g, its[i], visits[i], its[i + 1]) {
      RunStep(t, foreign, g, i);
    }
  }

  lemma TrapIsForEver(t: Traits, foreign: seq<Address>, g: Graph, k: nat, n: nat, m: nat)
    requires TraitsValid(t) && GraphValid(g) && Trapped(t, foreign, g, RunAt(t, foreign, g, k), m)
    ensures RunAt(t, foreign, g, n).worklist != {}
    decreases n
  {
    if n <= k {
      if RunAt(t, foreign, g, n).worklist == {} {
        EndStays(t, foreign, g, n, k);
        TrapIsWork(t, foreign, g, RunAt(t, foreign, g, k), m);
      }
    } else {
      forall i: nat | i < n ensures RunAt(t, foreign, g, i).worklist != {} {
        TrapIsForEver(t, foreign, g, k, i, m);
      }
      RunIs(t, foreign, g, n);
      var its, visits := Iterations(t, foreign, g, n), Visits(t, foreign, g, n);
      IterationsAreVisits(t, foreign, g, its, visits);
      TrapNeverEnds(t, foreign, g, its, visits, k, n, m);
    }
  }

  /** The worklist is empty at last. */
  ghost predicate ComesToEnd(t: Traits, foreign: seq<Address>, g: Graph)
    requires TraitsValid(t) && GraphValid(g)
  {
    exists n: nat :: RunAt(t, foreign, g, n).worklist == {}
  }

  /** No trap is met within `n` visits. */
  ghost predicate UntrappedUpTo(t: Traits, foreign: seq<Address>, g: Graph, n: nat, m: nat)
    requires TraitsValid(t) && GraphValid(g)
  {
    forall k: nat :: k <= n ==> Untrapped(t, foreign, g, RunAt(t, foreign, g, k), m)
  }

  lemma EndsUntrapped(t: Traits, foreign: seq<Address>, g: Graph, n: nat, k: nat, m: nat)
    requires TraitsValid(t) && GraphValid(g) && RunAt(t, foreign, g, n).worklist == {}
    ensures Untrapped(t, foreign, g, RunAt(t, foreign, g, k), m)
  {
    forall j: nat ensures !Trapped(t, foreign, g, RunAt(t, foreign, g, k), j) {
      if Trapped(t, foreign, g, RunAt(t, foreign, g, k), j) {
        TrapIsForEver(t, foreign, g, k, n, j);
      }
    }
  }

  lemma TraplessEnds(t: Traits, foreign: seq<Address>, g: Graph, m: nat)
    requires TraitsValid(t) && GraphValid(g) && NodesBelow(g, m)
    requires UntrappedUpTo(t, foreign, g, MostVisits(t, foreign, g, m), m)
    ensures ComesToEnd(t, foreign, g)
  {
    var n := MostVisits(t, foreign, g, m) + 1;
    if !ComesToEnd(t, foreign, g) {
      assert OnGoing(t, foreign, g, n);
      RunIs(t, foreign, g, n);
      TraplessIsShort(t, foreign, g, Iterations(t, foreign, g, n), Visits(t, foreign, g, n), m);
    }
  }

  lemma EndIsTrapless(t: Traits, foreign: seq<Address>, g: Graph, n: nat, m: nat)
    requires TraitsValid(t) && GraphValid(g) && ComesToEnd(t, foreign, g)
    ensures UntrappedUpTo(t, foreign, g, n, m)
  {
    var end: nat :| RunAt(t, foreign, g, end).worklist == {};
    forall k: nat ensures Untrapped(t, foreign, g, RunAt(t, foreign, g, k), m) {
      EndsUntrapped(t, foreign, g, end, k, m);
    }
  }

  /** For every cache and every graph whose nodes are below `m`: the program comes to the end
      exactly if it meets no trap, and only so many visits have to be watched to know. */
  lemma ProgramEndsIff(t: Traits, foreign: seq<Address>, g: Graph, m: nat)
    requires TraitsValid(t) && GraphValid(g) && NodesBelow(g, m)
    ensures ComesToEnd(t, foreign, g) <==> UntrappedUpTo(t, foreign, g, MostVisits(t, foreign, g, m), m)
  {
    if ComesToEnd(t, foreign, g) {
      EndIsTrapless(t, foreign, g, MostVisits(t, foreign, g, m), m);
    } else if UntrappedUpTo(t, foreign, g, MostVisits(t, foreign, g, m), m) {
      TraplessEnds(t, foreign, g, m);
    }
  }
}
