/** When the worklist iteration comes to its end. What a run that ends finds is always the
    least post-fixpoint, and some run ends exactly if that has no cycle of strict edges: edges
    that contribute less than the state of their target. */
module GraphTermination {
  import opened Lru
  import AgeMaps
  import opened CacheSets
  import opened AddressMapping
  import opened AbstractCache
  import opened Reports
  import opened GraphIterator
  import W = Worklist
  import H = LatticeHeight

  /** Visits from any point of an iteration on. */
  ghost predicate AreVisits(t: Traits, foreign: seq<Address>, g: Graph, its: seq<Iteration>, visits: seq<nat>) {
    && |its| == |visits| + 1 && IterationValid(t, g, its[0])
    && forall i :: 0 <= i < |visits| ==> IsVisit(t, foreign, g, its[i], visits[i], its[i + 1])
  }

  lemma IterationsAreVisits(t: Traits, foreign: seq<Address>, g: Graph, its: seq<Iteration>, visits: seq<nat>)
    requires TraitsValid(t) && GraphValid(g)
    ensures IsIteration(t, foreign, g, its, visits) <==> AreVisits(t, foreign, g, its, visits) && its[0] == Started(t)
  {
    StartedExplored(t, foreign, g);
  }

  lemma VisitIsValid(t: Traits, foreign: seq<Address>, g: Graph, it: Iteration, next: nat, r: Iteration)
    requires IsVisit(t, foreign, g, it, next, r)
    ensures IterationValid(t, g, r)
  {
    var order :| IsOrder(order, Successors(g, next))
      && r == VisitedIn(t, foreign, g, Iteration(it.states, it.worklist - {next}), next, order);
  }

  /** Every set of successors has an order. */
  lemma {:induction false} SomeOrder(nodes: set<nat>) returns (order: seq<nat>)
    ensures IsOrder(order, nodes)
  {
    order := [];
    if nodes != {} {
      var n :| n in nodes;
      var rest := SomeOrder(nodes - {n});
      order := [n] + rest;
      assert n !in Elements(rest);
      assert forall i :: 0 <= i < |rest| ==> rest[i] in Elements(rest);
      assert Elements(order) == Elements(rest) + {n};
    }
  }

  lemma SomeVisit(t: Traits, foreign: seq<Address>, g: Graph, it: Iteration, next: nat) returns (r: Iteration)
    requires IterationValid(t, g, it) && next in it.worklist
    ensures IsVisit(t, foreign, g, it, next, r)
  {
    var order := SomeOrder(Successors(g, next));
    r := VisitedIn(t, foreign, g, Iteration(it.states, it.worklist - {next}), next, order);
  }

  lemma OneVisit(t: Traits, foreign: seq<Address>, g: Graph, it: Iteration, next: nat, r: Iteration,
                 its: seq<Iteration>, visits: seq<nat>)
    requires IsVisit(t, foreign, g, it, next, r)
    requires AreVisits(t, foreign, g, its, visits) && its[0] == r
    ensures AreVisits(t, foreign, g, [it] + its, [next] + visits)
  {
    var its', visits' := [it] + its, [next] + visits;
    forall i | 0 <= i < |visits'| ensures IsVisit(t, foreign, g, its'[i], visits'[i], its'[i + 1]) {
      if i > 0 {
        assert IsVisit(t, foreign, g, its[i - 1], visits[i - 1], its[i - 1 + 1]);
      }
    }
  }

  lemma LaterVisit(its: seq<Iteration>, its': seq<Iteration>, k: nat)
    requires |its| > 0 && k < |its'| && its[|its| - 1] == its'[0]
    ensures (its + its'[1..])[|its| - 1 + k] == its'[k]
  {
  }

  lemma MoreVisits(t: Traits, foreign: seq<Address>, g: Graph, its: seq<Iteration>, visits: seq<nat>,
                   its': seq<Iteration>, visits': seq<nat>)
    requires AreVisits(t, foreign, g, its, visits) && AreVisits(t, foreign, g, its', visits')
    requires its[|visits|] == its'[0]
    ensures AreVisits(t, foreign, g, its + its'[1..], visits + visits')
    ensures (its + its'[1..])[|visits + visits'|] == its'[|visits'|]
  {
    var js, vs := its + its'[1..], visits + visits';
    forall i | 0 <= i < |vs| ensures IsVisit(t, foreign, g, js[i], vs[i], js[i + 1]) {
      if i < |visits| {
        assert IsVisit(t, foreign, g, its[i], visits[i], its[i + 1]);
      } else {
        var k := i - |visits|;
        LaterVisit(its, its', k);
        LaterVisit(its, its', k + 1);
        assert IsVisit(t, foreign, g, its'[k], visits'[k], its'[k + 1]);
      }
    }
    LaterVisit(its, its', |visits'|);
  }

  /** No run from here makes more visits. */
  ghost predicate Bounded(t: Traits, foreign: seq<Address>, g: Graph, it: Iteration, bound: nat) {
    forall its, visits :: AreVisits(t, foreign, g, its, visits) && its[0] == it ==> |visits| <= bound
  }

  /** No run from here empties the worklist. */
  ghost predicate NeverEnds(t: Traits, foreign: seq<Address>, g: Graph, it: Iteration) {
    forall its: seq<Iteration>, visits: seq<nat> ::
      AreVisits(t, foreign, g, its, visits) && its[0] == it ==> its[|visits|].worklist != {}
  }

  // ---- from stable states ------------------------------------------------------------

  /** The edges that contribute less than the state of their target. */
  ghost function StrictEdges(t: Traits, foreign: seq<Address>, g: Graph, s: States): W.Edges
    requires StatesValid(t, g, s)
  {
    map u | u in g.succ :: set v | v in g.succ[u] && StrictEdge(t, foreign, g, s, u, v)
  }

  lemma StrictSuccessors(t: Traits, foreign: seq<Address>, g: Graph, s: States, u: nat)
    requires StatesValid(t, g, s)
    ensures forall v :: v in W.Succ(StrictEdges(t, foreign, g, s), u) <==> StrictEdge(t, foreign, g, s, u, v)
  {
  }

  /** In a post-fixpoint, passing a state on raises nothing; it queues the target of a strict
      edge. */
  lemma StablePass(t: Traits, foreign: seq<Address>, g: Graph, it: Iteration, next: nat, n: nat)
    requires IterationValid(t, g, it) && next in it.states && n in Successors(g, next)
    requires PostFixpoint(t, foreign, g, it.states)
    ensures Passed(t, foreign, g, it, next, n)
         == Iteration(it.states, it.worklist + if StrictEdge(t, foreign, g, it.states, next, n) then {n} else {})
  {
    var s := it.states;
    assert Reached(t, foreign, g, s, next, n);
    if StrictEdge(t, foreign, g, s, next, n) {
      var cache := Effect(t, foreign, g, s, next, n);
      EdgeUpdateValid(t, foreign, s[next], Accesses(g, next, n));
      CacheJoinIsLub(t, s[n], cache, s[n]);
      CacheLeqIsOrder(t, s[n], s[n], s[n]);
      CacheLeqIsOrder(t, CacheJoin(s[n], cache), s[n], s[n]);
      assert s[n := s[n]] == s;
    }
  }

  lemma {:induction false} StableOrder(t: Traits, foreign: seq<Address>, g: Graph, it: Iteration, next: nat,
                                       order: seq<nat>)
    requires IterationValid(t, g, it) && next in it.states && Elements(order) <= Successors(g, next)
    requires PostFixpoint(t, foreign, g, it.states)
    ensures VisitedIn(t, foreign, g, it, next, order)
         == Iteration(it.states,
                      it.worklist + set v | v in Elements(order) && StrictEdge(t, foreign, g, it.states, next, v))
    decreases |order|
  {
    if order != [] {
      var k := |order| - 1;
      var before := order[..k];
      assert order[k] in Elements(order);
      assert Elements(order) == Elements(before) + {order[k]};
      StableOrder(t, foreign, g, it, next, before);
      StablePass(t, foreign, g, VisitedIn(t, foreign, g, it, next, before), next, order[k]);
    }
  }

  /** From a post-fixpoint, a visit exchanges its node for the targets of its strict edges. */
  lemma StableVisit(t: Traits, foreign: seq<Address>, g: Graph, it: Iteration, next: nat, r: Iteration)
    requires IsVisit(t, foreign, g, it, next, r) && PostFixpoint(t, foreign, g, it.states)
    ensures r == Iteration(it.states, (it.worklist - {next}) + W.Succ(StrictEdges(t, foreign, g, it.states), next))
  {
    var order :| IsOrder(order, Successors(g, next))
      && r == VisitedIn(t, foreign, g, Iteration(it.states, it.worklist - {next}), next, order);
    StableOrder(t, foreign, g, Iteration(it.states, it.worklist - {next}), next, order);
    StrictSuccessors(t, foreign, g, it.states, next);
    var strict := set v | v in Elements(order) && StrictEdge(t, foreign, g, it.states, next, v);
    forall v ensures v in strict <==> v in W.Succ(StrictEdges(t, foreign, g, it.states), next) {
    }
    assert strict == W.Succ(StrictEdges(t, foreign, g, it.states), next);
  }

  /** Along a run from a post-fixpoint the states stand still; the total weight falls if no
      cycle lies ahead, and a cycle ahead stays there. */
  lemma {:induction false} StableRun(t: Traits, foreign: seq<Address>, g: Graph, its: seq<Iteration>,
                                     visits: seq<nat>, k: nat)
    requires AreVisits(t, foreign, g, its, visits) && k <= |visits| && PostFixpoint(t, foreign, g, its[0].states)
    ensures its[k].states == its[0].states && IterationValid(t, g, its[k])
    ensures var e := StrictEdges(t, foreign, g, its[0].states);
      && (W.CycleAhead(e, its[0].worklist) <==> W.CycleAhead(e, its[k].worklist))
      && (!W.CycleAhead(e, its[0].worklist) ==> W.Total(e, its[k].worklist) + k <= W.Total(e, its[0].worklist))
  {
    if k > 0 {
      StableRun(t, foreign, g, its, visits, k - 1);
      assert IsVisit(t, foreign, g, its[k - 1], visits[k - 1], its[k - 1 + 1]);
      VisitIsValid(t, foreign, g, its[k - 1], visits[k - 1], its[k]);
      StableVisit(t, foreign, g, its[k - 1], visits[k - 1], its[k]);
      var e := StrictEdges(t, foreign, g, its[0].states);
      if W.CycleAhead(e, its[k - 1].worklist) {
        W.CycleStays(e, its[k - 1].worklist, visits[k - 1]);
      } else {
        if W.CycleAhead(e, its[k].worklist) {
          W.CycleLayAhead(e, its[k - 1].worklist, visits[k - 1], its[k].worklist);
        }
        W.VisitLowers(e, its[k - 1].worklist, visits[k - 1], its[k].worklist);
      }
    }
  }

  /** With a cycle of strict edges ahead, runs are as long as one likes. */
  lemma {:induction false} StableRunsOn(t: Traits, foreign: seq<Address>, g: Graph, it: Iteration, k: nat)
    returns (its: seq<Iteration>, visits: seq<nat>)
    requires IterationValid(t, g, it) && PostFixpoint(t, foreign, g, it.states)
    requires W.CycleAhead(StrictEdges(t, foreign, g, it.states), it.worklist)
    ensures AreVisits(t, foreign, g, its, visits) && its[0] == it && |visits| == k
    decreases k
  {
    if k == 0 {
      its, visits := [it], [];
    } else {
      var next :| next in it.worklist;
      var r := SomeVisit(t, foreign, g, it, next);
      VisitIsValid(t, foreign, g, it, next, r);
      StableVisit(t, foreign, g, it, next, r);
      W.CycleStays(StrictEdges(t, foreign, g, it.states), it.worklist, next);
      its, visits := StableRunsOn(t, foreign, g, r, k - 1);
      OneVisit(t, foreign, g, it, next, r, its, visits);
      its, visits := [it] + its, [next] + visits;
    }
  }

  /** From a post-fixpoint on, the runs are bounded, whatever order the nodes are taken in,
      exactly if no cycle of strict edges lies ahead of the worklist. If one does, no run
      ends. */
  lemma StableEndsIff(t: Traits, foreign: seq<Address>, g: Graph, it: Iteration)
    requires IterationValid(t, g, it) && PostFixpoint(t, foreign, g, it.states)
    ensures (exists bound :: Bounded(t, foreign, g, it, bound))
       <==> !W.CycleAhead(StrictEdges(t, foreign, g, it.states), it.worklist)
    ensures W.CycleAhead(StrictEdges(t, foreign, g, it.states), it.worklist) ==>
      NeverEnds(t, foreign, g, it)
  {
    var e := StrictEdges(t, foreign, g, it.states);
    if !W.CycleAhead(e, it.worklist) {
      forall its, visits | AreVisits(t, foreign, g, its, visits) && its[0] == it
        ensures |visits| <= W.Total(e, it.worklist)
      {
        StableRun(t, foreign, g, its, visits, |visits|);
      }
      assert Bounded(t, foreign, g, it, W.Total(e, it.worklist));
    } else {
      forall bound: nat ensures !Bounded(t, foreign, g, it, bound) {
        var its, visits := StableRunsOn(t, foreign, g, it, bound + 1);
      }
      forall its: seq<Iteration>, visits: seq<nat> | AreVisits(t, foreign, g, its, visits) && its[0] == it
        ensures its[|visits|].worklist != {}
      {
        StableRun(t, foreign, g, its, visits, |visits|);
      }
    }
  }

  /** With no cycle ahead, a run ends. */
  lemma {:induction false} StableRunEnds(t: Traits, foreign: seq<Address>, g: Graph, it: Iteration)
    returns (its: seq<Iteration>, visits: seq<nat>)
    requires IterationValid(t, g, it) && PostFixpoint(t, foreign, g, it.states)
    requires !W.CycleAhead(StrictEdges(t, foreign, g, it.states), it.worklist)
    ensures AreVisits(t, foreign, g, its, visits) && its[0] == it && its[|visits|].worklist == {}
    decreases W.Total(StrictEdges(t, foreign, g, it.states), it.worklist)
  {
    if it.worklist == {} {
      its, visits := [it], [];
    } else {
      var e := StrictEdges(t, foreign, g, it.states);
      var next :| next in it.worklist;
      var r := SomeVisit(t, foreign, g, it, next);
      VisitIsValid(t, foreign, g, it, next, r);
      StableVisit(t, foreign, g, it, next, r);
      W.VisitLowers(e, it.worklist, next, r.worklist);
      if W.CycleAhead(e, r.worklist) {
        W.CycleLayAhead(e, it.worklist, next, r.worklist);
      }
      its, visits := StableRunEnds(t, foreign, g, r);
      OneVisit(t, foreign, g, it, next, r, its, visits);
      its, visits := [it] + its, [next] + visits;
    }
  }

  // ---- the least post-fixpoint ------------------------------------------------------------------

  ghost predicate StatesLeq(t: Traits, s: States, s': States) {
    forall u :: u in s ==> u in s' && CacheLeq(t, s[u], s'[u])
  }

  ghost predicate IsFixpoint(t: Traits, foreign: seq<Address>, g: Graph, s: States) {
    StatesValid(t, g, s) && PostFixpoint(t, foreign, g, s)
  }

  ghost predicate IsLeast(t: Traits, foreign: seq<Address>, g: Graph, s: States) {
    && IsFixpoint(t, foreign, g, s)
    && forall s' :: IsFixpoint(t, foreign, g, s') ==> StatesLeq(t, s, s')
  }

  lemma {:induction false} EdgeUpdateMonotone(t: Traits, foreign: seq<Address>, x: seq<CacheSet>, y: seq<CacheSet>,
                                              w: seq<Interval>)
    requires TraitsValid(t) && CacheValid(t, x) && CacheValid(t, y) && CacheLeq(t, x, y) && IntervalsValid(w)
    ensures CacheLeq(t, EdgeUpdate(t, foreign, x, w), EdgeUpdate(t, foreign, y, w))
    decreases |w|
  {
    if w != [] {
      var k := |w| - 1;
      EdgeUpdateMonotone(t, foreign, x, y, w[..k]);
      EdgeUpdateValid(t, foreign, x, w[..k]);
      EdgeUpdateValid(t, foreign, y, w[..k]);
      CacheUpdateMonotone(t, foreign, EdgeUpdate(t, foreign, x, w[..k]), EdgeUpdate(t, foreign, y, w[..k]),
                          w[k].lo, w[k].hi, Unknown);
    }
  }

  /** No state the iteration finds exceeds a post-fixpoint. */
  lemma PassStaysBelow(t: Traits, foreign: seq<Address>, g: Graph, it: Iteration, next: nat, n: nat, s: States)
    requires IterationValid(t, g, it) && next in it.states && n in Successors(g, next)
    requires IsFixpoint(t, foreign, g, s) && StatesLeq(t, it.states, s)
    ensures StatesLeq(t, Passed(t, foreign, g, it, next, n).states, s)
  {
    if n != 0 {
      var x := it.states;
      var cache := Effect(t, foreign, g, x, next, n);
      EdgeUpdateValid(t, foreign, x[next], Accesses(g, next, n));
      EdgeUpdateValid(t, foreign, s[next], Accesses(g, next, n));
      EdgeUpdateMonotone(t, foreign, x[next], s[next], Accesses(g, next, n));
      assert Reached(t, foreign, g, s, next, n);
      CacheLeqIsOrder(t, cache, Effect(t, foreign, g, s, next, n), s[n]);
      if n in x {
        CacheJoinIsLub(t, x[n], cache, s[n]);
      }
    }
  }

  lemma {:induction false} OrderStaysBelow(t: Traits, foreign: seq<Address>, g: Graph, it: Iteration, next: nat,
                                           order: seq<nat>, s: States)
    requires IterationValid(t, g, it) && next in it.states && Elements(order) <= Successors(g, next)
    requires IsFixpoint(t, foreign, g, s) && StatesLeq(t, it.states, s)
    ensures StatesLeq(t, VisitedIn(t, foreign, g, it, next, order).states, s)
    decreases |order|
  {
    if order != [] {
      var k := |order| - 1;
      assert order[k] in Elements(order);
      assert Elements(order[..k]) <= Elements(order);
      OrderStaysBelow(t, foreign, g, it, next, order[..k], s);
      PassStaysBelow(t, foreign, g, VisitedIn(t, foreign, g, it, next, order[..k]), next, order[k], s);
    }
  }

  lemma {:induction false} IterationStaysBelow(t: Traits, foreign: seq<Address>, g: Graph, its: seq<Iteration>,
                                               visits: seq<nat>, k: nat, s: States)
    requires IsIteration(t, foreign, g, its, visits) && k <= |visits| && IsFixpoint(t, foreign, g, s)
    ensures StatesLeq(t, its[k].states, s)
  {
    if k == 0 {
      CacheLeqIsOrder(t, s[0], s[0], s[0]);
    } else {
      IterationStaysBelow(t, foreign, g, its, visits, k - 1, s);
      var it, next, r := its[k - 1], visits[k - 1], its[k];
      assert IsVisit(t, foreign, g, its[k - 1], visits[k - 1], its[k - 1 + 1]);
      var order :| IsOrder(order, Successors(g, next))
        && r == VisitedIn(t, foreign, g, Iteration(it.states, it.worklist - {next}), next, order);
      OrderStaysBelow(t, foreign, g, Iteration(it.states, it.worklist - {next}), next, order, s);
    }
  }

  /** States of an iteration that are a post-fixpoint are the least one; so every run that ends,
      in whatever order it takes the nodes, finds the same states. */
  lemma FoundIsLeast(t: Traits, foreign: seq<Address>, g: Graph, its: seq<Iteration>, visits: seq<nat>)
    requires IsIteration(t, foreign, g, its, visits)
    requires its[|visits|].worklist == {} || IsFixpoint(t, foreign, g, its[|visits|].states)
    ensures IsLeast(t, foreign, g, its[|visits|].states)
  {
    if its[|visits|].worklist == {} {
      var rank := CompletedIsExit(t, foreign, g, its, visits);
    }
    forall s | IsFixpoint(t, foreign, g, s) ensures StatesLeq(t, its[|visits|].states, s) {
      IterationStaysBelow(t, foreign, g, its, visits, |visits|, s);
    }
  }

  lemma StatesAntisymmetric(t: Traits, g: Graph, s: States, s': States)
    requires StatesValid(t, g, s) && StatesValid(t, g, s') && StatesLeq(t, s, s') && StatesLeq(t, s', s)
    ensures s == s'
  {
    forall u | u in s ensures u in s' && s[u] == s'[u] {
      CacheLeqIsOrder(t, s[u], s'[u], s[u]);
    }
  }

  lemma LeastIsUnique(t: Traits, foreign: seq<Address>, g: Graph, s: States, s': States)
    requires IsLeast(t, foreign, g, s) && IsLeast(t, foreign, g, s')
    ensures s == s'
  {
    StatesAntisymmetric(t, g, s, s');
  }

  // ---- every graph has one, and visits reach it --------------------------------------------------

  lemma PassRaises(t: Traits, foreign: seq<Address>, g: Graph, it: Iteration, next: nat, n: nat)
    requires IterationValid(t, g, it) && next in it.states && n in Successors(g, next)
    ensures var r := Passed(t, foreign, g, it, next, n);
      StatesLeq(t, it.states, r.states) && (r.states == it.states ==> Reached(t, foreign, g, it.states, next, n))
  {
    var s := it.states;
    forall u | u in s ensures CacheLeq(t, s[u], s[u]) {
      CacheLeqIsOrder(t, s[u], s[u], s[u]);
    }
    if n in s {
      var cache := Effect(t, foreign, g, s, next, n);
      EdgeUpdateValid(t, foreign, s[next], Accesses(g, next, n));
      CacheLeqIsOrder(t, cache, cache, cache);
      CacheJoinIsLub(t, s[n], cache, cache);
      var s' := Passed(t, foreign, g, it, next, n).states;
      assert s' == s && n != 0 && cache != s[n] ==> s[n := CacheJoin(s[n], cache)][n] == s[n];
    } else {
      assert n != 0 ==> n in Passed(t, foreign, g, it, next, n).states;
    }
  }

  /** A visit raises states, or each edge of its node has reached its target. */
  lemma {:induction false} OrderRaises(t: Traits, foreign: seq<Address>, g: Graph, it: Iteration, next: nat,
                                       order: seq<nat>)
    requires IterationValid(t, g, it) && next in it.states && Elements(order) <= Successors(g, next)
    ensures var r := VisitedIn(t, foreign, g, it, next, order);
      && StatesLeq(t, it.states, r.states)
      && (r.states == it.states ==> forall n :: n in Elements(order) ==> Reached(t, foreign, g, it.states, next, n))
    decreases |order|
  {
    if order == [] {
      forall u | u in it.states ensures CacheLeq(t, it.states[u], it.states[u]) {
        CacheLeqIsOrder(t, it.states[u], it.states[u], it.states[u]);
      }
    } else {
      var k := |order| - 1;
      var before := order[..k];
      assert order[k] in Elements(order);
      assert Elements(order) == Elements(before) + {order[k]};
      OrderRaises(t, foreign, g, it, next, before);
      var b := VisitedIn(t, foreign, g, it, next, before);
      var r := VisitedIn(t, foreign, g, it, next, order);
      PassRaises(t, foreign, g, b, next, order[k]);
      StatesTransitive(t, g, it.states, b.states, r.states);
      if r.states == it.states {
        StatesAntisymmetric(t, g, it.states, b.states);
      }
    }
  }

  lemma StatesTransitive(t: Traits, g: Graph, x: States, y: States, z: States)
    requires StatesValid(t, g, x) && StatesValid(t, g, y) && StatesValid(t, g, z)
    requires StatesLeq(t, x, y) && StatesLeq(t, y, z)
    ensures StatesLeq(t, x, z)
  {
    forall u | u in x ensures u in z && CacheLeq(t, x[u], z[u]) {
      CacheLeqIsOrder(t, x[u], y[u], z[u]);
    }
  }

  /** All nodes of the graph are below `m`. */
  ghost predicate NodesBelow(g: Graph, m: nat) {
    m > 0 && forall u: nat, v: nat :: v in Successors(g, u) ==> v < m
  }

  lemma {:induction false} AboveAll(nodes: set<nat>) returns (m: nat)
    ensures m > 0 && forall v :: v in nodes ==> v < m
  {
    m := 1;
    if nodes != {} {
      var v :| v in nodes;
      var rest := AboveAll(nodes - {v});
      m := if v < rest then rest else v + 1;
      forall u | u in nodes ensures u < m {
        assert u == v || u in nodes - {v};
      }
    }
  }

  lemma SomeBound(g: Graph) returns (m: nat)
    ensures NodesBelow(g, m)
  {
    m := AboveAll(W.Nodes(g.succ));
    forall u: nat, v: nat | v in Successors(g, u) ensures v < m {
      assert v in W.Succ(g.succ, u);
      assert v in W.Nodes(g.succ);
    }
  }

  lemma {:induction false} EdgeUpdateNamed(t: Traits, foreign: seq<Address>, cs: seq<CacheSet>, w: seq<Interval>,
                                           n: nat)
    requires TraitsValid(t) && CacheValid(t, cs) && H.CacheNamed(cs, n) && IntervalsValid(w) && n >= ADDRESS_SPACE
    ensures H.CacheNamed(EdgeUpdate(t, foreign, cs, w), n)
    decreases |w|
  {
    if w != [] {
      var k := |w| - 1;
      EdgeUpdateNamed(t, foreign, cs, w[..k], n);
      EdgeUpdateValid(t, foreign, cs, w[..k]);
      H.UpdateNamed(t, foreign, EdgeUpdate(t, foreign, cs, w[..k]), w[k].lo, w[k].hi, Unknown, n);
    }
  }

  lemma PassNamed(t: Traits, foreign: seq<Address>, g: Graph, it: Iteration, next: nat, n: nat, b: nat, m: nat)
    requires IterationValid(t, g, it) && next in it.states && n in Successors(g, next)
    requires NodesBelow(g, m) && b >= ADDRESS_SPACE && H.StatesNamed(it.states, b, m)
    ensures H.StatesNamed(Passed(t, foreign, g, it, next, n).states, b, m)
  {
    var cache := Effect(t, foreign, g, it.states, next, n);
    EdgeUpdateNamed(t, foreign, it.states[next], Accesses(g, next, n), b);
    if n in it.states {
      H.JoinNamed(it.states[n], cache, b);
    }
  }

  lemma {:induction false} OrderNamed(t: Traits, foreign: seq<Address>, g: Graph, it: Iteration, next: nat,
                                      order: seq<nat>, b: nat, m: nat)
    requires IterationValid(t, g, it) && next in it.states && Elements(order) <= Successors(g, next)
    requires NodesBelow(g, m) && b >= ADDRESS_SPACE && H.StatesNamed(it.states, b, m)
    ensures H.StatesNamed(VisitedIn(t, foreign, g, it, next, order).states, b, m)
    decreases |order|
  {
    if order != [] {
      var k := |order| - 1;
      assert order[k] in Elements(order);
      assert Elements(order[..k]) <= Elements(order);
      OrderNamed(t, foreign, g, it, next, order[..k], b, m);
      PassNamed(t, foreign, g, VisitedIn(t, foreign, g, it, next, order[..k]), next, order[k], b, m);
    }
  }

  /** A visit to a node with an edge that has not reached its target raises states, so that
      they lose height. */
  lemma RaisingVisit(t: Traits, foreign: seq<Address>, g: Graph, it: Iteration, next: nat, v: nat, b: nat, m: nat)
    returns (r: Iteration)
    requires IterationValid(t, g, it) && next in it.worklist && v in Successors(g, next)
    requires !Reached(t, foreign, g, it.states, next, v)
    requires NodesBelow(g, m) && b >= ADDRESS_SPACE && H.StatesNamed(it.states, b, m)
    ensures IsVisit(t, foreign, g, it, next, r) && IterationValid(t, g, r) && H.StatesNamed(r.states, b, m)
    ensures H.StatesHeight(t, r.states, b, m) < H.StatesHeight(t, it.states, b, m)
  {
    var order := SomeOrder(Successors(g, next));
    var begun := Iteration(it.states, it.worklist - {next});
    r := VisitedIn(t, foreign, g, begun, next, order);
    OrderRaises(t, foreign, g, begun, next, order);
    OrderNamed(t, foreign, g, begun, next, order, b, m);
    assert v in Elements(order);
    H.RisingFalls(t, it.states, r.states, b, m);
  }

  /** Visiting nodes with edges that have not reached their targets comes to a post-fixpoint. */
  lemma {:induction false} ReachesFixpoint(t: Traits, foreign: seq<Address>, g: Graph, its: seq<Iteration>,
                                           visits: seq<nat>, b: nat, m: nat)
    returns (its': seq<Iteration>, visits': seq<nat>)
    requires IsIteration(t, foreign, g, its, visits)
    requires NodesBelow(g, m) && b >= ADDRESS_SPACE && H.StatesNamed(its[|visits|].states, b, m)
    requires IterationValid(t, g, its[|visits|])
    ensures IsIteration(t, foreign, g, its', visits') && IsFixpoint(t, foreign, g, its'[|visits'|].states)
    decreases H.StatesHeight(t, its[|visits|].states, b, m)
  {
    var it := its[|visits|];
    if PostFixpoint(t, foreign, g, it.states) {
      its', visits' := its, visits;
    } else {
      var u, v :| u in it.states && v in Successors(g, u) && !Reached(t, foreign, g, it.states, u, v);
      var last := IterationExplored(t, foreign, g, its, visits, |visits|);
      assert !Visited(t, foreign, g, it.states, it.worklist, last, u, v);
      var r := RaisingVisit(t, foreign, g, it, u, v, b, m);
      var js, vs := its + [r], visits + [u];
      forall i | 0 <= i < |vs| ensures IsVisit(t, foreign, g, js[i], vs[i], js[i + 1]) {
        if i < |visits| {
          assert IsVisit(t, foreign, g, its[i], visits[i], its[i + 1]);
        }
      }
      its', visits' := ReachesFixpoint(t, foreign, g, js, vs, b, m);
    }
  }

  /** Every graph has a least post-fixpoint, and some run of the iteration reaches it. */
  lemma LeastExists(t: Traits, foreign: seq<Address>, g: Graph) returns (its: seq<Iteration>, visits: seq<nat>)
    requires TraitsValid(t) && GraphValid(g)
    ensures IsIteration(t, foreign, g, its, visits) && IsLeast(t, foreign, g, its[|visits|].states)
  {
    var m := SomeBound(g);
    var b: nat := ADDRESS_SPACE;
    StartedExplored(t, foreign, g);
    assert IsIteration(t, foreign, g, [Started(t)], []);
    its, visits := ReachesFixpoint(t, foreign, g, [Started(t)], [], b, m);
    FoundIsLeast(t, foreign, g, its, visits);
  }

  // ---- graphs on which every run ends --------------------------------------------------------------

  /** The edges the iteration follows: all but those back to node 0. */
  function Followed(g: Graph): W.Edges {
    map u | u in g.succ :: g.succ[u] - {0}
  }

  ghost predicate FromStart(g: Graph, u: nat) {
    u == 0 || W.Leads(Followed(g), 0, u)
  }

  /** No other node leads to `v`. */
  ghost predicate OnlyFrom(g: Graph, u: nat, v: nat) {
    v in Successors(g, u) && forall w :: FromStart(g, w) && v in Successors(g, w) ==> w == u
  }

  /** The edges into nodes where several meet. */
  ghost function Meeting(g: Graph): W.Edges {
    map u | u in g.succ && FromStart(g, u) :: set v | v in g.succ[u] && v != 0 && !OnlyFrom(g, u, v)
  }

  lemma StartLeads(g: Graph, u: nat, v: nat)
    requires FromStart(g, u) && v in Successors(g, u)
    ensures FromStart(g, v)
  {
    if v != 0 {
      W.EdgeLeads(Followed(g), u, v);
      if u != 0 {
        W.LeadsOn(Followed(g), 0, u, v);
      }
    }
  }

  /** A node with one way in holds no more than comes that way. */
  ghost predicate Carried(t: Traits, foreign: seq<Address>, g: Graph, s: States)
    requires StatesValid(t, g, s)
  {
    && (forall u :: u in s ==> FromStart(g, u))
    && forall u, v :: v in s && v != 0 && OnlyFrom(g, u, v) ==>
         u in s && CacheLeq(t, s[v], Effect(t, foreign, g, s, u, v))
  }

  lemma RaisedCarries(t: Traits, foreign: seq<Address>, g: Graph, s: States, s': States, u: nat, v: nat)
    requires StatesValid(t, g, s) && StatesValid(t, g, s') && u in s && v in s && v in s' && s[v] == s'[v]
    requires StatesLeq(t, s, s') && CacheLeq(t, s[v], Effect(t, foreign, g, s, u, v))
    ensures u in s' && CacheLeq(t, s'[v], Effect(t, foreign, g, s', u, v))
  {
    EdgeUpdateMonotone(t, foreign, s[u], s'[u], Accesses(g, u, v));
    EdgeUpdateValid(t, foreign, s[u], Accesses(g, u, v));
    EdgeUpdateValid(t, foreign, s'[u], Accesses(g, u, v));
    CacheLeqIsOrder(t, s[v], Effect(t, foreign, g, s, u, v), Effect(t, foreign, g, s', u, v));
  }

  /** What one edge brings to its only target is no less than the target had, nor than it
      now has. */
  lemma PassCarries(t: Traits, foreign: seq<Address>, g: Graph, it: Iteration, next: nat, n: nat)
    requires IterationValid(t, g, it) && next in it.states && n in Successors(g, next)
    requires Carried(t, foreign, g, it.states) && OnlyFrom(g, next, n) && n != 0
    ensures var r := Passed(t, foreign, g, it, next, n);
      && n in r.states && CacheLeq(t, r.states[n], Effect(t, foreign, g, r.states, next, n))
      && (r.states == it.states ==> r == it)
  {
    var s := it.states;
    var r := Passed(t, foreign, g, it, next, n);
    var cache := Effect(t, foreign, g, s, next, n);
    EdgeUpdateValid(t, foreign, s[next], Accesses(g, next, n));
    CacheLeqIsOrder(t, cache, cache, cache);
    if n in s {
      CacheJoinIsLub(t, s[n], cache, cache);
      PassRaises(t, foreign, g, it, next, n);
      if r.states == s {
        CacheLeqIsOrder(t, s[n], cache, s[n]);
      }
    } else {
      PassRaises(t, foreign, g, it, next, n);
    }
    EdgeUpdateMonotone(t, foreign, s[next], r.states[next], Accesses(g, next, n));
    EdgeUpdateValid(t, foreign, r.states[next], Accesses(g, next, n));
    CacheLeqIsOrder(t, r.states[n], cache, Effect(t, foreign, g, r.states, next, n));
  }

  lemma PassKeepsCarried(t: Traits, foreign: seq<Address>, g: Graph, it: Iteration, next: nat, n: nat)
    requires IterationValid(t, g, it) && next in it.states && n in Successors(g, next)
    requires Carried(t, foreign, g, it.states)
    ensures var r := Passed(t, foreign, g, it, next, n);
      && Carried(t, foreign, g, r.states)
      && (r.states == it.states ==> r.worklist <= it.worklist + W.Succ(Meeting(g), next))
  {
    var s, r := it.states, Passed(t, foreign, g, it, next, n);
    PassRaises(t, foreign, g, it, next, n);
    StartLeads(g, next, n);
    forall u, v | v in r.states && v != 0 && OnlyFrom(g, u, v)
      ensures u in r.states && CacheLeq(t, r.states[v], Effect(t, foreign, g, r.states, u, v))
    {
      if v == n {
        assert u == next;
        PassCarries(t, foreign, g, it, next, n);
      } else {
        RaisedCarries(t, foreign, g, s, r.states, u, v);
      }
    }
    if n != 0 && OnlyFrom(g, next, n) {
      PassCarries(t, foreign, g, it, next, n);
    }
  }

  lemma {:induction false} OrderKeepsCarried(t: Traits, foreign: seq<Address>, g: Graph, it: Iteration, next: nat,
                                             order: seq<nat>)
    requires IterationValid(t, g, it) && next in it.states && Elements(order) <= Successors(g, next)
    requires Carried(t, foreign, g, it.states)
    ensures var r := VisitedIn(t, foreign, g, it, next, order);
      && Carried(t, foreign, g, r.states)
      && (r.states == it.states ==> r.worklist <= it.worklist + W.Succ(Meeting(g), next))
    decreases |order|
  {
    if order != [] {
      var k := |order| - 1;
      assert order[k] in Elements(order);
      assert Elements(order[..k]) <= Elements(order);
      OrderKeepsCarried(t, foreign, g, it, next, order[..k]);
      var b := VisitedIn(t, foreign, g, it, next, order[..k]);
      var r := VisitedIn(t, foreign, g, it, next, order);
      PassKeepsCarried(t, foreign, g, b, next, order[k]);
      OrderRaises(t, foreign, g, it, next, order[..k]);
      PassRaises(t, foreign, g, b, next, order[k]);
      if r.states == it.states {
        StatesAntisymmetric(t, g, it.states, b.states);
      }
    }
  }

  /** Falls with every visit: the states rise, or the nodes queued lie further on. */
  ghost function Measure(t: Traits, g: Graph, it: Iteration, b: nat, m: nat): nat
    requires H.AllCachesValid(t, it.states)
  {
    W.Stacked(H.StatesHeight(t, it.states, b, m), W.MostWeight(m) + 1, W.Total(Meeting(g), it.worklist))
  }

  /** What every visit keeps. */
  ghost predicate Underway(t: Traits, foreign: seq<Address>, g: Graph, it: Iteration, b: nat, m: nat) {
    && NodesBelow(g, m) && b >= ADDRESS_SPACE
    && IterationValid(t, g, it) && Carried(t, foreign, g, it.states) && H.StatesNamed(it.states, b, m)
  }

  lemma MeetingBelow(g: Graph, m: nat)
    requires NodesBelow(g, m)
    ensures W.Nodes(Meeting(g)) <= W.Numbers(m)
  {
    var e := Meeting(g);
    forall v | v in W.Nodes(e) ensures v in W.Numbers(m) {
      var u :| u in e && v in e[u];
      assert v in Successors(g, u);
    }
  }

  lemma MeasureFalls(t: Traits, g: Graph, it: Iteration, r: Iteration, b: nat, m: nat)
    requires H.AllCachesValid(t, it.states) && IterationValid(t, g, r) && H.StatesNamed(r.states, b, m)
    requires NodesBelow(g, m)
    requires H.StatesHeight(t, r.states, b, m) < H.StatesHeight(t, it.states, b, m)
    ensures Measure(t, g, r, b, m) < Measure(t, g, it, b, m)
  {
    forall u | u in r.worklist ensures u in W.Numbers(m) {
      assert u in r.states;
    }
    MeetingBelow(g, m);
    W.TotalBound(Meeting(g), r.worklist, m);
    W.LowerStack(H.StatesHeight(t, it.states, b, m), H.StatesHeight(t, r.states, b, m), W.MostWeight(m) + 1,
                 W.Total(Meeting(g), it.worklist), W.Total(Meeting(g), r.worklist));
  }

  lemma KeepsUnderway(t: Traits, foreign: seq<Address>, g: Graph, it: Iteration, next: nat, r: Iteration, b: nat,
                      m: nat)
    requires IsVisit(t, foreign, g, it, next, r) && Underway(t, foreign, g, it, b, m)
    ensures Underway(t, foreign, g, r, b, m)
  {
    var begun := Iteration(it.states, it.worklist - {next});
    var order :| IsOrder(order, Successors(g, next)) && r == VisitedIn(t, foreign, g, begun, next, order);
    OrderKeepsCarried(t, foreign, g, begun, next, order);
    OrderNamed(t, foreign, g, begun, next, order, b, m);
  }

  lemma CarriedVisit(t: Traits, foreign: seq<Address>, g: Graph, it: Iteration, next: nat, r: Iteration, b: nat, m: nat)
    requires IsVisit(t, foreign, g, it, next, r) && Underway(t, foreign, g, it, b, m)
    requires W.Acyclic(Meeting(g))
    ensures IterationValid(t, g, r) && Measure(t, g, r, b, m) < Measure(t, g, it, b, m)
  {
    KeepsUnderway(t, foreign, g, it, next, r, b, m);
    var begun := Iteration(it.states, it.worklist - {next});
    var order :| IsOrder(order, Successors(g, next)) && r == VisitedIn(t, foreign, g, begun, next, order);
    OrderKeepsCarried(t, foreign, g, begun, next, order);
    OrderRaises(t, foreign, g, begun, next, order);
    if r.states == it.states {
      W.VisitLowers(Meeting(g), it.worklist, next, r.worklist);
      W.LessStacked(H.StatesHeight(t, it.states, b, m), W.MostWeight(m) + 1,
                    W.Total(Meeting(g), it.worklist), W.Total(Meeting(g), r.worklist));
    } else {
      H.RisingFalls(t, it.states, r.states, b, m);
      MeasureFalls(t, g, it, r, b, m);
    }
  }

  lemma {:induction false} UnderwayAlong(t: Traits, foreign: seq<Address>, g: Graph, its: seq<Iteration>,
                                         visits: seq<nat>, k: nat, b: nat, m: nat)
    requires AreVisits(t, foreign, g, its, visits) && k <= |visits| && Underway(t, foreign, g, its[0], b, m)
    ensures Underway(t, foreign, g, its[k], b, m)
  {
    if k > 0 {
      UnderwayAlong(t, foreign, g, its, visits, k - 1, b, m);
      assert IsVisit(t, foreign, g, its[k - 1], visits[k - 1], its[k - 1 + 1]);
      KeepsUnderway(t, foreign, g, its[k - 1], visits[k - 1], its[k], b, m);
    }
  }

  ghost predicate MeasureFallsAt(t: Traits, g: Graph, its: seq<Iteration>, k: nat, b: nat, m: nat)
    requires k + 1 < |its|
  {
    && IterationValid(t, g, its[k]) && IterationValid(t, g, its[k + 1])
    && Measure(t, g, its[k + 1], b, m) < Measure(t, g, its[k], b, m)
  }

  lemma CarriedStep(t: Traits, foreign: seq<Address>, g: Graph, its: seq<Iteration>, visits: seq<nat>, k: nat,
                    b: nat, m: nat)
    requires AreVisits(t, foreign, g, its, visits) && k < |visits| && Underway(t, foreign, g, its[0], b, m)
    requires W.Acyclic(Meeting(g))
    ensures MeasureFallsAt(t, g, its, k, b, m)
  {
    UnderwayAlong(t, foreign, g, its, visits, k, b, m);
    assert IsVisit(t, foreign, g, its[k], visits[k], its[k + 1]);
    CarriedVisit(t, foreign, g, its[k], visits[k], its[k + 1], b, m);
  }

  lemma {:induction false} FallsAlong(t: Traits, g: Graph, its: seq<Iteration>, k: nat, b: nat, m: nat)
    requires k < |its| && IterationValid(t, g, its[0])
    requires forall i :: 0 <= i < k ==> MeasureFallsAt(t, g, its, i, b, m)
    ensures IterationValid(t, g, its[k]) && Measure(t, g, its[k], b, m) + k <= Measure(t, g, its[0], b, m)
  {
    if k > 0 {
      FallsAlong(t, g, its, k - 1, b, m);
      assert MeasureFallsAt(t, g, its, k - 1, b, m);
    }
  }

  lemma CarriedRun(t: Traits, foreign: seq<Address>, g: Graph, its: seq<Iteration>, visits: seq<nat>, b: nat, m: nat)
    requires AreVisits(t, foreign, g, its, visits) && Underway(t, foreign, g, its[0], b, m)
    requires W.Acyclic(Meeting(g))
    ensures |visits| <= Measure(t, g, its[0], b, m)
  {
    forall k | 0 <= k < |visits| ensures MeasureFallsAt(t, g, its, k, b, m) {
      CarriedStep(t, foreign, g, its, visits, k, b, m);
    }
    FallsAlong(t, g, its, |visits|, b, m);
  }

  /** If every loop passes through a node with one way in, as the body of an ordinary loop
      does, then all runs end, whatever the cache, the accesses and the order of the visits. */
  lemma PlainLoopsEnd(t: Traits, foreign: seq<Address>, g: Graph)
    requires TraitsValid(t) && GraphValid(g) && W.Acyclic(Meeting(g))
    ensures exists bound :: Bounded(t, foreign, g, Started(t), bound)
  {
    var m := SomeBound(g);
    var b: nat := ADDRESS_SPACE;
    StartedExplored(t, foreign, g);
    assert Underway(t, foreign, g, Started(t), b, m);
    var bound := Measure(t, g, Started(t), b, m);
    forall its, visits | AreVisits(t, foreign, g, its, visits) && its[0] == Started(t) ensures |visits| <= bound {
      CarriedRun(t, foreign, g, its, visits, b, m);
    }
    assert Bounded(t, foreign, g, Started(t), bound);
  }

  lemma {:induction false} MeetingIsFollowed(g: Graph, p: seq<nat>)
    requires W.IsWalk(Meeting(g), p)
    ensures W.IsWalk(Followed(g), p)
    decreases |p|
  {
    if |p| > 1 {
      MeetingIsFollowed(g, p[1..]);
    }
  }

  lemma MeetingCycle(g: Graph, c: nat)
    requires W.OnCycle(Meeting(g), c)
    ensures W.CycleAhead(Followed(g), {0})
  {
    var p :| W.IsWalk(Meeting(g), p) && |p| > 1 && p[0] == c && p[|p| - 1] == c;
    assert FromStart(g, c);
    MeetingIsFollowed(g, p);
    assert W.OnCycle(Followed(g), c);
  }

  /** On a graph with no cycle but through node 0, all runs end. */
  lemma AcyclicGraphEnds(t: Traits, foreign: seq<Address>, g: Graph)
    requires TraitsValid(t) && GraphValid(g) && !W.CycleAhead(Followed(g), {0})
    ensures exists bound :: Bounded(t, foreign, g, Started(t), bound)
  {
    forall c ensures !W.OnCycle(Meeting(g), c) {
      if W.OnCycle(Meeting(g), c) {
        MeetingCycle(g, c);
      }
    }
    PlainLoopsEnd(t, foreign, g);
  }

  // ---- when the iteration ends -------------------------------------------------------------------

  /** A cycle of strict edges. */
  ghost predicate StrictCycle(t: Traits, foreign: seq<Address>, g: Graph, s: States)
    requires StatesValid(t, g, s)
  {
    !W.Acyclic(StrictEdges(t, foreign, g, s))
  }

  lemma ExitHasNoCycle(t: Traits, foreign: seq<Address>, g: Graph, s: States, rank: map<nat, nat>)
    requires Exit(t, foreign, g, s, rank)
    ensures !StrictCycle(t, foreign, g, s)
  {
    var e := StrictEdges(t, foreign, g, s);
    var level: nat -> nat := u => if u in rank then rank[u] else 0;
    forall u: nat, v: nat | v in W.Succ(e, u) ensures level(u) < level(v) {
      StrictSuccessors(t, foreign, g, s, u);
      assert StrictEdge(t, foreign, g, s, u, v);
    }
    W.RankedIsAcyclic(e, level);
  }

  ghost predicate Ends(t: Traits, foreign: seq<Address>, g: Graph, its: seq<Iteration>, visits: seq<nat>) {
    IsIteration(t, foreign, g, its, visits) && its[|visits|].worklist == {}
  }

  /** For every cache and every graph: some run of the iteration ends exactly if the least
      post-fixpoint of the graph has no cycle of strict edges. If it has one, no run ends,
      whatever order the nodes are taken in. */
  lemma SomeRunEndsIff(t: Traits, foreign: seq<Address>, g: Graph, s: States)
    requires IsLeast(t, foreign, g, s)
    ensures (exists its: seq<Iteration>, visits: seq<nat> :: Ends(t, foreign, g, its, visits))
       <==> !StrictCycle(t, foreign, g, s)
  {
    if its: seq<Iteration>, visits: seq<nat> :| Ends(t, foreign, g, its, visits) {
      var rank := CompletedIsExit(t, foreign, g, its, visits);
      FoundIsLeast(t, foreign, g, its, visits);
      LeastIsUnique(t, foreign, g, s, its[|visits|].states);
      ExitHasNoCycle(t, foreign, g, s, rank);
    }
    if !StrictCycle(t, foreign, g, s) {
      var its, visits := EndingRun(t, foreign, g, s);
    }
  }

  lemma EndingRun(t: Traits, foreign: seq<Address>, g: Graph, s: States) returns (its: seq<Iteration>, visits: seq<nat>)
    requires IsLeast(t, foreign, g, s) && !StrictCycle(t, foreign, g, s)
    ensures Ends(t, foreign, g, its, visits)
  {
    its, visits := LeastExists(t, foreign, g);
    LeastIsUnique(t, foreign, g, s, its[|visits|].states);
    IterationsAreVisits(t, foreign, g, its, visits);
    var last := IterationExplored(t, foreign, g, its, visits, |visits|);
    var more, on := StableRunEnds(t, foreign, g, its[|visits|]);
    MoreVisits(t, foreign, g, its, visits, more, on);
    its, visits := its + more[1..], visits + on;
    IterationsAreVisits(t, foreign, g, its, visits);
  }

  lemma CycleNeverEnds(t: Traits, foreign: seq<Address>, g: Graph, s: States, its: seq<Iteration>, visits: seq<nat>)
    requires IsLeast(t, foreign, g, s) && StrictCycle(t, foreign, g, s)
    requires IsIteration(t, foreign, g, its, visits)
    ensures its[|visits|].worklist != {}
  {
    assert !Ends(t, foreign, g, its, visits) by { SomeRunEndsIff(t, foreign, g, s); }
  }

  // ---- two loops ---------------------------------------------------------------------------------

  /** Node 1, entered without an access, accesses address 0 in a loop on itself. */
  const LOOP := Graph(map[0 := {1}, 1 := {1}], map[(1, 1) := [Interval(0, 0)]])

  /** The state of node 1 must allow for the empty cache of its entry, but what the loop
      contributes to it knows address 0 to be cached. */
  lemma LoopIsStrict(t: Traits, foreign: seq<Address>, s: States)
    requires StatesValid(t, LOOP, s) && PostFixpoint(t, foreign, LOOP, s)
    ensures StrictEdge(t, foreign, LOOP, s, 1, 1)
  {
    assert Reached(t, foreign, LOOP, s, 0, 1);
    var i, tag := IndexOf(t, 0), TagOf(t, 0);
    var c := s[1][i];
    assert SetLeq(CacheInit(t, true)[i], c, t.ways);
    assert AgeMaps.MaxAge(CacheInit(t, true)[i].must, tag, t.ways) <= AgeMaps.MaxAge(c.must, tag, t.ways);
    assert SetValid(c, t.ways);
    assert tag !in c.must;
    var w := Accesses(LOOP, 1, 1);
    assert w[..0] == [] && EdgeUpdate(t, foreign, s[1], w[..0]) == s[1];
    var e := Effect(t, foreign, LOOP, s, 1, 1);
    assert e == CacheUpdate(t, foreign, s[1], 0, 0, Unknown);
    assert tag in e[i].must;
  }

  lemma StrictLoopIsCycle(t: Traits, foreign: seq<Address>, g: Graph, s: States, u: nat)
    requires StatesValid(t, g, s) && StrictEdge(t, foreign, g, s, u, u)
    ensures StrictCycle(t, foreign, g, s)
  {
    StrictSuccessors(t, foreign, g, s, u);
    W.EdgeLeads(StrictEdges(t, foreign, g, s), u, u);
    assert W.OnCycle(StrictEdges(t, foreign, g, s), u);
  }

  /** No run of the iteration on this graph ends. */
  lemma LoopNeverEnds(t: Traits, foreign: seq<Address>, its: seq<Iteration>, visits: seq<nat>)
    requires IsIteration(t, foreign, LOOP, its, visits)
    ensures its[|visits|].worklist != {}
  {
    var least, visited := LeastExists(t, foreign, LOOP);
    var s := least[|visited|].states;
    LoopIsStrict(t, foreign, s);
    StrictLoopIsCycle(t, foreign, LOOP, s, 1);
    CycleNeverEnds(t, foreign, LOOP, s, its, visits);
  }

  /** The same loop with a body of its own, node 2. */
  const HEADED_LOOP := Graph(map[0 := {1}, 1 := {2}, 2 := {1}], map[(2, 1) := [Interval(0, 0)]])

  /** All runs on this graph end. */
  lemma HeadedLoopEnds(t: Traits, foreign: seq<Address>)
    requires TraitsValid(t)
    ensures exists bound :: Bounded(t, foreign, HEADED_LOOP, Started(t), bound)
  {
    assert OnlyFrom(HEADED_LOOP, 1, 2);
    W.RankedIsAcyclic(Meeting(HEADED_LOOP), u => if u == 1 then 1 else 0);
    PlainLoopsEnd(t, foreign, HEADED_LOOP);
  }
}
