/** The worklist iteration that runs the cache analysis over a program graph. Node 0 is
    the start; edges into it are not followed. */
module GraphIterator {
  import opened Lru
  import AgeMaps
  import opened CacheSets
  import opened AddressMapping
  import opened AbstractCache
  import opened Reports

  /** An access somewhere in an interval of addresses. */
  datatype Interval = Interval(lo: Address, hi: Address)

  /** Successors of the nodes, and accesses on those edges that have any. */
  datatype Graph = Graph(succ: map<nat, set<nat>>, weight: map<(nat, nat), seq<Interval>>)

  type States = map<nat, seq<CacheSet>>

  function Successors(g: Graph, u: nat): set<nat> {
    if u in g.succ then g.succ[u] else {}
  }

  function Accesses(g: Graph, u: nat, v: nat): seq<Interval> {
    if (u, v) in g.weight then g.weight[(u, v)] else []
  }

  predicate IntervalsValid(w: seq<Interval>) {
    forall i :: 0 <= i < |w| ==> w[i].lo <= w[i].hi
  }

  ghost predicate GraphValid(g: Graph) {
    forall e :: e in g.weight ==> IntervalsValid(g.weight[e])
  }

  /** The effect of an edge on the abstract cache. */
  function EdgeUpdate(t: Traits, foreign: seq<Address>, cs: seq<CacheSet>, w: seq<Interval>): (r: seq<CacheSet>)
    requires TraitsValid(t) && |cs| == t.nSets && IntervalsValid(w)
    ensures |r| == |cs|
    decreases |w|
  {
    if w == [] then cs
    else
      var k := |w| - 1;
      CacheUpdate(t, foreign, EdgeUpdate(t, foreign, cs, w[..k]), w[k].lo, w[k].hi, Unknown)
  }

  /** Access by access, in order, and each once. */
  lemma {:induction false} EdgeUpdateComposes(t: Traits, foreign: seq<Address>, cs: seq<CacheSet>, v: seq<Interval>,
                                              w: seq<Interval>, x: Interval)
    requires TraitsValid(t) && |cs| == t.nSets && IntervalsValid(v) && IntervalsValid(w) && x.lo <= x.hi
    ensures EdgeUpdate(t, foreign, cs, []) == cs
    ensures EdgeUpdate(t, foreign, cs, [x]) == CacheUpdate(t, foreign, cs, x.lo, x.hi, Unknown)
    ensures EdgeUpdate(t, foreign, cs, v + w) == EdgeUpdate(t, foreign, EdgeUpdate(t, foreign, cs, v), w)
    decreases |w|
  {
    assert [x][..0] == [];
    if w == [] {
      assert v + w == v;
    } else {
      var k := |w| - 1;
      EdgeUpdateComposes(t, foreign, cs, v, w[..k], x);
      assert (v + w)[..|v + w| - 1] == v + w[..k];
    }
  }

  lemma {:induction false} EdgeUpdateValid(t: Traits, foreign: seq<Address>, cs: seq<CacheSet>, w: seq<Interval>)
    requires TraitsValid(t) && CacheValid(t, cs) && IntervalsValid(w)
    ensures CacheValid(t, EdgeUpdate(t, foreign, cs, w))
    decreases |w|
  {
    if w != [] {
      var k := |w| - 1;
      EdgeUpdateValid(t, foreign, cs, w[..k]);
      CacheUpdateValid(t, foreign, EdgeUpdate(t, foreign, cs, w[..k]), w[k].lo, w[k].hi, Unknown);
    }
  }

  function Effect(t: Traits, foreign: seq<Address>, g: Graph, s: States, u: nat, v: nat): (r: seq<CacheSet>)
    requires TraitsValid(t) && u in s && |s[u]| == t.nSets && IntervalsValid(Accesses(g, u, v))
  {
    EdgeUpdate(t, foreign, s[u], Accesses(g, u, v))
  }

  ghost predicate StatesValid(t: Traits, g: Graph, s: States) {
    && TraitsValid(t) && GraphValid(g)
    && 0 in s && s[0] == CacheInit(t, true)
    && forall u :: u in s ==> CacheValid(t, s[u])
  }

  /** What the source node of an edge says has reached its target. */
  ghost predicate Reached(t: Traits, foreign: seq<Address>, g: Graph, s: States, u: nat, v: nat)
    requires StatesValid(t, g, s) && u in s
  {
    v == 0 || (v in s && CacheLeq(t, Effect(t, foreign, g, s, u, v), s[v]))
  }

  ghost predicate PostFixpoint(t: Traits, foreign: seq<Address>, g: Graph, s: States)
    requires StatesValid(t, g, s)
  {
    forall u, v :: u in s && v in Successors(g, u) ==> Reached(t, foreign, g, s, u, v)
  }

  /** An edge that leaves its target state strictly above what it contributes makes the
      iteration visit the target after the source. */
  ghost predicate Visited(t: Traits, foreign: seq<Address>, g: Graph, s: States, work: set<nat>, last: map<nat, nat>,
                          u: nat, v: nat)
    requires StatesValid(t, g, s) && u in s
  {
    && Reached(t, foreign, g, s, u, v)
    && u in last
    && (v == 0 || v in work || Effect(t, foreign, g, s, u, v) == s[v] || (v in last && last[u] < last[v]))
  }

  ghost predicate Explored(t: Traits, foreign: seq<Address>, g: Graph, s: States, work: set<nat>, last: map<nat, nat>)
    requires StatesValid(t, g, s)
  {
    forall u, v :: u in s && u !in work && v in Successors(g, u) ==> Visited(t, foreign, g, s, work, last, u, v)
  }

  /** What holds when the worklist is empty: a post-fixpoint whose strict edges can be
      ordered, so that there is no cycle of them. */
  ghost predicate Exit(t: Traits, foreign: seq<Address>, g: Graph, s: States, rank: map<nat, nat>) {
    && StatesValid(t, g, s)
    && PostFixpoint(t, foreign, g, s)
    && forall u, v :: u in s && v in Successors(g, u) && v != 0 && Effect(t, foreign, g, s, u, v) != s[v] ==>
         u in rank && v in rank && rank[u] < rank[v]
  }

  /** Raising the state of a node, and queueing it, disturbs no edge of other nodes. */
  lemma VisitedGrows(t: Traits, foreign: seq<Address>, g: Graph, s: States, work: set<nat>, last: map<nat, nat>,
                     n: nat, c: seq<CacheSet>, u: nat, v: nat)
    requires StatesValid(t, g, s) && n != 0 && CacheValid(t, c) && (n in s ==> CacheLeq(t, s[n], c))
    requires u in s && u != n && Visited(t, foreign, g, s, work, last, u, v)
    ensures StatesValid(t, g, s[n := c])
    ensures Visited(t, foreign, g, s[n := c], work + {n}, last, u, v)
  {
    if v == n && n in s {
      EdgeUpdateValid(t, foreign, s[u], Accesses(g, u, v));
      CacheLeqIsOrder(t, Effect(t, foreign, g, s, u, v), s[n], c);
    }
  }

  /** Every explored edge is done with, except those of `next` to `adjacent`. */
  ghost predicate ExploredBut(t: Traits, foreign: seq<Address>, g: Graph, s: States, work: set<nat>, last: map<nat,
                              nat>,
                              next: nat, adjacent: set<nat>)
    requires StatesValid(t, g, s)
  {
    forall u, v :: u in s && u !in work && v in Successors(g, u) && (u != next || v !in adjacent) ==>
      Visited(t, foreign, g, s, work, last, u, v)
  }

  lemma StartVisit(t: Traits, foreign: seq<Address>, g: Graph, s: States, work: set<nat>, last: map<nat, nat>,
                   next: nat, steps: nat)
    requires StatesValid(t, g, s) && next in work && Explored(t, foreign, g, s, work, last)
    requires forall u :: u in last ==> last[u] < steps
    ensures ExploredBut(t, foreign, g, s, work - {next}, last[next := steps], next, Successors(g, next))
  {
    var work', last' := work - {next}, last[next := steps];
    forall u, v | u in s && u !in work' && v in Successors(g, u) && (u != next || v !in Successors(g, next))
      ensures Visited(t, foreign, g, s, work', last', u, v)
    {
      assert Visited(t, foreign, g, s, work, last, u, v);
    }
  }

  lemma RaisedExplored(t: Traits, foreign: seq<Address>, g: Graph, s: States, work: set<nat>, last: map<nat, nat>,
                       next: nat, adjacent: set<nat>, n: nat, c: seq<CacheSet>)
    requires StatesValid(t, g, s) && next in s && next in last && n != 0
    requires ExploredBut(t, foreign, g, s, work, last, next, adjacent)
    requires CacheValid(t, c) && (n in s ==> CacheLeq(t, s[n], c))
    requires CacheLeq(t, Effect(t, foreign, g, s, next, n), c)
    ensures StatesValid(t, g, s[n := c])
    ensures ExploredBut(t, foreign, g, s[n := c], work + {n}, last, next, adjacent - {n})
  {
    var s', work', adjacent' := s[n := c], work + {n}, adjacent - {n};
    assert next != n ==> Effect(t, foreign, g, s', next, n) == Effect(t, foreign, g, s, next, n);
    forall u, v ensures u in s' && u !in work' && v in Successors(g, u) && (u != next || v !in adjacent') ==>
        Visited(t, foreign, g, s', work', last, u, v)
    {
      if u in s' && u !in work' && v in Successors(g, u) && (u != next || v !in adjacent') {
        if u != next || v != n {
          assert u in s && u !in work && v in Successors(g, u) && (u != next || v !in adjacent);
          VisitedGrows(t, foreign, g, s, work, last, n, c, u, v);
        } else {
          assert Reached(t, foreign, g, s', next, n);
        }
      }
    }
    assert ExploredBut(t, foreign, g, s', work', last, next, adjacent');
  }

  // ---- the iteration ----------------------------------------------------------

  /** The states found so far, and the nodes still to be visited. */
  datatype Iteration = Iteration(states: States, worklist: set<nat>)

  ghost predicate IterationValid(t: Traits, g: Graph, it: Iteration) {
    StatesValid(t, g, it.states) && it.worklist <= it.states.Keys
  }

  function Started(t: Traits): Iteration {
    Iteration(map[0 := CacheInit(t, true)], {0})
  }

  /** One node passes its state on to one successor, which is queued if it did not have just
      that state. */
  ghost function Passed(t: Traits, foreign: seq<Address>, g: Graph, it: Iteration, next: nat, n: nat): (r: Iteration)
    requires IterationValid(t, g, it) && next in it.states
    ensures IterationValid(t, g, r) && next in r.states
  {
    var cache := Effect(t, foreign, g, it.states, next, n);
    EdgeUpdateValid(t, foreign, it.states[next], Accesses(g, next, n));
    if n == 0 then it
    else if n !in it.states then Iteration(it.states[n := cache], it.worklist + {n})
    else if cache != it.states[n] then
      CacheJoinIsLub(t, it.states[n], cache, cache);
      Iteration(it.states[n := CacheJoin(it.states[n], cache)], it.worklist + {n})
    else it
  }

  lemma PassedExplored(t: Traits, foreign: seq<Address>, g: Graph, it: Iteration, last: map<nat, nat>,
                       next: nat, n: nat, adjacent: set<nat>)
    requires IterationValid(t, g, it) && next in it.states && next in last && n in adjacent
    requires ExploredBut(t, foreign, g, it.states, it.worklist, last, next, adjacent)
    ensures var r := Passed(t, foreign, g, it, next, n);
      ExploredBut(t, foreign, g, r.states, r.worklist, last, next, adjacent - {n})
  {
    var s, work := it.states, it.worklist;
    var cache := Effect(t, foreign, g, s, next, n);
    EdgeUpdateValid(t, foreign, s[next], Accesses(g, next, n));
    CacheLeqIsOrder(t, cache, cache, cache);
    if n == 0 || (n in s && cache == s[n]) {
      assert Visited(t, foreign, g, s, work, last, next, n);
    } else if n !in s {
      RaisedExplored(t, foreign, g, s, work, last, next, adjacent, n, cache);
    } else {
      CacheJoinIsLub(t, s[n], cache, cache);
      RaisedExplored(t, foreign, g, s, work, last, next, adjacent, n, CacheJoin(s[n], cache));
    }
  }

  /** One node passes its state on to its successors, in some order. */
  ghost function VisitedIn(t: Traits, foreign: seq<Address>, g: Graph, it: Iteration, next: nat,
                           order: seq<nat>): (r: Iteration)
    requires IterationValid(t, g, it) && next in it.states
    ensures IterationValid(t, g, r) && next in r.states
    decreases |order|
  {
    if order == [] then it
    else
      var k := |order| - 1;
      Passed(t, foreign, g, VisitedIn(t, foreign, g, it, next, order[..k]), next, order[k])
  }

  lemma {:induction false} VisitedInExplored(t: Traits, foreign: seq<Address>, g: Graph, it: Iteration, last: map<nat,
                                             nat>,
                                             next: nat, order: seq<nat>)
    requires IterationValid(t, g, it) && next in it.states && next in last
    requires Distinct(order) && Elements(order) <= Successors(g, next)
    requires ExploredBut(t, foreign, g, it.states, it.worklist, last, next, Successors(g, next))
    ensures var r := VisitedIn(t, foreign, g, it, next, order);
      ExploredBut(t, foreign, g, r.states, r.worklist, last, next, Successors(g, next) - Elements(order))
    decreases |order|
  {
    if order == [] {
      assert Successors(g, next) - Elements(order) == Successors(g, next);
    } else {
      var k := |order| - 1;
      var before := order[..k];
      VisitedInExplored(t, foreign, g, it, last, next, before);
      var r := VisitedIn(t, foreign, g, it, next, before);
      var adjacent := Successors(g, next) - Elements(before);
      assert order[k] in Elements(order) && order[k] !in Elements(before);
      PassedExplored(t, foreign, g, r, last, next, order[k], adjacent);
      assert Elements(order) == Elements(before) + {order[k]};
      assert adjacent - {order[k]} == Successors(g, next) - Elements(order);
    }
  }

  /** A visit takes some node off the worklist and passes its state on to each successor. */
  ghost predicate IsVisit(t: Traits, foreign: seq<Address>, g: Graph, it: Iteration, next: nat, r: Iteration) {
    && IterationValid(t, g, it) && next in it.worklist
    && exists order :: IsOrder(order, Successors(g, next))
         && r == VisitedIn(t, foreign, g, Iteration(it.states, it.worklist - {next}), next, order)
  }

  ghost predicate IsOrder(order: seq<nat>, nodes: set<nat>) {
    Distinct(order) && Elements(order) == nodes
  }

  /** A run of the iteration, taking nodes and successors in any order. */
  ghost predicate IsIteration(t: Traits, foreign: seq<Address>, g: Graph, its: seq<Iteration>, visits: seq<nat>) {
    && TraitsValid(t) && GraphValid(g)
    && |its| == |visits| + 1 && its[0] == Started(t)
    && forall i :: 0 <= i < |visits| ==> IsVisit(t, foreign, g, its[i], visits[i], its[i + 1])
  }

  lemma StartedExplored(t: Traits, foreign: seq<Address>, g: Graph)
    requires TraitsValid(t) && GraphValid(g)
    ensures IterationValid(t, g, Started(t))
    ensures Explored(t, foreign, g, Started(t).states, Started(t).worklist, map[])
  {
    CacheInitSound(t, seq(t.nSets, i => []), true);
  }

  /** After any number of visits, every node that is not queued has been visited since its
      state last changed. */
  lemma {:induction false} IterationExplored(t: Traits, foreign: seq<Address>, g: Graph, its: seq<Iteration>,
                                             visits: seq<nat>, k: nat) returns (last: map<nat, nat>)
    requires IsIteration(t, foreign, g, its, visits) && k <= |visits|
    ensures IterationValid(t, g, its[k]) && Explored(t, foreign, g, its[k].states, its[k].worklist, last)
    ensures forall u :: u in last ==> last[u] < k
  {
    if k == 0 {
      StartedExplored(t, foreign, g);
      last := map[];
    } else {
      var before := IterationExplored(t, foreign, g, its, visits, k - 1);
      assert IsVisit(t, foreign, g, its[k - 1], visits[k - 1], its[k - 1 + 1]);
      last := VisitExplored(t, foreign, g, its[k - 1], visits[k - 1], its[k], before, k - 1);
    }
  }

  lemma VisitExplored(t: Traits, foreign: seq<Address>, g: Graph, it: Iteration, next: nat, r: Iteration,
                      before: map<nat, nat>, steps: nat) returns (last: map<nat, nat>)
    requires IsVisit(t, foreign, g, it, next, r)
    requires Explored(t, foreign, g, it.states, it.worklist, before)
    requires forall u :: u in before ==> before[u] < steps
    ensures IterationValid(t, g, r) && Explored(t, foreign, g, r.states, r.worklist, last)
    ensures forall u :: u in last ==> last[u] < steps + 1
  {
    var order :| IsOrder(order, Successors(g, next))
      && r == VisitedIn(t, foreign, g, Iteration(it.states, it.worklist - {next}), next, order);
    last := before[next := steps];
    StartVisit(t, foreign, g, it.states, it.worklist, before, next, steps);
    VisitedInExplored(t, foreign, g, Iteration(it.states, it.worklist - {next}), last, next, order);
    assert Successors(g, next) - Elements(order) == {};
  }

  /** When nothing is queued any more, the states are a post-fixpoint, whatever the order of
      the visits was. */
  lemma CompletedIsExit(t: Traits, foreign: seq<Address>, g: Graph, its: seq<Iteration>, visits: seq<nat>)
    returns (rank: map<nat, nat>)
    requires IsIteration(t, foreign, g, its, visits) && its[|visits|].worklist == {}
    ensures Exit(t, foreign, g, its[|visits|].states, rank)
  {
    rank := IterationExplored(t, foreign, g, its, visits, |visits|);
    var s := its[|visits|].states;
    forall u, v | u in s && v in Successors(g, u) ensures Visited(t, foreign, g, s, {}, rank, u, v) {
    }
  }

  /** Runs the iteration for at most `fuel` visits; it is done if it came to its end by
      then. */
  method RunFixpointAnalysis(t: Traits, foreign: seq<Address>, g: Graph, fuel: nat)
    returns (done: bool, states: States)
    requires TraitsValid(t) && GraphValid(g)
    ensures exists its: seq<Iteration>, visits: seq<nat> ::
              && IsIteration(t, foreign, g, its, visits)
              && states == its[|visits|].states && (done <==> its[|visits|].worklist == {})
              && |visits| <= fuel && (!done ==> |visits| == fuel)
  {
    states := map[0 := CacheInit(t, true)];
    var worklist := {0};
    var steps := 0;
    ghost var its, visits: seq<nat> := [Started(t)], [];
    StartedExplored(t, foreign, g);
    while worklist != {} && steps < fuel
      invariant |visits| == steps <= fuel
      invariant IsIteration(t, foreign, g, its, visits)
      invariant its[steps] == Iteration(states, worklist) && IterationValid(t, g, its[steps])
      decreases fuel - steps
    {
      var next :| next in worklist;
      ghost var it := its[steps];
      worklist := worklist - {next};
      states, worklist := Visit(t, foreign, g, states, worklist, next);
      assert IsVisit(t, foreign, g, it, next, Iteration(states, worklist));
      its, visits := its + [Iteration(states, worklist)], visits + [next];
      steps := steps + 1;
    }
    done := worklist == {};
  }

  /** Passes the state of one node on to its successors. */
  method Visit(t: Traits, foreign: seq<Address>, g: Graph, s: States, work: set<nat>, next: nat)
    returns (states: States, worklist: set<nat>)
    requires IterationValid(t, g, Iteration(s, work)) && next in s
    ensures exists order ::
              && IsOrder(order, Successors(g, next))
              && Iteration(states, worklist) == VisitedIn(t, foreign, g, Iteration(s, work), next, order)
  {
    states, worklist := s, work;
    ghost var order: seq<nat> := [];
    var adjacent := Successors(g, next);
    while adjacent != {}
      invariant adjacent <= Successors(g, next)
      invariant IsOrder(order, Successors(g, next) - adjacent)
      invariant Iteration(states, worklist) == VisitedIn(t, foreign, g, Iteration(s, work), next, order)
      decreases adjacent
    {
      var n :| n in adjacent;
      assert n !in Elements(order);
      var cache := EdgeUpdate(t, foreign, states[next], Accesses(g, next, n));
      ghost var before := Iteration(states, worklist);
      if n != 0 {
        if n !in states {
          states, worklist := states[n := cache], worklist + {n};
        } else if cache != states[n] {
          states, worklist := states[n := CacheJoin(states[n], cache)], worklist + {n};
        }
      }
      assert Iteration(states, worklist) == Passed(t, foreign, g, before, next, n);
      assert (order + [n])[..|order|] == order;
      assert Elements(order + [n]) == Elements(order) + {n};
      order := order + [n];
      adjacent := adjacent - {n};
    }
    assert Successors(g, next) - adjacent == Successors(g, next);
  }

  // ---- every run ------------------------------------------------------------

  /** The addresses an edge really accesses: one of each of its intervals. */
  ghost predicate Picks(w: seq<Interval>, as_: seq<Address>) {
    |w| == |as_| && forall i :: 0 <= i < |w| ==> w[i].lo <= as_[i] <= w[i].hi
  }

  ghost predicate AllCovered(t: Traits, w: seq<Interval>)
    requires TraitsValid(t) && IntervalsValid(w)
  {
    forall i :: 0 <= i < |w| ==> Covered(t, w[i].lo, w[i].hi)
  }

  function RunAccesses(t: Traits, m: Machine, as_: seq<Address>): (r: Machine)
    requires TraitsValid(t) && |m| == t.nSets
    ensures |r| == t.nSets
    decreases |as_|
  {
    if as_ == [] then m else Access(t, RunAccesses(t, m, as_[..|as_| - 1]), as_[|as_| - 1])
  }

  lemma {:induction false} EdgeSound(t: Traits, foreign: seq<Address>, cs: seq<CacheSet>, m: Machine,
                                     w: seq<Interval>, as_: seq<Address>)
    requires TraitsValid(t) && CacheValid(t, cs) && CacheDescribes(t, cs, m)
    requires IntervalsValid(w) && AllCovered(t, w) && Picks(w, as_)
    ensures CacheDescribes(t, EdgeUpdate(t, foreign, cs, w), RunAccesses(t, m, as_))
    decreases |w|
  {
    if w != [] {
      var k := |w| - 1;
      EdgeSound(t, foreign, cs, m, w[..k], as_[..k]);
      EdgeUpdateValid(t, foreign, cs, w[..k]);
      CacheUpdateSound(t, foreign, EdgeUpdate(t, foreign, cs, w[..k]), RunAccesses(t, m, as_[..k]),
                       w[k].lo, as_[k], w[k].hi, Unknown);
    }
  }

  /** A path from node 0 that does not come back to it, with what each edge accesses. */
  ghost predicate IsRun(g: Graph, p: seq<nat>, run: seq<seq<Address>>) {
    |p| == |run| + 1 && p[0] == 0 && forall i :: 0 <= i < |run| ==> IsStep(g, p[i], p[i + 1], run[i])
  }

  ghost predicate IsStep(g: Graph, u: nat, v: nat, as_: seq<Address>) {
    v in Successors(g, u) && v != 0 && Picks(Accesses(g, u, v), as_)
  }

  function RunPath(t: Traits, m: Machine, run: seq<seq<Address>>): (r: Machine)
    requires TraitsValid(t) && |m| == t.nSets
    ensures |r| == t.nSets
    decreases |run|
  {
    if run == [] then m else RunAccesses(t, RunPath(t, m, run[..|run| - 1]), run[|run| - 1])
  }

  ghost predicate GraphCovered(t: Traits, g: Graph)
    requires TraitsValid(t) && GraphValid(g)
  {
    forall e :: e in g.weight ==> AllCovered(t, g.weight[e])
  }

  /** When the iteration has come to its end, the state of every node describes the cache
      at that node on every run that started with the empty cache. */
  lemma {:induction false} EveryRunDescribed(t: Traits, foreign: seq<Address>, g: Graph, s: States,
                                             p: seq<nat>, run: seq<seq<Address>>, m: Machine)
    requires StatesValid(t, g, s) && PostFixpoint(t, foreign, g, s) && GraphCovered(t, g)
    requires IsRun(g, p, run) && |m| == t.nSets && forall i :: 0 <= i < |m| ==> m[i] == []
    ensures p[|p| - 1] in s && CacheDescribes(t, s[p[|p| - 1]], RunPath(t, m, run))
    decreases |run|
  {
    if run == [] {
      CacheInitSound(t, m, true);
    } else {
      var k := |run| - 1;
      var u, v := p[k], p[k + 1];
      assert p[..k + 1][|p[..k + 1]| - 1] == u;
      EveryRunDescribed(t, foreign, g, s, p[..k + 1], run[..k], m);
      assert IsStep(g, u, v, run[k]);
      assert Reached(t, foreign, g, s, u, v);
      EdgeSound(t, foreign, s[u], RunPath(t, m, run[..k]), Accesses(g, u, v), run[k]);
      CacheLeqSound(t, Effect(t, foreign, g, s, u, v), s[v], RunPath(t, m, run));
    }
  }

  /** End to end: on every run, every hit and every miss the analysis claims at the end of
      the path happens. */
  lemma EveryClaimTrue(t: Traits, g: Graph, s: States, rank: map<nat, nat>,
                       p: seq<nat>, run: seq<seq<Address>>, m: Machine, lo: Address, hi: Address, a: Address)
    requires Exit(t, [], g, s, rank) && GraphCovered(t, g)
    requires IsRun(g, p, run) && |m| == t.nSets && forall i :: 0 <= i < |m| ==> m[i] == []
    requires lo <= a <= hi
    ensures p[|p| - 1] in s
    ensures AllClaim(t, [], s[p[|p| - 1]], lo, hi, Hit) ==> IsCached(t, RunPath(t, m, run), a)
    ensures AllClaim(t, [], s[p[|p| - 1]], lo, hi, Miss) ==> !IsCached(t, RunPath(t, m, run), a)
  {
    EveryRunDescribed(t, [], g, s, p, run, m);
    AllClaimSound(t, s[p[|p| - 1]], RunPath(t, m, run), lo, hi, a);
  }

  /** An edge that contributes less than the state of its target. */
  ghost predicate StrictEdge(t: Traits, foreign: seq<Address>, g: Graph, s: States, u: nat, v: nat)
    requires StatesValid(t, g, s)
  {
    u in s && v in Successors(g, u) && v != 0 && v in s && Effect(t, foreign, g, s, u, v) != s[v]
  }
}
