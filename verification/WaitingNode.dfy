/** Graphs on which the order of visits decides: taking the smallest node first the iteration
    never ends, since the node that would settle the loop keeps waiting; in other orders it
    does. */
module WaitingNode {
  import opened Lru
  import opened CacheSets
  import opened AddressMapping
  import opened AbstractCache
  import opened Reports
  import opened GraphIterator
  import opened GraphTermination
  import opened VisitOrder
  import W = Worklist

  /** Nodes 1 and 2 form a loop with two ways in. Node 3 leads to it as well, from a state that
      knows as little as the start. */
  function Waiting(a: Address, b: Address): Graph {
    Graph(map[0 := {1, 2, 3}, 1 := {2}, 2 := {1}, 3 := {2}],
          map[(0, 2) := [Interval(a, a)], (1, 2) := [Interval(b, b), Interval(a, a)]])
  }

  ghost predicate IsWaiting(g: Graph, a: Address, b: Address) {
    && GraphValid(g)
    && Successors(g, 0) == {1, 2, 3} && Successors(g, 1) == {2} && Successors(g, 2) == {1} && Successors(g, 3) == {2}
    && (forall u: nat :: u > 3 ==> Successors(g, u) == {})
    && Accesses(g, 0, 2) == [Interval(a, a)] && Accesses(g, 1, 2) == [Interval(b, b), Interval(a, a)]
    && Accesses(g, 0, 1) == [] && Accesses(g, 0, 3) == [] && Accesses(g, 2, 1) == [] && Accesses(g, 3, 2) == []
  }

  // ---- what is known to be cached --------------------------------------------------------

  predicate Lists(t: Traits, cs: seq<CacheSet>, a: Address)
    requires TraitsValid(t) && |cs| == t.nSets
  {
    TagOf(t, a) in cs[IndexOf(t, a)].must
  }

  function After(t: Traits, foreign: seq<Address>, cs: seq<CacheSet>, a: Address): (r: seq<CacheSet>)
    requires TraitsValid(t) && |cs| == t.nSets
    ensures |r| == t.nSets
  {
    CacheUpdate(t, foreign, cs, a, a, Unknown)
  }

  lemma OtherBlock(t: Traits, a: Address, b: Address)
    requires TraitsValid(t) && Line(t, a) != Line(t, b)
    ensures IndexOf(t, a) != IndexOf(t, b) || TagOf(t, a) != TagOf(t, b)
  {
  }

  lemma AccessedIsListed(t: Traits, foreign: seq<Address>, cs: seq<CacheSet>, a: Address)
    requires TraitsValid(t) && CacheValid(t, cs)
    ensures Lists(t, After(t, foreign, cs, a), a)
  {
  }

  lemma SetKeepsRecent(c: CacheSet, t: Tag, b: Tag, assumption: Classification, level: nat, cnn: nat, ways: nat)
    requires SetValid(c, ways) && 2 <= ways && b in c.must && c.must[b] == 0
    ensures b in SetUpdate(c, t, assumption, level, cnn, ways).must
  {
  }

  /** With two ways or more, the block accessed before is still listed. */
  lemma PreviousIsListed(t: Traits, foreign: seq<Address>, cs: seq<CacheSet>, a: Address, b: Address)
    requires TraitsValid(t) && CacheValid(t, cs) && t.ways >= 2
    ensures Lists(t, After(t, foreign, After(t, foreign, cs, b), a), b)
  {
    var i, tag := IndexOf(t, b), TagOf(t, b);
    var x := After(t, foreign, cs, b);
    assert tag in x[i].must && x[i].must[tag] == 0;
    CacheUpdateValid(t, foreign, cs, b, b, Unknown);
    assert SetValid(x[i], t.ways);
    SetKeepsRecent(x[i], TagOf(t, a), tag, Unknown, t.level, ConflictCount(t, foreign, i, TagOf(t, a)), t.ways);
  }

  lemma OthersStayUnlisted(t: Traits, foreign: seq<Address>, cs: seq<CacheSet>, a: Address, b: Address)
    requires TraitsValid(t) && CacheValid(t, cs) && Line(t, a) != Line(t, b) && !Lists(t, cs, b)
    ensures !Lists(t, After(t, foreign, cs, a), b)
  {
    OtherBlock(t, a, b);
    assert SetValid(cs[IndexOf(t, b)], t.ways);
  }

  lemma OneAccess(t: Traits, foreign: seq<Address>, cs: seq<CacheSet>, a: Address)
    requires TraitsValid(t) && |cs| == t.nSets
    ensures EdgeUpdate(t, foreign, cs, [Interval(a, a)]) == After(t, foreign, cs, a)
  {
    assert [Interval(a, a)][..0] == [];
  }

  lemma TwoAccesses(t: Traits, foreign: seq<Address>, cs: seq<CacheSet>, b: Address, a: Address)
    requires TraitsValid(t) && |cs| == t.nSets
    ensures EdgeUpdate(t, foreign, cs, [Interval(b, b), Interval(a, a)])
         == After(t, foreign, After(t, foreign, cs, b), a)
  {
    OneAccess(t, foreign, cs, b);
    assert [Interval(b, b), Interval(a, a)][..1] == [Interval(b, b)];
  }

  /** An edge that contributes what lists a block where its target does not, or the other way
      round, queues the target, which then lists what both do. */
  lemma DifferentIsQueued(t: Traits, foreign: seq<Address>, g: Graph, it: Iteration, next: nat, n: nat, p: Address)
    requires IterationValid(t, g, it) && next in it.states && n != 0 && n in it.states
    requires |Effect(t, foreign, g, it.states, next, n)| == t.nSets == |it.states[n]|
    requires Lists(t, Effect(t, foreign, g, it.states, next, n), p) != Lists(t, it.states[n], p)
    ensures var c := CacheJoin(it.states[n], Effect(t, foreign, g, it.states, next, n));
      && Passed(t, foreign, g, it, next, n) == Iteration(it.states[n := c], it.worklist + {n})
      && forall q :: Lists(t, c, q) <==>
           Lists(t, it.states[n], q) && Lists(t, Effect(t, foreign, g, it.states, next, n), q)
  {
  }

  // ---- the smallest first ------------------------------------------------------------------

  /** Node 1 does not list `a`, node 2 lists it but does not list `b`, and one of them is
      queued. */
  ghost predicate Circling(t: Traits, g: Graph, a: Address, b: Address, it: Iteration)
    requires IterationValid(t, g, it)
  {
    && 1 in it.states && 2 in it.states && 0 !in it.worklist
    && !Lists(t, it.states[1], a) && Lists(t, it.states[2], a) && !Lists(t, it.states[2], b)
    && (1 in it.worklist || 2 in it.worklist)
  }

  lemma OnlyTarget(order: seq<nat>, n: nat)
    requires IsOrder(order, {n})
    ensures order == [n]
  {
    ElementsSize(order);
    assert order[0] in Elements(order);
  }

  lemma OneTarget(t: Traits, foreign: seq<Address>, g: Graph, it: Iteration, next: nat, n: nat, r: Iteration)
    requires IsVisit(t, foreign, g, it, next, r) && Successors(g, next) == {n}
    ensures r == Passed(t, foreign, g, Iteration(it.states, it.worklist - {next}), next, n)
  {
    var begun := Iteration(it.states, it.worklist - {next});
    var order :| IsOrder(order, Successors(g, next)) && r == VisitedIn(t, foreign, g, begun, next, order);
    OnlyTarget(order, n);
    assert order[..0] == [] && VisitedIn(t, foreign, g, begun, next, order[..0]) == begun;
    assert order[|order| - 1] == n;
  }

  lemma LoopBody(t: Traits, foreign: seq<Address>, cs: seq<CacheSet>, a: Address, b: Address)
    requires TraitsValid(t) && CacheValid(t, cs) && t.ways >= 2
    ensures Lists(t, EdgeUpdate(t, foreign, cs, [Interval(b, b), Interval(a, a)]), a)
    ensures Lists(t, EdgeUpdate(t, foreign, cs, [Interval(b, b), Interval(a, a)]), b)
  {
    TwoAccesses(t, foreign, cs, b, a);
    CacheUpdateValid(t, foreign, cs, b, b, Unknown);
    AccessedIsListed(t, foreign, After(t, foreign, cs, b), a);
    PreviousIsListed(t, foreign, cs, a, b);
  }

  /** What a visit to node 1 does to the states and the worklist. */
  lemma BodyQueues(t: Traits, foreign: seq<Address>, g: Graph, a: Address, b: Address, it: Iteration, r: Iteration)
    requires IsVisit(t, foreign, g, it, 1, r) && Successors(g, 1) == {2}
    requires Accesses(g, 1, 2) == [Interval(b, b), Interval(a, a)]
    requires t.ways >= 2 && 2 in it.states && !Lists(t, it.states[2], b)
    ensures r.states.Keys == it.states.Keys && r.states[1] == it.states[1] && |r.states[2]| == t.nSets
    ensures r.worklist == it.worklist - {1} + {2}
    ensures !Lists(t, r.states[2], b) && (Lists(t, it.states[2], a) ==> Lists(t, r.states[2], a))
  {
    OneTarget(t, foreign, g, it, 1, 2, r);
    LoopBody(t, foreign, it.states[1], a, b);
    DifferentIsQueued(t, foreign, g, Iteration(it.states, it.worklist - {1}), 1, 2, b);
  }

  lemma CircleFrom1(t: Traits, foreign: seq<Address>, g: Graph, a: Address, b: Address, it: Iteration, r: Iteration)
    requires IsWaiting(g, a, b)
    requires IsVisit(t, foreign, g, it, 1, r)
    requires t.ways >= 2 && Circling(t, g, a, b, it)
    ensures IterationValid(t, g, r) && Circling(t, g, a, b, r)
  {
    VisitIsValid(t, foreign, g, it, 1, r);
    BodyQueues(t, foreign, g, a, b, it, r);
  }

  lemma CircleFrom2(t: Traits, foreign: seq<Address>, g: Graph, a: Address, b: Address, it: Iteration, r: Iteration)
    requires IsWaiting(g, a, b)
    requires IsVisit(t, foreign, g, it, 2, r) && Circling(t, g, a, b, it)
    ensures IterationValid(t, g, r) && Circling(t, g, a, b, r)
  {
    var s := it.states;
    OneTarget(t, foreign, g, it, 2, 1, r);
    assert Effect(t, foreign, g, s, 2, 1) == s[2];
    DifferentIsQueued(t, foreign, g, Iteration(s, it.worklist - {2}), 2, 1, a);
  }

  lemma CircleOn(t: Traits, foreign: seq<Address>, g: Graph, a: Address, b: Address, it: Iteration, next: nat,
                 r: Iteration)
    requires IsWaiting(g, a, b)
    requires IsVisit(t, foreign, g, it, next, r) && Smallest(it.worklist, next)
    requires t.ways >= 2 && Circling(t, g, a, b, it)
    ensures IterationValid(t, g, r) && Circling(t, g, a, b, r)
  {
    if next == 1 {
      CircleFrom1(t, foreign, g, a, b, it, r);
    } else {
      assert next == 2;
      CircleFrom2(t, foreign, g, a, b, it, r);
    }
  }

  // ---- the first visit ---------------------------------------------------------------------

  lemma NewNode(t: Traits, foreign: seq<Address>, g: Graph, it: Iteration, n: nat)
    requires IterationValid(t, g, it) && n !in it.states
    ensures Passed(t, foreign, g, it, 0, n)
         == Iteration(it.states[n := Effect(t, foreign, g, Started(t).states, 0, n)], it.worklist + {n})
  {
  }

  /** The first visit gives each node its state and queues it. */
  lemma {:induction false} FirstVisit(t: Traits, foreign: seq<Address>, g: Graph, order: seq<nat>)
    requires TraitsValid(t) && IterationValid(t, g, Iteration(Started(t).states, {}))
    requires Distinct(order) && 0 !in Elements(order)
    ensures var r := VisitedIn(t, foreign, g, Iteration(Started(t).states, {}), 0, order);
      && r.states.Keys == {0} + Elements(order) && r.worklist == Elements(order)
      && forall n :: n in Elements(order) ==> r.states[n] == Effect(t, foreign, g, Started(t).states, 0, n)
    decreases |order|
  {
    if order != [] {
      var k := |order| - 1;
      assert order[k] in Elements(order) && order[k] !in Elements(order[..k]);
      assert Elements(order) == Elements(order[..k]) + {order[k]};
      FirstVisit(t, foreign, g, order[..k]);
      NewNode(t, foreign, g, VisitedIn(t, foreign, g, Iteration(Started(t).states, {}), 0, order[..k]), order[k]);
    }
  }

  lemma FirstStates(t: Traits, foreign: seq<Address>, g: Graph, a: Address, b: Address, r: Iteration)
    requires IsWaiting(g, a, b)
    requires TraitsValid(t) && IsVisit(t, foreign, g, Started(t), 0, r)
    ensures IterationValid(t, g, r) && {1, 2} <= r.states.Keys && r.worklist == {1, 2, 3}
    ensures r.states[1] == CacheInit(t, true) && r.states[2] == After(t, foreign, CacheInit(t, true), a)
  {
    var order :| IsOrder(order, Successors(g, 0))
      && r == VisitedIn(t, foreign, g, Iteration(Started(t).states, Started(t).worklist - {0}), 0, order);
    assert Started(t).worklist - {0} == {};
    FirstVisit(t, foreign, g, order);
    assert 1 in Elements(order) && 2 in Elements(order);
    OneAccess(t, foreign, CacheInit(t, true), a);
  }

  lemma CirclingBegins(t: Traits, foreign: seq<Address>, g: Graph, a: Address, b: Address, r: Iteration)
    requires IsWaiting(g, a, b)
    requires TraitsValid(t) && Line(t, a) != Line(t, b)
    requires IsVisit(t, foreign, g, Started(t), 0, r)
    ensures IterationValid(t, g, r) && Circling(t, g, a, b, r)
  {
    FirstStates(t, foreign, g, a, b, r);
    assert CacheValid(t, Started(t).states[0]);
    AccessedIsListed(t, foreign, CacheInit(t, true), a);
    OthersStayUnlisted(t, foreign, CacheInit(t, true), a, b);
  }

  lemma {:induction false} CirclesOn(t: Traits, foreign: seq<Address>, g: Graph, a: Address, b: Address,
                                     its: seq<Iteration>, visits: seq<nat>, k: nat)
    requires IsWaiting(g, a, b)
    requires IsIteration(t, foreign, g, its, visits) && SmallestFirst(its, visits) && 0 < k <= |visits|
    requires t.ways >= 2 && Line(t, a) != Line(t, b)
    ensures IterationValid(t, g, its[k]) && Circling(t, g, a, b, its[k])
  {
    assert IsVisit(t, foreign, g, its[k - 1], visits[k - 1], its[k - 1 + 1]);
    if k == 1 {
      CirclingBegins(t, foreign, g, a, b, its[1]);
    } else {
      CirclesOn(t, foreign, g, a, b, its, visits, k - 1);
      CircleOn(t, foreign, g, a, b, its[k - 1], visits[k - 1], its[k]);
    }
  }

  // ---- other orders ----------------------------------------------------------------------------

  lemma LoopOrder(t: Traits, foreign: seq<Address>, g: Graph, a: Address, b: Address, s: States)
    requires IsWaiting(g, a, b) && IsFixpoint(t, foreign, g, s)
    ensures 1 in s && 2 in s && 3 in s && CacheLeq(t, s[0], s[2]) && CacheLeq(t, s[2], s[1])
  {
    assert Reached(t, foreign, g, s, 0, 1) && Reached(t, foreign, g, s, 0, 2) && Reached(t, foreign, g, s, 0, 3);
    assert Reached(t, foreign, g, s, 2, 1) && Reached(t, foreign, g, s, 3, 2);
    CacheLeqIsOrder(t, s[0], s[3], s[2]);
  }

  lemma LowerBody(t: Traits, foreign: seq<Address>, g: Graph, s: States, s': States)
    requires StatesValid(t, g, s) && StatesValid(t, g, s') && 1 in s && 2 in s && 1 in s' && 2 in s' && s'[2] == s[2]
    requires CacheLeq(t, s'[1], s[1]) && Reached(t, foreign, g, s, 1, 2)
    ensures Reached(t, foreign, g, s', 1, 2)
  {
    EdgeUpdateMonotone(t, foreign, s'[1], s[1], Accesses(g, 1, 2));
    EdgeUpdateValid(t, foreign, s'[1], Accesses(g, 1, 2));
    EdgeUpdateValid(t, foreign, s[1], Accesses(g, 1, 2));
    CacheLeqIsOrder(t, Effect(t, foreign, g, s', 1, 2), Effect(t, foreign, g, s, 1, 2), s[2]);
  }

  lemma LowerEntry(t: Traits, foreign: seq<Address>, g: Graph, s': States, u: nat)
    requires StatesValid(t, g, s') && u in s' && 1 in s' && Accesses(g, u, 1) == [] && CacheLeq(t, s'[u], s'[1])
    ensures Reached(t, foreign, g, s', u, 1)
  {
  }

  lemma LowerElsewhere(t: Traits, foreign: seq<Address>, g: Graph, s: States, s': States, u: nat, v: nat)
    requires StatesValid(t, g, s) && StatesValid(t, g, s') && u in s && u in s' && s'[u] == s[u]
    requires (v in s ==> v in s' && s'[v] == s[v]) && Reached(t, foreign, g, s, u, v)
    ensures Reached(t, foreign, g, s', u, v)
  {
  }

  lemma LoopEdges(g: Graph, a: Address, b: Address, u: nat, v: nat)
    requires IsWaiting(g, a, b) && v in Successors(g, u)
    ensures u == 1 ==> v == 2
    ensures u == 2 ==> v == 1
    ensures v == 1 ==> (u == 0 || u == 2) && Accesses(g, u, 1) == []
  {
  }

  lemma LoweredReached(t: Traits, foreign: seq<Address>, g: Graph, a: Address, b: Address, s: States, s': States,
                       u: nat, v: nat)
    requires IsWaiting(g, a, b) && IsFixpoint(t, foreign, g, s) && StatesValid(t, g, s')
    requires 1 in s && 2 in s && s' == s[1 := s[2]] && CacheLeq(t, s[0], s[2]) && CacheLeq(t, s[2], s[1])
    requires u in s && v in Successors(g, u)
    ensures Reached(t, foreign, g, s', u, v)
  {
    assert Reached(t, foreign, g, s, u, v);
    LoopEdges(g, a, b, u, v);
    if u == 1 {
      LowerBody(t, foreign, g, s, s');
    } else if v == 1 {
      CacheLeqIsOrder(t, s[2], s[2], s[2]);
      assert CacheLeq(t, s'[u], s'[1]);
      LowerEntry(t, foreign, g, s', u);
    } else {
      LowerElsewhere(t, foreign, g, s, s', u, v);
    }
  }

  /** The least states do not tell nodes 1 and 2 apart. */
  lemma LoopSettles(t: Traits, foreign: seq<Address>, g: Graph, a: Address, b: Address, s: States)
    requires IsWaiting(g, a, b)
    requires IsLeast(t, foreign, g, s)
    ensures 1 in s && 2 in s && s[1] == s[2]
  {
    LoopOrder(t, foreign, g, a, b, s);
    var s' := s[1 := s[2]];
    assert StatesValid(t, g, s');
    forall u, v | u in s' && v in Successors(g, u) ensures Reached(t, foreign, g, s', u, v) {
      LoweredReached(t, foreign, g, a, b, s, s', u, v);
    }
    assert IsFixpoint(t, foreign, g, s');
    assert StatesLeq(t, s, s');
    CacheLeqIsOrder(t, s[1], s[2], s[1]);
  }

  function Place(u: nat): nat {
    if u == 0 then 0 else if u == 2 then 2 else 1
  }

  lemma StrictGoesOn(t: Traits, foreign: seq<Address>, g: Graph, a: Address, b: Address, s: States, u: nat, v: nat)
    requires IsWaiting(g, a, b) && StatesValid(t, g, s) && 1 in s && 2 in s && s[1] == s[2]
    requires StrictEdge(t, foreign, g, s, u, v)
    ensures Place(u) < Place(v)
  {
  }

  lemma LoopIsOpen(t: Traits, foreign: seq<Address>, g: Graph, a: Address, b: Address, s: States)
    requires IsWaiting(g, a, b)
    requires IsLeast(t, foreign, g, s)
    ensures !StrictCycle(t, foreign, g, s)
  {
    LoopSettles(t, foreign, g, a, b, s);
    var e := StrictEdges(t, foreign, g, s);
    forall u: nat, v: nat | v in W.Succ(e, u) ensures Place(u) < Place(v) {
      StrictSuccessors(t, foreign, g, s, u);
      StrictGoesOn(t, foreign, g, a, b, s, u, v);
    }
    W.RankedIsAcyclic(e, Place);
  }

  /** On these graphs, taking the smallest node first never ends, and another order does. */
  lemma OrderDecides(t: Traits, foreign: seq<Address>, a: Address, b: Address)
    requires TraitsValid(t) && t.ways >= 2 && Line(t, a) != Line(t, b)
    ensures forall its: seq<Iteration>, visits: seq<nat> ::
              SmallestFirst(its, visits) ==> !Ends(t, foreign, Waiting(a, b), its, visits)
    ensures exists its: seq<Iteration>, visits: seq<nat> :: Ends(t, foreign, Waiting(a, b), its, visits)
  {
    var g := Waiting(a, b);
    assert IsWaiting(g, a, b);
    forall its: seq<Iteration>, visits: seq<nat> | SmallestFirst(its, visits)
      ensures !Ends(t, foreign, g, its, visits)
    {
      if IsIteration(t, foreign, g, its, visits) && |visits| > 0 {
        CirclesOn(t, foreign, g, a, b, its, visits, |visits|);
      }
    }
    var least, visited := LeastExists(t, foreign, g);
    LoopIsOpen(t, foreign, g, a, b, least[|visited|].states);
    SomeRunEndsIff(t, foreign, g, least[|visited|].states);
  }
}
