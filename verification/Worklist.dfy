/** A worklist on a finite relation: a visit takes a node off it and may put successors on.
    It empties, in whatever order nodes are taken, unless a cycle lies ahead of it. */
module Worklist {

  type Edges = map<nat, set<nat>>

  function Succ(e: Edges, u: nat): set<nat> {
    if u in e then e[u] else {}
  }

  ghost function Nodes(e: Edges): (r: set<nat>)
    ensures forall u, v :: v in Succ(e, u) ==> v in r
  {
    set u, v | u in e && v in e[u] :: v
  }

  ghost predicate IsWalk(e: Edges, p: seq<nat>) {
    |p| > 0 && (|p| > 1 ==> p[1] in Succ(e, p[0]) && IsWalk(e, p[1..]))
  }

  /** There is a walk of at least one edge. */
  ghost predicate Leads(e: Edges, u: nat, v: nat) {
    exists p :: IsWalk(e, p) && |p| > 1 && p[0] == u && p[|p| - 1] == v
  }

  ghost predicate OnCycle(e: Edges, u: nat) {
    Leads(e, u, u)
  }

  ghost predicate Acyclic(e: Edges) {
    forall u :: !OnCycle(e, u)
  }

  /** From some node of the worklist a cycle can be reached. */
  ghost predicate CycleAhead(e: Edges, work: set<nat>) {
    exists u, c :: u in work && (u == c || Leads(e, u, c)) && OnCycle(e, c)
  }

  lemma EdgeLeads(e: Edges, u: nat, v: nat)
    requires v in Succ(e, u)
    ensures Leads(e, u, v)
  {
    var p := [u, v];
    assert p[1..] == [v];
    assert IsWalk(e, p);
  }

  lemma {:induction false} WalkJoins(e: Edges, p: seq<nat>, q: seq<nat>)
    requires IsWalk(e, p) && IsWalk(e, q) && p[|p| - 1] == q[0]
    ensures IsWalk(e, p + q[1..])
    decreases |p|
  {
    if |p| == 1 {
      assert p + q[1..] == q;
    } else {
      WalkJoins(e, p[1..], q);
      assert (p + q[1..])[1..] == p[1..] + q[1..];
    }
  }

  lemma LeadsOn(e: Edges, u: nat, v: nat, w: nat)
    requires Leads(e, u, v) && Leads(e, v, w)
    ensures Leads(e, u, w)
  {
    var p :| IsWalk(e, p) && |p| > 1 && p[0] == u && p[|p| - 1] == v;
    var q :| IsWalk(e, q) && |q| > 1 && q[0] == v && q[|q| - 1] == w;
    WalkJoins(e, p, q);
    var r := p + q[1..];
    assert r[0] == u && r[|r| - 1] == w;
  }

  /** A walk begins with an edge. */
  lemma FirstEdge(e: Edges, u: nat, v: nat) returns (x: nat)
    requires Leads(e, u, v)
    ensures x in Succ(e, u) && (x == v || Leads(e, x, v))
  {
    var p :| IsWalk(e, p) && |p| > 1 && p[0] == u && p[|p| - 1] == v;
    x := p[1];
    if |p| > 2 {
      var q := p[1..];
      assert IsWalk(e, q) && q[0] == x && q[|q| - 1] == v;
    }
  }

  lemma {:induction false} WalkEnds(e: Edges, p: seq<nat>)
    requires IsWalk(e, p) && |p| > 1
    ensures p[|p| - 1] in Nodes(e)
    decreases |p|
  {
    if |p| > 2 {
      WalkEnds(e, p[1..]);
    }
  }

  lemma {:induction false} RankedWalk(e: Edges, rank: nat -> nat, p: seq<nat>)
    requires forall u: nat, v: nat :: v in Succ(e, u) ==> rank(u) < rank(v)
    requires IsWalk(e, p) && |p| > 1
    ensures rank(p[0]) < rank(p[|p| - 1])
    decreases |p|
  {
    assert p[1] in Succ(e, p[0]);
    if |p| > 2 {
      RankedWalk(e, rank, p[1..]);
    }
  }

  /** Edges along which a rank grows form no cycle. */
  lemma RankedIsAcyclic(e: Edges, rank: nat -> nat)
    requires forall u: nat, v: nat :: v in Succ(e, u) ==> rank(u) < rank(v)
    ensures Acyclic(e)
  {
    forall u ensures !OnCycle(e, u) {
      forall p | IsWalk(e, p) && |p| > 1 ensures p[0] != p[|p| - 1] {
        RankedWalk(e, rank, p);
      }
    }
  }

  // ---- acyclic: a potential ----------------------------------------------------------

  /** How many nodes lie ahead of a node. */
  ghost function Rank(e: Edges, u: nat): nat {
    |Ahead(e, u)|
  }

  ghost function Ahead(e: Edges, u: nat): set<nat> {
    set w | w in Nodes(e) && Leads(e, u, w)
  }

  lemma SubsetSize(a: set<nat>, b: set<nat>)
    requires a <= b
    ensures |a| <= |b|
    ensures a != b ==> |a| < |b|
  {
    assert b == a + (b - a);
  }

  lemma RankFalls(e: Edges, u: nat, v: nat)
    requires v in Succ(e, u) && !OnCycle(e, v)
    ensures Rank(e, v) < Rank(e, u)
  {
    EdgeLeads(e, u, v);
    forall w | w in Ahead(e, v) ensures w in Ahead(e, u) {
      LeadsOn(e, u, v, w);
    }
    assert v in Ahead(e, u) && v !in Ahead(e, v);
    SubsetSize(Ahead(e, v), Ahead(e, u));
  }

  function Power(b: nat, n: nat): (r: nat)
    ensures b >= 1 ==> r >= 1
  {
    if n == 0 then 1 else
      var r := Power(b, n - 1);
      assert b >= 1 ==> b * r >= r by { if b >= 1 { Product(b - 1, r); assert b * r == (b - 1) * r + r; } }
      b * r
  }

  lemma Product(a: nat, b: nat)
    ensures a * b >= 0
  {
  }

  lemma ProductLeq(a: nat, b: nat, c: nat)
    requires a <= b
    ensures a * c <= b * c
  {
    Product(b - a, c);
    assert b * c == a * c + (b - a) * c;
  }

  lemma {:induction false} PowerGrows(b: nat, m: nat, n: nat)
    requires b >= 1 && m <= n
    ensures Power(b, m) <= Power(b, n)
    decreases n
  {
    if m < n {
      PowerGrows(b, m, n - 1);
      ProductLeq(1, b, Power(b, n - 1));
    }
  }

  /** A node weighs more than all its successors together. */
  ghost function Weight(e: Edges, u: nat): (r: nat)
    ensures r >= 1
  {
    Power(|Nodes(e)| + 1, Rank(e, u))
  }

  ghost function Weights(e: Edges): nat -> nat {
    (u: nat) => Weight(e, u)
  }

  ghost function Sum(w: nat -> nat, work: set<nat>): nat {
    if work == {} then 0
    else
      var u :| u in work;
      w(u) + Sum(w, work - {u})
  }

  lemma {:induction false} SumWithout(w: nat -> nat, work: set<nat>, x: nat)
    requires x in work
    ensures Sum(w, work) == w(x) + Sum(w, work - {x})
    decreases |work|
  {
    var u :| u in work && Sum(w, work) == w(u) + Sum(w, work - {u});
    if u != x {
      SumWithout(w, work - {u}, x);
      SumWithout(w, work - {x}, u);
      assert work - {u} - {x} == work - {x} - {u};
    }
  }

  lemma {:induction false} SumSubset(w: nat -> nat, work: set<nat>, a: set<nat>)
    requires work <= a
    ensures Sum(w, work) <= Sum(w, a)
    decreases |work|
  {
    if work != {} {
      var x :| x in work;
      SumWithout(w, work, x);
      SumWithout(w, a, x);
      SumSubset(w, work - {x}, a - {x});
    }
  }

  lemma {:induction false} SumUnion(w: nat -> nat, a: set<nat>, b: set<nat>)
    ensures Sum(w, a + b) <= Sum(w, a) + Sum(w, b)
    decreases |b|
  {
    if b == {} {
      assert a + b == a;
    } else {
      var x :| x in b;
      SumWithout(w, b, x);
      SumUnion(w, a, b - {x});
      if x in a {
        assert a + (b - {x}) == a + b;
      } else {
        SumWithout(w, a + b, x);
        assert a + b - {x} == a + (b - {x});
      }
    }
  }

  lemma {:induction false} SumBound(w: nat -> nat, work: set<nat>, most: nat)
    requires forall u :: u in work ==> w(u) <= most
    ensures Sum(w, work) <= |work| * most
    decreases |work|
  {
    if work != {} {
      var x :| x in work;
      SumWithout(w, work, x);
      SumBound(w, work - {x}, most);
      OneMore(|work - {x}|, most);
    }
  }

  lemma OneMore(n: nat, m: nat)
    ensures (n + 1) * m == n * m + m
  {
  }

  ghost function Total(e: Edges, work: set<nat>): nat {
    Sum(Weights(e), work)
  }

  function Numbers(m: nat): (r: set<nat>)
    ensures forall u: nat :: u in r <==> u < m
    ensures |r| == m
  {
    if m == 0 then {} else Numbers(m - 1) + {m - 1}
  }

  lemma {:induction false} PowerOfMore(b: nat, b': nat, n: nat)
    requires 1 <= b <= b'
    ensures Power(b, n) <= Power(b', n)
  {
    if n > 0 {
      PowerOfMore(b, b', n - 1);
      ProductLeq(b, b', Power(b, n - 1));
      ProductLeq(Power(b, n - 1), Power(b', n - 1), b');
    }
  }

  /** The most that nodes below `m` can weigh. */
  function MostWeight(m: nat): nat {
    Product(m, Power(m + 1, m));
    m * Power(m + 1, m)
  }

  lemma RankBound(e: Edges, u: nat, m: nat)
    requires Nodes(e) <= Numbers(m)
    ensures Rank(e, u) <= |Nodes(e)| <= m
  {
    SubsetSize(Nodes(e), Numbers(m));
    SubsetSize(Ahead(e, u), Nodes(e));
  }

  lemma WeightBound(e: Edges, u: nat, m: nat)
    requires Nodes(e) <= Numbers(m)
    ensures Weight(e, u) <= Power(m + 1, m)
  {
    RankBound(e, u, m);
    PowerOfMore(|Nodes(e)| + 1, m + 1, Rank(e, u));
    PowerGrows(m + 1, Rank(e, u), m);
  }

  lemma TotalBound(e: Edges, work: set<nat>, m: nat)
    requires Nodes(e) <= Numbers(m) && work <= Numbers(m)
    ensures Total(e, work) <= MostWeight(m)
  {
    var most := Power(m + 1, m);
    forall u | u in work ensures Weights(e)(u) <= most {
      WeightBound(e, u, m);
    }
    SumBound(Weights(e), work, most);
    SubsetSize(work, Numbers(m));
    ProductLeq(|work|, m, most);
  }

  lemma SuccessorsWeighLess(e: Edges, u: nat)
    requires forall v :: v in Succ(e, u) ==> !OnCycle(e, v)
    ensures Total(e, Succ(e, u)) < Weight(e, u)
  {
    var b, r := |Nodes(e)| + 1, Rank(e, u);
    if Succ(e, u) != {} {
      var x :| x in Succ(e, u);
      RankFalls(e, u, x);
      forall v | v in Succ(e, u) ensures Weights(e)(v) <= Power(b, r - 1) {
        RankFalls(e, u, v);
        PowerGrows(b, Rank(e, v), r - 1);
      }
      SumBound(Weights(e), Succ(e, u), Power(b, r - 1));
      SubsetSize(Succ(e, u), Nodes(e));
      PowerOutweighs(b, |Succ(e, u)|, r);
    }
  }

  lemma PowerOutweighs(b: nat, n: nat, r: nat)
    requires n < b && r > 0
    ensures n * Power(b, r - 1) < Power(b, r)
  {
    ProductLeq(n, b - 1, Power(b, r - 1));
    OneMore(b - 1, Power(b, r - 1));
  }

  /** A cycle that lies ahead after a visit lay ahead before it. */
  lemma CycleLayAhead(e: Edges, work: set<nat>, u: nat, work': set<nat>)
    requires u in work && work' <= (work - {u}) + Succ(e, u) && CycleAhead(e, work')
    ensures CycleAhead(e, work)
  {
    var w, c :| w in work' && (w == c || Leads(e, w, c)) && OnCycle(e, c);
    if w !in work {
      EdgeLeads(e, u, w);
      if w != c { LeadsOn(e, u, w, c); }
      assert u in work && Leads(e, u, c);
    }
  }

  /** Where no cycle lies ahead every visit lowers the total weight, whatever successors it puts
      on the worklist. */
  lemma VisitLowers(e: Edges, work: set<nat>, u: nat, work': set<nat>)
    requires u in work && work' <= (work - {u}) + Succ(e, u) && !CycleAhead(e, work)
    ensures Total(e, work') < Total(e, work)
  {
    forall v | v in Succ(e, u) ensures !OnCycle(e, v) {
      EdgeLeads(e, u, v);
    }
    SuccessorsWeighLess(e, u);
    SumSubset(Weights(e), work', (work - {u}) + Succ(e, u));
    SumUnion(Weights(e), work - {u}, Succ(e, u));
    SumWithout(Weights(e), work, u);
  }

  /** Where a cycle lies ahead, it stays ahead as long as every visit puts all successors on
      the worklist, so that never empties. */
  lemma CycleStays(e: Edges, work: set<nat>, u: nat)
    requires u in work && CycleAhead(e, work)
    ensures CycleAhead(e, (work - {u}) + Succ(e, u))
  {
    var w, c :| w in work && (w == c || Leads(e, w, c)) && OnCycle(e, c);
    if w == u {
      var x := FirstEdge(e, u, c);
      assert x in (work - {u}) + Succ(e, u);
    } else {
      assert w in (work - {u}) + Succ(e, u);
    }
  }

  /** `a` below `h` blocks of size `top`: falls with `h`, and among equal `h` with `a`. */
  function Stacked(h: nat, top: nat, a: nat): nat {
    if h == 0 then a else top + Stacked(h - 1, top, a)
  }

  lemma {:induction false} LessStacked(h: nat, top: nat, a: nat, a': nat)
    requires a' < a
    ensures Stacked(h, top, a') < Stacked(h, top, a)
  {
    if h > 0 {
      LessStacked(h - 1, top, a, a');
    }
  }

  lemma {:induction false} LowerStack(h: nat, h': nat, top: nat, a: nat, a': nat)
    requires h' < h && a' < top
    ensures Stacked(h', top, a') < Stacked(h, top, a)
    decreases h
  {
    if h' > 0 {
      LowerStack(h - 1, h' - 1, top, a, a');
    }
  }
}
