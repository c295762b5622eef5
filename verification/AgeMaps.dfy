/** The meaning of the must and may analyses of one cache set, as finite maps from
    blocks to age bounds: what each operation does to the bound of every block, why
    the result still describes the machine, and the lattice the joins live in.
    The classes of MustCache.dfy and MayCache.dfy implement exactly these maps. */
module AgeMaps {
  import opened Lru
  import opened Reports

  /** Upper age bounds. A block without an entry may have left the cache. */
  type Must = map<Tag, nat>

  /** Lower age bounds: one per listed block, and one for all the others. */
  datatype May = May(explicit: map<Tag, nat>, implicit: nat)

  function MaxAge(m: Must, t: Tag, ways: nat): nat {
    if t in m then m[t] else ways
  }

  function MinAge(m: May, t: Tag): nat {
    if t in m.explicit then m.explicit[t] else m.implicit
  }

  ghost predicate MustValid(m: Must, ways: nat) {
    forall t :: t in m ==> m[t] < ways
  }

  ghost predicate MayValid(m: May, ways: nat) {
    && m.implicit <= ways
    && forall t :: t in m.explicit ==> m.explicit[t] < m.implicit
  }

  ghost predicate MustDescribes(m: Must, s: Stack, ways: nat) {
    forall t :: Age(s, t, ways) <= MaxAge(m, t, ways)
  }

  ghost predicate MayDescribes(m: May, s: Stack, ways: nat) {
    forall t :: MinAge(m, t) <= Age(s, t, ways)
  }

  // ---- precise accesses ---------------------------------------------------

  /** The age the must analysis supposes the accessed block to have at most. */
  function AccessedAge(m: Must, t: Tag, assumeHit: bool, ways: nat): (limit: nat)
    requires 1 <= ways
  {
    if t in m then m[t] else if assumeHit then ways - 1 else ways
  }

  /** The age bound of a block after an access to `t` that ages the blocks with a
      bound below `limit`. */
  function NextAge(m: map<Tag, nat>, t: Tag, limit: nat, b: Tag): nat
    requires b in m.Keys + {t}
  {
    if b == t then 0 else if m[b] < limit then m[b] + 1 else m[b]
  }

  /** All bounds after such an access; bounds that reach `cap` are dropped. */
  function AgedBy(m: map<Tag, nat>, t: Tag, limit: nat, cap: nat): map<Tag, nat> {
    map b | b in m.Keys + {t} && NextAge(m, t, limit, b) < cap :: NextAge(m, t, limit, b)
  }

  /** The blocks such an access drops. */
  function Dropped(m: map<Tag, nat>, t: Tag, limit: nat, cap: nat): set<Tag> {
    m.Keys - AgedBy(m, t, limit, cap).Keys
  }

  function MustUpdate(m: Must, t: Tag, assumeHit: bool, ways: nat): (r: Must)
    requires 1 <= ways
  {
    AgedBy(m, t, AccessedAge(m, t, assumeHit, ways), ways)
  }

  function MayUpdate(m: May, t: Tag, ways: nat): (r: May) {
    var implicit := if t !in m.explicit && m.implicit < ways then m.implicit + 1 else m.implicit;
    May(AgedBy(m.explicit, t, MinAge(m, t) + 1, implicit), implicit)
  }

  /** The may update is pointwise: the accessed block gets age 0, every block that
      may have been at most as old as it ages by one, capped at the associativity,
      and all other bounds stand still. */
  lemma MayUpdatePointwise(m: May, t: Tag, ways: nat, b: Tag)
    requires 1 <= ways && MayValid(m, ways)
    ensures MayValid(MayUpdate(m, t, ways), ways)
    ensures MinAge(MayUpdate(m, t, ways), b)
         == if b == t then 0
            else if MinAge(m, b) <= MinAge(m, t) then
              (if MinAge(m, b) == ways then ways else MinAge(m, b) + 1)
            else MinAge(m, b)
  {
  }

  lemma MustUpdatePointwise(m: Must, t: Tag, assumeHit: bool, ways: nat, b: Tag)
    requires 1 <= ways && MustValid(m, ways)
    ensures MustValid(MustUpdate(m, t, assumeHit, ways), ways)
    ensures var limit := if assumeHit then Min(MaxAge(m, t, ways), ways - 1) else MaxAge(m, t, ways);
      MaxAge(MustUpdate(m, t, assumeHit, ways), b, ways)
      == if b == t then 0
         else if MaxAge(m, b, ways) < limit then MaxAge(m, b, ways) + 1
         else MaxAge(m, b, ways)
  {
  }

  lemma MustUpdateSound(m: Must, s: Stack, t: Tag, assumeHit: bool, ways: nat)
    requires 1 <= ways && MustValid(m, ways) && Distinct(s)
    requires MustDescribes(m, s, ways)
    requires assumeHit ==> Cached(s, t, ways)
    ensures MustDescribes(MustUpdate(m, t, assumeHit, ways), Touch(s, t), ways)
  {
    forall b ensures Age(Touch(s, t), b, ways) <= MaxAge(MustUpdate(m, t, assumeHit, ways), b, ways) {
      TouchAge(s, t, b, ways);
      MustUpdatePointwise(m, t, assumeHit, ways, b);
      assert Age(s, t, ways) <= MaxAge(m, t, ways) && Age(s, b, ways) <= MaxAge(m, b, ways);
    }
  }

  lemma MayUpdateSound(m: May, s: Stack, t: Tag, ways: nat)
    requires 1 <= ways && MayValid(m, ways) && Distinct(s)
    requires MayDescribes(m, s, ways)
    ensures MayDescribes(MayUpdate(m, t, ways), Touch(s, t), ways)
  {
    forall b ensures MinAge(MayUpdate(m, t, ways), b) <= Age(Touch(s, t), b, ways) {
      TouchAge(s, t, b, ways);
      MayUpdatePointwise(m, t, ways, b);
      assert MinAge(m, t) <= Age(s, t, ways) && MinAge(m, b) <= Age(s, b, ways);
      if b != t && Cached(s, t, ways) { AgesDiffer(s, t, b, ways); }
      if b != t && Cached(s, b, ways) { AgesDiffer(s, b, t, ways); }
    }
  }

  // ---- imprecise accesses -------------------------------------------------

  /** Some block, not necessarily of this set, is accessed: every bound grows. */
  function MustPotential(m: Must, ways: nat): (r: Must) {
    map b | b in m && m[b] + 1 < ways :: m[b] + 1
  }

  /** How many tags an address interval may span before the may analysis gives up. */
  const MAX_WORTHWHILE_TAGS := 4

  function TagRange(low: Tag, high: Tag): (r: set<Tag>)
    ensures forall t :: t in r <==> low <= t <= high
    decreases high + 1 - low
  {
    if low > high then {} else {low} + TagRange(low + 1, high)
  }

  /** A block with a tag of `low..high`, or none, is accessed. */
  function MayPotential(m: May, low: Tag, high: Tag): (r: May) {
    if m.implicit == 0 then m
    else if high - low + 1 > MAX_WORTHWHILE_TAGS then May(map[], 0)
    else May(m.explicit + (map b | b in TagRange(low, high) :: 0), m.implicit)
  }

  /** Every upper bound grows by one, up to the associativity. */
  lemma MustPotentialPointwise(m: Must, ways: nat, b: Tag)
    requires 1 <= ways && MustValid(m, ways)
    ensures MaxAge(MustPotential(m, ways), b, ways) == Min(MaxAge(m, b, ways) + 1, ways)
  {
  }

  /** Lower bounds of the range fall to 0, and all of them if it has more than four tags. */
  lemma MayPotentialPointwise(m: May, low: Tag, high: Tag, ways: nat, b: Tag)
    requires MayValid(m, ways) && low <= high
    ensures MinAge(MayPotential(m, low, high), b) == if low <= b <= high || high - low >= 4 then 0 else MinAge(m, b)
  {
  }

  lemma MustPotentialSound(m: Must, s: Stack, t: Tag, ways: nat)
    requires 1 <= ways && MustValid(m, ways) && Distinct(s)
    requires MustDescribes(m, s, ways)
    ensures MustValid(MustPotential(m, ways), ways)
    ensures MustDescribes(MustPotential(m, ways), s, ways)
    ensures MustDescribes(MustPotential(m, ways), Touch(s, t), ways)
  {
    forall b
      ensures Age(s, b, ways) <= MaxAge(MustPotential(m, ways), b, ways)
      ensures Age(Touch(s, t), b, ways) <= MaxAge(MustPotential(m, ways), b, ways)
    {
      TouchAge(s, t, b, ways);
      assert Age(s, b, ways) <= MaxAge(m, b, ways);
    }
  }

  lemma MayPotentialSound(m: May, s: Stack, t: Tag, low: Tag, high: Tag, ways: nat)
    requires 1 <= ways && MayValid(m, ways) && Distinct(s)
    requires MayDescribes(m, s, ways)
    ensures MayValid(MayPotential(m, low, high), ways)
    ensures MayDescribes(MayPotential(m, low, high), s, ways)
    ensures low <= t <= high ==> MayDescribes(MayPotential(m, low, high), Touch(s, t), ways)
  {
    forall b
      ensures MinAge(MayPotential(m, low, high), b) <= Age(s, b, ways)
      ensures low <= t <= high ==> MinAge(MayPotential(m, low, high), b) <= Age(Touch(s, t), b, ways)
    {
      TouchAge(s, t, b, ways);
      assert MinAge(m, b) <= Age(s, b, ways);
    }
  }

  // ---- initial states -----------------------------------------------------

  function MayInit(assumeAnEmptyCache: bool, ways: nat): May {
    May(map[], if assumeAnEmptyCache then ways else 0)
  }

  /** The initial lower bounds say just that the set is empty, or nothing. */
  lemma InitExact(s: Stack, assumeAnEmptyCache: bool, ways: nat)
    requires 1 <= ways
    ensures MayDescribes(MayInit(assumeAnEmptyCache, ways), s, ways) <==> (assumeAnEmptyCache ==> s == [])
  {
    if s != [] {
      assert Age(s, s[0], ways) == 0;
    }
  }

  lemma InitSound(s: Stack, assumeAnEmptyCache: bool, ways: nat)
    requires assumeAnEmptyCache ==> s == []
    ensures MustDescribes(map[], s, ways)
    ensures MayValid(MayInit(assumeAnEmptyCache, ways), ways)
    ensures MayDescribes(MayInit(assumeAnEmptyCache, ways), s, ways)
  {
  }

  // ---- the lattices -------------------------------------------------------

  function Max(x: nat, y: nat): nat { if x < y then y else x }

  function Min(x: nat, y: nat): nat { if x < y then x else y }

  function MustJoin(x: Must, y: Must): (r: Must) {
    map b | b in x && b in y :: Max(x[b], y[b])
  }

  function MayJoin(x: May, y: May): (r: May) {
    var implicit := Min(x.implicit, y.implicit);
    May(map b | b in x.explicit.Keys + y.explicit.Keys && Min(MinAge(x, b), MinAge(y, b)) < implicit
          :: Min(MinAge(x, b), MinAge(y, b)),
        implicit)
  }

  ghost predicate MustLeq(x: Must, y: Must, ways: nat) {
    forall t :: MaxAge(x, t, ways) <= MaxAge(y, t, ways)
  }

  ghost predicate MayLeq(x: May, y: May) {
    forall t :: MinAge(x, t) >= MinAge(y, t)
  }

  /** Bounds determine the map. */
  lemma MustCanonical(x: Must, y: Must, ways: nat)
    requires MustValid(x, ways) && MustValid(y, ways)
    requires MustLeq(x, y, ways) && MustLeq(y, x, ways)
    ensures x == y
  {
    forall t ensures t in x <==> t in y {
      assert MaxAge(x, t, ways) == MaxAge(y, t, ways);
    }
    forall t | t in x ensures x[t] == y[t] {
      assert MaxAge(x, t, ways) == MaxAge(y, t, ways);
    }
  }

  lemma {:induction false} Fresh(k: set<Tag>) returns (t: Tag)
    ensures t !in k
    ensures forall x :: x in k ==> x < t
  {
    t := 0;
    if k != {} {
      var x :| x in k;
      var u := Fresh(k - {x});
      t := Max(u, x + 1);
      forall y | y in k ensures y < t {
        assert y == x || y in k - {x};
      }
    }
  }

  lemma MayCanonical(x: May, y: May, ways: nat)
    requires MayValid(x, ways) && MayValid(y, ways)
    requires MayLeq(x, y) && MayLeq(y, x)
    ensures x == y
  {
    var f := Fresh(x.explicit.Keys + y.explicit.Keys);
    assert MinAge(x, f) == MinAge(y, f);
    assert x.implicit == y.implicit;
    forall t ensures t in x.explicit <==> t in y.explicit {
      assert MinAge(x, t) == MinAge(y, t);
    }
    forall t | t in x.explicit ensures x.explicit[t] == y.explicit[t] {
      assert MinAge(x, t) == MinAge(y, t);
    }
    assert x.explicit == y.explicit;
  }

  /** The joins are pointwise maximum and minimum of the bounds, hence least upper
      bounds, and comparing a join with its right operand decides the order. */
  lemma MustJoinIsLub(x: Must, y: Must, z: Must, ways: nat)
    requires MustValid(x, ways) && MustValid(y, ways) && MustValid(z, ways)
    ensures MustValid(MustJoin(x, y), ways)
    ensures forall t :: MaxAge(MustJoin(x, y), t, ways) == Max(MaxAge(x, t, ways), MaxAge(y, t, ways))
    ensures MustLeq(x, MustJoin(x, y), ways) && MustLeq(y, MustJoin(x, y), ways)
    ensures MustLeq(x, z, ways) && MustLeq(y, z, ways) ==> MustLeq(MustJoin(x, y), z, ways)
    ensures MustJoin(x, y) == y <==> MustLeq(x, y, ways)
  {
    var j := MustJoin(x, y);
    assert forall t :: MaxAge(j, t, ways) == Max(MaxAge(x, t, ways), MaxAge(y, t, ways));
    if j == y {
      forall t ensures MaxAge(x, t, ways) <= MaxAge(y, t, ways) {
        assert MaxAge(j, t, ways) == Max(MaxAge(x, t, ways), MaxAge(y, t, ways));
      }
    }
    if MustLeq(x, y, ways) {
      assert MustLeq(j, y, ways);
      MustCanonical(j, y, ways);
    }
  }

  lemma MayJoinPointwise(x: May, y: May, ways: nat, t: Tag)
    requires MayValid(x, ways) && MayValid(y, ways)
    ensures MinAge(MayJoin(x, y), t) == Min(MinAge(x, t), MinAge(y, t))
  {
  }

  lemma MayJoinValid(x: May, y: May, ways: nat)
    requires MayValid(x, ways) && MayValid(y, ways)
    ensures MayValid(MayJoin(x, y), ways)
  {
  }

  lemma MayJoinIsLub(x: May, y: May, z: May, ways: nat)
    requires MayValid(x, ways) && MayValid(y, ways) && MayValid(z, ways)
    ensures MayValid(MayJoin(x, y), ways)
    ensures forall t :: MinAge(MayJoin(x, y), t) == Min(MinAge(x, t), MinAge(y, t))
    ensures MayLeq(x, MayJoin(x, y)) && MayLeq(y, MayJoin(x, y))
    ensures MayLeq(x, z) && MayLeq(y, z) ==> MayLeq(MayJoin(x, y), z)
    ensures MayJoin(x, y) == y <==> MayLeq(x, y)
  {
    var j := MayJoin(x, y);
    MayJoinValid(x, y, ways);
    forall t ensures MinAge(j, t) == Min(MinAge(x, t), MinAge(y, t)) {
      MayJoinPointwise(x, y, ways, t);
    }
    if MayLeq(x, y) {
      MayCanonical(j, y, ways);
    } else if t :| MinAge(x, t) < MinAge(y, t) {
      assert MinAge(j, t) != MinAge(y, t);
    }
  }

  lemma JoinDecidesOrder(x: Must, x': Must, y: May, y': May, ways: nat)
    requires MustValid(x, ways) && MustValid(x', ways) && MayValid(y, ways) && MayValid(y', ways)
    ensures MustJoin(x, x') == x' <==> MustLeq(x, x', ways)
    ensures MayJoin(y, y') == y' <==> MayLeq(y, y')
  {
    MustJoinIsLub(x, x', x', ways);
    MayJoinIsLub(y, y', y', ways);
  }

  /** Going up in the order never loses a concrete cache. */
  lemma LeqSound(x: Must, x': Must, y: May, y': May, s: Stack, ways: nat)
    requires MustLeq(x, x', ways) && MayLeq(y, y')
    ensures MustDescribes(x, s, ways) ==> MustDescribes(x', s, ways)
    ensures MayDescribes(y, s, ways) ==> MayDescribes(y', s, ways)
  {
    forall t | MustDescribes(x, s, ways) ensures Age(s, t, ways) <= MaxAge(x', t, ways) {
      assert MaxAge(x, t, ways) <= MaxAge(x', t, ways);
    }
    forall t | MayDescribes(y, s, ways) ensures MinAge(y', t) <= Age(s, t, ways) {
      assert MinAge(y, t) >= MinAge(y', t);
    }
  }

  // ---- monotonicity --------------------------------------------------------

  /** More is known after an access if more was known before. */
  lemma MustUpdateMonotone(x: Must, y: Must, t: Tag, hit: bool, hit': bool, ways: nat)
    requires 1 <= ways && MustValid(x, ways) && MustValid(y, ways) && MustLeq(x, y, ways)
    requires AccessedAge(x, t, hit, ways) <= AccessedAge(y, t, hit', ways)
    ensures MustLeq(MustUpdate(x, t, hit, ways), MustUpdate(y, t, hit', ways), ways)
  {
    forall b ensures MaxAge(MustUpdate(x, t, hit, ways), b, ways) <= MaxAge(MustUpdate(y, t, hit', ways), b, ways) {
      MustUpdatePointwise(x, t, hit, ways, b);
      MustUpdatePointwise(y, t, hit', ways, b);
      assert MaxAge(x, b, ways) <= MaxAge(y, b, ways);
    }
  }

  lemma MayUpdateMonotone(x: May, y: May, t: Tag, ways: nat)
    requires 1 <= ways && MayValid(x, ways) && MayValid(y, ways) && MayLeq(x, y)
    ensures MayLeq(MayUpdate(x, t, ways), MayUpdate(y, t, ways))
  {
    forall b ensures MinAge(MayUpdate(x, t, ways), b) >= MinAge(MayUpdate(y, t, ways), b) {
      MayUpdatePointwise(x, t, ways, b);
      MayUpdatePointwise(y, t, ways, b);
      assert MinAge(x, b) >= MinAge(y, b) && MinAge(x, t) >= MinAge(y, t);
    }
  }

  lemma PotentialMonotone(x: Must, y: Must, v: May, w: May, low: Tag, high: Tag, ways: nat)
    requires MustValid(x, ways) && MustValid(y, ways) && MustLeq(x, y, ways)
    requires MayValid(v, ways) && MayValid(w, ways) && MayLeq(v, w)
    ensures MustLeq(MustPotential(x, ways), MustPotential(y, ways), ways)
    ensures MayLeq(MayPotential(v, low, high), MayPotential(w, low, high))
  {
    forall b
      ensures MaxAge(MustPotential(x, ways), b, ways) <= MaxAge(MustPotential(y, ways), b, ways)
      ensures MinAge(MayPotential(v, low, high), b) >= MinAge(MayPotential(w, low, high), b)
    {
      assert MaxAge(x, b, ways) <= MaxAge(y, b, ways) && MinAge(v, b) >= MinAge(w, b);
      ImplicitFalls(v, w);
    }
  }

  lemma ImplicitFalls(v: May, w: May)
    requires MayLeq(v, w)
    ensures v.implicit >= w.implicit
  {
    var f := Fresh(v.explicit.Keys + w.explicit.Keys);
    assert MinAge(v, f) >= MinAge(w, f);
  }

  // ---- classification -----------------------------------------------------

  /** What the must analysis says of an access to `t` when `cnn` blocks of other cores
      may interfere with the set. */
  function MustClassify(m: Must, t: Tag, cnn: nat, ways: nat): (r: Classification) {
    if t in m then (if m[t] + cnn >= ways then Miss else Hit)
    else if |m| == ways then Miss
    else Unknown
  }

  function MayClassify(m: May, t: Tag, cnn: nat, ways: nat): (r: Classification) {
    if m.implicit + cnn < ways then Unknown
    else if t in m.explicit then (if m.explicit[t] + cnn >= ways then Miss else Unknown)
    else Miss
  }

  /** Hit where the foreign blocks leave a known block in the cache, Miss where they do not or
      where known blocks fill the cache, and nothing else. */
  lemma MustClassifyIs(m: Must, t: Tag, cnn: nat, ways: nat)
    requires MustValid(m, ways)
    ensures MustClassify(m, t, cnn, ways) == Hit <==> MaxAge(m, t, ways) + cnn < ways
    ensures MustClassify(m, t, cnn, ways) == Miss
       <==> MaxAge(m, t, ways) + cnn >= ways && (MaxAge(m, t, ways) < ways || |m| == ways)
    ensures MustClassify(m, t, cnn, ways) in {Hit, Miss, Unknown}
  {
  }

  /** Miss exactly where the lower bound, with the foreign blocks, has left the cache. */
  lemma MayClassifyIs(m: May, t: Tag, cnn: nat, ways: nat)
    requires MayValid(m, ways)
    ensures MayClassify(m, t, cnn, ways) == if MinAge(m, t) + cnn >= ways then Miss else Unknown
  {
  }

  lemma SubsetSize(a: set<Tag>, b: set<Tag>)
    requires a <= b
    ensures |a| <= |b|
    ensures |a| == |b| ==> a == b
  {
    assert b == a + (b - a);
  }

  /** Blocks with an upper bound are in the cache, so if they fill it nothing else is. */
  lemma Pigeonhole(m: Must, s: Stack, ways: nat)
    requires MustValid(m, ways) && Distinct(s) && MustDescribes(m, s, ways)
    ensures m.Keys <= Content(s, ways) && |m| <= ways
    ensures |m| == ways ==> Content(s, ways) == m.Keys
    ensures forall t :: t in m ==> Cached(s, t, ways)
    ensures |m| == ways ==> forall t :: t !in m ==> !Cached(s, t, ways)
  {
    CacheBound(s, ways);
    forall t | t in m ensures Cached(s, t, ways) {
      assert Age(s, t, ways) <= MaxAge(m, t, ways);
    }
    SubsetSize(m.Keys, Content(s, ways));
  }

  /** Without interference, a hit claim and a miss claim are facts about every cache
      described: a hit because the age bound lies inside the cache, a miss either
      because known blocks fill it or because the lower bound has left it. */
  lemma ClassifySound(x: Must, y: May, s: Stack, t: Tag, ways: nat)
    requires MustValid(x, ways) && MayValid(y, ways) && Distinct(s)
    requires MustDescribes(x, s, ways) && MayDescribes(y, s, ways)
    ensures MustClassify(x, t, 0, ways) == Hit ==> Cached(s, t, ways)
    ensures MustClassify(x, t, 0, ways) == Miss ==> !Cached(s, t, ways)
    ensures MayClassify(y, t, 0, ways) == Miss ==> !Cached(s, t, ways)
    ensures MustClassify(x, t, 0, ways) == Hit <==> t in x
    ensures MayClassify(y, t, 0, ways) != Hit
  {
    Pigeonhole(x, s, ways);
    assert MinAge(y, t) <= Age(s, t, ways);
  }
}
