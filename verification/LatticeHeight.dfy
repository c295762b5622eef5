/** Why states cannot rise for ever: over finitely many blocks and nodes, a number falls
    whenever one of the states found rises. */
module LatticeHeight {
  import opened Lru
  import opened AgeMaps
  import opened CacheSets
  import opened AddressMapping
  import opened AbstractCache
  import opened Reports

  // ---- one set -----------------------------------------------------------------

  /** Only blocks below `n` have bounds of their own. */
  ghost predicate Named(c: CacheSet, n: nat) {
    (forall t :: t in c.must ==> t < n) && (forall t :: t in c.may.explicit ==> t < n)
  }

  /** How far the bounds of a block can still rise. */
  ghost function Room(c: CacheSet, ways: nat, t: Tag): (r: nat)
    requires SetValid(c, ways)
    ensures r <= 2 * ways
  {
    ways - MaxAge(c.must, t, ways) + MinAge(c.may, t)
  }

  function SetTop(ways: nat, n: nat): nat {
    if n == 0 then ways else 2 * ways + SetTop(ways, n - 1)
  }

  ghost function SetHeight(c: CacheSet, ways: nat, n: nat): (r: nat)
    requires SetValid(c, ways)
    ensures r <= SetTop(ways, n)
  {
    if n == 0 then c.may.implicit else Room(c, ways, n - 1) + SetHeight(c, ways, n - 1)
  }

  lemma {:induction false} SetHeightFalls(x: CacheSet, y: CacheSet, ways: nat, n: nat)
    requires SetValid(x, ways) && SetValid(y, ways) && SetLeq(x, y, ways)
    ensures SetHeight(y, ways, n) <= SetHeight(x, ways, n)
    ensures SetHeight(y, ways, n) == SetHeight(x, ways, n) ==>
      && x.may.implicit == y.may.implicit
      && forall t :: 0 <= t < n ==>
        MaxAge(x.must, t, ways) == MaxAge(y.must, t, ways) && MinAge(x.may, t) == MinAge(y.may, t)
  {
    if n == 0 {
      ImplicitFalls(x.may, y.may);
    } else {
      SetHeightFalls(x, y, ways, n - 1);
      assert MaxAge(x.must, n - 1, ways) <= MaxAge(y.must, n - 1, ways) && MinAge(x.may, n - 1) >= MinAge(y.may, n - 1);
    }
  }

  lemma SetHeightDecides(x: CacheSet, y: CacheSet, ways: nat, n: nat)
    requires SetValid(x, ways) && SetValid(y, ways) && SetLeq(x, y, ways) && Named(x, n) && Named(y, n)
    requires SetHeight(y, ways, n) == SetHeight(x, ways, n)
    ensures x == y
  {
    SetHeightFalls(x, y, ways, n);
    forall t: Tag
      ensures MaxAge(x.must, t, ways) == MaxAge(y.must, t, ways) && MinAge(x.may, t) == MinAge(y.may, t)
    {
    }
    MustCanonical(x.must, y.must, ways);
    MayCanonical(x.may, y.may, ways);
  }

  // ---- a cache --------------------------------------------------------------------

  ghost predicate CacheNamed(cs: seq<CacheSet>, n: nat) {
    forall i :: 0 <= i < |cs| ==> Named(cs[i], n)
  }

  function CacheTop(ways: nat, n: nat, k: nat): nat {
    if k == 0 then 0 else SetTop(ways, n) + CacheTop(ways, n, k - 1)
  }

  function SumOf(s: seq<nat>): nat {
    if s == [] then 0 else s[|s| - 1] + SumOf(s[..|s| - 1])
  }

  lemma {:induction false} SumFalls(a: seq<nat>, b: seq<nat>)
    requires |a| == |b| && forall i :: 0 <= i < |a| ==> b[i] <= a[i]
    ensures SumOf(b) <= SumOf(a)
    ensures SumOf(b) == SumOf(a) ==> a == b
    decreases |a|
  {
    if a != [] {
      var k := |a| - 1;
      SumFalls(a[..k], b[..k]);
      assert a == a[..k] + [a[k]] && b == b[..k] + [b[k]];
    }
  }

  lemma {:induction false} SumBelowTop(s: seq<nat>, ways: nat, n: nat)
    requires forall i :: 0 <= i < |s| ==> s[i] <= SetTop(ways, n)
    ensures SumOf(s) <= CacheTop(ways, n, |s|)
    decreases |s|
  {
    if s != [] {
      SumBelowTop(s[..|s| - 1], ways, n);
    }
  }

  ghost function Heights(t: Traits, cs: seq<CacheSet>, n: nat): (r: seq<nat>)
    requires CacheValid(t, cs)
    ensures |r| == |cs| && forall i :: 0 <= i < |cs| ==> r[i] == SetHeight(cs[i], t.ways, n)
  {
    seq(|cs|, i requires 0 <= i < |cs| => SetHeight(cs[i], t.ways, n))
  }

  ghost function CacheHeight(t: Traits, cs: seq<CacheSet>, n: nat): (r: nat)
    requires CacheValid(t, cs)
    ensures r <= CacheTop(t.ways, n, t.nSets)
  {
    SumBelowTop(Heights(t, cs, n), t.ways, n);
    SumOf(Heights(t, cs, n))
  }

  /** One set of two caches in order. */
  lemma SetOfCaches(t: Traits, x: seq<CacheSet>, y: seq<CacheSet>, n: nat, i: nat)
    requires CacheValid(t, x) && CacheValid(t, y) && CacheLeq(t, x, y) && i < |x|
    requires CacheNamed(x, n) && CacheNamed(y, n)
    ensures SetHeight(y[i], t.ways, n) <= SetHeight(x[i], t.ways, n)
    ensures SetHeight(y[i], t.ways, n) == SetHeight(x[i], t.ways, n) ==> x[i] == y[i]
  {
    assert SetValid(x[i], t.ways) && SetValid(y[i], t.ways) && SetLeq(x[i], y[i], t.ways);
    assert Named(x[i], n) && Named(y[i], n);
    SetHeightFalls(x[i], y[i], t.ways, n);
    if SetHeight(y[i], t.ways, n) == SetHeight(x[i], t.ways, n) {
      SetHeightDecides(x[i], y[i], t.ways, n);
    }
  }

  lemma CacheHeightFalls(t: Traits, x: seq<CacheSet>, y: seq<CacheSet>, n: nat)
    requires CacheValid(t, x) && CacheValid(t, y) && CacheLeq(t, x, y)
    requires CacheNamed(x, n) && CacheNamed(y, n)
    ensures CacheHeight(t, y, n) <= CacheHeight(t, x, n)
    ensures CacheHeight(t, y, n) == CacheHeight(t, x, n) ==> x == y
  {
    var a, b := Heights(t, x, n), Heights(t, y, n);
    forall i | 0 <= i < |x| ensures b[i] <= a[i] && (b[i] == a[i] ==> x[i] == y[i]) {
      SetOfCaches(t, x, y, n, i);
    }
    SumFalls(a, b);
  }

  // ---- updates and joins name no other blocks -----------------------------------------

  lemma TagBelow(t: Traits, a: Address, n: nat)
    requires TraitsValid(t) && n >= ADDRESS_SPACE
    ensures TagOf(t, a) < n
  {
    Quotient(a, t.lineSize);
    Quotient(Line(t, a), t.nSets);
  }

  lemma Quotient(a: nat, b: nat)
    requires b >= 1
    ensures a / b <= a
  {
    var q, r := a / b, a % b;
    assert a == q * b + r;
    MulLeq(1, b, q);
  }

  lemma SetUpdateNamed(c: CacheSet, tag: Tag, assumption: Classification, level: nat, cnn: nat, ways: nat, n: nat)
    requires 1 <= ways && Named(c, n) && tag < n
    ensures Named(SetUpdate(c, tag, assumption, level, cnn, ways), n)
  {
  }

  lemma SetPotentialNamed(c: CacheSet, low: Tag, high: Tag, ways: nat, n: nat)
    requires Named(c, n) && high < n
    ensures Named(SetPotential(c, low, high, ways), n)
  {
  }

  lemma UpdateNamed(t: Traits, foreign: seq<Address>, cs: seq<CacheSet>, lo: Address, hi: Address,
                    assumption: Classification, n: nat)
    requires TraitsValid(t) && CacheValid(t, cs) && CacheNamed(cs, n) && lo <= hi && n >= ADDRESS_SPACE
    ensures CacheNamed(CacheUpdate(t, foreign, cs, lo, hi, assumption), n)
  {
    TagBelow(t, lo, n);
    TagBelow(t, hi, n);
    forall i | 0 <= i < t.nSets ensures Named(CacheUpdate(t, foreign, cs, lo, hi, assumption)[i], n) {
      assert Named(cs[i], n);
      if Align(t, lo) == Align(t, hi) {
        PreciseUpdateAt(t, foreign, cs, lo, hi, assumption, i);
        SetUpdateNamed(cs[i], TagOf(t, lo), assumption, t.level, ConflictCount(t, foreign, i, TagOf(t, lo)), t.ways, n);
      } else {
        ImpreciseUpdateAt(t, foreign, cs, lo, hi, assumption, i);
        SetPotentialNamed(cs[i], TagOf(t, lo), TagOf(t, hi), t.ways, n);
      }
    }
  }

  lemma JoinNamed(x: seq<CacheSet>, y: seq<CacheSet>, n: nat)
    requires |x| == |y| && CacheNamed(x, n) && CacheNamed(y, n)
    ensures CacheNamed(CacheJoin(x, y), n)
  {
    forall i | 0 <= i < |x| ensures Named(CacheJoin(x, y)[i], n) {
      assert Named(x[i], n) && Named(y[i], n);
    }
  }

  // ---- states of a graph ------------------------------------------------------------------

  type States = map<nat, seq<CacheSet>>

  /** Only nodes below `m` have states, and these name only blocks below `n`. */
  ghost predicate StatesNamed(s: States, n: nat, m: nat) {
    forall u :: u in s ==> u < m && CacheNamed(s[u], n)
  }

  ghost predicate AllCachesValid(t: Traits, s: States) {
    forall u :: u in s ==> CacheValid(t, s[u])
  }

  /** A node without a state stands above all that have one. */
  ghost function NodeHeight(t: Traits, s: States, n: nat, u: nat): nat
    requires AllCachesValid(t, s)
  {
    if u in s then CacheHeight(t, s[u], n) else CacheTop(t.ways, n, t.nSets) + 1
  }

  ghost function StatesHeight(t: Traits, s: States, n: nat, m: nat): nat
    requires AllCachesValid(t, s)
  {
    if m == 0 then 0 else NodeHeight(t, s, n, m - 1) + StatesHeight(t, s, n, m - 1)
  }

  ghost predicate Below(t: Traits, x: States, y: States) {
    forall u :: u in x ==> u in y && CacheLeq(t, x[u], y[u])
  }

  lemma {:induction false} StatesHeightFalls(t: Traits, x: States, y: States, n: nat, m: nat, k: nat)
    requires AllCachesValid(t, x) && AllCachesValid(t, y) && Below(t, x, y)
    requires StatesNamed(x, n, m) && StatesNamed(y, n, m)
    ensures StatesHeight(t, y, n, k) <= StatesHeight(t, x, n, k)
    ensures StatesHeight(t, y, n, k) == StatesHeight(t, x, n, k) ==>
      forall u :: 0 <= u < k ==> (u in x <==> u in y) && (u in x ==> x[u] == y[u])
  {
    if k > 0 {
      StatesHeightFalls(t, x, y, n, m, k - 1);
      var u := k - 1;
      if u in x {
        assert u in y && CacheLeq(t, x[u], y[u]) && CacheValid(t, x[u]) && CacheValid(t, y[u]);
        CacheHeightFalls(t, x[u], y[u], n);
      }
    }
  }

  lemma SameHeight(t: Traits, x: States, y: States, n: nat, m: nat)
    requires AllCachesValid(t, x) && AllCachesValid(t, y) && Below(t, x, y)
    requires StatesNamed(x, n, m) && StatesNamed(y, n, m)
    requires StatesHeight(t, y, n, m) == StatesHeight(t, x, n, m)
    ensures x == y
  {
    StatesHeightFalls(t, x, y, n, m, m);
    assert x.Keys == y.Keys;
  }

  /** States that rise lose height. */
  lemma RisingFalls(t: Traits, x: States, y: States, n: nat, m: nat)
    requires AllCachesValid(t, x) && AllCachesValid(t, y) && Below(t, x, y) && x != y
    requires StatesNamed(x, n, m) && StatesNamed(y, n, m)
    ensures StatesHeight(t, y, n, m) < StatesHeight(t, x, n, m)
  {
    StatesHeightFalls(t, x, y, n, m, m);
    if StatesHeight(t, y, n, m) == StatesHeight(t, x, n, m) {
      SameHeight(t, x, y, n, m);
    }
  }
}
