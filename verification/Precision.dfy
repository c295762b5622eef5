/** How much the cache analyses know. A claim that the must analysis does not make is false of
    some set it describes; on accesses to known addresses from an empty cache the two analyses
    together know every age, so that every access is classified; and that stays so along paths
    whose edges contribute all that the states of their targets hold. */
module Precision {
  import opened Lru
  import opened AgeMaps
  import opened CacheSets
  import opened AddressMapping
  import opened AbstractCache
  import opened Reports
  import opened GraphIterator

  // ---- claims the must analysis does not make ---------------------------------------

  /** The blocks of a set that are among given ones. */
  function Only(s: Stack, kept: set<Tag>): (r: Stack)
    ensures forall x :: x in r <==> x in s && x in kept
  {
    if s == [] then []
    else if s[0] in kept then [s[0]] + Only(s[1..], kept)
    else Only(s[1..], kept)
  }

  lemma {:induction false} OnlyDistinct(s: Stack, kept: set<Tag>)
    requires Distinct(s)
    ensures Distinct(Only(s, kept))
  {
    if s != [] {
      OnlyDistinct(s[1..], kept);
      assert s[0] !in s[1..];
      assert s[0] !in Only(s[1..], kept);
    }
  }

  /** Without the others, blocks are no older. */
  lemma {:induction false} OnlyYounger(s: Stack, kept: set<Tag>, t: Tag, ways: nat)
    requires t in kept
    ensures Age(Only(s, kept), t, ways) <= Age(s, t, ways)
  {
    if s != [] && ways > 0 && s[0] != t {
      OnlyYounger(s[1..], kept, t, ways - 1);
      if s[0] in kept {
        assert Only(s, kept)[1..] == Only(s[1..], kept);
      } else {
        OnlyYounger(s[1..], kept, t, ways);
        OlderByOne(s[1..], t, ways);
      }
    }
  }

  lemma {:induction false} OlderByOne(s: Stack, t: Tag, ways: nat)
    requires ways > 0
    ensures Age(s, t, ways) <= 1 + Age(s, t, ways - 1)
  {
    if s != [] && ways > 1 && s[0] != t {
      OlderByOne(s[1..], t, ways - 1);
    }
  }

  lemma {:induction false} AppendedAge(s: Stack, x: Tag, t: Tag, ways: nat)
    requires t != x
    ensures Age(s + [x], t, ways) == Age(s, t, ways)
  {
    if s == [] {
      AgeAbsent([x], t, ways);
      assert s + [x] == [x];
    } else if ways > 0 && s[0] != t {
      AppendedAge(s[1..], x, t, ways - 1);
      assert (s + [x])[1..] == s[1..] + [x];
    }
  }

  lemma AppendedDistinct(s: Stack, x: Tag)
    requires Distinct(s) && x !in s
    ensures Distinct(s + [x])
  {
  }

  /** If a must state describes some set, it describes one with just the known blocks. */
  lemma JustKnown(m: Must, s: Stack, ways: nat) returns (r: Stack)
    requires MustValid(m, ways) && Distinct(s) && MustDescribes(m, s, ways)
    ensures Distinct(r) && MustDescribes(m, r, ways) && Elements(r) == m.Keys && |r| == |m|
  {
    r := Only(s, m.Keys);
    OnlyDistinct(s, m.Keys);
    forall t ensures Age(r, t, ways) <= MaxAge(m, t, ways) {
      assert Age(s, t, ways) <= MaxAge(m, t, ways);
      if t in m {
        OnlyYounger(s, m.Keys, t, ways);
      }
    }
    forall t | t in m ensures t in s {
      assert Age(s, t, ways) <= MaxAge(m, t, ways);
      AgeIsPosition(s, t, ways);
    }
    assert Elements(r) == m.Keys;
    ElementsSize(r);
    assert |m| == |m.Keys|;
  }

  lemma RoomForAnother(m: Must, r: Stack, t: Tag, ways: nat)
    requires MustDescribes(m, r, ways) && Distinct(r) && Elements(r) == m.Keys && |r| == |m| < ways && t !in m
    ensures Distinct(r + [t]) && MustDescribes(m, r + [t], ways) && Cached(r + [t], t, ways)
  {
    assert t !in Elements(r);
    AppendedDistinct(r, t);
    forall b ensures Age(r + [t], b, ways) <= MaxAge(m, b, ways) {
      assert Age(r, b, ways) <= MaxAge(m, b, ways);
      if b != t {
        AppendedAge(r, t, b, ways);
      }
    }
    assert (r + [t])[|r|] == t;
    AgeIsPosition(r + [t], t, ways);
  }

  ghost predicate AlwaysCached(m: Must, t: Tag, ways: nat) {
    forall s :: Distinct(s) && MustDescribes(m, s, ways) ==> Cached(s, t, ways)
  }

  ghost predicate NeverCached(m: Must, t: Tag, ways: nat) {
    forall s :: Distinct(s) && MustDescribes(m, s, ways) ==> !Cached(s, t, ways)
  }

  /** The must analysis claims a hit exactly if the block is cached in every set it describes,
      and a miss exactly if it is in none. */
  lemma MustClaimsIff(m: Must, s: Stack, t: Tag, ways: nat)
    requires MustValid(m, ways) && Distinct(s) && MustDescribes(m, s, ways)
    ensures MustClassify(m, t, 0, ways) == Hit <==> AlwaysCached(m, t, ways)
    ensures MustClassify(m, t, 0, ways) == Miss <==> NeverCached(m, t, ways)
  {
    Pigeonhole(m, s, ways);
    forall s' | Distinct(s') && MustDescribes(m, s', ways)
      ensures MustClassify(m, t, 0, ways) == Hit ==> Cached(s', t, ways)
      ensures MustClassify(m, t, 0, ways) == Miss ==> !Cached(s', t, ways)
    {
      Pigeonhole(m, s', ways);
    }
    if t !in m {
      var r := JustKnown(m, s, ways);
      assert t !in Elements(r);
      AgeAbsent(r, t, ways);
      if |m| < ways {
        RoomForAnother(m, r, t, ways);
      }
    }
  }

  // ---- sets whose ages are known ------------------------------------------------------

  /** Upper and lower bounds are the ages. */
  ghost predicate Exact(c: CacheSet, s: Stack, ways: nat) {
    && SetValid(c, ways) && Distinct(s)
    && forall b :: MaxAge(c.must, b, ways) == Age(s, b, ways) == MinAge(c.may, b)
  }

  lemma InitIsExact(ways: nat)
    requires 1 <= ways
    ensures Exact(SetInit(true, ways), [], ways)
  {
  }

  lemma UpdateKeepsExact(c: CacheSet, s: Stack, t: Tag, assumption: Classification, level: nat, cnn: nat, ways: nat)
    requires 1 <= ways && Exact(c, s, ways)
    requires AssumesHit(assumption, level) ==> Cached(s, t, ways)
    ensures Exact(SetUpdate(c, t, assumption, level, cnn, ways), Touch(s, t), ways)
  {
    TouchDistinct(s, t);
    SetUpdateValid(c, t, assumption, level, cnn, ways);
    forall b
      ensures var r := SetUpdate(c, t, assumption, level, cnn, ways);
        MaxAge(r.must, b, ways) == Age(Touch(s, t), b, ways) == MinAge(r.may, b)
    {
      SetUpdateIs(c, t, assumption, level, cnn, ways, b);
      MayUpdatePointwise(c.may, t, ways, b);
      TouchAge(s, t, b, ways);
      if b != t && Cached(s, t, ways) {
        AgesDiffer(s, t, b, ways);
      }
    }
  }

  /** Then every access is classified. */
  lemma ExactClaim(c: CacheSet, s: Stack, t: Tag, ways: nat)
    requires Exact(c, s, ways)
    ensures SetClassify(c, t, 0, ways) == if Cached(s, t, ways) then Hit else Miss
  {
    SetClassifyIs(c, t, 0, ways);
  }

  /** An imprecise access does not age known blocks more than some access would. */
  lemma PotentialIsReached(c: CacheSet, s: Stack, low: Tag, high: Tag, ways: nat, b: Tag) returns (t: Tag)
    requires 1 <= ways && Exact(c, s, ways)
    ensures MaxAge(SetPotential(c, low, high, ways).must, b, ways) == Age(Touch(s, t), b, ways)
  {
    t := Fresh(Elements(s) + {b});
    assert t !in Elements(s);
    AgeAbsent(s, t, ways);
    TouchAge(s, t, b, ways);
    MustPotentialPointwise(c.must, ways, b);
  }

  // ---- caches and edges ------------------------------------------------------------------

  ghost predicate ExactCache(t: Traits, cs: seq<CacheSet>, m: Machine) {
    |cs| == |m| == t.nSets && forall i :: 0 <= i < t.nSets ==> Exact(cs[i], m[i], t.ways)
  }

  lemma ExactIsValid(t: Traits, cs: seq<CacheSet>, m: Machine)
    requires ExactCache(t, cs, m)
    ensures CacheValid(t, cs)
  {
    forall i | 0 <= i < t.nSets ensures SetValid(cs[i], t.ways) {
      assert Exact(cs[i], m[i], t.ways);
    }
  }

  lemma EmptyIsExact(t: Traits, m: Machine)
    requires TraitsValid(t) && |m| == t.nSets && forall i :: 0 <= i < |m| ==> m[i] == []
    ensures ExactCache(t, CacheInit(t, true), m)
  {
    InitIsExact(t.ways);
  }

  /** An access within one line, whatever is assumed of it that is true. */
  lemma AccessKeepsExact(t: Traits, foreign: seq<Address>, cs: seq<CacheSet>, m: Machine, lo: Address, a: Address,
                         hi: Address, assumption: Classification)
    requires TraitsValid(t) && ExactCache(t, cs, m) && lo <= a <= hi && Align(t, lo) == Align(t, hi)
    requires AssumesHit(assumption, t.level) ==> IsCached(t, m, a)
    ensures ExactCache(t, CacheUpdate(t, foreign, cs, lo, hi, assumption), Access(t, m, a))
  {
    SameBlock(t, lo, a, hi);
    forall i | 0 <= i < t.nSets
      ensures Exact(CacheUpdate(t, foreign, cs, lo, hi, assumption)[i], Access(t, m, a)[i], t.ways)
    {
      PreciseUpdateAt(t, foreign, cs, lo, hi, assumption, i);
      assert Exact(cs[i], m[i], t.ways);
      if i == IndexOf(t, lo) {
        UpdateKeepsExact(cs[i], m[i], TagOf(t, lo), assumption, t.level,
                         ConflictCount(t, foreign, i, TagOf(t, lo)), t.ways);
      }
    }
  }

  /** Each access is to one line. */
  ghost predicate AllKnown(t: Traits, w: seq<Interval>)
    requires TraitsValid(t)
  {
    forall i :: 0 <= i < |w| ==> Align(t, w[i].lo) == Align(t, w[i].hi)
  }

  lemma {:induction false} EdgeKeepsExact(t: Traits, foreign: seq<Address>, cs: seq<CacheSet>, m: Machine,
                                          w: seq<Interval>, as_: seq<Address>)
    requires TraitsValid(t) && ExactCache(t, cs, m) && IntervalsValid(w) && AllKnown(t, w) && Picks(w, as_)
    ensures ExactCache(t, EdgeUpdate(t, foreign, cs, w), RunAccesses(t, m, as_))
    decreases |w|
  {
    if w != [] {
      var k := |w| - 1;
      EdgeKeepsExact(t, foreign, cs, m, w[..k], as_[..k]);
      AccessKeepsExact(t, foreign, EdgeUpdate(t, foreign, cs, w[..k]), RunAccesses(t, m, as_[..k]),
                       w[k].lo, as_[k], w[k].hi, Unknown);
    }
  }

  lemma ExactLineClaim(t: Traits, cs: seq<CacheSet>, m: Machine, a: Address)
    requires TraitsValid(t) && ExactCache(t, cs, m)
    ensures LineClaim(t, [], cs, a) == if IsCached(t, m, a) then Hit else Miss
  {
    ExactClaim(cs[IndexOf(t, a)], m[IndexOf(t, a)], TagOf(t, a), t.ways);
  }

  /** After any accesses to known lines from the empty cache, every access is classified, and
      rightly. */
  lemma KnownAccessesAreDecided(t: Traits, foreign: seq<Address>, m: Machine, w: seq<Interval>, as_: seq<Address>,
                                a: Address)
    requires TraitsValid(t) && |m| == t.nSets && forall i :: 0 <= i < |m| ==> m[i] == []
    requires IntervalsValid(w) && AllKnown(t, w) && Picks(w, as_)
    ensures LineClaim(t, [], EdgeUpdate(t, foreign, CacheInit(t, true), w), a)
         == if IsCached(t, RunAccesses(t, m, as_), a) then Hit else Miss
  {
    EmptyIsExact(t, m);
    EdgeKeepsExact(t, foreign, CacheInit(t, true), m, w, as_);
    ExactLineClaim(t, EdgeUpdate(t, foreign, CacheInit(t, true), w), RunAccesses(t, m, as_), a);
  }

  // ---- paths -----------------------------------------------------------------------------------

  /** The edge accesses known lines only, and its target holds nothing else. */
  ghost predicate Straight(t: Traits, foreign: seq<Address>, g: Graph, s: States, u: nat, v: nat)
    requires StatesValid(t, g, s)
  {
    u in s && v in s && AllKnown(t, Accesses(g, u, v)) && Effect(t, foreign, g, s, u, v) == s[v]
  }

  ghost predicate StraightPath(t: Traits, foreign: seq<Address>, g: Graph, s: States, p: seq<nat>)
    requires StatesValid(t, g, s)
  {
    forall i :: 0 < i < |p| ==> Straight(t, foreign, g, s, p[i - 1], p[i])
  }

  lemma StepKeepsExact(t: Traits, foreign: seq<Address>, g: Graph, s: States, u: nat, v: nat, as_: seq<Address>,
                       m: Machine)
    requires StatesValid(t, g, s) && IsStep(g, u, v, as_) && Straight(t, foreign, g, s, u, v)
    requires ExactCache(t, s[u], m)
    ensures v in s && ExactCache(t, s[v], RunAccesses(t, m, as_))
  {
    EdgeKeepsExact(t, foreign, s[u], m, Accesses(g, u, v), as_);
  }

  lemma StraightPrefix(t: Traits, foreign: seq<Address>, g: Graph, s: States, p: seq<nat>, run: seq<seq<Address>>)
    requires StatesValid(t, g, s) && IsRun(g, p, run) && StraightPath(t, foreign, g, s, p) && run != []
    ensures IsRun(g, p[..|run|], run[..|run| - 1]) && StraightPath(t, foreign, g, s, p[..|run|])
    ensures IsStep(g, p[|run| - 1], p[|run|], run[|run| - 1])
    ensures Straight(t, foreign, g, s, p[|run| - 1], p[|run|])
  {
    var q := p[..|run|];
    forall i | 0 < i < |q| ensures Straight(t, foreign, g, s, q[i - 1], q[i]) {
      assert Straight(t, foreign, g, s, p[i - 1], p[i]);
    }
  }

  lemma {:induction false} PathKeepsExact(t: Traits, foreign: seq<Address>, g: Graph, s: States, p: seq<nat>,
                                          run: seq<seq<Address>>, m: Machine)
    requires StatesValid(t, g, s) && IsRun(g, p, run) && StraightPath(t, foreign, g, s, p)
    requires |m| == t.nSets && forall i :: 0 <= i < |m| ==> m[i] == []
    ensures p[|p| - 1] in s && ExactCache(t, s[p[|p| - 1]], RunPath(t, m, run))
    decreases |run|
  {
    if run == [] {
      EmptyIsExact(t, m);
    } else {
      var k := |run| - 1;
      StraightPrefix(t, foreign, g, s, p, run);
      PathKeepsExact(t, foreign, g, s, p[..|run|], run[..k], m);
      StepKeepsExact(t, foreign, g, s, p[k], p[k + 1], run[k], RunPath(t, m, run[..k]));
    }
  }

  /** At the end of a path of known accesses on which no join loses anything, every access is
      classified, and rightly. */
  lemma StraightPathIsDecided(t: Traits, foreign: seq<Address>, g: Graph, s: States, p: seq<nat>,
                              run: seq<seq<Address>>, m: Machine, a: Address)
    requires StatesValid(t, g, s) && IsRun(g, p, run) && StraightPath(t, foreign, g, s, p)
    requires |m| == t.nSets && forall i :: 0 <= i < |m| ==> m[i] == []
    ensures p[|p| - 1] in s
    ensures LineClaim(t, [], s[p[|p| - 1]], a) == if IsCached(t, RunPath(t, m, run), a) then Hit else Miss
  {
    PathKeepsExact(t, foreign, g, s, p, run, m);
    ExactLineClaim(t, s[p[|p| - 1]], RunPath(t, m, run), a);
  }
}
