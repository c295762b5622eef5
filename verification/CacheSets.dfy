/** The combined must-and-may analysis of one cache set, as a value: its operations,
    its order, and what makes it sound. */
module CacheSets {
  import opened Lru
  import opened AgeMaps
  import opened Reports

  datatype CacheSet = CacheSet(must: Must, may: May)

  ghost predicate SetValid(c: CacheSet, ways: nat) {
    MustValid(c.must, ways) && MayValid(c.may, ways)
  }

  ghost predicate SetDescribes(c: CacheSet, s: Stack, ways: nat) {
    Distinct(s) && MustDescribes(c.must, s, ways) && MayDescribes(c.may, s, ways)
  }

  function SetInit(assumeAnEmptyCache: bool, ways: nat): CacheSet {
    CacheSet(map[], MayInit(assumeAnEmptyCache, ways))
  }

  /** The must analysis is asked first, the may analysis when that knows nothing. */
  function SetClassify(c: CacheSet, t: Tag, cnn: nat, ways: nat): Classification {
    var cl := MustClassify(c.must, t, cnn, ways);
    if cl != Unknown then cl else MayClassify(c.may, t, cnn, ways)
  }

  /** Without an assumption from outside, the set assumes its own claim. */
  function Assumed(c: CacheSet, t: Tag, assumption: Classification, cnn: nat, ways: nat): Classification {
    if assumption == Unknown then SetClassify(c, t, cnn, ways) else assumption
  }

  function SetUpdate(c: CacheSet, t: Tag, assumption: Classification, level: nat, cnn: nat, ways: nat): CacheSet
    requires 1 <= ways
  {
    CacheSet(MustUpdate(c.must, t, AssumesHit(Assumed(c, t, assumption, cnn, ways), level), ways),
             MayUpdate(c.may, t, ways))
  }

  function SetPotential(c: CacheSet, low: Tag, high: Tag, ways: nat): CacheSet {
    CacheSet(MustPotential(c.must, ways), MayPotential(c.may, low, high))
  }

  function SetJoin(x: CacheSet, y: CacheSet): CacheSet {
    CacheSet(MustJoin(x.must, y.must), MayJoin(x.may, y.may))
  }

  ghost predicate SetLeq(x: CacheSet, y: CacheSet, ways: nat) {
    MustLeq(x.must, y.must, ways) && MayLeq(x.may, y.may)
  }

  /** An assumption from outside can be met: unless it promises a hit, or the block is
      listed, or there is room in the must list for one more block. */
  predicate Admissible(c: CacheSet, t: Tag, assumption: Classification, level: nat, ways: nat) {
    AssumesHit(assumption, level) ==> t in c.must || |c.must| < ways
  }

  /** A true assumption is admissible. */
  lemma TrueIsAdmissible(c: CacheSet, s: Stack, t: Tag, assumption: Classification, level: nat, ways: nat)
    requires SetValid(c, ways) && SetDescribes(c, s, ways)
    requires AssumesHit(assumption, level) ==> Cached(s, t, ways)
    ensures Admissible(c, t, assumption, level, ways)
  {
    Pigeonhole(c.must, s, ways);
  }

  /** The set never talks itself into a hit: its own claim of one names a listed block. */
  lemma OwnClaimIsHarmless(c: CacheSet, t: Tag, level: nat, cnn: nat, ways: nat)
    requires SetValid(c, ways)
    ensures AssumesHit(SetClassify(c, t, cnn, ways), level) ==> t in c.must
  {
  }

  /** An update describes the cache after the access, if what the caller assumes of
      the access is true. */
  lemma SetUpdateSound(c: CacheSet, s: Stack, t: Tag, assumption: Classification, level: nat, cnn: nat, ways: nat)
    requires 1 <= ways && SetValid(c, ways) && SetDescribes(c, s, ways)
    requires AssumesHit(assumption, level) ==> Cached(s, t, ways)
    ensures SetValid(SetUpdate(c, t, assumption, level, cnn, ways), ways)
    ensures SetDescribes(SetUpdate(c, t, assumption, level, cnn, ways), Touch(s, t), ways)
  {
    var hit := AssumesHit(Assumed(c, t, assumption, cnn, ways), level);
    if hit && t in c.must {
      Pigeonhole(c.must, s, ways);
    }
    MustUpdateSound(c.must, s, t, hit, ways);
    MayUpdateSound(c.may, s, t, ways);
    TouchDistinct(s, t);
    MustUpdatePointwise(c.must, t, hit, ways, t);
    MayUpdatePointwise(c.may, t, ways, t);
  }

  /** A potential update describes the cache whether or not a block of the range was
      accessed. */
  lemma SetPotentialSound(c: CacheSet, s: Stack, t: Tag, low: Tag, high: Tag, ways: nat)
    requires 1 <= ways && SetValid(c, ways) && SetDescribes(c, s, ways)
    ensures SetValid(SetPotential(c, low, high, ways), ways)
    ensures SetDescribes(SetPotential(c, low, high, ways), s, ways)
    ensures low <= t <= high ==> SetDescribes(SetPotential(c, low, high, ways), Touch(s, t), ways)
  {
    MustPotentialSound(c.must, s, t, ways);
    MayPotentialSound(c.may, s, t, low, high, ways);
    TouchDistinct(s, t);
  }

  lemma SetInitSound(s: Stack, assumeAnEmptyCache: bool, ways: nat)
    requires Distinct(s) && (assumeAnEmptyCache ==> s == [])
    ensures SetValid(SetInit(assumeAnEmptyCache, ways), ways)
    ensures SetDescribes(SetInit(assumeAnEmptyCache, ways), s, ways)
  {
    InitSound(s, assumeAnEmptyCache, ways);
  }

  /** Hit exactly where the must analysis claims it; Miss exactly where one of the two does. */
  lemma SetClassifyIs(c: CacheSet, t: Tag, cnn: nat, ways: nat)
    requires SetValid(c, ways)
    ensures SetClassify(c, t, cnn, ways) == Hit <==> MaxAge(c.must, t, ways) + cnn < ways
    ensures SetClassify(c, t, cnn, ways) == Miss
       <==> && MaxAge(c.must, t, ways) + cnn >= ways
            && (MaxAge(c.must, t, ways) < ways || |c.must| == ways || MinAge(c.may, t) + cnn >= ways)
    ensures SetClassify(c, t, cnn, ways) in {Hit, Miss, Unknown}
  {
    MustClassifyIs(c.must, t, cnn, ways);
    MayClassifyIs(c.may, t, cnn, ways);
  }

  /** A hit promised from outside, or by the level below for a higher level, lets no known
      block leave the set; the set's own claims change nothing. */
  lemma SetUpdateIs(c: CacheSet, t: Tag, assumption: Classification, level: nat, cnn: nat, ways: nat, b: Tag)
    requires 1 <= ways && SetValid(c, ways)
    ensures var promised := assumption == Hit || (level > 1 && assumption == L2Hit);
      var limit := if promised then Min(MaxAge(c.must, t, ways), ways - 1) else MaxAge(c.must, t, ways);
      MaxAge(SetUpdate(c, t, assumption, level, cnn, ways).must, b, ways)
      == if b == t then 0
         else if MaxAge(c.must, b, ways) < limit then MaxAge(c.must, b, ways) + 1
         else MaxAge(c.must, b, ways)
  {
    OwnClaimIsHarmless(c, t, level, cnn, ways);
    MustUpdatePointwise(c.must, t, AssumesHit(Assumed(c, t, assumption, cnn, ways), level), ways, b);
  }

  /** The combined claims are facts: a hit is cached, a miss is not. */
  lemma SetClassifySound(c: CacheSet, s: Stack, t: Tag, ways: nat)
    requires SetValid(c, ways) && SetDescribes(c, s, ways)
    ensures SetClassify(c, t, 0, ways) == Hit ==> Cached(s, t, ways)
    ensures SetClassify(c, t, 0, ways) == Miss ==> !Cached(s, t, ways)
    ensures SetClassify(c, t, 0, ways) in {Hit, Miss, Unknown}
  {
    ClassifySound(c.must, c.may, s, t, ways);
  }

  lemma SetJoinIsLub(x: CacheSet, y: CacheSet, z: CacheSet, ways: nat)
    requires SetValid(x, ways) && SetValid(y, ways) && SetValid(z, ways)
    ensures SetValid(SetJoin(x, y), ways)
    ensures SetLeq(x, SetJoin(x, y), ways) && SetLeq(y, SetJoin(x, y), ways)
    ensures SetLeq(x, z, ways) && SetLeq(y, z, ways) ==> SetLeq(SetJoin(x, y), z, ways)
    ensures SetJoin(x, y) == y <==> SetLeq(x, y, ways)
  {
    MustJoinIsLub(x.must, y.must, z.must, ways);
    MayJoinIsLub(x.may, y.may, z.may, ways);
  }

  lemma SetLeqIsOrder(x: CacheSet, y: CacheSet, z: CacheSet, ways: nat)
    requires SetValid(x, ways) && SetValid(y, ways) && SetValid(z, ways)
    ensures SetLeq(x, x, ways)
    ensures SetLeq(x, y, ways) && SetLeq(y, z, ways) ==> SetLeq(x, z, ways)
    ensures SetLeq(x, y, ways) && SetLeq(y, x, ways) ==> x == y
  {
    if SetLeq(x, y, ways) && SetLeq(y, z, ways) {
      forall t ensures MaxAge(x.must, t, ways) <= MaxAge(z.must, t, ways) {
        assert MaxAge(x.must, t, ways) <= MaxAge(y.must, t, ways);
      }
      forall t ensures MinAge(x.may, t) >= MinAge(z.may, t) {
        assert MinAge(x.may, t) >= MinAge(y.may, t);
      }
    }
    if SetLeq(x, y, ways) && SetLeq(y, x, ways) {
      MustCanonical(x.must, y.must, ways);
      MayCanonical(x.may, y.may, ways);
    }
  }

  lemma SetLeqSound(x: CacheSet, y: CacheSet, s: Stack, ways: nat)
    requires SetLeq(x, y, ways) && SetDescribes(x, s, ways)
    ensures SetDescribes(y, s, ways)
  {
    LeqSound(x.must, y.must, x.may, y.may, s, ways);
  }

  /** The bound the accessed block is supposed to have does not depend on the set's own
      claims. */
  lemma AccessedAgeMonotone(x: CacheSet, y: CacheSet, t: Tag, assumption: Classification, level: nat, cnn: nat,
                            ways: nat)
    requires 1 <= ways && SetValid(x, ways) && SetValid(y, ways) && SetLeq(x, y, ways)
    ensures AccessedAge(x.must, t, AssumesHit(Assumed(x, t, assumption, cnn, ways), level), ways)
         <= AccessedAge(y.must, t, AssumesHit(Assumed(y, t, assumption, cnn, ways), level), ways)
  {
    assert MaxAge(x.must, t, ways) <= MaxAge(y.must, t, ways);
    OwnClaimIsHarmless(x, t, level, cnn, ways);
    OwnClaimIsHarmless(y, t, level, cnn, ways);
  }

  /** The operations of a set are monotone. */
  lemma SetUpdateMonotone(x: CacheSet, y: CacheSet, t: Tag, assumption: Classification, level: nat, cnn: nat, ways: nat)
    requires 1 <= ways && SetValid(x, ways) && SetValid(y, ways) && SetLeq(x, y, ways)
    ensures SetLeq(SetUpdate(x, t, assumption, level, cnn, ways), SetUpdate(y, t, assumption, level, cnn, ways), ways)
  {
    AccessedAgeMonotone(x, y, t, assumption, level, cnn, ways);
    MustUpdateMonotone(x.must, y.must, t, AssumesHit(Assumed(x, t, assumption, cnn, ways), level),
                       AssumesHit(Assumed(y, t, assumption, cnn, ways), level), ways);
    MayUpdateMonotone(x.may, y.may, t, ways);
  }

  lemma SetPotentialMonotone(x: CacheSet, y: CacheSet, low: Tag, high: Tag, ways: nat)
    requires SetValid(x, ways) && SetValid(y, ways) && SetLeq(x, y, ways)
    ensures SetLeq(SetPotential(x, low, high, ways), SetPotential(y, low, high, ways), ways)
  {
    PotentialMonotone(x.must, y.must, x.may, y.may, low, high, ways);
  }
}
