/** The combined analysis of one cache set as the program has it: an object that owns
    a must and a may analysis and updates both. */
module CompositionalCache {
  import opened Lru
  import opened AgeMaps
  import opened CacheSets
  import opened Reports
  import opened MustCache
  import opened MayCache

  class CompositionalAbstractCache {
    const analysis1: LruMaxAgeAbstractCache
    const analysis2: LruMinAgeAbstractCache

    ghost predicate Valid()
      reads this, analysis1, analysis1.tags, analysis1.ages, analysis2
    {
      analysis1.Valid() && analysis2.Valid() && analysis1.ways == analysis2.ways
    }

    ghost function State(): (c: CacheSet)
      requires Valid()
      reads this, analysis1, analysis1.tags, analysis1.ages, analysis2
      ensures SetValid(c, analysis1.ways)
    {
      CacheSet(analysis1.Bounds(), analysis2.Bounds())
    }

    constructor (ways: nat, level: nat, assumeAnEmptyCache: bool)
      requires 1 <= ways < 256
      ensures Valid() && analysis1.ways == ways && analysis1.level == level
      ensures fresh(analysis1) && fresh(analysis1.tags) && fresh(analysis1.ages) && fresh(analysis2)
      ensures State() == SetInit(assumeAnEmptyCache, ways)
    {
      analysis1 := new LruMaxAgeAbstractCache(ways, level);
      analysis2 := new LruMinAgeAbstractCache(ways, assumeAnEmptyCache);
    }

    method Classify(tag: Tag, cnn: nat) returns (r: Classification)
      requires Valid()
      ensures r == SetClassify(State(), tag, cnn, analysis1.ways)
    {
      r := analysis1.Classify(tag, cnn);
      if r == Unknown {
        r := analysis2.Classify(tag, cnn);
      }
    }

    /** Updates both analyses under the given assumption, or under the set's own claim. */
    method Update(tag: Tag, assumption: Classification, cnn: nat, wantReport: bool)
      returns (report: Option<GenericReport>)
      requires Valid()
      requires Admissible(State(), tag, assumption, analysis1.level, analysis1.ways)
      modifies analysis1, analysis1.tags, analysis1.ages, analysis2
      ensures Valid()
      ensures State() == SetUpdate(old(State()), tag, assumption, analysis1.level, cnn, analysis1.ways)
      ensures report == Reported(wantReport)
    {
      var cl := assumption;
      if assumption == Unknown {
        cl := Classify(tag, cnn);
        OwnClaimIsHarmless(State(), tag, analysis1.level, cnn, analysis1.ways);
      }
      ghost var c := State();
      assert cl == Assumed(c, tag, assumption, cnn, analysis1.ways);
      assert tag in c.must || !AssumesHit(cl, analysis1.level) || |c.must| < analysis1.ways;
      ghost var e, a := analysis2.explicitTags, analysis2.ageOfImplicitTags;
      var report1 := analysis1.Update(tag, cl, wantReport);
      assert analysis2.explicitTags == e && analysis2.ageOfImplicitTags == a;
      ghost var t, g, l := analysis1.tags[..], analysis1.ages[..], analysis1.Listed();
      var report2 := analysis2.Update(tag, wantReport);
      assert analysis1.tags[..] == t && analysis1.ages[..] == g && analysis1.Listed() == l;
      report := if wantReport then Some(GenericReport) else None;
    }

    method PotentialUpdate(lowTag: Tag, highTag: Tag, wantReport: bool) returns (report: Option<GenericReport>)
      requires Valid() && lowTag <= highTag
      modifies analysis1, analysis1.tags, analysis1.ages, analysis2
      ensures Valid()
      ensures State() == SetPotential(old(State()), lowTag, highTag, analysis1.ways)
      ensures report == Reported(wantReport)
    {
      var report1 := analysis1.PotentialUpdate(wantReport);
      var report2 := analysis2.PotentialUpdate(lowTag, highTag, wantReport);
      report := if wantReport then Some(GenericReport) else None;
    }

    method Join(y: CompositionalAbstractCache)
      requires Valid() && y.Valid() && analysis1.ways == y.analysis1.ways
      modifies analysis1, analysis1.tags, analysis1.ages, analysis2
      ensures Valid()
      ensures State() == SetJoin(old(State()), old(y.State()))
    {
      ghost var e, a := analysis2.explicitTags, analysis2.ageOfImplicitTags;
      ghost var f, b := y.analysis2.explicitTags, y.analysis2.ageOfImplicitTags;
      analysis1.Join(y.analysis1);
      assert analysis2.explicitTags == e && analysis2.ageOfImplicitTags == a;
      assert y.analysis2.explicitTags == f && y.analysis2.ageOfImplicitTags == b;
      ghost var t, g, l := analysis1.tags[..], analysis1.ages[..], analysis1.Listed();
      analysis2.Join(y.analysis2);
      assert analysis1.tags[..] == t && analysis1.ages[..] == g && analysis1.Listed() == l;
    }

    method LessEqual(y: CompositionalAbstractCache) returns (r: bool)
      requires Valid() && y.Valid() && analysis1.ways == y.analysis1.ways
      ensures r <==> SetLeq(old(State()), old(y.State()), analysis1.ways)
    {
      r := analysis1.LessEqual(y.analysis1);
      if r {
        r := analysis2.LessEqual(y.analysis2);
      }
    }
  }
}
