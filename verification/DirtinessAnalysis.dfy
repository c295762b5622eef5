/** The dirtiness analysis of one cache set as the program has it: an object that owns a
    must analysis, a may analysis and a map of entries, which its loops edit. */
module DirtinessAnalysisModule {
  import opened Lru
  import opened AgeMaps
  import opened Reports
  import opened MustCache
  import opened MayCache
  import opened DirtySets
  import opened Entries

  /** Where an ordered iteration over keys starts. */
  method Least(keys: set<Tag>) returns (t: Tag)
    requires keys != {}
    ensures t in keys && forall u :: u in keys ==> t <= u
  {
    t :| t in keys;
    var rest := keys - {t};
    while rest != {}
      invariant rest <= keys && t in keys
      invariant forall u :: u in keys && u !in rest ==> t <= u
    {
      var u :| u in rest;
      rest := rest - {u};
      if u < t {
        t := u;
      }
    }
  }

  method DeleteDirtiness(m: Dirts, todel: Dirtiness) returns (r: Dirts)
    ensures r == map t | t in m && m[t] != todel :: m[t]
  {
    r := m;
    var todo := m.Keys;
    while todo != {}
      invariant todo <= m.Keys
      invariant r == map t | t in m && (t in todo || m[t] != todel) :: m[t]
    {
      var t := Least(todo);
      todo := todo - {t};
      if r[t] == todel {
        r := r - {t};
      }
    }
  }

  /** The joined entries of the blocks in `keys`. */
  ghost function Merged(x: Dirts, xImplicit: bool, y: Dirts, yImplicit: bool, keys: set<Tag>): Dirts {
    map t | t in keys :: JoinDirtiness(DirtinessOf(x, xImplicit, t), DirtinessOf(y, yImplicit, t))
  }

  lemma MergedStep(x: Dirts, xImplicit: bool, y: Dirts, yImplicit: bool, keys: set<Tag>, tag: Tag)
    ensures Merged(x, xImplicit, y, yImplicit, keys + {tag})
         == Merged(x, xImplicit, y, yImplicit, keys)[tag :=
              JoinDirtiness(DirtinessOf(x, xImplicit, tag), DirtinessOf(y, yImplicit, tag))]
  {
  }

  /** The next block of two ordered iterations, and which of them stop at it. */
  method NextTag(xLeft: set<Tag>, yLeft: set<Tag>) returns (tag: Tag, xTakesPart: bool, yTakesPart: bool)
    requires xLeft != {} || yLeft != {}
    ensures xTakesPart <==> tag in xLeft
    ensures yTakesPart <==> tag in yLeft
    ensures xTakesPart || yTakesPart
    ensures forall t :: t in xLeft || t in yLeft ==> tag <= t
  {
    var xTag, yTag: Tag := 0, 0;
    if xLeft != {} { xTag := Least(xLeft); }
    if yLeft != {} { yTag := Least(yLeft); }
    xTakesPart := yLeft == {} || (xLeft != {} && xTag <= yTag);
    yTakesPart := xLeft == {} || (yLeft != {} && yTag <= xTag);
    tag := if xTakesPart then xTag else yTag;
  }

  /** Both iterations have passed the same blocks. */
  ghost predicate InStep(x: set<Tag>, y: set<Tag>, xLeft: set<Tag>, yLeft: set<Tag>, merged: set<Tag>) {
    && merged <= x + y
    && (forall t :: t in xLeft <==> t in x && t !in merged)
    && (forall t :: t in yLeft <==> t in y && t !in merged)
  }

  /** One pass over two ordered maps; a side without an entry contributes what it says of
      all blocks it does not track. */
  method MergeEntries(x: Dirts, xImplicit: bool, y: Dirts, yImplicit: bool) returns (r: Dirts)
    ensures r == Merged(x, xImplicit, y, yImplicit, x.Keys + y.Keys)
  {
    r := map[];
    var xLeft, yLeft := x.Keys, y.Keys;
    ghost var merged: set<Tag> := {};
    while xLeft != {} || yLeft != {}
      invariant InStep(x.Keys, y.Keys, xLeft, yLeft, merged)
      invariant r == Merged(x, xImplicit, y, yImplicit, merged)
      decreases |xLeft| + |yLeft|
    {
      var tag, xTakesPart, yTakesPart := NextTag(xLeft, yLeft);
      var xElem := if xTakesPart then x[tag] else Untracked(xImplicit);
      var yElem := if yTakesPart then y[tag] else Untracked(yImplicit);
      xLeft := xLeft - {tag};
      yLeft := yLeft - {tag};
      r := r[tag := JoinDirtiness(xElem, yElem)];
      MergedStep(x, xImplicit, y, yImplicit, merged, tag);
      merged := merged + {tag};
    }
    assert merged == x.Keys + y.Keys;
  }

  method UpdateBoth(must: LruMaxAgeAbstractCache, may: LruMinAgeAbstractCache, tag: Tag, assumption: Classification)
    returns (mustEvicted: set<Tag>, mayReport: MayReport)
    requires must.Valid() && may.Valid() && must.ways == may.ways
    requires tag in must.Bounds() || !AssumesHit(assumption, must.level) || must.size < must.ways
    modifies must, must.tags, must.ages, may
    ensures must.Valid() && may.Valid()
    ensures must.Bounds() == MustUpdate(old(must.Bounds()), tag, AssumesHit(assumption, must.level), must.ways)
    ensures may.Bounds() == MayUpdate(old(may.Bounds()), tag, must.ways)
    ensures mustEvicted == old(must.Bounds()).Keys - must.Bounds().Keys
    ensures mayReport == UpdateReport(old(may.Bounds()), may.Bounds(), must.ways)
  {
    ghost var e, a := may.explicitTags, may.ageOfImplicitTags;
    var report1 := must.Update(tag, assumption, true);
    assert may.explicitTags == e && may.ageOfImplicitTags == a;
    ghost var l := must.Listed();
    var report2 := may.Update(tag, true);
    assert must.Listed() == l;
    mustEvicted, mayReport := report1.value, report2.value;
  }

  method PotentialBoth(must: LruMaxAgeAbstractCache, may: LruMinAgeAbstractCache, low: Tag, high: Tag)
    returns (mustEvicted: set<Tag>, mayReport: MayReport)
    requires must.Valid() && may.Valid() && must.ways == may.ways && low <= high
    modifies must, must.tags, must.ages, may
    ensures must.Valid() && may.Valid()
    ensures must.Bounds() == MustPotential(old(must.Bounds()), must.ways)
    ensures may.Bounds() == MayPotential(old(may.Bounds()), low, high)
    ensures mustEvicted == old(must.Bounds()).Keys - must.Bounds().Keys
    ensures mayReport.evictedElements == {} && !mayReport.justEvictedUnknowns
  {
    ghost var e, a := may.explicitTags, may.ageOfImplicitTags;
    var report1 := must.PotentialUpdate(true);
    assert may.explicitTags == e && may.ageOfImplicitTags == a;
    ghost var l := must.Listed();
    var report2 := may.PotentialUpdate(low, high, true);
    assert must.Listed() == l;
    mustEvicted, mayReport := report1.value, report2.value;
  }

  method CopyBoth(must: LruMaxAgeAbstractCache, may: LruMinAgeAbstractCache)
    returns (mustCopy: LruMaxAgeAbstractCache, mayCopy: LruMinAgeAbstractCache)
    requires must.Valid() && may.Valid()
    ensures fresh(mustCopy) && fresh(mustCopy.tags) && fresh(mustCopy.ages) && fresh(mayCopy)
    ensures mustCopy.Valid() && mustCopy.ways == must.ways && must.Valid() && mustCopy.Listed() == must.Listed()
    ensures mayCopy.Valid() && mayCopy.ways == may.ways && may.Valid()
    ensures mayCopy.explicitTags == may.explicitTags && mayCopy.ageOfImplicitTags == may.ageOfImplicitTags
  {
    mustCopy := new LruMaxAgeAbstractCache.Copy(must);
    mayCopy := new LruMinAgeAbstractCache.Copy(may);
  }

  method JoinBoth(must: LruMaxAgeAbstractCache, may: LruMinAgeAbstractCache,
                  yMust: LruMaxAgeAbstractCache, yMay: LruMinAgeAbstractCache)
    requires must.Valid() && may.Valid() && yMust.Valid() && yMay.Valid()
    requires must.ways == may.ways == yMust.ways == yMay.ways
    modifies must, must.tags, must.ages, may
    ensures must.Valid() && may.Valid()
    ensures must.Bounds() == MustJoin(old(must.Bounds()), old(yMust.Bounds()))
    ensures may.Bounds() == MayJoin(old(may.Bounds()), old(yMay.Bounds()))
  {
    ghost var mine, theirs := may.Bounds(), yMay.Bounds();
    must.Join(yMust);
    assert may.Bounds() == mine && yMay.Bounds() == theirs;
    ghost var l := must.Listed();
    may.Join(yMay);
    assert must.Listed() == l;
  }

  class DirtinessAnalysis {
    const must: LruMaxAgeAbstractCache
    const may: LruMinAgeAbstractCache
    var implicitDirty: bool
    var dirtiness: Dirts

    ghost predicate Valid()
      reads must, must.tags, must.ages, may
    {
      must.Valid() && may.Valid() && must.ways == may.ways
    }

    ghost function State(): (d: DirtySet)
      requires Valid()
      reads this, must, must.tags, must.ages, may
    {
      DirtySet(must.Bounds(), may.Bounds(), implicitDirty, dirtiness)
    }

    constructor (ways: nat, level: nat, assumeAnEmptyCache: bool, assumeCleanCache: bool)
      requires 1 <= ways < 256
      ensures Valid() && must.ways == ways && must.level == level
      ensures fresh(must) && fresh(must.tags) && fresh(must.ages) && fresh(may)
      ensures State() == DirtyInit(assumeAnEmptyCache, assumeCleanCache, ways)
    {
      must := new LruMaxAgeAbstractCache(ways, level);
      may := new LruMinAgeAbstractCache(ways, assumeAnEmptyCache);
      implicitDirty := !assumeCleanCache;
      dirtiness := map[];
    }

    constructor Copy(y: DirtinessAnalysis)
      requires y.Valid()
      ensures Valid() && must.ways == y.must.ways
      ensures fresh(must) && fresh(must.tags) && fresh(must.ages) && fresh(may)
      ensures State() == y.State()
    {
      var mustCopy, mayCopy := CopyBoth(y.must, y.may);
      must, may := mustCopy, mayCopy;
      implicitDirty := y.implicitDirty;
      dirtiness := y.dirtiness;
      new;
      assert must.Listed() == y.must.Listed() && may.explicitTags == y.may.explicitTags;
    }

    /** Whether a block that is not certainly clean may have left the cache. */
    method FindDirtyVictim() returns (found: bool)
      requires Valid()
      ensures found == ExistsDirtyVictim(dirtiness, implicitDirty, must.Bounds())
    {
      if implicitDirty {
        return true;
      }
      var todo := dirtiness.Keys;
      while todo != {}
        invariant todo <= dirtiness.Keys
        invariant forall t :: t in dirtiness && t !in todo && dirtiness[t] != Clean ==> t in must.Bounds()
      {
        var t := Least(todo);
        todo := todo - {t};
        if dirtiness[t] != Clean {
          var age := must.GetMaxAge(t);
          if age == must.ways {
            return true;
          }
        }
      }
      found := false;
    }

    /** Once unlisted blocks cannot be cached, only dirty blocks that can be stay. */
    method ForgetUnknownEntries()
      requires Valid()
      modifies `dirtiness
      ensures dirtiness == ForgetUnknowns(old(dirtiness), may.Bounds(), may.ways)
    {
      var todo := dirtiness.Keys;
      ghost var before := dirtiness;
      while todo != {}
        invariant todo <= before.Keys
        invariant dirtiness == map t | t in before
          && (t in todo || (before[t] != Clean && MinAge(may.Bounds(), t) != may.ways)) :: before[t]
      {
        var t := Least(todo);
        todo := todo - {t};
        var age := may.GetMinAge(t);
        if dirtiness[t] == Clean || age == may.ways {
          dirtiness := dirtiness - {t};
        }
      }
    }

    method DoubtEvicted(evicted: set<Tag>)
      modifies `dirtiness
      ensures dirtiness == Doubt(old(dirtiness), evicted)
    {
      var todo := evicted;
      ghost var before := dirtiness;
      while todo != {}
        invariant todo <= evicted
        invariant dirtiness == Doubt(before, evicted - todo)
      {
        var t := Least(todo);
        todo := todo - {t};
        if t in dirtiness && dirtiness[t] == Dirty {
          dirtiness := dirtiness[t := Either];
        }
      }
      assert evicted - {} == evicted;
    }

    /** Evicted blocks are clean; the case that unlisted blocks may be dirty although
        listed ones are reported evicted cannot occur. */
    method ForgetEvicted(evicted: set<Tag>)
      requires evicted != {} ==> !implicitDirty
      modifies `dirtiness
      ensures dirtiness == old(dirtiness) - evicted
    {
      var todo := evicted;
      ghost var before := dirtiness;
      while todo != {}
        invariant todo <= evicted
        invariant dirtiness == before - (evicted - todo)
      {
        var t := Least(todo);
        todo := todo - {t};
        if implicitDirty {
          assert false;
        } else {
          dirtiness := dirtiness - {t};
        }
      }
      assert evicted - {} == evicted;
    }

    method IncorporateMustMayUpdates(mustEvicted: set<Tag>, mayReport: MayReport)
      requires Valid()
      requires mayReport.evictedElements != {} && implicitDirty ==> mayReport.justEvictedUnknowns
      modifies `dirtiness, `implicitDirty
      ensures Valid()
      ensures implicitDirty == (old(implicitDirty) && !mayReport.justEvictedUnknowns)
      ensures dirtiness == Incorporate(old(dirtiness), may.Bounds(), mustEvicted, mayReport, may.ways)
    {
      if mayReport.justEvictedUnknowns {
        implicitDirty := false;
        ForgetUnknownEntries();
      }
      DoubtEvicted(mustEvicted);
      ForgetEvicted(mayReport.evictedElements);
    }

    /** An access to `tag`; the program's assertion on evicted blocks needs the invariants,
        which DirtyUpdateInvariant says stay. */
    method Update(tag: Tag, op: AccessType, assumption: Classification) returns (report: WritebackReport)
      requires Valid() && DirtyInvariant(State(), must.ways)
      requires tag in must.Bounds() || !AssumesHit(assumption, must.level) || must.size < must.ways
      modifies this, must, must.tags, must.ages, may
      ensures Valid()
      ensures State() == DirtyUpdate(old(State()), tag, op, AssumesHit(assumption, must.level), must.ways)
      ensures report == DirtyUpdateReport(old(State()), tag, op, AssumesHit(assumption, must.level), must.ways)
    {
      NeverImpossible(State(), tag, must.ways);
      report := Perform(tag, op, assumption);
    }

    method Perform(tag: Tag, op: AccessType, assumption: Classification) returns (report: WritebackReport)
      requires Valid() && !Impossible(State(), tag, must.ways)
      requires tag in must.Bounds() || !AssumesHit(assumption, must.level) || must.size < must.ways
      modifies this, must, must.tags, must.ages, may
      ensures Valid()
      ensures State() == DirtyUpdate(old(State()), tag, op, AssumesHit(assumption, must.level), must.ways)
      ensures report == DirtyUpdateReport(old(State()), tag, op, AssumesHit(assumption, must.level), must.ways)
    {
      ghost var d := State();
      var dirtifyingStore := Start(tag, op);
      var canWriteback := Finish(tag, op, assumption, d);
      report := WritebackReport(canWriteback, dirtifyingStore);
    }

    /** The rest of an update of `d`, with the accessed block tracked. */
    method Finish(tag: Tag, ghost op: AccessType, assumption: Classification, ghost d: DirtySet)
      returns (canWriteback: bool)
      requires Valid() && State() == d.(dirtiness := Started(d, tag, op)) && !Impossible(d, tag, must.ways)
      requires tag in must.Bounds() || !AssumesHit(assumption, must.level) || must.size < must.ways
      modifies this, must, must.tags, must.ages, may
      ensures Valid()
      ensures State() == DirtyUpdate(d, tag, op, AssumesHit(assumption, must.level), must.ways)
      ensures canWriteback == ExistsDirtyVictim(Started(d, tag, op), d.implicitDirty, must.Bounds())
    {
      var mustReport, mayReport := UpdateBoth(must, may, tag, assumption);
      canWriteback := Settle(mustReport, mayReport);
    }

    /** The accessed block is tracked from now on; a store makes it dirty. */
    method Start(tag: Tag, op: AccessType) returns (dirtifyingStore: bool)
      requires Valid()
      modifies `dirtiness
      ensures Valid() && State() == old(State()).(dirtiness := Started(old(State()), tag, op))
      ensures dirtifyingStore == (op == Store && DirtinessOf(old(dirtiness), implicitDirty, tag) != Dirty)
    {
      if tag !in dirtiness {
        dirtiness := dirtiness[tag := if implicitDirty then Either else Clean];
      }
      dirtifyingStore := false;
      if op == Store {
        dirtifyingStore := dirtiness[tag] != Dirty;
        dirtiness := dirtiness[tag := Dirty];
      }
    }

    /** Once the must and may analyses know of the access: may a dirty block have been
        written back, and which entries stay? */
    method Settle(mustEvicted: set<Tag>, mayReport: MayReport) returns (canWriteback: bool)
      requires Valid()
      requires mayReport.evictedElements != {} && implicitDirty ==> mayReport.justEvictedUnknowns
      modifies `dirtiness, `implicitDirty
      ensures Valid() && must.Bounds() == old(must.Bounds()) && may.Bounds() == old(may.Bounds())
      ensures canWriteback == ExistsDirtyVictim(old(dirtiness), old(implicitDirty), must.Bounds())
      ensures implicitDirty == (old(implicitDirty) && !mayReport.justEvictedUnknowns)
      ensures dirtiness == Incorporate(old(dirtiness), may.Bounds(), mustEvicted, mayReport, may.ways)
    {
      canWriteback := FindDirtyVictim();
      IncorporateMustMayUpdates(mustEvicted, mayReport);
    }

    /** A store, or a load, to each block of a range that may be the one accessed. */
    method TouchRange(low: Tag, high: Tag, op: AccessType) returns (dirtifyingStore: bool)
      modifies `dirtiness
      ensures dirtiness == DirtyBlocks(old(dirtiness), implicitDirty, low, high, op)
      ensures dirtifyingStore == (op == Store && MayDirtify(old(dirtiness), implicitDirty, low, high))
    {
      dirtifyingStore := false;
      ghost var before := dirtiness;
      var t := low;
      while t <= high
        invariant low <= t && (t <= high + 1 || t == low)
        invariant DirtyBlocks(before, implicitDirty, low, high, op)
               == DirtyBlocks(dirtiness, implicitDirty, t, high, op)
        invariant forall b :: t <= b ==>
          DirtinessOf(dirtiness, implicitDirty, b) == DirtinessOf(before, implicitDirty, b)
        invariant dirtifyingStore ==> op == Store && MayDirtify(before, implicitDirty, low, high)
        invariant !dirtifyingStore && op == Store ==>
          forall b :: low <= b < t ==> DirtinessOf(before, implicitDirty, b) == Dirty
        decreases high + 1 - t
      {
        assert t in TagRange(low, high);
        if t !in dirtiness {
          dirtiness := dirtiness[t := if implicitDirty then Either else Clean];
        }
        if op == Store {
          dirtifyingStore := dirtifyingStore || dirtiness[t] != Dirty;
          dirtiness := dirtiness[t := JoinDirtiness(dirtiness[t], Dirty)];
        }
        t := t + 1;
      }
    }

    /** What the access may have made dirty: anything, if its range is wide. */
    method DirtyRange(low: Tag, high: Tag, op: AccessType) returns (dirtifyingStore: bool)
      requires Valid()
      modifies `dirtiness, `implicitDirty
      ensures Valid() && must.Bounds() == old(must.Bounds()) && may.Bounds() == old(may.Bounds())
      ensures var wide := high - low + 1 > MAX_WORTHWHILE_TAGS;
        && implicitDirty == (old(implicitDirty) || (wide && op == Store))
        && dirtiness == (if !wide then DirtyBlocks(old(dirtiness), old(implicitDirty), low, high, op)
                         else if op == Store then WithoutClean(old(dirtiness)) else old(dirtiness))
        && dirtifyingStore == (op == Store && (wide || MayDirtify(old(dirtiness), old(implicitDirty), low, high)))
    {
      dirtifyingStore := false;
      if high - low + 1 > MAX_WORTHWHILE_TAGS {
        if op == Store {
          implicitDirty := true;
          dirtifyingStore := true;
          dirtiness := DeleteDirtiness(dirtiness, Clean);
        }
      } else {
        dirtifyingStore := TouchRange(low, high, op);
      }
    }

    /** An access to some block with a tag of `low..high`, or to another set. */
    method PotentialUpdate(low: Tag, high: Tag, op: AccessType) returns (report: WritebackReport)
      requires Valid() && low <= high
      modifies this, must, must.tags, must.ages, may
      ensures Valid()
      ensures State() == DirtyPotential(old(State()), low, high, op, must.ways)
      ensures report == DirtyPotentialReport(old(State()), low, high, op, must.ways)
    {
      ghost var d := State();
      var mustEvicted, mayReport := PotentialBoth(must, may, low, high);
      var canWriteback := Settle(mustEvicted, mayReport);
      NoneEvicted(d.dirtiness, may.Bounds(), mustEvicted, mayReport, must.ways);
      assert dirtiness == Doubted(d, must.ways);
      var dirtifyingStore := DirtyRange(low, high, op);
      report := WritebackReport(canWriteback, dirtifyingStore);
    }

    method Join(y: DirtinessAnalysis)
      requires Valid() && y.Valid() && must.ways == y.must.ways
      modifies this, must, must.tags, must.ages, may
      ensures Valid()
      ensures State() == DirtyJoin(old(State()), old(y.State()))
    {
      ghost var d, e := State(), y.State();
      var newmap := MergeEntries(dirtiness, implicitDirty, y.dirtiness, y.implicitDirty);
      var eitherImplicit := implicitDirty || y.implicitDirty;
      assert newmap == DirtsJoin(d, e);
      JoinBoth(must, may, y.must, y.may);
      ghost var must', may' := must.Bounds(), may.Bounds();
      assert must' == MustJoin(d.must, e.must) && may' == MayJoin(d.may, e.may);
      Replace(newmap, eitherImplicit);
    }

    method Replace(newmap: Dirts, implicit: bool)
      requires Valid()
      modifies `dirtiness, `implicitDirty
      ensures Valid() && must.Bounds() == old(must.Bounds()) && may.Bounds() == old(may.Bounds())
      ensures dirtiness == newmap && implicitDirty == implicit
    {
      dirtiness, implicitDirty := newmap, implicit;
    }

    /** Decides the order, by joining a copy. */
    method LessEqual(y: DirtinessAnalysis) returns (r: bool)
      requires Valid() && y.Valid() && must.ways == y.must.ways
      requires DirtyInvariant(State(), must.ways) && DirtyInvariant(y.State(), must.ways)
      ensures r <==> DirtyLeq(old(State()), old(y.State()), must.ways)
    {
      ghost var d, e := State(), y.State();
      var copy := new DirtinessAnalysis.Copy(this);
      r := copy.JoinEquals(y);
      JoinDecides(d, e, must.ways);
    }

    /** Joins, and says whether that is the other operand. */
    method JoinEquals(y: DirtinessAnalysis) returns (r: bool)
      requires Valid() && y.Valid() && must.ways == y.must.ways
      requires this != y && must != y.must && may != y.may
      requires must.tags != y.must.tags && must.tags != y.must.ages
      requires must.ages != y.must.tags && must.ages != y.must.ages
      modifies this, must, must.tags, must.ages, may
      ensures r <==> DirtyJoin(old(State()), old(y.State())) == old(y.State())
    {
      ghost var s, l := y.State(), y.must.Listed();
      Join(y);
      Unchanged(y, s, l);
      r := Equals(y);
    }

    /** An object with the same list, vector and entries has the same state. */
    lemma Unchanged(y: DirtinessAnalysis, s: DirtySet, l: seq<Entry>)
      requires y.Valid() && y.must.Listed() == l && s.must == ToMap(l)
      requires s.may == May(ToMap(y.may.explicitTags), y.may.ageOfImplicitTags)
      requires s.implicitDirty == y.implicitDirty && s.dirtiness == y.dirtiness
      ensures y.State() == s
    {
    }

    method Equals(y: DirtinessAnalysis) returns (r: bool)
      requires Valid() && y.Valid() && must.ways == y.must.ways
      ensures r <==> State() == y.State()
    {
      var sameMust := must.Equals(y.must);
      var sameMay := may.Equals(y.may);
      r := implicitDirty == y.implicitDirty && dirtiness == y.dirtiness && sameMust && sameMay;
    }
  }

  lemma JoinDecides(x: DirtySet, y: DirtySet, ways: nat)
    requires DirtyInvariant(x, ways) && DirtyInvariant(y, ways)
    ensures DirtyJoin(x, y) == y <==> DirtyLeq(x, y, ways)
  {
    DirtyJoinIsLub(x, y, y, ways);
  }

  lemma NoneEvicted(dirts: Dirts, may: May, mustEvicted: set<Tag>, report: MayReport, ways: nat)
    requires report.evictedElements == {} && !report.justEvictedUnknowns
    ensures Incorporate(dirts, may, mustEvicted, report, ways) == Doubt(dirts, mustEvicted)
  {
  }
}
