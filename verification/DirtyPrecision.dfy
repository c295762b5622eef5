/** How much the dirtiness analysis knows: on accesses to known blocks from an empty, clean set
    it knows every dirty block, and what it reports is just what happens. */
module DirtyPrecision {
  import opened Lru
  import opened AgeMaps
  import opened Reports
  import opened MayCache
  import opened DirtySets
  import C = CacheSets
  import P = Precision

  /** Ages and dirty blocks are known, and no block but these counts as dirty. */
  ghost predicate Exact(d: DirtySet, m: Machine, ways: nat) {
    && DirtyInvariant(d, ways) && DirtyDescribes(d, m, ways)
    && P.Exact(C.CacheSet(d.must, d.may), m.stack, ways)
    && !d.implicitDirty
    && forall b :: DirtinessOf(d.dirtiness, false, b) == if b in m.dirty then Dirty else Clean
  }

  lemma InitIsExact(ways: nat)
    requires 1 <= ways
    ensures Exact(DirtyInit(true, true, ways), Machine([], {}), ways)
  {
    P.InitIsExact(ways);
    DirtyInitInvariant(true, true, ways);
    DirtyInitSound(Machine([], {}), true, true, ways);
  }

  lemma AgesStayExact(d: DirtySet, m: Machine, t: Tag, op: AccessType, assumeHit: bool, ways: nat)
    requires Exact(d, m, ways) && (assumeHit ==> Cached(m.stack, t, ways))
    ensures var r := DirtyUpdate(d, t, op, assumeHit, ways);
      P.Exact(C.CacheSet(r.must, r.may), Touch(m.stack, t), ways)
  {
    var c := C.CacheSet(d.must, d.may);
    var assumption := if assumeHit then Hit else Miss;
    P.UpdateKeepsExact(c, m.stack, t, assumption, 1, 0, ways);
  }

  lemma DirtStaysExact(d: DirtySet, m: Machine, t: Tag, op: AccessType, assumeHit: bool, ways: nat, b: Tag)
    requires Exact(d, m, ways) && (assumeHit ==> Cached(m.stack, t, ways))
    ensures var r := DirtyUpdate(d, t, op, assumeHit, ways);
      DirtinessOf(r.dirtiness, r.implicitDirty, b) == if b in Access(m, t, op, ways).dirty then Dirty else Clean
  {
    AgesStayExact(d, m, t, op, assumeHit, ways);
    DirtyUpdateIs(d, t, op, assumeHit, ways, b);
    assert DirtinessOf(d.dirtiness, false, b) == if b in m.dirty then Dirty else Clean;
    var r := DirtyUpdate(d, t, op, assumeHit, ways);
    assert MaxAge(r.must, b, ways) == Age(Touch(m.stack, t), b, ways) == MinAge(r.may, b);
    TouchAge(m.stack, t, t, ways);
  }

  lemma AccessKeepsExact(d: DirtySet, m: Machine, t: Tag, op: AccessType, assumeHit: bool, ways: nat)
    requires Exact(d, m, ways) && (assumeHit ==> Cached(m.stack, t, ways))
    ensures Exact(DirtyUpdate(d, t, op, assumeHit, ways), Access(m, t, op, ways), ways)
  {
    DirtyUpdateInvariant(d, t, op, assumeHit, ways);
    DirtyUpdateSound(d, m, t, op, assumeHit, ways);
    AgesStayExact(d, m, t, op, assumeHit, ways);
    forall b
      ensures var r := DirtyUpdate(d, t, op, assumeHit, ways);
        DirtinessOf(r.dirtiness, false, b) == if b in Access(m, t, op, ways).dirty then Dirty else Clean
    {
      DirtStaysExact(d, m, t, op, assumeHit, ways, b);
    }
  }

  /** What is reported is what happens. */
  ghost predicate Truthful(r: WritebackReport, m: Machine, t: Tag, op: AccessType, ways: nat) {
    && (r.wbPossible <==> WritesBack(m, t, ways))
    && (r.dirtifyingStore <==> Dirtifies(m, t, op))
  }

  lemma VictimIsWrittenBack(d: DirtySet, m: Machine, t: Tag, op: AccessType, assumeHit: bool, ways: nat, b: Tag)
    requires Exact(d, m, ways) && (assumeHit ==> Cached(m.stack, t, ways))
    ensures MayBeVictim(Started(d, t, op), d.implicitDirty, MustUpdate(d.must, t, assumeHit, ways), ways, b)
       <==> b in m.dirty && !Cached(Touch(m.stack, t), b, ways)
  {
    AgesStayExact(d, m, t, op, assumeHit, ways);
    StartedAt(d, t, op, b);
    assert DirtinessOf(d.dirtiness, false, b) == if b in m.dirty then Dirty else Clean;
    assert MaxAge(MustUpdate(d.must, t, assumeHit, ways), b, ways) == Age(Touch(m.stack, t), b, ways);
    TouchAge(m.stack, t, t, ways);
  }

  lemma ReportIsExact(d: DirtySet, m: Machine, t: Tag, op: AccessType, assumeHit: bool, ways: nat)
    requires Exact(d, m, ways) && (assumeHit ==> Cached(m.stack, t, ways))
    ensures Truthful(DirtyUpdateReport(d, t, op, assumeHit, ways), m, t, op, ways)
  {
    DirtyUpdateReportIs(d, t, op, assumeHit, ways);
    forall b
      ensures MayBeVictim(Started(d, t, op), d.implicitDirty, MustUpdate(d.must, t, assumeHit, ways), ways, b)
         <==> b in m.dirty && !Cached(Touch(m.stack, t), b, ways)
    {
      VictimIsWrittenBack(d, m, t, op, assumeHit, ways, b);
    }
    assert DirtinessOf(d.dirtiness, false, t) == if t in m.dirty then Dirty else Clean;
  }

  ghost predicate AllTruthful(d: DirtySet, m: Machine, run: seq<Event>, ways: nat)
    requires 1 <= ways && forall i :: 0 <= i < |run| ==> run[i].Precise?
    decreases run
  {
    run == [] ||
    var e := run[0];
    && Truthful(DirtyUpdateReport(d, e.tag, e.op, e.assumeHit, ways), m, e.tag, e.op, ways)
    && AllTruthful(Analyse(d, e, ways), Execute(m, e, ways), run[1..], ways)
  }

  lemma {:induction false} AllExact(d: DirtySet, m: Machine, run: seq<Event>, ways: nat)
    requires Exact(d, m, ways) && PossibleRun(m, run, ways)
    requires forall i :: 0 <= i < |run| ==> run[i].Precise?
    ensures AllTruthful(d, m, run, ways)
    decreases run
  {
    if run != [] {
      var e := run[0];
      ReportIsExact(d, m, e.tag, e.op, e.assumeHit, ways);
      AccessKeepsExact(d, m, e.tag, e.op, e.assumeHit, ways);
      AllExact(Analyse(d, e, ways), Execute(m, e, ways), run[1..], ways);
    }
  }

  /** On every path of accesses to known blocks from an empty, clean set, a write-back is reported
      exactly where there is one, and a dirtifying store exactly where a clean line is stored to. */
  lemma NothingInvented(run: seq<Event>, ways: nat)
    requires 1 <= ways && PossibleRun(Machine([], {}), run, ways)
    requires forall i :: 0 <= i < |run| ==> run[i].Precise?
    ensures AllTruthful(DirtyInit(true, true, ways), Machine([], {}), run, ways)
  {
    InitIsExact(ways);
    AllExact(DirtyInit(true, true, ways), Machine([], {}), run, ways);
  }
}
