/** Dirtiness of the blocks of one set of a write-back, write-allocate cache: what is
    tracked, how accesses change it, and why no write-back and no first store to a clean
    line goes unreported. */
module DirtySets {
  import opened Lru
  import opened AgeMaps
  import opened Reports
  import opened MayCache

  datatype Dirtiness = Dirty | Clean | Either

  type Dirts = map<Tag, Dirtiness>

  /** Blocks without an entry are clean, unless an unnamed store may have hit any of them. */
  datatype DirtySet = DirtySet(must: Must, may: May, implicitDirty: bool, dirtiness: Dirts)

  function JoinDirtiness(x: Dirtiness, y: Dirtiness): Dirtiness {
    if x == y then x else Either
  }

  function Untracked(implicitDirty: bool): Dirtiness {
    if implicitDirty then Either else Clean
  }

  function DirtinessOf(m: Dirts, implicitDirty: bool, t: Tag): Dirtiness {
    if t in m then m[t] else Untracked(implicitDirty)
  }

  // ---- the machine ----------------------------------------------------------

  /** The blocks of a set that differ from memory. */
  datatype Machine = Machine(stack: Stack, dirty: set<Tag>)

  ghost predicate MachineValid(m: Machine, ways: nat) {
    Distinct(m.stack) && forall t :: t in m.dirty ==> Cached(m.stack, t, ways)
  }

  /** An access, the blocks it writes back included. */
  function StillDirty(m: Machine, t: Tag, op: AccessType): set<Tag> {
    if op == Store then m.dirty + {t} else m.dirty
  }

  function Access(m: Machine, t: Tag, op: AccessType, ways: nat): Machine {
    var s := Touch(m.stack, t);
    Machine(s, set b | b in StillDirty(m, t, op) && Cached(s, b, ways))
  }

  /** A dirty block leaves the cache. */
  ghost predicate WritesBack(m: Machine, t: Tag, ways: nat) {
    exists b :: b in m.dirty && !Cached(Touch(m.stack, t), b, ways)
  }

  /** A store to a line that is clean, or not in the cache. */
  predicate Dirtifies(m: Machine, t: Tag, op: AccessType) {
    op == Store && t !in m.dirty
  }

  lemma AccessValid(m: Machine, t: Tag, op: AccessType, ways: nat)
    requires MachineValid(m, ways)
    ensures MachineValid(Access(m, t, op, ways), ways)
  {
    TouchDistinct(m.stack, t);
  }

  // ---- what a state says ----------------------------------------------------

  ghost predicate DirtyDescribes(d: DirtySet, m: Machine, ways: nat) {
    && MachineValid(m, ways)
    && MustDescribes(d.must, m.stack, ways) && MayDescribes(d.may, m.stack, ways)
    && DirtDescribes(d.dirtiness, d.implicitDirty, d.may.implicit, m, ways)
  }

  /** Dirty blocks are dirty, clean ones are not, and a dirty block without an entry is at
      least as old as the unlisted blocks of the may analysis. */
  ghost predicate DirtDescribes(dirts: Dirts, implicitDirty: bool, implicitAge: nat, m: Machine, ways: nat) {
    && (forall t :: t in dirts && dirts[t] == Dirty ==> t in m.dirty)
    && (forall t :: t in m.dirty ==> DirtinessOf(dirts, implicitDirty, t) != Clean)
    && (forall t :: t in m.dirty && t !in dirts ==> implicitAge <= Age(m.stack, t, ways))
  }

  /** The invariants the program checks when debugging, and those it relies on. */
  ghost predicate DirtyInvariant(d: DirtySet, ways: nat) {
    && 1 <= ways && MustValid(d.must, ways) && MayValid(d.may, ways)
    && (forall t :: t in d.dirtiness && d.dirtiness[t] == Dirty ==> t in d.must)
    && (forall t :: t in d.dirtiness && d.dirtiness[t] != Clean ==> MinAge(d.may, t) < ways)
    && (d.implicitDirty ==> d.may.implicit < ways)
  }

  // ---- updates ---------------------------------------------------------------

  function Track(dirts: Dirts, implicitDirty: bool, t: Tag): Dirts {
    if t in dirts then dirts else dirts[t := Untracked(implicitDirty)]
  }

  /** The entries when the access starts: a store makes its block dirty at once. */
  function Started(d: DirtySet, t: Tag, op: AccessType): Dirts {
    var tracked := Track(d.dirtiness, d.implicitDirty, t);
    if op == Store then tracked[t := Dirty] else tracked
  }

  /** Some block that may be dirty is not known to be cached. */
  predicate ExistsDirtyVictim(dirts: Dirts, implicitDirty: bool, must: Must) {
    implicitDirty || exists t :: t in dirts && dirts[t] != Clean && t !in must
  }

  /** Once unlisted blocks cannot be cached, only dirty blocks that can be are remembered. */
  function ForgetUnknowns(dirts: Dirts, may: May, ways: nat): Dirts {
    map t | t in dirts && dirts[t] != Clean && MinAge(may, t) != ways :: dirts[t]
  }

  function Doubt(dirts: Dirts, evicted: set<Tag>): Dirts {
    map t | t in dirts :: if t in evicted && dirts[t] == Dirty then Either else dirts[t]
  }

  function Incorporate(dirts: Dirts, may: May, mustEvicted: set<Tag>, mayReport: MayReport, ways: nat): Dirts {
    var kept := if mayReport.justEvictedUnknowns then ForgetUnknowns(dirts, may, ways) else dirts;
    Doubt(kept, mustEvicted) - mayReport.evictedElements
  }

  function DirtyUpdate(d: DirtySet, t: Tag, op: AccessType, assumeHit: bool, ways: nat): DirtySet
    requires 1 <= ways
  {
    var must, may := MustUpdate(d.must, t, assumeHit, ways), MayUpdate(d.may, t, ways);
    var report := UpdateReport(d.may, may, ways);
    DirtySet(must, may, d.implicitDirty && !report.justEvictedUnknowns,
             Incorporate(Started(d, t, op), may, d.must.Keys - must.Keys, report, ways))
  }

  datatype WritebackReport = WritebackReport(wbPossible: bool, dirtifyingStore: bool)

  function DirtyUpdateReport(d: DirtySet, t: Tag, op: AccessType, assumeHit: bool, ways: nat): WritebackReport
    requires 1 <= ways
  {
    WritebackReport(ExistsDirtyVictim(Started(d, t, op), d.implicitDirty, MustUpdate(d.must, t, assumeHit, ways)),
                    op == Store && DirtinessOf(d.dirtiness, d.implicitDirty, t) != Dirty)
  }

  /** A block that may be dirty and may have left the cache. */
  ghost predicate MayBeVictim(dirts: Dirts, implicitDirty: bool, must: Must, ways: nat, b: Tag) {
    DirtinessOf(dirts, implicitDirty, b) != Clean && MaxAge(must, b, ways) == ways
  }

  lemma VictimIff(dirts: Dirts, implicitDirty: bool, must: Must, ways: nat)
    requires MustValid(must, ways)
    ensures ExistsDirtyVictim(dirts, implicitDirty, must)
       <==> exists b :: MayBeVictim(dirts, implicitDirty, must, ways, b)
  {
    if implicitDirty {
      var b := Fresh(dirts.Keys + must.Keys);
      assert MayBeVictim(dirts, implicitDirty, must, ways, b);
    }
    if b :| b in dirts && dirts[b] != Clean && b !in must {
      assert MayBeVictim(dirts, implicitDirty, must, ways, b);
    }
  }

  /** A write-back is reported exactly if, with the access begun, some block that is not certainly
      clean is not certainly cached afterwards; a dirtifying store, if a block is stored to that
      is not certainly dirty. */
  lemma DirtyUpdateReportIs(d: DirtySet, t: Tag, op: AccessType, assumeHit: bool, ways: nat)
    requires DirtyInvariant(d, ways)
    ensures var r, must := DirtyUpdateReport(d, t, op, assumeHit, ways), MustUpdate(d.must, t, assumeHit, ways);
      && (r.wbPossible <==> exists b :: MayBeVictim(Started(d, t, op), d.implicitDirty, must, ways, b))
      && (r.dirtifyingStore <==> op == Store && DirtinessOf(d.dirtiness, d.implicitDirty, t) != Dirty)
  {
    MustUpdatePointwise(d.must, t, assumeHit, ways, t);
    VictimIff(Started(d, t, op), d.implicitDirty, MustUpdate(d.must, t, assumeHit, ways), ways);
  }

  lemma AccessedIs(d: DirtySet, t: Tag, op: AccessType, assumeHit: bool, ways: nat)
    requires DirtyInvariant(d, ways)
    ensures var r := DirtyUpdate(d, t, op, assumeHit, ways);
      DirtinessOf(r.dirtiness, r.implicitDirty, t)
      == if op == Store then Dirty else DirtinessOf(d.dirtiness, d.implicitDirty, t)
  {
    UpdateReportIs(d.may, t, ways, t);
    MustUpdatePointwise(d.must, t, assumeHit, ways, t);
    MayUpdatePointwise(d.may, t, ways, t);
  }

  lemma OtherIs(d: DirtySet, t: Tag, op: AccessType, assumeHit: bool, ways: nat, b: Tag)
    requires DirtyInvariant(d, ways) && b != t
    ensures var r := DirtyUpdate(d, t, op, assumeHit, ways);
      DirtinessOf(r.dirtiness, r.implicitDirty, b)
      == if MinAge(r.may, b) == ways then Clean
         else if b !in d.dirtiness then (if d.implicitDirty && r.may.implicit < ways then Either else Clean)
         else if d.dirtiness[b] == Dirty && MaxAge(r.must, b, ways) == ways then Either
         else d.dirtiness[b]
  {
    UpdateReportIs(d.may, t, ways, b);
    MustUpdatePointwise(d.must, t, assumeHit, ways, b);
    MayUpdatePointwise(d.may, t, ways, b);
  }

  /** What is known of a block after an access: that it is clean if it cannot be cached, dirty if
      it was stored to, and otherwise what was known, except that a dirty block which may have
      left is in doubt. */
  lemma DirtyUpdateIs(d: DirtySet, t: Tag, op: AccessType, assumeHit: bool, ways: nat, b: Tag)
    requires DirtyInvariant(d, ways)
    ensures var r := DirtyUpdate(d, t, op, assumeHit, ways);
      DirtinessOf(r.dirtiness, r.implicitDirty, b)
      == if b == t then (if op == Store then Dirty else DirtinessOf(d.dirtiness, d.implicitDirty, t))
         else if MinAge(r.may, b) == ways then Clean
         else if b !in d.dirtiness then (if d.implicitDirty && r.may.implicit < ways then Either else Clean)
         else if d.dirtiness[b] == Dirty && MaxAge(r.must, b, ways) == ways then Either
         else d.dirtiness[b]
  {
    MayUpdatePointwise(d.may, t, ways, b);
    if b == t {
      AccessedIs(d, t, op, assumeHit, ways);
    } else {
      OtherIs(d, t, op, assumeHit, ways, b);
    }
  }

  /** Which blocks are tracked: the accessed one, and those tracked before, except what was reported
      to have left; once the unlisted blocks have left, clean ones need no entry. */
  lemma DirtyUpdateTracks(d: DirtySet, t: Tag, op: AccessType, assumeHit: bool, ways: nat, b: Tag)
    requires DirtyInvariant(d, ways)
    ensures var r := DirtyUpdate(d, t, op, assumeHit, ways);
      var justLeft := d.may.implicit < ways && r.may.implicit == ways;
      b in r.dirtiness
      <==> && (b == t || b in d.dirtiness)
           && !(b in d.may.explicit && MinAge(r.may, b) == ways)
           && (justLeft ==> MinAge(r.may, b) < ways && DirtinessOf(r.dirtiness, r.implicitDirty, b) != Clean)
  {
    MayUpdatePointwise(d.may, t, ways, b);
    MustUpdatePointwise(d.must, t, assumeHit, ways, b);
    UpdateReportIs(d.may, t, ways, b);
  }

  /** Entries after the report: blocks that are dirty are dirty still, and what was
      dropped cannot be cached. */
  lemma IncorporateAt(dirts: Dirts, may: May, must: Must, mustEvicted: set<Tag>, report: MayReport, ways: nat, t: Tag)
    ensures var r := Incorporate(dirts, may, mustEvicted, report, ways);
      && (t in r ==> t in dirts && (r[t] == dirts[t] || (dirts[t] == Dirty && t in mustEvicted && r[t] == Either)))
      && (t in r && r[t] == Dirty ==> t !in mustEvicted)
      && (t in dirts && t !in r ==>
            (t in report.evictedElements
             || (report.justEvictedUnknowns && (dirts[t] == Clean || MinAge(may, t) == ways))))
      && (t in r && report.justEvictedUnknowns ==> MinAge(may, t) != ways)
  {
  }

  /** A precise access keeps the invariants. */
  lemma DirtyUpdateInvariant(d: DirtySet, t: Tag, op: AccessType, assumeHit: bool, ways: nat)
    requires DirtyInvariant(d, ways)
    ensures DirtyInvariant(DirtyUpdate(d, t, op, assumeHit, ways), ways)
  {
    var r := DirtyUpdate(d, t, op, assumeHit, ways);
    var started := Started(d, t, op);
    var report := UpdateReport(d.may, r.may, ways);
    var mustEvicted := d.must.Keys - r.must.Keys;
    MustUpdatePointwise(d.must, t, assumeHit, ways, t);
    MayUpdatePointwise(d.may, t, ways, t);
    forall b | b in r.dirtiness
      ensures r.dirtiness[b] == Dirty ==> b in r.must
      ensures r.dirtiness[b] != Clean ==> MinAge(r.may, b) < ways
    {
      IncorporateAt(started, r.may, r.must, mustEvicted, report, ways, b);
      MayUpdatePointwise(d.may, t, ways, b);
      MustUpdatePointwise(d.must, t, assumeHit, ways, b);
    }
  }

  /** The accessed block is tracked and, after a store, known to be dirty. */
  lemma StartedAt(d: DirtySet, t: Tag, op: AccessType, b: Tag)
    ensures var s := Started(d, t, op);
      && (b in s <==> b in d.dirtiness || b == t)
      && DirtinessOf(s, d.implicitDirty, b)
         == if b == t && op == Store then Dirty else DirtinessOf(d.dirtiness, d.implicitDirty, b)
  {
  }

  /** A dirty block that has no entry once the access is over is an old one. */
  lemma OldUnlisted(d: DirtySet, m: Machine, t: Tag, op: AccessType, assumeHit: bool, ways: nat, b: Tag)
    requires DirtyInvariant(d, ways) && DirtyDescribes(d, m, ways)
    requires b in Access(m, t, op, ways).dirty
    ensures b !in Started(d, t, op) ==> MayUpdate(d.may, t, ways).implicit <= Age(Touch(m.stack, t), b, ways)
  {
    if b !in Started(d, t, op) {
      assert b != t && b in m.dirty && d.may.implicit <= Age(m.stack, b, ways);
      assert Cached(m.stack, b, ways);
      AgesDiffer(m.stack, b, t, ways);
      TouchAge(m.stack, t, b, ways);
      assert MinAge(d.may, t) <= Age(m.stack, t, ways);
    }
  }

  /** A dirty block is not one that was forgotten, so its entry says that it may be dirty. */
  lemma DirtyKept(d: DirtySet, m: Machine, t: Tag, op: AccessType, assumeHit: bool, ways: nat, b: Tag)
    requires DirtyInvariant(d, ways) && DirtyDescribes(d, m, ways)
    requires b in Access(m, t, op, ways).dirty
    ensures var r := DirtyUpdate(d, t, op, assumeHit, ways);
      && DirtinessOf(r.dirtiness, r.implicitDirty, b) != Clean
      && (b !in r.dirtiness ==> r.may.implicit <= Age(Touch(m.stack, t), b, ways))
  {
    var r := DirtyUpdate(d, t, op, assumeHit, ways);
    var started := Started(d, t, op);
    var report := UpdateReport(d.may, r.may, ways);
    StartedAt(d, t, op, b);
    IncorporateAt(started, r.may, r.must, d.must.Keys - r.must.Keys, report, ways, b);
    MayUpdateSound(d.may, m.stack, t, ways);
    assert MinAge(r.may, b) <= Age(Touch(m.stack, t), b, ways) < ways;
    OldUnlisted(d, m, t, op, assumeHit, ways, b);
  }

  /** A block that is known to be dirty is: it was, or it was stored to, and it did not
      leave the cache. */
  lemma KnownDirty(d: DirtySet, m: Machine, t: Tag, op: AccessType, assumeHit: bool, ways: nat, b: Tag)
    requires DirtyInvariant(d, ways) && DirtyDescribes(d, m, ways)
    requires assumeHit ==> Cached(m.stack, t, ways)
    ensures var r := DirtyUpdate(d, t, op, assumeHit, ways);
      b in r.dirtiness && r.dirtiness[b] == Dirty ==> b in Access(m, t, op, ways).dirty
  {
    var r := DirtyUpdate(d, t, op, assumeHit, ways);
    if b in r.dirtiness && r.dirtiness[b] == Dirty {
      StartedAt(d, t, op, b);
      IncorporateAt(Started(d, t, op), r.may, r.must, d.must.Keys - r.must.Keys,
                    UpdateReport(d.may, r.may, ways), ways, b);
      DirtyUpdateInvariant(d, t, op, assumeHit, ways);
      MustUpdateSound(d.must, m.stack, t, assumeHit, ways);
      assert Age(Touch(m.stack, t), b, ways) <= MaxAge(r.must, b, ways) < ways;
      assert b in StillDirty(m, t, op);
    }
  }

  /** A precise access keeps the state a description of the machine. */
  lemma DirtyUpdateSound(d: DirtySet, m: Machine, t: Tag, op: AccessType, assumeHit: bool, ways: nat)
    requires DirtyInvariant(d, ways) && DirtyDescribes(d, m, ways)
    requires assumeHit ==> Cached(m.stack, t, ways)
    ensures DirtyDescribes(DirtyUpdate(d, t, op, assumeHit, ways), Access(m, t, op, ways), ways)
  {
    MustUpdateSound(d.must, m.stack, t, assumeHit, ways);
    MayUpdateSound(d.may, m.stack, t, ways);
    AccessValid(m, t, op, ways);
    forall b | b in Access(m, t, op, ways).dirty
      ensures var r := DirtyUpdate(d, t, op, assumeHit, ways);
        && DirtinessOf(r.dirtiness, r.implicitDirty, b) != Clean
        && (b !in r.dirtiness ==> r.may.implicit <= Age(Touch(m.stack, t), b, ways))
    {
      DirtyKept(d, m, t, op, assumeHit, ways, b);
    }
    forall b ensures var r := DirtyUpdate(d, t, op, assumeHit, ways);
      b in r.dirtiness && r.dirtiness[b] == Dirty ==> b in Access(m, t, op, ways).dirty
    {
      KnownDirty(d, m, t, op, assumeHit, ways, b);
    }
  }

  /** What is reported of an access covers what it does: every write-back and every
      store that makes a line dirty. */
  ghost predicate Covers(r: WritebackReport, m: Machine, t: Tag, op: AccessType, ways: nat) {
    && (WritesBack(m, t, ways) ==> r.wbPossible)
    && (Dirtifies(m, t, op) ==> r.dirtifyingStore)
  }

  /** No write-back and no dirtifying store goes unreported. */
  lemma DirtyUpdateReportSound(d: DirtySet, m: Machine, t: Tag, op: AccessType, assumeHit: bool, ways: nat)
    requires DirtyInvariant(d, ways) && DirtyDescribes(d, m, ways)
    requires assumeHit ==> Cached(m.stack, t, ways)
    ensures Covers(DirtyUpdateReport(d, t, op, assumeHit, ways), m, t, op, ways)
  {
    if WritesBack(m, t, ways) {
      var b :| b in m.dirty && !Cached(Touch(m.stack, t), b, ways);
      TouchAge(m.stack, t, b, ways);
      StartedAt(d, t, op, b);
      MustUpdateSound(d.must, m.stack, t, assumeHit, ways);
      MustUpdatePointwise(d.must, t, assumeHit, ways, b);
      assert Age(Touch(m.stack, t), b, ways) <= MaxAge(MustUpdate(d.must, t, assumeHit, ways), b, ways);
      assert b !in MustUpdate(d.must, t, assumeHit, ways);
    }
  }

  // ---- imprecise accesses ------------------------------------------------------

  function DirtyBlocks(m: Dirts, implicitDirty: bool, low: Tag, high: Tag, op: AccessType): (r: Dirts)
    decreases high + 1 - low
  {
    if low > high then m
    else
      var tracked := Track(m, implicitDirty, low);
      DirtyBlocks(if op == Store then tracked[low := JoinDirtiness(tracked[low], Dirty)] else tracked,
                  implicitDirty, low + 1, high, op)
  }

  /** Exactly the blocks of the range get entries, and what a store may have done is
      joined to them. */
  lemma {:induction false} DirtyBlocksAt(m: Dirts, implicitDirty: bool, low: Tag, high: Tag, op: AccessType, b: Tag)
    ensures var r := DirtyBlocks(m, implicitDirty, low, high, op);
      && (b in r <==> b in m || low <= b <= high)
      && DirtinessOf(r, implicitDirty, b)
         == if low <= b <= high && op == Store then JoinDirtiness(DirtinessOf(m, implicitDirty, b), Dirty)
            else DirtinessOf(m, implicitDirty, b)
    decreases high + 1 - low
  {
    if low <= high {
      var tracked := Track(m, implicitDirty, low);
      DirtyBlocksAt(if op == Store then tracked[low := JoinDirtiness(tracked[low], Dirty)] else tracked,
                    implicitDirty, low + 1, high, op, b);
    }
  }

  function WithoutClean(m: Dirts): Dirts {
    map t | t in m && m[t] != Clean :: m[t]
  }

  /** The entries of the blocks the imprecise access may have evicted are in doubt. */
  function Doubted(d: DirtySet, ways: nat): Dirts {
    Doubt(d.dirtiness, d.must.Keys - MustPotential(d.must, ways).Keys)
  }

  function DirtyPotential(d: DirtySet, low: Tag, high: Tag, op: AccessType, ways: nat): DirtySet {
    var must, may := MustPotential(d.must, ways), MayPotential(d.may, low, high);
    if high - low + 1 > MAX_WORTHWHILE_TAGS then
      if op == Store then DirtySet(must, may, true, WithoutClean(Doubted(d, ways)))
      else DirtySet(must, may, d.implicitDirty, Doubted(d, ways))
    else
      DirtySet(must, may, d.implicitDirty, DirtyBlocks(Doubted(d, ways), d.implicitDirty, low, high, op))
  }

  /** Some block of the range is not known to be dirty. */
  predicate MayDirtify(m: Dirts, implicitDirty: bool, low: Tag, high: Tag) {
    exists t | t in TagRange(low, high) :: DirtinessOf(m, implicitDirty, t) != Dirty
  }

  function DirtyPotentialReport(d: DirtySet, low: Tag, high: Tag, op: AccessType, ways: nat): WritebackReport {
    WritebackReport(ExistsDirtyVictim(d.dirtiness, d.implicitDirty, MustPotential(d.must, ways)),
                    op == Store
                    && (high - low + 1 > MAX_WORTHWHILE_TAGS
                        || MayDirtify(Doubted(d, ways), d.implicitDirty, low, high)))
  }

  lemma DoubtedAt(d: DirtySet, ways: nat, b: Tag)
    ensures var r := Doubted(d, ways);
      && (b in r <==> b in d.dirtiness)
      && (DirtinessOf(r, d.implicitDirty, b) == Clean <==> DirtinessOf(d.dirtiness, d.implicitDirty, b) == Clean)
      && (DirtinessOf(r, d.implicitDirty, b) == Dirty
          <==> DirtinessOf(d.dirtiness, d.implicitDirty, b) == Dirty
               && (b in d.must ==> b in MustPotential(d.must, ways)))
  {
  }

  /** The same for an access to some block of a range, or none: a store may have made any of the
      range dirty, and any block at all if the range has more than four. */
  lemma DirtyPotentialIs(d: DirtySet, low: Tag, high: Tag, op: AccessType, ways: nat, b: Tag)
    requires DirtyInvariant(d, ways) && low <= high
    ensures var r := DirtyPotential(d, low, high, op, ways);
      var before := DirtinessOf(d.dirtiness, d.implicitDirty, b);
      var doubted := if before == Dirty && MaxAge(r.must, b, ways) == ways then Either else before;
      DirtinessOf(r.dirtiness, r.implicitDirty, b)
      == if op == Store && (low <= b <= high || high - low >= 4) then JoinDirtiness(doubted, Dirty) else doubted
  {
    MustPotentialPointwise(d.must, ways, b);
    if high - low < 4 {
      DirtyBlocksAt(Doubted(d, ways), d.implicitDirty, low, high, op, b);
    }
  }

  /** Which blocks are tracked then. */
  lemma DirtyPotentialTracks(d: DirtySet, low: Tag, high: Tag, op: AccessType, ways: nat, b: Tag)
    requires DirtyInvariant(d, ways) && low <= high
    ensures b in DirtyPotential(d, low, high, op, ways).dirtiness
       <==> if high - low < 4 then b in d.dirtiness || low <= b <= high
            else b in d.dirtiness && (op == Store ==> d.dirtiness[b] != Clean)
  {
    if high - low < 4 {
      DirtyBlocksAt(Doubted(d, ways), d.implicitDirty, low, high, op, b);
    }
  }

  /** What is reported of such an access. */
  lemma DirtyPotentialReportIs(d: DirtySet, low: Tag, high: Tag, op: AccessType, ways: nat)
    requires DirtyInvariant(d, ways) && low <= high
    ensures var r, must := DirtyPotentialReport(d, low, high, op, ways), MustPotential(d.must, ways);
      && (r.wbPossible <==> exists b :: MayBeVictim(d.dirtiness, d.implicitDirty, must, ways, b))
      && (r.dirtifyingStore <==>
            op == Store && (high - low >= 4 || exists b :: low <= b <= high && !SureDirty(d, must, ways, b)))
  {
    VictimIff(d.dirtiness, d.implicitDirty, MustPotential(d.must, ways), ways);
    forall b ensures DirtinessOf(Doubted(d, ways), d.implicitDirty, b) == Dirty
                <==> SureDirty(d, MustPotential(d.must, ways), ways, b)
    {
      DoubtedAt(d, ways, b);
    }
    if b :| low <= b <= high && !SureDirty(d, MustPotential(d.must, ways), ways, b) {
      assert b in TagRange(low, high);
    }
  }

  ghost predicate SureDirty(d: DirtySet, must: Must, ways: nat, b: Tag) {
    DirtinessOf(d.dirtiness, d.implicitDirty, b) == Dirty && MaxAge(must, b, ways) < ways
  }

  lemma DirtyPotentialAt(d: DirtySet, low: Tag, high: Tag, op: AccessType, ways: nat, b: Tag)
    ensures var r := DirtyPotential(d, low, high, op, ways);
      var before := DirtinessOf(Doubted(d, ways), d.implicitDirty, b);
      var after := DirtinessOf(r.dirtiness, r.implicitDirty, b);
      && (after == Dirty ==> before == Dirty)
      && (after == Clean ==> before == Clean && !(op == Store && low <= b <= high))
      && (b in r.dirtiness && r.dirtiness[b] != Clean ==>
            ((b in d.dirtiness && before != Clean)
             || (low <= b <= high && high - low + 1 <= MAX_WORTHWHILE_TAGS)))
      && (b in d.dirtiness ==> b in r.dirtiness || high - low + 1 > MAX_WORTHWHILE_TAGS)
      && (b !in r.dirtiness && low <= b <= high ==> high - low + 1 > MAX_WORTHWHILE_TAGS)
  {
    if high - low + 1 <= MAX_WORTHWHILE_TAGS {
      DirtyBlocksAt(Doubted(d, ways), d.implicitDirty, low, high, op, b);
    }
  }

  lemma DirtyPotentialInvariant(d: DirtySet, low: Tag, high: Tag, op: AccessType, ways: nat)
    requires DirtyInvariant(d, ways)
    ensures DirtyInvariant(DirtyPotential(d, low, high, op, ways), ways)
  {
    var r := DirtyPotential(d, low, high, op, ways);
    forall b | b in r.dirtiness
      ensures r.dirtiness[b] == Dirty ==> b in r.must
      ensures r.dirtiness[b] != Clean ==> MinAge(r.may, b) < ways
    {
      DoubtedAt(d, ways, b);
      DirtyPotentialAt(d, low, high, op, ways, b);
    }
  }

  /** A block still called dirty after an imprecise access has not left the cache. */
  lemma DirtyStays(d: DirtySet, m: Machine, t: Tag, low: Tag, high: Tag, op: AccessType, ways: nat, b: Tag)
    requires DirtyInvariant(d, ways) && DirtyDescribes(d, m, ways)
    requires var r := DirtyPotential(d, low, high, op, ways); b in r.dirtiness && r.dirtiness[b] == Dirty
    ensures b in Access(m, t, op, ways).dirty
  {
    DoubtedAt(d, ways, b);
    DirtyPotentialAt(d, low, high, op, ways, b);
    MustPotentialSound(d.must, m.stack, t, ways);
    assert Age(Touch(m.stack, t), b, ways) <= MaxAge(MustPotential(d.must, ways), b, ways) < ways;
  }

  /** What an imprecise access says of a block holds of the machine afterwards. */
  lemma DirtyPotentialBlock(d: DirtySet, m: Machine, t: Tag, low: Tag, high: Tag, op: AccessType, ways: nat, b: Tag)
    requires DirtyInvariant(d, ways) && DirtyDescribes(d, m, ways)
    requires low <= t <= high
    ensures var r, n := DirtyPotential(d, low, high, op, ways), Access(m, t, op, ways);
      && (b in r.dirtiness && r.dirtiness[b] == Dirty ==> b in n.dirty)
      && (b in n.dirty ==> DirtinessOf(r.dirtiness, r.implicitDirty, b) != Clean)
      && (b in n.dirty && b !in r.dirtiness ==> r.may.implicit <= Age(n.stack, b, ways))
  {
    var r := DirtyPotential(d, low, high, op, ways);
    if b in r.dirtiness && r.dirtiness[b] == Dirty {
      DirtyStays(d, m, t, low, high, op, ways, b);
    }
    DoubtedAt(d, ways, b);
    DirtyPotentialAt(d, low, high, op, ways, b);
    TouchAge(m.stack, t, b, ways);
  }

  /** An imprecise access keeps the state a description of the machine, whatever block of
      the range was accessed. */
  lemma DirtyPotentialSound(d: DirtySet, m: Machine, t: Tag, low: Tag, high: Tag, op: AccessType, ways: nat)
    requires DirtyInvariant(d, ways) && DirtyDescribes(d, m, ways)
    requires low <= t <= high
    ensures DirtyDescribes(DirtyPotential(d, low, high, op, ways), Access(m, t, op, ways), ways)
  {
    MustPotentialSound(d.must, m.stack, t, ways);
    MayPotentialSound(d.may, m.stack, t, low, high, ways);
    AccessValid(m, t, op, ways);
    forall b
      ensures var r, n := DirtyPotential(d, low, high, op, ways), Access(m, t, op, ways);
        && (b in r.dirtiness && r.dirtiness[b] == Dirty ==> b in n.dirty)
        && (b in n.dirty ==> DirtinessOf(r.dirtiness, r.implicitDirty, b) != Clean)
        && (b in n.dirty && b !in r.dirtiness ==> r.may.implicit <= Age(n.stack, b, ways))
    {
      DirtyPotentialBlock(d, m, t, low, high, op, ways, b);
    }
  }

  /** So does an imprecise access that went to another set. */
  lemma DirtyNoAccessSound(d: DirtySet, m: Machine, low: Tag, high: Tag, op: AccessType, ways: nat)
    requires DirtyInvariant(d, ways) && DirtyDescribes(d, m, ways)
    ensures DirtyDescribes(DirtyPotential(d, low, high, op, ways), m, ways)
  {
    var r := DirtyPotential(d, low, high, op, ways);
    MustPotentialSound(d.must, m.stack, low, ways);
    MayPotentialSound(d.may, m.stack, low, low, high, ways);
    DirtyPotentialInvariant(d, low, high, op, ways);
    forall b
      ensures b in r.dirtiness && r.dirtiness[b] == Dirty ==> b in m.dirty
      ensures b in m.dirty ==> DirtinessOf(r.dirtiness, r.implicitDirty, b) != Clean
      ensures b in m.dirty && b !in r.dirtiness ==> r.may.implicit <= Age(m.stack, b, ways)
    {
      DoubtedAt(d, ways, b);
      DirtyPotentialAt(d, low, high, op, ways, b);
    }
  }

  lemma DirtyPotentialReportSound(d: DirtySet, m: Machine, t: Tag, low: Tag, high: Tag, op: AccessType, ways: nat)
    requires DirtyInvariant(d, ways) && DirtyDescribes(d, m, ways)
    requires low <= t <= high
    ensures Covers(DirtyPotentialReport(d, low, high, op, ways), m, t, op, ways)
  {
    MustPotentialSound(d.must, m.stack, t, ways);
    if WritesBack(m, t, ways) {
      var b :| b in m.dirty && !Cached(Touch(m.stack, t), b, ways);
      TouchAge(m.stack, t, b, ways);
      assert Age(Touch(m.stack, t), b, ways) <= MaxAge(MustPotential(d.must, ways), b, ways);
      assert b !in MustPotential(d.must, ways);
    }
    DoubtedAt(d, ways, t);
    assert t in TagRange(low, high);
  }

  // ---- joins --------------------------------------------------------------------

  function DirtsJoin(x: DirtySet, y: DirtySet): Dirts {
    map t | t in x.dirtiness.Keys + y.dirtiness.Keys ::
      JoinDirtiness(DirtinessOf(x.dirtiness, x.implicitDirty, t), DirtinessOf(y.dirtiness, y.implicitDirty, t))
  }

  function DirtyJoin(x: DirtySet, y: DirtySet): DirtySet {
    DirtySet(MustJoin(x.must, y.must), MayJoin(x.may, y.may), x.implicitDirty || y.implicitDirty, DirtsJoin(x, y))
  }

  ghost predicate DirtinessLeq(x: Dirtiness, y: Dirtiness) {
    x == y || y == Either
  }

  ghost predicate DirtyLeq(x: DirtySet, y: DirtySet, ways: nat) {
    MustLeq(x.must, y.must, ways) && MayLeq(x.may, y.may) && EntriesLeq(x, y)
  }

  ghost predicate EntriesLeq(x: DirtySet, y: DirtySet) {
    && x.dirtiness.Keys <= y.dirtiness.Keys && (x.implicitDirty ==> y.implicitDirty)
    && forall t :: t in y.dirtiness ==>
         DirtinessLeq(DirtinessOf(x.dirtiness, x.implicitDirty, t), y.dirtiness[t])
  }

  /** Entry by entry, joined or not, the join is the join of what is known. */
  lemma DirtsJoinAt(x: DirtySet, y: DirtySet, t: Tag)
    ensures t in DirtsJoin(x, y) <==> t in x.dirtiness || t in y.dirtiness
    ensures DirtinessOf(DirtsJoin(x, y), x.implicitDirty || y.implicitDirty, t)
         == JoinDirtiness(DirtinessOf(x.dirtiness, x.implicitDirty, t), DirtinessOf(y.dirtiness, y.implicitDirty, t))
  {
  }

  /** A block that is not known to be clean may be cached. */
  lemma UncleanIsYoung(d: DirtySet, ways: nat, t: Tag)
    requires DirtyInvariant(d, ways)
    ensures DirtinessOf(d.dirtiness, d.implicitDirty, t) != Clean ==> MinAge(d.may, t) < ways
  {
  }

  lemma JoinUncleanIsYoung(x: DirtySet, y: DirtySet, ways: nat, t: Tag)
    requires DirtyInvariant(x, ways) && DirtyInvariant(y, ways)
    requires DirtinessOf(DirtsJoin(x, y), x.implicitDirty || y.implicitDirty, t) != Clean
    ensures MinAge(MayJoin(x.may, y.may), t) < ways
  {
    DirtsJoinAt(x, y, t);
    UncleanIsYoung(x, ways, t);
    UncleanIsYoung(y, ways, t);
    MayJoinPointwise(x.may, y.may, ways, t);
  }

  lemma JoinDirtyIsListed(x: DirtySet, y: DirtySet, ways: nat, t: Tag)
    requires DirtyInvariant(x, ways) && DirtyInvariant(y, ways)
    requires DirtinessOf(DirtsJoin(x, y), x.implicitDirty || y.implicitDirty, t) == Dirty
    ensures t in MustJoin(x.must, y.must)
  {
    DirtsJoinAt(x, y, t);
  }

  lemma DirtyJoinInvariant(x: DirtySet, y: DirtySet, ways: nat)
    requires DirtyInvariant(x, ways) && DirtyInvariant(y, ways)
    ensures DirtyInvariant(DirtyJoin(x, y), ways)
  {
    var j := DirtyJoin(x, y);
    assert MustValid(j.must, ways) by { MustJoinIsLub(x.must, y.must, y.must, ways); }
    MayJoinValid(x.may, y.may, ways);
    forall t | t in j.dirtiness && j.dirtiness[t] != Clean ensures MinAge(j.may, t) < ways {
      JoinUncleanIsYoung(x, y, ways, t);
    }
    forall t | t in j.dirtiness && j.dirtiness[t] == Dirty ensures t in j.must {
      JoinDirtyIsListed(x, y, ways, t);
    }
  }

  lemma EntriesJoinIsLub(x: DirtySet, y: DirtySet, z: DirtySet)
    ensures EntriesLeq(x, DirtyJoin(x, y)) && EntriesLeq(y, DirtyJoin(x, y))
    ensures EntriesLeq(x, z) && EntriesLeq(y, z) ==> EntriesLeq(DirtyJoin(x, y), z)
  {
    if EntriesLeq(x, z) && EntriesLeq(y, z) {
      forall t | t in z.dirtiness
        ensures DirtinessLeq(DirtinessOf(DirtsJoin(x, y), x.implicitDirty || y.implicitDirty, t), z.dirtiness[t])
      {
        DirtsJoinAt(x, y, t);
      }
    }
  }

  /** Joined entries that change nothing are entries in order. */
  lemma EntriesJoinDecides(x: DirtySet, y: DirtySet)
    ensures DirtsJoin(x, y) == y.dirtiness && (x.implicitDirty ==> y.implicitDirty) <==> EntriesLeq(x, y)
  {
    var j := DirtsJoin(x, y);
    if j == y.dirtiness && (x.implicitDirty ==> y.implicitDirty) {
      forall t | t in x.dirtiness ensures t in y.dirtiness {
        DirtsJoinAt(x, y, t);
      }
      forall t | t in y.dirtiness
        ensures DirtinessLeq(DirtinessOf(x.dirtiness, x.implicitDirty, t), y.dirtiness[t])
      {
        DirtsJoinAt(x, y, t);
      }
    }
  }

  /** The join is the least upper bound, and comparing it with the right operand decides
      the order. */
  lemma DirtyJoinIsLub(x: DirtySet, y: DirtySet, z: DirtySet, ways: nat)
    requires DirtyInvariant(x, ways) && DirtyInvariant(y, ways) && DirtyInvariant(z, ways)
    ensures DirtyLeq(x, DirtyJoin(x, y), ways) && DirtyLeq(y, DirtyJoin(x, y), ways)
    ensures DirtyLeq(x, z, ways) && DirtyLeq(y, z, ways) ==> DirtyLeq(DirtyJoin(x, y), z, ways)
    ensures DirtyJoin(x, y) == y <==> DirtyLeq(x, y, ways)
  {
    MustJoinIsLub(x.must, y.must, z.must, ways);
    MayJoinIsLub(x.may, y.may, z.may, ways);
    EntriesJoinIsLub(x, y, z);
    EntriesJoinDecides(x, y);
  }

  /** Going up in the order never loses a machine. */
  lemma DirtyLeqSound(x: DirtySet, y: DirtySet, m: Machine, ways: nat)
    requires DirtyLeq(x, y, ways) && DirtyDescribes(x, m, ways)
    ensures DirtyDescribes(y, m, ways)
  {
    LeqSound(x.must, y.must, x.may, y.may, m.stack, ways);
    var t := Fresh(x.may.explicit.Keys + y.may.explicit.Keys);
    assert MinAge(x.may, t) >= MinAge(y.may, t);
  }

  // ---- initial states -------------------------------------------------------------

  function DirtyInit(assumeAnEmptyCache: bool, assumeCleanCache: bool, ways: nat): DirtySet {
    DirtySet(map[], MayInit(assumeAnEmptyCache, ways), !assumeCleanCache, map[])
  }

  lemma DirtyInitSound(m: Machine, assumeAnEmptyCache: bool, assumeCleanCache: bool, ways: nat)
    requires 1 <= ways && MachineValid(m, ways)
    requires assumeAnEmptyCache ==> m.stack == []
    requires assumeCleanCache ==> m.dirty == {}
    ensures DirtyDescribes(DirtyInit(assumeAnEmptyCache, assumeCleanCache, ways), m, ways)
  {
    InitSound(m.stack, assumeAnEmptyCache, ways);
  }

  /** A cache assumed to be empty must also be assumed to be clean: otherwise unlisted
      blocks count as dirty although none can be cached. */
  lemma DirtyInitInvariant(assumeAnEmptyCache: bool, assumeCleanCache: bool, ways: nat)
    requires 1 <= ways
    ensures DirtyInvariant(DirtyInit(assumeAnEmptyCache, assumeCleanCache, ways), ways)
       <==> (assumeAnEmptyCache ==> assumeCleanCache)
  {
  }

  /** The combination the invariants rule out when blocks are reported evicted. */
  ghost predicate Impossible(d: DirtySet, t: Tag, ways: nat)
    requires 1 <= ways
  {
    var report := UpdateReport(d.may, MayUpdate(d.may, t, ways), ways);
    report.evictedElements != {} && d.implicitDirty && !report.justEvictedUnknowns
  }

  /** The branch marked unreachable is, as long as the invariants hold. */
  lemma NeverImpossible(d: DirtySet, t: Tag, ways: nat)
    requires DirtyInvariant(d, ways)
    ensures !Impossible(d, t, ways)
  {
  }

  // ---- runs ----------------------------------------------------------------------

  /** What the analysis is fed along one path of the program: accesses to a known block,
      accesses to a block of a range (or to another set), and joins with other paths. */
  datatype Event =
    | Precise(tag: Tag, op: AccessType, assumeHit: bool)
    | Imprecise(low: Tag, high: Tag, op: AccessType, actual: Option<Tag>)
    | Joined(other: DirtySet)

  ghost predicate Possible(e: Event, m: Machine, ways: nat) {
    match e
    case Precise(t, _, assumeHit) => assumeHit ==> Cached(m.stack, t, ways)
    case Imprecise(low, high, _, actual) => low <= high && (actual.Some? ==> low <= actual.value <= high)
    case Joined(other) => DirtyInvariant(other, ways)
  }

  function Analyse(d: DirtySet, e: Event, ways: nat): DirtySet
    requires 1 <= ways
  {
    match e
    case Precise(t, op, assumeHit) => DirtyUpdate(d, t, op, assumeHit, ways)
    case Imprecise(low, high, op, _) => DirtyPotential(d, low, high, op, ways)
    case Joined(other) => DirtyJoin(d, other)
  }

  function Execute(m: Machine, e: Event, ways: nat): Machine {
    match e
    case Precise(t, op, _) => Access(m, t, op, ways)
    case Imprecise(_, _, op, actual) => if actual.Some? then Access(m, actual.value, op, ways) else m
    case Joined(_) => m
  }

  /** The report on this event is true. */
  ghost predicate Covered(d: DirtySet, m: Machine, e: Event, ways: nat)
    requires 1 <= ways
  {
    match e
    case Precise(t, op, assumeHit) => Covers(DirtyUpdateReport(d, t, op, assumeHit, ways), m, t, op, ways)
    case Imprecise(low, high, op, actual) =>
      actual.Some? ==> Covers(DirtyPotentialReport(d, low, high, op, ways), m, actual.value, op, ways)
    case Joined(_) => true
  }

  lemma EventSound(d: DirtySet, m: Machine, e: Event, ways: nat)
    requires DirtyInvariant(d, ways) && DirtyDescribes(d, m, ways) && Possible(e, m, ways)
    ensures DirtyInvariant(Analyse(d, e, ways), ways)
    ensures DirtyDescribes(Analyse(d, e, ways), Execute(m, e, ways), ways)
    ensures Covered(d, m, e, ways)
  {
    match e
    case Precise(t, op, assumeHit) =>
      DirtyUpdateInvariant(d, t, op, assumeHit, ways);
      DirtyUpdateSound(d, m, t, op, assumeHit, ways);
      DirtyUpdateReportSound(d, m, t, op, assumeHit, ways);
    case Imprecise(low, high, op, actual) =>
      DirtyPotentialInvariant(d, low, high, op, ways);
      if actual.Some? {
        DirtyPotentialSound(d, m, actual.value, low, high, op, ways);
        DirtyPotentialReportSound(d, m, actual.value, low, high, op, ways);
      } else {
        DirtyNoAccessSound(d, m, low, high, op, ways);
      }
    case Joined(other) =>
      DirtyJoinInvariant(d, other, ways);
      DirtyJoinIsLub(d, other, other, ways);
      DirtyLeqSound(d, DirtyJoin(d, other), m, ways);
  }

  ghost predicate PossibleRun(m: Machine, run: seq<Event>, ways: nat)
    decreases run
  {
    run == [] || (Possible(run[0], m, ways) && PossibleRun(Execute(m, run[0], ways), run[1..], ways))
  }

  ghost predicate AllCovered(d: DirtySet, m: Machine, run: seq<Event>, ways: nat)
    requires 1 <= ways
    decreases run
  {
    run == [] || (Covered(d, m, run[0], ways)
                  && AllCovered(Analyse(d, run[0], ways), Execute(m, run[0], ways), run[1..], ways))
  }

  /** On every path of accesses and joins, from every state that describes the machine,
      every write-back and every store to a clean line is reported. */
  lemma {:induction false} NothingUnreported(d: DirtySet, m: Machine, run: seq<Event>, ways: nat)
    requires DirtyInvariant(d, ways) && DirtyDescribes(d, m, ways) && PossibleRun(m, run, ways)
    ensures AllCovered(d, m, run, ways)
    decreases run
  {
    if run != [] {
      EventSound(d, m, run[0], ways);
      NothingUnreported(Analyse(d, run[0], ways), Execute(m, run[0], ways), run[1..], ways);
    }
  }

  /** In particular from the start, if an empty cache is also assumed to be clean. */
  lemma NothingUnreportedFromTheStart(m: Machine, run: seq<Event>, assumeAnEmptyCache: bool, assumeCleanCache: bool,
                                      ways: nat)
    requires 1 <= ways && MachineValid(m, ways) && PossibleRun(m, run, ways)
    requires assumeAnEmptyCache ==> m.stack == [] && assumeCleanCache
    requires assumeCleanCache ==> m.dirty == {}
    ensures AllCovered(DirtyInit(assumeAnEmptyCache, assumeCleanCache, ways), m, run, ways)
  {
    DirtyInitSound(m, assumeAnEmptyCache, assumeCleanCache, ways);
    DirtyInitInvariant(assumeAnEmptyCache, assumeCleanCache, ways);
    NothingUnreported(DirtyInit(assumeAnEmptyCache, assumeCleanCache, ways), m, run, ways);
  }

  // ---- the branch that should not be reached -------------------------------------------

  /** The state after a path. */
  function AnalyseRun(d: DirtySet, run: seq<Event>, ways: nat): DirtySet
    requires 1 <= ways
    decreases |run|
  {
    if run == [] then d else Analyse(AnalyseRun(d, run[..|run| - 1], ways), run[|run| - 1], ways)
  }

  /** Only states that meet the invariants are joined. */
  ghost predicate JoinsInvariant(run: seq<Event>, ways: nat) {
    forall i :: 0 <= i < |run| && run[i].Joined? ==> DirtyInvariant(run[i].other, ways)
  }

  lemma {:induction false} InvariantAlong(d: DirtySet, run: seq<Event>, ways: nat)
    requires DirtyInvariant(d, ways) && JoinsInvariant(run, ways)
    ensures DirtyInvariant(AnalyseRun(d, run, ways), ways)
    decreases |run|
  {
    if run != [] {
      var before, e := AnalyseRun(d, run[..|run| - 1], ways), run[|run| - 1];
      InvariantAlong(d, run[..|run| - 1], ways);
      match e
      case Precise(t, op, assumeHit) => DirtyUpdateInvariant(before, t, op, assumeHit, ways);
      case Imprecise(low, high, op, _) => DirtyPotentialInvariant(before, low, high, op, ways);
      case Joined(other) => DirtyJoinInvariant(before, other, ways);
    }
  }

  /** Loads of blocks 0, 1, and so on. */
  function Loads(k: nat): (r: seq<Event>)
    ensures |r| == k
  {
    seq(k, i requires 0 <= i < k => Precise(i, Load, false))
  }

  function Below(k: nat): (r: set<Tag>)
    ensures forall b :: b in r <==> 0 <= b < k
  {
    if k == 0 then {} else Below(k - 1) + {k - 1}
  }

  /** The blocks so loaded, the last one youngest. */
  function LoadedAges(k: nat): map<Tag, nat> {
    map b | b in Below(k) :: k - 1 - b
  }

  lemma NextLoad(d: DirtySet, k: nat, ways: nat)
    requires 1 <= ways && k < ways && d.implicitDirty && d.may == May(LoadedAges(k), ways)
    ensures var r := DirtyUpdate(d, k, Load, false, ways);
      r.implicitDirty && r.may == May(LoadedAges(k + 1), ways)
  {
    assert MayUpdate(d.may, k, ways).explicit == LoadedAges(k + 1);
  }

  /** In a set assumed empty but not clean, loads leave unlisted blocks dirty that cannot be
      cached. */
  lemma {:induction false} AfterLoads(k: nat, ways: nat)
    requires 1 <= ways && k <= ways
    ensures var d := AnalyseRun(DirtyInit(true, false, ways), Loads(k), ways);
      d.implicitDirty && d.may == May(LoadedAges(k), ways)
  {
    if k == 0 {
      assert LoadedAges(0) == map[];
    } else {
      assert Loads(k)[..k - 1] == Loads(k - 1);
      AfterLoads(k - 1, ways);
      NextLoad(AnalyseRun(DirtyInit(true, false, ways), Loads(k - 1), ways), k - 1, ways);
    }
  }

  lemma OldestLeaves(m: May, ways: nat)
    requires 1 <= ways && m == May(LoadedAges(ways), ways)
    ensures 0 in m.explicit.Keys - MayUpdate(m, ways, ways).explicit.Keys && MayUpdate(m, ways, ways).implicit == ways
  {
    assert m.explicit[0] == ways - 1 && ways !in m.explicit;
  }

  /** So when the ways are full, the next load evicts a listed block and reaches the branch. */
  lemma EmptyButNotClean(ways: nat)
    requires 1 <= ways
    ensures Impossible(AnalyseRun(DirtyInit(true, false, ways), Loads(ways), ways), ways, ways)
  {
    AfterLoads(ways, ways);
    OldestLeaves(AnalyseRun(DirtyInit(true, false, ways), Loads(ways), ways).may, ways);
  }

  /** A path after which one more access reaches the branch. */
  ghost predicate ReachesBranch(assumeAnEmptyCache: bool, assumeCleanCache: bool, ways: nat, run: seq<Event>, t: Tag)
    requires 1 <= ways
  {
    && JoinsInvariant(run, ways)
    && Impossible(AnalyseRun(DirtyInit(assumeAnEmptyCache, assumeCleanCache, ways), run, ways), t, ways)
  }

  /** Some path from the initial state reaches the branch exactly if the set is assumed empty
      but not clean. */
  lemma BranchReachedIff(assumeAnEmptyCache: bool, assumeCleanCache: bool, ways: nat)
    requires 1 <= ways
    ensures (exists run, t :: ReachesBranch(assumeAnEmptyCache, assumeCleanCache, ways, run, t))
       <==> assumeAnEmptyCache && !assumeCleanCache
  {
    if assumeAnEmptyCache && !assumeCleanCache {
      EmptyButNotClean(ways);
      assert ReachesBranch(assumeAnEmptyCache, assumeCleanCache, ways, Loads(ways), ways);
    } else {
      DirtyInitInvariant(assumeAnEmptyCache, assumeCleanCache, ways);
      forall run, t | JoinsInvariant(run, ways)
        ensures !ReachesBranch(assumeAnEmptyCache, assumeCleanCache, ways, run, t)
      {
        InvariantAlong(DirtyInit(assumeAnEmptyCache, assumeCleanCache, ways), run, ways);
        NeverImpossible(AnalyseRun(DirtyInit(assumeAnEmptyCache, assumeCleanCache, ways), run, ways), t, ways);
      }
    }
  }
}
