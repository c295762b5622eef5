/** A whole cache: one combined analysis per set, the modulo mapping of addresses to
    sets, and accesses whose address is only known to lie in an interval. The sets are
    values, as in the program, which keeps every distinct set state once and shares it. */
module AbstractCache {
  import opened Lru
  import opened AgeMaps
  import opened CacheSets
  import opened AddressMapping
  import opened Reports

  /** The concrete cache: the access history of every set. */
  type Machine = seq<Stack>

  ghost predicate MachineValid(t: Traits, m: Machine) {
    |m| == t.nSets && forall i :: 0 <= i < |m| ==> Distinct(m[i])
  }

  function Access(t: Traits, m: Machine, a: Address): (r: Machine)
    requires TraitsValid(t) && |m| == t.nSets
    ensures |r| == |m|
  {
    m[IndexOf(t, a) := Touch(m[IndexOf(t, a)], TagOf(t, a))]
  }

  predicate IsCached(t: Traits, m: Machine, a: Address)
    requires TraitsValid(t) && |m| == t.nSets
  {
    Cached(m[IndexOf(t, a)], TagOf(t, a), t.ways)
  }

  lemma AccessValid(t: Traits, m: Machine, a: Address)
    requires TraitsValid(t) && MachineValid(t, m)
    ensures MachineValid(t, Access(t, m, a))
  {
    TouchDistinct(m[IndexOf(t, a)], TagOf(t, a));
  }

  ghost predicate CacheValid(t: Traits, cs: seq<CacheSet>) {
    |cs| == t.nSets && forall i :: 0 <= i < |cs| ==> SetValid(cs[i], t.ways)
  }

  ghost predicate CacheDescribes(t: Traits, cs: seq<CacheSet>, m: Machine) {
    |cs| == |m| == t.nSets && forall i :: 0 <= i < |cs| ==> SetDescribes(cs[i], m[i], t.ways)
  }

  /** How many of the addresses that other cores use compete with a block for its set. */
  function ConflictCount(t: Traits, foreign: seq<Address>, index: nat, tag: Tag): (n: nat)
    requires TraitsValid(t)
  {
    if foreign == [] then 0
    else (if IndexOf(t, foreign[0]) == index && TagOf(t, foreign[0]) != tag then 1 else 0)
         + ConflictCount(t, foreign[1..], index, tag)
  }

  function LineClaim(t: Traits, foreign: seq<Address>, cs: seq<CacheSet>, a: nat): Classification
    requires TraitsValid(t) && |cs| == t.nSets
  {
    SetClassify(cs[IndexOf(t, a)], TagOf(t, a), ConflictCount(t, foreign, IndexOf(t, a), TagOf(t, a)), t.ways)
  }

  /** Ages all sets of `lower..upper`. */
  function PotentialSets(t: Traits, cs: seq<CacheSet>, lower: nat, upper: nat, lo: Address,
                         hi: Address): (r: seq<CacheSet>)
    requires TraitsValid(t)
    ensures |r| == |cs|
    ensures forall i :: 0 <= i < |cs| ==>
      r[i] == if lower <= i <= upper then SetPotential(cs[i], TagOf(t, lo), TagOf(t, hi), t.ways) else cs[i]
  {
    seq(|cs|, i requires 0 <= i < |cs| =>
      if lower <= i <= upper then SetPotential(cs[i], TagOf(t, lo), TagOf(t, hi), t.ways) else cs[i])
  }

  /** The cache after an access to some address of `lo..hi`. */
  function CacheUpdate(t: Traits, foreign: seq<Address>, cs: seq<CacheSet>, lo: Address, hi: Address,
                       assumption: Classification): (r: seq<CacheSet>)
    requires TraitsValid(t) && |cs| == t.nSets && lo <= hi
    ensures |r| == |cs|
  {
    if Align(t, lo) == Align(t, hi) then
      var (i, tag) := (IndexOf(t, lo), TagOf(t, lo));
      cs[i := SetUpdate(cs[i], tag, assumption, t.level, ConflictCount(t, foreign, i, tag), t.ways)]
    else
      var (lower, upper) := SetInterval(t, lo, hi);
      if lower <= upper then PotentialSets(t, cs, lower, upper, lo, hi)
      else PotentialSets(t, PotentialSets(t, cs, lower, t.nSets - 1, lo, hi), 0, upper, lo, hi)
  }

  /** Set by set, an imprecise update ages exactly the sets it touches. */
  lemma ImpreciseUpdateAt(t: Traits, foreign: seq<Address>, cs: seq<CacheSet>, lo: Address, hi: Address,
                          assumption: Classification, i: nat)
    requires TraitsValid(t) && |cs| == t.nSets && lo <= hi && Align(t, lo) != Align(t, hi) && i < t.nSets
    ensures CacheUpdate(t, foreign, cs, lo, hi, assumption)[i]
         == if Touches(t, lo, hi, i) then SetPotential(cs[i], TagOf(t, lo), TagOf(t, hi), t.ways) else cs[i]
  {
  }

  /** A precise update is the update of one set. */
  lemma PreciseUpdateAt(t: Traits, foreign: seq<Address>, cs: seq<CacheSet>, lo: Address, hi: Address,
                        assumption: Classification, i: nat)
    requires TraitsValid(t) && |cs| == t.nSets && lo <= hi && Align(t, lo) == Align(t, hi) && i < t.nSets
    ensures CacheUpdate(t, foreign, cs, lo, hi, assumption)[i]
         == if i != IndexOf(t, lo) then cs[i]
            else SetUpdate(cs[i], TagOf(t, lo), assumption, t.level, ConflictCount(t, foreign, i, TagOf(t, lo)), t.ways)
  {
  }

  lemma SameBlock(t: Traits, lo: Address, a: Address, hi: Address)
    requires TraitsValid(t) && lo <= a <= hi && Align(t, lo) == Align(t, hi)
    ensures IndexOf(t, a) == IndexOf(t, lo) && TagOf(t, a) == TagOf(t, lo)
  {
    LinesMonotone(t, lo, a, hi);
    AlignedEqual(t, lo, hi);
  }

  /** One set under a precise update. */
  lemma PreciseUpdateSoundAt(t: Traits, foreign: seq<Address>, cs: seq<CacheSet>, m: Machine,
                             lo: Address, a: Address, hi: Address, assumption: Classification, i: nat)
    requires TraitsValid(t) && CacheValid(t, cs) && CacheDescribes(t, cs, m) && i < t.nSets
    requires lo <= a <= hi && Align(t, lo) == Align(t, hi)
    requires AssumesHit(assumption, t.level) ==> IsCached(t, m, a)
    ensures var c := CacheUpdate(t, foreign, cs, lo, hi, assumption)[i];
      SetValid(c, t.ways) && SetDescribes(c, Access(t, m, a)[i], t.ways)
  {
    SameBlock(t, lo, a, hi);
    PreciseUpdateAt(t, foreign, cs, lo, hi, assumption, i);
    assert SetDescribes(cs[i], m[i], t.ways) && SetValid(cs[i], t.ways);
    if i == IndexOf(t, a) {
      SetUpdateSound(cs[i], m[i], TagOf(t, a), assumption, t.level, ConflictCount(t, foreign, i, TagOf(t, a)), t.ways);
    }
  }

  /** One set under an imprecise update. */
  lemma ImpreciseUpdateSoundAt(t: Traits, foreign: seq<Address>, cs: seq<CacheSet>, m: Machine,
                               lo: Address, a: Address, hi: Address, assumption: Classification, i: nat)
    requires TraitsValid(t) && CacheValid(t, cs) && CacheDescribes(t, cs, m) && i < t.nSets
    requires lo <= a <= hi && Align(t, lo) != Align(t, hi) && Covered(t, lo, hi)
    ensures var c := CacheUpdate(t, foreign, cs, lo, hi, assumption)[i];
      SetValid(c, t.ways) && SetDescribes(c, Access(t, m, a)[i], t.ways)
  {
    LinesMonotone(t, lo, a, hi);
    assert SetDescribes(cs[i], m[i], t.ways) && SetValid(cs[i], t.ways);
    ImpreciseUpdateAt(t, foreign, cs, lo, hi, assumption, i);
    SetPotentialSound(cs[i], m[i], TagOf(t, a), TagOf(t, lo), TagOf(t, hi), t.ways);
    CoveredTouches(t, lo, a, hi);
  }

  /** The update is sound when the interval is covered, whatever address of the interval
      the machine accesses, provided what the caller assumes of a precise access is true. */
  lemma CacheUpdateSound(t: Traits, foreign: seq<Address>, cs: seq<CacheSet>, m: Machine,
                         lo: Address, a: Address, hi: Address, assumption: Classification)
    requires TraitsValid(t) && CacheValid(t, cs) && CacheDescribes(t, cs, m)
    requires lo <= a <= hi && Covered(t, lo, hi)
    requires AssumesHit(assumption, t.level) ==> IsCached(t, m, a)
    ensures CacheValid(t, CacheUpdate(t, foreign, cs, lo, hi, assumption))
    ensures CacheDescribes(t, CacheUpdate(t, foreign, cs, lo, hi, assumption), Access(t, m, a))
  {
    forall i | 0 <= i < t.nSets
      ensures var c := CacheUpdate(t, foreign, cs, lo, hi, assumption)[i];
        SetValid(c, t.ways) && SetDescribes(c, Access(t, m, a)[i], t.ways)
    {
      if Align(t, lo) == Align(t, hi) {
        PreciseUpdateSoundAt(t, foreign, cs, m, lo, a, hi, assumption, i);
      } else {
        ImpreciseUpdateSoundAt(t, foreign, cs, m, lo, a, hi, assumption, i);
      }
    }
  }

  lemma SetUpdateValid(c: CacheSet, t: Tag, assumption: Classification, level: nat, cnn: nat, ways: nat)
    requires 1 <= ways && SetValid(c, ways)
    ensures SetValid(SetUpdate(c, t, assumption, level, cnn, ways), ways)
  {
    MustUpdatePointwise(c.must, t, AssumesHit(Assumed(c, t, assumption, cnn, ways), level), ways, 0);
    MayUpdatePointwise(c.may, t, ways, 0);
  }

  lemma CacheUpdateValid(t: Traits, foreign: seq<Address>, cs: seq<CacheSet>, lo: Address, hi: Address,
                         assumption: Classification)
    requires TraitsValid(t) && CacheValid(t, cs) && lo <= hi
    ensures CacheValid(t, CacheUpdate(t, foreign, cs, lo, hi, assumption))
  {
    forall i | 0 <= i < t.nSets ensures SetValid(CacheUpdate(t, foreign, cs, lo, hi, assumption)[i], t.ways) {
      assert SetValid(cs[i], t.ways);
      if Align(t, lo) == Align(t, hi) {
        PreciseUpdateAt(t, foreign, cs, lo, hi, assumption, i);
        SetUpdateValid(cs[i], TagOf(t, lo), assumption, t.level, ConflictCount(t, foreign, i, TagOf(t, lo)), t.ways);
      } else {
        ImpreciseUpdateAt(t, foreign, cs, lo, hi, assumption, i);
      }
    }
  }

  /** `ways` blocks that differ from `tag`, most recent first. */
  function OtherBlocks(tag: Tag, ways: nat): (s: Stack)
    ensures |s| == ways && forall k :: 0 <= k < ways ==> s[k] == tag + 1 + k
  {
    seq(ways, k => tag + 1 + k)
  }

  /** A cache that knows one thing: the least recently used block of set `j` is cached. */
  lemma LastBlock(tag: Tag, ways: nat) returns (c: CacheSet, s: Stack)
    requires 1 <= ways
    ensures SetValid(c, ways) && SetDescribes(c, s, ways)
    ensures !SetDescribes(c, Touch(s, tag), ways)
  {
    s := OtherBlocks(tag, ways);
    var last := tag + ways;
    c := CacheSet(map[last := ways - 1], May(map[], 0));
    AgeAt(s, ways - 1, ways);
    assert s[ways - 1] == last;
    AgeAbsent(s, tag, ways);
    TouchAge(s, tag, last, ways);
    assert MaxAge(c.must, last, ways) == ways - 1;
  }

  /** The update of an interval of several lines is sound for every cache it may be
      applied to exactly when the interval is covered. */
  lemma ImpreciseUpdateSoundIff(t: Traits, foreign: seq<Address>, lo: Address, hi: Address, assumption: Classification)
    requires TraitsValid(t) && lo <= hi && !AssumesHit(assumption, t.level)
    ensures Covered(t, lo, hi) <==>
      forall cs: seq<CacheSet>, m: Machine, a: Address ::
        CacheValid(t, cs) && CacheDescribes(t, cs, m) && lo <= a <= hi ==>
        CacheDescribes(t, CacheUpdate(t, foreign, cs, lo, hi, assumption), Access(t, m, a))
  {
    if Covered(t, lo, hi) {
      forall cs: seq<CacheSet>, m: Machine, a: Address | CacheValid(t, cs) && CacheDescribes(t, cs, m) && lo <= a <= hi
        ensures CacheDescribes(t, CacheUpdate(t, foreign, cs, lo, hi, assumption), Access(t, m, a))
      {
        CacheUpdateSound(t, foreign, cs, m, lo, a, hi, assumption);
      }
    } else {
      var a := UncoveredMisses(t, lo, hi);
      var j := IndexOf(t, a);
      var c, s := LastBlock(TagOf(t, a), t.ways);
      SetInitSound([], true, t.ways);
      var cs := seq(t.nSets, i => if i == j then c else SetInit(true, t.ways));
      var m := seq(t.nSets, i => if i == j then s else []);
      assert CacheValid(t, cs) && CacheDescribes(t, cs, m);
      ImpreciseUpdateAt(t, foreign, cs, lo, hi, assumption, j);
      assert CacheUpdate(t, foreign, cs, lo, hi, assumption)[j] == c;
      assert Access(t, m, a)[j] == Touch(s, TagOf(t, a));
      assert !CacheDescribes(t, CacheUpdate(t, foreign, cs, lo, hi, assumption), Access(t, m, a));
    }
  }

  /** With 32 sets of 16-byte lines, 508 bytes from address 15 on are such an interval. */
  lemma UncoveredExample()
    ensures var t := Traits(16, 2, 32, 1); TraitsValid(t) && !Covered(t, 15, 522)
  {
  }

  // ---- classification -------------------------------------------------------

  ghost predicate AllClaim(t: Traits, foreign: seq<Address>, cs: seq<CacheSet>, lo: Address, hi: Address,
                           cl: Classification)
    requires TraitsValid(t) && |cs| == t.nSets
  {
    forall a: Address :: lo <= a <= hi ==> LineClaim(t, foreign, cs, a) == cl
  }

  /** Claims about an interval are facts about each of its addresses. */
  lemma AllClaimSound(t: Traits, cs: seq<CacheSet>, m: Machine, lo: Address, hi: Address, a: Address)
    requires TraitsValid(t) && CacheValid(t, cs) && CacheDescribes(t, cs, m) && lo <= a <= hi
    ensures AllClaim(t, [], cs, lo, hi, Hit) ==> IsCached(t, m, a)
    ensures AllClaim(t, [], cs, lo, hi, Miss) ==> !IsCached(t, m, a)
  {
    var i := IndexOf(t, a);
    assert SetDescribes(cs[i], m[i], t.ways);
    SetClassifySound(cs[i], m[i], TagOf(t, a), t.ways);
    assert AllClaim(t, [], cs, lo, hi, Hit) ==> LineClaim(t, [], cs, a) == Hit;
    assert AllClaim(t, [], cs, lo, hi, Miss) ==> LineClaim(t, [], cs, a) == Miss;
  }

  lemma SameLineSameClaim(t: Traits, foreign: seq<Address>, cs: seq<CacheSet>, a: nat, b: nat)
    requires TraitsValid(t) && |cs| == t.nSets && Line(t, a) == Line(t, b)
    ensures LineClaim(t, foreign, cs, a) == LineClaim(t, foreign, cs, b)
  {
  }

  // ---- intervals that reach the end of the address space -----------------------

  function LastLineOf(t: Traits): nat
    requires TraitsValid(t)
  {
    Line(t, ADDRESS_SPACE - 1)
  }

  /** The interval reaches the last line, where adding the line size wraps around. */
  predicate Wraps(t: Traits, lo: Address, hi: Address)
    requires TraitsValid(t)
  {
    Line(t, hi) == LastLineOf(t) && !(lo == 0 && hi == ADDRESS_SPACE - 1)
  }

  /** All lines there are make the same claim. */
  ghost predicate Uniform(t: Traits, foreign: seq<Address>, cs: seq<CacheSet>)
    requires TraitsValid(t) && |cs| == t.nSets
  {
    AllClaim(t, foreign, cs, 0, ADDRESS_SPACE - 1, Hit) || AllClaim(t, foreign, cs, 0, ADDRESS_SPACE - 1, Miss)
  }

  /** Line and claim of the loop after `n` rounds, the line address wrapping around. */
  function LoopLine(t: Traits, lo: Address, n: nat): nat
    requires TraitsValid(t)
  {
    (Line(t, lo) + n) % (LastLineOf(t) + 1)
  }

  function LoopClaim(t: Traits, foreign: seq<Address>, cs: seq<CacheSet>, lo: Address, n: nat): Classification
    requires TraitsValid(t) && |cs| == t.nSets
  {
    if n == 0 then Bottom
    else JoinClaims(LoopClaim(t, foreign, cs, lo, n - 1),
                    LineClaim(t, foreign, cs, LoopLine(t, lo, n - 1) * t.lineSize))
  }

  /** The loop stays among the lines of memory. */
  lemma LoopAddress(t: Traits, lo: Address, n: nat) returns (a: Address)
    requires TraitsValid(t)
    ensures LoopLine(t, lo, n) <= LastLineOf(t) && a == LoopLine(t, lo, n) * t.lineSize
  {
    var line, last := LoopLine(t, lo, n), LastLineOf(t);
    MulLeq(line, last, t.lineSize);
    var end: nat := ADDRESS_SPACE - 1;
    assert end == last * t.lineSize + end % t.lineSize;
    a := line * t.lineSize;
  }

  lemma ClaimAgain(t: Traits, foreign: seq<Address>, cs: seq<CacheSet>, lo: Address, cl: Classification, n: nat,
                   a: Address)
    requires TraitsValid(t) && |cs| == t.nSets && AllClaim(t, foreign, cs, 0, ADDRESS_SPACE - 1, cl)
    requires n > 0 && a == LoopLine(t, lo, n - 1) * t.lineSize
    ensures LoopClaim(t, foreign, cs, lo, n) == JoinClaims(LoopClaim(t, foreign, cs, lo, n - 1), cl)
  {
    assert LineClaim(t, foreign, cs, a) == cl;
  }

  /** If the interval reaches the last line and all lines make the same claim, the guard of the
      loop holds for ever. */
  lemma {:induction false} WrappedLoopGoesOn(t: Traits, foreign: seq<Address>, cs: seq<CacheSet>, lo: Address,
                                             hi: Address, cl: Classification, n: nat)
    requires TraitsValid(t) && |cs| == t.nSets && Line(t, hi) == LastLineOf(t)
    requires cl in {Hit, Miss} && AllClaim(t, foreign, cs, 0, ADDRESS_SPACE - 1, cl)
    ensures LoopLine(t, lo, n) <= Line(t, hi)
    ensures LoopClaim(t, foreign, cs, lo, n) == if n == 0 then Bottom else cl
  {
    var here := LoopAddress(t, lo, n);
    if n > 0 {
      WrappedLoopGoesOn(t, foreign, cs, lo, hi, cl, n - 1);
      var a := LoopAddress(t, lo, n - 1);
      ClaimAgain(t, foreign, cs, lo, cl, n, a);
    }
  }

  /** So it is in the empty cache: every line misses. */
  lemma EmptyIsUniform(t: Traits, foreign: seq<Address>)
    requires TraitsValid(t)
    ensures Uniform(t, foreign, CacheInit(t, true))
  {
    assert AllClaim(t, foreign, CacheInit(t, true), 0, ADDRESS_SPACE - 1, Miss);
  }

  // ---- the lattice ----------------------------------------------------------

  function CacheInit(t: Traits, assumeAnEmptyCache: bool): (r: seq<CacheSet>)
    ensures |r| == t.nSets && forall i :: 0 <= i < |r| ==> r[i] == SetInit(assumeAnEmptyCache, t.ways)
  {
    seq(t.nSets, i => SetInit(assumeAnEmptyCache, t.ways))
  }

  function CacheJoin(x: seq<CacheSet>, y: seq<CacheSet>): (r: seq<CacheSet>)
    requires |x| == |y|
    ensures |r| == |x| && forall i :: 0 <= i < |r| ==> r[i] == SetJoin(x[i], y[i])
  {
    seq(|x|, i requires 0 <= i < |x| => SetJoin(x[i], y[i]))
  }

  ghost predicate CacheLeq(t: Traits, x: seq<CacheSet>, y: seq<CacheSet>) {
    |x| == |y| && forall i :: 0 <= i < |x| ==> SetLeq(x[i], y[i], t.ways)
  }

  lemma CacheInitSound(t: Traits, m: Machine, assumeAnEmptyCache: bool)
    requires MachineValid(t, m) && (assumeAnEmptyCache ==> forall i :: 0 <= i < |m| ==> m[i] == [])
    ensures CacheValid(t, CacheInit(t, assumeAnEmptyCache))
    ensures CacheDescribes(t, CacheInit(t, assumeAnEmptyCache), m)
  {
    forall i | 0 <= i < |m|
      ensures SetValid(CacheInit(t, assumeAnEmptyCache)[i], t.ways)
      ensures SetDescribes(CacheInit(t, assumeAnEmptyCache)[i], m[i], t.ways)
    {
      SetInitSound(m[i], assumeAnEmptyCache, t.ways);
    }
  }

  lemma CacheJoinIsLub(t: Traits, x: seq<CacheSet>, y: seq<CacheSet>, z: seq<CacheSet>)
    requires CacheValid(t, x) && CacheValid(t, y) && CacheValid(t, z)
    ensures CacheValid(t, CacheJoin(x, y))
    ensures CacheLeq(t, x, CacheJoin(x, y)) && CacheLeq(t, y, CacheJoin(x, y))
    ensures CacheLeq(t, x, z) && CacheLeq(t, y, z) ==> CacheLeq(t, CacheJoin(x, y), z)
    ensures CacheJoin(x, y) == y <==> CacheLeq(t, x, y)
  {
    forall i | 0 <= i < t.nSets
      ensures SetValid(CacheJoin(x, y)[i], t.ways)
      ensures SetLeq(x[i], CacheJoin(x, y)[i], t.ways) && SetLeq(y[i], CacheJoin(x, y)[i], t.ways)
      ensures SetLeq(x[i], z[i], t.ways) && SetLeq(y[i], z[i], t.ways) ==> SetLeq(CacheJoin(x, y)[i], z[i], t.ways)
      ensures CacheJoin(x, y)[i] == y[i] <==> SetLeq(x[i], y[i], t.ways)
    {
      SetJoinIsLub(x[i], y[i], z[i], t.ways);
    }
    if CacheLeq(t, x, y) {
      assert forall i :: 0 <= i < t.nSets ==> CacheJoin(x, y)[i] == y[i];
    }
  }

  lemma CacheLeqIsOrder(t: Traits, x: seq<CacheSet>, y: seq<CacheSet>, z: seq<CacheSet>)
    requires CacheValid(t, x) && CacheValid(t, y) && CacheValid(t, z)
    ensures CacheLeq(t, x, x)
    ensures CacheLeq(t, x, y) && CacheLeq(t, y, z) ==> CacheLeq(t, x, z)
    ensures CacheLeq(t, x, y) && CacheLeq(t, y, x) ==> x == y
  {
    forall i | 0 <= i < t.nSets
      ensures SetLeq(x[i], x[i], t.ways)
      ensures SetLeq(x[i], y[i], t.ways) && SetLeq(y[i], z[i], t.ways) ==> SetLeq(x[i], z[i], t.ways)
      ensures SetLeq(x[i], y[i], t.ways) && SetLeq(y[i], x[i], t.ways) ==> x[i] == y[i]
    {
      SetLeqIsOrder(x[i], y[i], z[i], t.ways);
    }
  }

  lemma CacheLeqSound(t: Traits, x: seq<CacheSet>, y: seq<CacheSet>, m: Machine)
    requires CacheLeq(t, x, y) && CacheDescribes(t, x, m)
    ensures CacheDescribes(t, y, m)
  {
    forall i | 0 <= i < |x| ensures SetDescribes(y[i], m[i], t.ways) {
      assert SetLeq(x[i], y[i], t.ways) && SetDescribes(x[i], m[i], t.ways);
      SetLeqSound(x[i], y[i], m[i], t.ways);
    }
  }

  /** Updates are monotone. */
  lemma CacheUpdateMonotone(t: Traits, foreign: seq<Address>, x: seq<CacheSet>, y: seq<CacheSet>,
                            lo: Address, hi: Address, assumption: Classification)
    requires TraitsValid(t) && CacheValid(t, x) && CacheValid(t, y) && CacheLeq(t, x, y) && lo <= hi
    ensures CacheLeq(t, CacheUpdate(t, foreign, x, lo, hi, assumption), CacheUpdate(t, foreign, y, lo, hi, assumption))
  {
    forall i | 0 <= i < t.nSets
      ensures SetLeq(CacheUpdate(t, foreign, x, lo, hi, assumption)[i],
                     CacheUpdate(t, foreign, y, lo, hi, assumption)[i], t.ways)
    {
      assert SetLeq(x[i], y[i], t.ways) && SetValid(x[i], t.ways) && SetValid(y[i], t.ways);
      if Align(t, lo) == Align(t, hi) {
        SetUpdateMonotone(x[i], y[i], TagOf(t, lo), assumption, t.level,
                          ConflictCount(t, foreign, i, TagOf(t, lo)), t.ways);
      } else {
        ImpreciseUpdateAt(t, foreign, x, lo, hi, assumption, i);
        ImpreciseUpdateAt(t, foreign, y, lo, hi, assumption, i);
        SetPotentialMonotone(x[i], y[i], TagOf(t, lo), TagOf(t, hi), t.ways);
      }
    }
  }

  // ---- the object -----------------------------------------------------------

  class AbstractCacheImpl {
    const traits: Traits
    const foreign: seq<Address>
    var cacheSets: seq<CacheSet>

    ghost predicate Valid()
      reads this
    {
      TraitsValid(traits) && CacheValid(traits, cacheSets)
    }

    constructor (traits: Traits, foreign: seq<Address>, assumeAnEmptyCache: bool)
      requires TraitsValid(traits)
      ensures Valid() && this.traits == traits && this.foreign == foreign
      ensures cacheSets == CacheInit(traits, assumeAnEmptyCache)
    {
      this.traits, this.foreign := traits, foreign;
      cacheSets := CacheInit(traits, assumeAnEmptyCache);
      new;
      forall i | 0 <= i < traits.nSets ensures SetValid(cacheSets[i], traits.ways) {
        SetInitSound([], assumeAnEmptyCache, traits.ways);
      }
    }

    /** The loop over the lines `first..last`, until nothing is known. */
    method ClassifyLines(lo: Address, hi: Address) returns (result: Classification)
      requires Valid() && lo <= hi
      ensures result in {Hit, Miss, Unknown}
      ensures result == Hit <==> AllClaim(traits, foreign, cacheSets, lo, hi, Hit)
      ensures result == Miss <==> AllClaim(traits, foreign, cacheSets, lo, hi, Miss)
    {
      var line, last := Line(traits, lo), Line(traits, hi);
      result := Bottom;
      LinesMonotone(traits, lo, lo, hi);
      while line <= last && result != Unknown
        invariant Line(traits, lo) <= line <= last + 1 && Scanned(lo, hi, line, result)
      {
        var claim := LineClaim(traits, foreign, cacheSets, line * traits.lineSize);
        ScanOn(lo, hi, line, result, claim);
        result := JoinClaims(result, claim);
        line := line + 1;
      }
      if result != Unknown {
        AllLines(lo, hi, result);
      }
    }

    /** Claims hit or miss exactly if every line of the interval does. When the interval
        reaches the last line of the address space the line address wraps around: then the
        loop goes on with the first line, is left only once nothing is known, and is back where
        it was when all lines of the address space have made the same claim. There is no result
        in that case (WrappedLoopGoesOn). */
    method Classify(lo: Address, hi: Address) returns (r: Option<Classification>)
      requires Valid() && lo <= hi
      ensures r.Some? ==> r.value in {Hit, Miss, Unknown}
      ensures r == Some(Hit) ==> AllClaim(traits, foreign, cacheSets, lo, hi, Hit)
      ensures r == Some(Miss) ==> AllClaim(traits, foreign, cacheSets, lo, hi, Miss)
      ensures !Wraps(traits, lo, hi) && !(lo == 0 && hi == ADDRESS_SPACE - 1) ==>
        && (AllClaim(traits, foreign, cacheSets, lo, hi, Hit) ==> r == Some(Hit))
        && (AllClaim(traits, foreign, cacheSets, lo, hi, Miss) ==> r == Some(Miss))
      ensures r.None? <==> Wraps(traits, lo, hi) && Uniform(traits, foreign, cacheSets)
      ensures Wraps(traits, lo, hi) && r.Some? ==> r.value == Unknown
      ensures lo == 0 && hi == ADDRESS_SPACE - 1 ==> r == Some(Unknown)
    {
      if lo == 0 && hi == ADDRESS_SPACE - 1 {
        return Some(Unknown);
      }
      var result := ClassifyLines(lo, hi);
      if result == Unknown || Line(traits, hi) != LastLineOf(traits) {
        return Some(result);
      }
      var all := ClassifyLines(0, ADDRESS_SPACE - 1);
      EndOfMemory(lo, hi, result, all);
      r := if JoinClaims(result, all) == Unknown then Some(Unknown) else None;
    }

    /** A claim all lines make, the lines up to the end make. */
    lemma EndOfMemory(lo: Address, hi: Address, result: Classification, all: Classification)
      requires Valid() && lo <= hi && Line(traits, hi) == LastLineOf(traits)
      requires result in {Hit, Miss} && all in {Hit, Miss, Unknown}
      requires AllClaim(traits, foreign, cacheSets, lo, hi, result)
      requires all == Hit <==> AllClaim(traits, foreign, cacheSets, 0, ADDRESS_SPACE - 1, Hit)
      requires all == Miss <==> AllClaim(traits, foreign, cacheSets, 0, ADDRESS_SPACE - 1, Miss)
      ensures Uniform(traits, foreign, cacheSets) <==> all == result
    {
      assert LineClaim(traits, foreign, cacheSets, lo) == result;
    }

    ghost predicate ClaimedUpTo(lo: Address, line: nat, cl: Classification)
      requires TraitsValid(traits) && |cacheSets| == traits.nSets
      reads this
    {
      forall b: Address :: lo <= b && Line(traits, b) < line ==> LineClaim(traits, foreign, cacheSets, b) == cl
    }

    /** What the claims of the lines before `line` have come to. */
    ghost predicate Scanned(lo: Address, hi: Address, line: nat, result: Classification)
      requires TraitsValid(traits) && |cacheSets| == traits.nSets
      reads this
    {
      && result in {Bottom, Hit, Miss, Unknown}
      && (result == Bottom <==> line == Line(traits, lo))
      && (result == Hit || result == Miss ==> ClaimedUpTo(lo, line, result))
      && (result == Miss || result == Unknown ==> !AllClaim(traits, foreign, cacheSets, lo, hi, Hit))
      && (result == Hit || result == Unknown ==> !AllClaim(traits, foreign, cacheSets, lo, hi, Miss))
    }

    lemma ScanOn(lo: Address, hi: Address, line: nat, result: Classification, claim: Classification)
      requires TraitsValid(traits) && |cacheSets| == traits.nSets && lo <= hi
      requires Line(traits, lo) <= line <= Line(traits, hi) && Scanned(lo, hi, line, result) && result != Unknown
      requires claim == LineClaim(traits, foreign, cacheSets, line * traits.lineSize)
      ensures Scanned(lo, hi, line + 1, JoinClaims(result, claim))
    {
      NextLine(line, lo, hi, claim);
    }

    lemma AllLines(lo: Address, hi: Address, cl: Classification)
      requires TraitsValid(traits) && |cacheSets| == traits.nSets && lo <= hi
      requires ClaimedUpTo(lo, Line(traits, hi) + 1, cl)
      ensures AllClaim(traits, foreign, cacheSets, lo, hi, cl)
    {
      forall b: Address | lo <= b <= hi ensures LineClaim(traits, foreign, cacheSets, b) == cl {
        LinesMonotone(traits, lo, b, hi);
      }
    }

    lemma NextLine(line: nat, lo: Address, hi: Address, claim: Classification)
      requires TraitsValid(traits) && |cacheSets| == traits.nSets
      requires Line(traits, lo) <= line <= Line(traits, hi) && lo <= hi
      requires claim == LineClaim(traits, foreign, cacheSets, line * traits.lineSize)
      ensures claim in {Hit, Miss, Unknown}
      ensures claim != Hit ==> !AllClaim(traits, foreign, cacheSets, lo, hi, Hit)
      ensures claim != Miss ==> !AllClaim(traits, foreign, cacheSets, lo, hi, Miss)
      ensures line == Line(traits, lo) || ClaimedUpTo(lo, line, claim) ==> ClaimedUpTo(lo, line + 1, claim)
    {
      var a := line * traits.lineSize;
      DivIs(a, line, traits.lineSize);
      var w := FirstAddress(line, lo, hi);
      SameLineSameClaim(traits, foreign, cacheSets, a, w);
      if line == Line(traits, lo) || ClaimedUpTo(lo, line, claim) {
        forall b: Address | lo <= b && Line(traits, b) < line + 1
          ensures LineClaim(traits, foreign, cacheSets, b) == claim
        {
          if Line(traits, b) == line {
            SameLineSameClaim(traits, foreign, cacheSets, a, b);
          } else {
            LinesMonotone(traits, lo, b, b);
          }
        }
      }
    }

    lemma FirstAddress(line: nat, lo: Address, hi: Address) returns (w: Address)
      requires TraitsValid(traits) && Line(traits, lo) <= line <= Line(traits, hi) && lo <= hi
      ensures lo <= w <= hi && Line(traits, w) == line
    {
      if line == Line(traits, lo) {
        w := lo;
      } else {
        assert hi == Line(traits, hi) * traits.lineSize + hi % traits.lineSize;
        assert lo == Line(traits, lo) * traits.lineSize + lo % traits.lineSize;
        MulLeq(line, Line(traits, hi), traits.lineSize);
        MulLeq(Line(traits, lo) + 1, line, traits.lineSize);
        Distribute(Line(traits, lo), 1, traits.lineSize);
        w := line * traits.lineSize;
        DivIs(w, line, traits.lineSize);
      }
    }

    /** Ages the sets `lower..upper`, one after the other. Their reports cannot be joined. */
    method UpdateUnknownSets(lower: nat, upper: nat, lo: Address, hi: Address) returns (joined: Option<GenericReport>)
      requires TraitsValid(traits) && |cacheSets| == traits.nSets && lower <= upper < traits.nSets
      modifies this
      ensures cacheSets == PotentialSets(traits, old(cacheSets), lower, upper, lo, hi)
      ensures joined == None
    {
      joined := None;
      var index := lower;
      while index <= upper
        invariant lower <= index <= upper + 1 && |cacheSets| == traits.nSets
        invariant forall i :: 0 <= i < traits.nSets ==>
          cacheSets[i] == if lower <= i < index
                          then SetPotential(old(cacheSets)[i], TagOf(traits, lo), TagOf(traits, hi), traits.ways)
                          else old(cacheSets)[i]
      {
        cacheSets := cacheSets[
          index := SetPotential(cacheSets[index], TagOf(traits, lo), TagOf(traits, hi), traits.ways)];
        index := index + 1;
      }
    }

    /** An access to some address of `lo..hi`: precise if they lie in one line. */
    method Update(lo: Address, hi: Address, assumption: Classification, wantReport: bool)
      returns (report: Option<GenericReport>)
      requires Valid() && lo <= hi
      requires Align(traits, lo) == Align(traits, hi) ==>
        Admissible(cacheSets[IndexOf(traits, lo)], TagOf(traits, lo), assumption, traits.level, traits.ways)
      modifies this
      ensures Valid()
      ensures cacheSets == CacheUpdate(traits, foreign, old(cacheSets), lo, hi, assumption)
      ensures report == Reported(wantReport)
    {
      report := Reported(wantReport);
      CacheUpdateValid(traits, foreign, cacheSets, lo, hi, assumption);
      if Align(traits, lo) == Align(traits, hi) {
        var index, tag := IndexOf(traits, lo), TagOf(traits, lo);
        var cnn := ConflictCount(traits, foreign, index, tag);
        cacheSets := cacheSets[index := SetUpdate(cacheSets[index], tag, assumption, traits.level, cnn, traits.ways)];
        return;
      }
      var (lower, upper) := SetInterval(traits, lo, hi);
      if lower <= upper {
        var joined := UpdateUnknownSets(lower, upper, lo, hi);
        return if wantReport && joined.None? then Some(GenericReport) else joined;
      }
      var joined1 := UpdateUnknownSets(lower, traits.nSets - 1, lo, hi);
      var joined2 := UpdateUnknownSets(0, upper, lo, hi);
      report := if wantReport && (joined1.None? || joined2.None?) then Some(GenericReport) else None;
    }

    /** Joins set by set, leaving out sets that are equal already. */
    method Join(y: AbstractCacheImpl)
      requires Valid() && y.Valid() && traits == y.traits
      modifies this
      ensures Valid()
      ensures cacheSets == CacheJoin(old(cacheSets), old(y.cacheSets))
    {
      ghost var x0, y0 := cacheSets, y.cacheSets;
      var other := y.cacheSets;
      var i := 0;
      while i < traits.nSets
        invariant 0 <= i <= traits.nSets == |cacheSets|
        invariant forall k :: 0 <= k < traits.nSets ==> cacheSets[k] == if k < i then SetJoin(x0[k], y0[k]) else x0[k]
      {
        SetJoinIsLub(x0[i], y0[i], y0[i], traits.ways);
        SetLeqIsOrder(x0[i], y0[i], y0[i], traits.ways);
        if cacheSets[i] != other[i] {
          cacheSets := cacheSets[i := SetJoin(cacheSets[i], other[i])];
        }
        i := i + 1;
      }
      CacheJoinIsLub(traits, x0, y0, y0);
    }

    method LessEqual(y: AbstractCacheImpl) returns (r: bool)
      requires Valid() && y.Valid() && traits == y.traits
      ensures r <==> CacheLeq(traits, cacheSets, y.cacheSets)
    {
      var i := 0;
      while i < traits.nSets
        invariant 0 <= i <= traits.nSets
        invariant forall k :: 0 <= k < i ==> SetLeq(cacheSets[k], y.cacheSets[k], traits.ways)
      {
        SetJoinIsLub(cacheSets[i], y.cacheSets[i], y.cacheSets[i], traits.ways);
        SetLeqIsOrder(cacheSets[i], y.cacheSets[i], y.cacheSets[i], traits.ways);
        if cacheSets[i] != y.cacheSets[i] && SetJoin(cacheSets[i], y.cacheSets[i]) != y.cacheSets[i] {
          return false;
        }
        i := i + 1;
      }
      return true;
    }
  }
}
