/** A cache level that several cores share. The must analysis of one core follows that
    core's own accesses only and allows for the others by counting the blocks they may
    bring into the set. Here the two are compared: the history of one core's accesses
    and the history of all accesses, in any interleaving. */
module SharedCache {
  import opened Lru
  import opened AgeMaps
  import opened Reports
  import opened AddressMapping
  import A = AbstractCache
  import C = CacheSets
  import G = GraphIterator

  /** The distinct blocks accessed since `t` was. */
  function Younger(s: Stack, t: Tag): (r: set<Tag>) {
    if s == [] || s[0] == t then {} else {s[0]} + Younger(s[1..], t)
  }

  lemma {:induction false} YoungerIsPrefix(s: Stack, t: Tag)
    ensures Younger(s, t) <= Elements(s) && t !in Younger(s, t)
    ensures t !in s ==> Younger(s, t) == Elements(s)
  {
    if s != [] && s[0] != t {
      YoungerIsPrefix(s[1..], t);
    }
  }

  /** The age of a block counts the blocks that are younger. */
  lemma {:induction false} AgeCountsYounger(s: Stack, t: Tag, ways: nat)
    requires Distinct(s) && t in s
    ensures Age(s, t, ways) == Min(|Younger(s, t)|, ways)
  {
    if s[0] != t {
      YoungerIsPrefix(s[1..], t);
      assert s[0] !in s[1..];
      AgeCountsYounger(s[1..], t, if ways == 0 then 0 else ways - 1);
    }
  }

  lemma {:induction false} YoungerWithout(s: Stack, u: Tag, t: Tag)
    requires Distinct(s) && t != u && t in s
    ensures Younger(Without(s, u), t) == Younger(s, t) - {u}
  {
    if s[0] == u {
      assert u !in s[1..];
      WithoutDistinct(s[1..], u);
      YoungerIsPrefix(s[1..], t);
      assert u !in Younger(s[1..], t);
    } else if s[0] != t {
      YoungerWithout(s[1..], u, t);
    }
  }

  /** An access makes its block younger than every other. */
  lemma YoungerTouch(s: Stack, u: Tag, t: Tag)
    requires Distinct(s) && (t in s || t == u)
    ensures Younger(Touch(s, u), t) == if t == u then {} else Younger(s, t) + {u}
  {
    if t != u {
      YoungerWithout(s, u, t);
      assert Touch(s, u)[1..] == Without(s, u);
    }
  }

  // ---- interleavings -------------------------------------------------------------

  /** One access to the shared set: by the core that is analysed, or by another. */
  datatype Step = Own(tag: Tag) | Other(tag: Tag)

  function OwnRun(s: Stack, steps: seq<Step>): Stack
    decreases steps
  {
    if steps == [] then s
    else OwnRun(if steps[0].Own? then Touch(s, steps[0].tag) else s, steps[1..])
  }

  function SharedRun(s: Stack, steps: seq<Step>): Stack
    decreases steps
  {
    if steps == [] then s else SharedRun(Touch(s, steps[0].tag), steps[1..])
  }

  /** The other cores access blocks of `foreign` only. */
  predicate Draws(steps: seq<Step>, foreign: set<Tag>) {
    forall i :: 0 <= i < |steps| && steps[i].Other? ==> steps[i].tag in foreign
  }

  /** What has become younger than a block in the shared set has become so in the core's
      own history, or is a block of another core. */
  ghost predicate Interfered(own: Stack, shared: Stack, foreign: set<Tag>) {
    && Distinct(own) && Distinct(shared)
    && forall t :: t in own ==> t in shared && Younger(shared, t) <= Younger(own, t) + (foreign - {t})
  }

  lemma InterferedStep(own: Stack, shared: Stack, foreign: set<Tag>, step: Step)
    requires Interfered(own, shared, foreign)
    requires step.Other? ==> step.tag in foreign
    ensures Interfered(if step.Own? then Touch(own, step.tag) else own, Touch(shared, step.tag), foreign)
  {
    TouchDistinct(own, step.tag);
    TouchDistinct(shared, step.tag);
    var own' := if step.Own? then Touch(own, step.tag) else own;
    forall t | t in own'
      ensures t in Touch(shared, step.tag)
      ensures Younger(Touch(shared, step.tag), t) <= Younger(own', t) + (foreign - {t})
    {
      YoungerTouch(shared, step.tag, t);
      if step.Own? {
        YoungerTouch(own, step.tag, t);
      }
    }
  }

  lemma {:induction false} InterferedRun(own: Stack, shared: Stack, foreign: set<Tag>, steps: seq<Step>)
    requires Interfered(own, shared, foreign) && Draws(steps, foreign)
    ensures Interfered(OwnRun(own, steps), SharedRun(shared, steps), foreign)
    decreases steps
  {
    if steps != [] {
      var own' := if steps[0].Own? then Touch(own, steps[0].tag) else own;
      InterferedStep(own, shared, foreign, steps[0]);
      InterferedRun(own', Touch(shared, steps[0].tag), foreign, steps[1..]);
    }
  }

  lemma UnionSize(a: set<Tag>, b: set<Tag>)
    ensures |a + b| <= |a| + |b|
  {
  }

  /** The age in the shared set exceeds the age in the core's own history by at most the
      number of foreign blocks. */
  lemma SharedAge(s: Stack, steps: seq<Step>, foreign: set<Tag>, t: Tag, ways: nat)
    requires Distinct(s) && Draws(steps, foreign) && Cached(OwnRun(s, steps), t, ways)
    ensures Age(SharedRun(s, steps), t, ways) <= Age(OwnRun(s, steps), t, ways) + |foreign - {t}|
  {
    var own, shared := OwnRun(s, steps), SharedRun(s, steps);
    InterferedRun(s, s, foreign, steps);
    AgeIsPosition(own, t, ways);
    AgeCountsYounger(own, t, ways);
    AgeCountsYounger(shared, t, ways);
    UnionSize(Younger(own, t), foreign - {t});
    SubsetSize(Younger(shared, t), Younger(own, t) + (foreign - {t}));
  }

  /** A hit claimed for a shared level is a hit in every interleaving: the claim allows
      for every foreign block to come between. */
  lemma SharedHit(m: Must, s: Stack, steps: seq<Step>, foreign: set<Tag>, t: Tag, cnn: nat, ways: nat)
    requires Distinct(s) && Draws(steps, foreign) && MustValid(m, ways)
    requires MustDescribes(m, OwnRun(s, steps), ways)
    requires |foreign - {t}| <= cnn
    requires MustClassify(m, t, cnn, ways) == Hit
    ensures Cached(SharedRun(s, steps), t, ways)
  {
    assert Age(OwnRun(s, steps), t, ways) <= MaxAge(m, t, ways);
    SharedAge(s, steps, foreign, t, ways);
  }

  // ---- how tight the allowance is ---------------------------------------------------

  lemma {:induction false} Enumerate(a: set<Tag>) returns (r: seq<Tag>)
    ensures Elements(r) == a
  {
    r := [];
    if a != {} {
      var x :| x in a;
      var tail := Enumerate(a - {x});
      r := [x] + tail;
      assert Elements(r) == Elements(tail) + {x};
    }
  }

  lemma {:induction false} YoungerRun(s: Stack, others: seq<Tag>, t: Tag)
    requires Distinct(s) && t in s && t !in others
    ensures Distinct(Run(s, others)) && t in Run(s, others)
    ensures Younger(Run(s, others), t) == Younger(s, t) + Elements(others)
    decreases others
  {
    if others != [] {
      TouchDistinct(s, others[0]);
      YoungerTouch(s, others[0], t);
      YoungerRun(Touch(s, others[0]), others[1..], t);
      assert Elements(others) == Elements(others[1..]) + {others[0]};
    }
  }

  lemma {:induction false} YoungerRunAtMost(s: Stack, others: seq<Tag>, t: Tag, foreign: set<Tag>)
    requires Distinct(s) && t in s && Elements(others) <= foreign
    ensures Distinct(Run(s, others)) && t in Run(s, others)
    ensures Younger(Run(s, others), t) <= Younger(s, t) + (foreign - {t})
    decreases others
  {
    if others != [] {
      assert others[0] in Elements(others);
      TouchDistinct(s, others[0]);
      YoungerTouch(s, others[0], t);
      forall x | x in Elements(others[1..]) ensures x in foreign {
        assert x in Elements(others);
      }
      YoungerRunAtMost(Touch(s, others[0]), others[1..], t, foreign);
    }
  }

  /** Exactly when own and foreign blocks together leave a way free does a block survive
      whatever the other cores do. */
  lemma SurvivesIff(s: Stack, foreign: set<Tag>, t: Tag, ways: nat)
    requires Distinct(s) && t in s
    ensures (forall others :: Elements(others) <= foreign ==> Cached(Run(s, others), t, ways))
       <==> |Younger(s, t) + (foreign - {t})| < ways
  {
    var all := Enumerate(foreign - {t});
    assert t !in all by { assert t !in Elements(all); }
    YoungerRun(s, all, t);
    AgeCountsYounger(Run(s, all), t, ways);
    forall others | Elements(others) <= foreign
      ensures |Younger(s, t) + (foreign - {t})| < ways ==> Cached(Run(s, others), t, ways)
    {
      YoungerRunAtMost(s, others, t, foreign);
      AgeCountsYounger(Run(s, others), t, ways);
      SubsetSize(Younger(Run(s, others), t), Younger(s, t) + (foreign - {t}));
    }
    assert Elements(all) <= foreign;
  }

  // ---- assumed hits ---------------------------------------------------------------------

  /** The shared set holds no more of a block only this core uses than its own history. */
  ghost predicate Diluted(own: Stack, shared: Stack, foreign: set<Tag>) {
    && Distinct(own) && Distinct(shared)
    && forall t :: t in shared && t !in foreign ==> t in own && Younger(own, t) <= Younger(shared, t)
  }

  lemma {:induction false} DilutedRun(own: Stack, shared: Stack, foreign: set<Tag>, steps: seq<Step>)
    requires Diluted(own, shared, foreign) && Draws(steps, foreign)
    ensures Diluted(OwnRun(own, steps), SharedRun(shared, steps), foreign)
    decreases steps
  {
    if steps != [] {
      var u := steps[0].tag;
      var own' := if steps[0].Own? then Touch(own, u) else own;
      TouchDistinct(own, u);
      TouchDistinct(shared, u);
      forall t | t in Touch(shared, u) && t !in foreign
        ensures t in own' && Younger(own', t) <= Younger(Touch(shared, u), t)
      {
        YoungerTouch(shared, u, t);
        if steps[0].Own? { YoungerTouch(own, u, t); }
      }
      DilutedRun(own', Touch(shared, u), foreign, steps[1..]);
    }
  }

  /** A hit that really happens in the shared set may be assumed of the core's own history,
      as the update of the must analysis does, if no other core uses the block. */
  lemma SharedHitIsOwnHit(s: Stack, steps: seq<Step>, foreign: set<Tag>, t: Tag, ways: nat)
    requires Distinct(s) && Draws(steps, foreign) && t !in foreign
    requires Cached(SharedRun(s, steps), t, ways)
    ensures Cached(OwnRun(s, steps), t, ways)
  {
    var own, shared := OwnRun(s, steps), SharedRun(s, steps);
    DilutedRun(s, s, foreign, steps);
    AgeIsPosition(shared, t, ways);
    AgeCountsYounger(own, t, ways);
    AgeCountsYounger(shared, t, ways);
    SubsetSize(Younger(own, t), Younger(shared, t));
  }

  /** If another core uses it too, that core may be why it is there. */
  lemma BorrowedHit(t: Tag, ways: nat)
    requires 1 <= ways
    ensures Cached(SharedRun([], [Other(t)]), t, ways) && !Cached(OwnRun([], [Other(t)]), t, ways)
  {
    var steps := [Other(t)];
    assert steps[1..] == [];
    assert SharedRun([], steps) == Touch([], t);
    assert OwnRun([], steps) == OwnRun([], []) == [];
    TouchAge([], t, t, ways);
  }

  /** So hits of the shared set may be assumed of the own history, whatever that is and
      however the cores interleave, exactly for blocks that no other core uses. */
  lemma SharedHitIsOwnHitIff(foreign: set<Tag>, t: Tag, ways: nat)
    requires 1 <= ways
    ensures (forall s, steps :: Distinct(s) && Draws(steps, foreign) && Cached(SharedRun(s, steps), t, ways) ==>
               Cached(OwnRun(s, steps), t, ways))
       <==> t !in foreign
  {
    forall s, steps | t !in foreign && Distinct(s) && Draws(steps, foreign) && Cached(SharedRun(s, steps), t, ways)
      ensures Cached(OwnRun(s, steps), t, ways)
    {
      SharedHitIsOwnHit(s, steps, foreign, t, ways);
    }
    if t in foreign {
      BorrowedHit(t, ways);
      assert Draws([Other(t)], foreign) && Distinct([]);
    }
  }

  // ---- counting the foreign blocks --------------------------------------------------------

  /** The blocks of a set that a list of addresses names. */
  function ForeignBlocks(t: Traits, foreign: seq<Address>, index: nat): (r: set<Tag>)
    requires TraitsValid(t)
  {
    set i | 0 <= i < |foreign| && IndexOf(t, foreign[i]) == index :: TagOf(t, foreign[i])
  }

  lemma ForeignMore(t: Traits, foreign: seq<Address>, index: nat)
    requires TraitsValid(t) && foreign != []
    ensures ForeignBlocks(t, foreign, index)
         <= ForeignBlocks(t, foreign[1..], index)
            + (if IndexOf(t, foreign[0]) == index then {TagOf(t, foreign[0])} else {})
  {
    var tail := foreign[1..];
    assert forall i :: 0 < i < |foreign| ==> foreign[i] == tail[i - 1];
    forall x | x in ForeignBlocks(t, foreign, index)
      ensures x in ForeignBlocks(t, tail, index) || (IndexOf(t, foreign[0]) == index && x == TagOf(t, foreign[0]))
    {
    }
  }

  lemma WithoutOne(a: set<Tag>, b: set<Tag>, x: Tag, tag: Tag)
    requires a <= b + {x}
    ensures |a - {tag}| <= |b - {tag}| + (if x == tag then 0 else 1)
  {
    SubsetSize(a - {tag}, (b - {tag}) + ({x} - {tag}));
    UnionSize(b - {tag}, {x} - {tag});
    assert x != tag ==> {x} - {tag} == {x};
  }

  /** The count, which takes a block once for every address that names it, is enough. */
  lemma {:induction false} CountIsEnough(t: Traits, foreign: seq<Address>, index: nat, tag: Tag)
    requires TraitsValid(t)
    ensures |ForeignBlocks(t, foreign, index) - {tag}| <= A.ConflictCount(t, foreign, index, tag)
  {
    if foreign != [] {
      CountIsEnough(t, foreign[1..], index, tag);
      ForeignMore(t, foreign, index);
      if IndexOf(t, foreign[0]) == index {
        WithoutOne(ForeignBlocks(t, foreign, index), ForeignBlocks(t, foreign[1..], index), TagOf(t, foreign[0]), tag);
      } else {
        SubsetSize(ForeignBlocks(t, foreign, index) - {tag}, ForeignBlocks(t, foreign[1..], index) - {tag});
      }
    }
  }

  /** Per core the address lists of its functions, without the core under analysis. */
  function OthersFrom(cores: seq<seq<seq<Address>>>, current: nat, k: nat): seq<Address>
    requires k <= |cores|
    decreases |cores| - k
  {
    if k == |cores| then [] else (if k == current then [] else Flat(cores[k])) + OthersFrom(cores, current, k + 1)
  }

  function Flat(lists: seq<seq<Address>>): seq<Address> {
    if lists == [] then [] else lists[0] + Flat(lists[1..])
  }

  lemma {:induction false} CountAppend(t: Traits, a: seq<Address>, b: seq<Address>, index: nat, tag: Tag)
    requires TraitsValid(t)
    ensures A.ConflictCount(t, a + b, index, tag)
         == A.ConflictCount(t, a, index, tag) + A.ConflictCount(t, b, index, tag)
  {
    if a == [] {
      assert a + b == b;
    } else {
      assert (a + b)[1..] == a[1..] + b;
      CountAppend(t, a[1..], b, index, tag);
    }
  }

  /** What the lists hold, and nothing else. */
  lemma {:induction false} FlatHas(lists: seq<seq<Address>>, a: Address)
    ensures a in Flat(lists) <==> exists j :: 0 <= j < |lists| && a in lists[j]
  {
    if lists != [] {
      FlatHas(lists[1..], a);
      if j :| 0 <= j < |lists| && a in lists[j] {
        assert j > 0 ==> lists[1..][j - 1] == lists[j];
      }
      if j :| 0 <= j < |lists[1..]| && a in lists[1..][j] {
        assert lists[1..][j] == lists[j + 1];
      }
    }
  }

  /** The addresses of some function of some other core. */
  ghost predicate UsedByOthers(cores: seq<seq<seq<Address>>>, current: nat, k: nat, a: Address) {
    exists i, j :: k <= i < |cores| && i != current && 0 <= j < |cores[i]| && a in cores[i][j]
  }

  lemma {:induction false} OthersHave(cores: seq<seq<seq<Address>>>, current: nat, k: nat, a: Address)
    requires k <= |cores|
    ensures a in OthersFrom(cores, current, k) <==> UsedByOthers(cores, current, k, a)
    decreases |cores| - k
  {
    if k < |cores| {
      OthersHave(cores, current, k + 1, a);
      FlatHas(cores[k], a);
      assert UsedByOthers(cores, current, k + 1, a) ==> UsedByOthers(cores, current, k, a);
      if i, j :| k <= i < |cores| && i != current && 0 <= j < |cores[i]| && a in cores[i][j] {
        assert i > k ==> UsedByOthers(cores, current, k + 1, a);
      }
    }
  }

  /** The blocks of a set that some function of another core uses. */
  ghost predicate IsForeign(t: Traits, cores: seq<seq<seq<Address>>>, current: nat, index: nat, tag: Tag)
    requires TraitsValid(t)
  {
    exists a: Address :: UsedByOthers(cores, current, 0, a) && IndexOf(t, a) == index && TagOf(t, a) == tag
  }

  lemma ForeignAre(t: Traits, cores: seq<seq<seq<Address>>>, current: nat, index: nat, tag: Tag)
    requires TraitsValid(t)
    ensures tag in ForeignBlocks(t, OthersFrom(cores, current, 0), index) <==> IsForeign(t, cores, current, index, tag)
  {
    var foreign := OthersFrom(cores, current, 0);
    if tag in ForeignBlocks(t, foreign, index) {
      var i :| 0 <= i < |foreign| && IndexOf(t, foreign[i]) == index && tag == TagOf(t, foreign[i]);
      OthersHave(cores, current, 0, foreign[i]);
      assert UsedByOthers(cores, current, 0, foreign[i]);
    }
    if IsForeign(t, cores, current, index, tag) {
      var a: Address :| UsedByOthers(cores, current, 0, a) && IndexOf(t, a) == index && TagOf(t, a) == tag;
      OthersHave(cores, current, 0, a);
      var i :| 0 <= i < |foreign| && foreign[i] == a;
    }
  }

  // ---- how much is counted ---------------------------------------------------------------

  predicate Competes(t: Traits, a: Address, index: nat, tag: Tag)
    requires TraitsValid(t)
  {
    IndexOf(t, a) == index && TagOf(t, a) != tag
  }

  /** Positions in an address list, in the lists of a core, and in those of all other cores. */
  ghost function InList(t: Traits, list: seq<Address>, index: nat, tag: Tag): set<nat>
    requires TraitsValid(t)
  {
    set k | 0 <= k < |list| && Competes(t, list[k], index, tag)
  }

  ghost function InCore(t: Traits, lists: seq<seq<Address>>, index: nat, tag: Tag): set<(nat, nat)>
    requires TraitsValid(t)
  {
    set j: nat, k: nat | 0 <= j < |lists| && k in InList(t, lists[j], index, tag) :: (j, k)
  }

  ghost function InOthers(t: Traits, cores: seq<seq<seq<Address>>>, current: nat, index: nat, tag: Tag,
                          from: nat): set<(nat, (nat, nat))>
    requires TraitsValid(t)
  {
    set i: nat, p | from <= i < |cores| && i != current && p in InCore(t, cores[i], index, tag) :: (i, p)
  }

  function Pairs<T(==, !new)>(i: nat, a: set<T>): (r: set<(nat, T)>)
    ensures forall x :: x in r <==> x.0 == i && x.1 in a
  {
    set x | x in a :: (i, x)
  }

  lemma {:induction false} PairsSize<T(!new)>(i: nat, a: set<T>)
    ensures |Pairs(i, a)| == |a|
  {
    if a == {} {
      assert Pairs(i, a) == {};
    } else {
      var y :| y in a;
      PairsSize(i, a - {y});
      assert Pairs(i, a) == Pairs(i, a - {y}) + {(i, y)};
    }
  }

  lemma DisjointSize<T>(a: set<T>, b: set<T>)
    requires a !! b
    ensures |a + b| == |a| + |b|
  {
  }

  lemma {:induction false} ListSize(t: Traits, list: seq<Address>, index: nat, tag: Tag)
    requires TraitsValid(t)
    ensures A.ConflictCount(t, list, index, tag) == |InList(t, list, index, tag)|
  {
    if list == [] {
      assert InList(t, list, index, tag) == {};
    } else {
      var k := |list| - 1;
      var init, last := list[..k], list[k];
      assert list == init + [last];
      ListSize(t, init, index, tag);
      CountAppend(t, init, [last], index, tag);
      var here := if Competes(t, last, index, tag) then {k} else {};
      assert InList(t, list, index, tag) == InList(t, init, index, tag) + here;
      DisjointSize(InList(t, init, index, tag), here);
      OneCount(t, last, index, tag);
    }
  }

  lemma OneCount(t: Traits, a: Address, index: nat, tag: Tag)
    requires TraitsValid(t)
    ensures A.ConflictCount(t, [a], index, tag) == if Competes(t, a, index, tag) then 1 else 0
  {
    assert [a][1..] == [];
  }

  lemma {:induction false} FlatAppend(lists: seq<seq<Address>>, list: seq<Address>)
    ensures Flat(lists + [list]) == Flat(lists) + list
  {
    if lists == [] {
      assert ([] + [list])[1..] == [];
      assert Flat([] + [list]) == list + Flat([]);
    } else {
      FlatAppend(lists[1..], list);
      assert (lists + [list])[1..] == lists[1..] + [list];
    }
  }

  lemma CoreSplit(t: Traits, init: seq<seq<Address>>, last: seq<Address>, index: nat, tag: Tag)
    requires TraitsValid(t)
    ensures InCore(t, init + [last], index, tag)
         == InCore(t, init, index, tag) + Pairs(|init|, InList(t, last, index, tag))
    ensures InCore(t, init, index, tag) !! Pairs(|init|, InList(t, last, index, tag))
  {
    forall p
      ensures p in InCore(t, init + [last], index, tag)
         <==> p in InCore(t, init, index, tag) || p in Pairs(|init|, InList(t, last, index, tag))
    {
      assert p.0 < |init| ==> (init + [last])[p.0] == init[p.0];
    }
  }

  lemma OthersSplit(t: Traits, cores: seq<seq<seq<Address>>>, current: nat, index: nat, tag: Tag, from: nat)
    requires TraitsValid(t) && from < |cores|
    ensures var here := if from == current then {} else Pairs(from, InCore(t, cores[from], index, tag));
      && InOthers(t, cores, current, index, tag, from) == here + InOthers(t, cores, current, index, tag, from + 1)
      && here !! InOthers(t, cores, current, index, tag, from + 1)
  {
    var here := if from == current then {} else Pairs(from, InCore(t, cores[from], index, tag));
    forall x
      ensures x in InOthers(t, cores, current, index, tag, from)
         <==> x in here || x in InOthers(t, cores, current, index, tag, from + 1)
    {
    }
  }

  lemma {:induction false} CoreSize(t: Traits, lists: seq<seq<Address>>, index: nat, tag: Tag)
    requires TraitsValid(t)
    ensures A.ConflictCount(t, Flat(lists), index, tag) == |InCore(t, lists, index, tag)|
  {
    if lists == [] {
      assert InCore(t, lists, index, tag) == {};
    } else {
      var j: nat := |lists| - 1;
      var init, last := lists[..j], lists[j];
      assert lists == init + [last];
      CoreSize(t, init, index, tag);
      FlatAppend(init, last);
      CountAppend(t, Flat(init), last, index, tag);
      ListSize(t, last, index, tag);
      PairsSize(j, InList(t, last, index, tag));
      CoreSplit(t, init, last, index, tag);
      DisjointSize(InCore(t, init, index, tag), Pairs(j, InList(t, last, index, tag)));
    }
  }

  lemma OthersStep(t: Traits, cores: seq<seq<seq<Address>>>, current: nat, k: nat, index: nat, tag: Tag)
    requires TraitsValid(t) && k < |cores|
    ensures A.ConflictCount(t, OthersFrom(cores, current, k), index, tag)
         == (if k == current then 0 else A.ConflictCount(t, Flat(cores[k]), index, tag))
            + A.ConflictCount(t, OthersFrom(cores, current, k + 1), index, tag)
  {
    if k != current {
      CountAppend(t, Flat(cores[k]), OthersFrom(cores, current, k + 1), index, tag);
    } else {
      assert [] + OthersFrom(cores, current, k + 1) == OthersFrom(cores, current, k + 1);
    }
  }

  /** Every address of every function of every other core that lies in the set and is of another
      block is counted, and counted once. */
  lemma {:induction false} OthersSize(t: Traits, cores: seq<seq<seq<Address>>>, current: nat, index: nat, tag: Tag,
                                      from: nat)
    requires TraitsValid(t) && from <= |cores|
    ensures A.ConflictCount(t, OthersFrom(cores, current, from), index, tag)
         == |InOthers(t, cores, current, index, tag, from)|
    decreases |cores| - from
  {
    if from == |cores| {
      assert InOthers(t, cores, current, index, tag, from) == {};
    } else {
      var here := if from == current then {} else Pairs(from, InCore(t, cores[from], index, tag));
      OthersSize(t, cores, current, index, tag, from + 1);
      OthersStep(t, cores, current, from, index, tag);
      OthersSplit(t, cores, current, index, tag, from);
      PairsSize(from, InCore(t, cores[from], index, tag));
      CoreSize(t, cores[from], index, tag);
      DisjointSize(here, InOthers(t, cores, current, index, tag, from + 1));
    }
  }

  /** The loop over one address list. */
  method CountList(t: Traits, list: seq<Address>, index: nat, tag: Tag) returns (n: nat)
    requires TraitsValid(t)
    ensures n == A.ConflictCount(t, list, index, tag)
  {
    n := 0;
    for i := 0 to |list|
      invariant n + A.ConflictCount(t, list[i..], index, tag) == A.ConflictCount(t, list, index, tag)
    {
      assert list[i..][1..] == list[i + 1..];
      if IndexOf(t, list[i]) == index && TagOf(t, list[i]) != tag {
        n := n + 1;
      }
    }
  }

  method CountCore(t: Traits, lists: seq<seq<Address>>, index: nat, tag: Tag) returns (n: nat)
    requires TraitsValid(t)
    ensures n == A.ConflictCount(t, Flat(lists), index, tag)
  {
    n := 0;
    for i := 0 to |lists|
      invariant n + A.ConflictCount(t, Flat(lists[i..]), index, tag) == A.ConflictCount(t, Flat(lists), index, tag)
    {
      assert lists[i..][1..] == lists[i + 1..];
      CountAppend(t, lists[i], Flat(lists[i + 1..]), index, tag);
      var k := CountList(t, lists[i], index, tag);
      n := n + k;
    }
  }

  /** The count over all other cores. */
  method CountConflicts(t: Traits, cores: seq<seq<seq<Address>>>, current: nat, index: nat, tag: Tag) returns (n: nat)
    requires TraitsValid(t)
    ensures n == A.ConflictCount(t, OthersFrom(cores, current, 0), index, tag)
    ensures n == |InOthers(t, cores, current, index, tag, 0)|
  {
    OthersSize(t, cores, current, index, tag, 0);
    n := 0;
    for i := 0 to |cores|
      invariant n + A.ConflictCount(t, OthersFrom(cores, current, i), index, tag)
             == A.ConflictCount(t, OthersFrom(cores, current, 0), index, tag)
    {
      OthersStep(t, cores, current, i, index, tag);
      if i != current {
        var k := CountCore(t, cores[i], index, tag);
        n := n + k;
      }
    }
  }

  /** What is claimed of a line where other cores interfere: a hit exactly if its bound and their
      competing addresses stay below the associativity. */
  lemma SharedLineClaim(t: Traits, cores: seq<seq<seq<Address>>>, current: nat, cs: seq<C.CacheSet>, a: Address)
    requires TraitsValid(t) && A.CacheValid(t, cs)
    ensures var index, tag := IndexOf(t, a), TagOf(t, a);
      var c, n := cs[index], |InOthers(t, cores, current, index, tag, 0)|;
      var claim := A.LineClaim(t, OthersFrom(cores, current, 0), cs, a);
      && (claim == Hit <==> MaxAge(c.must, tag, t.ways) + n < t.ways)
      && (claim == Miss
          <==> && MaxAge(c.must, tag, t.ways) + n >= t.ways
               && (MaxAge(c.must, tag, t.ways) < t.ways || |c.must| == t.ways || MinAge(c.may, tag) + n >= t.ways))
  {
    var index, tag := IndexOf(t, a), TagOf(t, a);
    OthersSize(t, cores, current, index, tag, 0);
    C.SetClassifyIs(cs[index], tag, A.ConflictCount(t, OthersFrom(cores, current, 0), index, tag), t.ways);
  }

  /** The other cores access blocks of their functions only, of those that lie in the set. */
  ghost predicate DrawsForeign(t: Traits, cores: seq<seq<seq<Address>>>, current: nat, index: nat, steps: seq<Step>)
    requires TraitsValid(t)
  {
    forall i :: 0 <= i < |steps| && steps[i].Other? ==> IsForeign(t, cores, current, index, steps[i].tag)
  }

  lemma ForeignDraws(t: Traits, cores: seq<seq<seq<Address>>>, current: nat, index: nat, steps: seq<Step>)
    requires TraitsValid(t) && DrawsForeign(t, cores, current, index, steps)
    ensures Draws(steps, ForeignBlocks(t, OthersFrom(cores, current, 0), index))
  {
    forall i | 0 <= i < |steps| && steps[i].Other?
      ensures steps[i].tag in ForeignBlocks(t, OthersFrom(cores, current, 0), index)
    {
      ForeignAre(t, cores, current, index, steps[i].tag);
    }
  }

  /** The claim of a shared level, with the count made from the address lists: if it is a
      hit, the block is cached however the cores interleave, as long as each keeps to its
      functions. */
  lemma SharedClaim(t: Traits, cores: seq<seq<seq<Address>>>, current: nat, m: Must, s: Stack, steps: seq<Step>,
                    a: Address)
    requires TraitsValid(t) && Distinct(s) && MustValid(m, t.ways)
    requires MustDescribes(m, OwnRun(s, steps), t.ways)
    requires DrawsForeign(t, cores, current, IndexOf(t, a), steps)
    requires MustClassify(m, TagOf(t, a), |InOthers(t, cores, current, IndexOf(t, a), TagOf(t, a), 0)|, t.ways) == Hit
    ensures Cached(SharedRun(s, steps), TagOf(t, a), t.ways)
  {
    var foreign := OthersFrom(cores, current, 0);
    ForeignDraws(t, cores, current, IndexOf(t, a), steps);
    CountIsEnough(t, foreign, IndexOf(t, a), TagOf(t, a));
    OthersSize(t, cores, current, IndexOf(t, a), TagOf(t, a), 0);
    SharedHit(m, s, steps, ForeignBlocks(t, foreign, IndexOf(t, a)), TagOf(t, a),
              A.ConflictCount(t, foreign, IndexOf(t, a), TagOf(t, a)), t.ways);
  }

  /** End to end for a shared level: when the graph iteration has come to its end, a hit it
      claims at the end of a path happens, in every interleaving with the functions of the other
      cores whose own accesses to the set are those of the path. */
  lemma EverySharedHitTrue(t: Traits, cores: seq<seq<seq<Address>>>, current: nat, g: G.Graph, s: G.States,
                           rank: map<nat, nat>, p: seq<nat>, run: seq<seq<Address>>, m: A.Machine, a: Address,
                           steps: seq<Step>)
    requires TraitsValid(t)
    requires G.Exit(t, OthersFrom(cores, current, 0), g, s, rank) && G.GraphCovered(t, g)
    requires DrawsForeign(t, cores, current, IndexOf(t, a), steps)
    requires G.IsRun(g, p, run) && |m| == t.nSets && forall i :: 0 <= i < |m| ==> m[i] == []
    requires OwnRun([], steps) == G.RunPath(t, m, run)[IndexOf(t, a)]
    ensures p[|p| - 1] in s
    ensures A.LineClaim(t, OthersFrom(cores, current, 0), s[p[|p| - 1]], a) == Hit ==>
              Cached(SharedRun([], steps), TagOf(t, a), t.ways)
  {
    var foreign, i := OthersFrom(cores, current, 0), IndexOf(t, a);
    G.EveryRunDescribed(t, foreign, g, s, p, run, m);
    var c := s[p[|p| - 1]][i];
    assert C.SetDescribes(c, G.RunPath(t, m, run)[i], t.ways) && C.SetValid(c, t.ways);
    OthersSize(t, cores, current, i, TagOf(t, a), 0);
    if A.LineClaim(t, foreign, s[p[|p| - 1]], a) == Hit {
      SharedClaim(t, cores, current, c.must, [], steps, a);
    }
  }
}
