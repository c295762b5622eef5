/** The concrete machine every cache analysis of the program speaks about: one
    set of a cache with least-recently-used replacement.

    A set is its access history with repetitions dropped, most recent block
    first. The hardware holds the first `ways` entries of it (HardwareStep shows
    that keeping only those is a run of the real, bounded cache). */
module Lru {

  type Tag = nat

  type Stack = seq<Tag>

  ghost predicate Distinct(s: seq<Tag>) {
    forall i, j :: 0 <= i < j < |s| ==> s[i] != s[j]
  }

  /** The age of block `t`: how many distinct blocks were accessed since `t` was,
      counted up to `ways`, at which point `t` has left the cache. */
  function Age(s: Stack, t: Tag, ways: nat): (age: nat)
    ensures age <= ways
  {
    if ways == 0 then 0
    else if s == [] then ways
    else if s[0] == t then 0
    else 1 + Age(s[1..], t, ways - 1)
  }

  predicate Cached(s: Stack, t: Tag, ways: nat) {
    Age(s, t, ways) < ways
  }

  function Without(s: Stack, t: Tag): (r: Stack)
    ensures |r| <= |s|
    ensures forall x :: x in r <==> x in s && x != t
  {
    if s == [] then []
    else if s[0] == t then Without(s[1..], t)
    else [s[0]] + Without(s[1..], t)
  }

  /** One access: the block moves, or comes, to the front. */
  function Touch(s: Stack, t: Tag): (r: Stack)
    ensures t in r
  {
    [t] + Without(s, t)
  }

  lemma {:induction false} WithoutDistinct(s: Stack, t: Tag)
    requires Distinct(s)
    ensures Distinct(Without(s, t))
    ensures t !in s ==> Without(s, t) == s
  {
    if s != [] {
      WithoutDistinct(s[1..], t);
      assert s[0] !in s[1..];
      assert s[0] !in Without(s[1..], t);
    }
  }

  lemma TouchDistinct(s: Stack, t: Tag)
    requires Distinct(s)
    ensures Distinct(Touch(s, t))
  {
    WithoutDistinct(s, t);
    forall i | 0 <= i < |Without(s, t)| ensures Without(s, t)[i] != t {
      assert Without(s, t)[i] in Without(s, t);
    }
  }

  /** The age is the position in the history, as far as the ways reach. */
  lemma {:induction false} AgeIsPosition(s: Stack, t: Tag, ways: nat)
    ensures forall k :: 0 <= k < |s| && s[k] == t ==> Age(s, t, ways) <= k
    ensures Cached(s, t, ways) ==> Age(s, t, ways) < |s| && s[Age(s, t, ways)] == t
  {
    if ways != 0 && s != [] && s[0] != t {
      AgeIsPosition(s[1..], t, ways - 1);
      forall k | 0 <= k < |s| && s[k] == t
        ensures Age(s, t, ways) <= k
      {
        assert s[1..][k - 1] == t;
      }
    }
  }

  lemma AgeAt(s: Stack, k: nat, ways: nat)
    requires Distinct(s) && k < |s|
    ensures Age(s, s[k], ways) == if k < ways then k else ways
  {
    AgeIsPosition(s, s[k], ways);
  }

  lemma AgeAbsent(s: Stack, t: Tag, ways: nat)
    requires t !in s
    ensures Age(s, t, ways) == ways
  {
    AgeIsPosition(s, t, ways);
  }

  /** Distinct blocks in the cache have distinct ages. */
  lemma AgesDiffer(s: Stack, t: Tag, u: Tag, ways: nat)
    requires t != u && Cached(s, t, ways)
    ensures Age(s, t, ways) != Age(s, u, ways)
  {
    AgeIsPosition(s, t, ways);
    AgeIsPosition(s, u, ways);
  }

  lemma {:induction false} AgeWithout(s: Stack, t: Tag, b: Tag, ways: nat)
    requires Distinct(s) && b != t && 1 <= ways
    ensures 1 + Age(Without(s, t), b, ways - 1)
         == if Age(s, b, ways) < Age(s, t, ways) then Age(s, b, ways) + 1 else Age(s, b, ways)
  {
    if s != [] {
      if s[0] == t {
        WithoutDistinct(s[1..], t);
      } else if s[0] != b && ways > 1 {
        AgeWithout(s[1..], t, b, ways - 1);
        assert Without(s, t)[1..] == Without(s[1..], t);
      }
    }
  }

  /** The LRU law as a statement about ages alone: an access rejuvenates its block
      to age 0 and ages by one exactly the blocks that were younger. Everything the
      abstract caches do is compared with this. */
  lemma TouchAge(s: Stack, t: Tag, b: Tag, ways: nat)
    requires Distinct(s) && 1 <= ways
    ensures Age(Touch(s, t), b, ways)
         == if b == t then 0
            else if Age(s, b, ways) < Age(s, t, ways) then Age(s, b, ways) + 1
            else Age(s, b, ways)
  {
    if b != t {
      AgeWithout(s, t, b, ways);
      assert Touch(s, t)[1..] == Without(s, t);
    }
  }

  // ---- the bounded cache -------------------------------------------------

  /** What the hardware stores: the blocks in the cache, most recent first. */
  function Ways(s: Stack, ways: nat): (r: Stack)
    ensures |r| <= ways
  {
    if |s| <= ways then s else s[..ways]
  }

  lemma {:induction false} CachedIsStored(s: Stack, t: Tag, ways: nat)
    ensures Cached(s, t, ways) <==> t in Ways(s, ways)
  {
    if ways != 0 && s != [] && s[0] != t {
      CachedIsStored(s[1..], t, ways - 1);
      assert Ways(s, ways) == [s[0]] + Ways(s[1..], ways - 1);
    }
  }

  lemma {:induction false} WithoutPrefix(s: Stack, t: Tag, ways: nat)
    requires Distinct(s)
    ensures Ways(Without(s, t), ways) == Ways(Without(Ways(s, ways + 1), t), ways)
  {
    if s != [] {
      var w := Ways(s, ways + 1);
      assert w == [s[0]] + Ways(s[1..], ways);
      if s[0] == t {
        assert t !in s[1..] && t !in w[1..];
        WithoutDistinct(s[1..], t);
        WithoutDistinct(w[1..], t);
      } else if ways > 0 {
        WithoutPrefix(s[1..], t, ways - 1);
        WaysCons(s[0], Without(s[1..], t), ways);
        WaysCons(s[0], Without(w[1..], t), ways);
      }
    }
  }

  lemma WaysCons(x: Tag, s: Stack, ways: nat)
    requires ways > 0
    ensures Ways([x] + s, ways) == [x] + Ways(s, ways - 1)
  {
  }

  /** Keeping only the stored blocks loses nothing: the next content of the real,
      bounded cache is a function of its present content. */
  lemma HardwareStep(s: Stack, t: Tag, ways: nat)
    requires Distinct(s) && 1 <= ways
    ensures Ways(Touch(s, t), ways) == Ways(Touch(Ways(s, ways), t), ways)
  {
    WithoutPrefix(s, t, ways - 1);
    WaysCons(t, Without(s, t), ways);
    WaysCons(t, Without(Ways(s, ways), t), ways);
  }

  function Elements(s: seq<Tag>): (r: set<Tag>) {
    set t | t in s
  }

  lemma {:induction false} ElementsSize(s: seq<Tag>)
    requires Distinct(s)
    ensures |Elements(s)| == |s|
  {
    if s != [] {
      ElementsSize(s[1..]);
      assert s[0] !in s[1..];
      assert Elements(s) == Elements(s[1..]) + {s[0]};
    }
  }

  /** The blocks in the cache. */
  function Content(s: Stack, ways: nat): (r: set<Tag>) {
    Elements(Ways(s, ways))
  }

  /** A cache of `ways` ways holds at most that many blocks. */
  lemma CacheBound(s: Stack, ways: nat)
    requires Distinct(s)
    ensures |Content(s, ways)| <= ways
    ensures forall t :: t in Content(s, ways) <==> Cached(s, t, ways)
  {
    ElementsSize(Ways(s, ways));
    forall t ensures t in Content(s, ways) <==> Cached(s, t, ways) {
      CachedIsStored(s, t, ways);
    }
  }

  // ---- runs ---------------------------------------------------------------

  function Run(s: Stack, trace: seq<Tag>): Stack
    decreases trace
  {
    if trace == [] then s else Run(Touch(s, trace[0]), trace[1..])
  }

  lemma {:induction false} RunAppend(s: Stack, a: seq<Tag>, b: seq<Tag>)
    ensures Run(s, a + b) == Run(Run(s, a), b)
    decreases a
  {
    if a == [] {
      assert a + b == b;
    } else {
      RunAppend(Touch(s, a[0]), a[1..], b);
      assert (a + b)[1..] == a[1..] + b;
    }
  }
}
