/** The must analysis of one cache set: two parallel arrays of tags and ages, edited
    in place, that implement the upper bounds of AgeMaps. */
module MustCache {
  import opened Lru
  import opened Entries
  import opened AgeMaps
  import opened Merging
  import opened Reports

  function Zip(tags: seq<Tag>, ages: seq<nat>): (r: seq<Entry>)
    requires |tags| == |ages|
    ensures |r| == |tags|
    ensures forall i :: 0 <= i < |r| ==> r[i] == Entry(tags[i], ages[i])
  {
    seq(|tags|, i requires 0 <= i < |tags| => Entry(tags[i], ages[i]))
  }

  /** A list is sorted, and its i-th age is at least i. The latter is what keeps the
      list inside the arrays. */
  ghost predicate ListValid(e: seq<Entry>, ways: nat) {
    Sorted(e) && DistinctTags(e) && forall i :: 0 <= i < |e| ==> i <= e[i].age < ways
  }

  /** The three ways an update makes room: take out the accessed block, keep all the
      blocks because a hit is assumed, or drop the blocks of the greatest age. */
  ghost predicate MakesRoom(e: seq<Entry>, p: nat, q: nat, tag: Tag, limit: nat, ways: nat)
    requires p <= q <= |e|
  {
    match q == p + 1 && e[p].tag == tag
    case true =>
      limit == e[p].age
    case false =>
      && (forall x :: x in e ==> x.tag != tag)
      && q == |e|
      && (limit == ways - 1 ==> p == q < ways)
      && (limit != ways - 1 ==>
        && limit == ways
        && (forall k :: p <= k < q ==> e[k].age == ways - 1)
        && (forall k :: 0 <= k < p ==> e[k].age < ways - 1))
  }

  lemma CutSorted(e: seq<Entry>, p: nat, q: nat)
    requires Sorted(e) && DistinctTags(e) && p <= q <= |e|
    ensures Sorted(e[..p] + e[q..]) && DistinctTags(e[..p] + e[q..])
    ensures forall x :: x in e[..p] + e[q..] ==> x in e
    ensures forall x :: x in e ==> x in e[..p] + e[q..] || x in e[p..q]
  {
    assert e == e[..p] + e[p..q] + e[q..];
  }

  lemma RoomMade(e: seq<Entry>, p: nat, q: nat, tag: Tag, limit: nat, ways: nat)
    requires 1 <= ways && ListValid(e, ways) && p <= q <= |e| && MakesRoom(e, p, q, tag, limit, ways)
    ensures p + |e| - q < ways
    ensures forall k :: 0 <= k < p ==> k + 1 <= Aged(e[k], limit).age < ways && e[k].age <= limit && e[k].tag != tag
    ensures forall k :: q <= k < |e| ==> k <= Aged(e[k], limit).age < ways && e[k].age >= limit && e[k].tag != tag
    ensures forall k :: p <= k < q ==> e[k].tag == tag || Aged(e[k], limit).age == ways
    ensures q < |e| ==> q == p + 1
  {
    if q == p + 1 && e[p].tag == tag {
      assert (forall k :: 0 <= k < p ==> Less(e[k], e[p])) && (forall k :: p < k < |e| ==> Less(e[p], e[k]));
    } else {
      assert forall k :: 0 <= k < |e| ==> e[k] in e;
      assert |e| > 0 ==> |e| - 1 <= e[|e| - 1].age < ways;
    }
  }

  lemma RoomMadeSource(e: seq<Entry>, p: nat, q: nat, tag: Tag, limit: nat, ways: nat)
    requires 1 <= ways && ListValid(e, ways) && p <= q <= |e| && MakesRoom(e, p, q, tag, limit, ways)
    ensures var src := e[..p] + e[q..];
      && Sorted(src) && DistinctTags(src) && |src| < ways
      && (forall j :: 0 <= j < |src| ==> j + 1 <= Aged(src[j], limit).age < ways && src[j].tag != tag)
      && (forall j :: 0 <= j < p ==> src[j] == e[j] && src[j].age <= limit)
      && (forall j :: p <= j < |src| ==> j + 1 < |e| && src[j] == e[j + 1] && src[j].age >= limit)
  {
    var src := e[..p] + e[q..];
    RoomMade(e, p, q, tag, limit, ways);
    CutSorted(e, p, q);
    forall j | 0 <= j < |src|
      ensures j + 1 <= Aged(src[j], limit).age < ways && src[j].tag != tag
      ensures j < p ==> src[j] == e[j] && src[j].age <= limit
      ensures p <= j ==> j + 1 < |e| && src[j] == e[j + 1] && src[j].age >= limit
    {
      if j < p { assert src[j] == e[j]; } else { assert src[j] == e[q + (j - p)]; }
    }
  }

  lemma RoomMadeMembers(e: seq<Entry>, p: nat, q: nat, tag: Tag, limit: nat, ways: nat)
    requires 1 <= ways && ListValid(e, ways) && p <= q <= |e| && MakesRoom(e, p, q, tag, limit, ways)
    ensures var src := e[..p] + e[q..];
      && (forall x :: x in src ==> x in e)
      && (forall x :: x in e && x.tag != tag && Aged(x, limit).age < ways ==> x in src)
  {
    RoomMade(e, p, q, tag, limit, ways);
    CutSorted(e, p, q);
    forall x | x in e[p..q] ensures x.tag == tag || Aged(x, limit).age == ways {
      var k :| p <= k < q && e[k] == x;
    }
  }

  /** The list after an update is valid again. */
  lemma UpdatedListValid(src: seq<Entry>, tag: Tag, limit: nat, ways: nat)
    requires Sorted(src) && DistinctTags(src) && |src| < ways
    requires forall j :: 0 <= j < |src| ==> j + 1 <= Aged(src[j], limit).age < ways && src[j].tag != tag
    ensures |Resort(src, limit, 0)| == |src|
    ensures ListValid([Entry(tag, 0)] + Resort(src, limit, 0), ways)
  {
    ResortSorted(src, limit, 0);
    var r := Resort(src, limit, 0);
    forall j | 0 <= j < |r| ensures j + 1 <= r[j].age < ways && r[j].tag != tag {
      ResortAges(src, limit, 0, j);
      assert r[j] in r;
      var k :| 0 <= k < |src| && r[j] == Aged(src[k], limit);
    }
  }

  lemma IsDropped(e: seq<Entry>, p: nat, q: nat, tag: Tag, limit: nat, ways: nat, t: Tag)
    requires DistinctTags(e) && p <= q <= |e|
    requires forall k :: 0 <= k < p ==> Aged(e[k], limit).age < ways
    requires forall k :: q <= k < |e| ==> Aged(e[k], limit).age < ways
    requires forall k :: p <= k < q ==> e[k].tag == tag || Aged(e[k], limit).age == ways
    requires 0 < ways
    ensures t in ToMap(e).Keys - AgedBy(ToMap(e), tag, limit, ways).Keys <==> t in Elements(Tags(e[p..q])) - {tag}
  {
    LookUp(e, t);
    var f := Tags(e[p..q]);
    assert forall k :: 0 <= k < |f| ==> f[k] == e[p + k].tag;
    if k :| 0 <= k < |e| && e[k].tag == t {
      assert e[k] in e;
      if p <= k < q { assert f[k - p] == t; }
    }
  }

  /** The blocks an update drops. */
  lemma DroppedBlocks(e: seq<Entry>, p: nat, q: nat, tag: Tag, limit: nat, ways: nat)
    requires 1 <= ways && ListValid(e, ways) && p <= q <= |e| && MakesRoom(e, p, q, tag, limit, ways)
    ensures ToMap(e).Keys - AgedBy(ToMap(e), tag, limit, ways).Keys == Elements(Tags(e[p..q])) - {tag}
  {
    RoomMade(e, p, q, tag, limit, ways);
    forall t
      ensures t in ToMap(e).Keys - AgedBy(ToMap(e), tag, limit, ways).Keys <==> t in Elements(Tags(e[p..q])) - {tag}
    {
      IsDropped(e, p, q, tag, limit, ways, t);
    }
  }

  function Tags(e: seq<Entry>): (r: seq<Tag>)
    ensures |r| == |e| && forall i :: 0 <= i < |e| ==> r[i] == e[i].tag
  {
    seq(|e|, i requires 0 <= i < |e| => e[i].tag)
  }

  lemma HitMakesRoom(e: seq<Entry>, p: nat, tag: Tag, ways: nat)
    requires p < |e| && e[p].tag == tag
    ensures MakesRoom(e, p, p + 1, tag, e[p].age, ways)
    ensures Elements(Tags(e[p..p + 1])) == {tag}
  {
    assert Tags(e[p..p + 1]) == [tag];
  }

  lemma EvictionMakesRoom(e: seq<Entry>, p: nat, tag: Tag, ways: nat)
    requires 1 <= ways && ListValid(e, ways) && p <= |e|
    requires forall x :: x in e ==> x.tag != tag
    requires forall k :: p <= k < |e| ==> e[k].age == ways - 1
    requires p > 0 ==> e[p - 1].age != ways - 1
    ensures MakesRoom(e, p, |e|, tag, ways, ways)
  {
    assert forall k :: 0 <= k < |e| ==> e[k] in e;
    assert forall k :: 0 <= k < p - 1 ==> Less(e[k], e[p - 1]);
  }

  lemma NotAmong(e: seq<Entry>, p: nat, q: nat, tag: Tag)
    requires p <= q <= |e| && forall x :: x in e ==> x.tag != tag
    ensures Elements(Tags(e[p..q])) - {tag} == Elements(Tags(e[p..q]))
  {
    assert forall k :: 0 <= k < |e| ==> e[k] in e;
  }

  lemma NotListed(e: seq<Entry>, tag: Tag)
    requires forall k :: 0 <= k < |e| ==> e[k].tag != tag
    ensures forall x :: x in e ==> x.tag != tag
  {
  }

  /** The list after an update stands for the updated map. */
  lemma MustListUpdated(e: seq<Entry>, p: nat, q: nat, tag: Tag, limit: nat, ways: nat)
    requires 1 <= ways && ListValid(e, ways) && p <= q <= |e| && MakesRoom(e, p, q, tag, limit, ways)
    ensures var src := e[..p] + e[q..];
      var new_ := [Entry(tag, 0)] + Resort(src, limit, 0);
      && |new_| == |src| + 1 <= ways
      && ListValid(new_, ways)
      && ToMap(new_) == AgedBy(ToMap(e), tag, limit, ways)
  {
    RoomMadeSource(e, p, q, tag, limit, ways);
    var src := e[..p] + e[q..];
    UpdatedListValid(src, tag, limit, ways);
    RoomMadeMembers(e, p, q, tag, limit, ways);
    UpdatedListAccessed(e, src, tag, limit, ways);
    AccessedList(e, [Entry(tag, 0)] + Resort(src, limit, 0), tag, limit, ways);
  }

  lemma UpdatedListAccessed(e: seq<Entry>, src: seq<Entry>, tag: Tag, limit: nat, ways: nat)
    requires Sorted(src) && DistinctTags(src)
    requires forall j :: 0 <= j < |src| ==> Aged(src[j], limit).age < ways && src[j].tag != tag
    requires forall x :: x in src ==> x in e
    requires forall x :: x in e && x.tag != tag && Aged(x, limit).age < ways ==> x in src
    ensures IsAccessed(e, [Entry(tag, 0)] + Resort(src, limit, 0), tag, limit, ways)
  {
    ResortSorted(src, limit, 0);
    var r := Resort(src, limit, 0);
    var new_ := [Entry(tag, 0)] + r;
    forall y | y in e && y.tag != tag && Aged(y, limit).age < ways ensures Aged(y, limit) in new_ {
      var k :| 0 <= k < |src| && src[k] == y;
      assert Aged(src[k], limit) in r;
    }
    forall x | x in new_ && x != Entry(tag, 0)
      ensures exists y :: y in e && y.tag != tag && x == Aged(y, limit) && x.age < ways
    {
      assert x in r;
      var k :| 0 <= k < |src| && x == Aged(src[k], limit);
      assert src[k] in src && src[k] in e;
    }
    assert new_[0] == Entry(tag, 0);
  }

  /** All the in-place shift needs to know. */
  lemma UpdatePlan(e: seq<Entry>, p: nat, q: nat, tag: Tag, limit: nat, ways: nat) returns (src: seq<Entry>)
    requires 1 <= ways && ListValid(e, ways) && p <= q <= |e| && MakesRoom(e, p, q, tag, limit, ways)
    ensures Sorted(src) && DistinctTags(src) && |src| == p + |e| - q < ways
    ensures forall k :: 0 <= k < p ==> src[k] == e[k] && src[k].age <= limit
    ensures forall k :: p <= k < |src| ==> k + 1 < |e| && src[k] == e[k + 1]
    ensures Resort(src, limit, p) == src[p..]
    ensures ListValid([Entry(tag, 0)] + Resort(src, limit, 0), ways)
    ensures ToMap([Entry(tag, 0)] + Resort(src, limit, 0)) == AgedBy(ToMap(e), tag, limit, ways)
    ensures ToMap(e).Keys - AgedBy(ToMap(e), tag, limit, ways).Keys == Elements(Tags(e[p..q])) - {tag}
  {
    DroppedBlocks(e, p, q, tag, limit, ways);
    src := e[..p] + e[q..];
    RoomMadeSource(e, p, q, tag, limit, ways);
    ResortTail(src, limit, p);
    MustListUpdated(e, p, q, tag, limit, ways);
  }

  function AllAged(e: seq<Entry>): (r: seq<Entry>)
    ensures |r| == |e| && forall i :: 0 <= i < |e| ==> r[i] == Entry(e[i].tag, e[i].age + 1)
  {
    seq(|e|, i requires 0 <= i < |e| => Entry(e[i].tag, e[i].age + 1))
  }

  lemma EvictedAreOldest(e: seq<Entry>, p: nat, ways: nat)
    requires ListValid(e, ways) && p <= |e|
    requires p > 0 ==> e[p - 1].age != ways - 1
    ensures forall k :: 0 <= k < p ==> e[k].age < ways - 1
  {
    assert forall k :: 0 <= k < p - 1 ==> Less(e[k], e[p - 1]);
  }

  lemma AgedMembers(e: seq<Entry>, p: nat, ways: nat, x: Entry)
    requires p <= |e|
    requires forall k :: p <= k < |e| ==> e[k].age == ways - 1
    requires forall k :: 0 <= k < p ==> e[k].age < ways - 1
    ensures Entry(x.tag, x.age + 1) in AllAged(e[..p]) <==> x in e && x.age + 1 < ways
    ensures x in e && x.age + 1 >= ways ==> x.tag in Elements(Tags(e[p..]))
  {
    var r := AllAged(e[..p]);
    if x in e {
      var k :| 0 <= k < |e| && e[k] == x;
      if k < p { assert r[k] == Entry(x.tag, x.age + 1); } else { assert Tags(e[p..])[k - p] == x.tag; }
    }
    if y :| y in r && y == Entry(x.tag, x.age + 1) {
      var k :| 0 <= k < |r| && r[k] == y;
      assert e[k] == x;
    }
  }

  lemma AgedPositive(e: seq<Entry>, x: Entry)
    ensures x in AllAged(e) ==> x.age > 0
  {
  }

  ghost predicate EvictsFrom(e: seq<Entry>, p: nat, ways: nat) {
    && p <= |e|
    && (forall k :: p <= k < |e| ==> e[k].age == ways - 1)
    && (forall k :: 0 <= k < p ==> e[k].age < ways - 1)
  }

  lemma PotentialMap(e: seq<Entry>, p: nat, ways: nat)
    requires DistinctTags(e) && EvictsFrom(e, p, ways) && DistinctTags(AllAged(e[..p]))
    ensures ToMap(AllAged(e[..p])) == MustPotential(ToMap(e), ways)
  {
    var r := AllAged(e[..p]);
    var m, n := ToMap(e), ToMap(r);
    var u := MustPotential(m, ways);
    forall t | t in n ensures t in u && n[t] == u[t] {
      AgedPositive(e[..p], Entry(t, n[t]));
      AgedMembers(e, p, ways, Entry(t, n[t] - 1));
    }
    forall t | t in u ensures t in n {
      AgedMembers(e, p, ways, Entry(t, m[t]));
    }
  }

  lemma PotentialDrops(e: seq<Entry>, p: nat, ways: nat)
    requires DistinctTags(e) && EvictsFrom(e, p, ways)
    ensures ToMap(e).Keys - MustPotential(ToMap(e), ways).Keys == Elements(Tags(e[p..]))
  {
    var m := ToMap(e);
    var u := MustPotential(m, ways);
    forall t | t in m && t !in u ensures t in Elements(Tags(e[p..])) {
      AgedMembers(e, p, ways, Entry(t, m[t]));
    }
    forall t | t in Elements(Tags(e[p..])) ensures t in m && t !in u {
      var k :| 0 <= k < |e| - p && Tags(e[p..])[k] == t;
      assert e[p + k] in e;
    }
  }

  lemma PotentialSorted(e: seq<Entry>, p: nat, ways: nat)
    requires 1 <= ways && ListValid(e, ways) && p <= |e|
    requires forall k :: p <= k < |e| ==> e[k].age == ways - 1
    requires p > 0 ==> e[p - 1].age != ways - 1
    ensures EvictsFrom(e, p, ways) && ListValid(AllAged(e[..p]), ways)
  {
    EvictedAreOldest(e, p, ways);
    var r := AllAged(e[..p]);
    forall i, j | 0 <= i < j < p ensures Less(r[i], r[j]) && r[i].tag != r[j].tag {
      assert Less(e[i], e[j]) && e[i].tag != e[j].tag;
    }
  }

  /** The list after an access to an unknown block. */
  lemma PotentialList(e: seq<Entry>, p: nat, ways: nat)
    requires 1 <= ways && ListValid(e, ways) && p <= |e|
    requires forall k :: p <= k < |e| ==> e[k].age == ways - 1
    requires p > 0 ==> e[p - 1].age != ways - 1
    ensures ListValid(AllAged(e[..p]), ways)
    ensures ToMap(AllAged(e[..p])) == MustPotential(ToMap(e), ways)
    ensures ToMap(e).Keys - MustPotential(ToMap(e), ways).Keys == Elements(Tags(e[p..]))
  {
    PotentialSorted(e, p, ways);
    PotentialMap(e, p, ways);
    PotentialDrops(e, p, ways);
  }

  ghost predicate Within(x: seq<Entry>, t: Tag, a: nat)
    requires DistinctTags(x)
  {
    t in ToMap(x) && ToMap(x)[t] <= a
  }

  /** An entry that has moved past `k` entries of its age is inserted. */
  lemma Bubbled(d: seq<Entry>, y: Entry, k: nat, r: seq<Entry>)
    requires k <= |d| && |r| == |d| + 1 && r[k] == y
    requires forall j :: 0 <= j < k ==> r[j] == d[j] && d[j].age == y.age && d[j].tag < y.tag
    requires forall j :: k <= j < |d| ==> r[j + 1] == d[j]
    requires k < |d| ==> Less(y, d[k])
    ensures r == Insert(y, d)
  {
    InsertAt(y, d, k);
    forall j | 0 <= j < |r| ensures r[j] == (d[..k] + [y] + d[k..])[j] {
      if j > k { assert r[(j - 1) + 1] == d[j - 1]; }
    }
  }

  /** The first entries of a list, up to an age, fit in as many positions. */
  lemma YoungEntries(e: seq<Entry>, ways: nat, a: nat, t: Tag)
    requires ListValid(e, ways) && Within(e, t, a)
    ensures t in Elements(Tags(if a + 1 < |e| then e[..a + 1] else e))
  {
    LookUp(e, t);
    var k :| 0 <= k < |e| && e[k].tag == t;
    assert e[k] in e;
    var f := if a + 1 < |e| then e[..a + 1] else e;
    assert Tags(f)[k] == t;
  }

  lemma TagsBound(e: seq<Entry>, f: seq<Entry>)
    requires DistinctTags(e) && DistinctTags(f) && Elements(Tags(e)) <= Elements(Tags(f))
    ensures |e| <= |f|
  {
    ElementsSize(Tags(e));
    ElementsSize(Tags(f));
    SubsetSize(Elements(Tags(e)), Elements(Tags(f)));
  }

  lemma OneYoung(x: seq<Entry>, ways: nat, z: Entry, a: nat)
    requires ListValid(x, ways) && Within(x, z.tag, z.age) && z.age <= a
    ensures z.tag in Elements(Tags(if a + 1 < |x| then x[..a + 1] else x))
  {
    YoungEntries(x, ways, a, z.tag);
  }

  lemma TagsAmong(r: seq<Entry>, n: nat, tags: set<Tag>)
    requires n <= |r| && forall k :: 0 <= k < n ==> r[k].tag in tags
    ensures Elements(Tags(r[..n])) <= tags
  {
  }

  lemma YoungPrefix(r: seq<Entry>, x: seq<Entry>, ways: nat, i: nat, f: seq<Entry>)
    requires ListValid(x, ways) && Sorted(r) && i < |r|
    requires forall k :: 0 <= k < |r| ==> Within(x, r[k].tag, r[k].age)
    requires f == if r[i].age + 1 < |x| then x[..r[i].age + 1] else x
    ensures Elements(Tags(r[..i + 1])) <= Elements(Tags(f))
  {
    forall k | 0 <= k < i + 1 ensures r[k].tag in Elements(Tags(f)) {
      assert k < i ==> Less(r[k], r[i]);
      OneYoung(x, ways, r[k], r[i].age);
    }
    TagsAmong(r, i + 1, Elements(Tags(f)));
  }

  lemma JoinReachAt(r: seq<Entry>, x: seq<Entry>, ways: nat, i: nat)
    requires ListValid(x, ways) && Sorted(r) && DistinctTags(r) && i < |r|
    requires forall k :: 0 <= k < |r| ==> Within(x, r[k].tag, r[k].age)
    ensures i <= r[i].age && i < |x|
  {
    var f := if r[i].age + 1 < |x| then x[..r[i].age + 1] else x;
    YoungPrefix(r, x, ways, i, f);
    TagsBound(r[..i + 1], f);
  }

  /** The join keeps the i-th age at least i: the first i+1 blocks of the join are
      blocks of the left list with at most those ages, so there are not more of them
      than that list has room for. */
  lemma JoinReach(r: seq<Entry>, x: seq<Entry>, y: seq<Entry>, ways: nat)
    requires ListValid(x, ways) && ListValid(y, ways)
    requires IsMerge(r, x, y, MustJoin(ToMap(x), ToMap(y)))
    ensures ListValid(r, ways) && |r| <= |x|
  {
    forall k | 0 <= k < |r| ensures Within(x, r[k].tag, r[k].age) && r[k].age < ways {
      assert r[k] in r;
    }
    forall i | 0 <= i < |r| ensures i <= r[i].age && i < |x| {
      JoinReachAt(r, x, ways, i);
    }
    if |r| > 0 {
      JoinReachAt(r, x, ways, |r| - 1);
    }
  }

  /** Whatever the described cache, its `n` most recent blocks are the first `n` listed. */
  ghost predicate TopKnown(e: seq<Entry>, n: nat, ways: nat)
    requires DistinctTags(e) && n <= |e|
  {
    forall s: Stack :: Distinct(s) && MustDescribes(ToMap(e), s, ways) ==>
      |s| >= n && Elements(s[..n]) == Elements(Tags(e[..n]))
  }

  lemma TopAges(e: seq<Entry>, n: nat, ways: nat, s: Stack)
    requires ListValid(e, ways) && 0 < n <= |e| && e[n - 1].age == n - 1
    requires Distinct(s) && MustDescribes(ToMap(e), s, ways)
    ensures |s| >= n && Elements(s[..n]) == Elements(Tags(e[..n]))
  {
    var top := if n < |s| then s[..n] else s;
    forall t | t in Elements(Tags(e[..n])) ensures t in Elements(top) {
      var k :| 0 <= k < n && Tags(e[..n])[k] == t;
      assert k < n - 1 ==> Less(e[k], e[n - 1]);
      assert e[k] in e;
      assert Age(s, t, ways) <= MaxAge(ToMap(e), t, ways);
      AgeIsPosition(s, t, ways);
      assert top[Age(s, t, ways)] == t;
    }
    ElementsSize(top);
    ElementsSize(Tags(e[..n]));
    SubsetSize(Elements(Tags(e[..n])), Elements(top));
  }

  /** A history in the order of the list, except that `f` comes right before the n-th
      of its blocks. */
  ghost predicate Interposed(e: seq<Entry>, n: nat, f: Tag, s: Stack)
    requires 0 < n <= |e|
  {
    && (if n < |e| then f == e[n].tag else forall k :: 0 <= k < |e| ==> e[k].tag != f)
    && |s| == (if n < |e| then |e| else n + 1)
    && (forall k :: 0 <= k < |s| ==> s[k] == if k == n - 1 then f else if k == n then e[n - 1].tag else e[k].tag)
  }

  lemma InterposedDistinct(e: seq<Entry>, n: nat, f: Tag, s: Stack)
    requires DistinctTags(e) && 0 < n <= |e| && Interposed(e, n, f, s)
    ensures Distinct(s) && f !in Elements(Tags(e[..n]))
  {
    assert forall k :: 0 <= k < n ==> Tags(e[..n])[k] == e[k].tag;
  }

  lemma InterposedDescribed(e: seq<Entry>, n: nat, ways: nat, f: Tag, s: Stack)
    requires ListValid(e, ways) && 0 < n <= |e| && Interposed(e, n, f, s) && e[n - 1].age > n - 1
    ensures MustDescribes(ToMap(e), s, ways)
  {
    assert n < |e| ==> Less(e[n - 1], e[n]);
    forall t ensures Age(s, t, ways) <= MaxAge(ToMap(e), t, ways) {
      LookUp(e, t);
      if k :| 0 <= k < |e| && e[k].tag == t {
        AgeIsPosition(s, t, ways);
        assert s[if k == n - 1 then n else if k == n then n - 1 else k] == t;
      }
    }
  }

  /** A set that interposes another block, if the n-th bound is not tight. */
  lemma Interpose(e: seq<Entry>, n: nat) returns (f: Tag, s: Stack)
    requires DistinctTags(e) && 0 < n <= |e|
    ensures Interposed(e, n, f, s)
  {
    var unlisted := Fresh(Elements(Tags(e)));
    assert forall k :: 0 <= k < |e| ==> Tags(e)[k] != unlisted;
    f := if n < |e| then e[n].tag else unlisted;
    s := Tags(e[..n - 1]) + [f, e[n - 1].tag] + (if n < |e| then Tags(e[n + 1..]) else []);
  }

  lemma LooseTop(e: seq<Entry>, n: nat, ways: nat)
    requires ListValid(e, ways) && 0 < n <= |e| && e[n - 1].age > n - 1
    ensures !TopKnown(e, n, ways)
  {
    var f, s := Interpose(e, n);
    InterposedDistinct(e, n, f, s);
    InterposedDescribed(e, n, ways, f, s);
    assert s[..n][n - 1] == f;
    assert f in Elements(s[..n]);
  }

  lemma TightTop(e: seq<Entry>, n: nat, ways: nat)
    requires ListValid(e, ways) && 0 < n <= |e| && e[n - 1].age == n - 1
    ensures TopKnown(e, n, ways)
  {
    forall s: Stack | Distinct(s) && MustDescribes(ToMap(e), s, ways)
      ensures |s| >= n && Elements(s[..n]) == Elements(Tags(e[..n]))
    {
      TopAges(e, n, ways, s);
    }
  }

  /** The most recent blocks are known exactly when the n-th bound is tight. */
  lemma TopKnownIff(e: seq<Entry>, n: nat, ways: nat)
    requires ListValid(e, ways) && n <= |e|
    ensures TopKnown(e, n, ways) <==> n == 0 || e[n - 1].age == n - 1
  {
    if n == 0 {
      forall s: Stack ensures Elements(s[..0]) == Elements(Tags(e[..0])) {}
    } else if e[n - 1].age == n - 1 {
      TightTop(e, n, ways);
    } else {
      LooseTop(e, n, ways);
    }
  }

  /** `res` most recent blocks are known, and no greater number up to `max`. */
  ghost predicate IsGreatestTop(e: seq<Entry>, res: nat, max: int, ways: nat)
    requires DistinctTags(e) && res <= |e|
  {
    && TopKnown(e, res, ways)
    && forall n :: res < n <= |e| && n <= max ==> !TopKnown(e, n, ways)
  }

  lemma GreatestTop(e: seq<Entry>, res: nat, i: nat, max: int, ways: nat)
    requires ListValid(e, ways) && res <= i <= |e|
    requires res == 0 || e[res - 1].age == res - 1
    requires forall k :: res <= k < i ==> e[k].age != k
    requires i < |e| ==> e[i].age >= max
    ensures IsGreatestTop(e, res, max, ways)
  {
    TopKnownIff(e, res, ways);
    forall n | res < n <= |e| && n <= max ensures !TopKnown(e, n, ways) {
      TopKnownIff(e, n, ways);
      assert i < n - 1 ==> Less(e[i], e[n - 1]);
      assert e[n - 1].age != n - 1;
    }
  }

  class LruMaxAgeAbstractCache {
    const ways: nat
    const level: nat
    const tags: array<Tag>
    const ages: array<nat>
    var size: nat

    /** The listed blocks, youngest bound first. */
    ghost function Listed(): (e: seq<Entry>)
      requires size <= tags.Length && size <= ages.Length
      reads this, tags, ages
    {
      Zip(tags[..size], ages[..size])
    }

    ghost predicate Valid()
      reads this, tags, ages
    {
      && 1 <= ways < 256
      && tags.Length == ways && ages.Length == ways && tags != ages
      && size <= ways
      && ListValid(Listed(), ways)
    }

    ghost function Bounds(): (m: Must)
      requires Valid()
      reads this, tags, ages
      ensures |m| == size
      ensures MustValid(m, ways)
    {
      assert forall t :: t in ToMap(Listed()) ==> Entry(t, ToMap(Listed())[t]) in Listed();
      ToMapSize(Listed());
      ToMap(Listed())
    }

    constructor (ways: nat, level: nat)
      requires 1 <= ways < 256
      ensures Valid() && this.ways == ways && this.level == level
      ensures fresh(tags) && fresh(ages)
      ensures Bounds() == map[]
    {
      this.ways, this.level := ways, level;
      tags := new Tag[ways];
      ages := new nat[ways];
      size := 0;
    }

    constructor Copy(y: LruMaxAgeAbstractCache)
      requires y.Valid()
      ensures Valid() && ways == y.ways && level == y.level
      ensures fresh(tags) && fresh(ages)
      ensures Listed() == y.Listed() && Bounds() == y.Bounds()
    {
      ways, level, size := y.ways, y.level, y.size;
      tags := new Tag[y.ways];
      ages := new nat[y.ways];
      new;
      var i := 0;
      while i < size
        invariant i <= size <= ways && size == y.size && y.Valid()
        invariant y.Listed() == old(y.Listed())
        invariant forall k :: 0 <= k < i ==> Entry(tags[k], ages[k]) == y.Listed()[k]
      {
        tags[i], ages[i] := y.tags[i], y.ages[i];
        i := i + 1;
      }
      assert Listed() == y.Listed();
    }

    method Find(tag: Tag) returns (pos: nat)
      requires Valid()
      ensures pos <= size
      ensures pos < size ==> tags[pos] == tag
      ensures forall k :: 0 <= k < pos ==> tags[k] != tag
      ensures pos < size <==> tag in Bounds()
      ensures pos < size ==> Bounds()[tag] == ages[pos]
    {
      pos := 0;
      while pos < size && tags[pos] != tag
        invariant pos <= size
        invariant forall k :: 0 <= k < pos ==> tags[k] != tag
      {
        pos := pos + 1;
      }
      LookUp(Listed(), tag);
      assert forall k :: 0 <= k < size ==> Listed()[k].tag == tags[k];
    }

    /** Moves the tag at `pos` right, past the smaller tags of the same age, by shifting
        those left. The ages being equal, only tags move. */
    method Bubble(pos: nat, age: nat) returns (ghost i: nat)
      requires tags.Length == ages.Length && tags != ages
      requires pos < size <= tags.Length && ages[pos] == age
      modifies tags
      ensures pos <= i < size
      ensures forall j :: 0 <= j < pos ==> tags[j] == old(tags[j])
      ensures forall j :: pos <= j < i ==> tags[j] == old(tags[j + 1])
      ensures forall j :: i < j < size ==> tags[j] == old(tags[j])
      ensures tags[i] == old(tags[pos])
      ensures forall j :: pos < j <= i ==> old(tags[j]) < old(tags[pos]) && ages[j] == age
      ensures i + 1 < size ==> ages[i + 1] != age || old(tags[i + 1]) >= old(tags[pos])
    {
      var currentTag := tags[pos];
      var k := pos;
      while k + 1 < size && ages[k + 1] == age && tags[k + 1] < currentTag
        invariant pos <= k < size
        invariant forall j :: 0 <= j < pos ==> tags[j] == old(tags[j])
        invariant forall j :: pos <= j < k ==> tags[j] == old(tags[j + 1])
        invariant forall j :: k < j < size ==> tags[j] == old(tags[j])
        invariant forall j :: pos < j <= k ==> old(tags[j]) < currentTag && ages[j] == age
      {
        tags[k] := tags[k + 1];
        k := k + 1;
      }
      tags[k] := currentTag;
      i := k;
    }

    /** Sorts the entry at `pos` into the list `d` behind it. */
    method SortIn(pos: nat, age: nat, ghost d: seq<Entry>)
      requires tags.Length == ages.Length && tags != ages
      requires pos < size <= tags.Length
      requires ages[pos] == age
      requires |d| == size - 1 - pos
      requires forall j :: pos < j < size ==> Entry(tags[j], ages[j]) == d[j - pos - 1]
      requires forall j :: 0 <= j < |d| ==> d[j].age >= age && d[j].tag != tags[pos]
      modifies tags
      ensures var r := Insert(Entry(old(tags[pos]), age), d);
        |r| == |d| + 1 && forall j :: pos <= j < size ==> Entry(tags[j], ages[j]) == r[j - pos]
      ensures forall j :: 0 <= j < pos ==> tags[j] == old(tags[j])
    {
      ghost var y := Entry(tags[pos], age);
      assert forall j :: 0 <= j < |d| ==> d[j] == Entry(tags[pos + 1 + j], ages[pos + 1 + j]);
      ghost var i := Bubble(pos, age);
      ghost var r := Zip(tags[pos..size], ages[pos..size]);
      Bubbled(d, y, i - pos, r);
      assert forall j :: pos <= j < size ==> r[j - pos] == Entry(tags[j], ages[j]);
    }

    /** The state of the shift at `pos`: the entries before `pos` still in place, the
        slot at `pos` free, the aged and re-sorted rest behind it. */
    ghost predicate Shifted(src: seq<Entry>, accessedAge: nat, pos: nat)
      requires tags.Length == ages.Length
      reads this, tags, ages
    {
      && pos < size <= tags.Length
      && |src| == size - 1 && |Resort(src, accessedAge, pos)| == size - 1 - pos
      && (forall k :: 0 <= k < pos ==> Entry(tags[k], ages[k]) == src[k])
      && (forall k :: pos < k < size ==> Entry(tags[k], ages[k]) == Resort(src, accessedAge, pos)[k - pos - 1])
    }

    method MoveRight(pos: nat, accessedAge: nat)
      requires tags.Length == ages.Length && tags != ages && 0 < pos < tags.Length
      modifies tags, ages
      ensures tags[pos] == old(tags[pos - 1])
      ensures ages[pos] == old(ages[pos - 1]) + if old(ages[pos - 1]) < accessedAge then 1 else 0
      ensures forall k :: 0 <= k < tags.Length && k != pos ==> tags[k] == old(tags[k]) && ages[k] == old(ages[k])
    {
      tags[pos] := tags[pos - 1];
      ages[pos] := ages[pos - 1] + (if ages[pos - 1] < accessedAge then 1 else 0);
    }

    /** One step of the shift: the entry before `pos` moves to `pos`, ages if it is
        below `accessedAge`, and is sorted in where the ages merge. */
    method ShiftOne(pos: nat, accessedAge: nat, ghost src: seq<Entry>)
      requires tags.Length == ages.Length && tags != ages
      requires Sorted(src) && DistinctTags(src)
      requires 0 < pos && Shifted(src, accessedAge, pos) && src[pos - 1].age <= accessedAge
      modifies tags, ages
      ensures Shifted(src, accessedAge, pos - 1)
    {
      MoveRight(pos, accessedAge);
      Settle(pos, accessedAge, src);
    }

    method Settle(pos: nat, accessedAge: nat, ghost src: seq<Entry>)
      requires tags.Length == ages.Length && tags != ages
      requires Sorted(src) && DistinctTags(src) && 0 < pos < size <= tags.Length && |src| == size - 1
      requires |Resort(src, accessedAge, pos)| == size - 1 - pos && src[pos - 1].age <= accessedAge
      requires forall k :: 0 <= k < pos - 1 ==> Entry(tags[k], ages[k]) == src[k]
      requires Entry(tags[pos], ages[pos]) == Aged(src[pos - 1], accessedAge)
      requires forall k :: pos < k < size ==> Entry(tags[k], ages[k]) == Resort(src, accessedAge, pos)[k - pos - 1]
      modifies tags
      ensures Shifted(src, accessedAge, pos - 1)
    {
      if ages[pos] == accessedAge {
        ResortAbove(src, accessedAge, pos - 1);
        SortIn(pos, accessedAge, Resort(src, accessedAge, pos));
      } else {
        ResortFront(src, accessedAge, pos - 1);
      }
    }

    /** Makes room at the front by shifting all entries before `pos`. */
    method ShiftRight(pos: nat, accessedAge: nat, ghost src: seq<Entry>)
      requires tags.Length == ages.Length && tags != ages
      requires Sorted(src) && DistinctTags(src)
      requires Shifted(src, accessedAge, pos)
      requires forall k :: 0 <= k < pos ==> src[k].age <= accessedAge
      modifies tags, ages
      ensures Shifted(src, accessedAge, 0)
    {
      var pos := pos;
      while pos > 0
        invariant 0 <= pos < size
        invariant Shifted(src, accessedAge, pos)
      {
        ShiftOne(pos, accessedAge, src);
        pos := pos - 1;
      }
    }

    /** Drops the entries of the greatest age from the end of the list. */
    method EvictOldest(pos: nat, wantReport: bool) returns (p: nat, evicted: set<Tag>)
      requires tags.Length == ages.Length && pos <= size <= tags.Length + 1 && pos <= tags.Length
      modifies this`size
      ensures p <= pos && size == old(size) - (pos - p)
      ensures forall k :: p <= k < pos ==> ages[k] == ways - 1
      ensures p > 0 ==> ages[p - 1] != ways - 1
      ensures wantReport ==> evicted == Elements(tags[p..pos])
    {
      p := pos;
      evicted := {};
      while p > 0 && ages[p - 1] == ways - 1
        invariant p <= pos && size == old(size) - (pos - p)
        invariant forall k :: p <= k < pos ==> ages[k] == ways - 1
        invariant wantReport ==> evicted == Elements(tags[p..pos])
      {
        assert tags[p - 1..pos] == [tags[p - 1]] + tags[p..pos];
        if wantReport {
          evicted := evicted + {tags[p - 1]};
        }
        size := size - 1;
        p := p - 1;
      }
    }

    /** An access to a block that is not listed: it is counted in, and unless a hit is
        assumed the entries of the greatest age are dropped. */
    method MakeRoomForMiss(listed: nat, tag: Tag, assumeHit: bool, wantReport: bool)
      returns (pos: nat, accessedAge: nat, evicted: set<Tag>)
      requires Valid() && listed == size
      requires forall x :: x in Listed() ==> x.tag != tag
      requires assumeHit ==> size < ways
      modifies this`size
      ensures pos <= listed && size == pos + 1
      ensures accessedAge == if assumeHit then ways - 1 else ways
      ensures MakesRoom(old(Listed()), pos, listed, tag, accessedAge, ways)
      ensures wantReport ==> evicted == Elements(Tags(old(Listed())[pos..listed])) - {tag}
    {
      ghost var e := Listed();
      pos, evicted := listed, {};
      size := size + 1;
      if assumeHit {
        assert e[pos..listed] == [];
        accessedAge := ways - 1;
      } else {
        accessedAge := ways;
        pos, evicted := EvictOldest(pos, wantReport);
        assert Tags(e[pos..listed]) == tags[pos..listed];
        NotAmong(e, pos, listed, tag);
        EvictionMakesRoom(e, pos, tag, ways);
      }
    }

    method InsertFront(tag: Tag, accessedAge: nat, ghost src: seq<Entry>)
      requires tags.Length == ages.Length && tags != ages
      requires Shifted(src, accessedAge, 0)
      modifies tags, ages
      ensures Listed() == [Entry(tag, 0)] + Resort(src, accessedAge, 0)
    {
      tags[0] := tag;
      ages[0] := 0;
    }

    /** The second half of an update: shifts, and puts the accessed block in front. */
    method ShiftIn(pos: nat, tag: Tag, accessedAge: nat, ghost src: seq<Entry>)
      requires tags.Length == ages.Length && tags != ages
      requires Sorted(src) && DistinctTags(src) && pos <= |src|
      requires |src| + 1 == size <= tags.Length == ways
      requires forall k :: 0 <= k < pos ==> src[k] == Entry(tags[k], ages[k]) && src[k].age <= accessedAge
      requires forall k :: pos <= k < |src| ==> src[k] == Entry(tags[k + 1], ages[k + 1])
      requires Resort(src, accessedAge, pos) == src[pos..]
      modifies tags, ages
      ensures Listed() == [Entry(tag, 0)] + Resort(src, accessedAge, 0)
    {
      if ways > 1 {
        ShiftRight(pos, accessedAge, src);
      }
      InsertFront(tag, accessedAge, src);
    }

    /** The first half of an update: finds the accessed block, or makes room for it.
        `src` lists the other blocks that stay. */
    method MakeRoom(tag: Tag, assumeHit: bool, wantReport: bool)
      returns (pos: nat, accessedAge: nat, evicted: set<Tag>, ghost src: seq<Entry>)
      requires Valid()
      requires tag in Bounds() || !assumeHit || size < ways
      modifies this`size
      ensures Sorted(src) && DistinctTags(src) && pos <= |src| && |src| + 1 == size <= ways
      ensures forall k :: 0 <= k < pos ==> k < old(size) && src[k] == old(Listed())[k] && src[k].age <= accessedAge
      ensures forall k :: pos <= k < |src| ==> k + 1 < old(size) && src[k] == old(Listed())[k + 1]
      ensures Resort(src, accessedAge, pos) == src[pos..]
      ensures ListValid([Entry(tag, 0)] + Resort(src, accessedAge, 0), ways)
      ensures ToMap([Entry(tag, 0)] + Resort(src, accessedAge, 0)) == MustUpdate(old(Bounds()), tag, assumeHit, ways)
      ensures wantReport ==> evicted == old(Bounds()).Keys - MustUpdate(old(Bounds()), tag, assumeHit, ways).Keys
    {
      ghost var e := Listed();
      pos := Find(tag);
      ghost var q := size;
      if pos < size {
        accessedAge := ages[pos];
        evicted := {};
        q := pos + 1;
        HitMakesRoom(e, pos, tag, ways);
      } else {
        NotListed(e, tag);
        pos, accessedAge, evicted := MakeRoomForMiss(pos, tag, assumeHit, wantReport);
      }
      src := UpdatePlan(e, pos, q, tag, accessedAge, ways);
    }

    /** An access to `tag`. The caller may know that it hits, which ages less: this
        is refused only when the list is full of other blocks. */
    method Update(tag: Tag, assumption: Classification, wantReport: bool) returns (report: Option<set<Tag>>)
      requires Valid()
      requires tag in Bounds() || !AssumesHit(assumption, level) || size < ways
      modifies this, tags, ages
      ensures Valid()
      ensures Bounds() == MustUpdate(old(Bounds()), tag, AssumesHit(assumption, level), ways)
      ensures report == if wantReport then Some(old(Bounds()).Keys - Bounds().Keys) else None
    {
      ghost var e := Listed();
      var pos, accessedAge, evicted;
      ghost var src;
      pos, accessedAge, evicted, src := MakeRoom(tag, AssumesHit(assumption, level), wantReport);
      assert forall k :: 0 <= k < |e| ==> e[k] == Entry(tags[k], ages[k]);
      ShiftIn(pos, tag, accessedAge, src);
      report := if wantReport then Some(evicted) else None;
    }

    method AgeAll(n: nat, ghost e: seq<Entry>)
      requires tags.Length == ages.Length && tags != ages
      requires n == size <= tags.Length && n <= |e| && forall k :: 0 <= k < n ==> e[k] == Entry(tags[k], ages[k])
      modifies ages
      ensures Listed() == AllAged(e[..n])
    {
      var pos := n;
      while pos > 0
        invariant 0 <= pos <= n
        invariant forall k :: 0 <= k < pos ==> Entry(tags[k], ages[k]) == e[k]
        invariant forall k :: pos <= k < n ==> Entry(tags[k], ages[k]) == AllAged(e[..n])[k]
      {
        ages[pos - 1] := ages[pos - 1] + 1;
        pos := pos - 1;
      }
    }

    /** Some block that cannot be named is accessed: every entry ages. */
    method PotentialUpdate(wantReport: bool) returns (report: Option<set<Tag>>)
      requires Valid()
      modifies this, ages
      ensures Valid()
      ensures Bounds() == MustPotential(old(Bounds()), ways)
      ensures report == if wantReport then Some(old(Bounds()).Keys - Bounds().Keys) else None
    {
      ghost var e := Listed();
      var pos, evicted := EvictOldest(size, wantReport);
      assert Tags(e[pos..]) == tags[pos..|e|];
      AgeAll(pos, e);
      PotentialList(e, pos, ways);
      report := if wantReport then Some(evicted) else None;
    }

    method Classify(tag: Tag, cnn: nat) returns (r: Classification)
      requires Valid()
      ensures r == MustClassify(Bounds(), tag, cnn, ways)
    {
      var i := Find(tag);
      if i < size {
        if ages[i] + cnn >= ways {
          return Miss;
        }
        return Hit;
      }
      if size == ways {
        return Miss;
      }
      return Unknown;
    }

    method GetMaxAge(tag: Tag) returns (r: nat)
      requires Valid()
      ensures r == MaxAge(Bounds(), tag, ways)
    {
      var i := Find(tag);
      r := if i < size then ages[i] else ways;
    }

    method JoinEquals(y: LruMaxAgeAbstractCache) returns (r: bool)
      requires Valid() && y.Valid() && ways == y.ways
      requires this != y && tags != y.tags && tags != y.ages && ages != y.tags && ages != y.ages
      modifies this, tags, ages
      ensures r <==> MustJoin(old(Bounds()), old(y.Bounds())) == old(y.Bounds())
    {
      ghost var t, a, f := y.tags[..], y.ages[..], y.Listed();
      Join(y);
      assert y.tags[..] == t && y.ages[..] == a;
      assert y.Listed() == f;
      r := Equals(y);
    }

    /** Decides the order of the bounds, by joining a copy. */
    method LessEqual(y: LruMaxAgeAbstractCache) returns (r: bool)
      requires Valid() && y.Valid() && ways == y.ways
      ensures r <==> MustLeq(old(Bounds()), old(y.Bounds()), ways)
    {
      ghost var b, c := Bounds(), y.Bounds();
      JoinDecidesOrder(b, c, May(map[], 0), May(map[], 0), ways);
      ghost var t, a, f := y.tags[..], y.ages[..], y.Listed();
      var copy := new LruMaxAgeAbstractCache.Copy(this);
      assert y.tags[..] == t && y.ages[..] == a && y.Listed() == f;
      r := copy.JoinEquals(y);
    }

    /** The greatest number of most recent blocks, up to `maxStackSize`, that is known. */
    method GetMaxConcreteSubStackSize(maxStackSize: int) returns (res: nat)
      requires Valid()
      ensures res <= size && (res == 0 || res <= maxStackSize)
      ensures IsGreatestTop(Listed(), res, maxStackSize, ways)
    {
      ghost var e := Listed();
      res := 0;
      var i := 0;
      while i < size && ages[i] < maxStackSize
        invariant res <= i <= size
        invariant res == 0 || (e[res - 1].age == res - 1 && res <= maxStackSize)
        invariant forall k :: res <= k < i ==> e[k].age != k
      {
        if ages[i] == i {
          res := i + 1;
        }
        i := i + 1;
      }
      GreatestTop(e, res, i, maxStackSize, ways);
    }

    /** Compares the lists, which is the same as comparing the bounds. */
    method Equals(y: LruMaxAgeAbstractCache) returns (r: bool)
      requires Valid() && y.Valid() && ways == y.ways
      ensures r <==> Bounds() == y.Bounds()
    {
      SortedIsCanonical(Listed(), y.Listed());
      r := size == y.size;
      if r {
        r := SameEntries(y);
      }
    }

    method SameEntries(y: LruMaxAgeAbstractCache) returns (r: bool)
      requires size <= tags.Length && size <= ages.Length
      requires size == y.size && y.size <= y.tags.Length && y.size <= y.ages.Length
      ensures r <==> Listed() == y.Listed()
    {
      ghost var e, f := Listed(), y.Listed();
      var i := 0;
      while i < size && tags[i] == y.tags[i] && ages[i] == y.ages[i]
        invariant i <= size
        invariant forall k :: 0 <= k < i ==> e[k] == f[k]
      {
        i := i + 1;
      }
      r := i == size;
      assert !r ==> e[i] != f[i];
    }

    /** Whether `tag` is among the first `n` entries. */
    method Search(tag: Tag, n: nat) returns (found: bool)
      requires n <= size <= tags.Length && size <= ages.Length
      ensures found <==> HasTag(Listed()[..n], tag)
    {
      ghost var e := Listed();
      var first := 0;
      while first < n && tags[first] != tag
        invariant first <= n
        invariant forall k :: 0 <= k < first ==> e[k].tag != tag
      {
        first := first + 1;
      }
      found := first < n;
      assert found ==> e[..n][first].tag == tag;
    }

    /** Joins with another list by merging both, from the back, into fresh arrays. */
    method Join(y: LruMaxAgeAbstractCache)
      requires Valid() && y.Valid() && ways == y.ways
      modifies this, tags, ages
      ensures Valid()
      ensures Bounds() == MustJoin(old(Bounds()), old(y.Bounds()))
    {
      ghost var a, b := Listed(), y.Listed();
      ghost var r := MustMerge(a, b);
      MustMergeIsJoin(a, b);
      JoinReach(r, a, b, ways);
      var outTags, outAges, out := MergeInto(y);
      CopyBack(outTags, outAges, out, r);
    }

    method CopyBack(outTags: array<Tag>, outAges: array<nat>, out: nat, ghost r: seq<Entry>)
      requires tags.Length == ages.Length == outTags.Length == outAges.Length == ways
      requires tags != ages && {tags, ages} !! {outTags, outAges}
      requires out <= ways && r == Zip(outTags[out..], outAges[out..])
      modifies this`size, tags, ages
      ensures size == |r| && Listed() == r
    {
      size := ways - out;
      var i := 0;
      while i < size
        invariant 0 <= i <= size == |r|
        invariant forall k :: 0 <= k < i ==> r[k] == Entry(tags[k], ages[k])
      {
        tags[i] := outTags[out + i];
        ages[i] := outAges[out + i];
        i := i + 1;
      }
    }

    /** Takes the last entry before `xLeft` here, and searches the other list for its tag. */
    method TakeOwn(y: LruMaxAgeAbstractCache, xLeft: nat, yLeft: nat)
      returns (tag: Tag, joinedAge: nat, found: bool)
      requires 0 < xLeft <= size <= tags.Length && size <= ages.Length
      requires yLeft <= y.size <= y.tags.Length && y.size <= y.ages.Length
      requires FromLeft(Listed(), y.Listed(), xLeft, yLeft)
      ensures MustMerge(Listed()[..xLeft], y.Listed()[..yLeft])
           == MustMerge(Listed()[..xLeft - 1], y.Listed()[..yLeft]) + (if found then [Entry(tag, joinedAge)] else [])
    {
      MustMergeStep(Listed(), y.Listed(), xLeft, yLeft);
      joinedAge, tag := ages[xLeft - 1], tags[xLeft - 1];
      found := y.Search(tag, yLeft);
    }

    /** The other way round. */
    method TakeOther(y: LruMaxAgeAbstractCache, xLeft: nat, yLeft: nat)
      returns (tag: Tag, joinedAge: nat, found: bool)
      requires xLeft <= size <= tags.Length && size <= ages.Length
      requires 0 < yLeft <= y.size <= y.tags.Length && y.size <= y.ages.Length
      requires !FromLeft(Listed(), y.Listed(), xLeft, yLeft)
      ensures MustMerge(Listed()[..xLeft], y.Listed()[..yLeft])
           == MustMerge(Listed()[..xLeft], y.Listed()[..yLeft - 1]) + (if found then [Entry(tag, joinedAge)] else [])
    {
      MustMergeStep(Listed(), y.Listed(), xLeft, yLeft);
      joinedAge, tag := y.ages[yLeft - 1], y.tags[yLeft - 1];
      found := Search(tag, xLeft);
    }

    method IsGreater(y: LruMaxAgeAbstractCache, xLeft: nat, yLeft: nat) returns (r: bool)
      requires xLeft <= size <= tags.Length && size <= ages.Length
      requires yLeft <= y.size <= y.tags.Length && y.size <= y.ages.Length
      requires xLeft > 0 || yLeft > 0
      ensures r <==> FromLeft(Listed(), y.Listed(), xLeft, yLeft)
    {
      r := xLeft > 0 &&
        (yLeft == 0 || ages[xLeft - 1] > y.ages[yLeft - 1]
         || (ages[xLeft - 1] == y.ages[yLeft - 1] && tags[xLeft - 1] >= y.tags[yLeft - 1]));
    }

    /** Selects the greater of the last entries, of `xLeft` here and `yLeft` there. */
    method SelectGreater(y: LruMaxAgeAbstractCache, xLeft: nat, yLeft: nat)
      returns (xRest: nat, yRest: nat, tag: Tag, joinedAge: nat, found: bool)
      requires xLeft <= size <= tags.Length && size <= ages.Length
      requires yLeft <= y.size <= y.tags.Length && y.size <= y.ages.Length
      requires xLeft > 0 || yLeft > 0
      ensures xRest <= xLeft && yRest <= yLeft && xRest + yRest + 1 == xLeft + yLeft
      ensures MustMerge(Listed()[..xLeft], y.Listed()[..yLeft])
           == MustMerge(Listed()[..xRest], y.Listed()[..yRest]) + (if found then [Entry(tag, joinedAge)] else [])
    {
      var xElemIsGreater := IsGreater(y, xLeft, yLeft);
      if xElemIsGreater {
        tag, joinedAge, found := TakeOwn(y, xLeft, yLeft);
        xRest, yRest := xLeft - 1, yLeft;
      } else {
        tag, joinedAge, found := TakeOther(y, xLeft, yLeft);
        xRest, yRest := xLeft, yLeft - 1;
      }
    }

    /** The merge itself. The result fills the arrays from position `out` on. */
    method MergeInto(y: LruMaxAgeAbstractCache) returns (outTags: array<Tag>, outAges: array<nat>, out: nat)
      requires size <= tags.Length && size <= ages.Length && y.size <= y.tags.Length && y.size <= y.ages.Length
      requires |MustMerge(Listed(), y.Listed())| <= ways
      ensures fresh(outTags) && fresh(outAges) && outTags != outAges && outTags.Length == outAges.Length == ways
      ensures out <= ways && Zip(outTags[out..], outAges[out..]) == MustMerge(Listed(), y.Listed())
    {
      ghost var a, b := Listed(), y.Listed();
      outTags, outAges := new Tag[ways], new nat[ways];
      out := ways;
      var xLeft, yLeft := size, y.size;
      assert a[..xLeft] == a && b[..yLeft] == b;
      while xLeft > 0 || yLeft > 0
        invariant 0 <= xLeft <= |a| && 0 <= yLeft <= |b| && out <= ways
        invariant Listed() == a && y.Listed() == b
        invariant MustMerge(a, b) == MustMerge(a[..xLeft], b[..yLeft]) + Zip(outTags[out..], outAges[out..])
        decreases xLeft + yLeft
      {
        xLeft, yLeft, out := MergeOne(y, xLeft, yLeft, outTags, outAges, out, MustMerge(a, b));
      }
    }

    method MergeOne(y: LruMaxAgeAbstractCache, xLeft: nat, yLeft: nat,
                    outTags: array<Tag>, outAges: array<nat>, out: nat, ghost r: seq<Entry>)
      returns (xRest: nat, yRest: nat, out': nat)
      requires xLeft <= size <= tags.Length && size <= ages.Length
      requires yLeft <= y.size <= y.tags.Length && y.size <= y.ages.Length
      requires xLeft > 0 || yLeft > 0
      requires outTags != outAges && outTags.Length == outAges.Length == ways && out <= ways
      requires {outTags, outAges} !! {tags, ages, y.tags, y.ages}
      requires |r| <= ways
      requires r == MustMerge(Listed()[..xLeft], y.Listed()[..yLeft]) + Zip(outTags[out..], outAges[out..])
      modifies outTags, outAges
      ensures xRest <= xLeft && yRest <= yLeft && xRest + yRest + 1 == xLeft + yLeft && out' <= ways
      ensures r == MustMerge(Listed()[..xRest], y.Listed()[..yRest]) + Zip(outTags[out'..], outAges[out'..])
    {
      ghost var m, o := MustMerge(Listed()[..xLeft], y.Listed()[..yLeft]), Zip(outTags[out..], outAges[out..]);
      var tag, joinedAge, found;
      xRest, yRest, tag, joinedAge, found := SelectGreater(y, xLeft, yLeft);
      ghost var z := if found then [Entry(tag, joinedAge)] else [];
      Reassociate(m, MustMerge(Listed()[..xRest], y.Listed()[..yRest]), z, o);
      assert |r| == |m| + |o| && |o| == ways - out && |m| >= |z|;
      out' := Emit(outTags, outAges, out, found, tag, joinedAge);
    }

    /** Writes an entry before those written, if it is in both lists. */
    method Emit(outTags: array<Tag>, outAges: array<nat>, out: nat, found: bool, tag: Tag, age: nat)
      returns (out': nat)
      requires outTags != outAges && outTags.Length == outAges.Length == ways && out <= ways && (found ==> 0 < out)
      modifies outTags, outAges
      ensures out' <= ways
      ensures Zip(outTags[out'..], outAges[out'..])
           == (if found then [Entry(tag, age)] else []) + old(Zip(outTags[out..], outAges[out..]))
    {
      out' := out;
      if found {
        out' := out - 1;
        PutBefore(outTags, outAges, out', tag, age);
      }
    }

    method PutBefore(outTags: array<Tag>, outAges: array<nat>, out: nat, tag: Tag, age: nat)
      requires outTags != outAges && outTags.Length == outAges.Length == ways && out < ways
      modifies outTags, outAges
      ensures Zip(outTags[out..], outAges[out..])
           == [Entry(tag, age)] + old(Zip(outTags[out + 1..], outAges[out + 1..]))
    {
      outTags[out], outAges[out] := tag, age;
    }
  }

  lemma Reassociate(m: seq<Entry>, rest: seq<Entry>, z: seq<Entry>, o: seq<Entry>)
    requires m == rest + z
    ensures m + o == rest + (z + o)
  {
  }

  /** Whether the greater of the last entries before the two ends is that of the left list. */
  predicate FromLeft(x: seq<Entry>, y: seq<Entry>, m: nat, n: nat)
    requires m <= |x| && n <= |y| && (m > 0 || n > 0)
  {
    m > 0 && (n == 0 || !Less(x[m - 1], y[n - 1]))
  }

  lemma MustMergeStep(x: seq<Entry>, y: seq<Entry>, m: nat, n: nat)
    requires m <= |x| && n <= |y| && (m > 0 || n > 0)
    ensures FromLeft(x, y, m, n) ==>
      MustMerge(x[..m], y[..n])
      == MustMerge(x[..m - 1], y[..n]) + (if HasTag(y[..n], x[m - 1].tag) then [x[m - 1]] else [])
    ensures !FromLeft(x, y, m, n) ==>
      MustMerge(x[..m], y[..n])
      == MustMerge(x[..m], y[..n - 1]) + (if HasTag(x[..m], y[n - 1].tag) then [y[n - 1]] else [])
  {
    var p, q := x[..m], y[..n];
    if FromLeft(x, y, m, n) {
      assert p[..|p| - 1] == x[..m - 1];
    } else {
      assert q[..|q| - 1] == y[..n - 1];
    }
  }
}
