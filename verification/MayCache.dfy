/** The may analysis of one cache set: a sorted vector of blocks with lower age bounds
    and one bound for all other blocks, edited in place, that implement AgeMaps.May. */
module MayCache {
  import opened Lru
  import opened AgeMaps
  import opened Entries
  import opened Merging
  import opened Reports

  datatype MayReport = MayReport(evictedElements: set<Tag>, justEvictedUnknowns: bool, justIntroducedUnknowns: bool)

  // ---- the vector, step by step -------------------------------------------

  /** Entries as old as the unlisted blocks say nothing; they are dropped. */
  method RemoveRedundantTags(e: seq<Entry>, implicit: nat) returns (r: seq<Entry>)
    requires Sorted(e)
    ensures r <= e
    ensures forall x :: x in r <==> x in e && x.age < implicit
  {
    var size := |e|;
    while size > 0 && e[size - 1].age >= implicit
      invariant 0 <= size <= |e|
      invariant forall k :: size <= k < |e| ==> e[k].age >= implicit
    {
      size := size - 1;
    }
    r := e[..size];
    PrefixBelow(e, size, implicit);
  }

  lemma PrefixBelow(e: seq<Entry>, size: nat, age: nat)
    requires Sorted(e) && size <= |e| && forall k :: size <= k < |e| ==> e[k].age >= age
    requires size > 0 ==> e[size - 1].age < age
    ensures forall x :: x in e[..size] <==> x in e && x.age < age
  {
    forall k | 0 <= k < size ensures e[k].age < age {
      assert k < size - 1 ==> Less(e[k], e[size - 1]);
    }
    assert e == e[..size] + e[size..];
  }

  /** The tags from index `i` on, leaving out index `pos`. */
  function OtherTags(e: seq<Entry>, i: nat, pos: nat): (r: set<Tag>)
    requires i <= |e|
    ensures forall k :: i <= k < |e| && k != pos ==> e[k].tag in r
    ensures forall t :: t in r ==> exists k :: i <= k < |e| && k != pos && e[k].tag == t
    decreases |e| - i
  {
    if i == |e| then {} else OtherTags(e, i + 1, pos) + (if i != pos then {e[i].tag} else {})
  }

  /** Finds the entries of the greatest age at the end of the vector. */
  method DropOldest(e: seq<Entry>, pos: nat, ways: nat, wantReport: bool) returns (size: nat, evicted: set<Tag>)
    requires 1 <= ways
    ensures size <= |e|
    ensures forall k :: size <= k < |e| ==> e[k].age == ways - 1
    ensures size > 0 ==> e[size - 1].age != ways - 1
    ensures evicted == if wantReport then OtherTags(e, size, pos) else {}
  {
    size := |e|;
    evicted := {};
    while size > 0 && e[size - 1].age == ways - 1
      invariant 0 <= size <= |e|
      invariant forall k :: size <= k < |e| ==> e[k].age == ways - 1
      invariant evicted == if wantReport then OtherTags(e, size, pos) else {}
    {
      if wantReport && pos != size - 1 {
        evicted := evicted + {e[size - 1].tag};
      }
      size := size - 1;
    }
  }

  /** Ages the entries left of `pos` that have its age, moving them one to the right.
      Index `lower` is free afterwards. */
  method AgeLeft(e: seq<Entry>, pos: nat) returns (r: seq<Entry>, lower: nat)
    requires pos < |e|
    ensures |r| == |e| && lower <= pos
    ensures lower > 0 ==> e[lower - 1].age != e[pos].age
    ensures forall k :: 0 <= k < lower ==> r[k] == e[k]
    ensures forall k :: lower <= k < pos ==> e[k].age == e[pos].age && r[k + 1] == Entry(e[k].tag, e[pos].age + 1)
    ensures forall k :: pos < k < |e| ==> r[k] == e[k]
  {
    var accessedAge := e[pos].age;
    r := e;
    var i: int := pos - 1;
    while i >= 0 && r[i].age == accessedAge
      invariant -1 <= i < pos && |r| == |e|
      invariant forall k :: 0 <= k <= i + 1 ==> r[k] == e[k]
      invariant forall k :: i + 1 <= k < pos ==> e[k].age == accessedAge && r[k + 1] == Entry(e[k].tag, accessedAge + 1)
      invariant forall k :: pos < k < |e| ==> r[k] == e[k]
    {
      r := r[i + 1 := Entry(r[i].tag, accessedAge + 1)];
      i := i - 1;
    }
    lower := i + 1;
  }

  /** Ages the entries right of `pos` that have age `accessedAge`, in place. */
  method AgeRight(e: seq<Entry>, pos: nat, accessedAge: nat) returns (r: seq<Entry>, upper: nat)
    requires pos < |e|
    ensures |r| == |e| && pos <= upper < |e|
    ensures upper + 1 < |e| ==> e[upper + 1].age != accessedAge
    ensures forall k :: 0 <= k <= pos ==> r[k] == e[k]
    ensures forall k :: pos < k <= upper ==> e[k].age == accessedAge && r[k] == Entry(e[k].tag, accessedAge + 1)
    ensures forall k :: upper < k < |e| ==> r[k] == e[k]
  {
    r := e;
    var i := pos + 1;
    while i < |r| && r[i].age == accessedAge
      invariant pos < i <= |e| && |r| == |e|
      invariant forall k :: 0 <= k <= pos ==> r[k] == e[k]
      invariant forall k :: pos < k < i ==> e[k].age == accessedAge && r[k] == Entry(e[k].tag, accessedAge + 1)
      invariant forall k :: i <= k < |e| ==> r[k] == e[k]
    {
      r := r[i := Entry(r[i].tag, accessedAge + 1)];
      i := i + 1;
    }
    upper := i - 1;
  }

  /** The two together: the age class of `pos`, aged, follows index `lower`, and the
      entries after it are those that were older. */
  ghost predicate ClassAged(src: seq<Entry>, limit: nat, r: seq<Entry>, lower: nat, upper: nat) {
    && |src| + 1 == |r| && lower <= upper <= |src|
    && (forall k :: 0 <= k < lower ==> r[k] == src[k] && src[k].age + 1 < limit)
    && (forall k :: lower <= k < |src| ==> r[k + 1] == Aged(src[k], limit))
    && (forall k :: lower <= k < upper ==> Aged(src[k], limit).age == limit)
    && (forall k :: upper <= k < |src| ==> src[k].age >= limit)
  }

  method AgeClass(e: seq<Entry>, pos: nat) returns (r: seq<Entry>, lower: nat, upper: nat)
    requires Sorted(e) && pos < |e|
    ensures ClassAged(e[..pos] + e[pos + 1..], e[pos].age + 1, r, lower, upper)
  {
    var left;
    left, lower := AgeLeft(e, pos);
    r, upper := AgeRight(left, pos, e[pos].age);
    AgeClassBounds(e, pos, lower, upper);
  }

  lemma AgeClassBounds(e: seq<Entry>, pos: nat, lower: nat, upper: nat)
    requires Sorted(e) && lower <= pos <= upper < |e|
    requires lower > 0 ==> e[lower - 1].age != e[pos].age
    requires upper + 1 < |e| ==> e[upper + 1].age != e[pos].age
    ensures forall k :: 0 <= k < lower ==> e[k].age < e[pos].age
    ensures forall k :: upper < k < |e| ==> e[k].age > e[pos].age
  {
    forall k | 0 <= k < lower ensures e[k].age < e[pos].age {
      assert lower - 1 < pos ==> Less(e[lower - 1], e[pos]);
      assert k < lower - 1 ==> Less(e[k], e[lower - 1]);
    }
    forall k | upper < k < |e| ensures e[k].age > e[pos].age {
      assert Less(e[pos], e[upper + 1]);
      assert k > upper + 1 ==> Less(e[upper + 1], e[k]);
    }
  }

  /** Moves the entry at `i` right, past the entries of its age with smaller tags. */
  method SortIn(e: seq<Entry>, i: nat, age: nat) returns (r: seq<Entry>)
    requires i < |e| && e[i].age == age && Sorted(e[i + 1..])
    requires forall k :: i < k < |e| ==> e[k].age >= age && e[k].tag != e[i].tag
    ensures r == e[..i] + Insert(e[i], e[i + 1..])
  {
    var currentTag := e[i].tag;
    r := e;
    var p := i;
    while p < |r| - 1 && r[p + 1].age <= age && r[p + 1].tag < currentTag
      invariant i <= p < |r| == |e| && r[p].age == age
      invariant forall k :: 0 <= k < i ==> r[k] == e[k]
      invariant forall k :: i <= k < p ==> r[k] == e[k + 1]
      invariant forall k :: p < k < |e| ==> r[k] == e[k]
      invariant forall k :: i < k <= p ==> e[k].age == age && e[k].tag < currentTag
    {
      r := r[p := Entry(r[p + 1].tag, r[p].age)];
      p := p + 1;
    }
    r := r[p := Entry(currentTag, r[p].age)];
    SortedInAt(e, i, p, age, r);
  }

  lemma SortedInAt(e: seq<Entry>, i: nat, p: nat, age: nat, r: seq<Entry>)
    requires i <= p < |e| == |r| && e[i].age == age && Sorted(e[i + 1..])
    requires forall k :: i < k < |e| ==> e[k].age >= age && e[k].tag != e[i].tag
    requires forall k :: i < k <= p ==> e[k].age == age && e[k].tag < e[i].tag
    requires p + 1 < |e| ==> e[p + 1].age > age || e[p + 1].tag >= e[i].tag
    requires forall k :: 0 <= k < i ==> r[k] == e[k]
    requires forall k :: i <= k < p ==> r[k] == e[k + 1]
    requires forall k :: p < k < |e| ==> r[k] == e[k]
    requires r[p] == e[i]
    ensures r == e[..i] + Insert(e[i], e[i + 1..])
  {
    var d, n := e[i + 1..], p - i;
    forall j | 0 <= j < n ensures !Less(e[i], d[j]) {
      assert d[j] == e[i + 1 + j];
    }
    assert p + 1 < |e| ==> d[n] == e[p + 1];
    InsertAt(e[i], d, n);
    var g := d[..n] + [e[i]] + d[n..];
    forall j | 0 <= j < |g| ensures r[i + j] == g[j] {
      assert j < n ==> g[j] == d[j] == e[i + j + 1];
      assert j > n ==> g[j] == d[n..][j - n - 1] == d[j - 1] == e[i + j];
    }
    assert r[i..] == g && r[..i] == e[..i];
    assert r == r[..i] + r[i..];
  }

  /** Merges the aged class, behind index `lower`, with the entries it now equals in age. */
  method MergeClass(e: seq<Entry>, lower: nat, upper: nat, ghost src: seq<Entry>, limit: nat) returns (r: seq<Entry>)
    requires Sorted(src) && DistinctTags(src)
    requires ClassAged(src, limit, e, lower, upper)
    ensures |r| == |src| + 1 && r[..lower] == src[..lower]
    ensures r[lower + 1..] == Resort(src, limit, lower)
  {
    r := e;
    var i := upper;
    ResortTail(src, limit, upper);
    assert r[upper + 1..] == src[upper..];
    while i > lower
      invariant lower <= i <= upper
      invariant HalfMerged(src, limit, r, lower, i)
    {
      r := MergeOne(r, i, lower, src, limit);
      i := i - 1;
    }
  }

  /** The merge at `i`: what follows index `i` is done, what lies between `lower` and
      `i` is aged but not sorted in. */
  ghost predicate HalfMerged(src: seq<Entry>, limit: nat, r: seq<Entry>, lower: nat, i: nat) {
    && lower <= i <= |src| && |r| == |src| + 1
    && r[..lower] == src[..lower]
    && (forall k :: lower <= k < i ==> r[k + 1] == Aged(src[k], limit) && Aged(src[k], limit).age == limit)
    && r[i + 1..] == Resort(src, limit, i)
  }

  method MergeOne(e: seq<Entry>, i: nat, lower: nat, ghost src: seq<Entry>, limit: nat) returns (r: seq<Entry>)
    requires Sorted(src) && DistinctTags(src) && lower < i && HalfMerged(src, limit, e, lower, i)
    ensures HalfMerged(src, limit, r, lower, i - 1)
  {
    ghost var d := Resort(src, limit, i);
    assert e[(i - 1) + 1] == Aged(src[i - 1], limit);
    ResortAbove(src, limit, i - 1);
    forall k | i < k < |e| ensures e[k].age >= limit && e[k].tag != e[i].tag {
      assert e[k] == d[k - i - 1];
    }
    r := SortIn(e, i, limit);
    assert r[..i] == e[..i] && r[i..] == Resort(src, limit, i - 1);
    assert forall k :: 0 <= k < i ==> r[..i][k] == e[..i][k];
  }

  /** Ages the entries before `p` and shifts them by one to the right. */
  lemma ShiftedOne(r: seq<Entry>, i: nat, src: seq<Entry>, limit: nat)
    requires Sorted(src) && DistinctTags(src) && 0 < i <= |src| && |r| == |src| + 1
    requires r[..i] == src[..i] && r[i + 1..] == Resort(src, limit, i)
    requires src[i - 1].age < limit && (src[i - 1].age + 1 < limit || src[|src| - 1].age < limit)
    ensures var z := r[i := Entry(r[i - 1].tag, r[i - 1].age + 1)];
      z[..i - 1] == src[..i - 1] && z[i..] == Resort(src, limit, i - 1)
  {
    var z := r[i := Entry(r[i - 1].tag, r[i - 1].age + 1)];
    assert r[i - 1] == r[..i][i - 1] == src[i - 1];
    ResortFront(src, limit, i - 1);
    assert z[i..] == [Aged(src[i - 1], limit)] + r[i + 1..];
    assert z[..i - 1] == r[..i][..i - 1];
  }

  method ShiftYounger(e: seq<Entry>, p: nat, ghost src: seq<Entry>, limit: nat) returns (r: seq<Entry>)
    requires Sorted(src) && DistinctTags(src) && p <= |src| && |e| == |src| + 1
    requires e[..p] == src[..p] && e[p + 1..] == Resort(src, limit, p)
    requires forall k :: 0 <= k < p ==> src[k].age < limit && (src[k].age + 1 < limit || src[|src| - 1].age < limit)
    ensures |r| == |e| && r[1..] == Resort(src, limit, 0)
  {
    r := e;
    var i := p;
    while i > 0
      invariant 0 <= i <= p && |r| == |e|
      invariant r[..i] == src[..i] && r[i + 1..] == Resort(src, limit, i)
    {
      ShiftedOne(r, i, src, limit);
      r := r[i := Entry(r[i - 1].tag, r[i - 1].age + 1)];
      i := i - 1;
    }
  }

  // ---- the lists the class keeps -------------------------------------------

  ghost predicate VectorValid(e: seq<Entry>, implicit: nat) {
    Sorted(e) && DistinctTags(e) && forall x :: x in e ==> x.age < implicit
  }

  /** The other blocks, which an update ages: all but the accessed one, and without
      those that leave the cache by ageing. */
  ghost predicate Others(e: seq<Entry>, src: seq<Entry>, tag: Tag, limit: nat, cap: nat) {
    && Sorted(src) && DistinctTags(src)
    && (forall x :: x in src ==> x in e && x.tag != tag)
    && (forall x :: x in e && x.tag != tag && Aged(x, limit).age < cap ==> x in src)
  }

  lemma UpdatedSorted(src: seq<Entry>, tag: Tag, limit: nat)
    requires Sorted(src) && DistinctTags(src) && 0 < limit && forall x :: x in src ==> x.tag != tag
    ensures var f := [Entry(tag, 0)] + Resort(src, limit, 0);
      && Sorted(f) && DistinctTags(f)
      && forall x :: x in f && x != f[0] ==> exists k :: 0 <= k < |src| && x == Aged(src[k], limit)
  {
    ResortSorted(src, limit, 0);
    var r := Resort(src, limit, 0);
    forall x | x in r ensures x.age > 0 && x.tag != tag {
      var k :| 0 <= k < |src| && x == Aged(src[k], limit);
      assert src[k] in src;
    }
    forall k | 0 <= k < |r| ensures r[k].age > 0 && r[k].tag != tag {
      assert r[k] in r;
    }
  }

  lemma UpdatedAccessed(e: seq<Entry>, src: seq<Entry>, r: seq<Entry>, tag: Tag, limit: nat, cap: nat)
    requires DistinctTags(e) && 0 < limit && 0 < cap && Others(e, src, tag, limit, cap)
    requires var f := [Entry(tag, 0)] + Resort(src, limit, 0);
      forall x :: x in r <==> x in f && x.age < cap
    ensures IsAccessed(e, r, tag, limit, cap)
  {
    var f := [Entry(tag, 0)] + Resort(src, limit, 0);
    UpdatedSorted(src, tag, limit);
    assert f[0] == Entry(tag, 0) && f[0] in f;
    forall x | x in r && x != Entry(tag, 0)
      ensures exists y :: y in e && y.tag != tag && x == Aged(y, limit) && x.age < cap
    {
      var k :| 0 <= k < |src| && x == Aged(src[k], limit);
      assert src[k] in src;
    }
    ResortSorted(src, limit, 0);
    forall y | y in e && y.tag != tag && Aged(y, limit).age < cap ensures Aged(y, limit) in r {
      var k :| 0 <= k < |src| && src[k] == y;
      assert Aged(src[k], limit) in Resort(src, limit, 0);
    }
  }

  lemma PrefixSorted(f: seq<Entry>, n: nat)
    requires Sorted(f) && DistinctTags(f) && n <= |f|
    ensures Sorted(f[..n]) && DistinctTags(f[..n])
  {
  }

  lemma UpdatedIsSorted(src: seq<Entry>, r: seq<Entry>, tag: Tag, limit: nat)
    requires Sorted(src) && DistinctTags(src) && 0 < limit && forall x :: x in src ==> x.tag != tag
    requires r <= [Entry(tag, 0)] + Resort(src, limit, 0)
    ensures Sorted(r) && DistinctTags(r)
  {
    UpdatedSorted(src, tag, limit);
    PrefixSorted([Entry(tag, 0)] + Resort(src, limit, 0), |r|);
  }

  /** The vector after an update, without redundant entries, stands for the updated map. */
  lemma UpdatedVector(e: seq<Entry>, src: seq<Entry>, r: seq<Entry>, tag: Tag, limit: nat, cap: nat)
    requires DistinctTags(e) && 0 < limit && 0 < cap && Others(e, src, tag, limit, cap)
    requires var f := [Entry(tag, 0)] + Resort(src, limit, 0);
      r <= f && forall x :: x in r <==> x in f && x.age < cap
    ensures VectorValid(r, cap)
    ensures ToMap(r) == AgedBy(ToMap(e), tag, limit, cap)
  {
    UpdatedIsSorted(src, r, tag, limit);
    assert IsAccessed(e, r, tag, limit, cap) by { UpdatedAccessed(e, src, r, tag, limit, cap); }
    AccessedList(e, r, tag, limit, cap);
  }

  lemma OthersWithoutOldest(e: seq<Entry>, size: nat, tag: Tag, limit: nat, cap: nat, ways: nat)
    requires Sorted(e) && DistinctTags(e) && size <= |e| && cap <= ways
    requires forall k :: size <= k < |e| ==> e[k].age == ways - 1
    requires forall k :: 0 <= k < size ==> e[k].tag != tag
    requires size < |e| ==> limit >= ways
    ensures Others(e, e[..size], tag, limit, cap)
  {
    assert e == e[..size] + e[size..];
  }

  lemma OthersWithout(e: seq<Entry>, pos: nat, tag: Tag, limit: nat, cap: nat)
    requires Sorted(e) && DistinctTags(e) && pos < |e| && e[pos].tag == tag
    ensures Others(e, e[..pos] + e[pos + 1..], tag, limit, cap)
  {
    assert e == e[..pos] + [e[pos]] + e[pos + 1..];
  }

  lemma YoungerEntries(e: seq<Entry>, size: nat, age: nat)
    requires Sorted(e) && size <= |e|
    requires forall x :: x in e ==> x.age <= age
    requires size > 0 ==> e[size - 1].age != age
    ensures forall k :: 0 <= k < size ==> e[k].age < age
  {
    assert forall k :: 0 <= k < size - 1 ==> Less(e[k], e[size - 1]);
    assert size > 0 ==> e[size - 1] in e;
  }

  /** When the accessed block is unlisted, or listed at the greatest age, the others
      are the entries below that age. */
  ghost predicate AgesAll(e: seq<Entry>, tag: Tag, pos: nat, accessedAge: nat, implicit: nat, cap: nat, ways: nat) {
    && 1 <= ways && cap <= ways && pos <= |e|
    && VectorValid(e, implicit) && implicit <= ways
    && (pos < |e| ==> e[pos] == Entry(tag, accessedAge) && accessedAge == ways - 1)
    && (pos == |e| ==> (forall x :: x in e ==> x.tag != tag) && accessedAge == implicit)
  }

  /** Where the accessed block was found, and its bound. */
  ghost predicate Found(e: seq<Entry>, tag: Tag, pos: nat, accessedAge: nat, implicit: nat, cap: nat, ways: nat) {
    && 1 <= ways && cap <= ways && pos <= |e|
    && VectorValid(e, implicit) && implicit <= ways
    && (pos < |e| ==> e[pos] == Entry(tag, accessedAge))
    && (pos == |e| ==> (forall x :: x in e ==> x.tag != tag) && accessedAge == implicit)
  }

  lemma ListedAge(e: seq<Entry>, tag: Tag, pos: nat, accessedAge: nat, implicit: nat, cap: nat, ways: nat)
    requires Found(e, tag, pos, accessedAge, implicit, cap, ways) && pos < |e|
    ensures accessedAge < ways && forall x :: x in e ==> x.age < ways
  {
    assert e[pos] in e;
  }

  lemma AgeAllPlan(e: seq<Entry>, tag: Tag, pos: nat, accessedAge: nat, implicit: nat, cap: nat, ways: nat, size: nat)
    requires AgesAll(e, tag, pos, accessedAge, implicit, cap, ways)
    requires size <= |e| && forall k :: size <= k < |e| ==> e[k].age == ways - 1
    requires size > 0 ==> e[size - 1].age != ways - 1
    ensures Others(e, e[..size], tag, accessedAge + 1, cap)
    ensures forall k :: 0 <= k < size ==> e[k].age < accessedAge
  {
    assert forall k :: 0 <= k < |e| ==> e[k] in e && e[k].age < implicit;
    YoungerEntries(e, size, ways - 1);
    if size < |e| {
      assert e[size] in e;
      assert pos == |e| ==> e[size].age < implicit == accessedAge;
    }
    OthersWithoutOldest(e, size, tag, accessedAge + 1, cap, ways);
  }

  /** The entries from `size` on are the oldest there can be, and `pos` is where `tag` is, if
      anywhere. */
  ghost predicate OldestFrom(e: seq<Entry>, tag: Tag, pos: nat, accessedAge: nat, ways: nat, size: nat) {
    && 1 <= ways && size <= |e| && (size < |e| ==> ways - 1 <= accessedAge)
    && (forall k :: size <= k < |e| ==> e[k].age == ways - 1)
    && (forall k :: 0 <= k < size ==> e[k].age < ways - 1)
    && (forall k :: 0 <= k < |e| ==> (e[k].tag == tag <==> k == pos))
  }

  lemma IsDroppedTag(e: seq<Entry>, tag: Tag, pos: nat, accessedAge: nat, ways: nat, size: nat, t: Tag)
    requires DistinctTags(e) && OldestFrom(e, tag, pos, accessedAge, ways, size)
    ensures t in OtherTags(e, size, pos) <==> t in Dropped(ToMap(e), tag, accessedAge + 1, ways)
  {
    LookUp(e, t);
  }

  lemma DroppedAre(e: seq<Entry>, tag: Tag, pos: nat, accessedAge: nat, ways: nat, size: nat)
    requires DistinctTags(e) && OldestFrom(e, tag, pos, accessedAge, ways, size)
    ensures OtherTags(e, size, pos) == Dropped(ToMap(e), tag, accessedAge + 1, ways)
  {
    forall t ensures t in OtherTags(e, size, pos) <==> t in Dropped(ToMap(e), tag, accessedAge + 1, ways) {
      IsDroppedTag(e, tag, pos, accessedAge, ways, size, t);
    }
  }

  lemma OldestAre(e: seq<Entry>, tag: Tag, pos: nat, accessedAge: nat, implicit: nat, cap: nat, ways: nat, size: nat)
    requires AgesAll(e, tag, pos, accessedAge, implicit, cap, ways)
    requires size <= |e| && forall k :: size <= k < |e| ==> e[k].age == ways - 1
    requires size > 0 ==> e[size - 1].age != ways - 1
    ensures OldestFrom(e, tag, pos, accessedAge, ways, size)
  {
    forall k | 0 <= k < |e| ensures e[k].age < implicit && (e[k].tag == tag <==> k == pos) {
      assert e[k] in e;
    }
    YoungerEntries(e, size, ways - 1);
    assert size < |e| ==> e[size].age == ways - 1;
  }

  /** The entries found are those that leave the cache. */
  lemma DroppedTags(e: seq<Entry>, tag: Tag, pos: nat, accessedAge: nat, implicit: nat, cap: nat, ways: nat, size: nat)
    requires AgesAll(e, tag, pos, accessedAge, implicit, cap, ways)
    requires size <= |e| && forall k :: size <= k < |e| ==> e[k].age == ways - 1
    requires size > 0 ==> e[size - 1].age != ways - 1
    ensures Others(e, e[..size], tag, accessedAge + 1, cap)
    ensures forall k :: 0 <= k < size ==> e[k].age < accessedAge
    ensures OtherTags(e, size, pos) == Dropped(ToMap(e), tag, accessedAge + 1, ways)
  {
    AgeAllPlan(e, tag, pos, accessedAge, implicit, cap, ways, size);
    OldestAre(e, tag, pos, accessedAge, implicit, cap, ways, size);
    DroppedAre(e, tag, pos, accessedAge, ways, size);
  }

  /** std::vector::resize to one more than `n`. */
  function Grow(e: seq<Entry>, n: nat): (r: seq<Entry>)
    requires n <= |e|
    ensures |r| == n + 1 && r[..n] == e[..n]
  {
    if n < |e| then e[..n + 1] else e + [Entry(0, 0)]
  }

  /** Ages the other blocks of an update that leaves no block of the accessed one's
      age in the cache: what had the greatest age is dropped, all the rest shifts. */
  method AgeAll(e: seq<Entry>, pos: nat, accessedAge: nat, ways: nat, wantReport: bool)
    returns (r: seq<Entry>, evicted: set<Tag>, ghost size: nat)
    requires 1 <= ways && Sorted(e) && DistinctTags(e)
    requires forall x :: x in e ==> x.age < ways && x.age <= accessedAge
    ensures size <= |e| && forall k :: size <= k < |e| ==> e[k].age == ways - 1
    ensures size > 0 ==> e[size - 1].age != ways - 1
    ensures |r| == size + 1 && r[1..] == Resort(e[..size], accessedAge + 1, 0)
    ensures evicted == if wantReport then OtherTags(e, size, pos) else {}
  {
    var kept;
    kept, evicted := DropOldest(e, pos, ways, wantReport);
    size := kept;
    assert forall k :: 0 <= k < |e| ==> e[k] in e;
    r := ShiftAll(e, kept, accessedAge + 1);
  }

  method ShiftAll(e: seq<Entry>, size: nat, limit: nat) returns (r: seq<Entry>)
    requires Sorted(e) && DistinctTags(e) && size <= |e|
    requires forall k :: 0 <= k < size ==> e[k].age < limit
    ensures |r| == size + 1 && r[1..] == Resort(e[..size], limit, 0)
  {
    ResortTail(e[..size], limit, size);
    r := ShiftYounger(Grow(e, size), size, e[..size], limit);
  }

  /** The other case: the age class of the accessed block merges into the next one,
      and only what was younger shifts. */
  method AgeUpTo(e: seq<Entry>, pos: nat, ghost src: seq<Entry>) returns (r: seq<Entry>)
    requires Sorted(e) && pos < |e| && src == e[..pos] + e[pos + 1..]
    requires Sorted(src) && DistinctTags(src)
    ensures |r| == |src| + 1 && r[1..] == Resort(src, e[pos].age + 1, 0)
  {
    var lower, upper;
    r, lower, upper := AgeClass(e, pos);
    r := MergeClass(r, lower, upper, src, e[pos].age + 1);
    r := ShiftYounger(r, lower, src, e[pos].age + 1);
  }

  method PutInFront(aged: seq<Entry>, tag: Tag, cap: nat, ghost e: seq<Entry>, ghost src: seq<Entry>, ghost limit: nat)
    returns (r: seq<Entry>)
    requires DistinctTags(e) && 0 < limit && 0 < cap && Others(e, src, tag, limit, cap)
    requires |aged| > 0 && aged[1..] == Resort(src, limit, 0)
    ensures VectorValid(r, cap) && ToMap(r) == AgedBy(ToMap(e), tag, limit, cap)
  {
    r := aged[0 := Entry(tag, 0)];
    assert r == [Entry(tag, 0)] + Resort(src, limit, 0);
    UpdatedSorted(src, tag, limit);
    r := RemoveRedundantTags(r, cap);
    UpdatedVector(e, src, r, tag, limit, cap);
  }

  /** The vector of an update: the other blocks aged, the accessed one in front, what
      became redundant removed. */
  method UpdateVector(e: seq<Entry>, tag: Tag, pos: nat, accessedAge: nat, ghost implicit: nat, cap: nat, ways: nat,
                      wantReport: bool)
    returns (r: seq<Entry>, evicted: set<Tag>)
    requires 1 <= ways && implicit <= ways && 0 < cap <= ways && VectorValid(e, implicit) && pos <= |e|
    requires pos < |e| ==> e[pos] == Entry(tag, accessedAge)
    requires pos == |e| ==> (forall x :: x in e ==> x.tag != tag) && accessedAge == implicit
    ensures VectorValid(r, cap) && ToMap(r) == AgedBy(ToMap(e), tag, accessedAge + 1, cap)
    ensures evicted == if wantReport && cap == ways then Dropped(ToMap(e), tag, accessedAge + 1, ways) else {}
  {
    ghost var src;
    r, evicted, src := AgeOthers(e, tag, pos, accessedAge, implicit, cap, ways, wantReport && cap == ways);
    r := PutInFront(r, tag, cap, e, src, accessedAge + 1);
  }

  method AgeOthers(e: seq<Entry>, tag: Tag, pos: nat, accessedAge: nat, ghost implicit: nat, ghost cap: nat,
                   ways: nat, wantReport: bool)
    returns (r: seq<Entry>, evicted: set<Tag>, ghost src: seq<Entry>)
    requires 0 < cap && Found(e, tag, pos, accessedAge, implicit, cap, ways)
    ensures |r| == |src| + 1 && r[1..] == Resort(src, accessedAge + 1, 0)
    ensures Others(e, src, tag, accessedAge + 1, cap)
    ensures evicted == if wantReport then Dropped(ToMap(e), tag, accessedAge + 1, ways) else {}
  {
    if pos == |e| || accessedAge == ways - 1 {
      assert AgesAll(e, tag, pos, accessedAge, implicit, cap, ways);
      r, evicted, src := AgeOthersAll(e, tag, pos, accessedAge, implicit, cap, ways, wantReport);
    } else {
      evicted := {};
      ListedAge(e, tag, pos, accessedAge, implicit, cap, ways);
      NoneDropped(e, tag, accessedAge, ways);
      r, src := AgeOthersUpTo(e, tag, pos, cap);
    }
  }

  method AgeOthersUpTo(e: seq<Entry>, tag: Tag, pos: nat, ghost cap: nat) returns (r: seq<Entry>, ghost src: seq<Entry>)
    requires Sorted(e) && DistinctTags(e) && pos < |e| && e[pos].tag == tag
    ensures |r| == |src| + 1 && r[1..] == Resort(src, e[pos].age + 1, 0)
    ensures Others(e, src, tag, e[pos].age + 1, cap)
  {
    OthersWithout(e, pos, tag, e[pos].age + 1, cap);
    src := e[..pos] + e[pos + 1..];
    r := AgeUpTo(e, pos, src);
  }

  method AgeOthersAll(e: seq<Entry>, tag: Tag, pos: nat, accessedAge: nat, ghost implicit: nat, ghost cap: nat,
                      ways: nat, wantReport: bool)
    returns (r: seq<Entry>, evicted: set<Tag>, ghost src: seq<Entry>)
    requires AgesAll(e, tag, pos, accessedAge, implicit, cap, ways)
    ensures |r| == |src| + 1 && r[1..] == Resort(src, accessedAge + 1, 0)
    ensures Others(e, src, tag, accessedAge + 1, cap)
    ensures evicted == if wantReport then Dropped(ToMap(e), tag, accessedAge + 1, ways) else {}
  {
    AgesAllBound(e, tag, pos, accessedAge, implicit, cap, ways);
    ghost var size;
    r, evicted, size := AgeAll(e, pos, accessedAge, ways, wantReport);
    DroppedTags(e, tag, pos, accessedAge, implicit, cap, ways, size);
    src := e[..size];
  }

  lemma AgesAllBound(e: seq<Entry>, tag: Tag, pos: nat, accessedAge: nat, implicit: nat, cap: nat, ways: nat)
    requires AgesAll(e, tag, pos, accessedAge, implicit, cap, ways)
    ensures forall x :: x in e ==> x.age < ways && x.age <= accessedAge
  {
  }

  lemma NoneDropped(e: seq<Entry>, tag: Tag, accessedAge: nat, ways: nat)
    requires DistinctTags(e) && accessedAge + 1 < ways && forall x :: x in e ==> x.age < ways
    ensures Dropped(ToMap(e), tag, accessedAge + 1, ways) == {}
  {
    forall t | t in ToMap(e) ensures t in AgedBy(ToMap(e), tag, accessedAge + 1, ways) {
      assert Entry(t, ToMap(e)[t]) in e;
    }
  }

  lemma UpdatedBounds(m: May, r: May, tag: Tag, accessedAge: nat, ways: nat)
    requires MayValid(m, ways) && accessedAge == MinAge(m, tag)
    requires r.implicit == if m.implicit <= accessedAge && m.implicit < ways then m.implicit + 1 else m.implicit
    requires r.explicit == AgedBy(m.explicit, tag, accessedAge + 1, r.implicit)
    ensures r == MayUpdate(m, tag, ways)
    ensures r.implicit == ways ==> Dropped(m.explicit, tag, accessedAge + 1, ways) == m.explicit.Keys - r.explicit.Keys
  {
  }

  // ---- imprecise accesses ---------------------------------------------------

  function Block(low: Tag, high: Tag): (r: seq<Entry>)
    decreases high + 1 - low
  {
    if low > high then [] else [Entry(low, 0)] + Block(low + 1, high)
  }

  lemma {:induction false} BlockMembers(low: Tag, high: Tag)
    ensures forall x :: x in Block(low, high) <==> x.age == 0 && low <= x.tag <= high
    ensures Sorted(Block(low, high)) && DistinctTags(Block(low, high))
    decreases high + 1 - low
  {
    if low <= high {
      BlockMembers(low + 1, high);
      var r := Block(low + 1, high);
      forall k | 0 <= k < |r| ensures r[k].age == 0 && r[k].tag > low {
        assert r[k] in r;
      }
    }
  }

  predicate InRange(x: Entry, low: Tag, high: Tag) {
    low <= x.tag <= high
  }

  lemma Reassociate(a: seq<Entry>, b: seq<Entry>, c: seq<Entry>)
    ensures a + (b + c) == (a + b) + c
  {
  }

  method PushBlock(e: seq<Entry>, low: Tag, high: Tag) returns (r: seq<Entry>)
    requires low <= high
    ensures r == e + Block(low, high)
  {
    r := e;
    var t := low;
    while t <= high
      invariant low <= t <= high + 1
      invariant r + Block(t, high) == e + Block(low, high)
      decreases high + 1 - t
    {
      Reassociate(r, [Entry(t, 0)], Block(t + 1, high));
      r := r + [Entry(t, 0)];
      t := t + 1;
    }
    assert Block(t, high) == [];
  }

  /** What the copied part of the vector is while tags `low..high` are set to age 0:
      before the insertion the entries that stay in front, afterwards the block and
      all entries outside of it. */
  ghost predicate Rejuvenated(e: seq<Entry>, k: nat, r: seq<Entry>, inserted: bool, low: Tag, high: Tag) {
    && k <= |e| && Sorted(r) && DistinctTags(r)
    && (forall x :: x in r ==> if InRange(x, low, high) then x.age == 0 && inserted else x in e[..k])
    && (forall x :: x in e[..k] && !InRange(x, low, high) ==> x in r)
    && (inserted ==> forall x :: x in Block(low, high) ==> x in r)
    && (!inserted ==> forall x :: x in r ==> x.age == 0 && x.tag < low)
    && (!inserted ==> forall x :: x in e[..k] ==> !InRange(x, low, high))
  }

  lemma Append(e: seq<Entry>, f: seq<Entry>)
    requires Sorted(e) && DistinctTags(e) && Sorted(f) && DistinctTags(f)
    requires forall x, y :: x in e && y in f ==> Less(x, y) && x.tag != y.tag
    ensures Sorted(e + f) && DistinctTags(e + f)
  {
    forall i, j | 0 <= i < j < |e + f| ensures Less((e + f)[i], (e + f)[j]) && (e + f)[i].tag != (e + f)[j].tag {
      if i < |e| <= j { assert e[i] in e && f[j - |e|] in f; }
    }
  }

  lemma InsertBlock(e: seq<Entry>, k: nat, r: seq<Entry>, low: Tag, high: Tag)
    requires low <= high && Rejuvenated(e, k, r, false, low, high)
    ensures Rejuvenated(e, k, r + Block(low, high), true, low, high)
  {
    BlockMembers(low, high);
    Append(r, Block(low, high));
  }

  lemma CopyEntry(e: seq<Entry>, k: nat, r: seq<Entry>, inserted: bool, low: Tag, high: Tag)
    requires low <= high && Sorted(e) && DistinctTags(e) && k < |e| && Rejuvenated(e, k, r, inserted, low, high)
    requires inserted || (e[k].age == 0 && e[k].tag < low)
    requires inserted ==> e[k].age > 0 || e[k].tag >= low
    ensures Rejuvenated(e, k + 1, if InRange(e[k], low, high) then r else r + [e[k]], inserted, low, high)
  {
    var z := e[k];
    assert e[..k + 1] == e[..k] + [z];
    if !InRange(z, low, high) {
      forall x | x in r ensures Less(x, z) && x.tag != z.tag {
        if !InRange(x, low, high) {
          var i :| 0 <= i < k && e[i] == x;
          assert Less(e[i], e[k]) && e[i].tag != e[k].tag;
        }
      }
      Append(r, [z]);
    }
  }

  /** Sets the tags `low..high` to age 0, by copying the vector around them. */
  method RejuvenateRange(e: seq<Entry>, low: Tag, high: Tag, ghost implicit: nat) returns (r: seq<Entry>)
    requires low <= high && 0 < implicit && VectorValid(e, implicit)
    ensures VectorValid(r, implicit)
    ensures ToMap(r) == ToMap(e) + (map b | b in TagRange(low, high) :: 0)
  {
    r := [];
    var inserted := false;
    var k := 0;
    while k < |e|
      invariant 0 <= k <= |e|
      invariant Rejuvenated(e, k, r, inserted, low, high)
      invariant inserted ==> k > 0 && !Less(e[k - 1], Entry(low, 0))
    {
      r, inserted := CopyOne(e, k, r, inserted, low, high);
      k := k + 1;
    }
    if !inserted {
      InsertBlock(e, k, r, low, high);
      r := PushBlock(r, low, high);
    }
    RejuvenatedMap(e, r, low, high, implicit);
  }

  method CopyOne(e: seq<Entry>, k: nat, copied: seq<Entry>, wasInserted: bool, low: Tag, high: Tag)
    returns (r: seq<Entry>, inserted: bool)
    requires low <= high && k < |e| && Sorted(e) && DistinctTags(e)
    requires Rejuvenated(e, k, copied, wasInserted, low, high)
    requires wasInserted ==> k > 0 && !Less(e[k - 1], Entry(low, 0))
    ensures Rejuvenated(e, k + 1, r, inserted, low, high)
    ensures inserted ==> !Less(e[k], Entry(low, 0))
  {
    r, inserted := copied, wasInserted;
    var info := e[k];
    assert inserted ==> Less(e[k - 1], e[k]);
    if !inserted && (info.age > 0 || info.tag >= low) {
      InsertBlock(e, k, r, low, high);
      r := PushBlock(r, low, high);
      inserted := true;
    }
    CopyEntry(e, k, r, inserted, low, high);
    if info.tag < low || info.tag > high {
      r := r + [info];
    }
  }

  lemma RejuvenatedAt(e: seq<Entry>, r: seq<Entry>, low: Tag, high: Tag, t: Tag)
    requires low <= high && DistinctTags(e) && Rejuvenated(e, |e|, r, true, low, high)
    ensures var n := ToMap(r);
      if low <= t <= high then t in n && n[t] == 0
      else (t in n <==> t in ToMap(e)) && (t in n ==> n[t] == ToMap(e)[t])
  {
    assert e[..|e|] == e;
    BlockMembers(low, high);
    if low <= t <= high {
      assert Entry(t, 0) in Block(low, high);
      assert Entry(t, 0) in r;
    } else {
      if t in ToMap(r) { assert Entry(t, ToMap(r)[t]) in r; }
      if t in ToMap(e) { assert Entry(t, ToMap(e)[t]) in e; }
    }
  }

  lemma RejuvenatedMap(e: seq<Entry>, r: seq<Entry>, low: Tag, high: Tag, implicit: nat)
    requires low <= high && 0 < implicit && VectorValid(e, implicit)
    requires Rejuvenated(e, |e|, r, true, low, high)
    ensures VectorValid(r, implicit)
    ensures ToMap(r) == ToMap(e) + (map b | b in TagRange(low, high) :: 0)
  {
    assert e[..|e|] == e;
    var n, m := ToMap(r), ToMap(e) + (map b | b in TagRange(low, high) :: 0);
    forall t ensures (t in n <==> t in m) && (t in n ==> n[t] == m[t]) {
      RejuvenatedAt(e, r, low, high, t);
    }
  }

  /** Whether `tag` is among the first `first` entries, searched backwards. */
  method SearchBack(e: seq<Entry>, first: nat, tag: Tag) returns (found: bool)
    requires first <= |e|
    ensures found <==> HasTag(e[..first], tag)
  {
    var i := first;
    while i > 0 && e[i - 1].tag != tag
      invariant 0 <= i <= first
      invariant forall k :: i <= k < first ==> e[k].tag != tag
    {
      i := i - 1;
    }
    found := i > 0;
    assert found ==> e[..first][i - 1].tag == tag;
  }

  /** The two fingers stand where the entries behind them are less than those ahead. */
  ghost predicate Fingers(x: seq<Entry>, y: seq<Entry>, i: nat, j: nat) {
    && i <= |x| && j <= |y|
    && (i < |x| && j > 0 ==> Less(y[j - 1], x[i]))
    && (j < |y| && i > 0 ==> !Less(y[j], x[i - 1]))
  }

  ghost predicate IsLesser(x: seq<Entry>, y: seq<Entry>, i: nat, j: nat)
    requires i <= |x| && j <= |y| && (i < |x| || j < |y|)
  {
    i < |x| && (j == |y| || !Less(y[j], x[i]))
  }

  lemma StepLeft(x: seq<Entry>, y: seq<Entry>, i: nat, j: nat)
    requires Sorted(x) && Fingers(x, y, i, j) && (i < |x| || j < |y|) && IsLesser(x, y, i, j)
    ensures Fingers(x, y, i + 1, j)
    ensures MayMerge(x[..i + 1], y[..j])
         == MayMerge(x[..i], y[..j]) + (if HasTag(y[..j], x[i].tag) then [] else [x[i]])
  {
    assert x[..i + 1][..i] == x[..i];
    assert i + 1 < |x| ==> Less(x[i], x[i + 1]);
  }

  lemma StepRight(x: seq<Entry>, y: seq<Entry>, i: nat, j: nat)
    requires Sorted(y) && Fingers(x, y, i, j) && (i < |x| || j < |y|) && !IsLesser(x, y, i, j)
    ensures j < |y| && Fingers(x, y, i, j + 1)
    ensures MayMerge(x[..i], y[..j + 1])
         == MayMerge(x[..i], y[..j]) + (if HasTag(x[..i], y[j].tag) then [] else [y[j]])
  {
    assert y[..j + 1][..j] == y[..j];
    assert j + 1 < |y| ==> Less(y[j], y[j + 1]);
  }

  /** Takes the lesser of the two entries ahead and searches the other vector for its
      tag, behind the finger. */
  method SelectLesser(x: seq<Entry>, y: seq<Entry>, i: nat, j: nat) returns (i': nat, j': nat, joined: Entry,
                      found: bool)
    requires Sorted(x) && Sorted(y) && Fingers(x, y, i, j) && (i < |x| || j < |y|)
    ensures Fingers(x, y, i', j') && i <= i' && j <= j' && i' + j' == i + j + 1
    ensures MayMerge(x[..i'], y[..j']) == MayMerge(x[..i], y[..j]) + (if found then [] else [joined])
  {
    var xElemIsLesser := i < |x| &&
      (j == |y| || x[i].age < y[j].age || (x[i].age == y[j].age && x[i].tag <= y[j].tag));
    if xElemIsLesser {
      StepLeft(x, y, i, j);
      joined := x[i];
      found := SearchBack(y, j, joined.tag);
      i', j' := i + 1, j;
    } else {
      StepRight(x, y, i, j);
      joined := y[j];
      found := SearchBack(x, i, joined.tag);
      i', j' := i, j + 1;
    }
  }

  /** Merges two vectors, keeping the first occurrence of every tag. */
  method MergeVectors(x: seq<Entry>, y: seq<Entry>) returns (res: seq<Entry>)
    requires Sorted(x) && Sorted(y)
    ensures res == MayMerge(x, y)
  {
    res := [];
    var i, j := 0, 0;
    while i < |x| || j < |y|
      invariant 0 <= i && 0 <= j && Fingers(x, y, i, j)
      invariant res == MayMerge(x[..i], y[..j])
      decreases |x| + |y| - i - j
    {
      var joined, found;
      i, j, joined, found := SelectLesser(x, y, i, j);
      res := res + if found then [] else [joined];
    }
    assert x[..i] == x && y[..j] == y;
  }

  lemma UnionAt(x: May, y: May, r: seq<Entry>, e: seq<Entry>, t: Tag)
    requires DistinctTags(r) && DistinctTags(e) && ToMap(r) == Union(x.explicit, y.explicit)
    requires forall z :: z in e <==> z in r && z.age < Min(x.implicit, y.implicit)
    ensures t in ToMap(e) <==> t in ToMap(r) && ToMap(r)[t] < Min(x.implicit, y.implicit)
    ensures t in ToMap(e) ==> ToMap(e)[t] == ToMap(r)[t]
  {
    if t in ToMap(e) {
      assert Entry(t, ToMap(e)[t]) in e;
      assert Entry(t, ToMap(e)[t]) in r;
    }
    if t in ToMap(r) && ToMap(r)[t] < Min(x.implicit, y.implicit) {
      assert Entry(t, ToMap(r)[t]) in r;
      assert Entry(t, ToMap(r)[t]) in e;
    }
  }

  lemma JoinAt(x: May, y: May, ways: nat, t: Tag)
    requires MayValid(x, ways) && MayValid(y, ways)
    ensures var u := Union(x.explicit, y.explicit); var m := MayJoin(x, y).explicit;
      && (t in m <==> t in u && u[t] < Min(x.implicit, y.implicit))
      && (t in m ==> m[t] == u[t])
  {
  }

  /** The union of two maps, cut at the smaller implicit age, is the join. */
  lemma UnionIsJoin(x: May, y: May, ways: nat, r: seq<Entry>, e: seq<Entry>)
    requires MayValid(x, ways) && MayValid(y, ways)
    requires DistinctTags(r) && DistinctTags(e) && ToMap(r) == Union(x.explicit, y.explicit)
    requires forall z :: z in e <==> z in r && z.age < Min(x.implicit, y.implicit)
    ensures May(ToMap(e), Min(x.implicit, y.implicit)) == MayJoin(x, y)
  {
    forall t
      ensures t in ToMap(e) <==> t in MayJoin(x, y).explicit
      ensures t in ToMap(e) ==> ToMap(e)[t] == MayJoin(x, y).explicit[t]
    {
      UnionAt(x, y, r, e, t);
      JoinAt(x, y, ways, t);
    }
  }

  class LruMinAgeAbstractCache {
    const ways: nat
    var explicitTags: seq<Entry>
    var ageOfImplicitTags: nat

    ghost predicate Valid()
      reads this
    {
      && 1 <= ways < 256
      && ageOfImplicitTags <= ways
      && VectorValid(explicitTags, ageOfImplicitTags)
    }

    ghost function Bounds(): (m: May)
      requires Valid()
      reads this
      ensures MayValid(m, ways)
    {
      assert forall t :: t in ToMap(explicitTags) ==> Entry(t, ToMap(explicitTags)[t]) in explicitTags;
      May(ToMap(explicitTags), ageOfImplicitTags)
    }

    constructor (ways: nat, assumeAnEmptyCache: bool)
      requires 1 <= ways < 256
      ensures Valid() && this.ways == ways
      ensures Bounds() == MayInit(assumeAnEmptyCache, ways)
    {
      this.ways := ways;
      explicitTags := [];
      ageOfImplicitTags := if assumeAnEmptyCache then ways else 0;
    }

    constructor Copy(y: LruMinAgeAbstractCache)
      requires y.Valid()
      ensures Valid() && ways == y.ways
      ensures explicitTags == y.explicitTags && ageOfImplicitTags == y.ageOfImplicitTags
      ensures Bounds() == y.Bounds()
    {
      ways, explicitTags, ageOfImplicitTags := y.ways, y.explicitTags, y.ageOfImplicitTags;
    }

    method Find(tag: Tag) returns (pos: nat)
      requires Valid()
      ensures pos <= |explicitTags|
      ensures pos < |explicitTags| ==> explicitTags[pos].tag == tag
      ensures pos < |explicitTags| <==> tag in Bounds().explicit
      ensures pos < |explicitTags| ==> Bounds().explicit[tag] == explicitTags[pos].age
      ensures pos == |explicitTags| ==> forall x :: x in explicitTags ==> x.tag != tag
    {
      pos := 0;
      while pos < |explicitTags| && explicitTags[pos].tag != tag
        invariant pos <= |explicitTags|
        invariant forall k :: 0 <= k < pos ==> explicitTags[k].tag != tag
      {
        pos := pos + 1;
      }
      LookUp(explicitTags, tag);
    }

    /** An access to `tag`. */
    method Update(tag: Tag, wantReport: bool) returns (report: Option<MayReport>)
      requires Valid()
      modifies this
      ensures Valid()
      ensures Bounds() == MayUpdate(old(Bounds()), tag, ways)
      ensures report == if wantReport then Some(UpdateReport(old(Bounds()), Bounds(), ways)) else None
    {
      var e := explicitTags;
      ghost var m, implicit := Bounds(), ageOfImplicitTags;
      var pos := Find(tag);
      var found := pos < |explicitTags|;
      var accessedAge := if found then explicitTags[pos].age else ageOfImplicitTags;
      assert found ==> explicitTags[pos] in explicitTags;
      var justEvicted := false;
      if ageOfImplicitTags <= accessedAge && ageOfImplicitTags < ways {
        ageOfImplicitTags := ageOfImplicitTags + 1;
        justEvicted := ageOfImplicitTags == ways;
      }
      var evicted;
      explicitTags, evicted := UpdateVector(e, tag, pos, accessedAge, implicit, ageOfImplicitTags, ways, wantReport);
      UpdatedBounds(m, Bounds(), tag, accessedAge, ways);
      report := if wantReport then Some(MayReport(evicted, justEvicted, false)) else None;
    }

    /** An access to some block with a tag of `lowTag..highTag`, or to another set. */
    method PotentialUpdate(lowTag: Tag, highTag: Tag, wantReport: bool) returns (report: Option<MayReport>)
      requires Valid() && lowTag <= highTag
      modifies this
      ensures Valid()
      ensures Bounds() == MayPotential(old(Bounds()), lowTag, highTag)
      ensures var givenUp := old(ageOfImplicitTags) != 0 && highTag - lowTag + 1 > MAX_WORTHWHILE_TAGS;
        report == if wantReport then Some(MayReport({}, false, givenUp)) else None
    {
      report := if wantReport then Some(MayReport({}, false, false)) else None;
      if ageOfImplicitTags == 0 {
        return;
      }
      if highTag - lowTag + 1 > MAX_WORTHWHILE_TAGS {
        ageOfImplicitTags := 0;
        explicitTags := [];
        EmptyMap();
        report := if wantReport then Some(MayReport({}, false, true)) else None;
        return;
      }
      explicitTags := RejuvenateRange(explicitTags, lowTag, highTag, ageOfImplicitTags);
    }

    method Classify(tag: Tag, cnn: nat) returns (r: Classification)
      requires Valid()
      ensures r == MayClassify(Bounds(), tag, cnn, ways)
    {
      if ageOfImplicitTags + cnn < ways {
        return Unknown;
      }
      var i := Find(tag);
      if i < |explicitTags| {
        if explicitTags[i].age + cnn >= ways {
          return Miss;
        }
        return Unknown;
      }
      return Miss;
    }

    method GetMinAge(tag: Tag) returns (r: nat)
      requires Valid()
      ensures r == MinAge(Bounds(), tag)
    {
      var i := Find(tag);
      r := if i < |explicitTags| then explicitTags[i].age else ageOfImplicitTags;
    }

    method Join(y: LruMinAgeAbstractCache)
      requires Valid() && y.Valid() && ways == y.ways
      modifies this
      ensures Valid()
      ensures Bounds() == MayJoin(old(Bounds()), old(y.Bounds()))
    {
      ghost var a, b, e := Bounds(), y.Bounds(), explicitTags;
      var f := y.explicitTags;
      ageOfImplicitTags := Min(ageOfImplicitTags, y.ageOfImplicitTags);
      var res := MergeVectors(explicitTags, f);
      MayMergeIsUnion(e, f);
      explicitTags := RemoveRedundantTags(res, ageOfImplicitTags);
      assert explicitTags == res[..|explicitTags|];
      UnionIsJoin(a, b, ways, res, explicitTags);
    }

    /** Compares the vectors, which is the same as comparing the bounds. */
    method Equals(y: LruMinAgeAbstractCache) returns (r: bool)
      requires Valid() && y.Valid() && ways == y.ways
      ensures r <==> Bounds() == y.Bounds()
    {
      SortedIsCanonical(explicitTags, y.explicitTags);
      r := ageOfImplicitTags == y.ageOfImplicitTags && explicitTags == y.explicitTags;
    }

    /** Decides the order of the bounds, by joining a copy. */
    method LessEqual(y: LruMinAgeAbstractCache) returns (r: bool)
      requires Valid() && y.Valid() && ways == y.ways
      ensures r <==> MayLeq(old(Bounds()), old(y.Bounds()))
    {
      JoinDecidesOrder(map[], map[], Bounds(), y.Bounds(), ways);
      var copy := new LruMinAgeAbstractCache.Copy(this);
      copy.Join(y);
      r := copy.Equals(y);
    }
  }

  lemma EmptyMap()
    ensures ToMap([]) == map[]
  {
  }

  /** What an update reports: the listed blocks that can no longer be cached, once
      unlisted blocks cannot be either, and whether these just became so. */
  function UpdateReport(before: May, after: May, ways: nat): MayReport {
    MayReport(if after.implicit == ways then before.explicit.Keys - after.explicit.Keys else {},
              before.implicit < ways && after.implicit == ways, false)
  }

  /** Block by block: reported evicted is what was listed and has now left the cache, and the
      unlisted blocks if they just did. */
  lemma UpdateReportIs(m: May, t: Tag, ways: nat, b: Tag)
    requires 1 <= ways && MayValid(m, ways)
    ensures var r, n := UpdateReport(m, MayUpdate(m, t, ways), ways), MayUpdate(m, t, ways);
      && (b in r.evictedElements <==> b in m.explicit && MinAge(n, b) == ways)
      && (r.justEvictedUnknowns <==> m.implicit + 1 == ways && t !in m.explicit)
  {
    MayUpdatePointwise(m, t, ways, b);
  }
}
