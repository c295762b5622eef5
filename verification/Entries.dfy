/** Age-sorted lists of blocks, the representation both set analyses edit in place:
    ascending by age, blocks of equal age ascending by tag. The lists are canonical
    (SortedIsCanonical), so comparing them compares the maps they stand for. */
module Entries {
  import opened Lru
  import opened AgeMaps

  datatype Entry = Entry(tag: Tag, age: nat)

  predicate Less(x: Entry, y: Entry) {
    x.age < y.age || (x.age == y.age && x.tag < y.tag)
  }

  ghost predicate Sorted(e: seq<Entry>) {
    forall i, j :: 0 <= i < j < |e| ==> Less(e[i], e[j])
  }

  ghost predicate DistinctTags(e: seq<Entry>) {
    forall i, j :: 0 <= i < j < |e| ==> e[i].tag != e[j].tag
  }

  ghost function TagsOf(e: seq<Entry>): set<Tag> {
    set x | x in e :: x.tag
  }

  ghost function AgeOf(e: seq<Entry>, t: Tag): nat
    requires t in TagsOf(e)
  {
    var x :| x in e && x.tag == t;
    x.age
  }

  /** The bounds a list stands for. */
  ghost function ToMap(e: seq<Entry>): (m: map<Tag, nat>)
    requires DistinctTags(e)
    ensures forall x: Entry :: x in e <==> x.tag in m && m[x.tag] == x.age
  {
    map t | t in TagsOf(e) :: AgeOf(e, t)
  }

  lemma LookUp(e: seq<Entry>, t: Tag)
    requires DistinctTags(e)
    ensures forall i :: 0 <= i < |e| && e[i].tag == t ==> t in ToMap(e) && ToMap(e)[t] == e[i].age
    ensures t in ToMap(e) ==> exists i :: 0 <= i < |e| && e[i].tag == t
  {
    forall i | 0 <= i < |e| && e[i].tag == t
      ensures t in ToMap(e) && ToMap(e)[t] == e[i].age
    {
      assert e[i] in e;
    }
    if t in ToMap(e) {
      assert Entry(t, ToMap(e)[t]) in e;
    }
  }

  lemma ToMapAppend(f: seq<Entry>, x: Entry)
    requires DistinctTags(f + [x])
    ensures DistinctTags(f) && x.tag !in ToMap(f)
    ensures ToMap(f + [x]) == ToMap(f)[x.tag := x.age]
  {
    var e := f + [x];
    forall i, j | 0 <= i < j < |f| ensures f[i].tag != f[j].tag {
      assert e[i].tag != e[j].tag;
    }
    forall i | 0 <= i < |f| ensures f[i].tag != x.tag {
      assert e[i].tag != e[|f|].tag;
    }
    LookUp(f, x.tag);
    forall t ensures t in ToMap(e) <==> t in ToMap(f)[x.tag := x.age] {
      LookUp(e, t);
      LookUp(f, t);
      if t in ToMap(f) { assert Entry(t, ToMap(f)[t]) in e; }
    }
    forall t | t in ToMap(f) ensures ToMap(e)[t] == ToMap(f)[t] {
      assert Entry(t, ToMap(f)[t]) in e;
    }
    assert x in e;
  }

  lemma AppendIsNew(f: seq<Entry>, x: Entry)
    requires DistinctTags(f + [x])
    ensures DistinctTags(f) && |ToMap(f + [x])| == |ToMap(f)| + 1
  {
    ToMapAppend(f, x);
    assert ToMap(f + [x]).Keys == ToMap(f).Keys + {x.tag};
  }

  lemma {:induction false} ToMapSize(e: seq<Entry>)
    requires DistinctTags(e)
    ensures |ToMap(e)| == |e|
  {
    if e != [] {
      var f, x := e[..|e| - 1], e[|e| - 1];
      assert e == f + [x];
      AppendIsNew(f, x);
      ToMapSize(f);
    }
  }

  lemma HeadIn(e: seq<Entry>)
    ensures e != [] ==> e[0] in e
  {
  }

  /** Two sorted lists with the same entries are the same list. */
  lemma {:induction false} SameMembersSame(e: seq<Entry>, f: seq<Entry>)
    requires Sorted(e) && Sorted(f)
    requires forall x :: x in e <==> x in f
    ensures e == f
  {
    if e == [] || f == [] {
      assert forall x :: x in e <==> x in f;
      HeadIn(e);
      HeadIn(f);
    } else {
      assert e[0] in f && f[0] in e;
      assert e[0] == f[0];
      forall x ensures x in e[1..] <==> x in f[1..] {
        assert x in e <==> x == e[0] || x in e[1..];
        assert x in f <==> x == f[0] || x in f[1..];
        assert e[0] !in e[1..] && f[0] !in f[1..];
      }
      SameMembersSame(e[1..], f[1..]);
    }
  }

  lemma SortedIsCanonical(e: seq<Entry>, f: seq<Entry>)
    requires Sorted(e) && Sorted(f) && DistinctTags(e) && DistinctTags(f)
    ensures ToMap(e) == ToMap(f) <==> e == f
  {
    if ToMap(e) == ToMap(f) {
      SameMembersSame(e, f);
    }
  }

  // ---- re-sorting after ageing --------------------------------------------

  /** Entries younger than `limit` age by one; the oldest of them thereby join the
      entries of age `limit`, among which they must be sorted in by tag. */
  function Aged(x: Entry, limit: nat): Entry {
    if x.age < limit then Entry(x.tag, x.age + 1) else x
  }

  function Insert(y: Entry, d: seq<Entry>): (r: seq<Entry>) {
    if d == [] || Less(y, d[0]) then [y] + d else [d[0]] + Insert(y, d[1..])
  }

  /** The entries src[i..], aged and sorted. */
  function Resort(src: seq<Entry>, limit: nat, i: nat): (r: seq<Entry>)
    requires i <= |src|
    decreases |src| - i
  {
    if i == |src| then [] else Insert(Aged(src[i], limit), Resort(src, limit, i + 1))
  }

  lemma {:induction false} InsertAt(y: Entry, d: seq<Entry>, k: nat)
    requires k <= |d|
    requires forall j :: 0 <= j < k ==> !Less(y, d[j])
    requires k < |d| ==> Less(y, d[k])
    ensures Insert(y, d) == d[..k] + [y] + d[k..]
  {
    if k > 0 {
      InsertAt(y, d[1..], k - 1);
      assert [d[0]] + (d[1..][..k - 1] + [y] + d[1..][k - 1..]) == d[..k] + [y] + d[k..];
    }
  }

  lemma {:induction false} InsertSorted(y: Entry, d: seq<Entry>)
    requires Sorted(d) && DistinctTags(d)
    requires forall x :: x in d ==> x.tag != y.tag
    ensures |Insert(y, d)| == |d| + 1
    ensures Sorted(Insert(y, d)) && DistinctTags(Insert(y, d))
    ensures forall x :: x in Insert(y, d) <==> x == y || x in d
  {
    if d == [] || Less(y, d[0]) {
      forall x ensures x in Insert(y, d) <==> x == y || x in d {}
    } else {
      InsertSorted(y, d[1..]);
      var r := Insert(y, d[1..]);
      forall x | x in r ensures Less(d[0], x) && x.tag != d[0].tag {
        assert x == y || x in d[1..];
      }
      forall x ensures x in Insert(y, d) <==> x == y || x in d {
        assert x in d <==> x == d[0] || x in d[1..];
      }
    }
  }

  lemma {:induction false} ResortSorted(src: seq<Entry>, limit: nat, i: nat)
    requires i <= |src| && Sorted(src) && DistinctTags(src)
    ensures |Resort(src, limit, i)| == |src| - i
    ensures Sorted(Resort(src, limit, i)) && DistinctTags(Resort(src, limit, i))
    ensures forall x :: x in Resort(src, limit, i) <==> exists k :: i <= k < |src| && x == Aged(src[k], limit)
    decreases |src| - i
  {
    if i < |src| {
      ResortSorted(src, limit, i + 1);
      InsertSorted(Aged(src[i], limit), Resort(src, limit, i + 1));
    }
  }

  lemma {:induction false} InsertAges(y: Entry, d: seq<Entry>, j: nat)
    requires Sorted(d) && (d != [] ==> y.age <= d[0].age) && j <= |d|
    ensures |Insert(y, d)| == |d| + 1
    ensures Insert(y, d)[j].age == if j == 0 then y.age else d[j - 1].age
  {
    if d != [] && !Less(y, d[0]) {
      if j > 0 {
        if |d| > 1 { assert Less(d[0], d[1]); }
        InsertAges(y, d[1..], j - 1);
      } else {
        InsertSize(y, d[1..]);
      }
    }
  }

  lemma {:induction false} InsertSize(y: Entry, d: seq<Entry>)
    ensures |Insert(y, d)| == |d| + 1
  {
    if d != [] && !Less(y, d[0]) {
      InsertSize(y, d[1..]);
    }
  }

  /** Sorting in permutes blocks of equal age only: position by position, the ages are
      those of the source, aged. */
  lemma {:induction false} ResortAges(src: seq<Entry>, limit: nat, i: nat, j: nat)
    requires Sorted(src) && DistinctTags(src) && i + j < |src|
    ensures |Resort(src, limit, i)| == |src| - i
    ensures Resort(src, limit, i)[j].age == Aged(src[i + j], limit).age
    decreases |src| - i
  {
    ResortSorted(src, limit, i + 1);
    var d := Resort(src, limit, i + 1);
    if d != [] {
      ResortAges(src, limit, i + 1, 0);
      assert Less(src[i], src[i + 1]);
    }
    InsertAges(Aged(src[i], limit), d, j);
    if j > 0 { ResortAges(src, limit, i + 1, j - 1); }
  }

  /** Where the ages merge: everything right of an entry that reaches age `limit` has
      that age at least. */
  lemma ResortAbove(src: seq<Entry>, limit: nat, i: nat)
    requires i < |src| && Sorted(src) && DistinctTags(src)
    requires Aged(src[i], limit).age == limit
    ensures var d := Resort(src, limit, i + 1);
      && |d| == |src| - i - 1 && Sorted(d)
      && (forall x :: x in d ==> x.age >= limit && x.tag != src[i].tag)
      && Resort(src, limit, i) == Insert(Aged(src[i], limit), d)
      && |Resort(src, limit, i)| == |d| + 1
  {
    ResortSorted(src, limit, i);
    ResortSorted(src, limit, i + 1);
    var d := Resort(src, limit, i + 1);
    forall x | x in d ensures x.age >= limit && x.tag != src[i].tag {
      var k :| i + 1 <= k < |src| && x == Aged(src[k], limit);
      assert Less(src[i], src[k]);
    }
  }

  /** An entry that does not reach age `limit` needs no sorting in. */
  lemma ResortFront(src: seq<Entry>, limit: nat, i: nat)
    requires i < |src| && Sorted(src) && DistinctTags(src)
    requires src[i].age + 1 < limit || src[|src| - 1].age < limit
    ensures Resort(src, limit, i) == [Aged(src[i], limit)] + Resort(src, limit, i + 1)
    ensures |Resort(src, limit, i + 1)| == |src| - i - 1
  {
    ResortSorted(src, limit, i + 1);
    var d := Resort(src, limit, i + 1);
    if d != [] {
      assert d[0] in d;
      var k :| i + 1 <= k < |src| && d[0] == Aged(src[k], limit);
      assert Less(src[i], src[k]);
      assert k < |src| - 1 ==> Less(src[k], src[|src| - 1]);
      assert Less(Aged(src[i], limit), d[0]);
    }
  }

  /** An entry that stays where it is, the entries right of it being older than the
      ones that move, needs none either. */
  lemma {:induction false} ResortTail(src: seq<Entry>, limit: nat, i: nat)
    requires i <= |src| && Sorted(src) && DistinctTags(src)
    requires i < |src| ==> src[i].age >= limit
    ensures Resort(src, limit, i) == src[i..]
    decreases |src| - i
  {
    if i < |src| {
      if i + 1 < |src| { assert Less(src[i], src[i + 1]); }
      ResortTail(src, limit, i + 1);
      assert src[i..] == [src[i]] + src[i + 1..];
    }
  }

  /** A list that holds the accessed block at age 0 and, of the other blocks, those
      that stay below `cap`, aged. */
  ghost predicate IsAccessed(e: seq<Entry>, new_: seq<Entry>, t: Tag, limit: nat, cap: nat) {
    && Entry(t, 0) in new_
    && (forall x :: x in new_ && x != Entry(t, 0) ==>
          exists y :: y in e && y.tag != t && x == Aged(y, limit) && x.age < cap)
    && (forall y :: y in e && y.tag != t && Aged(y, limit).age < cap ==> Aged(y, limit) in new_)
  }

  lemma AccessedEntry(e: seq<Entry>, new_: seq<Entry>, t: Tag, limit: nat, cap: nat, x: Entry)
    requires DistinctTags(e) && 0 < cap && IsAccessed(e, new_, t, limit, cap) && x in new_
    ensures var r := AgedBy(ToMap(e), t, limit, cap); x.tag in r && x.age == r[x.tag]
  {
    if x != Entry(t, 0) {
      var y :| y in e && y.tag != t && x == Aged(y, limit) && x.age < cap;
    }
  }

  lemma AccessedKey(e: seq<Entry>, new_: seq<Entry>, t: Tag, limit: nat, cap: nat, b: Tag)
    requires DistinctTags(e) && 0 < cap && IsAccessed(e, new_, t, limit, cap)
    requires var r := AgedBy(ToMap(e), t, limit, cap); b in r
    ensures Entry(b, AgedBy(ToMap(e), t, limit, cap)[b]) in new_
  {
    if b != t {
      var y := Entry(b, ToMap(e)[b]);
      assert y in e;
      assert Aged(y, limit) in new_;
    }
  }

  lemma AccessedAt(e: seq<Entry>, new_: seq<Entry>, t: Tag, limit: nat, cap: nat, b: Tag)
    requires DistinctTags(e) && DistinctTags(new_) && 0 < cap && IsAccessed(e, new_, t, limit, cap)
    ensures var n, r := ToMap(new_), AgedBy(ToMap(e), t, limit, cap);
      (b in n <==> b in r) && (b in n ==> n[b] == r[b])
  {
    if b in ToMap(new_) {
      AccessedEntry(e, new_, t, limit, cap, Entry(b, ToMap(new_)[b]));
    } else if b in AgedBy(ToMap(e), t, limit, cap) {
      AccessedKey(e, new_, t, limit, cap, b);
    }
  }

  /** Such a list stands for the map after the access. */
  lemma AccessedList(e: seq<Entry>, new_: seq<Entry>, t: Tag, limit: nat, cap: nat)
    requires DistinctTags(e) && DistinctTags(new_) && 0 < cap && IsAccessed(e, new_, t, limit, cap)
    ensures ToMap(new_) == AgedBy(ToMap(e), t, limit, cap)
  {
    forall b
      ensures b in ToMap(new_) <==> b in AgedBy(ToMap(e), t, limit, cap)
      ensures b in ToMap(new_) ==> ToMap(new_)[b] == AgedBy(ToMap(e), t, limit, cap)[b]
    {
      AccessedAt(e, new_, t, limit, cap, b);
    }
  }
}
