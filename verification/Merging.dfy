/** The two-finger merges behind the joins of the set analyses, as functions on sorted
    lists, and the proof that they compute the pointwise joins of AgeMaps. */
module Merging {
  import opened Lru
  import opened AgeMaps
  import opened Entries

  predicate HasTag(e: seq<Entry>, t: Tag) {
    exists i :: 0 <= i < |e| && e[i].tag == t
  }

  lemma HasTagIsKey(e: seq<Entry>, t: Tag)
    requires DistinctTags(e)
    ensures HasTag(e, t) <==> t in ToMap(e)
  {
    LookUp(e, t);
  }

  /** Walks both lists from the oldest entry down. An entry survives if the other list
      still has its tag ahead, so at the greater of its two ages. */
  function MustMerge(x: seq<Entry>, y: seq<Entry>): (r: seq<Entry>)
    decreases |x| + |y|
  {
    if x == [] && y == [] then []
    else if x != [] && (y == [] || !Less(x[|x| - 1], y[|y| - 1])) then
      MustMerge(x[..|x| - 1], y) + (if HasTag(y, x[|x| - 1].tag) then [x[|x| - 1]] else [])
    else
      MustMerge(x, y[..|y| - 1]) + (if HasTag(x, y[|y| - 1].tag) then [y[|y| - 1]] else [])
  }

  /** Walks both lists from the youngest entry up. An entry survives unless the other
      list had its tag already, so at the smaller of its two ages. The last entry
      walked is the greater of the two last ones, the one of `y` if they are equal. */
  function MayMerge(x: seq<Entry>, y: seq<Entry>): (r: seq<Entry>)
    decreases |x| + |y|
  {
    if x == [] && y == [] then []
    else if x != [] && (y == [] || Less(y[|y| - 1], x[|x| - 1])) then
      MayMerge(x[..|x| - 1], y) + (if HasTag(y, x[|x| - 1].tag) then [] else [x[|x| - 1]])
    else
      MayMerge(x, y[..|y| - 1]) + (if HasTag(x, y[|y| - 1].tag) then [] else [y[|y| - 1]])
  }

  /** An entry is at least as old as every entry of a list that ends with an entry it
      is not less than. */
  lemma Bounds(e: seq<Entry>, z: Entry)
    requires Sorted(e) && (e != [] ==> !Less(z, e[|e| - 1]))
    ensures forall x :: x in e ==> x == z || Less(x, z)
  {
    forall x | x in e ensures x == z || Less(x, z) {
      var i :| 0 <= i < |e| && e[i] == x;
      if i < |e| - 1 { assert Less(e[i], e[|e| - 1]); }
    }
  }

  lemma DropLast(e: seq<Entry>)
    requires e != [] && Sorted(e) && DistinctTags(e)
    ensures var f, z := e[..|e| - 1], e[|e| - 1];
      && Sorted(f) && DistinctTags(f) && e == f + [z]
      && z.tag !in ToMap(f) && ToMap(e) == ToMap(f)[z.tag := z.age]
      && (forall x :: x in f ==> Less(x, z))
      && (forall x :: x in e <==> x in f || x == z)
  {
    assert e == e[..|e| - 1] + [e[|e| - 1]];
    ToMapAppend(e[..|e| - 1], e[|e| - 1]);
  }

  lemma Extend(r: seq<Entry>, z: Entry)
    requires Sorted(r) && DistinctTags(r)
    requires z.tag !in ToMap(r) && forall x :: x in r ==> Less(x, z)
    ensures Sorted(r + [z]) && DistinctTags(r + [z])
    ensures ToMap(r + [z]) == ToMap(r)[z.tag := z.age]
  {
    forall i | 0 <= i < |r| ensures r[i].tag != z.tag {
      assert r[i] in r;
    }
    LookUp(r, z.tag);
    ToMapAppend(r, z);
  }

  ghost predicate From(r: seq<Entry>, x: seq<Entry>, y: seq<Entry>) {
    forall z :: z in r ==> z in x || z in y
  }

  /** What a merge of two lists must be: sorted, made of their entries, and standing
      for the join of their maps. */
  ghost predicate IsMerge(r: seq<Entry>, x: seq<Entry>, y: seq<Entry>, m: map<Tag, nat>) {
    Sorted(r) && DistinctTags(r) && From(r, x, y) && ToMap(r) == m
  }

  lemma MustJoinCommutes(x: Must, y: Must)
    ensures MustJoin(x, y) == MustJoin(y, x)
  {
  }

  lemma MustJoinExtend(x: Must, y: Must, t: Tag, a: nat)
    requires t !in x && (t in y ==> y[t] <= a)
    ensures t !in MustJoin(x, y)
    ensures MustJoin(x[t := a], y) == if t in y then MustJoin(x, y)[t := a] else MustJoin(x, y)
  {
  }

  /** Union with the smaller age where both lists have a block. */
  function Union(x: map<Tag, nat>, y: map<Tag, nat>): (r: map<Tag, nat>) {
    map b | b in x.Keys + y.Keys :: if b !in y then x[b] else if b !in x then y[b] else Min(x[b], y[b])
  }

  lemma UnionCommutes(x: map<Tag, nat>, y: map<Tag, nat>)
    ensures Union(x, y) == Union(y, x)
  {
  }

  lemma UnionExtend(x: map<Tag, nat>, y: map<Tag, nat>, t: Tag, a: nat)
    requires t !in x && (t in y ==> y[t] <= a)
    ensures t !in y ==> t !in Union(x, y)
    ensures Union(x[t := a], y) == if t in y then Union(x, y) else Union(x, y)[t := a]
  {
  }

  /** The greatest entry `z` of two lists, taken off the first, and what that leaves. */
  lemma Step(r: seq<Entry>, e: seq<Entry>, g: seq<Entry>, m: map<Tag, nat>)
    requires e != [] && Sorted(e) && DistinctTags(e) && Sorted(g) && DistinctTags(g)
    requires g == [] || !Less(e[|e| - 1], g[|g| - 1])
    requires IsMerge(r, e[..|e| - 1], g, m)
    ensures var f, z := e[..|e| - 1], e[|e| - 1];
      && Sorted(f) && DistinctTags(f)
      && z.tag !in ToMap(f) && ToMap(e) == ToMap(f)[z.tag := z.age]
      && (z.tag in ToMap(g) ==> ToMap(g)[z.tag] <= z.age)
      && (HasTag(g, z.tag) <==> z.tag in ToMap(g))
      && IsMerge(r, e, g, m)
      && (z.tag !in m ==> IsMerge(r + [z], e, g, m[z.tag := z.age]))
  {
    var f, z := e[..|e| - 1], e[|e| - 1];
    DropLast(e);
    Bounds(g, z);
    HasTagIsKey(g, z.tag);
    GreatestAge(g, z);
    if z.tag !in m {
      forall x | x in r ensures Less(x, z) {
        assert x.tag in m;
      }
      Extend(r, z);
    }
  }

  lemma GreatestAge(g: seq<Entry>, z: Entry)
    requires DistinctTags(g) && forall x :: x in g ==> x == z || Less(x, z)
    ensures z.tag in ToMap(g) ==> ToMap(g)[z.tag] <= z.age
  {
    assert z.tag in ToMap(g) ==> Entry(z.tag, ToMap(g)[z.tag]) in g;
  }

  lemma {:induction false} MustMergeIsJoin(x: seq<Entry>, y: seq<Entry>)
    requires Sorted(x) && DistinctTags(x) && Sorted(y) && DistinctTags(y)
    ensures IsMerge(MustMerge(x, y), x, y, MustJoin(ToMap(x), ToMap(y)))
    decreases |x| + |y|
  {
    if x == [] && y == [] {
    } else if x != [] && (y == [] || !Less(x[|x| - 1], y[|y| - 1])) {
      var f, z := x[..|x| - 1], x[|x| - 1];
      MustMergeIsJoin(f, y);
      Step(MustMerge(f, y), x, y, MustJoin(ToMap(f), ToMap(y)));
      MustJoinExtend(ToMap(f), ToMap(y), z.tag, z.age);
      assert MustMerge(f, y) + [] == MustMerge(f, y);
    } else {
      var f, z := y[..|y| - 1], y[|y| - 1];
      MustMergeIsJoin(x, f);
      Step(MustMerge(x, f), y, x, MustJoin(ToMap(x), ToMap(f)));
      MustJoinCommutes(ToMap(x), ToMap(f));
      MustJoinExtend(ToMap(f), ToMap(x), z.tag, z.age);
      MustJoinCommutes(ToMap(x), ToMap(y));
      assert MustMerge(x, f) + [] == MustMerge(x, f);
    }
  }

  lemma {:induction false} MayMergeIsUnion(x: seq<Entry>, y: seq<Entry>)
    requires Sorted(x) && DistinctTags(x) && Sorted(y) && DistinctTags(y)
    ensures IsMerge(MayMerge(x, y), x, y, Union(ToMap(x), ToMap(y)))
    decreases |x| + |y|
  {
    if x == [] && y == [] {
    } else if x != [] && (y == [] || Less(y[|y| - 1], x[|x| - 1])) {
      var f, z := x[..|x| - 1], x[|x| - 1];
      MayMergeIsUnion(f, y);
      Step(MayMerge(f, y), x, y, Union(ToMap(f), ToMap(y)));
      UnionExtend(ToMap(f), ToMap(y), z.tag, z.age);
      assert MayMerge(f, y) + [] == MayMerge(f, y);
    } else {
      var f, z := y[..|y| - 1], y[|y| - 1];
      MayMergeIsUnion(x, f);
      Step(MayMerge(x, f), y, x, Union(ToMap(x), ToMap(f)));
      UnionCommutes(ToMap(x), ToMap(f));
      UnionExtend(ToMap(f), ToMap(x), z.tag, z.age);
      UnionCommutes(ToMap(x), ToMap(y));
      assert MayMerge(x, f) + [] == MayMerge(x, f);
    }
  }
}
