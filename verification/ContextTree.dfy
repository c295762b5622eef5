/** Analysis information per calling context, kept in a tree whose edges are labelled with
    context tokens. A context that ends where longer ones go on has its information below an
    edge without a token. The tree is shown to be a finite map from contexts to information,
    for all its operations. */
module ContextTree {
  import opened Reports

  type Token = nat

  type Context = seq<Token>

  datatype Label = NoToken | Labelled(token: Token)

  datatype Tree<V> = Leaf(value: V) | Node(children: map<Label, Tree<V>>)

  /** The domain of the information: its least element, join and order. */
  datatype Lattice<!V> = Lattice(bottom: V, join: (V, V) -> V, leq: (V, V) -> bool)

  ghost predicate LatticeValid<V(!new)>(l: Lattice<V>) {
    && (forall x :: l.leq(l.bottom, x) && l.leq(x, x))
    && (forall x, y :: l.leq(x, y) && l.leq(y, x) ==> x == y)
    && (forall x, y :: l.leq(x, l.join(x, y)) && l.leq(y, l.join(x, y)))
    && (forall x, y, z :: l.leq(x, z) && l.leq(y, z) ==> l.leq(l.join(x, y), z))
  }

  /** Inner nodes have children, and the edge without a token leads to a leaf. */
  ghost predicate TreeValid<V>(t: Tree<V>) {
    t.Node? ==>
      && (exists l :: l in t.children)
      && (NoToken in t.children ==> t.children[NoToken].Leaf?)
      && forall l :: l in t.children ==> TreeValid(t.children[l])
  }

  /** The map that a tree stands for. */
  function Value<V>(t: Tree<V>, c: Context): Option<V>
    decreases c
  {
    match t
    case Leaf(v) => if c == [] then Some(v) else None
    case Node(children) =>
      if c == [] then
        if NoToken in children && children[NoToken].Leaf? then Some(children[NoToken].value) else None
      else if Labelled(c[0]) in children then Value(children[Labelled(c[0])], c[1..])
      else None
  }

  // ---- adding information for a context ----------------------------------------------

  function MakeLabeledTree<V>(c: Context, v: V): Tree<V> {
    if c == [] then Leaf(v) else Node(map[Labelled(c[0]) := MakeLabeledTree(c[1..], v)])
  }

  /** Whether joining changed the information. */
  predicate Differs<V>(l: Lattice<V>, x: V, y: V) {
    !(l.leq(x, y) && l.leq(y, x))
  }

  /** The tree with the information added, and whether anything changed. */
  function AddToTree<V>(l: Lattice<V>, t: Tree<V>, c: Context, v: V): (Tree<V>, bool)
    decreases c
  {
    match t
    case Leaf(was) =>
      if c == [] then (Leaf(l.join(was, v)), Differs(l, was, l.join(was, v)))
      else (Node(map[NoToken := t, Labelled(c[0]) := MakeLabeledTree(c[1..], v)]), true)
    case Node(children) =>
      if c == [] then
        if NoToken in children && children[NoToken].Leaf? then
          var was := children[NoToken].value;
          (Node(children[NoToken := Leaf(l.join(was, v))]), Differs(l, was, l.join(was, v)))
        else (Node(children[NoToken := Leaf(v)]), true)
      else if Labelled(c[0]) in children then
        var (subtree, changed) := AddToTree(l, children[Labelled(c[0])], c[1..], v);
        (Node(children[Labelled(c[0]) := subtree]), changed)
      else (Node(children[Labelled(c[0]) := MakeLabeledTree(c[1..], v)]), true)
  }

  /** What the map holds for a context after information was added there. */
  function Added<V>(l: Lattice<V>, was: Option<V>, v: V): Option<V> {
    if was.Some? then Some(l.join(was.value, v)) else Some(v)
  }

  lemma {:induction false} MakeLabeledTreeIsSingleton<V>(c: Context, v: V, d: Context)
    ensures TreeValid(MakeLabeledTree(c, v))
    ensures Value(MakeLabeledTree(c, v), d) == if d == c then Some(v) else None
    decreases c
  {
    if c != [] {
      assert Labelled(c[0]) in MakeLabeledTree(c, v).children;
      MakeLabeledTreeIsSingleton(c[1..], v, if d == [] then [] else d[1..]);
      if d != [] {
        assert d == c <==> d[0] == c[0] && d[1..] == c[1..] by {
          if d[0] == c[0] && d[1..] == c[1..] {
            assert d == [d[0]] + d[1..] && c == [c[0]] + c[1..];
          }
        }
      }
    }
  }

  /** Adding information is a change of the map at one key: nothing else moves, the old
      information there is joined with the new, and the flag says exactly whether the map
      changed. */
  lemma {:induction false} AddIsMapUpdate<V(!new)>(l: Lattice<V>, t: Tree<V>, c: Context, v: V, d: Context)
    requires LatticeValid(l) && TreeValid(t)
    ensures var (t', changed) := AddToTree(l, t, c, v);
      && TreeValid(t')
      && Value(t', d) == (if d == c then Added(l, Value(t, c), v) else Value(t, d))
      && (changed <==> Value(t', c) != Value(t, c))
    decreases c
  {
    if c != [] {
      assert Labelled(c[0]) in AddToTree(l, t, c, v).0.children;
      MakeLabeledTreeIsSingleton(c[1..], v, if d == [] then [] else d[1..]);
      MakeLabeledTreeIsSingleton(c[1..], v, c[1..]);
      if t.Node? && Labelled(c[0]) in t.children {
        AddIsMapUpdate(l, t.children[Labelled(c[0])], c[1..], v, if d == [] then [] else d[1..]);
      }
      if d != [] && d[0] == c[0] && d[1..] == c[1..] {
        assert d == [d[0]] + d[1..] && c == [c[0]] + c[1..];
      }
    } else if t.Node? {
      assert NoToken in AddToTree(l, t, c, v).0.children;
    }
  }

  // ---- the domain ---------------------------------------------------------------------

  /** No tree stands for unreachable. */
  type Domain<V> = Option<Tree<V>>

  ghost predicate DomainValid<V>(p: Domain<V>) {
    p.Some? ==> TreeValid(p.value)
  }

  function ValueIn<V>(p: Domain<V>, c: Context): Option<V> {
    if p.None? then None else Value(p.value, c)
  }

  function AddContext<V>(l: Lattice<V>, p: Domain<V>, c: Context, v: V): (Domain<V>, bool) {
    if p.None? then (Some(MakeLabeledTree(c, v)), true)
    else
      var (t, changed) := AddToTree(l, p.value, c, v);
      (Some(t), changed)
  }

  lemma AddContextIsMapUpdate<V(!new)>(l: Lattice<V>, p: Domain<V>, c: Context, v: V, d: Context)
    requires LatticeValid(l) && DomainValid(p)
    ensures var (p', changed) := AddContext(l, p, c, v);
      && DomainValid(p')
      && ValueIn(p', d) == (if d == c then Added(l, ValueIn(p, c), v) else ValueIn(p, d))
      && (changed <==> ValueIn(p', c) != ValueIn(p, c))
  {
    MakeLabeledTreeIsSingleton(c, v, d);
    MakeLabeledTreeIsSingleton(c, v, c);
    if p.Some? {
      AddIsMapUpdate(l, p.value, c, v, d);
    }
  }

  /** If nothing is reported to have changed, the map is the same. */
  lemma UnreportedIsUnchanged<V(!new)>(l: Lattice<V>, p: Domain<V>, c: Context, v: V)
    requires LatticeValid(l) && DomainValid(p) && !AddContext(l, p, c, v).1
    ensures forall d :: ValueIn(AddContext(l, p, c, v).0, d) == ValueIn(p, d)
  {
    forall d ensures ValueIn(AddContext(l, p, c, v).0, d) == ValueIn(p, d) {
      AddContextIsMapUpdate(l, p, c, v, d);
    }
  }

  // ---- looking up ----------------------------------------------------------------------

  /** A context that the map lacks although it has longer ones: looking for it ends inside
      the tree, where the program expects an edge without a token. */
  ghost predicate EndsInside<V>(t: Tree<V>, c: Context) {
    Value(t, c).None? && exists more :: more != [] && Value(t, c + more).Some?
  }

  /** Every tree holds something. */
  lemma {:induction false} SomeContext<V>(t: Tree<V>) returns (c: Context)
    requires TreeValid(t)
    ensures Value(t, c).Some?
    decreases t
  {
    match t
    case Leaf(_) => c := [];
    case Node(children) =>
      var l :| l in children;
      if l == NoToken {
        c := [];
      } else {
        var rest := SomeContext(children[l]);
        c := [l.token] + rest;
        assert c[1..] == rest;
      }
  }

  /** Walks down the tree along a context. Without a result, the program has failed an
      assertion: there is no information for the context. */
  method FindAnalysisInfo<V>(l: Lattice<V>, p: Domain<V>, c: Context) returns (r: Option<V>)
    requires DomainValid(p)
    ensures r == if p.None? then Some(l.bottom) else ValueIn(p, c)
  {
    if p.None? {
      return Some(l.bottom);
    }
    var position, tokens := p.value, c;
    while position.Node?
      invariant TreeValid(position) && Value(position, tokens) == Value(p.value, c)
      decreases |tokens|, position
    {
      if tokens == [] {
        return if NoToken in position.children && position.children[NoToken].Leaf?
               then Some(position.children[NoToken].value) else None;
      }
      var topmost := Labelled(tokens[0]);
      if topmost !in position.children {
        return None;
      }
      position, tokens := position.children[topmost], tokens[1..];
    }
    r := if tokens == [] then Some(position.value) else None;
  }

  /** Whether a context ends inside the tree is decided on the way down. */
  lemma EndsBelow<V>(t: Tree<V>, c: Context)
    requires t.Node? && c != [] && Labelled(c[0]) in t.children
    ensures EndsInside(t, c) <==> EndsInside(t.children[Labelled(c[0])], c[1..])
  {
    forall more ensures Value(t, c + more) == Value(t.children[Labelled(c[0])], c[1..] + more) {
      assert (c + more)[1..] == c[1..] + more;
    }
  }

  lemma EndsHere<V>(t: Tree<V>, c: Context)
    requires TreeValid(t)
    ensures t.Leaf? ==> !EndsInside(t, c)
    ensures t.Node? && c != [] && Labelled(c[0]) !in t.children ==> !EndsInside(t, c)
    ensures t.Node? && c == [] ==> (EndsInside(t, c) <==> NoToken !in t.children)
  {
    if t.Node? && c == [] && NoToken !in t.children {
      var more := SomeContext(t);
      assert c + more == more;
    }
  }

  /** The same while contexts are still being built: one that the tree does not reach is
      unreachable so far. Only a context that ends inside the tree still fails. */
  method FindAnalysisInfoEarly<V>(l: Lattice<V>, p: Domain<V>, c: Context) returns (r: Option<V>)
    requires DomainValid(p)
    ensures r.None? <==> p.Some? && EndsInside(p.value, c)
    ensures r.Some? ==> r.value == (if ValueIn(p, c).Some? then ValueIn(p, c).value else l.bottom)
  {
    if p.None? {
      return Some(l.bottom);
    }
    var position, tokens := p.value, c;
    while position.Node?
      invariant TreeValid(position) && Value(position, tokens) == Value(p.value, c)
      invariant EndsInside(position, tokens) <==> EndsInside(p.value, c)
      decreases |tokens|, position
    {
      EndsHere(position, tokens);
      if tokens == [] {
        return if NoToken in position.children && position.children[NoToken].Leaf?
               then Some(position.children[NoToken].value) else None;
      }
      var topmost := Labelled(tokens[0]);
      if topmost !in position.children {
        return Some(l.bottom);
      }
      EndsBelow(position, tokens);
      position, tokens := position.children[topmost], tokens[1..];
    }
    EndsHere(position, tokens);
    r := if tokens != [] then Some(l.bottom) else Some(position.value);
  }

  /** Whatever context is the only one, looking for a shorter one that it extends fails. */
  lemma ExtendedContextFails<V>(l: Lattice<V>, c: Context, more: Context, v: V)
    requires more != []
    ensures EndsInside(AddContext(l, None, c + more, v).0.value, c)
  {
    MakeLabeledTreeIsSingleton(c + more, v, c);
    MakeLabeledTreeIsSingleton(c + more, v, c + more);
  }

  // ---- all contexts, and joins ------------------------------------------------------------

  ghost predicate IsMapOf<V>(m: map<Context, V>, t: Tree<V>) {
    && (forall c :: c in m <==> Value(t, c).Some?)
    && (forall c :: c in m ==> Value(t, c) == Some(m[c]))
  }

  /** The edge a context leaves the root by, and what is left of it below. */
  function EdgeOf(c: Context): Label {
    if c == [] then NoToken else Labelled(c[0])
  }

  function Below(c: Context): Context {
    if c == [] then [] else c[1..]
  }

  function Prefixed(edge: Label, c: Context): Context {
    if edge == NoToken then c else [edge.token] + c
  }

  /** The information below one edge, with the contexts seen from the root. */
  function FromRoot<V>(edge: Label, sub: map<Context, V>): map<Context, V> {
    map d | d in (set c | c in sub.Keys :: Prefixed(edge, c)) && Below(d) in sub :: sub[Below(d)]
  }

  lemma FromRootIs<V>(t: Tree<V>, edge: Label, sub: map<Context, V>, d: Context)
    requires TreeValid(t) && t.Node? && edge in t.children && IsMapOf(sub, t.children[edge])
    ensures d in FromRoot(edge, sub) <==> EdgeOf(d) == edge && Value(t, d).Some?
    ensures d in FromRoot(edge, sub) ==> Value(t, d) == Some(FromRoot(edge, sub)[d])
  {
    if edge == NoToken {
      assert t.children[edge].Leaf?;
      forall c | c in sub ensures c == [] {
        assert Value(t.children[edge], c).Some?;
      }
      assert d in FromRoot(edge, sub) ==> Prefixed(edge, d) == d && d in sub;
      if d == [] {
        assert d in sub && Prefixed(edge, d) == d;
      }
    } else {
      forall c | c in sub && Prefixed(edge, c) == d ensures d != [] && c == d[1..] && d[0] == edge.token {
      }
      if d != [] && d[0] == edge.token {
        assert Prefixed(edge, d[1..]) == d;
      }
    }
  }

  /** The contexts of the tree with their information. */
  method GetAnalysisInfoPerContext<V(!new)>(t: Tree<V>) returns (m: map<Context, V>)
    requires TreeValid(t)
    ensures IsMapOf(m, t)
    decreases t
  {
    match t
    case Leaf(v) =>
      m := map[[] := v];
    case Node(children) =>
      m := map[];
      var todo := children.Keys;
      while todo != {}
        invariant todo <= children.Keys
        invariant forall c :: c in m <==> Value(t, c).Some? && EdgeOf(c) !in todo
        invariant forall c :: c in m ==> Value(t, c) == Some(m[c])
      {
        var edge :| edge in todo;
        var sub := GetAnalysisInfoPerContext(children[edge]);
        ghost var before := m;
        m := m + FromRoot(edge, sub);
        todo := todo - {edge};
        forall c
          ensures c in m <==> Value(t, c).Some? && EdgeOf(c) !in todo
          ensures c in m ==> Value(t, c) == Some(m[c])
        {
          FromRootIs(t, edge, sub, c);
          assert c in m <==> c in before || c in FromRoot(edge, sub);
        }
      }
  }

  /** What both sides hold for a context, joined. */
  function Joined<V>(l: Lattice<V>, x: Option<V>, y: Option<V>): Option<V> {
    if y.None? then x else Added(l, x, y.value)
  }

  /** Adds the information of all leaves of the other tree; in any order, the result is the
      join of the maps, context by context. */
  method Join<V(!new)>(l: Lattice<V>, x: Domain<V>, y: Domain<V>) returns (r: Domain<V>)
    requires LatticeValid(l) && DomainValid(x) && DomainValid(y)
    ensures DomainValid(r)
    ensures forall c :: ValueIn(r, c) == Joined(l, ValueIn(x, c), ValueIn(y, c))
  {
    if y.None? {
      return x;
    }
    if x.None? {
      return y;
    }
    var m := GetAnalysisInfoPerContext(y.value);
    r := x;
    var todo := m.Keys;
    while todo != {}
      invariant todo <= m.Keys && DomainValid(r)
      invariant forall c ::
        ValueIn(r, c) == if c in todo then ValueIn(x, c) else Joined(l, ValueIn(x, c), ValueIn(y, c))
    {
      var c :| c in todo;
      todo := todo - {c};
      ghost var before := r;
      r := AddContext(l, r, c, m[c]).0;
      AddContextIsMapUpdate(l, before, c, m[c], c);
      forall d
        ensures ValueIn(r, d) == if d in todo then ValueIn(x, d) else Joined(l, ValueIn(x, d), ValueIn(y, d))
      {
        AddContextIsMapUpdate(l, before, c, m[c], d);
      }
    }
  }
}
