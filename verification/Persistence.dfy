/** Persistence: which blocks stay in a cache set while a scope (a loop, a function) is
    open. Conflict sets are kept for the whole set or for every block, and for all open
    scopes at once. The main result is that a block misses at most once per scope instance
    where it is called persistent. */
module Persistence {
  import opened Lru
  import opened AgeMaps
  import opened Reports
  import opened SharedCache
  import opened AddressMapping
  import A = AbstractCache

  /** The blocks accessed since some point, or too many of them to tell. The reference is
      an address of the cache set. */
  datatype Conflicts = Top(ref: nat) | Accessed(ref: nat, blocks: set<Tag>)

  predicate ConflictsValid(c: Conflicts, ways: nat) {
    c.Accessed? ==> |c.blocks| <= ways
  }

  function Insert(c: Conflicts, t: Tag, ways: nat): Conflicts {
    if c.Top? || (t !in c.blocks && |c.blocks + {t}| > ways) then Top(c.ref) else Accessed(c.ref, c.blocks + {t})
  }

  function Unite(x: Conflicts, y: Conflicts, ways: nat): Conflicts {
    if x.Top? || y.Top? || |x.blocks + y.blocks| > ways then Top(x.ref) else Accessed(x.ref, x.blocks + y.blocks)
  }

  predicate ConflictsLeq(x: Conflicts, y: Conflicts) {
    y.Top? || (x.Accessed? && x.blocks <= y.blocks)
  }

  /** The order as the program decides it: by joining and comparing, references included. */
  predicate ConflictsLessEqual(x: Conflicts, y: Conflicts, ways: nat) {
    Unite(x, y, ways) == y
  }

  /** Persistent where `cnn` blocks of other cores may conflict as well. */
  predicate Fits(c: Conflicts, cnn: nat, ways: nat) {
    c.Accessed? && |c.blocks| + cnn <= ways
  }

  /** Uniting gives the least upper bound, but the order the program decides also wants
      the references to agree. */
  lemma UniteIsLub(x: Conflicts, y: Conflicts, z: Conflicts, ways: nat)
    requires ConflictsValid(x, ways) && ConflictsValid(y, ways) && ConflictsValid(z, ways)
    ensures ConflictsValid(Unite(x, y, ways), ways)
    ensures ConflictsLeq(x, Unite(x, y, ways)) && ConflictsLeq(y, Unite(x, y, ways))
    ensures ConflictsLeq(x, z) && ConflictsLeq(y, z) ==> ConflictsLeq(Unite(x, y, ways), z)
    ensures ConflictsLessEqual(x, y, ways) <==> ConflictsLeq(x, y) && x.ref == y.ref
  {
    if ConflictsLeq(x, z) && ConflictsLeq(y, z) && z.Accessed? {
      SubsetSize(x.blocks + y.blocks, z.blocks);
    }
    if x.Accessed? && y.Accessed? && x.blocks <= y.blocks {
      assert x.blocks + y.blocks == y.blocks;
    }
    if Unite(x, y, ways) == y && y.Accessed? {
      assert x.blocks <= x.blocks + y.blocks;
    }
  }

  lemma InsertMonotone(x: Conflicts, y: Conflicts, t: Tag, ways: nat)
    requires ConflictsValid(x, ways) && ConflictsValid(y, ways) && ConflictsLeq(x, y)
    ensures ConflictsLeq(Insert(x, t, ways), Insert(y, t, ways))
    ensures ConflictsValid(Insert(x, t, ways), ways)
  {
    if y.Accessed? {
      SubsetSize(x.blocks + {t}, y.blocks + {t});
      if t in y.blocks { assert y.blocks + {t} == y.blocks; }
    }
    if x.Accessed? && t in x.blocks { assert x.blocks + {t} == x.blocks; }
  }

  // ---- a conflict set for every block -------------------------------------------

  /** Blocks that were accessed on no path have no entry. */
  type ConflictMap = map<Tag, Conflicts>

  ghost predicate ElementsValid(m: ConflictMap, ways: nat) {
    forall t :: t in m ==> ConflictsValid(m[t], ways)
  }

  /** An access starts the conflict set of its block afresh and adds the block to all. */
  function ElementUpdate(m: ConflictMap, t: Tag, ref: nat, ways: nat): ConflictMap {
    map u | u in m.Keys + {t} :: Insert(if u == t then Accessed(ref, {}) else m[u], t, ways)
  }

  function ElementPotential(m: ConflictMap): ConflictMap {
    map u | u in m :: Top(m[u].ref)
  }

  function ElementJoin(x: ConflictMap, y: ConflictMap, ways: nat): ConflictMap {
    map u | u in x.Keys + y.Keys ::
      if u !in y then x[u] else if u !in x then y[u] else Unite(x[u], y[u], ways)
  }

  ghost predicate ElementLeq(x: ConflictMap, y: ConflictMap) {
    forall t :: t in x ==> t in y && ConflictsLeq(x[t], y[t])
  }

  ghost predicate ElementLessEqual(x: ConflictMap, y: ConflictMap, ways: nat) {
    forall t :: t in x ==> t in y && ConflictsLessEqual(x[t], y[t], ways)
  }

  predicate IsPersistent(m: ConflictMap, t: Tag, cnn: nat, ways: nat) {
    t in m && Fits(m[t], cnn, ways)
  }

  lemma ElementStepsValid(m: ConflictMap, t: Tag, ref: nat, ways: nat)
    requires 1 <= ways && ElementsValid(m, ways)
    ensures ElementsValid(ElementUpdate(m, t, ref, ways), ways)
    ensures ElementsValid(ElementPotential(m), ways)
  {
    forall u | u in ElementUpdate(m, t, ref, ways) ensures ConflictsValid(ElementUpdate(m, t, ref, ways)[u], ways) {
      var c := if u == t then Accessed(ref, {}) else m[u];
      InsertMonotone(c, c, t, ways);
    }
  }

  lemma ElementJoinIsLub(x: ConflictMap, y: ConflictMap, z: ConflictMap, ways: nat)
    requires ElementsValid(x, ways) && ElementsValid(y, ways) && ElementsValid(z, ways)
    ensures ElementsValid(ElementJoin(x, y, ways), ways)
    ensures ElementLeq(x, ElementJoin(x, y, ways)) && ElementLeq(y, ElementJoin(x, y, ways))
    ensures ElementLeq(x, z) && ElementLeq(y, z) ==> ElementLeq(ElementJoin(x, y, ways), z)
  {
    var j := ElementJoin(x, y, ways);
    forall t | t in j
      ensures ConflictsValid(j[t], ways)
      ensures t in x ==> ConflictsLeq(x[t], j[t])
      ensures t in y ==> ConflictsLeq(y[t], j[t])
      ensures ElementLeq(x, z) && ElementLeq(y, z) ==> t in z && ConflictsLeq(j[t], z[t])
    {
      if t in x && t in y {
        UniteIsLub(x[t], y[t], if t in z then z[t] else Top(0), ways);
      }
    }
  }

  /** As the program decides the order, a join is above its left operand, but above its
      right one only if both sides met their common blocks at the same addresses. */
  lemma JoinIsAboveRightIff(x: ConflictMap, y: ConflictMap, ways: nat)
    requires ElementsValid(x, ways) && ElementsValid(y, ways)
    ensures ElementLessEqual(x, ElementJoin(x, y, ways), ways)
    ensures ElementLessEqual(y, ElementJoin(x, y, ways), ways)
       <==> forall t :: t in x && t in y ==> x[t].ref == y[t].ref
  {
    var j := ElementJoin(x, y, ways);
    forall t | t in j
      ensures t in x ==> ConflictsLessEqual(x[t], j[t], ways)
      ensures t in y ==> (ConflictsLessEqual(y[t], j[t], ways) <==> t !in x || x[t].ref == y[t].ref)
    {
      if t in x && t in y {
        UniteIsLub(x[t], y[t], y[t], ways);
        UniteIsLub(x[t], j[t], j[t], ways);
        UniteIsLub(y[t], j[t], j[t], ways);
      } else {
        UniteIsLub(j[t], j[t], j[t], ways);
      }
    }
    if ElementLessEqual(y, j, ways) {
      forall t | t in x && t in y ensures x[t].ref == y[t].ref {
        assert t in j && ConflictsLessEqual(y[t], j[t], ways);
      }
    }
  }

  // ---- what the conflict sets say of a path -----------------------------------------

  /** All blocks of `seen`, and what was accessed after each of them, are accounted for. */
  ghost predicate ElementDescribes(m: ConflictMap, s: Stack, seen: set<Tag>) {
    forall t :: t in seen ==> t in s && t in m && Recorded(m[t], s, t)
  }

  ghost predicate Recorded(c: Conflicts, s: Stack, t: Tag) {
    c.Accessed? ==> Younger(s, t) + {t} <= c.blocks
  }

  lemma UpdateRecorded(c: Conflicts, s: Stack, t: Tag, u: Tag, ways: nat)
    requires Distinct(s) && u != t && u in s && Recorded(c, s, u)
    ensures u in Touch(s, t) && Recorded(Insert(c, t, ways), Touch(s, t), u)
  {
    YoungerTouch(s, t, u);
  }

  lemma FreshRecorded(s: Stack, t: Tag, ref: nat, ways: nat)
    requires Distinct(s)
    ensures t in Touch(s, t) && Recorded(Insert(Accessed(ref, {}), t, ways), Touch(s, t), t)
  {
    YoungerTouch(s, t, t);
  }

  lemma ElementUpdateSound(m: ConflictMap, s: Stack, seen: set<Tag>, t: Tag, ref: nat, ways: nat)
    requires Distinct(s) && ElementDescribes(m, s, seen)
    ensures ElementDescribes(ElementUpdate(m, t, ref, ways), Touch(s, t), seen + {t})
  {
    forall u | u in seen + {t}
      ensures u in Touch(s, t) && Recorded(ElementUpdate(m, t, ref, ways)[u], Touch(s, t), u)
    {
      if u == t {
        FreshRecorded(s, t, ref, ways);
      } else {
        UpdateRecorded(m[u], s, t, u, ways);
      }
    }
  }

  /** An access nothing is known of leaves no conflict set standing, so whatever it was it
      is accounted for. */
  lemma ElementPotentialSound(m: ConflictMap, s: Stack, seen: set<Tag>, t: Tag)
    requires Distinct(s) && ElementDescribes(m, s, seen)
    ensures ElementDescribes(ElementPotential(m), s, seen)
    ensures ElementDescribes(ElementPotential(m), Touch(s, t), seen)
  {
  }

  lemma ElementLeqSound(x: ConflictMap, y: ConflictMap, s: Stack, seen: set<Tag>)
    requires ElementLeq(x, y) && ElementDescribes(x, s, seen)
    ensures ElementDescribes(y, s, seen)
  {
    forall t | t in seen ensures t in y && Recorded(y[t], s, t) {
      assert ConflictsLeq(x[t], y[t]) && Recorded(x[t], s, t);
    }
  }

  /** What fits with the foreign blocks is in the shared set. */
  lemma RecordedIsCached(c: Conflicts, own: Stack, shared: Stack, foreign: set<Tag>, t: Tag, cnn: nat, ways: nat)
    requires Interfered(own, shared, foreign) && t in own && Recorded(c, own, t)
    requires |foreign - {t}| <= cnn && Fits(c, cnn, ways)
    ensures Cached(shared, t, ways)
  {
    YoungerIsPrefix(own, t);
    assert Younger(own, t) + {t} - {t} == Younger(own, t);
    SubsetSize(Younger(own, t) + {t}, c.blocks);
    UnionSize(Younger(own, t), foreign - {t});
    SubsetSize(Younger(shared, t), Younger(own, t) + (foreign - {t}));
    AgeCountsYounger(shared, t, ways);
  }

  /** A block that was accessed since the scope was opened and is persistent is still
      cached, also where other cores used the set in between. */
  lemma PersistentIsCached(m: ConflictMap, own: Stack, shared: Stack, seen: set<Tag>, foreign: set<Tag>, t: Tag,
                           cnn: nat, ways: nat)
    requires ElementDescribes(m, own, seen) && Interfered(own, shared, foreign)
    requires |foreign - {t}| <= cnn
    requires t in seen && IsPersistent(m, t, cnn, ways)
    ensures Cached(shared, t, ways)
  {
    assert Recorded(m[t], own, t);
    RecordedIsCached(m[t], own, shared, foreign, t, cnn, ways);
  }

  // ---- one conflict set for the whole set ----------------------------------------------

  /** The same for the coarser analysis. */
  ghost predicate SetWiseDescribes(c: Conflicts, s: Stack, seen: set<Tag>) {
    forall t :: t in seen ==> t in s && Recorded(c, s, t)
  }

  /** Accesses and joins keep the conflict set of a whole set a description of the path, ... */
  lemma SetWiseStepsSound(c: Conflicts, c': Conflicts, s: Stack, seen: set<Tag>, t: Tag, ways: nat)
    requires Distinct(s) && SetWiseDescribes(c, s, seen)
    ensures SetWiseDescribes(Insert(c, t, ways), Touch(s, t), seen + {t})
    ensures SetWiseDescribes(Top(c.ref), Touch(s, t), seen)
    ensures SetWiseDescribes(Unite(c, c', ways), s, seen)
  {
    forall u | u in seen + {t} ensures Recorded(Insert(c, t, ways), Touch(s, t), u) {
      YoungerTouch(s, t, u);
    }
    forall u | u in seen ensures Recorded(Unite(c, c', ways), s, u) {
      assert Recorded(c, s, u);
    }
  }

  /** ... and as long as it is called persistent, every block accessed since the scope was
      opened is still cached, also in a shared set, if enough foreign blocks are counted. */
  lemma SetWiseIsCached(c: Conflicts, own: Stack, shared: Stack, seen: set<Tag>, foreign: set<Tag>, t: Tag,
                        cnn: nat, ways: nat)
    requires SetWiseDescribes(c, own, seen) && Interfered(own, shared, foreign)
    requires |foreign - {t}| <= cnn
    requires t in seen && Fits(c, cnn, ways)
    ensures Cached(shared, t, ways)
  {
    assert Recorded(c, own, t);
    RecordedIsCached(c, own, shared, foreign, t, cnn, ways);
  }

  /** Each block's conflict set stays inside the one of the whole set. */
  ghost predicate Finer(m: ConflictMap, c: Conflicts) {
    forall t :: t in m ==> ConflictsLeq(m[t], c)
  }

  datatype Input = Precise(tag: Tag, ref: nat) | Imprecise | Joined(m: ConflictMap, c: Conflicts)

  function ElementRun(m: ConflictMap, inputs: seq<Input>, ways: nat): ConflictMap
    decreases inputs
  {
    if inputs == [] then m
    else
      var next := match inputs[0] {
        case Precise(t, ref) => ElementUpdate(m, t, ref, ways)
        case Imprecise => ElementPotential(m)
        case Joined(m', _) => ElementJoin(m, m', ways)
      };
      ElementRun(next, inputs[1..], ways)
  }

  function SetWiseRun(c: Conflicts, inputs: seq<Input>, ways: nat): Conflicts
    decreases inputs
  {
    if inputs == [] then c
    else
      var next := match inputs[0] {
        case Precise(t, _) => Insert(c, t, ways)
        case Imprecise => Top(c.ref)
        case Joined(_, c') => Unite(c, c', ways)
      };
      SetWiseRun(next, inputs[1..], ways)
  }

  ghost predicate GoodInputs(inputs: seq<Input>, ways: nat) {
    forall i :: 0 <= i < |inputs| && inputs[i].Joined? ==>
      ElementsValid(inputs[i].m, ways) && ConflictsValid(inputs[i].c, ways) && Finer(inputs[i].m, inputs[i].c)
  }

  lemma FinerUpdate(m: ConflictMap, c: Conflicts, t: Tag, ref: nat, ways: nat)
    requires 1 <= ways && ElementsValid(m, ways) && ConflictsValid(c, ways) && Finer(m, c)
    ensures Finer(ElementUpdate(m, t, ref, ways), Insert(c, t, ways))
    ensures ConflictsValid(Insert(c, t, ways), ways)
  {
    InsertMonotone(c, c, t, ways);
    forall u | u in ElementUpdate(m, t, ref, ways)
      ensures ConflictsLeq(ElementUpdate(m, t, ref, ways)[u], Insert(c, t, ways))
    {
      InsertMonotone(if u == t then Accessed(ref, {}) else m[u], c, t, ways);
    }
  }

  lemma FinerJoin(m: ConflictMap, c: Conflicts, m': ConflictMap, c': Conflicts, ways: nat)
    requires ElementsValid(m, ways) && ConflictsValid(c, ways) && Finer(m, c)
    requires ElementsValid(m', ways) && ConflictsValid(c', ways) && Finer(m', c')
    ensures Finer(ElementJoin(m, m', ways), Unite(c, c', ways))
    ensures ConflictsValid(Unite(c, c', ways), ways)
  {
    UniteIsLub(c, c', c', ways);
    forall u | u in ElementJoin(m, m', ways)
      ensures ConflictsLeq(ElementJoin(m, m', ways)[u], Unite(c, c', ways))
    {
      if u in m && u in m' {
        UniteIsLub(m[u], m'[u], Unite(c, c', ways), ways);
      }
    }
  }

  /** Fed the same accesses and joins, the finer analysis never knows less: whenever the
      coarse one is not top, every block with a conflict set of its own is persistent. */
  lemma {:induction false} NeverWorse(m: ConflictMap, c: Conflicts, inputs: seq<Input>, ways: nat)
    requires 1 <= ways && ElementsValid(m, ways) && ConflictsValid(c, ways) && Finer(m, c)
    requires GoodInputs(inputs, ways)
    ensures Finer(ElementRun(m, inputs, ways), SetWiseRun(c, inputs, ways))
    ensures SetWiseRun(c, inputs, ways).Accessed? ==>
      forall t :: t in ElementRun(m, inputs, ways) ==> IsPersistent(ElementRun(m, inputs, ways), t, 0, ways)
    decreases inputs
  {
    if inputs == [] {
      forall t | t in m && c.Accessed? ensures Fits(m[t], 0, ways) {
        SubsetSize(m[t].blocks, c.blocks);
      }
    } else {
      var rest := inputs[1..];
      match inputs[0]
      case Precise(t, ref) =>
        FinerUpdate(m, c, t, ref, ways);
        ElementStepsValid(m, t, ref, ways);
        NeverWorse(ElementUpdate(m, t, ref, ways), Insert(c, t, ways), rest, ways);
      case Imprecise =>
        ElementStepsValid(m, 0, 0, ways);
        NeverWorse(ElementPotential(m), Top(c.ref), rest, ways);
      case Joined(m', c') =>
        FinerJoin(m, c, m', c', ways);
        ElementJoinIsLub(m, m', m', ways);
        NeverWorse(ElementJoin(m, m', ways), Unite(c, c', ways), rest, ways);
    }
  }

  // ---- scopes -------------------------------------------------------------------------------

  type Scope = nat

  /** For every open scope: its conflict sets, and how often it was entered. */
  datatype Scopes = Scopes(info: map<Scope, ConflictMap>, entered: map<Scope, nat>)

  ghost predicate ScopesValid(x: Scopes, ways: nat) {
    && x.info.Keys == x.entered.Keys
    && (forall s :: s in x.info ==> ElementsValid(x.info[s], ways))
    && (forall s :: s in x.entered ==> x.entered[s] >= 1)
  }

  function Enter(x: Scopes, s: Scope): Scopes {
    if s !in x.info then Scopes(x.info[s := map[]], x.entered[s := 1])
    else x.(entered := x.entered[s := (if s in x.entered then x.entered[s] else 0) + 1])
  }

  function Leave(x: Scopes, s: Scope): Scopes {
    if s in x.entered && x.entered[s] > 1 then x.(entered := x.entered[s := x.entered[s] - 1])
    else Scopes(x.info - {s}, x.entered - {s})
  }

  /** Leaving what has just been entered changes nothing. */
  lemma LeaveUndoesEnter(x: Scopes, s: Scope, ways: nat)
    requires ScopesValid(x, ways)
    ensures Leave(Enter(x, s), s) == x
    ensures s in Enter(x, s).info
  {
  }

  function ScopesUpdate(x: Scopes, t: Tag, ref: nat, ways: nat): Scopes {
    x.(info := map s | s in x.info :: ElementUpdate(x.info[s], t, ref, ways))
  }

  function ScopesPotential(x: Scopes): Scopes {
    x.(info := map s | s in x.info :: ElementPotential(x.info[s]))
  }

  /** Only states with the same open scopes are joined. */
  ghost predicate SameScopes(x: Scopes, y: Scopes) {
    x.info.Keys == y.info.Keys && x.entered == y.entered
  }

  function ScopesJoin(x: Scopes, y: Scopes, ways: nat): Scopes
    requires x.info.Keys <= y.info.Keys
  {
    x.(info := map s | s in x.info :: ElementJoin(x.info[s], y.info[s], ways))
  }

  ghost predicate ScopesLeq(x: Scopes, y: Scopes) {
    SameScopes(x, y) && forall s :: s in x.info ==> ElementLeq(x.info[s], y.info[s])
  }

  /** Scope by scope, the least upper bound. */
  lemma ScopesJoinIsLub(x: Scopes, y: Scopes, z: Scopes, ways: nat)
    requires ScopesValid(x, ways) && ScopesValid(y, ways) && ScopesValid(z, ways) && SameScopes(x, y)
    ensures ScopesValid(ScopesJoin(x, y, ways), ways)
    ensures ScopesLeq(x, ScopesJoin(x, y, ways)) && ScopesLeq(y, ScopesJoin(x, y, ways))
    ensures ScopesLeq(x, z) && ScopesLeq(y, z) ==> ScopesLeq(ScopesJoin(x, y, ways), z)
  {
    forall s | s in x.info
      ensures var j := ElementJoin(x.info[s], y.info[s], ways);
        && ElementsValid(j, ways) && ElementLeq(x.info[s], j) && ElementLeq(y.info[s], j)
        && (ScopesLeq(x, z) && ScopesLeq(y, z) ==> ElementLeq(j, z.info[s]))
    {
      ElementJoinIsLub(x.info[s], y.info[s], if s in z.info then z.info[s] else map[], ways);
    }
  }

  function PersistentScopes(x: Scopes, t: Tag, cnn: nat, ways: nat): (r: set<Scope>) {
    set s | s in x.info && IsPersistent(x.info[s], t, cnn, ways)
  }

  // ---- whole runs -------------------------------------------------------------------------

  /** What happens to one set along a path: scopes are entered and left, this core accesses
      a known block or some block of this or another set, another core accesses one of its
      blocks, or the analysis joins the state of another path. */
  datatype Event =
    | EnterScope(scope: Scope)
    | LeaveScope(scope: Scope)
    | Known(tag: Tag, ref: nat)
    | Unknowable(actual: Option<Tag>)
    | Foreign(tag: Tag)
    | Merge(other: Scopes)

  /** Of one instance of a scope: the blocks accessed since it was opened, and the misses,
      once each, of accesses that were called persistent in it. */
  datatype Instance = Instance(seen: set<Tag>, misses: multiset<Tag>)

  /** The two histories of the set, the instances of the open scopes, and how often each of
      these was entered and not yet left. */
  datatype World = World(own: Stack, shared: Stack, open: map<Scope, Instance>, entries: map<Scope, nat>)

  function EntriesOf(w: World, s: Scope): nat {
    if s in w.entries then w.entries[s] else 0
  }

  /** Each core counts enough foreign blocks. */
  ghost predicate Counted(foreign: set<Tag>, cnn: Tag -> nat) {
    forall t :: |foreign - {t}| <= cnn(t)
  }

  ghost predicate EventPossible(x: Scopes, w: World, e: Event, foreign: set<Tag>, ways: nat) {
    match e
    case LeaveScope(s) => EntriesOf(w, s) > 0
    case Foreign(t) => t in foreign
    case Merge(other) => ScopesValid(other, ways) && SameScopes(x, other)
    case _ => true
  }

  function Analyse(x: Scopes, e: Event, ways: nat): Scopes
    requires e.Merge? ==> x.info.Keys <= e.other.info.Keys
  {
    match e
    case EnterScope(s) => Enter(x, s)
    case LeaveScope(s) => Leave(x, s)
    case Known(t, ref) => ScopesUpdate(x, t, ref, ways)
    case Unknowable(_) => ScopesPotential(x)
    case Foreign(_) => x
    case Merge(other) => ScopesJoin(x, other, ways)
  }

  function Noted(i: Instance, t: Tag, missed: bool): Instance {
    Instance(i.seen + {t}, if missed then i.misses + multiset{t} else i.misses)
  }

  function Execute(w: World, x: Scopes, e: Event, cnn: Tag -> nat, ways: nat): World {
    match e
    case EnterScope(s) =>
      w.(open := if EntriesOf(w, s) == 0 then w.open[s := Instance({}, multiset{})] else w.open,
         entries := w.entries[s := EntriesOf(w, s) + 1])
    case LeaveScope(s) =>
      if EntriesOf(w, s) > 1 then w.(entries := w.entries[s := EntriesOf(w, s) - 1])
      else w.(open := w.open - {s}, entries := w.entries - {s})
    case Known(t, _) =>
      w.(own := Touch(w.own, t), shared := Touch(w.shared, t),
         open := map s | s in w.open ::
           Noted(w.open[s], t, s in PersistentScopes(x, t, cnn(t), ways) && !Cached(w.shared, t, ways)))
    case Unknowable(actual) =>
      if actual.Some? then w.(own := Touch(w.own, actual.value), shared := Touch(w.shared, actual.value)) else w
    case Foreign(t) => w.(shared := Touch(w.shared, t))
    case Merge(_) => w
  }

  ghost predicate InstanceGood(m: ConflictMap, own: Stack, i: Instance) {
    && ElementDescribes(m, own, i.seen)
    && forall t :: i.misses[t] <= (if t in i.seen then 1 else 0)
  }

  ghost predicate Consistent(x: Scopes, w: World, foreign: set<Tag>, ways: nat) {
    && ScopesValid(x, ways) && x.info.Keys == w.open.Keys && x.entered == w.entries
    && Interfered(w.own, w.shared, foreign)
    && forall s :: s in x.info ==> InstanceGood(x.info[s], w.own, w.open[s])
  }

  /** An access that is called persistent can miss only if it is the first of its
      instance. */
  lemma OneMoreMiss(m: ConflictMap, w: World, i: Instance, t: Tag, foreign: set<Tag>, cnn: nat, ways: nat)
    requires InstanceGood(m, w.own, i) && Interfered(w.own, w.shared, foreign) && |foreign - {t}| <= cnn
    ensures var i' := Noted(i, t, IsPersistent(m, t, cnn, ways) && !Cached(w.shared, t, ways));
      forall u :: i'.misses[u] <= (if u in i'.seen then 1 else 0)
  {
    if t in i.seen && IsPersistent(m, t, cnn, ways) {
      PersistentIsCached(m, w.own, w.shared, i.seen, foreign, t, cnn, ways);
    }
  }

  lemma InstanceUpdate(m: ConflictMap, w: World, i: Instance, t: Tag, ref: nat, foreign: set<Tag>, cnn: nat, ways: nat)
    requires 1 <= ways && ElementsValid(m, ways)
    requires InstanceGood(m, w.own, i) && Interfered(w.own, w.shared, foreign) && |foreign - {t}| <= cnn
    ensures ElementsValid(ElementUpdate(m, t, ref, ways), ways)
    ensures InstanceGood(ElementUpdate(m, t, ref, ways), Touch(w.own, t),
                         Noted(i, t, IsPersistent(m, t, cnn, ways) && !Cached(w.shared, t, ways)))
  {
    ElementStepsValid(m, t, ref, ways);
    ElementUpdateSound(m, w.own, i.seen, t, ref, ways);
    OneMoreMiss(m, w, i, t, foreign, cnn, ways);
  }

  lemma UpdateScope(x: Scopes, w: World, s: Scope, t: Tag, ref: nat, foreign: set<Tag>, cnn: nat, ways: nat)
    requires 1 <= ways && s in x.info && s in w.open && ElementsValid(x.info[s], ways)
    requires InstanceGood(x.info[s], w.own, w.open[s]) && Interfered(w.own, w.shared, foreign)
    requires |foreign - {t}| <= cnn
    ensures ElementsValid(ElementUpdate(x.info[s], t, ref, ways), ways)
    ensures InstanceGood(ElementUpdate(x.info[s], t, ref, ways), Touch(w.own, t),
                         Noted(w.open[s], t, s in PersistentScopes(x, t, cnn, ways) && !Cached(w.shared, t, ways)))
  {
    assert s in PersistentScopes(x, t, cnn, ways) <==> IsPersistent(x.info[s], t, cnn, ways);
    InstanceUpdate(x.info[s], w, w.open[s], t, ref, foreign, cnn, ways);
  }

  lemma UpdateScopes(x: Scopes, w: World, t: Tag, ref: nat, foreign: set<Tag>, cnn: nat, ways: nat)
    requires 1 <= ways && Consistent(x, w, foreign, ways) && |foreign - {t}| <= cnn
    ensures forall s :: s in x.info ==>
      && ElementsValid(ElementUpdate(x.info[s], t, ref, ways), ways)
      && InstanceGood(ElementUpdate(x.info[s], t, ref, ways), Touch(w.own, t),
                      Noted(w.open[s], t, s in PersistentScopes(x, t, cnn, ways) && !Cached(w.shared, t, ways)))
  {
    forall s | s in x.info
      ensures ElementsValid(ElementUpdate(x.info[s], t, ref, ways), ways)
      ensures InstanceGood(ElementUpdate(x.info[s], t, ref, ways), Touch(w.own, t),
                           Noted(w.open[s], t, s in PersistentScopes(x, t, cnn, ways) && !Cached(w.shared, t, ways)))
    {
      UpdateScope(x, w, s, t, ref, foreign, cnn, ways);
    }
  }

  lemma UpdateConsistent(x: Scopes, w: World, t: Tag, ref: nat, foreign: set<Tag>, cnn: Tag -> nat, ways: nat)
    requires 1 <= ways && Consistent(x, w, foreign, ways) && Counted(foreign, cnn)
    ensures Consistent(ScopesUpdate(x, t, ref, ways), Execute(w, x, Known(t, ref), cnn, ways), foreign, ways)
  {
    InterferedStep(w.own, w.shared, foreign, Own(t));
    UpdateScopes(x, w, t, ref, foreign, cnn(t), ways);
  }

  lemma PotentialConsistent(x: Scopes, w: World, actual: Option<Tag>, foreign: set<Tag>, cnn: Tag -> nat, ways: nat)
    requires 1 <= ways && Consistent(x, w, foreign, ways)
    ensures Consistent(ScopesPotential(x), Execute(w, x, Unknowable(actual), cnn, ways), foreign, ways)
  {
    var x', w' := ScopesPotential(x), Execute(w, x, Unknowable(actual), cnn, ways);
    if actual.Some? {
      InterferedStep(w.own, w.shared, foreign, Own(actual.value));
    }
    forall s | s in x.info
      ensures ElementsValid(x'.info[s], ways) && InstanceGood(x'.info[s], w'.own, w'.open[s])
    {
      ElementStepsValid(x.info[s], 0, 0, ways);
      ElementPotentialSound(x.info[s], w.own, w.open[s].seen, if actual.Some? then actual.value else 0);
    }
  }

  lemma JoinConsistent(x: Scopes, w: World, other: Scopes, foreign: set<Tag>, ways: nat)
    requires Consistent(x, w, foreign, ways) && ScopesValid(other, ways) && SameScopes(x, other)
    ensures Consistent(ScopesJoin(x, other, ways), w, foreign, ways)
  {
    forall s | s in x.info
      ensures ElementsValid(ElementJoin(x.info[s], other.info[s], ways), ways)
      ensures InstanceGood(ElementJoin(x.info[s], other.info[s], ways), w.own, w.open[s])
    {
      ElementJoinIsLub(x.info[s], other.info[s], other.info[s], ways);
      ElementLeqSound(x.info[s], ElementJoin(x.info[s], other.info[s], ways), w.own, w.open[s].seen);
    }
  }

  /** A scope that was not open starts with nothing known and nothing seen. */
  lemma EnterOpens(x: Scopes, w: World, s: Scope, cnn: Tag -> nat, ways: nat)
    requires x.info.Keys == w.open.Keys == x.entered.Keys && x.entered == w.entries
    requires forall u :: u in x.entered ==> x.entered[u] >= 1
    ensures var x', w' := Enter(x, s), Execute(w, x, EnterScope(s), cnn, ways);
      && x'.info == (if s in x.info then x.info else x.info[s := map[]]) && x'.entered == w'.entries
      && w' == w.(open := if s in x.info then w.open else w.open[s := Instance({}, multiset{})], entries := x'.entered)
      && x'.entered.Keys == x'.info.Keys && forall u :: u in x'.entered ==> x'.entered[u] >= 1
  {
  }

  lemma LeaveCloses(x: Scopes, w: World, s: Scope, cnn: Tag -> nat, ways: nat)
    requires x.info.Keys == w.open.Keys == x.entered.Keys && x.entered == w.entries
    requires forall u :: u in x.entered ==> x.entered[u] >= 1
    ensures var x', w' := Leave(x, s), Execute(w, x, LeaveScope(s), cnn, ways);
      && x'.info == (if EntriesOf(w, s) > 1 then x.info else x.info - {s}) && x'.entered == w'.entries
      && w' == w.(open := if EntriesOf(w, s) > 1 then w.open else w.open - {s}, entries := x'.entered)
      && x'.entered.Keys == x'.info.Keys && forall u :: u in x'.entered ==> x'.entered[u] >= 1
  {
  }

  lemma EnterConsistent(x: Scopes, w: World, s: Scope, foreign: set<Tag>, cnn: Tag -> nat, ways: nat)
    requires Consistent(x, w, foreign, ways)
    ensures Consistent(Enter(x, s), Execute(w, x, EnterScope(s), cnn, ways), foreign, ways)
  {
    EnterOpens(x, w, s, cnn, ways);
  }

  lemma LeaveConsistent(x: Scopes, w: World, s: Scope, foreign: set<Tag>, cnn: Tag -> nat, ways: nat)
    requires Consistent(x, w, foreign, ways) && EntriesOf(w, s) > 0
    ensures Consistent(Leave(x, s), Execute(w, x, LeaveScope(s), cnn, ways), foreign, ways)
  {
    LeaveCloses(x, w, s, cnn, ways);
  }

  lemma EventConsistent(x: Scopes, w: World, e: Event, foreign: set<Tag>, cnn: Tag -> nat, ways: nat)
    requires 1 <= ways && Consistent(x, w, foreign, ways) && Counted(foreign, cnn)
    requires EventPossible(x, w, e, foreign, ways)
    ensures Consistent(Analyse(x, e, ways), Execute(w, x, e, cnn, ways), foreign, ways)
  {
    match e
    case EnterScope(s) => EnterConsistent(x, w, s, foreign, cnn, ways);
    case LeaveScope(s) => LeaveConsistent(x, w, s, foreign, cnn, ways);
    case Known(t, ref) => UpdateConsistent(x, w, t, ref, foreign, cnn, ways);
    case Unknowable(actual) => PotentialConsistent(x, w, actual, foreign, cnn, ways);
    case Foreign(t) => InterferedStep(w.own, w.shared, foreign, Other(t));
    case Merge(other) => JoinConsistent(x, w, other, foreign, ways);
  }

  /** A path of events, with the state of the analysis and of the world before each and
      after the last. */
  ghost predicate IsRun(xs: seq<Scopes>, ws: seq<World>, es: seq<Event>, foreign: set<Tag>, cnn: Tag -> nat,
                        ways: nat) {
    && |xs| == |ws| == |es| + 1
    && forall i :: 0 <= i < |es| ==>
         && EventPossible(xs[i], ws[i], es[i], foreign, ways)
         && xs[i + 1] == Analyse(xs[i], es[i], ways)
         && ws[i + 1] == Execute(ws[i], xs[i], es[i], cnn, ways)
  }

  /** How often a scope was entered in the first `n` events, less how often it was left. */
  function Balance(es: seq<Event>, n: nat, s: Scope): int
    requires n <= |es|
  {
    if n == 0 then 0
    else
      Balance(es, n - 1, s)
      + (if es[n - 1] == EnterScope(s) then 1 else if es[n - 1] == LeaveScope(s) then -1 else 0)
  }

  lemma EntriesStep(w: World, x: Scopes, e: Event, cnn: Tag -> nat, ways: nat, s: Scope)
    requires e.LeaveScope? ==> EntriesOf(w, e.scope) > 0
    ensures EntriesOf(Execute(w, x, e, cnn, ways), s)
         == EntriesOf(w, s) + (if e == EnterScope(s) then 1 else if e == LeaveScope(s) then -1 else 0)
  {
  }

  lemma {:induction false} EntriesAreBalance(xs: seq<Scopes>, ws: seq<World>, es: seq<Event>, foreign: set<Tag>,
                                             cnn: Tag -> nat, ways: nat, n: nat, s: Scope)
    requires IsRun(xs, ws, es, foreign, cnn, ways) && ws[0].entries == map[] && n <= |es|
    ensures EntriesOf(ws[n], s) == Balance(es, n, s)
  {
    if n > 0 {
      EntriesAreBalance(xs, ws, es, foreign, cnn, ways, n - 1, s);
      EntriesStep(ws[n - 1], xs[n - 1], es[n - 1], cnn, ways, s);
    }
  }

  /** On every path, in every instance of every scope, every block misses at most once on
      an access that is called persistent there: whatever is joined, however imprecise
      accesses fall, and however other cores interleave. */
  lemma {:induction false} AtMostOneMiss(xs: seq<Scopes>, ws: seq<World>, es: seq<Event>, foreign: set<Tag>,
                                         cnn: Tag -> nat, ways: nat, n: nat)
    requires 1 <= ways && Counted(foreign, cnn) && IsRun(xs, ws, es, foreign, cnn, ways)
    requires xs[0] == Scopes(map[], map[])
    requires ws[0].open == map[] && ws[0].entries == map[] && ws[0].own == ws[0].shared && Distinct(ws[0].own)
    requires n <= |es|
    ensures Consistent(xs[n], ws[n], foreign, ways)
    ensures forall s :: s in xs[n].info <==> Balance(es, n, s) > 0
    ensures forall s, t :: s in ws[n].open ==> ws[n].open[s].misses[t] <= 1
  {
    if n > 0 {
      AtMostOneMiss(xs, ws, es, foreign, cnn, ways, n - 1);
      EventConsistent(xs[n - 1], ws[n - 1], es[n - 1], foreign, cnn, ways);
    }
    forall s ensures s in xs[n].info <==> Balance(es, n, s) > 0 {
      EntriesAreBalance(xs, ws, es, foreign, cnn, ways, n, s);
    }
    forall s, t | s in ws[n].open ensures ws[n].open[s].misses[t] <= 1 {
      assert InstanceGood(xs[n].info[s], ws[n].own, ws[n].open[s]);
    }
  }

  /** At any point, a block accessed in this instance and persistent in its scope is in the
      cache. */
  lemma PersistentStays(x: Scopes, w: World, s: Scope, t: Tag, foreign: set<Tag>, cnn: Tag -> nat, ways: nat)
    requires Consistent(x, w, foreign, ways) && Counted(foreign, cnn)
    requires s in PersistentScopes(x, t, cnn(t), ways) && t in w.open[s].seen
    ensures Cached(w.shared, t, ways)
  {
    assert InstanceGood(x.info[s], w.own, w.open[s]);
    PersistentIsCached(x.info[s], w.own, w.shared, w.open[s].seen, foreign, t, cnn(t), ways);
  }

  // ---- how much is known ------------------------------------------------------------------

  /** What was accessed since a block was, the block included. */
  function Since(s: Stack, t: Tag): set<Tag> {
    Younger(s, t) + {t}
  }

  /** The conflict set is these blocks, or top if they are too many. */
  predicate Holds(c: Conflicts, blocks: set<Tag>, ways: nat) {
    if |blocks| <= ways then c.Accessed? && c.blocks == blocks else c.Top?
  }

  lemma InsertHolds(c: Conflicts, blocks: set<Tag>, t: Tag, ways: nat)
    requires Holds(c, blocks, ways)
    ensures Holds(Insert(c, t, ways), blocks + {t}, ways)
  {
    SubsetSize(blocks, blocks + {t});
    if t in blocks {
      assert blocks + {t} == blocks;
    }
  }

  /** The conflict set of each block seen is what was accessed since, or top if that is too
      much. */
  ghost predicate ExactMap(m: ConflictMap, s: Stack, seen: set<Tag>, ways: nat) {
    m.Keys == seen && forall t :: t in seen ==> t in s && Holds(m[t], Since(s, t), ways)
  }

  lemma AddBoth(y: set<Tag>, t: Tag, u: Tag)
    ensures (y + {t}) + {u} == (y + {u}) + {t}
  {
  }

  lemma InsertExact(c: Conflicts, s: Stack, t: Tag, u: Tag, ways: nat)
    requires Distinct(s) && u in s && u != t && Holds(c, Since(s, u), ways)
    ensures u in Touch(s, t) && Holds(Insert(c, t, ways), Since(Touch(s, t), u), ways)
  {
    YoungerTouch(s, t, u);
    AddBoth(Younger(s, u), t, u);
    InsertHolds(c, Since(s, u), t, ways);
  }

  lemma FreshExact(s: Stack, t: Tag, ref: nat, ways: nat)
    requires Distinct(s) && 1 <= ways
    ensures t in Touch(s, t) && Holds(Insert(Accessed(ref, {}), t, ways), Since(Touch(s, t), t), ways)
  {
    YoungerTouch(s, t, t);
    assert Since(Touch(s, t), t) == {t};
  }

  lemma ElementUpdateExact(m: ConflictMap, s: Stack, seen: set<Tag>, t: Tag, ref: nat, ways: nat)
    requires Distinct(s) && 1 <= ways && ExactMap(m, s, seen, ways)
    ensures ExactMap(ElementUpdate(m, t, ref, ways), Touch(s, t), seen + {t}, ways)
  {
    forall u | u in seen + {t}
      ensures u in Touch(s, t) && Holds(ElementUpdate(m, t, ref, ways)[u], Since(Touch(s, t), u), ways)
    {
      if u == t {
        FreshExact(s, t, ref, ways);
      } else {
        InsertExact(m[u], s, t, u, ways);
      }
    }
  }

  /** Then a block is called persistent, with so many foreign blocks counted, exactly if these
      and what was accessed since leave it in the cache. */
  lemma ExactIsPersistent(m: ConflictMap, s: Stack, seen: set<Tag>, t: Tag, cnn: nat, ways: nat)
    requires Distinct(s) && ExactMap(m, s, seen, ways)
    ensures IsPersistent(m, t, cnn, ways) <==> t in seen && |Younger(s, t)| + cnn < ways
    ensures IsPersistent(m, t, 0, ways) <==> t in seen && Cached(s, t, ways)
  {
    if t in seen {
      YoungerIsPrefix(s, t);
      assert |Since(s, t)| == |Younger(s, t)| + 1;
      AgeCountsYounger(s, t, ways);
    }
  }

  ghost predicate ExactScopes(x: Scopes, w: World, ways: nat) {
    && Distinct(w.own) && x.info.Keys == w.open.Keys && x.entered == w.entries && x.info.Keys == x.entered.Keys
    && (forall s :: s in x.entered ==> x.entered[s] >= 1)
    && forall s :: s in x.info ==> ExactMap(x.info[s], w.own, w.open[s].seen, ways)
  }

  lemma KnownExact(x: Scopes, w: World, t: Tag, ref: nat, cnn: Tag -> nat, ways: nat)
    requires 1 <= ways && ExactScopes(x, w, ways)
    ensures ExactScopes(ScopesUpdate(x, t, ref, ways), Execute(w, x, Known(t, ref), cnn, ways), ways)
  {
    TouchDistinct(w.own, t);
    forall s | s in x.info
      ensures ExactMap(ElementUpdate(x.info[s], t, ref, ways), Touch(w.own, t), w.open[s].seen + {t}, ways)
    {
      ElementUpdateExact(x.info[s], w.own, w.open[s].seen, t, ref, ways);
    }
  }

  lemma EnterExact(x: Scopes, w: World, s: Scope, cnn: Tag -> nat, ways: nat)
    requires ExactScopes(x, w, ways)
    ensures ExactScopes(Enter(x, s), Execute(w, x, EnterScope(s), cnn, ways), ways)
  {
    EnterOpens(x, w, s, cnn, ways);
    NewExact(x.info, w.open, w.own, s, ways);
  }

  /** Nothing is known, and nothing seen, in a new scope. */
  lemma NewExact(info: map<Scope, ConflictMap>, open: map<Scope, Instance>, own: Stack, s: Scope, ways: nat)
    requires info.Keys == open.Keys && forall u :: u in info ==> ExactMap(info[u], own, open[u].seen, ways)
    ensures var info', open' := info[s := map[]], open[s := Instance({}, multiset{})];
      info'.Keys == open'.Keys && forall u :: u in info' ==> ExactMap(info'[u], own, open'[u].seen, ways)
  {
    var info', open' := info[s := map[]], open[s := Instance({}, multiset{})];
    forall u | u in info' ensures ExactMap(info'[u], own, open'[u].seen, ways) {
      assert u != s ==> u in info;
    }
  }

  lemma LeaveExact(x: Scopes, w: World, s: Scope, cnn: Tag -> nat, ways: nat)
    requires ExactScopes(x, w, ways)
    ensures ExactScopes(Leave(x, s), Execute(w, x, LeaveScope(s), cnn, ways), ways)
  {
    LeaveCloses(x, w, s, cnn, ways);
  }

  lemma EventExact(x: Scopes, w: World, e: Event, foreign: set<Tag>, cnn: Tag -> nat, ways: nat)
    requires 1 <= ways && ExactScopes(x, w, ways) && EventPossible(x, w, e, foreign, ways)
    requires !e.Unknowable? && !e.Merge?
    ensures ExactScopes(Analyse(x, e, ways), Execute(w, x, e, cnn, ways), ways)
  {
    match e
    case EnterScope(s) => EnterExact(x, w, s, cnn, ways);
    case LeaveScope(s) => LeaveExact(x, w, s, cnn, ways);
    case Known(t, ref) => KnownExact(x, w, t, ref, cnn, ways);
    case Foreign(_) =>
  }

  lemma {:induction false} RunExact(xs: seq<Scopes>, ws: seq<World>, es: seq<Event>, foreign: set<Tag>,
                                    cnn: Tag -> nat, ways: nat, n: nat)
    requires 1 <= ways && IsRun(xs, ws, es, foreign, cnn, ways) && n <= |es|
    requires xs[0] == Scopes(map[], map[])
    requires ws[0].open == map[] && ws[0].entries == map[] && Distinct(ws[0].own)
    requires forall i :: 0 <= i < |es| ==> !es[i].Unknowable? && !es[i].Merge?
    ensures ExactScopes(xs[n], ws[n], ways)
  {
    if n > 0 {
      RunExact(xs, ws, es, foreign, cnn, ways, n - 1);
      EventExact(xs[n - 1], ws[n - 1], es[n - 1], foreign, cnn, ways);
    }
  }

  /** On paths of accesses to known blocks, and without joins, the persistent scopes of a block are
      just the open ones in which it was accessed, if it is still cached. */
  lemma PersistentExactly(xs: seq<Scopes>, ws: seq<World>, es: seq<Event>, foreign: set<Tag>, cnn: Tag -> nat,
                          ways: nat, n: nat, s: Scope, t: Tag)
    requires 1 <= ways && IsRun(xs, ws, es, foreign, cnn, ways) && n <= |es|
    requires xs[0] == Scopes(map[], map[])
    requires ws[0].open == map[] && ws[0].entries == map[] && Distinct(ws[0].own)
    requires forall i :: 0 <= i < |es| ==> !es[i].Unknowable? && !es[i].Merge?
    ensures s in PersistentScopes(xs[n], t, 0, ways)
       <==> Balance(es, n, s) > 0 && s in ws[n].open && t in ws[n].open[s].seen && Cached(ws[n].own, t, ways)
  {
    RunExact(xs, ws, es, foreign, cnn, ways, n);
    EntriesAreBalance(xs, ws, es, foreign, cnn, ways, n, s);
    if s in xs[n].info {
      ExactIsPersistent(xs[n].info[s], ws[n].own, ws[n].open[s].seen, t, 0, ways);
    }
  }

  /** The blocks of accesses to known blocks. */
  function Named(inputs: seq<Input>): set<Tag> {
    if inputs == [] then {} else (if inputs[0].Precise? then {inputs[0].tag} else {}) + Named(inputs[1..])
  }

  /** One conflict set for the whole set is all blocks accessed, or top if they are too many. */
  lemma {:induction false} SetWiseExactly(c: Conflicts, before: set<Tag>, inputs: seq<Input>, ways: nat)
    requires forall i :: 0 <= i < |inputs| ==> inputs[i].Precise?
    requires c == if |before| <= ways then Accessed(c.ref, before) else Top(c.ref)
    ensures var all := before + Named(inputs);
      SetWiseRun(c, inputs, ways) == if |all| <= ways then Accessed(c.ref, all) else Top(c.ref)
    decreases inputs
  {
    if inputs == [] {
      assert before + {} == before;
    } else {
      var t := inputs[0].tag;
      SubsetSize(before, before + {t});
      if t in before {
        assert before + {t} == before;
      }
      SetWiseExactly(Insert(c, t, ways), before + {t}, inputs[1..], ways);
      assert before + Named(inputs) == before + {t} + Named(inputs[1..]);
    }
  }

  // ---- the count made from the references ------------------------------------------------

  /** The foreign blocks the program counts: in a shared level, those of the set of the
      reference. */
  function CountFor(t: Traits, foreign: seq<Address>, shared: bool, ref: nat, tag: Tag): nat
    requires TraitsValid(t)
  {
    if shared then A.ConflictCount(t, foreign, IndexOf(t, ref), tag) else 0
  }

  predicate CalledPersistent(m: ConflictMap, t: Traits, foreign: seq<Address>, shared: bool, tag: Tag)
    requires TraitsValid(t)
  {
    tag in m && Fits(m[tag], CountFor(t, foreign, shared, m[tag].ref, tag), t.ways)
  }

  function ScopesCalled(x: Scopes, t: Traits, foreign: seq<Address>, shared: bool, tag: Tag): (r: set<Scope>)
    requires TraitsValid(t)
  {
    set s | s in x.info && CalledPersistent(x.info[s], t, foreign, shared, tag)
  }

  /** All references are addresses of one cache set. */
  ghost predicate RefsIn(x: Scopes, t: Traits, index: nat)
    requires TraitsValid(t)
  {
    forall s, b :: s in x.info && b in x.info[s] ==> IndexOf(t, x.info[s][b].ref) == index
  }

  ghost predicate EventRefsIn(e: Event, t: Traits, index: nat)
    requires TraitsValid(t)
  {
    match e
    case Known(_, ref) => IndexOf(t, ref) == index
    case Merge(other) => RefsIn(other, t, index)
    case _ => true
  }

  lemma JoinRefsIn(x: Scopes, other: Scopes, t: Traits, index: nat)
    requires TraitsValid(t) && RefsIn(x, t, index) && RefsIn(other, t, index) && x.info.Keys <= other.info.Keys
    ensures RefsIn(ScopesJoin(x, other, t.ways), t, index)
  {
  }

  lemma ElementUpdateRefs(m: ConflictMap, t: Traits, index: nat, tag: Tag, ref: nat)
    requires TraitsValid(t) && IndexOf(t, ref) == index
    requires forall b :: b in m ==> IndexOf(t, m[b].ref) == index
    ensures forall b :: b in ElementUpdate(m, tag, ref, t.ways) ==>
      IndexOf(t, ElementUpdate(m, tag, ref, t.ways)[b].ref) == index
  {
  }

  lemma UpdateRefsIn(x: Scopes, t: Traits, index: nat, tag: Tag, ref: nat)
    requires TraitsValid(t) && RefsIn(x, t, index) && IndexOf(t, ref) == index
    ensures RefsIn(ScopesUpdate(x, tag, ref, t.ways), t, index)
  {
    forall s | s in x.info
      ensures forall b :: b in ElementUpdate(x.info[s], tag, ref, t.ways) ==>
        IndexOf(t, ElementUpdate(x.info[s], tag, ref, t.ways)[b].ref) == index
    {
      ElementUpdateRefs(x.info[s], t, index, tag, ref);
    }
  }

  lemma RefsStayIn(x: Scopes, e: Event, t: Traits, index: nat)
    requires TraitsValid(t) && RefsIn(x, t, index) && EventRefsIn(e, t, index)
    requires e.Merge? ==> SameScopes(x, e.other)
    ensures RefsIn(Analyse(x, e, t.ways), t, index)
  {
    match e
    case Known(tag, ref) => UpdateRefsIn(x, t, index, tag, ref);
    case Merge(other) => JoinRefsIn(x, other, t, index);
    case _ =>
  }

  /** What other cores may bring into the set, and what is counted for it. */
  function Interferers(t: Traits, foreign: seq<Address>, shared: bool, index: nat): set<Tag>
    requires TraitsValid(t)
  {
    if shared then ForeignBlocks(t, foreign, index) else {}
  }

  function Counts(t: Traits, foreign: seq<Address>, shared: bool, index: nat): Tag -> nat
    requires TraitsValid(t)
  {
    (tag: Tag) => if shared then A.ConflictCount(t, foreign, index, tag) else 0
  }

  lemma InterferersAreCounted(t: Traits, foreign: seq<Address>, shared: bool, index: nat)
    requires TraitsValid(t)
    ensures Counted(Interferers(t, foreign, shared, index), Counts(t, foreign, shared, index))
  {
    forall tag ensures |Interferers(t, foreign, shared, index) - {tag}| <= Counts(t, foreign, shared, index)(tag) {
      if shared {
        CountIsEnough(t, foreign, index, tag);
      }
    }
  }

  /** With the counts the program makes from the references, and the blocks the other cores
      use: the persistent scopes of a run are those the program finds, and in every instance
      of every scope a block misses at most once on accesses called persistent. */
  lemma {:induction false} AtMostOneMissAsCounted(t: Traits, foreign: seq<Address>, shared: bool, index: nat,
                                                  xs: seq<Scopes>, ws: seq<World>, es: seq<Event>, n: nat)
    requires TraitsValid(t) && n <= |es|
    requires IsRun(xs, ws, es, Interferers(t, foreign, shared, index), Counts(t, foreign, shared, index), t.ways)
    requires forall i :: 0 <= i < |es| ==> EventRefsIn(es[i], t, index)
    requires xs[0] == Scopes(map[], map[])
    requires ws[0].open == map[] && ws[0].entries == map[] && ws[0].own == ws[0].shared && Distinct(ws[0].own)
    ensures RefsIn(xs[n], t, index)
    ensures forall tag :: ScopesCalled(xs[n], t, foreign, shared, tag)
                       == PersistentScopes(xs[n], tag, Counts(t, foreign, shared, index)(tag), t.ways)
    ensures forall s, tag :: s in ws[n].open ==> ws[n].open[s].misses[tag] <= 1
  {
    var others, cnn := Interferers(t, foreign, shared, index), Counts(t, foreign, shared, index);
    if n > 0 {
      AtMostOneMissAsCounted(t, foreign, shared, index, xs, ws, es, n - 1);
      RefsStayIn(xs[n - 1], es[n - 1], t, index);
    }
    InterferersAreCounted(t, foreign, shared, index);
    AtMostOneMiss(xs, ws, es, others, cnn, t.ways, n);
    forall tag
      ensures ScopesCalled(xs[n], t, foreign, shared, tag) == PersistentScopes(xs[n], tag, cnn(tag), t.ways)
    {
      CalledIsPersistent(xs[n], t, foreign, shared, index, tag);
    }
  }

  lemma CalledIsPersistent(x: Scopes, t: Traits, foreign: seq<Address>, shared: bool, index: nat, tag: Tag)
    requires TraitsValid(t) && RefsIn(x, t, index)
    ensures ScopesCalled(x, t, foreign, shared, tag)
         == PersistentScopes(x, tag, Counts(t, foreign, shared, index)(tag), t.ways)
  {
    forall s | s in x.info
      ensures CalledPersistent(x.info[s], t, foreign, shared, tag)
         <==> IsPersistent(x.info[s], tag, Counts(t, foreign, shared, index)(tag), t.ways)
    {
    }
  }

  // ---- which set the foreign blocks are counted for --------------------------------------

  /** The foreign blocks are counted for the set of the reference. That is enough for a
      cache set, whatever the other cores use, exactly if the reference is in that set. */
  lemma CountsTheRightSetIff(t: Traits, ref: nat, index: nat)
    requires TraitsValid(t) && index < t.nSets
    ensures (forall foreign, tag :: |ForeignBlocks(t, foreign, index) - {tag}|
                                    <= A.ConflictCount(t, foreign, IndexOf(t, ref), tag))
       <==> IndexOf(t, ref) == index
  {
    forall foreign, tag | IndexOf(t, ref) == index
      ensures |ForeignBlocks(t, foreign, index) - {tag}| <= A.ConflictCount(t, foreign, IndexOf(t, ref), tag)
    {
      CountIsEnough(t, foreign, index, tag);
    }
    if IndexOf(t, ref) != index {
      var a := FirstAddress(t, index);
      assert IndexOf(t, [a][0]) == index;
      assert TagOf(t, a) in ForeignBlocks(t, [a], index);
      var others := ForeignBlocks(t, [a], index) - {TagOf(t, a) + 1};
      assert TagOf(t, a) in others;
      assert |others| > 0;
      assert A.ConflictCount(t, [a][1..], IndexOf(t, ref), TagOf(t, a) + 1) == 0;
      assert A.ConflictCount(t, [a], IndexOf(t, ref), TagOf(t, a) + 1) == 0;
    }
  }

  /** The cache passes line addresses to its sets, and a block has one: so in one set, equal
      blocks have equal references, as JoinIsAboveRightIff wants. */
  lemma OneReferencePerBlock(t: Traits, a: Address, b: Address)
    requires TraitsValid(t) && TagOf(t, a) == TagOf(t, b) && IndexOf(t, a) == IndexOf(t, b)
    ensures Align(t, a) == Align(t, b) && IndexOf(t, Align(t, a)) == IndexOf(t, a)
  {
    assert Line(t, a) == TagOf(t, a) * t.nSets + IndexOf(t, a);
    assert Line(t, b) == TagOf(t, b) * t.nSets + IndexOf(t, b);
    AlignedLine(t, a);
  }

  lemma FirstAddress(t: Traits, index: nat) returns (a: Address)
    requires TraitsValid(t) && index < t.nSets
    ensures IndexOf(t, a) == index
  {
    Distribute(index, 1, t.lineSize);
    MulLeq(index + 1, t.nSets, t.lineSize);
    assert index * t.lineSize < ADDRESS_SPACE;
    a := index * t.lineSize;
    DivIs(a, index, t.lineSize);
    DivIs(index, 0, t.nSets);
  }

  /** Whether every block that a conflict set with this reference calls persistent is cached
      in every interleaving, whatever the other cores use. */
  ghost predicate SetWiseIsSound(t: Traits, ref: nat, index: nat)
    requires TraitsValid(t)
  {
    forall foreign, s, steps, c, seen, tag :: SoundFor(t, ref, index, foreign, s, steps, c, seen, tag)
  }

  ghost predicate SoundFor(t: Traits, ref: nat, index: nat, foreign: seq<Address>, s: Stack, steps: seq<Step>,
                           c: Conflicts, seen: set<Tag>, tag: Tag)
    requires TraitsValid(t)
  {
    && Distinct(s) && Draws(steps, ForeignBlocks(t, foreign, index))
    && c.ref == ref && SetWiseDescribes(c, OwnRun(s, steps), seen) && tag in seen
    && Fits(c, A.ConflictCount(t, foreign, IndexOf(t, ref), tag), t.ways)
    ==> Cached(SharedRun(s, steps), tag, t.ways)
  }

  /** In a shared level a block called persistent by the conflict set of a whole cache set is
      cached in every interleaving exactly if the reference lies in that set. Conflict sets of
      whole cache sets have reference 0, so this holds of the first set only. */
  lemma SharedSetWiseIff(t: Traits, ref: nat, index: nat)
    requires TraitsValid(t) && index < t.nSets
    ensures SetWiseIsSound(t, ref, index) <==> IndexOf(t, ref) == index
  {
    if IndexOf(t, ref) == index {
      forall foreign, s, steps, c, seen, tag ensures SoundFor(t, ref, index, foreign, s, steps, c, seen, tag) {
        SharedSetWiseSound(t, ref, index, foreign, s, steps, c, seen, tag);
      }
    } else {
      var foreign, s, steps, c, tag := SharedSetWiseIsUnsound(t, ref, index);
      assert !SoundFor(t, ref, index, foreign, s, steps, c, {tag}, tag);
    }
  }

  lemma SharedSetWiseSound(t: Traits, ref: nat, index: nat, foreign: seq<Address>, s: Stack, steps: seq<Step>,
                           c: Conflicts, seen: set<Tag>, tag: Tag)
    requires TraitsValid(t) && IndexOf(t, ref) == index
    ensures SoundFor(t, ref, index, foreign, s, steps, c, seen, tag)
  {
    var others := ForeignBlocks(t, foreign, index);
    if Distinct(s) && Draws(steps, others) && SetWiseDescribes(c, OwnRun(s, steps), seen) && tag in seen
       && Fits(c, A.ConflictCount(t, foreign, index, tag), t.ways)
    {
      InterferedRun(s, s, others, steps);
      CountIsEnough(t, foreign, index, tag);
      SetWiseIsCached(c, OwnRun(s, steps), SharedRun(s, steps), seen, others, tag,
                      A.ConflictCount(t, foreign, index, tag), t.ways);
    }
  }

  /** The oldest block of a full set is evicted by any other. */
  lemma OldestIsEvicted(s: Stack, other: Tag, ways: nat)
    requires Distinct(s) && 1 <= ways == |s| && other !in s
    ensures !Cached(Touch(s, other), s[ways - 1], ways)
  {
    AgeAt(s, ways - 1, ways);
    AgeAbsent(s, other, ways);
    TouchAge(s, other, s[ways - 1], ways);
  }

  /** An address of another set is not counted. */
  lemma NotCounted(t: Traits, a: Address, index: nat, tag: Tag)
    requires TraitsValid(t) && IndexOf(t, a) != index
    ensures A.ConflictCount(t, [a], index, tag) == 0
  {
    assert [a][1..] == [];
    assert A.ConflictCount(t, [], index, tag) == 0;
  }

  lemma OneForeign(t: Traits, a: Address)
    requires TraitsValid(t)
    ensures TagOf(t, a) in ForeignBlocks(t, [a], IndexOf(t, a))
  {
    assert [a][0] == a;
  }

  lemma OneOther(s: Stack, other: Tag)
    ensures OwnRun(s, [Other(other)]) == s && SharedRun(s, [Other(other)]) == Touch(s, other)
  {
    assert [Other(other)][1..] == [];
  }

  lemma AllSeen(s: Stack, tag: Tag, ref: nat)
    requires Distinct(s) && tag in s
    ensures SetWiseDescribes(Accessed(ref, Elements(s)), s, {tag})
  {
    YoungerIsPrefix(s, tag);
  }

  /** With the reference in another set, one foreign block evicts a block that is called
      persistent: the own blocks fill the ways, and the foreign one is not counted. */
  lemma SharedSetWiseIsUnsound(t: Traits, ref: nat, index: nat)
    returns (foreign: seq<Address>, s: Stack, steps: seq<Step>, c: Conflicts, tag: Tag)
    requires TraitsValid(t) && index < t.nSets && IndexOf(t, ref) != index
    ensures Distinct(s) && Draws(steps, ForeignBlocks(t, foreign, index))
    ensures c.ref == ref && SetWiseDescribes(c, OwnRun(s, steps), {tag})
    ensures Fits(c, A.ConflictCount(t, foreign, IndexOf(t, ref), tag), t.ways)
    ensures !Cached(SharedRun(s, steps), tag, t.ways)
  {
    var a := FirstAddress(t, index);
    var other := TagOf(t, a);
    foreign, steps, s := [a], [Other(other)], A.OtherBlocks(other, t.ways);
    tag := s[t.ways - 1];
    c := Accessed(ref, Elements(s));
    OneForeign(t, a);
    NotCounted(t, a, IndexOf(t, ref), tag);
    OneOther(s, other);
    ElementsSize(s);
    AllSeen(s, tag, ref);
    OldestIsEvicted(s, other, t.ways);
  }
}
