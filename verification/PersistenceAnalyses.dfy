/** The persistence analyses as the program has them: objects whose sets and maps are
    edited entry by entry. Each method does what the functions of Persistence.dfy say. */
module PersistenceAnalyses {
  import opened Lru
  import opened Persistence
  import opened AddressMapping
  import A = AbstractCache

  /** One conflict set for a whole cache set. */
  class SetWiseCountingPersistence {
    const ways: nat
    var ref: nat
    var top: bool
    var accessedBlocks: set<Tag>

    ghost predicate Valid()
      reads this
    {
      if top then accessedBlocks == {} else |accessedBlocks| <= ways
    }

    ghost function Value(): Conflicts
      reads this
    {
      if top then Top(ref) else Accessed(ref, accessedBlocks)
    }

    constructor (ways: nat, address: nat)
      ensures Valid() && this.ways == ways && Value() == Accessed(address, {})
    {
      this.ways, ref, top, accessedBlocks := ways, address, false, {};
    }

    method GotoTop()
      modifies `top, `accessedBlocks
      ensures Valid() && Value() == Top(ref)
    {
      top := true;
      accessedBlocks := {};
    }

    method Update(tag: Tag)
      requires Valid()
      modifies `top, `accessedBlocks
      ensures Valid() && Value() == Insert(old(Value()), tag, ways)
    {
      if top {
        return;
      }
      var inserted := tag !in accessedBlocks;
      if inserted {
        accessedBlocks := accessedBlocks + {tag};
        if |accessedBlocks| > ways {
          GotoTop();
        }
      } else {
        assert accessedBlocks + {tag} == accessedBlocks;
      }
    }

    /** An access nothing is known of, the array analysis being off. */
    method PotentialUpdate()
      requires Valid()
      modifies `top, `accessedBlocks
      ensures Valid() && Value() == Top(ref)
    {
      if top {
        return;
      }
      GotoTop();
    }

    method Join(y: SetWiseCountingPersistence)
      requires Valid() && y.Valid() && ways == y.ways
      modifies `top, `accessedBlocks
      ensures Valid() && Value() == Unite(old(Value()), old(y.Value()), ways)
    {
      if top || y.top {
        GotoTop();
        return;
      }
      accessedBlocks := accessedBlocks + y.accessedBlocks;
      if |accessedBlocks| > ways {
        GotoTop();
      }
    }

    method Equals(y: SetWiseCountingPersistence) returns (r: bool)
      requires Valid() && y.Valid()
      ensures r <==> Value() == y.Value()
    {
      if ref != y.ref {
        return false;
      }
      if top || y.top {
        return top == y.top;
      }
      r := accessedBlocks == y.accessedBlocks;
    }

    method LessEqual(y: SetWiseCountingPersistence) returns (r: bool)
      requires Valid() && y.Valid() && ways == y.ways
      ensures r <==> ConflictsLessEqual(Value(), y.Value(), ways)
    {
      var copy := new SetWiseCountingPersistence(ways, ref);
      copy.top, copy.accessedBlocks := top, accessedBlocks;
      copy.Join(y);
      r := copy.Equals(y);
    }

    /** In a shared level the foreign blocks of the set of the reference count too. */
    method IsPersistent(t: Traits, foreign: seq<Address>, shared: bool, tag: Tag) returns (r: bool)
      requires Valid() && TraitsValid(t)
      ensures r <==> Fits(Value(), if shared then A.ConflictCount(t, foreign, IndexOf(t, ref), tag) else 0, ways)
    {
      if shared {
        if top {
          return false;
        }
        var cnn := A.ConflictCount(t, foreign, IndexOf(t, ref), tag);
        r := |accessedBlocks| + cnn <= ways;
      } else {
        r := !top;
      }
    }
  }

  /** The block is in the conflict sets of all blocks but those in `todo`. */
  ghost predicate Inserted(m: ConflictMap, now: ConflictMap, todo: set<Tag>, tag: Tag, ways: nat) {
    && now.Keys == m.Keys
    && forall u :: u in m ==> now[u] == if u in todo then m[u] else Insert(m[u], tag, ways)
  }

  lemma InsertedStep(m: ConflictMap, now: ConflictMap, todo: set<Tag>, u: Tag, tag: Tag, ways: nat)
    requires Inserted(m, now, todo, tag, ways) && u in todo && u in m
    ensures Inserted(m, now[u := Insert(now[u], tag, ways)], todo - {u}, tag, ways)
  {
  }

  lemma AllInserted(before: ConflictMap, now: ConflictMap, tag: Tag, address: nat, ways: nat)
    requires Inserted(before[tag := Accessed(address, {})], now, {}, tag, ways)
    ensures now == ElementUpdate(before, tag, address, ways)
  {
    assert before[tag := Accessed(address, {})].Keys == before.Keys + {tag};
  }

  /** A conflict set for every block. */
  class ElementWiseCountingPersistence {
    const ways: nat
    var ele2conflicts: ConflictMap

    constructor (ways: nat)
      ensures this.ways == ways && ele2conflicts == map[]
    {
      this.ways, ele2conflicts := ways, map[];
    }

    method PotentialUpdate()
      modifies `ele2conflicts
      ensures ele2conflicts == ElementPotential(old(ele2conflicts))
    {
      ghost var m := ele2conflicts;
      var todo := ele2conflicts.Keys;
      while todo != {}
        invariant todo <= m.Keys
        invariant ele2conflicts == map u | u in m :: if u in todo then m[u] else Top(m[u].ref)
      {
        var u :| u in todo;
        todo := todo - {u};
        ele2conflicts := ele2conflicts[u := Top(ele2conflicts[u].ref)];
      }
      assert ele2conflicts == ElementPotential(m);
    }

    /** The conflict set of the accessed block starts afresh, then all take the block in. */
    method Update(tag: Tag, address: nat)
      modifies `ele2conflicts
      ensures ele2conflicts == ElementUpdate(old(ele2conflicts), tag, address, ways)
    {
      ghost var before := ele2conflicts;
      ele2conflicts := ele2conflicts[tag := Accessed(address, {})];
      ghost var m := ele2conflicts;
      var todo := ele2conflicts.Keys;
      while todo != {}
        invariant todo <= m.Keys
        invariant Inserted(m, ele2conflicts, todo, tag, ways)
      {
        var u :| u in todo;
        InsertedStep(m, ele2conflicts, todo, u, tag, ways);
        todo := todo - {u};
        ele2conflicts := ele2conflicts[u := Insert(ele2conflicts[u], tag, ways)];
      }
      AllInserted(before, ele2conflicts, tag, address, ways);
    }

    /** First the blocks both sides know, then those only the other side knows. */
    method Join(y: ElementWiseCountingPersistence)
      requires ways == y.ways
      modifies `ele2conflicts
      ensures ele2conflicts == ElementJoin(old(ele2conflicts), old(y.ele2conflicts), ways)
    {
      var m, other := ele2conflicts, y.ele2conflicts;
      var todo := m.Keys;
      while todo != {}
        invariant todo <= m.Keys
        invariant ele2conflicts == map u | u in m ::
                    if u in todo || u !in other then m[u] else Unite(m[u], other[u], ways)
      {
        var u :| u in todo;
        todo := todo - {u};
        if u in other {
          ele2conflicts := ele2conflicts[u := Unite(ele2conflicts[u], other[u], ways)];
        }
      }
      ghost var both := ele2conflicts;
      todo := other.Keys;
      while todo != {}
        invariant todo <= other.Keys
        invariant ele2conflicts == map u | u in m.Keys + other.Keys && (u in m || u !in todo) ::
                    if u in m then both[u] else other[u]
      {
        var u :| u in todo;
        todo := todo - {u};
        if u !in ele2conflicts {
          ele2conflicts := ele2conflicts[u := other[u]];
        }
      }
      assert ele2conflicts == ElementJoin(m, other, ways);
    }

    method LessEqual(y: ElementWiseCountingPersistence) returns (r: bool)
      requires ways == y.ways
      ensures r <==> ElementLessEqual(ele2conflicts, y.ele2conflicts, ways)
    {
      var todo := ele2conflicts.Keys;
      while todo != {}
        invariant todo <= ele2conflicts.Keys
        invariant forall u :: u in ele2conflicts && u !in todo ==>
                    u in y.ele2conflicts && ConflictsLessEqual(ele2conflicts[u], y.ele2conflicts[u], ways)
      {
        var u :| u in todo;
        todo := todo - {u};
        if u !in y.ele2conflicts || !ConflictsLessEqual(ele2conflicts[u], y.ele2conflicts[u], ways) {
          return false;
        }
      }
      r := true;
    }
  }

  /** All scopes but those in `todo` know of the access. */
  ghost predicate Updated(m: map<Scope, ConflictMap>, now: map<Scope, ConflictMap>, todo: set<Scope>,
                          tag: Tag, address: nat, ways: nat) {
    && now.Keys == m.Keys
    && forall s :: s in m ==> now[s] == if s in todo then m[s] else ElementUpdate(m[s], tag, address, ways)
  }

  lemma UpdatedStep(m: map<Scope, ConflictMap>, now: map<Scope, ConflictMap>, todo: set<Scope>, s: Scope,
                    tag: Tag, address: nat, ways: nat)
    requires Updated(m, now, todo, tag, address, ways) && s in todo && s in m
    ensures Updated(m, now[s := ElementUpdate(now[s], tag, address, ways)], todo - {s}, tag, address, ways)
  {
  }

  /** A conflict set for every block and every open scope. */
  class MultiScopePersistence {
    const ways: nat
    var scopes2info: map<Scope, ConflictMap>
    var scopes2entercount: map<Scope, nat>

    ghost predicate Valid()
      reads this
    {
      ScopesValid(State(), ways)
    }

    ghost function State(): Scopes
      reads this
    {
      Scopes(scopes2info, scopes2entercount)
    }

    constructor (ways: nat)
      ensures Valid() && this.ways == ways && State() == Scopes(map[], map[])
    {
      this.ways, scopes2info, scopes2entercount := ways, map[], map[];
    }

    method EnterScope(scope: Scope)
      requires Valid()
      modifies this
      ensures Valid() && State() == Enter(old(State()), scope)
    {
      if scope !in scopes2info {
        scopes2info := scopes2info[scope := map[]];
        scopes2entercount := scopes2entercount[scope := 1];
      } else {
        scopes2entercount := scopes2entercount[scope := scopes2entercount[scope] + 1];
      }
    }

    method LeaveScope(scope: Scope)
      requires Valid() && scope in scopes2info
      modifies this
      ensures Valid() && State() == Leave(old(State()), scope)
    {
      if scopes2entercount[scope] > 1 {
        scopes2entercount := scopes2entercount[scope := scopes2entercount[scope] - 1];
      } else {
        scopes2info := scopes2info - {scope};
        scopes2entercount := scopes2entercount - {scope};
      }
    }

    method Update(tag: Tag, address: nat)
      modifies `scopes2info
      ensures State() == ScopesUpdate(old(State()), tag, address, ways)
    {
      ghost var m := scopes2info;
      var todo := scopes2info.Keys;
      while todo != {}
        invariant todo <= m.Keys
        invariant Updated(m, scopes2info, todo, tag, address, ways)
      {
        var s :| s in todo;
        UpdatedStep(m, scopes2info, todo, s, tag, address, ways);
        todo := todo - {s};
        scopes2info := scopes2info[s := ElementUpdate(scopes2info[s], tag, address, ways)];
      }
      assert scopes2info == ScopesUpdate(old(State()), tag, address, ways).info;
    }

    method PotentialUpdate()
      modifies `scopes2info
      ensures State() == ScopesPotential(old(State()))
    {
      ghost var m := scopes2info;
      var todo := scopes2info.Keys;
      while todo != {}
        invariant todo <= m.Keys
        invariant scopes2info == map s | s in m :: if s in todo then m[s] else ElementPotential(m[s])
      {
        var s :| s in todo;
        todo := todo - {s};
        scopes2info := scopes2info[s := ElementPotential(scopes2info[s])];
      }
      assert scopes2info == ScopesPotential(old(State())).info;
    }

    /** Both sides must have the same scopes open, entered equally often. */
    method Join(y: MultiScopePersistence)
      requires ways == y.ways && SameScopes(State(), y.State())
      modifies `scopes2info
      ensures State() == ScopesJoin(old(State()), old(y.State()), ways)
    {
      var m, other := scopes2info, y.scopes2info;
      var todo := scopes2info.Keys;
      while todo != {}
        invariant todo <= m.Keys
        invariant scopes2info == map s | s in m :: if s in todo then m[s] else ElementJoin(m[s], other[s], ways)
      {
        var s :| s in todo;
        todo := todo - {s};
        scopes2info := scopes2info[s := ElementJoin(scopes2info[s], other[s], ways)];
      }
      assert scopes2info == ScopesJoin(old(State()), old(y.State()), ways).info;
    }

    /** The scopes in which the block is called persistent, each conflict set counting the
        foreign blocks of the set of its reference. */
    method GetPersistentScopes(t: Traits, foreign: seq<Address>, shared: bool, tag: Tag) returns (r: set<Scope>)
      requires TraitsValid(t) && ways == t.ways
      ensures r == ScopesCalled(State(), t, foreign, shared, tag)
    {
      r := {};
      var todo := scopes2info.Keys;
      while todo != {}
        invariant todo <= scopes2info.Keys
        invariant r == set s | s in scopes2info.Keys - todo
                               && CalledPersistent(scopes2info[s], t, foreign, shared, tag)
      {
        var s :| s in todo;
        todo := todo - {s};
        if CalledPersistent(scopes2info[s], t, foreign, shared, tag) {
          r := r + {s};
        }
      }
    }
  }
}
