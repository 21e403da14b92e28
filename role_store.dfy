/**
 * The role table with its `parents` and materialised `ancestors`
 * relations, the rebuild that maintains `ancestors`, and the per-thread batch state
 * (`batch_role_rebuilding`, `roles_needing_rebuilding`) held as two fields of the
 * same object.
 */
module RoleStore {
  import opened Types
  import opened Closure

  /** The scalar columns of a role row. */
  datatype RoleRecord = RoleRecord(name: string, singletonName: Option<string>, boundTo: Option<ResourceRef>)

  /** The uniqueness constraint on `singleton_name`. */
  ghost predicate SingletonsUnique(records: map<RoleId, RoleRecord>) {
    forall r1, r2 | r1 in records && r2 in records && records[r1].singletonName.Some?
                    && records[r1].singletonName == records[r2].singletonName :: r1 == r2
  }

  /** Some role other than `except` already holds the singleton name `name`. */
  predicate NameTaken(records: map<RoleId, RoleRecord>, name: Option<string>, except: Option<RoleId>) {
    name.Some? && exists r | r in records :: Some(r) != except && records[r].singletonName == name
  }

  /** Proof hint, not part of the model: overwriting the value at a key already present
      keeps the key set. */
  lemma UpdateKeepsKeys<K, V>(m: map<K, V>, k: K, v: V)
    requires k in m
    ensures m[k := v].Keys == m.Keys
  { }

  /** The shape of the tables: `parents` is keyed by the roles of the table, and no parent edge leaves the table or closes a cycle (`rank` is the
      witness). */
  ghost predicate Tables(records: map<RoleId, RoleRecord>, parents: Relation,
                         rank: map<RoleId, nat>) {
    && parents.Keys == records.Keys
    && WellFormed(parents, rank)
  }

  /** The row identities: every id in use lies below `nextId`, and no two roles share a
      singleton name. */
  ghost predicate Identities(records: map<RoleId, RoleRecord>, nextId: RoleId) {
    && (forall r | r in records :: r < nextId)
    && SingletonsUnique(records)
  }

  /** Writing the columns of an existing role keeps the identities when its singleton
      name is not held by another role. */
  lemma SaveKeepsIdentities(records: map<RoleId, RoleRecord>, nextId: RoleId, r: RoleId, rec: RoleRecord)
    requires Identities(records, nextId) && r in records
    requires !NameTaken(records, rec.singletonName, Some(r))
    ensures records[r := rec].Keys == records.Keys
    ensures Identities(records[r := rec], nextId)
  {
    UpdateKeepsKeys(records, r, rec);
    var records' := records[r := rec];
    forall r1, r2 | r1 in records' && r2 in records' && records'[r1].singletonName.Some?
                    && records'[r1].singletonName == records'[r2].singletonName
      ensures r1 == r2
    {
      if r1 == r && r2 != r {
        assert false;
      } else if r1 != r && r2 == r {
        assert false;
      }
    }
  }

  /** Taking `nextId` for a new row keeps the identities when its singleton name is free. */
  lemma InsertKeepsIdentities(records: map<RoleId, RoleRecord>, nextId: RoleId, rec: RoleRecord)
    requires Identities(records, nextId)
    requires !NameTaken(records, rec.singletonName, None)
    ensures nextId !in records
    ensures Identities(records[nextId := rec], nextId + 1)
  {
    var records' := records[nextId := rec];
    forall r1, r2 | r1 in records' && r2 in records' && records'[r1].singletonName.Some?
                    && records'[r1].singletonName == records'[r2].singletonName
      ensures r1 == r2
    {
      if r1 == nextId && r2 != nextId {
        assert false;
      } else if r1 != nextId && r2 == nextId {
        assert false;
      }
    }
  }

  /** A new row with no parents, ranked lowest, keeps the tables valid. */
  lemma InsertKeepsTables(records: map<RoleId, RoleRecord>, parents: Relation,
                          rank: map<RoleId, nat>, id: RoleId, rec: RoleRecord)
    requires Tables(records, parents, rank) && id !in records
    ensures Tables(records[id := rec], parents[id := {}], rank[id := 0])
  {
    var parents', rank' := parents[id := {}], rank[id := 0];
    forall c, p | c in parents' && p in parents'[c] && p in rank'
      ensures rank'[c] < rank'[p]
    {
      assert c != id && p in parents;
    }
  }

  /** Replacing the parents of a role keeps the tables valid under a rank that witnesses
      the new relation is closed and has no cycle. */
  lemma EdgeChangeKeepsTables(records: map<RoleId, RoleRecord>, parents: Relation,
                              rank: map<RoleId, nat>,
                              r: RoleId, ps: set<RoleId>, rank': map<RoleId, nat>)
    requires Tables(records, parents, rank) && r in records
    requires WellFormed(parents[r := ps], rank')
    ensures Tables(records, parents[r := ps], rank')
  {
    UpdateKeepsKeys(parents, r, ps);
  }

  class Roles {
    var records: map<RoleId, RoleRecord>
    var parents: Relation
    var ancestors: Relation
    var nextId: RoleId
    /** `tls.batch_role_rebuilding` */
    var batching: bool
    /** `tls.roles_needing_rebuilding`; empty when no batch is open */
    var pending: set<RoleId>
    /** A witness that `parents` has no cycle: the callers' obligation, kept as a proof object. */
    ghost var rank: map<RoleId, nat>

    /** Every relation is keyed by the roles of the table, the parent relation is
        closed and acyclic, and only roles of the table are queued. */
    ghost predicate Valid()
      reads this
    {
      && Tables(records, parents, rank)
      && ancestors.Keys == records.Keys
      && pending <= records.Keys
    }

    /** Ids below `nextId` are taken and singleton names are unique. */
    ghost predicate Unique()
      reads this
    {
      Identities(records, nextId)
    }

    /** The invariant between operations: outside a batch nothing is pending and the
        closure equation holds everywhere; inside a batch it can fail only at roles
        queued for rebuilding. */
    ghost predicate Settled()
      reads this
    {
      && (!batching ==> pending == {})
      && Broken(parents, ancestors) <= pending
    }

    constructor ()
      ensures Valid() && Unique() && Settled()
      ensures records == map[] && !batching
    {
      records, parents, ancestors := map[], map[], map[];
      nextId, batching, pending := 0, false, {};
      rank := map[];
    }

    /** Writes `actual` as the stored ancestor set of `r`, adding the missing ids and then
        removing the extra ones. */
    method ApplyDifference(r: RoleId, actual: set<RoleId>)
      requires r in ancestors
      modifies this`ancestors
      ensures ancestors == old(ancestors)[r := actual]
    {
      var stored := ancestors[r];
      var toAdd := actual - stored;
      while toAdd != {}
        invariant toAdd <= actual - stored
        invariant r in ancestors && ancestors[r] == stored + ((actual - stored) - toAdd)
        invariant ancestors == old(ancestors)[r := ancestors[r]]
        decreases toAdd
      {
        var id :| id in toAdd;
        ancestors := ancestors[r := ancestors[r] + {id}];
        toAdd := toAdd - {id};
      }
      var toRemove := stored - actual;
      while toRemove != {}
        invariant toRemove <= stored - actual
        invariant r in ancestors && ancestors[r] == (stored + actual) - ((stored - actual) - toRemove)
        invariant ancestors == old(ancestors)[r := ancestors[r]]
        decreases toRemove
      {
        var id :| id in toRemove;
        ancestors := ancestors[r := ancestors[r] - {id}];
        toRemove := toRemove - {id};
      }
      assert ancestors[r] == actual;
    }

    /** `rebuild_role_ancestor_list`. Inside a batch it only queues `r`; otherwise it
        repairs `r` at once. */
    method Rebuild(r: RoleId)
      requires WellFormed(parents, rank) && ancestors.Keys == parents.Keys && r in parents
      modifies this`ancestors, this`pending
      ensures parents == old(parents) && rank == old(rank) && batching == old(batching)
      ensures records == old(records) && nextId == old(nextId)
      ensures ancestors.Keys == old(ancestors).Keys
      ensures batching ==> ancestors == old(ancestors) && pending == old(pending) + {r}
      ensures !batching ==> pending == old(pending)
      ensures !batching ==> Broken(parents, ancestors) <= old(Broken(parents, ancestors)) - {r}
      ensures !batching ==> ancestors[r] == Target(parents, ancestors, r)
      ensures old(Broken(parents, ancestors)) <= old(pending) + {r} ==> Broken(parents, ancestors) <= pending
      ensures !batching && old(ancestors[r]) == Target(parents, old(ancestors), r) ==> ancestors == old(ancestors)
      ensures forall x | x in ancestors && !Reaches(parents, x, r) :: ancestors[x] == old(ancestors[x])
    {
      if batching {
        pending := pending + {r};
      } else {
        RebuildNow(r);
      }
    }

    /** The rebuild outside a batch: store `Target(r)` for `r` and, only if that changed
        the stored set, rebuild every child. Afterwards `r` satisfies the closure
        equation, no role that did before has stopped satisfying it, and only `r` and
        roles below it were written. */
    method RebuildNow(r: RoleId)
      requires WellFormed(parents, rank) && ancestors.Keys == parents.Keys && r in parents && !batching
      modifies this`ancestors
      ensures parents == old(parents) && rank == old(rank) && ancestors.Keys == parents.Keys
      ensures Broken(parents, ancestors) <= old(Broken(parents, ancestors)) - {r}
      ensures ancestors[r] == Target(parents, ancestors, r)
      ensures old(ancestors[r]) == Target(parents, old(ancestors), r) ==> ancestors == old(ancestors)
      ensures forall x | x in ancestors && !Reaches(parents, x, r) :: ancestors[x] == old(ancestors[x])
      decreases rank[r], 1
    {
      var actual := Target(parents, ancestors, r);
      var stored := ancestors[r];
      if actual != stored {
        UpdateBreaksOnlyChildren(parents, ancestors, rank, r);
        UpdateKeepsKeys(ancestors, r, actual);
        ApplyDifference(r, actual);
        ReachesSelf(parents, r);
        RebuildChildren(r);
      }
      assert r !in Broken(parents, ancestors);
    }

    /** The loop over `self.children`: repairs every child of `r` without breaking any
        role, writing only roles below `r`. */
    method RebuildChildren(r: RoleId)
      requires WellFormed(parents, rank) && ancestors.Keys == parents.Keys && r in parents && !batching
      modifies this`ancestors
      ensures parents == old(parents) && rank == old(rank) && ancestors.Keys == parents.Keys
      ensures Broken(parents, ancestors) <= old(Broken(parents, ancestors)) - Children(parents, r)
      ensures forall x | x in ancestors && !Reaches(parents, x, r) :: ancestors[x] == old(ancestors[x])
      decreases rank[r], 0
    {
      var todo := Children(parents, r);
      while todo != {}
        invariant parents == old(parents) && rank == old(rank) && ancestors.Keys == parents.Keys && !batching
        invariant todo <= Children(parents, r)
        invariant Broken(parents, ancestors) <= old(Broken(parents, ancestors)) - (Children(parents, r) - todo)
        invariant forall x | x in ancestors && !Reaches(parents, x, r) :: ancestors[x] == old(ancestors[x])
        decreases todo
      {
        var c :| c in todo;
        ghost var before := ancestors;
        RebuildNow(c);
        forall x | x in ancestors && !Reaches(parents, x, r)
          ensures ancestors[x] == before[x]
        {
          if Reaches(parents, x, c) {
            ReachesThroughChild(parents, x, c, r);
          }
        }
        todo := todo - {c};
      }
    }

    /** `Role.save` for a role already in the table: write its columns (refused when
        another role holds its singleton name), then rebuild it. The closure is already
        settled at `r`, so the rebuild leaves `ancestors` as it was and only queues `r`
        inside a batch. */
    method Save(r: RoleId, rec: RoleRecord) returns (ok: bool)
      requires Valid() && Unique() && Settled() && r in records
      modifies this`records, this`ancestors, this`pending
      ensures Valid() && Unique() && Settled()
      ensures ok <==> !NameTaken(old(records), rec.singletonName, Some(r))
      ensures records == (if ok then old(records)[r := rec] else old(records))
      ensures parents == old(parents) && ancestors == old(ancestors)
      ensures batching == old(batching) && nextId == old(nextId)
      ensures pending == (if ok && batching then old(pending) + {r} else old(pending))
    {
      if NameTaken(records, rec.singletonName, Some(r)) {
        return false;
      }
      SaveKeepsIdentities(records, nextId, r, rec);
      records := records[r := rec];
      assert !batching ==> r !in Broken(parents, ancestors);
      Rebuild(r);
      ok := true;
    }

    /** The row write of `Role.objects.create`: the next free id, with no parents and
        an empty stored ancestor set. Only the new role can be broken, and outside a
        batch it is not queued, so this is not an operation on its own: it is the first
        half of `Create`, which rebuilds the new role at once. */
    method Insert(rec: RoleRecord) returns (id: RoleId)
      requires Valid() && Unique() && Settled()
      requires !NameTaken(records, rec.singletonName, None)
      modifies this`records, this`parents, this`ancestors, this`nextId, this`rank
      ensures Valid() && Unique()
      ensures id !in old(records) && id !in old(ancestors) && nextId == id + 1
      ensures records == old(records)[id := rec]
      ensures parents == old(parents)[id := {}]
      ensures ancestors == old(ancestors)[id := {}]
      ensures forall c | c in parents :: id !in parents[c]
      ensures Broken(parents, ancestors) <= old(pending) + {id}
    {
      id := nextId;
      InsertKeepsIdentities(records, nextId, rec);
      InsertKeepsTables(records, parents, rank, id, rec);
      InsertBreaksOnlyItself(parents, ancestors, id, {});
      records := records[id := rec];
      parents := parents[id := {}];
      ancestors := ancestors[id := {}];
      rank := rank[id := 0];
      nextId := nextId + 1;
    }

    /** `Role.objects.create`, i.e. `Role.save` of a new row: insert it, then rebuild
        it. Refused when the singleton name is taken. Outside a batch the new role ends
        up as its own only ancestor and no other stored set changes; inside one it is
        queued. */
    method Create(rec: RoleRecord) returns (res: Option<RoleId>)
      requires Valid() && Unique() && Settled()
      modifies this`records, this`parents, this`ancestors, this`nextId, this`pending, this`rank
      ensures Valid() && Unique() && Settled()
      ensures res.None? <==> NameTaken(old(records), rec.singletonName, None)
      ensures res.None? ==> records == old(records) && parents == old(parents)
                            && ancestors == old(ancestors) && pending == old(pending)
                            && nextId == old(nextId)
      ensures res.Some? ==> var id := res.value;
                            && id !in old(records)
                            && records == old(records)[id := rec]
                            && parents == old(parents)[id := {}]
                            && ancestors[id] == (if batching then {} else {id})
                            && (forall x | x in old(ancestors) :: ancestors[x] == old(ancestors)[x])
                            && pending == (if batching then old(pending) + {id} else old(pending))
      ensures batching == old(batching)
    {
      if NameTaken(records, rec.singletonName, None) {
        return None;
      }
      var id := Insert(rec);
      RebuildNew(id);
      res := Some(id);
    }

    /** The rebuild `save` runs on a row it has just inserted: outside a batch it stores
        `{id}` for the new role and writes no other role; inside one it queues `id`. */
    method RebuildNew(id: RoleId)
      requires WellFormed(parents, rank) && ancestors.Keys == parents.Keys && id in parents
      requires parents[id] == {} && forall c | c in parents :: id !in parents[c]
      modifies this`ancestors, this`pending
      ensures parents == old(parents) && rank == old(rank) && batching == old(batching)
      ensures records == old(records) && nextId == old(nextId)
      ensures ancestors.Keys == old(ancestors).Keys
      ensures ancestors[id] == (if batching then old(ancestors)[id] else {id})
      ensures forall x | x in old(ancestors) && x != id :: ancestors[x] == old(ancestors)[x]
      ensures pending == (if batching then old(pending) + {id} else old(pending))
      ensures old(Broken(parents, ancestors)) <= old(pending) + {id} ==> Broken(parents, ancestors) <= pending
    {
      Rebuild(id);
      if !batching {
        RebuildOfNewRole(parents, old(ancestors), ancestors, id);
      }
    }

    /** `Role.singleton`: the role holding singleton name `name`, created (with `name`
        as its display name too) when there is none. */
    method Singleton(name: string) returns (r: RoleId)
      requires Valid() && Unique() && Settled()
      modifies this`records, this`parents, this`ancestors, this`nextId, this`pending, this`rank
      ensures Valid() && Unique() && Settled()
      ensures r in records && records[r].singletonName == Some(name)
      ensures batching == old(batching)
      ensures NameTaken(old(records), Some(name), None) ==>
                r in old(records) && records == old(records) && parents == old(parents)
                && ancestors == old(ancestors) && pending == old(pending) && nextId == old(nextId)
      ensures !NameTaken(old(records), Some(name), None) ==>
                && r !in old(records)
                && records == old(records)[r := RoleRecord(name, Some(name), None)]
                && parents == old(parents)[r := {}]
                && ancestors[r] == (if batching then {} else {r})
                && (forall x | x in old(ancestors) :: ancestors[x] == old(ancestors)[x])
                && pending == (if batching then old(pending) + {r} else old(pending))
    {
      if exists x | x in records :: records[x].singletonName == Some(name) {
        r :| r in records && records[r].singletonName == Some(name);
        return;
      }
      var created := Create(RoleRecord(name, Some(name), None));
      r := created.value;
    }

    /** Writes `ps` as the parents of `r`, then rebuilds `r`: the many-to-many write
        followed by the rebuild the change hook performs. `newRank` is the caller's
        evidence that the new relation is closed and has no cycle. */
    method SetParents(r: RoleId, ps: set<RoleId>, ghost newRank: map<RoleId, nat>)
      requires Valid() && Settled() && r in records
      requires WellFormed(parents[r := ps], newRank)
      modifies this`parents, this`ancestors, this`pending, this`rank
      ensures Valid() && Settled()
      ensures parents == old(parents)[r := ps] && rank == newRank
      ensures records == old(records) && batching == old(batching)
      ensures batching ==> ancestors == old(ancestors) && pending == old(pending) + {r}
      ensures !batching ==> pending == {} && Materialized(parents, ancestors)
    {
      EdgeChangeKeepsTables(records, parents, rank, r, ps, newRank);
      EdgeChangeBreaksOnlyItself(parents, ancestors, r, ps);
      parents := parents[r := ps];
      rank := newRank;
      Rebuild(r);
    }

    /** `role.parents.add(p)`: outside a batch, no role loses an ancestor. */
    method AddParent(r: RoleId, p: RoleId, ghost newRank: map<RoleId, nat>)
      requires Valid() && Settled() && r in records
      requires WellFormed(parents[r := parents[r] + {p}], newRank)
      modifies this`parents, this`ancestors, this`pending, this`rank
      ensures Valid() && Settled()
      ensures parents == old(parents)[r := old(parents)[r] + {p}]
      ensures records == old(records) && batching == old(batching)
      ensures batching ==> ancestors == old(ancestors) && pending == old(pending) + {r}
      ensures !batching ==> pending == {} && forall x | x in old(ancestors) :: old(ancestors)[x] <= ancestors[x]
    {
      ghost var g, ancG, rankG := parents, ancestors, rank;
      SetParents(r, parents[r] + {p}, newRank);
      if !batching {
        ClosureMonotone(g, ancG, rankG, parents, ancestors, rank);
      }
    }

    /** `role.parents.remove(p)`: outside a batch, no role gains an ancestor. */
    method RemoveParent(r: RoleId, p: RoleId)
      requires Valid() && Settled() && r in records
      modifies this`parents, this`ancestors, this`pending, this`rank
      ensures Valid() && Settled()
      ensures parents == old(parents)[r := old(parents)[r] - {p}]
      ensures records == old(records) && batching == old(batching)
      ensures batching ==> ancestors == old(ancestors) && pending == old(pending) + {r}
      ensures !batching ==> pending == {} && forall x | x in ancestors :: ancestors[x] <= old(ancestors)[x]
    {
      ghost var h, ancH, rankH := parents, ancestors, rank;
      DroppingParentKeepsRank(parents, rank, r, p);
      SetParents(r, parents[r] - {p}, rank);
      if !batching {
        ClosureMonotone(parents, ancestors, rank, h, ancH, rankH);
      }
    }

    /** Entering `batch_role_ancestor_rebuilding`: remember the flag, set it, and start an
        empty queue unless a batch was already open. */
    method BeginBatch() returns (wasBatching: bool)
      requires Valid() && Settled()
      modifies this`batching, this`pending
      ensures Valid() && Settled()
      ensures wasBatching == old(batching) && batching
      ensures pending == (if wasBatching then old(pending) else {})
    {
      wasBatching := batching;
      batching := true;
      if !wasBatching {
        pending := {};
      }
    }

    /** Leaving `batch_role_ancestor_rebuilding`: restore the flag saved on entry. A
        nested exit stops there. The outermost exit rebuilds every queued role that is
        still in the table (in any order, with the flag already cleared) and drops the
        queue, which leaves the closure equation holding everywhere; only queued roles
        and roles below them are written. */
    method EndBatch(wasBatching: bool)
      requires Valid() && Settled() && batching
      modifies this`batching, this`pending, this`ancestors
      ensures Valid() && Settled()
      ensures records == old(records) && parents == old(parents)
      ensures batching == wasBatching
      ensures wasBatching ==> ancestors == old(ancestors) && pending == old(pending)
      ensures !wasBatching ==> pending == {} && Materialized(parents, ancestors)
      ensures forall x | x in ancestors && (forall q | q in old(pending) :: !Reaches(parents, x, q)) ::
                ancestors[x] == old(ancestors[x])
    {
      batching := wasBatching;
      if !wasBatching {
        var todo := pending * records.Keys;
        while todo != {}
          invariant records == old(records) && parents == old(parents) && rank == old(rank) && !batching
          invariant WellFormed(parents, rank) && ancestors.Keys == parents.Keys && pending == old(pending)
          invariant todo <= old(pending)
          invariant Broken(parents, ancestors) <= todo
          invariant forall x | x in ancestors && (forall q | q in old(pending) :: !Reaches(parents, x, q)) ::
                      ancestors[x] == old(ancestors[x])
          decreases todo
        {
          var q :| q in todo;
          Rebuild(q);
          todo := todo - {q};
        }
        pending := {};
      }
    }
  }

  /** Rebuilding the same role twice in a row outside a batch: the second call finds
      nothing to change. */
  method RebuildTwice(store: Roles, r: RoleId) returns (afterFirst: Relation)
    requires store.Valid() && r in store.records && !store.batching
    modifies store`ancestors, store`pending
    ensures store.ancestors == afterFirst
  {
    store.Rebuild(r);
    afterFirst := store.ancestors;
    store.Rebuild(r);
  }

  /** Two lookups of the same singleton name yield the same role; the second creates nothing. */
  method SingletonTwice(store: Roles, name: string) returns (r1: RoleId, r2: RoleId)
    requires store.Valid() && store.Unique() && store.Settled()
    modifies store`records, store`parents, store`ancestors, store`nextId, store`pending, store`rank
    ensures r1 == r2
    ensures r1 in store.records && store.records[r1].singletonName == Some(name)
  {
    r1 := store.Singleton(name);
    ghost var records := store.records;
    r2 := store.Singleton(name);
    assert store.records == records;
  }
}
