/**
 * The role graph as a value: the `parents` relation, the materialised `ancestors`
 * relation, the one-step recomputation the rebuild performs, and the
 * reflexive-transitive closure it is meant to maintain.
 */
module Closure {
  import opened Types

  /** Every parent named by the relation is itself a role of the table. */
  predicate Closed(parents: Relation) {
    forall r | r in parents :: parents[r] <= parents.Keys
  }

  /** `rank` witnesses that the parent relation has no cycle: a parent always ranks
      strictly above its child. */
  ghost predicate RankedBy(parents: Relation, rank: map<RoleId, nat>) {
    && parents.Keys <= rank.Keys
    && (forall c, p | c in parents && p in parents[c] && p in rank :: rank[c] < rank[p])
  }

  /** A closed, acyclic parent relation. */
  ghost predicate WellFormed(parents: Relation, rank: map<RoleId, nat>) {
    Closed(parents) && RankedBy(parents, rank)
  }

  /** The roles whose `parents` contain `r`. */
  function Children(parents: Relation, r: RoleId): set<RoleId> {
    set c | c in parents && r in parents[c]
  }

  /** What the join `parents__ancestors` yields for `r`: every id stored as an ancestor
      of one of `r`'s parents. */
  function Inherited(parents: Relation, anc: Relation, r: RoleId): set<RoleId>
    requires r in parents
  {
    set p, a | p in parents[r] && p in anc && a in anc[p] :: a
  }

  /** The set the rebuild computes for `r` from its parents' stored sets: `r` itself
      together with everything those sets contain. */
  function Target(parents: Relation, anc: Relation, r: RoleId): set<RoleId>
    requires r in parents
  {
    {r} + Inherited(parents, anc, r)
  }

  /** The roles whose stored ancestor set is missing or disagrees with `Target`. */
  ghost function Broken(parents: Relation, anc: Relation): set<RoleId> {
    set r | r in parents && !(r in anc && anc[r] == Target(parents, anc, r))
  }

  /** The stored relation satisfies the closure equation at every role. */
  ghost predicate Materialized(parents: Relation, anc: Relation) {
    anc.Keys == parents.Keys && Broken(parents, anc) == {}
  }

  /** A walk that always steps from a role to one of its parents. */
  ghost predicate IsPath(parents: Relation, path: seq<RoleId>) {
    && |path| > 0
    && forall i | 0 <= i < |path| - 1 :: path[i] in parents && path[i + 1] in parents[path[i]]
  }

  /** `a` is `r` itself or is reached from `r` by following parent edges: the
      reflexive-transitive closure, defined independently of any stored set. */
  ghost predicate Reaches(parents: Relation, r: RoleId, a: RoleId) {
    exists path :: IsPath(parents, path) && path[0] == r && path[|path| - 1] == a
  }

  /** `g` has the same roles as `h` and at most its parent edges. */
  ghost predicate SubGraph(g: Relation, h: Relation) {
    g.Keys == h.Keys && forall r | r in g :: g[r] <= h[r]
  }

  // ---------------------------------------------------------------------------
  // Paths

  lemma ReachesSelf(parents: Relation, r: RoleId)
    ensures Reaches(parents, r, r)
  {
    assert IsPath(parents, [r]);
  }

  lemma ReachesViaParent(parents: Relation, r: RoleId, p: RoleId, a: RoleId)
    requires r in parents && p in parents[r] && Reaches(parents, p, a)
    ensures Reaches(parents, r, a)
  {
    var path :| IsPath(parents, path) && path[0] == p && path[|path| - 1] == a;
    var longer := [r] + path;
    forall i | 0 <= i < |longer| - 1
      ensures longer[i] in parents && longer[i + 1] in parents[longer[i]]
    {
      if i > 0 {
        assert longer[i] == path[i - 1] && longer[i + 1] == path[i];
      }
    }
    assert IsPath(parents, longer) && longer[0] == r && longer[|longer| - 1] == a;
  }

  lemma ReachesThroughChild(parents: Relation, x: RoleId, c: RoleId, r: RoleId)
    requires Reaches(parents, x, c) && c in parents && r in parents[c]
    ensures Reaches(parents, x, r)
  {
    var path :| IsPath(parents, path) && path[0] == x && path[|path| - 1] == c;
    var longer := path + [r];
    forall i | 0 <= i < |longer| - 1
      ensures longer[i] in parents && longer[i + 1] in parents[longer[i]]
    {
      if i < |path| - 1 {
        assert longer[i] == path[i] && longer[i + 1] == path[i + 1];
      }
    }
    assert IsPath(parents, longer) && longer[0] == x && longer[|longer| - 1] == r;
  }

  /** A role other than `r` reached from `r` is reached through one of `r`'s parents. */
  lemma FirstStep(parents: Relation, r: RoleId, a: RoleId) returns (p: RoleId)
    requires Reaches(parents, r, a) && a != r
    ensures r in parents && p in parents[r] && Reaches(parents, p, a)
  {
    var path :| IsPath(parents, path) && path[0] == r && path[|path| - 1] == a;
    p := path[1];
    var rest := path[1..];
    forall i | 0 <= i < |rest| - 1
      ensures rest[i] in parents && rest[i + 1] in parents[rest[i]]
    {
      assert rest[i] == path[i + 1] && rest[i + 1] == path[i + 2];
    }
    assert IsPath(parents, rest) && rest[0] == p && rest[|rest| - 1] == a;
  }

  /** A role other than `x` reached from `x` is reached as a parent of some role that `x` reaches. */
  lemma LastStep(parents: Relation, x: RoleId, a: RoleId) returns (c: RoleId)
    requires Reaches(parents, x, a) && a != x
    ensures Reaches(parents, x, c) && c in parents && a in parents[c]
  {
    var path :| IsPath(parents, path) && path[0] == x && path[|path| - 1] == a;
    c := path[|path| - 2];
    var front := path[..|path| - 1];
    forall i | 0 <= i < |front| - 1
      ensures front[i] in parents && front[i + 1] in parents[front[i]]
    {
      assert front[i] == path[i] && front[i + 1] == path[i + 1];
    }
    assert IsPath(parents, front) && front[0] == x && front[|front| - 1] == c;
  }

  /** Only `r` itself reaches a role that nobody names as a parent. */
  lemma OnlySelfReachesOrphan(parents: Relation, x: RoleId, r: RoleId)
    requires forall c | c in parents :: r !in parents[c]
    requires Reaches(parents, x, r)
    ensures x == r
  {
    if x != r {
      var c := LastStep(parents, x, r);
      assert false;
    }
  }

  lemma {:induction false} PathInSuperGraph(g: Relation, h: Relation, path: seq<RoleId>)
    requires SubGraph(g, h) && IsPath(g, path)
    ensures IsPath(h, path)
  {
    forall i | 0 <= i < |path| - 1
      ensures path[i] in h && path[i + 1] in h[path[i]]
    {
      assert path[i] in g && path[i + 1] in g[path[i]];
    }
  }

  lemma ReachesInSuperGraph(g: Relation, h: Relation, r: RoleId, a: RoleId)
    requires SubGraph(g, h) && Reaches(g, r, a)
    ensures Reaches(h, r, a)
  {
    var path :| IsPath(g, path) && path[0] == r && path[|path| - 1] == a;
    PathInSuperGraph(g, h, path);
  }

  // ---------------------------------------------------------------------------
  // The closure equation

  /** If every parent of `r` already stores its own closure, the set the rebuild
      computes for `r` is exactly `r`'s closure. */
  lemma TargetIsClosure(parents: Relation, anc: Relation, r: RoleId)
    requires r in parents
    requires forall p | p in parents[r] :: p in anc && (forall a :: a in anc[p] <==> Reaches(parents, p, a))
    ensures forall a :: a in Target(parents, anc, r) <==> Reaches(parents, r, a)
  {
    forall a
      ensures a in Target(parents, anc, r) <==> Reaches(parents, r, a)
    {
      if a in Target(parents, anc, r) {
        if a == r {
          ReachesSelf(parents, r);
        } else {
          var p :| p in parents[r] && p in anc && a in anc[p];
          ReachesViaParent(parents, r, p, a);
        }
      }
      if Reaches(parents, r, a) && a != r {
        var p := FirstStep(parents, r, a);
        assert a in anc[p];
        assert a in Inherited(parents, anc, r);
      }
    }
  }

  /** Finitely many roles have a largest rank: some bound lies above all of them. */
  lemma {:induction false} RankBound(keys: set<RoleId>, rank: map<RoleId, nat>) returns (h: nat)
    requires keys <= rank.Keys
    ensures forall r | r in keys :: rank[r] < h
    decreases keys
  {
    if keys == {} {
      h := 0;
    } else {
      var k :| k in keys;
      var h' := RankBound(keys - {k}, rank);
      h := if rank[k] < h' then h' else rank[k] + 1;
    }
  }

  /** On a materialised acyclic graph, the stored set of `r` is exactly what `r` reaches. */
  lemma MaterializedIsClosure(parents: Relation, anc: Relation, rank: map<RoleId, nat>, r: RoleId)
    requires WellFormed(parents, rank) && Materialized(parents, anc) && r in parents
    ensures forall a :: a in anc[r] <==> Reaches(parents, r, a)
  {
    var h := RankBound(parents.Keys, rank);
    MaterializedIsClosureBelow(parents, anc, rank, h, r);
  }

  /** `MaterializedIsClosure` by induction upwards, every rank lying below `h`. */
  lemma {:induction false} MaterializedIsClosureBelow(parents: Relation, anc: Relation, rank: map<RoleId, nat>,
                                                      h: nat, r: RoleId)
    requires WellFormed(parents, rank) && Materialized(parents, anc) && r in parents
    requires forall x | x in parents :: rank[x] < h
    ensures forall a :: a in anc[r] <==> Reaches(parents, r, a)
    decreases h - rank[r]
  {
    forall p | p in parents[r]
      ensures p in anc && (forall a :: a in anc[p] <==> Reaches(parents, p, a))
    {
      MaterializedIsClosureBelow(parents, anc, rank, h, p);
    }
    TargetIsClosure(parents, anc, r);
    assert r !in Broken(parents, anc);
  }

  /** There is only one materialised relation per acyclic graph, whatever order of
      rebuilds produced it. */
  lemma MaterializedIsUnique(parents: Relation, anc1: Relation, anc2: Relation, rank: map<RoleId, nat>)
    requires WellFormed(parents, rank) && Materialized(parents, anc1) && Materialized(parents, anc2)
    ensures anc1 == anc2
  {
    forall r | r in parents
      ensures anc1[r] == anc2[r]
    {
      MaterializedIsClosure(parents, anc1, rank, r);
      MaterializedIsClosure(parents, anc2, rank, r);
    }
  }

  /** Adding parent edges (and restoring the closure equation) never removes an
      ancestor; removing edges never adds one. */
  lemma ClosureMonotone(g: Relation, ancG: Relation, rankG: map<RoleId, nat>,
                        h: Relation, ancH: Relation, rankH: map<RoleId, nat>)
    requires WellFormed(g, rankG) && Materialized(g, ancG)
    requires WellFormed(h, rankH) && Materialized(h, ancH)
    requires SubGraph(g, h)
    ensures forall r | r in ancG :: r in ancH && ancG[r] <= ancH[r]
  {
    forall r, a | r in ancG && a in ancG[r]
      ensures a in ancH[r]
    {
      MaterializedIsClosure(g, ancG, rankG, r);
      MaterializedIsClosure(h, ancH, rankH, r);
      ReachesInSuperGraph(g, h, r, a);
    }
  }

  /** Removing a parent edge keeps a relation closed and acyclic under the same rank. */
  lemma DroppingParentKeepsRank(parents: Relation, rank: map<RoleId, nat>, r: RoleId, p: RoleId)
    requires WellFormed(parents, rank) && r in parents
    ensures WellFormed(parents[r := parents[r] - {p}], rank)
  {
    assert parents[r := parents[r] - {p}].Keys == parents.Keys;
  }

  // ---------------------------------------------------------------------------
  // Which roles a single write can break

  /** `Target` at `x` reads only `x`'s parents and their stored sets. */
  lemma TargetLocal(parents: Relation, anc: Relation, parents': Relation, anc': Relation, x: RoleId)
    requires x in parents && x in parents' && parents[x] == parents'[x]
    requires forall p | p in parents[x] :: (p in anc <==> p in anc') && (p in anc ==> anc[p] == anc'[p])
    ensures Target(parents, anc, x) == Target(parents', anc', x)
  {
    assert Inherited(parents, anc, x) == Inherited(parents', anc', x);
  }

  /** Storing `Target(r)` at `r` repairs `r` and can break only `r`'s children. */
  lemma UpdateBreaksOnlyChildren(parents: Relation, anc: Relation, rank: map<RoleId, nat>, r: RoleId)
    requires WellFormed(parents, rank) && anc.Keys == parents.Keys && r in parents
    ensures Broken(parents, anc[r := Target(parents, anc, r)])
            <= (Broken(parents, anc) - {r}) + Children(parents, r)
  {
    var anc' := anc[r := Target(parents, anc, r)];
    TargetLocal(parents, anc, parents, anc', r);
    assert r !in Broken(parents, anc');
    forall x | x in Broken(parents, anc')
      ensures x in (Broken(parents, anc) - {r}) + Children(parents, r)
    {
      if x != r && x !in Children(parents, r) {
        TargetLocal(parents, anc, parents, anc', x);
      }
    }
  }

  /** A new role with no parents breaks only itself. */
  lemma InsertBreaksOnlyItself(parents: Relation, anc: Relation, id: RoleId, stored: set<RoleId>)
    requires Closed(parents) && anc.Keys == parents.Keys && id !in parents
    ensures Broken(parents[id := {}], anc[id := stored]) <= Broken(parents, anc) + {id}
  {
    var parents', anc' := parents[id := {}], anc[id := stored];
    forall x | x in Broken(parents', anc') && x != id
      ensures x in Broken(parents, anc)
    {
      assert id !in parents[x];
      TargetLocal(parents, anc, parents', anc', x);
    }
  }

  /** A role with no parents that is nobody's parent satisfies the closure equation
      only with `{r}`, and a rebuild of it that writes only roles below it writes no
      other role. */
  lemma RebuildOfNewRole(parents: Relation, before: Relation, after: Relation, r: RoleId)
    requires r in parents && parents[r] == {}
    requires forall c | c in parents :: r !in parents[c]
    requires after.Keys == before.Keys && r in after && after[r] == Target(parents, after, r)
    requires forall x | x in after && !Reaches(parents, x, r) :: after[x] == before[x]
    ensures after[r] == {r}
    ensures forall x | x in before && x != r :: after[x] == before[x]
  {
    forall x | x in before && x != r
      ensures after[x] == before[x]
    {
      if Reaches(parents, x, r) {
        OnlySelfReachesOrphan(parents, x, r);
      }
    }
    assert Inherited(parents, after, r) == {};
  }

  /** Changing the parents of `r` breaks only `r`. */
  lemma EdgeChangeBreaksOnlyItself(parents: Relation, anc: Relation, r: RoleId, ps: set<RoleId>)
    requires r in parents
    ensures Broken(parents[r := ps], anc) <= Broken(parents, anc) + {r}
  {
    var parents' := parents[r := ps];
    forall x | x in Broken(parents', anc) && x != r
      ensures x in Broken(parents, anc)
    {
      TargetLocal(parents, anc, parents', anc, x);
    }
  }
}
