/**
 * Read-only questions answered from the materialised `ancestors` relation, and what
 * they mean once that relation satisfies the closure equation.
 */
module Queries {
  import opened Types
  import opened Closure
  import opened Permissions

  /** `a.is_ancestor_of(r)`: `a` is stored among `r`'s ancestors. */
  function IsAncestorOf(anc: Relation, a: RoleId, r: RoleId): bool {
    r in anc && a in anc[r]
  }

  /** `visible_roles`: the roles that are stored ancestors of a held role, or that have
      a held role among their own stored ancestors. */
  function VisibleRoles(anc: Relation, held: set<RoleId>): set<RoleId> {
    set r | r in anc && exists u | u in held :: (u in anc && r in anc[u]) || u in anc[r]
  }

  /** On a materialised acyclic graph, `is_ancestor_of` is reachability along parent edges. */
  lemma IsAncestorOfIsReachability(parents: Relation, anc: Relation, rank: map<RoleId, nat>, a: RoleId, r: RoleId)
    requires WellFormed(parents, rank) && Materialized(parents, anc) && r in parents
    ensures IsAncestorOf(anc, a, r) <==> Reaches(parents, r, a)
  {
    MaterializedIsClosure(parents, anc, rank, r);
  }

  /** Every role is its own ancestor once the closure equation holds. */
  lemma RoleIsItsOwnAncestor(parents: Relation, anc: Relation, r: RoleId)
    requires Materialized(parents, anc) && r in parents
    ensures IsAncestorOf(anc, r, r)
  {
    assert r !in Broken(parents, anc);
  }

  /** On a materialised acyclic graph a role is visible exactly when it lies above or
      below one of the held roles. */
  lemma VisibleRolesAreRelated(parents: Relation, anc: Relation, rank: map<RoleId, nat>, held: set<RoleId>, r: RoleId)
    requires WellFormed(parents, rank) && Materialized(parents, anc)
    ensures r in VisibleRoles(anc, held) <==>
            r in parents && exists u | u in held && u in parents :: Reaches(parents, u, r) || Reaches(parents, r, u)
  {
    if r in parents {
      MaterializedIsClosure(parents, anc, rank, r);
      forall u | u in held && u in parents
        ensures ((u in anc && r in anc[u]) || u in anc[r]) <==> (Reaches(parents, u, r) || Reaches(parents, r, u))
      {
        MaterializedIsClosure(parents, anc, rank, u);
      }
      if r in VisibleRoles(anc, held) {
        var u :| u in held && ((u in anc && r in anc[u]) || u in anc[r]);
        if u != r && u !in anc {
          var c := LastStep(parents, r, u);
        }
      }
    }
  }

  /** A held role is always visible once the closure equation holds. */
  lemma HeldRolesAreVisible(parents: Relation, anc: Relation, held: set<RoleId>)
    requires Materialized(parents, anc)
    ensures held * parents.Keys <= VisibleRoles(anc, held)
  {
    forall u | u in held * parents.Keys
      ensures u in VisibleRoles(anc, held)
    {
      RoleIsItsOwnAncestor(parents, anc, u);
    }
  }

  /** On a materialised acyclic graph, a grant applies to `role` exactly when it is on
      the resource and its role is `role` or lies below `role`. */
  lemma RoleGrantsComeFromDescendants(parents: Relation, anc: Relation, rank: map<RoleId, nat>,
                                      resource: ResourceRef, role: RoleId, p: RolePermission)
    requires WellFormed(parents, rank) && Materialized(parents, anc)
    ensures RoleApplies(anc, resource, role, p) <==>
            p.resource == resource && p.role in parents && Reaches(parents, p.role, role)
  {
    if p.role in parents {
      MaterializedIsClosure(parents, anc, rank, p.role);
    }
  }

  /** Adding parent edges, once the closure is restored, never takes a permission away
      from any principal. */
  lemma AddingParentsNeverRevokes(table: seq<RolePermission>, resource: ResourceRef, held: set<RoleId>,
                                  g: Relation, ancG: Relation, rankG: map<RoleId, nat>,
                                  h: Relation, ancH: Relation, rankH: map<RoleId, nat>)
    requires WellFormed(g, rankG) && Materialized(g, ancG)
    requires WellFormed(h, rankH) && Materialized(h, ancH)
    requires SubGraph(g, h)
    ensures AtMost(UserPermissionsOnResource(table, ancG, resource, held),
                   UserPermissionsOnResource(table, ancH, resource, held))
  {
    ClosureMonotone(g, ancG, rankG, h, ancH, rankH);
    UserPermissionsMonotone(table, resource, ancG, held, ancH, held);
  }
}
