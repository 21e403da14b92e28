/**
 * The permission grant table and the two aggregation queries over it: select the
 * grants on a resource that apply, then take the SQL `MAX` of every flag column,
 * with "no row selected" signalled by a missing `read` maximum.
 */
module Permissions {
  import opened Types

  /** The eight capability columns of a grant. */
  datatype Flag = Create | Read | Write | Delete | Update | Execute | ScmUpdate | Use

  /** One integer per capability column (0 = not granted). */
  datatype Flags = Flags(create: int, read: int, write: int, delete: int,
                         update: int, execute: int, scmUpdate: int, use: int)
  {
    function Get(f: Flag): int {
      match f
      case Create => create
      case Read => read
      case Write => write
      case Delete => delete
      case Update => update
      case Execute => execute
      case ScmUpdate => scmUpdate
      case Use => use
    }
  }

  /** A row of the grant table: one role, one resource, the capability columns. */
  datatype RolePermission = RolePermission(role: RoleId, resource: ResourceRef, autoGenerated: bool, flags: Flags)

  /** `MAX(f)` over a set of rows: absent when there is no row, otherwise the largest value. */
  function ColumnMax(rows: seq<RolePermission>, f: Flag): (m: Option<int>)
    ensures m.None? <==> rows == []
    ensures m.Some? ==> forall p | p in rows :: p.flags.Get(f) <= m.value
    ensures m.Some? ==> exists p | p in rows :: p.flags.Get(f) == m.value
  {
    if rows == [] then None
    else
      var v := rows[0].flags.Get(f);
      match ColumnMax(rows[1..], f)
      case None => Some(v)
      case Some(m) => Some(if v < m then m else v)
  }

  /** The row the eight `MAX` aggregates form over a non-empty selection. */
  function MaxRow(rows: seq<RolePermission>): Flags
    requires rows != []
  {
    Flags(ColumnMax(rows, Create).value, ColumnMax(rows, Read).value,
          ColumnMax(rows, Write).value, ColumnMax(rows, Delete).value,
          ColumnMax(rows, Update).value, ColumnMax(rows, Execute).value,
          ColumnMax(rows, ScmUpdate).value, ColumnMax(rows, Use).value)
  }

  /** Every field of `MaxRow` is the `MAX` of its own column. */
  lemma MaxRowIsColumnwise(rows: seq<RolePermission>)
    requires rows != []
    ensures forall f: Flag :: ColumnMax(rows, f) == Some(MaxRow(rows).Get(f))
  {
    forall f: Flag
      ensures ColumnMax(rows, f) == Some(MaxRow(rows).Get(f))
    {
      match f
      case Create =>
      case Read =>
      case Write =>
      case Delete =>
      case Update =>
      case Execute =>
      case ScmUpdate =>
      case Use =>
    }
  }

  /** The aggregate and its sentinel: absent exactly when nothing was selected, and
      otherwise each flag is the largest value any selected row holds for it. */
  function Aggregate(rows: seq<RolePermission>): (res: Option<Flags>)
    ensures res.None? <==> rows == []
    ensures res.Some? ==> forall p, f | p in rows :: p.flags.Get(f) <= res.value.Get(f)
    ensures res.Some? ==> forall f :: exists p | p in rows :: p.flags.Get(f) == res.value.Get(f)
  {
    if ColumnMax(rows, Read).None? then None
    else
      MaxRowIsColumnwise(rows);
      Some(MaxRow(rows))
  }

  /** The rows of `table` that satisfy `applies`, in table order. */
  function Select(table: seq<RolePermission>, applies: RolePermission -> bool): (rows: seq<RolePermission>)
    ensures forall p :: p in rows <==> p in table && applies(p)
  {
    if table == [] then []
    else (if applies(table[0]) then [table[0]] else []) + Select(table[1..], applies)
  }

  /** Selections under two filters that agree on the table are the same rows. */
  lemma {:induction false} SelectAgree(table: seq<RolePermission>, f: RolePermission -> bool, g: RolePermission -> bool)
    requires forall p | p in table :: f(p) == g(p)
    ensures Select(table, f) == Select(table, g)
  {
    if table != [] {
      assert forall p | p in table[1..] :: p in table;
      SelectAgree(table[1..], f, g);
    }
  }

  /** `role__ancestors__in=roles`: a grant on `resource` applies to a principal whose
      directly held roles are `held` when one of them is among the stored ancestors
      of the grant's role. */
  predicate UserApplies(anc: Relation, resource: ResourceRef, held: set<RoleId>, p: RolePermission) {
    p.resource == resource && p.role in anc && exists u | u in held :: u in anc[p.role]
  }

  /** `role__ancestors=role`: a grant on `resource` applies to `role` when `role` is
      among the stored ancestors of the grant's role. */
  predicate RoleApplies(anc: Relation, resource: ResourceRef, role: RoleId, p: RolePermission) {
    p.resource == resource && p.role in anc && role in anc[p.role]
  }

  /** The effective permissions of a principal holding `held` on `resource`. */
  function UserPermissionsOnResource(table: seq<RolePermission>, anc: Relation,
                                     resource: ResourceRef, held: set<RoleId>): (res: Option<Flags>)
    ensures res.None? <==> forall p | p in table :: !UserApplies(anc, resource, held, p)
    ensures res.Some? ==> forall p, f | p in table && UserApplies(anc, resource, held, p) ::
                            p.flags.Get(f) <= res.value.Get(f)
    ensures res.Some? ==> forall f :: exists p | p in table && UserApplies(anc, resource, held, p) ::
                            p.flags.Get(f) == res.value.Get(f)
  {
    Aggregate(Select(table, p => UserApplies(anc, resource, held, p)))
  }

  /** The effective permissions of `role` (through its own grants and those of its
      descendants) on `resource`. */
  function RolePermissionsOnResource(table: seq<RolePermission>, anc: Relation,
                                     resource: ResourceRef, role: RoleId): (res: Option<Flags>)
    ensures res.None? <==> forall p | p in table :: !RoleApplies(anc, resource, role, p)
    ensures res.Some? ==> forall p, f | p in table && RoleApplies(anc, resource, role, p) ::
                            p.flags.Get(f) <= res.value.Get(f)
    ensures res.Some? ==> forall f :: exists p | p in table && RoleApplies(anc, resource, role, p) ::
                            p.flags.Get(f) == res.value.Get(f)
  {
    Aggregate(Select(table, p => RoleApplies(anc, resource, role, p)))
  }

  /** `r1` grants no more than `r2`: absent, or both present and `r2` at least as large per flag. */
  ghost predicate AtMost(r1: Option<Flags>, r2: Option<Flags>) {
    r1.Some? ==> r2.Some? && forall f :: r1.value.Get(f) <= r2.value.Get(f)
  }

  /** Asking for one role is asking for a principal that holds just that role. */
  lemma RoleQueryIsSingleHolderQuery(table: seq<RolePermission>, anc: Relation, resource: ResourceRef, role: RoleId)
    ensures RolePermissionsOnResource(table, anc, resource, role)
            == UserPermissionsOnResource(table, anc, resource, {role})
  {
    var f := p => RoleApplies(anc, resource, role, p);
    var g := p => UserApplies(anc, resource, {role}, p);
    forall p | p in table
      ensures f(p) == g(p)
    {
      if f(p) {
        assert role in {role} && role in anc[p.role];
      }
    }
    SelectAgree(table, f, g);
  }

  /** Holding more roles, or a stored relation with more ancestors, never loses a permission. */
  lemma UserPermissionsMonotone(table: seq<RolePermission>, resource: ResourceRef,
                                anc: Relation, held: set<RoleId>, anc': Relation, held': set<RoleId>)
    requires held <= held'
    requires forall r | r in anc :: r in anc' && anc[r] <= anc'[r]
    ensures AtMost(UserPermissionsOnResource(table, anc, resource, held),
                   UserPermissionsOnResource(table, anc', resource, held'))
  {
    var r1 := UserPermissionsOnResource(table, anc, resource, held);
    var r2 := UserPermissionsOnResource(table, anc', resource, held');
    forall p | p in table && UserApplies(anc, resource, held, p)
      ensures UserApplies(anc', resource, held', p)
    {
      var u :| u in held && u in anc[p.role];
      assert u in held' && u in anc'[p.role];
    }
    if r1.Some? {
      forall f
        ensures r1.value.Get(f) <= r2.value.Get(f)
      {
        var p :| p in table && UserApplies(anc, resource, held, p) && p.flags.Get(f) == r1.value.Get(f);
        assert UserApplies(anc', resource, held', p);
      }
    }
  }

  /** With non-negative flags, the `MAX` is the `or` of the grants that apply: a flag is
      granted exactly when some applicable grant grants it. */
  lemma UserPermissionsAreOr(table: seq<RolePermission>, anc: Relation, resource: ResourceRef,
                             held: set<RoleId>, f: Flag)
    requires forall p | p in table :: p.flags.Get(f) >= 0
    ensures var res := UserPermissionsOnResource(table, anc, resource, held);
            res.Some? ==> (res.value.Get(f) > 0 <==>
                           exists p | p in table && UserApplies(anc, resource, held, p) :: p.flags.Get(f) > 0)
  {
    var res := UserPermissionsOnResource(table, anc, resource, held);
    if res.Some? {
      var p :| p in table && UserApplies(anc, resource, held, p) && p.flags.Get(f) == res.value.Get(f);
    }
  }
}
