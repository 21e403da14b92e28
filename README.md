# AWX role hierarchy: ancestor closure and permission queries

This project is a Dafny model of the role-based access control core of AWX
(`awx/main/models/rbac.py`). It covers four parts:

- **The role table.** Every `Role` row has its scalar columns: name, `singleton_name`
  and the bound resource. It also has two many-to-many relations:
  - `parents`, which callers edit;
  - `ancestors`, which the system maintains itself.
- **The closure engine** (`rebuild_role_ancestor_list`). It recomputes a role's
  stored ancestor set as the role itself plus everything stored for its parents. Only
  when that set changed, it writes the difference and recurses into the role's
  children.
- **The batching protocol** (`batch_role_ancestor_rebuilding`). Inside a batch,
  rebuilds are only queued. The outermost exit rebuilds every queued role.
- **The read-only queries.** These are `is_ancestor_of` and `visible_roles`, plus the
  two permission queries. Each permission query selects the `RolePermission` grants
  on a resource that apply, then takes the SQL `MAX` of each of the eight flag
  columns. A missing `read` maximum means "no grant".

The modules are:

- `Types`: identifiers, `Option`, relations.
- `Closure`: the role graph as a value. It defines the closure equation
  `ancestors(r) = {r} ∪ ⋃ ancestors(p)` over the parents `p` of `r`, and reachability
  along parent edges. It proves that a relation satisfying the equation at every role
  is exactly the reflexive-transitive closure of `parents`.
- `RoleStore`: the class `Roles`. It holds the role table, both relations and the
  per-thread batch state (`tls.batch_role_rebuilding`, `tls.roles_needing_rebuilding`)
  as fields that its methods update in place.
- `Permissions`: the grant table as a sequence of rows, with the `MAX` aggregation.
- `Queries`: `is_ancestor_of` and `visible_roles`, and what they and the permission
  queries mean once the closure equation holds.

Acyclicity of `parents` is an obligation on the callers. The code has no cycle check.
On a cyclic graph the closure equation has solutions other than reachability, and the
early exit can stop on one of them: after an edge into a cycle is removed, the roles of
the cycle can keep a stale ancestor. The model carries acyclicity as a ghost
`rank` map, in which every parent ranks strictly above its child. Operations that
add edges take the new rank as a ghost argument.

The class invariant `Settled` is the key state invariant:
- outside a batch the queue is empty;
- the closure equation can fail only at queued roles.

The rebuild's contract is the fact that makes the batch protocol sound: a rebuild
repairs its role and breaks no role that was repaired before. It follows that the
final flush leaves the closure equation holding everywhere, in whatever order it
visits the queue. `Closure.MaterializedIsUnique` then says the result is the same as
rebuilding eagerly.

The grant direction follows the code. `role__ancestors__in=roles` matches a grant
when a held role is among the stored ancestors of the grant's role. So a principal
gets the grants on the roles it holds and on the roles below them, which is also what
the docstring of `get_role_permissions_on_resource` says.

## Model

| member | source | states |
|---|---|---|
| Closure.TargetIsClosure | awx/main/models/rbac.py:117-118 | If every parent of `r` stores exactly what it reaches, the set the rebuild computes for `r` (itself plus its parents' stored ancestors) is exactly what `r` reaches |
| Closure.MaterializedIsClosure | awx/main/models/rbac.py:100-131 | On an acyclic graph, a stored relation that satisfies the rebuild's equation at every role holds, for each role, exactly the roles it reaches through parent edges (reflexive-transitive closure) |
| Closure.MaterializedIsUnique | awx/main/models/rbac.py:61-71 | Two relations satisfying the closure equation for the same acyclic graph are equal, so the order in which queued rebuilds are flushed does not matter |
| Closure.ClosureMonotone | awx/main/models/rbac.py:85-86 | With more parent edges, the restored closure is pointwise a superset; with fewer, a subset |
| Closure.UpdateBreaksOnlyChildren | awx/main/models/rbac.py:124-131 | Storing the recomputed set for `r` repairs `r` and can break only `r`'s direct children, which is why the rebuild recurses into `self.children` |
| Closure.InsertBreaksOnlyItself | awx/main/models/rbac.py:92-94 | Adding a new parentless row can break the closure equation only at the new row |
| Closure.EdgeChangeBreaksOnlyItself | awx/main/models/rbac.py:85 | Replacing the parents of `r` can break the closure equation only at `r` |
| Closure.RebuildOfNewRole | awx/main/models/rbac.py:92-94 | After rebuilding a new role with no parents and no children, it stores `{r}` and every other role's stored set is as before |
| Closure.DroppingParentKeepsRank | awx/main/models/rbac.py:85 | Removing a parent edge never creates a cycle |
| RoleStore.Roles.ApplyDifference | awx/main/models/rbac.py:124-128 | Adding the missing ids and then removing the extra ones leaves exactly the computed set stored for `r`, and no other role changed |
| RoleStore.Roles.Rebuild | awx/main/models/rbac.py:100-131 | Inside a batch: only queues `r`. Outside a batch: `r` satisfies the closure equation, no repaired role breaks, an already consistent `r` is an early exit with nothing written, only `r` and roles that reach `r` are written, and nothing but `ancestors` changes |
| RoleStore.Roles.RebuildNow | awx/main/models/rbac.py:116-131 | The non-batched rebuild: repairs `r`, breaks nothing, exits early when the stored set is already right, and writes only roles below `r` |
| RoleStore.Roles.RebuildChildren | awx/main/models/rbac.py:130-131 | The loop over the children repairs every child, breaks nothing, and writes only roles below `r` |
| RoleStore.Roles.Save | awx/main/models/rbac.py:92-94 | Saving an existing role writes its columns (refused exactly when another role holds its singleton name) and then rebuilds it: `ancestors` is unchanged, and inside a batch the role is queued |
| RoleStore.Roles.Insert | awx/main/models/rbac.py:92-93 | The row write of a create: a fresh id, no parents, an empty stored set; the closure equation can fail only at the new role |
| RoleStore.Roles.Create | awx/main/models/rbac.py:92-94 | Create then rebuild: refused (None) exactly when the singleton name is taken; otherwise a fresh role that, outside a batch, stores `{id}`, leaves every other stored set unchanged, and is queued inside a batch |
| RoleStore.Roles.RebuildNew | awx/main/models/rbac.py:94 | The rebuild of a freshly inserted role stores `{id}` outside a batch, queues it inside one, and writes no other role |
| RoleStore.Roles.Singleton | awx/main/models/rbac.py:137-143 | Returns the role holding the singleton name; if there is one nothing changes. Otherwise a new role named after it is created and saved: outside a batch it stores `{r}`, inside one it is queued, and no other stored set changes. The invariants are kept |
| RoleStore.SingletonTwice | awx/main/models/rbac.py:137-143 | Two `singleton` calls with the same name return the same role (get-or-create is idempotent) |
| RoleStore.RebuildTwice | awx/main/models/rbac.py:124 | Outside a batch, a second rebuild of the same role writes nothing (rebuild is idempotent) |
| RoleStore.Roles.SetParents | awx/main/models/rbac.py:85 | Replacing the parents of `r` and rebuilding it: outside a batch the closure equation holds everywhere afterwards; inside one, `ancestors` is untouched and `r` is queued |
| RoleStore.Roles.AddParent | awx/main/models/rbac.py:85 | Adding a parent edge: outside a batch no role loses a stored ancestor |
| RoleStore.Roles.RemoveParent | awx/main/models/rbac.py:85 | Removing a parent edge: outside a batch no role gains a stored ancestor |
| RoleStore.Roles.BeginBatch | awx/main/models/rbac.py:54-60 | Entering a batch saves the previous flag, sets the flag, and starts an empty queue only when no batch was open |
| RoleStore.Roles.EndBatch | awx/main/models/rbac.py:63-71 | Leaving a batch restores the saved flag. A nested exit writes nothing and keeps the queue. The outermost exit rebuilds the queued roles still in the table and clears the queue, after which the closure equation holds everywhere; only queued roles and roles below them are written |
| Permissions.ColumnMax | awx/main/models/rbac.py:212-221 | SQL `MAX` of one column: absent exactly on no rows, otherwise an upper bound attained by some row |
| Permissions.MaxRowIsColumnwise | awx/main/models/rbac.py:212-221 | Each field of the aggregate row is the `MAX` of its own column |
| Permissions.Aggregate | awx/main/models/rbac.py:212-224 | The aggregate is None exactly when no row was selected; otherwise each flag is the largest value of that flag among the selected rows |
| Permissions.Select | awx/main/models/rbac.py:206-210 | The selected rows are exactly the table rows satisfying the filter |
| Permissions.UserPermissionsOnResource | awx/main/models/rbac.py:184-224 | None exactly when no grant on the resource has a held role among its role's stored ancestors; otherwise each flag is the maximum of that flag over exactly those grants |
| Permissions.RolePermissionsOnResource | awx/main/models/rbac.py:226-253 | None exactly when no grant on the resource has `role` among its role's stored ancestors; otherwise each flag is the maximum over exactly those grants |
| Permissions.RoleQueryIsSingleHolderQuery | awx/main/models/rbac.py:226-253 | The role query equals the principal query for a principal holding just that role |
| Permissions.UserPermissionsMonotone | awx/main/models/rbac.py:184-224 | Holding more roles, or a stored relation with more ancestors, never lowers any flag and never turns a result into None |
| Permissions.UserPermissionsAreOr | awx/main/models/rbac.py:189-196 | With non-negative flags, a flag of the result is positive exactly when some applicable grant has it positive (the documented `or`) |
| Queries.IsAncestorOfIsReachability | awx/main/models/rbac.py:145-146 | Once the closure equation holds, `a.is_ancestor_of(r)` exactly when `a` is reached from `r` along parent edges |
| Queries.RoleIsItsOwnAncestor | awx/main/models/rbac.py:145-146 | Once the closure equation holds, every role is its own ancestor |
| Queries.VisibleRolesAreRelated | awx/main/models/rbac.py:133-135 | Once the closure equation holds, a role is visible exactly when it lies above or below some held role |
| Queries.HeldRolesAreVisible | awx/main/models/rbac.py:133-135 | Every held role of the table is visible |
| Queries.RoleGrantsComeFromDescendants | awx/main/models/rbac.py:235-239 | Once the closure equation holds, a grant applies to `role` exactly when it is on the resource and its role reaches `role` (is `role` or below it) |
| Queries.AddingParentsNeverRevokes | awx/main/models/rbac.py:184-224 | After adding parent edges and restoring the closure, no principal's permissions on any resource go down |

## Left out

- Persistence and the ORM. Rows are map entries keyed by id, and `Role.objects.filter`/`get` are map lookups and set comprehensions. The transaction around the batch flush (`transaction.atomic`) and its all-or-nothing rollback are not modelled.
- Exceptions raised mid-rebuild, and the `finally` path they would take out of a batch, are not modelled. The model's `EndBatch` is the normal exit.
- Concurrency. `tls` is a thread-local; the model holds it as two fields of the one `Roles` object, which is the state of a single thread. Concurrent transactions are not modelled.
- `allow_nesting`, the parameter of `batch_role_ancestor_rebuilding`, is unused by the code and not modelled.
- `members`, and the principal dispatch of `get_user_permissions_on_resource` (a `User`'s `roles`, or the roles bound to a non-user principal through `content_type`/`object_id`). The permission queries and `visible_roles` take the directly held roles as an input set.
- `ContentType` and `GenericForeignKey` resolution. A resource is an opaque (content type, object id) pair.
- Deleting roles or grants, and the `CASCADE` of grants on role deletion.
- `get_absolute_url`, logging, translated names, the `created`/`modified` timestamps and the other inherited model columns.
- Cycles in `parents`. The code does not guard against them. On a cycle the closure equation has solutions other than reachability, and the early exit can stop on one of them (for example, leaving stale ancestors after an edge into a cycle is removed). The model requires a ghost rank witnessing acyclicity from every operation that adds edges, so it says nothing about cyclic graphs.
- RoleStore.Roles.Singleton: the race between the lookup and the create, surfacing as an `IntegrityError` from the unique `singleton_name` column, is not modelled. `Create` reports a taken name as `None`, and `Save` as `false`.
- Duplicate rows that the SQL joins can produce are not modelled. Before aggregation they do not change a `MAX`, and grants are rows of a sequence without them. `visible_roles` has no `.distinct()`, so the source can return a role once per matching join row; `Queries.VisibleRoles` returns a set, and the model does not capture that multiplicity.
- The eight flag columns are unbounded integers. The 32-bit range of `IntegerField` does not affect a `MAX` and is not modelled.
