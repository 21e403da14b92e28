/** Identifiers and small value types shared by the role-hierarchy model. */
module Types {

  /** A value that may be absent (a nullable column, a query with no row). */
  datatype Option<+T> = None | Some(value: T)

  /** Primary key of a row of the role table. */
  type RoleId = nat

  /** A many-to-many relation from a role to a set of roles, keyed by every role of the table:
      used both for `parents` and for the materialised `ancestors`. */
  type Relation = map<RoleId, set<RoleId>>

  /** A (content type, object id) pair naming a governed object, kept opaque. */
  datatype ResourceRef = ResourceRef(contentType: nat, objectId: nat)
}
