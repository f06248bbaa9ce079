/**
 The permission gate of src/middlewares/authorizeMiddleware.js. The role to
 permission-list table lives in a module that is not part of this model, so
 it is a parameter.
 */
module AuthorizeMiddleware {
  import opened Results

  /** The authenticated principal the session middleware attached, if any. */
  datatype Principal = Principal(role: string)

  /** What the gate does: answer the request itself, or pass it on to `next`. */
  datatype Decision = Respond(failure: Failure) | Next

  /** `permissions[role] || []`: an unknown role holds no permissions. */
  function PermissionsOf(table: map<string, seq<string>>, role: string): seq<string>
  {
    if role in table then table[role] else []
  }

  /** `authorize(requiredPermission)` applied to one request. */
  function Authorize(table: map<string, seq<string>>, user: Option<Principal>, required: string): (d: Decision)
    // no principal: 401, and next is not called
    ensures user.None? ==> d == Respond(Failure(401, "User not authorized"))
    // the request passes exactly when the role's list holds the permission
    ensures user.Some? ==> (d == Next <==> required in PermissionsOf(table, user.value.role))
    ensures user.Some? && d != Next ==> d == Respond(Failure(403, "Forbidden access: Insufficient permissions"))
    // a role missing from the table is always refused
    ensures user.Some? && user.value.role !in table ==> d.Respond? && d.failure.status == 403
  {
    if user.None? then Respond(Failure(401, "User not authorized"))
    else if required !in PermissionsOf(table, user.value.role) then
      Respond(Failure(403, "Forbidden access: Insufficient permissions"))
    else Next
  }

  /**
   Granting a role more permissions never turns a passing request away:
   the gate is monotone in the table.
   */
  lemma AuthorizeMonotone(small: map<string, seq<string>>, large: map<string, seq<string>>,
                          user: Option<Principal>, required: string)
    requires forall role :: role in small ==> role in large && forall p :: p in small[role] ==> p in large[role]
    ensures Authorize(small, user, required) == Next ==> Authorize(large, user, required) == Next
  {
  }
}
