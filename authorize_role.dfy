/** The role gate (`AuthorizeRole.canAccess`): a request without an
    authenticated user is answered 401, a user whose role is not listed is
    answered 403, and otherwise the request passes on to the next handler. */
module AuthorizeRole {
  import opened Common

  /** The authenticated caller attached to a request. */
  datatype User = User(id: string, role: string)

  /** What the middleware does with a request. */
  datatype Decision = Unauthenticated401 | Forbidden403 | Next

  /** `canAccess(...allowedRoles)` applied to a request carrying `user`. */
  function CanAccess(allowedRoles: seq<string>, user: Option<User>): (d: Decision)
    ensures user.None? <==> d == Unauthenticated401
    ensures d == Forbidden403 <==> user.Some? && user.value.role !in allowedRoles
    ensures d == Next <==> user.Some? && user.value.role in allowedRoles
  {
    if user.None? then Unauthenticated401
    else if user.value.role !in allowedRoles then Forbidden403
    else Next
  }

  /** Authentication is checked before the role: without a user the answer
      is 401 whatever roles are allowed. */
  lemma AuthenticationComesFirst(rolesA: seq<string>, rolesB: seq<string>)
    ensures CanAccess(rolesA, None) == CanAccess(rolesB, None) == Unauthenticated401
  {
  }

  /** An empty list of roles refuses every authenticated user. */
  lemma EmptyRolesRefuseEveryone(user: User)
    ensures CanAccess([], Some(user)) == Forbidden403
  {
  }

  /** Allowing more roles never turns a pass into a refusal. */
  lemma MoreRolesNeverRefuseMore(roles: seq<string>, extra: seq<string>, user: Option<User>)
    ensures CanAccess(roles, user) == Next ==> CanAccess(roles + extra, user) == Next
  {
    if CanAccess(roles, user) == Next {
      assert user.value.role in roles + extra;
    }
  }

  /** Only the role matters: two users with the same role get the same
      answer. */
  lemma DecisionIgnoresIdentity(roles: seq<string>, a: User, b: User)
    requires a.role == b.role
    ensures CanAccess(roles, Some(a)) == CanAccess(roles, Some(b))
  {
  }
}
