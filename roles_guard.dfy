/**
 * `RolesGuard.canActivate` (src/auth/guards/roles.guard.ts): a decision over the
 * `@Roles` metadata of the handler and of its controller class and over the
 * request's authenticated user. It grants, refuses or raises an HTTP error.
 */
module RolesGuard {
  import opened Wrappers
  import opened Failures
  import opened Schema

  /** `req.user` as the JWT guard leaves it; the payload may lack a role. */
  datatype RequestUser = RequestUser(sub: int, email: string, role: Option<Role>)

  const USER_MISSING := Custom("use can't be empty if @Roles is apply", BAD_REQUEST, "RG-001")
  const ROLE_MISSING := Custom("User don't have role", UNAUTHORIZED, "RG-002")

  /**
   * `reflector.getAllAndOverride(ROLES_KEY, [handler, class])`: the first target
   * that carries the metadata decides, so the handler's overrides the class's.
   */
  function GetAllAndOverride(handlerRoles: Option<seq<Role>>, classRoles: Option<seq<Role>>): Option<seq<Role>> {
    if handlerRoles.Some? then handlerRoles else classRoles
  }

  /**
   * `canActivate(context)`. An array, even an empty one, is truthy in JavaScript,
   * so only absent metadata skips the checks.
   */
  function CanActivate(handlerRoles: Option<seq<Role>>, classRoles: Option<seq<Role>>, user: Option<RequestUser>): (r: Result<bool, Failure>)
    ensures handlerRoles.None? && classRoles.None? ==> r == Ok(true)
    ensures (handlerRoles.Some? || classRoles.Some?) && user.None? ==> r == Err(USER_MISSING)
    ensures (handlerRoles.Some? || classRoles.Some?) && user.Some? && user.value.role.None? ==> r == Err(ROLE_MISSING)
    ensures handlerRoles.Some? && user.Some? && user.value.role.Some? ==> r == Ok(user.value.role.value in handlerRoles.value)
    ensures handlerRoles.None? && classRoles.Some? && user.Some? && user.value.role.Some? ==>
              r == Ok(user.value.role.value in classRoles.value)
  {
    var requiredRoles := GetAllAndOverride(handlerRoles, classRoles);
    if requiredRoles.None? then Ok(true)
    else if user.None? then Err(USER_MISSING)
    else if user.value.role.None? then Err(ROLE_MISSING)
    else Ok(user.value.role.value in requiredRoles.value)
  }

  /** Access is granted exactly when no roles are required or the user holds one of them. */
  lemma GrantedIff(handlerRoles: Option<seq<Role>>, classRoles: Option<seq<Role>>, user: Option<RequestUser>)
    ensures var required := if handlerRoles.Some? then handlerRoles else classRoles;
      CanActivate(handlerRoles, classRoles, user) == Ok(true) <==>
        required.None? || (user.Some? && user.value.role.Some? && user.value.role.value in required.value)
  {
  }

  /** The guard only raises when roles are required; it never raises for a user with a role. */
  lemma RaisesOnlyWithoutUserOrRole(handlerRoles: Option<seq<Role>>, classRoles: Option<seq<Role>>, user: Option<RequestUser>)
    ensures CanActivate(handlerRoles, classRoles, user).Err? <==>
      (handlerRoles.Some? || classRoles.Some?) && (user.None? || user.value.role.None?)
  {
  }

  /** Once the handler carries `@Roles`, the class's metadata no longer matters. */
  lemma HandlerRolesOverrideClassRoles(handlerRoles: seq<Role>, classA: Option<seq<Role>>, classB: Option<seq<Role>>, user: Option<RequestUser>)
    ensures CanActivate(Some(handlerRoles), classA, user) == CanActivate(Some(handlerRoles), classB, user)
  {
  }

  /** `@Roles()` with no roles on the handler refuses every user, including admins, even under an open class. */
  lemma EmptyRolesRefuseEveryone(classRoles: Option<seq<Role>>, user: RequestUser)
    requires user.role.Some?
    ensures CanActivate(Some([]), classRoles, Some(user)) == Ok(false)
  {
  }
}
