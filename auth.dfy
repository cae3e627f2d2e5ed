/**
 * Roles, permissions and the route guard: the `ROLE_PERMISSIONS` table, the permission
 * set a signed-in user is given, and `authorizeUser(requiredPermissions)`.
 */
module Auth {
  import opened Wrappers

  datatype Permission = Read | Write | Delete | ManageUsers

  datatype Role = Admin | Editor | Viewer

  /** The stored name of each role (`USER_ROLES`). */
  function RoleName(r: Role): string {
    match r
    case Admin => "admin"
    case Editor => "editor"
    case Viewer => "viewer"
  }

  /** A role name exactly as stored, if it is one of the three. */
  function RoleFromName(name: string): Option<Role> {
    if name == "admin" then Some(Admin)
    else if name == "editor" then Some(Editor)
    else if name == "viewer" then Some(Viewer)
    else None
  }

  lemma RoleNameRoundTrip(r: Role, name: string)
    ensures RoleFromName(RoleName(r)) == Some(r)
    ensures RoleFromName(name) == Some(r) ==> RoleName(r) == name
  {
  }

  /** One row of `ROLE_PERMISSIONS`. */
  function RolePermissions(r: Role): seq<Permission> {
    match r
    case Admin => [Read, Write, Delete, ManageUsers]
    case Editor => [Read, Write]
    case Viewer => [Read]
  }

  /** `ROLE_PERMISSIONS[name]`, which is undefined for a name outside the table. */
  function TableLookup(name: string): Option<seq<Permission>> {
    match RoleFromName(name)
    case Some(r) => Some(RolePermissions(r))
    case None => None
  }

  /** `req.user.role || USER_ROLES.VIEWER`; a missing or empty stored role is written "". */
  function EffectiveRoleName(stored: string): (name: string)
    ensures name != ""
    ensures stored != "" ==> name == stored
  {
    if stored == "" then RoleName(Viewer) else stored
  }

  /** `ROLE_PERMISSIONS[req.userRole] || ROLE_PERMISSIONS[USER_ROLES.VIEWER]`. */
  function UserPermissions(stored: string): seq<Permission> {
    TableLookup(EffectiveRoleName(stored)).GetOr(RolePermissions(Viewer))
  }

  /** The table row a stored role ends up using: unknown and missing roles read as viewer. */
  function RoleOf(stored: string): Role {
    RoleFromName(stored).GetOr(Viewer)
  }

  lemma UserPermissionsByRole(stored: string)
    ensures UserPermissions(stored) == RolePermissions(RoleOf(stored))
    ensures RoleFromName(stored).None? ==> UserPermissions(stored) == [Read]
  {
  }

  datatype Decision = Allow | Forbidden

  /**
   * `authorizeUser(required)` applied to `req.userPermissions` (None when the request
   * carries no permission list): an empty requirement always passes, otherwise every
   * required permission must be among the granted ones.
   */
  function Authorize(required: seq<Permission>, granted: Option<seq<Permission>>): (d: Decision)
    ensures d == Allow <==> forall p :: p in required ==> p in granted.GetOr([])
    ensures required == [] ==> d == Allow
  {
    if |required| == 0 then Allow
    else
      var userPermissions := granted.GetOr([]);
      if forall p :: p in required ==> p in userPermissions then Allow else Forbidden
  }

  /** Granting more never turns an allowed request into a forbidden one. */
  lemma AuthorizeMonotone(required: seq<Permission>, fewer: seq<Permission>, more: seq<Permission>)
    requires forall p :: p in fewer ==> p in more
    ensures Authorize(required, Some(fewer)) == Allow ==> Authorize(required, Some(more)) == Allow
  {
  }

  /** The table nests: viewer ⊆ editor ⊆ admin. */
  lemma RolesNest()
    ensures forall p :: p in RolePermissions(Viewer) ==> p in RolePermissions(Editor)
    ensures forall p :: p in RolePermissions(Editor) ==> p in RolePermissions(Admin)
  {
  }

  function Rank(r: Role): nat {
    match r
    case Viewer => 0
    case Editor => 1
    case Admin => 2
  }

  /** The routes guarded by `authorizeUser`, each with the permission list it declares. */
  datatype Route =
    | AnalyzeContract | EditContractClause
    | CheckGeoCompliance | ClauseRecommendations | ActiveContracts | ExpiredContracts
    | Violations | ComplianceOverview | ExportComplianceReport | SearchContracts
    | UpdateUserRole | ListUsers | AuditLogs | NotificationSettings

  function RouteRequirement(route: Route): seq<Permission> {
    match route
    case AnalyzeContract | EditContractClause => [Write]
    case UpdateUserRole | ListUsers | AuditLogs | NotificationSettings => [ManageUsers]
    case _ => [Read]
  }

  /** The least role whose table row covers a route's requirement. */
  function MinimumRole(route: Route): Role {
    match route
    case AnalyzeContract | EditContractClause => Editor
    case UpdateUserRole | ListUsers | AuditLogs | NotificationSettings => Admin
    case _ => Viewer
  }

  /**
   * A signed-in user passes a route's guard exactly when their (effective) role ranks at
   * least the route's minimum role: viewers may only read, editors may also write, and
   * only admins manage users.
   */
  lemma RouteAccess(route: Route, stored: string)
    ensures Authorize(RouteRequirement(route), Some(UserPermissions(stored))) == Allow
            <==> Rank(MinimumRole(route)) <= Rank(RoleOf(stored))
  {
    UserPermissionsByRole(stored);
    var granted := UserPermissions(stored);
    var required := RouteRequirement(route);
    assert required == [required[0]];
    AuthorizeOne(required[0], granted);
  }

  lemma AuthorizeOne(p: Permission, granted: seq<Permission>)
    ensures Authorize([p], Some(granted)) == Allow <==> p in granted
  {
    assert Some(granted).GetOr([]) == granted;
    assert forall q :: q in [p] <==> q == p;
  }

  /** `!role || !Object.values(USER_ROLES).includes(role)`: the role named in a role update. */
  function ValidateNewRole(role: string): (r: Option<Role>)
    ensures r.Some? <==> role in {"admin", "editor", "viewer"}
    ensures r.Some? ==> RoleName(r.value) == role && UserPermissions(role) == RolePermissions(r.value)
  {
    if role == "" then None else RoleFromName(role)
  }
}
