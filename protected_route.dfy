/** The route guard of client/src/components/ProtectedRoute.jsx: the signed-in
    user, if any, and the route's optional list of allowed roles decide
    between the login page, the dashboard and the guarded page. */
module ProtectedRoute {
  import opened Wrappers

  /** The part of the signed-in user the guard reads. */
  datatype ClientUser = ClientUser(username: string, role: string)

  datatype GuardResult = RedirectToLogin | RedirectToDashboard | RenderChildren

  /** No user: to the login page. A list of roles that does not include the
      user's role: to the dashboard. Otherwise the guarded page. Any given
      list, even an empty one, is checked. */
  function Guard(user: Option<ClientUser>, allowedRoles: Option<seq<string>>): (g: GuardResult)
    ensures g == RedirectToLogin <==> user.None?
    ensures g == RedirectToDashboard <==>
      user.Some? && allowedRoles.Some? && user.value.role !in allowedRoles.value
    ensures g == RenderChildren <==>
      user.Some? && (allowedRoles.None? || user.value.role in allowedRoles.value)
  {
    if user.None? then RedirectToLogin
    else if allowedRoles.Some? && user.value.role !in allowedRoles.value then RedirectToDashboard
    else RenderChildren
  }

  /** The roles the upload page admits. */
  const UploadRoles: seq<string> := ["Editor", "Admin"]

  /** On the upload page, Editors and Admins get the page, a Viewer (or any
      other role) is sent to the dashboard, and a visitor to the login page. */
  lemma UploadPageGuard(user: Option<ClientUser>)
    ensures user.None? ==> Guard(user, Some(UploadRoles)) == RedirectToLogin
    ensures user.Some? && user.value.role in {"Editor", "Admin"} ==>
      Guard(user, Some(UploadRoles)) == RenderChildren
    ensures user.Some? && user.value.role !in {"Editor", "Admin"} ==>
      Guard(user, Some(UploadRoles)) == RedirectToDashboard
  {
    assert forall r :: r in UploadRoles <==> r in {"Editor", "Admin"};
  }

  /** An empty list of roles admits nobody: every user goes to the dashboard. */
  lemma EmptyRolesAdmitNobody(u: ClientUser)
    ensures Guard(Some(u), Some([])) == RedirectToDashboard
  {
  }

  /** Growing the list of roles never turns away a user it admitted. */
  lemma MoreRolesAdmitMore(user: Option<ClientUser>, roles: seq<string>, extra: seq<string>)
    requires Guard(user, Some(roles)) == RenderChildren
    ensures Guard(user, Some(roles + extra)) == RenderChildren
  {
    assert user.value.role in roles + extra;
  }
}
