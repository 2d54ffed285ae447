/** The route guard of the frontend: which pages the current user may open, and where
    everyone else is sent. */
module ProtectedRoute {
  import opened Wrappers
  import opened Json
  import AuthSession

  const LoginPath := "/login"
  const AdminDashboardPath := "/admin/dashboard"
  const StaffDashboardPath := "/staff/dashboard"

  /** What the guard renders: the protected page, a redirect, or nothing because reading
      the current user threw. */
  datatype Rendered = Children | Navigate(to: string) | Throws

  /** `allowedRoles.includes(user.accountRole)`: only a number equal to an allowed code
      is included; a missing property (`undefined`) or any other value is not. */
  predicate Includes(allowedRoles: seq<int>, accountRole: Option<Value>) {
    accountRole.Some? && accountRole.value.Number? && accountRole.value.n in allowedRoles
  }

  /** `ProtectedRoute` for the value `getCurrentUser()` gave (`None` when it threw), the
      route's allowed role codes and the admin code of the role constants. */
  function Guard(current: Option<Document>, allowedRoles: seq<int>, adminRole: int): (r: Rendered)
    ensures r == Throws <==> current.None?
    ensures r == Navigate(LoginPath) <==> current.Some? && !Truthy(current.value)
    ensures r == Children <==>
              current.Some? && Truthy(current.value) && Includes(allowedRoles, Property(current.value, "accountRole"))
    ensures r == Navigate(AdminDashboardPath) <==>
              && current.Some? && Truthy(current.value)
              && !Includes(allowedRoles, Property(current.value, "accountRole"))
              && Property(current.value, "accountRole") == Some(Number(adminRole))
    ensures r == Navigate(StaffDashboardPath) <==>
              && current.Some? && Truthy(current.value)
              && !Includes(allowedRoles, Property(current.value, "accountRole"))
              && Property(current.value, "accountRole") != Some(Number(adminRole))
  {
    match current
    case None => Throws
    case Some(user) =>
      if !Truthy(user) then Navigate(LoginPath)
      else
        var accountRole := Property(user, "accountRole");
        if !Includes(allowedRoles, accountRole) then
          if accountRole == Some(Number(adminRole)) then Navigate(AdminDashboardPath)
          else Navigate(StaffDashboardPath)
        else Children
  }

  // ---------------------------------------------------------------------------
  // Lemmas

  /** After logout every guarded page sends the visitor to the login page. */
  lemma LoggedOutGoesToLogin(items: map<string, string>, allowedRoles: seq<int>, adminRole: int)
    ensures Guard(AuthSession.CurrentUserOf(AuthSession.AfterLogout(items)), allowedRoles, adminRole) == Navigate(LoginPath)
  {
    AuthSession.CurrentUserAfterLogout(items);
  }

  /** A stored user object with an allowed role code sees the page; with the admin code
      outside the allowed ones it is sent to the admin dashboard. */
  lemma StoredUserRouted(items: map<string, string>, members: seq<Member>, code: int, allowedRoles: seq<int>, adminRole: int)
    requires Lookup(members, "accountRole") == Some(Number(code))
    ensures var g := Guard(AuthSession.CurrentUserOf(AuthSession.AfterSetCurrentUser(items, Object(members))), allowedRoles, adminRole);
            && (code in allowedRoles ==> g == Children)
            && (code !in allowedRoles && code == adminRole ==> g == Navigate(AdminDashboardPath))
            && (code !in allowedRoles && code != adminRole ==> g == Navigate(StaffDashboardPath))
  {
    AuthSession.CurrentUserAfterSet(items, Object(members));
  }

  /** The body the backend's login answers with is `{ token, role }`, with no
      `accountRole`. Stored as the current user, it can never open a guarded page, and
      it is sent to the staff dashboard whatever the role. */
  lemma LoginBodyGoesToStaffDashboard(items: map<string, string>, token: string, role: string, allowedRoles: seq<int>, adminRole: int)
    ensures var body := Object([("token", Str(token)), ("role", Str(role))]);
            Guard(AuthSession.CurrentUserOf(AuthSession.AfterSetCurrentUser(items, body)), allowedRoles, adminRole)
              == Navigate(StaffDashboardPath)
  {
    var body := Object([("token", Str(token)), ("role", Str(role))]);
    AuthSession.CurrentUserAfterSet(items, body);
    assert Property(body, "accountRole").None? by {
      assert "accountRole" != "token" && "accountRole" != "role";
    }
  }
}
