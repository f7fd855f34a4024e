/** The navigation of client/src/components/Layout.jsx: the items the side bar
    lists for the signed-in user's role. */
module LayoutNav {
  import opened Wrappers
  import opened ProtectedRoute

  datatype NavItem = NavItem(path: string, name: string, roles: seq<string>)

  /** The page's item list, in order. */
  const NavItems: seq<NavItem> := [
    NavItem("/dashboard", "Dashboard", ["Viewer", "Editor", "Admin"]),
    NavItem("/upload", "Upload", ["Editor", "Admin"])
  ]

  /** `user ? user.role : 'Guest'`. */
  function RoleOf(user: Option<ClientUser>): string {
    if user.Some? then user.value.role else "Guest"
  }

  /** `items.filter(item => item.roles.includes(role))`: the items whose roles
      include `role`, in their order. */
  function FilterNav(items: seq<NavItem>, role: string): (r: seq<NavItem>)
    ensures |r| <= |items|
    ensures forall it :: it in r <==> it in items && role in it.roles
  {
    if items == [] then []
    else
      var rest := FilterNav(items[1..], role);
      assert items == [items[0]] + items[1..];
      if role in items[0].roles then [items[0]] + rest else rest
  }

  /** `s` is `t` with some items left out, the rest in their order. */
  predicate SubsequenceOf(s: seq<NavItem>, t: seq<NavItem>)
    decreases |t|
  {
    if s == [] then true
    else if t == [] then false
    else if s[0] == t[0] then SubsequenceOf(s[1..], t[1..])
    else SubsequenceOf(s, t[1..])
  }

  /** The filtered list keeps the items' order. */
  lemma {:induction false} FilterNavIsSubsequence(items: seq<NavItem>, role: string)
    ensures SubsequenceOf(FilterNav(items, role), items)
    decreases |items|
  {
    if items != [] {
      FilterNavIsSubsequence(items[1..], role);
      var rest := FilterNav(items[1..], role);
      if role !in items[0].roles && rest != [] {
        // `rest` holds only items whose roles include `role`.
        assert rest[0] in rest;
        assert role in rest[0].roles;
        assert rest[0] != items[0];
      }
    }
  }

  /** The side bar's items for a user. */
  function VisibleNav(user: Option<ClientUser>): seq<NavItem> {
    FilterNav(NavItems, RoleOf(user))
  }

  /** A visitor sees no item. */
  lemma GuestSeesNothing()
    ensures VisibleNav(None) == []
  {
  }

  /** A Viewer sees only the dashboard. */
  lemma ViewerSeesDashboardOnly(u: ClientUser)
    requires u.role == "Viewer"
    ensures VisibleNav(Some(u)) == [NavItems[0]]
  {
  }

  /** Editors and Admins see the dashboard, then the upload page. */
  lemma EditorAndAdminSeeBoth(u: ClientUser)
    requires u.role == "Editor" || u.role == "Admin"
    ensures VisibleNav(Some(u)) == NavItems
  {
  }

  /** Any other role sees nothing. */
  lemma OtherRolesSeeNothing(u: ClientUser)
    requires u.role !in {"Viewer", "Editor", "Admin"}
    ensures VisibleNav(Some(u)) == []
  {
    var role := u.role;
    assert role !in NavItems[0].roles && role !in NavItems[1].roles;
    assert NavItems[1..][1..] == [];
    assert FilterNav(NavItems[1..][1..], role) == [];
    assert FilterNav(NavItems[1..], role) == [];
    assert FilterNav(NavItems, role) == [];
  }

  /** The side bar offers the upload page exactly to the users the upload
      page's guard admits. */
  lemma UploadLinkMatchesGuard(user: Option<ClientUser>)
    ensures NavItems[1] in VisibleNav(user) <==> Guard(user, Some(UploadRoles)) == RenderChildren
  {
    UploadPageGuard(user);
  }
}
