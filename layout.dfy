/**
 * The application frame: the sidebar's navigation items, chosen by the
 * signed-in user's role, and the test that highlights the current item.
 */
module Layout {
  import opened Text
  import opened Auth

  datatype NavItem = NavItem(name: string, href: string)

  const DashboardItem := NavItem("Dashboard", "/dashboard")

  /**
   * `getNavigationItems`: the dashboard entry, followed by the entries of
   * the first role that matches, tried as student, instructor, admin.
   */
  function NavigationItems(s: AuthState): (items: seq<NavItem>)
    ensures |items| >= 1 && items[0] == DashboardItem
    ensures IsStudent(s) ==> |items| == 3
    ensures !IsStudent(s) && IsInstructor(s) ==> |items| == 4
    ensures !IsStudent(s) && !IsInstructor(s) && IsAdmin(s) ==> |items| == 5
    ensures !IsStudent(s) && !IsInstructor(s) && !IsAdmin(s) ==> items == [DashboardItem]
  {
    if IsStudent(s) then
      [DashboardItem,
       NavItem("Browse Courses", "/courses"),
       NavItem("My Enrollments", "/my-enrollments")]
    else if IsInstructor(s) then
      [DashboardItem,
       NavItem("My Courses", "/instructor/courses"),
       NavItem("My Students", "/instructor/students"),
       NavItem("Analytics", "/instructor/analytics")]
    else if IsAdmin(s) then
      [DashboardItem,
       NavItem("Manage Users", "/admin/users"),
       NavItem("Manage Courses", "/admin/courses"),
       NavItem("Course Approvals", "/admin/approvals"),
       NavItem("Analytics", "/admin/analytics")]
    else
      [DashboardItem]
  }

  /** Signed out, the sidebar holds the dashboard entry only. */
  lemma SignedOutNavigation(s: AuthState)
    requires Coherent(s) && !s.isAuthenticated
    ensures NavigationItems(s) == [DashboardItem]
  {
  }

  /** Each role sees its own entries: the counts are 3, 4 and 5. */
  lemma NavigationPerRole(s: AuthState)
    requires Coherent(s)
    ensures IsStudent(s) ==> |NavigationItems(s)| == 3
    ensures IsInstructor(s) ==> |NavigationItems(s)| == 4
    ensures IsAdmin(s) ==> |NavigationItems(s)| == 5
  {
    RolesExclusive(s);
  }

  /** `isActivePath`: the current path is the item's path or lies below it. */
  predicate IsActivePath(pathname: string, path: string)
  {
    pathname == path || StartsWith(pathname, path + "/")
  }

  /** A path below an item also highlights every item above it. */
  lemma ActiveBelowIsActiveAbove(pathname: string, path: string, rest: string)
    requires IsActivePath(pathname, path + "/" + rest)
    ensures IsActivePath(pathname, path)
  {
    var longer := path + "/" + rest;
    var p := path + "/";
    assert longer[..|p|] == p;
    if pathname != longer {
      assert StartsWith(pathname, longer + "/");
      assert pathname[..|p|] == (longer + "/")[..|p|];
    }
  }

  /**
   * Matching is by whole segments: an item's path covers itself and every
   * path one `/` below it, but not a longer name that merely starts with it
   * ("/courses" covers "/courses/5" but not "/courses2").
   */
  lemma ActivePathSegments(path: string, c: char, rest: string)
    requires c != '/'
    ensures !IsActivePath(path + [c] + rest, path)
    ensures IsActivePath(path + "/" + rest, path)
    ensures IsActivePath(path, path)
  {
    var p := path + "/";
    assert (path + "/" + rest)[..|p|] == p;
    var other := path + [c] + rest;
    assert other[|path|] == c && p[|path|] == '/';
    if |p| <= |other| {
      assert other[..|p|][|path|] == c;
    }
  }
}
