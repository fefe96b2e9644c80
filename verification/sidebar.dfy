/** The sidebar's navigation: nothing without a signed-in user; Dashboard and
    Evaluation for everybody; Users and Settings pushed on for admins; the
    entry whose href is the current location is highlighted. */
module Sidebar {
  import opened Wrappers
  import opened Schema

  datatype NavItem = NavItem(name: string, href: string)

  const Common: seq<NavItem> := [NavItem("Dashboard", "/"), NavItem("Evaluation", "/evaluation")]
  const AdminOnly: seq<NavItem> := [NavItem("Users", "/users"), NavItem("Settings", "/settings")]

  /** The entries a signed-in user with this role sees. */
  function Entries(role: Role): (r: seq<NavItem>)
    ensures |r| >= 2 && r[..2] == Common
    ensures |r| == 4 <==> role == Admin
    ensures |r| == 2 <==> role != Admin
    ensures role == Admin ==> r[2..] == AdminOnly
  {
    Common + (if role == Admin then AdminOnly else [])
  }

  /** The component: the array starts with the two common entries and, for an
      admin, gets the two admin entries pushed onto its end. */
  method Navigation(user: Option<User>) returns (r: Option<seq<NavItem>>)
    ensures user.None? <==> r.None?
    ensures user.Some? ==> r == Some(Entries(user.value.role))
  {
    if user.None? {
      return None;
    }
    var navigation := Common;
    assert RoleName(user.value.role) == "admin" <==> user.value.role == Admin;
    if RoleName(user.value.role) == "admin" {
      navigation := navigation + AdminOnly;
    } else {
      assert navigation + [] == navigation;
    }
    return Some(navigation);
  }

  /** Which entries are highlighted for the current location. */
  function Highlighted(items: seq<NavItem>, location: string): (r: seq<bool>)
    ensures |r| == |items|
    ensures forall i :: 0 <= i < |items| ==> (r[i] <==> items[i].href == location)
  {
    seq(|items|, i requires 0 <= i < |items| => items[i].href == location)
  }

  /** The sidebar's hrefs are pairwise different, so at most one entry is
      highlighted, and exactly one when the location is one of them. */
  lemma AtMostOneHighlighted(role: Role, location: string)
    ensures var h := Highlighted(Entries(role), location);
            forall i, j :: 0 <= i < |h| && 0 <= j < |h| && h[i] && h[j] ==> i == j
    ensures (exists i :: 0 <= i < |Entries(role)| && Entries(role)[i].href == location)
            ==> exists i :: 0 <= i < |Entries(role)| && Highlighted(Entries(role), location)[i]
  {
    var items := Entries(role);
    assert forall i, j :: 0 <= i < |items| && 0 <= j < |items| && i != j ==> items[i].href != items[j].href;
    if i :| 0 <= i < |items| && items[i].href == location {
      assert Highlighted(items, location)[i];
    }
  }
}
