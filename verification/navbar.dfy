/**
  The site navigation bar: its three links and the rule that highlights the
  link of the current location.
 */
module Navbar {
  import opened JsString

  datatype NavItem = NavItem(path: string, text: string)

  /** The links, in display order. */
  const NavItems: seq<NavItem> :=
    [NavItem("/", "Home"), NavItem("/resume", "Resume"), NavItem("/admin", "Admin")]

  /** The highlight rule: an exact match, or, for any link but the root, a
      location that begins with the link's path. */
  predicate IsActive(location: string, path: string) {
    location == path
    || (path == "/" && location == "/")
    || (path != "/" && StartsWith(location, path))
  }

  /** The active links for a location, by position in `NavItems`. */
  function ActiveItems(location: string): (r: seq<nat>)
    ensures forall k :: 0 <= k < |r| ==> r[k] < |NavItems| && IsActive(location, NavItems[r[k]].path)
    ensures forall i :: 0 <= i < |NavItems| && IsActive(location, NavItems[i].path) ==> i in r
    ensures |r| <= 1
  {
    PathsExclusive(location);
    if IsActive(location, "/") then [0]
    else if IsActive(location, "/resume") then [1]
    else if IsActive(location, "/admin") then [2]
    else []
  }

  /** The rule activates Home only on the root, and no location starts with
      both `/resume` and `/admin`. */
  lemma PathsExclusive(location: string)
    ensures IsActive(location, "/") ==> location == "/"
    ensures !(IsActive(location, "/resume") && IsActive(location, "/admin"))
    ensures location == "/" ==> !IsActive(location, "/resume") && !IsActive(location, "/admin")
  {
    if StartsWith(location, "/resume") {
      assert location[1] == location[..7][1] == 'r';
    }
    if StartsWith(location, "/admin") {
      assert location[1] == location[..6][1] == 'a';
    }
  }

  /** Home is highlighted on the root and nowhere else. */
  lemma HomeActiveIffRoot(location: string)
    ensures IsActive(location, NavItems[0].path) <==> location == "/"
  {
  }

  /** A link other than Home is highlighted exactly when the location extends
      its path, so `/admin` is also highlighted on `/administrator`. */
  lemma PrefixActivates(location: string, i: nat)
    requires 1 <= i < |NavItems|
    ensures IsActive(location, NavItems[i].path) <==> StartsWith(location, NavItems[i].path)
    ensures IsActive("/administrator", "/admin")
  {
    assert "/administrator"[..|"/admin"|] == "/admin";
  }

  /** Every link is highlighted on its own path. */
  lemma ExactMatchActive(i: nat)
    requires i < |NavItems|
    ensures IsActive(NavItems[i].path, NavItems[i].path)
  {
  }

  /** No location highlights two links. */
  lemma AtMostOneActive(location: string, i: nat, j: nat)
    requires i < |NavItems| && j < |NavItems|
    requires IsActive(location, NavItems[i].path) && IsActive(location, NavItems[j].path)
    ensures i == j
  {
    var r := ActiveItems(location);
    assert i in r && j in r;
  }
}
