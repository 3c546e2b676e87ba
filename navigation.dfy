/** The navigation bar of `src/components/Navigation.tsx`: which links are
    offered, which one is highlighted for the current path, and when the
    Unlock button appears. */
module Navigation {
  import opened Collections

  datatype Link = Link(href: string, caption: string)

  /** Visible to everybody. */
  const BaseLinks: seq<Link> := [Link("/", "Dashboard"), Link("/history", "History"), Link("/sleeping", "Sleeping")]

  /** Visible once the session is unlocked. */
  const ProtectedLinks: seq<Link> := [Link("/kids", "Kids"), Link("/tasks", "Tasks"), Link("/logins", "Logins")]

  /** `allLinks`. */
  function AllLinks(isAuthenticated: bool): seq<Link>
  {
    if isAuthenticated then BaseLinks + ProtectedLinks else BaseLinks
  }

  /** `isActive(href)`: the dashboard only on `/` itself, every other link
      on any path that starts with its `href`. */
  predicate IsActive(pathname: string, href: string)
  {
    if href == "/" then pathname == "/" else StartsWith(pathname, href)
  }

  /** Both the desktop and the mobile menu show Unlock on the same
      condition: exactly while the session is locked, so exactly when the
      protected links are not offered. */
  predicate ShowsUnlock(isAuthenticated: bool)
  {
    !isAuthenticated
  }

  /** The base links always come first, and the protected ones are offered
      exactly when the session is unlocked. */
  lemma LinksByAuthentication(isAuthenticated: bool)
    ensures |AllLinks(isAuthenticated)| >= |BaseLinks| && AllLinks(isAuthenticated)[..|BaseLinks|] == BaseLinks
    ensures forall l :: l in ProtectedLinks ==> (l in AllLinks(isAuthenticated) <==> isAuthenticated)
    ensures forall l :: l in AllLinks(isAuthenticated) ==> l in BaseLinks || l in ProtectedLinks
  {
    var all := AllLinks(isAuthenticated);
    if isAuthenticated {
      assert all[..|BaseLinks|] == BaseLinks;
    } else {
      forall l | l in ProtectedLinks ensures l !in all {
        assert l.href != "/" && l.href != "/history" && l.href != "/sleeping";
      }
    }
  }

  /** `/` is active on `/` alone and on none of its extensions; any other
      `href` is active exactly on the paths it is a character prefix of,
      so activity survives appending any suffix (`/kids` is active on
      `/kids/3`, and on `/kidsX` too). */
  lemma ActiveMatchesPrefix(pathname: string, href: string, suffix: string)
    ensures IsActive(pathname, "/") <==> pathname == "/"
    ensures suffix != [] ==> !IsActive("/" + suffix, "/")
    ensures href != "/" ==> (IsActive(pathname, href) <==> |href| <= |pathname| && pathname[..|href|] == href)
    ensures href != "/" && IsActive(pathname, href) ==> IsActive(pathname + suffix, href)
  {
    if href != "/" && IsActive(pathname, href) {
      assert (pathname + suffix)[..|href|] == pathname[..|href|];
    }
  }

  /** No link's `href` other than `/` is a prefix of another's. */
  lemma HrefsPrefixFree(isAuthenticated: bool, i: nat, j: nat)
    requires i < |AllLinks(isAuthenticated)| && j < |AllLinks(isAuthenticated)| && i != j
    ensures var a, b := AllLinks(isAuthenticated)[i].href, AllLinks(isAuthenticated)[j].href;
      a != "/" && b != "/" ==> !StartsWith(b, a)
  {
    var all := BaseLinks + ProtectedLinks;
    assert AllLinks(isAuthenticated)[i] == all[i] && AllLinks(isAuthenticated)[j] == all[j];
    var a, b := all[i].href, all[j].href;
    if a != "/" && b != "/" && |a| <= |b| {
      assert a[1] != b[1] || a[2] != b[2];
      assert b[..|a|][1] == b[1] && b[..|a|][2] == b[2];
    }
  }

  /** Whatever the path, at most one link is highlighted. */
  lemma AtMostOneActive(pathname: string, isAuthenticated: bool, i: nat, j: nat)
    requires i < |AllLinks(isAuthenticated)| && j < |AllLinks(isAuthenticated)|
    requires IsActive(pathname, AllLinks(isAuthenticated)[i].href)
    requires IsActive(pathname, AllLinks(isAuthenticated)[j].href)
    ensures i == j
  {
    var links := AllLinks(isAuthenticated);
    var a, b := links[i].href, links[j].href;
    assert forall k :: 0 <= k < |links| ==> links[k].href == "/" || |links[k].href| > 1;
    if i != j {
      HrefsPrefixFree(isAuthenticated, i, j);
      HrefsPrefixFree(isAuthenticated, j, i);
      if a != "/" && b != "/" && |a| <= |b| {
        PrefixesNested(pathname, a, b);
      } else if a != "/" && b != "/" {
        PrefixesNested(pathname, b, a);
      }
    }
  }
}
