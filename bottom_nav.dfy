/** The bottom navigation bar: hidden on the pages below `/wishlist/`, and
    otherwise four items of which the ones whose link starts the current path
    are highlighted. */
module BottomNav {
  import opened Wrappers
  import JsArray
  import JsText

  /** `shouldHideNav`, as written. It hides the nav exactly on paths that start
      with `/wishlist/`: the test for `/wishlist/add` and the one against
      `/wishlist` add nothing. */
  predicate ShouldHideNav(pathname: string): (r: bool)
    ensures r <==> JsText.StartsWith(pathname, "/wishlist/")
  {
    assert JsText.StartsWith("/wishlist/add", "/wishlist/") by {
      assert "/wishlist/add"[..10] == "/wishlist/";
    }
    pathname == "/wishlist/add"
    || (JsText.StartsWith(pathname, "/wishlist/") && pathname != "/wishlist")
  }

  datatype NavIcon = HomeIcon | HeartIcon | HistoryIcon | UserIcon
  datatype NavItem = NavItem(name: string, href: string, icon: NavIcon)

  /** `navItems`. */
  const NAV_ITEMS: seq<NavItem> := [
    NavItem("Home", "/home", HomeIcon),
    NavItem("Wishlist", "/wishlist", HeartIcon),
    NavItem("History", "/history", HistoryIcon),
    NavItem("Profile", "/profile", UserIcon)
  ]

  /** `pathname.startsWith(item.href)`: the path agrees with the link on
      every character of the link. */
  predicate IsActive(pathname: string, item: NavItem): (r: bool)
    ensures r <==> |item.href| <= |pathname| && forall k :: 0 <= k < |item.href| ==> pathname[k] == item.href[k]
  {
    JsText.StartsWith(pathname, item.href)
  }

  /** What the component renders: nothing when hidden, otherwise each item
      with its active flag. */
  function Render(pathname: string): (r: Option<seq<(NavItem, bool)>>)
    ensures r.None? <==> ShouldHideNav(pathname)
    ensures r.Some? ==> |r.value| == |NAV_ITEMS|
    ensures r.Some? ==> forall i :: 0 <= i < |NAV_ITEMS| ==>
              r.value[i].0 == NAV_ITEMS[i] && (r.value[i].1 <==> IsActive(pathname, NAV_ITEMS[i]))
  {
    if ShouldHideNav(pathname) then None
    else Some(JsArray.Map(NAV_ITEMS, (item: NavItem) => (item, IsActive(pathname, item))))
  }

  lemma WishlistShownAddHidden()
    ensures !ShouldHideNav("/wishlist")
    ensures ShouldHideNav("/wishlist/add")
  {
  }

  /** Two prefixes of one string: the shorter is a prefix of the longer. */
  lemma {:induction false} PrefixesNest(s: string, a: string, b: string)
    requires JsText.StartsWith(s, a) && JsText.StartsWith(s, b) && |a| <= |b|
    ensures JsText.StartsWith(b, a)
  {
    assert b[..|a|] == s[..|b|][..|a|] == s[..|a|];
  }

  /** No link of the table is a prefix of another one. */
  lemma HrefsNotPrefixes()
    ensures forall i, j :: 0 <= i < |NAV_ITEMS| && 0 <= j < |NAV_ITEMS| && i != j ==>
              !JsText.StartsWith(NAV_ITEMS[j].href, NAV_ITEMS[i].href)
  {
    forall i, j | 0 <= i < |NAV_ITEMS| && 0 <= j < |NAV_ITEMS| && i != j
      ensures !JsText.StartsWith(NAV_ITEMS[j].href, NAV_ITEMS[i].href)
    {
      var a, b := NAV_ITEMS[i].href, NAV_ITEMS[j].href;
      // The links differ in their second or third character.
      assert a[1] != b[1] || a[2] != b[2];
      if |a| <= |b| {
        assert b[..|a|][1] == b[1] && b[..|a|][2] == b[2];
      }
    }
  }

  /** So at most one item is active, whatever the path. */
  lemma AtMostOneActive(pathname: string, i: nat, j: nat)
    requires i < |NAV_ITEMS| && j < |NAV_ITEMS|
    requires IsActive(pathname, NAV_ITEMS[i]) && IsActive(pathname, NAV_ITEMS[j])
    ensures i == j
  {
    HrefsNotPrefixes();
    if |NAV_ITEMS[i].href| <= |NAV_ITEMS[j].href| {
      PrefixesNest(pathname, NAV_ITEMS[i].href, NAV_ITEMS[j].href);
    } else {
      PrefixesNest(pathname, NAV_ITEMS[j].href, NAV_ITEMS[i].href);
    }
  }

  /** The items are always Home, Wishlist, History, Profile, in that order. */
  lemma ItemOrder()
    ensures JsArray.Map(NAV_ITEMS, (item: NavItem) => item.name) == ["Home", "Wishlist", "History", "Profile"]
  {
  }
}
