/**
 * The navigation sidebar: which item is highlighted for the current path,
 * and the collapse toggle that hides the labels and shows tooltips.
 */
module Navigation {
  import opened Wrappers

  /** A link of the sidebar; `name` is the label shown next to the icon. */
  datatype NavItem = NavItem(href: string, name: string)

  const OVERVIEW := NavItem("/", "Overview")
  const ACTIVITY := NavItem("/activity", "Activity")
  const MEMORY := NavItem("/memory", "Memory")
  const AGENTS := NavItem("/agents", "Sub-Agents")
  const SYSTEM := NavItem("/system", "System")

  /** `navItems`, in the order they are listed. */
  const NAV_ITEMS: seq<NavItem> := [OVERVIEW, ACTIVITY, MEMORY, AGENTS, SYSTEM]

  /** The root item is active only on `/` itself; any other item on every path that starts with its href. */
  predicate IsActive(item: NavItem, pathname: string) {
    if item.href == "/" then pathname == "/" else item.href <= pathname
  }

  /** The root item is active exactly on `/`, and the other items are never active there. */
  lemma RootOnlyOnRoot(pathname: string)
    ensures IsActive(OVERVIEW, pathname) <==> pathname == "/"
    ensures pathname == "/" ==> forall i :: 1 <= i < |NAV_ITEMS| ==> !IsActive(NAV_ITEMS[i], pathname)
  {
  }

  /** Two prefixes of the same path agree wherever both are defined. */
  lemma PrefixesAgree(a: string, b: string, pathname: string, k: nat)
    requires a <= pathname && b <= pathname
    requires k < |a| && k < |b|
    ensures a[k] == b[k]
  {
    assert a[k] == pathname[k];
  }

  /** Whatever the path, at most one item of the sidebar is highlighted. */
  lemma AtMostOneActive(pathname: string)
    ensures forall i, j :: 0 <= i < j < |NAV_ITEMS| && IsActive(NAV_ITEMS[i], pathname) ==> !IsActive(NAV_ITEMS[j], pathname)
  {
    forall i, j | 0 <= i < j < |NAV_ITEMS| && IsActive(NAV_ITEMS[i], pathname)
      ensures !IsActive(NAV_ITEMS[j], pathname)
    {
      var a, b := NAV_ITEMS[i].href, NAV_ITEMS[j].href;
      if i == 0 {
        assert |b| > 1;
      } else if b <= pathname {
        var k := if a[1] != b[1] then 1 else 2;
        assert a[k] != b[k];
        PrefixesAgree(a, b, pathname, k);
      }
    }
  }

  /**
   * Matching is by string prefix, not by path segment: a nested page
   * highlights its section, and so does a path that merely begins with the
   * same letters.
   */
  lemma PrefixMatching()
    ensures IsActive(ACTIVITY, "/activity")
    ensures IsActive(ACTIVITY, "/activity/x")
    ensures IsActive(ACTIVITY, "/activityfoo")
    ensures !IsActive(ACTIVITY, "/")
    ensures !IsActive(OVERVIEW, "/activity")
  {
    assert "/activity/x"[..9] == "/activity";
    assert "/activityfoo"[..9] == "/activity";
  }

  /** The sidebar's own state: whether it is collapsed to icons only. */
  class Sidebar {
    var collapsed: bool

    /** `useState(false)`: the sidebar starts expanded. */
    constructor()
      ensures !collapsed
      ensures ShowsLabel()
    {
      collapsed := false;
    }

    /** Labels are rendered next to the icons only while expanded. */
    predicate ShowsLabel()
      reads this
    {
      !collapsed
    }

    /** The link's `title` tooltip: the item's label while collapsed, none while expanded. */
    function LinkTitle(item: NavItem): (title: Option<string>)
      reads this
    {
      if collapsed then Some(item.name) else None
    }

    /** The toggle button's `aria-label`. */
    function ToggleLabel(): string
      reads this
    {
      if collapsed then "Expand sidebar" else "Collapse sidebar"
    }

    /** The button's `onClick`: `setCollapsed(!collapsed)`. */
    method Toggle()
      modifies this
      ensures collapsed == !old(collapsed)
      ensures ShowsLabel() == !old(ShowsLabel())
    {
      collapsed := !collapsed;
    }

    /** Two clicks bring the sidebar back to where it was. */
    method ToggleTwice()
      modifies this
      ensures collapsed == old(collapsed)
      ensures ToggleLabel() == old(ToggleLabel())
    {
      Toggle();
      Toggle();
    }
  }

  /**
   * Every link shows exactly one of its label and its tooltip: the label
   * while expanded, the tooltip, holding the label text, while collapsed;
   * and the button offers the opposite of the current state.
   */
  lemma LabelOrTooltip(s: Sidebar, item: NavItem)
    ensures s.ShowsLabel() <==> s.LinkTitle(item).None?
    ensures !s.ShowsLabel() ==> s.LinkTitle(item) == Some(item.name)
    ensures s.ToggleLabel() == if s.ShowsLabel() then "Collapse sidebar" else "Expand sidebar"
  {
  }
}
