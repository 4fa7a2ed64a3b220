/** The site navigation: the collapsible sidebar (`initSidebar`) and the
  * link highlighting of the scroll-spy (`activateLink` in `initScrollSpy`),
  * both in js/main.js. The `(max-width: 959px)` media query is an input. */
module Navigation {
  import opened Dom

  // ---------------------------------------------------------------------
  // Sidebar

  /** `is-open` on `.site-sidebar` and the toggle's `aria-expanded`. */
  datatype SidebarView = SidebarView(open: bool, ariaExpanded: string)

  predicate Consistent(v: SidebarView)
  {
    v.ariaExpanded == BoolText(v.open)
  }

  /** `closeSidebar`. */
  function Closed(): (r: SidebarView)
    ensures !r.open && r.ariaExpanded == "false" && Consistent(r)
  {
    SidebarView(false, "false")
  }

  /** The toggle's click handler. */
  function Toggled(v: SidebarView): (r: SidebarView)
    ensures r.open == !v.open && Consistent(r)
    ensures IsTrueText(r.ariaExpanded) == r.open
  {
    BoolTextRoundTrip(!v.open);
    SidebarView(!v.open, BoolText(!v.open))
  }

  /** A click on a `.site-sidebar__link`. */
  function AfterLinkClick(v: SidebarView, narrow: bool): SidebarView
  {
    if narrow then Closed() else v
  }

  /** The window's resize handler. */
  function AfterResize(v: SidebarView, narrow: bool): SidebarView
  {
    if !narrow then SidebarView(false, "false") else v
  }

  /** A link click closes the sidebar on a narrow viewport and leaves it
    * alone on a wide one; a resize to a wide viewport always leaves it
    * closed with `aria-expanded="false"`, whatever it was before. */
  lemma NarrowAndWideRules(v: SidebarView, narrow: bool)
    ensures narrow ==> AfterLinkClick(v, narrow) == SidebarView(false, "false")
    ensures !narrow ==> AfterLinkClick(v, narrow) == v
    ensures !narrow ==> AfterResize(v, narrow) == SidebarView(false, "false")
    ensures narrow ==> AfterResize(v, narrow) == v
  {
  }

  /** Every handler keeps the ARIA attribute in step with the open class. */
  lemma HandlersKeepConsistent(v: SidebarView, narrow: bool)
    requires Consistent(v)
    ensures Consistent(Toggled(v)) && Consistent(AfterLinkClick(v, narrow)) && Consistent(AfterResize(v, narrow))
  {
  }

  /** Two toggle clicks restore a consistent sidebar. */
  lemma ToggleTwiceRestores(v: SidebarView)
    requires Consistent(v)
    ensures Toggled(Toggled(v)) == v
  {
  }

  class Sidebar {
    var open: bool
    var ariaExpanded: string

    function View(): SidebarView
      reads this
    {
      SidebarView(open, ariaExpanded)
    }

    constructor (open: bool, ariaExpanded: string)
      ensures View() == SidebarView(open, ariaExpanded)
    {
      this.open := open;
      this.ariaExpanded := ariaExpanded;
    }

    method CloseSidebar()
      modifies this
      ensures View() == Closed()
    {
      open := false;
      ariaExpanded := "false";
    }

    method ClickToggle()
      modifies this
      ensures View() == Toggled(old(View()))
    {
      var willOpen := !open;
      open := willOpen;
      ariaExpanded := BoolText(willOpen);
    }

    /** A click on a sidebar link; `narrow` is whether `(max-width: 959px)`
      * matches. */
    method ClickLink(narrow: bool)
      modifies this
      ensures View() == AfterLinkClick(old(View()), narrow)
    {
      if narrow {
        CloseSidebar();
      }
    }

    method Resize(narrow: bool)
      modifies this
      ensures View() == AfterResize(old(View()), narrow)
    {
      if !narrow {
        open := false;
        ariaExpanded := "false";
      }
    }
  }

  // ---------------------------------------------------------------------
  // Scroll-spy

  /** A navigation link: its `href` (None when absent), `is-active` and
    * `aria-current` (None when removed). */
  datatype NavLink = NavLink(href: Option<string>, active: bool, ariaCurrent: Option<string>)

  /** A link after `activateLink(id)`. */
  function Marked(link: NavLink, id: string): NavLink
  {
    var matches := link.href == Some("#" + id);
    link.(active := matches, ariaCurrent := if matches then Some("true") else None)
  }

  /** After `activateLink(id)` a link is active exactly when its `href` is
    * `#id`, and it carries `aria-current="true"` exactly when it is active
    * (the attribute is removed otherwise). */
  lemma MarkedIff(link: NavLink, id: string)
    ensures Marked(link, id).active <==> link.href == Some("#" + id)
    ensures Marked(link, id).active ==> Marked(link, id).ariaCurrent == Some("true")
    ensures !Marked(link, id).active ==> Marked(link, id).ariaCurrent == None
  {
  }

  /** Two different sections never activate the same link. */
  lemma DistinctSectionsDistinctLinks(link: NavLink, a: string, b: string)
    requires a != b
    ensures !(Marked(link, a).active && Marked(link, b).active)
  {
    assert ("#" + a)[1..] == a;
    assert ("#" + b)[1..] == b;
  }

  class ScrollSpy {
    var headerLinks: seq<NavLink>
    var sidebarLinks: seq<NavLink>

    constructor (headerLinks: seq<NavLink>, sidebarLinks: seq<NavLink>)
      ensures this.headerLinks == headerLinks && this.sidebarLinks == sidebarLinks
    {
      this.headerLinks := headerLinks;
      this.sidebarLinks := sidebarLinks;
    }

    /** `activateLink(id)`: one pass over the header links followed by the
      * sidebar links, marking each against `#id`. */
    method ActivateLink(id: string)
      modifies this
      ensures |headerLinks| == |old(headerLinks)| && |sidebarLinks| == |old(sidebarLinks)|
      ensures forall i :: 0 <= i < |headerLinks| ==> headerLinks[i] == Marked(old(headerLinks[i]), id)
      ensures forall i :: 0 <= i < |sidebarLinks| ==> sidebarLinks[i] == Marked(old(sidebarLinks[i]), id)
    {
      var target := "#" + id;
      var links := headerLinks + sidebarLinks;
      var i := 0;
      while i < |links|
        invariant 0 <= i <= |links| == |old(headerLinks)| + |old(sidebarLinks)|
        invariant forall m :: 0 <= m < i ==> links[m] == Marked((old(headerLinks) + old(sidebarLinks))[m], id)
        invariant forall m :: i <= m < |links| ==> links[m] == (old(headerLinks) + old(sidebarLinks))[m]
      {
        var link := links[i];
        var matches := link.href == Some(target);
        links := links[i := link.(active := matches, ariaCurrent := if matches then Some("true") else None)];
        i := i + 1;
      }
      headerLinks, sidebarLinks := links[..|headerLinks|], links[|headerLinks|..];
    }
  }
}
