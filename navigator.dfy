/**
 * The section navigator of the landing page (js/main.js): content sections
 * of which the navigator shows one, the sticky navigation bar and its links,
 * the mobile menu toggle, and the two scroll arrows. The page's DOM state is
 * a `Page` object; each event handler of the page is one of its methods.
 * Geometry (the content container's bounding box, the viewport width) enters
 * as integer parameters; the 200 ms and 250 ms timers are explicit pending
 * steps that the event loop fires later.
 */
module Navigator {
  import opened Optional
  import Hotspot

  /** The content area counts as reached while its top is at most this far
      below the top of the viewport ... */
  const ContentTopThreshold: int := 100
  /** ... and its bottom is still further down than this. */
  const ContentBottomThreshold: int := 200
  /** Viewports at most this wide are mobile. */
  const MobileBreakpoint: int := 768

  /** A `.content-block` element: its DOM id and whether it is displayed. */
  datatype Section = Section(id: string, displayed: bool)

  /** A `.nav-list a` link: its `data-section` attribute and its `active` class. */
  datatype NavLink = NavLink(dataSection: string, active: bool)

  /** The scroll arrow that a pending 200 ms timer will make visible. */
  datatype Arrow = Up | Down

  /** The scroll listener's test for being inside the content area: the
      content container's box `[top, bottom)` spans both the 100 px and the
      200 px line of the viewport. */
  predicate ShouldShowNav(top: int, bottom: int): (r: bool)
    ensures r <==> (top <= ContentTopThreshold < bottom) && (top <= ContentBottomThreshold < bottom)
  {
    top <= ContentTopThreshold && bottom > ContentBottomThreshold
  }

  /** The mobile test `innerWidth <= 768`; the resize handler's desktop test
      `innerWidth > 768` is exactly its negation, so no width is both. */
  predicate IsMobile(width: int): (r: bool)
    ensures !r <==> width > MobileBreakpoint
  {
    width <= MobileBreakpoint
  }

  /** `document.getElementById` over the sections: the first section, in
      document order, whose id is `id`. */
  function FirstWithId(ss: seq<Section>, id: string): (r: Option<nat>)
    ensures r.Some? ==> r.value < |ss| && ss[r.value].id == id
    ensures r.Some? ==> forall j :: 0 <= j < r.value ==> ss[j].id != id
    ensures r.None? <==> forall j :: 0 <= j < |ss| ==> ss[j].id != id
  {
    if ss == [] then None
    else if ss[0].id == id then Some(0)
    else match FirstWithId(ss[1..], id)
      case None => None
      case Some(k) => Some(k + 1)
  }

  /** The lookup finds `k` when `k` is the first index carrying `id`. */
  lemma FirstWithIdIs(ss: seq<Section>, id: string, k: nat)
    requires k < |ss| && ss[k].id == id
    requires forall j :: 0 <= j < k ==> ss[j].id != id
    ensures FirstWithId(ss, id) == Some(k)
  {
    var r := FirstWithId(ss, id);
    assert r.Some?;
    assert !(r.value < k);
    assert !(k < r.value);
  }

  /** Lookup by id does not depend on which sections are displayed. */
  lemma {:induction false} FirstWithIdIgnoresDisplay(a: seq<Section>, b: seq<Section>, id: string)
    requires |a| == |b|
    requires forall j :: 0 <= j < |a| ==> a[j].id == b[j].id
    ensures FirstWithId(a, id) == FirstWithId(b, id)
  {
    if a != [] && a[0].id != id {
      FirstWithIdIgnoresDisplay(a[1..], b[1..], id);
    }
  }

  /** The sections with exactly the one at index `k` displayed (none when `k`
      is not an index). */
  function WithDisplay(ss: seq<Section>, k: int): (r: seq<Section>)
    ensures |r| == |ss|
    ensures forall i :: 0 <= i < |ss| ==> r[i].id == ss[i].id && (r[i].displayed <==> i == k)
  {
    if ss == [] then [] else [ss[0].(displayed := k == 0)] + WithDisplay(ss[1..], k - 1)
  }

  /** How many sections are displayed. */
  function CountDisplayed(ss: seq<Section>): (n: nat)
    ensures n <= |ss|
    ensures n == 0 <==> forall i :: 0 <= i < |ss| ==> !ss[i].displayed
  {
    if ss == [] then 0 else (if ss[0].displayed then 1 else 0) + CountDisplayed(ss[1..])
  }

  lemma {:induction false} WithDisplayCount(ss: seq<Section>, k: int)
    ensures CountDisplayed(WithDisplay(ss, k)) == if 0 <= k < |ss| then 1 else 0
  {
    if ss != [] {
      WithDisplayCount(ss[1..], k - 1);
    }
  }

  /** The links after `updateActiveNavLink(s)`. */
  function Highlight(links: seq<NavLink>, s: string): (r: seq<NavLink>)
    ensures |r| == |links|
    ensures forall i :: 0 <= i < |links| ==>
      r[i].dataSection == links[i].dataSection && (r[i].active <==> links[i].dataSection == s)
  {
    if links == [] then []
    else [links[0].(active := links[0].dataSection == s)] + Highlight(links[1..], s)
  }

  /** No stale highlight survives: the result depends on the links' targets
      only, not on which links were active before. */
  lemma HighlightForgetsPrevious(a: seq<NavLink>, b: seq<NavLink>, s: string)
    requires |a| == |b|
    requires forall i :: 0 <= i < |a| ==> a[i].dataSection == b[i].dataSection
    ensures Highlight(a, s) == Highlight(b, s)
  {
  }

  /** The index `showSection(id)` displays, or -1 when no section has that id. */
  function TargetIndex(ss: seq<Section>, id: string): (k: int)
    ensures -1 <= k < |ss|
    ensures 0 <= k ==> ss[k].id == id
    ensures 0 <= k ==> forall j :: 0 <= j < k ==> ss[j].id != id
    ensures k == -1 <==> forall j :: 0 <= j < |ss| ==> ss[j].id != id
  {
    match FirstWithId(ss, id)
    case Some(k) => k
    case None => -1
  }

  /** The sections after `showSection(id)`: all hidden, then the first one
      with that id displayed. */
  function ShownSections(ss: seq<Section>, id: string): (r: seq<Section>)
    ensures |r| == |ss|
    ensures forall i :: 0 <= i < |ss| ==> r[i].id == ss[i].id
    ensures forall i :: 0 <= i < |ss| ==>
      (r[i].displayed <==> ss[i].id == id && forall j :: 0 <= j < i ==> ss[j].id != id)
  {
    WithDisplay(ss, TargetIndex(ss, id))
  }

  /** The links after `showSection(id)`: highlighted for `id` only when a
      section with that id exists. */
  function ShownLinks(ss: seq<Section>, links: seq<NavLink>, id: string): (r: seq<NavLink>)
    ensures |r| == |links|
    ensures forall i :: 0 <= i < |links| ==> r[i].dataSection == links[i].dataSection
    ensures (exists j :: 0 <= j < |ss| && ss[j].id == id) ==>
      forall i :: 0 <= i < |links| ==> (r[i].active <==> links[i].dataSection == id)
    ensures (forall j :: 0 <= j < |ss| ==> ss[j].id != id) ==> r == links
  {
    if TargetIndex(ss, id) >= 0 then Highlight(links, id) else links
  }

  /** The entrance log after `showSection(id)`: the displayed section's
      entrance is restarted (reset, smooth scroll, entrance animation). */
  function ShownEntrances(ss: seq<Section>, entrances: seq<nat>, id: string): (r: seq<nat>)
    ensures |entrances| <= |r| <= |entrances| + 1 && r[..|entrances|] == entrances
    ensures |r| == |entrances| + 1 <==> exists j :: 0 <= j < |ss| && ss[j].id == id
    ensures |r| == |entrances| + 1 ==>
      r[|entrances|] < |ss| && ss[r[|entrances|]].id == id &&
      forall j :: 0 <= j < r[|entrances|] ==> ss[j].id != id
  {
    var k := TargetIndex(ss, id);
    if k >= 0 then entrances + [k] else entrances
  }

  /** Showing a known section leaves exactly that section displayed and
      exactly the links that point at it active, and restarts its entrance. */
  lemma ShowKnownSection(ss: seq<Section>, links: seq<NavLink>, es: seq<nat>, id: string, k: nat)
    requires k < |ss| && ss[k].id == id
    requires forall j :: 0 <= j < k ==> ss[j].id != id
    ensures CountDisplayed(ShownSections(ss, id)) == 1
    ensures |ShownSections(ss, id)| == |ss|
    ensures forall i :: 0 <= i < |ss| ==>
      ShownSections(ss, id)[i].id == ss[i].id && (ShownSections(ss, id)[i].displayed <==> i == k)
    ensures |ShownLinks(ss, links, id)| == |links|
    ensures forall i :: 0 <= i < |links| ==>
      ShownLinks(ss, links, id)[i].dataSection == links[i].dataSection &&
      (ShownLinks(ss, links, id)[i].active <==> links[i].dataSection == id)
    ensures ShownEntrances(ss, es, id) == es + [k]
  {
    FirstWithIdIs(ss, id, k);
    WithDisplayCount(ss, k);
  }

  /** Showing an unknown section hides every section (the hide loop runs
      before the lookup) and leaves the links and animations alone. */
  lemma ShowUnknownSection(ss: seq<Section>, links: seq<NavLink>, es: seq<nat>, id: string)
    requires forall j :: 0 <= j < |ss| ==> ss[j].id != id
    ensures CountDisplayed(ShownSections(ss, id)) == 0
    ensures |ShownSections(ss, id)| == |ss|
    ensures forall i :: 0 <= i < |ss| ==>
      ShownSections(ss, id)[i].id == ss[i].id && !ShownSections(ss, id)[i].displayed
    ensures ShownLinks(ss, links, id) == links
    ensures ShownEntrances(ss, es, id) == es
  {
    WithDisplayCount(ss, -1);
  }

  /** Showing the same section twice shows and highlights the same thing,
      but restarts the same section's entrance a second time. */
  lemma ShowSectionTwiceReplays(ss: seq<Section>, links: seq<NavLink>, es: seq<nat>, id: string)
    ensures ShownSections(ShownSections(ss, id), id) == ShownSections(ss, id)
    ensures ShownLinks(ShownSections(ss, id), ShownLinks(ss, links, id), id) == ShownLinks(ss, links, id)
    ensures TargetIndex(ss, id) >= 0 ==>
      ShownEntrances(ShownSections(ss, id), ShownEntrances(ss, es, id), id) ==
      es + [TargetIndex(ss, id), TargetIndex(ss, id)]
    ensures TargetIndex(ss, id) < 0 ==>
      ShownEntrances(ShownSections(ss, id), ShownEntrances(ss, es, id), id) == es
  {
    var s1 := ShownSections(ss, id);
    ShownKeepsTarget(ss, id);
    ReplayedView(ss, links, id);
    ReplayedEntrance(ss, s1, es, id);
  }

  /** Showing a section does not move the target of the same id. */
  lemma ShownKeepsTarget(ss: seq<Section>, id: string)
    ensures TargetIndex(ShownSections(ss, id), id) == TargetIndex(ss, id)
  {
    FirstWithIdIgnoresDisplay(ss, WithDisplay(ss, TargetIndex(ss, id)), id);
  }

  /** The second call finds the same target, so it shows and highlights
      exactly what the first one did. */
  lemma ReplayedView(ss: seq<Section>, links: seq<NavLink>, id: string)
    ensures ShownSections(ShownSections(ss, id), id) == ShownSections(ss, id)
    ensures ShownLinks(ShownSections(ss, id), ShownLinks(ss, links, id), id) == ShownLinks(ss, links, id)
  {
    ShownKeepsTarget(ss, id);
    WithDisplayIdempotent(ss, TargetIndex(ss, id));
    HighlightIdempotent(links, id);
  }

  /** The second entrance is logged for the section that the first one was. */
  lemma ReplayedEntrance(ss: seq<Section>, s1: seq<Section>, es: seq<nat>, id: string)
    requires TargetIndex(s1, id) == TargetIndex(ss, id)
    ensures TargetIndex(ss, id) >= 0 ==>
      ShownEntrances(s1, ShownEntrances(ss, es, id), id) == es + [TargetIndex(ss, id), TargetIndex(ss, id)]
    ensures TargetIndex(ss, id) < 0 ==> ShownEntrances(s1, ShownEntrances(ss, es, id), id) == es
  {
    var k := TargetIndex(ss, id);
    if k >= 0 {
      assert es + [k] + [k] == es + [k, k];
    }
  }

  /** Displaying section `k` after hiding all is displaying only `k`. */
  lemma {:induction false} WithDisplayThenShow(ss: seq<Section>, k: nat)
    requires k < |ss|
    ensures WithDisplay(ss, -1)[k := Section(ss[k].id, true)] == WithDisplay(ss, k)
  {
    var a, b := WithDisplay(ss, -1)[k := Section(ss[k].id, true)], WithDisplay(ss, k);
    assert |a| == |b|;
    forall i | 0 <= i < |a| ensures a[i] == b[i] {
    }
  }

  /** Displaying the same index again changes nothing. */
  lemma WithDisplayIdempotent(ss: seq<Section>, k: int)
    ensures WithDisplay(WithDisplay(ss, k), k) == WithDisplay(ss, k)
  {
  }

  /** Highlighting twice for the same target is highlighting once. */
  lemma HighlightIdempotent(links: seq<NavLink>, s: string)
    ensures Highlight(Highlight(links, s), s) == Highlight(links, s)
  {
  }

  /**
   * The page. `hasToggle` and `hasArrows` say whether the optional menu
   * toggle and scroll arrows are in the document: without the toggle no
   * menu handler is installed, without the arrows the arrow updates are
   * skipped.
   */
  class Page {
    /** The `.content-block` elements, in document order. */
    var sections: seq<Section>
    /** The `.nav-list a` links, in document order. */
    var links: seq<NavLink>
    /** The scroll listener's closure variable. */
    var isInContentArea: bool
    /** The sticky nav's `visible` and `mobile-open` classes. */
    var navVisible: bool
    var navMobileOpen: bool
    /** The menu toggle's `active` class, and whether its display is `block`. */
    var toggleActive: bool
    var toggleShown: bool
    /** The two arrows' `visible` classes. */
    var upVisible: bool
    var downVisible: bool
    /** Arrow timers scheduled and not yet fired, oldest first; they all have
        the same delay, so they fire in this order. */
    var pendingArrows: seq<Arrow>
    /** Whether the single debounced resize timer is set. */
    var resizePending: bool
    /** The index of every section whose entrance was restarted, in order. */
    var entrances: seq<nat>
    const hasToggle: bool
    const hasArrows: bool

    /** The menu flags move in lock-step, and missing chrome stays inert. */
    ghost predicate Valid(): (r: bool)
      reads this`toggleActive, this`navMobileOpen, this`toggleShown, this`resizePending
      reads this`upVisible, this`downVisible, this`pendingArrows
      ensures r ==> (navMobileOpen <==> toggleActive)
      ensures r ==> (navMobileOpen || toggleShown || resizePending ==> hasToggle)
      ensures r ==> (upVisible || downVisible || |pendingArrows| > 0 ==> hasArrows)
    {
      && toggleActive == navMobileOpen
      && (!hasToggle ==> !toggleActive && !toggleShown && !resizePending)
      && (!hasArrows ==> !upVisible && !downVisible && |pendingArrows| == 0)
    }

    /**
     * The page once the document has loaded: not in the content area, nav
     * hidden, menu closed, the down arrow visible, and the menu toggle shown
     * right away on a mobile viewport that already shows the content area.
     */
    constructor (initialSections: seq<Section>, initialLinks: seq<NavLink>,
                 width: int, top: int, bottom: int, toggle: bool, arrows: bool)
      ensures Valid()
      ensures hasToggle == toggle && hasArrows == arrows
      ensures sections == initialSections && links == initialLinks && entrances == []
      ensures !isInContentArea && !navVisible && !navMobileOpen && !toggleActive
      ensures toggleShown == (toggle && IsMobile(width) && ShouldShowNav(top, bottom))
      ensures !upVisible && downVisible == arrows && pendingArrows == [] && !resizePending
    {
      sections, links := initialSections, initialLinks;
      isInContentArea := false;
      navVisible, navMobileOpen := false, false;
      toggleActive := false;
      toggleShown := toggle && IsMobile(width) && ShouldShowNav(top, bottom);
      upVisible, downVisible := false, arrows;
      pendingArrows, resizePending := [], false;
      entrances := [];
      hasToggle, hasArrows := toggle, arrows;
    }

    /** `document.getElementById(id)` restricted to the sections. */
    method FindSection(id: string) returns (r: Option<nat>)
      ensures r == FirstWithId(sections, id)
    {
      var i := 0;
      while i < |sections|
        invariant 0 <= i <= |sections|
        invariant forall j :: 0 <= j < i ==> sections[j].id != id
      {
        if sections[i].id == id {
          FirstWithIdIs(sections, id, i);
          return Some(i);
        }
        i := i + 1;
      }
      r := None;
    }

    /** `updateActiveNavLink(s)`: each link loses `active`, then gains it back
        when its `data-section` is `s`. */
    method UpdateActiveNavLink(s: string)
      modifies this`links
      ensures links == Highlight(old(links), s)
    {
      var i := 0;
      while i < |links|
        invariant 0 <= i <= |links| == |old(links)|
        invariant forall j :: 0 <= j < i ==>
          links[j] == NavLink(old(links)[j].dataSection, old(links)[j].dataSection == s)
        invariant forall j :: i <= j < |links| ==> links[j] == old(links)[j]
      {
        links := links[i := links[i].(active := false)];
        if links[i].dataSection == s {
          links := links[i := links[i].(active := true)];
        }
        i := i + 1;
      }
    }

    /** The first loop of `showSection`: set every section's display to
        `none`. */
    method HideAllSections()
      modifies this`sections
      ensures sections == WithDisplay(old(sections), -1)
    {
      var i := 0;
      while i < |sections|
        invariant 0 <= i <= |sections| == |old(sections)|
        invariant forall j :: 0 <= j < i ==> sections[j] == Section(old(sections)[j].id, false)
        invariant forall j :: i <= j < |sections| ==> sections[j] == old(sections)[j]
      {
        sections := sections[i := sections[i].(displayed := false)];
        i := i + 1;
      }
    }

    /** `showSection(id)`. */
    method ShowSection(id: string)
      modifies this`sections, this`links, this`entrances
      ensures sections == ShownSections(old(sections), id)
      ensures links == ShownLinks(old(sections), old(links), id)
      ensures entrances == ShownEntrances(old(sections), old(entrances), id)
    {
      ghost var before := sections;
      HideAllSections();
      FirstWithIdIgnoresDisplay(before, sections, id);
      var target := FindSection(id);
      if target.Some? {
        var k := target.value;
        WithDisplayThenShow(before, k);
        sections := sections[k := Section(sections[k].id, true)];
        UpdateActiveNavLink(id);
        entrances := entrances + [k];
      }
    }

    /** A click on a keycap or keycap wrapper whose class string is
        `className`. The handler stops propagation, so the document-level
        outside-click handler never sees it. */
    method ClickKeycap(className: string)
      modifies this`sections, this`links, this`entrances
      ensures Hotspot.HotspotSection(className).None? ==>
        sections == old(sections) && links == old(links) && entrances == old(entrances)
      ensures Hotspot.HotspotSection(className).Some? ==>
        var id := Hotspot.HotspotSection(className).value;
        && sections == ShownSections(old(sections), id)
        && links == ShownLinks(old(sections), old(links), id)
        && entrances == ShownEntrances(old(sections), old(entrances), id)
    {
      var sectionId := Hotspot.HotspotSection(className);
      if sectionId.Some? {
        ShowSection(sectionId.value);
      }
    }

    /** The sticky nav's own listener for a link whose `data-section` is
        `id`: showSection, then updateActiveNavLink, whether or not a
        section carries the id. */
    method FollowNavLink(id: string)
      modifies this`sections, this`links, this`entrances
      ensures sections == ShownSections(old(sections), id)
      ensures links == Highlight(old(links), id)
      ensures entrances == ShownEntrances(old(sections), old(entrances), id)
    {
      ghost var before := links;
      ShowSection(id);
      HighlightForgetsPrevious(links, before, id);
      UpdateActiveNavLink(id);
    }

    /** A click on nav link `i` on a viewport `width` wide: the sticky-nav
        handler shows the link's section and highlights the link's target,
        then the mobile-menu handler closes the menu on mobile. The click
        then reaches the document inside the sticky nav, which closes
        nothing. */
    method ClickNavLink(i: nat, width: int)
      requires Valid()
      requires i < |links|
      modifies this`sections, this`links, this`entrances, this`toggleActive, this`navMobileOpen
      ensures Valid()
      ensures var id := old(links)[i].dataSection;
        && sections == ShownSections(old(sections), id)
        && links == Highlight(old(links), id)
        && entrances == ShownEntrances(old(sections), old(entrances), id)
      ensures hasToggle && IsMobile(width) ==> !toggleActive && !navMobileOpen
      ensures !(hasToggle && IsMobile(width)) ==>
        toggleActive == old(toggleActive) && navMobileOpen == old(navMobileOpen)
    {
      FollowNavLink(links[i].dataSection);
      assert Valid();
      CloseMenuFromLink(width);
    }

    /** The mobile menu's own listener on every nav link, installed only
        when the toggle exists: on mobile it closes the menu. */
    method CloseMenuFromLink(width: int)
      requires Valid()
      modifies this`toggleActive, this`navMobileOpen
      ensures Valid()
      ensures hasToggle && IsMobile(width) ==> !toggleActive && !navMobileOpen
      ensures !(hasToggle && IsMobile(width)) ==>
        toggleActive == old(toggleActive) && navMobileOpen == old(navMobileOpen)
    {
      if hasToggle && IsMobile(width) {
        toggleActive := false;
        navMobileOpen := false;
      }
    }

    /** A click on the menu toggle flips the menu open or closed. */
    method ClickMenuToggle()
      requires Valid()
      requires hasToggle
      modifies this`toggleActive, this`navMobileOpen
      ensures Valid()
      ensures toggleActive == !old(toggleActive) && navMobileOpen == !old(navMobileOpen)
    {
      var isOpen := toggleActive;
      if isOpen {
        toggleActive := false;
        navMobileOpen := false;
      } else {
        toggleActive := true;
        navMobileOpen := true;
      }
    }

    /** A click that reaches the document: on mobile it closes the menu
        unless it landed inside the sticky nav or the toggle. */
    method ClickDocument(insideMenu: bool, width: int)
      requires Valid()
      modifies this`toggleActive, this`navMobileOpen
      ensures Valid()
      ensures hasToggle && IsMobile(width) && !insideMenu ==> !toggleActive && !navMobileOpen
      ensures !(hasToggle && IsMobile(width) && !insideMenu) ==>
        toggleActive == old(toggleActive) && navMobileOpen == old(navMobileOpen)
    {
      if hasToggle && IsMobile(width) && !insideMenu {
        toggleActive := false;
        navMobileOpen := false;
      }
    }

    /** `updateScrollArrows(inContentArea)`: hide one arrow now and schedule
        showing the other. Earlier timers are not cancelled. */
    method UpdateScrollArrows(inContentArea: bool)
      requires Valid()
      modifies this`upVisible, this`downVisible, this`pendingArrows
      ensures Valid()
      ensures !hasArrows ==> unchanged(this)
      ensures hasArrows && inContentArea ==>
        !downVisible && upVisible == old(upVisible) && pendingArrows == old(pendingArrows) + [Up]
      ensures hasArrows && !inContentArea ==>
        !upVisible && downVisible == old(downVisible) && pendingArrows == old(pendingArrows) + [Down]
    {
      if !hasArrows {
        return;
      }
      if inContentArea {
        downVisible := false;
        pendingArrows := pendingArrows + [Up];
      } else {
        upVisible := false;
        pendingArrows := pendingArrows + [Down];
      }
    }

    /** The oldest pending arrow timer fires and shows its arrow. */
    method ArrowTimerElapsed()
      requires Valid()
      requires pendingArrows != []
      modifies this`upVisible, this`downVisible, this`pendingArrows
      ensures Valid()
      ensures pendingArrows == old(pendingArrows)[1..]
      ensures upVisible == (old(upVisible) || old(pendingArrows)[0] == Up)
      ensures downVisible == (old(downVisible) || old(pendingArrows)[0] == Down)
    {
      var arrow := pendingArrows[0];
      pendingArrows := pendingArrows[1..];
      if arrow == Up {
        upVisible := true;
      } else {
        downVisible := true;
      }
    }

    /**
     * One scroll sample: the content container's box spans `top`..`bottom`
     * relative to the viewport, which is `width` wide. Only a change of
     * `ShouldShowNav` does anything.
     */
    method OnScroll(top: int, bottom: int, width: int)
      requires Valid()
      modifies this`isInContentArea, this`navVisible, this`toggleShown, this`toggleActive,
        this`navMobileOpen, this`upVisible, this`downVisible, this`pendingArrows
      ensures Valid()
      ensures isInContentArea == ShouldShowNav(top, bottom)
      ensures old(isInContentArea) == ShouldShowNav(top, bottom) ==> unchanged(this)
      ensures IsMobile(width) ==> navVisible == old(navVisible)
      ensures !old(isInContentArea) && ShouldShowNav(top, bottom) ==>
        && navVisible == (old(navVisible) || !IsMobile(width))
        && toggleShown == (if hasToggle then IsMobile(width) else old(toggleShown))
        && toggleActive == old(toggleActive) && navMobileOpen == old(navMobileOpen)
        && upVisible == old(upVisible)
        && downVisible == (old(downVisible) && !hasArrows)
        && pendingArrows == (if hasArrows then old(pendingArrows) + [Up] else old(pendingArrows))
      ensures old(isInContentArea) && !ShouldShowNav(top, bottom) ==>
        var closes := hasToggle && IsMobile(width);
        && navVisible == (old(navVisible) && IsMobile(width))
        && toggleShown == (old(toggleShown) && !hasToggle)
        && toggleActive == (old(toggleActive) && !closes)
        && navMobileOpen == (old(navMobileOpen) && !closes)
        && upVisible == (old(upVisible) && !hasArrows)
        && downVisible == old(downVisible)
        && pendingArrows == (if hasArrows then old(pendingArrows) + [Down] else old(pendingArrows))
    {
      var shouldShowNav := ShouldShowNav(top, bottom);
      var isMobile := IsMobile(width);
      if shouldShowNav && !isInContentArea {
        isInContentArea := true;
        if !isMobile {
          navVisible := true;
        }
        if hasToggle {
          toggleShown := isMobile;
        }
        UpdateScrollArrows(true);
      } else if !shouldShowNav && isInContentArea {
        isInContentArea := false;
        if !isMobile {
          navVisible := false;
        }
        if hasToggle {
          toggleShown := false;
          if isMobile && navMobileOpen {
            toggleActive := false;
            navMobileOpen := false;
          }
        }
        UpdateScrollArrows(false);
      }
    }

    /** A resize event: (re)start the single debounce timer. Restarting a
        pending timer leaves one timer pending, not two. */
    method OnResize()
      requires Valid()
      modifies this`resizePending
      ensures Valid()
      ensures resizePending == hasToggle
    {
      if hasToggle {
        resizePending := true;
      }
    }

    /** The debounce timer fires, reading the viewport width at that moment:
        the menu is closed, and on desktop the toggle is hidden. */
    method ResizeTimerElapsed(width: int)
      requires Valid()
      requires resizePending
      modifies this`toggleActive, this`navMobileOpen, this`toggleShown, this`resizePending
      ensures Valid()
      ensures !toggleActive && !navMobileOpen && !resizePending
      ensures toggleShown == (old(toggleShown) && IsMobile(width))
    {
      resizePending := false;
      if !IsMobile(width) {
        toggleActive := false;
        navMobileOpen := false;
        toggleShown := false;
      } else {
        toggleActive := false;
        navMobileOpen := false;
      }
    }
  }

  /**
   * Scrolling into the content area on a desktop viewport: the down arrow
   * is hidden at once, the up arrow is still hidden until its timer fires,
   * and then it is visible.
   */
  method ArrowCrossfadeOnEntry() returns (downAtScroll: bool, upAtScroll: bool, upAfterTimer: bool)
    ensures !downAtScroll && !upAtScroll && upAfterTimer
  {
    var page := new Page([], [], 1024, 600, 1400, true, true);
    page.OnScroll(50, 300, 1024);
    downAtScroll, upAtScroll := page.downVisible, page.upVisible;
    page.ArrowTimerElapsed();
    upAfterTimer := page.upVisible;
  }

  /**
   * Arrow timers are never cancelled: scrolling into the content area and
   * back out before the first timer fires ends with both arrows visible.
   */
  method ArrowsBothVisibleAfterQuickReturn() returns (up: bool, down: bool)
    ensures up && down
  {
    var page := new Page([], [], 1024, 600, 1400, true, true);
    page.OnScroll(50, 300, 1024);
    page.OnScroll(150, 300, 1024);
    page.ArrowTimerElapsed();
    page.ArrowTimerElapsed();
    up, down := page.upVisible, page.downVisible;
  }

  /**
   * A burst of resize events leaves one timer pending; when it fires on a
   * desktop width the menu is closed and the toggle hidden, and no second
   * recomputation is pending.
   */
  method ResizeBurstFiresOnce() returns (open: bool, shown: bool, pending: bool)
    ensures !open && !shown && !pending
  {
    var page := new Page([], [], 500, 50, 300, true, true);
    page.OnScroll(50, 300, 500);
    page.ClickMenuToggle();
    assert page.navMobileOpen && page.toggleShown;
    page.OnResize();
    page.OnResize();
    page.OnResize();
    page.ResizeTimerElapsed(1024);
    open, shown, pending := page.navMobileOpen, page.toggleShown, page.resizePending;
  }
}
