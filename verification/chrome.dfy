/** The page chrome: the mobile menu and its `aria-expanded` flag, the modal
    overlay, the sticky header and the row of filter buttons. Each element
    may be missing from the page; every handler is guarded the way the
    script guards it. */
module Chrome {
  import opened Wrappers

  // ---------------------------------------------------------------------
  // Mobile menu
  // ---------------------------------------------------------------------

  /** The menu toggle button (with its `aria-expanded` attribute, `None` when
      the attribute is absent) and the navigation menu (with its `active` class). */
  datatype Menu = Menu(hasToggle: bool, ariaExpanded: Option<string>, hasNav: bool, navActive: bool)

  /** The toggle, nav-link and outside-click listeners are installed only when
      both the toggle and the menu exist. */
  predicate Wired(m: Menu)
  {
    m.hasToggle && m.hasNav
  }

  /** The toggle's `aria-expanded` attribute reads "true" exactly when the menu is open. */
  predicate MenuConsistent(m: Menu)
  {
    Wired(m) ==> (m.ariaExpanded == Some("true") <==> m.navActive)
  }

  /** The menu is closed and says so. */
  predicate MenuClosed(m: Menu)
  {
    !m.navActive && (m.hasToggle ==> m.ariaExpanded == Some("false"))
  }

  /** A click on the toggle flips both the attribute and the class. The new
      attribute is the negation of `aria-expanded === "true"`, so an absent or
      unexpected value counts as "false". */
  function ToggleClick(m: Menu): (m': Menu)
    ensures Wired(m) ==> m'.navActive == !m.navActive
    ensures Wired(m) ==> (m'.ariaExpanded == Some("true") <==> m.ariaExpanded != Some("true"))
    ensures Wired(m) ==> m'.ariaExpanded.Some? && m'.ariaExpanded.value in {"true", "false"}
    ensures !Wired(m) ==> m' == m
    ensures MenuConsistent(m) <==> MenuConsistent(m')
  {
    if !Wired(m) then m
    else
      var wasExpanded := m.ariaExpanded == Some("true");
      m.(ariaExpanded := Some(if wasExpanded then "false" else "true"), navActive := !m.navActive)
  }

  /** Toggling twice restores the menu, provided the attribute already held
      one of the two values the toggle writes. */
  lemma ToggleTwice(m: Menu)
    requires m.ariaExpanded == Some("true") || m.ariaExpanded == Some("false")
    ensures ToggleClick(ToggleClick(m)) == m
  {
  }

  /** Starting from an absent attribute, two toggles are not the identity:
      the first writes "true", the second "false", and the absent attribute is
      not restored. */
  lemma ToggleTwiceFromAbsent()
    ensures ToggleClick(ToggleClick(Menu(true, None, true, false))) != Menu(true, None, true, false)
    ensures ToggleClick(ToggleClick(Menu(true, None, true, false))) == Menu(true, Some("false"), true, false)
  {
  }

  /** The attribute and class writes shared by every close path. */
  function Close(m: Menu): (m': Menu)
    requires m.hasToggle
    ensures MenuClosed(m') && MenuConsistent(m')
    ensures m'.hasToggle == m.hasToggle && m'.hasNav == m.hasNav
  {
    m.(ariaExpanded := Some("false"), navActive := false)
  }

  /** A click on a link inside the menu closes it. */
  function NavLinkClick(m: Menu): (m': Menu)
    ensures Wired(m) ==> MenuClosed(m')
    ensures !Wired(m) ==> m' == m
    ensures MenuConsistent(m) ==> MenuConsistent(m')
  {
    if Wired(m) then Close(m) else m
  }

  /** Any click reaches the document listener; it closes the menu only when
      the click target lies inside neither the toggle nor the menu. */
  function DocumentClick(m: Menu, inToggle: bool, inNav: bool): (m': Menu)
    ensures Wired(m) && !inToggle && !inNav ==> MenuClosed(m')
    ensures inToggle || inNav || !Wired(m) ==> m' == m
    ensures MenuConsistent(m) ==> MenuConsistent(m')
  {
    if Wired(m) && !inToggle && !inNav then Close(m) else m
  }

  /** Escape closes an open menu; the attribute is reset only when the toggle exists. */
  function EscapeMenu(m: Menu): (m': Menu)
    ensures m.hasNav ==> !m'.navActive
    ensures m.hasNav && m.navActive && m.hasToggle ==> m'.ariaExpanded == Some("false")
    ensures !(m.hasNav && m.navActive) ==> m' == m
    ensures MenuConsistent(m) ==> MenuConsistent(m')
  {
    if m.hasNav && m.navActive then
      if m.hasToggle then Close(m) else m.(navActive := false)
    else m
  }

  /** A click on an in-page anchor whose target exists closes an open menu.
      When the menu is open but the toggle is missing, writing the attribute
      throws and the handler stops before the class is removed. An anchor
      whose target is missing (or whose `href` is not a valid selector)
      changes nothing here. */
  function AnchorClick(m: Menu, targetFound: bool): (m': Menu)
    ensures targetFound && Wired(m) ==> !m'.navActive
    ensures targetFound && Wired(m) && m.navActive ==> MenuClosed(m')
    ensures !targetFound || !m.hasToggle ==> m' == m
    ensures MenuConsistent(m) ==> MenuConsistent(m')
  {
    if targetFound && m.hasNav && m.navActive && m.hasToggle then Close(m) else m
  }

  // ---------------------------------------------------------------------
  // Modal
  // ---------------------------------------------------------------------

  /** The overlay and its close button (either may be missing), the overlay's
      `active` class, and the body's `overflow` style. */
  datatype Modal = Modal(hasOverlay: bool, hasClose: bool, active: bool, bodyOverflow: string)

  /** The modal is inactive and no longer locks the page's scrolling. */
  predicate ModalClosed(md: Modal)
  {
    !md.active && md.bodyOverflow == ""
  }

  /** The close writes every close path performs. */
  function CloseModal(md: Modal): (md': Modal)
    ensures ModalClosed(md')
    ensures md'.hasOverlay == md.hasOverlay && md'.hasClose == md.hasClose
  {
    md.(active := false, bodyOverflow := "")
  }

  /** The close button closes the modal (listener installed only when both
      the button and the overlay exist). */
  function CloseButtonClick(md: Modal): (md': Modal)
    ensures md.hasClose && md.hasOverlay ==> ModalClosed(md')
    ensures !(md.hasClose && md.hasOverlay) ==> md' == md
    ensures md'.active ==> md.active
  {
    if md.hasClose && md.hasOverlay then CloseModal(md) else md
  }

  /** A click on the overlay closes the modal only when the overlay itself,
      not something inside it, is the event target. */
  function OverlayClick(md: Modal, onOverlay: bool): (md': Modal)
    ensures md.hasOverlay && onOverlay ==> ModalClosed(md')
    ensures !onOverlay ==> md' == md
    ensures md'.active ==> md.active
  {
    if md.hasOverlay && onOverlay then CloseModal(md) else md
  }

  /** One Escape listener's modal part: it closes the modal only when it is active. */
  function EscapeModal(md: Modal): (md': Modal)
    ensures md.hasOverlay && md.active ==> ModalClosed(md')
    ensures !(md.hasOverlay && md.active) ==> md' == md
    ensures !md'.active || !md.hasOverlay
  {
    if md.hasOverlay && md.active then CloseModal(md) else md
  }

  /** Two keydown listeners both close the modal on Escape; the second finds
      it already closed, so running both is running one. */
  lemma EscapeModalTwice(md: Modal)
    ensures EscapeModal(EscapeModal(md)) == EscapeModal(md)
  {
  }

  // ---------------------------------------------------------------------
  // Header
  // ---------------------------------------------------------------------

  /** Scroll offset (in pixels) past which the header is marked `scrolled`. */
  const ScrollThreshold: real := 100.0

  /** The sticky header (possibly missing), its `scrolled` class, and the last
      offset the scroll listener recorded. */
  datatype Header = Header(present: bool, scrolled: bool, lastScroll: real)

  /** The scroll listener: the header is `scrolled` exactly when the new offset
      exceeds the threshold. Without a header the class write throws, so
      neither the class nor the recorded offset changes. */
  function OnScroll(h: Header, offset: real): (h': Header)
    ensures h.present ==> (h'.scrolled <==> offset > ScrollThreshold)
    ensures h.present ==> h'.lastScroll == offset
    ensures !h.present ==> h' == h
    ensures h'.present == h.present
  {
    if !h.present then h
    else
      h.(scrolled := offset > ScrollThreshold, lastScroll := offset)
  }

  // ---------------------------------------------------------------------
  // Filter buttons
  // ---------------------------------------------------------------------

  /** A filter button: its `data-filter` attribute (absent is `None`) and its `active` class. */
  datatype FilterButton = FilterButton(tag: Option<string>, active: bool)

  /** Button `i` is the one and only active button. */
  predicate OnlyActive(bs: seq<FilterButton>, i: int)
  {
    0 <= i < |bs| && forall j :: 0 <= j < |bs| ==> (bs[j].active <==> j == i)
  }

  /** The click handler's class update: every button loses `active`, then the
      clicked one gains it; the tags are untouched. */
  method ActivateButton(bs: seq<FilterButton>, i: nat) returns (r: seq<FilterButton>)
    requires i < |bs|
    ensures OnlyActive(r, i)
    ensures |r| == |bs|
    ensures forall j :: 0 <= j < |bs| ==> r[j].tag == bs[j].tag
    ensures r == Activate(bs, i)
  {
    r := [];
    var k := 0;
    while k < |bs|
      invariant 0 <= k <= |bs|
      invariant |r| == k
      invariant forall j :: 0 <= j < k ==> r[j] == bs[j].(active := false)
    {
      r := r + [bs[k].(active := false)];
      k := k + 1;
    }
    r := r[i := r[i].(active := true)];
  }

  /** The same update as a function, used by the page's transition function. */
  function Activate(bs: seq<FilterButton>, i: nat): (r: seq<FilterButton>)
    requires i < |bs|
    ensures OnlyActive(r, i)
    ensures |r| == |bs|
    ensures forall j :: 0 <= j < |bs| ==> r[j].tag == bs[j].tag
  {
    seq(|bs|, j requires 0 <= j < |bs| => FilterButton(bs[j].tag, j == i))
  }

  /** Only one button can be the only active one. */
  lemma OnlyActiveUnique(bs: seq<FilterButton>, i: int, j: int)
    requires OnlyActive(bs, i) && OnlyActive(bs, j)
    ensures i == j
  {
    assert bs[i].active;
  }
}
