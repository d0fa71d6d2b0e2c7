/** The whole page as one state record, and the events the script listens to.
    A click runs the listeners of its target first and then the document's
    outside-click listener, in the order the script installs them. */
module Page {
  import opened Wrappers
  import opened Roster
  import opened Chrome

  datatype Page = Page(roster: RosterState, buttons: seq<FilterButton>, menu: Menu, modal: Modal, header: Header)

  /** Where a click lands. */
  datatype Target =
    | ToggleButton                 // the mobile-menu toggle
    | NavLink(anchor: Option<bool>) // a link in the menu; `Some(found)` when its href starts with '#'
    | InsideNav                    // any other point inside the menu
    | InPageAnchor(found: bool)    // a '#' link outside the menu, whose target exists or not
    | FilterBtn(index: nat)        // the index-th filter button
    | CloseButton                  // the modal's close button
    | Overlay                      // the modal overlay itself
    | InsideModal                  // something inside the overlay other than the close button
    | Elsewhere                    // anywhere else

  datatype Event =
    | Loaded(outcome: FetchOutcome) // the members document's fetch settled
    | Click(target: Target)
    | KeyDown(key: string)
    | Scroll(offset: real)          // the page's new vertical scroll offset

  /** The filter button click: the clicked button becomes the only active one
      and the grid shows the loaded roster under its tag; nothing is fetched. */
  function FilterClick(p: Page, i: nat): (p': Page)
    ensures i < |p.buttons| ==> OnlyActive(p'.buttons, i)
    ensures i < |p.buttons| ==> p'.roster.grid == Render(p.roster.grid, Filter(p.roster.all, p.buttons[i].tag))
    ensures i >= |p.buttons| ==> p' == p
    ensures p'.roster.all == p.roster.all
  {
    if i < |p.buttons| then
      var grid := Render(p.roster.grid, Filter(p.roster.all, p.buttons[i].tag));
      p.(buttons := Activate(p.buttons, i), roster := p.roster.(grid := grid))
    else p
  }

  /** The menu's response to a click on `t`: the target's own listeners, then
      the document listener with the target's position. */
  function MenuAfterClick(m: Menu, t: Target): (m': Menu)
    ensures t == ToggleButton ==> m' == ToggleClick(m)
    ensures t == InsideNav ==> m' == m
    ensures Wired(m) && t != ToggleButton && t != InsideNav ==> MenuClosed(m')
    ensures !Wired(m) ==> m' == m
    ensures MenuConsistent(m) ==> MenuConsistent(m')
  {
    match t
    case ToggleButton => DocumentClick(ToggleClick(m), true, false)
    case NavLink(anchor) =>
      var m1 := NavLinkClick(m);
      var m2 := if anchor.Some? then AnchorClick(m1, anchor.value) else m1;
      DocumentClick(m2, false, true)
    case InsideNav => DocumentClick(m, false, true)
    case InPageAnchor(found) => DocumentClick(AnchorClick(m, found), false, false)
    case _ => DocumentClick(m, false, false)
  }

  /** The modal's response to a click on `t`: the close button's listener, then
      the overlay's, which sees the overlay as target only when it was clicked. */
  function ModalAfterClick(md: Modal, t: Target): (md': Modal)
    ensures md'.active ==> md.active
    ensures t != CloseButton && t != Overlay ==> md' == md
    ensures t == CloseButton && md.hasClose && md.hasOverlay ==> ModalClosed(md')
    ensures t == Overlay && md.hasOverlay ==> ModalClosed(md')
    ensures md'.hasOverlay == md.hasOverlay && md'.hasClose == md.hasClose
  {
    match t
    case CloseButton => OverlayClick(CloseButtonClick(md), false)
    case Overlay => OverlayClick(md, true)
    case InsideModal => OverlayClick(md, false)
    case _ => md
  }

  /** One event's effect on the page. */
  function Step(p: Page, e: Event): (p': Page)
    ensures MenuConsistent(p.menu) ==> MenuConsistent(p'.menu)
    ensures p'.modal.active ==> p.modal.active
    ensures p'.modal.bodyOverflow != p.modal.bodyOverflow ==> p'.modal.bodyOverflow == ""
    ensures !e.Loaded? ==> p'.roster.all == p.roster.all
    ensures (forall i :: e != Click(FilterBtn(i))) ==> p'.buttons == p.buttons
    ensures p'.header.present == p.header.present
  {
    match e
    case Loaded(o) => p.(roster := Load(p.roster, o))
    case Click(t) =>
      var p1 := if t.FilterBtn? then FilterClick(p, t.index) else p;
      p1.(menu := MenuAfterClick(p1.menu, t), modal := ModalAfterClick(p1.modal, t))
    case KeyDown(key) =>
      if key == "Escape" then
        // the modal's own Escape listener, then the keyboard-navigation listener
        p.(modal := EscapeModal(EscapeModal(p.modal)), menu := EscapeMenu(p.menu))
      else p
    case Scroll(offset) => p.(header := OnScroll(p.header, offset))
  }

  /** The page after a sequence of events, in order. */
  function Run(p: Page, es: seq<Event>): Page
    decreases |es|
  {
    if |es| == 0 then p else Run(Step(p, es[0]), es[1..])
  }

  // ---------------------------------------------------------------------
  // Invariants over runs
  // ---------------------------------------------------------------------

  /** Every event keeps `aria-expanded` in step with the menu's `active` class. */
  lemma {:induction false} RunPreservesMenuConsistent(p: Page, es: seq<Event>)
    requires MenuConsistent(p.menu)
    ensures MenuConsistent(Run(p, es).menu)
    decreases |es|
  {
    if |es| > 0 {
      RunPreservesMenuConsistent(Step(p, es[0]), es[1..]);
    }
  }

  /** The script never opens the modal: starting inactive, it stays inactive. */
  lemma {:induction false} RunKeepsModalInactive(p: Page, es: seq<Event>)
    requires !p.modal.active
    ensures !Run(p, es).modal.active
    decreases |es|
  {
    if |es| > 0 {
      RunKeepsModalInactive(Step(p, es[0]), es[1..]);
    }
  }

  /** Only a load replaces the roster; filtering and the chrome never touch it. */
  lemma {:induction false} RunKeepsRoster(p: Page, es: seq<Event>)
    requires forall k :: 0 <= k < |es| ==> !es[k].Loaded?
    ensures Run(p, es).roster.all == p.roster.all
    decreases |es|
  {
    if |es| > 0 {
      RunKeepsRoster(Step(p, es[0]), es[1..]);
    }
  }

  /** The offset of the last scroll event, if any. */
  function LastScroll(es: seq<Event>): (r: Option<real>)
    ensures r.None? <==> forall k :: 0 <= k < |es| ==> !es[k].Scroll?
    decreases |es|
  {
    if |es| == 0 then None
    else if es[|es| - 1].Scroll? then Some(es[|es| - 1].offset)
    else LastScroll(es[..|es| - 1])
  }

  /** Running a prefix and then one more event. */
  lemma {:induction false} RunSnoc(p: Page, es: seq<Event>, e: Event)
    ensures Run(p, es + [e]) == Step(Run(p, es), e)
    decreases |es|
  {
    if |es| == 0 {
      assert es + [e] == [e];
    } else {
      assert (es + [e])[1..] == es[1..] + [e];
      RunSnoc(Step(p, es[0]), es[1..], e);
    }
  }

  /** The header's `scrolled` class depends only on the latest scroll offset. */
  lemma {:induction false} RunScrolledFollowsLatest(p: Page, es: seq<Event>)
    requires p.header.present
    ensures LastScroll(es).Some? ==> (Run(p, es).header.scrolled <==> LastScroll(es).value > ScrollThreshold)
    ensures LastScroll(es).None? ==> Run(p, es).header == p.header
    decreases |es|
  {
    if |es| > 0 {
      var init := es[..|es| - 1];
      var e := es[|es| - 1];
      assert es == init + [e];
      RunSnoc(p, init, e);
      RunScrolledFollowsLatest(p, init);
      assert Run(p, init).header.present by {
        RunKeepsHeaderPresence(p, init);
      }
    }
  }

  /** Whether the page has a header never changes. */
  lemma {:induction false} RunKeepsHeaderPresence(p: Page, es: seq<Event>)
    ensures Run(p, es).header.present == p.header.present
    decreases |es|
  {
    if |es| > 0 {
      RunKeepsHeaderPresence(Step(p, es[0]), es[1..]);
    }
  }

  // ---------------------------------------------------------------------
  // Filter buttons and the grid
  // ---------------------------------------------------------------------

  /** The grid shows what `ms` renders to (or the page has no grid). */
  predicate Shows(g: Grid, ms: seq<Member>)
  {
    g.Present? ==> g.view == Display(ms)
  }

  /** Button `i` is the only active one and the grid shows the roster under its tag. */
  predicate ShowsFilter(p: Page, i: int)
  {
    OnlyActive(p.buttons, i) && Shows(p.roster.grid, Filter(p.roster.all, p.buttons[i].tag))
  }

  /** After a click on an existing filter button, exactly that button is active
      and the grid shows the filtered roster. */
  lemma FilterClickShowsFilter(p: Page, i: nat)
    requires i < |p.buttons|
    ensures ShowsFilter(Step(p, Click(FilterBtn(i))), i)
    ensures forall j :: OnlyActive(Step(p, Click(FilterBtn(i))).buttons, j) ==> j == i
  {
    var p' := Step(p, Click(FilterBtn(i)));
    forall j | OnlyActive(p'.buttons, j)
      ensures j == i
    {
      OnlyActiveUnique(p'.buttons, i, j);
    }
  }

  /** Events other than loads and filter clicks leave the active button and the
      grid as they are, so the grid keeps showing the active filter. */
  lemma StepKeepsShowsFilter(p: Page, e: Event, i: int)
    requires ShowsFilter(p, i)
    requires !e.Loaded?
    requires forall j :: e != Click(FilterBtn(j))
    ensures ShowsFilter(Step(p, e), i)
  {
  }

  /** When the active button is the "all" button, a successful load leaves the
      grid showing the active filter: the load's rendering is the rendering of
      the whole roster. */
  lemma LoadUnderAllShowsFilter(p: Page, o: FetchOutcome, i: int)
    requires OnlyActive(p.buttons, i) && p.buttons[i].tag == Some(AllTag)
    requires Fetched(o).Some?
    ensures ShowsFilter(Step(p, Loaded(o)), i)
  {
  }

  /** A successful load renders the whole delivered roster whatever filter
      button is active, and leaves the buttons as they were. */
  lemma LoadShowsWholeRoster(p: Page, o: FetchOutcome)
    requires Fetched(o).Some?
    ensures Shows(Step(p, Loaded(o)).roster.grid, Fetched(o).value)
    ensures Step(p, Loaded(o)).buttons == p.buttons
  {
  }

  /** So a load that settles after a role button was clicked shows every member
      while that role's button stays highlighted: here "president" is active
      before and after, but the grid shows both delivered members. */
  lemma LoadUnderRoleFilterShowsAll()
    ensures var president := Member("A", "president", None, None);
      var member := Member("B", "member", None, None);
      var p := Page(RosterState([], Present(NoResults)),
                    [FilterButton(Some(AllTag), false), FilterButton(Some("president"), true)],
                    Menu(true, Some("false"), true, false),
                    Modal(true, true, false, ""),
                    Header(true, false, 0.0));
      var o := Response(200, Document(Some([president, member])));
      && ShowsFilter(p, 1)
      && OnlyActive(Step(p, Loaded(o)).buttons, 1)
      && !ShowsFilter(Step(p, Loaded(o)), 1)
  {
    var president := Member("A", "president", None, None);
    var member := Member("B", "member", None, None);
    var p := Page(RosterState([], Present(NoResults)),
                  [FilterButton(Some(AllTag), false), FilterButton(Some("president"), true)],
                  Menu(true, Some("false"), true, false),
                  Modal(true, true, false, ""),
                  Header(true, false, 0.0));
    var o := Response(200, Document(Some([president, member])));
    assert Filter([], Some("president")) == [];
    var p' := Step(p, Loaded(o));
    assert p'.roster.all == [president, member];
    assert FilterRole([president, member], Some("president")) == [president];
    assert |Display([president, member]).cards| == 2;
    assert |Display([president]).cards| == 1;
  }

  /** The button that is the only active one after `e`, given that `i` was before. */
  function ActiveAfter(p: Page, e: Event, i: int): int
  {
    if e.Click? && e.target.FilterBtn? && e.target.index < |p.buttons| then e.target.index else i
  }

  /** One event keeps exactly one filter button active: the clicked one after
      a filter click, the same one after anything else. */
  lemma StepKeepsOneActive(p: Page, e: Event, i: int)
    requires OnlyActive(p.buttons, i)
    ensures OnlyActive(Step(p, e).buttons, ActiveAfter(p, e, i))
  {
    if !(e.Click? && e.target.FilterBtn?) {
      assert Step(p, e).buttons == p.buttons;
    }
  }

  /** Once some button is the only active one, some button stays the only active one. */
  lemma {:induction false} RunKeepsOneActive(p: Page, es: seq<Event>, i: int)
    requires OnlyActive(p.buttons, i)
    ensures exists j :: OnlyActive(Run(p, es).buttons, j)
    decreases |es|
  {
    if |es| == 0 {
      assert OnlyActive(Run(p, es).buttons, i);
    } else {
      StepKeepsOneActive(p, es[0], i);
      RunKeepsOneActive(Step(p, es[0]), es[1..], ActiveAfter(p, es[0], i));
      assert Run(p, es) == Run(Step(p, es[0]), es[1..]);
    }
  }

  // ---------------------------------------------------------------------
  // Repeated events
  // ---------------------------------------------------------------------

  /** Two toggle clicks restore the whole page, once the toggle's attribute
      holds one of the two values it writes. */
  lemma ToggleTwiceRestores(p: Page)
    requires p.menu.ariaExpanded == Some("true") || p.menu.ariaExpanded == Some("false")
    ensures Step(Step(p, Click(ToggleButton)), Click(ToggleButton)) == p
  {
    ToggleTwice(p.menu);
  }

  /** Every event other than a toggle click is idempotent: the close events of
      the menu and the modal, Escape, filter clicks, scrolls and loads. */
  lemma StepIdempotent(p: Page, e: Event)
    requires e != Click(ToggleButton)
    ensures Step(Step(p, e), e) == Step(p, e)
  {
    match e
    case Loaded(o) => LoadIdempotent(p.roster, o);
    case Click(t) =>
      if t.FilterBtn? && t.index < |p.buttons| {
        var p1 := Step(p, e);
        FilterIdempotent(p.roster.all, p.buttons[t.index].tag);
        RenderOverwrites(p1.roster.grid, p.roster.grid, Filter(p.roster.all, p.buttons[t.index].tag));
        assert Activate(p1.buttons, t.index) == p1.buttons;
      }
    case KeyDown(_) =>
    case Scroll(_) =>
  }
}
