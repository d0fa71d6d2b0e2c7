# GeekDZ site script — Dafny model

This project models the interactive script of the GeekDZ club website
(`js/app.js`). That script has two parts:

- **The member roster.** The page fetches the members document once and keeps the result as the roster (`allMembers`). It renders one card per member into the members grid. When there is nothing to show, it shows a "No results found" placeholder. Filter buttons re-render the loaded roster restricted to one role tag, or the whole roster for the tag `"all"`.
- **The page chrome.** This covers the mobile menu and its `aria-expanded` attribute, the modal overlay (which the script only ever closes), the sticky header's `scrolled` class, and the filter button row, in which exactly one button is active.

The DOM is an immutable state record. The fetch is an input datatype. The rendered grid is a datatype (`Initial | NoResults | Cards(seq<Card>)`), not HTML. Every element the script looks up may be missing from the page. Each handler is guarded exactly as the script guards it, and that includes the two places where a missing element makes a handler throw.

Files and modules:

- `wrappers.dfy` — `Wrappers`: `Option`. It models JavaScript's `undefined`/`null` for absent fields and attributes.
- `roster.dfy` — `Roster`. Contains:
  - members and cards;
  - role labels;
  - avatar and bio defaults;
  - rendering (`displayMembers` and `displayNoResults`);
  - filtering by role tag, as a pure function and as the loop the page runs;
  - `loadMembers`.
- `chrome.dfy` — `Chrome`: the menu, modal, header and filter-button transitions, one function per event listener.
- `page.dfy` — `Page`: the whole page as one record. It also holds the event dispatcher `Step`, which runs a click's target listeners before the document's outside-click listener and both Escape listeners in installation order. `Run` applies a sequence of events. This module also has the invariants over runs.

Modelling choices:

- A response is `ok` when its status lies between 200 and 299. A body is `Malformed` when JSON parsing fails or the document is `null`; only then does reading `data.members` throw, so the catch path keeps the roster. Every other value is a `Document`. A number, string, boolean or array has no `members` property, so it is `Document(None)`, exactly like an object without the field: the roster becomes `[]` and the placeholder is shown.
- The load renders the whole delivered roster, whichever filter button is active. A fetch that settles after a role button was clicked therefore shows every member while that button stays highlighted (`Page.LoadUnderRoleFilterShowsAll`).
- `aria-expanded` is `Option<string>`, because `getAttribute` returns `null` when the attribute is absent. The toggle writes the negation of `aria-expanded === "true"`. Toggling twice is the identity only when the attribute already held `"true"` or `"false"`.
- A filter button's `data-filter` is `Option<string>`. A missing attribute matches no role, so that button shows the placeholder.
- The in-page anchor handler writes the toggle's attribute without checking that the toggle exists. When the menu is open and the toggle is missing, the write throws and the menu stays open. The model keeps this behaviour.
- The scroll listener writes the header's class without checking that the header exists. Without a header it throws before recording the offset, so the model leaves the header state unchanged.
- Scroll offsets are `real`. The threshold is 100 pixels, and the comparison is strict.

## Model

| member | source | states |
|---|---|---|
| Roster.RoleLabel | js/app.js:189-196 | `president`, `vice-president` and `member` map to "President", "Vice President" and "Member"; every other role is returned verbatim |
| Roster.RoleLabelRange | js/app.js:189-196 | a label is the raw role or one of the three table labels |
| Roster.AvatarSource | js/app.js:174 | the image source is the member's avatar when present and non-empty, otherwise `/placeholder-user.jpg`; never empty |
| Roster.MakeCard | js/app.js:171-183 | a card carries the member's name, its role label, the avatar source, and the bio or `""` when absent |
| Roster.OnAvatarError | js/app.js:178 | a failed image load sets the card's source to the placeholder and changes nothing else |
| Roster.OnAvatarErrorIdempotent | js/app.js:178 | the image source settles on the placeholder: repeating the swap changes nothing, and a card already showing it is unchanged |
| Roster.CardsOf | js/app.js:169-186 | exactly one card per member, the i-th card made from the i-th member |
| Roster.CardsOfAppend | js/app.js:169-186 | the cards of a concatenation are the concatenation of the cards, so input order is kept |
| Roster.Display | js/app.js:161-187 | an empty list shows the placeholder and never an empty grid; a non-empty list shows one card per member in input order |
| Roster.Render | js/app.js:161-167 | without a grid nothing changes; with one, it shows the list's display |
| Roster.ShowNoResults | js/app.js:152-159 | without a grid nothing changes; with one, it shows the placeholder |
| Roster.RenderOverwrites | js/app.js:152-187 | the rendered grid does not depend on what the grid showed before; rendering is idempotent; the placeholder is the rendering of the empty list |
| Roster.FilterRole | js/app.js:215 | the result contains exactly the roster members whose role equals the tag, and is no longer than the roster |
| Roster.Filter | js/app.js:210-216 | `"all"` yields the roster unchanged; any other tag yields exactly the members whose role equals it |
| Roster.FilterRoleIsSubsequence | js/app.js:215 | the filtered list is a subsequence of the roster, so it keeps the roster's order |
| Roster.FilterRoleMultiset | js/app.js:215 | each matching member occurs in the result as often as in the roster; non-matching members never occur |
| Roster.FilterRoleAppend | js/app.js:215 | filtering a concatenation is concatenating the filtered parts |
| Roster.FilterRoleExtremes | js/app.js:215 | a roster whose members all match is kept whole; one where none match yields the empty list |
| Roster.FilterIdempotent | js/app.js:210-216 | filtering twice by the same tag is filtering once |
| Roster.FilterMembers | js/app.js:210-216 | the filter loop the page runs agrees with the functional filter for every tag, `"all"` included |
| Roster.FilteredCardsShareLabel | js/app.js:210-216 | every card shown under a role filter carries that role's label |
| Roster.InitialRoster | js/app.js:123-124 | before any load the roster is empty |
| Roster.OkStatusBoundaries | js/app.js:130 | `response.ok` holds for statuses 200 through 299 and fails just outside that range and for 404 and 500 |
| Roster.Fetched | js/app.js:128-135 | a load delivers members only for an ok status with a parseable, non-null document: its `members` field, or `[]` when absent; every failure delivers nothing |
| Roster.Load | js/app.js:126-150 | success replaces the roster wholesale and renders it as `displayMembers` would; failure keeps the roster and shows the placeholder |
| Roster.LoadOutcomes | js/app.js:126-150 | from the initial page, a failed load leaves the roster empty with the placeholder shown; a successful one shows the delivered list |
| Roster.LoadDocumentWithoutMembers | js/app.js:134-139 | an ok document without a `members` property empties the roster and shows the placeholder; an unparseable or `null` body keeps the roster and shows the placeholder |
| Roster.LoadIdempotent | js/app.js:126-150 | applying the same load outcome twice is applying it once, so a repeated `Loaded` event, which the page model admits though the script fetches once, is harmless |
| Chrome.ToggleClick | js/app.js:52-56 | the toggle flips the menu's open state and sets `aria-expanded` to the opposite of whether it read "true"; consistency between the two is kept in both directions |
| Chrome.ToggleTwice | js/app.js:52-56 | two toggles restore the menu once the attribute holds "true" or "false" |
| Chrome.ToggleTwiceFromAbsent | js/app.js:52-56 | from an absent `aria-expanded`, two toggles end with the attribute "false", so they are not the identity |
| Chrome.Close | js/app.js:62-63 | a close sets `aria-expanded` to "false" and removes `active` |
| Chrome.NavLinkClick | js/app.js:58-65 | a menu link click closes the menu; it preserves consistency |
| Chrome.DocumentClick | js/app.js:67-73 | a click outside both the toggle and the menu closes the menu; a click inside either changes nothing |
| Chrome.EscapeMenu | js/app.js:355-363 | Escape closes an open menu, resetting the attribute when the toggle exists; a closed menu is untouched |
| Chrome.AnchorClick | js/app.js:97-118 | an in-page anchor whose target exists closes an open menu; a missing target, or a missing toggle, changes nothing |
| Chrome.CloseModal | js/app.js:22-23 | every modal close removes `active` and clears the body's overflow |
| Chrome.CloseButtonClick | js/app.js:19-25 | the close button closes the modal when both it and the overlay exist, and never opens it |
| Chrome.OverlayClick | js/app.js:27-35 | an overlay click closes the modal only when the overlay itself is the target |
| Chrome.EscapeModal | js/app.js:37-43 | Escape closes the modal only when it is active; otherwise nothing changes |
| Chrome.EscapeModalTwice | js/app.js:364-367 | the second Escape listener finds the modal closed, so running both listeners is running one |
| Chrome.OnScroll | js/app.js:82-92 | with a header, `scrolled` holds exactly when the new offset exceeds 100, and the offset is recorded; without one nothing changes |
| Chrome.ActivateButton | js/app.js:203-208 | after the click handler's loop, the clicked button is the only active one and every tag is unchanged |
| Chrome.Activate | js/app.js:206-207 | the clicked button is the only active button; tags are unchanged |
| Chrome.OnlyActiveUnique | js/app.js:206-207 | at most one button can be the only active one |
| Page.FilterClick | js/app.js:203-219 | the clicked button becomes the only active one; the grid shows the roster filtered by its tag; the roster is untouched |
| Page.MenuAfterClick | js/app.js:52-118 | a toggle click only toggles; a click inside the menu changes nothing; with both elements present, every other click leaves the menu closed; without them nothing changes; consistency is kept |
| Page.ModalAfterClick | js/app.js:19-35 | a click never opens the modal; only the close button (when it and the overlay exist) and the overlay itself close it; any other target leaves it unchanged |
| Page.Step | js/app.js:16-219 | every event keeps the menu consistent, never activates the modal, only clears the body overflow, and leaves the roster alone unless it is a load |
| Page.RunPreservesMenuConsistent | js/app.js:52-115 | over any sequence of events, `aria-expanded` is "true" exactly when the menu is open |
| Page.RunKeepsModalInactive | js/app.js:16-43 | starting with the modal inactive, no sequence of events makes it active |
| Page.RunKeepsRoster | js/app.js:203-219 | without a load, no sequence of events (filter clicks included) changes the roster |
| Page.RunScrolledFollowsLatest | js/app.js:82-92 | after any events, `scrolled` reflects only the latest scroll offset; with no scroll the header is unchanged |
| Page.FilterClickShowsFilter | js/app.js:203-219 | after a filter click, the clicked button and no other is active, and the grid shows the roster under its tag |
| Page.StepKeepsShowsFilter | js/app.js:203-219 | events other than loads and filter clicks keep the grid showing the active button's filter |
| Page.LoadUnderAllShowsFilter | js/app.js:126-150 | with the "all" button active, a successful load shows the same grid as filtering by "all" |
| Page.LoadShowsWholeRoster | js/app.js:135-143 | a successful load renders the whole delivered roster whatever button is active, and leaves the buttons as they were |
| Page.LoadUnderRoleFilterShowsAll | js/app.js:135-143 | with "president" active, a load delivering a president and a member keeps "president" highlighted while the grid shows both, so the grid no longer matches the active filter |
| Page.StepKeepsOneActive | js/app.js:206-207 | one event keeps exactly one filter button active: the clicked one after a filter click, otherwise the same one |
| Page.RunKeepsOneActive | js/app.js:203-219 | once exactly one filter button is active, that stays true after any events |
| Page.ToggleTwiceRestores | js/app.js:52-56 | two toggle clicks restore the whole page when the attribute holds "true" or "false" |
| Page.StepIdempotent | js/app.js:16-219 | every event other than a toggle click is idempotent: menu and modal closes, Escape, filter clicks, scrolls and loads |

## Left out

- `js/three-scene.js` as a whole is not modelled. It is WebGL probing, scene-graph setup, `Math.random` placement and per-frame floating-point animation over an external 3D library.
- `fetch`, `await` and JSON parsing are not modelled. Their result is the `FetchOutcome` input. `console.error` logging is dropped.
- HTML markup, `innerHTML` and the missing escaping of member fields are not modelled. So are the `alt` text, `loading="lazy"` and the `animation-delay` values (a float, `index * 0.1`). A card keeps only its avatar source, name, role label and bio.
- Members are assumed to be well-formed objects with string `name` and `role`. The script would throw on, say, a `null` entry, after `allMembers` had already been assigned. That path is not modelled.
- Roster.RoleLabel: the lookup is a three-entry table. JavaScript prototype keys such as `"toString"`, which `roles[role]` would also find, are not modelled.
- The browser's image-loading mechanics are not modelled. Only the effect of the `onerror` handler is, as `Roster.OnAvatarError`. The handler never clears itself, so if the placeholder image also fails to load, it can fire again; whether it does is left to the browser and not modelled.
- The counter animation (`animateCounter` and its `IntersectionObserver`) is not modelled. It relies on floating-point increments and `requestAnimationFrame`.
- The cosmetic style writes are not modelled: icon and card hover transforms, mouse parallax, circuit animation delays and section fade-ins.
- `window.scrollTo` and the header-height offset in the anchor handler are not modelled. Only the handler's menu-closing effect is.
- The join button lookup is not modelled because it has no behaviour. The same goes for the body's `loaded` class and the `DOMContentLoaded` wiring of `init`.
- The scroll listener's `lastScroll` is recorded, but the script never reads it.
