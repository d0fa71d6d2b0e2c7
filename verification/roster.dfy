/** The member roster: the loaded list of members, the cards rendered from it,
    filtering by role tag, and the one-shot load from the members document. */
module Roster {
  import opened Wrappers

  /** Image shown when a member has no usable avatar, or when the avatar fails to load. */
  const PlaceholderAvatar: string := "/placeholder-user.jpg"

  /** The filter tag that selects the whole roster. */
  const AllTag: string := "all"

  /** One entry of the members document. `bio` and `avatar` may be missing. */
  datatype Member = Member(name: string, role: string, bio: Option<string>, avatar: Option<string>)

  /** What one `member-card` article shows: image source, name, role label and bio. */
  datatype Card = Card(avatar: string, name: string, roleLabel: string, bio: string)

  /** The contents of the members grid: the page's initial markup, the
      "No results found" placeholder, or one card per member. */
  datatype View = Initial | NoResults | Cards(cards: seq<Card>)

  /** The members grid element, which the page may not contain. */
  datatype Grid = Absent | Present(view: View)

  // ---------------------------------------------------------------------
  // Role labels
  // ---------------------------------------------------------------------

  /** The fixed lookup table from role tag to display label. */
  const RoleLabels: map<string, string> :=
    map["president" := "President", "vice-president" := "Vice President", "member" := "Member"]

  /** The human-readable label of a role; roles outside the table are shown verbatim.
      Every label in the table is non-empty, so `roles[role] || role` falls back
      exactly when the role is not a key. */
  function RoleLabel(role: string): (text: string)
    ensures role == "president" ==> text == "President"
    ensures role == "vice-president" ==> text == "Vice President"
    ensures role == "member" ==> text == "Member"
    ensures role != "president" && role != "vice-president" && role != "member" ==> text == role
  {
    if role in RoleLabels then RoleLabels[role] else role
  }

  /** A label is either the role itself or one of the three table labels. */
  lemma RoleLabelRange(role: string)
    ensures RoleLabel(role) == role || RoleLabel(role) in {"President", "Vice President", "Member"}
  {
  }

  // ---------------------------------------------------------------------
  // Cards
  // ---------------------------------------------------------------------

  /** True when the avatar field is present and non-empty (JavaScript-truthy). */
  predicate HasAvatar(m: Member)
  {
    m.avatar.Some? && m.avatar.value != ""
  }

  /** The card's image source: the member's avatar when present and non-empty,
      otherwise the placeholder image. */
  function AvatarSource(m: Member): (src: string)
    ensures HasAvatar(m) ==> src == m.avatar.value
    ensures !HasAvatar(m) ==> src == PlaceholderAvatar
    ensures src != ""
  {
    if HasAvatar(m) then m.avatar.value else PlaceholderAvatar
  }

  /** The card rendered for one member. */
  function MakeCard(m: Member): (c: Card)
    ensures c.name == m.name
    ensures c.roleLabel == RoleLabel(m.role)
    ensures c.avatar == AvatarSource(m)
    ensures m.bio.None? ==> c.bio == ""
    ensures m.bio.Some? ==> c.bio == m.bio.value
  {
    Card(AvatarSource(m), m.name, RoleLabel(m.role), m.bio.GetOr(""))
  }

  /** The image's `onerror` handler: a failed load swaps the source to the placeholder. */
  function OnAvatarError(c: Card): (c': Card)
    ensures c'.avatar == PlaceholderAvatar
    ensures c'.name == c.name && c'.roleLabel == c.roleLabel && c'.bio == c.bio
  {
    c.(avatar := PlaceholderAvatar)
  }

  /** The image source settles on the placeholder: the swap is idempotent,
      and a card whose source already is the placeholder is left as it is. */
  lemma OnAvatarErrorIdempotent(c: Card)
    ensures OnAvatarError(OnAvatarError(c)) == OnAvatarError(c)
    ensures c.avatar == PlaceholderAvatar ==> OnAvatarError(c) == c
  {
  }

  /** One card per member, in input order (the `members.map(...)` of the renderer). */
  function CardsOf(ms: seq<Member>): (cs: seq<Card>)
    ensures |cs| == |ms|
    ensures forall i :: 0 <= i < |ms| ==> cs[i] == MakeCard(ms[i])
  {
    if |ms| == 0 then [] else [MakeCard(ms[0])] + CardsOf(ms[1..])
  }

  /** Rendering cards distributes over concatenation of member lists. */
  lemma CardsOfAppend(a: seq<Member>, b: seq<Member>)
    ensures CardsOf(a + b) == CardsOf(a) + CardsOf(b)
  {
    var lhs, rhs := CardsOf(a + b), CardsOf(a) + CardsOf(b);
    assert |lhs| == |rhs|;
    forall i | 0 <= i < |lhs|
      ensures lhs[i] == rhs[i]
    {
      if i < |a| {
        assert (a + b)[i] == a[i];
      } else {
        assert (a + b)[i] == b[i - |a|];
      }
    }
  }

  /** What the grid shows for a member list: the placeholder for an empty list,
      never an empty grid; otherwise exactly one card per member, in order. */
  function Display(ms: seq<Member>): (v: View)
    ensures v.NoResults? <==> |ms| == 0
    ensures !v.Initial?
    ensures v.Cards? ==> |v.cards| == |ms| > 0
    ensures v.Cards? ==> forall i :: 0 <= i < |ms| ==> v.cards[i] == MakeCard(ms[i])
  {
    if |ms| == 0 then NoResults else Cards(CardsOf(ms))
  }

  /** `displayMembers`: replaces the grid's contents, or does nothing when the
      page has no grid. */
  function Render(g: Grid, ms: seq<Member>): (g': Grid)
    ensures g'.Absent? <==> g.Absent?
    ensures g'.Present? ==> g'.view == Display(ms)
  {
    if g.Absent? then Absent else Present(Display(ms))
  }

  /** `displayNoResults`: shows the placeholder, or does nothing without a grid. */
  function ShowNoResults(g: Grid): (g': Grid)
    ensures g'.Absent? <==> g.Absent?
    ensures g'.Present? ==> g'.view == NoResults
  {
    if g.Absent? then Absent else Present(NoResults)
  }

  /** Rendering depends only on the list and not on what the grid showed before;
      in particular it is idempotent, and showing the placeholder is rendering
      the empty list. */
  lemma RenderOverwrites(g1: Grid, g2: Grid, ms: seq<Member>)
    requires g1.Absent? <==> g2.Absent?
    ensures Render(g1, ms) == Render(g2, ms)
    ensures Render(Render(g1, ms), ms) == Render(g1, ms)
    ensures ShowNoResults(g1) == Render(g1, [])
  {
  }

  // ---------------------------------------------------------------------
  // Filtering
  // ---------------------------------------------------------------------

  /** A member matches a filter tag when its role equals the tag. A button
      without a `data-filter` attribute has tag `None`, which no role equals. */
  predicate Matches(m: Member, tag: Option<string>)
  {
    tag.Some? && m.role == tag.value
  }

  /** The members whose role equals the tag, in roster order (`Array.prototype.filter`). */
  function FilterRole(ms: seq<Member>, tag: Option<string>): (r: seq<Member>)
    ensures |r| <= |ms|
    ensures forall m :: m in r <==> m in ms && Matches(m, tag)
    ensures forall k :: 0 <= k < |r| ==> Matches(r[k], tag)
  {
    if |ms| == 0 then []
    else if Matches(ms[0], tag) then [ms[0]] + FilterRole(ms[1..], tag)
    else FilterRole(ms[1..], tag)
  }

  /** The view of the roster selected by a filter button's tag: the whole roster
      for "all", otherwise the members whose role equals the tag. */
  function Filter(ms: seq<Member>, tag: Option<string>): (r: seq<Member>)
    ensures tag == Some(AllTag) ==> r == ms
    ensures tag != Some(AllTag) ==> forall m :: m in r <==> m in ms && Matches(m, tag)
    ensures |r| <= |ms|
  {
    if tag == Some(AllTag) then ms else FilterRole(ms, tag)
  }

  /** `a` is `b` with some elements removed, the rest kept in order. */
  ghost predicate IsSubsequence(a: seq<Member>, b: seq<Member>)
    decreases |b|
  {
    if |a| == 0 then true
    else if |b| == 0 then false
    else if a[0] == b[0] then IsSubsequence(a[1..], b[1..])
    else IsSubsequence(a, b[1..])
  }

  /** Filtering keeps the roster's order. */
  lemma {:induction false} FilterRoleIsSubsequence(ms: seq<Member>, tag: Option<string>)
    ensures IsSubsequence(FilterRole(ms, tag), ms)
  {
    if |ms| > 0 {
      FilterRoleIsSubsequence(ms[1..], tag);
      var rest := FilterRole(ms[1..], tag);
      if Matches(ms[0], tag) {
        assert ([ms[0]] + rest)[1..] == rest;
      }
    }
  }

  /** Filtering keeps every matching member as many times as it occurs in the
      roster and drops every other member: the result is exactly the
      multiset `{m in ms : m.role == tag}`. */
  lemma {:induction false} FilterRoleMultiset(ms: seq<Member>, tag: Option<string>, m: Member)
    ensures multiset(FilterRole(ms, tag))[m] == if Matches(m, tag) then multiset(ms)[m] else 0
  {
    if |ms| > 0 {
      FilterRoleMultiset(ms[1..], tag, m);
      assert ms == [ms[0]] + ms[1..];
      assert multiset(ms) == multiset([ms[0]]) + multiset(ms[1..]);
    }
  }

  /** Filtering a concatenation filters each part. */
  lemma {:induction false} FilterRoleAppend(a: seq<Member>, b: seq<Member>, tag: Option<string>)
    ensures FilterRole(a + b, tag) == FilterRole(a, tag) + FilterRole(b, tag)
  {
    if |a| == 0 {
      assert a + b == b;
    } else {
      assert (a + b)[0] == a[0];
      assert (a + b)[1..] == a[1..] + b;
      FilterRoleAppend(a[1..], b, tag);
    }
  }

  /** A roster whose members all match is kept whole; one where none match yields nothing. */
  lemma {:induction false} FilterRoleExtremes(ms: seq<Member>, tag: Option<string>)
    ensures (forall i :: 0 <= i < |ms| ==> Matches(ms[i], tag)) ==> FilterRole(ms, tag) == ms
    ensures (forall i :: 0 <= i < |ms| ==> !Matches(ms[i], tag)) ==> FilterRole(ms, tag) == []
  {
    if |ms| > 0 {
      FilterRoleExtremes(ms[1..], tag);
      assert forall i :: 1 <= i < |ms| ==> ms[1..][i - 1] == ms[i];
      assert ms == [ms[0]] + ms[1..];
    }
  }

  /** Filtering twice by the same tag is filtering once. */
  lemma FilterIdempotent(ms: seq<Member>, tag: Option<string>)
    ensures Filter(Filter(ms, tag), tag) == Filter(ms, tag)
  {
    if tag != Some(AllTag) {
      FilterRoleExtremes(FilterRole(ms, tag), tag);
    }
  }

  /** The filter as the page runs it: "all" passes the roster through, any
      other tag builds the matching members one by one in roster order. */
  method FilterMembers(ms: seq<Member>, tag: Option<string>) returns (r: seq<Member>)
    ensures r == Filter(ms, tag)
  {
    if tag == Some(AllTag) {
      return ms;
    }
    r := [];
    var i := 0;
    while i < |ms|
      invariant 0 <= i <= |ms|
      invariant r == FilterRole(ms[..i], tag)
    {
      FilterRoleAppend(ms[..i], [ms[i]], tag);
      assert ms[..i + 1] == ms[..i] + [ms[i]];
      if Matches(ms[i], tag) {
        r := r + [ms[i]];
      }
      i := i + 1;
    }
    assert ms[..i] == ms;
  }

  /** Every card shown for a role filter carries that role's label. */
  lemma FilteredCardsShareLabel(ms: seq<Member>, role: string)
    requires role != AllTag
    ensures Display(Filter(ms, Some(role))).Cards? ==>
      forall c :: c in Display(Filter(ms, Some(role))).cards ==> c.roleLabel == RoleLabel(role)
  {
  }

  // ---------------------------------------------------------------------
  // Loading
  // ---------------------------------------------------------------------

  /** The parsed body of a response. `Malformed` is a body that fails to parse
      as JSON or parses to `null`, where reading `data.members` throws. Any
      other value is a `Document`; a number, string, boolean or array has no
      `members` property, so it is `Document(None)`, as is an object whose
      `members` field is missing or `null`. */
  datatype Body = Malformed | Document(members: Option<seq<Member>>)

  /** The result of the single `fetch` of the members document: the request
      was rejected, or a response arrived with a status and a body. */
  datatype FetchOutcome = NetworkError | Response(status: int, body: Body)

  /** A response is `ok` when its status is in the range 200 to 299. */
  predicate OkStatus(status: int)
  {
    200 <= status <= 299
  }

  /** The edges of the `ok` range: 200 and 299 are ok; 199, 300, and the
      usual error statuses 404 and 500 are not. */
  lemma OkStatusBoundaries()
    ensures OkStatus(200) && OkStatus(299)
    ensures !OkStatus(199) && !OkStatus(300) && !OkStatus(404) && !OkStatus(500)
  {
  }

  /** The roster's state: the last loaded member list and the grid. */
  datatype RosterState = RosterState(all: seq<Member>, grid: Grid)

  /** Before loading, the roster is empty and the grid shows the page's own markup. */
  function InitialRoster(hasGrid: bool): (s: RosterState)
    ensures s.all == []
    ensures s.grid.Absent? <==> !hasGrid
  {
    RosterState([], if hasGrid then Present(Initial) else Absent)
  }

  /** The members a load delivers: `data.members || []` for an ok response
      with a parseable document, nothing for every failure. */
  function Fetched(o: FetchOutcome): (r: Option<seq<Member>>)
    ensures r.Some? <==> o.Response? && OkStatus(o.status) && o.body.Document?
    ensures r.Some? && o.body.members.Some? ==> r.value == o.body.members.value
    ensures r.Some? && o.body.members.None? ==> r.value == []
  {
    match o
    case NetworkError => None
    case Response(status, body) =>
      if !OkStatus(status) then None
      else match body
        case Malformed => None
        case Document(members) => Some(members.GetOr([]))
  }

  /** `loadMembers`: on success the roster is replaced wholesale and rendered;
      on any failure it is left as it was and the placeholder is shown. */
  function Load(s: RosterState, o: FetchOutcome): (s': RosterState)
    ensures Fetched(o).None? ==> s'.all == s.all
    ensures Fetched(o).Some? ==> s'.all == Fetched(o).value
    ensures Fetched(o).None? ==> s'.grid == Render(s.grid, [])
    ensures Fetched(o).Some? ==> s'.grid == Render(s.grid, s'.all)
  {
    match Fetched(o)
    case None => RosterState(s.all, ShowNoResults(s.grid))
    case Some(members) =>
      var g := if s.grid.Absent? then Absent
               else if |members| == 0 then ShowNoResults(s.grid)
               else Render(s.grid, members);
      RosterState(members, g)
  }

  /** A failed load of the initial page leaves the roster empty and shows
      the placeholder; a successful one shows the delivered list exactly as
      `displayMembers` would. */
  lemma LoadOutcomes(hasGrid: bool, o: FetchOutcome)
    ensures var s' := Load(InitialRoster(hasGrid), o);
      && (Fetched(o).None? ==> s'.all == [] && (hasGrid ==> s'.grid == Present(NoResults)))
      && (Fetched(o).Some? ==> hasGrid ==> s'.grid == Present(Display(Fetched(o).value)))
  {
  }

  /** An ok response whose document has no `members` property (a non-null
      non-object value, or an object without the field) empties the roster
      and shows the placeholder; an unparseable or `null` body keeps the
      roster and shows the placeholder too. */
  lemma LoadDocumentWithoutMembers(s: RosterState, status: int)
    requires OkStatus(status)
    ensures Load(s, Response(status, Document(None))) == RosterState([], ShowNoResults(s.grid))
    ensures Load(s, Response(status, Malformed)) == RosterState(s.all, ShowNoResults(s.grid))
  {
  }

  /** Loading the same outcome twice is loading it once. The script fetches
      once, but the page model admits any number of `Loaded` events; this is
      what lets a repeated delivery of one outcome be harmless, and the page's
      idempotence of every non-toggle event rests on it. */
  lemma LoadIdempotent(s: RosterState, o: FetchOutcome)
    ensures Load(Load(s, o), o) == Load(s, o)
  {
  }
}
