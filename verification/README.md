# Team sidebar controller, modelled in Dafny

This project models the controller logic of the team sidebar component of a
chat web client. The component orders the user's teams itself with
`filterAndSortTeamsByDisplayName`, from its `myTeams`, `locale` and
`userTeamsOrderPreference` inputs; the model takes the output of that call as
its `teams` input. Three pieces of its logic are modelled:

- its keyboard shortcuts. With ctrl (or meta) and alt held, UP and DOWN step
  through the team list with wrap-around. The digit keys 1..9 and 0 jump to
  the first ten teams.
- the `showOrder` state flag. A keydown with the same key combination that
  did not switch teams sets it (a digit naming the active team included),
  and a keyup without the combination clears it.
- the `onDragEnd` handler. It reorders the team list by pop-then-push, stores
  the result in the `teamsOrder` state, and persists it as a list of team
  ids.

In this version of the component neither state field is read back by
`render`, and no draggable team buttons are rendered, so the model states
what the handlers compute, not what appears on screen.

It also models the two-letter badge that the team-selection page shows for a
team's display name.

The React shell is removed. Each key event becomes a `Key` value plus
modifier flags. Calls to `switchTeam` and `preventDefault` become an
`Outcome`: `Switch(url)`, `AlreadyActive` or `NotHandled`. The call to
`updateTeamsOrderForUser` becomes the `persisted` field of a `DragStep`. The
component state `{showOrder, teamsOrder}` is an immutable `State` record that
each handler maps to a new one.

Modules:

- `Options` (options.dfy): an `Option` type, standing in for `undefined`.
- `Teams` (teams.dfy): the team record, `findIndex` and the list of ids.
- `TeamNavigation` (navigation.dfy): `switchToPrevOrNextTeam` and
  `switchToTeamByNumber`.
- `TeamSidebar` (sidebar.dfy): the component state, `handleKeyDown`,
  `handleKeyUp`, and `onDragEnd` with its `popElement` and `pushElement`
  helpers.
- `SelectTeamItem` (initials.dfy): the display-name badge.

Three behaviours of the code shape the model:

- Vanished dragged team: `find(...)!` yields `undefined`, and
  `.map((o) => o.id)` then throws, so `OnDragEnd` requires the dragged id to
  be present.
- Current team not in the list: `findIndex` returns -1, so in a non-empty
  list DOWN selects the first team (`DownFromMissingTeamSelectsFirst`), and
  UP reads `teams[-2]`, whose `.name` throws. `ArrowTargetDefined` is exactly the condition under
  which the read does not throw, and `ArrowTargetDefinedExactly`
  characterises it.
- Shortcut handling: the shortcuts depend only on the modifiers of the
  event itself; `showOrder` is never read by the keydown path
  (`OverlayDoesNotGateSwitching`).

## Model

| member | source | states |
|---|---|---|
| Teams.FindIndex | components/test/test.tsx:79 | The result is -1 exactly when no team has the id. Otherwise it is a position holding the id, with no earlier position holding it. |
| Teams.Ids | components/test/test.tsx:193 | The persisted list has one id per team, in the same order as the teams. |
| TeamNavigation.ArrowTarget | components/test/test.tsx:82-89 | The team an arrow key selects is a member of the list. |
| TeamNavigation.SwitchToPrevOrNextTeam | components/test/test.tsx:75-95 | UP and DOWN are always handled, with the default prevented. They switch to the route of a team in the list. Every other key is not handled. |
| TeamNavigation.ArrowTargetDefinedExactly | components/test/test.tsx:79-91 | The unchecked read `teams[newPos]` is defined exactly when the list is non-empty and the current team is present or the key is DOWN. |
| TeamNavigation.WrapIsModulo | components/test/test.tsx:83-89 | The three-way wrap branch equals the Euclidean remainder modulo the list length, for positions -1..length. |
| TeamNavigation.WrapPosition | components/test/test.tsx:83-89 | For a non-empty list and a position one step or less outside it, the result is a valid index that differs from the position by a multiple of the length (-1 goes to the last index, n to the first). |
| TeamNavigation.ArrowIsCircularStep | components/test/test.tsx:78-89 | With the current team at pos, an arrow key selects `teams[(pos + delta) mod n]`, where DOWN is +1 and UP is -1. |
| TeamNavigation.ArrowInterior | components/test/test.tsx:76-92 | Away from the ends, DOWN switches to "/" + the next team's name and UP to "/" + the previous team's name. |
| TeamNavigation.DownFromMissingTeamSelectsFirst | components/test/test.tsx:79-91 | With the current team missing from a non-empty list, DOWN is defined and switches to "/" + the first team's name. |
| TeamNavigation.ArrowWrapAround | components/test/test.tsx:79-89 | UP from the first team selects the last. DOWN from the last team selects the first. A single team selects itself in both directions. |
| TeamNavigation.ArrowStepsAreInverse | components/test/test.tsx:78-89 | With unique ids, UP from the team DOWN selected returns to the starting team, and DOWN after UP does too. |
| TeamNavigation.OrdinalIndex | components/test/test.tsx:98-109 | The digit list holds digit d at the position d stands for: 1..9 at 0..8, and 0 at 9. |
| TeamNavigation.ScanDigits | components/test/test.tsx:111-124 | The loop from position idx decides by the single matching digit at or after idx. Given that digit's position is in range: AlreadyActive if it names the current team, otherwise a switch to its route. In every other case the result is NotHandled. |
| TeamNavigation.SwitchToTeamByNumber | components/test/test.tsx:97-125 | The handler switches iff the key is a digit whose position is within the list and names another team; the url is "/" + that team's name. It returns AlreadyActive iff that position holds the current team. The default is prevented iff the position is in range. |
| TeamNavigation.DigitOrderIsBijective | components/test/test.tsx:98-109 | ZERO stands for position 9 and ONE for position 0. Each position of the scan order maps back to itself, and no two digits share a position. |
| TeamSidebar.HandleKeyDown | components/test/test.tsx:127-142 | Without the combo, nothing happens. With it, an arrow key gives the arrow outcome and any other key gives the ordinal outcome. `showOrder` becomes true iff it was true or the combo was held with no switch. The team order never changes. |
| TeamSidebar.HandleKeyUp | components/test/test.tsx:144-148 | After a keyup, `showOrder` is true iff it was true and the combo is still held. The team order is unchanged. |
| TeamSidebar.KeyUpKeepsInitialState | components/test/test.tsx:69-72 | From the constructor state (`showOrder` false, empty order), a keyup leaves the state unchanged, and a keydown without the combination does too. |
| TeamSidebar.ActiveDigitRevealsOverlay | components/test/test.tsx:113-140 | A combo digit that names the active team is consumed with no switch. It sets `showOrder`. |
| TeamSidebar.OverlayDoesNotGateSwitching | components/test/test.tsx:127-142 | What a keydown switches to is the same whatever the value of `showOrder`. |
| TeamSidebar.Slice | components/test/test.tsx:176-185 | For non-negative arguments, `slice` returns the elements from the clamped start up to the clamped end, in order, and nothing when the range is reversed. |
| TeamSidebar.PopElement | components/test/test.tsx:176-178 | For an in-range index, the result is the list without the element at that index, so the multisets differ by exactly that element. An index past the end leaves the list unchanged. |
| TeamSidebar.PushElement | components/test/test.tsx:180-186 | The first team with the id is inserted at the clamped index, with everything before and after that index kept. The multiset grows by exactly that team. |
| TeamSidebar.NewTeamsOrder | components/test/test.tsx:188-192 | For an in-range source, the length is kept and the multiset swaps the element at the source for the found team. A source past the end grows the list by one. |
| TeamSidebar.OnDragEnd | components/test/test.tsx:161-195 | A drop with no destination changes nothing and persists nothing. Otherwise the stored order is pop-then-push of the dragged team (`NewTeamsOrder`), the persisted list is its ids, and `showOrder` is untouched. |
| TeamSidebar.DragEndMovesDraggedTeam | components/test/test.tsx:161-194 | The handler, given a drop of `teams[src]` at an in-range destination with unique ids, stores a permutation of the teams with the dragged team at the destination and the others in their old relative order, and persists exactly its ids. |
| TeamSidebar.NewTeamsOrderIsMove | components/test/test.tsx:176-192 | When the id search finds the dragged team itself, pop-then-push is the move of that team from the source to the destination. |
| TeamSidebar.MoveElement | components/test/test.tsx:176-192 | A move keeps the length and the multiset and puts the element at the destination. Removing it there gives the sequence without it. A move onto its own position changes nothing. |
| TeamSidebar.MoveBack | components/test/test.tsx:176-192 | Moving from i to j and then from j back to i restores the sequence. |
| TeamSidebar.DropMovesDraggedTeam | components/test/test.tsx:176-194 | With unique ids and in-range indices: the new order is a permutation of the same length with the dragged team at the destination. The other teams keep their relative order, and dropping at the source changes nothing. |
| TeamSidebar.DropBackRestoresOrder | components/test/test.tsx:176-194 | Dragging the moved team from the destination back to the source restores the original order. |
| SelectTeamItem.ToUpper | components/select_team_test/components/select_team_item.tsx:30 | `toUpperCase` on one ASCII character: the result is never lower case, lower-case letters shift by 32, and every other character is kept. |
| SelectTeamItem.UpperCase | components/select_team_test/components/select_team_item.tsx:30 | `toUpperCase` on an ASCII string keeps the length and maps each character by `ToUpper`. |
| SelectTeamItem.FirstTwo | components/select_team_test/components/select_team_item.tsx:30 | `substring(0, 2)` gives the prefix of length two, or the whole string when it is shorter. |
| SelectTeamItem.StripWhitespace | components/select_team_test/components/select_team_item.tsx:30 | `replace(/\s/g, '')` leaves no whitespace, adds no character and keeps every non-whitespace character. |
| SelectTeamItem.Initials | components/select_team_test/components/select_team_item.tsx:30 | A missing or empty name gives "??". Any other name gives at most two characters, with no whitespace and no lower-case letter. |
| SelectTeamItem.BlankNameGivesEmptyBadge | components/select_team_test/components/select_team_item.tsx:30 | A non-empty name made only of whitespace gives the empty badge, not "??", because the truthiness test comes before stripping. |
| SelectTeamItem.FirstTwoNonWhitespace | components/select_team_test/components/select_team_item.tsx:30 | The badge is exactly the upper-cased first two non-whitespace characters, in order, whatever whitespace surrounds them and whatever follows. |
| SelectTeamItem.SingleNonWhitespace | components/select_team_test/components/select_team_item.tsx:30 | A name with one non-whitespace character gives that character upper-cased. |
| SelectTeamItem.WhitespaceDoesNotMatter | components/select_team_test/components/select_team_item.tsx:30 | Inserting whitespace anywhere in a non-empty name leaves its badge unchanged. |
| SelectTeamItem.InitialsIdempotent | components/select_team_test/components/select_team_item.tsx:30 | A non-empty badge, taken as a display name, gives itself. |
| SelectTeamItem.StripConcat | components/select_team_test/components/select_team_item.tsx:30 | Removing whitespace from a concatenation is the concatenation of the stripped parts. |

## Left out

- Team ordering: `filterAndSortTeamsByDisplayName` and the ordering preference it applies are not part of this model. Its output is the `teams` input of every handler.
- Rendering: `render`, the scrollbar render helpers, the drag-and-drop and scrollbar components, the `#root` class toggling, the `setPreviousButton` call made during render, and console logging are all left out. None of them feeds back into the modelled state.
- Event plumbing: listener registration and removal in `componentDidMount` and `componentWillUnmount`, and the `getTeams(0, 200)` fetch, are left out. They are I/O.
- Key matching: `Utils.isKeyPressed` (matching on `key` or `keyCode`) is not part of this model. A key event arrives already classified as a `Key`.
- Team-selection page: components/select_team_test/select_team.tsx only maps an externally sorted list to items, so it is left out.
- Stored preferences: the last-team and last-button actions in actions/local_storage.jsx forward `(userId, value)` to a store that is not part of this model, so they are left out.
- Crashing inputs become preconditions: a drop whose dragged id is missing from the list (the code throws when reading `.id`), and an arrow key whose target read is undefined (see `ArrowTargetDefined`).
- TeamSidebar.OnDragEnd: drop indices are natural numbers, as the drag-and-drop library reports them. JavaScript's negative `slice` arguments are not modelled.
- SelectTeamItem.Initials: characters are restricted to ASCII. Unicode whitespace in `/\s/`, non-ASCII case mapping and UTF-16 code units in `substring` are left out. Non-ASCII `toUpperCase` can lengthen a string (U+00DF becomes "SS"), so the two-character bound holds only for ASCII.
- TeamNavigation.SwitchToPrevOrNextTeam: its contract only says the switch goes to some team in the list. Which team is stated by `ArrowIsCircularStep`, `ArrowInterior` and `ArrowWrapAround`.
- TeamNavigation.ArrowTarget: its own contract gives membership in the list only. Which team is selected is stated by `ArrowIsCircularStep`, `ArrowInterior`, `ArrowWrapAround` and `DownFromMissingTeamSelectsFirst`.
- Display: in this version `render` reads neither `showOrder` nor `teamsOrder`, and it renders no draggable team buttons (the team list is commented out at components/test/test.tsx:317). The model therefore covers the handlers' state updates and callbacks only.
