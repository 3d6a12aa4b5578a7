/** The team sidebar controller: its component state, the keydown/keyup
    handlers that set and clear the `showOrder` flag, and the drag-and-drop
    reorder of the team list. The input `teams` is the already filtered and
    sorted team list; `switchTeam` and `updateTeamsOrderForUser` become
    returned values. */
module TeamSidebar {
  import opened Options
  import opened Teams
  import opened TeamNavigation

  /** The component state: the `showOrder` flag, and the team
      order produced by the last drop. */
  datatype State = State(showOrder: bool, teamsOrder: seq<Team>)

  /** The state the component is constructed with. */
  const Initial: State := State(false, [])

  /** A keyboard event: its key and the modifier flags the handlers read. */
  datatype KeyEvent = KeyEvent(key: Key, ctrlKey: bool, metaKey: bool, altKey: bool)

  /** The shortcut combination: ctrl or meta, together with alt. */
  predicate ComboHeld(e: KeyEvent)
  {
    (e.ctrlKey || e.metaKey) && e.altKey
  }

  /** The new state after a keydown, and what the shortcut handlers did. */
  datatype KeyDownStep = KeyDownStep(state: State, outcome: Outcome)

  /** `handleKeyDown`: under the combination, an arrow switch wins, then a
      digit switch; when neither switched (including a digit naming the
      active team) `showOrder` is set. Without the combination nothing
      happens. */
  function HandleKeyDown(st: State, e: KeyEvent, currentTeamId: TeamId, teams: seq<Team>): (r: KeyDownStep)
    requires ComboHeld(e) ==> ArrowTargetDefined(e.key, currentTeamId, teams)
    ensures r.state.teamsOrder == st.teamsOrder
    ensures !ComboHeld(e) ==> r.outcome == NotHandled
    ensures ComboHeld(e) && IsArrow(e.key) ==> r.outcome == SwitchToPrevOrNextTeam(e.key, currentTeamId, teams)
    ensures ComboHeld(e) && !IsArrow(e.key) ==> r.outcome == SwitchToTeamByNumber(e.key, currentTeamId, teams)
    ensures r.state.showOrder == (st.showOrder || (ComboHeld(e) && !r.outcome.Handled()))
  {
    if ComboHeld(e) then
      var arrow := SwitchToPrevOrNextTeam(e.key, currentTeamId, teams);
      if arrow.Handled() then KeyDownStep(st, arrow)
      else
        var number := SwitchToTeamByNumber(e.key, currentTeamId, teams);
        if number.Handled() then KeyDownStep(st, number)
        else KeyDownStep(st.(showOrder := true), number)
    else
      KeyDownStep(st, NotHandled)
  }

  /** `handleKeyUp`: releasing the combination clears `showOrder`; while it is
      still held the flag stays as it was. */
  function HandleKeyUp(st: State, e: KeyEvent): (r: State)
    ensures r.teamsOrder == st.teamsOrder
    ensures r.showOrder == (st.showOrder && ComboHeld(e))
  {
    if !ComboHeld(e) then st.(showOrder := false) else st
  }

  /** The constructor state is at rest: a keyup leaves it as it is, and so
      does a keydown without the shortcut combination. */
  lemma KeyUpKeepsInitialState(e: KeyEvent, currentTeamId: TeamId, teams: seq<Team>)
    ensures HandleKeyUp(Initial, e) == Initial
    ensures !ComboHeld(e) ==> HandleKeyDown(Initial, e, currentTeamId, teams).state == Initial
  {
  }

  /** A digit naming the team already active is consumed without a switch,
      and sets `showOrder`. */
  lemma ActiveDigitRevealsOverlay(st: State, e: KeyEvent, currentTeamId: TeamId, teams: seq<Team>)
    requires ComboHeld(e) && e.key.DigitKey?
    requires OrdinalIndex(e.key.digit) < |teams| && teams[OrdinalIndex(e.key.digit)].id == currentTeamId
    ensures var r := HandleKeyDown(st, e, currentTeamId, teams);
            r.outcome == AlreadyActive && r.outcome.DefaultPrevented() && r.state.showOrder
  {
  }

  /** `showOrder` gates nothing: what a keydown switches to does not
      depend on the flag's value. */
  lemma OverlayDoesNotGateSwitching(st1: State, st2: State, e: KeyEvent, currentTeamId: TeamId, teams: seq<Team>)
    requires ComboHeld(e) ==> ArrowTargetDefined(e.key, currentTeamId, teams)
    ensures HandleKeyDown(st1, e, currentTeamId, teams).outcome == HandleKeyDown(st2, e, currentTeamId, teams).outcome
  {
  }

  function Min(a: int, b: int): int
  {
    if a <= b then a else b
  }

  /** `Array.prototype.slice(start, end)` for non-negative arguments: both
      ends are clamped to the length, and a reversed range is empty. */
  function Slice<T>(s: seq<T>, start: nat, end: nat): (r: seq<T>)
    ensures |r| == if Min(start, |s|) <= Min(end, |s|) then Min(end, |s|) - Min(start, |s|) else 0
    ensures forall i :: 0 <= i < |r| ==> r[i] == s[Min(start, |s|) + i]
  {
    var a := Min(start, |s|);
    var b := Min(end, |s|);
    if a <= b then s[a..b] else []
  }

  /** `popElement`: the list without the element at `idx`; an index past the
      end removes nothing. */
  function PopElement(list: seq<Team>, idx: nat): (r: seq<Team>)
    ensures idx < |list| ==> r == list[..idx] + list[idx + 1..]
    ensures idx < |list| ==> multiset(r) + multiset{list[idx]} == multiset(list)
    ensures idx >= |list| ==> r == list
  {
    var r := Slice(list, 0, idx) + Slice(list, idx + 1, |list|);
    if idx < |list| then
      assert list == list[..idx] + [list[idx]] + list[idx + 1..];
      assert r == list[..idx] + list[idx + 1..];
      r
    else
      assert r == list;
      r
  }

  /** `pushElement`: inserts the first team of `teams` whose id is `itemId`
      before position `idx` of `list` (at the end when `idx` is past it).
      The handler asserts with `!` that such a team exists. */
  function PushElement(list: seq<Team>, idx: nat, itemId: TeamId, teams: seq<Team>): (r: seq<Team>)
    requires itemId in Ids(teams)
    ensures var at := Min(idx, |list|);
            r == list[..at] + [teams[FindIndex(teams, itemId)]] + list[at..]
    ensures multiset(r) == multiset(list) + multiset{teams[FindIndex(teams, itemId)]}
  {
    var item := teams[FindIndex(teams, itemId)];
    var at := Min(idx, |list|);
    var r := Slice(list, 0, idx) + [item] + Slice(list, idx, |list|);
    assert r == list[..at] + [item] + list[at..];
    assert list == list[..at] + list[at..];
    r
  }

  /** The team order `onDragEnd` computes: pop at the source, then push the
      dragged team at the destination of the shortened list. */
  function NewTeamsOrder(teams: seq<Team>, sourceIndex: nat, destinationIndex: nat, draggableId: TeamId): (r: seq<Team>)
    requires draggableId in Ids(teams)
    ensures sourceIndex < |teams| ==> |r| == |teams|
    ensures sourceIndex < |teams| ==>
              multiset(r) == multiset(teams) - multiset{teams[sourceIndex]} + multiset{teams[FindIndex(teams, draggableId)]}
    ensures sourceIndex >= |teams| ==> |r| == |teams| + 1
  {
    PushElement(PopElement(teams, sourceIndex), destinationIndex, draggableId, teams)
  }

  /** What react-beautiful-dnd reports at the end of a drag; a drag dropped
      outside the list has no destination. */
  datatype DropResult = DropResult(draggableId: TeamId, sourceIndex: nat, destination: Option<nat>)

  /** The new state after a drop, and the id list passed to
      `updateTeamsOrderForUser` (None when it is not called). */
  datatype DragStep = DragStep(state: State, persisted: Option<seq<TeamId>>)

  /** `onDragEnd`: a drop without a destination changes nothing and persists
      nothing; otherwise the reordered list becomes the state's team order and
      its ids, in order, are persisted. */
  function OnDragEnd(st: State, result: DropResult, teams: seq<Team>): (r: DragStep)
    requires result.destination.Some? ==> result.draggableId in Ids(teams)
    ensures result.destination.None? ==> r.state == st && r.persisted == None
    ensures result.destination.Some? ==>
              && r.state.showOrder == st.showOrder
              && r.persisted == Some(Ids(r.state.teamsOrder))
              && |r.state.teamsOrder| == |teams| + (if result.sourceIndex < |teams| then 0 else 1)
              && r.state.teamsOrder == NewTeamsOrder(teams, result.sourceIndex, result.destination.value, result.draggableId)
  {
    match result.destination
    case None => DragStep(st, None)
    case Some(destinationIndex) =>
      var order := NewTeamsOrder(teams, result.sourceIndex, destinationIndex, result.draggableId);
      DragStep(st.(teamsOrder := order), Some(Ids(order)))
  }

  /** With unique ids, the first team carrying the id of `teams[k]` is `teams[k]`. */
  lemma FoundTeamIsDragged(teams: seq<Team>, k: nat)
    requires UniqueIds(teams) && k < |teams|
    ensures teams[k].id in Ids(teams)
    ensures teams[FindIndex(teams, teams[k].id)] == teams[k]
  {
    assert Ids(teams)[k] == teams[k].id;
    FindIndexOfMember(teams, k);
  }

  /** Inserting the element at `i` back at `i` of the sequence without it
      gives the sequence again. */
  lemma ReinsertRestores<T>(s: seq<T>, i: nat)
    requires i < |s|
    ensures var rest := s[..i] + s[i + 1..];
            rest[..i] + [s[i]] + rest[i..] == s
  {
    var rest := s[..i] + s[i + 1..];
    assert rest[..i] == s[..i];
    assert rest[i..] == s[i + 1..];
    assert s == s[..i] + [s[i]] + s[i + 1..];
  }

  /** Remove the element at `i`, then re-insert it at `j` of the shortened sequence. */
  function Moved<T>(s: seq<T>, i: nat, j: nat): seq<T>
    requires i < |s| && j < |s|
  {
    var rest := s[..i] + s[i + 1..];
    rest[..j] + [s[i]] + rest[j..]
  }

  /** Removing the element at `i` and inserting it again at `j` of the
      shortened sequence keeps the length and the multiset, puts it at `j`,
      and removing it from there gives back the shortened sequence. */
  lemma MoveElement<T>(s: seq<T>, i: nat, j: nat)
    requires i < |s| && j < |s|
    ensures |Moved(s, i, j)| == |s|
    ensures multiset(Moved(s, i, j)) == multiset(s)
    ensures Moved(s, i, j)[j] == s[i]
    ensures Moved(s, i, j)[..j] + Moved(s, i, j)[j + 1..] == s[..i] + s[i + 1..]
    ensures i == j ==> Moved(s, i, j) == s
  {
    var rest := s[..i] + s[i + 1..];
    var moved := Moved(s, i, j);
    assert moved == rest[..j] + [s[i]] + rest[j..];
    assert multiset(moved) == multiset(s) by {
      assert s == s[..i] + [s[i]] + s[i + 1..];
      calc {
        multiset(moved);
        multiset(rest[..j]) + multiset{s[i]} + multiset(rest[j..]);
        { assert rest == rest[..j] + rest[j..]; }
        multiset(rest) + multiset{s[i]};
        multiset(s[..i]) + multiset(s[i + 1..]) + multiset{s[i]};
        multiset(s);
      }
    }
    assert rest == rest[..j] + rest[j..];
    assert moved[..j] == rest[..j];
    assert moved[j + 1..] == rest[j..];
    if i == j {
      ReinsertRestores(s, i);
    }
  }

  /** Moving an element from `i` to `j` and then from `j` back to `i`
      restores the sequence. */
  lemma MoveBack<T>(s: seq<T>, i: nat, j: nat)
    requires i < |s| && j < |s|
    ensures j < |Moved(s, i, j)| && i < |Moved(s, i, j)|
    ensures Moved(Moved(s, i, j), j, i) == s
  {
    MoveElement(s, i, j);
    ReinsertRestores(s, i);
  }

  /** When the id search finds the dragged team itself, the new order is the
      move of that team from the source to the destination. */
  lemma NewTeamsOrderIsMove(teams: seq<Team>, sourceIndex: nat, destinationIndex: nat)
    requires sourceIndex < |teams| && destinationIndex < |teams|
    requires teams[sourceIndex].id in Ids(teams)
    requires teams[FindIndex(teams, teams[sourceIndex].id)] == teams[sourceIndex]
    ensures NewTeamsOrder(teams, sourceIndex, destinationIndex, teams[sourceIndex].id)
            == Moved(teams, sourceIndex, destinationIndex)
  {
  }

  /** A drop of `teams[sourceIndex]` at an in-range destination moves that one
      team: the length and the multiset of teams are kept, the dragged team
      sits at the destination, and removing it from the new order gives the
      old order without it, so every other team keeps its relative order.
      Dropping where the drag started leaves the order unchanged. */
  lemma DropMovesDraggedTeam(teams: seq<Team>, sourceIndex: nat, destinationIndex: nat)
    requires UniqueIds(teams)
    requires sourceIndex < |teams| && destinationIndex < |teams|
    ensures teams[sourceIndex].id in Ids(teams)
    ensures var order := NewTeamsOrder(teams, sourceIndex, destinationIndex, teams[sourceIndex].id);
            && |order| == |teams|
            && multiset(order) == multiset(teams)
            && order[destinationIndex] == teams[sourceIndex]
            && PopElement(order, destinationIndex) == PopElement(teams, sourceIndex)
            && (sourceIndex == destinationIndex ==> order == teams)
  {
    FoundTeamIsDragged(teams, sourceIndex);
    NewTeamsOrderIsMove(teams, sourceIndex, destinationIndex);
    MoveElement(teams, sourceIndex, destinationIndex);
  }

  /** Dragging the moved team back to where it came from restores the
      original order: the reorder's inverse is the reverse drop. */
  lemma DropBackRestoresOrder(teams: seq<Team>, sourceIndex: nat, destinationIndex: nat)
    requires UniqueIds(teams)
    requires sourceIndex < |teams| && destinationIndex < |teams|
    ensures teams[sourceIndex].id in Ids(teams)
    ensures var order := NewTeamsOrder(teams, sourceIndex, destinationIndex, teams[sourceIndex].id);
            && teams[sourceIndex].id in Ids(order)
            && NewTeamsOrder(order, destinationIndex, sourceIndex, teams[sourceIndex].id) == teams
  {
    FoundTeamIsDragged(teams, sourceIndex);
    NewTeamsOrderIsMove(teams, sourceIndex, destinationIndex);
    MoveElement(teams, sourceIndex, destinationIndex);
    var moved := teams[sourceIndex];
    var order := Moved(teams, sourceIndex, destinationIndex);
    assert Ids(order)[destinationIndex] == moved.id;
    var found := order[FindIndex(order, moved.id)];
    assert found == moved by {
      assert found in multiset(teams);
      var j :| 0 <= j < |teams| && teams[j] == found;
      assert teams[j].id == teams[sourceIndex].id;
    }
    NewTeamsOrderIsMove(order, destinationIndex, sourceIndex);
    MoveBack(teams, sourceIndex, destinationIndex);
  }

  /** The drag handler applied to a drop of `teams[sourceIndex]` at an
      in-range destination stores a permutation of the teams with the dragged
      team at the destination and every other team in its old relative order,
      and persists exactly those ids. */
  lemma DragEndMovesDraggedTeam(st: State, teams: seq<Team>, sourceIndex: nat, destinationIndex: nat)
    requires UniqueIds(teams)
    requires sourceIndex < |teams| && destinationIndex < |teams|
    ensures teams[sourceIndex].id in Ids(teams)
    ensures var r := OnDragEnd(st, DropResult(teams[sourceIndex].id, sourceIndex, Some(destinationIndex)), teams);
            && multiset(r.state.teamsOrder) == multiset(teams)
            && r.state.teamsOrder[destinationIndex] == teams[sourceIndex]
            && PopElement(r.state.teamsOrder, destinationIndex) == PopElement(teams, sourceIndex)
            && r.persisted == Some(Ids(r.state.teamsOrder))
  {
    DropMovesDraggedTeam(teams, sourceIndex, destinationIndex);
  }

}
