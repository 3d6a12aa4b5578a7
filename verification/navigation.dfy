/** Keyboard team switching in the team sidebar: the arrow keys step through
    the ordered team list with wrap-around, and the digit keys 1..9, 0 jump to
    the first ten positions. The `switchTeam` callback and `preventDefault`
    become the returned `Outcome`. */
module TeamNavigation {
  import opened Teams

  type Digit = d: int | 0 <= d <= 9

  /** The keys the handlers distinguish; every other key is `OtherKey`. */
  datatype Key = Up | Down | DigitKey(digit: Digit) | OtherKey

  /** What a shortcut handler did with one key event. */
  datatype Outcome =
    | Switch(url: string)  // `switchTeam(url)` was called and the handler returned true
    | AlreadyActive        // key consumed (default prevented), no switch, handler returned false
    | NotHandled           // key ignored, handler returned false
  {
    /** The boolean the handler returns. */
    predicate Handled() { Switch? }

    /** Whether the handler called `preventDefault` on the event. */
    predicate DefaultPrevented() { !NotHandled? }
  }

  /** The route `switchTeam` receives for a team. */
  function SwitchUrl(team: Team): string
  {
    "/" + team.name
  }

  predicate IsArrow(key: Key)
  {
    key.Up? || key.Down?
  }

  /** DOWN moves one position forward, UP one position back. */
  function Delta(key: Key): int
    requires IsArrow(key)
  {
    if key.Down? then 1 else -1
  }

  /** The wrap rule of the arrow handler: one step before the start is the
      last position, one step past the end is the first. */
  function WrapPosition(newPos: int, n: nat): (r: int)
    ensures 0 < n && -1 <= newPos <= n ==> 0 <= r < n && (r == newPos || r == newPos + n || r == newPos - n)
  {
    if newPos == -1 then n - 1
    else if newPos == n then 0
    else newPos
  }

  /** The position the arrow handler reads, from the current team's
      `findIndex` result (which is -1 for a team not in the list). */
  function ArrowPosition(key: Key, currentTeamId: TeamId, teams: seq<Team>): int
    requires IsArrow(key)
  {
    WrapPosition(FindIndex(teams, currentTeamId) + Delta(key), |teams|)
  }

  /** The arrow handler reads `teams[newPos].name` without a check; this says
      that read is defined. It fails exactly when the list is empty, or when
      the current team is missing and the key is UP. */
  predicate ArrowTargetDefined(key: Key, currentTeamId: TeamId, teams: seq<Team>)
  {
    IsArrow(key) ==> 0 <= ArrowPosition(key, currentTeamId, teams) < |teams|
  }

  /** The team an arrow key selects. */
  function ArrowTarget(key: Key, currentTeamId: TeamId, teams: seq<Team>): (t: Team)
    requires IsArrow(key) && ArrowTargetDefined(key, currentTeamId, teams)
    ensures t in teams
  {
    teams[ArrowPosition(key, currentTeamId, teams)]
  }

  /** `switchToPrevOrNextTeam`: an arrow key always switches (even to the team
      already active, when it is the only one); any other key is not handled. */
  function SwitchToPrevOrNextTeam(key: Key, currentTeamId: TeamId, teams: seq<Team>): (o: Outcome)
    requires ArrowTargetDefined(key, currentTeamId, teams)
    ensures o.Handled() <==> IsArrow(key)
    ensures o.DefaultPrevented() <==> IsArrow(key)
    ensures o.Switch? ==> exists t :: t in teams && o.url == SwitchUrl(t)
  {
    if IsArrow(key) then Switch(SwitchUrl(ArrowTarget(key, currentTeamId, teams)))
    else NotHandled
  }

  /** The arrow handler's read is defined precisely when the list is
      non-empty and either the current team is in it or the key is DOWN (a
      missing team has position -1, so DOWN lands on position 0). */
  lemma ArrowTargetDefinedExactly(key: Key, currentTeamId: TeamId, teams: seq<Team>)
    requires IsArrow(key)
    ensures ArrowTargetDefined(key, currentTeamId, teams)
        <==> |teams| > 0 && (currentTeamId in Ids(teams) || key.Down?)
  {
  }

  /** The wrap rule is Euclidean remainder for every position one step away
      from the list. */
  lemma WrapIsModulo(newPos: int, n: nat)
    requires 0 < n && -1 <= newPos <= n
    ensures WrapPosition(newPos, n) == newPos % n
  {
    if newPos == -1 {
      assert (n - 1) + (-1) * n == -1;
    }
  }

  /** The branching of the arrow handler is a circular step: with the current
      team at `pos`, the selected team sits at `(pos + delta) mod |teams|`. */
  lemma ArrowIsCircularStep(key: Key, currentTeamId: TeamId, teams: seq<Team>)
    requires IsArrow(key) && currentTeamId in Ids(teams)
    ensures ArrowTargetDefined(key, currentTeamId, teams)
    ensures var pos := FindIndex(teams, currentTeamId);
            ArrowTarget(key, currentTeamId, teams) == teams[(pos + Delta(key)) % |teams|]
  {
    WrapIsModulo(FindIndex(teams, currentTeamId) + Delta(key), |teams|);
  }

  /** Away from the ends, DOWN selects the next team and UP the previous one,
      and the switch goes to that team's route. */
  lemma ArrowInterior(currentTeamId: TeamId, teams: seq<Team>)
    requires currentTeamId in Ids(teams)
    ensures var pos := FindIndex(teams, currentTeamId);
            && (pos + 1 < |teams| ==>
                  SwitchToPrevOrNextTeam(Down, currentTeamId, teams) == Switch("/" + teams[pos + 1].name))
            && (0 < pos ==>
                  SwitchToPrevOrNextTeam(Up, currentTeamId, teams) == Switch("/" + teams[pos - 1].name))
  {
  }

  /** UP from the first team selects the last, DOWN from the last selects the
      first, and a single team selects itself in both directions. */
  lemma ArrowWrapAround(currentTeamId: TeamId, teams: seq<Team>)
    requires currentTeamId in Ids(teams)
    ensures var pos := FindIndex(teams, currentTeamId);
            && (pos == 0 ==> ArrowTarget(Up, currentTeamId, teams) == teams[|teams| - 1])
            && (pos == |teams| - 1 ==> ArrowTarget(Down, currentTeamId, teams) == teams[0])
            && (|teams| == 1 ==>
                  ArrowTarget(Up, currentTeamId, teams) == teams[0] == ArrowTarget(Down, currentTeamId, teams))
  {
  }

  /** When the current team is missing from a non-empty list, its position
      is -1, so DOWN lands on position 0 and switches to the first team. */
  lemma DownFromMissingTeamSelectsFirst(currentTeamId: TeamId, teams: seq<Team>)
    requires |teams| > 0 && currentTeamId !in Ids(teams)
    ensures ArrowTargetDefined(Down, currentTeamId, teams)
    ensures SwitchToPrevOrNextTeam(Down, currentTeamId, teams) == Switch("/" + teams[0].name)
  {
  }

  /** UP undoes DOWN and DOWN undoes UP: stepping one way and then back from
      the newly selected team returns to the team one started from. */
  lemma ArrowStepsAreInverse(currentTeamId: TeamId, teams: seq<Team>)
    requires UniqueIds(teams) && currentTeamId in Ids(teams)
    ensures var start := teams[FindIndex(teams, currentTeamId)];
            && ArrowTarget(Up, ArrowTarget(Down, currentTeamId, teams).id, teams) == start
            && ArrowTarget(Down, ArrowTarget(Up, currentTeamId, teams).id, teams) == start
  {
    var n := |teams|;
    var pos := FindIndex(teams, currentTeamId);
    var next := ArrowPosition(Down, currentTeamId, teams);
    var prev := ArrowPosition(Up, currentTeamId, teams);
    FindIndexOfMember(teams, next);
    FindIndexOfMember(teams, prev);
    assert teams[next].id in Ids(teams) by { assert Ids(teams)[next] == teams[next].id; }
    assert teams[prev].id in Ids(teams) by { assert Ids(teams)[prev] == teams[prev].id; }
  }

  /** The shortcut keys in the order the ordinal handler scans them:
      ONE, TWO, ..., NINE, ZERO. */
  const DigitOrder: seq<Digit> := [1, 2, 3, 4, 5, 6, 7, 8, 9, 0]

  /** The list position a digit key stands for: 1..9 are positions 0..8 and
      0 is position 9. */
  function OrdinalIndex(d: Digit): (i: nat)
    ensures i < |DigitOrder| && DigitOrder[i] == d
  {
    if d == 0 then 9 else d - 1
  }

  /** The `for (const idx in digits)` loop of the ordinal handler, from
      position `idx` on: the first digit matching the key whose position is
      within the list decides the outcome. */
  function ScanDigits(key: Key, currentTeamId: TeamId, teams: seq<Team>, idx: nat): (o: Outcome)
    requires idx <= |DigitOrder|
    ensures key.DigitKey? && idx <= OrdinalIndex(key.digit) < |teams| ==>
              var t := teams[OrdinalIndex(key.digit)];
              o == if t.id == currentTeamId then AlreadyActive else Switch(SwitchUrl(t))
    ensures !(key.DigitKey? && idx <= OrdinalIndex(key.digit) < |teams|) ==> o == NotHandled
    decreases |DigitOrder| - idx
  {
    if idx == |DigitOrder| then NotHandled
    else if key == DigitKey(DigitOrder[idx]) && idx < |teams| then
      if teams[idx].id == currentTeamId then AlreadyActive else Switch(SwitchUrl(teams[idx]))
    else ScanDigits(key, currentTeamId, teams, idx + 1)
  }

  /** `switchToTeamByNumber`: the digit key at position k of ONE..NINE, ZERO
      selects `teams[k]` when k is within the list. Selecting the active team
      only consumes the key; anything else is not handled. */
  function SwitchToTeamByNumber(key: Key, currentTeamId: TeamId, teams: seq<Team>): (o: Outcome)
    ensures o.Switch? <==>
              key.DigitKey? && OrdinalIndex(key.digit) < |teams| && teams[OrdinalIndex(key.digit)].id != currentTeamId
    ensures o.Switch? ==> o.url == "/" + teams[OrdinalIndex(key.digit)].name
    ensures o.AlreadyActive? <==>
              key.DigitKey? && OrdinalIndex(key.digit) < |teams| && teams[OrdinalIndex(key.digit)].id == currentTeamId
    ensures o.DefaultPrevented() <==> key.DigitKey? && OrdinalIndex(key.digit) < |teams|
  {
    ScanDigits(key, currentTeamId, teams, 0)
  }

  /** Every position 0..9 has exactly one digit key: ZERO is position 9, ONE
      is position 0, and the scan order lists each digit once. */
  lemma DigitOrderIsBijective()
    ensures OrdinalIndex(0) == 9 && OrdinalIndex(1) == 0
    ensures forall k :: 0 <= k < |DigitOrder| ==> OrdinalIndex(DigitOrder[k]) == k
    ensures forall d: Digit, e: Digit :: OrdinalIndex(d) == OrdinalIndex(e) ==> d == e
  {
  }

}
