/** Team records as the sidebar sees them, and the array searches it performs on them. */
module Teams {

  type TeamId = string

  /** The fields of a team that the sidebar reads. */
  datatype Team = Team(id: TeamId, name: string, displayName: string)

  /** Team ids are unique within one user's team list. */
  ghost predicate UniqueIds(teams: seq<Team>)
  {
    forall i, j :: 0 <= i < j < |teams| ==> teams[i].id != teams[j].id
  }

  /** `teams.map((o) => o.id)`: the ids of a list of teams, in order. */
  function Ids(teams: seq<Team>): (ids: seq<TeamId>)
    ensures |ids| == |teams|
    ensures forall i :: 0 <= i < |teams| ==> ids[i] == teams[i].id
  {
    if teams == [] then [] else [teams[0].id] + Ids(teams[1..])
  }

  /** `teams.findIndex((team) => team.id === id)`: the first position holding
      a team with this id, or -1 when there is none. */
  function FindIndex(teams: seq<Team>, id: TeamId): (pos: int)
    ensures -1 <= pos < |teams|
    ensures pos == -1 <==> id !in Ids(teams)
    ensures 0 <= pos ==> teams[pos].id == id
    ensures forall i :: 0 <= i < pos ==> teams[i].id != id
  {
    if teams == [] then -1
    else if teams[0].id == id then
      assert Ids(teams)[0] == id;
      0
    else
      var p := FindIndex(teams[1..], id);
      assert Ids(teams) == [teams[0].id] + Ids(teams[1..]);
      assert id in Ids(teams) <==> id in Ids(teams[1..]);
      if p == -1 then -1 else p + 1
  }

  /** With unique ids, searching for the id of the team at `k` finds `k`. */
  lemma FindIndexOfMember(teams: seq<Team>, k: int)
    requires UniqueIds(teams)
    requires 0 <= k < |teams|
    ensures FindIndex(teams, teams[k].id) == k
  {
    var p := FindIndex(teams, teams[k].id);
    assert teams[k].id in Ids(teams) by { assert Ids(teams)[k] == teams[k].id; }
  }

}
