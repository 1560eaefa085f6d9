/**
 * `Data/TeamRepository.cs` over a team table held as a sequence of rows.
 * The database assigns a new team's id; the model receives it as `newId`.
 */
module TeamRepository {
  import opened Base
  import opened Seqs
  import opened Models

  predicate DistinctTeamIds(a: Team, b: Team)
  {
    a.id != b.id
  }

  predicate DistinctNames(a: Team, b: Team)
  {
    a.name != b.name
  }

  /** `Id` is the primary key. */
  predicate UniqueIds(teams: seq<Team>)
  {
    Pairwise(teams, DistinctTeamIds)
  }

  /** No two teams share a name. */
  predicate UniqueNames(teams: seq<Team>)
  {
    Pairwise(teams, DistinctNames)
  }

  predicate HasTeam(teams: seq<Team>, id: int)
  {
    exists t :: t in teams && t.id == id
  }

  predicate NameTaken(teams: seq<Team>, name: string)
  {
    exists t :: t in teams && t.name == name
  }

  /** `GetAllTeamsAsync`: every stored team, each as often as it is stored. */
  function GetAllTeams(teams: seq<Team>): (r: seq<Team>)
    ensures multiset(r) == multiset(teams)
  {
    teams
  }

  /** `GetTeamByIdAsync`: `FirstOrDefault(t => t.Id == id)`. */
  function GetTeamById(teams: seq<Team>, id: int): (r: Option<Team>)
    ensures r.None? <==> !HasTeam(teams, id)
    ensures r.Some? ==> r.value in teams && r.value.id == id
  {
    First(teams, (t: Team) => t.id == id)
  }

  /** `GetTeamByNameAsync`: `FirstOrDefault(t => t.Name == teamName)`, an exact, case-sensitive match. */
  function GetTeamByName(teams: seq<Team>, name: string): (r: Option<Team>)
    ensures r.None? <==> !NameTaken(teams, name)
    ensures r.Some? ==> r.value in teams && r.value.name == name
  {
    First(teams, (t: Team) => t.name == name)
  }

  /** Under unique names, the name lookup finds the one team with that name. */
  lemma GetTeamByNameFindsRow(teams: seq<Team>, t: Team)
    requires UniqueNames(teams) && t in teams
    ensures GetTeamByName(teams, t.name) == Some(t)
  {
    var r := GetTeamByName(teams, t.name).value;
    var i :| 0 <= i < |teams| && teams[i] == t;
    var j :| 0 <= j < |teams| && teams[j] == r;
  }

  /** `CreateTeamAsync`: the team stored under the database's fresh id, appended. */
  function CreateTeam(teams: seq<Team>, t: Team, newId: Int32): (r: (Team, seq<Team>))
    requires !HasTeam(teams, newId)
    ensures r.0.(id := t.id) == t && !HasTeam(teams, r.0.id)
    ensures r.0 == t.(id := newId)
    ensures |r.1| == |teams| + 1 && r.1[..|teams|] == teams && r.1[|teams|] == r.0
  {
    var stored := t.(id := newId);
    (stored, teams + [stored])
  }

  /** Creating keeps the primary key. */
  lemma CreateKeepsIdsUnique(teams: seq<Team>, t: Team, newId: Int32)
    requires UniqueIds(teams) && !HasTeam(teams, newId)
    ensures UniqueIds(CreateTeam(teams, t, newId).1)
  {
    var stored := CreateTeam(teams, t, newId).0;
    forall i | 0 <= i < |teams| ensures DistinctTeamIds(teams[i], stored) {
      assert teams[i] in teams;
    }
    AppendPairwise(teams, stored, DistinctTeamIds);
  }

  /** `DeleteTeamAsync`: `FindAsync(id)`, then remove the row if there is one. */
  function DeleteTeam(teams: seq<Team>, id: int): (r: seq<Team>)
    ensures forall t :: t in r <==> t in teams && t.id != id
    ensures forall t :: multiset(r)[t] == if t.id == id then 0 else multiset(teams)[t]
    ensures !HasTeam(teams, id) ==> r == teams
  {
    if GetTeamById(teams, id).Some? then Filter(teams, (t: Team) => t.id != id) else teams
  }

  /** Deleting keeps the primary key and unique names. */
  lemma DeleteKeepsUnique(teams: seq<Team>, id: int)
    requires UniqueIds(teams) && UniqueNames(teams)
    ensures UniqueIds(DeleteTeam(teams, id)) && UniqueNames(DeleteTeam(teams, id))
  {
    if HasTeam(teams, id) {
      var keep := (t: Team) => t.id != id;
      FilterPairwise(teams, keep, DistinctTeamIds);
      FilterPairwise(teams, keep, DistinctNames);
    }
  }
}
