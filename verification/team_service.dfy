/**
 * `Services/TeamService.cs`: team creation guarded by name uniqueness and
 * deletion guarded by existence. Players of a deleted team are not touched
 * here; whether the database cascades is outside the model.
 */
module TeamService {
  import opened Base
  import opened Models
  import opened Dtos
  import opened Seqs
  import opened TeamRepository

  const TeamExistsMessage: string := "A team with this name already exists."
  const TeamNotFoundMessage: string := "Team not found."

  /** The fields `CreateMap<CreateTeamDto, Team>()` copies are present, as the non-null columns need. */
  predicate CreateMappable(dto: CreateTeamDto)
  {
    dto.name.Some? && dto.country.Some? && dto.city.Some? && dto.stadium.Some?
  }

  /** A team request that passes validation can be mapped to a team. */
  lemma ValidCreateIsMappable(dto: CreateTeamDto)
    requires ValidCreateTeam(dto)
    ensures CreateMappable(dto)
  {
  }

  /**
   * `CreateTeamAsync`: refuse a name some team already has (exact match);
   * otherwise store the team under the database's fresh id `newId` and
   * return it.
   */
  function CreateTeam(teams: seq<Team>, dto: CreateTeamDto, newId: Int32): (r: Step<Team, seq<Team>>)
    requires CreateMappable(dto) && !HasTeam(teams, newId)
    ensures r.outcome.Fail? <==> NameTaken(teams, dto.name.value)
    ensures r.outcome.Fail? ==> r.outcome.message == TeamExistsMessage && r.store == teams
    ensures r.outcome.Ok? ==>
              r.outcome.value == Team(newId, dto.name.value, dto.country.value, dto.city.value, dto.stadium.value)
    ensures r.outcome.Ok? ==> |r.store| == |teams| + 1 && r.store[..|teams|] == teams && r.store[|teams|] == r.outcome.value
  {
    if GetTeamByName(teams, dto.name.value).Some? then
      Step(Fail(TeamExistsMessage), teams)
    else
      var created := TeamRepository.CreateTeam(
        teams, Team(0, dto.name.value, dto.country.value, dto.city.value, dto.stadium.value), newId);
      Step(Ok(created.0), created.1)
  }

  /** Creating keeps team ids and team names unique. */
  lemma CreateTeamKeepsUnique(teams: seq<Team>, dto: CreateTeamDto, newId: Int32)
    requires CreateMappable(dto) && !HasTeam(teams, newId)
    requires UniqueIds(teams) && UniqueNames(teams)
    ensures UniqueIds(CreateTeam(teams, dto, newId).store) && UniqueNames(CreateTeam(teams, dto, newId).store)
  {
    var r := CreateTeam(teams, dto, newId);
    if r.outcome.Ok? {
      var t := r.outcome.value;
      assert r.store == teams + [t];
      forall i | 0 <= i < |teams| ensures DistinctTeamIds(teams[i], t) && DistinctNames(teams[i], t) {
        assert teams[i] in teams;
      }
      AppendPairwise(teams, t, DistinctTeamIds);
      AppendPairwise(teams, t, DistinctNames);
    }
  }

  /** Creating the same team again is refused, whatever id the database would give it. */
  lemma CreateTeamTwice(teams: seq<Team>, dto: CreateTeamDto, id1: Int32, id2: Int32)
    requires CreateMappable(dto) && !HasTeam(teams, id1)
    requires CreateTeam(teams, dto, id1).outcome.Ok?
    requires !HasTeam(CreateTeam(teams, dto, id1).store, id2)
    ensures CreateTeam(CreateTeam(teams, dto, id1).store, dto, id2).outcome == Fail(TeamExistsMessage)
  {
    var after := CreateTeam(teams, dto, id1).store;
    assert after[|teams|] in after;
  }

  /** `DeleteTeamAsync`: refuse an unknown id with a message that does not name it; otherwise remove the team. */
  function DeleteTeam(teams: seq<Team>, id: int): (r: Step<(), seq<Team>>)
    ensures r.outcome.Fail? <==> !HasTeam(teams, id)
    ensures r.outcome.Fail? ==> r.outcome.message == TeamNotFoundMessage && r.store == teams
    ensures forall t :: multiset(r.store)[t] == if t.id == id then 0 else multiset(teams)[t]
  {
    if GetTeamById(teams, id).None? then Step(Fail(TeamNotFoundMessage), teams)
    else Step(Ok(()), TeamRepository.DeleteTeam(teams, id))
  }

  /** Deleting again is refused the same way and changes nothing; the team can no longer be found. */
  lemma DeleteTeamTwice(teams: seq<Team>, id: int)
    ensures var once := DeleteTeam(teams, id);
            var twice := DeleteTeam(once.store, id);
            && GetTeamById(once.store, id).None?
            && twice.outcome == Fail(TeamNotFoundMessage) && twice.store == once.store
  {
  }

  /** Deleting keeps team ids and names unique. */
  lemma DeleteTeamKeepsUnique(teams: seq<Team>, id: int)
    requires UniqueIds(teams) && UniqueNames(teams)
    ensures UniqueIds(DeleteTeam(teams, id).store) && UniqueNames(DeleteTeam(teams, id).store)
  {
    DeleteKeepsUnique(teams, id);
  }
}
