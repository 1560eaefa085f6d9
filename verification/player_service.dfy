/**
 * `Services/PlayerService.cs`: the checks around creating, updating and
 * deleting a player. Each operation reads the team table, transforms the
 * player table, and returns the (success, message, result) reply.
 */
module PlayerService {
  import opened Base
  import opened Text
  import opened Models
  import opened Dtos
  import opened Mapping
  import opened Seqs
  import opened PlayerRepository
  import Teams = TeamRepository

  function TeamMissingMessage(teamId: int): string
  {
    "Team with Id " + IntToString(teamId) + " doesn't exist"
  }

  /** Written as two literals: the verifier does not look inside one literal this long. */
  const DuplicatePlayerMessage: string := "A player with this name " + "already exists in the specified team."

  function NumberTakenMessage(number: int): string
  {
    "The number " + IntToString(number) + " is already assigned to another player in this team."
  }

  function PlayerNotFoundMessage(id: int): string
  {
    "Player with ID " + IntToString(id) + " not found."
  }

  function TeamNameNotFoundMessage(name: string): string
  {
    "Team '" + name + "' not found."
  }

  function PlayerMissingMessage(id: int): string
  {
    "Player with Id " + IntToString(id) + " doesn't exist"
  }

  /** `string.IsNullOrEmpty(s)` is false. */
  predicate Supplied(s: Option<string>)
  {
    s.Some? && |s.value| > 0
  }

  /** Some team called `name` has id `id`. */
  predicate TeamNamed(teams: seq<Team>, name: string, id: int)
  {
    exists t :: t in teams && t.name == name && t.id == id
  }

  /** `GetPlayerByIdAsync`: the stored player as a response, or null. */
  function GetPlayer(teams: seq<Team>, players: seq<Player>, id: int, d: Domains): (r: Option<PlayerDto>)
    requires forall p :: p in players ==> Fits(p, d)
    ensures r.None? <==> !HasPlayer(players, id)
    ensures r.Some? ==> r.value.id == id && exists p :: p in players && p.id == id && r.value.name == p.name
    ensures r.Some? ==> exists p :: p in players && p.id == id && r.value == ToPlayerDto(p, Teams.GetTeamById(teams, p.teamId), d)
  {
    match GetPlayerById(players, id)
    case None => None
    case Some(p) => Some(ToPlayerDto(p, Teams.GetTeamById(teams, p.teamId), d))
  }

  /**
   * `AddPlayerAsync`: team exists, then no duplicate (name, team, birth
   * date), then the number is free in the team; the first failing check
   * decides the reply and nothing is stored.
   */
  function AddPlayer(teams: seq<Team>, players: seq<Player>, dto: CreatePlayerDto, d: Domains)
    : (r: Step<PlayerDto, seq<Player>>)
    requires CreateMappable(dto, d)
    ensures !Teams.HasTeam(teams, dto.teamId) ==> r.outcome == Fail(TeamMissingMessage(dto.teamId))
    ensures Teams.HasTeam(teams, dto.teamId) && RosterTaken(players, dto.name.value, dto.teamId, dto.birthDate)
            ==> r.outcome == Fail(DuplicatePlayerMessage)
    ensures Teams.HasTeam(teams, dto.teamId) && !RosterTaken(players, dto.name.value, dto.teamId, dto.birthDate)
            && NumberTaken(players, dto.number, dto.teamId)
            ==> r.outcome == Fail(NumberTakenMessage(dto.number))
    ensures r.outcome.Ok? <==>
              Teams.HasTeam(teams, dto.teamId)
              && !RosterTaken(players, dto.name.value, dto.teamId, dto.birthDate)
              && !NumberTaken(players, dto.number, dto.teamId)
    ensures r.outcome.Fail? ==> r.store == players
    ensures r.outcome.Ok? ==>
              && |r.store| == |players| + 1 && r.store[..|players|] == players
              && r.store[|players|] == ToPlayer(dto, d).(id := NextPlayerId(players))
    ensures r.outcome.Ok? ==>
              exists t :: t in teams && t.id == dto.teamId &&
                r.outcome.value == PlayerDto(NextPlayerId(players), dto.name.value, dto.number, dto.position.value,
                                             dto.foot.value, dto.birthDate, dto.height, dto.isInjured, Some(t.name))
  {
    var team := Teams.GetTeamById(teams, dto.teamId);
    if team.None? then
      Step(Fail(TeamMissingMessage(dto.teamId)), players)
    else if PlayerExistsInTeam(players, dto.name.value, dto.teamId, dto.birthDate) then
      Step(Fail(DuplicatePlayerMessage), players)
    else if PlayerNumberExistsInTeam(players, dto.number, dto.teamId) then
      Step(Fail(NumberTakenMessage(dto.number)), players)
    else
      var added := PlayerRepository.AddPlayer(players, ToPlayer(dto, d));
      CreateThenRead(dto, d, added.0.id, team.value);
      Step(Ok(ToPlayerDto(added.0, team, d)), added.1)
  }

  /**
   * The two existence checks make any add keep (name, team, birth date) and
   * (number, team) unique, whatever id the new row receives.
   */
  lemma AddPlayerKeepsRosterAndNumbers(teams: seq<Team>, players: seq<Player>, dto: CreatePlayerDto, d: Domains)
    requires CreateMappable(dto, d)
    requires UniqueRoster(players) && UniqueNumbers(players)
    ensures UniqueRoster(AddPlayer(teams, players, dto, d).store)
    ensures UniqueNumbers(AddPlayer(teams, players, dto, d).store)
  {
    var r := AddPlayer(teams, players, dto, d);
    if r.outcome.Ok? {
      var stored := r.store[|players|];
      assert r.store == players + [stored];
      forall i | 0 <= i < |players|
        ensures DistinctRosterKeys(players[i], stored) && DistinctNumbers(players[i], stored)
      {
        assert players[i] in players;
      }
      AppendPairwise(players, stored, DistinctRosterKeys);
      AppendPairwise(players, stored, DistinctNumbers);
    }
  }

  /** Below the id ceiling the new id is fresh too, so a successful add keeps every invariant. */
  lemma AddPlayerKeepsConsistent(teams: seq<Team>, players: seq<Player>, dto: CreatePlayerDto, d: Domains)
    requires CreateMappable(dto, d)
    requires Consistent(players) && MaxId(players) < Int32Max
    ensures Consistent(AddPlayer(teams, players, dto, d).store)
  {
    AddPlayerKeepsRosterAndNumbers(teams, players, dto, d);
    if AddPlayer(teams, players, dto, d).outcome.Ok? {
      PlayerRepository.AddPlayerKeepsIdsUnique(players, ToPlayer(dto, d));
    }
  }

  /** Every row an add leaves behind denotes declared enum members, as `GetPlayer` requires. */
  lemma AddPlayerKeepsFits(teams: seq<Team>, players: seq<Player>, dto: CreatePlayerDto, d: Domains)
    requires CreateMappable(dto, d)
    requires forall p :: p in players ==> Fits(p, d)
    ensures forall p :: p in AddPlayer(teams, players, dto, d).store ==> Fits(p, d)
  {
    var r := AddPlayer(teams, players, dto, d);
    if r.outcome.Ok? {
      assert r.store == players + [r.store[|players|]];
    }
  }

  /** Adding the same request again is refused as a duplicate player. */
  lemma AddTwiceIsDuplicate(teams: seq<Team>, players: seq<Player>, dto: CreatePlayerDto, d: Domains)
    requires CreateMappable(dto, d)
    requires AddPlayer(teams, players, dto, d).outcome.Ok?
    ensures AddPlayer(teams, AddPlayer(teams, players, dto, d).store, dto, d).outcome == Fail(DuplicatePlayerMessage)
  {
    var after := AddPlayer(teams, players, dto, d).store;
    assert after[|players|] in after;
  }

  /** The three refusals of an add read differently whatever the id and number. */
  lemma AddFailuresDistinct(teamId: int, number: int)
    ensures TeamMissingMessage(teamId) != DuplicatePlayerMessage
    ensures TeamMissingMessage(teamId) != NumberTakenMessage(number)
    ensures DuplicatePlayerMessage != NumberTakenMessage(number)
  {
    var team := TeamMissingMessage(teamId);
    var taken := NumberTakenMessage(number);
    assert team[0] == 'T' && team[1] == 'e';
    assert taken[0] == 'T' && taken[1] == 'h';
    assert DuplicatePlayerMessage[0] == 'A';
  }

  /** Each not-found or conflict message determines the id, number or name it reports. */
  lemma MessagesIdentifySubject(a: int, b: int, x: string, y: string)
    ensures TeamMissingMessage(a) == TeamMissingMessage(b) ==> a == b
    ensures NumberTakenMessage(a) == NumberTakenMessage(b) ==> a == b
    ensures PlayerNotFoundMessage(a) == PlayerNotFoundMessage(b) ==> a == b
    ensures PlayerMissingMessage(a) == PlayerMissingMessage(b) ==> a == b
    ensures TeamNameNotFoundMessage(x) == TeamNameNotFoundMessage(y) ==> x == y
  {
    if TeamMissingMessage(a) == TeamMissingMessage(b) {
      StripAffixes("Team with Id ", IntToString(a), IntToString(b), " doesn't exist");
      IntToStringInjective(a, b);
    }
    if NumberTakenMessage(a) == NumberTakenMessage(b) {
      StripAffixes("The number ", IntToString(a), IntToString(b), " is already assigned to another player in this team.");
      IntToStringInjective(a, b);
    }
    if PlayerNotFoundMessage(a) == PlayerNotFoundMessage(b) {
      StripAffixes("Player with ID ", IntToString(a), IntToString(b), " not found.");
      IntToStringInjective(a, b);
    }
    if PlayerMissingMessage(a) == PlayerMissingMessage(b) {
      StripAffixes("Player with Id ", IntToString(a), IntToString(b), " doesn't exist");
      IntToStringInjective(a, b);
    }
    if TeamNameNotFoundMessage(x) == TeamNameNotFoundMessage(y) {
      StripAffixes("Team '", x, y, "' not found.");
    }
  }

  /**
   * `UpdatePlayerAsync`: the player must exist; a non-empty `TeamName` must
   * name a team, whose id the player takes; then the supplied fields are
   * merged and the row is written back. No number or duplicate check runs.
   */
  function UpdatePlayer(teams: seq<Team>, players: seq<Player>, id: int, dto: UpdatePlayerDto, d: Domains)
    : (r: Step<(), seq<Player>>)
    requires UpdateMappable(dto, d)
    ensures !HasPlayer(players, id) ==> r.outcome == Fail(PlayerNotFoundMessage(id))
    ensures HasPlayer(players, id) && Supplied(dto.teamName) && !Teams.NameTaken(teams, dto.teamName.value)
            ==> r.outcome == Fail(TeamNameNotFoundMessage(dto.teamName.value))
    ensures r.outcome.Ok? <==>
              HasPlayer(players, id) && (Supplied(dto.teamName) ==> Teams.NameTaken(teams, dto.teamName.value))
    ensures r.outcome.Fail? ==> r.store == players
    ensures r.outcome.Ok? ==> |r.store| == |players|
    ensures r.outcome.Ok? ==> forall i :: 0 <= i < |players| && players[i].id != id ==> r.store[i] == players[i]
    ensures r.outcome.Ok? && UniqueIds(players) ==>
              forall i :: 0 <= i < |players| && players[i].id == id ==>
                && r.store[i] == Merge(dto, players[i].(teamId := r.store[i].teamId), d)
                && (if Supplied(dto.teamName) then TeamNamed(teams, dto.teamName.value, r.store[i].teamId)
                    else r.store[i].teamId == players[i].teamId)
  {
    match GetPlayerById(players, id)
    case None => Step(Fail(PlayerNotFoundMessage(id)), players)
    case Some(p) =>
      var team := if Supplied(dto.teamName) then Teams.GetTeamByName(teams, dto.teamName.value) else None;
      if Supplied(dto.teamName) && team.None? then
        Step(Fail(TeamNameNotFoundMessage(dto.teamName.value)), players)
      else
        var moved := if team.Some? then p.(teamId := team.value.id) else p;
        var merged := Merge(dto, moved, d);
        var after := PlayerRepository.UpdatePlayer(players, merged);
        assert UniqueIds(players) ==> forall i :: 0 <= i < |players| && players[i].id == id ==> players[i] == p by {
          if UniqueIds(players) {
            forall i | 0 <= i < |players| && players[i].id == id ensures players[i] == p {
              GetPlayerByIdFindsRow(players, players[i]);
            }
          }
        }
        Step(Ok(()), after)
  }

  /** Updates keep the primary key. */
  lemma UpdateKeepsIdsUnique(teams: seq<Team>, players: seq<Player>, id: int, dto: UpdatePlayerDto, d: Domains)
    requires UpdateMappable(dto, d) && UniqueIds(players)
    ensures UniqueIds(UpdatePlayer(teams, players, id, dto, d).store)
  {
    var r := UpdatePlayer(teams, players, id, dto, d);
    if r.outcome.Ok? {
      forall i, j | 0 <= i < j < |r.store| ensures DistinctIds(r.store[i], r.store[j]) {
        assert DistinctIds(players[i], players[j]);
      }
    }
  }

  /** Every row an update leaves behind denotes declared enum members, as `GetPlayer` requires. */
  lemma UpdatePlayerKeepsFits(teams: seq<Team>, players: seq<Player>, id: int, dto: UpdatePlayerDto, d: Domains)
    requires UpdateMappable(dto, d)
    requires forall p :: p in players ==> Fits(p, d)
    ensures forall p :: p in UpdatePlayer(teams, players, id, dto, d).store ==> Fits(p, d)
  {
    var r := UpdatePlayer(teams, players, id, dto, d);
    if r.outcome.Ok? {
      var p := GetPlayerById(players, id).value;
      var team := if Supplied(dto.teamName) then Teams.GetTeamByName(teams, dto.teamName.value) else None;
      var moved := if team.Some? then p.(teamId := team.value.id) else p;
      MergeFits(dto, moved, d);
      forall q | q in r.store ensures Fits(q, d) {
        var i :| 0 <= i < |r.store| && r.store[i] == q;
        assert players[i] in players;
      }
    }
  }

  /** Updates do not re-check numbers: moving a player onto a team-mate's number is accepted. */
  lemma UpdateCanDuplicateNumber()
    ensures var born := Dates.Date(2000, 1, 1);
            var players := [Player(1, "A", 9, 0, 0, born, 180, false, 1), Player(2, "B", 10, 0, 0, born, 180, false, 1)];
            var r := UpdatePlayer([], players, 2, EmptyUpdate.(number := Some(9)), Domains(["Forward"], ["Left"]));
            && UniqueNumbers(players)
            && r.outcome.Ok?
            && !UniqueNumbers(r.store)
  {
    var born := Dates.Date(2000, 1, 1);
    var players := [Player(1, "A", 9, 0, 0, born, 180, false, 1), Player(2, "B", 10, 0, 0, born, 180, false, 1)];
    assert DistinctNumbers(players[0], players[1]);
    var r := UpdatePlayer([], players, 2, EmptyUpdate.(number := Some(9)), Domains(["Forward"], ["Left"]));
    assert HasPlayer(players, 2) by { assert players[1] in players; }
    assert r.store[1].number == 9;
    assert !DistinctNumbers(r.store[0], r.store[1]);
  }

  /** `DeletePlayerAsync`: refuse an unknown id, otherwise remove that player. */
  function DeletePlayer(players: seq<Player>, id: int): (r: Step<(), seq<Player>>)
    ensures r.outcome.Fail? <==> !HasPlayer(players, id)
    ensures r.outcome.Fail? ==> r.outcome.message == PlayerMissingMessage(id) && r.store == players
    ensures forall q :: multiset(r.store)[q] == if q.id == id then 0 else multiset(players)[q]
  {
    if GetPlayerById(players, id).None? then Step(Fail(PlayerMissingMessage(id)), players)
    else Step(Ok(()), PlayerRepository.DeletePlayer(players, id))
  }

  /** Deleting again is refused with the same message and changes nothing. */
  lemma DeletePlayerTwice(players: seq<Player>, id: int)
    ensures var once := DeletePlayer(players, id);
            var twice := DeletePlayer(once.store, id);
            twice.outcome == Fail(PlayerMissingMessage(id)) && twice.store == once.store
  {
  }

  /**
   * Ids are one more than the current maximum, so once the player holding
   * the largest id is deleted, the next player added receives that id again
   * (whenever the id below it is still in use).
   */
  lemma DeletedNewestIdReused(players: seq<Player>, m: Int32)
    requires m == MaxId(players) && m > Int32Min && HasPlayer(players, m - 1)
    ensures DeletePlayer(players, m).outcome.Ok?
    ensures NextPlayerId(DeletePlayer(players, m).store) == m
  {
    var after := DeletePlayer(players, m).store;
    var below :| below in players && below.id == m - 1;
    assert below in after by {
      assert multiset(after)[below] == multiset(players)[below];
    }
    forall q | q in after ensures q.id <= m - 1 {
      assert multiset(after)[q] > 0;
      assert q in players;
    }
  }

  /** Every row a delete leaves behind was stored before, so it still denotes declared enum members. */
  lemma DeletePlayerKeepsFits(players: seq<Player>, id: int, d: Domains)
    requires forall p :: p in players ==> Fits(p, d)
    ensures forall p :: p in DeletePlayer(players, id).store ==> Fits(p, d)
  {
    forall q | q in DeletePlayer(players, id).store ensures Fits(q, d) {
      assert multiset(DeletePlayer(players, id).store)[q] > 0;
    }
  }

  /** Deleting keeps every invariant of the table. */
  lemma DeletePlayerKeepsConsistent(players: seq<Player>, id: int)
    requires Consistent(players)
    ensures Consistent(DeletePlayer(players, id).store)
  {
    PlayerRepository.DeleteKeepsConsistent(players, id);
  }
}
