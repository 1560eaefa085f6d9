/**
 * Concrete runs of the model: the rows `Data/ApplicationDbContext.cs` seeds,
 * a create/duplicate/delete walk through both services, and the team move
 * the update tests describe. The `Position` and `Foot` enum declarations are
 * not part of this model; the member lists below are the ones the seed rows
 * and the tests use, in an assumed declaration order.
 */
module Scenario {
  import opened Base
  import opened Text
  import opened Dates
  import opened Models
  import opened Dtos
  import opened Mapping
  import opened PlayerRepository
  import Teams = TeamRepository
  import PlayerService
  import TeamService
  import TeamProperties

  const Positions: seq<string> := ["Forward", "Midfielder", "Defender", "Goalkeeper"]
  const Feet: seq<string> := ["Left", "Right", "Both"]
  const Enums := Domains(Positions, Feet)

  const Forward := 0
  const Midfielder := 1
  const Defender := 2
  const Goalkeeper := 3
  const Left := 0
  const Right := 1
  const Both := 2

  const SeedTeams: seq<Team> := [
    Team(1, "Twente Enschede FC", "The Netherlands", "Enschede", "De Grolsch Veste"),
    Team(2, "Ajax Amsterdam", "The Netherlands", "Amsterdam", "Johan Cruyff Arena")
  ]

  const SeedPlayers: seq<Player> := [
    Player(1, "Mees Hilgers", 2, Defender, Right, Date(2001, 5, 13), 185, false, 1),
    Player(2, "Sem Steijn", 14, Midfielder, Right, Date(2001, 11, 12), 173, false, 1),
    Player(3, "Lars Unnerstall", 1, Goalkeeper, Right, Date(1990, 7, 20), 198, false, 1),
    Player(4, "Sam Lammers", 10, Forward, Both, Date(1997, 8, 30), 191, false, 1),
    Player(5, "Brian Brobbey", 9, Forward, Right, Date(2002, 2, 2), 182, false, 2),
    Player(6, "Jorrel Hato", 4, Defender, Left, Date(2006, 3, 7), 182, false, 2),
    Player(7, "Kenneth Taylor", 8, Midfielder, Left, Date(2002, 5, 16), 182, false, 2),
    Player(8, "Diant Ramaj", 40, Goalkeeper, Both, Date(2001, 9, 19), 189, false, 2)
  ]

  /** Seeded player `i` has id `i + 1`. */
  lemma SeedIdsAreRowNumbers()
    ensures forall i :: 0 <= i < |SeedPlayers| ==> SeedPlayers[i].id == i + 1
  {
    forall i | 0 <= i < |SeedPlayers| ensures SeedPlayers[i].id == i + 1 {
      assert i == 0 || i == 1 || i == 2 || i == 3 || i == 4 || i == 5 || i == 6 || i == 7;
    }
  }

  /** Seeded player `i` belongs to seeded team `1 + i / 4` and fits the enums. */
  lemma SeedRowsFit()
    ensures forall i :: 0 <= i < |SeedPlayers| ==>
              SeedPlayers[i].teamId == 1 + i / 4 && Fits(SeedPlayers[i], Enums)
  {
    forall i | 0 <= i < |SeedPlayers| ensures SeedPlayers[i].teamId == 1 + i / 4 && Fits(SeedPlayers[i], Enums) {
      assert i == 0 || i == 1 || i == 2 || i == 3 || i == 4 || i == 5 || i == 6 || i == 7;
    }
  }

  /** No two seeded players share a birth date or, within a team, a number. */
  lemma SeedKeysDistinct()
    ensures UniqueRoster(SeedPlayers) && UniqueNumbers(SeedPlayers)
  {
    forall i, j | 0 <= i < j < |SeedPlayers|
      ensures SeedPlayers[i].birthDate != SeedPlayers[j].birthDate && DistinctNumbers(SeedPlayers[i], SeedPlayers[j])
    {
      assert i == 0 || i == 1 || i == 2 || i == 3 || i == 4 || i == 5 || i == 6;
      assert j == 1 || j == 2 || j == 3 || j == 4 || j == 5 || j == 6 || j == 7;
    }
  }

  /** The seeded teams have distinct ids and names and pass the team-property check. */
  lemma SeedTeamsConsistent()
    ensures Teams.UniqueIds(SeedTeams) && Teams.UniqueNames(SeedTeams)
    ensures forall t :: t in SeedTeams ==> TeamProperties.Errors(t.country, t.city, t.stadium) == []
  {
    assert TeamProperties.ValidCountries[2] == "The Netherlands";
    assert TeamProperties.ValidCities[0] == "Amsterdam" && TeamProperties.ValidCities[5] == "Enschede";
    assert TeamProperties.ValidStadiums[1] == "De Grolsch Veste" && TeamProperties.ValidStadiums[2] == "Johan Cruyff Arena";
  }

  /** The seeded players satisfy every invariant of the player table and each belongs to a seeded team. */
  lemma SeedPlayersConsistent()
    ensures Consistent(SeedPlayers)
    ensures forall p :: p in SeedPlayers ==> Fits(p, Enums) && Teams.HasTeam(SeedTeams, p.teamId)
  {
    SeedIdsAreRowNumbers();
    SeedRowsFit();
    SeedKeysDistinct();
    assert SeedTeams[0] in SeedTeams && SeedTeams[1] in SeedTeams;
  }

  /**
   * The seeded database satisfies every invariant the services maintain:
   * distinct enum names, unique team ids and names, a consistent player
   * table whose players belong to seeded teams, and valid team properties.
   */
  lemma SeedIsConsistent()
    ensures WellFormed(Enums)
    ensures Teams.UniqueIds(SeedTeams) && Teams.UniqueNames(SeedTeams)
    ensures Consistent(SeedPlayers)
    ensures forall p :: p in SeedPlayers ==> Fits(p, Enums) && Teams.HasTeam(SeedTeams, p.teamId)
    ensures forall t :: t in SeedTeams ==> TeamProperties.Errors(t.country, t.city, t.stadium) == []
  {
    SeedTeamsConsistent();
    SeedPlayersConsistent();
  }

  /** The largest seeded id is 8, so the first player added gets id 9. */
  lemma SeedNextId()
    ensures MaxId(SeedPlayers) == 8 && NextPlayerId(SeedPlayers) == 9
  {
    SeedIdsAreRowNumbers();
    assert SeedPlayers[7] in SeedPlayers;
  }

  /**
   * A request duplicating a seeded team's name passes every attribute, yet
   * the service refuses it: name uniqueness lives in the service only.
   */
  lemma SeededNameRefused()
    ensures var dto := CreateTeamDto(Some("Ajax Amsterdam"), Some("The Netherlands"), Some("Amsterdam"), Some("Wembley"));
            && ValidCreateTeam(dto)
            && TeamService.CreateTeam(SeedTeams, dto, 3) == Step(Fail(TeamService.TeamExistsMessage), SeedTeams)
  {
    assert SeedTeams[1] in SeedTeams;
    assert TeamProperties.ValidCountries[2] == "The Netherlands";
    assert TeamProperties.ValidCities[0] == "Amsterdam" && TeamProperties.ValidStadiums[0] == "Wembley";
    assert !IsWhiteSpace("Ajax Amsterdam"[0]) && !IsWhiteSpace("The Netherlands"[0]);
    assert !IsWhiteSpace("Amsterdam"[0]) && !IsWhiteSpace("Wembley"[0]);
  }

  /** Deleting seeded player 8, the newest, makes 8 the next id handed out. */
  lemma IdReusedAfterDeletingNewest()
    ensures PlayerService.DeletePlayer(SeedPlayers, 8).outcome.Ok?
    ensures NextPlayerId(PlayerService.DeletePlayer(SeedPlayers, 8).store) == 8
  {
    SeedNextId();
    SeedIdsAreRowNumbers();
    assert SeedPlayers[6] in SeedPlayers;
    PlayerService.DeletedNewestIdReused(SeedPlayers, 8);
  }

  const AjaxRequest := CreateTeamDto(Some("Ajax"), Some("The Netherlands"), Some("Amsterdam"), Some("Johan Cruyff Arena"))
  const TwenteRequest := CreateTeamDto(Some("Twente"), Some("The Netherlands"), Some("Enschede"), Some("De Grolsch Veste"))
  const AjaxTeam := Team(1, "Ajax", "The Netherlands", "Amsterdam", "Johan Cruyff Arena")
  const TwenteTeam := Team(2, "Twente", "The Netherlands", "Enschede", "De Grolsch Veste")
  const Today: DateOnly := Date(2025, 6, 1)
  const Xavi := CreatePlayerDto(Some("Xavi"), 9, Some("Forward"), Some("Right"), Date(2000, 3, 1), 180, false, 1)
  const Yuri := Xavi.(name := Some("Yuri"))

  /** Both team requests pass every attribute. */
  lemma TeamRequestsValid()
    ensures ValidCreateTeam(AjaxRequest) && ValidCreateTeam(TwenteRequest)
  {
    assert TeamProperties.ValidCountries[2] == "The Netherlands";
    assert TeamProperties.ValidCities[0] == "Amsterdam" && TeamProperties.ValidCities[5] == "Enschede";
    assert TeamProperties.ValidStadiums[1] == "De Grolsch Veste" && TeamProperties.ValidStadiums[2] == "Johan Cruyff Arena";
    assert !IsWhiteSpace("Ajax"[0]) && !IsWhiteSpace("Twente"[0]) && !IsWhiteSpace("The Netherlands"[0]);
    assert !IsWhiteSpace("Amsterdam"[0]) && !IsWhiteSpace("Enschede"[0]);
    assert !IsWhiteSpace("Johan Cruyff Arena"[0]) && !IsWhiteSpace("De Grolsch Veste"[0]);
  }

  /** On an empty database Ajax is created as team 1 and Twente as team 2; Ajax again is refused. */
  lemma CreateTeamsRun()
    ensures TeamService.CreateTeam([], AjaxRequest, 1) == Step(Ok(AjaxTeam), [AjaxTeam])
    ensures TeamService.CreateTeam([AjaxTeam], TwenteRequest, 2) == Step(Ok(TwenteTeam), [AjaxTeam, TwenteTeam])
    ensures TeamService.CreateTeam([AjaxTeam], AjaxRequest, 2) == Step(Fail(TeamService.TeamExistsMessage), [AjaxTeam])
  {
    assert [AjaxTeam][0] in [AjaxTeam];
    var c1 := TeamService.CreateTeam([], AjaxRequest, 1);
    assert c1.store == [c1.store[0]];
    var c2 := TeamService.CreateTeam([AjaxTeam], TwenteRequest, 2);
    assert c2.store == [c2.store[0], c2.store[1]];
  }

  /** Both player requests pass every attribute on the day of the run. */
  lemma PlayerRequestsValid()
    ensures ValidCreatePlayer(Xavi, Enums, Today) && ValidCreatePlayer(Yuri, Enums, Today)
  {
    assert !IsWhiteSpace("Xavi"[0]) && !IsWhiteSpace("Yuri"[0]);
    assert !IsWhiteSpace("Forward"[0]) && !IsWhiteSpace("Right"[0]);
    assert Positions[0] == "Forward" && Feet[1] == "Right";
  }

  /** The player table after Xavi joins Ajax: one row, id 1, team 1. */
  lemma FirstPlayerStored()
    ensures var a1 := PlayerService.AddPlayer([AjaxTeam], [], Xavi, Enums);
            && a1.outcome.Ok? && a1.outcome.value.id == 1 && a1.outcome.value.teamName == Some("Ajax")
            && a1.store == [ToPlayer(Xavi, Enums).(id := 1)]
  {
    assert Teams.HasTeam([AjaxTeam], 1) by { assert [AjaxTeam][0] in [AjaxTeam]; }
  }

  /**
   * With Ajax as team 1: a player with number 9 is accepted as id 1; the
   * same request again is a duplicate; another name with number 9 finds
   * the number taken.
   */
  lemma AddPlayersRun()
    ensures var a1 := PlayerService.AddPlayer([AjaxTeam], [], Xavi, Enums);
            && a1.outcome.Ok?
            && PlayerService.AddPlayer([AjaxTeam], a1.store, Xavi, Enums).outcome == Fail(PlayerService.DuplicatePlayerMessage)
            && PlayerService.AddPlayer([AjaxTeam], a1.store, Yuri, Enums).outcome == Fail(PlayerService.NumberTakenMessage(9))
  {
    FirstPlayerStored();
    var stored := [ToPlayer(Xavi, Enums).(id := 1)];
    assert stored[0] in stored;
    assert Teams.HasTeam([AjaxTeam], 1) by { assert [AjaxTeam][0] in [AjaxTeam]; }
    assert !RosterTaken(stored, "Yuri", 1, Xavi.birthDate);
  }

  /** The same number in a different team is accepted. */
  lemma SameNumberOtherTeamRun()
    ensures var a1 := PlayerService.AddPlayer([AjaxTeam], [], Xavi, Enums);
            PlayerService.AddPlayer([AjaxTeam, TwenteTeam], a1.store, Yuri.(teamId := 2), Enums).outcome.Ok?
  {
    FirstPlayerStored();
    var stored := [ToPlayer(Xavi, Enums).(id := 1)];
    var both := [AjaxTeam, TwenteTeam];
    assert Teams.HasTeam(both, 2) by { assert both[1] in both; }
    assert !RosterTaken(stored, "Yuri", 2, Xavi.birthDate);
    assert !NumberTaken(stored, 9, 2);
  }

  /** Deleting team 1 succeeds, after which it cannot be found; a second delete is refused. */
  lemma DeleteTeamRun()
    ensures var del := TeamService.DeleteTeam([AjaxTeam], 1);
            && del.outcome.Ok?
            && Teams.GetTeamById(del.store, 1).None?
            && TeamService.DeleteTeam(del.store, 1).outcome == Fail(TeamService.TeamNotFoundMessage)
  {
    assert [AjaxTeam][0] in [AjaxTeam];
  }

  /**
   * An update naming an existing team, and nothing else, passes the intended
   * checks and moves the player there without changing anything else.
   */
  lemma UpdateMovesTeamRun()
    ensures var player := Player(1, "Player1", 7, Forward, Left, Date(2000, 1, 1), 180, false, 1);
            var teams := [Team(2, "NewTeam", "Spain", "Madrid", "Camp Nou")];
            var dto := EmptyUpdate.(teamName := Some("NewTeam"));
            && ValidSparseUpdate(dto, Enums, Today)
            && PlayerService.UpdatePlayer(teams, [player], 1, dto, Enums) == Step(Ok(()), [player.(teamId := 2)])
  {
    var player := Player(1, "Player1", 7, Forward, Left, Date(2000, 1, 1), 180, false, 1);
    var teams := [Team(2, "NewTeam", "Spain", "Madrid", "Camp Nou")];
    var dto := EmptyUpdate.(teamName := Some("NewTeam"));
    var r := PlayerService.UpdatePlayer(teams, [player], 1, dto, Enums);
    assert teams[0] in teams;
    assert [player][0] in [player];
    assert PlayerService.Supplied(dto.teamName);
    assert r.outcome.Ok?;
    assert UniqueIds([player]);
    var moved := r.store[0];
    assert PlayerService.TeamNamed(teams, "NewTeam", moved.teamId);
    assert moved.teamId == 2;
    assert moved == Merge(dto, player.(teamId := 2), Enums);
    MergeNothing(player.(teamId := 2), Enums, Some("NewTeam"));
    assert r.store == [moved];
  }

  /** An update naming no team is refused with the name quoted, and the player stays where it was. */
  lemma UpdateUnknownTeamRun()
    ensures var player := Player(1, "Player1", 7, Forward, Left, Date(2000, 1, 1), 180, false, 1);
            var r := PlayerService.UpdatePlayer([], [player], 1, EmptyUpdate.(teamName := Some("NonExistentTeam")), Enums);
            r == Step(Fail(PlayerService.TeamNameNotFoundMessage("NonExistentTeam")), [player])
  {
    var player := Player(1, "Player1", 7, Forward, Left, Date(2000, 1, 1), 180, false, 1);
    assert [player][0] in [player];
  }
}
