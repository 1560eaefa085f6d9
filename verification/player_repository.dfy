/**
 * `Data/PlayerRepository.cs` over a player table held as a sequence of rows.
 * Storage faults (the catch-log-rethrow blocks) are outside the model.
 */
module PlayerRepository {
  import opened Base
  import opened Seqs
  import opened Dates
  import opened Models

  predicate DistinctIds(a: Player, b: Player)
  {
    a.id != b.id
  }

  /** Differ in the duplicate-player key (name, team, birth date). */
  predicate DistinctRosterKeys(a: Player, b: Player)
  {
    a.name != b.name || a.teamId != b.teamId || a.birthDate != b.birthDate
  }

  /** Differ in the shirt key (number, team). */
  predicate DistinctNumbers(a: Player, b: Player)
  {
    a.number != b.number || a.teamId != b.teamId
  }

  /** `Id` is the primary key. */
  predicate UniqueIds(players: seq<Player>)
  {
    Pairwise(players, DistinctIds)
  }

  /** No two players of a team share both name and birth date. */
  predicate UniqueRoster(players: seq<Player>)
  {
    Pairwise(players, DistinctRosterKeys)
  }

  /** No two players of a team share a number. */
  predicate UniqueNumbers(players: seq<Player>)
  {
    Pairwise(players, DistinctNumbers)
  }

  /** The invariants the player service is meant to keep. */
  predicate Consistent(players: seq<Player>)
  {
    UniqueIds(players) && UniqueRoster(players) && UniqueNumbers(players)
  }

  predicate HasPlayer(players: seq<Player>, id: int)
  {
    exists p :: p in players && p.id == id
  }

  /** Some player of team `teamId` has this name and birth date. */
  predicate RosterTaken(players: seq<Player>, name: string, teamId: int, birthDate: DateOnly)
  {
    exists p :: p in players && p.name == name && p.teamId == teamId && p.birthDate == birthDate
  }

  /** Some player of team `teamId` wears this number. */
  predicate NumberTaken(players: seq<Player>, number: int, teamId: int)
  {
    exists p :: p in players && p.number == number && p.teamId == teamId
  }

  /** `GetPlayerByIdAsync`: `FirstOrDefault(p => p.Id == id)`. */
  function GetPlayerById(players: seq<Player>, id: int): (r: Option<Player>)
    ensures r.None? <==> !HasPlayer(players, id)
    ensures r.Some? ==> r.value in players && r.value.id == id
  {
    First(players, (p: Player) => p.id == id)
  }

  /** Under the primary key, the lookup finds the one row with that id. */
  lemma GetPlayerByIdFindsRow(players: seq<Player>, p: Player)
    requires UniqueIds(players) && p in players
    ensures GetPlayerById(players, p.id) == Some(p)
  {
    var r := GetPlayerById(players, p.id).value;
    var i :| 0 <= i < |players| && players[i] == p;
    var j :| 0 <= j < |players| && players[j] == r;
  }

  /** `PlayerExistsInTeamAsync`: `AnyAsync` on name, team and birth date. */
  function PlayerExistsInTeam(players: seq<Player>, name: string, teamId: int, birthDate: DateOnly): (r: bool)
    ensures r == RosterTaken(players, name, teamId, birthDate)
  {
    var r := Any(players, (p: Player) => p.name == name && p.teamId == teamId && p.birthDate == birthDate);
    assert r ==> RosterTaken(players, name, teamId, birthDate) by {
      if r {
        var i :| 0 <= i < |players| && players[i].name == name && players[i].teamId == teamId && players[i].birthDate == birthDate;
        assert players[i] in players;
      }
    }
    r
  }

  /** `PlayerNumberExistsInTeamAsync`: `AnyAsync` on number and team. */
  function PlayerNumberExistsInTeam(players: seq<Player>, number: int, teamId: int): (r: bool)
    ensures r == NumberTaken(players, number, teamId)
  {
    var r := Any(players, (p: Player) => p.number == number && p.teamId == teamId);
    assert r ==> NumberTaken(players, number, teamId) by {
      if r {
        var i :| 0 <= i < |players| && players[i].number == number && players[i].teamId == teamId;
        assert players[i] in players;
      }
    }
    r
  }

  /** `MaxAsync(p => (int?)p.Id) ?? 0`: the largest id, or 0 for an empty table. */
  function MaxId(players: seq<Player>): (m: Int32)
    ensures |players| == 0 ==> m == 0
    ensures |players| > 0 ==> HasPlayer(players, m)
    ensures forall p :: p in players ==> p.id <= m
  {
    if |players| == 0 then 0
    else
      var rest := MaxId(players[1..]);
      assert forall p :: p in players ==> p == players[0] || p in players[1..];
      if |players| == 1 || players[0].id >= rest then players[0].id else rest
  }

  /** The id `AddPlayerAsync` assigns: one more than the largest, wrapping as C# `int` does. */
  function NextPlayerId(players: seq<Player>): (id: Int32)
    ensures |players| == 0 ==> id == 1
    ensures MaxId(players) < Int32Max ==> forall p :: p in players ==> p.id < id
    ensures MaxId(players) < Int32Max && |players| > 0 ==> HasPlayer(players, id - 1)
    ensures MaxId(players) == Int32Max ==> id == Int32Min
  {
    Increment(MaxId(players))
  }

  /** `AddPlayerAsync`: the row stored under the next id, and the table with it appended. */
  function AddPlayer(players: seq<Player>, p: Player): (r: (Player, seq<Player>))
    ensures r.0.(id := p.id) == p
    ensures r.0.id == NextPlayerId(players)
    ensures MaxId(players) < Int32Max ==> !HasPlayer(players, r.0.id)
    ensures |r.1| == |players| + 1 && r.1[..|players|] == players && r.1[|players|] == r.0
  {
    var stored := p.(id := NextPlayerId(players));
    (stored, players + [stored])
  }

  /** Below the `int` ceiling, adding keeps the primary key. */
  lemma AddPlayerKeepsIdsUnique(players: seq<Player>, p: Player)
    requires UniqueIds(players) && MaxId(players) < Int32Max
    ensures UniqueIds(AddPlayer(players, p).1)
  {
    var stored := AddPlayer(players, p).0;
    assert AddPlayer(players, p).1 == players + [stored];
    forall i | 0 <= i < |players| ensures DistinctIds(players[i], stored) {
      assert players[i] in players;
    }
    AppendPairwise(players, stored, DistinctIds);
  }

  /** `UpdatePlayerAsync`: the row with the player's id replaced by the player. */
  function UpdatePlayer(players: seq<Player>, p: Player): (r: seq<Player>)
    ensures |r| == |players|
    ensures forall i :: 0 <= i < |players| ==> r[i] == if players[i].id == p.id then p else players[i]
  {
    ReplaceWhere(players, (q: Player) => q.id == p.id, p)
  }

  /** After an update, looking the id up gives the updated player. */
  lemma UpdateThenGet(players: seq<Player>, p: Player)
    requires HasPlayer(players, p.id)
    ensures GetPlayerById(UpdatePlayer(players, p), p.id) == Some(p)
  {
    var r := UpdatePlayer(players, p);
    var q :| q in players && q.id == p.id;
    var i :| 0 <= i < |players| && players[i] == q;
    assert r[i] == p;
    var found := GetPlayerById(r, p.id).value;
    var j :| 0 <= j < |r| && r[j] == found;
  }

  /** An update leaves every id where it was, so it keeps the primary key. */
  lemma UpdateKeepsIdsUnique(players: seq<Player>, p: Player)
    requires UniqueIds(players)
    ensures UniqueIds(UpdatePlayer(players, p))
  {
    var r := UpdatePlayer(players, p);
    forall i, j | 0 <= i < j < |r| ensures DistinctIds(r[i], r[j]) {
      assert DistinctIds(players[i], players[j]);
    }
  }

  /** `DeletePlayerAsync`: `FindAsync(id)`, then remove the row if there is one. */
  function DeletePlayer(players: seq<Player>, id: int): (r: seq<Player>)
    ensures forall q :: q in r <==> q in players && q.id != id
    ensures forall q :: multiset(r)[q] == if q.id == id then 0 else multiset(players)[q]
    ensures !HasPlayer(players, id) ==> r == players
  {
    if GetPlayerById(players, id).Some? then Filter(players, (q: Player) => q.id != id) else players
  }

  /** Deleting keeps every invariant of the table. */
  lemma DeleteKeepsConsistent(players: seq<Player>, id: int)
    requires Consistent(players)
    ensures Consistent(DeletePlayer(players, id))
  {
    if HasPlayer(players, id) {
      var keep := (q: Player) => q.id != id;
      FilterPairwise(players, keep, DistinctIds);
      FilterPairwise(players, keep, DistinctRosterKeys);
      FilterPairwise(players, keep, DistinctNumbers);
    }
  }
}
