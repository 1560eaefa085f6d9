/**
 * `MappingProfile/MappingProfile.cs`: the AutoMapper rules, written out.
 * A request's enum name becomes the member's ordinal, and the ordinal is
 * rendered back as the name in a response.
 */
module Mapping {
  import opened Base
  import opened Dates
  import opened Models
  import opened Dtos

  /** The ordinal of the member called `name`, if one is declared. */
  function Ordinal(names: seq<string>, name: string): (r: Option<nat>)
    ensures r.Some? ==> r.value < |names| && names[r.value] == name
    ensures r.None? <==> name !in names
  {
    if |names| == 0 then None
    else if names[0] == name then Some(0)
    else
      match Ordinal(names[1..], name)
      case Some(i) => Some(i + 1)
      case None => None
  }

  /** With distinct names, parsing the name of member `i` gives back `i`. */
  lemma {:induction false} OrdinalOfName(names: seq<string>, i: nat)
    requires Distinct(names) && i < |names|
    ensures Ordinal(names, names[i]) == Some(i)
  {
    if i > 0 {
      assert names[0] != names[i];
      assert names[1..][i - 1] == names[i];
      assert Distinct(names[1..]) by {
        forall a, b | 0 <= a < b < |names[1..]| ensures names[1..][a] != names[1..][b] {
          assert names[1..][a] == names[a + 1] && names[1..][b] == names[b + 1];
        }
      }
      OrdinalOfName(names[1..], i - 1);
    }
  }

  /** AutoMapper can turn the create request into a player: names present and enum names declared. */
  predicate CreateMappable(dto: CreatePlayerDto, d: Domains)
  {
    && dto.name.Some?
    && dto.position.Some? && dto.position.value in d.positions
    && dto.foot.Some? && dto.foot.value in d.feet
  }

  /** `CreateMap<CreatePlayerDto, Player>()`: same-named fields copied; `Id` left at its default 0. */
  function ToPlayer(dto: CreatePlayerDto, d: Domains): (p: Player)
    requires CreateMappable(dto, d)
    ensures Fits(p, d)
    ensures p.id == 0
    ensures p.name == dto.name.value && p.number == dto.number && p.birthDate == dto.birthDate
    ensures p.height == dto.height && p.isInjured == dto.isInjured && p.teamId == dto.teamId
    ensures d.positions[p.position] == dto.position.value && d.feet[p.foot] == dto.foot.value
  {
    Player(0, dto.name.value, dto.number, Ordinal(d.positions, dto.position.value).value,
           Ordinal(d.feet, dto.foot.value).value, dto.birthDate, dto.height, dto.isInjured, dto.teamId)
  }

  /** Any enum name the update supplies is declared. */
  predicate UpdateMappable(dto: UpdatePlayerDto, d: Domains)
  {
    (dto.position.Some? ==> dto.position.value in d.positions)
    && (dto.foot.Some? ==> dto.foot.value in d.feet)
  }

  /** A create request that passes validation can be mapped to a player. */
  lemma ValidCreateIsMappable(dto: CreatePlayerDto, d: Domains, today: DateOnly)
    requires ValidCreatePlayer(dto, d, today)
    ensures CreateMappable(dto, d)
  {
  }

  /** An update passing either the written or the sparse check can be merged. */
  lemma ValidUpdateIsMappable(dto: UpdatePlayerDto, d: Domains, today: DateOnly)
    requires ValidUpdatePlayer(dto, d, today) || ValidSparseUpdate(dto, d, today)
    ensures UpdateMappable(dto, d)
  {
  }

  /**
   * `CreateMap<UpdatePlayerDto, Player>()` with the condition
   * `srcMember != null`: a supplied field overwrites the player's, an
   * omitted one leaves it. `UpdatePlayerDto` has no `Id`, `Name` or `TeamId`,
   * and `TeamName` matches no player member.
   */
  function Merge(dto: UpdatePlayerDto, p: Player, d: Domains): (r: Player)
    requires UpdateMappable(dto, d)
    ensures r.id == p.id && r.name == p.name && r.teamId == p.teamId
    ensures r.number == (if dto.number.Some? then dto.number.value else p.number)
    ensures dto.position.Some? ==> r.position < |d.positions| && d.positions[r.position] == dto.position.value
    ensures dto.position.None? ==> r.position == p.position
    ensures dto.foot.Some? ==> r.foot < |d.feet| && d.feet[r.foot] == dto.foot.value
    ensures dto.foot.None? ==> r.foot == p.foot
    ensures r.birthDate == (if dto.birthDate.Some? then dto.birthDate.value else p.birthDate)
    ensures r.height == (if dto.height.Some? then dto.height.value else p.height)
    ensures r.isInjured == (if dto.isInjured.Some? then dto.isInjured.value else p.isInjured)
  {
    p.(
      number := dto.number.GetOr(p.number),
      position := if dto.position.Some? then Ordinal(d.positions, dto.position.value).value else p.position,
      foot := if dto.foot.Some? then Ordinal(d.feet, dto.foot.value).value else p.foot,
      birthDate := dto.birthDate.GetOr(p.birthDate),
      height := dto.height.GetOr(p.height),
      isInjured := dto.isInjured.GetOr(p.isInjured))
  }

  /** An update that supplies nothing. */
  const EmptyUpdate := UpdatePlayerDto(None, None, None, None, None, None, None)

  /** Merging an update whose fields are all null leaves the player as it was. */
  lemma MergeNothing(p: Player, d: Domains, teamName: Option<string>)
    ensures Merge(EmptyUpdate.(teamName := teamName), p, d) == p
  {
  }

  /** Merging the same update twice is the same as merging it once. */
  lemma MergeIdempotent(dto: UpdatePlayerDto, p: Player, d: Domains)
    requires UpdateMappable(dto, d)
    ensures Merge(dto, Merge(dto, p, d), d) == Merge(dto, p, d)
  {
  }

  /** Updating only the number changes the number and nothing else. */
  lemma MergeNumberOnly(p: Player, d: Domains, n: Int32)
    ensures Merge(EmptyUpdate.(number := Some(n)), p, d) == p.(number := n)
  {
  }

  /** A player whose ordinals denote declared members still does after a merge. */
  lemma MergeFits(dto: UpdatePlayerDto, p: Player, d: Domains)
    requires UpdateMappable(dto, d) && Fits(p, d)
    ensures Fits(Merge(dto, p, d), d)
  {
  }

  /**
   * `CreateMap<Player, PlayerDto>()`: enum members rendered by name, and
   * `TeamName` read through the `Team` navigation property (`team`), null
   * when that property is null.
   */
  function ToPlayerDto(p: Player, team: Option<Team>, d: Domains): (r: PlayerDto)
    requires Fits(p, d)
    ensures r.id == p.id && r.name == p.name && r.number == p.number && r.birthDate == p.birthDate
    ensures r.height == p.height && r.isInjured == p.isInjured
    ensures r.position in d.positions && r.foot in d.feet
    ensures r.position == d.positions[p.position] && r.foot == d.feet[p.foot]
    ensures r.teamName.Some? <==> team.Some?
    ensures team.Some? ==> r.teamName.value == team.value.name
  {
    PlayerDto(p.id, p.name, p.number, d.positions[p.position], d.feet[p.foot], p.birthDate, p.height,
              p.isInjured, if team.Some? then Some(team.value.name) else None)
  }

  /** The names a response shows parse back to the stored ordinals. */
  lemma RenderedNamesParseBack(p: Player, team: Option<Team>, d: Domains)
    requires WellFormed(d) && Fits(p, d)
    ensures Ordinal(d.positions, ToPlayerDto(p, team, d).position) == Some(p.position)
    ensures Ordinal(d.feet, ToPlayerDto(p, team, d).foot) == Some(p.foot)
  {
    OrdinalOfName(d.positions, p.position);
    OrdinalOfName(d.feet, p.foot);
  }

  /** A created player, once stored under `id`, reads back with exactly the request's fields. */
  lemma CreateThenRead(dto: CreatePlayerDto, d: Domains, id: Int32, team: Team)
    requires CreateMappable(dto, d)
    ensures ToPlayerDto(ToPlayer(dto, d).(id := id), Some(team), d)
         == PlayerDto(id, dto.name.value, dto.number, dto.position.value, dto.foot.value, dto.birthDate,
                      dto.height, dto.isInjured, Some(team.name))
  {
  }
}
