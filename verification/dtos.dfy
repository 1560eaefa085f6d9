/**
 * The request and response records (`DTO/CreatePlayerDto.cs`,
 * `DTOs/UpdatePlayerDto.cs`, `DTO/CreateTeamDto.cs`, `DTOs/PlayerDto.cs`) and
 * the validity their attributes give them. A string that may be null in C#
 * is an `Option<string>`.
 */
module Dtos {
  import opened Base
  import opened Text
  import opened Dates
  import opened Annotations
  import opened Models
  import EnumValidation
  import ValidAge
  import TeamProperties

  datatype CreatePlayerDto = CreatePlayerDto(
    name: Option<string>,
    number: Int32,
    position: Option<string>,
    foot: Option<string>,
    birthDate: DateOnly,
    height: Int32,
    isInjured: bool,
    teamId: Int32)

  /** A partial update: every field may be omitted (null). */
  datatype UpdatePlayerDto = UpdatePlayerDto(
    number: Option<Int32>,
    position: Option<string>,
    foot: Option<string>,
    birthDate: Option<DateOnly>,
    height: Option<Int32>,
    isInjured: Option<bool>,
    teamName: Option<string>)

  datatype CreateTeamDto = CreateTeamDto(
    name: Option<string>,
    country: Option<string>,
    city: Option<string>,
    stadium: Option<string>)

  /** The player as the API returns it: enum members by name, the team by its name. */
  datatype PlayerDto = PlayerDto(
    id: Int32,
    name: string,
    number: Int32,
    position: string,
    foot: string,
    birthDate: DateOnly,
    height: Int32,
    isInjured: bool,
    teamName: Option<string>)

  const MinAge := 16
  const MaxAge := 50

  /** A string field carrying `[Required]` and `[EnumValidation]`. */
  predicate RequiredEnum(v: Option<string>, names: seq<string>, displayName: string)
  {
    Required(v) && EnumValidation.IsValid(names, v.value, displayName).Success?
  }

  /** Every attribute on `CreatePlayerDto` passes, with the clock read as `today`. */
  predicate ValidCreatePlayer(dto: CreatePlayerDto, d: Domains, today: DateOnly)
  {
    && Required(dto.name) && StringLength(dto.name, 2, 50)
    && InRange(Some(dto.number), 1, 99)
    && RequiredEnum(dto.position, d.positions, "Position")
    && RequiredEnum(dto.foot, d.feet, "Foot")
    && ValidAge.IsValid(ValidAge.DateValue(dto.birthDate), MinAge, MaxAge, today).Success?
    && InRange(Some(dto.height), 120, 240)
  }

  /**
   * Every attribute on `UpdatePlayerDto` passes. `[EnumValidation]` hands a
   * null Position or Foot to `Enum.IsDefined`, which throws, and `[ValidAge]`
   * rejects a null BirthDate, so none of the three can be omitted.
   */
  predicate ValidUpdatePlayer(dto: UpdatePlayerDto, d: Domains, today: DateOnly)
  {
    && InRange(if dto.number.Some? then Some(dto.number.value as int) else None, 1, 99)
    && dto.position.Some? && EnumValidation.IsValid(d.positions, dto.position.value, "Position").Success?
    && dto.foot.Some? && EnumValidation.IsValid(d.feet, dto.foot.value, "Foot").Success?
    && ValidAge.IsValid(
         if dto.birthDate.Some? then ValidAge.DateValue(dto.birthDate.value) else ValidAge.Null,
         MinAge, MaxAge, today).Success?
    && InRange(if dto.height.Some? then Some(dto.height.value as int) else None, 120, 240)
  }

  /**
   * Every attribute on `CreateTeamDto` passes. The class-level team-property
   * check runs only once the field checks pass, so it sees non-null values.
   */
  predicate ValidCreateTeam(dto: CreateTeamDto)
  {
    && Required(dto.name) && StringLength(dto.name, 2, 50)
    && Required(dto.country) && Required(dto.city) && Required(dto.stadium)
    && TeamProperties.Errors(dto.country.value, dto.city.value, dto.stadium.value) == []
  }

  /** What a valid create request amounts to, field by field. */
  lemma ValidCreatePlayerFields(dto: CreatePlayerDto, d: Domains, today: DateOnly)
    ensures ValidCreatePlayer(dto, d, today) <==>
      && dto.name.Some? && !IsBlank(dto.name.value) && 2 <= |dto.name.value| <= 50
      && 1 <= dto.number <= 99
      && dto.position.Some? && !IsBlank(dto.position.value) && dto.position.value in d.positions
      && dto.foot.Some? && !IsBlank(dto.foot.value) && dto.foot.value in d.feet
      && MinAge <= YearsElapsed(dto.birthDate, today) <= MaxAge
      && 120 <= dto.height <= 240
  {
  }

  /** `IsInjured` is unconstrained and `TeamId` only has to be present, which an `int` always is. */
  lemma CreatePlayerIgnoresInjuryAndTeam(dto: CreatePlayerDto, d: Domains, today: DateOnly, injured: bool, teamId: Int32)
    ensures ValidCreatePlayer(dto, d, today) == ValidCreatePlayer(dto.(isInjured := injured, teamId := teamId), d, today)
  {
  }

  /** What a valid update request amounts to; Position, Foot and BirthDate cannot be left out. */
  lemma ValidUpdatePlayerFields(dto: UpdatePlayerDto, d: Domains, today: DateOnly)
    ensures ValidUpdatePlayer(dto, d, today) <==>
      && (dto.number.Some? ==> 1 <= dto.number.value <= 99)
      && dto.position.Some? && dto.position.value in d.positions
      && dto.foot.Some? && dto.foot.value in d.feet
      && dto.birthDate.Some? && MinAge <= YearsElapsed(dto.birthDate.value, today) <= MaxAge
      && (dto.height.Some? ==> 120 <= dto.height.value <= 240)
  {
  }

  /** `IsInjured` and `TeamName` are unconstrained. */
  lemma UpdatePlayerIgnoresInjuryAndTeamName(dto: UpdatePlayerDto, d: Domains, today: DateOnly,
                                             injured: Option<bool>, teamName: Option<string>)
    ensures ValidUpdatePlayer(dto, d, today) == ValidUpdatePlayer(dto.(isInjured := injured, teamName := teamName), d, today)
  {
  }

  /**
   * The update attributes as a sparse update evidently intends them: a
   * field that is left out passes, a supplied field is checked as written.
   */
  predicate ValidSparseUpdate(dto: UpdatePlayerDto, d: Domains, today: DateOnly)
  {
    && InRange(if dto.number.Some? then Some(dto.number.value as int) else None, 1, 99)
    && (dto.position.Some? ==> EnumValidation.IsValid(d.positions, dto.position.value, "Position").Success?)
    && (dto.foot.Some? ==> EnumValidation.IsValid(d.feet, dto.foot.value, "Foot").Success?)
    && (dto.birthDate.Some? ==> ValidAge.IsValid(ValidAge.DateValue(dto.birthDate.value), MinAge, MaxAge, today).Success?)
    && InRange(if dto.height.Some? then Some(dto.height.value as int) else None, 120, 240)
  }

  /**
   * As written, an update that leaves out the birth date, the position or
   * the foot never passes, so an update of the number alone is refused.
   */
  lemma WrittenUpdateNeedsThreeFields(dto: UpdatePlayerDto, d: Domains, today: DateOnly)
    requires dto.position.None? || dto.foot.None? || dto.birthDate.None?
    ensures !ValidUpdatePlayer(dto, d, today)
    ensures !ValidUpdatePlayer(UpdatePlayerDto(Some(9), None, None, None, None, None, None), d, today)
  {
  }

  /**
   * The intended check accepts every update the written one accepts, agrees
   * with it once the three fields are supplied, and accepts any valid number
   * on its own.
   */
  lemma SparseUpdateExtendsWritten(dto: UpdatePlayerDto, d: Domains, today: DateOnly, n: Int32)
    ensures ValidUpdatePlayer(dto, d, today) ==> ValidSparseUpdate(dto, d, today)
    ensures dto.position.Some? && dto.foot.Some? && dto.birthDate.Some? ==>
              (ValidSparseUpdate(dto, d, today) <==> ValidUpdatePlayer(dto, d, today))
    ensures ValidSparseUpdate(UpdatePlayerDto(Some(n), None, None, None, None, None, None), d, today) <==> 1 <= n <= 99
  {
  }

  /** What a valid team request amounts to; name uniqueness is not among the conditions. */
  lemma ValidCreateTeamFields(dto: CreateTeamDto)
    ensures ValidCreateTeam(dto) <==>
      && dto.name.Some? && !IsBlank(dto.name.value) && 2 <= |dto.name.value| <= 50
      && dto.country.Some? && dto.country.value in TeamProperties.ValidCountries
      && dto.city.Some? && dto.city.value in TeamProperties.ValidCities
      && dto.stadium.Some? && dto.stadium.value in TeamProperties.ValidStadiums
      && !IsBlank(dto.country.value) && !IsBlank(dto.city.value) && !IsBlank(dto.stadium.value)
  {
  }
}
