/**
 * `Models/Player.cs` and `Models/Team.cs`: the stored records, and the enum
 * name lists the `Position` and `Foot` columns refer to.
 */
module Models {
  import opened Base
  import opened Dates

  /**
   * A team row. The `Players` navigation collection is not stored: it is the
   * set of players whose `teamId` is this `id`.
   */
  datatype Team = Team(id: Int32, name: string, country: string, city: string, stadium: string)

  /** A player row. `position` and `foot` are the enum ordinals the database stores. */
  datatype Player = Player(
    id: Int32,
    name: string,
    number: Int32,
    position: nat,
    foot: nat,
    birthDate: DateOnly,
    height: Int32,
    isInjured: bool,
    teamId: Int32)

  /** The declared names of the `Position` and `Foot` enums, in declaration (ordinal) order. */
  datatype Domains = Domains(positions: seq<string>, feet: seq<string>)

  predicate Distinct(names: seq<string>)
  {
    forall i, j :: 0 <= i < j < |names| ==> names[i] != names[j]
  }

  /** C# enum names are distinct identifiers. */
  predicate WellFormed(d: Domains)
  {
    Distinct(d.positions) && Distinct(d.feet)
  }

  /** The player's ordinals denote declared enum members. */
  predicate Fits(p: Player, d: Domains)
  {
    p.position < |d.positions| && p.foot < |d.feet|
  }
}
