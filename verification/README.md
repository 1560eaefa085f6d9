# BeyondSports rule layer in Dafny

This project models the rule layer of the BeyondSports backend. The layer sits between the HTTP controllers and the database. It covers:

- **Request validators.** These are the `[EnumValidation]`, `[ValidAge]` and `[ValidateTeamProperties]` attributes. They combine with the built-in `[Required]`, `[StringLength]` and `[Range]` into one validity predicate per request record: `CreatePlayerDto`, `UpdatePlayerDto` and `CreateTeamDto`.
- **Repositories.** `PlayerRepository` and `TeamRepository` work over tables held as immutable sequences of `Player` and `Team` rows. They provide lookup by id and by exact name, the two existence queries, the max + 1 player id rule, and delete-if-present.
- **Services.** `PlayerService` adds, updates and deletes players; `TeamService` creates and deletes teams. Each operation is a pure function that takes the tables and returns a `Step`: the reply (`Ok(value)` or `Fail(message)`) together with the table it leaves behind.
- **AutoMapper rules.** `MappingProfile` is written out: create request → player, sparse update merge, and player → response.

Some parts of the environment become parameters:

- the clock (`DateTime.Today`) becomes `today`;
- `Environment.NewLine` becomes `newLine`;
- the id the database gives a new team becomes `newId`, required to be fresh;
- the `Position` and `Foot` enum declarations are not part of this model, so their name lists form a `Domains` value.

Players store enum values as ordinals into the declared name lists. Entity Framework stores an enum's underlying value; that these values are the declaration ordinals (C#'s default when no member sets a value) is an assumption of the model, since the enum declarations are not part of it (see "## Left out"). A C# `int` is the subset type `Int32`, and the `maxId + 1` allocation wraps from `int.MaxValue` to `int.MinValue` as unchecked C# arithmetic does.

Files, in dependency order:

- `base.dfy`: nullable values, `Int32`, replies.
- `seqs.dfy`: `FirstOrDefault`/`Any`/filter as verified scans.
- `text.dfy`: `string.Join`, `int.ToString()`, `char.IsWhiteSpace`.
- `dates.dfy`: `DateOnly` and `AddYears`.
- `annotations.dfy`: the built-in attributes.
- `validators.dfy`: the three custom attributes.
- `models.dfy`.
- `dtos.dfy`.
- `mapping.dfy`.
- `player_repository.dfy`.
- `team_repository.dfy`.
- `player_service.dfy`.
- `team_service.dfy`.
- `scenario.dfy`: the seeded database and concrete runs.

Two behaviours of the code are worth stating plainly:

- **Player ids can be reused.** `AddPlayerAsync` allocates max + 1, so when the player with the largest id is deleted and the id just below it is still stored, the next player added gets the deleted id again (`PlayerService.DeletedNewestIdReused`).
- **Team ids come from the database.** `CreateTeamAsync` leaves the id to the database, so the model takes a fresh `newId`.

## Model

| member | source | states |
|---|---|---|
| EnumValidation.IsValid | BeyondSports/Validation/EnumValidationAttribute.cs:14-21 | succeeds exactly when the value is one of the declared names; on failure the message is "Invalid value for {field}. Allowed values are: " and the names joined with ", " |
| EnumValidation.ErrorMessageListsEveryName | BeyondSports/Validation/EnumValidationAttribute.cs:18 | a failure message contains the field's display name and every declared name |
| EnumValidation.MatchIsCaseSensitive | BeyondSports/Validation/EnumValidationAttribute.cs:16 | "Forward" is accepted and "forward" is rejected |
| Dates.AddYears | BeyondSports/Validation/ValidAgeAttribute.cs:28 | `AddYears` keeps month and day and moves the year; 29 February becomes 28 February only when the target year is not a leap year |
| ValidAge.AgeIsYearsElapsed | BeyondSports/Validation/ValidAgeAttribute.cs:25-28 | the attribute's age (year difference, minus one when the birth date is after today moved back by that many years) equals the completed years: year difference minus one if today's (month, day) is before the birthday's, 29 February included |
| ValidAge.AgeNonNegativeIffBorn | BeyondSports/Validation/ValidAgeAttribute.cs:26-28 | the computed age is non-negative exactly when the birth date is not after today |
| ValidAge.NewYearBirthday | BeyondSports/Validation/ValidAgeAttribute.cs:26-28 | someone born on 1 January 2000 is `year - 2000` on every day of that year |
| ValidAge.IsValid | BeyondSports/Validation/ValidAgeAttribute.cs:16-36 | null fails with "BirthDate is required."; a non-date value passes; a date passes exactly when min ≤ completed years ≤ max (both bounds inclusive), and otherwise fails with the range message |
| TeamProperties.Errors | BeyondSports/Validation/ValidateTeamProperties.cs:30-48 | exactly one message per field outside its allow-list, in the order country, city, stadium, each being that field's message |
| TeamProperties.IsValid | BeyondSports/Validation/ValidateTeamProperties.cs:27-56 | succeeds exactly when country, city and stadium each belong to their own list; otherwise the message is all field messages joined by the newline |
| TeamProperties.ErrorsQuoteValueAndList | BeyondSports/Validation/ValidateTeamProperties.cs:32-48 | each field message contains the rejected value and the whole allow-list joined with ", " |
| TeamProperties.NoCrossFieldCheck | BeyondSports/Validation/ValidateTeamProperties.cs:23-25 | the lists are checked independently: Spain, Enschede and Wembley together pass |
| Dtos.ValidCreatePlayerFields | BeyondSports/DTO/CreatePlayerDto.cs:9-28 | a create request is valid exactly when the name is present, not blank and 2..50 long, the number is 1..99, position and foot are declared names, the age is 16..50, and the height is 120..240 |
| Dtos.CreatePlayerIgnoresInjuryAndTeam | BeyondSports/DTO/CreatePlayerDto.cs:30-33 | validity does not depend on `IsInjured` or on `TeamId` |
| Dtos.ValidUpdatePlayerFields | BeyondSports/DTOs/UpdatePlayerDto.cs:9-22 | an update is valid exactly when a supplied number is 1..99 and a supplied height 120..240, and position, foot and birth date are all supplied and valid |
| Dtos.UpdatePlayerIgnoresInjuryAndTeamName | BeyondSports/DTOs/UpdatePlayerDto.cs:24-25 | validity does not depend on `IsInjured` or `TeamName` |
| Dtos.WrittenUpdateNeedsThreeFields | BeyondSports/DTOs/UpdatePlayerDto.cs:12-19 | an update that omits position, foot or birth date never validates, so an update of the number alone is refused |
| Dtos.SparseUpdateExtendsWritten | BeyondSports/DTOs/UpdatePlayerDto.cs:9-25 | the intended sparse check accepts everything the written one accepts and agrees with it when the three fields are present; it accepts a lone number exactly when it is in 1..99 |
| Dtos.ValidCreateTeamFields | BeyondSports/DTO/CreateTeamDto.cs:6-17 | a team request is valid exactly when the name is present, not blank and 2..50 long, and country, city and stadium are present, not blank and on their lists; name uniqueness is not a condition |
| Mapping.Ordinal | BeyondSports/MappingProfile/MappingProfile.cs:15 | a name parses to an ordinal exactly when it is declared, and the ordinal denotes that name |
| Mapping.OrdinalOfName | BeyondSports/MappingProfile/MappingProfile.cs:13-15 | with distinct enum names, the name of member i parses back to i |
| Mapping.ToPlayer | BeyondSports/MappingProfile/MappingProfile.cs:15 | the same-named fields are copied, the id is left at 0, and the stored ordinals denote the requested names |
| Mapping.ValidCreateIsMappable | BeyondSports/DTO/CreatePlayerDto.cs:9-22 | a create request that passes validation has a name and declared position and foot names, so it can be mapped |
| Mapping.ValidUpdateIsMappable | BeyondSports/DTOs/UpdatePlayerDto.cs:12-16 | an update passing the written or the sparse check names only declared enum members, so it can be merged |
| Mapping.Merge | BeyondSports/MappingProfile/MappingProfile.cs:16-17 | each supplied field overwrites the player's, each omitted field keeps it, and id, name and team id never change |
| Mapping.MergeNothing | BeyondSports/MappingProfile/MappingProfile.cs:16-17 | an update whose fields are all null leaves the player as it was |
| Mapping.MergeIdempotent | BeyondSports/MappingProfile/MappingProfile.cs:16-17 | merging the same update twice equals merging it once |
| Mapping.MergeNumberOnly | BeyondSports/MappingProfile/MappingProfile.cs:16-17 | updating only the number changes the number and nothing else |
| Mapping.MergeFits | BeyondSports/MappingProfile/MappingProfile.cs:16-17 | a merged player's ordinals still denote declared enum members |
| Mapping.ToPlayerDto | BeyondSports/MappingProfile/MappingProfile.cs:11-14 | the response copies the player's fields and shows position and foot as the declared names its ordinals denote; it has a team name exactly when the team is present, and that name is the team's |
| Mapping.RenderedNamesParseBack | BeyondSports/MappingProfile/MappingProfile.cs:13-14 | the names a response shows parse back to the stored ordinals |
| Mapping.CreateThenRead | BeyondSports/MappingProfile/MappingProfile.cs:11-15 | a created player, stored under an id, reads back with exactly the request's fields and its team's name |
| PlayerRepository.GetPlayerById | BeyondSports/Data/PlayerRepository.cs:34 | null exactly when no row has the id; otherwise a stored row with that id |
| PlayerRepository.GetPlayerByIdFindsRow | BeyondSports/Data/PlayerRepository.cs:34 | with unique ids, looking up a stored row's id gives that row |
| PlayerRepository.PlayerExistsInTeam | BeyondSports/Data/PlayerRepository.cs:95-96 | true exactly when some row matches the name, team and birth date exactly |
| PlayerRepository.PlayerNumberExistsInTeam | BeyondSports/Data/PlayerRepository.cs:109-110 | true exactly when some row of that team wears that number |
| PlayerRepository.MaxId | BeyondSports/Data/PlayerRepository.cs:47 | 0 for an empty table, otherwise an id in the table that no row's id exceeds |
| PlayerRepository.NextPlayerId | BeyondSports/Data/PlayerRepository.cs:47-48 | 1 for an empty table; below the int ceiling, larger than every stored id and one more than a stored id; at the ceiling it wraps to int.MinValue |
| PlayerRepository.AddPlayer | BeyondSports/Data/PlayerRepository.cs:47-50 | exactly one row is appended: the given player under the id max + 1 (1 for an empty table), which below the ceiling no row had; the other rows are unchanged |
| PlayerRepository.AddPlayerKeepsIdsUnique | BeyondSports/Data/PlayerRepository.cs:47-50 | below the ceiling, adding keeps ids unique |
| PlayerRepository.UpdatePlayer | BeyondSports/Data/PlayerRepository.cs:63-64 | the row with the player's id is replaced by the player; every other row stays in place |
| PlayerRepository.UpdateThenGet | BeyondSports/Data/PlayerRepository.cs:63-64 | after an update, looking the id up gives the updated player |
| PlayerRepository.UpdateKeepsIdsUnique | BeyondSports/Data/PlayerRepository.cs:63-64 | an update keeps ids unique |
| PlayerRepository.DeletePlayer | BeyondSports/Data/PlayerRepository.cs:77-82 | the rows with the id are removed, every other row keeps its multiplicity, and an absent id changes nothing |
| PlayerRepository.DeleteKeepsConsistent | BeyondSports/Data/PlayerRepository.cs:77-82 | deleting keeps unique ids, unique (name, team, birth date) and unique (number, team) |
| TeamRepository.GetAllTeams | BeyondSports/Data/TeamRepository.cs:21 | every stored team, each as often as it is stored |
| TeamRepository.GetTeamById | BeyondSports/Data/TeamRepository.cs:34 | null exactly when no team has the id; otherwise a stored team with that id |
| TeamRepository.GetTeamByName | BeyondSports/Data/TeamRepository.cs:47 | null exactly when no team has exactly this name; otherwise a stored team with that name |
| TeamRepository.GetTeamByNameFindsRow | BeyondSports/Data/TeamRepository.cs:47 | with unique names, looking up a stored team's name gives that team |
| TeamRepository.CreateTeam | BeyondSports/Data/TeamRepository.cs:60-61 | exactly one team is appended: the given one under exactly the id `newId` the database supplies, which is fresh; the others are unchanged |
| TeamRepository.CreateKeepsIdsUnique | BeyondSports/Data/TeamRepository.cs:60-61 | creating keeps team ids unique |
| TeamRepository.DeleteTeam | BeyondSports/Data/TeamRepository.cs:74-79 | the team with the id is removed, every other team keeps its multiplicity, and an absent id changes nothing |
| TeamRepository.DeleteKeepsUnique | BeyondSports/Data/TeamRepository.cs:74-79 | deleting keeps team ids and names unique |
| PlayerService.GetPlayer | BeyondSports/Services/PlayerService.cs:31-42 | null exactly when no player has the id; otherwise the response mapped from a stored player with that id and its team, so every field matches that player |
| PlayerService.AddPlayer | BeyondSports/Services/PlayerService.cs:44-74 | a missing team, then a duplicate (name, team, birth date), then a taken (number, team) each fail with their message, in that order; success exactly when none applies; a failure stores nothing; a success appends one row, the request under the next id, and returns it with its team's name |
| PlayerService.AddPlayerKeepsRosterAndNumbers | BeyondSports/Services/PlayerService.cs:54-73 | at any id, adding keeps (name, team, birth date) unique and (number, team) unique |
| PlayerService.AddPlayerKeepsConsistent | BeyondSports/Services/PlayerService.cs:54-73 | below the id ceiling, adding keeps unique ids, unique (name, team, birth date) and unique (number, team) |
| PlayerService.AddPlayerKeepsFits | BeyondSports/Services/PlayerService.cs:54-73 | after an add every stored player still denotes declared enum members, so `GetPlayer` stays callable |
| PlayerService.AddTwiceIsDuplicate | BeyondSports/Services/PlayerService.cs:54-59 | repeating a successful add is refused as a duplicate player |
| PlayerService.AddFailuresDistinct | BeyondSports/Services/PlayerService.cs:47-66 | the three refusals of an add never read the same |
| PlayerService.MessagesIdentifySubject | BeyondSports/Services/PlayerService.cs:51-111 | each id, number or team-name message determines the value it reports |
| PlayerService.UpdatePlayer | BeyondSports/Services/PlayerService.cs:76-102 | an unknown id fails with "Player with ID {id} not found."; a non-empty team name naming no team fails with "Team '{name}' not found."; both change nothing; otherwise only that player's row changes, to the merge of the update; the team id is the named team's if a name was given, and is kept otherwise |
| PlayerService.UpdateKeepsIdsUnique | BeyondSports/Services/PlayerService.cs:95-99 | an update keeps ids unique |
| PlayerService.UpdatePlayerKeepsFits | BeyondSports/Services/PlayerService.cs:76-99 | after an update every stored player still denotes declared enum members |
| PlayerService.UpdateCanDuplicateNumber | BeyondSports/Services/PlayerService.cs:76-102 | an update does not re-check numbers: giving a player a team-mate's number is accepted and breaks number uniqueness |
| PlayerService.DeletePlayer | BeyondSports/Services/PlayerService.cs:104-117 | an unknown id fails with "Player with Id {id} doesn't exist" and changes nothing; otherwise exactly the rows with that id are removed |
| PlayerService.DeletePlayerTwice | BeyondSports/Services/PlayerService.cs:107-112 | deleting again fails with the same message and changes nothing |
| PlayerService.DeletePlayerKeepsConsistent | BeyondSports/Services/PlayerService.cs:104-117 | deleting keeps every uniqueness invariant of the player table |
| PlayerService.DeletePlayerKeepsFits | BeyondSports/Services/PlayerService.cs:104-117 | after a delete every remaining player still denotes declared enum members |
| PlayerService.DeletedNewestIdReused | BeyondSports/Data/PlayerRepository.cs:47-48 | when the player with the largest id m is deleted and id m - 1 is still stored, the next player added gets m again |
| TeamService.ValidCreateIsMappable | BeyondSports/DTO/CreateTeamDto.cs:9-17 | a team request that passes validation has every field the mapping copies |
| TeamService.CreateTeam | BeyondSports/Services/TeamService.cs:41-57 | fails with "A team with this name already exists." exactly when some team has that exact name, storing nothing; otherwise appends exactly one team with the request's fields under the fresh id and returns it |
| TeamService.CreateTeamKeepsUnique | BeyondSports/Services/TeamService.cs:44-52 | creating keeps team ids and team names unique |
| TeamService.CreateTeamTwice | BeyondSports/Services/TeamService.cs:44-49 | repeating a successful create is refused whatever id the database would give |
| TeamService.DeleteTeam | BeyondSports/Services/TeamService.cs:59-72 | an unknown id fails with "Team not found." (which names no id) and changes nothing; otherwise exactly the team with that id is removed |
| TeamService.DeleteTeamTwice | BeyondSports/Services/TeamService.cs:62-71 | after a delete the team cannot be found, and deleting again fails the same way and changes nothing |
| TeamService.DeleteTeamKeepsUnique | BeyondSports/Services/TeamService.cs:69 | deleting keeps team ids and names unique |
| Scenario.SeedTeamsConsistent | BeyondSports/Data/ApplicationDbContext.cs:21-24 | the two seeded teams have distinct ids and names, and their country, city and stadium are on the allow-lists |
| Scenario.SeedPlayersConsistent | BeyondSports/Data/ApplicationDbContext.cs:26-36 | the eight seeded players have unique ids, unique (name, team, birth date) and unique (number, team), and each belongs to a seeded team |
| Scenario.SeedIsConsistent | BeyondSports/Data/ApplicationDbContext.cs:21-36 | the seeded rows satisfy every uniqueness invariant; each seeded player belongs to a seeded team; the seeded teams pass the team-property check |
| Scenario.SeedNextId | BeyondSports/Data/ApplicationDbContext.cs:27-36 | the largest seeded player id is 8, so the first player added gets id 9 |
| Scenario.SeededNameRefused | BeyondSports/Services/TeamService.cs:44-49 | a valid request named "Ajax Amsterdam" is refused because the seeded team has that name |
| Scenario.IdReusedAfterDeletingNewest | BeyondSports/Data/PlayerRepository.cs:47-48 | deleting seeded player 8 makes 8 the next id again |
| Scenario.TeamRequestsValid | BeyondSports/DTO/CreateTeamDto.cs:6-17 | the Ajax and Twente requests pass every attribute |
| Scenario.CreateTeamsRun | BeyondSports/Services/TeamService.cs:41-57 | on an empty table Ajax becomes team 1 and Twente team 2, and Ajax again is refused |
| Scenario.PlayerRequestsValid | BeyondSports/DTO/CreatePlayerDto.cs:9-28 | both player requests pass every attribute |
| Scenario.FirstPlayerStored | BeyondSports/Services/PlayerService.cs:68-73 | the first player added to Ajax is stored as id 1 and returned with team name "Ajax" |
| Scenario.AddPlayersRun | BeyondSports/Services/PlayerService.cs:54-66 | the same player again is a duplicate; another player with number 9 finds the number taken |
| Scenario.SameNumberOtherTeamRun | BeyondSports/Data/PlayerRepository.cs:109-110 | number 9 is still free in another team |
| Scenario.DeleteTeamRun | BeyondSports/Services/TeamService.cs:59-72 | deleting team 1 succeeds, the team is gone, and a second delete is refused |
| Scenario.UpdateMovesTeamRun | BeyondSports.Tests/Services/PlayerServiceTests.cs:240-258 | an update naming an existing team moves the player to that team's id and changes nothing else |
| Scenario.UpdateUnknownTeamRun | BeyondSports.Tests/Services/PlayerServiceTests.cs:222-238 | an update naming no team is refused with the name quoted, and the player is not modified |

## Left out

- The controllers: HTTP routes, status codes and the ModelState short-circuit. The services are modelled as called after validation.
- `Program.cs`: dependency injection, SQLite, Swagger and migrations.
- The database schema in `ApplicationDbContext.cs`. Its seed rows are used as a concrete starting state.
- Whether deleting a team cascades to its players. That is decided by Entity Framework conventions that are not visible. `TeamService.DeleteTeam` touches the team table only.
- Logging, `async`/`Task` plumbing, and the repositories' catch-log-rethrow of storage exceptions. Every operation is total, and storage faults are not modelled.
- Concurrency. The check-then-insert races on uniqueness and on max + 1 allocation need two interleaved requests, which a sequential model cannot show.
- `GetAllPlayersAsync`, `GetAllTeamsAsync` and `GetTeamByIdAsync` in the services. These only map rows to responses. The team response's `Players` list (`TeamDto`) is not modelled, and the team service returns the stored `Team`.
- Database collation. `GetTeamByNameAsync` compares names with C# string equality, exact and case-sensitive. A database collation that ignores case is outside the model.
- Mapping.Ordinal: AutoMapper's string-to-enum conversion ignores case and also accepts numerals. The model accepts only exact names. These are the only ones the validators let through.
- PlayerService.AddPlayer: at the id ceiling max + 1 wraps to `int.MinValue`. If that id is already stored, the source's `SaveChangesAsync` fails on the primary key, while the model returns `Ok` with a duplicate id. Storage faults are not modelled, so `PlayerService.AddPlayerKeepsConsistent` claims unique ids only below the ceiling.
- Mapping.Merge: the `Condition((src, dest, srcMember) => srcMember != null)` rules are modelled as a test on the nullable source value. Whether AutoMapper hands the condition that value or one already converted to the non-nullable destination type (`int`, `bool`, `DateOnly`) is library behaviour outside the model. Under the second reading an omitted number, height, injury flag or birth date would be overwritten with its default.
- Dates.AddYears: only called with results in years 1..9999. The `ArgumentOutOfRangeException` outside that range is not modelled.
- `DateOnly` ordering is compared field by field (year, month, day). That it agrees with .NET's day-number comparison is not proved.
- Dtos.ValidCreatePlayer: `[StringLength]` counts UTF-16 code units, while the model counts characters. They differ only for characters outside the Basic Multilingual Plane.
- `int.ToString()` is modelled for the invariant culture. Messages that other cultures would format differently are not modelled.
- `Environment.NewLine` is a parameter of `TeamProperties.IsValid`, not a fixed value.
- The `Position` and `Foot` enum declarations are not part of this model. Their underlying values are assumed to be the declaration ordinals, as C# assigns by default. `Scenario` assumes the member orders Forward, Midfielder, Defender, Goalkeeper and Left, Right, Both.

## Findings

| source | as written | input that shows it | evidently intended | confidence | as-written member | corrected member |
|---|---|---|---|---|---|---|
| BeyondSports/DTOs/UpdatePlayerDto.cs:12-19 | `[ValidAge]` rejects a null `BirthDate` and `[EnumValidation]` hands a null `Position` or `Foot` to `Enum.IsDefined`, which throws; so every update must supply all three | `{ "number": 9 }`, or `{ "teamName": "NewTeam" }` as in the update tests | a sparse update: an omitted field passes and is left unchanged by the merge; this also needs `Foot` declared `string?`, since a non-nullable `string Foot` is implicitly required when nullable reference types are on | high, not executed | Dtos.WrittenUpdateNeedsThreeFields | Dtos.SparseUpdateExtendsWritten |
