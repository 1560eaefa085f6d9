/**
 * `Validation/EnumValidationAttribute.cs`: a string field must spell one of
 * an enum's declared names.
 */
module EnumValidation {
  import opened Text
  import opened Annotations

  function ErrorMessage(displayName: string, names: seq<string>): string
  {
    "Invalid value for " + displayName + ". Allowed values are: " + Join(", ", names)
  }

  /**
   * `IsValid(value, context)` for an enum whose declared names are `names`.
   * The value is non-null here: a null value reaches `Enum.IsDefined`, which
   * throws instead of producing a result.
   */
  function IsValid(names: seq<string>, value: string, displayName: string): (r: ValidationResult)
    ensures r.Success? <==> exists i :: 0 <= i < |names| && names[i] == value
    ensures r.Error? ==> r.message == ErrorMessage(displayName, names)
  {
    if value in names then Success else Error(ErrorMessage(displayName, names))
  }

  /** The failure message names the field and lists every allowed name. */
  lemma ErrorMessageListsEveryName(names: seq<string>, value: string, displayName: string, i: int)
    requires 0 <= i < |names|
    requires IsValid(names, value, displayName).Error?
    ensures Contains(IsValid(names, value, displayName).message, displayName)
    ensures Contains(IsValid(names, value, displayName).message, names[i])
  {
    var list := Join(", ", names);
    ContainsMiddle("Invalid value for ", displayName, ". Allowed values are: " + list);
    assert "Invalid value for " + displayName + (". Allowed values are: " + list)
        == ErrorMessage(displayName, names);
    JoinContainsPart(", ", names, i);
    var k :| 0 <= k <= |list| && ContainsAt(list, names[i], k);
    var prefix := "Invalid value for " + displayName + ". Allowed values are: ";
    assert ErrorMessage(displayName, names) == prefix + list;
    assert (prefix + list)[|prefix| + k..|prefix| + k + |names[i]|] == list[k..k + |names[i]|];
    assert ContainsAt(ErrorMessage(displayName, names), names[i], |prefix| + k);
  }

  /** Names are matched exactly: a different letter case is rejected. */
  lemma MatchIsCaseSensitive()
    ensures IsValid(["Forward", "Midfielder", "Defender", "Goalkeeper"], "Forward", "Position").Success?
    ensures IsValid(["Forward", "Midfielder", "Defender", "Goalkeeper"], "forward", "Position").Error?
  {
    var names := ["Forward", "Midfielder", "Defender", "Goalkeeper"];
    assert names[0] == "Forward";
    assert forall i :: 0 <= i < |names| ==> names[i][0] != 'f';
  }
}

/**
 * `Validation/ValidAgeAttribute.cs`: a birth date must give an age within an
 * inclusive range on the day the request is validated.
 */
module ValidAge {
  import opened Dates
  import opened Text
  import opened Annotations

  /** What the attribute is handed: null, a `DateOnly`, or an object of some other type. */
  datatype Value = Null | DateValue(date: DateOnly) | OtherValue

  const RequiredMessage: string := "BirthDate is required."

  function RangeMessage(minAge: int, maxAge: int): string
  {
    "The player's age must be between " + IntToString(minAge) + " and " + IntToString(maxAge) + " years."
  }

  /**
   * The attribute's age: the difference of the years, less one when the
   * birth date lies after `today` moved back by that many years.
   */
  function Age(birth: DateOnly, today: DateOnly): int
  {
    var age := today.year - birth.year;
    if Before(AddYears(today, -age), birth) then age - 1 else age
  }

  /**
   * The `AddYears` formula counts completed years, 29 February included:
   * moving 29 February into a common year gives 28 February, and a birth
   * date in that common year cannot fall on 29 February.
   */
  lemma AgeIsYearsElapsed(birth: DateOnly, today: DateOnly)
    ensures Age(birth, today) == YearsElapsed(birth, today)
  {
    var anniversary := AddYears(today, -(today.year - birth.year));
    assert anniversary.year == birth.year;
    if anniversary.day != today.day {
      assert !IsLeapYear(birth.year);
      assert !(birth.month == 2 && birth.day == 29);
      assert Before(anniversary, birth) <==> MonthDayBefore(today, birth);
    }
  }

  /** The age is non-negative exactly when the birth date is not after `today`. */
  lemma AgeNonNegativeIffBorn(birth: DateOnly, today: DateOnly)
    ensures Age(birth, today) >= 0 <==> !Before(today, birth)
  {
    AgeIsYearsElapsed(birth, today);
  }

  /** Someone born on 1 January of year 2000 is `Y - 2000` on every day of year `Y`. */
  lemma NewYearBirthday(today: DateOnly)
    ensures Age(Date(2000, 1, 1), today) == today.year - 2000
  {
    AgeIsYearsElapsed(Date(2000, 1, 1), today);
  }

  /** `IsValid(value, context)` with the clock read as `today`. */
  function IsValid(value: Value, minAge: int, maxAge: int, today: DateOnly): (r: ValidationResult)
    ensures value.Null? ==> r == Error(RequiredMessage)
    ensures value.OtherValue? ==> r == Success
    ensures value.DateValue? ==> (r.Success? <==> minAge <= YearsElapsed(value.date, today) <= maxAge)
    ensures value.DateValue? && r.Error? ==> r.message == RangeMessage(minAge, maxAge)
  {
    match value
    case Null => Error(RequiredMessage)
    case DateValue(birth) =>
      AgeIsYearsElapsed(birth, today);
      var age := Age(birth, today);
      if age < minAge || age > maxAge then Error(RangeMessage(minAge, maxAge)) else Success
    case OtherValue => Success
  }
}

/**
 * `Validation/ValidateTeamProperties.cs`: country, city and stadium must each
 * come from a fixed list; every failing field is reported, not only the first.
 */
module TeamProperties {
  import opened Text
  import opened Annotations

  const ValidCountries: seq<string> := ["United States", "Germany", "The Netherlands", "France", "Spain"]
  const ValidCities: seq<string> := ["Amsterdam", "Berlin", "Paris", "Madrid", "New York", "Enschede"]
  const ValidStadiums: seq<string> := ["Wembley", "De Grolsch Veste", "Johan Cruyff Arena", "Camp Nou"]

  function CountryError(country: string): string
  {
    "Invalid country '" + country + "'. Valid countries are: " + Join(", ", ValidCountries) + "."
  }

  function CityError(city: string): string
  {
    "Invalid city '" + city + "'. Valid cities are: " + Join(", ", ValidCities) + "."
  }

  function StadiumError(stadium: string): string
  {
    "Invalid stadium '" + stadium + "'. Valid stadiums are: " + Join(", ", ValidStadiums) + "."
  }

  function Failing(ok: bool): nat
  {
    if ok then 0 else 1
  }

  /**
   * The collected messages: one per field outside its list, in the order
   * country, city, stadium.
   */
  function Errors(country: string, city: string, stadium: string): (errs: seq<string>)
    ensures |errs| == Failing(country in ValidCountries) + Failing(city in ValidCities) + Failing(stadium in ValidStadiums)
    ensures country !in ValidCountries ==> errs[0] == CountryError(country)
    ensures city !in ValidCities ==> errs[Failing(country in ValidCountries)] == CityError(city)
    ensures stadium !in ValidStadiums ==> errs[|errs| - 1] == StadiumError(stadium)
  {
    (if country in ValidCountries then [] else [CountryError(country)])
    + (if city in ValidCities then [] else [CityError(city)])
    + (if stadium in ValidStadiums then [] else [StadiumError(stadium)])
  }

  /** `IsValid`: the messages joined by `newLine` (`Environment.NewLine`), or success when there are none. */
  function IsValid(country: string, city: string, stadium: string, newLine: string): (r: ValidationResult)
    ensures r.Success? <==> country in ValidCountries && city in ValidCities && stadium in ValidStadiums
    ensures r.Error? ==> r.message == Join(newLine, Errors(country, city, stadium))
  {
    var errs := Errors(country, city, stadium);
    if |errs| > 0 then Error(Join(newLine, errs)) else Success
  }

  /** Each message quotes the rejected value and the whole list it was checked against. */
  lemma ErrorsQuoteValueAndList(country: string, city: string, stadium: string)
    ensures Contains(CountryError(country), country)
    ensures Contains(CountryError(country), Join(", ", ValidCountries))
    ensures Contains(CityError(city), city)
    ensures Contains(CityError(city), Join(", ", ValidCities))
    ensures Contains(StadiumError(stadium), stadium)
    ensures Contains(StadiumError(stadium), Join(", ", ValidStadiums))
  {
    ContainsBoth("Invalid country '", country, "'. Valid countries are: ", Join(", ", ValidCountries), ".");
    ContainsBoth("Invalid city '", city, "'. Valid cities are: ", Join(", ", ValidCities), ".");
    ContainsBoth("Invalid stadium '", stadium, "'. Valid stadiums are: ", Join(", ", ValidStadiums), ".");
  }

  /** The three lists are checked independently: a country, city and stadium that do not belong together pass. */
  lemma NoCrossFieldCheck()
    ensures IsValid("Spain", "Enschede", "Wembley", "\n").Success?
  {
    assert ValidCountries[4] == "Spain";
    assert ValidCities[5] == "Enschede";
    assert ValidStadiums[0] == "Wembley";
  }
}
