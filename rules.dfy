/** The validation rules of the registration form's fields: the `required`
    rule that every field carries, and the birth-date field's minimum-age
    rule and stored value (src/enteties/UserForm/ui/BirthDatePicker.tsx).
    The clock is a parameter: `today` is the date at validation time. */
module Rules {
  import opened Roster
  import opened Calendar

  const RequiredMessage := "Обязательное поле"
  const AgeMessage := "Возраст должен быть не менее 18 лет"
  const MinimumAge := 18

  /** A field value that JavaScript treats as false: `null` or `""`. */
  predicate IsFalsy(value: Option<string>)
  {
    value == None || value == Some("")
  }

  /** The `required` rule: a falsy value fails with the required message. */
  function Required(value: Option<string>): (r: Option<string>)
    ensures r == None <==> !IsFalsy(value)
    ensures r != None ==> r == Some(RequiredMessage)
  {
    if IsFalsy(value) then Some(RequiredMessage) else None
  }

  /** The custom `validate` rule: a falsy value is left to `required`; any
      other value passes when the whole-years age it names is at least 18.
      A string that names no date fails, as an invalid date's age is NaN. */
  function AgeCheck(value: Option<string>, today: Date): (r: Option<string>)
    requires ValidDate(today)
    ensures IsFalsy(value) ==> r == None
    ensures r != None ==> r == Some(AgeMessage)
  {
    if IsFalsy(value) then None
    else match ParseIso(value.value)
      case None => Some(AgeMessage)
      case Some(birth) => if AgeYears(birth, today) >= MinimumAge then None else Some(AgeMessage)
  }

  /** Both rules in the order they run: `required` first, then `validate`. */
  function BirthDateRule(value: Option<string>, today: Date): (r: Option<string>)
    requires ValidDate(today)
    ensures IsFalsy(value) ==> r == Some(RequiredMessage)
    ensures r == None <==>
              && !IsFalsy(value)
              && ParseIso(value.value).Some?
              && AgeYears(ParseIso(value.value).value, today) >= MinimumAge
  {
    var req := Required(value);
    if req != None then req else AgeCheck(value, today)
  }

  /** What the date picker hands over on change: nothing (cleared), a
      date value that names no day (typing is incomplete or impossible), or
      a day. */
  datatype PickerInput = Cleared | Unfinished | Picked(date: Date)

  /** The text an invalid date value formats to. */
  const InvalidDateText := "Invalid Date"

  /** The value the date picker stores on change: null when cleared, the
      picked day as `YYYY-MM-DD` (which always reads back as that day), and
      for an invalid date value the text its formatting produces. */
  function PickerValue(input: PickerInput): (r: Option<string>)
    requires input.Picked? ==> ValidDate(input.date) && 0 <= input.date.year <= 9999
    ensures r == None <==> input == Cleared
    ensures input.Picked? ==> r.Some? && IsoShaped(r.value) && ParseIso(r.value) == Some(input.date)
    ensures input == Unfinished ==> r == Some(InvalidDateText)
  {
    match input
    case Cleared => None
    case Unfinished => Some(InvalidDateText)
    case Picked(d) => ParseFormat(d); Some(FormatIso(d))
  }

  /** Whatever the picker hands over, the birth-date rules decide as the
      source does: cleared fails as required, an invalid value fails with
      the age message, a picked day passes exactly when the person is at
      least 18 whole years old today and otherwise fails with the age
      message. */
  lemma PickedDateRule(input: PickerInput, today: Date)
    requires input.Picked? ==> ValidDate(input.date) && 0 <= input.date.year <= 9999
    requires ValidDate(today)
    ensures input == Cleared ==> BirthDateRule(PickerValue(input), today) == Some(RequiredMessage)
    ensures input == Unfinished ==> BirthDateRule(PickerValue(input), today) == Some(AgeMessage)
    ensures input.Picked? ==>
              (BirthDateRule(PickerValue(input), today) == None <==> AgeYears(input.date, today) >= 18)
    ensures input.Picked? ==>
              (BirthDateRule(PickerValue(input), today) == Some(AgeMessage) <==> AgeYears(input.date, today) < 18)
  {
    if input == Unfinished {
      assert !IsoShaped(InvalidDateText);
    }
  }

  /** The age boundary is inclusive: on the 18th anniversary of the birth
      date the rules pass, on the day before they fail. */
  lemma EighteenthBirthdayBoundary(birth: Date)
    requires ValidDate(birth) && 0 <= birth.year <= 9999
    ensures BirthDateRule(Some(FormatIso(birth)), Anniversary(birth, 18)) == None
    ensures BirthDateRule(Some(FormatIso(birth)), PrevDay(Anniversary(birth, 18))) == Some(AgeMessage)
  {
    ParseFormat(birth);
    AgeOnAnniversary(birth, 18);
    AgeOnDayBeforeAnniversary(birth, 18);
  }

  /** A birth date that passes today passes on every later day. */
  lemma PassingStaysPassing(value: Option<string>, today: Date, later: Date)
    requires ValidDate(today) && ValidDate(later) && !Before(later, today)
    requires BirthDateRule(value, today) == None
    ensures BirthDateRule(value, later) == None
  {
    AgeMonotonic(ParseIso(value.value).value, today, later);
  }
}
