/**
 * The month picker of the match form: a picked date is written as
 * `YYYY-MM`, and a `YYYY-MM` value from the form is read back into the
 * picker's selected date.
 */
module DateField {
  import opened Wrappers
  import opened Text

  /** A calendar month as the picker's `Date` exposes it: `getFullYear()` and `getMonth()` (0 to 11). */
  datatype Date = Date(year: nat, monthIndex: nat)

  predicate ValidDate(d: Date) {
    d.monthIndex < 12
  }

  /** What the picker shows: nothing, a month, or an invalid date. */
  datatype Selection = NoDate | Picked(date: Date) | InvalidDate

  /** A month number from 1 to 12 takes one or two digits. */
  lemma MonthDigits(k: nat)
    requires 1 <= k <= 12
    ensures |NatToString(k)| <= 2
  {
    if k >= 10 {
      assert NatToString(k) == NatToString(k / 10) + [DigitChar(k % 10)];
      assert |NatToString(k / 10)| == 1;
    }
  }

  /** `String(k).padStart(2, '0')`: the digits of `k`, two of them for a month number. */
  function MonthText(k: nat): (r: string)
    ensures AllDigits(r) && DigitsValue(r) == k
    ensures 1 <= k <= 12 ==> |r| == 2
  {
    NatToStringValue(k);
    PadStartZeroValue(NatToString(k), 2);
    if 1 <= k <= 12 then MonthDigits(k); PadStartZero(NatToString(k), 2)
    else PadStartZero(NatToString(k), 2)
  }

  /**
   * `${year}-${String(month + 1).padStart(2, '0')}`: its two parts read
   * back as the year and the month number.
   */
  function Format(d: Date): (r: string)
    ensures r != ""
    ensures ParseParts(r) == (Some(d.year), Some(d.monthIndex + 1))
  {
    var y, m := NatToString(d.year), MonthText(d.monthIndex + 1);
    ParseYearMonth(d.year, d.monthIndex + 1);
    assert |y + "-" + m| > 0;
    y + "-" + m
  }

  /** The pieces of `s == y + "-" + p`. */
  lemma JoinShape(s: string, y: string, p: string)
    requires s == y + "-" + p
    ensures |s| == |y| + 1 + |p| && s[..|y|] == y && s[|y|] == '-' && s[|y| + 1..] == p
  {
  }

  /** A formatted month is a year in digits, a dash and two digits for a month from 01 to 12. */
  lemma FormatShape(d: Date)
    requires ValidDate(d)
    ensures var s := Format(d); var y := NatToString(d.year);
      |s| == |y| + 3 && s[..|y|] == y && s[|y|] == '-'
      && AllDigits(s[|y| + 1..]) && DigitsValue(s[|y| + 1..]) == d.monthIndex + 1
      && 1 <= DigitsValue(s[|y| + 1..]) <= 12
  {
    var p := MonthText(d.monthIndex + 1);
    JoinShape(Format(d), NatToString(d.year), p);
  }

  /** `value.split('-').map(Number)`, destructured into `[year, month]`; `None` is NaN or a missing part. */
  function ParseParts(value: string): (r: (Option<nat>, Option<nat>)) {
    var parts := Split(value, '-');
    (NumberOf(parts[0]), if |parts| >= 2 then NumberOf(parts[1]) else None)
  }

  /**
   * `new Date(year, month - 1, 1, 12)`: a month outside 1..12 rolls over
   * into the neighbouring years, and a year from 0 to 99 means 1900 to 1999.
   */
  function SafeDate(year: nat, month: nat): (r: Date)
    ensures ValidDate(r)
  {
    var y := if year <= 99 then 1900 + year else year;
    var m := month - 1;
    Date(y + m / 12, m % 12)
  }

  /** The effect on `value`: an empty value leaves the selection alone; NaN parts give an invalid date. */
  function ReadValue(value: string, selected: Selection): Selection {
    if value == "" then selected
    else
      var (year, month) := ParseParts(value);
      if year.Some? && month.Some? then Picked(SafeDate(year.value, month.value)) else InvalidDate
  }

  /** The change handler: the new selection, and the formatted value it emits, if any. */
  function HandleChange(date: Option<Date>): (r: (Selection, Option<string>))
    ensures date.None? ==> r == (NoDate, None)
    ensures date.Some? ==> r.0 == Picked(date.value) && r.1 == Some(Format(date.value))
  {
    match date
    case None => (NoDate, None)
    case Some(d) => (Picked(d), Some(Format(d)))
  }

  /** A digit string holds no dash. */
  lemma NoDash(s: string)
    requires AllDigits(s)
    ensures '-' !in s
  {
    forall i | 0 <= i < |s|
      ensures s[i] != '-'
    {
      assert IsDigit(s[i]);
    }
  }

  /** Two digit strings joined by a dash split back into the two. */
  lemma SplitDigits(s: string, y: string, m: string)
    requires AllDigits(y) && AllDigits(m) && s == y + "-" + m
    ensures Split(s, '-') == [y, m]
  {
    NoDash(y);
    NoDash(m);
    SplitNoSeparator(m, '-');
    SplitAt(y, '-', m);
  }

  /** `new Date(year, month - 1, ...)` keeps a four-digit year and an in-range month as they are. */
  lemma SafeDateInRange(year: nat, month: nat)
    requires year >= 100 && 1 <= month <= 12
    ensures SafeDate(year, month) == Date(year, month - 1)
  {
  }

  /** Two digit strings joined by a dash parse back to their values. */
  lemma ParseJoined(s: string, y: string, m: string)
    requires AllDigits(y) && AllDigits(m) && s == y + "-" + m
    ensures ParseParts(s) == (Some(DigitsValue(y)), Some(DigitsValue(m)))
  {
    SplitDigits(s, y, m);
  }

  /** A year in digits, a dash and a month number in digits parse back to the year and the month number. */
  lemma ParseYearMonth(year: nat, month: nat)
    ensures ParseParts(NatToString(year) + "-" + MonthText(month)) == (Some(year), Some(month))
  {
    NatToStringValue(year);
    ParseJoined(NatToString(year) + "-" + MonthText(month), NatToString(year), MonthText(month));
  }

  /** A non-empty value whose two parts are numbers selects the date those numbers make. */
  lemma ReadParsed(value: string, selected: Selection, year: nat, month: nat)
    requires value != "" && ParseParts(value) == (Some(year), Some(month))
    ensures ReadValue(value, selected) == Picked(SafeDate(year, month))
  {
  }

  /**
   * Reading back what the handler wrote selects the same month again, for
   * any year from 100 on (years below 100 are read as 19xx).
   */
  lemma RoundTrip(d: Date, selected: Selection)
    requires ValidDate(d) && d.year >= 100
    ensures ReadValue(Format(d), selected) == Picked(d)
  {
    ReadParsed(Format(d), selected, d.year, d.monthIndex + 1);
    SafeDateInRange(d.year, d.monthIndex + 1);
  }

  /** An empty value never changes the selection, and a picked `null` emits nothing. */
  lemma EmptyAndNull(selected: Selection)
    ensures ReadValue("", selected) == selected
    ensures HandleChange(None).1 == None
  {
  }

  /**
   * A year from 0 to 99 is read as the same year of the 1900s: `'99-01'`
   * selects January 1999.
   */
  lemma TwoDigitYears(year: nat, month: nat, selected: Selection)
    requires year <= 99 && 1 <= month <= 12
    ensures ReadValue(NatToString(year) + "-" + MonthText(month), selected) == Picked(Date(1900 + year, month - 1))
  {
    ParseYearMonth(year, month);
  }
}
