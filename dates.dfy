/**
 * LocalDate values and the "y.M.d" text form of ClausewitzUtils.dateToString /
 * stringToDate (a DateTimeFormatter with the default SMART resolver).
 */
module Dates {
  import opened Wrappers
  import opened Chars
  import opened Numbers

  datatype Date = Date(year: int, month: int, day: int)

  const MAX_YEAR: int := 999_999_999
  const MIN_YEAR: int := -999_999_999

  /** Proleptic Gregorian leap years, as IsoChronology.isLeapYear. */
  predicate IsLeap(y: int) { y % 4 == 0 && (y % 100 != 0 || y % 400 == 0) }

  function MonthLength(y: int, m: int): (n: int)
    requires 1 <= m <= 12
    ensures 28 <= n <= 31
  {
    if m == 2 then (if IsLeap(y) then 29 else 28)
    else if m == 4 || m == 6 || m == 9 || m == 11 then 30
    else 31
  }

  /** A value LocalDate.of accepts. */
  predicate ValidDate(d: Date)
  {
    MIN_YEAR <= d.year <= MAX_YEAR && 1 <= d.month <= 12 && 1 <= d.day <= MonthLength(d.year, d.month)
  }

  /** The 'y' letter prints the year of era: year for the current era, 1 - year before it. */
  function YearOfEra(y: int): (e: nat)
    ensures y >= 1 ==> e == y
  {
    if y >= 1 then y else 1 - y
  }

  /** dateToString with the pattern "y.M.d": unpadded numbers separated by dots. */
  function DateToString(d: Date): (s: string)
    requires 1 <= d.month <= 12 && 1 <= d.day
  {
    NatToString(YearOfEra(d.year)) + "." + NatToString(d.month) + "." + NatToString(d.day)
  }

  /** The position of the first '.' in s, or |s|. */
  function DotIndex(s: string): (k: nat)
    ensures k <= |s| && (k < |s| ==> s[k] == '.')
    ensures forall i :: 0 <= i < k ==> s[i] != '.'
  {
    if s == [] || s[0] == '.' then 0 else 1 + DotIndex(s[1..])
  }

  /** One numeric field of the pattern: one to nineteen ASCII digits. */
  predicate NumberField(s: string) { 1 <= |s| <= 19 && AllDigits(s) }

  /**
   * stringToDate: three numeric fields separated by dots; the year of era
   * must lie in 1..999999999, the month in 1..12 and the day in 1..31; a day
   * past the end of its month is moved back to the month's last day (the SMART
   * resolver). Anything else is a DateTimeException, here None.
   */
  function ParseDate(s: string): (r: Option<Date>)
    ensures r.Some? ==> ValidDate(r.value) && r.value.year >= 1
  {
    var i := DotIndex(s);
    if i == |s| then None
    else
      var rest := s[i + 1..];
      var j := DotIndex(rest);
      if j == |rest| then None
      else
        var ys, ms, ds := s[..i], rest[..j], rest[j + 1..];
        if !(NumberField(ys) && NumberField(ms) && NumberField(ds)) then None
        else
          DateOfFields(DigitsValue(ys), DigitsValue(ms), DigitsValue(ds))
  }

  /** The date of the three field values: the year of era in 1..999999999,
    * the month in 1..12 and the day in 1..31, the day moved back to the
    * month's last day when it is past it. */
  function DateOfFields(y: int, m: int, d: int): (r: Option<Date>)
    ensures r.Some? ==> ValidDate(r.value) && r.value.year >= 1
  {
    if !(1 <= y <= MAX_YEAR && 1 <= m <= 12 && 1 <= d <= 31) then None
    else Some(Date(y, m, if d > MonthLength(y, m) then MonthLength(y, m) else d))
  }

  lemma DigitsOfNatToStringAreField(n: nat)
    requires n <= MAX_YEAR
    ensures NumberField(NatToString(n)) && DigitsValue(NatToString(n)) == n
  {
    DigitsValueOfNatToString(n);
    NatToStringLength(n, 9);
  }

  function Pow10(k: nat): (p: nat)
    ensures p >= 1
  {
    if k == 0 then 1 else 10 * Pow10(k - 1)
  }

  lemma {:induction false} NatToStringLength(n: nat, k: nat)
    requires 1 <= k && n < Pow10(k)
    ensures |NatToString(n)| <= k
  {
    if n >= 10 { NatToStringLength(n / 10, k - 1); }
  }

  lemma DotIndexOfDigits(a: string, b: string)
    requires AllDigits(a)
    ensures DotIndex(a + "." + b) == |a|
  {
    var s := a + "." + b;
    assert s[|a|] == '.';
    assert forall i :: 0 <= i < |a| ==> s[i] == a[i];
  }

  /** Where stringToDate splits three digit fields joined by dots. */
  lemma SplitFields(ys: string, ms: string, ds: string)
    requires AllDigits(ys) && AllDigits(ms)
    ensures var s := ys + "." + ms + "." + ds; var rest := s[|ys| + 1..];
      DotIndex(s) == |ys| && s[..|ys|] == ys && rest == ms + "." + ds
      && DotIndex(rest) == |ms| && rest[..|ms|] == ms && rest[|ms| + 1..] == ds
  {
    var s := ys + "." + ms + "." + ds;
    assert s == ys + "." + (ms + "." + ds);
    DotIndexOfDigits(ys, ms + "." + ds);
    var rest := s[|ys| + 1..];
    assert rest == ms + "." + ds;
    DotIndexOfDigits(ms, ds);
  }

  /** stringToDate on three numeric fields joined by dots: the date of
    * their values. */
  lemma ParseFields(ys: string, ms: string, ds: string)
    requires NumberField(ys) && NumberField(ms) && NumberField(ds)
    ensures ParseDate(ys + "." + ms + "." + ds) == DateOfFields(DigitsValue(ys), DigitsValue(ms), DigitsValue(ds))
  {
    SplitFields(ys, ms, ds);
  }

  /** Every date of the current era that LocalDate can hold survives the text round trip. */
  lemma ParseDateOfDateToString(d: Date)
    requires ValidDate(d) && d.year >= 1
    ensures ParseDate(DateToString(d)) == Some(d)
  {
    var ys, ms, ds := NatToString(d.year), NatToString(d.month), NatToString(d.day);
    DigitsOfNatToStringAreField(d.year);
    DigitsOfNatToStringAreField(d.month);
    DigitsOfNatToStringAreField(d.day);
    assert DateToString(d) == ys + "." + ms + "." + ds;
    ParseFields(ys, ms, ds);
  }
}
