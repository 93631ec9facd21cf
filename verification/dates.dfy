/** Calendar dates as the age check sees them: the `YYYY-MM-DD` string a date
    input yields, the date sixteen years before today that `new Date(y - 16,
    m, d)` builds, and the comparison `dob <= sixteen`. The model reads both
    instants at midnight of one time zone, so comparing them is comparing
    (year, month, day) triples. */
module Dates {
  import opened Options
  import opened JsText

  datatype Date = Date(year: int, month: int, day: int)

  /** Proleptic Gregorian leap years, as JavaScript's Date uses. */
  predicate IsLeapYear(y: int) {
    y % 4 == 0 && (y % 100 != 0 || y % 400 == 0)
  }

  function DaysInMonth(y: int, m: int): (n: int)
    requires 1 <= m <= 12
    ensures 28 <= n <= 31
  {
    if m == 2 then (if IsLeapYear(y) then 29 else 28)
    else if m == 4 || m == 6 || m == 9 || m == 11 then 30
    else 31
  }

  predicate ValidDate(d: Date) {
    1 <= d.month <= 12 && 1 <= d.day <= DaysInMonth(d.year, d.month)
  }

  /** `a` is on or before `b` in the calendar: year, then month, then day. */
  predicate OnOrBefore(a: Date, b: Date) {
    || a.year < b.year
    || (a.year == b.year && a.month < b.month)
    || (a.year == b.year && a.month == b.month && a.day <= b.day)
  }

  /** The day after `d`. */
  function NextDay(d: Date): (n: Date)
    requires ValidDate(d)
    ensures ValidDate(n)
    ensures OnOrBefore(d, n) && n != d
  {
    if d.day < DaysInMonth(d.year, d.month) then Date(d.year, d.month, d.day + 1)
    else if d.month < 12 then Date(d.year, d.month + 1, 1)
    else Date(d.year + 1, 1, 1)
  }

  /** No valid date falls strictly between a date and the next one. */
  lemma NextDayIsAdjacent(d: Date, e: Date)
    requires ValidDate(d) && ValidDate(e)
    ensures OnOrBefore(e, d) || OnOrBefore(NextDay(d), e)
  {
  }

  // ------------------------------------------------------ decimal digits

  function Pow10(n: nat): nat {
    if n == 0 then 1 else 10 * Pow10(n - 1)
  }

  function DigitValue(c: char): int
    requires IsDigit(c)
  {
    c as int - '0' as int
  }

  function DigitChar(n: int): (c: char)
    requires 0 <= n <= 9
    ensures IsDigit(c) && DigitValue(c) == n
  {
    ('0' as int + n) as char
  }

  /** The number a run of decimal digits spells. */
  function DigitsValue(s: string): (n: nat)
    requires AllDigits(s)
    ensures n < Pow10(|s|)
  {
    if s == [] then 0 else 10 * DigitsValue(s[..|s| - 1]) + DigitValue(s[|s| - 1])
  }

  /** `n` written in exactly `width` decimal digits, zero-padded on the left. */
  function Pad(n: nat, width: nat): (r: string)
    requires n < Pow10(width)
    ensures |r| == width && AllDigits(r)
    ensures DigitsValue(r) == n
  {
    if width == 0 then []
    else
      var r := Pad(n / 10, width - 1) + [DigitChar(n % 10)];
      assert r[..|r| - 1] == Pad(n / 10, width - 1);
      r
  }

  /** Reading digits and writing them back at the same width is the identity. */
  lemma {:induction false} PadDigitsValue(s: string)
    requires AllDigits(s)
    ensures Pad(DigitsValue(s), |s|) == s
  {
    if s != [] {
      var p := s[..|s| - 1];
      var v := DigitsValue(p);
      var c := DigitValue(s[|s| - 1]);
      var n := DigitsValue(s);
      assert n == 10 * v + c;
      LastDigit(v, c);
      assert Pad(n, |s|) == Pad(v, |p|) + [DigitChar(c)];
      PadDigitsValue(p);
      assert DigitChar(c) == s[|s| - 1];
      assert s == p + [s[|s| - 1]];
    }
  }

  /** Appending a digit: the quotient by ten and the remainder recover the parts. */
  lemma LastDigit(v: nat, c: int)
    requires 0 <= c <= 9
    ensures (10 * v + c) / 10 == v && (10 * v + c) % 10 == c
  {
  }

  // ------------------------------------------------------ YYYY-MM-DD text

  /** The value of an `<input type="date">`, written as `YYYY-MM-DD`. */
  function FormatDate(d: Date): string
    requires ValidDate(d) && 0 <= d.year <= 9999
  {
    Pad(d.year, 4) + "-" + Pad(d.month, 2) + "-" + Pad(d.day, 2)
  }

  /** `new Date(s)` for the date-only `YYYY-MM-DD` form: the date it names,
      or `None` for an Invalid Date. */
  function ParseDate(s: string): (r: Option<Date>)
    ensures r.Some? ==> ValidDate(r.value) && 0 <= r.value.year <= 9999
  {
    if |s| == 10 && s[4] == '-' && s[7] == '-'
       && AllDigits(s[..4]) && AllDigits(s[5..7]) && AllDigits(s[8..])
    then
      var d := Date(DigitsValue(s[..4]), DigitsValue(s[5..7]), DigitsValue(s[8..]));
      if ValidDate(d) then Some(d) else None
    else None
  }

  /** Every date of years 0 through 9999 survives formatting and parsing. */
  lemma ParseFormat(d: Date)
    requires ValidDate(d) && 0 <= d.year <= 9999
    ensures ParseDate(FormatDate(d)) == Some(d)
  {
    var s := FormatDate(d);
    assert s[..4] == Pad(d.year, 4);
    assert s[5..7] == Pad(d.month, 2);
    assert s[8..] == Pad(d.day, 2);
  }

  /** A string that parses is exactly the formatted form of its date. */
  lemma FormatParse(s: string)
    requires ParseDate(s).Some?
    ensures FormatDate(ParseDate(s).value) == s
  {
    var d := ParseDate(s).value;
    PadDigitsValue(s[..4]);
    PadDigitsValue(s[5..7]);
    PadDigitsValue(s[8..]);
    assert Pad(d.year, 4) == s[..4];
    assert Pad(d.month, 2) == s[5..7];
    assert Pad(d.day, 2) == s[8..];
    assert s == s[..4] + "-" + s[5..7] + "-" + s[8..];
  }

  // ------------------------------------------------------------ the age check

  /** The year `new Date(year, ...)` uses: 0 to 99 mean 1900 to 1999. */
  function ConstructorYear(year: int): int {
    if 0 <= year <= 99 then 1900 + year else year
  }

  /** `new Date(year, month - 1, day)` for a month of 1..12 and a day of
      1..31: a day the month has is kept; a day past the month's end spills
      into the following month. */
  function ConstructDate(year: int, month: int, day: int): (r: Date)
    requires 1 <= month <= 12 && 1 <= day <= 31
    ensures ValidDate(r)
    ensures r.year == ConstructorYear(year)
    ensures ValidDate(Date(ConstructorYear(year), month, day)) ==> r == Date(ConstructorYear(year), month, day)
    ensures !ValidDate(Date(ConstructorYear(year), month, day)) ==>
              r.month == month + 1 && r.day == day - DaysInMonth(ConstructorYear(year), month)
    ensures day == DaysInMonth(ConstructorYear(year), month) + 1 ==>
              r == NextDay(Date(ConstructorYear(year), month, day - 1))
  {
    var y := ConstructorYear(year);
    var dim := DaysInMonth(y, month);
    if day <= dim then Date(y, month, day) else Date(y, month + 1, day - dim)
  }

  /** The date `new Date(today.getFullYear() - 16, today.getMonth(), today.getDate())`
      stands for. */
  function SixteenYearsBefore(today: Date): Date
    requires ValidDate(today)
  {
    ConstructDate(today.year - 16, today.month, today.day)
  }

  /** `isAtLeast16(dobStr)` with the clock's date passed in as `today`. The
      empty string and a string that is not a date are never old enough. */
  function IsAtLeast16(dobStr: string, today: Date): (ok: bool)
    requires ValidDate(today)
    ensures dobStr == [] ==> !ok
    ensures ok ==> ParseDate(dobStr).Some?
  {
    if dobStr == [] then false
    else
      match ParseDate(dobStr)
      case None => false
      case Some(dob) => OnOrBefore(dob, SixteenYearsBefore(today))
  }

  /** Today's month and day exist sixteen years earlier, in a year that
      `new Date` does not shift into the 1900s. */
  predicate PlainAnniversary(today: Date) {
    && !(0 <= today.year - 16 <= 99)
    && ValidDate(Date(today.year - 16, today.month, today.day))
  }

  /** For an ordinary today, a birth date passes exactly when it is on or
      before the same month and day sixteen years back. */
  lemma AgeCheckIff(dob: Date, today: Date)
    requires ValidDate(today) && PlainAnniversary(today)
    requires ValidDate(dob) && 0 <= dob.year <= 9999
    ensures IsAtLeast16(FormatDate(dob), today)
        <==> OnOrBefore(dob, Date(today.year - 16, today.month, today.day))
  {
    ParseFormat(dob);
  }

  /** Someone turning sixteen today passes; someone turning sixteen tomorrow
      does not. */
  lemma SixteenthBirthdayBoundary(today: Date)
    requires ValidDate(today) && PlainAnniversary(today)
    requires 100 <= today.year - 16 <= 9998
    ensures var birthday := Date(today.year - 16, today.month, today.day);
            && IsAtLeast16(FormatDate(birthday), today)
            && !IsAtLeast16(FormatDate(NextDay(birthday)), today)
  {
    var birthday := Date(today.year - 16, today.month, today.day);
    ParseFormat(birthday);
    ParseFormat(NextDay(birthday));
  }

  /** On 29 February of a leap year whose year minus sixteen is not leap
      (2116, 2216, ...), `new Date` rolls the threshold to 1 March: someone
      born on 1 March sixteen years back passes a day before their sixteenth
      birthday, and 2 March is the first date that fails. */
  lemma LeapDayRollover(y: int)
    requires IsLeapYear(y) && !IsLeapYear(y - 16)
    requires 100 <= y - 16 <= 9999
    ensures IsAtLeast16(FormatDate(Date(y - 16, 3, 1)), Date(y, 2, 29))
    ensures !IsAtLeast16(FormatDate(Date(y - 16, 3, 2)), Date(y, 2, 29))
  {
    ParseFormat(Date(y - 16, 3, 1));
    ParseFormat(Date(y - 16, 3, 2));
  }

  /** In years 16 through 115 the threshold lands in the 1900s, so even a
      person born today passes. */
  lemma TwoDigitYearShift(today: Date)
    requires ValidDate(today) && 16 <= today.year <= 115
    ensures SixteenYearsBefore(today).year == 1900 + today.year - 16
    ensures IsAtLeast16(FormatDate(today), today)
  {
    ParseFormat(today);
  }
}
