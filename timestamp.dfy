/** The compact timestamp of timestamp.js: `YYYYMMDDhhmmss`, written by `now`
    from the calendar fields of a date and read back by `parseDate` as
    successive base-100 digits. */
module Timestamp {
  import opened Decimal

  /** The calendar fields of a JavaScript `Date` in local time, as its getters
      return them: `monthIndex` is zero-based (`getMonth`), the others are
      `getFullYear`, `getDate`, `getHours`, `getMinutes`, `getSeconds`. The
      clock itself is not modelled: `Now` takes these fields as input. */
  datatype Calendar = Calendar(year: nat, monthIndex: int, day: nat, hours: nat, minutes: nat, seconds: nat)

  /** `pad2`: a leading "0" below ten, the decimal rendering otherwise. */
  function Pad2(n: nat): (s: string)
    ensures AllDigits(s) && Value(s) == n
    ensures n <= 9 ==> s == ['0', DigitChar(n)]
    ensures 10 <= n ==> s == Show(n)
    ensures n <= 99 ==> |s| == 2
  {
    ValueOfConcat(if n < 10 then "0" else "", Show(n));
    (if n < 10 then "0" else "") + Show(n)
  }

  /** `now`: the year unpadded, then month (one-based), day, hours, minutes and
      seconds, each through `pad2`. */
  function Now(c: Calendar): (s: string)
    requires c.monthIndex >= 0
    ensures AllDigits(s)
  {
    var s1 := Show(c.year) + Pad2(c.monthIndex + 1);
    DigitsConcat(Show(c.year), Pad2(c.monthIndex + 1));
    var s2 := s1 + Pad2(c.day);
    DigitsConcat(s1, Pad2(c.day));
    var s3 := s2 + Pad2(c.hours);
    DigitsConcat(s2, Pad2(c.hours));
    var s4 := s3 + Pad2(c.minutes);
    DigitsConcat(s3, Pad2(c.minutes));
    DigitsConcat(s4, Pad2(c.seconds));
    s4 + Pad2(c.seconds)
  }

  /** The fields a compact timestamp can hold: all but the year below 100. */
  predicate TwoDigitFields(c: Calendar) {
    0 <= c.monthIndex < 99 && c.day < 100 && c.hours < 100 && c.minutes < 100 && c.seconds < 100
  }

  /** The calendar fields a real date has. */
  predicate CalendarDate(c: Calendar) {
    0 <= c.monthIndex <= 11 && 1 <= c.day <= 31 && c.hours <= 23 && c.minutes <= 59 && c.seconds <= 59
  }

  /** The number `YYYYMMDDhhmmss` for the given fields. */
  function Compact(c: Calendar): int {
    c.year * 100_0000_0000 + (c.monthIndex + 1) * 1_0000_0000 + c.day * 100_0000
      + c.hours * 1_0000 + c.minutes * 100 + c.seconds
  }

  /** The formatted timestamp denotes year·10¹⁰ + month·10⁸ + day·10⁶ + hour·10⁴ + minute·10² + second. */
  lemma NowValue(c: Calendar)
    requires TwoDigitFields(c)
    ensures Value(Now(c)) == Compact(c)
  {
    var y, mo, d, h, mi := Show(c.year), Pad2(c.monthIndex + 1), Pad2(c.day), Pad2(c.hours), Pad2(c.minutes);
    var se := Pad2(c.seconds);
    assert Now(c) == y + mo + d + h + mi + se;
    AppendTwo(y, mo);
    var v1 := c.year * 100 + (c.monthIndex + 1);
    AppendTwo(y + mo, d);
    var v2 := v1 * 100 + c.day;
    AppendTwo(y + mo + d, h);
    var v3 := v2 * 100 + c.hours;
    AppendTwo(y + mo + d + h, mi);
    var v4 := v3 * 100 + c.minutes;
    AppendTwo(y + mo + d + h + mi, se);
    assert Value(y + mo + d + h + mi + se) == v4 * 100 + c.seconds;
    Horner(c);
  }

  /** Appending two digits shifts the value by two decimal places. */
  lemma AppendTwo(prefix: string, two: string)
    requires AllDigits(prefix) && AllDigits(two) && |two| == 2
    ensures AllDigits(prefix + two)
    ensures Value(prefix + two) == Value(prefix) * 100 + Value(two)
  {
    ValueOfConcat(prefix, two);
    assert Pow10(2) == 100;
  }

  /** The compact number, read as successive base-100 digits after the year. */
  lemma Horner(c: Calendar)
    ensures Compact(c) == ((((c.year * 100 + (c.monthIndex + 1)) * 100 + c.day) * 100 + c.hours) * 100 + c.minutes) * 100 + c.seconds
  {
  }

  /** With a four-digit year the timestamp has exactly fourteen digits. */
  lemma NowLength(c: Calendar)
    requires TwoDigitFields(c) && 1000 <= c.year <= 9999
    ensures |Now(c)| == 14
  {
    FourDigits(c.year);
  }

  /** `parseDate`: seconds, minutes, hours, day and month are taken off as
      base-100 digits, least significant first; the rest is the year, and the
      month becomes a zero-based index. JavaScript does this with floating
      division and `Math.trunc`, which on a non-negative integer agrees with
      integer division. The fields always recompose to `t`. */
  function ParseDate(t: nat): (c: Calendar)
    ensures Compact(c) == t
    ensures -1 <= c.monthIndex < 99 && c.day < 100 && c.hours < 100 && c.minutes < 100 && c.seconds < 100
  {
    var seconds := t % 100;
    var t1 := t / 100;
    var minutes := t1 % 100;
    var t2 := t1 / 100;
    var hours := t2 % 100;
    var t3 := t2 / 100;
    var day := t3 % 100;
    var t4 := t3 / 100;
    var month := t4 % 100;
    var year := t4 / 100;
    Calendar(year, month - 1, day, hours, minutes, seconds)
  }

  /** Splitting off the last base-100 digit of `a·100 + s`. */
  lemma DivMod100(a: nat, s: nat)
    requires s < 100
    ensures (a * 100 + s) / 100 == a && (a * 100 + s) % 100 == s
  {
  }

  /** Parsing the formatted value gives back the fields it was formatted from. */
  lemma RoundTrip(c: Calendar)
    requires TwoDigitFields(c)
    ensures ParseDate(Value(Now(c))) == c
  {
    NowValue(c);
    ParseCompact(c);
  }

  /** `parseDate` takes a compact number apart into the fields it was built from. */
  lemma ParseCompact(c: Calendar)
    requires TwoDigitFields(c)
    ensures ParseDate(Compact(c)) == c
  {
    var m := c.monthIndex + 1;
    var t4 := c.year * 100 + m;
    var t3 := t4 * 100 + c.day;
    var t2 := t3 * 100 + c.hours;
    var t1 := t2 * 100 + c.minutes;
    var t := t1 * 100 + c.seconds;
    Horner(c);
    DivMod100(t1, c.seconds);
    assert t % 100 == c.seconds && t / 100 == t1;
    DivMod100(t2, c.minutes);
    assert t1 % 100 == c.minutes && t1 / 100 == t2;
    DivMod100(t3, c.hours);
    assert t2 % 100 == c.hours && t2 / 100 == t3;
    DivMod100(t4, c.day);
    assert t3 % 100 == c.day && t3 / 100 == t4;
    DivMod100(c.year, m);
    assert t4 % 100 == m && t4 / 100 == c.year;
    assert ParseDate(t) == c;
  }

  /** Every real calendar date survives the round trip. */
  lemma CalendarRoundTrip(c: Calendar)
    requires CalendarDate(c)
    ensures ParseDate(Value(Now(c))) == c
  {
    RoundTrip(c);
  }
}
