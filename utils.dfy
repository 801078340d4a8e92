/**
 * `Utils.formatDate`: the timestamp used in the archive's file name and in
 * each imported picture's `lastModified` attribute, laid out as
 * `Y-MM-DD_HH-MM-SS` in local time.
 */
module Utils {
  import opened Text

  /**
   * The local-time fields a JavaScript `Date` yields: `getFullYear()`,
   * `getMonth()` (0-based), `getDate()`, `getHours()`, `getMinutes()`,
   * `getSeconds()`.
   */
  datatype DateParts = DateParts(year: int, month: int, day: int, hours: int, minutes: int, seconds: int) {
    /** The ranges a `Date` object guarantees for its fields. */
    predicate Valid() {
      && 0 <= month <= 11
      && 1 <= day <= 31
      && 0 <= hours <= 23
      && 0 <= minutes <= 59
      && 0 <= seconds <= 59
    }
  }

  /** `String(n).padStart(2, '0')`. */
  function TwoDigits(n: nat): (s: string)
    requires n < 100
    ensures |s| == 2 && AllDigits(s) && DecimalValue(s) == n
  {
    ZeroPaddedValue(n, 2);
    NatToStringLength(n, if n < 10 then 1 else 2);
    PadStart(NatToString(n), 2, '0')
  }

  function FormatDate(d: DateParts): string
    requires d.Valid()
  {
    Stamp(IntToString(d.year), TwoDigits(d.month + 1), TwoDigits(d.day),
      TwoDigits(d.hours), TwoDigits(d.minutes), TwoDigits(d.seconds))
  }

  /** The template literal `${y}-${mo}-${da}_${h}-${mi}-${se}`. */
  function Stamp(y: string, mo: string, da: string, h: string, mi: string, se: string): string {
    y + "-" + mo + "-" + da + "_" + h + "-" + mi + "-" + se
  }

  /**
   * For a year written with four digits the stamp is 19 characters long,
   * with its separators at fixed places, and every field reads back as the
   * date's own value (the month 1-based).
   */
  lemma FormatDateFields(d: DateParts)
    requires d.Valid() && 1000 <= d.year <= 9999
    ensures var r := FormatDate(d);
      && |r| == 19
      && r[4] == '-' && r[7] == '-' && r[10] == '_' && r[13] == '-' && r[16] == '-'
      && AllDigits(r[..4]) && DecimalValue(r[..4]) == d.year
      && AllDigits(r[5..7]) && DecimalValue(r[5..7]) == d.month + 1
      && AllDigits(r[8..10]) && DecimalValue(r[8..10]) == d.day
      && AllDigits(r[11..13]) && DecimalValue(r[11..13]) == d.hours
      && AllDigits(r[14..16]) && DecimalValue(r[14..16]) == d.minutes
      && AllDigits(r[17..19]) && DecimalValue(r[17..19]) == d.seconds
  {
    NatToStringValue(d.year);
    FormatDateLayout(d);
  }

  /** Where each field of a four-digit-year stamp stands. */
  lemma FormatDateLayout(d: DateParts)
    requires d.Valid() && 1000 <= d.year <= 9999
    ensures var r := FormatDate(d);
      && |r| == 19
      && r[4] == '-' && r[7] == '-' && r[10] == '_' && r[13] == '-' && r[16] == '-'
      && r[..4] == NatToString(d.year)
      && r[5..7] == TwoDigits(d.month + 1)
      && r[8..10] == TwoDigits(d.day)
      && r[11..13] == TwoDigits(d.hours)
      && r[14..16] == TwoDigits(d.minutes)
      && r[17..19] == TwoDigits(d.seconds)
  {
    NatToStringLength(d.year, 4);
    var y := IntToString(d.year);
    assert y == NatToString(d.year);
    StampLayout(y, TwoDigits(d.month + 1), TwoDigits(d.day), TwoDigits(d.hours), TwoDigits(d.minutes), TwoDigits(d.seconds));
  }

  /** For any year the stamp ends with the fifteen characters `-MM-DD_HH-MM-SS`. */
  lemma FormatDateLength(d: DateParts)
    requires d.Valid()
    ensures |FormatDate(d)| == |IntToString(d.year)| + 15
    ensures d.year >= 0 ==> AllDigits(FormatDate(d)[..|NatToString(d.year)|])
  {
    StampLayout(IntToString(d.year), TwoDigits(d.month + 1), TwoDigits(d.day), TwoDigits(d.hours), TwoDigits(d.minutes), TwoDigits(d.seconds));
  }

  /** The stamp's fields, whatever their contents, at their fixed offsets behind the year. */
  lemma StampLayout(y: string, mo: string, da: string, h: string, mi: string, se: string)
    requires |mo| == 2 && |da| == 2 && |h| == 2 && |mi| == 2 && |se| == 2
    ensures var r := Stamp(y, mo, da, h, mi, se);
      var n := |y|;
      && |r| == n + 15
      && r[..n] == y
      && r[n] == '-' && r[n + 3] == '-' && r[n + 6] == '_' && r[n + 9] == '-' && r[n + 12] == '-'
      && r[n + 1..n + 3] == mo && r[n + 4..n + 6] == da && r[n + 7..n + 9] == h
      && r[n + 10..n + 12] == mi && r[n + 13..n + 15] == se
  {
    var n := |y|;
    var t6 := y + "-" + mo + "-" + da + "_" + h;
    var t8 := t6 + "-" + mi;
    var r := t8 + "-" + se;
    assert r[..n + 12] == t8;
    assert t8[..n + 9] == t6;
    assert t6[..n + 3] == y + "-" + mo;
  }
}
