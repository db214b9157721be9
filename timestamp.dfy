/**
 * The disambiguating suffix of a photo's file name: the photo's capture
 * time, a POSIX timestamp in seconds, rendered in UTC as
 * `" (YYYY-MM-DD HH_MM)"`, the `strftime` pattern `' (%Y-%m-%d %H_%M)'`
 * applied to `datetime.utcfromtimestamp(t)`.
 */
module Timestamp {
  import opened Decimal
  import Civil

  const SecondsPerDay := 86400
  const SecondsPerHour := 3600
  const SecondsPerMinute := 60

  /** The largest year a Python `datetime` can hold (`datetime.MAXYEAR`). */
  const MaxYear := 9999

  /** The UTC calendar date of timestamp `t`. */
  function UtcDate(t: nat): (d: Civil.Date)
    ensures Civil.ValidDate(d)
    ensures Civil.DaysFromCivil(d) == t / SecondsPerDay
  {
    Civil.CivilFromDays(t / SecondsPerDay)
  }

  function UtcHour(t: nat): (h: nat)
    ensures h < 24
  {
    (t % SecondsPerDay) / SecondsPerHour
  }

  function UtcMinute(t: nat): (m: nat)
    ensures m < 60
  {
    (t % SecondsPerHour) / SecondsPerMinute
  }

  /**
   * `datetime.utcfromtimestamp(t)` returns a value only when the date's
   * year is at most `MaxYear`; beyond it, it raises.
   */
  predicate Representable(t: nat) {
    UtcDate(t).year <= MaxYear
  }

  /** The layout `" (Y-M-D H_M)"` around already rendered fields. */
  function Layout(y: string, mo: string, d: string, h: string, mi: string): (s: string)
    requires |y| == 4 && |mo| == 2 && |d| == 2 && |h| == 2 && |mi| == 2
    ensures |s| == 19
    ensures s[0] == ' ' && s[1] == '(' && s[18] == ')'
    ensures s[6] == '-' && s[9] == '-' && s[12] == ' ' && s[15] == '_'
    ensures s[2..6] == y && s[7..9] == mo && s[10..12] == d && s[13..15] == h && s[16..18] == mi
  {
    var s := " (" + y + "-" + mo + "-" + d + " " + h + "_" + mi + ")";
    SliceAt(s, 2, y);
    SliceAt(s, 7, mo);
    SliceAt(s, 10, d);
    SliceAt(s, 13, h);
    SliceAt(s, 16, mi);
    s
  }

  /** A slice equals a piece when it agrees with it character by character. */
  lemma SliceAt(s: string, i: nat, piece: string)
    requires i + |piece| <= |s|
    requires forall k :: 0 <= k < |piece| ==> s[i + k] == piece[k]
    ensures s[i..i + |piece|] == piece
  {
  }

  /** `' (%Y-%m-%d %H_%M)'` of the UTC time of `t`. */
  function Suffix(t: nat): (s: string)
    requires Representable(t)
    ensures |s| == 19
    ensures s[0] == ' ' && s[1] == '(' && s[18] == ')'
    ensures s[6] == '-' && s[9] == '-' && s[12] == ' ' && s[15] == '_'
  {
    var d := UtcDate(t);
    Layout(FixedDigits(d.year as nat, 4), FixedDigits(d.month as nat, 2), FixedDigits(d.day as nat, 2),
           FixedDigits(UtcHour(t), 2), FixedDigits(UtcMinute(t), 2))
  }

  /** Fields rendered at their widths into the layout read back as the numbers rendered. */
  lemma LayoutFields(y: nat, mo: nat, d: nat, h: nat, mi: nat)
    requires y < 10000 && mo < 100 && d < 100 && h < 100 && mi < 100
    ensures var s := Layout(FixedDigits(y, 4), FixedDigits(mo, 2), FixedDigits(d, 2), FixedDigits(h, 2), FixedDigits(mi, 2));
      && DigitsValue(s[2..6]) == y
      && DigitsValue(s[7..9]) == mo
      && DigitsValue(s[10..12]) == d
      && DigitsValue(s[13..15]) == h
      && DigitsValue(s[16..18]) == mi
  {
    var s := Layout(FixedDigits(y, 4), FixedDigits(mo, 2), FixedDigits(d, 2), FixedDigits(h, 2), FixedDigits(mi, 2));
    assert Pow10(2) == 100 && Pow10(4) == 10000;
    FixedDigitsRoundTrip(y, 4);
    FixedDigitsRoundTrip(mo, 2);
    FixedDigitsRoundTrip(d, 2);
    FixedDigitsRoundTrip(h, 2);
    FixedDigitsRoundTrip(mi, 2);
  }

  /**
   * The fields of the suffix read back as the UTC year, month, day, hour
   * and minute of `t`, and that date is day `t / 86400` after 1970-01-01.
   */
  lemma SuffixFields(t: nat)
    requires Representable(t)
    ensures var s, d := Suffix(t), UtcDate(t);
      && DigitsValue(s[2..6]) == d.year
      && DigitsValue(s[7..9]) == d.month
      && DigitsValue(s[10..12]) == d.day
      && DigitsValue(s[13..15]) == UtcHour(t)
      && DigitsValue(s[16..18]) == UtcMinute(t)
      && Civil.DaysFromCivil(d) == t / SecondsPerDay
  {
    var d := UtcDate(t);
    LayoutFields(d.year as nat, d.month as nat, d.day as nat, UtcHour(t), UtcMinute(t));
  }

  /** The minute count of `t` splits into its day, its hour of the day and its minute of the hour. */
  lemma MinuteDecomposition(t: nat)
    ensures t / SecondsPerMinute == 1440 * (t / SecondsPerDay) + 60 * UtcHour(t) + UtcMinute(t)
  {
    var days, r := t / SecondsPerDay, t % SecondsPerDay;
    var h, r2 := r / SecondsPerHour, r % SecondsPerHour;
    var m, sec := r2 / SecondsPerMinute, r2 % SecondsPerMinute;
    assert t == 3600 * (24 * days + h) + r2;
    assert t % SecondsPerHour == r2;
    assert t == 60 * (1440 * days + 60 * h + m) + sec;
  }

  lemma SameMinuteFields(t: nat, u: nat)
    ensures t / SecondsPerMinute == u / SecondsPerMinute
        <==> t / SecondsPerDay == u / SecondsPerDay && UtcHour(t) == UtcHour(u) && UtcMinute(t) == UtcMinute(u)
  {
    MinuteDecomposition(t);
    MinuteDecomposition(u);
    var a, b := 60 * UtcHour(t) + UtcMinute(t), 60 * UtcHour(u) + UtcMinute(u);
    assert 0 <= a < 1440 && 0 <= b < 1440;
    if t / SecondsPerMinute == u / SecondsPerMinute {
      assert t / SecondsPerDay == u / SecondsPerDay;
      assert a == b;
    }
  }

  /**
   * Two timestamps get the same suffix exactly when they fall in the same
   * UTC minute.
   */
  lemma SuffixInjective(t: nat, u: nat)
    requires Representable(t) && Representable(u)
    ensures Suffix(t) == Suffix(u) <==> t / SecondsPerMinute == u / SecondsPerMinute
  {
    SameMinuteFields(t, u);
    if Suffix(t) == Suffix(u) {
      SuffixFields(t);
      SuffixFields(u);
      var dt, du := UtcDate(t), UtcDate(u);
      assert dt == du;
    }
  }
}
