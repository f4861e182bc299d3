/**
 * The 14-digit time stamp `YYYYMMDDHHmmss` that leads every stored name:
 * written with `strftime('%Y%m%d%H%M%S')` on upload and read back with
 * `strptime(t, '%Y%m%d%H%M%S')` by the sweep.  Instants are counted on the
 * proleptic Gregorian calendar from 0001-01-01 00:00:00, the scale of
 * Python's `datetime`.
 */
module Stamp {
  import opened Options

  datatype DateTime = DateTime(year: int, month: int, day: int, hour: int, minute: int, second: int)

  predicate IsLeapYear(y: int)
  {
    y % 4 == 0 && (y % 100 != 0 || y % 400 == 0)
  }

  function DaysInMonth(y: int, m: int): (d: int)
    requires 1 <= m <= 12
    ensures 28 <= d <= 31
    ensures d == 29 <==> m == 2 && IsLeapYear(y)
  {
    if m == 2 then (if IsLeapYear(y) then 29 else 28)
    else if m == 4 || m == 6 || m == 9 || m == 11 then 30
    else 31
  }

  /** What `datetime` accepts: years 1 to 9999, real calendar days, no leap second. */
  predicate ValidDateTime(dt: DateTime)
  {
    && 1 <= dt.year <= 9999
    && 1 <= dt.month <= 12
    && 1 <= dt.day <= DaysInMonth(dt.year, dt.month)
    && 0 <= dt.hour < 24
    && 0 <= dt.minute < 60
    && 0 <= dt.second < 60
  }

  predicate IsDigit(c: char)
  {
    '0' <= c <= '9'
  }

  predicate AllDigits(s: string)
  {
    forall i :: 0 <= i < |s| ==> IsDigit(s[i])
  }

  function Pow10(w: nat): (p: nat)
    ensures p >= 1
  {
    if w == 0 then 1 else 10 * Pow10(w - 1)
  }

  /** The value of a string of decimal digits. */
  function NumberOf(s: string): (v: nat)
    requires AllDigits(s)
    ensures v < Pow10(|s|)
  {
    if s == [] then 0
    else NumberOf(s[..|s| - 1]) * 10 + ((s[|s| - 1] as int) - ('0' as int))
  }

  /** `n` written in `w` decimal digits with leading zeros (`%02d`, `%04d`). */
  function Pad(n: nat, w: nat): (s: string)
    ensures |s| == w && AllDigits(s)
  {
    if w == 0 then []
    else Pad(n / 10, w - 1) + [('0' as int + n % 10) as char]
  }

  lemma {:induction false} NumberOfPad(n: nat, w: nat)
    requires n < Pow10(w)
    ensures NumberOf(Pad(n, w)) == n
  {
    if w > 0 {
      NumberOfPad(n / 10, w - 1);
      var s := Pad(n, w);
      assert s[..|s| - 1] == Pad(n / 10, w - 1);
    }
  }

  lemma {:induction false} PadNumberOf(s: string)
    requires AllDigits(s)
    ensures Pad(NumberOf(s), |s|) == s
  {
    if s != [] {
      var init := s[..|s| - 1];
      var v := NumberOf(s);
      assert AllDigits(init);
      assert v / 10 == NumberOf(init) && v % 10 == (s[|s| - 1] as int) - ('0' as int);
      PadNumberOf(init);
      assert s == init + [s[|s| - 1]];
    }
  }

  /**
   * `strftime('%Y%m%d%H%M%S')` of the upload time.  Years are written in
   * four digits; whether `%Y` pads a year below 1000 depends on the
   * platform, but `arrow.utcnow()` never gives one.
   */
  function FormatStamp(dt: DateTime): (s: string)
    requires ValidDateTime(dt)
    ensures |s| == 14 && AllDigits(s)
  {
    Pad(dt.year, 4) + Pad(dt.month, 2) + Pad(dt.day, 2)
      + Pad(dt.hour, 2) + Pad(dt.minute, 2) + Pad(dt.second, 2)
  }

  /**
   * `strptime(s, '%Y%m%d%H%M%S')` restricted to the fixed-width form: the
   * stamp parses exactly when it is 14 digits naming a valid date and time,
   * and it is then the formatting of what it parses to.
   */
  function ParseStamp(s: string): (r: Option<DateTime>)
    ensures r.Some? ==> ValidDateTime(r.value) && FormatStamp(r.value) == s
  {
    if |s| == 14 && AllDigits(s) then
      var dt := DateTime(NumberOf(s[..4]), NumberOf(s[4..6]), NumberOf(s[6..8]),
                         NumberOf(s[8..10]), NumberOf(s[10..12]), NumberOf(s[12..]));
      if ValidDateTime(dt) then
        FormatOfFields(s);
        Some(dt)
      else None
    else None
  }

  /** Each field of a 14-digit string, written back in its width, rebuilds the string. */
  lemma FormatOfFields(s: string)
    requires |s| == 14 && AllDigits(s)
    ensures Pad(NumberOf(s[..4]), 4) + Pad(NumberOf(s[4..6]), 2) + Pad(NumberOf(s[6..8]), 2)
            + Pad(NumberOf(s[8..10]), 2) + Pad(NumberOf(s[10..12]), 2) + Pad(NumberOf(s[12..]), 2) == s
  {
    var y, mo, d := Pad(NumberOf(s[..4]), 4), Pad(NumberOf(s[4..6]), 2), Pad(NumberOf(s[6..8]), 2);
    var h, mi, se := Pad(NumberOf(s[8..10]), 2), Pad(NumberOf(s[10..12]), 2), Pad(NumberOf(s[12..]), 2);
    assert s[..4] == s[0..4] && s[12..] == s[12..14];
    FieldRoundTrip(s, 0, 4);
    FieldRoundTrip(s, 4, 6);
    FieldRoundTrip(s, 6, 8);
    FieldRoundTrip(s, 8, 10);
    FieldRoundTrip(s, 10, 12);
    FieldRoundTrip(s, 12, 14);
    Rejoin(s, 0, 4, 6, y, mo);
    Rejoin(s, 0, 6, 8, y + mo, d);
    Rejoin(s, 0, 8, 10, y + mo + d, h);
    Rejoin(s, 0, 10, 12, y + mo + d + h, mi);
    Rejoin(s, 0, 12, 14, y + mo + d + h + mi, se);
    assert s[0..14] == s;
  }

  /** A digit field of `s`, read and written back in its width, is unchanged. */
  lemma FieldRoundTrip(s: string, i: nat, j: nat)
    requires AllDigits(s) && i <= j <= |s|
    ensures Pad(NumberOf(s[i..j]), j - i) == s[i..j]
  {
    assert AllDigits(s[i..j]);
    PadNumberOf(s[i..j]);
  }

  /** Adjacent slices join into one. */
  lemma Rejoin(s: string, i: nat, j: nat, k: nat, a: string, b: string)
    requires i <= j <= k <= |s| && a == s[i..j] && b == s[j..k]
    ensures a + b == s[i..k]
  {
  }

  /** A stamp written on upload is read back as the same instant. */
  lemma ParseFormat(dt: DateTime)
    requires ValidDateTime(dt)
    ensures ParseStamp(FormatStamp(dt)) == Some(dt)
  {
    var s := FormatStamp(dt);
    assert s[..4] == Pad(dt.year, 4);
    assert s[4..6] == Pad(dt.month, 2);
    assert s[6..8] == Pad(dt.day, 2);
    assert s[8..10] == Pad(dt.hour, 2);
    assert s[10..12] == Pad(dt.minute, 2);
    assert s[12..] == Pad(dt.second, 2);
    NumberOfPad(dt.year, 4);
    NumberOfPad(dt.month, 2);
    NumberOfPad(dt.day, 2);
    NumberOfPad(dt.hour, 2);
    NumberOfPad(dt.minute, 2);
    NumberOfPad(dt.second, 2);
  }

  /** Days from 0001-01-01 to January 1st of year `y`. */
  function DaysBeforeYear(y: int): int
    requires y >= 1
  {
    var p := y - 1;
    365 * p + p / 4 - p / 100 + p / 400
  }

  /** Days from January 1st to the first of month `m` in year `y`. */
  function DaysBeforeMonth(y: int, m: int): int
    requires 1 <= m <= 12
  {
    if m == 1 then 0 else DaysBeforeMonth(y, m - 1) + DaysInMonth(y, m - 1)
  }

  /** Whole seconds from 0001-01-01 00:00:00 to `dt`. */
  function Seconds(dt: DateTime): int
    requires ValidDateTime(dt)
  {
    var days := DaysBeforeYear(dt.year) + DaysBeforeMonth(dt.year, dt.month) + dt.day - 1;
    ((days * 24 + dt.hour) * 60 + dt.minute) * 60 + dt.second
  }

  /** `timedelta(hours=24)` in microseconds, the resolution of `datetime`. */
  const TtlMicros: int := 24 * 60 * 60 * 1000000

  /**
   * `now - dt > timedelta(hours=24)`, with `now` in microseconds on the same
   * scale: strictly more than a day has passed since `dt`.
   */
  predicate Expired(dt: DateTime, now: int)
    requires ValidDateTime(dt)
  {
    now - Seconds(dt) * 1000000 > TtlMicros
  }

  /**
   * Expiry only moves forward: a stamp expired at `now` is expired at every
   * later time, and one not yet expired was not expired earlier either.
   */
  lemma ExpiredStaysExpired(dt: DateTime, now: int, later: int)
    requires ValidDateTime(dt) && now <= later
    ensures Expired(dt, now) ==> Expired(dt, later)
    ensures !Expired(dt, later) ==> !Expired(dt, now)
  {
  }

  /**
   * The comparison `clean_files` makes as written: uploads are stamped from
   * the UTC clock, but `datetime.now()` reads the server's local clock,
   * which runs `offset` microseconds ahead of UTC (behind when negative).
   */
  predicate ExpiredAgainstLocalClock(dt: DateTime, nowUtc: int, offset: int)
    requires ValidDateTime(dt)
  {
    Expired(dt, nowUtc + offset)
  }

  /**
   * On a server two hours ahead of UTC, an upload only 23 hours old is
   * already treated as expired, while by the UTC clock it has an hour left.
   */
  lemma LocalClockExpiresEarly(dt: DateTime)
    requires ValidDateTime(dt)
    ensures var hour := 60 * 60 * 1000000;
            var nowUtc := Seconds(dt) * 1000000 + 23 * hour;
            ExpiredAgainstLocalClock(dt, nowUtc, 2 * hour) && !Expired(dt, nowUtc)
  {
  }
}
