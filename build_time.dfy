/** Build times of modules: a naive calendar timestamp with second resolution,
    Python's `datetime` ordering, and the decoding of the remote `stat -c '%z'`
    output with its fallback to the epoch. */
module BuildTime {
  import opened Wrappers
  import opened Text

  /** A `datetime.datetime` with no time zone. Microseconds are always zero here:
      the fractional part of the stat output is cut off before parsing. */
  datatype DateTime = DateTime(year: nat, month: nat, day: nat, hour: nat, minute: nat, second: nat)

  /** `datetime.datetime(1970, 1, 1)`, used whenever a build time is unknown. */
  const Epoch := DateTime(1970, 1, 1, 0, 0, 0)

  /** Python's `datetime.__lt__`: lexicographic on (year, month, day, hour, minute, second). */
  predicate Less(a: DateTime, b: DateTime) {
    if a.year != b.year then a.year < b.year
    else if a.month != b.month then a.month < b.month
    else if a.day != b.day then a.day < b.day
    else if a.hour != b.hour then a.hour < b.hour
    else if a.minute != b.minute then a.minute < b.minute
    else a.second < b.second
  }

  /** `Less` is a strict total order: exactly one of a < b, a == b, b < a holds,
      and it is transitive. */
  lemma LessIsStrictTotalOrder(a: DateTime, b: DateTime, c: DateTime)
    ensures !Less(a, a)
    ensures Less(a, b) ==> !Less(b, a)
    ensures a != b ==> Less(a, b) || Less(b, a)
    ensures Less(a, b) && Less(b, c) ==> Less(a, c)
  {
  }

  predicate IsLeapYear(y: nat) {
    y % 4 == 0 && (y % 100 != 0 || y % 400 == 0)
  }

  function DaysInMonth(y: nat, m: nat): (d: nat)
    requires 1 <= m <= 12
    ensures 28 <= d <= 31
  {
    if m == 2 then (if IsLeapYear(y) then 29 else 28)
    else if m == 4 || m == 6 || m == 9 || m == 11 then 30
    else 31
  }

  /** The values `datetime.datetime` accepts: years 1..9999, real calendar dates,
      and times of day up to 23:59:59. */
  predicate Valid(t: DateTime) {
    && 1 <= t.year <= 9999
    && 1 <= t.month <= 12
    && 1 <= t.day <= DaysInMonth(t.year, t.month)
    && t.hour < 24 && t.minute < 60 && t.second < 60
  }

  /** The layout `YYYY-MM-DD HH:MM:SS`: separators at fixed places, digits elsewhere. */
  predicate HasLayout(s: string) {
    && |s| == 19
    && s[4] == '-' && s[7] == '-' && s[10] == ' ' && s[13] == ':' && s[16] == ':'
    && AllDigits(s[0..4]) && AllDigits(s[5..7]) && AllDigits(s[8..10])
    && AllDigits(s[11..13]) && AllDigits(s[14..16]) && AllDigits(s[17..19])
  }

  /** `datetime.strptime(s, '%Y-%m-%d %H:%M:%S')`, restricted to the zero-padded
      form: `None` where Python raises `ValueError`. */
  function ParseFixed(s: string): (r: Option<DateTime>)
    ensures r.Some? ==> Valid(r.value) && HasLayout(s)
  {
    if HasLayout(s) then
      var t := DateTime(DigitsValue(s[0..4]), DigitsValue(s[5..7]), DigitsValue(s[8..10]),
                        DigitsValue(s[11..13]), DigitsValue(s[14..16]), DigitsValue(s[17..19]));
      if Valid(t) then Some(t) else None
    else None
  }

  /** The text `stat -c '%z'` prints for `t`, without the fractional seconds
      and the zone offset. */
  function Format(t: DateTime): (s: string)
    ensures HasLayout(s)
  {
    var s := Digits(t.year, 4) + "-" + Digits(t.month, 2) + "-" + Digits(t.day, 2) + " "
           + Digits(t.hour, 2) + ":" + Digits(t.minute, 2) + ":" + Digits(t.second, 2);
    assert s[0..4] == Digits(t.year, 4);
    assert s[5..7] == Digits(t.month, 2);
    assert s[8..10] == Digits(t.day, 2);
    assert s[11..13] == Digits(t.hour, 2);
    assert s[14..16] == Digits(t.minute, 2);
    assert s[17..19] == Digits(t.second, 2);
    s
  }

  /** Every valid timestamp survives printing and parsing back. */
  lemma ParseFormat(t: DateTime)
    requires Valid(t)
    ensures ParseFixed(Format(t)) == Some(t)
  {
    var s := Format(t);
    assert s[0..4] == Digits(t.year, 4);
    assert s[5..7] == Digits(t.month, 2);
    assert s[8..10] == Digits(t.day, 2);
    assert s[11..13] == Digits(t.hour, 2);
    assert s[14..16] == Digits(t.minute, 2);
    assert s[17..19] == Digits(t.second, 2);
    DigitsRoundTrip(t.year, 4);
    DigitsRoundTrip(t.month, 2);
    DigitsRoundTrip(t.day, 2);
    DigitsRoundTrip(t.hour, 2);
    DigitsRoundTrip(t.minute, 2);
    DigitsRoundTrip(t.second, 2);
  }

  /** The build time recorded for a module, from the stripped output of the remote
      stat command: the sentinel `Unknown`, or text that does not parse after
      cutting at the first `.`, gives the epoch; anything else its parsed value. */
  function DecodeBuildTime(text: string): (t: DateTime)
    ensures Valid(t)
    ensures text == "Unknown" ==> t == Epoch
    ensures ParseFixed(BeforeFirst(text, '.')).None? ==> t == Epoch
    ensures ParseFixed(BeforeFirst(text, '.')).Some? ==> t == ParseFixed(BeforeFirst(text, '.')).value
  {
    if text != "Unknown" then
      match ParseFixed(BeforeFirst(text, '.'))
      case Some(parsed) => parsed
      case None => Epoch
    else
      assert !HasLayout(BeforeFirst(text, '.'));
      Epoch
  }

  /** A string with the timestamp layout holds digits and separators only, no `.`. */
  lemma LayoutHasNoDot(s: string)
    requires HasLayout(s)
    ensures '.' !in s
  {
    forall k | 0 <= k < |s| ensures s[k] != '.' {
      if k < 4 {
        assert s[0..4][k] == s[k];
      } else if 4 < k < 7 {
        assert s[5..7][k - 5] == s[k];
      } else if 7 < k < 10 {
        assert s[8..10][k - 8] == s[k];
      } else if 10 < k < 13 {
        assert s[11..13][k - 11] == s[k];
      } else if 13 < k < 16 {
        assert s[14..16][k - 14] == s[k];
      } else if 16 < k {
        assert s[17..19][k - 17] == s[k];
      }
    }
  }

  /** Text that parses and has no `.` decodes to its parsed value, also when a `.`
      and anything else follow it. */
  lemma DecodeParsed(s: string, fraction: string)
    requires '.' !in s && ParseFixed(s).Some?
    ensures DecodeBuildTime(s) == ParseFixed(s).value
    ensures DecodeBuildTime(s + "." + fraction) == ParseFixed(s).value
  {
    assert BeforeFirst(s, '.') == s[..|s|] == s;
    BeforeFirstOfJoin(s, '.', fraction);
    assert s + "." + fraction == s + ['.'] + fraction;
  }

  /** Decoding the stat output of a real timestamp, with or without its fractional
      seconds and zone, gives that timestamp back. */
  lemma DecodeStatOutput(t: DateTime, fraction: string)
    requires Valid(t)
    ensures DecodeBuildTime(Format(t)) == t
    ensures DecodeBuildTime(Format(t) + "." + fraction) == t
  {
    LayoutHasNoDot(Format(t));
    ParseFormat(t);
    DecodeParsed(Format(t), fraction);
  }
}
