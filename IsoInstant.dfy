/** `java.time.Instant` as far as the chat codec uses it: a point on the UTC
    time line, written by `Instant.toString` in the ISO-8601 form
    `yyyy-MM-ddTHH:mm:ss[.fraction]Z` and read back by `Instant.parse`.
    The instant is kept as its UTC calendar fields; years 0000 to 9999. */
module IsoInstant {

  import opened Wrappers

  datatype DateTime = DateTime(year: int, month: int, day: int,
                               hour: int, minute: int, second: int, nano: int)

  /** Leap years of the proleptic Gregorian calendar. */
  predicate IsLeapYear(y: int) {
    y % 4 == 0 && (y % 100 != 0 || y % 400 == 0)
  }

  function DaysInMonth(y: int, m: int): int
    requires 1 <= m <= 12
  {
    if m == 2 then (if IsLeapYear(y) then 29 else 28)
    else if m == 4 || m == 6 || m == 9 || m == 11 then 30
    else 31
  }

  /** The fields name an existing moment: a real calendar date, a time of
      day and a nanosecond within the second. */
  predicate IsValid(t: DateTime) {
    && 0 <= t.year <= 9999
    && 1 <= t.month <= 12
    && 1 <= t.day <= DaysInMonth(t.year, t.month)
    && 0 <= t.hour < 24
    && 0 <= t.minute < 60
    && 0 <= t.second < 60
    && 0 <= t.nano < 1_000_000_000
  }

  type Instant = t: DateTime | IsValid(t) witness DateTime(1970, 1, 1, 0, 0, 0, 0)

  function Pow10(n: nat): nat
  {
    if n == 0 then 1 else 10 * Pow10(n - 1)
  }

  predicate IsDigit(c: char) {
    '0' <= c <= '9'
  }

  predicate AllDigits(s: string) {
    forall k :: 0 <= k < |s| ==> IsDigit(s[k])
  }

  /** `n` in decimal, zero-padded to exactly `width` digits. */
  function Pad(n: nat, width: nat): (r: string)
    requires n < Pow10(width)
    ensures |r| == width && AllDigits(r)
  {
    if width == 0 then ""
    else Pad(n / 10, width - 1) + [('0' as int + n % 10) as char]
  }

  /** The value of a run of decimal digits; below 10 to the number of digits. */
  function ParseNat(s: string): (n: nat)
    requires AllDigits(s)
    ensures n < Pow10(|s|)
  {
    if s == [] then 0
    else ParseNat(s[..|s| - 1]) * 10 + (s[|s| - 1] as int - '0' as int)
  }

  /** Parsing a padded number gives the number back. */
  lemma {:induction false} ParsePad(n: nat, width: nat)
    requires n < Pow10(width)
    ensures ParseNat(Pad(n, width)) == n
  {
    if width > 0 {
      var p := Pad(n, width);
      assert p[..width - 1] == Pad(n / 10, width - 1);
      ParsePad(n / 10, width - 1);
    }
  }

  /** The fraction `Instant.toString` appends: none for a whole second,
      otherwise a point and three, six or nine digits, the fewest that show
      the nanoseconds exactly. */
  function Fraction(nano: int): (r: string)
    requires 0 <= nano < 1_000_000_000
  {
    if nano == 0 then ""
    else if nano % 1_000_000 == 0 then "." + Pad(nano / 1_000_000, 3)
    else if nano % 1_000 == 0 then "." + Pad(nano / 1_000, 6)
    else "." + Pad(nano, 9)
  }

  /** `Instant.toString`: twenty characters for a whole second, four, seven
      or ten more for a fraction, ending in `Z`. */
  function Format(t: Instant): (r: string)
    ensures |r| == 20 || |r| == 24 || |r| == 27 || |r| == 30
    ensures r[|r| - 1] == 'Z'
  {
    Pad(t.year, 4) + "-" + Pad(t.month, 2) + "-" + Pad(t.day, 2) + "T" +
    Pad(t.hour, 2) + ":" + Pad(t.minute, 2) + ":" + Pad(t.second, 2) +
    Fraction(t.nano) + "Z"
  }

  /** The nanoseconds of an optional fraction: nothing, or a point followed
      by up to nine digits, read as a decimal fraction of a second (a point
      alone reads as zero). */
  function ParseFraction(f: string): (r: Option<int>)
    ensures r.Some? ==> 0 <= r.value < 1_000_000_000
    ensures r.Some? ==> |f| <= 10
  {
    if f == "" || f == "." then Some(0)
    else if f[0] == '.' && 2 <= |f| <= 10 && AllDigits(f[1..]) then
      FractionBound(ParseNat(f[1..]), |f| - 1);
      Some(ParseNat(f[1..]) * Pow10(10 - |f|))
    else None
  }

  lemma {:induction false} Pow10Add(a: nat, b: nat)
    ensures Pow10(a) * Pow10(b) == Pow10(a + b)
  {
    if a > 0 {
      Pow10Add(a - 1, b);
    }
  }

  /** A `w`-digit fraction scaled to nanoseconds stays below one second. */
  lemma FractionBound(q: nat, w: nat)
    requires 1 <= w <= 9 && q < Pow10(w)
    ensures q * Pow10(9 - w) < 1_000_000_000
  {
    Pow10Add(w, 9 - w);
    assert Pow10(9) == 1_000_000_000;
    assert q * Pow10(9 - w) <= (Pow10(w) - 1) * Pow10(9 - w);
  }

  /** The fields of the text, if it has the shape
      `dddd-dd-ddTdd:dd:dd[.d…]Z`; range checks come after. */
  function Fields(s: string): (r: Option<DateTime>)
  {
    if |s| < 20 || s[|s| - 1] != 'Z' then None
    else if !(AllDigits(s[0..4]) && s[4] == '-' && AllDigits(s[5..7]) && s[7] == '-' &&
              AllDigits(s[8..10]) && s[10] == 'T' && AllDigits(s[11..13]) && s[13] == ':' &&
              AllDigits(s[14..16]) && s[16] == ':' && AllDigits(s[17..19])) then None
    else
      match ParseFraction(s[19..|s| - 1])
      case None => None
      case Some(nano) =>
        Some(DateTime(ParseNat(s[0..4]), ParseNat(s[5..7]), ParseNat(s[8..10]),
                      ParseNat(s[11..13]), ParseNat(s[14..16]), ParseNat(s[17..19]), nano))
  }

  /** `Instant.parse`: `None` where Java throws DateTimeParseException, that
      is for text of the wrong shape and for fields out of range (month 13,
      February 30, hour 24, second 60, …). */
  function Parse(s: string): (r: Option<Instant>)
    ensures r.Some? ==> 20 <= |s| <= 30 && s[|s| - 1] == 'Z'
  {
    match Fields(s)
    case Some(t) => if IsValid(t) then Some(t) else None
    case None => None
  }

  /** The characters `Instant.toString` writes. */
  predicate IsFormatChar(c: char) {
    IsDigit(c) || c == '-' || c == 'T' || c == ':' || c == '.' || c == 'Z'
  }

  /** The text of an instant holds only digits and `-T:.Z`; in particular no
      line break and no `]`. */
  lemma FormatChars(t: Instant)
    ensures forall k :: 0 <= k < |Format(t)| ==> IsFormatChar(Format(t)[k])
    ensures '\n' !in Format(t) && ']' !in Format(t)
  {
    var f := Format(t);
    assert forall k :: 0 <= k < |f| ==> IsFormatChar(f[k]);
  }

  /** Text that `Instant.parse` accepts holds only the characters
      `Instant.toString` writes; in particular no line break. */
  lemma ParseChars(s: string)
    requires Parse(s).Some?
    ensures forall k :: 0 <= k < |s| ==> IsFormatChar(s[k])
    ensures '\n' !in s
  {
    var f := s[19..|s| - 1];
    assert ParseFraction(f).Some?;
    forall k | 0 <= k < |s|
      ensures IsFormatChar(s[k])
    {
      if k < 4 {
        assert s[k] == s[0..4][k];
      } else if 5 <= k < 7 {
        assert s[k] == s[5..7][k - 5];
      } else if 8 <= k < 10 {
        assert s[k] == s[8..10][k - 8];
      } else if 11 <= k < 13 {
        assert s[k] == s[11..13][k - 11];
      } else if 14 <= k < 16 {
        assert s[k] == s[14..16][k - 14];
      } else if 17 <= k < 19 {
        assert s[k] == s[17..19][k - 17];
      } else if 20 <= k < |s| - 1 {
        assert s[k] == f[1..][k - 20];
      }
    }
  }

  /** A point and `w` digits are read as that many digits' worth of
      nanoseconds. */
  lemma ParseFractionDigits(q: nat, w: nat)
    requires 1 <= w <= 9 && q < Pow10(w)
    ensures ParseFraction("." + Pad(q, w)) == Some(q * Pow10(9 - w))
  {
    var f := "." + Pad(q, w);
    assert f[1..] == Pad(q, w);
    ParsePad(q, w);
  }

  /** The fraction written for some nanoseconds is read back as them. */
  lemma ParseFractionOfFraction(nano: int)
    requires 0 <= nano < 1_000_000_000
    ensures ParseFraction(Fraction(nano)) == Some(nano)
  {
    if nano == 0 {
      assert Fraction(nano) == "";
    } else if nano % 1_000_000 == 0 {
      assert Fraction(nano) == "." + Pad(nano / 1_000_000, 3);
      ParseScaledFraction(nano, 3, 1_000_000);
    } else if nano % 1_000 == 0 {
      assert Fraction(nano) == "." + Pad(nano / 1_000, 6);
      ParseScaledFraction(nano, 6, 1_000);
    } else {
      assert Fraction(nano) == "." + Pad(nano / 1, 9);
      ParseScaledFraction(nano, 9, 1);
    }
  }

  /** Nanoseconds that are a whole number of `unit`s, written with `w`
      digits, are read back as them. */
  lemma ParseScaledFraction(nano: int, w: nat, unit: nat)
    requires 0 <= nano < 1_000_000_000
    requires (w, unit) in {(3, 1_000_000), (6, 1_000), (9, 1)}
    requires nano % unit == 0
    ensures ParseFraction("." + Pad(nano / unit, w)) == Some(nano)
  {
    assert Pow10(3) == 1_000 && Pow10(6) == 1_000_000 && Pow10(9) == 1_000_000_000 && Pow10(0) == 1;
    assert Pow10(9 - w) == unit;
    assert nano / unit < Pow10(w);
    assert (nano / unit) * unit == nano;
    ParseFractionDigits(nano / unit, w);
  }

  /** Where `Instant.toString` puts each field: fixed-width digits and
      separators up to the seconds, then the fraction, then `Z`. */
  lemma FormatLayout(y: string, mo: string, d: string, h: string, mi: string, se: string, fr: string)
    requires |y| == 4 && |mo| == 2 && |d| == 2 && |h| == 2 && |mi| == 2 && |se| == 2
    ensures var s := y + "-" + mo + "-" + d + "T" + h + ":" + mi + ":" + se + fr + "Z";
            && |s| >= 20 && s[|s| - 1] == 'Z'
            && s[0..4] == y && s[4] == '-' && s[5..7] == mo && s[7] == '-'
            && s[8..10] == d && s[10] == 'T' && s[11..13] == h && s[13] == ':'
            && s[14..16] == mi && s[16] == ':' && s[17..19] == se
            && s[19..|s| - 1] == fr
  {
  }

  /** `Instant.parse(t.toString())` is `t`. */
  lemma ParseFormat(t: Instant)
    ensures Parse(Format(t)) == Some(t)
  {
    var y, mo, d := Pad(t.year, 4), Pad(t.month, 2), Pad(t.day, 2);
    var h, mi, se := Pad(t.hour, 2), Pad(t.minute, 2), Pad(t.second, 2);
    var fr := Fraction(t.nano);
    var s := Format(t);
    assert s == y + "-" + mo + "-" + d + "T" + h + ":" + mi + ":" + se + fr + "Z";
    FormatLayout(y, mo, d, h, mi, se, fr);
    ParsePad(t.year, 4);
    ParsePad(t.month, 2);
    ParsePad(t.day, 2);
    ParsePad(t.hour, 2);
    ParsePad(t.minute, 2);
    ParsePad(t.second, 2);
    ParseFractionOfFraction(t.nano);
    FieldsOfLayout(s, t);
  }

  /** Text laid out as `Instant.toString` lays it out reads back as the
      fields it was written from. */
  lemma FieldsOfLayout(s: string, t: Instant)
    requires |s| >= 20 && s[|s| - 1] == 'Z'
    requires AllDigits(s[0..4]) && s[4] == '-' && AllDigits(s[5..7]) && s[7] == '-'
    requires AllDigits(s[8..10]) && s[10] == 'T' && AllDigits(s[11..13]) && s[13] == ':'
    requires AllDigits(s[14..16]) && s[16] == ':' && AllDigits(s[17..19])
    requires ParseNat(s[0..4]) == t.year && ParseNat(s[5..7]) == t.month && ParseNat(s[8..10]) == t.day
    requires ParseNat(s[11..13]) == t.hour && ParseNat(s[14..16]) == t.minute && ParseNat(s[17..19]) == t.second
    requires ParseFraction(s[19..|s| - 1]) == Some(t.nano)
    ensures Parse(s) == Some(t)
  {
  }
}
