/**
 * Timestamp decomposition: `convert_to_timestamp` in parsing/lex_podcast.py.
 *
 * The function hands the string to `datetime.strptime` with the format
 * `'%Y-%m-%dT%H:%M:%SZ'` and returns the (date, time) pair, or the sentinel
 * pair `(0, 0)` when strptime raises ValueError.
 *
 * The code and its tests disagree about the shape: the code expects a `T`
 * between date and time and a trailing `Z`, while the tests expect
 * `'2022-11-04 16:09:32'` to parse and `'2022-11-04T16:09:32Z'` to give
 * `(0, 0)`.  The format is therefore a parameter here: `CodeFormat` is the
 * one the code uses, `SpaceFormat` the one the tests assume.  The lemmas at
 * the end show that the tests fail against `CodeFormat` and pass against
 * `SpaceFormat`.
 *
 * strptime compiles its pattern case-insensitively, so a literal letter of
 * the format (the `T`, the `Z`) also accepts its other case.
 */
module Timestamp {

  datatype Date = Date(year: int, month: int, day: int)
  datatype Time = Time(hour: int, minute: int, second: int)

  /** What `convert_to_timestamp` returns: the pair, or the sentinel `(0, 0)`. */
  datatype Conversion = Converted(date: Date, time: Time) | Sentinel

  /** The literal parts of `'%Y-%m-%d<separator>%H:%M:%S<suffix>'`. */
  datatype Format = Format(separator: char, suffix: string)

  /** The format at parsing/lex_podcast.py:159. */
  const CodeFormat := Format('T', "Z")

  /** The format the tests assume (tests/test_lex_podcast.py:38). */
  const SpaceFormat := Format(' ', "")

  // ---------------------------------------------------------------------
  // Calendar rules that `datetime` enforces

  predicate IsLeapYear(y: int)
  {
    y % 4 == 0 && (y % 100 != 0 || y % 400 == 0)
  }

  function DaysInMonth(y: int, m: int): int
    requires 1 <= m <= 12
  {
    if m == 2 then (if IsLeapYear(y) then 29 else 28)
    else if m == 4 || m == 6 || m == 9 || m == 11 then 30
    else 31
  }

  /** A date `datetime.date` accepts: years 1 to 9999, real days of real months. */
  predicate ValidDate(d: Date)
  {
    1 <= d.year <= 9999 && 1 <= d.month <= 12 && 1 <= d.day <= DaysInMonth(d.year, d.month)
  }

  /** A time `datetime` accepts; a leap second (60 or 61) passes strptime's
      pattern but is refused when the datetime is built. */
  predicate ValidTime(t: Time)
  {
    0 <= t.hour < 24 && 0 <= t.minute < 60 && 0 <= t.second < 60
  }

  // ---------------------------------------------------------------------
  // Decimal fields

  predicate IsDigit(c: char)
  {
    '0' <= c <= '9'
  }

  predicate AllDigits(s: string)
  {
    forall i :: 0 <= i < |s| ==> IsDigit(s[i])
  }

  function DigitChar(d: nat): (c: char)
    requires d < 10
    ensures IsDigit(c)
  {
    ('0' as int + d) as char
  }

  /** The value of one decimal digit. */
  function DigitValue(c: char): int
  {
    c as int - '0' as int
  }

  /** The number a string of decimal digits spells. */
  function Number(s: string): nat
    requires AllDigits(s)
  {
    if s == [] then 0 else Number(s[..|s| - 1]) * 10 + DigitValue(s[|s| - 1])
  }

  function Pow10(w: nat): (p: nat)
    ensures p >= 1
  {
    if w == 0 then 1 else 10 * Pow10(w - 1)
  }

  /** `n` written in exactly `w` digits, zero-padded (strftime's `%Y`, `%m`, ...). */
  function Padded(n: nat, w: nat): string
  {
    if w == 0 then [] else Padded(n / 10, w - 1) + [DigitChar(n % 10)]
  }

  /** Padding then reading back gives the number, when it fits in `w` digits. */
  lemma {:induction false} NumberOfPadded(n: nat, w: nat)
    requires n < Pow10(w)
    ensures |Padded(n, w)| == w && AllDigits(Padded(n, w))
    ensures Number(Padded(n, w)) == n
  {
    if w > 0 {
      NumberOfPadded(n / 10, w - 1);
      var s := Padded(n, w);
      assert s[..|s| - 1] == Padded(n / 10, w - 1);
    }
  }

  /** Reading then padding gives back the digits. */
  lemma {:induction false} PaddedOfNumber(s: string)
    requires AllDigits(s)
    ensures Number(s) < Pow10(|s|)
    ensures Padded(Number(s), |s|) == s
  {
    if s != [] {
      var init := s[..|s| - 1];
      PaddedOfNumber(init);
      var d := DigitValue(s[|s| - 1]);
      assert Number(s) / 10 == Number(init) && Number(s) % 10 == d;
      assert s == init + [s[|s| - 1]];
    }
  }

  // ---------------------------------------------------------------------
  // Formatting (the partner of parsing)

  /** ASCII case folding, as the case-insensitive pattern match compares letters. */
  function Fold(c: char): char
  {
    if 'A' <= c <= 'Z' then (c as int - 'A' as int + 'a' as int) as char else c
  }

  /** Equal up to the case of letters, position by position. */
  predicate SameUpToCase(a: string, b: string)
  {
    |a| == |b| && forall i :: 0 <= i < |a| ==> Fold(a[i]) == Fold(b[i])
  }

  /** The date part of a rendering: `YYYY-MM-DD`. */
  function DatePart(d: Date): string
    requires ValidDate(d)
  {
    Padded(d.year, 4) + "-" + Padded(d.month, 2) + "-" + Padded(d.day, 2)
  }

  /** The time part of a rendering: `HH:MM:SS`. */
  function TimePart(t: Time): string
    requires ValidTime(t)
  {
    Padded(t.hour, 2) + ":" + Padded(t.minute, 2) + ":" + Padded(t.second, 2)
  }

  /** `strftime` with the same format: the string that parses to `(d, t)`. */
  function Render(fmt: Format, d: Date, t: Time): string
    requires ValidDate(d) && ValidTime(t)
  {
    DatePart(d) + [fmt.separator] + TimePart(t) + fmt.suffix
  }

  // ---------------------------------------------------------------------
  // Parsing

  /** The string has the fixed-width shape of the format: digits where the
      fields go, the literal characters (up to case) everywhere else. */
  predicate FitsShape(fmt: Format, s: string)
  {
    && |s| == 19 + |fmt.suffix|
    && AllDigits(s[0..4]) && s[4] == '-' && AllDigits(s[5..7]) && s[7] == '-' && AllDigits(s[8..10])
    && Fold(s[10]) == Fold(fmt.separator)
    && AllDigits(s[11..13]) && s[13] == ':' && AllDigits(s[14..16]) && s[16] == ':' && AllDigits(s[17..19])
    && SameUpToCase(s[19..], fmt.suffix)
  }

  /** `convert_to_timestamp(s)` for the given format. */
  function Convert(fmt: Format, s: string): (r: Conversion)
    ensures r.Converted? ==> ValidDate(r.date) && ValidTime(r.time)
  {
    if !FitsShape(fmt, s) then Sentinel
    else
      var d := Date(Number(s[0..4]), Number(s[5..7]), Number(s[8..10]));
      var t := Time(Number(s[11..13]), Number(s[14..16]), Number(s[17..19]));
      if ValidDate(d) && ValidTime(t) then Converted(d, t) else Sentinel
  }

  // ---------------------------------------------------------------------
  // Properties

  lemma DateLayout(d: Date)
    requires ValidDate(d)
    ensures var s := DatePart(d);
      && |s| == 10 && s[0..4] == Padded(d.year, 4) && s[4] == '-'
      && s[5..7] == Padded(d.month, 2) && s[7] == '-' && s[8..10] == Padded(d.day, 2)
  {
    var y, m, dd := Padded(d.year, 4), Padded(d.month, 2), Padded(d.day, 2);
    NumberOfPadded(d.year, 4);
    NumberOfPadded(d.month, 2);
    NumberOfPadded(d.day, 2);
    var s := DatePart(d);
    assert s == y + "-" + m + "-" + dd;
    assert s[0..4] == y;
    assert s[5..7] == m;
    assert s[8..10] == dd;
  }

  lemma TimeLayout(t: Time)
    requires ValidTime(t)
    ensures var s := TimePart(t);
      && |s| == 8 && s[0..2] == Padded(t.hour, 2) && s[2] == ':'
      && s[3..5] == Padded(t.minute, 2) && s[5] == ':' && s[6..8] == Padded(t.second, 2)
  {
    var h, m, sec := Padded(t.hour, 2), Padded(t.minute, 2), Padded(t.second, 2);
    NumberOfPadded(t.hour, 2);
    NumberOfPadded(t.minute, 2);
    NumberOfPadded(t.second, 2);
    var s := TimePart(t);
    assert s == h + ":" + m + ":" + sec;
    assert s[0..2] == h;
    assert s[3..5] == m;
    assert s[6..8] == sec;
  }

  /** `r` holds the pieces of the rendering of `(d, t)` at their fixed positions. */
  predicate LaidOut(fmt: Format, r: string, d: Date, t: Time)
    requires ValidDate(d) && ValidTime(t)
  {
    && |r| == 19 + |fmt.suffix|
    && r[0..4] == Padded(d.year, 4) && r[4] == '-' && r[5..7] == Padded(d.month, 2)
    && r[7] == '-' && r[8..10] == Padded(d.day, 2) && r[10] == fmt.separator
    && r[11..13] == Padded(t.hour, 2) && r[13] == ':' && r[14..16] == Padded(t.minute, 2)
    && r[16] == ':' && r[17..19] == Padded(t.second, 2) && r[19..] == fmt.suffix
  }

  lemma RenderLayout(fmt: Format, d: Date, t: Time)
    requires ValidDate(d) && ValidTime(t)
    ensures LaidOut(fmt, Render(fmt, d, t), d, t)
  {
    var ds, ts := DatePart(d), TimePart(t);
    DateLayout(d);
    TimeLayout(t);
    var s := Render(fmt, d, t);
    assert s == ds + [fmt.separator] + ts + fmt.suffix;
    assert s[0..10] == ds;
    assert s[11..19] == ts;
    assert s[0..4] == ds[0..4] && s[5..7] == ds[5..7] && s[8..10] == ds[8..10];
    assert s[11..13] == ts[0..2] && s[14..16] == ts[3..5] && s[17..19] == ts[6..8];
  }

  /** Digits fold to themselves, so a string equal up to case to a digit
      string is that digit string. */
  lemma SameDigits(a: string, b: string)
    requires SameUpToCase(a, b) && AllDigits(b)
    ensures a == b
  {
    forall i | 0 <= i < |a| ensures a[i] == b[i] {
      assert Fold(a[i]) == Fold(b[i]);
    }
  }

  /** A field of a string equal up to case to a rendering holds the
      rendered number. */
  lemma FieldOfRendering(s: string, r: string, lo: nat, w: nat, n: nat)
    requires SameUpToCase(s, r) && lo + w <= |r|
    requires n < Pow10(w) && r[lo..lo + w] == Padded(n, w)
    ensures AllDigits(s[lo..lo + w]) && Number(s[lo..lo + w]) == n
  {
    NumberOfPadded(n, w);
    var x, y := s[lo..lo + w], r[lo..lo + w];
    assert SameUpToCase(x, y) by {
      forall i | 0 <= i < w ensures Fold(x[i]) == Fold(y[i]) {
        assert x[i] == s[lo + i] && y[i] == r[lo + i];
      }
    }
    SameDigits(x, y);
  }

  /** A punctuation character of a rendering is matched exactly. */
  lemma LiteralOfRendering(s: string, r: string, i: nat)
    requires SameUpToCase(s, r) && i < |r|
    requires !('a' <= r[i] <= 'z') && !('A' <= r[i] <= 'Z')
    ensures s[i] == r[i]
  {
    assert Fold(s[i]) == Fold(r[i]);
  }

  /** The tail of a string equal up to case to a rendering matches the suffix. */
  lemma SuffixOfRendering(s: string, r: string, suffix: string)
    requires SameUpToCase(s, r) && |r| >= 19 && r[19..] == suffix
    ensures SameUpToCase(s[19..], suffix)
  {
    forall i | 0 <= i < |s[19..]| ensures Fold(s[19..][i]) == Fold(suffix[i]) {
      assert s[19..][i] == s[19 + i] && r[19 + i] == r[19..][i];
    }
  }

  /** The date fields of a string equal up to case to a rendering hold the
      rendered numbers. */
  lemma DateFieldsOfRendering(fmt: Format, s: string, r: string, d: Date, t: Time)
    requires ValidDate(d) && ValidTime(t)
    requires LaidOut(fmt, r, d, t) && SameUpToCase(s, r)
    ensures AllDigits(s[0..4]) && AllDigits(s[5..7]) && AllDigits(s[8..10])
    ensures Number(s[0..4]) == d.year && Number(s[5..7]) == d.month && Number(s[8..10]) == d.day
  {
    assert Pow10(2) == 100 && Pow10(4) == 10000;
    FieldOfRendering(s, r, 0, 4, d.year);
    FieldOfRendering(s, r, 5, 2, d.month);
    FieldOfRendering(s, r, 8, 2, d.day);
  }

  /** Likewise for the time fields. */
  lemma TimeFieldsOfRendering(fmt: Format, s: string, r: string, d: Date, t: Time)
    requires ValidDate(d) && ValidTime(t)
    requires LaidOut(fmt, r, d, t) && SameUpToCase(s, r)
    ensures AllDigits(s[11..13]) && AllDigits(s[14..16]) && AllDigits(s[17..19])
    ensures Number(s[11..13]) == t.hour && Number(s[14..16]) == t.minute && Number(s[17..19]) == t.second
  {
    assert Pow10(2) == 100;
    FieldOfRendering(s, r, 11, 2, t.hour);
    FieldOfRendering(s, r, 14, 2, t.minute);
    FieldOfRendering(s, r, 17, 2, t.second);
  }

  /** A string equal up to case to a rendering has the shape of the format,
      and its fields hold the rendered numbers. */
  lemma ShapeOfRendering(fmt: Format, s: string, r: string, d: Date, t: Time)
    requires ValidDate(d) && ValidTime(t)
    requires LaidOut(fmt, r, d, t) && SameUpToCase(s, r)
    ensures FitsShape(fmt, s)
    ensures Number(s[0..4]) == d.year && Number(s[5..7]) == d.month && Number(s[8..10]) == d.day
    ensures Number(s[11..13]) == t.hour && Number(s[14..16]) == t.minute && Number(s[17..19]) == t.second
  {
    DateFieldsOfRendering(fmt, s, r, d, t);
    TimeFieldsOfRendering(fmt, s, r, d, t);
    LiteralOfRendering(s, r, 4);
    LiteralOfRendering(s, r, 7);
    LiteralOfRendering(s, r, 13);
    LiteralOfRendering(s, r, 16);
    assert Fold(s[10]) == Fold(r[10]);
    SuffixOfRendering(s, r, fmt.suffix);
  }

  /** Every string that renders a valid date and time, in any mix of letter
      cases, converts to exactly that date and time: the fields are the
      encoded numbers. */
  lemma ConvertRendering(fmt: Format, s: string, d: Date, t: Time)
    requires ValidDate(d) && ValidTime(t)
    requires SameUpToCase(s, Render(fmt, d, t))
    ensures Convert(fmt, s) == Converted(d, t)
  {
    RenderLayout(fmt, d, t);
    ShapeOfRendering(fmt, s, Render(fmt, d, t), d, t);
  }

  /** The two strings agree, up to case, on the positions `lo` to `hi - 1`. */
  predicate AgreeOn(s: string, r: string, lo: int, hi: int)
  {
    && 0 <= lo <= hi && hi <= |s| && hi <= |r|
    && forall i :: lo <= i < hi ==> Fold(s[i]) == Fold(r[i])
  }

  lemma AgreeJoin(s: string, r: string, a: int, b: int, c: int)
    requires AgreeOn(s, r, a, b) && AgreeOn(s, r, b, c)
    ensures AgreeOn(s, r, a, c)
  {
  }

  /** A field read as the number `n` is, character for character, the
      rendering of `n`. */
  lemma RenderedField(s: string, r: string, lo: nat, w: nat, n: nat)
    requires lo + w <= |s| && lo + w <= |r|
    requires AllDigits(s[lo..lo + w]) && Number(s[lo..lo + w]) == n
    requires r[lo..lo + w] == Padded(n, w)
    ensures AgreeOn(s, r, lo, lo + w)
  {
    var x, y := s[lo..lo + w], r[lo..lo + w];
    PaddedOfNumber(x);
    forall i | lo <= i < lo + w ensures s[i] == r[i] {
      assert s[i] == x[i - lo] && r[i] == y[i - lo];
    }
  }

  /** The literal tail agrees with the suffix of the rendering. */
  lemma TailAgrees(s: string, r: string, suffix: string)
    requires |s| == |r| >= 19
    requires SameUpToCase(s[19..], suffix) && r[19..] == suffix
    ensures AgreeOn(s, r, 19, |s|)
  {
    forall i | 19 <= i < |s| ensures Fold(s[i]) == Fold(r[i]) {
      assert s[i] == s[19..][i - 19] && r[i] == r[19..][i - 19];
    }
  }

  /** A string of the right shape whose fields hold `(d, t)` agrees up to
      case with the rendering of `(d, t)`. */
  lemma AgreesWithRendering(fmt: Format, s: string, r: string, d: Date, t: Time)
    requires ValidDate(d) && ValidTime(t) && LaidOut(fmt, r, d, t) && FitsShape(fmt, s)
    requires Number(s[0..4]) == d.year && Number(s[5..7]) == d.month && Number(s[8..10]) == d.day
    requires Number(s[11..13]) == t.hour && Number(s[14..16]) == t.minute && Number(s[17..19]) == t.second
    ensures SameUpToCase(s, r)
  {
    RenderedField(s, r, 0, 4, d.year);
    assert AgreeOn(s, r, 4, 5);
    RenderedField(s, r, 5, 2, d.month);
    assert AgreeOn(s, r, 7, 8);
    RenderedField(s, r, 8, 2, d.day);
    assert AgreeOn(s, r, 10, 11);
    RenderedField(s, r, 11, 2, t.hour);
    assert AgreeOn(s, r, 13, 14);
    RenderedField(s, r, 14, 2, t.minute);
    assert AgreeOn(s, r, 16, 17);
    RenderedField(s, r, 17, 2, t.second);
    TailAgrees(s, r, fmt.suffix);
    AgreeJoin(s, r, 0, 4, 5);
    AgreeJoin(s, r, 0, 5, 7);
    AgreeJoin(s, r, 0, 7, 8);
    AgreeJoin(s, r, 0, 8, 10);
    AgreeJoin(s, r, 0, 10, 11);
    AgreeJoin(s, r, 0, 11, 13);
    AgreeJoin(s, r, 0, 13, 14);
    AgreeJoin(s, r, 0, 14, 16);
    AgreeJoin(s, r, 0, 16, 17);
    AgreeJoin(s, r, 0, 17, 19);
    AgreeJoin(s, r, 0, 19, |s|);
  }

  /** Reformatting a converted string with the same format gives back the
      input, up to the case of the literal letters. */
  lemma ConvertedIsRendering(fmt: Format, s: string)
    requires Convert(fmt, s).Converted?
    ensures SameUpToCase(s, Render(fmt, Convert(fmt, s).date, Convert(fmt, s).time))
  {
    var c := Convert(fmt, s);
    assert FitsShape(fmt, s);
    RenderLayout(fmt, c.date, c.time);
    AgreesWithRendering(fmt, s, Render(fmt, c.date, c.time), c.date, c.time);
  }

  /** The sentinel `(0, 0)` comes back exactly for the strings that are not a
      rendering of any valid date and time: a wrong shape, a wrong separator
      or suffix, a month, day, hour, minute or second out of range, a day
      the month does not have, the year 0000. */
  lemma SentinelIffNoRendering(fmt: Format, s: string)
    ensures Convert(fmt, s) == Sentinel <==>
      forall d: Date, t: Time :: ValidDate(d) && ValidTime(t) ==> !SameUpToCase(s, Render(fmt, d, t))
  {
    if Convert(fmt, s).Converted? {
      ConvertedIsRendering(fmt, s);
    } else {
      forall d: Date, t: Time | ValidDate(d) && ValidTime(t)
        ensures !SameUpToCase(s, Render(fmt, d, t))
      {
        if SameUpToCase(s, Render(fmt, d, t)) {
          ConvertRendering(fmt, s, d, t);
        }
      }
    }
  }

  /** A string of the wrong length gives the sentinel. */
  lemma WrongLengthGivesSentinel(fmt: Format, s: string)
    requires |s| != 19 + |fmt.suffix|
    ensures Convert(fmt, s) == Sentinel
  {
  }

  /** The empty string gives the sentinel (tests/test_lex_podcast.py:47). */
  lemma EmptyGivesSentinel(fmt: Format)
    ensures Convert(fmt, "") == Sentinel
  {
  }

  // ---------------------------------------------------------------------
  // The examples of the docstring and the tests

  lemma NumberOfTwo(s: string)
    requires |s| == 2 && AllDigits(s)
    ensures Number(s) == 10 * DigitValue(s[0]) + DigitValue(s[1])
  {
    var s1 := s[..1];
    assert s1[..0] == [];
    assert Number(s1) == DigitValue(s[0]);
  }

  lemma NumberOfFour(s: string)
    requires |s| == 4 && AllDigits(s)
    ensures Number(s) == 1000 * DigitValue(s[0]) + 100 * DigitValue(s[1]) + 10 * DigitValue(s[2]) + DigitValue(s[3])
  {
    var s3, s2 := s[..3], s[..2];
    assert s3[..2] == s2;
    NumberOfTwo(s2);
    assert Number(s3) == Number(s2) * 10 + DigitValue(s[2]);
  }

  /** The shape, checked character by character. */
  lemma ShapeOfChars(fmt: Format, s: string)
    requires |s| == 19 + |fmt.suffix|
    requires IsDigit(s[0]) && IsDigit(s[1]) && IsDigit(s[2]) && IsDigit(s[3]) && s[4] == '-'
    requires IsDigit(s[5]) && IsDigit(s[6]) && s[7] == '-' && IsDigit(s[8]) && IsDigit(s[9])
    requires Fold(s[10]) == Fold(fmt.separator)
    requires IsDigit(s[11]) && IsDigit(s[12]) && s[13] == ':' && IsDigit(s[14]) && IsDigit(s[15])
    requires s[16] == ':' && IsDigit(s[17]) && IsDigit(s[18])
    requires forall i :: 0 <= i < |fmt.suffix| ==> Fold(s[19 + i]) == Fold(fmt.suffix[i])
    ensures FitsShape(fmt, s)
  {
    assert SameUpToCase(s[19..], fmt.suffix) by {
      forall i | 0 <= i < |fmt.suffix| ensures Fold(s[19..][i]) == Fold(fmt.suffix[i]) {
        assert s[19..][i] == s[19 + i];
      }
    }
  }

  /** What a string of the right shape converts to, digit by digit. */
  lemma ConvertOfShape(fmt: Format, s: string)
    requires FitsShape(fmt, s)
    ensures var d := Date(1000 * DigitValue(s[0]) + 100 * DigitValue(s[1]) + 10 * DigitValue(s[2]) + DigitValue(s[3]),
                          10 * DigitValue(s[5]) + DigitValue(s[6]), 10 * DigitValue(s[8]) + DigitValue(s[9]));
            var t := Time(10 * DigitValue(s[11]) + DigitValue(s[12]), 10 * DigitValue(s[14]) + DigitValue(s[15]),
                          10 * DigitValue(s[17]) + DigitValue(s[18]));
            Convert(fmt, s) == if ValidDate(d) && ValidTime(t) then Converted(d, t) else Sentinel
  {
    FieldValues(s);
  }

  /** The six fields of a string of the fixed-width shape, read as numbers. */
  lemma FieldValues(s: string)
    requires |s| >= 19
    requires AllDigits(s[0..4]) && AllDigits(s[5..7]) && AllDigits(s[8..10])
    requires AllDigits(s[11..13]) && AllDigits(s[14..16]) && AllDigits(s[17..19])
    ensures Number(s[0..4]) == 1000 * DigitValue(s[0]) + 100 * DigitValue(s[1]) + 10 * DigitValue(s[2]) + DigitValue(s[3])
    ensures Number(s[5..7]) == 10 * DigitValue(s[5]) + DigitValue(s[6])
    ensures Number(s[8..10]) == 10 * DigitValue(s[8]) + DigitValue(s[9])
    ensures Number(s[11..13]) == 10 * DigitValue(s[11]) + DigitValue(s[12])
    ensures Number(s[14..16]) == 10 * DigitValue(s[14]) + DigitValue(s[15])
    ensures Number(s[17..19]) == 10 * DigitValue(s[17]) + DigitValue(s[18])
  {
    NumberOfFour(s[0..4]);
    NumberOfTwo(s[5..7]);
    NumberOfTwo(s[8..10]);
    NumberOfTwo(s[11..13]);
    NumberOfTwo(s[14..16]);
    NumberOfTwo(s[17..19]);
  }

  /** The docstring's example (parsing/lex_podcast.py:154-155) holds for the
      code's format; so the test's "sad path" (tests/test_lex_podcast.py:45-46)
      does not: this input converts instead of giving `(0, 0)`. */
  lemma CodeFormatAcceptsIsoInput()
    ensures Convert(CodeFormat, "2022-11-04T16:09:32Z") == Converted(Date(2022, 11, 4), Time(16, 9, 32))
  {
    var s := "2022-11-04T16:09:32Z";
    ShapeOfChars(CodeFormat, s);
    ConvertOfShape(CodeFormat, s);
  }

  /** The literal `T` and `Z` are matched without regard to case. */
  lemma CodeFormatIgnoresCase()
    ensures Convert(CodeFormat, "2022-11-04t16:09:32z") == Converted(Date(2022, 11, 4), Time(16, 9, 32))
  {
    var s := "2022-11-04t16:09:32z";
    ShapeOfChars(CodeFormat, s);
    ConvertOfShape(CodeFormat, s);
  }

  /** The test's "good path" input (tests/test_lex_podcast.py:38-41) gives the
      sentinel under the code's format, and the expected pair under the
      format the test assumes. */
  lemma SpaceInputNeedsSpaceFormat()
    ensures Convert(CodeFormat, "2022-11-04 16:09:32") == Sentinel
    ensures Convert(SpaceFormat, "2022-11-04 16:09:32") == Converted(Date(2022, 11, 4), Time(16, 9, 32))
  {
    var s := "2022-11-04 16:09:32";
    WrongLengthGivesSentinel(CodeFormat, s);
    ShapeOfChars(SpaceFormat, s);
    ConvertOfShape(SpaceFormat, s);
  }

  /** February 29th exists only in leap years. */
  lemma NonLeapYearHasNoFebruary29()
    ensures Convert(CodeFormat, "2023-02-29T00:00:00Z") == Sentinel
  {
    var s := "2023-02-29T00:00:00Z";
    ShapeOfChars(CodeFormat, s);
    ConvertOfShape(CodeFormat, s);
  }

  lemma LeapYearHasFebruary29()
    ensures Convert(CodeFormat, "2024-02-29T00:00:00Z") == Converted(Date(2024, 2, 29), Time(0, 0, 0))
  {
    var s := "2024-02-29T00:00:00Z";
    ShapeOfChars(CodeFormat, s);
    ConvertOfShape(CodeFormat, s);
  }

  /** `datetime` has no year 0. */
  lemma YearZeroRefused()
    ensures Convert(CodeFormat, "0000-01-01T00:00:00Z") == Sentinel
  {
    var s := "0000-01-01T00:00:00Z";
    ShapeOfChars(CodeFormat, s);
    ConvertOfShape(CodeFormat, s);
  }

  /** A leap second passes the pattern but not the datetime constructor. */
  lemma LeapSecondRefused()
    ensures Convert(CodeFormat, "2022-11-04T16:09:60Z") == Sentinel
  {
    var s := "2022-11-04T16:09:60Z";
    ShapeOfChars(CodeFormat, s);
    ConvertOfShape(CodeFormat, s);
  }
}
