/**
 * The text and blink rules of the digital clock that `onDraw` paints: the
 * 12-hour mapping of `Calendar.HOUR`, Java's `String.format("%02d", n)` used
 * for hours and minutes, and the predicate that decides whether the colon
 * between them is drawn.
 */
module FaceText {
  import opened TickTiming

  /** The character of one decimal digit. */
  function DigitChar(d: int): (c: char)
    requires 0 <= d < 10
    ensures '0' <= c <= '9'
  {
    (48 + d) as char
  }

  predicate IsDigit(c: char) {
    '0' <= c <= '9'
  }

  /** The value of a decimal digit character; the inverse of `DigitChar`. */
  function DigitValue(c: char): (d: int)
    requires IsDigit(c)
    ensures 0 <= d < 10 && DigitChar(d) == c
  {
    c as int - 48
  }

  /** The decimal digits of `n`, most significant first, without padding. */
  function Digits(n: nat): (s: string)
    ensures 1 <= |s|
    ensures forall i :: 0 <= i < |s| ==> IsDigit(s[i])
    ensures n < 10 <==> |s| == 1
    ensures 10 <= n ==> s[0] != '0'
  {
    if n < 10 then [DigitChar(n)] else Digits(n / 10) + [DigitChar(n % 10)]
  }

  /** The number a string of decimal digits denotes (leading zeros allowed). */
  function ParseDecimal(s: string): nat
    requires forall i :: 0 <= i < |s| ==> IsDigit(s[i])
  {
    if s == [] then 0 else ParseDecimal(s[..|s| - 1]) * 10 + DigitValue(s[|s| - 1])
  }

  /** The number an optionally signed decimal string denotes. */
  function ParseInteger(s: string): int
    requires s != []
    requires s[0] == '-' ==> forall i :: 1 <= i < |s| ==> IsDigit(s[i])
    requires s[0] != '-' ==> forall i :: 0 <= i < |s| ==> IsDigit(s[i])
  {
    if s[0] == '-' then 0 - ParseDecimal(s[1..]) else ParseDecimal(s)
  }

  /** Reading back the digits of `n` gives `n`. */
  lemma {:induction false} DigitsRoundTrip(n: nat)
    ensures ParseDecimal(Digits(n)) == n
    decreases n
  {
    if n >= 10 {
      var s := Digits(n);
      assert s[..|s| - 1] == Digits(n / 10);
      DigitsRoundTrip(n / 10);
    }
  }

  /** A leading zero does not change the value of a decimal string. */
  lemma {:induction false} LeadingZero(s: string)
    requires forall i :: 0 <= i < |s| ==> IsDigit(s[i])
    ensures ParseDecimal("0" + s) == ParseDecimal(s)
    decreases |s|
  {
    if s != [] {
      var t := "0" + s;
      assert t[..|t| - 1] == "0" + s[..|s| - 1];
      LeadingZero(s[..|s| - 1]);
    }
  }

  /**
   * `String.format("%02d", n)`: the decimal digits of `n`, zero-padded to a
   * width of two; a negative number already fills the width with its sign.
   * For `0 <= n < 100` the result is exactly two digits: tens, then units.
   */
  function FormatTwoDigitNumber(n: int): (s: string)
    ensures 2 <= |s|
    ensures 0 <= n < 100 ==> |s| == 2 && s[0] == DigitChar(n / 10) && s[1] == DigitChar(n % 10)
    ensures s[0] == '-' <==> n < 0
    ensures forall i :: (if n < 0 then 1 else 0) <= i < |s| ==> IsDigit(s[i])
  {
    if n < 0 then "-" + Digits(-n)
    else if n < 10 then "0" + Digits(n)
    else
      assert n < 100 ==> Digits(n / 10) == [DigitChar(n / 10)];
      Digits(n)
  }

  /** Formatting loses nothing: the padded text reads back as the number. */
  lemma FormatTwoDigitNumberRoundTrip(n: int)
    ensures ParseInteger(FormatTwoDigitNumber(n)) == n
  {
    var s := FormatTwoDigitNumber(n);
    if n < 0 {
      assert s[1..] == Digits(-n);
      DigitsRoundTrip(-n);
    } else if n < 10 {
      LeadingZero(Digits(n));
      DigitsRoundTrip(n);
    } else {
      DigitsRoundTrip(n);
    }
  }

  /** A text of exactly two decimal digits. */
  predicate IsTwoDigitText(s: string) {
    |s| == 2 && IsDigit(s[0]) && IsDigit(s[1])
  }

  /** The number a two-digit text denotes. */
  function TwoDigitValue(s: string): (n: int)
    requires IsTwoDigitText(s)
    ensures 0 <= n < 100
  {
    10 * DigitValue(s[0]) + DigitValue(s[1])
  }

  /** For `0..99` the padded text is two digits that read back as the number. */
  lemma FormatTwoDigitNumberIsTwoDigits(n: int)
    requires 0 <= n < 100
    ensures IsTwoDigitText(FormatTwoDigitNumber(n))
    ensures TwoDigitValue(FormatTwoDigitNumber(n)) == n
  {
    var s := FormatTwoDigitNumber(n);
    assert DigitValue(s[0]) == n / 10 && DigitValue(s[1]) == n % 10;
  }

  /**
   * The hour `onDraw` shows for `Calendar.HOUR` (which runs 0..11): hour 0
   * is shown as 12, so the display runs 1..12 and still agrees with the
   * calendar modulo 12.
   */
  function DisplayHour(calendarHour: int): (h: int)
    ensures 0 <= calendarHour < 12 ==> 1 <= h <= 12 && h % 12 == calendarHour
  {
    if calendarHour == 0 then 12 else calendarHour
  }

  /**
   * The hour text is two digits that read as an hour of 1..12 agreeing with
   * the calendar modulo 12.
   */
  lemma HourTextIsTwoDigitHour(calendarHour: int)
    requires 0 <= calendarHour < 12
    ensures IsTwoDigitText(FormatTwoDigitNumber(DisplayHour(calendarHour)))
    ensures 1 <= TwoDigitValue(FormatTwoDigitNumber(DisplayHour(calendarHour))) <= 12
    ensures TwoDigitValue(FormatTwoDigitNumber(DisplayHour(calendarHour))) % 12 == calendarHour
  {
    FormatTwoDigitNumberIsTwoDigits(DisplayHour(calendarHour));
  }

  /**
   * Whether the colon is painted: always in ambient or mute mode, otherwise
   * during the first half of each second of `clockMs`, read with Java's
   * remainder.
   */
  predicate ShouldDrawColons(ambient: bool, mute: bool, clockMs: int) {
    ambient || mute || JavaRem(clockMs, 1000) < 500
  }

  /** The boundaries of the blink in interactive, unmuted mode. */
  lemma ColonBoundaries()
    ensures ShouldDrawColons(false, false, 0)
    ensures ShouldDrawColons(false, false, 499)
    ensures !ShouldDrawColons(false, false, 500)
    ensures !ShouldDrawColons(false, false, 999)
    ensures ShouldDrawColons(false, false, 1000)
  {
  }

  /**
   * In interactive, unmuted mode the colon is on exactly in the even
   * half-seconds since the epoch.
   */
  lemma {:induction false} ColonOnInEvenHalfSeconds(clockMs: int)
    requires clockMs >= 0
    ensures ShouldDrawColons(false, false, clockMs) <==> (clockMs / 500) % 2 == 0
  {
    var q, r := clockMs / 1000, clockMs % 1000;
    assert clockMs == 1000 * q + r;
    if r < 500 {
      assert clockMs == 500 * (2 * q) + r;
      ModUnique(clockMs, 500, 2 * q, r);
      ModUnique(2 * q, 2, q, 0);
    } else {
      assert clockMs == 500 * (2 * q + 1) + (r - 500);
      ModUnique(clockMs, 500, 2 * q + 1, r - 500);
      ModUnique(2 * q + 1, 2, q, 1);
    }
  }

  /**
   * Before the epoch Java's remainder is never positive, so the colon is
   * drawn at every clock reading, whatever the half-second.
   */
  lemma ColonAlwaysOnBeforeEpoch(clockMs: int)
    requires clockMs < 0
    ensures ShouldDrawColons(false, false, clockMs)
  {
  }

  /** At -200 ms, an odd half-second, the colon is still drawn. */
  lemma ColonBeforeEpochExample()
    ensures ShouldDrawColons(false, false, -200) && (-200 / 500) % 2 != 0
  {
    ColonAlwaysOnBeforeEpoch(-200);
  }

  /**
   * With the 500 ms interactive rate every tick lands on a half-second
   * boundary, and the colon flips between one tick and the next: each
   * tick's redraw blinks it.
   */
  lemma {:induction false} ColonFlipsEveryInteractiveTick(tickMs: int)
    requires tickMs >= 0 && tickMs % NormalUpdateRateMs == 0
    ensures ShouldDrawColons(false, false, tickMs) != ShouldDrawColons(false, false, tickMs + NormalUpdateRateMs)
  {
    var k := tickMs / 500;
    assert tickMs == 500 * k;
    ModUnique(tickMs + 500, 500, k + 1, 0);
    ColonOnInEvenHalfSeconds(tickMs);
    ColonOnInEvenHalfSeconds(tickMs + 500);
    ModUnique(k, 2, k / 2, k % 2);
    if k % 2 == 0 {
      ModUnique(k + 1, 2, k / 2, 1);
    } else {
      ModUnique(k + 1, 2, k / 2 + 1, 0);
    }
  }
}
