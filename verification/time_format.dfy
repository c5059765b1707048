/**
 The "MM:SS" display text of the Pomodoro clock.

 `FormatTime` follows the JavaScript helper `formatTime`: the minutes are
 `Math.floor(seconds / 60)` and the seconds are `seconds % 60` (JavaScript's
 truncating remainder), each turned into decimal text and left-padded with
 '0' to two characters. `ParseTime` reads such a text back, which gives the
 round trip that shows the display loses nothing for non-negative inputs.
 */
module TimeFormat {

  datatype Option<T> = None | Some(value: T)

  predicate IsDigit(c: char) {
    '0' <= c <= '9'
  }

  predicate AllDigits(s: string) {
    forall i :: 0 <= i < |s| ==> IsDigit(s[i])
  }

  function DigitValue(c: char): (d: nat)
    requires IsDigit(c)
    ensures d < 10
  {
    c as int - '0' as int
  }

  function DigitChar(d: nat): (c: char)
    requires d < 10
    ensures IsDigit(c) && DigitValue(c) == d
  {
    ('0' as int + d) as char
  }

  /** The number a string of decimal digits denotes, most significant digit
      first. Leading zeros are allowed and the empty string denotes 0. */
  function DecimalValue(s: string): nat
    requires AllDigits(s)
  {
    if s == [] then 0 else DecimalValue(s[..|s| - 1]) * 10 + DigitValue(s[|s| - 1])
  }

  /** JavaScript's `toString()` on a non-negative integer: the shortest decimal
      text of the number. */
  function NatToDecimal(n: nat): (r: string)
    ensures AllDigits(r) && DecimalValue(r) == n
    ensures 1 <= |r|
    ensures n < 100 <==> |r| <= 2
    ensures n == 0 ==> r == "0"
    ensures n > 0 ==> r[0] != '0'
    ensures |r| == 1 || r[0] != '0'
  {
    if n < 10 then
      [DigitChar(n)]
    else
      var prefix := NatToDecimal(n / 10);
      var r := prefix + [DigitChar(n % 10)];
      assert r[..|r| - 1] == prefix;
      r
  }

  /** JavaScript's `toString()` on any integer: a '-' in front of the
      magnitude's digits when negative. */
  function IntToDecimal(n: int): (r: string)
    ensures 1 <= |r|
    ensures n >= 0 ==> AllDigits(r) && DecimalValue(r) == n
    ensures n >= 0 ==> |r| == 1 || r[0] != '0'
    ensures n < 0 ==> 2 <= |r| && r[0] == '-'
    ensures n < 0 ==> AllDigits(r[1..]) && DecimalValue(r[1..]) == -n
    ensures n < 0 ==> r[1] != '0'
    ensures -100 < n < 0 ==> |r| <= 3
  {
    if n < 0 then
      var digits := NatToDecimal(-n);
      var r := "-" + digits;
      assert r[1..] == digits;
      r
    else
      NatToDecimal(n)
  }

  /** JavaScript's `padStart(2, "0")`: a text shorter than two characters
      is prefixed with '0' up to two characters; a longer one is left alone. */
  function PadTwo(s: string): (r: string)
    ensures |r| == if |s| >= 2 then |s| else 2
    ensures |s| >= 2 ==> r == s
  {
    if |s| >= 2 then s else if |s| == 1 then ['0'] + s else ['0', '0']
  }

  /** `Math.floor(a / b)` for a positive integer divisor. */
  function FloorDiv(a: int, b: int): (q: int)
    requires b > 0
    ensures b * q <= a < b * q + b
  {
    a / b
  }

  /** The quotient of division rounded toward zero, for a positive divisor. */
  function TruncDiv(a: int, b: int): (q: int)
    requires b > 0
    ensures a >= 0 ==> 0 <= q && b * q <= a < b * q + b
    ensures a < 0 ==> q <= 0 && b * q - b < a <= b * q
  {
    if a >= 0 then a / b else -((-a) / b)
  }

  /** JavaScript's `a % b` for a positive divisor: the remainder of truncating
      division, which takes the sign of the dividend. */
  function JsRemainder(a: int, b: int): (r: int)
    requires b > 0
    ensures a >= 0 ==> 0 <= r < b
    ensures a < 0 ==> -b < r <= 0
    ensures a == b * TruncDiv(a, b) + r
  {
    if a >= 0 then a % b else -((-a) % b)
  }

  /** `formatTime(seconds)`: zero-padded minutes, ':', zero-padded seconds. */
  function FormatTime(seconds: int): (r: string)
    ensures |r| >= 5
    ensures seconds >= 0 ==> r[|r| - 3] == ':'
    ensures seconds < 0 ==> r[0] == '-'
  {
    var minutes := PadTwo(IntToDecimal(FloorDiv(seconds, 60)));
    var remainingSeconds := PadTwo(IntToDecimal(JsRemainder(seconds, 60)));
    assert seconds >= 0 ==> |remainingSeconds| == 2;
    Join(minutes, remainingSeconds)
  }

  /** The template `${minutes}:${remainingSeconds}`. */
  function Join(minutes: string, seconds: string): (r: string)
    ensures |r| == |minutes| + 1 + |seconds|
    ensures r[|minutes|] == ':'
  {
    minutes + ([':'] + seconds)
  }

  /** Both fields can be recovered from the joined text: the minutes before
      the ':' and the seconds after it. */
  lemma JoinParts(minutes: string, seconds: string)
    ensures var r := Join(minutes, seconds);
      && r[..|minutes|] == minutes && r[|minutes| + 1..] == seconds
  {
  }

  /** Reads a display text back into a number of seconds: at least two digits
      of minutes, ':', then exactly two digits of seconds below 60. */
  function ParseTime(t: string): Option<int>
  {
    if |t| < 5 then None
    else
      var minutes, rest := t[..|t| - 3], t[|t| - 3..];
      if rest[0] == ':' then ParseParts(minutes, rest[1..]) else None
  }

  /** The number of seconds denoted by a minutes field and a seconds field. */
  function ParseParts(minutes: string, seconds: string): Option<int>
  {
    if AllDigits(minutes) && AllDigits(seconds) && DecimalValue(seconds) < 60
    then Some(DecimalValue(minutes) * 60 + DecimalValue(seconds))
    else None
  }

  /** Padding keeps the text whole at the end and fills only with '0' in
      front of it. */
  lemma PadTwoShape(s: string)
    ensures var r := PadTwo(s);
      && r[|r| - |s|..] == s
      && forall i :: 0 <= i < |r| - |s| ==> r[i] == '0'
  {
  }

  /** Padding to two characters with '0' keeps a digit string's value. */
  lemma PadTwoKeepsValue(s: string)
    requires AllDigits(s)
    ensures AllDigits(PadTwo(s))
    ensures DecimalValue(PadTwo(s)) == DecimalValue(s)
  {
    var p := PadTwo(s);
    if |s| == 0 {
      assert p == "00";
      assert p[..1] == "0";
    } else if |s| == 1 {
      assert p == ['0', s[0]];
      assert p[..1] == "0";
      assert s[..0] == [];
    }
  }

  /** A non-negative field printed and padded to two characters is a digit
      string of at least two characters holding the field's value. */
  lemma PaddedFieldValue(x: int)
    requires x >= 0
    ensures var f := PadTwo(IntToDecimal(x));
      && |f| >= 2 && AllDigits(f) && DecimalValue(f) == x
      && (x < 100 ==> |f| == 2)
  {
    PadTwoKeepsValue(NatToDecimal(x));
  }

  /** A text joined from minute digits, ':' and two second digits reads back
      as the number those digits denote. */
  lemma ParseJoined(m: string, ss: string)
    requires |m| >= 2 && AllDigits(m)
    requires |ss| == 2 && AllDigits(ss) && DecimalValue(ss) < 60
    ensures ParseTime(Join(m, ss)) == Some(DecimalValue(m) * 60 + DecimalValue(ss))
  {
    var t := Join(m, ss);
    assert |t| - 3 == |m|;
    assert ParseTime(t) == ParseParts(m, ss);
  }

  /** Round trip: the display text of any non-negative number of seconds
      reads back as that number. */
  lemma FormatTimeRoundTrip(n: int)
    requires n >= 0
    ensures ParseTime(FormatTime(n)) == Some(n)
  {
    PaddedFieldValue(n / 60);
    PaddedFieldValue(n % 60);
    var m := PadTwo(IntToDecimal(n / 60));
    var ss := PadTwo(IntToDecimal(n % 60));
    ParseJoined(m, ss);
    var p := ParseTime(Join(m, ss));
    assert p.Some? && p.value == n;
  }

  /** Different non-negative numbers of seconds are displayed differently. */
  lemma FormatTimeInjective(a: int, b: int)
    requires a >= 0 && b >= 0 && a != b
    ensures FormatTime(a) != FormatTime(b)
  {
    FormatTimeRoundTrip(a);
    FormatTimeRoundTrip(b);
  }

  /** The value of a two-digit field. */
  lemma TwoDigitValue(s: string)
    requires |s| == 2 && AllDigits(s)
    ensures DecimalValue(s) == DigitValue(s[0]) * 10 + DigitValue(s[1])
  {
    var p := s[..1];
    assert p[..0] == [];
    assert DecimalValue(p) == DigitValue(s[0]);
  }

  /** Below 100 minutes the text is exactly "MM:SS": five characters, two
      digits of minutes, ':', and two digits of seconds. */
  lemma FormatTimeFiveChars(n: int)
    requires 0 <= n < 6000
    ensures var t := FormatTime(n);
      && |t| == 5 && t[2] == ':'
      && IsDigit(t[0]) && IsDigit(t[1]) && IsDigit(t[3]) && IsDigit(t[4])
      && DigitValue(t[0]) * 10 + DigitValue(t[1]) == n / 60
      && DigitValue(t[3]) * 10 + DigitValue(t[4]) == n % 60
  {
    PaddedFieldValue(n / 60);
    PaddedFieldValue(n % 60);
    TwoDigitValue(PadTwo(IntToDecimal(n / 60)));
    TwoDigitValue(PadTwo(IntToDecimal(n % 60)));
  }

  /** A negative number of seconds gives a text with a '-' in it that does
      not read back as any number. */
  lemma FormatTimeNegativeUnreadable(n: int)
    requires n < 0
    ensures ParseTime(FormatTime(n)) == None
  {
    var t := FormatTime(n);
    var mins := FloorDiv(n, 60);
    var rem := JsRemainder(n, 60);
    var m := PadTwo(IntToDecimal(mins));
    var ss := PadTwo(IntToDecimal(rem));
    assert t == m + ":" + ss;
    assert mins < 0;
    assert |m| >= 2 && m[0] == '-';
    if |ss| == 2 {
      assert t[..|t| - 3] == m;
      assert !IsDigit(t[..|t| - 3][0]);
    } else {
      assert t[|t| - 3] == ss[0] == '-';
    }
  }

  /** The display of a fresh default session, of a freshly re-seeded
      five-minute break, and of zero. */
  lemma FormatTimeExamples()
    ensures FormatTime(1500) == "25:00"
    ensures FormatTime(301) == "05:01"
    ensures FormatTime(0) == "00:00"
  {
    var zero := PadTwo(IntToDecimal(0));
    assert zero == "00" by {
      assert NatToDecimal(0) == "0";
    }
    assert FloorDiv(1500, 60) == 25 && JsRemainder(1500, 60) == 0;
    assert PadTwo(IntToDecimal(25)) == "25" by {
      assert NatToDecimal(2) == "2";
      assert NatToDecimal(25) == "25";
    }
    assert FloorDiv(301, 60) == 5 && JsRemainder(301, 60) == 1;
    assert PadTwo(IntToDecimal(5)) == "05" by {
      assert NatToDecimal(5) == "5";
    }
    assert PadTwo(IntToDecimal(1)) == "01" by {
      assert NatToDecimal(1) == "1";
    }
    assert FloorDiv(0, 60) == 0 && JsRemainder(0, 60) == 0;
  }
}
