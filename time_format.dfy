/** What the hook hands to the page: the remaining seconds rendered as
    `MM:SS`, and the two threshold flags. Strings are built the way
    JavaScript builds them: `Number.prototype.toString` on an integer,
    `String.prototype.padStart` with `'0'`, and the truncating `%`. */
module TimeFormat {
  import opened PollTypes
  import opened Countdown

  predicate IsDigit(c: char)
  {
    '0' <= c <= '9'
  }

  /** Every character of `s` is a decimal digit (checked from the end, the
      way `ParseDigits` reads). */
  predicate AllDigits(s: string)
  {
    s == [] || (IsDigit(s[|s| - 1]) && AllDigits(s[..|s| - 1]))
  }

  /** The value of a digit character. */
  function DigitValue(c: char): int
  {
    c as int - '0' as int
  }

  function DigitChar(d: int): (c: char)
    requires 0 <= d < 10
    ensures IsDigit(c) && DigitValue(c) == d
  {
    ('0' as int + d) as char
  }

  /** The number a string of decimal digits denotes; the empty string
      denotes 0. It is meant for strings of digits only,
      which `AllDigits` checks separately. */
  function ParseDigits(s: string): (v: int)
    ensures AllDigits(s) ==> v >= 0
  {
    if s == [] then 0
    else ParseDigits(s[..|s| - 1]) * 10 + DigitValue(s[|s| - 1])
  }

  /** The decimal digits of `n`, without leading zeros. */
  function Digits(n: nat): (r: string)
    ensures |r| >= 1 && AllDigits(r)
    ensures ParseDigits(r) == n
    ensures r[0] != '0' || r == "0"
    ensures n < 10 <==> |r| == 1
    ensures n < 100 ==> |r| <= 2
    decreases n
  {
    if n < 10 then [DigitChar(n)]
    else
      var front := Digits(n / 10);
      var r := front + [DigitChar(n % 10)];
      assert r[..|r| - 1] == front;
      r
  }

  /** `n.toString()` for an integer `n`: its digits, after a minus sign when
      it is negative. */
  function DecimalString(n: int): (r: string)
    ensures n >= 0 ==> AllDigits(r) && ParseDigits(r) == n
    ensures n < 0 ==> |r| >= 2 && r[0] == '-'
  {
    if n < 0 then "-" + Digits(-n) else Digits(n)
  }

  /** The text of an integer is canonical: never empty; a non-negative
      number starts with `0` only when it is 0, whose text is just `0`; a
      negative one is a minus sign followed by the digits of its absolute
      value, with no zero in front. */
  lemma DecimalStringCanonical(n: int)
    ensures var r := DecimalString(n);
      && |r| >= 1
      && (n >= 0 ==> (r[0] == '0' <==> n == 0))
      && (n == 0 ==> r == "0")
      && (n < 0 ==> r[1] != '0' && AllDigits(r[1..]) && ParseDigits(r[1..]) == -n)
  {
    var r := DecimalString(n);
    if n < 0 {
      var d := Digits(-n);
      assert r[1..] == d;
    } else if r[0] == '0' {
      assert r == "0";
    }
  }

  /** `k` copies of `c`. */
  function Repeat(c: char, k: nat): (r: string)
    ensures |r| == k
    ensures forall i :: 0 <= i < k ==> r[i] == c
  {
    if k == 0 then [] else [c] + Repeat(c, k - 1)
  }

  /** `s.padStart(width, fill)`: fill characters in front of `s` up to
      `width` characters; a string already that long is left alone. The
      result is as long as the width or the input, whichever is longer,
      and holds only fill characters in front of the input. */
  function PadStart(s: string, width: nat, fill: char): (r: string)
    ensures |r| == if |s| < width then width else |s|
    ensures forall i :: 0 <= i < |r| - |s| ==> r[i] == fill
  {
    if |s| < width then Repeat(fill, width - |s|) + s else s
  }

  /** The padded text ends with the input unchanged. */
  lemma PadStartEndsWith(s: string, width: nat, fill: char)
    ensures var r := PadStart(s, width, fill);
      r[|r| - |s|..] == s
  {
    var r := PadStart(s, width, fill);
    if |s| < width {
      assert r == Repeat(fill, width - |s|) + s;
    }
  }

  /** JavaScript's `a % 60`: the remainder takes the sign of the dividend,
      so it differs from the Euclidean remainder for negative `a`. */
  function TruncatingRem60(a: int): (r: int)
    ensures a >= 0 ==> 0 <= r < 60 && (a - r) % 60 == 0
    ensures a < 0 ==> -60 < r <= 0 && (a - r) % 60 == 0
  {
    if a >= 0 then a % 60 else -((-a) % 60)
  }

  /** `n.toString().padStart(2, "0")`. */
  function PaddedText(n: int): string
  {
    PadStart(DecimalString(n), 2, '0')
  }

  /** `formatTime`: whole minutes (rounded down) and the remaining seconds,
      each padded with zeros to two characters, joined by a colon. Whatever
      the count, negative ones included, the text is at least five
      characters long. */
  function FormatTime(seconds: int): (r: string)
    ensures |r| >= 5
  {
    var mins := seconds / 60;
    var secs := TruncatingRem60(seconds);
    PaddedText(mins) + ":" + PaddedText(secs)
  }

  /** Whatever the count, negative ones included, the colon comes right
      after the text of the minutes. */
  lemma FormatTimeColon(seconds: int)
    ensures var r := FormatTime(seconds);
      |PaddedText(seconds / 60)| < |r| && r[|PaddedText(seconds / 60)|] == ':'
  {
    var m := PaddedText(seconds / 60);
    assert FormatTime(seconds) == m + ":" + PaddedText(TruncatingRem60(seconds));
  }

  /** Zeros in front of a digit string keep it a digit string and add
      nothing to its value. */
  lemma {:induction false} ParseLeadingZeros(k: nat, s: string)
    requires AllDigits(s)
    ensures AllDigits(Repeat('0', k) + s)
    ensures ParseDigits(Repeat('0', k) + s) == ParseDigits(s)
    decreases |s|
  {
    var z: string := Repeat('0', k);
    if s == [] {
      assert z + s == z;
      ParseZeros(k);
    } else {
      var t := z + s;
      assert t[..|t| - 1] == z + s[..|s| - 1];
      ParseLeadingZeros(k, s[..|s| - 1]);
    }
  }

  /** A string of zeros is a digit string of value 0. */
  lemma {:induction false} ParseZeros(k: nat)
    ensures AllDigits(Repeat('0', k))
    ensures ParseDigits(Repeat('0', k)) == 0
  {
    if k > 0 {
      var z: string := Repeat('0', k);
      assert z[..k - 1] == Repeat('0', k - 1);
      ParseZeros(k - 1);
    }
  }

  /** A non-negative number's text padded to two places: all digits, at
      least two of them, exactly two below 100, and the same value. */
  lemma PaddedField(n: nat)
    ensures var f := PaddedText(n);
      && AllDigits(f) && ParseDigits(f) == n
      && |f| >= 2 && (n < 100 ==> |f| == 2)
  {
    var d := DecimalString(n);
    assert d == Digits(n);
    if |d| < 2 {
      ParseLeadingZeros(2 - |d|, d);
    }
  }

  /** From 10 on, no padding is added and the text starts with a nonzero
      digit. */
  lemma PaddedFieldLead(n: int)
    requires n >= 10
    ensures PaddedText(n)[0] != '0'
  {
    var d := Digits(n);
    assert DecimalString(n) == d;
    assert |d| >= 2;
  }

  /** For a non-negative count, `formatTime` joins the padded whole
      minutes and the padded seconds left over. */
  lemma FormatTimeFields(seconds: int)
    requires seconds >= 0
    ensures FormatTime(seconds) == PaddedText(seconds / 60) + ":" + PaddedText(seconds % 60)
  {
    assert TruncatingRem60(seconds) == seconds % 60;
  }

  /** A two-character digit string read as a number: ten times its first
      digit plus its second. */
  lemma TwoDigits(s: string)
    requires |s| == 2 && AllDigits(s)
    ensures IsDigit(s[0]) && IsDigit(s[1])
    ensures ParseDigits(s) == DigitValue(s[0]) * 10 + DigitValue(s[1])
  {
    var a := s[..1];
    assert a[..0] == [];
    assert ParseDigits(a) == DigitValue(s[0]);
  }

  /** Cutting `r == m + ":" + s` at three from the end gives back the digits
      of `m` and the two digits of `s`. */
  lemma ClockFields(r: string, m: string, s: string)
    requires r == m + ":" + s
    requires AllDigits(m) && AllDigits(s) && |s| == 2
    ensures |r| == |m| + 3 && r[|r| - 3] == ':'
    ensures |m| >= 1 ==> r[0] == m[0]
    ensures AllDigits(r[..|r| - 3]) && ParseDigits(r[..|r| - 3]) == ParseDigits(m)
    ensures IsDigit(r[|r| - 2]) && IsDigit(r[|r| - 1])
    ensures DigitValue(r[|r| - 2]) * 10 + DigitValue(r[|r| - 1]) == ParseDigits(s)
  {
    assert r[..|r| - 3] == m;
    TwoDigits(s);
  }

  /** For a non-negative count of seconds, `formatTime` yields at least two
      minute digits, a colon and exactly two second digits; the minute
      digits read as the whole minutes and the second digits as the seconds
      left over. Below 100 minutes the text is exactly five characters long;
      from 10 minutes on it does not start with a zero. */
  lemma FormatTimeShape(seconds: int)
    requires seconds >= 0
    ensures var r := FormatTime(seconds);
      && |r| >= 5
      && r[|r| - 3] == ':'
      && AllDigits(r[..|r| - 3]) && ParseDigits(r[..|r| - 3]) == seconds / 60
      && IsDigit(r[|r| - 2]) && IsDigit(r[|r| - 1])
      && DigitValue(r[|r| - 2]) * 10 + DigitValue(r[|r| - 1]) == seconds % 60
      && (seconds < 6000 ==> |r| == 5)
      && (seconds >= 600 ==> r[0] != '0')
  {
    var mins, secs := seconds / 60, seconds % 60;
    var m, s := PaddedText(mins), PaddedText(secs);
    FormatTimeFields(seconds);
    PaddedField(mins);
    PaddedField(secs);
    assert seconds < 6000 ==> mins < 100;
    if seconds >= 600 {
      PaddedFieldLead(mins);
    }
    ClockFields(FormatTime(seconds), m, s);
  }

  /** Reads an `MM:SS` text back into seconds: digits, a colon, and two
      digits below 60. Anything else is rejected. */
  function ParseClock(r: string): (t: Option<int>)
    ensures t.Some? ==> t.value >= 0 && |r| >= 4 && r[|r| - 3] == ':'
  {
    if |r| >= 4 && r[|r| - 3] == ':' && AllDigits(r[..|r| - 3])
       && IsDigit(r[|r| - 2]) && IsDigit(r[|r| - 1])
       && DigitValue(r[|r| - 2]) * 10 + DigitValue(r[|r| - 1]) < 60
    then Some(ParseDigits(r[..|r| - 3]) * 60 + DigitValue(r[|r| - 2]) * 10 + DigitValue(r[|r| - 1]))
    else None
  }

  /** Reading a formatted non-negative count back gives the count. */
  lemma FormatTimeRoundTrip(seconds: int)
    requires seconds >= 0
    ensures ParseClock(FormatTime(seconds)) == Some(seconds)
  {
    FormatTimeShape(seconds);
  }

  /** One minute and five seconds. */
  lemma FormatTime65()
    ensures FormatTime(65) == "01:05"
  {
    assert 65 / 60 == 1 && TruncatingRem60(65) == 5;
    assert DigitChar(1) == '1' && DigitChar(5) == '5';
    assert PaddedText(1) == "01" && PaddedText(5) == "05";
  }

  /** No time left. */
  lemma FormatTime0()
    ensures FormatTime(0) == "00:00"
  {
    assert 0 / 60 == 0 && TruncatingRem60(0) == 0;
    assert DigitChar(0) == '0';
    assert PaddedText(0) == "00";
  }

  /** Inside the warning band. */
  lemma FormatTime9()
    ensures FormatTime(9) == "00:09"
  {
    assert 9 / 60 == 0 && TruncatingRem60(9) == 9;
    assert DigitChar(0) == '0' && DigitChar(9) == '9';
    assert PaddedText(0) == "00" && PaddedText(9) == "09";
  }

  /** A hundred minutes: the minutes take three characters. */
  lemma FormatTime6000()
    ensures FormatTime(6000) == "100:00"
  {
    assert 6000 / 60 == 100 && TruncatingRem60(6000) == 0;
    assert DigitChar(0) == '0' && DigitChar(1) == '1';
    assert Digits(1) == "1" && Digits(10) == "10" && Digits(100) == "100";
    assert PaddedText(0) == "00" && PaddedText(100) == "100";
  }

  /** A negative count is rendered the JavaScript way: minutes rounded
      down, seconds keeping the sign of the count. */
  lemma FormatTimeNegative()
    ensures FormatTime(-5) == "-1:-5"
  {
    assert -5 / 60 == -1 && TruncatingRem60(-5) == -5;
    assert DigitChar(1) == '1' && DigitChar(5) == '5';
    assert DecimalString(-1) == "-1" && DecimalString(-5) == "-5";
    assert PaddedText(-1) == "-1" && PaddedText(-5) == "-5";
  }

  /** `isTimeUp`: no time is left. For a count that cannot be negative, as
      every value the update callback stores, this means exactly zero. */
  predicate IsTimeUp(timeRemaining: int): (up: bool)
    ensures timeRemaining >= 0 ==> (up <==> timeRemaining == 0)
  {
    timeRemaining <= 0
  }

  /** `isTimeWarning`: the last ten seconds, zero excluded. The warning
      never shows once time is up, and with neither flag set more than ten
      seconds remain. */
  predicate IsTimeWarning(timeRemaining: int): (warning: bool)
    ensures warning ==> !IsTimeUp(timeRemaining)
    ensures !warning && !IsTimeUp(timeRemaining) ==> timeRemaining > 10
  {
    timeRemaining <= 10 && timeRemaining > 0
  }

  /** Every value is in exactly one band: time up, warning, or neither. */
  lemma FlagsPartition(timeRemaining: int)
    ensures !(IsTimeUp(timeRemaining) && IsTimeWarning(timeRemaining))
    ensures IsTimeUp(timeRemaining) || IsTimeWarning(timeRemaining) || timeRemaining > 10
    ensures IsTimeWarning(timeRemaining) <==> 1 <= timeRemaining <= 10
  {
  }

  /** For a value produced by a timer update, time is up exactly when the
      whole limit has elapsed, and the warning shows exactly during the last
      ten seconds before that. */
  lemma FlagsOfUpdate(timeLimit: int, startTime: int, now: int)
    ensures IsTimeUp(Remaining(timeLimit, startTime, now)) <==>
              timeLimit * MillisPerSecond <= now - startTime
    ensures IsTimeUp(Remaining(timeLimit, startTime, now)) <==>
              Remaining(timeLimit, startTime, now) == 0
    ensures IsTimeWarning(Remaining(timeLimit, startTime, now)) <==>
              (timeLimit - 10) * MillisPerSecond <= now - startTime < timeLimit * MillisPerSecond
  {
  }

  /** What the hook returns. */
  datatype TimerView = TimerView(
    timeRemaining: int,
    formattedTime: string,
    isTimeUp: bool,
    isTimeWarning: bool)

  /** The hook's result for a stored value: the value itself, a text that
      reads back as that value when it is not negative, time up exactly when
      nothing is left, and the warning exactly in the last ten seconds. */
  function Present(timeRemaining: int): (v: TimerView)
    ensures v.timeRemaining == timeRemaining
    ensures timeRemaining >= 0 ==> ParseClock(v.formattedTime) == Some(timeRemaining)
    ensures v.isTimeUp <==> timeRemaining <= 0
    ensures v.isTimeWarning <==> 0 < timeRemaining <= 10
    ensures !(v.isTimeUp && v.isTimeWarning)
    ensures v.isTimeUp || v.isTimeWarning || timeRemaining > 10
  {
    var v := TimerView(timeRemaining, FormatTime(timeRemaining),
                       IsTimeUp(timeRemaining), IsTimeWarning(timeRemaining));
    if timeRemaining >= 0 then FormatTimeRoundTrip(timeRemaining); v else v
  }
}
