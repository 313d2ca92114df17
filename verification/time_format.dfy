/**
  The elapsed-time label: whole minutes, a colon, and the remaining whole
  seconds padded to two digits. The arithmetic follows JavaScript numbers:
  `Math.floor` is `Floor` on reals and `%` keeps the sign of the dividend.
*/
module TimeFormat {
  import opened Options

  /** JavaScript's truncation toward zero. */
  function Trunc(x: real): (t: int)
    ensures x >= 0.0 ==> t as real <= x < t as real + 1.0
    ensures x < 0.0 ==> t as real - 1.0 < x <= t as real
  {
    if x >= 0.0 then x.Floor else -((-x).Floor)
  }

  function Abs(x: real): real
  {
    if x < 0.0 then -x else x
  }

  /**
    JavaScript's `%` on numbers: what is left of `x` after taking away a whole
    number of `y`s, signed like `x` and smaller than `y` in magnitude.
  */
  function JsRemainder(x: real, y: real): (r: real)
    requires y != 0.0
    ensures x >= 0.0 ==> r >= 0.0
    ensures x <= 0.0 ==> r <= 0.0
    ensures Abs(r) < Abs(y)
    ensures ((x - r) / y).Floor as real == (x - r) / y
  {
    var t := Trunc(x / y);
    var r := x - y * t as real;
    assert (x - r) / y == t as real;
    assert r == y * (x / y - t as real);
    RemainderBounds(x / y - t as real, y, r);
    r
  }

  /** A fraction of `y` whose magnitude is below one is smaller than `y` in magnitude. */
  lemma RemainderBounds(f: real, y: real, r: real)
    requires -1.0 < f < 1.0 && r == y * f
    ensures Abs(r) < Abs(y) || y == 0.0
  {
    if y > 0.0 {
      assert -y < y * f < y;
    } else if y < 0.0 {
      assert y < y * f < -y;
    }
  }

  predicate IsDigit(c: char)
  {
    '0' <= c <= '9'
  }

  function DigitChar(d: int): (c: char)
    requires 0 <= d < 10
    ensures IsDigit(c) && DigitValue(c) == d
  {
    (48 + d) as char
  }

  function DigitValue(c: char): int
  {
    c as int - 48
  }

  /** Decimal rendering of a natural number, as `toString` prints it. */
  function NatToString(n: nat): (s: string)
    ensures |s| >= 1
    ensures forall i :: 0 <= i < |s| ==> IsDigit(s[i])
    ensures n < 10 <==> |s| == 1
    ensures n >= 10 ==> s[0] != '0'
    decreases n
  {
    if n < 10 then [DigitChar(n)] else NatToString(n / 10) + [DigitChar(n % 10)]
  }

  /** Decimal rendering of an integer, with a leading `-` when negative. */
  function IntToString(n: int): (s: string)
    ensures |s| >= 1
    ensures s[0] == '-' <==> n < 0
    ensures var digits := s[if n < 0 then 1 else 0..];
      |digits| >= 1 && AllDigits(digits) && (|digits| > 1 ==> digits[0] != '0')
  {
    if n < 0 then "-" + NatToString(-n) else NatToString(n)
  }

  /** The value of an optionally signed string of decimal digits. */
  function ParseInt(s: string): int
  {
    if |s| > 0 && s[0] == '-' then -(ParseNat(s[1..]) as int) else ParseNat(s)
  }

  /** `padStart(width, fill)` with a one-character fill. */
  function PadStart(s: string, width: nat, fill: char): (r: string)
    ensures |r| == if |s| < width then width else |s|
    ensures r[|r| - |s|..] == s
    ensures forall i :: 0 <= i < |r| - |s| ==> r[i] == fill
  {
    if |s| >= width then s else seq(width - |s|, _ => fill) + s
  }

  /**
    The elapsed-time label for a number of seconds. For a non-negative number
    it is the whole minutes, a colon, and the remaining whole seconds always
    written with exactly two digits.
  */
  function FormatTime(seconds: real): (text: string)
    ensures seconds >= 0.0 ==>
      text == NatToString(seconds.Floor / 60) + ":" + TwoDigits(seconds.Floor % 60)
  {
    var mins := (seconds / 60.0).Floor;
    var secs := JsRemainder(seconds, 60.0).Floor;
    RenderedFields(seconds);
    IntToString(mins) + ":" + PadStart(IntToString(secs), 2, '0')
  }

  /** The value of a string of decimal digits. */
  function ParseNat(s: string): nat
    decreases |s|
  {
    if |s| == 0 then 0
    else
      var d := DigitValue(s[|s| - 1]);
      ParseNat(s[..|s| - 1]) * 10 + (if 0 <= d then d else 0)
  }

  predicate AllDigits(s: string)
  {
    forall i :: 0 <= i < |s| ==> IsDigit(s[i])
  }

  /** The part of a label before its last three characters: the minutes. */
  function MinutesText(t: string): string
    requires |t| >= 3
  {
    t[..|t| - 3]
  }

  /** The value of the label's last two characters: the seconds. */
  function SecondsValue(t: string): int
    requires |t| >= 3
  {
    DigitValue(t[|t| - 2]) * 10 + DigitValue(t[|t| - 1])
  }

  /** A label `m:ss`: digits, a colon, and two digits below 60. */
  predicate IsClockLabel(t: string)
  {
    && |t| >= 4
    && t[|t| - 3] == ':'
    && IsDigit(t[|t| - 2]) && IsDigit(t[|t| - 1])
    && AllDigits(MinutesText(t))
    && SecondsValue(t) < 60
  }

  /** Reads a label `m:ss` back as a number of seconds; `None` for anything else. */
  function ParseClock(t: string): (r: Option<nat>)
    ensures r.Some? <==> IsClockLabel(t)
  {
    if IsClockLabel(t) then Some(ParseNat(MinutesText(t)) * 60 + SecondsValue(t)) else None
  }

  lemma {:induction false} ParseNatToString(n: nat)
    ensures ParseNat(NatToString(n)) == n
    decreases n
  {
    if n >= 10 {
      var s := NatToString(n);
      assert s[..|s| - 1] == NatToString(n / 10);
      assert s[|s| - 1] == DigitChar(n % 10);
      ParseNatToString(n / 10);
    }
  }

  /** Reading a rendered integer back gives the integer. */
  lemma ParseIntToString(n: int)
    ensures ParseInt(IntToString(n)) == n
  {
    if n < 0 {
      assert IntToString(n)[1..] == NatToString(-n);
      ParseNatToString(-n);
    } else {
      ParseNatToString(n);
    }
  }

  lemma FloorUnique(x: real, k: int)
    requires k as real <= x < k as real + 1.0
    ensures x.Floor == k
  {
  }

  /**
    For a non-negative number of seconds the label's minutes are the whole
    seconds divided by 60 and its seconds field is their remainder, so the
    two fields recombine to the whole seconds.
  */
  lemma FormatTimeFields(seconds: real)
    requires seconds >= 0.0
    ensures (seconds / 60.0).Floor == seconds.Floor / 60
    ensures JsRemainder(seconds, 60.0).Floor == seconds.Floor % 60
    ensures 0 <= seconds.Floor % 60 < 60
    ensures (seconds.Floor / 60) * 60 + seconds.Floor % 60 == seconds.Floor
  {
    var n := seconds.Floor;
    var q := n / 60;
    var r := n % 60;
    assert n == 60 * q + r;
    assert n as real <= seconds < n as real + 1.0;
    assert q as real <= seconds / 60.0 < q as real + 1.0 by {
      assert (60 * q) as real <= seconds;
      assert seconds < (60 * q + 60) as real;
    }
    FloorUnique(seconds / 60.0, q);
    assert Trunc(seconds / 60.0) == q;
    var rem := JsRemainder(seconds, 60.0);
    assert rem == seconds - (60 * q) as real;
    FloorUnique(rem, r);
  }

  /** Exactly two digits for a number below 100, with a leading zero when needed. */
  function TwoDigits(n: nat): (s: string)
    requires n < 100
    ensures |s| == 2 && IsDigit(s[0]) && IsDigit(s[1])
    ensures DigitValue(s[0]) * 10 + DigitValue(s[1]) == n
  {
    [DigitChar(n / 10), DigitChar(n % 10)]
  }

  lemma PadTwoDigits(n: nat)
    requires n < 100
    ensures PadStart(NatToString(n), 2, '0') == TwoDigits(n)
  {
    if n >= 10 {
      assert NatToString(n) == NatToString(n / 10) + [DigitChar(n % 10)];
    }
  }

  /** For a non-negative number of seconds, how each field of the label is written. */
  lemma RenderedFields(seconds: real)
    ensures seconds >= 0.0 ==>
      && IntToString((seconds / 60.0).Floor) == NatToString(seconds.Floor / 60)
      && PadStart(IntToString(JsRemainder(seconds, 60.0).Floor), 2, '0') == TwoDigits(seconds.Floor % 60)
  {
    if seconds >= 0.0 {
      FormatTimeFields(seconds);
      var n := seconds.Floor;
      assert IntToString(n / 60) == NatToString(n / 60);
      assert IntToString(n % 60) == NatToString(n % 60);
      PadTwoDigits(n % 60);
    }
  }

  /** A string of digits, a colon and two digits below 60 forms a label with those fields. */
  lemma ClockLabelOf(m: string, secs: nat)
    requires |m| >= 1 && AllDigits(m) && secs < 60
    ensures var t := m + ":" + TwoDigits(secs);
      IsClockLabel(t) && MinutesText(t) == m && SecondsValue(t) == secs
  {
    var two := TwoDigits(secs);
    var t := m + ":" + two;
    assert |t| == |m| + 3;
    assert MinutesText(t) == m;
    assert t[|t| - 3] == ':';
    assert t[|t| - 2] == two[0] && t[|t| - 1] == two[1];
  }

  /** A label reads back as its minutes times 60 plus its seconds. */
  lemma ParseClockValue(t: string)
    requires IsClockLabel(t)
    ensures ParseClock(t) == Some(ParseNat(MinutesText(t)) * 60 + SecondsValue(t))
  {
  }

  /** A string of digits, a colon and two digits below 60 reads back as minutes and seconds. */
  lemma ParseClockOf(m: string, secs: nat)
    requires |m| >= 1 && AllDigits(m) && secs < 60
    ensures ParseClock(m + ":" + TwoDigits(secs)) == Some(ParseNat(m) * 60 + secs)
  {
    ClockLabelOf(m, secs);
    ParseClockValue(m + ":" + TwoDigits(secs));
  }

  /** Reading the label back gives the whole number of seconds it was made from. */
  lemma ClockRoundTrip(seconds: real)
    requires seconds >= 0.0
    ensures ParseClock(FormatTime(seconds)) == Some(seconds.Floor)
  {
    var n := seconds.Floor;
    ParseClockOf(NatToString(n / 60), n % 60);
    ParseNatToString(n / 60);
    assert (n / 60) * 60 + n % 60 == n;
  }

  /** A negative input shows both fields negative, as JavaScript's floor and remainder do. */
  lemma NegativeSeconds()
    ensures FormatTime(-5.0) == "-1:-5"
  {
    assert (-5.0 / 60.0).Floor == -1;
    assert Trunc(-5.0 / 60.0) == 0;
    assert JsRemainder(-5.0, 60.0) == -5.0;
    assert (-5.0).Floor == -5;
    assert IntToString(-1) == "-1";
    assert IntToString(-5) == "-5";
  }
}
