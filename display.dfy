/** The `MM:SS` text of `updateDisplay` (app.js:236-239): whole minutes
    `Math.floor(t / 60)` and the remainder `t % 60`, each written in decimal
    and left-padded with '0' to at least two characters. */
module Display {
  import opened Wrappers

  predicate IsDigit(c: char) {
    '0' <= c <= '9'
  }

  predicate AllDigits(s: string) {
    forall i :: 0 <= i < |s| ==> IsDigit(s[i])
  }

  /** The character of a decimal digit. */
  function DigitChar(d: int): (c: char)
    requires 0 <= d < 10
    ensures IsDigit(c) && DigitValue(c) == d
  {
    (('0' as int) + d) as char
  }

  /** The number a digit character stands for. */
  function DigitValue(c: char): int {
    (c as int) - ('0' as int)
  }

  /** Decimal text of a natural number as `toString` writes it. */
  function NatToString(n: nat): (s: string)
    ensures |s| > 0 && IsDigit(s[0])
    ensures |s| == 1 <==> n < 10
    ensures n < 100 ==> |s| <= 2
    decreases n
  {
    if n < 10 then [DigitChar(n)] else NatToString(n / 10) + [DigitChar(n % 10)]
  }

  /** Decimal text of an integer as `toString` writes it: a minus sign before
      the digits of a negative number. */
  function IntToString(n: int): (s: string)
    ensures |s| > 0
    ensures s[0] == '-' <==> n < 0
    ensures n < 0 ==> |s| >= 2
  {
    if n < 0 then "-" + NatToString(-n) else NatToString(n)
  }

  /** The value of a string of digits, read most significant digit first. */
  function DigitsValue(s: string): int {
    if s == [] then 0 else DigitsValue(s[..|s| - 1]) * 10 + DigitValue(s[|s| - 1])
  }

  /** `padStart(width, fill)`: `s` unchanged when it is already `width` long,
      otherwise preceded by as many `fill` characters as make it `width` long. */
  function PadStart(s: string, width: nat, fill: char): (r: string)
    ensures |r| == if |s| < width then width else |s|
  {
    if |s| < width then seq(width - |s|, _ => fill) + s else s
  }

  /** JavaScript's `%` for a positive divisor: the remainder takes the sign
      of the dividend, unlike Dafny's `%`, which is never negative. */
  function JsRem(a: int, b: int): (r: int)
    requires b > 0
    ensures a >= 0 ==> 0 <= r < b && r == a % b
    ensures a < 0 ==> -b < r <= 0
    ensures (a - r) % b == 0
  {
    if a >= 0 then
      RemOffMultiple(a, b);
      a % b
    else
      RemOffMultiple(-a, b);
      -((-a) % b)
  }

  /** Taking a number's remainder off it leaves a multiple of the divisor,
      also for the negated number. */
  lemma RemOffMultiple(n: int, b: int)
    requires b > 0
    ensures (n - n % b) % b == 0
    ensures (n % b - n) % b == 0
  {
    var q := n / b;
    var m := n % b;
    assert n == q * b + m;
    assert n - m == q * b;
    assert m - n == (-q) * b;
    MultipleRem(q, b);
    MultipleRem(-q, b);
  }

  /** A multiple of `b` leaves no remainder. */
  lemma MultipleRem(q: int, b: int)
    requires b > 0
    ensures (q * b) % b == 0
  {
    var d := q - (q * b) / b;
    assert (q * b) % b == d * b;
  }

  /** JavaScript's `%` is odd in its dividend: negating the dividend negates
      the remainder, which Dafny's `%` does not do. */
  lemma JsRemOdd(a: int, b: int)
    requires b > 0
    ensures JsRem(-a, b) == -JsRem(a, b)
  {
  }

  /** The displayed text for `t` seconds left. Dafny's `/` by a positive divisor
      rounds down, which is `Math.floor(t / 60)` for the integer `t`. */
  function FormatTime(t: int): (r: string)
    ensures |r| >= 5
    ensures t >= 0 ==> r[|r| - 3] == ':'
  {
    PadStart(IntToString(t / 60), 2, '0') + ":" + PadStart(IntToString(JsRem(t, 60)), 2, '0')
  }

  /** Reads an `M…M:SS` text back: at least two minute digits, a colon and
      two second digits. */
  function ParseTime(s: string): Option<int> {
    if |s| >= 5 && s[|s| - 3] == ':' then FieldsValue(s[..|s| - 3], s[|s| - 2..]) else None
  }

  /** The time a minutes field and a seconds field stand for, when both are
      digits and the seconds are below 60. */
  function FieldsValue(mm: string, ss: string): Option<int> {
    if AllDigits(mm) && AllDigits(ss) && DigitsValue(ss) < 60
    then Some(DigitsValue(mm) * 60 + DigitsValue(ss))
    else None
  }

  /** The decimal text of `n` is digits only, has no leading zero unless it is
      "0", and reads back as `n`. */
  lemma {:induction false} NatToStringDigits(n: nat)
    ensures AllDigits(NatToString(n))
    ensures NatToString(n)[0] == '0' ==> n == 0
    ensures DigitsValue(NatToString(n)) == n
  {
    var s := NatToString(n);
    if n >= 10 {
      var p := NatToString(n / 10);
      NatToStringDigits(n / 10);
      assert s == p + [DigitChar(n % 10)];
      assert s[..|s| - 1] == p;
    }
  }

  /** The decimal text of an integer reads back as that integer once its
      minus sign is honoured: after the sign come the digits of `-n`. */
  lemma IntToStringValue(n: int)
    ensures n < 0 ==> IntToString(n)[0] == '-' && AllDigits(IntToString(n)[1..])
                      && DigitsValue(IntToString(n)[1..]) == -n
    ensures n >= 0 ==> AllDigits(IntToString(n)) && DigitsValue(IntToString(n)) == n
  {
    if n < 0 {
      NatToStringDigits(-n);
      assert IntToString(n)[1..] == NatToString(-n);
    } else {
      NatToStringDigits(n);
    }
  }

  /** `padStart` keeps the text as the end of the result and fills the front
      with `fill` only. */
  lemma PadStartShape(s: string, width: nat, fill: char)
    ensures PadStart(s, width, fill)[|PadStart(s, width, fill)| - |s|..] == s
    ensures forall i :: 0 <= i < |PadStart(s, width, fill)| - |s| ==> PadStart(s, width, fill)[i] == fill
  {
  }

  /** A leading zero does not change what a string reads as. */
  lemma {:induction false} LeadingZeroValue(s: string)
    ensures DigitsValue("0" + s) == DigitsValue(s)
  {
    var z := "0" + s;
    if s != [] {
      assert z[..|z| - 1] == "0" + s[..|s| - 1];
      LeadingZeroValue(s[..|s| - 1]);
    } else {
      assert z[..0] == [];
    }
  }

  /** Padding a number's text to two places keeps it digits only and keeps
      its value. */
  lemma PadTwoValue(n: nat)
    ensures AllDigits(PadStart(NatToString(n), 2, '0'))
    ensures DigitsValue(PadStart(NatToString(n), 2, '0')) == n
  {
    var s := NatToString(n);
    NatToStringDigits(n);
    if |s| < 2 {
      assert PadStart(s, 2, '0') == "0" + s;
      LeadingZeroValue(s);
    }
  }

  /** Reading a colon-joined text splits it back into its two fields. */
  lemma ParseJoined(mm: string, ss: string)
    requires |mm| >= 2 && |ss| == 2
    ensures ParseTime(mm + ":" + ss) == FieldsValue(mm, ss)
  {
    var s := mm + ":" + ss;
    assert s[|s| - 3] == ':';
    assert s[..|s| - 3] == mm;
    assert s[|s| - 2..] == ss;
  }

  /** Two digit fields read as the minutes and seconds they stand for. */
  lemma FieldsValueOf(mm: string, ss: string, m: int, r: int)
    requires AllDigits(mm) && DigitsValue(mm) == m
    requires AllDigits(ss) && DigitsValue(ss) == r && 0 <= r < 60
    ensures FieldsValue(mm, ss) == Some(m * 60 + r)
  {
  }

  /** For a time that is not negative, the display is the padded minutes and
      the padded seconds of that time. */
  lemma FormatTimeFields(t: int)
    requires t >= 0
    ensures FormatTime(t)
         == PadStart(NatToString(t / 60), 2, '0') + ":" + PadStart(NatToString(t % 60), 2, '0')
  {
  }

  /** For a time that is not negative, the display reads back as that time:
      no second is lost or gained in the text, however large `t` is. */
  lemma FormatTimeRoundTrip(t: int)
    requires t >= 0
    ensures ParseTime(FormatTime(t)) == Some(t)
  {
    var m, r := t / 60, t % 60;
    var mm := PadStart(NatToString(m), 2, '0');
    var ss := PadStart(NatToString(r), 2, '0');
    assert AllDigits(mm) && DigitsValue(mm) == m by {
      PadTwoValue(m);
    }
    assert AllDigits(ss) && DigitsValue(ss) == r by {
      PadTwoValue(r);
    }
    assert ParseTime(FormatTime(t)) == FieldsValue(mm, ss) by {
      FormatTimeFields(t);
      ParseJoined(mm, ss);
    }
    FieldsValueOf(mm, ss, m, r);
  }

  /** Below 100 minutes the display is exactly `MM:SS`: five characters with
      the colon in the middle. */
  lemma FormatTimeShape(t: int)
    requires 0 <= t < 6000
    ensures |FormatTime(t)| == 5 && FormatTime(t)[2] == ':'
  {
  }

  /** A negative time shows as a negative minute count: the text starts
      with a minus sign. */
  lemma FormatTimeNegative(t: int)
    requires t < 0
    ensures FormatTime(t)[0] == '-'
  {
  }

  /** A full default pomodoro shows as `25:00`. */
  lemma FormatFullPomodoro()
    ensures FormatTime(1500) == "25:00"
  {
  }

  /** Zero seconds show as `00:00`. */
  lemma FormatZero()
    ensures FormatTime(0) == "00:00"
  {
  }

  /** One second past zero shows as `-1:-1`: minus one minute and minus one second. */
  lemma FormatMinusOne()
    ensures FormatTime(-1) == "-1:-1"
  {
  }
}
