/** The `formatTime` helper shared by the stopwatch and the timer screens: a count of
    seconds rendered as `HH:MM:SS`. Each field is `` `0${x}`.slice(-2) ``, so the
    JavaScript operators it relies on are written out here: the remainder `%`
    (truncating, its sign follows the dividend), `Math.floor` of a quotient, the
    rendering of an integer as text, and `slice(-2)`. */
module TimeFormat {

  /** A decimal digit character. */
  predicate IsDigit(c: char) {
    '0' <= c <= '9'
  }

  /** The character of the decimal digit `d`. */
  function DigitChar(d: nat): (c: char)
    requires d < 10
    ensures IsDigit(c)
  {
    (48 + d) as char
  }

  /** The value of a digit character; the inverse of DigitChar. */
  function DigitValue(c: char): (d: nat)
    requires IsDigit(c)
    ensures d < 10 && DigitChar(d) == c
  {
    c as int - 48
  }

  /** How JavaScript renders a non-negative integer: its decimal digits, without
      leading zeros ("0" for zero). */
  function Decimal(n: nat): (s: string)
    ensures |s| >= 1
    ensures forall i :: 0 <= i < |s| ==> IsDigit(s[i])
    ensures s[|s| - 1] == DigitChar(n % 10)
    ensures |s| == 1 <==> n < 10
  {
    if n < 10 then [DigitChar(n)] else Decimal(n / 10) + [DigitChar(n % 10)]
  }

  /** The number a string of digits denotes, read left to right. */
  function DecimalValue(s: string): nat
    requires forall i :: 0 <= i < |s| ==> IsDigit(s[i])
  {
    if s == [] then 0 else DecimalValue(s[..|s| - 1]) * 10 + DigitValue(s[|s| - 1])
  }

  /** Reading back the digits of `n` gives `n`, and only zero starts with '0'. */
  lemma {:induction false} DecimalRoundTrip(n: nat)
    ensures DecimalValue(Decimal(n)) == n
    ensures Decimal(n)[0] == '0' <==> n == 0
  {
    var s := Decimal(n);
    if n >= 10 {
      DecimalRoundTrip(n / 10);
      assert s[..|s| - 1] == Decimal(n / 10);
    }
  }

  /** How JavaScript renders any integer: a minus sign before the digits of a negative
      one. (Dafny integers have no signed zero; JavaScript renders -0 as "0" anyway.) */
  function NumberString(n: int): (s: string)
    ensures |s| >= 1
    ensures s[0] == '-' <==> n < 0
  {
    if n < 0 then "-" + Decimal(-n) else Decimal(n)
  }

  /** `s.slice(-2)`: the last two characters, or all of `s` when it is shorter. */
  function SliceLast2(s: string): (r: string)
    ensures |r| == if |s| < 2 then |s| else 2
  {
    if |s| < 2 then s else [s[|s| - 2], s[|s| - 1]]
  }

  /** What `slice(-2)` keeps is a suffix of its input. */
  lemma {:induction false} SliceLast2IsSuffix(s: string)
    ensures SliceLast2(s) == s[|s| - |SliceLast2(s)|..]
  {
  }

  /** JavaScript's `a % b` for a positive `b`: the quotient is truncated towards zero,
      so the remainder takes the sign of `a`. */
  function JsRem(a: int, b: int): (r: int)
    requires b > 0
    ensures a >= 0 ==> r == a % b
    ensures a < 0 ==> -b < r <= 0
  {
    if a >= 0 then a % b else -((-a) % b)
  }

  /** JavaScript's `%` leaves a multiple of the divisor: `a - a % b` is `b` times the
      quotient truncated towards zero. With the sign and range in `JsRem`'s contract this
      fixes the remainder for every dividend, negative ones included. */
  lemma {:induction false} JsRemTruncates(a: int, b: int)
    requires b > 0
    ensures (a - JsRem(a, b)) % b == 0
    ensures a < 0 ==> JsRem(a, b) == -JsRem(-a, b)
  {
    if a >= 0 {
      RemainderLeavesMultiple(a, b);
    } else {
      RemainderLeavesMultiple(-a, b);
    }
  }

  /** Taking Euclid's remainder off a non-negative `n`, or adding it to `-n`, leaves a
      multiple of `b`. */
  lemma {:induction false} RemainderLeavesMultiple(n: int, b: int)
    requires n >= 0 && b > 0
    ensures (n - n % b) % b == 0
    ensures (-n + n % b) % b == 0
  {
    var q := n / b;
    assert n - n % b == q * b;
    MultipleRemainder(q, b);
    assert -n + n % b == (-q) * b;
    MultipleRemainder(-q, b);
  }

  /** A multiple of `b`, of either sign, leaves no remainder. */
  lemma {:induction false} MultipleRemainder(k: int, b: int)
    requires b > 0
    ensures (k * b) % b == 0
  {
    var q := (k * b) / b;
    var r := (k * b) % b;
    assert k * b == q * b + r && 0 <= r < b;
    if q < k {
      assert r == (k - q) * b;
      PositiveMultiple(k - q, b);
    } else if q > k {
      assert r == -((q - k) * b);
      PositiveMultiple(q - k, b);
    }
  }

  /** A positive multiple of `b` is at least `b`. */
  lemma {:induction false} PositiveMultiple(d: int, b: int)
    requires d >= 1 && b > 0
    ensures d * b >= b
    decreases d
  {
    if d > 1 {
      PositiveMultiple(d - 1, b);
      assert d * b == (d - 1) * b + b;
    }
  }

  /** `Math.floor(a / b)` for a positive `b`. */
  function FloorDiv(a: int, b: int): (q: int)
    requires b > 0
    ensures q * b <= a < q * b + b
  {
    a / b
  }

  /** One field of the display: `` `0${n}`.slice(-2) ``. */
  function Pad2(n: int): (s: string)
    ensures |s| == 2
  {
    SliceLast2("0" + NumberString(n))
  }

  /** `formatTime(time)`: hours, minutes and seconds, each through Pad2, joined by ':'. */
  function FormatTime(time: int): (r: string)
    ensures |r| == 8 && r[2] == ':' && r[5] == ':'
  {
    var getSeconds := Pad2(JsRem(time, 60));
    var minutes := FloorDiv(time, 60);
    var getMinutes := Pad2(JsRem(minutes, 60));
    var getHours := Pad2(FloorDiv(time, 3600));
    getHours + ":" + getMinutes + ":" + getSeconds
  }

  /** Below ten the field is '0' then the digit; from ten to ninety-nine it is the
      number's own two digits. */
  lemma {:induction false} Pad2Small(n: nat)
    requires n < 100
    ensures n < 10 ==> Pad2(n) == ['0', DigitChar(n)]
    ensures n >= 10 ==> Pad2(n) == Decimal(n)
  {
    Pad2Natural(n);
    if n >= 10 {
      assert Decimal(n / 10) == [DigitChar(n / 10)];
      assert Decimal(n) == [DigitChar(n / 10), DigitChar(n % 10)];
    }
  }

  /** For a natural number, the field is its last two decimal digits, a '0' standing in
      for the tens digit below ten: values of 100 or more lose their leading digits. */
  lemma {:induction false} Pad2Natural(n: nat)
    ensures Pad2(n) == [DigitChar(n % 100 / 10), DigitChar(n % 10)]
  {
    var d := Decimal(n);
    var p := "0" + d;
    assert Pad2(n) == SliceLast2(p);
    if n < 10 {
      assert n % 100 / 10 == 0 && n % 10 == n;
      assert p == ['0', DigitChar(n)];
    } else {
      var t := Decimal(n / 10);
      assert d == t + [DigitChar(n % 10)];
      TensDigit(n);
      assert p[|p| - 2] == t[|t| - 1];
    }
  }

  lemma {:induction false} TensDigit(n: nat)
    ensures (n / 10) % 10 == n % 100 / 10
  {
    var q, r := n / 100, n % 100;
    assert n == 100 * q + r;
    assert n / 10 == 10 * q + r / 10;
    assert (10 * q + r / 10) % 10 == r / 10;
  }

  /** Every position of the display other than the two separators. */
  predicate IsDigitPosition(i: int) {
    0 <= i < 8 && i != 2 && i != 5
  }

  /** A string of the display's shape: `DD:DD:DD`. */
  predicate IsClockString(r: string) {
    && |r| == 8 && r[2] == ':' && r[5] == ':'
    && forall i :: 0 <= i < 8 && IsDigitPosition(i) ==> IsDigit(r[i])
  }

  /** The two-digit number shown at positions `i` and `i + 1`. */
  function FieldValue(r: string, i: nat): (v: nat)
    requires i + 1 < |r| && IsDigit(r[i]) && IsDigit(r[i + 1])
    ensures v < 100
  {
    DigitValue(r[i]) * 10 + DigitValue(r[i + 1])
  }

  /** The numbers shown in the hours, minutes and seconds fields of a display. */
  function HoursField(r: string): nat
    requires IsClockString(r)
  {
    assert IsDigitPosition(0) && IsDigitPosition(1);
    FieldValue(r, 0)
  }

  function MinutesField(r: string): nat
    requires IsClockString(r)
  {
    assert IsDigitPosition(3) && IsDigitPosition(4);
    FieldValue(r, 3)
  }

  function SecondsField(r: string): nat
    requires IsClockString(r)
  {
    assert IsDigitPosition(6) && IsDigitPosition(7);
    FieldValue(r, 6)
  }

  /** Reads a display back as a number of seconds. */
  function ParseTime(r: string): nat
    requires IsClockString(r)
  {
    HoursField(r) * 3600 + MinutesField(r) * 60 + SecondsField(r)
  }

  /** The two characters of a field for a natural number are digits denoting it modulo 100. */
  lemma {:induction false} Pad2Value(n: nat)
    ensures IsDigit(Pad2(n)[0]) && IsDigit(Pad2(n)[1])
    ensures DigitValue(Pad2(n)[0]) * 10 + DigitValue(Pad2(n)[1]) == n % 100
  {
    var t, u := n % 100 / 10, n % 10;
    Pad2Natural(n);
    LastTwoDigits(n);
    var p := Pad2(n);
    assert p[0] == DigitChar(t) && p[1] == DigitChar(u);
  }

  lemma {:induction false} LastTwoDigits(n: nat)
    ensures (n % 100 / 10) * 10 + n % 10 == n % 100
  {
    var q, r := n / 100, n % 100;
    assert n == 10 * (10 * q) + r;
    assert n % 10 == r % 10;
  }

  /** Three two-digit fields joined by ':' form a clock string whose fields read back. */
  lemma {:induction false} JoinFields(a: string, b: string, c: string)
    requires |a| == 2 && IsDigit(a[0]) && IsDigit(a[1])
    requires |b| == 2 && IsDigit(b[0]) && IsDigit(b[1])
    requires |c| == 2 && IsDigit(c[0]) && IsDigit(c[1])
    ensures IsClockString(a + ":" + b + ":" + c)
    ensures HoursField(a + ":" + b + ":" + c) == DigitValue(a[0]) * 10 + DigitValue(a[1])
    ensures MinutesField(a + ":" + b + ":" + c) == DigitValue(b[0]) * 10 + DigitValue(b[1])
    ensures SecondsField(a + ":" + b + ":" + c) == DigitValue(c[0]) * 10 + DigitValue(c[1])
  {
    var r := a + ":" + b + ":" + c;
    assert r[0] == a[0] && r[1] == a[1] && r[2] == ':';
    assert r[3] == b[0] && r[4] == b[1] && r[5] == ':';
    assert r[6] == c[0] && r[7] == c[1];
  }

  /** For a natural `time` the display has the shape `DD:DD:DD`; the seconds field shows
      `time % 60`, the minutes field `(time / 60) % 60`, and the hours field only the
      last two digits of `time / 3600`. */
  lemma {:induction false} FormatTimeFields(time: nat)
    ensures IsClockString(FormatTime(time))
    ensures HoursField(FormatTime(time)) == (time / 3600) % 100
    ensures MinutesField(FormatTime(time)) == (time / 60) % 60
    ensures SecondsField(FormatTime(time)) == time % 60
  {
    var r, h, m, s := FormatTime(time), time / 3600, (time / 60) % 60, time % 60;
    FormatNatural(time);
    assert r == Pad2(h) + ":" + Pad2(m) + ":" + Pad2(s);
    FieldsOfDisplay(r, h, m, s);
  }

  /** For a natural time the JavaScript remainder and floor are Dafny's `%` and `/`. */
  lemma {:induction false} FormatNatural(time: nat)
    ensures FormatTime(time) == Pad2(time / 3600) + ":" + Pad2((time / 60) % 60) + ":" + Pad2(time % 60)
  {
  }

  lemma {:induction false} FieldsOfDisplay(r: string, h: nat, m: nat, s: nat)
    requires m < 60 && s < 60
    requires r == Pad2(h) + ":" + Pad2(m) + ":" + Pad2(s)
    ensures IsClockString(r)
    ensures HoursField(r) == h % 100 && MinutesField(r) == m && SecondsField(r) == s
  {
    var a, b, c := Pad2(h), Pad2(m), Pad2(s);
    Pad2Value(h);
    Pad2Value(m);
    Pad2Value(s);
    assert DigitValue(a[0]) * 10 + DigitValue(a[1]) == h % 100;
    assert DigitValue(b[0]) * 10 + DigitValue(b[1]) == m % 100 == m;
    assert DigitValue(c[0]) * 10 + DigitValue(c[1]) == s % 100 == s;
    JoinFields(a, b, c);
  }

  lemma {:induction false} DivideSeconds(time: nat)
    ensures ((time / 3600) % 100) * 3600 + ((time / 60) % 60) * 60 + time % 60 == time % 360000
  {
    WithinTheHour(time);
    WithinHundredHours(time);
  }

  lemma {:induction false} WithinTheHour(time: nat)
    ensures (time / 60) % 60 == (time % 3600) / 60
    ensures time % 60 == (time % 3600) % 60
  {
    var h, rest := time / 3600, time % 3600;
    var m, s := rest / 60, rest % 60;
    assert time == 60 * (60 * h + m) + s;
    assert time / 60 == 60 * h + m;
  }

  lemma {:induction false} WithinHundredHours(time: nat)
    ensures ((time / 3600) % 100) * 3600 + time % 3600 == time % 360000
  {
    var h, rest := time / 3600, time % 3600;
    assert time == 360000 * (h / 100) + (3600 * (h % 100) + rest);
  }

  /** Reading the display back gives the time modulo one hundred hours. */
  lemma {:induction false} FormatTimeRoundTrip(time: nat)
    ensures IsClockString(FormatTime(time))
    ensures ParseTime(FormatTime(time)) == time % 360000
    ensures time < 360000 ==> ParseTime(FormatTime(time)) == time
  {
    FormatTimeFields(time);
    ParseFields(FormatTime(time), time);
  }

  lemma {:induction false} ParseFields(r: string, time: nat)
    requires IsClockString(r)
    requires HoursField(r) == (time / 3600) % 100
    requires MinutesField(r) == (time / 60) % 60
    requires SecondsField(r) == time % 60
    ensures ParseTime(r) == time % 360000
  {
    DivideSeconds(time);
  }

  /** Below one hundred hours no two times share a display. */
  lemma {:induction false} FormatTimeInjective(t1: nat, t2: nat)
    requires t1 < 360000 && t2 < 360000
    ensures FormatTime(t1) == FormatTime(t2) ==> t1 == t2
  {
    FormatTimeRoundTrip(t1);
    FormatTimeRoundTrip(t2);
  }

  /** The hours field wraps: a time and the same time plus one hundred hours look alike. */
  lemma {:induction false} FormatTimeWraps(time: nat)
    ensures FormatTime(time + 360000) == FormatTime(time)
  {
    var h, m, s := time / 3600, (time / 60) % 60, time % 60;
    HundredHoursLater(time);
    SameFields(time + 360000, h + 100, m, s);
    SameFields(time, h, m, s);
    Pad2PlusHundred(h);
  }

  lemma {:induction false} SameFields(time: nat, h: nat, m: nat, s: nat)
    requires time / 3600 == h && (time / 60) % 60 == m && time % 60 == s
    ensures FormatTime(time) == Pad2(h) + ":" + Pad2(m) + ":" + Pad2(s)
  {
    FormatNatural(time);
  }

  lemma {:induction false} Pad2PlusHundred(h: nat)
    ensures Pad2(h + 100) == Pad2(h)
  {
    var t, u := h % 100 / 10, h % 10;
    HundredMoreDigits(h);
    Pad2Natural(h + 100);
    Pad2Natural(h);
    assert Pad2(h + 100) == [DigitChar(t), DigitChar(u)];
  }

  lemma {:induction false} HundredMoreDigits(h: nat)
    ensures (h + 100) % 100 / 10 == h % 100 / 10 && (h + 100) % 10 == h % 10
  {
    assert (h + 100) % 100 == h % 100;
  }

  lemma {:induction false} HundredHoursLater(time: nat)
    ensures (time + 360000) / 3600 == time / 3600 + 100
    ensures ((time + 360000) / 60) % 60 == (time / 60) % 60
    ensures (time + 360000) % 60 == time % 60
  {
    assert (time + 360000) / 60 == time / 60 + 6000;
  }

  /** The display is its three fields joined by ':'; used to evaluate sample displays. */
  lemma {:induction false} ShowsFields(time: int, h: string, m: string, s: string)
    requires Pad2(FloorDiv(time, 3600)) == h
    requires Pad2(JsRem(FloorDiv(time, 60), 60)) == m
    requires Pad2(JsRem(time, 60)) == s
    ensures FormatTime(time) == h + ":" + m + ":" + s
  {
  }

  /** The displays of 0, 61 and 3661 seconds. */
  lemma {:induction false} FormatTimeExamples()
    ensures FormatTime(0) == "00:00:00"
    ensures FormatTime(61) == "00:01:01"
    ensures FormatTime(3661) == "01:01:01"
  {
    ShowsFields(0, "00", "00", "00");
    ShowsFields(61, "00", "01", "01");
    ShowsFields(3661, "01", "01", "01");
  }

  /** The last time before the hours field wraps. */
  lemma {:induction false} FormatTimeLargest()
    ensures FormatTime(359999) == "99:59:59"
  {
    ShowsFields(359999, "99", "59", "59");
  }

  /** One hundred hours shows as "00:00:00": the hours field is truncated, not widened. */
  lemma {:induction false} FormatTimeHundredHours()
    ensures FormatTime(360000) == "00:00:00"
  {
    ShowsFields(360000, "00", "00", "00");
  }

  /** A negative time, which the countdown can hold when it is started with a negative
      total, may show minus signs, but not in every field: a field keeps its sign only
      while its magnitude is one digit, and a negative multiple of 60 leaves a
      remainder of zero. -5 shows as "-1:-1:-5", -15 as "-1:-1:15", and -36000 (minus
      ten hours) as "10:00:00", the same as ten hours. */
  lemma {:induction false} FormatTimeNegative()
    ensures FormatTime(-5) == "-1:-1:-5"
    ensures FormatTime(-15) == "-1:-1:15"
    ensures FormatTime(-36000) == "10:00:00" == FormatTime(36000)
  {
    NegativeSingleDigits();
    NegativeTenHours();
  }

  lemma {:induction false} NegativeSingleDigits()
    ensures FormatTime(-5) == "-1:-1:-5"
    ensures FormatTime(-15) == "-1:-1:15"
  {
    assert NumberString(-1) == "-1" && NumberString(-5) == "-5";
    ShowsFields(-5, "-1", "-1", "-5");
    assert NumberString(-15) == "-15";
    ShowsFields(-15, "-1", "-1", "15");
  }

  lemma {:induction false} NegativeTenHours()
    ensures FormatTime(-36000) == "10:00:00" == FormatTime(36000)
  {
    assert FloorDiv(-36000, 3600) == -10 && FloorDiv(-36000, 60) == -600;
    assert JsRem(-600, 60) == 0 && JsRem(-36000, 60) == 0;
    assert NumberString(-10) == "-10" && NumberString(0) == "0";
    ShowsFields(-36000, "10", "00", "00");
    assert NumberString(10) == "10";
    ShowsFields(36000, "10", "00", "00");
  }
}
