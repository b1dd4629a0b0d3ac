/** The `MM:SS` rendering of a clock reading, with the JavaScript semantics
    of `Math.floor`, `%`, `Number.prototype.toString` and `String.prototype.padStart`
    spelled out for integer inputs. */
module TimeFormat {

  import opened Optional

  predicate IsDigit(c: char)
  {
    '0' <= c <= '9'
  }

  predicate AllDigits(s: string)
  {
    forall k :: 0 <= k < |s| ==> IsDigit(s[k])
  }

  function DigitChar(d: int): (c: char)
    requires 0 <= d < 10
    ensures IsDigit(c)
  {
    "0123456789"[d]
  }

  function DigitValue(c: char): (d: int)
    requires IsDigit(c)
    ensures 0 <= d < 10
  {
    (c as int) - ('0' as int)
  }

  /** Decimal digits of a natural number, most significant first, without
      leading zeros ("0" for zero). */
  function Decimal(n: nat): (s: string)
    ensures 1 <= |s|
    ensures AllDigits(s)
    ensures n >= 10 ==> s[0] != '0'
    ensures n < 10 ==> |s| == 1
    ensures n < 100 ==> |s| <= 2
    decreases n
  {
    if n < 10 then [DigitChar(n)] else Decimal(n / 10) + [DigitChar(n % 10)]
  }

  /** The value of a string of decimal digits. */
  function ParseDecimal(s: string): nat
    requires AllDigits(s)
  {
    if |s| == 0 then 0 else ParseDecimal(s[..|s| - 1]) * 10 + DigitValue(s[|s| - 1])
  }

  /** `n.toString()` for an integer `n` of magnitude below 1e21: the decimal
      numeral of `n`, without leading zeros, after a minus sign when negative. */
  function NumberToString(n: int): (s: string)
    ensures n >= 0 ==> 1 <= |s| && AllDigits(s) && ParseDecimal(s) == n && (|s| > 1 ==> s[0] != '0')
    ensures n < 0 ==> |s| >= 2 && s[0] == '-' && AllDigits(s[1..]) && ParseDecimal(s[1..]) == -n
                      && (|s| > 2 ==> s[1] != '0')
  {
    if n < 0 then
      DecimalRoundTrip(-n);
      assert ("-" + Decimal(-n))[1..] == Decimal(-n);
      "-" + Decimal(-n)
    else
      DecimalRoundTrip(n);
      Decimal(n)
  }

  function Repeat(c: char, n: nat): (s: string)
    ensures |s| == n
    ensures forall k :: 0 <= k < n ==> s[k] == c
  {
    if n == 0 then [] else [c] + Repeat(c, n - 1)
  }

  /** `s.padStart(width, fill)` for a one-character fill: fill characters are
      added on the left until the string is `width` long; a string already at
      least that long is returned as it is. */
  function PadStart(s: string, width: nat, fill: char): (r: string)
    ensures |r| == if |s| < width then width else |s|
    ensures r[|r| - |s|..] == s
    ensures forall k :: 0 <= k < |r| - |s| ==> r[k] == fill
  {
    if |s| < width then Repeat(fill, width - |s|) + s else s
  }

  /** The remainder of JavaScript's `%` (section 6.1.6.1.6 of ECMA-262): it
      differs from the dividend by a multiple of the divisor, is smaller than
      the divisor in magnitude, and takes the sign of the dividend. */
  function JsRem(a: int, n: int): (r: int)
    requires n > 0
    ensures exists q :: a - r == q * n
    ensures -n < r < n
    ensures a > 0 ==> 0 <= r
    ensures a < 0 ==> r <= 0
  {
    if a >= 0 then
      var q := a / n;
      assert a - a % n == q * n;
      a % n
    else
      var q := -((-a) / n);
      assert a - -((-a) % n) == q * n;
      -((-a) % n)
  }

  /** `formatTime`: minutes (rounded down) and seconds, each padded to two
      characters with zeros, around a colon. `Math.floor(t / 60)` is Dafny's
      `t / 60`, which rounds down for a positive divisor. For a non-negative
      reading the result is a minutes field of at least two digits holding
      `t / 60`, a colon, and a seconds field of exactly two digits holding
      `t % 60`; reading it back gives `t`. */
  function FormatTime(t: int): (r: string)
    ensures t >= 0 ==> ClockText(r, t / 60, t % 60)
    ensures t >= 0 ==> ParseTime(r) == Some(t)
    ensures t >= 0 && |r| > 5 ==> r[0] != '0'
    ensures 0 <= t < 6000 ==> |r| == 5
  {
    var minutes := t / 60;
    var seconds := JsRem(t, 60);
    var rendered := PadStart(NumberToString(minutes), 2, '0') + ":" + PadStart(NumberToString(seconds), 2, '0');
    if t >= 0 then
      assert seconds == t % 60;
      assert NumberToString(minutes) == Decimal(minutes);
      assert NumberToString(seconds) == Decimal(seconds);
      assert minutes * 60 + seconds == t;
      RenderedFields(minutes, seconds);
      rendered
    else
      rendered
  }

  /** `r` is a clock text showing `minutes` and `seconds`: a minutes field of
      at least two digits, a colon, and a seconds field of exactly two digits,
      holding those values. */
  predicate ClockText(r: string, minutes: int, seconds: int)
  {
    && |r| >= 5
    && r[|r| - 3] == ':'
    && AllDigits(r[..|r| - 3]) && AllDigits(r[|r| - 2..])
    && ParseDecimal(r[..|r| - 3]) == minutes
    && ParseDecimal(r[|r| - 2..]) == seconds
  }

  /** Reads back a rendering made of minute digits, a colon and exactly two
      second digits, below sixty. */
  function ParseTime(s: string): Option<int>
  {
    if |s| >= 4 && s[|s| - 3] == ':' && AllDigits(s[..|s| - 3]) && AllDigits(s[|s| - 2..])
       && ParseDecimal(s[|s| - 2..]) < 60
    then Some(ParseDecimal(s[..|s| - 3]) * 60 + ParseDecimal(s[|s| - 2..]))
    else None
  }

  lemma {:induction false} DecimalRoundTrip(n: nat)
    ensures ParseDecimal(Decimal(n)) == n
    decreases n
  {
    if n >= 10 {
      var s := Decimal(n);
      assert s[..|s| - 1] == Decimal(n / 10);
      DecimalRoundTrip(n / 10);
    }
  }

  lemma {:induction false} ZerosParse(z: string)
    requires forall k :: 0 <= k < |z| ==> z[k] == '0'
    ensures AllDigits(z) && ParseDecimal(z) == 0
    decreases |z|
  {
    if |z| > 0 {
      ZerosParse(z[..|z| - 1]);
    }
  }

  /** Leading zeros do not change the value of a digit string. */
  lemma {:induction false} LeadingZeros(z: string, s: string)
    requires forall k :: 0 <= k < |z| ==> z[k] == '0'
    requires AllDigits(s)
    ensures AllDigits(z + s) && ParseDecimal(z + s) == ParseDecimal(s)
    decreases |s|
  {
    if |s| == 0 {
      assert z + s == z;
      ZerosParse(z);
    } else {
      assert (z + s)[..|z + s| - 1] == z + s[..|s| - 1];
      LeadingZeros(z, s[..|s| - 1]);
    }
  }

  /** Zero-padding a decimal numeral keeps it a numeral of the same value. */
  lemma PaddedDecimal(n: nat, width: nat)
    ensures AllDigits(PadStart(Decimal(n), width, '0'))
    ensures ParseDecimal(PadStart(Decimal(n), width, '0')) == n
  {
    var s := Decimal(n);
    DecimalRoundTrip(n);
    if |s| < width {
      LeadingZeros(Repeat('0', width - |s|), s);
    }
  }

  /** Zero-padded numerals for a minute count and a second count below sixty,
      joined by a colon, form a clock text showing both that parses back to
      the total number of seconds. Padding adds zeros only up to two minute
      digits, so a longer minutes field starts with a non-zero digit. */
  lemma RenderedFields(minutes: nat, seconds: nat)
    requires seconds < 60
    ensures var r := PadStart(Decimal(minutes), 2, '0') + ":" + PadStart(Decimal(seconds), 2, '0');
      && ClockText(r, minutes, seconds) && ParseTime(r) == Some(minutes * 60 + seconds)
      && (|r| > 5 ==> r[0] != '0')
      && (minutes < 100 ==> |r| == 5)
  {
    var mm := PadStart(Decimal(minutes), 2, '0');
    var ss := PadStart(Decimal(seconds), 2, '0');
    PaddedDecimal(minutes, 2);
    PaddedDecimal(seconds, 2);
    JoinedFields(mm, ss, minutes, seconds);
  }

  /** Two digit fields around a colon, the second exactly two digits long. */
  lemma JoinedFields(mm: string, ss: string, minutes: nat, seconds: nat)
    requires |mm| >= 2 && |ss| == 2 && AllDigits(mm) && AllDigits(ss)
    requires ParseDecimal(mm) == minutes && ParseDecimal(ss) == seconds < 60
    ensures ClockText(mm + ":" + ss, minutes, seconds)
    ensures ParseTime(mm + ":" + ss) == Some(minutes * 60 + seconds)
  {
    ColonSplit(mm, ss);
    ParseFields(mm, ss);
  }

  lemma ColonSplit(mm: string, ss: string)
    requires |ss| == 2
    ensures var r := mm + ":" + ss;
      |r| == |mm| + 3 && r[|r| - 3] == ':' && r[..|r| - 3] == mm && r[|r| - 2..] == ss
  {
  }

  lemma ParseFields(mm: string, ss: string)
    requires |mm| >= 1 && |ss| == 2 && AllDigits(mm) && AllDigits(ss) && ParseDecimal(ss) < 60
    ensures ParseTime(mm + ":" + ss) == Some(ParseDecimal(mm) * 60 + ParseDecimal(ss))
  {
    ColonSplit(mm, ss);
  }

  /** A full hour renders as sixty minutes. */
  lemma FormatHour()
    ensures FormatTime(3600) == "60:00"
  {
    assert Decimal(60) == "60";
    assert Decimal(0) == "0";
  }

}
