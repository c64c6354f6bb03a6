/**
 The stopwatch's time display: a millisecond count is split into hours,
 minutes, seconds and milliseconds with Java's long arithmetic and printed
 as `%02d:%02d:%02d.%03d`. The same split is used for the running display
 and for every row of the lap list.
 */
module TimeFormat {

  const MillisPerSecond: int := 1000
  const MillisPerMinute: int := 60_000     // 1000 * 60
  const MillisPerHour: int := 3_600_000    // 1000 * 60 * 60

  /** Java's `/` on longs: the quotient is truncated toward zero. */
  function Quot(a: int, b: int): (q: int)
    requires b > 0
    ensures 0 <= a ==> 0 <= q && q * b <= a < q * b + b
    ensures a <= 0 ==> q <= 0 && q * b - b < a <= q * b
  {
    if a >= 0 then a / b else -((-a) / b)
  }

  /** Java's `%` on longs: the remainder takes the sign of the dividend. */
  function Rem(a: int, b: int): (r: int)
    requires b > 0
    ensures 0 <= a ==> 0 <= r < b
    ensures a <= 0 ==> -b < r <= 0
  {
    a - Quot(a, b) * b
  }

  /** The four numbers a time is shown with. */
  datatype Fields = Fields(hours: int, minutes: int, seconds: int, millis: int)

  /** The millisecond count that a set of fields stands for. */
  function Combine(f: Fields): int
  {
    f.hours * MillisPerHour + f.minutes * MillisPerMinute + f.seconds * MillisPerSecond + f.millis
  }

  /** Fields of a non-negative count as a clock face shows them. */
  predicate Normal(f: Fields)
  {
    0 <= f.hours && 0 <= f.minutes < 60 && 0 <= f.seconds < 60 && 0 <= f.millis < 1000
  }

  function Negated(f: Fields): Fields
  {
    Fields(-f.hours, -f.minutes, -f.seconds, -f.millis)
  }

  /**
   The split shared by the running display and the lap rows. A negative
   count (which a clock running forward never produces) gives fields that
   are all zero or negative.
   */
  function Split(m: int): (f: Fields)
    ensures 0 <= m ==> Normal(f)
  {
    Fields(Quot(m, MillisPerHour),
           Quot(Rem(m, MillisPerHour), MillisPerMinute),
           Quot(Rem(m, MillisPerMinute), MillisPerSecond),
           Rem(m, MillisPerSecond))
  }

  lemma MulAtLeast(d: int, b: int)
    requires d >= 1 && b > 0
    ensures d * b >= b
  {
  }

  /** Euclidean division is determined by the quotient-remainder equation. */
  lemma DivModUnique(a: int, b: int, q: int, r: int)
    requires b > 0 && 0 <= r < b && a == q * b + r
    ensures q == a / b && r == a % b
  {
    var q0, r0 := a / b, a % b;
    assert (q - q0) * b == r0 - r;
    if q > q0 {
      MulAtLeast(q - q0, b);
      assert false;
    } else if q < q0 {
      MulAtLeast(q0 - q, b);
      assert false;
    }
  }

  /** A negative count splits into the negated fields of its magnitude. */
  lemma SplitNegative(m: int)
    requires m < 0
    ensures Split(m) == Negated(Split(-m))
  {
  }

  lemma CombineNegated(f: Fields)
    ensures Combine(Negated(f)) == -Combine(f)
  {
  }

  /** On a non-negative count the split recombines to the count. */
  lemma SplitRecombinesNonNegative(m: int)
    requires 0 <= m
    ensures Combine(Split(m)) == m
  {
    var h, r1 := m / MillisPerHour, m % MillisPerHour;
    var mi, r2 := r1 / MillisPerMinute, r1 % MillisPerMinute;
    var s, ms := r2 / MillisPerSecond, r2 % MillisPerSecond;
    assert Rem(m, MillisPerHour) == r1;
    assert m == (h * 60 + mi) * MillisPerMinute + r2;
    DivModUnique(m, MillisPerMinute, h * 60 + mi, r2);
    assert Rem(m, MillisPerMinute) == r2;
    assert m == ((h * 60 + mi) * 60 + s) * MillisPerSecond + ms;
    DivModUnique(m, MillisPerSecond, (h * 60 + mi) * 60 + s, ms);
    assert Rem(m, MillisPerSecond) == ms;
    assert Split(m) == Fields(h, mi, s, ms);
  }

  /** The split always recombines to the count it was taken from. */
  lemma SplitRecombines(m: int)
    ensures Combine(Split(m)) == m
  {
    if m >= 0 {
      SplitRecombinesNonNegative(m);
    } else {
      SplitRecombinesNonNegative(-m);
      SplitNegative(m);
      CombineNegated(Split(-m));
    }
  }

  /**
   Clock-face fields are the only ones that recombine to their count, so
   the split is the inverse of Combine on them.
   */
  lemma SplitOfCombine(f: Fields)
    requires Normal(f)
    ensures Split(Combine(f)) == f
  {
    var m := Combine(f);
    var r2 := f.seconds * MillisPerSecond + f.millis;
    var r1 := f.minutes * MillisPerMinute + r2;
    DivModUnique(m, MillisPerHour, f.hours, r1);
    DivModUnique(r1, MillisPerMinute, f.minutes, r2);
    DivModUnique(m, MillisPerMinute, f.hours * 60 + f.minutes, r2);
    DivModUnique(r2, MillisPerSecond, f.seconds, f.millis);
    DivModUnique(m, MillisPerSecond, (f.hours * 60 + f.minutes) * 60 + f.seconds, f.millis);
  }

  // ---------------------------------------------------------------------
  // Decimal printing, as Java's `%0Nd` does it
  // ---------------------------------------------------------------------

  predicate IsDigit(c: char)
  {
    '0' <= c <= '9'
  }

  predicate AllDigits(s: string)
  {
    forall i :: 0 <= i < |s| ==> IsDigit(s[i])
  }

  function DigitChar(d: int): char
    requires 0 <= d < 10
  {
    ('0' as int + d) as char
  }

  /** The decimal digits of n, most significant first, with no leading zero. */
  function Digits(n: nat): (s: string)
    ensures AllDigits(s)
    ensures 1 <= |s|
    ensures n < 10 ==> |s| == 1
    ensures n < 100 ==> |s| <= 2
    ensures n < 1000 ==> |s| <= 3
    ensures s[0] == '0' <==> n == 0
  {
    if n < 10 then [DigitChar(n)] else Digits(n / 10) + [DigitChar(n % 10)]
  }

  /** The number a string of decimal digits spells. */
  function Value(s: string): nat
    requires AllDigits(s)
  {
    if s == [] then 0 else Value(s[..|s| - 1]) * 10 + (s[|s| - 1] as int - '0' as int)
  }

  lemma {:induction false} ValueOfDigits(n: nat)
    ensures Value(Digits(n)) == n
  {
    if n >= 10 {
      var s := Digits(n);
      assert s[..|s| - 1] == Digits(n / 10);
      ValueOfDigits(n / 10);
    }
  }

  function Zeros(k: int): (s: string)
    ensures |s| == if k < 0 then 0 else k
    ensures forall i :: 0 <= i < |s| ==> s[i] == '0'
  {
    if k <= 0 then [] else Zeros(k - 1) + ['0']
  }

  lemma {:induction false} ValueOfZeros(k: int)
    ensures Value(Zeros(k)) == 0
  {
    if k > 0 {
      assert Zeros(k)[..k - 1] == Zeros(k - 1);
      ValueOfZeros(k - 1);
    }
  }

  /** Leading zeros do not change the number a digit string spells. */
  lemma {:induction false} ValueLeadingZeros(k: int, s: string)
    requires AllDigits(s)
    ensures Value(Zeros(k) + s) == Value(s)
  {
    if s == [] {
      assert Zeros(k) + s == Zeros(k);
      ValueOfZeros(k);
    } else {
      var t := Zeros(k) + s;
      assert t[..|t| - 1] == Zeros(k) + s[..|s| - 1];
      ValueLeadingZeros(k, s[..|s| - 1]);
    }
  }

  /**
   Java's `%0<width>d`: the digits of n, with zeros inserted after the sign
   until the text is `width` characters long. It is a minimum width: a
   wider number keeps all its digits.
   */
  function Pad(n: int, width: nat): (r: string)
    ensures |r| >= width
    ensures n >= 0 ==> |r| >= |Digits(n)|
    ensures n < 0 ==> |r| >= |Digits(-n)| + 1
    ensures (n < 0 ==> r[0] == '-') && (0 <= n ==> AllDigits(r))
    ensures n >= 0 ==> r[|r| - |Digits(n)|..] == Digits(n)
    ensures n < 0 ==> r[|r| - |Digits(-n)|..] == Digits(-n)
    ensures n >= 0 ==> |r| == if |Digits(n)| > width then |Digits(n)| else width
    ensures n < 0 ==> |r| == if 1 + |Digits(-n)| > width then 1 + |Digits(-n)| else width
  {
    if n >= 0 then Zeros(width - |Digits(n)|) + Digits(n)
    else "-" + Zeros(width - 1 - |Digits(-n)|) + Digits(-n)
  }

  /** What stands before the digits of the magnitude is zeros, after the sign if any. */
  lemma PadZeros(n: int, width: nat)
    ensures var r := Pad(n, width);
      n >= 0 ==> forall i :: 0 <= i < |r| - |Digits(n)| ==> r[i] == '0'
    ensures var r := Pad(n, width);
      n < 0 ==> forall i :: 1 <= i < |r| - |Digits(-n)| ==> r[i] == '0'
  {
  }

  lemma PadNonNegative(n: nat, width: nat)
    ensures AllDigits(Pad(n, width))
    ensures |Pad(n, width)| >= width
    ensures |Pad(n, width)| == if |Digits(n)| > width then |Digits(n)| else width
    ensures Value(Pad(n, width)) == n
  {
    var d := Digits(n);
    assert Pad(n, width) == Zeros(width - |d|) + d;
    ValueLeadingZeros(width - |d|, d);
    ValueOfDigits(n);
  }

  /** The text shown for a millisecond count: `%02d:%02d:%02d.%03d` of its split. */
  function FormatTime(m: int): (r: string)
    ensures |r| >= 12
  {
    var f := Split(m);
    Layout(Pad(f.hours, 2), Pad(f.minutes, 2), Pad(f.seconds, 2), Pad(f.millis, 3))
  }

  /** The four printed fields joined as `H:M:S.m`. */
  function Layout(h: string, mi: string, se: string, ms: string): string
  {
    h + ":" + mi + ":" + se + "." + ms
  }

  /** Where each field sits in a layout whose last three fields have their fixed widths. */
  lemma LayoutParts(h: string, mi: string, se: string, ms: string)
    requires |mi| == 2 && |se| == 2 && |ms| == 3
    ensures var s := Layout(h, mi, se, ms);
      |s| == |h| + 10 && s[..|s| - 10] == h && s[|s| - 10] == ':' &&
      s[|s| - 9..|s| - 7] == mi && s[|s| - 7] == ':' &&
      s[|s| - 6..|s| - 4] == se && s[|s| - 4] == '.' && s[|s| - 3..] == ms
  {
  }

  /**
   Text of the shape FormatTime gives a non-negative count: a run of at
   least two digits for the hours, then `:MM:SS.mmm`.
   */
  predicate WellFormed(s: string)
  {
    var n := |s|;
    n >= 12 &&
    AllDigits(s[..n - 10]) && s[n - 10] == ':' &&
    AllDigits(s[n - 9..n - 7]) && s[n - 7] == ':' &&
    AllDigits(s[n - 6..n - 4]) && s[n - 4] == '.' &&
    AllDigits(s[n - 3..])
  }

  /** Reads a displayed time back into milliseconds. */
  function ParseTime(s: string): int
    requires WellFormed(s)
  {
    Combine(ParseFields(s))
  }

  /** The four numbers a displayed time spells, hours first. */
  function ParseFields(s: string): Fields
    requires WellFormed(s)
  {
    var n := |s|;
    Fields(Value(s[..n - 10]), Value(s[n - 9..n - 7]), Value(s[n - 6..n - 4]), Value(s[n - 3..]))
  }

  /**
   The display of a non-negative count loses nothing: it has the expected
   shape and reads back as the same count. Below 100 hours it is exactly
   `HH:MM:SS.mmm`; from 100 hours on the hours take more digits.
   */
  lemma FormatTimeRoundTrip(m: int)
    requires 0 <= m
    ensures WellFormed(FormatTime(m))
    ensures ParseFields(FormatTime(m)) == Split(m)
    ensures ParseTime(FormatTime(m)) == m
    ensures m < 100 * MillisPerHour <==> |FormatTime(m)| == 12
  {
    var f := Split(m);
    PrintedFieldsReadBack(f);
    SplitRecombines(m);
    HoursBelowHundred(m);
    DigitsLength(f.hours);
  }

  /**
   Fields in clock-face ranges, printed with their widths and joined, give
   well-formed text that spells them back; only the hours can widen it.
   */
  lemma PrintedFieldsReadBack(f: Fields)
    requires Normal(f)
    ensures var s := Layout(Pad(f.hours, 2), Pad(f.minutes, 2), Pad(f.seconds, 2), Pad(f.millis, 3));
      WellFormed(s) && ParseFields(s) == f && |s| == |Pad(f.hours, 2)| + 10
  {
    var h, mi, se, ms := Pad(f.hours, 2), Pad(f.minutes, 2), Pad(f.seconds, 2), Pad(f.millis, 3);
    PadNonNegative(f.hours, 2);
    PadNonNegative(f.minutes, 2);
    PadNonNegative(f.seconds, 2);
    PadNonNegative(f.millis, 3);
    LayoutParts(h, mi, se, ms);
    var s := Layout(h, mi, se, ms);
    assert WellFormed(s);
    assert ParseFields(s) == Fields(Value(h), Value(mi), Value(se), Value(ms));
  }

  /**
   The four-line split followed by `String.format`, as both the running
   display and each lap row do it.
   */
  method Render(m: int) returns (text: string)
    ensures text == FormatTime(m)
    ensures 0 <= m ==> WellFormed(text) && ParseTime(text) == m
  {
    var hours := Quot(m, MillisPerHour);
    var minutes := Quot(Rem(m, MillisPerHour), MillisPerMinute);
    var seconds := Quot(Rem(m, MillisPerMinute), MillisPerSecond);
    var millis := Rem(m, MillisPerSecond);
    text := Layout(Pad(hours, 2), Pad(minutes, 2), Pad(seconds, 2), Pad(millis, 3));
    if 0 <= m {
      FormatTimeRoundTrip(m);
    }
  }

  /** The hours field has at most two digits exactly below 100 hours. */
  lemma HoursBelowHundred(m: int)
    requires 0 <= m
    ensures Split(m).hours < 100 <==> m < 100 * MillisPerHour
  {
    var h := m / MillisPerHour;
    assert m == h * MillisPerHour + m % MillisPerHour;
    if h >= 100 {
      MulAtLeast(h - 99, MillisPerHour);
    } else {
      MulAtLeast(100 - h, MillisPerHour);
    }
  }

  lemma {:induction false} DigitsLength(n: nat)
    ensures n < 100 <==> |Digits(n)| <= 2
  {
    if n >= 100 {
      DigitsLength(n / 10);
    }
  }
}
