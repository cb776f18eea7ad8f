/** Rounding a quantity up to three decimals, digit by digit, so that purchasing never asks for too little. */
module CeilToThree {
  import opened Common
  import opened DecimalQuantity

  /** The program's integer parser on an optional minus sign and digits; none where it throws. */
  function BigIntOf(s: string): Option<int> {
    if s != [] && s[0] == '-' then
      if |s| > 1 && AllDigits(s[1..]) then Some(0 - Value(s[1..]) as int) else None
    else if AllDigits(s) then Some(Value(s)) else None
  }

  function IntText(n: int): string { if n < 0 then "-" + Decimal(-n) else Decimal(n) }

  /** The text between the first point and the next one. */
  function FractionOf(value: string): string {
    var k := PointAt(value);
    if k == |value| then [] else value[k + 1..][..PointAt(value[k + 1..])]
  }

  predicate SomeNonZero(s: string) { exists i :: 0 <= i < |s| && '1' <= s[i] <= '9' }

  function Point(frac: string): string { if frac == [] then [] else "." + frac }

  /** Thousandths written back with at least one digit in front of the point. */
  function FromThousandths(n: int): string {
    var text := PadStart(IntText(n), 4);
    text[..|text| - 3] + Point(StripZeros(text[|text| - 3..]))
  }

  function CeilDecimalToThree(value: string): Option<string> {
    var f := PadEnd(FractionOf(value), SCALE_DIGITS);
    match BigIntOf(value[..PointAt(value)] + f[..3])
    case None => None
    case Some(n) => Some(FromThousandths(if SomeNonZero(f[3..]) then n + 1 else n))
  }

  lemma {:induction false} NonZeroValue(s: string)
    requires AllDigits(s)
    ensures SomeNonZero(s) <==> Value(s) > 0
    decreases |s|
  {
    if s != [] {
      var n := |s| - 1;
      NonZeroValue(s[..n]);
      if SomeNonZero(s[..n]) {
        var i :| 0 <= i < n && '1' <= s[..n][i] <= '9';
        assert '1' <= s[i] <= '9';
      }
      if SomeNonZero(s) {
        var i :| 0 <= i < |s| && '1' <= s[i] <= '9';
        if i < n { assert '1' <= s[..n][i] <= '9'; }
      }
    }
  }

  /** The six fraction digits of a written quantity are the ones that were stripped, padded again. */
  lemma WrittenParts(v: nat)
    ensures var s := FromAbsolute(v);
            && s[..PointAt(s)] == Decimal(v / SCALE)
            && PadEnd(FractionOf(s), SCALE_DIGITS) == PadStart(Decimal(v % SCALE), SCALE_DIGITS)
  {
    var whole, fixed := Decimal(v / SCALE), PadStart(Decimal(v % SCALE), SCALE_DIGITS);
    DecimalReadsBack(v / SCALE);
    SixDigits();
    FixedWidth(v % SCALE, SCALE_DIGITS);
    StripThenPad(fixed);
    var fraction := StripZeros(fixed);
    var rest := if fraction == [] then [] else "." + fraction;
    var s := whole + rest;
    assert s == FromAbsolute(v);
    PointAfterDigits(whole, rest);
    if fraction != [] {
      assert s[|whole| + 1..] == fraction;
      PointAfterDigits(fraction, []);
      assert fraction + [] == fraction;
    }
  }

  /** Splitting six digits after the third separates thousandths from the rest. */
  lemma SplitFraction(v: nat)
    ensures var fixed := PadStart(Decimal(v % SCALE), SCALE_DIGITS);
            && |fixed| == 6 && AllDigits(fixed)
            && Value(fixed[..3]) == v % SCALE / 1000 && Value(fixed[3..]) == v % 1000
  {
    assert Pow10(3) == 1000;
    hide Decimal, Value, Pow10, PadStart;
    var fixed := PadStart(Decimal(v % SCALE), SCALE_DIGITS);
    SixDigits();
    FixedWidth(v % SCALE, SCALE_DIGITS);
    assert fixed == fixed[..3] + fixed[3..];
    ConcatValue(fixed[..3], fixed[3..]);
    ValueBelow(fixed[3..]);
    ThousandsOf(v, Value(fixed[..3]), Value(fixed[3..]));
  }

  lemma ThousandsOf(v: nat, high: nat, low: nat)
    requires v % SCALE == high * 1000 + low && low < 1000
    ensures high == v % SCALE / 1000 && low == v % 1000
  {
    assert v == v / SCALE * SCALE + v % SCALE;
  }

  /** The last three digits are the thousandths, the ones before them the whole. */
  lemma ThousandthsDigits(n: nat)
    ensures var text := PadStart(Decimal(n), 4);
            var whole, last := text[..|text| - 3], text[|text| - 3..];
            && whole != [] && AllDigits(whole) && AllDigits(last) && |last| == 3
            && Value(whole) * 1000 + Value(last) == n
  {
    assert Pow10(3) == 1000;
    hide Decimal, Value, Pow10, Zeros;
    var digits := Decimal(n);
    DecimalReadsBack(n);
    var zeros := Max(0, 4 - |digits|);
    LeadingZeros(zeros, digits);
    var text := PadStart(digits, 4);
    assert text == Zeros(zeros) + digits && |text| >= 4;
    hide PadStart;
    SplitLastThree(text);
  }

  lemma SplitLastThree(text: string)
    requires |text| >= 4 && AllDigits(text)
    ensures var whole, last := text[..|text| - 3], text[|text| - 3..];
            AllDigits(whole) && AllDigits(last) && Value(text) == Value(whole) * 1000 + Value(last)
  {
    assert Pow10(3) == 1000;
    hide Value, Pow10;
    var whole, last := text[..|text| - 3], text[|text| - 3..];
    assert text == whole + last;
    ConcatValue(whole, last);
  }

  /** Three digits, stripped and padded to six, are worth a thousand times as much. */
  lemma PaddedThousandths(last: string)
    requires AllDigits(last) && |last| == 3
    ensures AllDigits(StripZeros(last)) && |StripZeros(last)| <= 3
    ensures AllDigits(PadEnd(StripZeros(last), SCALE_DIGITS))
    ensures Value(PadEnd(StripZeros(last), SCALE_DIGITS)) == Value(last) * 1000
  {
    StripThenPad(last);
    assert PadEnd(StripZeros(last), SCALE_DIGITS) == last + Zeros(3);
    LeadingZeros(3, []);
    assert Zeros(3) + [] == Zeros(3) && Value([]) == 0;
    ConcatValue(last, Zeros(3));
    assert Pow10(3) == 1000;
  }

  lemma ThousandthsShape(n: nat)
    ensures var s := FromThousandths(n);
            s != [] && IsDigit(s[0]) && IsDigit(s[|s| - 1]) && DecimalPattern(s) && ReadUnsigned(s) == n * 1000
  {
    hide Decimal, Value, ToScaled, ReadUnsigned, StripZeros, DecimalPattern;
    var text := PadStart(Decimal(n), 4);
    ThousandthsDigits(n);
    var whole, last := text[..|text| - 3], text[|text| - 3..];
    PaddedThousandths(last);
    hide PadStart, PadEnd;
    DigitsRead(whole, StripZeros(last));
  }

  lemma ThousandthsReadBack(n: nat)
    ensures ToScaled(FromThousandths(n)) == Some(n * 1000)
  {
    hide ToScaled, ReadUnsigned, DecimalPattern, FromThousandths;
    ThousandthsShape(n);
    SignRead(FromThousandths(n));
  }

  /** And they are written as any quantity is: without needless zeros. */
  lemma ThousandthsWritten(n: nat)
    ensures FromThousandths(n) == FromScaled(n * 1000)
  {
    var whole, fraction := ThousandthsPlain(n);
    var w, f := WrittenForm(n * 1000);
    hide FromThousandths, FromScaled, Plain, Value, PadEnd;
    PlainIsUnique(whole, fraction, w, f);
  }

  lemma ThousandthsPlain(n: nat) returns (whole: string, fraction: string)
    ensures FromThousandths(n) == Written(whole, fraction) && Plain(whole, fraction)
    ensures Value(whole) * SCALE + Value(PadEnd(fraction, SCALE_DIGITS)) == n * 1000
  {
    var text := PadStart(Decimal(n), 4);
    var last := text[|text| - 3..];
    whole, fraction := text[..|text| - 3], StripZeros(last);
    hide Value, StripZeros, PadEnd, Decimal;
    ThousandthsDigits(n);
    PaddedThousandths(last);
    StripThenPad(last);
    WholeOfThousandths(n);
  }

  lemma WholeOfThousandths(n: nat)
    ensures var text := PadStart(Decimal(n), 4); |text| > 4 ==> text[0] != '0'
  {
    NoLeadingZero(n);
    assert n == 0 ==> |Decimal(n)| == 1;
    hide Decimal;
    if |Decimal(n)| >= 4 { assert PadStart(Decimal(n), 4) == Decimal(n); }
  }

  function CeilDiv(n: int, d: int): int
    requires d > 0
  {
    (n + d - 1) / d
  }

  /** On every non-negative quantity the digits are rounded up to the next multiple of 0.001, and no further. */
  lemma CeilingIsLeast(v: nat)
    ensures var c := CeilDecimalToThree(FromScaled(v));
            && c.Some? && ToScaled(c.value) == Some(CeilDiv(v, 1000) * 1000)
            && c.value == FromScaled(CeilDiv(v, 1000) * 1000)
            && v <= CeilDiv(v, 1000) * 1000 < v + 1000
  {
    hide ToScaled, FromThousandths, FractionOf, PadEnd, PadStart, FromScaled, FromAbsolute, BigIntOf, Decimal,
      SomeNonZero;
    WrittenPlainly(v);
    WrittenParts(v);
    CeilingOfParts(v);
    CeilingArithmetic(v);
    ThousandthsReadBack(CeilDiv(v, 1000));
    ThousandthsWritten(CeilDiv(v, 1000));
  }

  lemma WrittenPlainly(v: nat)
    ensures FromScaled(v) == FromAbsolute(v)
  {
    if v == 0 { ZeroIsPlain(); }
  }

  lemma CeilingOfParts(v: nat)
    ensures var fixed := PadStart(Decimal(v % SCALE), SCALE_DIGITS);
            && |fixed| == 6
            && BigIntOf(Decimal(v / SCALE) + fixed[..3]) == Some(v / 1000)
            && (if SomeNonZero(fixed[3..]) then v / 1000 + 1 else v / 1000) == CeilDiv(v, 1000)
  {
    var fixed := PadStart(Decimal(v % SCALE), SCALE_DIGITS);
    SplitFraction(v);
    DecimalReadsBack(v / SCALE);
    ConcatValue(Decimal(v / SCALE), fixed[..3]);
    assert Pow10(3) == 1000;
    NonZeroValue(fixed[3..]);
    CeilingArithmetic(v);
  }

  lemma CeilingArithmetic(v: nat)
    ensures v / SCALE * 1000 + v % SCALE / 1000 == v / 1000
    ensures CeilDiv(v, 1000) == if v % 1000 > 0 then v / 1000 + 1 else v / 1000
    ensures v <= CeilDiv(v, 1000) * 1000 < v + 1000
  {
  }

  lemma ZeroIsPlain()
    ensures FromAbsolute(0) == "0"
  {
    assert Decimal(0) == "0" && PadStart("0", 6) == Zeros(6);
    OnlyZeros(6);
  }

  lemma {:induction false} OnlyZeros(k: nat)
    ensures StripZeros(Zeros(k)) == []
  {
    if k > 0 {
      OnlyZeros(k - 1);
      assert Zeros(k)[..k - 1] == Zeros(k - 1);
    }
  }

  // ------------------------------------------------------- negative quantities

  /** Stripping trailing zeros stops at the last character that is none. */
  lemma {:induction false} StripStops(s: string, j: nat)
    requires j < |s| && s[j] != '0'
    ensures StripZeros(s) <= s && j < |StripZeros(s)|
    decreases |s|
  {
    if s[|s| - 1] == '0' { StripStops(s[..|s| - 1], j); }
  }

  lemma SignInFront(text: string)
    requires |text| >= 4
    ensures PadStart(text, 4) == text && PadStart("-" + text, 4) == "-" + text
    ensures ("-" + text)[..|text| - 2] == "-" + text[..|text| - 3] && ("-" + text)[|text| - 2..] == text[|text| - 3..]
  {
  }

  lemma SignedThousandths(n: int, m: int, text: string)
    requires |text| >= 4 && IntText(n) == text && IntText(m) == "-" + text
    ensures FromThousandths(m) == "-" + FromThousandths(n)
  {
    hide IntText, StripZeros, Point, PadStart;
    SignInFront(text);
    var whole, rest := text[..|text| - 3], Point(StripZeros(text[|text| - 3..]));
    assert ("-" + whole) + rest == "-" + (whole + rest);
  }

  lemma LargeNegativeText(k: int)
    requires k >= 1000
    ensures FromThousandths(-k) == "-" + FromThousandths(k)
  {
    FourDigits(k);
    SignedThousandths(k, -k, Decimal(k));
  }

  /** A negative number of thousandths from one whole unit on is written like its absolute value. */
  lemma NegativeReadsBack(k: int)
    requires k >= 1000
    ensures ToScaled(FromThousandths(-k)) == Some(-1000 * k)
  {
    hide ToScaled, ReadUnsigned, DecimalPattern, FromThousandths;
    LargeNegativeText(k);
    ThousandthsShape(k);
    SignRead(FromThousandths(k));
  }

  lemma FourDigits(k: nat)
    ensures k >= 1000 ==> |Decimal(k)| >= 4
    ensures k < 1000 ==> |Decimal(k)| <= 3
  {
    if k < 1000 {
      assert Pow10(3) == 1000;
      DecimalLength(k, 3);
    } else {
      var tens := k / 10;
      var hundreds := tens / 10;
      assert |Decimal(k)| == |Decimal(tens)| + 1 && |Decimal(tens)| == |Decimal(hundreds)| + 1;
      assert |Decimal(hundreds)| == |Decimal(hundreds / 10)| + 1;
      DecimalReadsBack(hundreds / 10);
    }
  }

  /** Where the sign of a short negative number ends up when zeros are put in front. */
  lemma PaddedSign(digits: string)
    requires 1 <= |digits| <= 3 && AllDigits(digits)
    ensures var z, text := 3 - |digits|, PadStart("-" + digits, 4);
            && |text| == 4 && text[..1] == (if z == 0 then "-" else "0")
            && (if z == 0 then AllDigits(text[1..]) else text[z] == '-')
            && forall i :: 0 <= i < 4 ==> !IsSpace(text[i])
  {
    var z, text := 3 - |digits|, PadStart("-" + digits, 4);
    hide AllDigits;
    assert text == Zeros(z) + ("-" + digits) && |text| == 4;
    assert z == 0 ==> text[1..] == digits;
    NoDigitIsSpace(digits);
  }

  lemma NoDigitIsSpace(digits: string)
    requires AllDigits(digits)
    ensures forall i :: 0 <= i < |digits| ==> !IsSpace(digits[i])
  {
  }

  lemma SmallNegativeText(k: int) returns (z: nat, last: string)
    requires 0 < k < 1000
    ensures z <= 2 && |last| == 3 && FromThousandths(-k) == (if z == 0 then "-" else "0") + Point(StripZeros(last))
    ensures if z == 0 then AllDigits(last) else last[z - 1] == '-'
    ensures forall i :: 0 <= i < |last| ==> !IsSpace(last[i])
  {
    FourDigits(k);
    DecimalReadsBack(k);
    hide Decimal, Value, StripZeros, Point, PadStart, Zeros, IsSpace, AllDigits;
    var digits := Decimal(k);
    PaddedSign(digits);
    assert IntText(-k) == "-" + digits;
    hide IntText;
    z, last := 3 - |digits|, PadStart("-" + digits, 4)[1..];
  }

  /** Below one unit the minus sign ends up among the zeros, or alone in front of the point. */
  lemma SmallNegativeIsUnreadable(k: int)
    requires 0 < k < 1000
    ensures ToScaled(FromThousandths(-k)).None?
  {
    hide ToScaled, FromThousandths, StripZeros, Point;
    var z, last := SmallNegativeText(k);
    StripThenPad(last);
    if z == 0 {
      SignAloneIsUnreadable(StripZeros(last));
    } else {
      StripStops(last, z - 1);
      SignInsideIsUnreadable(StripZeros(last), z - 1);
    }
  }

  lemma SignAloneIsUnreadable(frac: string)
    requires AllDigits(frac)
    ensures ToScaled("-" + Point(frac)).None?
  {
    var c := "-" + Point(frac);
    NoSpaceAround(c);
    hide Trim;
    assert PointAt(DropSign(c)) == 0;
  }

  lemma SignInsideIsUnreadable(frac: string, j: nat)
    requires j < |frac| && frac[j] == '-' && forall i :: 0 <= i < |frac| ==> !IsSpace(frac[i])
    ensures ToScaled("0" + Point(frac)).None?
  {
    var c := "0" + Point(frac);
    NoSpaceAround(c);
    hide Trim;
    assert c[2..] == frac && DropSign(c) == c;
    PointAfterDigits("0", Point(frac));
    assert !IsDigit(frac[j]);
  }

  /** A minus sign in front leaves the fraction alone. */
  lemma SignedParts(s: string)
    ensures var m := "-" + s;
            PointAt(m) == 1 + PointAt(s) && m[..PointAt(m)] == "-" + s[..PointAt(s)] && FractionOf(m) == FractionOf(s)
  {
    var m := "-" + s;
    assert m[1..] == s;
    if PointAt(s) < |s| { assert m[PointAt(m) + 1..] == s[PointAt(s) + 1..]; }
  }

  lemma SignedDigits(s: string, n: nat)
    requires s != [] && BigIntOf(s) == Some(n) && AllDigits(s)
    ensures BigIntOf("-" + s) == Some(0 - n)
  {
    assert ("-" + s)[1..] == s;
  }

  lemma CeilingOfText(value: string, whole: string, f: string, n: int)
    requires whole == value[..PointAt(value)] && f == PadEnd(FractionOf(value), SCALE_DIGITS) && |f| == 6
    requires BigIntOf(whole + f[..3]) == Some(n)
    ensures CeilDecimalToThree(value) == Some(FromThousandths(if SomeNonZero(f[3..]) then n + 1 else n))
  {
    hide BigIntOf, FractionOf, PadEnd, FromThousandths, SomeNonZero, PointAt;
  }

  lemma NegativeDigits(a: int)
    requires a > 0
    ensures var f := PadStart(Decimal(a % SCALE), SCALE_DIGITS);
            |f| == 6 && BigIntOf("-" + Decimal(a / SCALE) + f[..3]) == Some(-(a / 1000))
              && (SomeNonZero(f[3..]) <==> a % 1000 > 0)
  {
    hide PadStart, Decimal, Value, SomeNonZero, BigIntOf;
    var whole, f := Decimal(a / SCALE), PadStart(Decimal(a % SCALE), SCALE_DIGITS);
    SplitFraction(a);
    CeilingOfParts(a);
    DecimalReadsBack(a / SCALE);
    NonZeroValue(f[3..]);
    SignedDigits(whole + f[..3], a / 1000);
    assert "-" + whole + f[..3] == "-" + (whole + f[..3]);
  }

  /** What the digits of a negative quantity are turned into: cut toward zero, and one more if anything was cut. */
  lemma NegativeThousandths(a: int)
    requires a > 0
    ensures CeilDecimalToThree(FromScaled(-a)) == Some(FromThousandths(-(a / 1000) + if a % 1000 > 0 then 1 else 0))
  {
    hide FromAbsolute, PadStart, PadEnd, Decimal, SomeNonZero, FromThousandths, BigIntOf, FractionOf, PointAt,
      CeilDecimalToThree;
    var s := FromAbsolute(a);
    assert FromScaled(-a) == "-" + s;
    hide FromScaled;
    WrittenParts(a);
    SignedParts(s);
    NegativeDigits(a);
    CeilingOfText("-" + s, "-" + Decimal(a / SCALE), PadStart(Decimal(a % SCALE), SCALE_DIGITS), -(a / 1000));
  }

  lemma CutTowardZero(a: int, n: int)
    requires a > 0 && n == -(a / 1000) + if a % 1000 > 0 then 1 else 0
    ensures n * 1000 % 1000 == 0 && (-a <= n * 1000 < -a + 1000 <==> -a % 1000 == 0)
    ensures -a % 1000 == 0 ==> n * 1000 == -a
  {
    var q, r := a / 1000, a % 1000;
    assert a == 1000 * q + r;
    RemainderIs(n * 1000, n, 0);
    if r == 0 { RemainderIs(-a, -q, 0); } else { RemainderIs(-a, -q - 1, 1000 - r); }
  }

  lemma RemainderIs(x: int, q: int, r: int)
    requires x == 1000 * q + r && 0 <= r < 1000
    ensures x % 1000 == r
  {
  }

  ghost predicate RoundedUp(v: int, c: Option<string>) {
    c.Some? && ToScaled(c.value).Some? && ToScaled(c.value).value % 1000 == 0 && v <= ToScaled(c.value).value < v + 1000
  }

  /**
   * Exactly when the digits are rounded up to the next multiple of 0.001: for
   * every quantity that is not negative, and below zero only for whole
   * thousandths from one unit down.
   */
  lemma CeilingIsExactly(v: int)
    ensures RoundedUp(v, CeilDecimalToThree(FromScaled(v))) <==> v >= 0 || (v <= -SCALE && v % 1000 == 0)
  {
    hide ToScaled, FromScaled, FromThousandths, CeilDecimalToThree;
    if v >= 0 {
      CeilingIsLeast(v);
    } else {
      var a := -v;
      var n := -(a / 1000) + if a % 1000 > 0 then 1 else 0;
      NegativeThousandths(a);
      CutTowardZero(a, n);
      if n >= 0 {
        ThousandthsReadBack(n);
      } else if n <= -1000 {
        NegativeReadsBack(-n);
      } else {
        SmallNegativeIsUnreadable(-n);
      }
    }
  }
}
