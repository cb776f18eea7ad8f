/**
 * Exact decimal quantities: text with up to six decimals, read into whole
 * millionths and written back. `BigInt` division truncates toward zero.
 */
module DecimalQuantity {
  import opened Common

  const SCALE_DIGITS: nat := 6
  const SCALE := 1_000_000

  // ------------------------------------------------------------ digit strings

  predicate IsDigit(c: char) { '0' <= c <= '9' }

  predicate AllDigits(s: string) { forall i :: 0 <= i < |s| ==> IsDigit(s[i]) }

  function DigitValue(c: char): nat
    requires IsDigit(c)
  {
    (c - '0') as nat
  }

  function Value(s: string): nat
    requires AllDigits(s)
  {
    if s == [] then 0 else Value(s[..|s| - 1]) * 10 + DigitValue(s[|s| - 1])
  }

  function Pow10(k: nat): nat { if k == 0 then 1 else 10 * Pow10(k - 1) }

  function Zeros(k: nat): string { seq(k, _ => '0') }

  function PadStart(s: string, k: nat): string { Zeros(Max(0, k - |s|)) + s }

  function PadEnd(s: string, k: nat): string { s + Zeros(Max(0, k - |s|)) }

  function StripZeros(s: string): string {
    if s != [] && s[|s| - 1] == '0' then StripZeros(s[..|s| - 1]) else s
  }

  lemma {:induction false} DecimalReadsBack(n: nat)
    ensures Decimal(n) != [] && AllDigits(Decimal(n)) && Value(Decimal(n)) == n
  {
    if n >= 10 {
      DecimalReadsBack(n / 10);
      assert Decimal(n)[..|Decimal(n)| - 1] == Decimal(n / 10);
    } else {
      assert Decimal(n)[..0] == [];
    }
  }

  lemma {:induction false} DecimalLength(n: nat, k: nat)
    requires k > 0 && n < Pow10(k)
    ensures |Decimal(n)| <= k
  {
    if n >= 10 {
      assert k > 1 && n / 10 < Pow10(k - 1);
      DecimalLength(n / 10, k - 1);
    }
  }

  lemma {:induction false} LeadingZeros(k: nat, s: string)
    requires AllDigits(s)
    ensures AllDigits(Zeros(k) + s) && Value(Zeros(k) + s) == Value(s)
    decreases k + |s|
  {
    var t := Zeros(k) + s;
    if s != [] {
      LeadingZeros(k, s[..|s| - 1]);
      assert t[..|t| - 1] == Zeros(k) + s[..|s| - 1];
    } else if k > 0 {
      LeadingZeros(k - 1, []);
      assert t[..k - 1] == Zeros(k - 1) + [];
    }
  }

  lemma ShiftDigit(a: nat, p: nat, b: nat, d: nat)
    ensures (a * p + b) * 10 + d == a * (10 * p) + (b * 10 + d)
  {
  }

  lemma {:induction false} ConcatValue(s: string, t: string)
    requires AllDigits(s) && AllDigits(t)
    ensures AllDigits(s + t) && Value(s + t) == Value(s) * Pow10(|t|) + Value(t)
    decreases |t|
  {
    if t == [] {
      assert s + t == s;
    } else {
      var n := |t| - 1;
      ConcatValue(s, t[..n]);
      assert (s + t)[..|s + t| - 1] == s + t[..n];
      ShiftDigit(Value(s), Pow10(n), Value(t[..n]), DigitValue(t[n]));
    }
  }

  /** Stripping trailing zeros is undone by padding. */
  lemma {:induction false} StripThenPad(s: string)
    ensures |StripZeros(s)| <= |s| && PadEnd(StripZeros(s), |s|) == s
    ensures StripZeros(s) != [] ==> StripZeros(s)[|StripZeros(s)| - 1] != '0'
    ensures AllDigits(s) ==> AllDigits(StripZeros(s))
    decreases |s|
  {
    if s != [] && s[|s| - 1] == '0' { StripThenPad(s[..|s| - 1]); }
  }

  /** A value below 10^k, written with exactly k digits. */
  lemma FixedWidth(n: nat, k: nat)
    requires k > 0 && n < Pow10(k)
    ensures var s := PadStart(Decimal(n), k); |s| == k && AllDigits(s) && Value(s) == n
  {
    DecimalReadsBack(n);
    DecimalLength(n, k);
    LeadingZeros(k - |Decimal(n)|, Decimal(n));
  }

  // ------------------------------------------------------------------ reading

  predicate IsSpace(c: char) {
    || '\t' <= c <= '\r' || c == ' ' || c == '\U{A0}' || c == '\U{FEFF}' || c == '\U{1680}'
    || '\U{2000}' <= c <= '\U{200A}' || c == '\U{2028}' || c == '\U{2029}' || c == '\U{202F}'
    || c == '\U{205F}' || c == '\U{3000}'
  }

  function TrimStart(s: string): string {
    if s != [] && IsSpace(s[0]) then TrimStart(s[1..]) else s
  }

  function TrimEnd(s: string): string {
    if s != [] && IsSpace(s[|s| - 1]) then TrimEnd(s[..|s| - 1]) else s
  }

  function Trim(s: string): string { TrimEnd(TrimStart(s)) }

  function DropSign(s: string): string {
    if s != [] && (s[0] == '+' || s[0] == '-') then s[1..] else s
  }

  /** Position of the first point, or the length. */
  function PointAt(s: string): (k: nat)
    ensures k <= |s| && (forall i :: 0 <= i < k ==> s[i] != '.') && (k < |s| ==> s[k] == '.')
  {
    if s == [] || s[0] == '.' then 0 else 1 + PointAt(s[1..])
  }

  /** Digits, and after an optional point one to six more. */
  predicate DecimalPattern(unsigned: string) {
    var k := PointAt(unsigned);
    && k > 0 && AllDigits(unsigned[..k])
    && (k < |unsigned| ==> 1 <= |unsigned| - k - 1 <= SCALE_DIGITS && AllDigits(unsigned[k + 1..]))
  }

  /** Millionths of an unsigned decimal text. */
  function ReadUnsigned(unsigned: string): (v: int)
    requires DecimalPattern(unsigned)
    ensures v >= 0
  {
    var k := PointAt(unsigned);
    var fraction := if k < |unsigned| then unsigned[k + 1..] else [];
    PaddedDigits(fraction);
    Value(unsigned[..k]) * SCALE + Value(PadEnd(fraction, SCALE_DIGITS))
  }

  /** Millionths, or none where the program throws. */
  function ToScaled(text: string): Option<int> {
    var t := Trim(text);
    var unsigned := DropSign(t);
    if !DecimalPattern(unsigned) then None
    else if t[0] == '-' then Some(-ReadUnsigned(unsigned)) else Some(ReadUnsigned(unsigned))
  }

  lemma PaddedDigits(s: string)
    requires AllDigits(s)
    ensures AllDigits(PadEnd(s, SCALE_DIGITS))
  {
  }

  // ------------------------------------------------------------------ writing

  function FromAbsolute(n: nat): string {
    var fraction := StripZeros(PadStart(Decimal(n % SCALE), SCALE_DIGITS));
    Decimal(n / SCALE) + if fraction == [] then [] else "." + fraction
  }

  function FromScaled(v: int): string {
    if v == 0 then "0" else if v < 0 then "-" + FromAbsolute(-v) else FromAbsolute(v)
  }

  lemma NoSpaceAround(s: string)
    requires s != [] && !IsSpace(s[0]) && !IsSpace(s[|s| - 1])
    ensures Trim(s) == s
  {
  }

  lemma {:induction false} PointAfterDigits(whole: string, rest: string)
    requires AllDigits(whole) && (rest == [] || rest[0] == '.')
    ensures PointAt(whole + rest) == |whole|
    decreases |whole|
  {
    if whole == [] {
      assert whole + rest == rest;
    } else {
      PointAfterDigits(whole[1..], rest);
      assert (whole + rest)[1..] == whole[1..] + rest;
    }
  }

  /** How a text made of digits, and a point only in front of more digits, is read. */
  lemma DigitsRead(whole: string, fraction: string)
    requires whole != [] && AllDigits(whole) && AllDigits(fraction) && |fraction| <= SCALE_DIGITS
    ensures AllDigits(PadEnd(fraction, SCALE_DIGITS))
    ensures var s := whole + if fraction == [] then [] else "." + fraction;
            && DecimalPattern(s) && IsDigit(s[0]) && IsDigit(s[|s| - 1])
            && ReadUnsigned(s) == Value(whole) * SCALE + Value(PadEnd(fraction, SCALE_DIGITS))
  {
    var rest := if fraction == [] then [] else "." + fraction;
    var s := whole + rest;
    PaddedDigits(fraction);
    PointAfterDigits(whole, rest);
    hide PointAt, Value, PadEnd;
    assert s[..|whole|] == whole;
    assert rest != [] ==> s[|whole| + 1..] == fraction;
  }

  /** A leading minus sign negates, and there is nothing to trim. */
  lemma SignRead(s: string)
    requires s != [] && IsDigit(s[0]) && IsDigit(s[|s| - 1]) && DecimalPattern(s)
    ensures ToScaled(s) == Some(ReadUnsigned(s)) && ToScaled("-" + s) == Some(-ReadUnsigned(s))
  {
    var m := "-" + s;
    assert m[1..] == s && m[|m| - 1] == s[|s| - 1];
    NoSpaceAround(s);
    NoSpaceAround(m);
    assert DropSign(s) == s && DropSign(m) == s;
  }

  lemma FromAbsoluteDigits(n: nat)
    ensures var s := FromAbsolute(n);
            s != [] && IsDigit(s[0]) && IsDigit(s[|s| - 1]) && DecimalPattern(s) && ReadUnsigned(s) == n
  {
    var fixed := PadStart(Decimal(n % SCALE), SCALE_DIGITS);
    DecimalReadsBack(n / SCALE);
    SixDigits();
    FixedWidth(n % SCALE, SCALE_DIGITS);
    StripThenPad(fixed);
    DigitsRead(Decimal(n / SCALE), StripZeros(fixed));
  }

  // ----------------------------------------------------- what is read and written

  /** White space and line ends of sections 12.2 and 12.3 of ECMA-262. */
  const SPACES := {
    '\U{09}', '\U{0A}', '\U{0B}', '\U{0C}', '\U{0D}', ' ', '\U{A0}', '\U{FEFF}', '\U{1680}',
    '\U{2000}', '\U{2001}', '\U{2002}', '\U{2003}', '\U{2004}', '\U{2005}', '\U{2006}', '\U{2007}',
    '\U{2008}', '\U{2009}', '\U{200A}', '\U{2028}', '\U{2029}', '\U{202F}', '\U{205F}', '\U{3000}'}

  predicate Spaces(s: string) { forall i :: 0 <= i < |s| ==> s[i] in SPACES }

  predicate AllSpace(s: string) { forall i :: 0 <= i < |s| ==> IsSpace(s[i]) }

  lemma SpacesAreTrimmed(s: string)
    ensures Spaces(s) <==> AllSpace(s)
  {
    forall c: char ensures c in SPACES <==> IsSpace(c) { SpaceIsTrimmed(c); }
    hide IsSpace, SPACES;
  }

  lemma SpaceIsTrimmed(c: char)
    ensures c in SPACES <==> IsSpace(c)
  {
  }

  predicate Sign(s: string) { |s| <= 1 && (s != [] ==> s[0] == '+' || s[0] == '-') }

  predicate Minus(s: string) { s != [] && s[0] == '-' }

  /** A whole part and a fraction, the point standing only in front of digits. */
  predicate Parts(whole: string, fraction: string) {
    whole != [] && AllDigits(whole) && AllDigits(fraction) && |fraction| <= 6
  }

  function Written(whole: string, fraction: string): string {
    whole + if fraction == [] then [] else "." + fraction
  }

  function Signed(sign: string, whole: string, fraction: string): string { sign + Written(whole, fraction) }

  /** Optional spaces, an optional sign and such parts are read as what they say, */
  lemma ReadAsWritten(before: string, sign: string, whole: string, fraction: string, after: string)
    requires Spaces(before) && Spaces(after) && Sign(sign) && Parts(whole, fraction)
    ensures AllDigits(PadEnd(fraction, SCALE_DIGITS))
    ensures var v := Value(whole) * SCALE + Value(PadEnd(fraction, SCALE_DIGITS));
            ToScaled(before + Signed(sign, whole, fraction) + after) == Some(if Minus(sign) then -v else v)
  {
    SpacesAreTrimmed(before);
    SpacesAreTrimmed(after);
    hide ReadUnsigned, DecimalPattern, PadEnd, ToScaled, Spaces, AllSpace, Value, Sign, Minus, IsDigit, AllDigits;
    DigitsRead(whole, fraction);
    SpacedRead(before, sign, Written(whole, fraction), after);
  }

  lemma SpacedRead(before: string, sign: string, s: string, after: string)
    requires AllSpace(before) && AllSpace(after) && Sign(sign)
    requires DecimalPattern(s) && s != [] && IsDigit(s[0]) && IsDigit(s[|s| - 1])
    ensures ToScaled(before + (sign + s) + after) == Some(if Minus(sign) then -ReadUnsigned(s) else ReadUnsigned(s))
  {
    SignInFront(sign, s);
    hide ReadUnsigned, DecimalPattern, ToScaled, Trim, AllSpace, IsSpace, DropSign, Sign, Minus, IsDigit;
    TrimSpaces(before, sign + s, after);
    TrimmedIsRead(before + (sign + s) + after, sign, s);
  }

  lemma SignInFront(sign: string, s: string)
    requires Sign(sign) && s != [] && IsDigit(s[0]) && IsDigit(s[|s| - 1])
    ensures var t := sign + s; t != [] && !IsSpace(t[0]) && !IsSpace(t[|t| - 1]) && DropSign(t) == s
    ensures (sign + s)[0] == '-' <==> Minus(sign)
  {
    var t := sign + s;
    assert t[|t| - 1] == s[|s| - 1];
    if sign == [] { assert t == s; } else { assert t[0] == sign[0] && t[1..] == s; }
  }

  lemma TrimmedIsRead(text: string, sign: string, s: string)
    requires Trim(text) == sign + s && sign + s != [] && DropSign(sign + s) == s && DecimalPattern(s)
    requires (sign + s)[0] == '-' <==> Minus(sign)
    ensures ToScaled(text) == Some(if Minus(sign) then -ReadUnsigned(s) else ReadUnsigned(s))
  {
    hide Trim, DropSign, DecimalPattern, ReadUnsigned;
  }

  lemma {:induction false} TrimSpaces(before: string, t: string, after: string)
    requires AllSpace(before) && AllSpace(after) && t != [] && !IsSpace(t[0]) && !IsSpace(t[|t| - 1])
    ensures Trim(before + t + after) == t
  {
    TrimFront(before, t + after);
    assert before + t + after == before + (t + after);
    TrimBack(t, after);
  }

  lemma {:induction false} TrimFront(before: string, rest: string)
    requires AllSpace(before) && rest != [] && !IsSpace(rest[0])
    ensures TrimStart(before + rest) == rest
    decreases |before|
  {
    if before == [] {
      assert before + rest == rest;
    } else {
      TrimFront(before[1..], rest);
      assert (before + rest)[1..] == before[1..] + rest;
    }
  }

  lemma {:induction false} TrimBack(rest: string, after: string)
    requires AllSpace(after) && rest != [] && !IsSpace(rest[|rest| - 1])
    ensures TrimEnd(rest + after) == rest
    decreases |after|
  {
    if after == [] {
      assert rest + after == rest;
    } else {
      TrimBack(rest, after[..|after| - 1]);
      assert (rest + after)[..|rest + after| - 1] == rest + after[..|after| - 1];
    }
  }

  /** and nothing else can be read. */
  lemma OnlyWrittenIsRead(text: string)
    returns (before: string, sign: string, whole: string, fraction: string, after: string)
    requires ToScaled(text).Some?
    ensures Spaces(before) && Spaces(after) && Sign(sign) && Parts(whole, fraction)
    ensures text == before + Signed(sign, whole, fraction) + after
  {
    var rest: string;
    before, rest := SpacesInFront(text);
    var t;
    t, after := SpacesBehind(rest);
    SpacesAreTrimmed(before);
    SpacesAreTrimmed(after);
    assert t == Trim(text);
    assert DecimalPattern(DropSign(t));
    hide TrimStart, TrimEnd, ToScaled, DecimalPattern, Spaces, AllSpace, Parts, Written, DropSign, Trim;
    sign, whole, fraction := PartsOf(t);
    assert before + (t + after) == before + t + after;
  }

  lemma PartsOf(t: string) returns (sign: string, whole: string, fraction: string)
    requires DecimalPattern(DropSign(t))
    ensures Sign(sign) && Parts(whole, fraction) && t == sign + Written(whole, fraction)
  {
    var s := DropSign(t);
    sign := if s == t then [] else [t[0]];
    assert t == sign + s && Sign(sign);
    hide DropSign, DecimalPattern, Parts, Written;
    whole, fraction := CutAtPoint(s);
  }

  lemma CutAtPoint(s: string) returns (whole: string, fraction: string)
    requires DecimalPattern(s)
    ensures Parts(whole, fraction) && s == Written(whole, fraction)
  {
    var k := PointAt(s);
    whole, fraction := s[..k], if k < |s| then s[k + 1..] else [];
    hide PointAt;
  }

  lemma {:induction false} SpacesInFront(s: string) returns (before: string, rest: string)
    ensures s == before + rest && AllSpace(before) && rest == TrimStart(s)
  {
    if s != [] && IsSpace(s[0]) {
      var more;
      more, rest := SpacesInFront(s[1..]);
      before := [s[0]] + more;
    } else {
      before, rest := [], s;
    }
  }

  lemma {:induction false} SpacesBehind(s: string) returns (rest: string, after: string)
    ensures s == rest + after && AllSpace(after) && rest == TrimEnd(s)
  {
    if s != [] && IsSpace(s[|s| - 1]) {
      var more;
      rest, more := SpacesBehind(s[..|s| - 1]);
      after := more + [s[|s| - 1]];
    } else {
      rest, after := s, [];
    }
  }

  lemma {:induction false} NoLeadingZero(n: nat)
    ensures Decimal(n) != [] && (n > 0 ==> Decimal(n)[0] != '0')
  {
    if n >= 10 { NoLeadingZero(n / 10); }
  }

  /**
   * How a number is written: a minus sign exactly below zero, a whole part without
   * leading zeros, and at most six decimals that do not end in zero.
   */
  lemma WrittenForm(v: int) returns (whole: string, fraction: string)
    ensures FromScaled(v) == (if v < 0 then "-" else "") + Written(whole, fraction) && Plain(whole, fraction)
    ensures Value(whole) * SCALE + Value(PadEnd(fraction, SCALE_DIGITS)) == if v < 0 then -v else v
  {
    var n: nat := if v < 0 then -v else v;
    whole, fraction := AbsoluteForm(n);
    hide Value, PadEnd, Plain;
    if v == 0 {
      ZeroForm();
      PlainIsUnique(whole, fraction, "0", []);
    }
  }

  lemma ZeroForm()
    ensures Plain("0", []) && Value("0") * SCALE + Value(PadEnd([], SCALE_DIGITS)) == 0
    ensures Written("0", []) == "0"
  {
    assert "0"[..0] == [];
    LeadingZeros(SCALE_DIGITS, []);
    assert PadEnd([], SCALE_DIGITS) == Zeros(SCALE_DIGITS) + [];
  }

  lemma AbsoluteForm(n: nat) returns (whole: string, fraction: string)
    ensures FromAbsolute(n) == Written(whole, fraction) && Plain(whole, fraction)
    ensures Value(whole) * SCALE + Value(PadEnd(fraction, SCALE_DIGITS)) == n
  {
    var fixed := PadStart(Decimal(n % SCALE), SCALE_DIGITS);
    whole, fraction := Decimal(n / SCALE), StripZeros(fixed);
    DecimalReadsBack(n / SCALE);
    NoLeadingZero(n / SCALE);
    SixDigits();
    FixedWidth(n % SCALE, SCALE_DIGITS);
    StripThenPad(fixed);
    hide Value, Decimal, Zeros, StripZeros;
  }

  /** No leading zeros, and no zeros at the end of the decimals. */
  predicate Plain(whole: string, fraction: string) {
    && Parts(whole, fraction)
    && (|whole| > 1 ==> whole[0] != '0')
    && (fraction != [] ==> fraction[|fraction| - 1] != '0')
  }

  /** Only one text in plain form says a given number of millionths. */
  lemma PlainIsUnique(w: string, f: string, u: string, g: string)
    requires Plain(w, f) && Plain(u, g)
    requires Value(w) * SCALE + Value(PadEnd(f, SCALE_DIGITS)) == Value(u) * SCALE + Value(PadEnd(g, SCALE_DIGITS))
    ensures w == u && f == g
  {
    SixDigits();
    PaddedBelow(f);
    PaddedBelow(g);
    SameQuotient(Value(w), Value(PadEnd(f, SCALE_DIGITS)), Value(u), Value(PadEnd(g, SCALE_DIGITS)));
    hide Value, PadEnd;
    WholeFromValue(w);
    WholeFromValue(u);
    SameDigits(PadEnd(f, SCALE_DIGITS), PadEnd(g, SCALE_DIGITS));
    StripPadded(f);
    StripPadded(g);
  }

  lemma SameQuotient(a: nat, r: nat, b: nat, q: nat)
    requires a * SCALE + r == b * SCALE + q && r < SCALE && q < SCALE
    ensures a == b && r == q
  {
  }

  lemma PaddedBelow(f: string)
    requires AllDigits(f) && |f| <= SCALE_DIGITS
    ensures var p := PadEnd(f, SCALE_DIGITS); |p| == SCALE_DIGITS && AllDigits(p) && Value(p) < SCALE
  {
    PaddedDigits(f);
    ValueBelow(PadEnd(f, SCALE_DIGITS));
    SixDigits();
  }

  lemma {:induction false} ValueBelow(s: string)
    requires AllDigits(s)
    ensures Value(s) < Pow10(|s|)
    decreases |s|
  {
    if s != [] { ValueBelow(s[..|s| - 1]); }
  }

  lemma {:induction false} WholeFromValue(w: string)
    requires w != [] && AllDigits(w) && (|w| > 1 ==> w[0] != '0')
    ensures w == Decimal(Value(w))
    decreases |w|
  {
    var n := |w| - 1;
    if n > 0 {
      WholeFromValue(w[..n]);
      PositiveFront(w[..n]);
      DecimalSnoc(Value(w[..n]), DigitValue(w[n]));
      assert DigitChar(DigitValue(w[n])) == w[n];
      hide Decimal;
      assert w == w[..n] + [w[n]];
    } else {
      assert w[..0] == [] && Value(w) == DigitValue(w[0]) && w == [w[0]];
    }
  }

  lemma DecimalSnoc(v: nat, d: nat)
    requires v > 0 && d < 10
    ensures Decimal(v * 10 + d) == Decimal(v) + [DigitChar(d)]
  {
    assert (v * 10 + d) / 10 == v && (v * 10 + d) % 10 == d;
  }

  lemma {:induction false} PositiveFront(w: string)
    requires w != [] && AllDigits(w) && w[0] != '0'
    ensures Value(w) > 0
  {
    if |w| > 1 { PositiveFront(w[..|w| - 1]); }
  }

  lemma {:induction false} SameDigits(s: string, t: string)
    requires |s| == |t| && AllDigits(s) && AllDigits(t) && Value(s) == Value(t)
    ensures s == t
  {
    if s != [] {
      var n := |s| - 1;
      LastDigit(Value(s[..n]), DigitValue(s[n]), Value(t[..n]), DigitValue(t[n]));
      SameDigits(s[..n], t[..n]);
      hide Value;
      assert s == s[..n] + [s[n]] && t == t[..n] + [t[n]];
    }
  }

  lemma LastDigit(v: nat, d: nat, w: nat, e: nat)
    requires v * 10 + d == w * 10 + e && d < 10 && e < 10
    ensures v == w && d == e
  {
  }

  lemma StripPadded(f: string)
    requires |f| <= SCALE_DIGITS && (f != [] ==> f[|f| - 1] != '0')
    ensures StripZeros(PadEnd(f, SCALE_DIGITS)) == f
  {
    StripBehind(f, SCALE_DIGITS - |f|);
  }

  lemma {:induction false} StripBehind(f: string, k: nat)
    requires f != [] ==> f[|f| - 1] != '0'
    ensures StripZeros(f + Zeros(k)) == f
  {
    if k > 0 {
      StripBehind(f, k - 1);
      assert (f + Zeros(k))[..|f| + k - 1] == f + Zeros(k - 1);
    } else {
      assert f + Zeros(0) == f;
    }
  }

  lemma SixDigits()
    ensures Pow10(SCALE_DIGITS) == SCALE
  {
    assert Pow10(3) == 1000;
    assert Pow10(6) == 10 * (10 * (10 * Pow10(3)));
  }

  /** Reading what was written returns it, for every integer number of millionths. */
  lemma ReadWritten(v: int)
    ensures ToScaled(FromScaled(v)) == Some(v)
  {
    if v == 0 {
      ZeroReads();
    } else {
      var n: nat := if v < 0 then -v else v;
      FromAbsoluteDigits(n);
      SignRead(FromAbsolute(n));
    }
  }

  lemma ZeroReads()
    ensures ToScaled("0") == Some(0)
  {
    DigitsRead("0", []);
    assert "0" + [] == "0" && PadEnd([], SCALE_DIGITS) == Zeros(SCALE_DIGITS) + [];
    LeadingZeros(SCALE_DIGITS, []);
    assert "0"[..0] == [];
    SignRead("0");
  }

  /** The written form is canonical: texts read alike exactly when they are rewritten alike. */
  lemma WrittenIsCanonical(a: string, b: string)
    requires ToScaled(a).Some? && ToScaled(b).Some?
    ensures FromScaled(ToScaled(a).value) == FromScaled(ToScaled(b).value) <==> ToScaled(a) == ToScaled(b)
  {
    ReadWritten(ToScaled(a).value);
    ReadWritten(ToScaled(b).value);
  }

  // --------------------------------------------------------------- arithmetic

  /** Division toward zero. */
  function TruncDiv(n: int, d: int): int
    requires d != 0
  {
    if n >= 0 then (if d > 0 then n / d else -(n / -d))
    else if d > 0 then -(-n / d) else -n / -d
  }

  function RoundPositive(n: int, d: int): int
    requires d != 0
  {
    TruncDiv(n + TruncDiv(d, 2), d)
  }

  function AddQuantities(a: string, b: string): Option<string> {
    if ToScaled(a).None? || ToScaled(b).None? then None
    else Some(FromScaled(ToScaled(a).value + ToScaled(b).value))
  }

  function SubtractQuantities(a: string, b: string): Option<string> {
    if ToScaled(a).None? || ToScaled(b).None? then None
    else Some(FromScaled(ToScaled(a).value - ToScaled(b).value))
  }

  function MultiplyQuantities(a: string, b: string): Option<string> {
    if ToScaled(a).None? || ToScaled(b).None? then None
    else Some(FromScaled(RoundPositive(ToScaled(a).value * ToScaled(b).value, SCALE)))
  }

  /** None also where the program refuses to divide by zero. */
  function DivideQuantities(a: string, b: string): Option<string> {
    if ToScaled(b).None? || ToScaled(b).value == 0 || ToScaled(a).None? then None
    else Some(FromScaled(RoundPositive(ToScaled(a).value * SCALE, ToScaled(b).value)))
  }

  /** Whether `q` is the integer nearest to n/d, the upper one of two. */
  predicate Nearest(q: int, n: int, d: int) { -d < 2 * (q * d - n) <= d }

  /** Rounding is to nearest for every non-negative numerator. */
  lemma RoundsToNearest(n: int, d: int)
    requires n >= 0 && d > 0
    ensures RoundPositive(n, d) >= 0 && Nearest(RoundPositive(n, d), n, d)
  {
    var m := n + d / 2;
    assert m == m / d * d + m % d;
    assert m / d >= 0;
  }

  /** Not negative, or at most d/2 off zero, or leaving d/2, rounded down, over a multiple of d. */
  predicate RoundsWell(n: int, d: int)
    requires d > 0
  {
    n >= 0 || -n <= d / 2 || (-n - d / 2) % d == 0
  }

  /** Rounding is to nearest under exactly that condition on the quotient. */
  lemma RoundsToNearestExactly(n: int, d: int)
    requires d > 0
    ensures Nearest(RoundPositive(n, d), n, d) <==> RoundsWell(n, d)
  {
    if n >= 0 {
      RoundsToNearest(n, d);
    } else {
      var h, m := d / 2, -n;
      assert TruncDiv(d, 2) == h;
      if m <= h {
        assert n + h < d && (n + h) / d == 0 by { SmallQuotient(n + h, d); }
        assert RoundPositive(n, d) == 0;
      } else {
        var q, r := (m - h) / d, (m - h) % d;
        assert m - h == q * d + r;
        assert RoundPositive(n, d) == -q;
        assert -q * d - n == r + h by { assert -q * d == -(q * d); }
        HalfPlus(r, d);
      }
    }
  }

  /** A negative divisor rounds as if both signs were changed. */
  lemma SignsCancel(n: int, d: int)
    requires d < 0
    ensures RoundPositive(n, d) == RoundPositive(-n, -d)
  {
    var e, h := -d, -d / 2;
    assert TruncDiv(d, 2) == -h && TruncDiv(e, 2) == h;
    assert TruncDiv(n - h, d) == TruncDiv(-n + h, e);
  }

  lemma SmallQuotient(n: int, d: int)
    requires 0 <= n < d
    ensures n / d == 0
  {
  }

  lemma HalfPlus(r: int, d: int)
    requires 0 <= r < d
    ensures -d <= 2 * (r + d / 2) <= d <==> r == 0
  {
  }

  /** Not even multiplying by one is safe on a negative quantity: one millionth below zero is lost. */
  lemma NegativeProductIsLost()
    ensures MultiplyQuantities(FromScaled(-1), FromScaled(SCALE)) == Some("0")
  {
    ReadWritten(-1);
    ReadWritten(SCALE);
  }

  /** Sums are exact. */
  lemma SumIsExact(a: string, b: string, x: int, y: int) returns (r: int)
    requires ToScaled(a) == Some(x) && ToScaled(b) == Some(y)
    ensures r == x + y && AddQuantities(a, b) == Some(FromScaled(r)) && ToScaled(FromScaled(r)) == Some(r)
  {
    hide ToScaled, FromScaled;
    r := x + y;
    ReadWritten(r);
  }

  /** So are differences. */
  lemma DifferenceIsExact(a: string, b: string, x: int, y: int) returns (r: int)
    requires ToScaled(a) == Some(x) && ToScaled(b) == Some(y)
    ensures r == x - y && SubtractQuantities(a, b) == Some(FromScaled(r)) && ToScaled(FromScaled(r)) == Some(r)
  {
    hide ToScaled, FromScaled;
    r := x - y;
    ReadWritten(r);
  }

  /**
   * Products of any two quantities: within half a millionth of the exact
   * product exactly when that rounds well, so always when it is not negative.
   */
  lemma ProductIsNearest(a: string, b: string, x: int, y: int) returns (r: int)
    requires ToScaled(a) == Some(x) && ToScaled(b) == Some(y)
    ensures MultiplyQuantities(a, b) == Some(FromScaled(r)) && ToScaled(FromScaled(r)) == Some(r)
    ensures Nearest(r, x * y, SCALE) <==> RoundsWell(x * y, SCALE)
    ensures x * y >= 0 ==> r >= 0
  {
    hide ToScaled, FromScaled;
    RoundsToNearestExactly(x * y, SCALE);
    r := RoundPositive(x * y, SCALE);
    ReadWritten(r);
  }

  /** So for quotients by any divisor but zero. */
  lemma QuotientIsNearest(a: string, b: string, x: int, y: int) returns (r: int)
    requires ToScaled(a) == Some(x) && ToScaled(b) == Some(y) && y != 0
    ensures DivideQuantities(a, b) == Some(FromScaled(r)) && ToScaled(FromScaled(r)) == Some(r)
    ensures var n, d := if y > 0 then x * SCALE else -x * SCALE, if y > 0 then y else -y;
            (Nearest(r, n, d) <==> RoundsWell(n, d)) && (n >= 0 ==> r >= 0)
  {
    hide ToScaled, FromScaled;
    var n, d := if y > 0 then x * SCALE else -x * SCALE, if y > 0 then y else -y;
    r := RoundPositive(x * SCALE, y);
    if y < 0 { SignsCancel(x * SCALE, y); }
    assert r == RoundPositive(n, d);
    RoundsToNearestExactly(n, d);
    if n >= 0 { RoundsToNearest(n, d); }
    ReadWritten(r);
  }

  function CompareQuantities(a: string, b: string): Option<int> {
    if ToScaled(a).None? || ToScaled(b).None? then None
    else
      var left, right := ToScaled(a).value, ToScaled(b).value;
      Some(if left < right then -1 else if left > right then 1 else 0)
  }

  /** Comparing two quantities is looking at the sign of their written difference. */
  lemma ComparisonIsExact(a: string, b: string) returns (difference: int)
    requires ToScaled(a).Some? && ToScaled(b).Some?
    ensures SubtractQuantities(a, b).Some? && ToScaled(SubtractQuantities(a, b).value) == Some(difference)
    ensures CompareQuantities(a, b) == Some(if difference < 0 then -1 else if difference > 0 then 1 else 0)
    ensures CompareQuantities(a, b) == Some(0) <==> FromScaled(ToScaled(a).value) == FromScaled(ToScaled(b).value)
  {
    hide ToScaled, FromScaled;
    difference := DifferenceIsExact(a, b, ToScaled(a).value, ToScaled(b).value);
    WrittenIsCanonical(a, b);
  }
}
