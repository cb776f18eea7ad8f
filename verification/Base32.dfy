/**
 * Base32 text for one-time-password secrets, section 6 of RFC 4648 without
 * padding: bytes become bits, bits are cut into groups of five, and back.
 * Of upper-casing, only what yields letters from A to Z is spelt out.
 */
module Base32 {
  import opened Common

  type Byte = b: int | 0 <= b < 256

  const ALPHABET := "ABCDEFGHIJKLMNOPQRSTUVWXYZ234567"

  // --------------------------------------------------------------------- bits

  function ToBits(n: nat, k: nat): seq<bool> {
    if k == 0 then [] else ToBits(n / 2, k - 1) + [n % 2 == 1]
  }

  function FromBits(s: seq<bool>): nat {
    if s == [] then 0 else 2 * FromBits(s[..|s| - 1]) + if s[|s| - 1] then 1 else 0
  }

  function Pow2(k: nat): nat { if k == 0 then 1 else 2 * Pow2(k - 1) }

  lemma {:induction false} BitsReadBack(n: nat, k: nat)
    requires n < Pow2(k)
    ensures |ToBits(n, k)| == k && FromBits(ToBits(n, k)) == n
  {
    if k > 0 {
      BitsReadBack(n / 2, k - 1);
      assert ToBits(n, k)[..k - 1] == ToBits(n / 2, k - 1);
    }
  }

  lemma {:induction false} BitsWriteBack(s: seq<bool>)
    ensures FromBits(s) < Pow2(|s|) && ToBits(FromBits(s), |s|) == s
    decreases |s|
  {
    if s != [] {
      BitsWriteBack(s[..|s| - 1]);
      assert FromBits(s) / 2 == FromBits(s[..|s| - 1]);
    }
  }

  lemma Powers()
    ensures Pow2(5) == 32 && Pow2(8) == 256
  {
    assert Pow2(2) == 4 && Pow2(4) == 16 && Pow2(6) == 64;
  }

  // -------------------------------------------------------------- specification

  function AllBits(bytes: seq<Byte>): seq<bool> {
    if bytes == [] then [] else AllBits(bytes[..|bytes| - 1]) + ToBits(bytes[|bytes| - 1], 8)
  }

  function Letter(v: nat): char
    requires v < 32
  {
    ALPHABET[v]
  }

  /** The alphabet of section 6 of RFC 4648: the capital letters stand for 0 to 25, the digits 2 to 7 for 26 to 31. */
  lemma AlphabetIsStandard(v: nat)
    requires v < 32
    ensures Letter(v) == if v < 26 then 'A' + v as char else '2' + (v - 26) as char
    ensures forall w: nat :: w < 32 && Letter(w) == Letter(v) ==> w == v
  {
    var i := 0;
    while i < 32
      invariant i <= 32 && forall w: nat :: w < i ==> Letter(w) == LetterOf(w)
    {
      assert Letter(i) == LetterOf(i);
      i := i + 1;
    }
    assert Letter(v) == LetterOf(v);
  }

  function LetterOf(v: nat): char
    requires v < 32
  {
    if v < 26 then 'A' + v as char else '2' + (v - 26) as char
  }

  /** Whole groups of five bits, and a last one filled up with zero bits. */
  function Letters(bits: seq<bool>): string
    decreases |bits|
  {
    if bits == [] then ""
    else
      var group := Group(bits);
      GroupFits(group);
      [Letter(FromBits(group))] + Letters(if |bits| <= 5 then [] else bits[5..])
  }

  function Group(bits: seq<bool>): (g: seq<bool>)
    ensures |g| == 5
  {
    if |bits| >= 5 then bits[..5] else bits + seq(5 - |bits|, _ => false)
  }

  lemma GroupFits(g: seq<bool>)
    requires |g| == 5
    ensures FromBits(g) < 32
  {
    BitsWriteBack(g);
    Powers();
  }

  function LetterIndex(c: char): Option<nat> { IndexFrom(c, 0) }

  function IndexFrom(c: char, i: nat): (r: Option<nat>)
    ensures r.Some? ==> i <= r.value < |ALPHABET| && ALPHABET[r.value] == c
    ensures r.None? ==> forall j :: i <= j < |ALPHABET| ==> ALPHABET[j] != c
    decreases |ALPHABET| - i
  {
    if i >= |ALPHABET| then None else if ALPHABET[i] == c then Some(i) else IndexFrom(c, i + 1)
  }

  /**
   * Upper-casing, as far as letters from A to Z come of it. Besides the small
   * letters, these are dotless i, long s, sharp s, a few accented letters whose
   * capital is spelt with a combining mark, and the ligatures; what the mark is
   * does not matter here. Any other character stands for its capital.
   */
  function Upper(c: char): string {
    if 'a' <= c <= 'z' then [c - 'a' + 'A']
    else if c == '\U{0131}' then "I"
    else if c == '\U{017F}' then "S"
    else if c == '\U{00DF}' then "SS"
    else if c == '\U{0149}' then "\U{02BC}N"
    else if c == '\U{01F0}' then "J\U{030C}"
    else if c == '\U{1E96}' then "H\U{0331}"
    else if c == '\U{1E97}' then "T\U{0308}"
    else if c == '\U{1E98}' then "W\U{030A}"
    else if c == '\U{1E99}' then "Y\U{030A}"
    else if c == '\U{1E9A}' then "A\U{02BE}"
    else if c == '\U{FB00}' then "FF"
    else if c == '\U{FB01}' then "FI"
    else if c == '\U{FB02}' then "FL"
    else if c == '\U{FB03}' then "FFI"
    else if c == '\U{FB04}' then "FFL"
    else if c == '\U{FB05}' || c == '\U{FB06}' then "ST"
    else [c]
  }

  function UpperText(s: string): string {
    if s == [] then []
    else
      var n := |s| - 1;
      UpperText(s[..n]) + Upper(s[n])
  }

  function StripPadding(s: string): string {
    if s != [] && s[|s| - 1] == '=' then StripPadding(s[..|s| - 1]) else s
  }

  function Carried(c: char): seq<bool> {
    match LetterIndex(c)
    case None => []
    case Some(v) => ToBits(v, 5)
  }

  /** The bits of the letters; anything else is skipped. */
  function TextBits(s: string): seq<bool> {
    if s == [] then []
    else
      var n := |s| - 1;
      TextBits(s[..n]) + Carried(s[n])
  }

  function WholeBytes(bits: seq<bool>): seq<Byte>
    decreases |bits|
  {
    if |bits| < 8 then []
    else
      ByteFits(bits[..8]);
      [FromBits(bits[..8])] + WholeBytes(bits[8..])
  }

  lemma ByteFits(g: seq<bool>)
    requires |g| == 8
    ensures FromBits(g) < 256
  {
    BitsWriteBack(g);
    Powers();
  }

  function Encode(bytes: seq<Byte>): string { Letters(AllBits(bytes)) }

  function Decode(encoded: string): seq<Byte> { WholeBytes(TextBits(StripPadding(UpperText(encoded)))) }

  // --------------------------------------------------------------- the program

  method Base32Encode(buffer: seq<Byte>) returns (output: string)
    ensures output == Encode(buffer)
  {
    hide Letters, FromBits, ToBits;
    var bits: seq<bool> := [];
    for k := 0 to |buffer|
      invariant bits == AllBits(buffer[..k])
    {
      assert buffer[..k + 1][..k] == buffer[..k];
      bits := bits + ToBits(buffer[k], 8);
    }
    assert buffer[..|buffer|] == buffer;
    output := "";
    hide AllBits;
    var i := 0;
    assert bits[0..] == bits;
    while i + 5 <= |bits|
      invariant i <= |bits| && output + Letters(bits[i..]) == Letters(bits)
    {
      var group := bits[i..i + 5];
      NextLetter(bits, i, output);
      output := output + [Letter(FromBits(group))];
      i := i + 5;
    }
    var remainder := |bits| - i;
    LastLetter(bits, i, output);
    if remainder != 0 {
      var last := bits[i..] + seq(5 - remainder, _ => false);
      output := output + [Letter(FromBits(last))];
    }
  }

  lemma NextLetter(bits: seq<bool>, i: nat, output: string)
    requires i + 5 <= |bits|
    ensures FromBits(bits[i..i + 5]) < 32
    ensures output + Letters(bits[i..]) == output + [Letter(FromBits(bits[i..i + 5]))] + Letters(bits[i + 5..])
  {
    var rest, group := bits[i..], bits[i..i + 5];
    GroupFits(group);
    assert Group(rest) == group;
    assert (if |rest| <= 5 then [] else rest[5..]) == bits[i + 5..];
    hide FromBits;
    assert Letters(rest) == [Letter(FromBits(group))] + Letters(bits[i + 5..]);
  }

  lemma LastLetter(bits: seq<bool>, i: nat, output: string)
    requires i <= |bits| < i + 5
    ensures i < |bits| ==> FromBits(bits[i..] + seq(5 - (|bits| - i), _ => false)) < 32
    ensures output + Letters(bits[i..]) ==
            if i == |bits| then output else output + [Letter(FromBits(bits[i..] + seq(5 - (|bits| - i), _ => false)))]
  {
    var rest := bits[i..];
    if i == |bits| {
      assert rest == [] && output + [] == output;
    } else {
      var last := rest + seq(5 - (|bits| - i), _ => false);
      GroupFits(last);
      assert Group(rest) == last;
      hide FromBits;
      assert Letters(rest) == [Letter(FromBits(last))] + Letters([]);
      assert [Letter(FromBits(last))] + [] == [Letter(FromBits(last))];
    }
  }

  method Base32Decode(encoded: string) returns (bytes: seq<Byte>)
    ensures bytes == Decode(encoded)
  {
    var clean := StripPadding(UpperText(encoded));
    hide StripPadding, UpperText, LetterIndex, ToBits, FromBits;
    var bits: seq<bool> := [];
    for k := 0 to |clean|
      invariant bits == TextBits(clean[..k])
    {
      assert clean[..k + 1][..k] == clean[..k];
      var val := LetterIndex(clean[k]);
      if val.None? {
        continue;
      }
      bits := bits + ToBits(val.value, 5);
    }
    assert clean[..|clean|] == clean;
    hide TextBits, Carried;
    bytes := [];
    var i := 0;
    while i + 8 <= |bits|
      invariant i <= |bits| && bytes + WholeBytes(bits[i..]) == WholeBytes(bits)
    {
      ByteFits(bits[i..i + 8]);
      assert bits[i..][..8] == bits[i..i + 8] && bits[i..][8..] == bits[i + 8..];
      var b: Byte := FromBits(bits[i..i + 8]);
      assert bytes + ([b] + WholeBytes(bits[i + 8..])) == bytes + [b] + WholeBytes(bits[i + 8..]);
      bytes := bytes + [b];
      i := i + 8;
    }
  }

  // ---------------------------------------------------------------- round trip

  lemma {:induction false} LetterRoundTrip(v: nat)
    requires v < 32
    ensures LetterIndex(Letter(v)) == Some(v)
  {
    var r := LetterIndex(Letter(v));
    assert r.Some?;
    AlphabetIsDistinct(v, r.value);
  }

  lemma AlphabetIsDistinct(i: nat, j: nat)
    requires i < 32 && j < 32 && ALPHABET[i] == ALPHABET[j]
    ensures i == j
  {
    assert forall k :: 0 <= k < 26 ==> ALPHABET[k] == 'A' + k as char;
    assert forall k :: 26 <= k < 32 ==> ALPHABET[k] == '2' + (k - 26) as char;
  }

  lemma TextBitsSnoc(s: string, c: char)
    ensures TextBits(s + [c]) == TextBits(s) + Carried(c)
  {
    assert (s + [c])[..|s|] == s;
  }

  lemma {:induction false} TextBitsFront(c: char, s: string)
    ensures TextBits([c] + s) == Carried(c) + TextBits(s)
    decreases |s|
  {
    hide Carried;
    if s == [] {
      assert [c][..0] == [] && [c] + s == [c];
    } else {
      var init, last := s[..|s| - 1], s[|s| - 1];
      TextBitsFront(c, init);
      TextBitsSnoc(init, last);
      TextBitsSnoc([c] + init, last);
      hide TextBits;
      assert s == init + [last] && [c] + s == [c] + init + [last];
    }
  }

  /** The letters carry the bits, and fewer than five zero bits to fill the last group. */
  lemma {:induction false} LettersCarryBits(bits: seq<bool>) returns (fill: seq<bool>)
    ensures |fill| < 5 && TextBits(Letters(bits)) == bits + fill
    decreases |bits|
  {
    if bits == [] {
      fill := [];
    } else {
      hide Letters, Group, TextBits;
      var rest := if |bits| <= 5 then [] else bits[5..];
      FirstGroup(bits);
      GroupIsFront(bits);
      var tail := LettersCarryBits(rest);
      if |bits| < 5 {
        NoLetters();
        fill := seq(5 - |bits|, _ => false);
      } else {
        fill := tail;
        FrontAndRest(bits, tail);
      }
    }
  }

  lemma FrontAndRest(bits: seq<bool>, tail: seq<bool>)
    requires |bits| >= 5
    ensures bits + tail == bits[..5] + ((if |bits| <= 5 then [] else bits[5..]) + tail)
  {
  }

  lemma NoLetters()
    ensures Letters([]) == [] && TextBits([]) == []
  {
  }

  lemma GroupIsFront(bits: seq<bool>)
    requires bits != []
    ensures |bits| >= 5 ==> Group(bits) == bits[..5]
    ensures |bits| < 5 ==> Group(bits) == bits + seq(5 - |bits|, _ => false)
  {
  }

  /** The first letter stands for the first group. */
  lemma FirstGroup(bits: seq<bool>)
    requires bits != []
    ensures TextBits(Letters(bits)) == Group(bits) + TextBits(Letters(if |bits| <= 5 then [] else bits[5..]))
  {
    var group, rest := Group(bits), if |bits| <= 5 then [] else bits[5..];
    GroupFits(group);
    BitsWriteBack(group);
    LetterRoundTrip(FromBits(group));
    TextBitsFront(Letter(FromBits(group)), Letters(rest));
    hide TextBits, FromBits, ToBits, LetterIndex;
  }

  lemma {:induction false} WholeBytesBack(bytes: seq<Byte>, bits: seq<bool>, fill: seq<bool>)
    requires |fill| < 8 && bits == FrontBits(bytes)
    ensures WholeBytes(bits + fill) == bytes
    decreases |bytes|
  {
    if bytes == [] {
      assert bits + fill == fill;
    } else {
      var first, rest := ToBits(bytes[0], 8), FrontBits(bytes[1..]);
      assert bits == first + rest;
      hide FrontBits, WholeBytes, ToBits, FromBits, Pow2;
      ByteReadsBack(bytes[0]);
      WholeBytesStep(first, rest + fill);
      assert bits + fill == first + (rest + fill);
      WholeBytesBack(bytes[1..], rest, fill);
    }
  }

  lemma ByteReadsBack(b: Byte)
    ensures |ToBits(b, 8)| == 8 && FromBits(ToBits(b, 8)) == b
  {
    Powers();
    BitsReadBack(b, 8);
  }

  lemma WholeBytesStep(first: seq<bool>, more: seq<bool>)
    requires |first| == 8
    ensures FromBits(first) < 256 && WholeBytes(first + more) == [FromBits(first)] + WholeBytes(more)
  {
    ByteFits(first);
    hide FromBits;
    var all := first + more;
    assert all[..8] == first && all[8..] == more;
  }

  function FrontBits(bytes: seq<Byte>): seq<bool> {
    if bytes == [] then [] else ToBits(bytes[0], 8) + FrontBits(bytes[1..])
  }

  lemma {:induction false} SameBits(bytes: seq<Byte>)
    ensures AllBits(bytes) == FrontBits(bytes)
    decreases |bytes|
  {
    hide ToBits;
    if bytes != [] {
      var n := |bytes| - 1;
      SameBits(bytes[..n]);
      FrontBitsSnoc(bytes[..n], bytes[n]);
      assert bytes == bytes[..n] + [bytes[n]];
    }
  }

  lemma {:induction false} FrontBitsSnoc(bytes: seq<Byte>, b: Byte)
    ensures FrontBits(bytes + [b]) == FrontBits(bytes) + ToBits(b, 8)
    decreases |bytes|
  {
    hide ToBits;
    var all := bytes + [b];
    if bytes == [] {
      assert all[1..] == [];
    } else {
      FrontBitsSnoc(bytes[1..], b);
      assert all[1..] == bytes[1..] + [b];
    }
  }

  /** The characters that are letters of the alphabet. */
  function OnlyLetters(s: string): string {
    if s == [] then [] else OnlyLetters(s[..|s| - 1]) + if LetterIndex(s[|s| - 1]).Some? then [s[|s| - 1]] else []
  }

  /** Characters outside the alphabet carry no bits, wherever they stand. */
  lemma {:induction false} NoiseCarriesNothing(s: string)
    ensures TextBits(s) == TextBits(OnlyLetters(s))
    decreases |s|
  {
    hide LetterIndex, ToBits;
    if s != [] {
      var n := |s| - 1;
      NoiseCarriesNothing(s[..n]);
      if LetterIndex(s[n]).Some? {
        TextBitsSnoc(OnlyLetters(s[..n]), s[n]);
      } else {
        assert OnlyLetters(s[..n]) + [] == OnlyLetters(s[..n]);
      }
    }
  }

  /** Padding carries nothing either. */
  lemma {:induction false} PaddingCarriesNothing(s: string)
    ensures OnlyLetters(StripPadding(s)) == OnlyLetters(s)
    decreases |s|
  {
    if s != [] && s[|s| - 1] == '=' {
      assert LetterIndex('=').None? by { PaddingIsNoLetter(); }
      PaddingCarriesNothing(s[..|s| - 1]);
      assert OnlyLetters(s[..|s| - 1]) + [] == OnlyLetters(s[..|s| - 1]);
    }
  }

  lemma PaddingIsNoLetter()
    ensures LetterIndex('=').None?
  {
    assert forall k :: 0 <= k < 32 ==> ALPHABET[k] != '=';
  }

  /**
   * Decoding undoes encoding for every byte sequence, and still does when the
   * text is written in lower case or mixed with characters outside the
   * alphabet: only the letters of its upper-cased form have to be those of the
   * encoding.
   * The fill bits never make an extra byte.
   */
  lemma DecodeUndoesEncode(bytes: seq<Byte>, text: string)
    requires OnlyLetters(UpperText(text)) == Encode(bytes)
    ensures Decode(text) == bytes
  {
    var clean := StripPadding(UpperText(text));
    NoiseCarriesNothing(clean);
    PaddingCarriesNothing(UpperText(text));
    var fill := LettersCarryBits(AllBits(bytes));
    SameBits(bytes);
    WholeBytesBack(bytes, AllBits(bytes), fill);
    hide TextBits, WholeBytes, AllBits, Letters, StripPadding, OnlyLetters;
  }

  lemma {:induction false} LettersStay(bits: seq<bool>)
    ensures OnlyLetters(UpperText(Letters(bits))) == Letters(bits)
    decreases |bits|
  {
    var s := Letters(bits);
    AllLetters(bits);
    LettersAreUpper(s);
    KeepsLetters(s);
  }

  lemma {:induction false} LettersAreUpper(s: string)
    requires forall i :: 0 <= i < |s| ==> IsLetter(s[i])
    ensures UpperText(s) == s
    decreases |s|
  {
    if s != [] {
      hide Upper, IsLetter, UpperText;
      var n := |s| - 1;
      var init := s[..n];
      assert s == init + [s[n]];
      assert forall i :: 0 <= i < n ==> init[i] == s[i];
      LettersAreUpper(init);
      LetterIsUpper(s[n]);
      UpperSnoc(init, s[n]);
    }
  }

  lemma UpperSnoc(s: string, c: char)
    ensures UpperText(s + [c]) == UpperText(s) + Upper(c)
  {
    hide Upper;
    assert (s + [c])[..|s|] == s;
  }

  predicate IsLetter(c: char) { LetterIndex(c).Some? }

  predicate Plain(c: char) { 'A' <= c <= 'Z' || '2' <= c <= '7' }

  lemma LetterIsUpper(c: char)
    requires IsLetter(c)
    ensures Upper(c) == [c]
  {
    hide Upper, Plain;
    AlphabetIsPlain(LetterIndex(c).value);
    PlainIsUpper(c);
  }

  lemma AlphabetIsPlain(k: nat)
    requires k < |ALPHABET|
    ensures Plain(ALPHABET[k])
  {
  }

  lemma PlainIsUpper(c: char)
    requires Plain(c)
    ensures Upper(c) == [c]
  {
  }

  lemma {:induction false} AllLetters(bits: seq<bool>)
    ensures forall i :: 0 <= i < |Letters(bits)| ==> IsLetter(Letters(bits)[i])
    decreases |bits|
  {
    if bits != [] {
      GroupFits(Group(bits));
      LetterRoundTrip(FromBits(Group(bits)));
      AllLetters(if |bits| <= 5 then [] else bits[5..]);
    }
  }

  lemma {:induction false} KeepsLetters(s: string)
    requires forall i :: 0 <= i < |s| ==> IsLetter(s[i])
    ensures OnlyLetters(s) == s
    decreases |s|
  {
    hide LetterIndex;
    if s != [] { KeepsLetters(s[..|s| - 1]); }
  }

  /** Not every character outside the alphabet is noise: one that upper-cases to a letter is read as that letter. */
  lemma LongSIsRead(text: string)
    ensures UpperText(text + ['\U{017F}']) == UpperText(text + ['S'])
            && Decode(text + ['\U{017F}']) == Decode(text + ['S'])
  {
    hide Decode;
    UpperSnoc(text, '\U{017F}');
    UpperSnoc(text, 'S');
    SameUpperSameBytes(text + ['\U{017F}'], text + ['S']);
  }

  /** Capital and small letters are read alike. */
  lemma {:induction false} CaseDoesNotMatter(s: string, t: string)
    requires |s| == |t|
    requires forall i :: 0 <= i < |s| ==> t[i] == s[i] || ('A' <= s[i] <= 'Z' && t[i] as int == s[i] as int + 32)
    ensures UpperText(s) == UpperText(t) && Decode(s) == Decode(t)
    decreases |s|
  {
    if s != [] {
      var n := |s| - 1;
      CaseDoesNotMatter(s[..n], t[..n]);
      SameCapital(s[n], t[n]);
    }
    hide Upper, Decode;
    SameUpperSameBytes(s, t);
  }

  lemma SameCapital(c: char, d: char)
    requires d == c || ('A' <= c <= 'Z' && d as int == c as int + 32)
    ensures Upper(c) == Upper(d)
  {
  }

  /** Characters whose capitals are spelt with letters from A to Z, and these letters. */
  const SPELT: map<char, string> := map[
    '\U{0131}' := "I", '\U{017F}' := "S", '\U{00DF}' := "SS", '\U{0149}' := "N", '\U{01F0}' := "J",
    '\U{1E96}' := "H", '\U{1E97}' := "T", '\U{1E98}' := "W", '\U{1E99}' := "Y", '\U{1E9A}' := "A",
    '\U{FB00}' := "FF", '\U{FB01}' := "FI", '\U{FB02}' := "FL", '\U{FB03}' := "FFI", '\U{FB04}' := "FFL",
    '\U{FB05}' := "ST", '\U{FB06}' := "ST"]

  /** They are read as those letters. */
  lemma SpeltLettersAreRead(text: string, c: char)
    requires c in SPELT
    ensures Decode(text + [c]) == Decode(text + SPELT[c])
  {
    SpeltUpper(c);
    UpperOfPlain(text, SPELT[c]);
    hide Upper, SPELT;
    UpperSnoc(text, c);
    hide UpperText;
    OnlyLettersAppend(UpperText(text), Upper(c));
    OnlyLettersAppend(UpperText(text), SPELT[c]);
    SameLettersSameBytes(text + [c], text + SPELT[c]);
  }

  lemma SpeltUpper(c: char)
    requires c in SPELT
    ensures OnlyLetters(Upper(c)) == OnlyLetters(SPELT[c])
    ensures forall i :: 0 <= i < |SPELT[c]| ==> 'A' <= SPELT[c][i] <= 'Z'
  {
    SpeltTable(c);
    var u := Upper(c);
    hide Upper, SPELT;
    MarksAreNoLetters();
    if u != SPELT[c] {
      assert u == [u[0]] + [u[1]] && OnlyLetters([u[0]]) + OnlyLetters([u[1]]) == OnlyLetters(u) by {
        OnlyLettersAppend([u[0]], [u[1]]);
      }
      hide LetterIndex;
      assert u[..1] == [u[0]] && u[1..] == [u[1]];
    }
  }

  /** Each capital is spelt so, but for one mark before or behind. */
  lemma SpeltTable(c: char)
    requires c in SPELT
    ensures var u := Upper(c);
            || u == SPELT[c]
            || (|u| == 2 && u[0] > 'Z' && u[1..] == SPELT[c])
            || (|u| == 2 && u[1] > 'Z' && u[..1] == SPELT[c])
    ensures forall i :: 0 <= i < |SPELT[c]| ==> 'A' <= SPELT[c][i] <= 'Z'
  {
  }

  lemma MarksAreNoLetters()
    ensures forall c: char :: c > 'Z' ==> LetterIndex(c).None?
  {
    forall c: char | c > 'Z' ensures LetterIndex(c).None? {
      if LetterIndex(c).Some? { AlphabetIsPlain(LetterIndex(c).value); }
    }
  }

  lemma {:induction false} UpperOfPlain(text: string, letters: string)
    requires forall i :: 0 <= i < |letters| ==> 'A' <= letters[i] <= 'Z'
    ensures UpperText(text + letters) == UpperText(text) + letters
    decreases |letters|
  {
    hide Upper;
    if letters == [] {
      assert text + letters == text;
    } else {
      var n := |letters| - 1;
      UpperOfPlain(text, letters[..n]);
      assert text + letters == (text + letters[..n]) + [letters[n]];
      UpperSnoc(text + letters[..n], letters[n]);
      PlainIsUpper(letters[n]);
    }
  }

  lemma {:induction false} OnlyLettersAppend(s: string, t: string)
    ensures OnlyLetters(s + t) == OnlyLetters(s) + OnlyLetters(t)
    decreases |t|
  {
    hide LetterIndex;
    if t == [] {
      assert s + t == s;
    } else {
      var n := |t| - 1;
      OnlyLettersAppend(s, t[..n]);
      assert (s + t)[..|s + t| - 1] == s + t[..n];
    }
  }

  lemma SameLettersSameBytes(s: string, t: string)
    requires OnlyLetters(UpperText(s)) == OnlyLetters(UpperText(t))
    ensures Decode(s) == Decode(t)
  {
    PaddingCarriesNothing(UpperText(s));
    PaddingCarriesNothing(UpperText(t));
    NoiseCarriesNothing(StripPadding(UpperText(s)));
    NoiseCarriesNothing(StripPadding(UpperText(t)));
    hide OnlyLetters, UpperText, StripPadding, TextBits;
  }

  lemma SameUpperSameBytes(s: string, t: string)
    requires UpperText(s) == UpperText(t)
    ensures Decode(s) == Decode(t)
  {
  }

  /** The plain round trip. */
  lemma RoundTrip(bytes: seq<Byte>)
    ensures Decode(Encode(bytes)) == bytes
  {
    LettersStay(AllBits(bytes));
    DecodeUndoesEncode(bytes, Encode(bytes));
  }
}
