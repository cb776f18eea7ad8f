/**
 * A reader of compact JSON, written after RFC 8259 and apart from the printer: no
 * space between tokens, string escapes as in section 7, no name twice in an
 * object. It reads the canonical text of a snapshot back, so the text is JSON, its
 * keys stand in code unit order at every depth, and two snapshots share it exactly
 * when they are the same.
 */
module SnapshotReader {
  import opened Common
  import opened SnapshotJson

  // ----------------------------------------------------------------- strings

  function HexValue(u: CodeUnit): Option<nat> {
    if 0x30 <= u <= 0x39 then Some(u - 0x30)
    else if 0x41 <= u <= 0x46 then Some(u - 0x41 + 10)
    else if 0x61 <= u <= 0x66 then Some(u - 0x61 + 10)
    else None
  }

  /** Four hexadecimal digits of either case. */
  function ReadHex(t: Text): Option<CodeUnit>
    requires |t| == 4
  {
    var a, b, c, d := HexValue(t[0]), HexValue(t[1]), HexValue(t[2]), HexValue(t[3]);
    if a.None? || b.None? || c.None? || d.None? then None
    else
      var v := ((a.value * 16 + b.value) * 16 + c.value) * 16 + d.value;
      if v < 0x1_0000 then Some(v) else None
  }

  /** The characters that have an escape of two units. */
  function ReadShortEscape(u: CodeUnit): Option<CodeUnit> {
    match u
    case 0x22 => Some(0x22)
    case 0x5C => Some(0x5C)
    case 0x2F => Some(0x2F)
    case 0x62 => Some(8)
    case 0x66 => Some(12)
    case 0x6E => Some(10)
    case 0x72 => Some(13)
    case 0x74 => Some(9)
    case _ => None
  }

  /** One character: as it stands, or as one of the escapes; no control character stands for itself. */
  function ReadOne(t: Text): (r: Option<(CodeUnit, Text)>)
    requires t != []
    ensures r.Some? ==> |r.value.1| < |t|
  {
    if t[0] < 0x20 then None
    else if t[0] != 0x5C then Some((t[0], t[1..]))
    else if |t| >= 2 && ReadShortEscape(t[1]).Some? then Some((ReadShortEscape(t[1]).value, t[2..]))
    else if |t| >= 6 && t[1] == 0x75 && ReadHex(t[2..6]).Some? then Some((ReadHex(t[2..6]).value, t[6..]))
    else None
  }

  /** The string up to the closing quote, and what follows it. */
  function ReadChars(t: Text): (r: Option<(Text, Text)>)
    ensures r.Some? ==> |r.value.1| < |t|
  {
    if t == [] then None
    else if t[0] == 0x22 then Some(([], t[1..]))
    else if ReadOne(t).None? then None
    else Behind([ReadOne(t).value.0], ReadChars(ReadOne(t).value.1))
  }

  function Behind(front: Text, r: Option<(Text, Text)>): Option<(Text, Text)> {
    if r.None? then None else Some((front + r.value.0, r.value.1))
  }

  // ------------------------------------------------------------------ values

  /** The longest front that a number can be made of. */
  function NumberFront(t: Text): (n: nat)
    ensures n <= |t|
  {
    if t == [] || !NumberUnit(t[0]) then 0 else 1 + NumberFront(t[1..])
  }

  function ReadWord(t: Text, word: Text, j: Json): Option<(Json, Text)> {
    if word <= t then Some((j, t[|word|..])) else None
  }

  function ReadValue(t: Text): (r: Option<(Json, Text)>)
    ensures r.Some? ==> |r.value.1| < |t|
    decreases |t|, 1
  {
    if t == [] then None
    else if t[0] == 0x22 then
      var s := ReadChars(t[1..]);
      if s.None? then None else Some((Str(s.value.0), s.value.1))
    else if t[0] == 0x5B then
      if |t| > 1 && t[1] == 0x5D then Some((Arr([]), t[2..]))
      else
        var items := ReadItems(t[1..]);
        if items.None? then None else Some((Arr(items.value.0), items.value.1))
    else if t[0] == 0x7B then
      if |t| > 1 && t[1] == 0x7D then Some((Obj([], map[]), t[2..]))
      else
        var members := ReadMembers(t[1..]);
        if members.None? then None else Some((Obj(members.value.0, members.value.1), members.value.2))
    else if t[0] == 0x6E then ReadWord(t, [0x6E, 0x75, 0x6C, 0x6C], Null)
    else if t[0] == 0x74 then ReadWord(t, [0x74, 0x72, 0x75, 0x65], Bool(true))
    else if t[0] == 0x66 then ReadWord(t, [0x66, 0x61, 0x6C, 0x73, 0x65], Bool(false))
    else if Digit(t[0]) || t[0] == 0x2D then Some((Num(t[..NumberFront(t)]), t[NumberFront(t)..]))
    else None
  }

  /** One or more values with commas between them, up to the closing bracket. */
  function ReadItems(t: Text): (r: Option<(seq<Json>, Text)>)
    ensures r.Some? ==> |r.value.1| < |t|
    decreases |t|, 2
  {
    var first := ReadValue(t);
    if first.None? || first.value.1 == [] then None
    else
      var item, rest := first.value.0, first.value.1;
      if rest[0] == 0x5D then Some(([item], rest[1..]))
      else if rest[0] != 0x2C then None
      else
        var more := ReadItems(rest[1..]);
        if more.None? then None else Some(([item] + more.value.0, more.value.1))
  }

  /** One or more members with commas between them, up to the closing brace: the names as they stand, and the values. */
  function ReadMembers(t: Text): (r: Option<(seq<Text>, map<Text, Json>, Text)>)
    ensures r.Some? ==> |r.value.2| < |t|
    decreases |t|, 2
  {
    if t == [] || t[0] != 0x22 then None
    else
      var name := ReadChars(t[1..]);
      if name.None? || name.value.1 == [] || name.value.1[0] != 0x3A then None
      else
        var first := ReadValue(name.value.1[1..]);
        if first.None? || first.value.1 == [] then None
        else
          var k, v, rest := name.value.0, first.value.0, first.value.1;
          if rest[0] == 0x7D then Some(([k], map[k := v], rest[1..]))
          else if rest[0] != 0x2C then None
          else
            var more := ReadMembers(rest[1..]);
            if more.None? || k in more.value.1 then None
            else Some(([k] + more.value.0, more.value.1[k := v], more.value.2))
  }

  // ---------------------------------------------------- strings are read back

  lemma HexReadsBack(u: CodeUnit)
    ensures |Hex4(u)| == 4 && ReadHex(Hex4(u)) == Some(u)
  {
    var a, b, c, d := u / 16 / 16 / 16, u / 16 / 16 % 16, u / 16 % 16, u % 16;
    assert ((a * 16 + b) * 16 + c) * 16 + d == u;
    assert HexValue(HexDigit(a)) == Some(a) && HexValue(HexDigit(b)) == Some(b);
    assert HexValue(HexDigit(c)) == Some(c) && HexValue(HexDigit(d)) == Some(d);
  }

  lemma ShortEscapeReadsBack(u: CodeUnit, t: Text)
    requires u == QUOTE || u == BACKSLASH || u in {8, 9, 10, 12, 13}
    ensures ReadOne(Escape(u) + t) == Some((u, t)) && Escape(u)[0] != QUOTE
  {
    var e := Escape(u) + t;
    assert e[0] == BACKSLASH && e[1] == Escape(u)[1] && e[2..] == t;
  }

  lemma LongEscapeReadsBack(u: CodeUnit, t: Text)
    ensures ReadOne([BACKSLASH, 0x75] + Hex4(u) + t) == Some((u, t))
  {
    HexReadsBack(u);
    hide ReadHex, Hex4;
    var e := [BACKSLASH, 0x75] + Hex4(u) + t;
    assert e[0] == BACKSLASH && e[1] == 0x75 && e[2..6] == Hex4(u) && e[6..] == t;
  }

  lemma EscapeReadsBack(u: CodeUnit, t: Text)
    ensures var e := Escape(u) + t; e != [] && e[0] != QUOTE && ReadOne(e) == Some((u, t))
  {
    if u == QUOTE || u == BACKSLASH || u in {8, 9, 10, 12, 13} {
      ShortEscapeReadsBack(u, t);
    } else if u < 0x20 || Lead(u) || Trail(u) {
      LongEscapeReadsBack(u, t);
      hide ReadOne, Hex4;
      assert Escape(u) == [BACKSLASH, 0x75] + Hex4(u);
    } else {
      assert Escape(u) == [u] && ([u] + t)[1..] == t;
    }
  }

  /** A trailing surrogate stands for itself. */
  lemma TrailReadsBack(u: CodeUnit, v: CodeUnit, r: Text)
    requires Lead(u) && Trail(v)
    ensures ReadOne([u, v] + r) == Some((u, [v] + r)) && ReadOne([v] + r) == Some((v, r))
  {
    assert ([u, v] + r)[1..] == [v] + r && ([v] + r)[1..] == r;
  }

  /** What is written for the next character. */
  lemma ChunkReadsBack(s: Text, t: Text)
    requires s != []
    ensures ReadChars(Chunk(s) + t) == Behind(s[..Used(s)], ReadChars(t))
  {
    hide ReadOne, Escape;
    var u := s[0];
    assert s[..1] == [u];
    if Used(s) == 2 {
      var v := s[1];
      TrailReadsBack(u, v, t);
      assert Chunk(s) == [u, v];
      assert ReadChars([v] + t) == Behind([v], ReadChars(t));
      if ReadChars(t).Some? { assert [u] + ([v] + ReadChars(t).value.0) == [u, v] + ReadChars(t).value.0; }
    } else {
      EscapeReadsBack(u, t);
    }
  }

  lemma QuoteEnds(x: Text)
    ensures ReadChars([QUOTE] + x) == Some(([], x))
  {
    hide ReadOne;
    assert ([QUOTE] + x)[1..] == x;
  }

  lemma {:induction false} CharsReadBack(s: Text, x: Text)
    ensures ReadChars(Escaped(s) + [QUOTE] + x) == Some((s, x))
    decreases |s|
  {
    hide ReadChars, Chunk, Used;
    if s == [] {
      QuoteEnds(x);
      assert Escaped(s) + [QUOTE] + x == [QUOTE] + x;
    } else {
      var rest := s[Used(s)..];
      CharsReadBack(rest, x);
      ChunkReadsBack(s, Escaped(rest) + [QUOTE] + x);
      assert Escaped(s) + [QUOTE] + x == Chunk(s) + (Escaped(rest) + [QUOTE] + x);
      assert s == s[..Used(s)] + rest;
    }
  }

  /** A quoted string can be told from whatever follows it. */
  lemma QuoteUnambiguous(s: Text, t: Text, x: Text, y: Text)
    requires Quote(s) + x == Quote(t) + y
    ensures s == t && x == y
  {
    CharsReadBack(s, x);
    CharsReadBack(t, y);
    hide Escaped, ReadChars;
    var p, q := Quote(s) + x, Quote(t) + y;
    assert p[1..] == Escaped(s) + [QUOTE] + x && q[1..] == Escaped(t) + [QUOTE] + y;
  }

  /**
   * How a string is written, character by character: pairs of surrogates as they
   * are, seven characters with an escape of two units, other controls and lone
   * surrogates with four small hexadecimal digits, and the rest as they are.
   */
  lemma WrittenCharacter(s: Text)
    requires s != []
    ensures var paired := |s| > 1 && 0xD800 <= s[0] < 0xDC00 && 0xDC00 <= s[1] < 0xE000;
            var n := if paired then 2 else 1;
            var p := Chunk(s);
            && Escaped(s) == p + Escaped(s[n..])
            && if paired then p == s[..2]
               else if s[0] in {0x22, 0x5C, 8, 9, 10, 12, 13} then |p| == 2 && p[0] == 0x5C
               else if s[0] < 0x20 || 0xD800 <= s[0] < 0xE000 then
                 && |p| == 6 && p[0] == 0x5C && p[1] == 0x75
                 && forall i :: 2 <= i < 6 ==> 0x30 <= p[i] <= 0x39 || 0x61 <= p[i] <= 0x66
               else p == [s[0]]
  {
    EscapeForm(s[0]);
    hide Escape;
  }

  lemma EscapeForm(u: CodeUnit)
    ensures var p := Escape(u);
            if u in {0x22, 0x5C, 8, 9, 10, 12, 13} then |p| == 2 && p[0] == 0x5C
            else if u < 0x20 || 0xD800 <= u < 0xE000 then
              && |p| == 6 && p[0] == 0x5C && p[1] == 0x75
              && forall i :: 2 <= i < 6 ==> 0x30 <= p[i] <= 0x39 || 0x61 <= p[i] <= 0x66
            else p == [u]
  {
  }

  // ----------------------------------------------------- values are read back

  /** What can follow a printed value: nothing, or a unit that no number contains. */
  predicate Delimited(rest: Text) { rest == [] || !NumberUnit(rest[0]) }

  /** The same value with the keys of every object in the order in which they are written. */
  function KeysSorted(j: Json): Json
    requires WellFormed(j)
  {
    match j
    case Arr(items) =>
      Arr(seq(|items|, i requires 0 <= i < |items| && WellFormed(items[i]) => KeysSorted(items[i])))
    case Obj(order, fields) =>
      Obj(SortKeys(order), map k | k in fields :: KeysSorted(fields[k]))
    case _ => j
  }

  lemma {:induction false} NumberReadsBack(s: Text, x: Text)
    requires (forall i :: 0 <= i < |s| ==> NumberUnit(s[i])) && Delimited(x)
    ensures NumberFront(s + x) == |s|
  {
    if s == [] {
      assert s + x == x;
    } else {
      NumberReadsBack(s[1..], x);
      assert (s + x)[1..] == s[1..] + x;
    }
  }

  /** The canonical text, and whatever delimited text follows it, is read as the value with its keys sorted. */
  lemma {:induction false} ValueReadsBack(j: Json, x: Text)
    requires WellFormed(j) && Delimited(x)
    ensures ReadValue(Print(j) + x) == Some((KeysSorted(j), x))
    decreases j, 1, 0
  {
    match j
    case Null => WordReadsBack(j, x);
    case Bool(_) => WordReadsBack(j, x);
    case Num(_) => NumReadsBack(j, x);
    case Str(_) => StrReadsBack(j, x);
    case Arr(_) => ArrayReadsBack(j, x);
    case Obj(_, _) => ObjectReadsBack(j, x);
  }

  lemma WordReadsBack(j: Json, x: Text)
    requires j.Null? || j.Bool?
    ensures ReadValue(Print(j) + x) == Some((KeysSorted(j), x))
  {
    var t := Print(j) + x;
    assert t[..|Print(j)|] == Print(j) && t[|Print(j)|..] == x;
    assert t[0] == Print(j)[0];
  }

  lemma NumReadsBack(j: Json, x: Text)
    requires j.Num? && WellFormed(j) && Delimited(x)
    ensures ReadValue(Print(j) + x) == Some((KeysSorted(j), x))
  {
    var s, t := j.digits, Print(j) + x;
    NumberReadsBack(s, x);
    hide NumberFront;
    assert t[..|s|] == s && t[|s|..] == x && t[0] == s[0];
  }

  lemma StrReadsBack(j: Json, x: Text)
    requires j.Str?
    ensures ReadValue(Print(j) + x) == Some((KeysSorted(j), x))
  {
    QuotedReadsBack(j.text, x);
    hide ReadValue, Quote;
  }

  lemma QuotedReadsBack(s: Text, x: Text)
    ensures ReadValue(Quote(s) + x) == Some((Str(s), x))
  {
    var t := Quote(s) + x;
    CharsReadBack(s, x);
    hide ReadChars, Escaped;
    assert t[0] == QUOTE && t[1..] == Escaped(s) + [QUOTE] + x;
  }

  /** No value starts with a closing bracket. */
  lemma FirstUnit(j: Json)
    requires WellFormed(j)
    ensures Print(j) != [] && Print(j)[0] !in {CLOSE_ARRAY, CLOSE_OBJECT}
  {
    if j.Arr? {
      PrintedArray(j, []);
      assert Print(j) + [] == Print(j);
    }
    if j.Obj? {
      PrintedObject(j, []);
      assert Print(j) + [] == Print(j);
    }
  }

  lemma ArrayReadsBack(j: Json, x: Text)
    requires j.Arr? && WellFormed(j)
    ensures ReadValue(Print(j) + x) == Some((KeysSorted(j), x))
    decreases j, 0, |j.items| + 1
  {
    var t := Print(j) + x;
    PrintedArray(j, x);
    assert |ItemTexts(j.items)| == |j.items| == |KeysSorted(j).items|;
    assert t[1..] == Tail(ItemTexts(j.items), 0, [CLOSE_ARRAY] + x);
    if j.items == [] {
      assert t == [OPEN_ARRAY] + ([CLOSE_ARRAY] + x) && t[2..] == x;
      assert KeysSorted(j) == Arr([]);
    } else {
      FirstUnit(j.items[0]);
      assert ItemTexts(j.items)[0] == Print(j.items[0]);
      ItemsReadBack(j, 0, x);
      assert KeysSorted(j).items[0..] == KeysSorted(j).items;
      hide Print, KeysSorted, ItemTexts, WellFormed;
      ItemsMakeArray(t, KeysSorted(j).items, x);
    }
  }

  lemma ItemsMakeArray(t: Text, vs: seq<Json>, x: Text)
    requires |t| > 1 && t[0] == OPEN_ARRAY && t[1] != CLOSE_ARRAY && ReadItems(t[1..]) == Some((vs, x))
    ensures ReadValue(t) == Some((Arr(vs), x))
  {
    hide ReadItems;
  }

  lemma {:induction false} ItemsReadBack(j: Json, i: nat, x: Text)
    requires j.Arr? && WellFormed(j) && i < |j.items| == |KeysSorted(j).items|
    ensures ReadItems(Tail(ItemTexts(j.items), i, [CLOSE_ARRAY] + x)) == Some((KeysSorted(j).items[i..], x))
    decreases j, 0, |j.items| - i
  {
    var parts, close, all := ItemTexts(j.items), [CLOSE_ARRAY] + x, KeysSorted(j).items;
    var rest := Rest(parts, i, close);
    assert |parts| == |j.items| && parts[i] == Print(j.items[i]) && Tail(parts, i, close) == parts[i] + rest;
    assert all[i] == KeysSorted(j.items[i]);
    ValueReadsBack(j.items[i], rest);
    hide ReadValue, ReadItems, Print, KeysSorted, ItemTexts;
    if i + 1 < |j.items| {
      ItemsReadBack(j, i + 1, x);
      NextItem(Tail(parts, i, close), all[i], Tail(parts, i + 1, close), all[i + 1..], x);
      assert all[i..] == [all[i]] + all[i + 1..];
    } else {
      LastItem(Tail(parts, i, close), all[i], x);
      assert all[i..] == [all[i]];
    }
  }

  lemma NextItem(t: Text, v: Json, more: Text, vs: seq<Json>, x: Text)
    requires ReadValue(t) == Some((v, [COMMA] + more)) && ReadItems(more) == Some((vs, x))
    ensures ReadItems(t) == Some(([v] + vs, x))
  {
    hide ReadValue;
    assert ([COMMA] + more)[1..] == more;
  }

  lemma LastItem(t: Text, v: Json, x: Text)
    requires ReadValue(t) == Some((v, [CLOSE_ARRAY] + x))
    ensures ReadItems(t) == Some(([v], x))
  {
    hide ReadValue;
    assert ([CLOSE_ARRAY] + x)[1..] == x;
  }

  // ------------------------------------------------------------------ objects

  ghost predicate KeysOf(keys: seq<Text>, fields: map<Text, Json>) {
    forall k :: k in keys ==> k in fields && WellFormed(fields[k])
  }

  /** The values under these names, each with its keys sorted. */
  ghost function FieldsOf(keys: seq<Text>, fields: map<Text, Json>): map<Text, Json> {
    map k | k in keys && k in fields && WellFormed(fields[k]) :: KeysSorted(fields[k])
  }

  lemma {:induction false} MembersReadBack(j: Json, keys: seq<Text>, i: nat, x: Text)
    requires j.Obj? && KeysOf(keys, j.fields) && Distinct(keys) && i < |keys|
    ensures ReadMembers(Tail(MemberTexts(keys, j.fields), i, [CLOSE_OBJECT] + x)) ==
            Some((keys[i..], FieldsOf(keys[i..], j.fields), x))
    decreases j, 0, |keys| - i
  {
    var parts, close, k := MemberTexts(keys, j.fields), [CLOSE_OBJECT] + x, keys[i];
    assert k in keys;
    var rest := Rest(parts, i, close);
    assert parts[i] == MemberText(j.fields, k);
    ValueReadsBack(j.fields[k], rest);
    MemberTakenApart(k, j.fields[k], rest);
    FieldsFromFront(keys[i..], j.fields);
    assert |parts| == |keys| && keys[i..] == [k] + keys[i + 1..] && k !in keys[i + 1..];
    hide ReadValue, ReadMembers, ReadChars, Print, KeysSorted, MemberTexts, Quote, FieldsOf, StartsWithMember, Distinct;
    if i + 1 < |keys| {
      MembersReadBack(j, keys, i + 1, x);
      NextMember(Tail(parts, i, close), k, KeysSorted(j.fields[k]), Tail(parts, i + 1, close),
        keys[i + 1..], FieldsOf(keys[i + 1..], j.fields), x);
    } else {
      assert keys[i..] == [k] && keys[i + 1..] == [];
      LastMember(Tail(parts, i, close), k, KeysSorted(j.fields[k]), x);
    }
  }

  lemma FieldsFromFront(keys: seq<Text>, fields: map<Text, Json>)
    requires keys != [] && keys[0] in fields && WellFormed(fields[keys[0]])
    ensures FieldsOf(keys, fields) == FieldsOf(keys[1..], fields)[keys[0] := KeysSorted(fields[keys[0]])]
    ensures keys[1..] == [] ==> FieldsOf(keys, fields) == map[keys[0] := KeysSorted(fields[keys[0]])]
    ensures forall k :: k in FieldsOf(keys[1..], fields) ==> k in keys[1..]
  {
    assert keys == [keys[0]] + keys[1..];
  }

  /** The text begins with a member, behind which `behind` stands. */
  ghost predicate StartsWithMember(t: Text, k: Text, v: Json, behind: Text) {
    && t != [] && t[0] == QUOTE
    && exists after :: ReadChars(t[1..]) == Some((k, [COLON] + after)) && ReadValue(after) == Some((v, behind))
  }

  lemma NextMember(t: Text, k: Text, v: Json, more: Text, ks: seq<Text>, fs: map<Text, Json>, x: Text)
    requires StartsWithMember(t, k, v, [COMMA] + more) && k !in fs && ReadMembers(more) == Some((ks, fs, x))
    ensures ReadMembers(t) == Some(([k] + ks, fs[k := v], x))
  {
    hide ReadValue, ReadChars;
    var after :| ReadChars(t[1..]) == Some((k, [COLON] + after)) && ReadValue(after) == Some((v, [COMMA] + more));
    assert ([COMMA] + more)[1..] == more && ([COLON] + after)[1..] == after;
  }

  lemma LastMember(t: Text, k: Text, v: Json, x: Text)
    requires StartsWithMember(t, k, v, [CLOSE_OBJECT] + x)
    ensures ReadMembers(t) == Some(([k], map[k := v], x))
  {
    hide ReadValue, ReadChars;
    var after :| ReadChars(t[1..]) == Some((k, [COLON] + after)) && ReadValue(after) == Some((v, [CLOSE_OBJECT] + x));
    assert ([CLOSE_OBJECT] + x)[1..] == x && ([COLON] + after)[1..] == after;
  }

  /** The text of a member taken apart. */
  lemma MemberTakenApart(k: Text, v: Json, rest: Text)
    requires WellFormed(v) && ReadValue(Print(v) + rest) == Some((KeysSorted(v), rest))
    ensures StartsWithMember(Quote(k) + [COLON] + Print(v) + rest, k, KeysSorted(v), rest)
  {
    hide Escaped, ReadChars, ReadValue, Print, KeysSorted;
    var behind := [COLON] + (Print(v) + rest);
    CharsReadBack(k, behind);
    var t := Quote(k) + [COLON] + Print(v) + rest;
    assert t == [QUOTE] + (Escaped(k) + [QUOTE] + behind);
    assert t[1..] == Escaped(k) + [QUOTE] + behind;
  }

  lemma ObjectReadsBack(j: Json, x: Text)
    requires j.Obj? && WellFormed(j)
    ensures ReadValue(Print(j) + x) == Some((KeysSorted(j), x))
    decreases j, 0, |SortKeys(j.order)| + 1
  {
    var t, keys := Print(j) + x, SortKeys(j.order);
    PrintedObject(j, x);
    SortKeysSorts(j.order);
    var parts := MemberTexts(keys, j.fields);
    assert t[1..] == Tail(parts, 0, [CLOSE_OBJECT] + x);
    SortedFields(j);
    hide Print, Sorted, WellFormed;
    if keys == [] {
      assert t == [OPEN_OBJECT] + ([CLOSE_OBJECT] + x) && t[2..] == x;
    } else {
      SortedAreDistinct(keys);
      MembersReadBack(j, keys, 0, x);
      MemberStartsWithQuote(keys, j.fields, [CLOSE_OBJECT] + x);
      assert keys[0..] == keys;
      MembersMakeObject(t, keys, FieldsOf(keys, j.fields), x);
    }
  }

  lemma MembersMakeObject(t: Text, ks: seq<Text>, fs: map<Text, Json>, x: Text)
    requires |t| > 1 && t[0] == OPEN_OBJECT && t[1] == QUOTE && ReadMembers(t[1..]) == Some((ks, fs, x))
    ensures ReadValue(t) == Some((Obj(ks, fs), x))
  {
    hide ReadMembers;
  }

  lemma SortedFields(j: Json)
    requires j.Obj? && WellFormed(j)
    ensures KeysSorted(j) == Obj(SortKeys(j.order), FieldsOf(SortKeys(j.order), j.fields))
  {
    var keys := SortKeys(j.order);
    SortKeysSorts(j.order);
    forall k ensures k in j.fields <==> k in keys { assert k in j.fields.Keys <==> k in j.order; }
    hide Sorted, SortKeys;
    assert KeysSorted(j).fields == FieldsOf(keys, j.fields);
  }

  lemma SortedAreDistinct(keys: seq<Text>)
    requires Sorted(keys)
    ensures Distinct(keys)
  {
    forall i, j | 0 <= i < j < |keys| ensures keys[i] != keys[j] { LessIsTotal(keys[i], keys[j]); }
  }

  lemma MemberStartsWithQuote(keys: seq<Text>, fields: map<Text, Json>, end: Text)
    requires keys != [] && KeysOf(keys, fields)
    ensures Tail(MemberTexts(keys, fields), 0, end) != [] && Tail(MemberTexts(keys, fields), 0, end)[0] == QUOTE
  {
    assert keys[0] in keys && MemberTexts(keys, fields)[0] == MemberText(fields, keys[0]);
  }

  // ------------------------------------------------------------- what it means

  /** At every depth the keys of an object stand in code unit order. */
  ghost predicate KeysAscend(j: Json) {
    match j
    case Arr(items) => forall i :: 0 <= i < |items| ==> KeysAscend(items[i])
    case Obj(order, fields) =>
      && (forall i, k :: 0 <= i < k < |order| ==> InUnitOrder(order[i], order[k]))
      && (forall k :: k in fields ==> KeysAscend(fields[k]))
    case _ => true
  }

  lemma {:induction false} SortedIsSame(j: Json)
    requires WellFormed(j)
    ensures SameSnapshot(j, KeysSorted(j)) && KeysAscend(KeysSorted(j)) && WellFormed(KeysSorted(j))
    decreases j
  {
    match j
    case Arr(items) =>
      forall i | 0 <= i < |items|
        ensures SameSnapshot(items[i], KeysSorted(items[i]))
        ensures KeysAscend(KeysSorted(items[i])) && WellFormed(KeysSorted(items[i]))
      {
        SortedIsSame(items[i]);
      }
    case Obj(order, fields) =>
      KeysAscendByUnits(order);
      SortKeysSorts(order);
      SortedAreDistinct(SortKeys(order));
      assert (set k | k in SortKeys(order)) == (set k | k in order);
      forall k | k in fields
        ensures SameSnapshot(fields[k], KeysSorted(fields[k]))
        ensures KeysAscend(KeysSorted(fields[k])) && WellFormed(KeysSorted(fields[k]))
      {
        SortedIsSame(fields[k]);
      }
    case _ =>
  }

  /** The canonical text is JSON that reads as the same snapshot, its keys in code unit order at every depth. */
  lemma SnapshotReadsBack(j: Json) returns (read: Json)
    requires WellFormed(j)
    ensures ReadValue(Print(j)) == Some((read, []))
    ensures WellFormed(read) && SameSnapshot(j, read) && KeysAscend(read)
  {
    ValueReadsBack(j, []);
    assert Print(j) + [] == Print(j);
    SortedIsSame(j);
    read := KeysSorted(j);
  }

  lemma {:induction false} SortedAlike(a: Json, b: Json)
    requires WellFormed(a) && WellFormed(b) && KeysSorted(a) == KeysSorted(b)
    ensures SameSnapshot(a, b)
    decreases a
  {
    match a
    case Arr(items) =>
      forall i | 0 <= i < |items| ensures SameSnapshot(items[i], b.items[i]) {
        assert KeysSorted(a).items[i] == KeysSorted(b).items[i];
        SortedAlike(items[i], b.items[i]);
      }
    case Obj(order, fields) =>
      assert forall k :: k in KeysSorted(a).fields <==> k in fields;
      assert forall k :: k in KeysSorted(b).fields <==> k in b.fields;
      forall k | k in fields ensures SameSnapshot(fields[k], b.fields[k]) {
        assert KeysSorted(a).fields[k] == KeysSorted(b).fields[k];
        SortedAlike(fields[k], b.fields[k]);
      }
    case _ =>
  }

  /** A printed value can be told from whatever delimited text follows it. */
  lemma PrintUnambiguous(a: Json, b: Json, x: Text, y: Text)
    requires WellFormed(a) && WellFormed(b) && Delimited(x) && Delimited(y)
    requires Print(a) + x == Print(b) + y
    ensures SameSnapshot(a, b) && x == y
  {
    ValueReadsBack(a, x);
    ValueReadsBack(b, y);
    SortedAlike(a, b);
  }

  /** The text, and with it the hash of a collision-free digest, is the snapshot's identity. */
  lemma SnapshotIdentity(a: Json, b: Json)
    requires WellFormed(a) && WellFormed(b)
    ensures Print(a) == Print(b) <==> SameSnapshot(a, b)
  {
    if Print(a) == Print(b) {
      PrintUnambiguous(a, b, [], []);
    }
    if SameSnapshot(a, b) {
      SameSnapshotPrintsAlike(a, b);
    }
  }
}
