/**
 * The canonical text of a production snapshot. Its hash is the frozen identity
 * of a production order, so two snapshots must share the text exactly when they
 * are the same up to the order in which object keys were written.
 *
 * Text is a sequence of UTF-16 code units. A finite number stands for its
 * printed decimal form, which tells numbers apart as `===` does.
 */
module SnapshotJson {
  type CodeUnit = u: int | 0 <= u < 0x1_0000
  type Text = seq<CodeUnit>

  const QUOTE: CodeUnit := 0x22
  const BACKSLASH: CodeUnit := 0x5C
  const COMMA: CodeUnit := 0x2C
  const COLON: CodeUnit := 0x3A
  const OPEN_ARRAY: CodeUnit := 0x5B
  const CLOSE_ARRAY: CodeUnit := 0x5D
  const OPEN_OBJECT: CodeUnit := 0x7B
  const CLOSE_OBJECT: CodeUnit := 0x7D

  /** `order` is the order in which the keys of an object were inserted. */
  datatype Json =
    | Null
    | Bool(value: bool)
    | Num(digits: Text)
    | Str(text: Text)
    | Arr(items: seq<Json>)
    | Obj(order: seq<Text>, fields: map<Text, Json>)

  predicate Digit(u: CodeUnit) { 0x30 <= u <= 0x39 }

  /** Digits, sign, point and exponent mark. */
  predicate NumberUnit(u: CodeUnit) { Digit(u) || u == 0x2D || u == 0x2B || u == 0x2E || u == 0x65 }

  predicate NumberText(t: Text) {
    t != [] && (Digit(t[0]) || t[0] == 0x2D) && forall i :: 0 <= i < |t| ==> NumberUnit(t[i])
  }

  ghost predicate Distinct<T>(s: seq<T>) { forall i, j :: 0 <= i < j < |s| ==> s[i] != s[j] }

  ghost predicate WellFormed(j: Json) {
    match j
    case Num(t) => NumberText(t)
    case Arr(items) => forall i :: 0 <= i < |items| ==> WellFormed(items[i])
    case Obj(order, fields) =>
      Distinct(order) && (set k | k in order) == fields.Keys && forall k :: k in fields ==> WellFormed(fields[k])
    case _ => true
  }

  /** The same value at every depth, object keys taken in any order. */
  ghost predicate SameSnapshot(a: Json, b: Json) {
    match a
    case Arr(items) =>
      b.Arr? && |items| == |b.items| && forall i :: 0 <= i < |items| ==> SameSnapshot(items[i], b.items[i])
    case Obj(_, fields) =>
      b.Obj? && fields.Keys == b.fields.Keys && forall k :: k in fields ==> SameSnapshot(fields[k], b.fields[k])
    case _ => a == b
  }

  // ----------------------------------------------------------------- strings

  predicate Lead(u: CodeUnit) { 0xD800 <= u < 0xDC00 }
  predicate Trail(u: CodeUnit) { 0xDC00 <= u < 0xE000 }

  function HexDigit(d: int): CodeUnit
    requires 0 <= d < 16
  {
    if d < 10 then 0x30 + d else 0x61 + d - 10
  }

  function Hex4(u: CodeUnit): Text {
    [HexDigit(u / 16 / 16 / 16), HexDigit(u / 16 / 16 % 16), HexDigit(u / 16 % 16), HexDigit(u % 16)]
  }

  /** How one code unit is written when it is not half of a surrogate pair. */
  function Escape(u: CodeUnit): Text {
    if u == QUOTE || u == BACKSLASH then [BACKSLASH, u]
    else if u == 8 then [BACKSLASH, 0x62]
    else if u == 9 then [BACKSLASH, 0x74]
    else if u == 10 then [BACKSLASH, 0x6E]
    else if u == 12 then [BACKSLASH, 0x66]
    else if u == 13 then [BACKSLASH, 0x72]
    else if u < 0x20 || Lead(u) || Trail(u) then [BACKSLASH, 0x75] + Hex4(u)
    else [u]
  }

  /** Code units taken by the next character: two for a surrogate pair. */
  function Used(s: Text): nat
    requires s != []
    ensures 1 <= Used(s) <= |s|
  {
    if |s| > 1 && Lead(s[0]) && Trail(s[1]) then 2 else 1
  }

  function Chunk(s: Text): Text
    requires s != []
  {
    if Used(s) == 2 then s[..2] else Escape(s[0])
  }

  function Escaped(s: Text): Text {
    if s == [] then [] else Chunk(s) + Escaped(s[Used(s)..])
  }

  function Quote(s: Text): Text { [QUOTE] + Escaped(s) + [QUOTE] }

  // --------------------------------------------------------------- key order

  predicate Less(s: Text, t: Text) {
    t != [] && (s == [] || s[0] < t[0] || (s[0] == t[0] && Less(s[1..], t[1..])))
  }

  /** The first place where two keys differ decides by its code unit; a proper prefix comes first. */
  ghost predicate InUnitOrder(s: Text, t: Text) { exists n: nat :: DecidesAt(s, t, n) }

  predicate DecidesAt(s: Text, t: Text, n: nat) {
    n <= |s| && n < |t| && s[..n] == t[..n] && (n < |s| ==> s[n] < t[n])
  }

  lemma {:induction false} LessByUnits(s: Text, t: Text) returns (n: nat)
    requires Less(s, t)
    ensures DecidesAt(s, t, n)
  {
    if s == [] || s[0] < t[0] {
      n := 0;
    } else {
      var m := LessByUnits(s[1..], t[1..]);
      n := m + 1;
      assert s[..n] == [s[0]] + s[1..][..m] && t[..n] == [t[0]] + t[1..][..m];
    }
  }

  lemma {:induction false} LessIsTransitive(s: Text, t: Text, u: Text)
    requires Less(s, t) && Less(t, u)
    ensures Less(s, u)
  {
    if s != [] && s[0] == t[0] == u[0] { LessIsTransitive(s[1..], t[1..], u[1..]); }
  }

  lemma {:induction false} LessIsTotal(s: Text, t: Text)
    ensures Less(s, t) || s == t || Less(t, s)
    ensures !(Less(s, t) && Less(t, s)) && !Less(s, s)
    decreases |s|
  {
    if s != [] {
      if t != [] {
        LessIsTotal(s[1..], t[1..]);
        assert s == [s[0]] + s[1..] && t == [t[0]] + t[1..];
      }
      LessIsTotal(s[1..], s[1..]);
    }
  }

  function InsertKey(k: Text, s: seq<Text>): seq<Text> {
    if s == [] || Less(k, s[0]) then [k] + s else [s[0]] + InsertKey(k, s[1..])
  }

  function SortKeys(keys: seq<Text>): seq<Text>
    ensures forall k :: k in SortKeys(keys) ==> k in keys
  {
    if keys == [] then []
    else
      InsertKeeps(keys[0], SortKeys(keys[1..]));
      InsertKey(keys[0], SortKeys(keys[1..]))
  }

  lemma {:induction false} InsertKeeps(k: Text, s: seq<Text>)
    ensures forall x :: x in InsertKey(k, s) <==> x == k || x in s
  {
    if s == [] || Less(k, s[0]) {
    } else {
      InsertKeeps(k, s[1..]);
    }
  }

  ghost predicate Sorted(s: seq<Text>) { forall i, j :: 0 <= i < j < |s| ==> Less(s[i], s[j]) }

  lemma {:induction false} InsertSorts(k: Text, s: seq<Text>)
    requires Sorted(s) && k !in s
    ensures Sorted(InsertKey(k, s))
  {
    if s == [] {
    } else if Less(k, s[0]) {
      forall j | 0 <= j < |s| ensures Less(k, s[j]) {
        if j > 0 { LessIsTransitive(k, s[0], s[j]); }
      }
    } else {
      var r := InsertKey(k, s[1..]);
      InsertSorts(k, s[1..]);
      InsertKeeps(k, s[1..]);
      LessIsTotal(k, s[0]);
      forall j | 0 <= j < |r| ensures Less(s[0], r[j]) {
        assert r[j] in r;
        if r[j] != k {
          var i :| 0 <= i < |s[1..]| && s[1..][i] == r[j];
          assert Less(s[0], s[i + 1]);
        }
      }
    }
  }

  lemma {:induction false} SortKeysSorts(keys: seq<Text>)
    requires Distinct(keys)
    ensures Sorted(SortKeys(keys)) && |SortKeys(keys)| == |keys|
    ensures forall k :: k in keys <==> k in SortKeys(keys)
  {
    if keys != [] {
      SortKeysSorts(keys[1..]);
      InsertKeeps(keys[0], SortKeys(keys[1..]));
      InsertSorts(keys[0], SortKeys(keys[1..]));
      InsertLengthens(keys[0], SortKeys(keys[1..]));
    }
  }

  lemma {:induction false} InsertLengthens(k: Text, s: seq<Text>)
    ensures |InsertKey(k, s)| == |s| + 1
  {
    if s != [] && !Less(k, s[0]) { InsertLengthens(k, s[1..]); }
  }

  /** In the written order an earlier key is a proper prefix of a later one, or smaller where they first differ. */
  lemma KeysAscendByUnits(keys: seq<Text>)
    requires Distinct(keys)
    ensures forall i, j :: 0 <= i < j < |SortKeys(keys)| ==> InUnitOrder(SortKeys(keys)[i], SortKeys(keys)[j])
  {
    SortKeysSorts(keys);
    var sorted := SortKeys(keys);
    forall i, j | 0 <= i < j < |sorted| ensures InUnitOrder(sorted[i], sorted[j]) {
      var n := LessByUnits(sorted[i], sorted[j]);
    }
  }

  lemma {:induction false} SortedIsUnique(p: seq<Text>, q: seq<Text>)
    requires Sorted(p) && Sorted(q) && forall k :: k in p <==> k in q
    ensures p == q
    decreases |p|
  {
    assert p != [] ==> p[0] in p;
    assert q != [] ==> q[0] in q;
    if p != [] && q != [] {
      SameHead(p, q);
      forall k ensures k in p[1..] <==> k in q[1..] {
        TailMembership(p, k);
        TailMembership(q, k);
      }
      SortedIsUnique(p[1..], q[1..]);
      assert p == [p[0]] + p[1..] && q == [q[0]] + q[1..];
    }
  }

  lemma SameHead(p: seq<Text>, q: seq<Text>)
    requires Sorted(p) && Sorted(q) && p != [] && q != [] && forall k :: k in p <==> k in q
    ensures p[0] == q[0]
  {
    assert p[0] in q && q[0] in p;
    var i :| 0 <= i < |q| && q[i] == p[0];
    var j :| 0 <= j < |p| && p[j] == q[0];
    if i > 0 && j > 0 {
      assert Less(q[0], q[i]) && Less(p[0], p[j]);
      LessIsTotal(p[0], q[0]);
    }
  }

  lemma TailMembership(p: seq<Text>, k: Text)
    requires Sorted(p) && p != []
    ensures k in p[1..] <==> k in p && k != p[0]
  {
    LessIsTotal(p[0], p[0]);
    if k in p && k != p[0] {
      var i :| 0 <= i < |p| && p[i] == k;
      assert p[1..][i - 1] == k;
    }
  }

  // ----------------------------------------------------------------- printer

  function Join(parts: seq<Text>): Text {
    if parts == [] then []
    else if |parts| == 1 then parts[0]
    else parts[0] + [COMMA] + Join(parts[1..])
  }

  const NULL_TEXT: Text := [0x6E, 0x75, 0x6C, 0x6C]
  const TRUE_TEXT: Text := [0x74, 0x72, 0x75, 0x65]
  const FALSE_TEXT: Text := [0x66, 0x61, 0x6C, 0x73, 0x65]

  function Print(j: Json): Text
    requires WellFormed(j)
  {
    match j
    case Null => NULL_TEXT
    case Bool(b) => if b then TRUE_TEXT else FALSE_TEXT
    case Num(t) => t
    case Str(s) => Quote(s)
    case Arr(items) =>
      [OPEN_ARRAY] + Join(seq(|items|, i requires 0 <= i < |items| && WellFormed(items[i]) => Print(items[i])))
        + [CLOSE_ARRAY]
    case Obj(order, fields) =>
      var keys := SortKeys(order);
      assert forall i :: 0 <= i < |keys| ==> keys[i] in order;
      [OPEN_OBJECT] + Join(seq(|keys|, i requires 0 <= i < |keys| && keys[i] in fields && WellFormed(fields[keys[i]]) =>
        Quote(keys[i]) + [COLON] + Print(fields[keys[i]]))) + [CLOSE_OBJECT]
  }

  // ------------------------------------------------------- lists, part by part

  /** Print of the list from its `i`-th part on, closed by `end`. */
  function Tail(parts: seq<Text>, i: nat, end: Text): Text
    requires i <= |parts|
    decreases |parts| - i, 1
  {
    if i == |parts| then end
    else parts[i] + Rest(parts, i, end)
  }

  function Rest(parts: seq<Text>, i: nat, end: Text): Text
    requires i < |parts|
    decreases |parts| - i, 0
  {
    if i + 1 == |parts| then end else [COMMA] + Tail(parts, i + 1, end)
  }

  lemma {:induction false} JoinIsTail(parts: seq<Text>, i: nat, end: Text)
    requires i <= |parts|
    ensures Join(parts[i..]) + end == Tail(parts, i, end)
    decreases |parts| - i
  {
    if i + 1 < |parts| {
      JoinIsTail(parts, i + 1, end);
      assert parts[i..][1..] == parts[i + 1..];
      assert Join(parts[i..]) + end == parts[i] + ([COMMA] + (Join(parts[i + 1..]) + end));
    } else if i < |parts| {
      assert parts[i..] == [parts[i]];
    }
  }

  function ItemTexts(items: seq<Json>): seq<Text>
    requires forall i :: 0 <= i < |items| ==> WellFormed(items[i])
  {
    seq(|items|, i requires 0 <= i < |items| && WellFormed(items[i]) => Print(items[i]))
  }

  function MemberText(fields: map<Text, Json>, k: Text): Text
    requires k in fields && WellFormed(fields[k])
  {
    Quote(k) + [COLON] + Print(fields[k])
  }

  function MemberTexts(keys: seq<Text>, fields: map<Text, Json>): seq<Text>
    requires forall k :: k in keys ==> k in fields && WellFormed(fields[k])
  {
    seq(|keys|, i requires 0 <= i < |keys| && keys[i] in fields && WellFormed(fields[keys[i]]) =>
      MemberText(fields, keys[i]))
  }

  lemma PrintedArray(a: Json, x: Text)
    requires WellFormed(a) && a.Arr?
    ensures Print(a) + x == [OPEN_ARRAY] + Tail(ItemTexts(a.items), 0, [CLOSE_ARRAY] + x)
  {
    var parts := ItemTexts(a.items);
    assert parts == seq(|a.items|, i requires 0 <= i < |a.items| && WellFormed(a.items[i]) => Print(a.items[i]));
    JoinIsTail(parts, 0, [CLOSE_ARRAY] + x);
    assert parts[0..] == parts;
    assert Print(a) + x == [OPEN_ARRAY] + (Join(parts) + ([CLOSE_ARRAY] + x));
  }

  lemma PrintedObject(a: Json, x: Text)
    requires WellFormed(a) && a.Obj?
    ensures forall k :: k in SortKeys(a.order) ==> k in a.fields && WellFormed(a.fields[k])
    ensures Print(a) + x == [OPEN_OBJECT] + Tail(MemberTexts(SortKeys(a.order), a.fields), 0, [CLOSE_OBJECT] + x)
  {
    var keys := SortKeys(a.order);
    forall k | k in keys ensures k in a.fields { assert k in a.order; }
    var parts := MemberTexts(keys, a.fields);
    assert parts == seq(|keys|, i requires 0 <= i < |keys| && keys[i] in a.fields && WellFormed(a.fields[keys[i]]) =>
        Quote(keys[i]) + [COLON] + Print(a.fields[keys[i]]));
    JoinIsTail(parts, 0, [CLOSE_OBJECT] + x);
    assert parts[0..] == parts;
    assert Print(a) + x == [OPEN_OBJECT] + (Join(parts) + ([CLOSE_OBJECT] + x));
  }

  /** Values that are the same up to key order print alike. */
  lemma {:induction false} SameSnapshotPrintsAlike(a: Json, b: Json)
    requires WellFormed(a) && WellFormed(b) && SameSnapshot(a, b)
    ensures Print(a) == Print(b)
    decreases a
  {
    match a
    case Arr(items) =>
      forall i | 0 <= i < |items| ensures Print(items[i]) == Print(b.items[i]) {
        SameSnapshotPrintsAlike(items[i], b.items[i]);
      }
      assert ItemTexts(items) == ItemTexts(b.items);
      PrintedArray(a, []);
      PrintedArray(b, []);
      assert Print(a) + [] == Print(a) && Print(b) + [] == Print(b);
    case Obj(order, fields) =>
      SortKeysSorts(order);
      SortKeysSorts(b.order);
      forall k ensures k in SortKeys(order) <==> k in SortKeys(b.order) {
        assert k in fields.Keys <==> k in order;
        assert k in b.fields.Keys <==> k in b.order;
      }
      SortedIsUnique(SortKeys(order), SortKeys(b.order));
      PrintedObject(a, []);
      PrintedObject(b, []);
      forall k | k in SortKeys(order) ensures MemberText(fields, k) == MemberText(b.fields, k) {
        SameSnapshotPrintsAlike(fields[k], b.fields[k]);
      }
      assert MemberTexts(SortKeys(order), fields) == MemberTexts(SortKeys(b.order), b.fields);
      assert Print(a) + [] == Print(a) && Print(b) + [] == Print(b);
    case _ =>
  }
}
