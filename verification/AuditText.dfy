/**
 * The text a row of the audit log hashes. The previous hash and the fields are
 * joined without separator, so a text can be read with or without a hash in
 * front, and the fields can be cut in more than one way.
 */
module AuditText {
  import opened Common
  import opened AuditChain
  import DecimalQuantity

  // ------------------------------------------------------------- texts and links

  function Text(row: AuditRow): string { HashedText(row.prevHash, row) }

  function LinkText(row: AuditRow): string { if row.prevHash.Some? then row.prevHash.value else "" }

  /** The text begins with 64 hexadecimal digits. */
  predicate StartsLikeHash(s: string) { |s| >= 64 && HexText(s[..64]) }

  /** The fields of the first sealed row cannot be taken for a hash and fields. */
  ghost predicate Guarded(sealed: seq<AuditRow>) { sealed != [] ==> !StartsLikeHash(Fields(sealed[0])) }

  /** Short ids and an action key that starts with no hexadecimal digit make a row guarded. */
  lemma PlainKeyIsGuarded(row: AuditRow)
    requires row.actionKey != [] && |OrEmpty(row.actorUserId)| < 64
    requires !('0' <= row.actionKey[0] <= '9' || 'a' <= row.actionKey[0] <= 'f')
    ensures Guarded([row])
  {
    var s, k := Fields(row), |OrEmpty(row.actorUserId)|;
    assert s[k] == row.actionKey[0];
    if |s| >= HASH_LENGTH { assert s[..HASH_LENGTH][k] == s[k]; }
  }

  lemma ManyMilliseconds()
    ensures DecimalQuantity.Pow10(15) == 1_000_000_000_000_000
  {
    ThreeMore(0);
    ThreeMore(3);
    ThreeMore(6);
    ThreeMore(9);
    ThreeMore(12);
  }

  lemma ThreeMore(k: nat)
    ensures DecimalQuantity.Pow10(k + 3) == 1000 * DecimalQuantity.Pow10(k)
  {
    assert DecimalQuantity.Pow10(k + 3) == 10 * DecimalQuantity.Pow10(k + 2);
    assert DecimalQuantity.Pow10(k + 2) == 10 * DecimalQuantity.Pow10(k + 1);
  }

  lemma StampReads(t: Time, u: Time)
    ensures |Stamp(t)| == 24 && (Stamp(t) == Stamp(u) ==> t == u)
  {
    var m, n := t - EARLIEST, u - EARLIEST;
    ManyMilliseconds();
    DecimalQuantity.DecimalLength(m, 15);
    DecimalQuantity.DecimalReadsBack(m);
    DecimalQuantity.LeadingZeros(STAMP_LENGTH - |Decimal(m)|, Decimal(m));
    DecimalQuantity.DecimalLength(n, 15);
    DecimalQuantity.DecimalReadsBack(n);
    DecimalQuantity.LeadingZeros(STAMP_LENGTH - |Decimal(n)|, Decimal(n));
  }

  /** The stamp is the last part of a text, so equal texts agree in it and in what is in front of it. */
  lemma SameFront(r: AuditRow, q: AuditRow)
    requires Text(r) == Text(q)
    ensures r.createdAt == q.createdAt && LinkText(r) + Fields(r) == LinkText(q) + Fields(q)
  {
    StampReads(r.createdAt, q.createdAt);
    StampReads(q.createdAt, r.createdAt);
    hide Stamp, Fields;
    var t, n := Text(r), |Text(r)| - STAMP_LENGTH;
    assert t[..n] == LinkText(r) + Fields(r) && t[n..] == Stamp(r.createdAt);
    assert t[..n] == LinkText(q) + Fields(q) && t[n..] == Stamp(q.createdAt);
  }

  /** A row's link is absent, and its fields are no hash and more; or its link is a hash. */
  predicate Readable(row: AuditRow) {
    if row.prevHash.None? then !StartsLikeHash(Fields(row)) else HexText(row.prevHash.value)
  }

  /** Then the text tells the link and the fields apart. */
  lemma SameLink(r: AuditRow, q: AuditRow)
    requires Text(r) == Text(q) && Readable(r) && Readable(q)
    ensures r.prevHash == q.prevHash && Fields(r) == Fields(q) && r.createdAt == q.createdAt
  {
    SameFront(r, q);
    hide Fields, HexText, HashedText;
    var t := LinkText(r) + Fields(r);
    if r.prevHash.Some? { assert t[..|LinkText(r)|] == LinkText(r) && t[|LinkText(r)|..] == Fields(r); }
    if q.prevHash.Some? { assert t[..|LinkText(q)|] == LinkText(q) && t[|LinkText(q)|..] == Fields(q); }
    HexIsHashLong(r);
    HexIsHashLong(q);
    assert r.prevHash.None? ==> t == Fields(r);
    assert q.prevHash.None? ==> t == Fields(q);
  }

  lemma HexIsHashLong(row: AuditRow)
    ensures row.prevHash.Some? && HexText(row.prevHash.value) ==> |LinkText(row)| == HASH_LENGTH
  {
  }

  // ---------------------------------------------------------------- one row's fields

  /** The joined fields have no separator, so two readings of one text exist. */
  lemma TextDoesNotFixFields(prev: Option<Hash>, at: Time)
    ensures var a := AuditRow(1, Some(1), "2x", None, at, prev, UNSEALED);
            var b := AuditRow(1, Some(12), "x", None, at, prev, UNSEALED);
            a != b && Text(a) == Text(b)
  {
    assert Decimal(1) == "1" && Decimal(12) == "12";
  }

  /** Both links absent, or both hashes. */
  predicate SameShape(a: AuditRow, b: AuditRow) {
    (a.prevHash.None? && b.prevHash.None?) ||
    (a.prevHash.Some? && b.prevHash.Some? && HexText(a.prevHash.value) && HexText(b.prevHash.value))
  }

  lemma ShapedFields(a: AuditRow, b: AuditRow)
    requires Text(a) == Text(b) && SameShape(a, b)
    ensures a.prevHash == b.prevHash && Fields(a) == Fields(b) && a.createdAt == b.createdAt
  {
    SameFront(a, b);
    hide Fields, HexText, HashedText;
    HexIsHashLong(a);
    HexIsHashLong(b);
    var s, t := LinkText(a) + Fields(a), LinkText(b) + Fields(b);
    assert s[..|LinkText(a)|] == LinkText(a) && s[|LinkText(a)|..] == Fields(a);
    assert t[..|LinkText(b)|] == LinkText(b) && t[|LinkText(b)|..] == Fields(b);
  }

  ghost predicate SameFields(a: AuditRow, b: AuditRow) {
    && a.actorUserId == b.actorUserId && a.actionKey == b.actionKey && a.resourceId == b.resourceId
    && a.createdAt == b.createdAt && a.prevHash == b.prevHash
  }

  /** Not empty, and no digit at either end. */
  predicate SetApart(key: string) {
    key != [] && !DecimalQuantity.IsDigit(key[0]) && !DecimalQuantity.IsDigit(key[|key| - 1])
  }

  /**
   * Between rows with links of one kind, and action keys that set the numbers
   * apart, the hashed text fixes every field.
   */
  lemma TextFixesFields(a: AuditRow, b: AuditRow)
    requires SetApart(a.actionKey) && SetApart(b.actionKey) && SameShape(a, b) && Text(a) == Text(b)
    ensures SameFields(a, b)
  {
    ShapedFields(a, b);
    var p, x, u := OrEmpty(a.actorUserId), a.actionKey, OrEmpty(a.resourceId);
    var q, y, v := OrEmpty(b.actorUserId), b.actionKey, OrEmpty(b.resourceId);
    IdDigits(a.actorUserId, b.actorUserId);
    IdDigits(a.resourceId, b.resourceId);
    hide OrEmpty, HashedText;
    SplitInFront(p, x, u, q, y, v);
    SplitBehind(x, u, y, v);
  }

  lemma SplitInFront(p: string, x: string, u: string, q: string, y: string, v: string)
    requires DecimalQuantity.AllDigits(p) && DecimalQuantity.AllDigits(q) && SetApart(x) && SetApart(y)
    requires p + x + u == q + y + v
    ensures p == q && x + u == y + v
  {
    var s, t := p + x + u, q + y + v;
    assert s[|p|] == x[0] && t[|q|] == y[0];
    assert forall i :: 0 <= i < |p| ==> DecimalQuantity.IsDigit(s[i]);
    assert forall i :: 0 <= i < |q| ==> DecimalQuantity.IsDigit(t[i]);
    assert |p| == |q|;
    assert s[..|p|] == p && t[..|q|] == q && s[|p|..] == x + u && t[|q|..] == y + v;
  }

  lemma SplitBehind(x: string, u: string, y: string, v: string)
    requires DecimalQuantity.AllDigits(u) && DecimalQuantity.AllDigits(v) && SetApart(x) && SetApart(y)
            && x + u == y + v
    ensures x == y && u == v
  {
    var s, t := x + u, y + v;
    assert s[|x| - 1] == x[|x| - 1] && t[|y| - 1] == y[|y| - 1];
    assert forall i :: |x| <= i < |s| ==> DecimalQuantity.IsDigit(s[i]);
    assert forall i :: |y| <= i < |t| ==> DecimalQuantity.IsDigit(t[i]);
    assert |x| == |y|;
    assert s[..|x|] == x && t[..|y|] == y && s[|x|..] == u && t[|y|..] == v;
  }

  lemma IdDigits(m: Option<nat>, n: Option<nat>)
    ensures DecimalQuantity.AllDigits(OrEmpty(m)) && DecimalQuantity.AllDigits(OrEmpty(n))
    ensures OrEmpty(m) == OrEmpty(n) ==> m == n
  {
    if m.Some? { DecimalQuantity.DecimalReadsBack(m.value); }
    if n.Some? { DecimalQuantity.DecimalReadsBack(n.value); }
  }

  /**
   * Among the rows of one action with links of one kind, the hashed text fixes
   * every field exactly when the action key is not just digits.
   */
  lemma OneActionFieldsExactly(key: string)
    ensures !DecimalQuantity.AllDigits(key) <==>
            forall a: AuditRow, b: AuditRow ::
              a.actionKey == key && b.actionKey == key && SameShape(a, b) && Text(a) == Text(b) ==> SameFields(a, b)
  {
    hide HashedText, HexText;
    if DecimalQuantity.AllDigits(key) {
      var a, b := TwoReadings(key);
    } else {
      forall a: AuditRow, b: AuditRow | a.actionKey == key && b.actionKey == key && SameShape(a, b)
        && Text(a) == Text(b)
        ensures SameFields(a, b)
      {
        ShapedFields(a, b);
        IdDigits(a.actorUserId, b.actorUserId);
        IdDigits(a.resourceId, b.resourceId);
        SameKeySplit(OrEmpty(a.actorUserId), OrEmpty(a.resourceId), OrEmpty(b.actorUserId), OrEmpty(b.resourceId), key);
        hide OrEmpty;
      }
    }
  }

  lemma SameKeySplit(p: string, u: string, q: string, v: string, key: string)
    requires DecimalQuantity.AllDigits(p) && DecimalQuantity.AllDigits(q) && !DecimalQuantity.AllDigits(key)
    requires p + key + u == q + key + v
    ensures p == q && u == v
  {
    var i := FirstNoDigit(key);
    var s, t := p + key + u, q + key + v;
    assert s[|p| + i] == key[i] && t[|q| + i] == key[i];
    assert forall k :: 0 <= k < |p| + i ==> DecimalQuantity.IsDigit(s[k]);
    assert forall k :: 0 <= k < |q| + i ==> DecimalQuantity.IsDigit(t[k]);
    assert |p| == |q|;
    assert s[..|p|] == p && t[..|q|] == q && s[|p| + |key|..] == u && t[|q| + |key|..] == v;
  }

  lemma {:induction false} FirstNoDigit(key: string) returns (i: nat)
    requires !DecimalQuantity.AllDigits(key)
    ensures i < |key| && !DecimalQuantity.IsDigit(key[i]) && forall k :: 0 <= k < i ==> DecimalQuantity.IsDigit(key[k])
    decreases |key|
  {
    var n := |key| - 1;
    if DecimalQuantity.AllDigits(key[..n]) {
      i := n;
      assert forall k :: 0 <= k < n ==> DecimalQuantity.IsDigit(key[..n][k]);
    } else {
      i := FirstNoDigit(key[..n]);
    }
  }

  /** A key of digits can be read at two places between the ids. */
  lemma TwoReadings(key: string) returns (a: AuditRow, b: AuditRow)
    requires DecimalQuantity.AllDigits(key)
    ensures a.actionKey == key && b.actionKey == key && SameShape(a, b) && Text(a) == Text(b) && !SameFields(a, b)
  {
    var m := DecimalOf("1" + key);
    var n := DecimalOf("1" + key + "1");
    a := AuditRow(1, Some(1), key, Some(m), 0, None, UNSEALED);
    b := AuditRow(1, Some(n), key, None, 0, None, UNSEALED);
    assert Decimal(1) == "1";
    assert "1" + key + ("1" + key) == ("1" + key + "1") + key + "";
  }

  lemma {:induction false} DecimalOf(s: string) returns (n: nat)
    requires s != [] && DecimalQuantity.AllDigits(s) && s[0] != '0'
    ensures Decimal(n) == s && n > 0
    decreases |s|
  {
    var k := |s| - 1;
    var d := DecimalQuantity.DigitValue(s[k]);
    assert DigitChar(d) == s[k];
    if k == 0 {
      n := d;
    } else {
      var front := DecimalOf(s[..k]);
      n := front * 10 + d;
      assert n / 10 == front && n % 10 == d;
    }
  }
}
