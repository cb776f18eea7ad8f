/**
 * What the last hash of an accepted audit log proves. A row's text can be read
 * with or without a hash in front, so the rows before it can be folded away; and
 * an old row may pass for a concurrent write.
 *
 * The digest is any function into texts of 64 hexadecimal digits. Where two texts
 * have the same digest, the results name that clash instead of excluding it.
 */
module AuditEvidence {
  import opened Common
  import opened AuditChain
  import opened AuditText

  // ---------------------------------------------------------------------- clashes

  /** Two texts with one digest. */
  predicate Clash(t: string, u: string) { t != u && DIGEST(t) == DIGEST(u) }

  ghost predicate Clashes(a: seq<AuditRow>, b: seq<AuditRow>) {
    exists r, q :: r in a && q in b && Clash(Text(r), Text(q))
  }

  // ------------------------------------------------------------- links of a chain

  /** The hash of a well-chained row is its digest; its link is absent on the first row and a hash on any other. */
  lemma LinkOfRow(a: seq<AuditRow>, m: nat, cutoff: Option<int>)
    requires WellChained(a, cutoff) && m < |a|
    ensures OwnHashOk(a[m]) && a[m].recordHash == DIGEST(Text(a[m])) && HexText(a[m].recordHash)
    ensures a[m].prevHash.None? <==> m == 0
    ensures a[m].prevHash.Some? ==> HexText(a[m].prevHash.value)
    ensures cutoff.None? || a[m].createdAt >= cutoff.value || m == 0 ==> Linked(a, m)
  {
    hide HashedText, HexText;
    assert ChainedAt(a, m, cutoff);
    DigestIsHex(Text(a[m]));
    if m > 0 {
      var j := LinkedRow(a, m, cutoff);
      assert ChainedAt(a, j, cutoff);
      DigestIsHex(Text(a[j]));
    }
  }

  lemma DigestIsHex(t: string)
    ensures HexText(DIGEST(t))
  {
  }

  lemma ReadableRow(a: seq<AuditRow>, m: nat, cutoff: Option<int>)
    requires WellChained(a, cutoff) && m < |a| && Guarded(a)
    ensures Readable(a[m])
  {
    LinkOfRow(a, m, cutoff);
  }

  lemma LinkTarget(sealed: seq<AuditRow>, k: nat, cutoff: Option<int>) returns (j: nat)
    requires k < |sealed| && Forked(sealed, k, cutoff)
    ensures j < k && sealed[k].prevHash == Some(sealed[j].recordHash)
  {
    hide OwnHashOk;
    var before, h := sealed[..k], sealed[k].prevHash.value;
    var i :| 0 <= i < |LastTen(before)| && Hashes(LastTen(before))[i] == h;
    j := if k <= RECENT_HASHES then i else k - RECENT_HASHES + i;
    assert before[j] == LastTen(before)[i] && before[j] == sealed[j];
  }

  /** From equal last hashes, rows that only carry on are accepted alike. */
  lemma {:induction false} LinkedTailMoves(x: seq<AuditRow>, y: seq<AuditRow>, z: seq<AuditRow>, cutoff: Option<int>)
    requires WellChained(x + z, cutoff) && WellChained(y, cutoff) && LastHash(x) == LastHash(y)
    requires forall i: nat :: |x| <= i < |x + z| ==> Linked(x + z, i)
    ensures WellChained(y + z, cutoff) && LastHash(y + z) == LastHash(x + z)
    decreases |z|
  {
    hide OwnHashOk;
    if z == [] {
      assert y + z == y && x + z == x;
    } else {
      var n := |z| - 1;
      var z', row := z[..n], z[n];
      assert x + z == x + z' + [row] && y + z == y + z' + [row];
      ChainStep(x + z', row, cutoff);
      forall i: nat | |x| <= i < |x + z'| ensures Linked(x + z', i) {
        assert Linked(x + z, i) && (x + z)[..i] == (x + z')[..i];
      }
      LinkedTailMoves(x, y, z', cutoff);
      assert Linked(x + z, |x + z'|) && (x + z)[..|x + z'|] == x + z';
      assert (y + z)[..|y + z'|] == y + z';
      assert ChainedAt(x + z, |x + z'|, cutoff);
      ChainStep(y + z', row, cutoff);
    }
  }

  /**
   * Where only links follow row `k`, anything well chained that ends with its hash can stand in for
   * the rows up to it.
   */
  lemma FrontReplaced(sealed: seq<AuditRow>, k: nat, front: seq<AuditRow>, cutoff: Option<int>)
    requires WellChained(sealed, cutoff) && k < |sealed| && forall i: nat :: k < i < |sealed| ==> Linked(sealed, i)
    requires WellChained(front, cutoff) && LastHash(front) == Some(sealed[k].recordHash)
    ensures WellChained(front + sealed[k + 1..], cutoff) && LastHash(front + sealed[k + 1..]) == LastHash(sealed)
  {
    var x, z := sealed[..k + 1], sealed[k + 1..];
    assert x + z == sealed;
    assert LastHash(x) == LastHash(front);
    hide WellChained, LastHash;
    LinkedTailMoves(x, front, z, cutoff);
  }

  /** The last row that forked can be made to follow the row it links to: what lay between drops out. */
  lemma ForkHidesRows(sealed: seq<AuditRow>, cutoff: Option<int>) returns (shorter: seq<AuditRow>)
    requires WellChained(sealed, cutoff) && ForkIds(sealed) != []
    ensures WellChained(shorter, cutoff) && LastHash(shorter) == LastHash(sealed) && |shorter| < |sealed|
    ensures shorter != [] && shorter[0] == sealed[0] && forall r :: r in shorter ==> r in sealed
  {
    hide OwnHashOk;
    var k := LastFork(sealed);
    assert ChainedAt(sealed, k, cutoff);
    var j := LinkTarget(sealed, k, cutoff);
    assert sealed[..k][j] == sealed[j] && j + 1 < k && OwnHashOk(sealed[k]);
    hide WellChained, ChainedAt, Linked;
    var kept := sealed[..j + 1];
    assert LastHash(kept) == Some(sealed[j].recordHash);
    PrefixChained(sealed, j + 1, cutoff);
    RelinkRow(kept, sealed[k], cutoff);
    FrontReplaced(sealed, k, kept + [sealed[k]], cutoff);
    shorter := kept + [sealed[k]] + sealed[k + 1..];
  }

  lemma RelinkRow(kept: seq<AuditRow>, row: AuditRow, cutoff: Option<int>)
    requires WellChained(kept, cutoff) && OwnHashOk(row) && row.prevHash == LastHash(kept)
    ensures WellChained(kept + [row], cutoff) && LastHash(kept + [row]) == Some(row.recordHash)
  {
    hide OwnHashOk;
    assert (kept + [row])[..|kept|] == kept;
    ChainStep(kept, row, cutoff);
  }

  lemma {:induction false} PrefixChained(sealed: seq<AuditRow>, k: nat, cutoff: Option<int>)
    requires WellChained(sealed, cutoff) && k <= |sealed|
    ensures WellChained(sealed[..k], cutoff)
  {
    hide OwnHashOk;
    forall i: nat | i < k ensures ChainedAt(sealed[..k], i, cutoff) {
      assert ChainedAt(sealed, i, cutoff);
      assert sealed[..k][..i] == sealed[..i];
    }
  }

  lemma {:induction false} LastFork(sealed: seq<AuditRow>) returns (k: nat)
    requires ForkIds(sealed) != []
    ensures k < |sealed| && !Linked(sealed, k) && forall i: nat :: k < i < |sealed| ==> Linked(sealed, i)
    decreases |sealed|
  {
    hide OwnHashOk;
    var n := |sealed| - 1;
    if !Linked(sealed, n) {
      k := n;
    } else {
      k := LastFork(sealed[..n]);
      assert sealed[..n][..k] == sealed[..k];
      forall i: nat | k < i < |sealed| ensures Linked(sealed, i) {
        if i < n { assert Linked(sealed[..n], i) && sealed[..n][..i] == sealed[..i]; }
      }
    }
  }

  lemma LinkedRow(sealed: seq<AuditRow>, k: nat, cutoff: Option<int>) returns (j: nat)
    requires WellChained(sealed, cutoff) && 0 < k < |sealed|
    ensures j < k && sealed[k].prevHash == Some(sealed[j].recordHash)
  {
    hide OwnHashOk;
    assert ChainedAt(sealed, k, cutoff);
    if Linked(sealed, k) {
      j := k - 1;
    } else {
      j := LinkTarget(sealed, k, cutoff);
    }
  }

  lemma HashesSnoc(rows: seq<AuditRow>, row: AuditRow)
    ensures multiset(Hashes(rows + [row])) == multiset(Hashes(rows)) + multiset{row.recordHash}
  {
    assert Hashes(rows + [row]) == Hashes(rows) + [row.recordHash];
  }

  lemma HashesConcat(a: seq<AuditRow>, b: seq<AuditRow>)
    ensures multiset(Hashes(a + b)) == multiset(Hashes(a)) + multiset(Hashes(b))
  {
    assert Hashes(a + b) == Hashes(a) + Hashes(b);
  }

  // -------------------------------------------------------- from one end backwards

  /** What a row hashes, taken apart. */
  datatype Preimage = Preimage(prev: Option<Hash>, fields: string, at: Time)

  function HashedFields(row: AuditRow): Preimage { Preimage(row.prevHash, Fields(row), row.createdAt) }

  function Preimages(rows: seq<AuditRow>): seq<Preimage> {
    seq(|rows|, i requires 0 <= i < |rows| => HashedFields(rows[i]))
  }

  /** No sealed row after the first is old enough for the tolerance. */
  ghost predicate OutOfReach(sealed: seq<AuditRow>, cutoff: Option<int>) {
    cutoff.Some? ==> forall i :: 0 < i < |sealed| ==> sealed[i].createdAt >= cutoff.value
  }

  /** Two rows of guarded chains with one hash hash the same text, read the same way. */
  lemma SameHashSameRow(a: seq<AuditRow>, m: nat, b: seq<AuditRow>, n: nat, cutoff: Option<int>)
    requires WellChained(a, cutoff) && WellChained(b, cutoff) && Guarded(a) && Guarded(b) && !Clashes(a, b)
    requires m < |a| && n < |b| && a[m].recordHash == b[n].recordHash
    ensures HashedFields(a[m]) == HashedFields(b[n]) && (m == 0 <==> n == 0)
  {
    hide WellChained, HashedText, HexText, Guarded, Readable;
    LinkOfRow(a, m, cutoff);
    LinkOfRow(b, n, cutoff);
    assert a[m] in a && b[n] in b;
    assert !Clash(Text(a[m]), Text(b[n]));
    ReadableRow(a, m, cutoff);
    ReadableRow(b, n, cutoff);
    SameLink(a[m], b[n]);
  }

  lemma {:induction false} SameEndSameRows(a: seq<AuditRow>, b: seq<AuditRow>, cutoff: Option<int>)
    requires WellChained(a, cutoff) && WellChained(b, cutoff) && LastHash(a) == LastHash(b) && OutOfReach(a, cutoff)
    requires Guarded(a) && Guarded(b) && !Clashes(a, b)
    ensures Preimages(a) == Preimages(b)
    decreases |a|
  {
    if a != [] {
      var m, n := |a| - 1, |b| - 1;
      SameHashSameRow(a, m, b, n, cutoff);
      if m > 0 {
        OneRowBack(a, b, cutoff);
        hide WellChained, LastHash, OutOfReach, Guarded, Clashes;
        SameEndSameRows(a[..m], b[..n], cutoff);
      }
      hide HashedFields, WellChained, LastHash, OutOfReach, Guarded, Clashes, Preimages;
      PreimagesSnoc(a);
      PreimagesSnoc(b);
    }
  }

  lemma PreimagesSnoc(rows: seq<AuditRow>)
    requires rows != []
    ensures Preimages(rows) == Preimages(rows[..|rows| - 1]) + [HashedFields(rows[|rows| - 1])]
    ensures |rows| == 1 ==> Preimages(rows[..|rows| - 1]) == []
  {
    hide HashedFields;
  }

  /** Without their last rows the two chains are as the chains were. */
  lemma OneRowBack(a: seq<AuditRow>, b: seq<AuditRow>, cutoff: Option<int>)
    requires WellChained(a, cutoff) && WellChained(b, cutoff) && OutOfReach(a, cutoff)
    requires Guarded(a) && Guarded(b) && !Clashes(a, b) && |a| > 1 && |b| > 1
    requires HashedFields(a[|a| - 1]) == HashedFields(b[|b| - 1])
    ensures var x, y := a[..|a| - 1], b[..|b| - 1];
            && WellChained(x, cutoff) && WellChained(y, cutoff) && LastHash(x) == LastHash(y) && OutOfReach(x, cutoff)
            && Guarded(x) && Guarded(y) && !Clashes(x, y)
  {
    hide HashedText, HexText, Fields, StartsLikeHash, OwnHashOk, WellChained, Clashes, LastHash;
    var m, n := |a| - 1, |b| - 1;
    LinkOfRow(a, m, cutoff);
    LinkOfRow(b, n, cutoff);
    FewerClashes(a, m, b, n);
    PrefixChained(a, m, cutoff);
    PrefixChained(b, n, cutoff);
  }

  lemma FewerClashes(a: seq<AuditRow>, m: nat, b: seq<AuditRow>, n: nat)
    requires m <= |a| && n <= |b| && !Clashes(a, b)
    ensures !Clashes(a[..m], b[..n])
  {
    hide Clash;
    forall r, q | r in a[..m] && q in b[..n] ensures !Clash(Text(r), Text(q)) {
      assert r in a && q in b;
    }
  }

  /**
   * Tamper evidence: two strictly accepted logs whose first sealed rows cannot be
   * taken for a hash and fields, and that end in the same hash, have hashed the
   * same things in the same order; or else they hold two texts with one digest.
   */
  lemma TamperEvident(a: seq<AuditRow>, b: seq<AuditRow>)
    requires Accepted(a, None) && Accepted(b, None) && Guarded(SealedRows(a)) && Guarded(SealedRows(b))
    requires StateOf(a, None).prevHash == StateOf(b, None).prevHash
    ensures Preimages(SealedRows(a)) == Preimages(SealedRows(b)) || Clashes(SealedRows(a), SealedRows(b))
  {
    AcceptedExactly(a, None);
    AcceptedExactly(b, None);
    if !Clashes(SealedRows(a), SealedRows(b)) { SameEndSameRows(SealedRows(a), SealedRows(b), None); }
  }

  // ----------------------------------------------------------- folding rows away

  /** Another accepted log with the same last hash. */
  ghost predicate SameEnd(other: seq<AuditRow>, rows: seq<AuditRow>, cutoff: Option<int>) {
    Accepted(other, cutoff) && StateOf(other, cutoff).prevHash == StateOf(rows, cutoff).prevHash
  }

  /** The row with its link moved to the front of its action key. */
  function Folded(row: AuditRow): AuditRow {
    row.(prevHash := None, actorUserId := None, actionKey := LinkText(row) + OrEmpty(row.actorUserId) + row.actionKey)
  }

  lemma FoldedText(row: AuditRow)
    ensures Text(Folded(row)) == Text(row)
  {
    assert OrEmpty(None) == "";
    hide Stamp, OrEmpty;
    var u := OrEmpty(row.resourceId);
    assert "" + (LinkText(row) + OrEmpty(row.actorUserId) + row.actionKey) + u
        == LinkText(row) + (OrEmpty(row.actorUserId) + row.actionKey + u);
    assert "" + Fields(Folded(row)) == LinkText(row) + Fields(row);
  }

  /**
   * Whatever the digest: behind every accepted log of two or more sealed rows
   * stands an accepted log of one row with the same last hash. Its action key
   * holds the previous hash, which it no longer links to.
   */
  lemma RowsCanBeFoldedAway(rows: seq<AuditRow>, cutoff: Option<int>) returns (other: seq<AuditRow>)
    requires Accepted(rows, cutoff) && |SealedRows(rows)| >= 2
    ensures SameEnd(other, rows, cutoff) && |other| == 1 && SealedRows(other) == other && !Guarded(other)
    ensures Text(other[0]) == Text(SealedRows(rows)[|SealedRows(rows)| - 1])
  {
    hide HashedText, HexText, Fields, StartsLikeHash;
    var sealed := SealedRows(rows);
    var n := |sealed| - 1;
    AcceptedExactly(rows, cutoff);
    LinkOfRow(sealed, n, cutoff);
    FoldedText(sealed[n]);
    other := [Folded(sealed[n])];
    FoldedStartsLikeHash(sealed[n]);
    hide HashedText, HexText, Fields;
    assert other[..0] == [] && ChainedAt(other, 0, cutoff);
    SealedLogHasSameEnd(other, rows, cutoff);
  }

  lemma FoldedStartsLikeHash(row: AuditRow)
    requires row.prevHash.Some? && HexText(row.prevHash.value)
    ensures StartsLikeHash(Fields(Folded(row)))
  {
    HexIsHashLong(row);
    assert OrEmpty(None) == "";
    assert Fields(Folded(row))[..HASH_LENGTH] == row.prevHash.value;
  }

  lemma SealedLogHasSameEnd(other: seq<AuditRow>, rows: seq<AuditRow>, cutoff: Option<int>)
    requires Accepted(rows, cutoff) && WellChained(other, cutoff) && LastHash(other) == LastHash(SealedRows(rows))
    ensures SameEnd(other, rows, cutoff) && SealedRows(other) == other
  {
    hide HashedText;
    AcceptedExactly(rows, cutoff);
    forall r | r in other ensures r.recordHash != UNSEALED {
      var i :| 0 <= i < |other| && other[i] == r;
      LinkOfRow(other, i, cutoff);
    }
    AllSealed(other);
    AcceptedExactly(other, cutoff);
  }

  // ------------------------------------------------- the results, with tolerance

  /** A row slipped in in front of row `k`: linked to the row before, of the time of row `k`. */
  function Slipped(sealed: seq<AuditRow>, k: nat, key: string): AuditRow
    requires 0 < k < |sealed|
  {
    Sealed(AuditRow(0, None, key, None, sealed[k].createdAt, Some(sealed[k - 1].recordHash), UNSEALED))
  }

  lemma SlippedLinks(sealed: seq<AuditRow>, k: nat, key: string)
    requires 0 < k < |sealed|
    ensures var x := Slipped(sealed, k, key);
            OwnHashOk(x) && x.prevHash == LastHash(sealed[..k]) && x.createdAt == sealed[k].createdAt
  {
    SealedIsOwn(AuditRow(0, None, key, None, sealed[k].createdAt, Some(sealed[k - 1].recordHash), UNSEALED));
    hide OwnHashOk, ComputeHash;
    assert sealed[..k][k - 1] == sealed[k - 1];
  }

  /** The texts of the log, and those of blank rows slipped into it. */
  ghost predicate Known(sealed: seq<AuditRow>, t: string) {
    (exists r :: r in sealed && t == Text(r))
      || (exists k: nat :: 0 < k < |sealed| && t == Text(Slipped(sealed, k, "")))
  }

  /** The digest tells these texts apart, as can be computed. */
  ghost predicate Apart(sealed: seq<AuditRow>) {
    forall t, u :: Known(sealed, t) && Known(sealed, u) ==> !Clash(t, u)
  }

  lemma NoClashAmongKnown(sealed: seq<AuditRow>, other: seq<AuditRow>)
    requires Apart(sealed) && forall q :: q in other ==> Known(sealed, Text(q))
    ensures !Clashes(sealed, other)
  {
    hide Clash, HashedText;
    forall r, q | r in sealed && q in other ensures !Clash(Text(r), Text(q)) {
      assert Known(sealed, Text(r));
    }
  }

  function Inserted(sealed: seq<AuditRow>, k: nat, key: string): seq<AuditRow>
    requires 0 < k < |sealed|
  {
    sealed[..k] + [Slipped(sealed, k, key), sealed[k]] + sealed[k + 1..]
  }

  /** In front of any row but the first that is old enough, a row with any action key can be slipped in. */
  lemma RowCanBeInserted(sealed: seq<AuditRow>, k: nat, key: string, cutoff: Option<int>)
    requires WellChained(sealed, cutoff) && ForkIds(sealed) == []
    requires 0 < k < |sealed| && cutoff.Some? && sealed[k].createdAt < cutoff.value
    ensures WellChained(Inserted(sealed, k, key), cutoff) && LastHash(Inserted(sealed, k, key)) == LastHash(sealed)
  {
    NoForkIds(sealed);
    hide Linked, LastHash, WellChained, Slipped;
    FrontWithSlipped(sealed, k, key, cutoff);
    FrontReplaced(sealed, k, sealed[..k] + [Slipped(sealed, k, key), sealed[k]], cutoff);
  }

  lemma FrontWithSlipped(sealed: seq<AuditRow>, k: nat, key: string, cutoff: Option<int>)
    requires WellChained(sealed, cutoff) && ForkIds(sealed) == []
    requires 0 < k < |sealed| && cutoff.Some? && sealed[k].createdAt < cutoff.value
    ensures var front := sealed[..k] + [Slipped(sealed, k, key), sealed[k]];
            WellChained(front, cutoff) && LastHash(front) == Some(sealed[k].recordHash)
  {
    NoForkIds(sealed);
    assert ChainedAt(sealed, k, cutoff) && Linked(sealed, k);
    SlippedLinks(sealed, k, key);
    PrefixChained(sealed, k, cutoff);
    hide OwnHashOk, LastHash, WellChained, Slipped, Forked;
    RelinkRow(sealed[..k], Slipped(sealed, k, key), cutoff);
    ForkBehind(sealed[..k], Slipped(sealed, k, key), sealed[k], cutoff);
  }

  lemma InsertedRows(sealed: seq<AuditRow>, k: nat, key: string)
    requires 0 < k < |sealed|
    ensures var longer := Inserted(sealed, k, key);
            && |longer| == |sealed| + 1 && longer[0] == sealed[0]
            && forall r :: r in longer ==> r in sealed || r == Slipped(sealed, k, key)
  {
    hide Slipped;
  }

  /** Behind a row of the same time, an old row linked one further back passes for a concurrent write. */
  lemma ForkBehind(kept: seq<AuditRow>, x: AuditRow, row: AuditRow, cutoff: Option<int>)
    requires kept != [] && WellChained(kept + [x], cutoff) && OwnHashOk(row) && row.prevHash == LastHash(kept)
    requires cutoff.Some? && row.createdAt < cutoff.value && row.createdAt == x.createdAt
    ensures WellChained(kept + [x, row], cutoff) && LastHash(kept + [x, row]) == Some(row.recordHash)
  {
    var before, n := kept + [x], |kept|;
    var last := LastTen(before);
    assert last[|last| - 2] == kept[n - 1] && Hashes(last)[|last| - 2] == kept[n - 1].recordHash;
    assert (before + [row])[..n + 1] == before && (before + [row])[n] == x;
    assert Forked(before + [row], n + 1, cutoff);
    ChainStep(before, row, cutoff);
    assert before + [row] == kept + [x, row];
  }

  /** Logs with the same last hash that a check of the first row and the digest lets through. */
  ghost predicate Rival(other: seq<AuditRow>, rows: seq<AuditRow>, cutoff: Option<int>) {
    SameEnd(other, rows, cutoff) && Guarded(SealedRows(other)) && !Clashes(SealedRows(rows), SealedRows(other))
  }

  /** A log that is well chained, starts with the same row and holds known texts only is one of them. */
  lemma KnownRowsRival(other: seq<AuditRow>, rows: seq<AuditRow>, cutoff: Option<int>)
    requires Accepted(rows, cutoff) && Guarded(SealedRows(rows)) && Apart(SealedRows(rows)) && SealedRows(rows) != []
    requires WellChained(other, cutoff) && LastHash(other) == LastHash(SealedRows(rows))
    requires other != [] && other[0] == SealedRows(rows)[0]
    requires forall q :: q in other ==> Known(SealedRows(rows), Text(q))
    ensures Rival(other, rows, cutoff) && SealedRows(other) == other
  {
    hide HashedText, Known, Apart, WellChained, SealedRows;
    SealedLogHasSameEnd(other, rows, cutoff);
    NoClashAmongKnown(SealedRows(rows), other);
  }

  /**
   * How far the tolerance reaches, exactly: among logs whose first sealed row
   * cannot be taken for a hash and fields, the last hash of an accepted log fixes
   * everything it has hashed, clashes of the digest aside, if and only if there is
   * no tolerance or no sealed row after the first is older than the cutoff.
   */
  lemma TamperEvidentExactly(rows: seq<AuditRow>, cutoff: Option<int>)
    requires Accepted(rows, cutoff) && Guarded(SealedRows(rows)) && Apart(SealedRows(rows))
    ensures OutOfReach(SealedRows(rows), cutoff) <==>
            forall other :: Rival(other, rows, cutoff) ==> Preimages(SealedRows(other)) == Preimages(SealedRows(rows))
  {
    var sealed := SealedRows(rows);
    AcceptedExactly(rows, cutoff);
    hide HashedText, HexText, Fields, Guarded, Apart, Clashes, Known, WellChained;
    if OutOfReach(sealed, cutoff) {
      forall other | Rival(other, rows, cutoff) ensures Preimages(SealedRows(other)) == Preimages(sealed) {
        AcceptedExactly(other, cutoff);
        SameEndSameRows(sealed, SealedRows(other), cutoff);
      }
    } else {
      var other := UnequalRival(rows, cutoff);
      assert |Preimages(SealedRows(other))| != |Preimages(sealed)|;
    }
  }

  lemma UnequalRival(rows: seq<AuditRow>, cutoff: Option<int>) returns (other: seq<AuditRow>)
    requires Accepted(rows, cutoff) && Guarded(SealedRows(rows)) && Apart(SealedRows(rows))
    requires !OutOfReach(SealedRows(rows), cutoff)
    ensures Rival(other, rows, cutoff) && |SealedRows(other)| != |SealedRows(rows)|
  {
    var sealed := SealedRows(rows);
    AcceptedExactly(rows, cutoff);
    var k: int :| 0 < k < |sealed| && sealed[k].createdAt < cutoff.value;
    hide HashedText, HexText, Fields, Guarded, Apart, Clashes, WellChained;
    if ForkIds(sealed) == [] {
      other := Inserted(sealed, k, "");
      RowCanBeInserted(sealed, k, "", cutoff);
      InsertedRows(sealed, k, "");
    } else {
      other := ForkHidesRows(sealed, cutoff);
    }
    forall q | q in other ensures Known(sealed, Text(q)) {
      assert q in sealed || q == Slipped(sealed, k, "");
    }
    KnownRowsRival(other, rows, cutoff);
  }

  /**
   * Among all logs, without the check of the first row, the last hash fixes what a
   * log has hashed if and only if it has no more than one sealed row.
   */
  lemma UnguardedEvidenceExactly(rows: seq<AuditRow>, cutoff: Option<int>)
    requires Accepted(rows, cutoff) && Guarded(SealedRows(rows)) && Apart(SealedRows(rows))
    ensures |SealedRows(rows)| <= 1 <==>
            forall other :: SameEnd(other, rows, cutoff) && !Clashes(SealedRows(rows), SealedRows(other)) ==>
              Preimages(SealedRows(other)) == Preimages(SealedRows(rows))
  {
    hide HashedText, HexText, Fields, OwnHashOk, WellChained, Apart, Clashes, Guarded, Verify;
    var sealed := SealedRows(rows);
    AcceptedExactly(rows, cutoff);
    if |sealed| <= 1 {
      forall other | SameEnd(other, rows, cutoff) && !Clashes(sealed, SealedRows(other))
        ensures Preimages(SealedRows(other)) == Preimages(sealed)
      {
        AcceptedExactly(other, cutoff);
        ShortLog(sealed, SealedRows(other), cutoff);
      }
    } else {
      var other := RowsCanBeFoldedAway(rows, cutoff);
      hide HashedText, HexText, Fields, Guarded;
      forall q | q in other ensures Known(sealed, Text(q)) {
        assert sealed[|sealed| - 1] in sealed && q == other[0];
      }
      NoClashAmongKnown(sealed, other);
      assert |Preimages(SealedRows(other))| != |Preimages(sealed)|;
    }
  }

  lemma ShortLog(sealed: seq<AuditRow>, other: seq<AuditRow>, cutoff: Option<int>)
    requires WellChained(sealed, cutoff) && Guarded(sealed) && |sealed| <= 1
    requires WellChained(other, cutoff) && LastHash(other) == LastHash(sealed) && !Clashes(sealed, other)
    ensures Preimages(other) == Preimages(sealed)
  {
    hide HashedText, HexText, Fields, StartsLikeHash, OwnHashOk, WellChained;
    if sealed != [] {
      var n := |other| - 1;
      LinkOfRow(sealed, 0, cutoff);
      LinkOfRow(other, n, cutoff);
      assert sealed[0] in sealed && other[n] in other;
      assert !Clash(Text(sealed[0]), Text(other[n]));
      ReadableRow(sealed, 0, cutoff);
      OnlyWithoutLink(sealed[0], other[n]);
    }
  }

  /** A text of a readable row without link is no text of a row linked to a hash. */
  lemma OnlyWithoutLink(r: AuditRow, q: AuditRow)
    requires Text(r) == Text(q) && r.prevHash.None? && Readable(r)
    requires q.prevHash.Some? ==> HexText(q.prevHash.value)
    ensures q.prevHash.None? && Fields(r) == Fields(q) && r.createdAt == q.createdAt
  {
    SameFront(r, q);
    HexIsHashLong(q);
    hide Fields, HexText, HashedText;
    assert LinkText(r) + Fields(r) == Fields(r);
    assert q.prevHash.None? ==> LinkText(q) + Fields(q) == Fields(q);
    if q.prevHash.Some? { FrontIsHash(q); }
  }

  lemma FrontIsHash(q: AuditRow)
    requires q.prevHash.Some? && HexText(q.prevHash.value)
    ensures StartsLikeHash(LinkText(q) + Fields(q))
  {
    HexIsHashLong(q);
    hide Fields;
    assert (LinkText(q) + Fields(q))[..HASH_LENGTH] == LinkText(q);
  }

  /** A chain without forks is kept, row by row, by every guarded chain that has its last hash. */
  lemma {:induction false} HashesAreKept(sealed: seq<AuditRow>, other: seq<AuditRow>, i: nat, cutoff: Option<int>)
    requires WellChained(sealed, cutoff) && ForkIds(sealed) == [] && WellChained(other, cutoff)
    requires Guarded(sealed) && Guarded(other) && !Clashes(sealed, other)
    requires sealed != [] && i < |other| && LastHash(sealed) == Some(other[i].recordHash)
    ensures multiset(Hashes(sealed)) <= multiset(Hashes(other[..i + 1]))
    decreases |sealed|
  {
    hide HashedText, HexText, Fields, OwnHashOk, WellChained, Clashes, StartsLikeHash;
    var n := |sealed| - 1;
    assert sealed == sealed[..n] + [sealed[n]];
    SameHashSameRow(sealed, n, other, i, cutoff);
    assert other[..i + 1] == other[..i] + [other[i]];
    HashesSnoc(sealed[..n], sealed[n]);
    HashesSnoc(other[..i], other[i]);
    if n > 0 {
      NoForkIds(sealed);
      assert Linked(sealed, n) && sealed[..n][n - 1] == sealed[n - 1];
      var j := LinkedRow(other, i, cutoff);
      PrefixChained(sealed, n, cutoff);
      FewerClashes(sealed, n, other, |other|);
      assert other[..|other|] == other;
      HashesAreKept(sealed[..n], other, j, cutoff);
      MoreRowsMoreHashes(other, j + 1, i);
    }
    hide Hashes;
  }

  lemma MoreRowsMoreHashes(rows: seq<AuditRow>, j: nat, i: nat)
    requires j <= i <= |rows|
    ensures multiset(Hashes(rows[..j])) <= multiset(Hashes(rows[..i]))
  {
    assert rows[..i] == rows[..j] + rows[j..i];
    HashesConcat(rows[..j], rows[j..i]);
  }

  /**
   * Deletion alone, exactly: every log of that kind with the same last hash still
   * holds each sealed hash of this one, as often as it does, if and only if this
   * one has no tolerated fork.
   */
  lemma DeletionEvidentExactly(rows: seq<AuditRow>, cutoff: Option<int>)
    requires Accepted(rows, cutoff) && Guarded(SealedRows(rows)) && Apart(SealedRows(rows))
    ensures StateOf(rows, cutoff).forks == [] <==>
            forall other :: Rival(other, rows, cutoff) ==>
              multiset(Hashes(SealedRows(rows))) <= multiset(Hashes(SealedRows(other)))
  {
    hide ChainedAt, OwnHashOk, LastTen, Hashes, CheckRow, Verify, HashedText, HexText, Guarded, Apart, Clashes,
      WellChained;
    var sealed := SealedRows(rows);
    AcceptedExactly(rows, cutoff);
    if StateOf(rows, cutoff).forks == [] {
      forall other | Rival(other, rows, cutoff)
        ensures multiset(Hashes(sealed)) <= multiset(Hashes(SealedRows(other)))
      {
        AcceptedExactly(other, cutoff);
        var more := SealedRows(other);
        if sealed != [] {
          HashesAreKept(sealed, more, |more| - 1, cutoff);
          assert more[..|more|] == more;
        }
      }
    } else {
      var other := ForkHidesRows(sealed, cutoff);
      forall q | q in other ensures Known(sealed, Text(q)) { assert q in sealed; }
      KnownRowsRival(other, rows, cutoff);
      FewerHashes(multiset(Hashes(sealed)), multiset(Hashes(other)));
      HashCount(sealed);
      HashCount(other);
    }
  }

  /** So a log without forks is no longer than any of its rivals, and two of them are equally long. */
  lemma LengthIsEvident(rows: seq<AuditRow>, other: seq<AuditRow>, cutoff: Option<int>)
    requires Accepted(rows, cutoff) && Guarded(SealedRows(rows)) && StateOf(rows, cutoff).forks == []
    requires Rival(other, rows, cutoff)
    ensures |SealedRows(rows)| <= |SealedRows(other)|
    ensures StateOf(other, cutoff).forks == [] ==> |SealedRows(rows)| == |SealedRows(other)|
  {
    AcceptedExactly(rows, cutoff);
    AcceptedExactly(other, cutoff);
    hide SealedRows, WellChained, Verify, Guarded, Clashes;
    ClashesBothWays(SealedRows(rows), SealedRows(other));
    NoShorter(SealedRows(rows), SealedRows(other), cutoff);
    if StateOf(other, cutoff).forks == [] { NoShorter(SealedRows(other), SealedRows(rows), cutoff); }
  }

  lemma NoShorter(sealed: seq<AuditRow>, other: seq<AuditRow>, cutoff: Option<int>)
    requires WellChained(sealed, cutoff) && ForkIds(sealed) == [] && WellChained(other, cutoff)
    requires Guarded(sealed) && Guarded(other) && !Clashes(sealed, other) && LastHash(sealed) == LastHash(other)
    ensures |sealed| <= |other|
  {
    hide WellChained, ForkIds, Guarded, Clashes, Hashes;
    if sealed != [] {
      HashesAreKept(sealed, other, |other| - 1, cutoff);
      assert other[..|other|] == other;
      HashCount(sealed);
      HashCount(other);
      FewerHashes(multiset(Hashes(sealed)), multiset(Hashes(other)));
    }
  }

  lemma ClashesBothWays(a: seq<AuditRow>, b: seq<AuditRow>)
    ensures Clashes(a, b) <==> Clashes(b, a)
  {
  }

  lemma HashCount(rows: seq<AuditRow>)
    ensures |multiset(Hashes(rows))| == |rows|
  {
  }

  lemma FewerHashes(m: multiset<Hash>, n: multiset<Hash>)
    ensures m <= n ==> |m| <= |n|
  {
    if m <= n { assert n == m + (n - m); }
  }

  lemma {:induction false} AllSealed(rows: seq<AuditRow>)
    requires forall r :: r in rows ==> r.recordHash != UNSEALED
    ensures SealedRows(rows) == rows && LegacyFirst(rows)
    decreases |rows|
  {
    if rows != [] {
      hide SealedRows, LastHash, ForkIds;
      var n := |rows| - 1;
      assert rows == rows[..n] + [rows[n]];
      AllSealed(rows[..n]);
      SealedSnoc(rows[..n], rows[n]);
    }
  }
}
