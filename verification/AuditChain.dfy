/**
 * The audit log's hash chain: the batch verifier with its bounded tolerance for
 * old concurrent writes, and the writer that extends the chain under a lock.
 */
module AuditChain {
  import opened Common
  import DecimalQuantity

  const HASH_LENGTH := 64

  /** Sixty-four small hexadecimal digits. */
  predicate HexText(s: string) {
    |s| == HASH_LENGTH && forall i :: 0 <= i < |s| ==> '0' <= s[i] <= '9' || 'a' <= s[i] <= 'f'
  }

  type DigestFunction = d: string -> string | forall t :: HexText(d(t)) witness (t => seq(HASH_LENGTH, _ => '0'))

  /** The digest: nothing is known of it but the shape of its results. */
  const DIGEST: DigestFunction

  /** A hash column holds any text; the empty one marks rows older than sealing. */
  type Hash = string

  const UNSEALED: Hash := ""

  /** Milliseconds from 1970 on, years 0 to 9999. */
  type Time = t: int | EARLIEST <= t <= LATEST witness 0

  const EARLIEST := -62_167_219_200_000
  const LATEST := 253_402_300_799_999

  const STAMP_LENGTH: nat := 24

  /** Stands for the ISO text of a time: as long as that, and different for different times. */
  function Stamp(t: Time): string { DecimalQuantity.PadStart(Decimal(t - EARLIEST), STAMP_LENGTH) }

  datatype AuditRow = AuditRow(
    id: int, actorUserId: Option<nat>, actionKey: string, resourceId: Option<nat>, createdAt: Time,
    prevHash: Option<Hash>, recordHash: Hash)

  datatype ChainState = ChainState(
    recent: seq<Hash>, lastCreatedAt: Option<int>, forks: seq<int>, prevHash: Option<Hash>,
    checked: nat, legacyUnsealed: nat, sealedStarted: bool)

  datatype Reason = PrevMismatch | HashMismatch | UnsealedAfterSealed

  datatype Verdict = Valid | Invalid(firstInvalidId: int, reason: Reason)

  const FORK_WINDOW_MS := 600_000
  const RECENT_HASHES := 10

  const EMPTY_CHAIN := ChainState([], None, [], None, 0, 0, false)

  function OrEmpty(n: Option<nat>): string { if n.Some? then Decimal(n.value) else "" }

  /** The fields between the previous hash and the time stamp, joined without separator. */
  function Fields(row: AuditRow): string { OrEmpty(row.actorUserId) + row.actionKey + OrEmpty(row.resourceId) }

  /** What is hashed: everything joined into one text. */
  function HashedText(prevHash: Option<Hash>, row: AuditRow): string {
    (if prevHash.Some? then prevHash.value else "") + Fields(row) + Stamp(row.createdAt)
  }

  function ComputeHash(prevHash: Option<Hash>, row: AuditRow): Hash {
    DIGEST(HashedText(prevHash, row))
  }

  // --------------------------------------------------------------- one row

  datatype Check = Accept(state: ChainState) | Reject(state: ChainState, reason: Reason)

  predicate OwnHashOk(row: AuditRow) { row.recordHash == ComputeHash(row.prevHash, row) }

  predicate NearLast(s: ChainState, row: AuditRow) {
    s.lastCreatedAt.Some? && -FORK_WINDOW_MS <= row.createdAt - s.lastCreatedAt.value <= FORK_WINDOW_MS
  }

  /** A row that may be taken for an old concurrent write. */
  predicate ForkShaped(s: ChainState, row: AuditRow, cutoff: Option<int>) {
    && cutoff.Some? && row.createdAt < cutoff.value
    && s.checked > 0 && row.prevHash.Some? && row.prevHash.value in s.recent
  }

  function Remember(s: ChainState, row: AuditRow): ChainState {
    var recent := s.recent + [row.recordHash];
    s.(recent := if |recent| > RECENT_HASHES then recent[1..] else recent,
       lastCreatedAt := Some(row.createdAt), prevHash := Some(row.recordHash), checked := s.checked + 1)
  }

  function CheckRow(s: ChainState, row: AuditRow, cutoff: Option<int>): Check {
    if row.recordHash == UNSEALED then
      if s.sealedStarted then Reject(s, UnsealedAfterSealed)
      else Accept(s.(legacyUnsealed := s.legacyUnsealed + 1))
    else
      var next := s.(sealedStarted := true);
      if row.prevHash == s.prevHash then
        if OwnHashOk(row) then Accept(Remember(next, row)) else Reject(next, HashMismatch)
      else if ForkShaped(s, row, cutoff) then
        if !OwnHashOk(row) then Reject(next, HashMismatch)
        else if !NearLast(s, row) then Reject(next, PrevMismatch)
        else Accept(Remember(next.(forks := s.forks + [row.id]), row))
      else Reject(next, PrevMismatch)
  }

  /** Row by row until the first one rejected. */
  function Verify(s: ChainState, rows: seq<AuditRow>, cutoff: Option<int>): (ChainState, Verdict)
    decreases |rows|
  {
    if rows == [] then (s, Valid)
    else match CheckRow(s, rows[0], cutoff)
      case Accept(next) => Verify(next, rows[1..], cutoff)
      case Reject(next, reason) => (next, Invalid(rows[0].id, reason))
  }

  method VerifyAuditBatch(state: ChainState, rows: seq<AuditRow>, cutoff: Option<int>)
    returns (next: ChainState, verdict: Verdict)
    ensures (next, verdict) == Verify(state, rows, cutoff)
  {
    next := state;
    for i := 0 to |rows|
      invariant Verify(next, rows[i..], cutoff) == Verify(state, rows, cutoff)
    {
      var row := rows[i];
      assert rows[i..][0] == row && rows[i..][1..] == rows[i + 1..];
      if row.recordHash == UNSEALED {
        if next.sealedStarted {
          return next, Invalid(row.id, UnsealedAfterSealed);
        }
        next := next.(legacyUnsealed := next.legacyUnsealed + 1);
        continue;
      }
      var before := next;
      next := next.(sealedStarted := true);
      if row.prevHash == before.prevHash {
        if !OwnHashOk(row) {
          return next, Invalid(row.id, HashMismatch);
        }
      } else if ForkShaped(before, row, cutoff) {
        if !OwnHashOk(row) || !NearLast(before, row) {
          return next, Invalid(row.id, if OwnHashOk(row) then PrevMismatch else HashMismatch);
        }
        next := next.(forks := next.forks + [row.id]);
      } else {
        return next, Invalid(row.id, PrevMismatch);
      }
      next := Remember(next, row);
    }
    verdict := Valid;
  }

  // ------------------------------------------------------------------ batches

  /** Cutting the rows anywhere and threading the state changes neither verdict nor state. */
  lemma {:induction false} BatchSplit(s: ChainState, a: seq<AuditRow>, b: seq<AuditRow>, cutoff: Option<int>)
    ensures Verify(s, a + b, cutoff) ==
            if Verify(s, a, cutoff).1.Valid? then Verify(Verify(s, a, cutoff).0, b, cutoff) else Verify(s, a, cutoff)
    decreases |a|
  {
    if a == [] {
      assert a + b == b;
    } else {
      assert (a + b)[1..] == a[1..] + b;
      match CheckRow(s, a[0], cutoff)
      case Accept(next) => BatchSplit(next, a[1..], b, cutoff);
      case Reject(_, _) =>
    }
  }

  lemma EmptyIsValid(cutoff: Option<int>)
    ensures Verify(EMPTY_CHAIN, [], cutoff) == (EMPTY_CHAIN, Valid)
  {
  }

  datatype Health = Ok(examined: nat) | Broken(firstInvalidId: int, reason: Reason)

  /**
   * The health check: batches of `limit` rows in id order until a batch is
   * short or `maxRows` have been read. Its verdict is the verdict on the rows
   * it has read, in one go; those are the oldest rows of the log.
   */
  method CheckAuditChain(rows: seq<AuditRow>, limit: nat, maxRows: nat, cutoff: Option<int>) returns (h: Health)
    requires limit > 0 && maxRows > 0
    ensures h.Ok? ==> h.examined <= |rows| && Verify(EMPTY_CHAIN, rows[..h.examined], cutoff).1.Valid?
    ensures h.Ok? ==> h.examined == |rows| || maxRows <= h.examined < maxRows + limit
    ensures h.Broken? ==> Verify(EMPTY_CHAIN, rows, cutoff).1 == Invalid(h.firstInvalidId, h.reason)
  {
    hide Verify;
    EmptyIsValid(cutoff);
    var state, total := EMPTY_CHAIN, 0;
    while true
      invariant total <= |rows| && total < maxRows && Verify(EMPTY_CHAIN, rows[..total], cutoff) == (state, Valid)
      decreases |rows| - total
    {
      var batch := rows[total..Min(total + limit, |rows|)];
      if |batch| == 0 {
        return Ok(total);
      }
      var next, verdict := VerifyAuditBatch(state, batch, cutoff);
      BatchSplit(EMPTY_CHAIN, rows[..total], batch, cutoff);
      assert rows[..total] + batch == rows[..total + |batch|];
      state, total := next, total + |batch|;
      if verdict.Invalid? {
        BatchSplit(EMPTY_CHAIN, rows[..total], rows[total..], cutoff);
        assert rows[..total] + rows[total..] == rows;
        return Broken(verdict.firstInvalidId, verdict.reason);
      }
      if |batch| < limit || total >= maxRows {
        return Ok(total);
      }
    }
  }

  // ---------------------------------------------------- what acceptance means

  function SealedRows(rows: seq<AuditRow>): seq<AuditRow> {
    if rows == [] then []
    else
      var n := |rows| - 1;
      SealedRows(rows[..n]) + if rows[n].recordHash == UNSEALED then [] else [rows[n]]
  }

  ghost predicate Accepted(rows: seq<AuditRow>, cutoff: Option<int>) {
    Verify(EMPTY_CHAIN, rows, cutoff).1.Valid?
  }

  function StateOf(rows: seq<AuditRow>, cutoff: Option<int>): ChainState { Verify(EMPTY_CHAIN, rows, cutoff).0 }

  function LastHash(sealed: seq<AuditRow>): Option<Hash> {
    if sealed == [] then None else Some(sealed[|sealed| - 1].recordHash)
  }

  function LastTen(sealed: seq<AuditRow>): seq<AuditRow> {
    if |sealed| <= 10 then sealed else sealed[|sealed| - 10..]
  }

  function Hashes(rows: seq<AuditRow>): seq<Hash> {
    seq(|rows|, i requires 0 <= i < |rows| => rows[i].recordHash)
  }

  /** A row that carries on from the row before it. */
  predicate Linked(sealed: seq<AuditRow>, i: nat)
    requires i < |sealed|
  {
    sealed[i].prevHash == LastHash(sealed[..i])
  }

  /** A row written next to newer ones: old enough, close in time, and linked to one of the last ten before it. */
  predicate Forked(sealed: seq<AuditRow>, i: nat, cutoff: Option<int>)
    requires i < |sealed|
  {
    && i > 0 && sealed[i].prevHash.Some? && sealed[i].prevHash.value in Hashes(LastTen(sealed[..i]))
    && cutoff.Some? && sealed[i].createdAt < cutoff.value
    && -600_000 <= sealed[i].createdAt - sealed[i - 1].createdAt <= 600_000
  }

  /** The chain condition on the sealed rows, stated without the verifier. */
  ghost predicate WellChained(sealed: seq<AuditRow>, cutoff: Option<int>) {
    forall i: nat :: i < |sealed| ==> ChainedAt(sealed, i, cutoff)
  }

  predicate ChainedAt(sealed: seq<AuditRow>, i: nat, cutoff: Option<int>)
    requires i < |sealed|
  {
    OwnHashOk(sealed[i]) && (Linked(sealed, i) || Forked(sealed, i, cutoff))
  }

  function ForkIds(sealed: seq<AuditRow>): seq<int> {
    if sealed == [] then []
    else
      var n := |sealed| - 1;
      ForkIds(sealed[..n]) + if Linked(sealed, n) then [] else [sealed[n].id]
  }

  /** UNSEALED rows come first. */
  ghost predicate LegacyFirst(rows: seq<AuditRow>) {
    forall i, j :: 0 <= i < j < |rows| && rows[j].recordHash == UNSEALED ==> rows[i].recordHash == UNSEALED
  }

  /** The verifier's memory after accepting `rows`. */
  ghost predicate Remembers(s: ChainState, rows: seq<AuditRow>) {
    var sealed := SealedRows(rows);
    && s.prevHash == LastHash(sealed)
    && s.recent == Hashes(LastTen(sealed))
    && s.checked == |sealed| && s.legacyUnsealed == |rows| - |sealed|
    && s.sealedStarted == (sealed != [])
    && s.forks == ForkIds(sealed)
    && s.lastCreatedAt == (if sealed == [] then None else Some(sealed[|sealed| - 1].createdAt))
  }

  lemma ChainStep(sealed: seq<AuditRow>, row: AuditRow, cutoff: Option<int>)
    ensures var all := sealed + [row];
            WellChained(all, cutoff) <==> WellChained(sealed, cutoff) && ChainedAt(all, |sealed|, cutoff)
  {
    hide OwnHashOk, LastTen, Hashes;
    var all := sealed + [row];
    forall i: nat | i < |sealed| ensures ChainedAt(all, i, cutoff) == ChainedAt(sealed, i, cutoff) {
      assert all[..i] == sealed[..i];
    }
  }

  lemma RememberStep(sealed: seq<AuditRow>, row: AuditRow)
    ensures var all := sealed + [row];
            var recent := Hashes(LastTen(sealed)) + [row.recordHash];
            Hashes(LastTen(all)) == if |recent| > RECENT_HASHES then recent[1..] else recent
  {
    var all := sealed + [row];
    if |all| <= RECENT_HASHES {
      assert LastTen(all) == LastTen(sealed) + [row];
    } else if |sealed| <= RECENT_HASHES {
      assert LastTen(all) == sealed[1..] + [row];
    } else {
      assert LastTen(all) == LastTen(sealed)[1..] + [row];
    }
  }

  /** One more row is accepted exactly when it keeps the chain condition, and the memory stays right. */
  ghost predicate CheckedRight(s: ChainState, rows: seq<AuditRow>, row: AuditRow, cutoff: Option<int>) {
    var all := rows + [row];
    && (CheckRow(s, row, cutoff).Accept? <==> LegacyFirst(all) && WellChained(SealedRows(all), cutoff))
    && (CheckRow(s, row, cutoff).Accept? ==> Remembers(CheckRow(s, row, cutoff).state, all))
  }

  lemma CheckUnsealedRow(s: ChainState, rows: seq<AuditRow>, row: AuditRow, cutoff: Option<int>)
    requires Remembers(s, rows) && LegacyFirst(rows) && WellChained(SealedRows(rows), cutoff)
    requires row.recordHash == UNSEALED
    ensures CheckedRight(s, rows, row, cutoff)
  {
    var all, sealed := rows + [row], SealedRows(rows);
    assert all[..|rows|] == rows && all[|rows|] == row;
    assert SealedRows(all) == sealed;
    SealedMembers(rows);
    if sealed == [] {
      forall i | 0 <= i < |rows| ensures rows[i].recordHash == UNSEALED { assert rows[i] in rows; }
    } else {
      assert sealed[0] in rows;
      var i :| 0 <= i < |rows| && rows[i] == sealed[0];
      assert all[i].recordHash != UNSEALED;
    }
  }

  lemma CheckSealedRow(s: ChainState, rows: seq<AuditRow>, row: AuditRow, cutoff: Option<int>)
    requires Remembers(s, rows) && LegacyFirst(rows) && WellChained(SealedRows(rows), cutoff)
    requires row.recordHash != UNSEALED
    ensures CheckedRight(s, rows, row, cutoff)
  {
    hide OwnHashOk, ChainedAt, WellChained, CheckRow, Remember, LastTen, Hashes, ForkIds;
    var all, sealed := rows + [row], SealedRows(rows);
    assert all[..|rows|] == rows && all[|rows|] == row;
    assert SealedRows(all) == sealed + [row] && LegacyFirst(all);
    ChainStep(sealed, row, cutoff);
    SealedCheck(s, sealed, row, cutoff);
    if CheckRow(s, row, cutoff).Accept? { RememberAccepted(s, rows, row, cutoff); }
  }

  lemma RememberAccepted(s: ChainState, rows: seq<AuditRow>, row: AuditRow, cutoff: Option<int>)
    requires Remembers(s, rows) && row.recordHash != UNSEALED && CheckRow(s, row, cutoff).Accept?
    ensures Remembers(CheckRow(s, row, cutoff).state, rows + [row])
  {
    hide OwnHashOk, ForkShaped, NearLast, LastTen, Hashes, SealedRows, ForkIds;
    SealedSnoc(rows, row);
    RememberStep(SealedRows(rows), row);
  }

  lemma SealedSnoc(rows: seq<AuditRow>, row: AuditRow)
    requires row.recordHash != UNSEALED
    ensures var sealed, more := SealedRows(rows), SealedRows(rows + [row]);
            && more == sealed + [row] && LastHash(more) == Some(row.recordHash)
            && ForkIds(more) == ForkIds(sealed) + if row.prevHash == LastHash(sealed) then [] else [row.id]
  {
    hide LastHash;
    var all, sealed := rows + [row], SealedRows(rows);
    assert all[..|rows|] == rows && all[|rows|] == row;
    assert (sealed + [row])[..|sealed|] == sealed;
    LastOfSnoc(sealed, row);
  }

  lemma LastOfSnoc(sealed: seq<AuditRow>, row: AuditRow)
    ensures LastHash(sealed + [row]) == Some(row.recordHash)
  {
  }

  /** The row check on the verifier's memory is the chain condition on the rows themselves. */
  lemma SealedCheck(s: ChainState, sealed: seq<AuditRow>, row: AuditRow, cutoff: Option<int>)
    requires row.recordHash != UNSEALED
    requires s.prevHash == LastHash(sealed) && s.recent == Hashes(LastTen(sealed)) && s.checked == |sealed|
    requires s.lastCreatedAt == (if sealed == [] then None else Some(sealed[|sealed| - 1].createdAt))
    ensures CheckRow(s, row, cutoff).Accept? <==> ChainedAt(sealed + [row], |sealed|, cutoff)
  {
    hide OwnHashOk, Hashes, LastTen;
    assert (sealed + [row])[..|sealed|] == sealed;
  }

  lemma CheckRowExactly(s: ChainState, rows: seq<AuditRow>, row: AuditRow, cutoff: Option<int>)
    requires Remembers(s, rows) && LegacyFirst(rows) && WellChained(SealedRows(rows), cutoff)
    ensures CheckedRight(s, rows, row, cutoff)
  {
    if row.recordHash == UNSEALED {
      CheckUnsealedRow(s, rows, row, cutoff);
    } else {
      CheckSealedRow(s, rows, row, cutoff);
    }
  }

  lemma {:induction false} SealedMembers(rows: seq<AuditRow>)
    ensures forall r :: r in SealedRows(rows) <==> r in rows && r.recordHash != UNSEALED
    decreases |rows|
  {
    if rows != [] {
      var n := |rows| - 1;
      SealedMembers(rows[..n]);
      assert rows == rows[..n] + [rows[n]];
    }
  }

  /**
   * The verifier, its tolerance included, accepts exactly the logs whose
   * unsealed rows come first and whose sealed rows are well chained.
   */
  lemma {:induction false} AcceptedExactly(rows: seq<AuditRow>, cutoff: Option<int>)
    ensures Accepted(rows, cutoff) <==> LegacyFirst(rows) && WellChained(SealedRows(rows), cutoff)
    ensures Accepted(rows, cutoff) ==> Remembers(StateOf(rows, cutoff), rows)
    decreases |rows|
  {
    if rows != [] {
      var n := |rows| - 1;
      var init, row := rows[..n], rows[n];
      assert rows == init + [row];
      AcceptedExactly(init, cutoff);
      BatchSplit(EMPTY_CHAIN, init, [row], cutoff);
      var s := StateOf(init, cutoff);
      assert [row][1..] == [];
      if Accepted(init, cutoff) {
        CheckRowExactly(s, init, row, cutoff);
      }
      if LegacyFirst(rows) && WellChained(SealedRows(rows), cutoff) {
        PrefixStaysChained(init, row, cutoff);
      }
    }
  }

  lemma PrefixStaysChained(init: seq<AuditRow>, row: AuditRow, cutoff: Option<int>)
    requires LegacyFirst(init + [row]) && WellChained(SealedRows(init + [row]), cutoff)
    ensures LegacyFirst(init) && WellChained(SealedRows(init), cutoff)
  {
    var all := init + [row];
    assert all[..|init|] == init;
    forall i, j | 0 <= i < j < |init| && init[j].recordHash == UNSEALED ensures init[i].recordHash == UNSEALED {
      assert all[j].recordHash == UNSEALED && all[i] == init[i];
    }
    assert all[|init|] == row;
    assert SealedRows(init) + [] == SealedRows(init);
    if row.recordHash != UNSEALED {
      ChainStep(SealedRows(init), row, cutoff);
    }
  }

  // ------------------------------------------------------------- the verdict

  /** Linked to one of the last ten rows, and old: a row that passes for a late write if its time is near enough. */
  predicate LinkedLate(sealed: seq<AuditRow>, i: nat, cutoff: Option<int>)
    requires i < |sealed|
  {
    && i > 0 && sealed[i].prevHash.Some? && sealed[i].prevHash.value in Hashes(LastTen(sealed[..i]))
    && cutoff.Some? && sealed[i].createdAt < cutoff.value
  }

  /** Why row `k`, behind accepted ones, is rejected: a wrong link is found before a wrong hash is. */
  function WhyRejected(rows: seq<AuditRow>, k: nat, cutoff: Option<int>): Reason
    requires k < |rows|
  {
    var before := SealedRows(rows[..k]);
    var all := before + [rows[k]];
    if rows[k].recordHash == UNSEALED then UnsealedAfterSealed
    else if !OwnHashOk(rows[k]) && (Linked(all, |before|) || LinkedLate(all, |before|, cutoff)) then HashMismatch
    else PrevMismatch
  }

  /** Row `k` is the first whose prefix is not accepted. */
  ghost predicate FirstBad(rows: seq<AuditRow>, k: nat, cutoff: Option<int>) {
    k < |rows| && Accepted(rows[..k], cutoff) && !Accepted(rows[..k + 1], cutoff)
  }

  /** What the verifier says of a log that it rejects at row `k`; the state is that of the rows before it. */
  ghost predicate RejectedAt(rows: seq<AuditRow>, k: nat, cutoff: Option<int>) {
    && FirstBad(rows, k, cutoff)
    && Verify(EMPTY_CHAIN, rows, cutoff) ==
       (StateOf(rows[..k], cutoff).(sealedStarted := true), Invalid(rows[k].id, WhyRejected(rows, k, cutoff)))
  }

  /** The verdict names the first row whose prefix is not accepted, and why. */
  lemma {:induction false} VerdictExactly(rows: seq<AuditRow>, cutoff: Option<int>) returns (k: nat)
    ensures Accepted(rows, cutoff) || RejectedAt(rows, k, cutoff)
    decreases |rows|
  {
    k := 0;
    if rows != [] {
      hide Verify, RejectedAt;
      var n := |rows| - 1;
      assert rows == rows[..n] + [rows[n]];
      if Accepted(rows[..n], cutoff) {
        k := n;
        RejectedAtEnd(rows[..n], rows[n], cutoff);
      } else {
        k := VerdictExactly(rows[..n], cutoff);
        RejectedBefore(rows[..n], rows[n], k, cutoff);
      }
    }
  }

  lemma RejectedAtEnd(init: seq<AuditRow>, row: AuditRow, cutoff: Option<int>)
    requires Accepted(init, cutoff)
    ensures Accepted(init + [row], cutoff) || RejectedAt(init + [row], |init|, cutoff)
  {
    LastRowDecides(init, row, cutoff);
    hide Verify, WhyRejected;
    assert (init + [row])[..|init|] == init && (init + [row])[..|init| + 1] == init + [row];
  }

  lemma RejectedBefore(init: seq<AuditRow>, row: AuditRow, k: nat, cutoff: Option<int>)
    requires RejectedAt(init, k, cutoff)
    ensures RejectedAt(init + [row], k, cutoff)
  {
    var rows := init + [row];
    BatchSplit(EMPTY_CHAIN, init, [row], cutoff);
    hide Verify, WhyRejected;
    assert init[..k] == rows[..k] && init[..k + 1] == rows[..k + 1] && init[k] == rows[k];
    SameReason(init, rows, k, cutoff);
  }

  lemma LastRowDecides(init: seq<AuditRow>, row: AuditRow, cutoff: Option<int>)
    requires Accepted(init, cutoff)
    ensures var s, result := StateOf(init, cutoff), Verify(EMPTY_CHAIN, init + [row], cutoff);
            result.1.Valid? ||
            result == (s.(sealedStarted := true), Invalid(row.id, WhyRejected(init + [row], |init|, cutoff)))
  {
    hide Remembers, WellChained, LegacyFirst, CheckRow, WhyRejected;
    var s, rows := StateOf(init, cutoff), init + [row];
    BatchSplit(EMPTY_CHAIN, init, [row], cutoff);
    AcceptedExactly(init, cutoff);
    assert [row][1..] == [] && rows[..|init|] == init && rows[|init|] == row;
    if CheckRow(s, row, cutoff).Reject? { RejectedWhy(s, rows, cutoff); }
  }

  lemma SameReason(init: seq<AuditRow>, rows: seq<AuditRow>, k: nat, cutoff: Option<int>)
    requires k < |init| <= |rows| && init[..k] == rows[..k] && init[k] == rows[k]
    ensures WhyRejected(init, k, cutoff) == WhyRejected(rows, k, cutoff)
  {
  }

  lemma RejectedWhy(s: ChainState, rows: seq<AuditRow>, cutoff: Option<int>)
    requires rows != [] && Remembers(s, rows[..|rows| - 1]) && CheckRow(s, rows[|rows| - 1], cutoff).Reject?
    ensures CheckRow(s, rows[|rows| - 1], cutoff) ==
            Reject(s.(sealedStarted := true), WhyRejected(rows, |rows| - 1, cutoff))
  {
    hide OwnHashOk, Hashes, LastTen, ForkIds;
    var before := SealedRows(rows[..|rows| - 1]);
    assert (before + [rows[|rows| - 1]])[..|before|] == before;
  }

  // ------------------------------------------------------------ no tolerance

  lemma {:induction false} NoForkIds(sealed: seq<AuditRow>)
    ensures ForkIds(sealed) == [] <==> forall i: nat :: i < |sealed| ==> Linked(sealed, i)
    decreases |sealed|
  {
    if sealed != [] {
      var n := |sealed| - 1;
      NoForkIds(sealed[..n]);
      forall i: nat | i < n ensures Linked(sealed[..n], i) == Linked(sealed, i) {
        assert sealed[..n][..i] == sealed[..i];
      }
    }
  }

  /** With tolerance on, acceptance without forks is strict acceptance. */
  lemma NoForksIsStrict(rows: seq<AuditRow>, cutoff: Option<int>)
    ensures Accepted(rows, cutoff) && StateOf(rows, cutoff).forks == [] <==> Accepted(rows, None)
  {
    AcceptedExactly(rows, cutoff);
    AcceptedExactly(rows, None);
    var sealed := SealedRows(rows);
    NoForkIds(sealed);
    forall i: nat | i < |sealed|
      ensures ChainedAt(sealed, i, None) <==> ChainedAt(sealed, i, cutoff) && Linked(sealed, i)
    {
    }
  }

  // -------------------------------------------------------------- the writer

  datatype Entry = Entry(actorUserId: Option<nat>, actionKey: string, resourceId: Option<nat>)

  /** What a writer that saw `previous` as the last row inserts. */
  function NewRow(previous: Option<AuditRow>, id: int, e: Entry, now: Time): AuditRow {
    var prevHash :=
      if previous.None? || previous.value.recordHash == UNSEALED then None
      else Some(previous.value.recordHash);
    var row := AuditRow(id, e.actorUserId, e.actionKey, e.resourceId, now, prevHash, UNSEALED);
    Sealed(row)
  }

  function Sealed(row: AuditRow): AuditRow { row.(recordHash := ComputeHash(row.prevHash, row)) }

  /** The record hash is not among the fields hashed. */
  lemma SealedIsOwn(row: AuditRow)
    ensures OwnHashOk(Sealed(row)) && HexText(Sealed(row).recordHash) && Sealed(row).recordHash != UNSEALED
  {
    hide Stamp, OrEmpty;
    assert HashedText(row.prevHash, Sealed(row)) == HashedText(row.prevHash, row);
  }

  class AuditLog {
    var rows: seq<AuditRow>
    var nextId: int

    constructor (legacy: seq<AuditRow>)
      requires forall r :: r in legacy ==> r.recordHash == UNSEALED
      ensures rows == legacy && Accepted(rows, None)
    {
      rows, nextId := legacy, |legacy|;
      new;
      LegacyIsAccepted(legacy);
    }

    /** The lock makes reading the last hash and adding the row one step; the log stays strictly valid. */
    method WriteAuditEvent(e: Entry, now: Time)
      requires Accepted(rows, None)
      modifies this
      ensures Accepted(rows, None) && |rows| == |old(rows)| + 1 && rows[..|old(rows)|] == old(rows)
      ensures rows[|old(rows)|] == NewRow(LastRow(old(rows)), old(nextId), e, now) && nextId == old(nextId) + 1
      ensures var row, last := rows[|old(rows)|], LastRow(old(rows));
              && row.id == old(nextId) && row.createdAt == now && OwnHashOk(row)
              && row.actorUserId == e.actorUserId && row.actionKey == e.actionKey && row.resourceId == e.resourceId
              && row.prevHash == if last.Some? && last.value.recordHash != "" then Some(last.value.recordHash) else None
    {
      NewRowIsSealed(LastRow(rows), nextId, e, now);
      hide OwnHashOk;
      var row := NewRow(LastRow(rows), nextId, e, now);
      WriterExtends(rows, row.id, e, now);
      rows := rows + [row];
      nextId := nextId + 1;
    }
  }

  function LastRow(rows: seq<AuditRow>): Option<AuditRow> {
    if rows == [] then None else Some(rows[|rows| - 1])
  }

  lemma LegacyIsAccepted(legacy: seq<AuditRow>)
    requires forall r :: r in legacy ==> r.recordHash == UNSEALED
    ensures Accepted(legacy, None) && SealedRows(legacy) == []
  {
    NothingSealed(legacy);
    AcceptedExactly(legacy, None);
  }

  lemma {:induction false} NothingSealed(rows: seq<AuditRow>)
    requires forall r :: r in rows ==> r.recordHash == UNSEALED
    ensures SealedRows(rows) == []
    decreases |rows|
  {
    if rows != [] { NothingSealed(rows[..|rows| - 1]); }
  }

  /** In an accepted log the last row is the last sealed one, unless no row is sealed. */
  lemma LastRowIsLastHash(rows: seq<AuditRow>, cutoff: Option<int>)
    requires Accepted(rows, cutoff) && rows != []
    ensures LastHash(SealedRows(rows)) ==
            if rows[|rows| - 1].recordHash == UNSEALED then None else Some(rows[|rows| - 1].recordHash)
  {
    var n := |rows| - 1;
    AcceptedExactly(rows, cutoff);
    if rows[n].recordHash == UNSEALED {
      forall i | 0 <= i < |rows| ensures rows[i].recordHash == UNSEALED {}
      NothingSealed(rows);
    }
  }

  lemma NewRowIsSealed(previous: Option<AuditRow>, id: int, e: Entry, now: Time)
    ensures var row := NewRow(previous, id, e, now);
            OwnHashOk(row) && HexText(row.recordHash) && row.recordHash != UNSEALED
  {
    var row := NewRow(previous, id, e, now);
    SealedIsOwn(row.(recordHash := UNSEALED));
    assert row == Sealed(row.(recordHash := UNSEALED));
  }

  lemma WriterExtends(rows: seq<AuditRow>, id: int, e: Entry, now: Time)
    requires Accepted(rows, None)
    ensures Accepted(rows + [NewRow(LastRow(rows), id, e, now)], None)
  {
    hide OwnHashOk, ComputeHash, HexText, LastTen, Hashes, ForkIds;
    var row := NewRow(LastRow(rows), id, e, now);
    NewRowIsSealed(LastRow(rows), id, e, now);
    AcceptedExactly(rows, None);
    if rows != [] { LastRowIsLastHash(rows, None); }
    assert StateOf(rows, None).prevHash == row.prevHash;
    OneRow(StateOf(rows, None), row, row.prevHash);
    BatchSplit(EMPTY_CHAIN, rows, [row], None);
    assert Verify(EMPTY_CHAIN, rows + [row], None) == Verify(StateOf(rows, None), [row], None);
    assert Verify(EMPTY_CHAIN, rows + [row], None).1.Valid?;
  }

  /**
   * Without the lock, two writers that read the same last row fork the chain, and
   * strict checking rejects the second row, unless the first one's digest is the
   * very hash it links to.
   */
  lemma UnlockedWritersFork(rows: seq<AuditRow>, e: Entry, f: Entry, now: Time, id: int)
    requires Accepted(rows, None)
    ensures var first := NewRow(LastRow(rows), id, e, now);
            var second := NewRow(LastRow(rows), id + 1, f, now);
            Verify(EMPTY_CHAIN, rows + [first, second], None).1 ==
              if first.prevHash == Some(first.recordHash) then Valid else Invalid(id + 1, PrevMismatch)
  {
    hide OwnHashOk, ComputeHash, HexText, LastTen, Hashes, ForkIds, WellChained;
    var first, second := NewRow(LastRow(rows), id, e, now), NewRow(LastRow(rows), id + 1, f, now);
    NewRowIsSealed(LastRow(rows), id, e, now);
    NewRowIsSealed(LastRow(rows), id + 1, f, now);
    WriterExtends(rows, id, e, now);
    AcceptedExactly(rows + [first], None);
    var s := StateOf(rows + [first], None);
    assert s.prevHash == Some(first.recordHash) by { SealedSnoc(rows, first); }
    assert second.prevHash == first.prevHash;
    BatchSplit(EMPTY_CHAIN, rows + [first], [second], None);
    assert rows + [first] + [second] == rows + [first, second];
    OneRow(s, second, first.prevHash);
  }

  /** Strict checking of a genuine row. */
  lemma OneRow(s: ChainState, row: AuditRow, link: Option<Hash>)
    requires row.recordHash != UNSEALED && OwnHashOk(row) && row.prevHash == link
    ensures Verify(s, [row], None).1 == if link == s.prevHash then Valid else Invalid(row.id, PrevMismatch)
  {
    hide OwnHashOk;
    assert [row][0] == row && [row][1..] == [];
  }
}
