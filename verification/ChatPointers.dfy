/**
 * One chat conversation: the messages, and the delivered and read pointers and
 * unread counters that are kept beside them instead of a status per message.
 */
module ChatPointers {
  import opened Common

  /** `Notice` is an internal system message; `AutoReply` is one the customer sees, sent outside working hours. */
  datatype Kind = FromCustomer | FromStaff | Note | Notice | AutoReply | Closing

  datatype SenderType = CustomerType | StaffType | SystemType

  datatype Message = Message(id: nat, kind: Kind, clientKey: Option<string>)

  datatype Pointers = Pointers(
    last: nat,
    customerDelivered: nat, customerRead: nat, customerUnread: nat,
    staffDelivered: nat, staffRead: nat, staffUnread: nat)

  const FRESH := Pointers(0, 0, 0, 0, 0, 0, 0)

  function TypeOf(k: Kind): SenderType {
    match k
    case FromCustomer => CustomerType
    case FromStaff => StaffType
    case Note => StaffType
    case _ => SystemType
  }

  // --------------------------------------------------------- updates of the row

  function CustomerPosted(p: Pointers, id: nat): Pointers {
    p.(last := id, staffUnread := p.staffUnread + 1, customerDelivered := id, customerRead := id, customerUnread := 0)
  }

  function StaffPosted(p: Pointers, id: nat): Pointers {
    p.(last := id, customerUnread := p.customerUnread + 1, staffUnread := 0, staffDelivered := id, staffRead := id)
  }

  function Bumped(p: Pointers, id: nat): Pointers { p.(last := id) }

  /** Closing the conversation clears the staff counter and counts its farewell for the customer. */
  function Closed(p: Pointers, id: nat): Pointers {
    Bumped(p.(staffUnread := 0), id).(customerUnread := p.customerUnread + 1)
  }

  function Touched(p: Pointers): Pointers { p.(customerDelivered := Max(p.customerDelivered, p.last)) }

  function ReadByCustomer(p: Pointers): Pointers {
    if p.customerRead < p.last || p.customerUnread > 0 then
      p.(customerRead := p.last, customerDelivered := Max(p.customerDelivered, p.last), customerUnread := 0)
    else p
  }

  function DeliveredToStaff(p: Pointers): Pointers {
    if p.staffDelivered < p.last then p.(staffDelivered := Max(p.staffDelivered, p.last)) else p
  }

  function ReadByStaff(p: Pointers): Pointers {
    if p.staffRead < p.last || p.staffUnread > 0 then
      p.(staffRead := p.last, staffDelivered := Max(p.staffDelivered, p.last), staffUnread := 0)
    else p
  }

  // -------------------------------------------------------------- unread messages

  /** Messages of `kinds` above an id. */
  function Above(log: seq<Message>, kinds: set<Kind>, id: nat): nat {
    if log == [] then 0
    else
      var m := log[|log| - 1];
      Above(log[..|log| - 1], kinds, id) + if m.kind in kinds && m.id > id then 1 else 0
  }

  /** What the customer's counter counts, and what the customer sees of the other side. */
  const FOR_CUSTOMER: set<Kind> := {FromStaff, Closing}
  const SHOWN_TO_CUSTOMER: set<Kind> := {FromStaff, Closing, AutoReply}
  const FOR_STAFF: set<Kind> := {FromCustomer}

  lemma AboveSnoc(log: seq<Message>, m: Message, kinds: set<Kind>, id: nat)
    ensures Above(log + [m], kinds, id) == Above(log, kinds, id) + if m.kind in kinds && m.id > id then 1 else 0
  {
    assert (log + [m])[..|log|] == log;
  }

  lemma {:induction false} NothingAbove(log: seq<Message>, kinds: set<Kind>, id: nat)
    requires forall m :: m in log && m.kind in kinds ==> m.id <= id
    ensures Above(log, kinds, id) == 0
    decreases |log|
  {
    if log != [] {
      assert log[|log| - 1] in log;
      NothingAbove(log[..|log| - 1], kinds, id);
    }
  }

  // ------------------------------------------------------------------ the log

  /** Ids grow, stay below the next one, and one client key of a sender type is used once. */
  ghost predicate SoundLog(log: seq<Message>, nextId: nat) {
    && nextId > 0
    && (forall i, j :: 0 <= i < j < |log| ==> log[i].id < log[j].id)
    && (forall m :: m in log ==> 0 < m.id < nextId)
    && (forall i, j :: 0 <= i < j < |log| ==> !SameKey(log[i], log[j].kind, log[j].clientKey))
  }

  predicate SameKey(m: Message, kind: Kind, key: Option<string>) {
    key.Some? && m.clientKey == key && TypeOf(m.kind) == TypeOf(kind)
  }

  /** What the unread laws need: `cleared` is where the staff counter was last set to zero. */
  ghost predicate Agrees(p: Pointers, log: seq<Message>, cleared: nat) {
    && p.customerRead <= p.customerDelivered <= p.last
    && p.staffRead <= p.staffDelivered <= p.last
    && p.staffRead <= cleared <= p.last
    && (forall m :: m in log && (m.kind in FOR_CUSTOMER || m.kind in FOR_STAFF) ==> m.id <= p.last)
    && p.customerUnread == Above(log, FOR_CUSTOMER, p.customerRead)
    && p.staffUnread == Above(log, FOR_STAFF, cleared)
  }

  /** No pointer has moved back. */
  predicate Forward(p: Pointers, q: Pointers) {
    && p.last <= q.last
    && p.customerDelivered <= q.customerDelivered && p.customerRead <= q.customerRead
    && p.staffDelivered <= q.staffDelivered && p.staffRead <= q.staffRead
  }

  datatype DeliveryStatus = Sent | Delivered | Read

  function DeriveDeliveryStatus(messageId: nat, deliveredUpTo: nat, readUpTo: nat): DeliveryStatus {
    if messageId <= readUpTo then Read else if messageId <= deliveredUpTo then Delivered else Sent
  }

  function Rank(s: DeliveryStatus): nat { match s case Sent => 0 case Delivered => 1 case Read => 2 }

  /** The status of a message as its sender sees it. */
  function StatusOf(m: Message, p: Pointers): DeliveryStatus {
    if m.kind == FromCustomer then DeriveDeliveryStatus(m.id, p.staffDelivered, p.staffRead)
    else DeriveDeliveryStatus(m.id, p.customerDelivered, p.customerRead)
  }

  lemma StatusNeverGoesBack(m: Message, p: Pointers, q: Pointers)
    requires Forward(p, q)
    ensures Rank(StatusOf(m, p)) <= Rank(StatusOf(m, q))
  {
  }

  /** The row after a message of the given kind has been stored under `id`. */
  function Posted(p: Pointers, kind: Kind, id: nat): Pointers {
    match kind
    case FromCustomer => CustomerPosted(p, id)
    case FromStaff => StaffPosted(p, id)
    case Closing => Closed(p, id)
    case _ => p
  }

  function ClearedBy(cleared: nat, kind: Kind, id: nat): nat {
    if kind == FromStaff || kind == Closing then id else cleared
  }

  /** Storing a message and updating the row in one go keeps the laws. */
  lemma PostKeepsLaws(p: Pointers, log: seq<Message>, cleared: nat, m: Message)
    requires Agrees(p, log, cleared) && m.id > p.last && !Silent(m.kind)
    ensures Agrees(Posted(p, m.kind, m.id), log + [m], ClearedBy(cleared, m.kind, m.id))
    ensures Forward(p, Posted(p, m.kind, m.id))
  {
    var q, all := Posted(p, m.kind, m.id), log + [m];
    AboveSnoc(log, m, FOR_CUSTOMER, p.customerRead);
    AboveSnoc(log, m, FOR_STAFF, cleared);
    NothingAbove(all, FOR_CUSTOMER, m.id);
    NothingAbove(all, FOR_STAFF, m.id);
    hide Above;
  }

  /** A message that is stored without an update of the row. */
  predicate Silent(k: Kind) { k == Note || k == Notice || k == AutoReply }

  /** A note, a notice or an automatic reply is stored, and that is all. */
  lemma SilentKeepsLaws(p: Pointers, log: seq<Message>, cleared: nat, m: Message)
    requires Agrees(p, log, cleared) && Silent(m.kind)
    ensures Agrees(p, log + [m], cleared)
  {
    AboveSnoc(log, m, FOR_CUSTOMER, p.customerRead);
    AboveSnoc(log, m, FOR_STAFF, cleared);
    hide Above;
  }

  class Conversation {
    var log: seq<Message>
    var nextId: nat
    var row: Pointers
    ghost var cleared: nat

    ghost predicate Valid()
      reads this
    {
      SoundLog(log, nextId) && row.last < nextId && Agrees(row, log, cleared)
    }

    constructor ()
      ensures Valid() && log == [] && row == FRESH
    {
      log, nextId, row, cleared := [], 1, FRESH, 0;
    }

    /**
     * A post from either side. A retry with a client id already stored returns
     * the stored message and changes nothing.
     */
    method PostMessage(fromCustomer: bool, isInternal: bool, clientKey: Option<string>, skipped: nat)
      returns (id: nat, duplicate: bool)
      requires Valid()
      modifies this
      ensures Valid() && Forward(old(row), row)
      ensures duplicate <==> exists m :: m in old(log) && SameKey(m, PostKind(fromCustomer, isInternal), clientKey)
      ensures duplicate ==> log == old(log) && row == old(row) && nextId == old(nextId)
      ensures duplicate ==>
              exists m :: m in log && m.id == id && SameKey(m, PostKind(fromCustomer, isInternal), clientKey)
      ensures !duplicate ==>
                && log == old(log) + [Message(id, PostKind(fromCustomer, isInternal), clientKey)]
                && row == Posted(old(row), PostKind(fromCustomer, isInternal), id)
      ensures !duplicate ==>
                && |log| == |old(log)| + 1
                && log[|old(log)|].kind == if fromCustomer then FromCustomer else if isInternal then Note else FromStaff
      ensures State(row, log, nextId) ==
              Apply(State(old(row), old(log), old(nextId)),
                Post(PostKind(fromCustomer, isInternal), clientKey, skipped))
    {
      hide Agrees;
      var kind := PostKind(fromCustomer, isInternal);
      for k := 0 to |log|
        invariant forall m :: m in log[..k] ==> !SameKey(m, kind, clientKey)
      {
        assert log[..k + 1] == log[..k] + [log[k]];
        if SameKey(log[k], kind, clientKey) {
          assert log[k] in log;
          return log[k].id, true;
        }
      }
      assert log[..|log|] == log;
      duplicate := false;
      id := Store(kind, clientKey, skipped);
    }

    /** The transaction of a message that is not a retry; ids are shared with other conversations. */
    method Store(kind: Kind, clientKey: Option<string>, skipped: nat) returns (id: nat)
      requires Valid() && forall m :: m in log ==> !SameKey(m, kind, clientKey)
      modifies this
      ensures Valid() && Forward(old(row), row)
      ensures log == old(log) + [Message(id, kind, clientKey)] && row == Posted(old(row), kind, id)
      ensures id == old(nextId) + skipped && nextId == id + 1
    {
      hide Agrees, Above;
      id := nextId + skipped;
      var m := Message(id, kind, clientKey);
      if Silent(kind) {
        SilentKeepsLaws(row, log, cleared, m);
      } else {
        PostKeepsLaws(row, log, cleared, m);
      }
      log := log + [m];
      nextId := id + 1;
      row := Posted(row, kind, id);
      cleared := ClearedBy(cleared, kind, id);
    }

    method TouchCustomerPresence()
      requires Valid()
      modifies this`row
      ensures Valid() && row == Touched(old(row)) && Forward(old(row), row)
    {
      hide Above;
      row := row.(customerDelivered := Max(row.customerDelivered, row.last));
    }

    method MarkCustomerRead()
      requires Valid()
      modifies this`row
      ensures Valid() && row == ReadByCustomer(old(row)) && Forward(old(row), row)
      ensures row.customerUnread == 0 && row.customerRead == row.last
    {
      NothingAbove(log, FOR_CUSTOMER, row.last);
      hide Above;
      if row.customerRead < row.last || row.customerUnread > 0 {
        row := row.(customerRead := row.last, customerDelivered := Max(row.customerDelivered, row.last),
          customerUnread := 0);
      }
    }

    method MarkStaffDelivered()
      requires Valid()
      modifies this`row
      ensures Valid() && row == DeliveredToStaff(old(row)) && Forward(old(row), row)
    {
      hide Above;
      if row.staffDelivered < row.last {
        row := row.(staffDelivered := Max(row.staffDelivered, row.last));
      }
    }

    method MarkStaffRead()
      requires Valid()
      modifies this`row, this`cleared
      ensures Valid() && row == ReadByStaff(old(row)) && Forward(old(row), row)
      ensures row.staffUnread == 0 && row.staffRead == row.last
    {
      NothingAbove(log, FOR_STAFF, row.last);
      hide Above;
      if row.staffRead < row.last || row.staffUnread > 0 {
        row := row.(staffRead := row.last, staffDelivered := Max(row.staffDelivered, row.last), staffUnread := 0);
        cleared := row.last;
      }
    }
  }

  function PostKind(fromCustomer: bool, isInternal: bool): Kind {
    if fromCustomer then FromCustomer else if isInternal then Note else FromStaff
  }

  // -------------------------------------------------------- runs, serialized

  /** One call, as the class carries it out; `skipped` ids went to other conversations in between. */
  datatype Call = Post(kind: Kind, key: Option<string>, skipped: nat) | Touch | CustomerReads | StaffGets | StaffReads

  predicate Closes(c: Call) { c.Post? && c.kind == Closing }

  datatype State = State(row: Pointers, log: seq<Message>, nextId: nat)

  /** The key has been used by this side before. */
  predicate Retried(log: seq<Message>, kind: Kind, key: Option<string>) {
    exists m :: m in log && SameKey(m, kind, key)
  }

  function Apply(s: State, c: Call): State {
    match c
    case Post(kind, key, skipped) =>
      var id := s.nextId + skipped;
      if Retried(s.log, kind, key) then s
      else State(Posted(s.row, kind, id), s.log + [Message(id, kind, key)], id + 1)
    case Touch => s.(row := Touched(s.row))
    case CustomerReads => s.(row := ReadByCustomer(s.row))
    case StaffGets => s.(row := DeliveredToStaff(s.row))
    case StaffReads => s.(row := ReadByStaff(s.row))
  }

  function Run(s: State, calls: seq<Call>): State {
    if calls == [] then s else Apply(Run(s, calls[..|calls| - 1]), calls[|calls| - 1])
  }

  const START := State(FRESH, [], 1)

  ghost predicate Lawful(s: State, cleared: nat) { s.row.last < s.nextId && Agrees(s.row, s.log, cleared) }

  lemma ApplyKeepsLaws(s: State, c: Call, cleared: nat) returns (cleared': nat)
    requires Lawful(s, cleared)
    ensures Lawful(Apply(s, c), cleared') && Forward(s.row, Apply(s, c).row)
  {
    if c.Post? {
      cleared' := PostApplied(s, c, cleared);
    } else {
      cleared' := PointersApplied(s, c, cleared);
    }
  }

  lemma PostApplied(s: State, c: Call, cleared: nat) returns (cleared': nat)
    requires Lawful(s, cleared) && c.Post?
    ensures Lawful(Apply(s, c), cleared') && Forward(s.row, Apply(s, c).row)
  {
    if Retried(s.log, c.kind, c.key) {
      return cleared;
    }
    var m := Message(s.nextId + c.skipped, c.kind, c.key);
    assert Apply(s, c) == State(Posted(s.row, c.kind, m.id), s.log + [m], m.id + 1);
    cleared' := ClearedBy(cleared, c.kind, m.id);
    hide Apply, Retried, Above;
    if Silent(c.kind) {
      SilentKeepsLaws(s.row, s.log, cleared, m);
    } else {
      PostKeepsLaws(s.row, s.log, cleared, m);
    }
  }

  lemma PointersApplied(s: State, c: Call, cleared: nat) returns (cleared': nat)
    requires Lawful(s, cleared) && !c.Post?
    ensures Lawful(Apply(s, c), cleared') && Forward(s.row, Apply(s, c).row)
  {
    NothingAbove(s.log, FOR_CUSTOMER, s.row.last);
    NothingAbove(s.log, FOR_STAFF, s.row.last);
    hide Above;
    cleared' := cleared;
    if c == StaffReads && (s.row.staffRead < s.row.last || s.row.staffUnread > 0) {
      cleared' := s.row.last;
    }
  }

  lemma StartIsLawful()
    ensures Lawful(START, 0)
  {
  }

  lemma {:induction false} RunKeepsLaws(calls: seq<Call>) returns (cleared: nat)
    ensures Lawful(Run(START, calls), cleared)
    decreases |calls|
  {
    if calls == [] {
      StartIsLawful();
      cleared := 0;
    } else {
      hide Lawful, Apply, Forward;
      var n := |calls| - 1;
      assert calls == calls[..n] + [calls[n]];
      var before := RunKeepsLaws(calls[..n]);
      cleared := ApplyKeepsLaws(Run(START, calls[..n]), calls[n], before);
    }
  }

  lemma {:induction false} AboveSplits(log: seq<Message>, kinds: set<Kind>, others: set<Kind>, id: nat)
    requires kinds !! others
    ensures Above(log, kinds + others, id) == Above(log, kinds, id) + Above(log, others, id)
    decreases |log|
  {
    if log != [] { AboveSplits(log[..|log| - 1], kinds, others, id); }
  }

  /**
   * In every run, the customer's counter is the number of all messages shown to
   * the customer above the read pointer if and only if no automatic reply lies there.
   */
  lemma AutoRepliesExactly(calls: seq<Call>)
    ensures var s := Run(START, calls);
            s.row.customerUnread == Above(s.log, SHOWN_TO_CUSTOMER, s.row.customerRead) <==>
            Above(s.log, {AutoReply}, s.row.customerRead) == 0
  {
    var s := Run(START, calls);
    var cleared := RunKeepsLaws(calls);
    AboveSplits(s.log, FOR_CUSTOMER, {AutoReply}, s.row.customerRead);
    assert FOR_CUSTOMER + {AutoReply} == SHOWN_TO_CUSTOMER;
  }

  /** One lies there even after the customer has read everything: reading goes up to the last counted message. */
  lemma AutoReplyStaysAbove()
    ensures var s := Run(START, [Post(FromCustomer, None, 0), Post(AutoReply, None, 0), CustomerReads]);
            s.row.customerUnread == 0 && Above(s.log, SHOWN_TO_CUSTOMER, s.row.customerRead) == 1
  {
    var calls := [Post(FromCustomer, None, 0), Post(AutoReply, None, 0), CustomerReads];
    assert calls[..2][..1][..0] == [] && calls[..2][..1] == [calls[0]];
    var a, b := Message(1, FromCustomer, None), Message(2, AutoReply, None);
    var s0, s1 := START, State(CustomerPosted(FRESH, 1), [a], 2);
    assert Run(START, calls[..2][..1]) == s1 by { assert Run(START, []) == s0 && s0.log + [a] == [a]; }
    assert Run(START, calls[..2]) == State(s1.row, [a] + [b], 3);
    AboveSnoc([], a, SHOWN_TO_CUSTOMER, 1);
    AboveSnoc([a], b, SHOWN_TO_CUSTOMER, 1);
    assert [] + [a] == [a];
  }

  /** The staff counter counts the customer's messages above the staff read pointer. */
  predicate StaffCountRight(s: State) { s.row.staffUnread == Above(s.log, FOR_STAFF, s.row.staffRead) }

  /** A right staff counter is made wrong by exactly one call: closing while something is unread. */
  lemma OnlyClosingForgets(s: State, c: Call, cleared: nat)
    requires Lawful(s, cleared) && StaffCountRight(s)
    ensures StaffCountRight(Apply(s, c)) <==> !ForgetsUnread(s, c)
  {
    if c.Post? && !Retried(s.log, c.kind, c.key) {
      var m := Message(s.nextId + c.skipped, c.kind, c.key);
      assert Apply(s, c) == State(Posted(s.row, c.kind, m.id), s.log + [m], m.id + 1);
      hide Apply, Retried, Above, Posted;
      PostForgets(s.row, s.log, cleared, m);
      hide Agrees;
    } else {
      NothingAbove(s.log, FOR_STAFF, s.row.last);
      hide Above;
    }
  }

  lemma PostForgets(p: Pointers, log: seq<Message>, cleared: nat, m: Message)
    requires Agrees(p, log, cleared) && p.last < m.id && p.staffUnread == Above(log, FOR_STAFF, p.staffRead)
    ensures var q := Posted(p, m.kind, m.id);
            q.staffUnread == Above(log + [m], FOR_STAFF, q.staffRead) <==> !(m.kind == Closing && p.staffUnread > 0)
  {
    AboveSnoc(log, m, FOR_STAFF, p.staffRead);
    NothingAbove(log, FOR_STAFF, m.id);
    AboveSnoc(log, m, FOR_STAFF, m.id);
    hide Above;
  }

  /** The call closes the conversation while the staff has something unread. */
  predicate ForgetsUnread(s: State, c: Call) {
    Closes(c) && s.row.staffUnread > 0 && !Retried(s.log, Closing, c.key)
  }

  /** The conversation is never closed while the staff has something unread. */
  ghost predicate ClosedWhenRead(calls: seq<Call>) {
    forall k: nat :: k < |calls| ==> !ForgetsUnread(Run(START, calls[..k]), calls[k])
  }

  /** The staff counter is right all along a run if and only if the conversation is only closed when read. */
  lemma StaffCountExactly(calls: seq<Call>)
    ensures (forall k: nat :: k <= |calls| ==> StaffCountRight(Run(START, calls[..k]))) <==> ClosedWhenRead(calls)
  {
    if forall k: nat :: k <= |calls| ==> StaffCountRight(Run(START, calls[..k])) {
      forall k: nat | k < |calls| ensures !ForgetsUnread(Run(START, calls[..k]), calls[k]) {
        assert StaffCountRight(Run(START, calls[..k])) && StaffCountRight(Run(START, calls[..k + 1]));
        NextCall(calls, k);
      }
    } else if ClosedWhenRead(calls) {
      forall k: nat | k <= |calls| ensures StaffCountRight(Run(START, calls[..k])) {
        StaffCountUpTo(calls, k);
      }
    }
  }

  lemma {:induction false} StaffCountUpTo(calls: seq<Call>, k: nat)
    requires k <= |calls| && ClosedWhenRead(calls)
    ensures StaffCountRight(Run(START, calls[..k]))
    decreases k
  {
    if k > 0 {
      StaffCountUpTo(calls, k - 1);
      NextCall(calls, k - 1);
      assert !ForgetsUnread(Run(START, calls[..k - 1]), calls[k - 1]);
    }
  }

  lemma NextCall(calls: seq<Call>, k: nat)
    requires k < |calls| && StaffCountRight(Run(START, calls[..k]))
    ensures StaffCountRight(Run(START, calls[..k + 1])) <==> !ForgetsUnread(Run(START, calls[..k]), calls[k])
  {
    assert calls[..k + 1][..k] == calls[..k];
    var cleared := RunKeepsLaws(calls[..k]);
    OnlyClosingForgets(Run(START, calls[..k]), calls[k], cleared);
    hide Lawful, Apply, StaffCountRight, ForgetsUnread;
  }

  /**
   * In every serialized run, retried posts included, read is at most delivered,
   * delivered at most the last message, and the customer's counter is the number
   * of messages for the customer above the read pointer; the same holds for the
   * staff side as long as the conversation is not closed on unread messages.
   */
  lemma CountersAreRight(calls: seq<Call>)
    ensures var s := Run(START, calls);
            && s.row.customerRead <= s.row.customerDelivered <= s.row.last
            && s.row.staffRead <= s.row.staffDelivered <= s.row.last
            && s.row.customerUnread == Above(s.log, FOR_CUSTOMER, s.row.customerRead)
            && (ClosedWhenRead(calls) ==> StaffCountRight(s))
  {
    var cleared := RunKeepsLaws(calls);
    if ClosedWhenRead(calls) {
      StaffCountUpTo(calls, |calls|);
      assert calls[..|calls|] == calls;
    }
  }

  /** From any prefix of a run to the whole of it, no message's status moves backwards. */
  lemma {:induction false} StatusesAdvance(calls: seq<Call>, k: nat, m: Message)
    requires k <= |calls|
    ensures Rank(StatusOf(m, Run(START, calls[..k]).row)) <= Rank(StatusOf(m, Run(START, calls).row))
    decreases |calls|
  {
    if k < |calls| {
      var n := |calls| - 1;
      StatusesAdvance(calls[..n], k, m);
      assert calls[..n][..k] == calls[..k];
      var cleared := RunKeepsLaws(calls[..n]);
      var after := ApplyKeepsLaws(Run(START, calls[..n]), calls[n], cleared);
      StatusNeverGoesBack(m, Run(START, calls[..n]).row, Run(START, calls).row);
    } else {
      assert calls[..k] == calls;
    }
  }

  /** Closing clears the staff counter without moving the staff read pointer. */
  lemma ClosingForgetsUnread()
    ensures var s := Run(START, [Post(FromCustomer, None, 0), Post(Closing, None, 0)]);
            s.row.staffUnread == 0 && Above(s.log, FOR_STAFF, s.row.staffRead) == 1
  {
    var calls := [Post(FromCustomer, None, 0), Post(Closing, None, 0)];
    assert calls[..1] == [Post(FromCustomer, None, 0)] && [Post(FromCustomer, None, 0)][..0] == [];
    assert Run(START, []) == START;
    assert Run(START, [Post(FromCustomer, None, 0)]) == Apply(START, Post(FromCustomer, None, 0));
    var a, b := Message(1, FromCustomer, None), Message(2, Closing, None);
    AboveSnoc([], a, FOR_STAFF, 0);
    AboveSnoc([a], b, FOR_STAFF, 0);
    assert [] + [a] == [a];
  }

  // --------------------------------------------------- inserts and late updates

  /** Concurrent posts: a message gets its id first, its row update comes whenever it gets the row lock. */
  datatype Event = Update(kind: Kind, id: nat) | Other(call: Call)

  function Happened(p: Pointers, e: Event): Pointers {
    match e
    case Update(kind, id) => Posted(p, kind, id)
    case Other(Post(_, _, _)) => p
    case Other(c) => Apply(State(p, [], 0), c).row
  }

  function Interleaved(p: Pointers, events: seq<Event>): Pointers {
    if events == [] then p else Happened(Interleaved(p, events[..|events| - 1]), events[|events| - 1])
  }

  /** Whatever the order of the updates, read never passes delivered. */
  lemma {:induction false} ReadWithinDelivered(p: Pointers, events: seq<Event>)
    requires p.customerRead <= p.customerDelivered && p.staffRead <= p.staffDelivered
    ensures var q := Interleaved(p, events); q.customerRead <= q.customerDelivered && q.staffRead <= q.staffDelivered
    decreases |events|
  {
    if events != [] { ReadWithinDelivered(p, events[..|events| - 1]); }
  }

  predicate Ordered(p: Pointers) {
    && p.customerRead <= p.customerDelivered <= p.last
    && p.staffRead <= p.staffDelivered <= p.last
  }

  /** An update does not come after that of a later message. */
  predicate InTime(p: Pointers, e: Event) { e.Update? && !Silent(e.kind) ==> p.last <= e.id }

  /** From pointers in order, exactly an update in time moves none of them back, and it leaves them in order. */
  lemma ForwardExactly(p: Pointers, e: Event)
    requires Ordered(p)
    ensures Forward(p, Happened(p, e)) <==> InTime(p, e)
    ensures InTime(p, e) ==> Ordered(Happened(p, e))
  {
  }

  /**
   * Over every interleaving: no pointer ever moves back if and only if every
   * update comes in time, that is, the row locks are taken in the order of the ids.
   */
  lemma PointersAdvanceExactly(p: Pointers, events: seq<Event>)
    requires Ordered(p)
    ensures (forall k: nat, l: nat :: k <= l <= |events| ==> Forward(After(p, events, k), After(p, events, l))) <==>
            (forall k: nat :: k < |events| ==> InTime(After(p, events, k), events[k]))
  {
    if forall k: nat :: k < |events| ==> InTime(After(p, events, k), events[k]) {
      forall k: nat, l: nat | k <= l <= |events| ensures Forward(After(p, events, k), After(p, events, l)) {
        InTimeIsForward(p, events, k, l);
      }
    } else {
      var k := FirstLate(p, events);
      InTimeIsForward(p, events[..k], 0, k);
      assert events[..k][..k] == events[..k];
      OneMore(p, events, k);
      ForwardExactly(After(p, events, k), events[k]);
      assert !Forward(After(p, events, k), After(p, events, k + 1));
    }
  }

  function After(p: Pointers, events: seq<Event>, k: nat): Pointers
    requires k <= |events|
  {
    Interleaved(p, events[..k])
  }

  lemma OneMore(p: Pointers, events: seq<Event>, k: nat)
    requires k < |events|
    ensures After(p, events, k + 1) == Happened(After(p, events, k), events[k])
  {
    assert events[..k + 1][..k] == events[..k];
  }

  lemma {:induction false} InTimeIsForward(p: Pointers, events: seq<Event>, k: nat, l: nat)
    requires Ordered(p) && k <= l <= |events|
    requires forall i: nat :: i < l ==> InTime(After(p, events, i), events[i])
    ensures Ordered(After(p, events, l)) && Forward(After(p, events, k), After(p, events, l))
    decreases l
  {
    if l > 0 {
      InTimeIsForward(p, events, if k < l then k else l - 1, l - 1);
      OneMore(p, events, l - 1);
      ForwardExactly(After(p, events, l - 1), events[l - 1]);
    } else {
      assert events[..0] == [];
    }
  }

  lemma FirstLate(p: Pointers, events: seq<Event>) returns (k: nat)
    requires exists i: nat :: i < |events| && !InTime(After(p, events, i), events[i])
    ensures k < |events| && !InTime(After(p, events, k), events[k])
    ensures forall i: nat :: i < k ==> InTime(After(p, events[..k], i), events[..k][i])
  {
    k := 0;
    while InTime(After(p, events, k), events[k])
      invariant k < |events| && forall i: nat :: i < k ==> InTime(After(p, events, i), events[i])
      decreases |events| - k
    {
      k := k + 1;
    }
    forall i: nat | i < k ensures InTime(After(p, events[..k], i), events[..k][i]) {
      assert events[..k][..i] == events[..i];
    }
  }

  /** So statuses only advance in a run whose updates come in time. */
  lemma InTimeStatusesAdvance(p: Pointers, events: seq<Event>, k: nat, m: Message)
    requires Ordered(p) && k <= |events|
    requires forall i: nat :: i < |events| ==> InTime(After(p, events, i), events[i])
    ensures Rank(StatusOf(m, After(p, events, k))) <= Rank(StatusOf(m, Interleaved(p, events)))
  {
    InTimeIsForward(p, events, k, |events|);
    assert events[..|events|] == events;
    StatusNeverGoesBack(m, After(p, events, k), Interleaved(p, events));
  }

  /** What the side that posts has been shown so far. */
  function OwnDelivered(p: Pointers, kind: Kind): nat {
    match kind
    case FromCustomer => p.customerDelivered
    case FromStaff => p.staffDelivered
    case _ => 0
  }

  /** The pointers the update sets are those that the status of the message is read from. */
  predicate Concerns(kind: Kind, m: Message) {
    (kind == FromCustomer && m.kind != FromCustomer) || (kind == FromStaff && m.kind == FromCustomer)
  }

  /**
   * A single update takes the status of no stored message back exactly when no
   * message of the other side lies above the id of the update and has been shown
   * to the side that posts.
   */
  lemma UpdateKeepsStatusesExactly(log: seq<Message>, p: Pointers, kind: Kind, id: nat)
    requires p.customerRead <= p.customerDelivered && p.staffRead <= p.staffDelivered
    ensures (forall m :: m in log ==> Rank(StatusOf(m, p)) <= Rank(StatusOf(m, Posted(p, kind, id)))) <==>
            (forall m :: m in log && Concerns(kind, m) ==> !(id < m.id <= OwnDelivered(p, kind)))
  {
    forall m ensures Rank(StatusOf(m, p)) <= Rank(StatusOf(m, Posted(p, kind, id))) <==>
                     !(Concerns(kind, m) && id < m.id <= OwnDelivered(p, kind)) {
    }
  }

  /** But delivered can pass the last message, and a status can move backwards. */
  lemma LateUpdateMovesBack()
    ensures var posts := [Update(FromStaff, 5), Update(FromCustomer, 6), Update(FromCustomer, 4)];
            var staffMessage := Message(5, FromStaff, None);
            && StatusOf(staffMessage, Interleaved(FRESH, posts[..2])) == Read
            && StatusOf(staffMessage, Interleaved(FRESH, posts)) == Sent
            && Interleaved(FRESH, posts).last < Interleaved(FRESH, posts).staffRead
  {
    var posts := [Update(FromStaff, 5), Update(FromCustomer, 6), Update(FromCustomer, 4)];
    assert posts[..2][..1][..0] == [] && posts[..2][..1] == [posts[0]];
    var p1 := StaffPosted(FRESH, 5);
    assert Interleaved(FRESH, posts[..2][..1]) == p1;
    var p2 := CustomerPosted(p1, 6);
    assert Interleaved(FRESH, posts[..2]) == p2;
    assert Interleaved(FRESH, posts) == CustomerPosted(p2, 4);
  }
}
