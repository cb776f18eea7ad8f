/**
 * What each call of a conversation shows: to whom which message counts as sent,
 * delivered or read, and what the unread counters say. The pointers behind it are
 * named nowhere.
 */
module ChatLaws {
  import opened Common
  import opened ChatPointers

  /** Every message of the other side up to `id` has this status, all others have the status they had. */
  ghost predicate Shown(p: Pointers, q: Pointers, toCustomer: bool, id: nat, status: DeliveryStatus) {
    forall m: Message ::
      StatusOf(m, q) == if (m.kind != FromCustomer) == toCustomer && m.id <= id && Rank(StatusOf(m, p)) < Rank(status)
                        then status else StatusOf(m, p)
  }

  /**
   * A post of the customer, the staff or the system. Who writes has read everything
   * so far, and the other side has one more unread; a farewell takes the staff's
   * unread away and is unread for the customer; what is stored silently shows nothing.
   */
  lemma PostShows(s: State, kind: Kind, key: Option<string>, skipped: nat)
    requires Ordered(s.row) && s.row.last < s.nextId
    ensures var after, id := Apply(s, Post(kind, key, skipped)), s.nextId + skipped;
            var p, q := s.row, after.row;
            if Retried(s.log, kind, key) then after == s
            else
              && after.log == s.log + [Message(id, kind, key)] && after.nextId == id + 1
              && match kind
                 case FromCustomer =>
                   && q.last == id && q.customerUnread == 0 && q.staffUnread == p.staffUnread + 1
                   && Shown(p, q, true, id, Read)
                 case FromStaff =>
                   && q.last == id && q.staffUnread == 0 && q.customerUnread == p.customerUnread + 1
                   && Shown(p, q, false, id, Read)
                 case Closing =>
                   && q.last == id && q.staffUnread == 0 && q.customerUnread == p.customerUnread + 1
                   && Shown(p, q, false, 0, Sent)
                 case _ => q == p
  {
    hide Retried;
  }

  /** Coming by delivers, reading reads; up to the last message, to one side only, and no other counter changes. */
  lemma PointerCallShows(s: State, c: Call)
    requires Ordered(s.row) && !c.Post?
    ensures var after := Apply(s, c);
            var p, q := s.row, after.row;
            && after.log == s.log && after.nextId == s.nextId && q.last == p.last
            && q.customerUnread == (if c == CustomerReads then 0 else p.customerUnread)
            && q.staffUnread == (if c == StaffReads then 0 else p.staffUnread)
            && match c
               case Touch => Shown(p, q, true, p.last, Delivered)
               case CustomerReads => Shown(p, q, true, p.last, Read)
               case StaffGets => Shown(p, q, false, p.last, Delivered)
               case StaffReads => Shown(p, q, false, p.last, Read)
  {
  }

  /** Pointers that show the same are the same, as long as read stays within delivered: nothing else is kept of them. */
  lemma ShownDetermines(p: Pointers, q: Pointers)
    requires Ordered(p) && Ordered(q) && p.last == q.last
    requires p.customerUnread == q.customerUnread && p.staffUnread == q.staffUnread
    requires forall m: Message :: StatusOf(m, p) == StatusOf(m, q)
    ensures p == q
  {
    SameStatus(p, q, FromStaff, p.customerDelivered, q.customerDelivered);
    SameStatus(p, q, FromStaff, p.customerRead, q.customerRead);
    SameStatus(p, q, FromCustomer, p.staffDelivered, q.staffDelivered);
    SameStatus(p, q, FromCustomer, p.staffRead, q.staffRead);
  }

  lemma SameStatus(p: Pointers, q: Pointers, kind: Kind, i: nat, j: nat)
    requires forall m: Message :: StatusOf(m, p) == StatusOf(m, q)
    ensures StatusOf(Message(i, kind, None), p) == StatusOf(Message(i, kind, None), q)
    ensures StatusOf(Message(j, kind, None), p) == StatusOf(Message(j, kind, None), q)
  {
  }

  /**
   * A post is a retry exactly when its side has stored a message with the same client id: notes count as
   * the staff's.
   */
  lemma RetriedExactly(log: seq<Message>, kind: Kind, key: Option<string>)
    ensures Retried(log, kind, key) <==>
              && key.Some?
              && exists m :: m in log && m.clientKey == key && match kind
                 case FromCustomer => m.kind == FromCustomer
                 case FromStaff => m.kind in {FromStaff, Note}
                 case Note => m.kind in {FromStaff, Note}
                 case _ => m.kind in {Notice, AutoReply, Closing}
  {
  }
}
