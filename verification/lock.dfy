/** `TicketLock`: the FIFO ticket queue that decides which caller may work on
    a conversation. Every operation is a pure function of the lock, one
    clock reading `now` and its arguments. Every query except
    `IsSomeoneWaiting` purges expired tickets first, so it returns the lock
    it leaves behind together with its answer. */
module Lock {
  import opened Lists
  import opened Tickets

  /** The lock of one conversation; `conversationId` is a label only. */
  datatype TicketLock = TicketLock(conversationId: string, tickets: seq<Ticket>)

  /** An answer together with the lock the operation leaves behind. */
  datatype Step<T> = Step(lock: TicketLock, value: T)

  /** The queue invariant: ticket numbers ascend strictly from head to tail. */
  predicate Valid(l: TicketLock) {
    Ascending(l.tickets)
  }

  /** A lock created without an initial ticket list. */
  function NewLock(conversationId: string): (l: TicketLock)
    ensures Valid(l) && !IsSomeoneWaiting(l)
    ensures forall now, n :: HasLockExpired(l, now, n).value && IsLocked(l, now, n).value == (n != 0)
  {
    TicketLock(conversationId, [])
  }

  /** `remove_expired_tickets`: drops exactly the expired tickets and keeps
      the rest in order. */
  function RemoveExpiredTickets(l: TicketLock, now: int): (r: TicketLock)
    ensures r.conversationId == l.conversationId
    ensures forall t :: t in r.tickets <==> t in l.tickets && !HasExpired(t, now)
    ensures Valid(l) ==> Valid(r)
  {
    SurvivorsAscending(l.tickets, now);
    SurvivorsMembers(l.tickets, now);
    l.(tickets := Survivors(l.tickets, now))
  }

  /** What `_ticket_number_for_index` can produce as written: a number,
      `None`, or an IndexError escaping from the list subscript. */
  datatype IndexLookup = Number(number: int) | NoNumber | Raised

  /** `_ticket_number_for_index` as written. Its guard `len < abs(idx)` lets
      `idx == len` through on a non-empty queue, where the subscript
      raises. */
  function TicketNumberForIndexAsWritten(l: TicketLock, now: int, idx: int): (r: Step<IndexLookup>)
    ensures r.lock == RemoveExpiredTickets(l, now)
    ensures r.value.Raised? <==> |r.lock.tickets| > 0 && idx == |r.lock.tickets|
  {
    var cleaned := RemoveExpiredTickets(l, now);
    var s := cleaned.tickets;
    if s == [] || |s| < Abs(idx) then Step(cleaned, NoNumber)
    else
      match PySubscript(s, idx)
      case At(t) => Step(cleaned, Number(t.number))
      case IndexError => Step(cleaned, Raised)
  }

  /** `_ticket_number_for_index` as its documentation describes it: the
      number at Python index `idx` after cleanup, or `None` when the queue
      is empty or `idx` is out of bounds. */
  function TicketNumberForIndex(l: TicketLock, now: int, idx: int): (r: Step<Option<int>>)
    ensures r.lock == RemoveExpiredTickets(l, now)
    ensures r.value.Some? <==> -|r.lock.tickets| <= idx < |r.lock.tickets|
    ensures 0 <= idx < |r.lock.tickets| ==> r.value == Some(r.lock.tickets[idx].number)
    ensures -|r.lock.tickets| <= idx < 0 ==> r.value == Some(r.lock.tickets[|r.lock.tickets| + idx].number)
  {
    var cleaned := RemoveExpiredTickets(l, now);
    match PySubscript(cleaned.tickets, idx)
    case At(t) => Step(cleaned, Some(t.number))
    case IndexError => Step(cleaned, None)
  }

  /** `last_issued`: the tail's number after cleanup, or -1. */
  function LastIssued(l: TicketLock, now: int): (r: Step<int>)
    ensures r.lock == RemoveExpiredTickets(l, now)
    ensures r.lock.tickets == [] ==> r.value == -1
    ensures r.lock.tickets != [] ==> r.value == r.lock.tickets[|r.lock.tickets| - 1].number
    ensures Valid(l) ==> forall t :: t in l.tickets && !HasExpired(t, now) ==> t.number <= r.value
  {
    var found := TicketNumberForIndex(l, now, -1);
    var s := found.lock.tickets;
    assert Valid(l) ==> forall k :: 0 <= k < |s| ==> s[k].number <= s[|s| - 1].number;
    Step(found.lock, match found.value case Some(n) => n case None => -1)
  }

  /** `now_serving`: the head's number after cleanup, or 0. */
  function NowServing(l: TicketLock, now: int): (r: Step<int>)
    ensures r.lock == RemoveExpiredTickets(l, now)
    ensures r.lock.tickets == [] ==> r.value == 0
    ensures r.lock.tickets != [] ==> r.value == r.lock.tickets[0].number
    ensures Valid(l) ==> forall t :: t in l.tickets && !HasExpired(t, now) ==> r.value <= t.number
  {
    var found := TicketNumberForIndex(l, now, 0);
    var s := found.lock.tickets;
    assert Valid(l) ==> forall k :: 0 <= k < |s| ==> s[0].number <= s[k].number;
    Step(found.lock, match found.value case Some(n) => n case None => 0)
  }

  /** `is_locked`: ticket `n` must wait unless it is the number now served. */
  function IsLocked(l: TicketLock, now: int, n: int): (r: Step<bool>)
    ensures r.lock == RemoveExpiredTickets(l, now)
    ensures !r.value <==> if r.lock.tickets == [] then n == 0 else n == r.lock.tickets[0].number
  {
    var serving := NowServing(l, now);
    Step(serving.lock, serving.value != n)
  }

  /** `issue_ticket`: cleans up, then appends a ticket numbered one past the
      tail (0 on a drained queue) that expires `lifetime` after `now`. */
  function IssueTicket(l: TicketLock, now: int, lifetime: int): (r: Step<int>)
    ensures r.lock.conversationId == l.conversationId
    ensures r.lock.tickets == Survivors(l.tickets, now) + [Ticket(r.value, now + lifetime)]
    ensures Survivors(l.tickets, now) == [] ==> r.value == 0
    ensures Survivors(l.tickets, now) != [] ==> r.value == Survivors(l.tickets, now)[|Survivors(l.tickets, now)| - 1].number + 1
    ensures Valid(l) ==> Valid(r.lock)
  {
    var cleaned := RemoveExpiredTickets(l, now);
    var last := LastIssued(cleaned, now);
    SurvivorsIdempotent(l.tickets, now);
    var number := last.value + 1;
    var s := last.lock.tickets + [Ticket(number, now + lifetime)];
    if Valid(l) then
      AppendAboveTail(last.lock.tickets, Ticket(number, now + lifetime));
      Step(last.lock.(tickets := s), number)
    else
      Step(last.lock.(tickets := s), number)
  }

  /** `is_someone_waiting`: whether any ticket is queued, expired or not;
      it performs no cleanup. */
  function IsSomeoneWaiting(l: TicketLock): bool {
    |l.tickets| > 0
  }

  /** `_ticket_for_ticket_number`: the first live ticket numbered `n`. */
  function TicketForNumber(l: TicketLock, now: int, n: int): (r: Step<Option<Ticket>>)
    ensures r.lock == RemoveExpiredTickets(l, now)
    ensures r.value.None? <==> forall t :: t in l.tickets && !HasExpired(t, now) ==> t.number != n
    ensures r.value.Some? ==> r.value.value in l.tickets && !HasExpired(r.value.value, now)
    ensures r.value.Some? ==> r.value.value.number == n
  {
    var cleaned := RemoveExpiredTickets(l, now);
    Step(cleaned, FirstWithNumber(cleaned.tickets, n))
  }

  /** `remove_ticket_for_ticket_number`: cleans up, then deletes the first
      live ticket numbered `n`, if there is one. */
  function RemoveTicketForNumber(l: TicketLock, now: int, n: int): (r: TicketLock)
    ensures r.conversationId == l.conversationId
    ensures IsSubsequence(r.tickets, Survivors(l.tickets, now))
    ensures (forall t :: t in l.tickets && !HasExpired(t, now) ==> t.number != n) ==>
              r.tickets == Survivors(l.tickets, now)
    ensures Valid(l) ==> Valid(r)
  {
    var found := TicketForNumber(l, now, n);
    match found.value
    case Some(t) =>
      var s := RemoveFirst(found.lock.tickets, t);
      RemoveFirstIsSubsequence(found.lock.tickets, t);
      SubsequenceAscending(s, found.lock.tickets);
      found.lock.(tickets := s)
    case None =>
      SubsequenceReflexive(found.lock.tickets);
      found.lock
  }

  /** `has_lock_expired`: whether the ticket numbered `n` is gone. Both
      clock readings are the same `now`, so a ticket still found is never
      reported expired. */
  function HasLockExpired(l: TicketLock, now: int, n: int): (r: Step<bool>)
    ensures r.lock == RemoveExpiredTickets(l, now)
    ensures r.value <==> forall t :: t in l.tickets && t.number == n ==> HasExpired(t, now)
    ensures r.value <==> forall t :: t in r.lock.tickets ==> t.number != n
  {
    var found := TicketForNumber(l, now, n);
    match found.value
    case Some(t) => Step(found.lock, HasExpired(t, now))
    case None => Step(found.lock, true)
  }

  /** Removal deletes one live ticket numbered `n` when there is one, and
      every ticket with another number keeps its multiplicity. */
  lemma RemoveKeepsOtherTickets(l: TicketLock, now: int, n: int)
    ensures var live := Survivors(l.tickets, now);
      var r := RemoveTicketForNumber(l, now, n);
      && (forall t: Ticket :: t.number != n ==> multiset(r.tickets)[t] == multiset(live)[t])
      && ((exists t :: t in live && t.number == n) ==> |r.tickets| == |live| - 1)
  {
  }
}
