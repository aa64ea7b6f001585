/** Properties of the ticket lock that relate several operations: the
    head-of-queue serving rule, numbering and its restart at 0, release,
    lazy expiry, and the sortedness invariant over any run of calls. */
module LockProperties {
  import opened Lists
  import opened Tickets
  import opened Lock

  // ---------------------------------------------------------------------
  // Serving rule

  /** At most one number is unlocked at a given instant. */
  lemma UnlockedNumberIsUnique(l: TicketLock, now: int, a: int, b: int)
    requires !IsLocked(l, now, a).value && !IsLocked(l, now, b).value
    ensures a == b
  {
  }

  /** A live ticket may proceed exactly when it is at the head of the purged
      queue; every ticket behind it waits for a smaller number. */
  lemma LiveTicketServedIffHead(l: TicketLock, now: int, t: Ticket)
    requires Valid(l) && t in l.tickets && !HasExpired(t, now)
    ensures var live := Survivors(l.tickets, now);
      live != [] && (!IsLocked(l, now, t.number).value <==> t == live[0])
    ensures IsLocked(l, now, t.number).value ==> NowServing(l, now).value < t.number
  {
    var live := Survivors(l.tickets, now);
    SurvivorsAscending(l.tickets, now);
    SurvivorsMembers(l.tickets, now);
    assert t in live;
    if t.number == live[0].number {
      AscendingNumbersIdentify(live, t, live[0]);
    }
  }

  /** An expired ticket's holder stays locked out, except that number 0 is
      let through once the queue has drained, because 0 is also the
      empty-queue sentinel of `now_serving`. */
  lemma PurgedTicketLockedUnlessDrained(l: TicketLock, now: int, t: Ticket)
    requires Valid(l) && t in l.tickets && HasExpired(t, now)
    ensures IsLocked(l, now, t.number).value <==> Survivors(l.tickets, now) != [] || t.number != 0
  {
    var live := Survivors(l.tickets, now);
    SurvivorsMembers(l.tickets, now);
    if live != [] {
      var head := live[0];
      assert head in l.tickets && !HasExpired(head, now);
      if head.number == t.number {
        AscendingNumbersIdentify(l.tickets, head, t);
      }
    }
  }

  /** A drained queue serves the sentinel 0 and reports -1 as last issued. */
  lemma DrainedQueueSentinels(l: TicketLock, now: int)
    requires forall t :: t in l.tickets ==> HasExpired(t, now)
    ensures NowServing(l, now).value == 0
    ensures LastIssued(l, now).value == -1
    ensures !IsLocked(l, now, 0).value
    ensures IssueTicket(l, now, 0).value == 0
  {
    SurvivorsEmpty(l.tickets, now);
  }

  // ---------------------------------------------------------------------
  // Issuing

  /** The issued ticket may proceed at once exactly when the queue had
      drained. */
  lemma IssuedTicketServedIffDrained(l: TicketLock, now: int, lifetime: int)
    requires Valid(l) && lifetime >= 0
    ensures var st := IssueTicket(l, now, lifetime);
      !IsLocked(st.lock, now, st.value).value <==> Survivors(l.tickets, now) == []
  {
    var live := Survivors(l.tickets, now);
    var st := IssueTicket(l, now, lifetime);
    var issued := Ticket(st.value, now + lifetime);
    SurvivorsAppend(live, [issued], now);
    SurvivorsIdempotent(l.tickets, now);
    assert Survivors([issued], now) == [issued] by {
      assert [issued][1..] == [];
    }
    if live != [] {
      assert live[0] in live;
    }
  }

  /** A ticket issued with a negative lifetime is already gone for the next
      operation at the same clock reading, which sees the queue as before. */
  lemma NegativeLifetimeExpiresAtOnce(l: TicketLock, now: int, lifetime: int)
    requires Valid(l) && lifetime < 0
    ensures var st := IssueTicket(l, now, lifetime);
      && HasLockExpired(st.lock, now, st.value).value
      && Survivors(st.lock.tickets, now) == Survivors(l.tickets, now)
  {
    var live := Survivors(l.tickets, now);
    var st := IssueTicket(l, now, lifetime);
    var issued := Ticket(st.value, now + lifetime);
    SurvivorsAppend(live, [issued], now);
    SurvivorsIdempotent(l.tickets, now);
    assert Survivors([issued], now) == [] by {
      assert [issued][1..] == [];
    }
    assert live + [] == live;
  }

  /** In a valid queue the issued number exceeds every live ticket's
      number. */
  lemma IssuedNumberExceedsLive(l: TicketLock, now: int, lifetime: int)
    requires Valid(l)
    ensures forall t :: t in l.tickets && !HasExpired(t, now) ==> t.number < IssueTicket(l, now, lifetime).value
  {
    var live := Survivors(l.tickets, now);
    SurvivorsMembers(l.tickets, now);
    SurvivorsAscending(l.tickets, now);
    forall t | t in l.tickets && !HasExpired(t, now)
      ensures t.number < IssueTicket(l, now, lifetime).value
    {
      var k :| 0 <= k < |live| && live[k] == t;
      assert live[k].number <= live[|live| - 1].number;
    }
  }

  /** While the previous ticket is still live, the next one issued carries
      the following number. */
  lemma NextIssueFollows(l: TicketLock, now: int, lifetime: int, later: int, lifetime': int)
    requires later <= now + lifetime
    ensures var first := IssueTicket(l, now, lifetime);
      IssueTicket(first.lock, later, lifetime').value == first.value + 1
  {
    var first := IssueTicket(l, now, lifetime);
    var issued := Ticket(first.value, now + lifetime);
    SurvivorsAppend(Survivors(l.tickets, now), [issued], later);
    assert Survivors([issued], later) == [issued] by {
      assert [issued][1..] == [];
    }
  }

  /** Numbers are reused: once every ticket has expired, numbering restarts
      at 0 even though 0 and 1 were handed out before. */
  lemma NumbersRestartAfterDrain()
    ensures var a := IssueTicket(NewLock("conversation"), 0, 10);
      var b := IssueTicket(a.lock, 0, 10);
      var c := IssueTicket(b.lock, 11, 10);
      a.value == 0 && b.value == 1 && c.value == 0
  {
    var a := IssueTicket(NewLock("conversation"), 0, 10);
    var b := IssueTicket(a.lock, 0, 10);
    assert b.lock.tickets == [Ticket(0, 10), Ticket(1, 10)];
    SurvivorsEmpty(b.lock.tickets, 11);
  }

  // ---------------------------------------------------------------------
  // Releasing

  /** Removal deletes the first live ticket numbered `n` and nothing else. */
  lemma RemoveDeletesFirstMatch(l: TicketLock, now: int, n: int, i: nat)
    requires var live := Survivors(l.tickets, now);
      i < |live| && live[i].number == n && forall j :: 0 <= j < i ==> live[j].number != n
    ensures var live := Survivors(l.tickets, now);
      RemoveTicketForNumber(l, now, n).tickets == live[..i] + live[i + 1..]
  {
    var live := Survivors(l.tickets, now);
    assert live[i] in live;
    var found := FirstWithNumber(live, n);
    assert found.Some?;
    var k := IndexOf(live, found.value);
    assert live[k].number == n;
    assert k == i;
    assert RemoveFirst(live, found.value) == live[..i] + live[i + 1..];
  }

  /** In a valid queue removal leaves exactly the live tickets with other
      numbers. */
  lemma RemoveLeavesOtherNumbers(l: TicketLock, now: int, n: int)
    requires Valid(l)
    ensures var r := RemoveTicketForNumber(l, now, n);
      forall t :: t in r.tickets <==> t in Survivors(l.tickets, now) && t.number != n
  {
    var live := Survivors(l.tickets, now);
    var r := RemoveTicketForNumber(l, now, n);
    SurvivorsAscending(l.tickets, now);
    var found := FirstWithNumber(live, n);
    if found.Some? {
      var k := IndexOf(live, found.value);
      assert r.tickets == live[..k] + live[k + 1..];
      forall t
        ensures t in r.tickets <==> t in live && t.number != n
      {
        DeleteAtAscending(live, k, t);
      }
    }
  }

  /** Removing a number twice has the effect of removing it once. */
  lemma RemoveIdempotent(l: TicketLock, now: int, n: int)
    requires Valid(l)
    ensures var once := RemoveTicketForNumber(l, now, n);
      RemoveTicketForNumber(once, now, n) == once
  {
    var once := RemoveTicketForNumber(l, now, n);
    RemoveLeavesOtherNumbers(l, now, n);
    SurvivorsOfLive(once.tickets, now);
  }

  /** Idempotence needs unique numbers: with two live tickets numbered 0, a
      second removal deletes the second one. */
  lemma RemoveTwiceWithDuplicateNumbers()
    ensures var l := TicketLock("conversation", [Ticket(0, 10), Ticket(0, 20)]);
      var once := RemoveTicketForNumber(l, 0, 0);
      once.tickets == [Ticket(0, 20)] && RemoveTicketForNumber(once, 0, 0).tickets == []
  {
    var l := TicketLock("conversation", [Ticket(0, 10), Ticket(0, 20)]);
    SurvivorsOfLive(l.tickets, 0);
    RemoveDeletesFirstMatch(l, 0, 0, 0);
    var once := RemoveTicketForNumber(l, 0, 0);
    assert once.tickets == [Ticket(0, 20)];
    SurvivorsOfLive(once.tickets, 0);
    RemoveDeletesFirstMatch(once, 0, 0, 0);
  }

  /** Once removed, a number reports its lock as expired. */
  lemma RemovedNumberReportsExpired(l: TicketLock, now: int, n: int)
    requires Valid(l)
    ensures HasLockExpired(RemoveTicketForNumber(l, now, n), now, n).value
  {
    RemoveLeavesOtherNumbers(l, now, n);
  }

  /** Releasing the head lets the next live ticket proceed. */
  lemma ReleasingHeadServesNext(l: TicketLock, now: int)
    requires Valid(l) && |Survivors(l.tickets, now)| >= 2
    ensures var live := Survivors(l.tickets, now);
      !IsLocked(RemoveTicketForNumber(l, now, live[0].number), now, live[1].number).value
  {
    var live := Survivors(l.tickets, now);
    RemoveDeletesFirstMatch(l, now, live[0].number, 0);
    var r := RemoveTicketForNumber(l, now, live[0].number);
    assert r.tickets == live[1..];
    assert forall t :: t in r.tickets ==> t in live;
    SurvivorsOfLive(r.tickets, now);
  }

  // ---------------------------------------------------------------------
  // Waiting and expiry

  /** `is_someone_waiting` after a cleanup answers whether a live ticket
      exists. */
  lemma WaitingAfterCleanup(l: TicketLock, now: int)
    ensures IsSomeoneWaiting(RemoveExpiredTickets(l, now)) <==> exists t :: t in l.tickets && !HasExpired(t, now)
  {
    var live := RemoveExpiredTickets(l, now).tickets;
    if live != [] {
      assert live[0] in live;
    }
  }

  /** Without a cleanup, `is_someone_waiting` reports a queue whose only
      ticket has expired. */
  lemma WaitingIgnoresExpiry()
    ensures var l := TicketLock("conversation", [Ticket(0, 5)]);
      IsSomeoneWaiting(l) && !IsSomeoneWaiting(RemoveExpiredTickets(l, 6))
  {
    var l := TicketLock("conversation", [Ticket(0, 5)]);
    assert Survivors(l.tickets, 6) == Survivors([], 6);
  }

  /** Issuing always leaves someone waiting. */
  lemma IssueMakesSomeoneWait(l: TicketLock, now: int, lifetime: int)
    ensures IsSomeoneWaiting(IssueTicket(l, now, lifetime).lock)
  {
  }

  /** A ticket with lifetime 0 is still live at the instant of issue and
      gone one tick later; number 0 is then unlocked again, as the
      empty-queue sentinel. */
  lemma ZeroLifetimeTicket()
    ensures var a := IssueTicket(NewLock("conversation"), 0, 0);
      && a.value == 0
      && !HasLockExpired(a.lock, 0, 0).value
      && HasLockExpired(a.lock, 1, 0).value
      && NowServing(a.lock, 1).value == 0
      && !IsLocked(a.lock, 1, 0).value
  {
    var a := IssueTicket(NewLock("conversation"), 0, 0);
    assert a.lock.tickets == [Ticket(0, 0)];
    assert Survivors(a.lock.tickets, 1) == Survivors([], 1);
  }

  /** The scenario of two callers: the first ticket is served at once, the
      second waits until the first is released. */
  lemma TwoCallerScenario()
    ensures var a := IssueTicket(NewLock("conversation"), 0, 60);
      var b := IssueTicket(a.lock, 1, 60);
      var released := RemoveTicketForNumber(b.lock, 2, 0);
      && a.value == 0 && !IsLocked(a.lock, 1, 0).value
      && b.value == 1 && IsLocked(b.lock, 2, 1).value
      && !IsLocked(released, 3, 1).value
  {
    var first := TicketLock("conversation", [Ticket(0, 60)]);
    var both := TicketLock("conversation", [Ticket(0, 60), Ticket(1, 61)]);
    var second := TicketLock("conversation", [Ticket(1, 61)]);
    ScenarioIssueFirst();
    ScenarioIssueSecond();
    ScenarioRelease();
    SurvivorsOfLive(first.tickets, 1);
    SurvivorsOfLive(both.tickets, 2);
    SurvivorsOfLive(second.tickets, 3);
  }

  lemma ScenarioIssueFirst()
    ensures IssueTicket(NewLock("conversation"), 0, 60) == Step(TicketLock("conversation", [Ticket(0, 60)]), 0)
  {
  }

  lemma ScenarioIssueSecond()
    ensures IssueTicket(TicketLock("conversation", [Ticket(0, 60)]), 1, 60)
         == Step(TicketLock("conversation", [Ticket(0, 60), Ticket(1, 61)]), 1)
  {
    SurvivorsOfLive([Ticket(0, 60)], 1);
  }

  lemma ScenarioRelease()
    ensures RemoveTicketForNumber(TicketLock("conversation", [Ticket(0, 60), Ticket(1, 61)]), 2, 0)
         == TicketLock("conversation", [Ticket(1, 61)])
  {
    var both := TicketLock("conversation", [Ticket(0, 60), Ticket(1, 61)]);
    SurvivorsOfLive(both.tickets, 2);
    RemoveDeletesFirstMatch(both, 2, 0, 0);
    assert both.tickets[1..] == [Ticket(1, 61)];
  }

  // ---------------------------------------------------------------------
  // The `_ticket_number_for_index` guard

  /** The guard as written raises on a one-ticket queue at index 1, where
      the documented behaviour is `None`. */
  lemma IndexGuardOffByOne()
    ensures var l := TicketLock("conversation", [Ticket(0, 10)]);
      && TicketNumberForIndexAsWritten(l, 0, 1).value == Raised
      && TicketNumberForIndex(l, 0, 1).value == None
  {
    var l := TicketLock("conversation", [Ticket(0, 10)]);
    SurvivorsOfLive(l.tickets, 0);
  }

  /** Apart from that one index, the guard as written agrees with the
      corrected lookup; in particular at the indices 0 and -1 the lock uses. */
  lemma IndexGuardAgreesElsewhere(l: TicketLock, now: int, idx: int)
    ensures var w := TicketNumberForIndexAsWritten(l, now, idx).value;
      var c := TicketNumberForIndex(l, now, idx).value;
      && (!w.Raised? ==> (w.Number? <==> c.Some?) && (w.Number? ==> c == Some(w.number)))
      && (idx == 0 || idx == -1 ==> !w.Raised?)
  {
  }

  // ---------------------------------------------------------------------
  // The invariant over any run

  /** One call on the lock, with the clock reading it sees. */
  datatype Op =
    | Issue(lifetime: int)
    | Cleanup
    | AskLastIssued
    | AskNowServing
    | AskIsLocked(n: int)
    | AskIsSomeoneWaiting
    | Remove(n: int)
    | AskHasLockExpired(n: int)

  datatype Call = Call(now: int, op: Op)

  /** The lock a call leaves behind. */
  function Apply(l: TicketLock, c: Call): (r: TicketLock)
    ensures r.conversationId == l.conversationId
    ensures Valid(l) ==> Valid(r)
  {
    match c.op
    case Issue(lifetime) => IssueTicket(l, c.now, lifetime).lock
    case Cleanup => RemoveExpiredTickets(l, c.now)
    case AskLastIssued => LastIssued(l, c.now).lock
    case AskNowServing => NowServing(l, c.now).lock
    case AskIsLocked(n) => IsLocked(l, c.now, n).lock
    case AskIsSomeoneWaiting => l
    case Remove(n) => RemoveTicketForNumber(l, c.now, n)
    case AskHasLockExpired(n) => HasLockExpired(l, c.now, n).lock
  }

  /** The lock left by a sequence of calls. */
  function Run(l: TicketLock, calls: seq<Call>): TicketLock
    decreases |calls|
  {
    if calls == [] then l else Run(Apply(l, calls[0]), calls[1..])
  }

  /** Ticket numbers stay sorted and unique under any sequence of calls. */
  lemma {:induction false} RunPreservesValid(l: TicketLock, calls: seq<Call>)
    requires Valid(l)
    ensures Valid(Run(l, calls))
    decreases |calls|
  {
    if calls != [] {
      RunPreservesValid(Apply(l, calls[0]), calls[1..]);
    }
  }
}
