# Ticket lock model

This project models `TicketLock` from `rasa/core/lock.py`. It is the
per-conversation FIFO ticket queue that decides which caller may process a
conversation.

A caller takes a numbered ticket with `issue_ticket`. The ticket carries an
absolute expiry time. The caller may proceed once `is_locked` is false for its
number, which means its number is the one `now_serving` reports. It releases
the lock with `remove_ticket_for_ticket_number`.

Expiry is lazy. Every query except `is_someone_waiting` first purges the
expired tickets, so a crashed holder's ticket drops out as soon as someone
next looks at the lock.

The model is functional:

- A lock is an immutable `TicketLock(conversationId, tickets)`.
- Every operation is a pure function of the lock, one clock reading `now` and
  its arguments.
- An operation that mutates the Python object returns the lock it leaves
  behind. When it also answers something, it returns a `Step(lock, value)`.

Modules:

- `Lists` (`lists.dfy`) covers the Python list behaviour the code relies on:
  - `list.remove` deletes the first occurrence;
  - subscripts accept negative indices and raise IndexError out of range;
  - `abs`;
  - a subsequence relation, used to say that deleting elements keeps the order.
- `Tickets` (`tickets.dfy`) defines:
  - the `Ticket` record and its strict expiry test;
  - the cleanup pass, twice: as a reference filter (`Survivors`) and as the
    copy-and-remove loop the source runs (`RemoveExpiredInPlace`);
  - an independent description of a cleanup result (`IsCleanupOf`) and the
    proof that it has exactly one solution;
  - the sortedness invariant `Ascending`: ticket numbers strictly increase
    from head to tail.
- `Lock` (`lock.dfy`) has one function per method or property of
  `TicketLock`.
- `LockProperties` (`lock_properties.dfy`) holds the properties that relate
  several calls:
  - the head-of-queue serving rule;
  - numbering, and numbers restarting at 0;
  - release;
  - lazy expiry;
  - the fact that the invariant survives any sequence of calls (`Run`).

## Model

| member | source | states |
|---|---|---|
| `Tickets.SurvivorsMembers` | rasa/core/lock.py:57-63 | After a cleanup at `now`, a ticket is in the queue exactly when it was there before and has not expired. |
| `Tickets.CleanupCharacterization` | rasa/core/lock.py:57-63 | The cleanup result is the one sequence that keeps the original order and holds each unexpired ticket as often as the original does and no expired one. |
| `Tickets.RemoveExpiredInPlace` | rasa/core/lock.py:57-63 | The source's loop gives the same result as the reference filter. The loop walks a copy and calls `list.remove` on the working list for each expired ticket. |
| `Tickets.SurvivorsCompose` | rasa/core/lock.py:57-63 | Cleaning up at one reading and then at a later or equal one leaves what a single cleanup at the later reading leaves. |
| `Tickets.SurvivorsIdempotent` | rasa/core/lock.py:57-63 | At a fixed clock reading a second cleanup changes nothing. |
| `Tickets.SurvivorsAscending` | rasa/core/lock.py:57-63 | Cleanup keeps ticket numbers strictly ascending. |
| `Tickets.SurvivorsEmpty` | rasa/core/lock.py:57-63 | Cleanup empties the queue exactly when every ticket has expired. |
| `Tickets.FirstWithNumber` | rasa/core/lock.py:110 | The generator with default `None` gives `None` exactly when no ticket has the number. Otherwise it gives a queued ticket with that number, and no earlier ticket has it. |
| `Lists.RemoveFirst` | rasa/core/lock.py:128 | `list.remove` of a present element shortens the list by one and takes away exactly one copy of that element. |
| `Lock.NewLock` | rasa/core/lock.py:26-30 | A lock created without tickets is valid and has nobody waiting. For every number, at every reading, it reports the lock expired, and only number 0 is unlocked. |
| `Lock.RemoveExpiredTickets` | rasa/core/lock.py:57-63 | The purged lock keeps its conversation id and exactly the unexpired tickets, and keeps numbers ascending. |
| `Lock.TicketNumberForIndexAsWritten` | rasa/core/lock.py:91-103 | The guard as written lets the subscript raise exactly when the purged queue is non-empty and `idx` equals its length. |
| `Lock.TicketNumberForIndex` | rasa/core/lock.py:91-103 | The documented lookup. It finds a number exactly when `-len <= idx < len`. A non-negative index counts from the head and a negative one from the tail. |
| `Lock.LastIssued` | rasa/core/lock.py:65-76 | The result is -1 on a drained queue and otherwise the tail's number. In a valid queue it is at least the number of every live ticket. |
| `Lock.NowServing` | rasa/core/lock.py:78-89 | The result is 0 on a drained queue and otherwise the head's number. In a valid queue it is at most the number of every live ticket. |
| `Lock.IsLocked` | rasa/core/lock.py:38-45 | A number is unlocked exactly when it is the purged queue's head number, or 0 if the queue drained. |
| `Lock.IssueTicket` | rasa/core/lock.py:47-55 | The new queue is the survivors followed by one ticket that expires `lifetime` after `now`. Its number is 0 after a drain, otherwise one more than the last survivor's number. Issuing keeps numbers ascending. |
| `Lock.TicketForNumber` | rasa/core/lock.py:105-110 | The lookup gives `None` exactly when no live ticket has the number. Otherwise it gives a live queued ticket with that number. |
| `Lock.RemoveTicketForNumber` | rasa/core/lock.py:120-128 | The result keeps the order of the survivors and changes nothing when no live ticket has the number. It keeps numbers ascending. |
| `Lock.RemoveKeepsOtherTickets` | rasa/core/lock.py:120-128 | Removal leaves the multiplicity of every ticket with another number unchanged. It deletes exactly one ticket when a live one has the number. |
| `Lock.HasLockExpired` | rasa/core/lock.py:130-140 | The answer is true exactly when every ticket with the number has expired, which is exactly when none remains after the purge. |
| `LockProperties.UnlockedNumberIsUnique` | rasa/core/lock.py:38-45 | At one reading at most one number is unlocked. |
| `LockProperties.LiveTicketServedIffHead` | rasa/core/lock.py:38-45 | In a valid queue a live ticket is unlocked exactly when it heads the purged queue. A waiting ticket sees a smaller number being served. |
| `LockProperties.PurgedTicketLockedUnlessDrained` | rasa/core/lock.py:38-45 | An expired ticket stays locked, except number 0 once the whole queue has drained. |
| `LockProperties.DrainedQueueSentinels` | rasa/core/lock.py:65-89 | With every ticket expired: `now_serving` is 0, `last_issued` is -1, number 0 is unlocked, and the next ticket issued is 0. |
| `LockProperties.IssuedTicketServedIffDrained` | rasa/core/lock.py:47-55 | With a non-negative lifetime, a fresh ticket may proceed at once exactly when the queue had drained. |
| `LockProperties.NegativeLifetimeExpiresAtOnce` | rasa/core/lock.py:47-55 | A ticket issued with a negative lifetime is reported expired, and is purged by the next call at the same reading. |
| `LockProperties.IssuedNumberExceedsLive` | rasa/core/lock.py:47-55 | In a valid queue the issued number exceeds every live ticket's number. |
| `LockProperties.NextIssueFollows` | rasa/core/lock.py:47-55 | While the previous ticket is live, the next issue returns the previous number plus one. |
| `LockProperties.NumbersRestartAfterDrain` | rasa/core/lock.py:47-76 | Numbers are reused: issuing 0 and 1, then issuing again after both expired, returns 0. |
| `LockProperties.RemoveDeletesFirstMatch` | rasa/core/lock.py:120-128 | Removal deletes exactly the first live ticket with the number and keeps the rest in order. |
| `LockProperties.RemoveLeavesOtherNumbers` | rasa/core/lock.py:120-128 | In a valid queue removal leaves exactly the live tickets with other numbers. |
| `LockProperties.RemoveIdempotent` | rasa/core/lock.py:120-128 | In a valid queue removing a number twice has the effect of removing it once. |
| `LockProperties.RemoveTwiceWithDuplicateNumbers` | rasa/core/lock.py:120-128 | With two live tickets sharing a number, a second removal deletes the second one, so idempotence rests on unique numbers. |
| `LockProperties.RemovedNumberReportsExpired` | rasa/core/lock.py:120-140 | After its removal a number's lock reports expired. |
| `LockProperties.ReleasingHeadServesNext` | rasa/core/lock.py:38-45 | Releasing the head of a valid queue unlocks the next live ticket. |
| `LockProperties.WaitingAfterCleanup` | rasa/core/lock.py:112-118 | After a purge, `is_someone_waiting` holds exactly when some ticket is live. |
| `LockProperties.WaitingIgnoresExpiry` | rasa/core/lock.py:112-118 | Without a purge, `is_someone_waiting` counts an expired ticket. |
| `LockProperties.IssueMakesSomeoneWait` | rasa/core/lock.py:47-55 | After an issue someone is always waiting. |
| `LockProperties.ZeroLifetimeTicket` | rasa/core/lock.py:18-19 | Expiry is strict. A ticket with lifetime 0 is live at the reading it was issued and gone one tick later. Its number 0 is then unlocked as the empty-queue sentinel. |
| `LockProperties.TwoCallerScenario` | rasa/core/lock.py:38-128 | Two callers: the first is served at once, the second waits, and the second is served after the first releases. |
| `LockProperties.IndexGuardOffByOne` | rasa/core/lock.py:100-103 | On a one-ticket queue, index 1 raises IndexError as written, where the documented answer is `None`. |
| `LockProperties.IndexGuardAgreesElsewhere` | rasa/core/lock.py:91-103 | Where the guard as written does not raise, it agrees with the corrected lookup. It never raises at 0 or -1, the indices the lock uses. |
| `LockProperties.Apply` | rasa/core/lock.py:38-140 | Every operation keeps the conversation id and keeps ticket numbers ascending. |
| `LockProperties.RunPreservesValid` | rasa/core/lock.py:38-140 | Ticket numbers stay strictly ascending, and so unique, over any sequence of calls at any clock readings. |

## Left out

- The async context-manager hooks `__aenter__` and `__aexit__` do nothing and
  are not modelled. `__repr__` and the logger are not modelled either.
- The wall clock is not modelled. Each operation takes one integer reading
  `now`. The source reads `time.time()` several times within one call:
  - `issue_ticket` purges twice and computes the expiry;
  - `has_lock_expired` purges and then tests expiry.
- `Lock.HasLockExpired` treats both readings in `has_lock_expired` as the same
  instant. So a ticket the lookup still finds is never reported expired. With
  a real clock, that ticket could expire between the two readings.
- Timestamps and lifetimes are floats in the source and integers here. This
  loses no comparison the code makes, because the code only compares and
  adds them.
- Concurrency is out of scope. The source assumes one event loop that does
  not interleave within a call. The lock stores and the `LockStore` classes
  are not part of this model.
- The conversation id is a label only. Nothing in the lock reads it.
- A lock built from an explicit ticket list may hold any list. The model's
  `TicketLock` constructor accepts any sequence as well. Only the properties
  that need unique numbers assume the `Valid` (strictly ascending) invariant,
  which `NewLock` establishes and every operation preserves.
- `Lists.RemoveFirst` requires its element to be present. Python's
  `list.remove` raises ValueError otherwise, but every call in the lock passes
  a ticket it has just found in the list.
- `if ticket:` at lines 127 and 137 is always true for a found ticket.
  `Ticket` defines neither `__bool__` nor `__len__`, so the model treats
  `Some` as truthy.
- `LockProperties.RemoveIdempotent` assumes the `Valid` invariant. A lock
  built from a list with duplicate numbers is not idempotent under removal
  (`LockProperties.RemoveTwiceWithDuplicateNumbers`).
- `Lock.IsSomeoneWaiting` has no contract of its own. Its behaviour is stated
  by `LockProperties.WaitingAfterCleanup` and
  `LockProperties.WaitingIgnoresExpiry`.
- Issuing many tickets in a row is stated one call at a time
  (`LockProperties.NextIssueFollows`), not as a closed formula over `k` calls.

## Where the documentation and the code differ

The model follows the code in each case.

- **Strict expiry.** The code's expiry is strict (`time.time() > expires`). A
  ticket is still live at the instant it expires. "At or before" descriptions
  of expiry do not match this.
- **`is_locked`.** The docstring says it returns False once the lock has
  expired. The code compares with `now_serving` only, so an expired ticket's
  holder stays locked out. The one exception is number 0 after the queue has
  drained (`LockProperties.PurgedTicketLockedUnlessDrained`).
- **Number reuse.** Ticket numbers are not unique over time. After the queue
  drains, numbering restarts at 0 (`LockProperties.NumbersRestartAfterDrain`).
- **`remove_ticket_for_ticket_number`.** Its docstring is a copy of
  `has_lock_expired`'s. The method returns nothing; it deletes the first live
  ticket with the number.

## Findings

| source | as written | input that shows it | evidently intended | confidence | as-written member | corrected member |
|---|---|---|---|---|---|---|
| rasa/core/lock.py:100 | `len(self.tickets) < abs(idx)` admits `idx == len(self.tickets)` on a non-empty queue, and `self.tickets[idx]` then raises IndexError | one live ticket, `idx = 1` | return `None` whenever `idx` is outside `-len <= idx < len`, as the docstring says (the call sites pass only 0 and -1, where both agree) | not executed | `Lock.TicketNumberForIndexAsWritten` (`LockProperties.IndexGuardOffByOne`) | `Lock.TicketNumberForIndex` |
