/** Tickets and lazy expiry: the `Ticket` record of the lock module and the
    cleanup pass that drops abandoned tickets. The wall clock is an explicit
    integer `now`. */
module Tickets {
  import opened Lists

  /** A numbered claim on a conversation, abandoned once the clock passes
      `expires`. */
  datatype Ticket = Ticket(number: int, expires: int)

  /** A ticket has expired strictly after its deadline: at `now == expires`
      it is still live. */
  predicate HasExpired(t: Ticket, now: int) {
    now > t.expires
  }

  /** Ticket numbers strictly increase from head to tail, so the queue is
      sorted and no number occurs twice. */
  predicate Ascending(s: seq<Ticket>) {
    forall i, j :: 0 <= i < j < |s| ==> s[i].number < s[j].number
  }

  /** The tickets a cleanup pass at `now` keeps: exactly the unexpired ones,
      in their original order. */
  function Survivors(s: seq<Ticket>, now: int): seq<Ticket>
    decreases |s|
  {
    if s == [] then []
    else
      var rest := Survivors(s[1..], now);
      if HasExpired(s[0], now) then rest
      else [s[0]] + rest
  }

  /** Cleanup keeps exactly the unexpired tickets. */
  lemma {:induction false} SurvivorsMembers(s: seq<Ticket>, now: int)
    ensures forall t :: t in Survivors(s, now) <==> t in s && !HasExpired(t, now)
    decreases |s|
  {
    if s != [] {
      SurvivorsMembers(s[1..], now);
      assert s == [s[0]] + s[1..];
    }
  }

  /** Cleanup keeps the survivors in their original order. */
  lemma {:induction false} SurvivorsIsSubsequence(s: seq<Ticket>, now: int)
    ensures IsSubsequence(Survivors(s, now), s)
    decreases |s|
  {
    if s != [] {
      SurvivorsIsSubsequence(s[1..], now);
      var rest := Survivors(s[1..], now);
      if !HasExpired(s[0], now) {
        assert ([s[0]] + rest)[1..] == rest;
      }
    }
  }

  /** Cleanup keeps each unexpired ticket as often as it occurs and drops
      every expired one. */
  lemma {:induction false} SurvivorsCounts(s: seq<Ticket>, now: int, t: Ticket)
    ensures multiset(Survivors(s, now))[t] == if HasExpired(t, now) then 0 else multiset(s)[t]
    decreases |s|
  {
    if s != [] {
      assert s == [s[0]] + s[1..];
      SurvivorsCounts(s[1..], now, t);
    }
  }

  /** Deleting tickets from a sorted, duplicate-free queue keeps it so. */
  lemma {:induction false} SubsequenceAscending(r: seq<Ticket>, s: seq<Ticket>)
    ensures IsSubsequence(r, s) && Ascending(s) ==> Ascending(r)
    decreases |s|
  {
    if r != [] && IsSubsequence(r, s) && Ascending(s) {
      assert Ascending(s[1..]);
      if r[0] == s[0] && IsSubsequence(r[1..], s[1..]) {
        SubsequenceAscending(r[1..], s[1..]);
        SubsequenceMultiset(r[1..], s[1..]);
        forall j | 0 < j < |r|
          ensures r[0].number < r[j].number
        {
          assert r[j] == r[1..][j - 1];
          assert r[j] in multiset(s[1..]);
        }
      } else {
        SubsequenceAscending(r, s[1..]);
      }
    }
  }

  /** In a sorted, duplicate-free queue a number identifies its ticket. */
  lemma AscendingNumbersIdentify(s: seq<Ticket>, a: Ticket, b: Ticket)
    requires Ascending(s) && a in s && b in s && a.number == b.number
    ensures a == b
  {
    var i :| 0 <= i < |s| && s[i] == a;
    var j :| 0 <= j < |s| && s[j] == b;
    assert i == j;
  }

  /** Deleting position `k` of a sorted, duplicate-free queue removes
      exactly the tickets numbered like `s[k]`. */
  lemma DeleteAtAscending(s: seq<Ticket>, k: nat, t: Ticket)
    requires Ascending(s) && k < |s|
    ensures t in s[..k] + s[k + 1..] <==> t in s && t.number != s[k].number
  {
    var r := s[..k] + s[k + 1..];
    if t in r {
      var j :| 0 <= j < |r| && r[j] == t;
      if j < k {
        assert t == s[j];
      } else {
        assert t == s[j + 1];
      }
    }
    if t in s && t.number != s[k].number {
      var j :| 0 <= j < |s| && s[j] == t;
      if j < k {
        assert t == r[j];
      } else {
        assert t == r[j - 1];
      }
    }
  }

  /** Cleanup empties the queue exactly when every ticket has expired. */
  lemma {:induction false} SurvivorsEmpty(s: seq<Ticket>, now: int)
    ensures Survivors(s, now) == [] <==> forall t :: t in s ==> HasExpired(t, now)
    decreases |s|
  {
    if s != [] {
      SurvivorsEmpty(s[1..], now);
      assert s == [s[0]] + s[1..];
    }
  }

  /** Appending a ticket numbered above the tail keeps the queue sorted and
      duplicate-free. */
  lemma AppendAboveTail(s: seq<Ticket>, t: Ticket)
    requires Ascending(s) && (s != [] ==> s[|s| - 1].number < t.number)
    ensures Ascending(s + [t])
  {
    var r := s + [t];
    forall i, j | 0 <= i < j < |r|
      ensures r[i].number < r[j].number
    {
      if j == |s| {
        assert r[i] == s[i] && s[i].number <= s[|s| - 1].number;
      }
    }
  }

  /** Cleanup keeps ticket numbers sorted and unique. */
  lemma SurvivorsAscending(s: seq<Ticket>, now: int)
    ensures Ascending(s) ==> Ascending(Survivors(s, now))
  {
    SurvivorsIsSubsequence(s, now);
    SubsequenceAscending(Survivors(s, now), s);
  }

  /** An independent description of a cleanup result: a subsequence of `s`
      that holds every unexpired ticket as often as `s` does and no expired
      one. */
  ghost predicate IsCleanupOf(r: seq<Ticket>, s: seq<Ticket>, now: int) {
    && IsSubsequence(r, s)
    && forall t :: multiset(r)[t] == if HasExpired(t, now) then 0 else multiset(s)[t]
  }

  /** The cleanup result is the one and only sequence with that description. */
  lemma {:induction false} CleanupCharacterization(r: seq<Ticket>, s: seq<Ticket>, now: int)
    ensures IsCleanupOf(r, s, now) <==> r == Survivors(s, now)
    decreases |s|
  {
    SurvivorsIsSubsequence(s, now);
    if r == Survivors(s, now) {
      forall t
        ensures multiset(r)[t] == if HasExpired(t, now) then 0 else multiset(s)[t]
      {
        SurvivorsCounts(s, now, t);
      }
    } else if IsCleanupOf(r, s, now) && s != [] {
      var x := s[0];
      assert s == [x] + s[1..];
      if r != [] && r[0] == x && IsSubsequence(r[1..], s[1..]) {
        assert r == [x] + r[1..];
        assert !HasExpired(x, now) by {
          assert multiset(r)[x] > 0;
        }
        assert IsCleanupOf(r[1..], s[1..], now) by {
          forall t
            ensures multiset(r[1..])[t] == if HasExpired(t, now) then 0 else multiset(s[1..])[t]
          {
            assert multiset(r)[t] == multiset(r[1..])[t] + (if t == x then 1 else 0);
            assert multiset(s)[t] == multiset(s[1..])[t] + (if t == x then 1 else 0);
          }
        }
        CleanupCharacterization(r[1..], s[1..], now);
      } else {
        assert IsSubsequence(r, s[1..]);
        SubsequenceMultiset(r, s[1..]);
        assert HasExpired(x, now);
        assert IsCleanupOf(r, s[1..], now) by {
          forall t
            ensures multiset(r)[t] == if HasExpired(t, now) then 0 else multiset(s[1..])[t]
          {
            assert multiset(s)[t] == multiset(s[1..])[t] + (if t == x then 1 else 0);
          }
        }
        CleanupCharacterization(r, s[1..], now);
      }
    }
  }

  /** Cleanup distributes over concatenation. */
  lemma {:induction false} SurvivorsAppend(a: seq<Ticket>, b: seq<Ticket>, now: int)
    ensures Survivors(a + b, now) == Survivors(a, now) + Survivors(b, now)
    decreases |a|
  {
    if a != [] {
      assert (a + b)[1..] == a[1..] + b;
      SurvivorsAppend(a[1..], b, now);
    } else {
      assert a + b == b;
    }
  }

  /** Two cleanups at nondecreasing clock readings leave what a single
      cleanup at the later reading leaves. */
  lemma {:induction false} SurvivorsCompose(s: seq<Ticket>, earlier: int, later: int)
    requires earlier <= later
    ensures Survivors(Survivors(s, earlier), later) == Survivors(s, later)
    decreases |s|
  {
    if s != [] {
      SurvivorsCompose(s[1..], earlier, later);
      if !HasExpired(s[0], earlier) {
        var rest := Survivors(s[1..], earlier);
        assert ([s[0]] + rest)[1..] == rest;
      }
    }
  }

  /** A queue of live tickets survives a cleanup untouched. */
  lemma {:induction false} SurvivorsOfLive(s: seq<Ticket>, now: int)
    requires forall t :: t in s ==> !HasExpired(t, now)
    ensures Survivors(s, now) == s
    decreases |s|
  {
    if s != [] {
      assert s[0] in s;
      SurvivorsOfLive(s[1..], now);
      assert s == [s[0]] + s[1..];
    }
  }

  /** At a fixed clock reading, cleaning up twice is cleaning up once. */
  lemma {:induction false} SurvivorsIdempotent(s: seq<Ticket>, now: int)
    ensures Survivors(Survivors(s, now), now) == Survivors(s, now)
  {
    SurvivorsCompose(s, now, now);
  }

  /** `TicketLock.remove_expired_tickets` as written: walk a copy of the
      list and `remove` every expired ticket from the working list. */
  method RemoveExpiredInPlace(tickets: seq<Ticket>, now: int) returns (r: seq<Ticket>)
    ensures r == Survivors(tickets, now)
  {
    var copy := tickets;
    r := tickets;
    var i := 0;
    while i < |copy|
      invariant 0 <= i <= |copy|
      invariant r == Survivors(copy[..i], now) + copy[i..]
    {
      CleanupStep(copy, i, now);
      if HasExpired(copy[i], now) {
        r := RemoveFirst(r, copy[i]);
      }
      i := i + 1;
    }
    assert copy[..i] == tickets;
  }

  /** One iteration of the cleanup loop: with the first `i` tickets already
      cleaned, handling ticket `i` leaves the first `i + 1` cleaned. */
  lemma CleanupStep(copy: seq<Ticket>, i: nat, now: int)
    requires i < |copy|
    ensures var work := Survivors(copy[..i], now) + copy[i..];
      (if HasExpired(copy[i], now) then copy[i] in work && RemoveFirst(work, copy[i]) == Survivors(copy[..i + 1], now) + copy[i + 1..]
       else work == Survivors(copy[..i + 1], now) + copy[i + 1..])
  {
    var t := copy[i];
    var kept := Survivors(copy[..i], now);
    var rest := copy[i + 1..];
    assert copy[..i + 1] == copy[..i] + [t];
    assert copy[i..] == [t] + rest;
    SurvivorsAppend(copy[..i], [t], now);
    assert Survivors([t], now) == (if HasExpired(t, now) then [] else [t]) by {
      assert [t][1..] == [];
    }
    if HasExpired(t, now) {
      assert kept + copy[i..] == kept + [t] + rest;
      SurvivorsMembers(copy[..i], now);
      assert t !in kept;
      RemoveAfterPrefix(kept, t, rest);
      assert Survivors(copy[..i + 1], now) == kept + [];
    } else {
      assert Survivors(copy[..i + 1], now) == kept + [t];
    }
  }

  /** Removing `x` from `p + [x] + rest` when `x` is not in `p` deletes
      exactly that occurrence. */
  lemma RemoveAfterPrefix<T>(p: seq<T>, x: T, rest: seq<T>)
    requires x !in p
    ensures RemoveFirst(p + [x] + rest, x) == p + rest
  {
    var s := p + [x] + rest;
    var i := IndexOf(s, x);
    assert s[|p|] == x;
    assert s[..i] == p;
    assert s[i + 1..] == rest;
  }

  /** `next((t for t in tickets if t.number == n), None)`: the first ticket
      numbered `n`, if any. */
  function FirstWithNumber(s: seq<Ticket>, n: int): (r: Option<Ticket>)
    ensures r.None? <==> forall t :: t in s ==> t.number != n
    ensures r.Some? ==> r.value in s && r.value.number == n
    ensures r.Some? ==> forall j :: 0 <= j < IndexOf(s, r.value) ==> s[j].number != n
    decreases |s|
  {
    if s == [] then None
    else if s[0].number == n then Some(s[0])
    else
      var r := FirstWithNumber(s[1..], n);
      assert r.Some? ==> IndexOf(s, r.value) == 1 + IndexOf(s[1..], r.value);
      r
  }
}
