/**
  The request limiter: a counter per key that expires one window after its first hit. The
  source calls this a sliding window; what it guarantees in any interval of one window is
  2 * limit - 1 admissions, and that bound is reached.
 */
module RateLimit {
  import opened Common

  datatype Slot = Absent | Counting(count: nat, expiresAt: int)

  predicate IsAlive(slot: Slot, now: int) {
    slot.Counting? && now < slot.expiresAt
  }

  function Hit(slot: Slot, now: int, window: int): Slot {
    if IsAlive(slot, now) then Counting(slot.count + 1, slot.expiresAt) else Counting(1, now + window)
  }

  class Limiter {
    var keys: map<string, Slot>

    ghost function SlotOf(key: string): Slot
      reads this
    {
      if key in keys then keys[key] else Absent
    }

    ghost predicate Valid()
      reads this
    {
      forall key <- keys :: keys[key].Counting? && keys[key].count >= 1
    }

    constructor ()
      ensures Valid() && keys == map[]
    {
      keys := map[];
    }

    // INCR creates a missing or expired key at 1; EXPIRE is set on the first hit only.
    method Enforce(key: string, limit: int, window: int, now: int) returns (allowed: bool)
      requires Valid()
      modifies this
      ensures Valid() && forall other | other != key :: SlotOf(other) == old(SlotOf(other))
      ensures if limit <= 0 then allowed && keys == old(keys)
              else SlotOf(key) == Hit(old(SlotOf(key)), now, window) && (allowed <==> SlotOf(key).count <= limit)
    {
      if limit <= 0 { return true; }
      var alive := key in keys && now < keys[key].expiresAt;
      var count := if alive then keys[key].count + 1 else 1;
      keys := keys[key := Counting(count, if count == 1 then now + window else keys[key].expiresAt)];
      return count <= limit;
    }
  }

  // ---------- schedules of hits on one key ----------

  function After(times: seq<int>, window: int): Slot {
    if times == [] then Absent
    else Hit(After(times[..|times| - 1], window), times[|times| - 1], window)
  }

  // Admissions among the hits with lo <= time < hi.
  function AdmittedIn(times: seq<int>, limit: int, window: int, lo: int, hi: int): nat {
    if times == [] then 0
    else
      var t := times[|times| - 1];
      AdmittedIn(times[..|times| - 1], limit, window, lo, hi)
      + (if After(times, window).count <= limit && lo <= t < hi then 1 else 0)
  }

  // Admissions in the interval of one window that starts at lo.
  function AdmittedFrom(times: seq<int>, limit: int, window: int, lo: int): nat {
    AdmittedIn(times, limit, window, lo, lo + window)
  }

  ghost predicate InOrder(times: seq<int>) {
    forall i, j | 0 <= i < j < |times| :: times[i] <= times[j]
  }

  lemma {:induction false} NoneBefore(times: seq<int>, limit: int, window: int, lo: int, hi: int)
    requires forall i | 0 <= i < |times| :: times[i] < lo
    ensures AdmittedIn(times, limit, window, lo, hi) == 0
  {
    if times != [] {
      NoneBefore(times[..|times| - 1], limit, window, lo, hi);
    }
  }

  lemma {:induction false} HitsBeforeExpiry(times: seq<int>, window: int)
    requires InOrder(times) && window > 0 && times != []
    ensures After(times, window).Counting? && After(times, window).count > 0
    ensures forall t <- times :: t < After(times, window).expiresAt
    ensures After(times, window).expiresAt - window <= times[|times| - 1]
  {
    var n := |times| - 1;
    forall t <- times ensures t <= times[n] {}
    if n > 0 {
      HitsBeforeExpiry(times[..n], window);
    }
  }

  /** The lifetime that is open after a schedule has admitted exactly its first `limit` hits. */
  lemma {:induction false} LifetimeAdmitsLimit(times: seq<int>, limit: int, window: int)
    requires InOrder(times) && limit > 0 && window > 0 && times != []
    ensures var slot := After(times, window);
      AdmittedIn(times, limit, window, slot.expiresAt - window, slot.expiresAt) == Min(slot.count, limit)
  {
    var n := |times| - 1;
    var front, now := times[..n], times[n];
    if n > 0 && IsAlive(After(front, window), now) {
      HitsBeforeExpiry(front, window);
      LifetimeAdmitsLimit(front, limit, window);
      assert front[n - 1] <= now;
    } else {
      if n > 0 { HitsBeforeExpiry(front, window); }
      NoneBefore(front, limit, window, now, now + window);
    }
  }

  // What an interval of one window can have admitted, by where the open lifetime started.
  ghost predicate WithinBudget(times: seq<int>, limit: int, window: int, lo: int) {
    var slot, n := After(times, window), AdmittedIn(times, limit, window, lo, lo + window);
    if slot == Absent then n == 0
    else
      var start := slot.expiresAt - window;
      if start < lo then n <= Min(slot.count, limit) - 1
      else if start < lo + window then n <= limit - 1 + Min(slot.count, limit)
      else n <= 2 * limit - 1
  }

  lemma {:induction false} BudgetHolds(times: seq<int>, limit: int, window: int, lo: int)
    requires InOrder(times) && limit > 0 && window > 0
    ensures WithinBudget(times, limit, window, lo)
  {
    if times != [] {
      var n := |times| - 1;
      var front, now := times[..n], times[n];
      BudgetHolds(front, limit, window, lo);
      if n > 0 { HitsBeforeExpiry(front, window); }
      if now < lo {
        NoneBefore(front, limit, window, lo, lo + window);
      }
    }
  }

  /** No interval of one window ever admits more than 2 * limit - 1 hits, whatever the schedule. */
  lemma WindowBound(times: seq<int>, limit: int, window: int, lo: int)
    requires InOrder(times) && limit > 0 && window > 0
    ensures AdmittedFrom(times, limit, window, lo) <= 2 * limit - 1
  {
    BudgetHolds(times, limit, window, lo);
  }

  // ---------- the bound is reached ----------

  function Repeat(t: int, m: nat): seq<int> {
    if m == 0 then [] else Repeat(t, m - 1) + [t]
  }

  lemma {:induction false} Burst(times: seq<int>, t: int, m: nat, limit: int, window: int, lo: int, hi: int)
    requires lo <= t < hi && IsAlive(After(times, window), t) && After(times, window).count + m <= limit
    ensures var slot := After(times, window);
      && After(times + Repeat(t, m), window) == Counting(slot.count + m, slot.expiresAt)
      && AdmittedIn(times + Repeat(t, m), limit, window, lo, hi) == AdmittedIn(times, limit, window, lo, hi) + m
    decreases m
  {
    if m == 0 {
      assert times + Repeat(t, 0) == times;
    } else {
      Burst(times, t, m - 1, limit, window, lo, hi);
      AdmitOne(times + Repeat(t, m - 1), t, limit, window, lo, hi);
      RepeatOnce(times, t, m);
    }
  }

  lemma RepeatOnce(times: seq<int>, t: int, m: nat)
    requires m > 0
    ensures times + Repeat(t, m) == times + Repeat(t, m - 1) + [t]
  {
  }

  // A hit below the limit in a living lifetime is counted and admitted.
  lemma AdmitOne(times: seq<int>, t: int, limit: int, window: int, lo: int, hi: int)
    requires lo <= t < hi && IsAlive(After(times, window), t) && After(times, window).count < limit
    ensures var slot := After(times, window);
      && After(times + [t], window) == Counting(slot.count + 1, slot.expiresAt)
      && AdmittedIn(times + [t], limit, window, lo, hi) == AdmittedIn(times, limit, window, lo, hi) + 1
  {
    AppendHit(times, t, limit, window, lo, hi);
  }

  lemma AppendHit(times: seq<int>, t: int, limit: int, window: int, lo: int, hi: int)
    ensures After(times + [t], window) == Hit(After(times, window), t, window)
    ensures AdmittedIn(times + [t], limit, window, lo, hi) == AdmittedIn(times, limit, window, lo, hi)
      + (if Hit(After(times, window), t, window).count <= limit && lo <= t < hi then 1 else 0)
  {
    assert (times + [t])[..|times|] == times;
  }

  // One hit at 0, limit - 1 in the last instant of that lifetime, limit more as soon as it is over.
  function Straddle(limit: nat, window: nat): seq<int>
    requires limit > 0 && window > 1
  {
    ([0] + Repeat(window - 1, limit - 1) + [window]) + Repeat(window, limit - 1)
  }

  lemma {:induction false} RepeatIs(t: int, m: nat)
    ensures |Repeat(t, m)| == m && forall x <- Repeat(t, m) :: x == t
  {
    if m > 0 { RepeatIs(t, m - 1); }
  }

  lemma StraddleInOrder(limit: nat, window: nat)
    requires limit > 0 && window > 1
    ensures InOrder(Straddle(limit, window))
  {
    RepeatIs(window - 1, limit - 1);
    RepeatIs(window, limit - 1);
    var first, second := [0] + Repeat(window - 1, limit - 1), [window] + Repeat(window, limit - 1);
    assert Straddle(limit, window) == first + second;
    forall i | 0 <= i < |first| ensures first[i] == if i == 0 then 0 else window - 1 {
      if i > 0 { assert first[i] in Repeat(window - 1, limit - 1); }
    }
    forall i | 0 <= i < |second| ensures second[i] == window {
      if i > 0 { assert second[i] in Repeat(window, limit - 1); }
    }
  }

  lemma StraddleReachesBound(limit: nat, window: nat)
    requires limit > 0 && window > 1
    ensures AdmittedFrom(Straddle(limit, window), limit, window, window - 1) == 2 * limit - 1
  {
    var lo, hi := window - 1, window - 1 + window;
    var first := [0] + Repeat(window - 1, limit - 1);
    assert After([0], window) == Counting(1, window) && AdmittedIn([0], limit, window, lo, hi) == 0 by {
      AppendHit([], 0, limit, window, lo, hi);
      assert [] + [0] == [0];
    }
    Burst([0], window - 1, limit - 1, limit, window, lo, hi);
    AppendHit(first, window, limit, window, lo, hi);
    Burst(first + [window], window, limit - 1, limit, window, lo, hi);
  }

  ghost predicate IsSlidingWindow(limit: nat, window: nat) {
    forall times: seq<int>, lo: int :: InOrder(times) ==> AdmittedFrom(times, limit, window, lo) <= limit
  }

  /** The limiter enforces its limit in every interval of one window only when the limit is one. */
  lemma SlidingWindowIff(limit: nat, window: nat)
    requires limit > 0 && window > 1
    ensures IsSlidingWindow(limit, window) <==> limit == 1
  {
    if limit == 1 {
      forall times: seq<int>, lo: int | InOrder(times) ensures AdmittedFrom(times, limit, window, lo) <= limit {
        WindowBound(times, limit, window, lo);
      }
    } else {
      StraddleInOrder(limit, window);
      StraddleReachesBound(limit, window);
    }
  }
}
