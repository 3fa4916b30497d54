/**
  The participant table of one activity, as the service keeps it: one row per user, a cached
  join count, and a waitlist that exists only as "waitlisted" rows with a timestamp. Every
  method is proved to be the matching step of the FIFO machine in SignUpQueue.
 */
module SignUpTable {
  import opened Common
  import opened SignUpQueue

  datatype RowStatus = JOINED | WAITLISTED | QUIT

  datatype Row = Row(status: RowStatus, waitlistedAt: Option<int>)

  type Rows = map<UserId, Row>

  function UsersWith(rows: Rows, status: RowStatus): set<UserId> {
    set u | u in rows && rows[u].status == status
  }

  // ORDER BY waitlisted_at ASC NULLS LAST
  predicate SortsBefore(a: Option<int>, b: Option<int>) {
    b.None? || (a.Some? && a.value <= b.value)
  }

  predicate IsWaiting(rows: Rows, u: UserId) {
    u in rows && rows[u].status == WAITLISTED
  }

  function TimeOf(rows: Rows, u: UserId): int {
    if u in rows && rows[u].waitlistedAt.Some? then rows[u].waitlistedAt.value else 0
  }

  predicate IsFirstWaiter(rows: Rows, u: UserId) {
    IsWaiting(rows, u) && forall w <- rows :: IsWaiting(rows, w) ==>
      SortsBefore(rows[u].waitlistedAt, rows[w].waitlistedAt)
  }

  // q lists the waitlisted users of the table by strictly increasing timestamp.
  ghost predicate Encodes(rows: Rows, q: seq<UserId>) {
    && (forall u :: u in q <==> IsWaiting(rows, u))
    && (forall u <- q :: rows[u].waitlistedAt.Some?)
    && Increasing(rows, q)
  }

  ghost predicate Increasing(rows: Rows, q: seq<UserId>) {
    forall i, j :: 0 <= i < j < |q| ==> TimeOf(rows, q[i]) < TimeOf(rows, q[j])
  }

  // Exactly the waitlisted rows carry a timestamp.
  ghost predicate Stamped(rows: Rows) {
    forall u <- rows :: rows[u].waitlistedAt.Some? <==> rows[u].status == WAITLISTED
  }

  /** The table determines the queue: the ghost field `queue` below adds no information. */
  lemma {:induction false} QueueIsDetermined(rows: Rows, p: seq<UserId>, q: seq<UserId>)
    requires Encodes(rows, p) && Encodes(rows, q)
    ensures p == q
    decreases |p|
  {
    assert p == [] <==> q == [] by {
      if p != [] { assert IsWaiting(rows, p[0]); }
      if q != [] { assert IsWaiting(rows, q[0]); }
    }
    if p != [] {
      assert p[0] in p && q[0] in q;
      assert p[0] == q[0];
      EncodesTail(rows, p, Row(QUIT, None));
      EncodesTail(rows, q, Row(QUIT, None));
      QueueIsDetermined(rows[p[0] := Row(QUIT, None)], p[1..], q[1..]);
      assert p == [p[0]] + p[1..] && q == [q[0]] + q[1..];
    }
  }

  // Taking the head off the waitlist drops it from the queue.
  lemma EncodesTail(rows: Rows, q: seq<UserId>, row: Row)
    requires Encodes(rows, q) && q != [] && row.status != WAITLISTED
    ensures Encodes(rows[q[0] := row], q[1..])
  {
    assert q == [q[0]] + q[1..];
    forall i | 1 <= i < |q| ensures q[i] != q[0] {
      assert TimeOf(rows, q[0]) < TimeOf(rows, q[i]);
    }
    forall u ensures u in q[1..] <==> IsWaiting(rows[q[0] := row], u) {
      assert u in q <==> u == q[0] || u in q[1..];
    }
    forall w <- q[1..] ensures TimeOf(rows[q[0] := row], w) == TimeOf(rows, w) {
      assert IsWaiting(rows[q[0] := row], w);
    }
  }

  // A newcomer with the latest timestamp joins at the back.
  lemma EncodesAppend(rows: Rows, q: seq<UserId>, u: UserId, now: int)
    requires Encodes(rows, q) && u !in q
    requires forall w <- q :: TimeOf(rows, w) < now
    ensures Encodes(rows[u := Row(WAITLISTED, Some(now))], q + [u])
  {
    var rows1 := rows[u := Row(WAITLISTED, Some(now))];
    forall w ensures w in q + [u] <==> IsWaiting(rows1, w) {
      assert w in q + [u] <==> w in q || w == u;
      assert w != u ==> (IsWaiting(rows1, w) <==> IsWaiting(rows, w));
    }
    forall w <- q ensures TimeOf(rows1, w) == TimeOf(rows, w) {}
  }

  // Taking any one user off the waitlist thins the queue.
  lemma EncodesWithout(rows: Rows, q: seq<UserId>, u: UserId, row: Row)
    requires Encodes(rows, q) && row.status != WAITLISTED
    ensures Distinct(q) && Encodes(rows[u := row], Without(q, u))
  {
    WithoutFacts(q, u);
    var p := Without(q, u);
    WithoutIncreasing(rows, q, u);
    forall w <- p ensures TimeOf(rows[u := row], w) == TimeOf(rows, w) {}
    forall w ensures w in p <==> IsWaiting(rows[u := row], w) {}
  }

  lemma {:induction false} WithoutIncreasing(rows: Rows, q: seq<UserId>, u: UserId)
    requires Distinct(q) && Increasing(rows, q)
    ensures Increasing(rows, Without(q, u))
  {
    if q != [] {
      var rest := q[1..];
      WithoutIncreasing(rows, rest, u);
      WithoutFacts(rest, u);
      forall w <- Without(rest, u) ensures TimeOf(rows, q[0]) < TimeOf(rows, w) {
        var k :| 0 <= k < |rest| && rest[k] == w;
        assert q[k + 1] == w;
      }
    }
  }

  lemma UsersAfter(rows: Rows, u: UserId, row: Row, s: RowStatus)
    ensures UsersWith(rows[u := row], s) ==
      if row.status == s then UsersWith(rows, s) + {u} else UsersWith(rows, s) - {u}
  {
  }

  // The set counted by the position query, for the i-th waiter.
  lemma WaitersUpTo(rows: Rows, q: seq<UserId>, i: nat)
    requires Encodes(rows, q) && i < |q|
    ensures |AtOrBefore(rows, TimeOf(rows, q[i]))| == i + 1
  {
    var ahead := AtOrBefore(rows, TimeOf(rows, q[i]));
    forall u ensures u in ahead <==> u in q[..i + 1] {
      if u in ahead {
        assert IsWaiting(rows, u);
        var j :| 0 <= j < |q| && q[j] == u;
        assert j <= i;
        assert q[..i + 1][j] == u;
      }
      if u in q[..i + 1] {
        var j :| 0 <= j <= i && q[j] == u;
        assert u in q;
      }
    }
    assert ahead == Elems(q[..i + 1]);
    ElemsSize(q[..i + 1]);
  }

  function AtOrBefore(rows: Rows, at: int): set<UserId> {
    set u | u in rows && rows[u].status == WAITLISTED && rows[u].waitlistedAt.Some? && rows[u].waitlistedAt.value <= at
  }

  lemma FirstWaiterIsHead(rows: Rows, q: seq<UserId>, u: UserId)
    requires Encodes(rows, q) && IsFirstWaiter(rows, u)
    ensures q != [] && u == q[0]
  {
    assert u in q;
    assert q[0] in rows && IsWaiting(rows, q[0]);
  }

  lemma HeadIsFirstWaiter(rows: Rows, q: seq<UserId>)
    requires Encodes(rows, q) && q != []
    ensures IsFirstWaiter(rows, q[0])
  {
  }

  // d is `before` with the first |promoted| waiters seated, without overfilling the desk.
  ghost predicate IsPartPromotion(before: Desk, d: Desk, promoted: seq<UserId>) {
    && |promoted| <= |before.queue| && promoted == before.queue[..|promoted|]
    && d == SeatFirst(before, |promoted|)
    && (promoted != [] ==> |d.joined| <= d.capacity)
  }

  lemma PartPromotionStep(before: Desk, d: Desk, promoted: seq<UserId>)
    requires IsPartPromotion(before, d, promoted) && Tidy(before)
    requires |d.joined| < d.capacity && d.queue != []
    ensures IsPartPromotion(before, d.(joined := d.joined + {d.queue[0]}, queue := d.queue[1..]),
      promoted + [d.queue[0]])
  {
    var k := |promoted|;
    SeatOne(before, k);
    assert SeatFirst(before, k + 1) == d.(joined := d.joined + {d.queue[0]}, queue := d.queue[1..]) by {
      assert before.joined + Elems(before.queue[..k + 1]) == d.joined + {d.queue[0]};
    }
    SeatFirstSize(before, k + 1);
    SeatFirstSize(before, k);
  }

  lemma SeatOne(d: Desk, k: nat)
    requires k < |d.queue|
    ensures d.queue[..k + 1] == d.queue[..k] + [d.queue[k]]
    ensures d.queue[k..][0] == d.queue[k] && d.queue[k..][1..] == d.queue[k + 1..]
    ensures Elems(d.queue[..k + 1]) == Elems(d.queue[..k]) + {d.queue[k]}
  {
    assert d.queue[..k + 1] == d.queue[..k] + [d.queue[k]];
  }

  // Seating one by one until the desk is full or the queue empty is the batch promotion.
  lemma PromotionDone(before: Desk, d: Desk, promoted: seq<UserId>)
    requires IsPartPromotion(before, d, promoted) && Tidy(before)
    requires |d.joined| >= d.capacity || d.queue == []
    ensures |promoted| == PromotionCount(before) && d == Promote(before) && NoIdleSeat(d)
  {
    SeatFirstSize(before, |promoted|);
  }

  class Activity {
    const host: UserId
    var status: ActivityStatus
    var capacity: int
    var joinCount: int
    var rows: Rows
    ghost var queue: seq<UserId>
    ghost var clock: int  // the latest timestamp handed out

    ghost function View(): Desk
      reads this
    {
      Desk(host, status, capacity, UsersWith(rows, JOINED), queue, UsersWith(rows, QUIT))
    }

    // The cached count and the hidden queue agree with the rows.
    ghost predicate Coupled()
      reads this
    {
      && joinCount == |UsersWith(rows, JOINED)|
      && Encodes(rows, queue)
      && (forall u <- queue :: TimeOf(rows, u) <= clock)
      && Stamped(rows)
      && Tidy(View())
    }

    ghost predicate Valid()
      reads this
    {
      Coupled() && NoIdleSeat(View())
    }

    constructor Create(host: UserId, capacity: int)
      requires 2 <= capacity <= 200
      ensures Valid() && View() == Open(host, capacity)
    {
      this.host, this.capacity, status := host, capacity, Pending;
      joinCount := 1;
      rows := map[host := Row(JOINED, None)];
      queue, clock := [], 0;
      new;
      assert UsersWith(rows, JOINED) == {host};
      assert UsersWith(rows, QUIT) == {};
    }

    method Join(user: UserId, limited: bool) returns (reply: Reply)
      requires Valid()
      modifies this
      ensures Valid() && clock == old(clock)
      ensures (View(), reply) == SignUpQueue.Join(old(View()), user, limited)
    {
      if limited { return Refused(UserLimited); }
      if status != Published { return Refused(NotFound); }
      if user in rows && rows[user].status == JOINED { return Seated(joinCount, true); }
      if host == user { return Refused(Forbidden); }
      if joinCount >= capacity { return Refused(Full); }
      ghost var before := View();
      assert user in queue <==> IsWaiting(rows, user);
      UsersAfter(rows, user, Row(JOINED, None), JOINED);
      UsersAfter(rows, user, Row(JOINED, None), QUIT);
      rows := rows[user := Row(JOINED, None)];
      joinCount := joinCount + 1;
      ServeKeepsInv(before, JoinRequest(user, limited));
      return Seated(joinCount, false);
    }

    // SELECT ... WHERE status = 'waitlisted' ORDER BY waitlisted_at ASC NULLS LAST LIMIT 1
    method FirstWaiter() returns (next: Option<UserId>)
      requires Coupled()
      ensures next == if queue == [] then None else Some(queue[0])
      ensures next.Some? ==> IsFirstWaiter(rows, next.value)
    {
      if u :| u in rows && IsFirstWaiter(rows, u) {
        FirstWaiterIsHead(rows, queue, u);
        return Some(u);
      } else {
        if queue != [] {
          HeadIsFirstWaiter(rows, queue);
        }
        return None;
      }
    }

    // One turn of the promotion loop: the chosen waiter's row becomes a joined row.
    method SeatNext(next: UserId)
      requires Coupled() && IsFirstWaiter(rows, next)
      requires !(status == Pending || status == Rejected)
      modifies this
      ensures Coupled() && clock == old(clock) && joinCount == old(joinCount) + 1
      ensures old(queue) != [] && next == old(queue)[0]
      ensures View() == old(View()).(joined := old(View()).joined + {next}, queue := old(queue)[1..])
    {
      FirstWaiterIsHead(rows, queue, next);
      ghost var row := Row(JOINED, None);
      EncodesTail(rows, queue, row);
      UsersAfter(rows, next, row, JOINED);
      UsersAfter(rows, next, row, QUIT);
      assert next in queue && next !in UsersWith(rows, JOINED) && next !in UsersWith(rows, QUIT);
      forall w <- queue[1..] ensures w in queue && w != next {}
      rows := rows[next := Row(JOINED, None)];
      queue := queue[1..];
      joinCount := joinCount + 1;
    }

    /** Seats waiters one by one, earliest timestamp first, while there is room. */
    method PromoteWaitlist() returns (promoted: seq<UserId>)
      requires Coupled()
      modifies this
      ensures Valid() && clock == old(clock)
      ensures View() == Promote(old(View()))
      ensures promoted == old(queue)[..PromotionCount(old(View()))]
    {
      ghost var before := View();
      promoted := [];
      while joinCount < capacity
        invariant Coupled() && clock == old(clock)
        invariant IsPartPromotion(before, View(), promoted)
        decreases capacity - joinCount
      {
        var next := FirstWaiter();
        if next.None? { break; }
        ghost var mid := View();
        SeatNext(next.value);
        PartPromotionStep(before, mid, promoted);
        promoted := promoted + [next.value];
      }
      PromotionDone(before, View(), promoted);
    }

    method Quit(user: UserId) returns (reply: Reply)
      requires Valid()
      modifies this
      ensures Valid() && clock == old(clock)
      ensures (View(), reply) == SignUpQueue.Quit(old(View()), user)
    {
      if status == Cancelled { return Refused(NotFound); }
      if host == user { return Refused(Forbidden); }
      if user !in rows || (rows[user].status != JOINED && rows[user].status != WAITLISTED) {
        return NotJoined(joinCount);
      }
      ghost var before := View();
      var wasJoined := rows[user].status == JOINED;
      MarkQuit(user);
      if !wasJoined { ThinKeepsInv(before, user); }
      if wasJoined {
        VacateKeepsTidy(before, user);
        joinCount := Max((if joinCount == 0 then 1 else joinCount) - 1, 1);
        var _ := PromoteWaitlist();
      }
      return NotJoined(joinCount);
    }

    // The row of a joined or waiting user becomes a quit row; the cached count is not touched.
    method MarkQuit(user: UserId)
      requires Valid() && user != host
      requires user in rows && (rows[user].status == JOINED || rows[user].status == WAITLISTED)
      modifies this
      ensures clock == old(clock) && joinCount == old(joinCount)
      ensures Encodes(rows, queue) && (forall u <- queue :: TimeOf(rows, u) <= clock) && Stamped(rows)
      ensures View() == if user in old(View()).joined then Vacate(old(View()), user) else Thin(old(View()), user)
      ensures user in old(View()).joined || user in old(queue)
    {
      ghost var row := Row(QUIT, None);
      assert user in queue <==> IsWaiting(rows, user);
      EncodesWithout(rows, queue, user, row);
      WithoutFacts(queue, user);
      UsersAfter(rows, user, row, JOINED);
      UsersAfter(rows, user, row, QUIT);
      if user !in queue { WithoutAbsent(queue, user); }
      rows := rows[user := Row(QUIT, None)];
      queue := Without(queue, user);
    }

    method JoinWaitlist(user: UserId, limited: bool, now: int) returns (reply: Reply)
      requires Valid() && clock < now
      modifies this
      ensures Valid() && clock <= now
      ensures (View(), reply) == SignUpQueue.JoinWaitlist(old(View()), user, limited)
    {
      if limited { return Refused(UserLimited); }
      if status != Published { return Refused(NotFound); }
      if host == user { return Refused(Forbidden); }
      if user in rows && rows[user].status == JOINED { return Refused(AlreadyJoined); }
      if joinCount < capacity { return Refused(Invalid); }
      assert user in queue <==> IsWaiting(rows, user);
      if user !in rows || rows[user].status != WAITLISTED || rows[user].waitlistedAt == None {
        Enqueue(user, now);
      } else {
        assert rows[user := rows[user].(status := WAITLISTED)] == rows;
        rows := rows[user := rows[user].(status := WAITLISTED)];
      }
      var position := WaitlistPosition(user);
      return Waiting(position, joinCount);
    }

    // A new or returning user's row becomes a waitlisted row stamped with the current time.
    method Enqueue(user: UserId, now: int)
      requires Valid() && clock < now && user !in View().joined && user !in queue && user != host
      requires status == Published && joinCount >= capacity
      modifies this
      ensures Valid() && clock == now
      ensures var d := old(View());
        View() == d.(queue := d.queue + [user], gone := d.gone - {user})
      ensures Position(queue, user) == |queue|
    {
      ghost var row := Row(WAITLISTED, Some(now));
      EncodesAppend(rows, queue, user, now);
      UsersAfter(rows, user, row, JOINED);
      UsersAfter(rows, user, row, QUIT);
      PositionAppend(queue, user, user);
      rows := rows[user := Row(WAITLISTED, Some(now))];
      queue, clock := queue + [user], now;
    }

    /** The reported position is the exact rank in the queue; the lower clamp never matters. */
    method WaitlistPosition(user: UserId) returns (position: int)
      requires Coupled() && user in queue
      ensures position == Position(queue, user)
    {
      assert user in rows && TimeOf(rows, user) == rows[user].waitlistedAt.value;
      var ahead := |AtOrBefore(rows, rows[user].waitlistedAt.value)|;
      position := Max(1, if ahead == 0 then 1 else ahead);
      PositionFinds(queue, user);
      WaitersUpTo(rows, queue, Position(queue, user) - 1);
    }

    method LeaveWaitlist(user: UserId) returns (reply: Reply)
      requires Valid()
      modifies this
      ensures Valid() && clock == old(clock)
      ensures (View(), reply) == SignUpQueue.LeaveWaitlist(old(View()), user)
    {
      if user in rows && rows[user].status == WAITLISTED {
        assert user in queue;
        ThinKeepsInv(View(), user);
        MarkQuit(user);
      } else {
        assert user in queue <==> IsWaiting(rows, user);
      }
      return NotWaiting;
    }

    method Update(user: UserId, edit: CapacityEdit) returns (reply: Reply)
      requires Valid()
      modifies this
      ensures Valid() && clock == old(clock)
      ensures (View(), reply) == SignUpQueue.Update(old(View()), user, edit)
    {
      if status == Cancelled { return Refused(NotFound); }
      if host != user { return Refused(Forbidden); }
      if edit.Value? { capacity := edit.capacity; }
      if !edit.Unset? && status == Published {
        var _ := PromoteWaitlist();
      }
      return Edited;
    }

    method Cancel(user: UserId) returns (reply: Reply)
      requires Valid()
      modifies this
      ensures Valid() && clock == old(clock)
      ensures (View(), reply) == SignUpQueue.Cancel(old(View()), user)
    {
      if host != user { return Refused(Forbidden); }
      if status == Cancelled { return CancelDone; }
      status := Cancelled;
      return CancelDone;
    }

    method Review(action: ReviewAction) returns (reply: Reply)
      requires Valid()
      modifies this
      ensures Valid() && clock == old(clock)
      ensures (View(), reply) == SignUpQueue.Review(old(View()), action)
    {
      if action == Unknown { return Refused(Invalid); }
      if status == Cancelled { return Refused(NotFound); }
      if status != Pending { return Refused(Invalid); }
      status := if action == Approve then Published else Rejected;
      return Reviewed(status);
    }
  }
}
