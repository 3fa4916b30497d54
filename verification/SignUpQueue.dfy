/**
  The sign-up desk of one activity as a plain machine: a set of seated users and a
  first-in-first-out queue. There are no timestamps, no cached count and no clamps here;
  module SignUpTable shows that the participant table behaves like this machine.
 */
module SignUpQueue {
  import opened Common

  type UserId = int

  datatype ActivityStatus = Pending | Published | Rejected | Cancelled

  datatype Desk = Desk(
    host: UserId,
    status: ActivityStatus,
    capacity: int,
    joined: set<UserId>,
    queue: seq<UserId>,
    gone: set<UserId>)  // users whose participant row says "quit"

  // The capacity field of an edit: not sent, sent as null, or sent with a value.
  datatype CapacityEdit = Unset | Null | Value(capacity: int)

  datatype ReviewAction = Approve | Reject | Unknown

  datatype Request =
    | JoinRequest(user: UserId, limited: bool)
    | QuitRequest(user: UserId)
    | WaitRequest(user: UserId, limited: bool)
    | LeaveRequest(user: UserId)
    | UpdateRequest(user: UserId, edit: CapacityEdit)
    | CancelRequest(user: UserId)
    | ReviewRequest(action: ReviewAction)

  datatype Error = UserLimited | NotFound | Forbidden | Full | AlreadyJoined | Invalid

  datatype Reply =
    | Refused(error: Error)
    | Seated(count: int, already: bool)
    | NotJoined(count: int)
    | Waiting(position: int, count: int)
    | NotWaiting
    | Edited
    | CancelDone
    | Reviewed(status: ActivityStatus)

  // ---------- sequences without repetition ----------

  function Elems(q: seq<UserId>): set<UserId> {
    set u | u in q
  }

  ghost predicate Distinct(q: seq<UserId>) {
    forall i, j :: 0 <= i < j < |q| ==> q[i] != q[j]
  }

  function Without(q: seq<UserId>, u: UserId): seq<UserId> {
    if q == [] then [] else if q[0] == u then Without(q[1..], u) else [q[0]] + Without(q[1..], u)
  }

  // The 1-based rank of a waiting user; 0 for anyone else.
  function Position(q: seq<UserId>, u: UserId): nat {
    if u !in q then 0 else if q[0] == u then 1 else 1 + Position(q[1..], u)
  }

  // ---------- the machine ----------

  function FreeSeats(d: Desk): nat {
    if d.capacity > |d.joined| then d.capacity - |d.joined| else 0
  }

  // Seats the first k waiters at once.
  function SeatFirst(d: Desk, k: nat): Desk
    requires k <= |d.queue|
  {
    d.(joined := d.joined + Elems(d.queue[..k]), queue := d.queue[k..])
  }

  function PromotionCount(d: Desk): (k: nat)
    ensures k <= |d.queue| && k <= FreeSeats(d) && (k == |d.queue| || k == FreeSeats(d))
  {
    if FreeSeats(d) < |d.queue| then FreeSeats(d) else |d.queue|
  }

  function Promote(d: Desk): Desk {
    SeatFirst(d, PromotionCount(d))
  }

  function Join(d: Desk, u: UserId, limited: bool): (Desk, Reply) {
    if limited then (d, Refused(UserLimited))
    else if d.status != Published then (d, Refused(NotFound))
    else if u in d.joined then (d, Seated(|d.joined|, true))
    else if |d.joined| >= d.capacity then (d, Refused(Full))
    else (d.(joined := d.joined + {u}, gone := d.gone - {u}), Seated(|d.joined| + 1, false))
  }

  // A seated user gives the seat back; nobody is promoted yet.
  function Vacate(d: Desk, u: UserId): Desk {
    d.(joined := d.joined - {u}, gone := d.gone + {u})
  }

  function Thin(d: Desk, u: UserId): Desk {
    d.(queue := Without(d.queue, u), gone := d.gone + {u})
  }

  function Quit(d: Desk, u: UserId): (Desk, Reply) {
    if d.status == Cancelled then (d, Refused(NotFound))
    else if u == d.host then (d, Refused(Forbidden))
    else if u in d.joined then
      var d1 := Promote(Vacate(d, u));
      (d1, NotJoined(|d1.joined|))
    else if u in d.queue then (Thin(d, u), NotJoined(|d.joined|))
    else (d, NotJoined(|d.joined|))
  }

  function JoinWaitlist(d: Desk, u: UserId, limited: bool): (Desk, Reply) {
    if limited then (d, Refused(UserLimited))
    else if d.status != Published then (d, Refused(NotFound))
    else if u == d.host then (d, Refused(Forbidden))
    else if u in d.joined then (d, Refused(AlreadyJoined))
    else if |d.joined| < d.capacity then (d, Refused(Invalid))
    else if u in d.queue then (d, Waiting(Position(d.queue, u), |d.joined|))
    else (d.(queue := d.queue + [u], gone := d.gone - {u}), Waiting(|d.queue| + 1, |d.joined|))
  }

  function LeaveWaitlist(d: Desk, u: UserId): (Desk, Reply) {
    (if u in d.queue then Thin(d, u) else d, NotWaiting)
  }

  function SetCapacity(d: Desk, edit: CapacityEdit): Desk {
    if edit.Value? then d.(capacity := edit.capacity) else d
  }

  function Update(d: Desk, u: UserId, edit: CapacityEdit): (Desk, Reply) {
    if d.status == Cancelled then (d, Refused(NotFound))
    else if u != d.host then (d, Refused(Forbidden))
    else if !edit.Unset? && d.status == Published then (Promote(SetCapacity(d, edit)), Edited)
    else (SetCapacity(d, edit), Edited)
  }

  function Cancel(d: Desk, u: UserId): (Desk, Reply) {
    if u != d.host then (d, Refused(Forbidden)) else (d.(status := Cancelled), CancelDone)
  }

  function Review(d: Desk, action: ReviewAction): (Desk, Reply) {
    if action == Unknown then (d, Refused(Invalid))
    else if d.status == Cancelled then (d, Refused(NotFound))
    else if d.status != Pending then (d, Refused(Invalid))
    else
      var status := if action == Approve then Published else Rejected;
      (d.(status := status), Reviewed(status))
  }

  function Serve(d: Desk, r: Request): (Desk, Reply) {
    match r
    case JoinRequest(u, limited) => Join(d, u, limited)
    case QuitRequest(u) => Quit(d, u)
    case WaitRequest(u, limited) => JoinWaitlist(d, u, limited)
    case LeaveRequest(u) => LeaveWaitlist(d, u)
    case UpdateRequest(u, edit) => Update(d, u, edit)
    case CancelRequest(u) => Cancel(d, u)
    case ReviewRequest(action) => Review(d, action)
  }

  function Open(host: UserId, capacity: int): Desk {
    Desk(host, Pending, capacity, {host}, [], {})
  }

  function Run(d: Desk, rs: seq<Request>): Desk
    decreases |rs|
  {
    if rs == [] then d else Run(Serve(d, rs[0]).0, rs[1..])
  }

  // ---------- the invariant ----------

  ghost predicate Tidy(d: Desk) {
    && d.host in d.joined
    && Distinct(d.queue)
    && (forall u <- d.queue :: u !in d.joined && u !in d.gone)
    && d.joined !! d.gone
    && ((d.status == Pending || d.status == Rejected) ==> d.queue == [] && d.joined == {d.host})
  }

  // No seat is idle while someone waits.
  ghost predicate NoIdleSeat(d: Desk) {
    d.queue != [] ==> |d.joined| >= d.capacity
  }

  ghost predicate Inv(d: Desk) {
    Tidy(d) && NoIdleSeat(d)
  }

  lemma {:induction false} WithoutFacts(q: seq<UserId>, u: UserId)
    requires Distinct(q)
    ensures Distinct(Without(q, u)) && |Without(q, u)| <= |q|
    ensures forall w :: w in Without(q, u) <==> w in q && w != u
  {
    if q != [] {
      WithoutFacts(q[1..], u);
      assert q[0] !in q[1..];
      assert q[0] !in Without(q[1..], u);
      assert forall w :: w in q <==> w == q[0] || w in q[1..];
    }
  }

  // Removing a user never moves anybody else back, and keeps who stands before whom.
  lemma {:induction false} WithoutKeepsOrder(q: seq<UserId>, u: UserId, w: UserId)
    requires Distinct(q) && w in q && w != u
    ensures w in Without(q, u)
    ensures Position(Without(q, u), w) == Position(q, w) - (if u in q && Position(q, u) < Position(q, w) then 1 else 0)
  {
    WithoutFacts(q, u);
    if q[0] == u {
      assert u !in q[1..];
      WithoutAbsent(q[1..], u);
    } else {
      assert Without(q, u) == [q[0]] + Without(q[1..], u);
      assert Without(q, u)[1..] == Without(q[1..], u);
      if q[0] != w {
        WithoutKeepsOrder(q[1..], u, w);
      }
    }
  }

  lemma {:induction false} WithoutAbsent(q: seq<UserId>, u: UserId)
    requires u !in q
    ensures Without(q, u) == q
  {
    if q != [] {
      WithoutAbsent(q[1..], u);
    }
  }

  lemma {:induction false} PositionIsRank(q: seq<UserId>, i: nat)
    requires Distinct(q) && i < |q|
    ensures Position(q, q[i]) == i + 1
  {
    if i > 0 {
      PositionIsRank(q[1..], i - 1);
    }
  }

  lemma {:induction false} PositionAppend(q: seq<UserId>, u: UserId, w: UserId)
    ensures w in q ==> Position(q + [u], w) == Position(q, w)
    ensures w !in q && w == u ==> Position(q + [u], w) == |q| + 1
  {
    if q == [] {
      assert q + [u] == [u];
    } else {
      assert (q + [u])[1..] == q[1..] + [u];
      PositionAppend(q[1..], u, w);
    }
  }

  // Dropping the first k waiters lowers every other position by k.
  lemma {:induction false} PositionAfterDrop(q: seq<UserId>, k: nat, w: UserId)
    requires Distinct(q) && k <= |q| && w in q[k..]
    ensures Position(q[k..], w) == Position(q, w) - k
  {
    var i :| 0 <= i < |q[k..]| && q[k..][i] == w;
    PositionIsRank(q[k..], i);
    assert q[i + k] == w;
    PositionIsRank(q, i + k);
  }

  lemma {:induction false} ElemsSize(q: seq<UserId>)
    requires Distinct(q)
    ensures |Elems(q)| == |q|
  {
    if q != [] {
      ElemsSize(q[1..]);
      assert Elems(q) == {q[0]} + Elems(q[1..]);
    }
  }

  lemma SeatFirstSize(d: Desk, k: nat)
    requires Tidy(d) && k <= |d.queue|
    ensures |SeatFirst(d, k).joined| == |d.joined| + k
  {
    ElemsSize(d.queue[..k]);
    assert d.joined !! Elems(d.queue[..k]);
  }

  /** Promotion fills exactly min(waiters, free seats) seats, in queue order, and leaves no seat idle. */
  lemma PromoteFillsSeats(d: Desk)
    requires Tidy(d)
    ensures var d1, k := Promote(d), PromotionCount(d);
      && Inv(d1)
      && |d1.joined| == |d.joined| + k
      && d1.queue == d.queue[k..]
      && (k > 0 ==> |d1.joined| <= d1.capacity)
  {
    SeatFirstSize(d, PromotionCount(d));
    var k := PromotionCount(d);
    forall u <- d.queue[k..] ensures u !in Elems(d.queue[..k]) {
      var i :| k <= i < |d.queue| && d.queue[i] == u;
    }
  }

  lemma ThinKeepsInv(d: Desk, u: UserId)
    requires Inv(d) && u in d.queue
    ensures Inv(Thin(d, u))
  {
    WithoutFacts(d.queue, u);
  }

  lemma VacateKeepsTidy(d: Desk, u: UserId)
    requires Tidy(d) && u in d.joined && u != d.host
    ensures Tidy(Vacate(d, u)) && 1 <= |Vacate(d, u).joined| == |d.joined| - 1
  {
    assert d.host in Vacate(d, u).joined;
  }

  lemma QuitKeepsInv(d: Desk, u: UserId)
    requires Inv(d)
    ensures Inv(Quit(d, u).0)
  {
    if u in d.joined && u != d.host {
      PromoteFillsSeats(Vacate(d, u));
    } else if u in d.queue {
      ThinKeepsInv(d, u);
    }
  }

  lemma UpdateKeepsInv(d: Desk, u: UserId, edit: CapacityEdit)
    requires Inv(d)
    ensures Inv(Update(d, u, edit).0)
  {
    if d.status == Published {
      PromoteFillsSeats(SetCapacity(d, edit));
    } else if d.status != Cancelled {
      assert d.queue == [];
    }
  }

  lemma ServeKeepsInv(d: Desk, r: Request)
    requires Inv(d)
    ensures Inv(Serve(d, r).0)
  {
    match r
    case QuitRequest(u) => QuitKeepsInv(d, u);
    case LeaveRequest(u) => if u in d.queue { ThinKeepsInv(d, u); }
    case UpdateRequest(u, edit) => UpdateKeepsInv(d, u, edit);
    case _ =>
  }

  /** Every reachable desk: the host is seated, nobody is in two places, no seat is idle while someone waits. */
  lemma {:induction false} RunKeepsInv(d: Desk, rs: seq<Request>)
    requires Inv(d)
    ensures Inv(Run(d, rs))
    decreases |rs|
  {
    if rs != [] {
      ServeKeepsInv(d, rs[0]);
      RunKeepsInv(Serve(d, rs[0]).0, rs[1..]);
    }
  }

  lemma ReachableIsInv(host: UserId, capacity: int, rs: seq<Request>)
    ensures Inv(Run(Open(host, capacity), rs))
  {
    RunKeepsInv(Open(host, capacity), rs);
  }

  /** A direct join takes a seat only when nobody at all is waiting. */
  lemma JoinNeverJumpsTheQueue(host: UserId, capacity: int, rs: seq<Request>, u: UserId, limited: bool)
    ensures var d := Run(Open(host, capacity), rs);
      var (d1, reply) := Join(d, u, limited);
      && (d1.joined != d.joined ==> d.queue == [] && d1.joined == d.joined + {u})
      && (u in d.queue ==> reply.Refused?)
  {
    ReachableIsInv(host, capacity, rs);
  }

  // ---------- fairness over whole runs ----------

  ghost predicate GivesUp(r: Request, u: UserId) {
    r == QuitRequest(u) || r == LeaveRequest(u)
  }

  // u has a seat, or waits with v neither seated nor ahead.
  ghost predicate NotBehind(d: Desk, u: UserId, v: UserId) {
    || u in d.joined
    || (u in d.queue && v !in d.joined && (v in d.queue ==> Position(d.queue, u) < Position(d.queue, v)))
  }

  // Cutting the front off the queue keeps who stands before whom.
  lemma DropKeepsOrder(q: seq<UserId>, k: nat, u: UserId, v: UserId)
    requires Distinct(q) && k <= |q| && u in q[k..] && u != v
    requires v in q ==> Position(q, u) < Position(q, v)
    ensures v in q ==> v in q[k..] && Position(q[k..], u) < Position(q[k..], v)
  {
    PositionAfterDrop(q, k, u);
    if v in q {
      PositionFinds(q, v);
      PositionFinds(q[k..], u);
      assert v == q[k..][Position(q, v) - 1 - k];
      PositionAfterDrop(q, k, v);
    }
  }

  lemma TailOrHead(q: seq<UserId>, k: nat, u: UserId)
    requires k <= |q|
    ensures u in q <==> u in q[..k] || u in q[k..]
  {
    assert q == q[..k] + q[k..];
  }

  lemma SeatFirstKeepsOrder(d: Desk, k: nat, u: UserId, v: UserId)
    requires Distinct(d.queue) && k <= |d.queue| && u != v && NotBehind(d, u, v)
    ensures NotBehind(SeatFirst(d, k), u, v)
  {
    TailOrHead(d.queue, k, u);
    TailOrHead(d.queue, k, v);
    if u !in SeatFirst(d, k).joined {
      DropKeepsOrder(d.queue, k, u, v);
      HeadIsNotTail(d.queue, k, v);
    }
  }

  lemma HeadIsNotTail(q: seq<UserId>, k: nat, u: UserId)
    requires Distinct(q) && k <= |q|
    ensures !(u in q[..k] && u in q[k..])
  {
  }

  lemma ThinningKeepsOrder(q: seq<UserId>, w: UserId, u: UserId, v: UserId)
    requires Distinct(q) && u in q && u != w && u != v
    requires v in q ==> Position(q, u) < Position(q, v)
    ensures u in Without(q, w)
    ensures v in Without(q, w) ==> Position(Without(q, w), u) < Position(Without(q, w), v)
  {
    assert v in Without(q, w) ==> v in q && v != w by { WithoutFacts(q, w); }
    WithoutKeepsOrder(q, w, u);
    if v in Without(q, w) {
      WithoutKeepsOrder(q, w, v);
      if w in q { PositionsDiffer(q, u, w); }
    }
  }

  lemma PositionsDiffer(q: seq<UserId>, u: UserId, w: UserId)
    requires u in q && w in q && u != w
    ensures Position(q, u) != Position(q, w)
  {
    PositionFinds(q, u);
    PositionFinds(q, w);
  }

  lemma QuitKeepsOrder(d: Desk, w: UserId, u: UserId, v: UserId)
    requires Inv(d) && u != v && u != w && NotBehind(d, u, v)
    ensures NotBehind(Quit(d, w).0, u, v)
  {
    if w in d.joined && w != d.host {
      SeatFirstKeepsOrder(Vacate(d, w), PromotionCount(Vacate(d, w)), u, v);
    } else if w != d.host && u !in d.joined {
      ThinningKeepsOrder(d.queue, w, u, v);
    }
  }

  lemma WaitKeepsOrder(d: Desk, w: UserId, limited: bool, u: UserId, v: UserId)
    requires Inv(d) && u != v && NotBehind(d, u, v)
    ensures NotBehind(JoinWaitlist(d, w, limited).0, u, v)
  {
    PositionAppend(d.queue, w, u);
    PositionAppend(d.queue, w, v);
    if u in d.queue { PositionFinds(d.queue, u); }
  }

  lemma ServeKeepsOrder(d: Desk, r: Request, u: UserId, v: UserId)
    requires Inv(d) && u != v && NotBehind(d, u, v) && !GivesUp(r, u)
    ensures NotBehind(Serve(d, r).0, u, v)
  {
    match r
    case QuitRequest(w) => QuitKeepsOrder(d, w, u, v);
    case WaitRequest(w, limited) => WaitKeepsOrder(d, w, limited, u, v);
    case LeaveRequest(w) => if u !in d.joined { ThinningKeepsOrder(d.queue, w, u, v); }
    case UpdateRequest(_, edit) =>
      SeatFirstKeepsOrder(SetCapacity(d, edit), PromotionCount(SetCapacity(d, edit)), u, v);
    case _ =>
  }

  lemma {:induction false} PositionFinds(q: seq<UserId>, u: UserId)
    requires u in q
    ensures 1 <= Position(q, u) <= |q| && q[Position(q, u) - 1] == u
  {
    if q[0] != u {
      PositionFinds(q[1..], u);
    }
  }

  /** Nobody overtakes: while u keeps waiting, no one who was behind u, or not yet queued, is seated first. */
  lemma {:induction false} NoOvertaking(d: Desk, rs: seq<Request>, u: UserId, v: UserId)
    requires Inv(d) && u != v && NotBehind(d, u, v)
    requires forall r <- rs :: !GivesUp(r, u)
    ensures NotBehind(Run(d, rs), u, v)
    ensures v in Run(d, rs).joined ==> u in Run(d, rs).joined
    decreases |rs|
  {
    if rs != [] {
      ServeKeepsInv(d, rs[0]);
      ServeKeepsOrder(d, rs[0], u, v);
      NoOvertaking(Serve(d, rs[0]).0, rs[1..], u, v);
    }
  }

  // u is seated, or waits no further back than before.
  ghost predicate NotDelayed(d: Desk, d1: Desk, u: UserId) {
    u in d1.joined || (u in d1.queue && Position(d1.queue, u) <= Position(d.queue, u))
  }

  lemma PromoteNeverDelays(d: Desk, u: UserId)
    requires Distinct(d.queue) && u in d.queue
    ensures NotDelayed(d, Promote(d), u)
  {
    var k := PromotionCount(d);
    assert d.queue == d.queue[..k] + d.queue[k..];
    if u in d.queue[k..] {
      PositionAfterDrop(d.queue, k, u);
    }
  }

  lemma QuitNeverDelays(d: Desk, w: UserId, u: UserId)
    requires Inv(d) && u in d.queue && w != u
    ensures NotDelayed(d, Quit(d, w).0, u)
  {
    if w in d.joined {
      PromoteNeverDelays(Vacate(d, w), u);
    } else {
      WithoutKeepsOrder(d.queue, w, u);
    }
  }

  lemma UpdateNeverDelays(d: Desk, w: UserId, edit: CapacityEdit, u: UserId)
    requires Inv(d) && u in d.queue
    ensures NotDelayed(d, Update(d, w, edit).0, u)
  {
    if d.status == Published {
      PromoteNeverDelays(SetCapacity(d, edit), u);
    }
  }

  /** The queue is only ever cut at the front, thinned, or appended to, so a position never grows. */
  lemma ServeNeverDelays(d: Desk, r: Request, u: UserId)
    requires Inv(d) && u in d.queue && !GivesUp(r, u)
    ensures NotDelayed(d, Serve(d, r).0, u)
  {
    match r
    case QuitRequest(w) => QuitNeverDelays(d, w, u);
    case WaitRequest(w, _) => PositionAppend(d.queue, w, u);
    case LeaveRequest(w) => WithoutKeepsOrder(d.queue, w, u);
    case UpdateRequest(w, edit) => UpdateNeverDelays(d, w, edit, u);
    case JoinRequest(_, _) =>
    case CancelRequest(_) =>
    case ReviewRequest(_) =>
  }

  lemma {:induction false} PositionNeverGrows(d: Desk, rs: seq<Request>, u: UserId)
    requires Inv(d) && u in d.queue
    requires forall r <- rs :: !GivesUp(r, u)
    ensures NotDelayed(d, Run(d, rs), u)
    decreases |rs|
  {
    if rs != [] {
      var d1 := Serve(d, rs[0]).0;
      ServeKeepsInv(d, rs[0]);
      ServeNeverDelays(d, rs[0], u);
      if u in d1.queue {
        PositionNeverGrows(d1, rs[1..], u);
      } else {
        SeatIsKept(d1, rs[1..], u);
      }
    }
  }

  lemma {:induction false} SeatIsKept(d: Desk, rs: seq<Request>, u: UserId)
    requires u in d.joined
    requires forall r <- rs :: !GivesUp(r, u)
    ensures u in Run(d, rs).joined
    decreases |rs|
  {
    if rs != [] {
      ServeKeepsSeat(d, rs[0], u);
      SeatIsKept(Serve(d, rs[0]).0, rs[1..], u);
    }
  }

  lemma ServeKeepsSeat(d: Desk, r: Request, u: UserId)
    requires u in d.joined && !GivesUp(r, u)
    ensures u in Serve(d, r).0.joined
  {
  }

  /** When a seated member quits, the whole queue moves up by one exactly if the desk was not overfull. */
  lemma QuitMovesQueueByOne(d: Desk, u: UserId)
    requires Inv(d) && d.status != Cancelled && u != d.host && u in d.joined && d.queue != []
    ensures var d1 := Quit(d, u).0;
      if |d.joined| == d.capacity then
        && d1.queue == d.queue[1..] && d1.joined == d.joined - {u} + {d.queue[0]}
        && forall w <- d1.queue :: Position(d1.queue, w) == Position(d.queue, w) - 1
      else d1.queue == d.queue && d1.joined == d.joined - {u}
  {
    VacateFreesOne(d, u);
    if |d.joined| == d.capacity {
      assert Elems(d.queue[..1]) == {d.queue[0]};
      FirstLeaves(d.queue);
    } else {
      assert d.queue[0..] == d.queue;
      assert Elems(d.queue[..0]) == {};
    }
  }

  // With someone waiting, a vacated seat is free exactly when the seats equalled the capacity.
  lemma VacateFreesOne(d: Desk, u: UserId)
    requires Inv(d) && u in d.joined && u != d.host && d.queue != []
    ensures PromotionCount(Vacate(d, u)) == if |d.joined| == d.capacity then 1 else 0
  {
    VacateKeepsTidy(d, u);
  }

  lemma FirstLeaves(q: seq<UserId>)
    requires Distinct(q) && q != []
    ensures forall w <- q[1..] :: Position(q[1..], w) == Position(q, w) - 1
  {
    forall w <- q[1..] ensures Position(q[1..], w) == Position(q, w) - 1 {
      PositionAfterDrop(q, 1, w);
    }
  }

  // ---------- seats against capacity ----------

  lemma PromoteFits(d: Desk)
    requires Tidy(d)
    ensures |d.joined| <= |Promote(d).joined| && Promote(d).capacity == d.capacity
    ensures |Promote(d).joined| == |d.joined| || |Promote(d).joined| <= d.capacity
  {
    SeatFirstSize(d, PromotionCount(d));
  }

  lemma QuitFits(d: Desk, u: UserId)
    requires Inv(d)
    ensures Quit(d, u).0.capacity == d.capacity
    ensures |Quit(d, u).0.joined| <= |d.joined|
  {
    if u in d.joined && u != d.host {
      PromoteFillsSeats(Vacate(d, u));
      assert |Vacate(d, u).joined| == |d.joined| - 1;
    }
  }

  lemma UpdateFits(d: Desk, u: UserId, edit: CapacityEdit)
    requires Inv(d)
    ensures var d1 := Update(d, u, edit).0;
      && |d1.joined| >= |d.joined|
      && (|d1.joined| > |d.joined| ==> |d1.joined| <= d1.capacity)
  {
    if d.status == Published {
      PromoteFits(SetCapacity(d, edit));
    }
  }

  /** A step that adds a seat ends within capacity. */
  lemma RisingStepFits(d: Desk, r: Request)
    requires Inv(d) && |Serve(d, r).0.joined| > |d.joined|
    ensures |Serve(d, r).0.joined| <= Serve(d, r).0.capacity
  {
    match r
    case QuitRequest(u) => QuitFits(d, u);
    case UpdateRequest(u, edit) => UpdateFits(d, u, edit);
    case _ =>
  }

  lemma OnlyUpdateSetsCapacity(d: Desk, r: Request)
    requires !r.UpdateRequest?
    ensures Serve(d, r).0.capacity == d.capacity
  {
    match r
    case QuitRequest(_) =>
    case _ =>
  }

  /** A desk becomes overfull exactly when its host lowers the capacity below the seats taken. */
  lemma OverfullOnlyByLowering(d: Desk, r: Request)
    requires Inv(d) && |d.joined| <= d.capacity
    ensures var d1 := Serve(d, r).0;
      |d1.joined| > d1.capacity <==>
        r.UpdateRequest? && r.edit.Value? && d.status != Cancelled && r.user == d.host && r.edit.capacity < |d.joined|
  {
    if r.UpdateRequest? {
      UpdateFits(d, r.user, r.edit);
    } else {
      OnlyUpdateSetsCapacity(d, r);
      if |Serve(d, r).0.joined| > |d.joined| { RisingStepFits(d, r); }
    }
  }

  // The largest capacity the desk has had along a run.
  function PeakCapacity(d: Desk, rs: seq<Request>): int
    decreases |rs|
  {
    if rs == [] then d.capacity
    else
      var later := PeakCapacity(Serve(d, rs[0]).0, rs[1..]);
      if later > d.capacity then later else d.capacity
  }

  lemma {:induction false} SeatsWithinPeak(d: Desk, rs: seq<Request>)
    requires Inv(d)
    ensures |Run(d, rs).joined| <= |d.joined| || |Run(d, rs).joined| <= PeakCapacity(d, rs)
    decreases |rs|
  {
    if rs != [] {
      ServeKeepsInv(d, rs[0]);
      var d1 := Serve(d, rs[0]).0;
      SeatsWithinPeak(d1, rs[1..]);
      if |d1.joined| > |d.joined| {
        RisingStepFits(d, rs[0]);
        CapacityWithinPeak(d1, rs[1..]);
      }
    }
  }

  lemma CapacityWithinPeak(d: Desk, rs: seq<Request>)
    ensures d.capacity <= PeakCapacity(d, rs)
  {
  }

  /** The seats taken never exceed the largest capacity the activity ever had. */
  lemma SeatsNeverAbovePeakCapacity(host: UserId, capacity: int, rs: seq<Request>)
    requires 2 <= capacity <= 200
    ensures var d := Open(host, capacity);
      1 <= |Run(d, rs).joined| <= PeakCapacity(d, rs)
  {
    var d := Open(host, capacity);
    ReachableIsInv(host, capacity, rs);
    SeatsWithinPeak(d, rs);
    CapacityWithinPeak(d, rs);
    HostNeverChanges(d, rs);
    assert host in Run(d, rs).joined;
  }

  lemma {:induction false} HostNeverChanges(d: Desk, rs: seq<Request>)
    ensures Run(d, rs).host == d.host
    decreases |rs|
  {
    if rs != [] {
      ServeKeepsHost(d, rs[0]);
      HostNeverChanges(Serve(d, rs[0]).0, rs[1..]);
    }
  }

  lemma ServeKeepsHost(d: Desk, r: Request)
    ensures Serve(d, r).0.host == d.host
  {
  }

  // ---------- what each request does, on the fields of the desk ----------

  // q1 is q with its one entry for u taken out, everybody else in place.
  ghost predicate IsRemoval(q: seq<UserId>, q1: seq<UserId>, u: UserId) {
    exists k | 0 <= k < |q| :: q[k] == u && q1 == q[..k] + q[k + 1..]
  }

  lemma {:induction false} WithoutIsRemoval(q: seq<UserId>, u: UserId)
    requires Distinct(q) && u in q
    ensures IsRemoval(q, Without(q, u), u)
  {
    if q[0] == u {
      WithoutAbsent(q[1..], u);
      assert Without(q, u) == q[..0] + q[0 + 1..];
    } else {
      WithoutIsRemoval(q[1..], u);
      var k :| 0 <= k < |q[1..]| && q[1..][k] == u && Without(q[1..], u) == q[1..][..k] + q[1..][k + 1..];
      assert Without(q, u) == q[..k + 1] + q[k + 1 + 1..];
    }
  }

  /** In every reachable published desk, exactly one of the two doors is open to a newcomer: a direct join seats
      that user and nobody else if and only if there is a free seat; otherwise the waitlist takes the user at the
      back, or keeps the place the user has. */
  lemma OneDoorIsOpen(host: UserId, capacity: int, rs: seq<Request>, u: UserId)
    requires var d := Run(Open(host, capacity), rs); d.status == Published && u != d.host && u !in d.joined
    ensures var d := Run(Open(host, capacity), rs);
      if |d.joined| < d.capacity then
        && Join(d, u, false) == (d.(joined := d.joined + {u}, gone := d.gone - {u}), Seated(|d.joined| + 1, false))
        && JoinWaitlist(d, u, false) == (d, Refused(Invalid))
      else
        && Join(d, u, false) == (d, Refused(Full))
        && var (d1, reply) := JoinWaitlist(d, u, false);
           && d1 == d.(queue := if u in d.queue then d.queue else d.queue + [u], gone := d.gone - {u})
           && reply.Waiting? && reply.count == |d.joined|
           && 1 <= reply.position <= |d1.queue| && d1.queue[reply.position - 1] == u
  {
    var d := Run(Open(host, capacity), rs);
    ReachableIsInv(host, capacity, rs);
    if u in d.queue {
      PositionFinds(d.queue, u);
      assert d.gone - {u} == d.gone;
    }
  }

  /** A limited user, an unpublished desk, the host and a seated user get the answers they should, and change
      nothing. */
  lemma RefusalsChangeNothing(d: Desk, u: UserId, limited: bool)
    requires Inv(d) && (limited || d.status != Published || u == d.host || u in d.joined)
    ensures Join(d, u, limited) ==
      (d, if limited then Refused(UserLimited) else if d.status != Published then Refused(NotFound)
          else Seated(|d.joined|, true))
    ensures JoinWaitlist(d, u, limited) ==
      (d, if limited then Refused(UserLimited) else if d.status != Published then Refused(NotFound)
          else if u == d.host then Refused(Forbidden) else Refused(AlreadyJoined))
  {
  }

  /** A seated member who quits frees one seat, and the first waiter gets it exactly when the seats equalled
      capacity; a waiter who quits is taken off the queue; anyone else changes nothing. */
  lemma QuitEffect(d: Desk, u: UserId)
    requires Inv(d) && d.status != Cancelled && u != d.host
    ensures var (d1, reply) := Quit(d, u);
      && reply == NotJoined(|d1.joined|)
      && if u in d.joined then
           var k := if d.queue != [] && |d.joined| == d.capacity then 1 else 0;
           d1 == d.(joined := d.joined - {u} + Elems(d.queue[..k]), queue := d.queue[k..], gone := d.gone + {u})
         else if u in d.queue then
           d1 == d.(queue := d1.queue, gone := d.gone + {u}) && IsRemoval(d.queue, d1.queue, u)
         else d1 == d
  {
    if u in d.joined {
      if d.queue != [] { VacateFreesOne(d, u); }
    } else if u in d.queue {
      WithoutIsRemoval(d.queue, u);
    }
  }

  lemma QuitRefused(d: Desk, u: UserId)
    requires d.status == Cancelled || u == d.host
    ensures Quit(d, u) == (d, Refused(if d.status == Cancelled then NotFound else Forbidden))
  {
  }

  /** Leaving the waitlist takes exactly that user off it, whatever the status. */
  lemma LeaveEffect(d: Desk, u: UserId)
    requires Inv(d)
    ensures var (d1, reply) := LeaveWaitlist(d, u);
      && reply == NotWaiting
      && if u in d.queue then d1 == d.(queue := d1.queue, gone := d.gone + {u}) && IsRemoval(d.queue, d1.queue, u)
         else d1 == d
  {
    if u in d.queue { WithoutIsRemoval(d.queue, u); }
  }

  /** Only the host of a desk that is not cancelled edits it; sending a capacity while published seats exactly as many
      waiters as fit, from the front. */
  lemma UpdateEffect(d: Desk, u: UserId, edit: CapacityEdit)
    requires Inv(d)
    ensures var (d1, reply) := Update(d, u, edit);
      if d.status == Cancelled then reply == Refused(NotFound) && d1 == d
      else if u != d.host then reply == Refused(Forbidden) && d1 == d
      else
        var capacity := if edit.Value? then edit.capacity else d.capacity;
        var k := if d.status == Published && !edit.Unset? then Min(|d.queue|, Max(0, capacity - |d.joined|)) else 0;
        && reply == Edited
        && d1 == d.(capacity := capacity, joined := d.joined + Elems(d.queue[..k]), queue := d.queue[k..])
  {
    assert d.joined + Elems(d.queue[..0]) == d.joined;
    assert d.queue[0..] == d.queue;
  }

  /** Approval publishes and refusal rejects a pending desk; any other review is refused and changes nothing. */
  lemma ReviewEffect(d: Desk, action: ReviewAction)
    ensures var (d1, reply) := Review(d, action);
      if d.status == Pending && action == Approve then d1 == d.(status := Published) && reply == Reviewed(Published)
      else if d.status == Pending && action == Reject then d1 == d.(status := Rejected) && reply == Reviewed(Rejected)
      else
        && d1 == d
        && reply == Refused(if d.status == Cancelled && action != Unknown then NotFound else Invalid)
  {
  }

  lemma CancelEffect(d: Desk, u: UserId)
    ensures Cancel(d, u) == if u == d.host then (d.(status := Cancelled), CancelDone) else (d, Refused(Forbidden))
  {
  }

  lemma CancelledStep(d: Desk, r: Request)
    requires d.status == Cancelled && Distinct(d.queue)
    ensures var d1 := Serve(d, r).0;
      && d1.(queue := [], gone := {}) == d.(queue := [], gone := {})
      && Distinct(d1.queue) && forall w :: w in d1.queue <==> w in d.queue && r != LeaveRequest(w)
  {
    match r
    case LeaveRequest(u) => WithoutFacts(d.queue, u);
    case _ =>
  }

  /** Once cancelled, no run seats, removes or readmits anybody: only waiters can still take themselves off. */
  lemma {:induction false} CancelledIsFrozen(d: Desk, rs: seq<Request>)
    requires d.status == Cancelled && Distinct(d.queue)
    ensures Run(d, rs).(queue := [], gone := {}) == d.(queue := [], gone := {})
    ensures forall w :: w in Run(d, rs).queue <==> w in d.queue && LeaveRequest(w) !in rs
    decreases |rs|
  {
    if rs != [] {
      CancelledStep(d, rs[0]);
      CancelledIsFrozen(Serve(d, rs[0]).0, rs[1..]);
      assert forall w :: LeaveRequest(w) in rs <==> rs[0] == LeaveRequest(w) || LeaveRequest(w) in rs[1..];
    }
  }

  /** Approval lets the first newcomer in. */
  lemma ApprovalOpensTheDoor(host: UserId, capacity: int, u: UserId)
    requires capacity >= 2 && u != host
    ensures Run(Open(host, capacity), [ReviewRequest(Approve), JoinRequest(u, false)]).joined == {host, u}
  {
    var rs := [ReviewRequest(Approve), JoinRequest(u, false)];
    var d := Open(host, capacity).(status := Published);
    assert rs[1..] == [rs[1]] && [rs[1]][1..] == [];
    assert Serve(Open(host, capacity), rs[0]).0 == d;
    assert Run(d, [rs[1]]) == Run(Join(d, u, false).0, []);
  }

  lemma {:induction false} ShutStaysShut(d: Desk, rs: seq<Request>)
    requires Inv(d) && (d.status == Rejected || d.status == Cancelled) && d.queue == []
    ensures Run(d, rs).joined == d.joined && Run(d, rs).status in {Rejected, Cancelled}
    decreases |rs|
  {
    if rs != [] {
      ServeKeepsInv(d, rs[0]);
      ShutStep(d, rs[0]);
      ShutStaysShut(Serve(d, rs[0]).0, rs[1..]);
    }
  }

  lemma ShutStep(d: Desk, r: Request)
    requires Inv(d) && (d.status == Rejected || d.status == Cancelled) && d.queue == []
    ensures var d1 := Serve(d, r).0;
      d1.joined == d.joined && d1.queue == [] && (d1.status == Rejected || d1.status == Cancelled)
  {
    match r
    case QuitRequest(_) =>
    case _ =>
  }

  /** Rejection never lets anyone but the host in, over any later run. */
  lemma RejectionShutsTheDoor(host: UserId, capacity: int, rs: seq<Request>)
    ensures Run(Open(host, capacity), [ReviewRequest(Reject)] + rs).joined == {host}
  {
    var d := Open(host, capacity);
    assert ([ReviewRequest(Reject)] + rs)[1..] == rs;
    ShutStaysShut(d.(status := Rejected), rs);
  }
}
