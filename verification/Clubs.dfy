/**
  A club, its cached member count and its group chat. The roster alone is a plain machine; the
  count and the chat are proved to follow it in every operation, and the roster's own promises
  are proved over whole runs, including the step that brings a dissolved club back.
 */
module Clubs {
  import opened Common

  type UserId = int

  datatype Role = OWNER | ADMIN | MEMBER

  datatype Standing = ACTIVE | LEFT | KICKED

  datatype ClubStatus = Live | Hidden | Dissolved

  datatype Member = Member(role: Role, standing: Standing)

  type Members = map<UserId, Member>

  datatype Roster = Roster(
    creator: Option<UserId>,  // absent for official clubs
    official: bool,
    status: ClubStatus,
    everDissolved: bool,      // dissolved_at is set and never cleared
    members: Members)

  datatype Error = NotFound | Limited | NotAllowed | Invalid

  datatype AdminAction = Hide | Unhide | AdminDissolve | Other

  datatype Op =
    | JoinOp(user: UserId, banned: bool, blocked: bool)
    | LeaveOp(user: UserId)
    | KickOp(user: UserId, target: UserId)
    | ChatOp(user: UserId)
    | DissolveOp(user: UserId)
    | AdminOp(action: AdminAction)

  predicate IsActive(members: Members, u: UserId) {
    u in members && members[u].standing == ACTIVE
  }

  function ActiveUsers(members: Members): set<UserId> {
    set u | u in members && members[u].standing == ACTIVE
  }

  // ---------- the roster machine ----------

  // A hidden club is visible to its creator; with no creator, "no viewer" compares equal to it.
  predicate IsVisible(r: Roster, viewer: Option<UserId>) {
    r.status != Dissolved && !(r.status == Hidden && r.creator != viewer)
  }

  function Joined(r: Roster, u: UserId, banned: bool, blocked: bool): (Roster, Option<Error>) {
    if !IsVisible(r, None) then (r, Some(NotFound))
    else if banned then (r, Some(Limited))
    else if IsActive(r.members, u) then (r, None)
    else if u in r.members && r.members[u].standing == KICKED then (r, Some(NotAllowed))
    else if r.creator.Some? && blocked then (r, Some(NotAllowed))
    else (r.(members := r.members[u := Member(MEMBER, ACTIVE)]), None)
  }

  function WithStanding(members: Members, u: UserId, standing: Standing): Members
    requires u in members
  {
    members[u := members[u].(standing := standing)]
  }

  function Left(r: Roster, u: UserId): (Roster, Option<Error>) {
    if !IsVisible(r, Some(u)) then (r, Some(NotFound))
    else if !IsActive(r.members, u) then (r, None)
    else if r.members[u].role == OWNER && r.creator == Some(u) then (r, Some(NotAllowed))
    else (r.(members := WithStanding(r.members, u, LEFT)), None)
  }

  function Kicked(r: Roster, u: UserId, target: UserId): (Roster, Option<Error>) {
    if !IsVisible(r, Some(u)) then (r, Some(NotFound))
    else if !IsActive(r.members, u) || r.members[u].role == MEMBER then (r, Some(NotAllowed))
    else if !IsActive(r.members, target) then (r, Some(NotFound))
    else if r.members[target].role == OWNER then (r, Some(NotAllowed))
    else (r.(members := WithStanding(r.members, target, KICKED)), None)
  }

  function Chatted(r: Roster, u: UserId): (Roster, Option<Error>) {
    if !IsVisible(r, Some(u)) then (r, Some(NotFound))
    else if !IsActive(r.members, u) then (r, Some(NotAllowed))
    else (r, None)
  }

  function Emptied(members: Members): Members {
    map u | u in members :: if members[u].standing == ACTIVE then members[u].(standing := LEFT) else members[u]
  }

  function Closed(r: Roster): Roster {
    r.(status := Dissolved, everDissolved := true, members := Emptied(r.members))
  }

  function DissolvedBy(r: Roster, u: UserId): (Roster, Option<Error>) {
    if !IsVisible(r, Some(u)) then (r, Some(NotFound))
    else if r.official || r.creator != Some(u) then (r, Some(NotAllowed))
    else (Closed(r), None)
  }

  // Hiding does not look at the status; unhiding does.
  function Administered(r: Roster, action: AdminAction): (Roster, Option<Error>) {
    match action
    case Hide => (r.(status := Hidden), None)
    case Unhide => if r.status == Dissolved then (r, Some(Invalid)) else (r.(status := Live), None)
    case AdminDissolve => (Closed(r), None)
    case Other => (r, Some(Invalid))
  }

  function Apply(r: Roster, op: Op): (Roster, Option<Error>) {
    match op
    case JoinOp(u, banned, blocked) => Joined(r, u, banned, blocked)
    case LeaveOp(u) => Left(r, u)
    case KickOp(u, target) => Kicked(r, u, target)
    case ChatOp(u) => Chatted(r, u)
    case DissolveOp(u) => DissolvedBy(r, u)
    case AdminOp(action) => Administered(r, action)
  }

  function Run(r: Roster, ops: seq<Op>): Roster
    decreases |ops|
  {
    if ops == [] then r else Run(Apply(r, ops[0]).0, ops[1..])
  }

  function Created(user: UserId): Roster {
    Roster(Some(user), false, Live, false, map[user := Member(OWNER, ACTIVE)])
  }

  const OFFICIAL := Roster(None, true, Live, false, map[])

  // ---------- promises over runs ----------

  // Until it is dissolved, a user-created club has its creator as active owner; afterwards it has no
  // active owner at all. Only the creator is ever an owner, and a dissolved status has its date.
  ghost predicate Founded(r: Roster) {
    && (r.creator.Some? && !r.everDissolved ==>
          r.creator.value in r.members && r.members[r.creator.value] == Member(OWNER, ACTIVE))
    && (forall u <- r.members :: r.members[u].role != MEMBER ==> r.creator == Some(u) && r.members[u].role == OWNER)
    && (r.everDissolved ==> forall u <- r.members :: r.members[u].standing == ACTIVE ==> r.members[u].role == MEMBER)
    && (r.status == Dissolved ==> r.everDissolved)
  }

  lemma ApplyKeepsFounded(r: Roster, op: Op)
    requires Founded(r)
    ensures Founded(Apply(r, op).0) && Apply(r, op).0.creator == r.creator
  {
    match op
    case DissolveOp(u) => ClosedIsFounded(r);
    case AdminOp(action) => ClosedIsFounded(r);
    case _ =>
  }

  lemma ClosedIsFounded(r: Roster)
    requires Founded(r)
    ensures Founded(Closed(r)) && ActiveUsers(Closed(r).members) == {}
  {
  }

  /** Over any run: the creator of a never-dissolved club is its active owner; a club that was ever dissolved has
      no active owner or administrator, even when it is live again. */
  lemma {:induction false} RunKeepsFounded(r: Roster, ops: seq<Op>)
    requires Founded(r)
    ensures Founded(Run(r, ops)) && Run(r, ops).creator == r.creator
    decreases |ops|
  {
    if ops != [] {
      ApplyKeepsFounded(r, ops[0]);
      RunKeepsFounded(Apply(r, ops[0]).0, ops[1..]);
    }
  }

  lemma CreatorStaysOwner(user: UserId, ops: seq<Op>)
    ensures var r := Run(Created(user), ops);
      !r.everDissolved ==> user in r.members && r.members[user] == Member(OWNER, ACTIVE)
  {
    RunKeepsFounded(Created(user), ops);
  }

  ghost predicate IsKicked(r: Roster, u: UserId) {
    u in r.members && r.members[u].standing == KICKED
  }

  lemma ApplyKeepsKicked(r: Roster, op: Op, u: UserId)
    requires IsKicked(r, u)
    ensures IsKicked(Apply(r, op).0, u)
  {
    match op
    case DissolveOp(_) =>
    case AdminOp(_) =>
    case _ =>
  }

  /** A kicked user stays kicked, through dissolution and revival, and is never active again. */
  lemma {:induction false} KickedForever(r: Roster, ops: seq<Op>, u: UserId)
    requires IsKicked(r, u)
    ensures IsKicked(Run(r, ops), u) && u !in ActiveUsers(Run(r, ops).members)
    decreases |ops|
  {
    if ops != [] {
      ApplyKeepsKicked(r, ops[0], u);
      KickedForever(Apply(r, ops[0]).0, ops[1..], u);
    }
  }

  lemma {:induction false} RunAppend(r: Roster, ops: seq<Op>, n: nat)
    requires n < |ops|
    ensures Run(r, ops[..n + 1]) == Apply(Run(r, ops[..n]), ops[n]).0
    decreases n
  {
    assert ops[..n + 1][0] == ops[0];
    if n > 0 {
      RunAppend(Apply(r, ops[0]).0, ops[1..], n - 1);
      assert ops[..n + 1][1..] == ops[1..][..n] && ops[..n][1..] == ops[1..][..n - 1];
    } else {
      assert ops[..1][1..] == [] && ops[..0] == [];
    }
  }

  // Only hiding moves a dissolved club; no other step gains it a member.
  lemma DissolvedStep(r: Roster, op: Op)
    requires r.status == Dissolved
    ensures Apply(r, op).0.status == Dissolved <==> op != AdminOp(Hide)
    ensures ActiveUsers(Apply(r, op).0.members) <= ActiveUsers(r.members)
  {
    match op
    case AdminOp(action) =>
    case _ =>
  }

  lemma {:induction false} StaysDissolved(r: Roster, ops: seq<Op>)
    requires r.status == Dissolved && AdminOp(Hide) !in ops
    ensures Run(r, ops).status == Dissolved && ActiveUsers(Run(r, ops).members) <= ActiveUsers(r.members)
    decreases |ops|
  {
    if ops != [] {
      DissolvedStep(r, ops[0]);
      StaysDissolved(Apply(r, ops[0]).0, ops[1..]);
    }
  }

  /** A dissolved club stays dissolved throughout a run exactly when the run never hides it, and then gains no
      member. */
  lemma DissolvedUntilHidden(r: Roster, ops: seq<Op>)
    requires r.status == Dissolved
    ensures (forall n | 0 <= n <= |ops| :: Run(r, ops[..n]).status == Dissolved) <==> AdminOp(Hide) !in ops
    ensures AdminOp(Hide) !in ops ==> ActiveUsers(Run(r, ops).members) <= ActiveUsers(r.members)
  {
    if AdminOp(Hide) !in ops {
      forall n | 0 <= n <= |ops| ensures Run(r, ops[..n]).status == Dissolved { StaysDissolved(r, ops[..n]); }
      StaysDissolved(r, ops);
    } else {
      var n :| 0 <= n < |ops| && ops[n] == AdminOp(Hide);
      RunAppend(r, ops, n);
      assert Run(r, ops[..n + 1]).status == Hidden;
    }
  }

  /** Hide then unhide makes a dissolved club live, and anyone not kicked, banned or blocked can join it again. */
  lemma DissolvedClubComesBack(r: Roster, u: UserId)
    requires r.status == Dissolved && !IsKicked(r, u)
    ensures var back := Run(r, [AdminOp(Hide), AdminOp(Unhide), JoinOp(u, false, false)]);
      back.status == Live && back.everDissolved == r.everDissolved && IsActive(back.members, u)
  {
    var hidden := Apply(r, AdminOp(Hide)).0;
    var live := Apply(hidden, AdminOp(Unhide)).0;
    var ops := [AdminOp(Hide), AdminOp(Unhide), JoinOp(u, false, false)];
    assert ops[1..] == [AdminOp(Unhide), JoinOp(u, false, false)];
    assert ops[1..][1..] == [JoinOp(u, false, false)];
    assert Run(r, ops) == Run(hidden, ops[1..]);
    assert Run(hidden, ops[1..]) == Run(live, ops[1..][1..]);
    assert Run(live, [JoinOp(u, false, false)]) == Apply(live, JoinOp(u, false, false)).0;
  }

  // ---------- what each step does, on the rows ----------

  // Everybody but u keeps the row, or the lack of one.
  ghost predicate OthersSame(before: Members, after: Members, u: UserId) {
    forall w | w != u :: (w in after <==> w in before) && (w in before && w in after ==> after[w] == before[w])
  }

  // The club shows itself to u: live, or hidden and u's own.
  ghost predicate ShowsTo(r: Roster, u: UserId) {
    r.status == Live || (r.status == Hidden && r.creator == Some(u))
  }

  ghost predicate CanManage(r: Roster, u: UserId) {
    u in r.members && r.members[u].standing == ACTIVE && r.members[u].role in {OWNER, ADMIN}
  }

  ghost predicate MayKick(r: Roster, u: UserId, t: UserId) {
    && ShowsTo(r, u) && CanManage(r, u)
    && t in r.members && r.members[t].standing == ACTIVE && r.members[t].role != OWNER
  }

  /** A kick goes through exactly under these conditions; it marks the target and nobody else, and otherwise changes
      nothing. */
  lemma KickEffect(r: Roster, u: UserId, t: UserId)
    ensures var (r1, error) := Kicked(r, u, t);
      && (error.None? <==> MayKick(r, u, t))
      && (error.Some? ==> r1 == r)
      && (error == Some(NotFound) <==> !ShowsTo(r, u) || (CanManage(r, u) && t !in ActiveUsers(r.members)))
      && (error.Some? && error != Some(NotFound) ==> error == Some(NotAllowed))
      && (error.None? ==>
            && r1 == r.(members := r1.members) && OthersSame(r.members, r1.members, t)
            && t in r1.members && r1.members[t] == Member(r.members[t].role, KICKED))
  {
  }

  /** After a kick and any further run, the target is never active again and every attempt to join is refused. */
  lemma KickIsForever(r: Roster, u: UserId, t: UserId, ops: seq<Op>, banned: bool, blocked: bool)
    requires MayKick(r, u, t)
    ensures var r1 := Run(r, [KickOp(u, t)] + ops);
      && t !in ActiveUsers(r1.members)
      && Joined(r1, t, banned, blocked).0 == r1 && Joined(r1, t, banned, blocked).1.Some?
  {
    var all := [KickOp(u, t)] + ops;
    KickEffect(r, u, t);
    assert all[0] == KickOp(u, t) && all[1..] == ops;
    KickedForever(Kicked(r, u, t).0, ops, t);
  }

  /** A member who leaves is marked as gone and nobody else is; the creating owner cannot leave. */
  lemma LeaveEffect(r: Roster, u: UserId)
    ensures var (r1, error) := Left(r, u);
      var active := u in r.members && r.members[u].standing == ACTIVE;
      if !ShowsTo(r, u) then error == Some(NotFound) && r1 == r
      else if !active then error == None && r1 == r
      else if r.members[u].role == OWNER && r.creator == Some(u) then error == Some(NotAllowed) && r1 == r
      else
        && error == None && r1 == r.(members := r1.members) && OthersSame(r.members, r1.members, u)
        && u in r1.members && r1.members[u] == Member(r.members[u].role, LEFT)
  {
  }

  // A newcomer to this club, or one who left.
  ghost predicate MayJoin(r: Roster, u: UserId, banned: bool, blocked: bool) {
    && (r.status == Live || (r.status == Hidden && r.creator.None?)) && !banned
    && !(r.creator.Some? && blocked) && (u in r.members ==> r.members[u].standing == LEFT)
  }

  /** Joining makes exactly that user an active plain member, exactly when the club is open to the user; nothing
      else ever changes. */
  lemma JoinEffect(r: Roster, u: UserId, banned: bool, blocked: bool)
    ensures var (r1, error) := Joined(r, u, banned, blocked);
      if MayJoin(r, u, banned, blocked) then
        && error == None && r1 == r.(members := r1.members) && OthersSame(r.members, r1.members, u)
        && u in r1.members && r1.members[u] == Member(MEMBER, ACTIVE)
      else
        && r1 == r
        && error == if r.status == Dissolved || (r.status == Hidden && r.creator.Some?) then Some(NotFound)
                    else if banned then Some(Limited)
                    else if u in r.members && r.members[u].standing == ACTIVE then None
                    else Some(NotAllowed)
  {
  }

  /** Whoever left a live club can come back as a plain member. */
  lemma LeaverComesBack(r: Roster, u: UserId)
    requires r.status == Live && Left(r, u).1.None? && u in ActiveUsers(r.members)
    ensures u !in ActiveUsers(Run(r, [LeaveOp(u)]).members)
    ensures var r1 := Run(r, [LeaveOp(u), JoinOp(u, false, false)]);
      u in r1.members && r1.members[u] == Member(MEMBER, ACTIVE)
  {
    RunOne(r, LeaveOp(u));
    var ops := [LeaveOp(u), JoinOp(u, false, false)];
    assert ops[1..] == [ops[1]];
    RunOne(Left(r, u).0, ops[1]);
  }

  /** Dissolving leaves nobody active, keeps kicked members kicked and touches no role; only the creator of an
      unofficial club may, and the administrator always. */
  lemma DissolveEffect(r: Roster, u: UserId)
    ensures var (r1, error) := DissolvedBy(r, u);
      && (error.None? <==> ShowsTo(r, u) && !r.official && r.creator == Some(u))
      && (error.Some? ==> r1 == r)
      && (error.None? ==> r1 == Administered(r, AdminDissolve).0)
      && (error.Some? ==> error == Some(if ShowsTo(r, u) then NotAllowed else NotFound))
    ensures var r1 := Administered(r, AdminDissolve).0;
      && r1 == r.(status := Dissolved, everDissolved := true, members := r1.members)
      && r1.members.Keys == r.members.Keys
      && forall w <- r.members :: r1.members[w] ==
           Member(r.members[w].role, if r.members[w].standing == KICKED then KICKED else LEFT)
  {
  }

  /** Opening the chat changes no row and is for active members who see the club. */
  lemma ChatEffect(r: Roster, u: UserId)
    ensures Chatted(r, u).0 == r
    ensures Chatted(r, u).1 == if !ShowsTo(r, u) then Some(NotFound)
                               else if u in r.members && r.members[u].standing == ACTIVE then None
                               else Some(NotAllowed)
  {
  }

  /** Hiding always hides, unhiding makes live whatever is not dissolved, and an unknown action does nothing. */
  lemma AdminEffect(r: Roster)
    ensures Administered(r, Hide) == (r.(status := Hidden), None)
    ensures Administered(r, Unhide) == if r.status == Dissolved then (r, Some(Invalid)) else (r.(status := Live), None)
    ensures Administered(r, Other) == (r, Some(Invalid))
  {
  }

  // ---------- a hidden club ----------

  // Out of sight: hidden with a creator, or dissolved.
  ghost predicate IsClosedOff(r: Roster) {
    r.status == Dissolved || (r.status == Hidden && r.creator.Some?)
  }

  lemma ClosedOffStep(r: Roster, op: Op)
    requires r.creator.Some? && IsClosedOff(r) && op != AdminOp(Unhide)
    ensures IsClosedOff(Apply(r, op).0) && Apply(r, op).0.creator == r.creator
    ensures ActiveUsers(Apply(r, op).0.members) <= ActiveUsers(r.members)
  {
    match op
    case AdminOp(action) =>
    case _ =>
  }

  lemma {:induction false} ClosedOffGainsNobody(r: Roster, ops: seq<Op>)
    requires r.creator.Some? && IsClosedOff(r) && AdminOp(Unhide) !in ops
    ensures ActiveUsers(Run(r, ops).members) <= ActiveUsers(r.members)
    decreases |ops|
  {
    if ops != [] {
      assert ops[0] in ops;
      ClosedOffStep(r, ops[0]);
      ClosedOffGainsNobody(Apply(r, ops[0]).0, ops[1..]);
    }
  }

  lemma {:induction false} SomeoneElse(users: set<UserId>) returns (u: UserId)
    ensures u !in users && forall w <- users :: w < u
    decreases users
  {
    EmptyOrMember(users);
    if users == {} {
      u := 0;
    } else {
      var w :| w in users;
      u := SomeoneElse(users - {w});
      assert forall x <- users :: x == w || x in users - {w};
      u := Max(u, w + 1);
    }
  }

  // While hidden, whatever happens short of unhiding, nobody becomes a member.
  ghost predicate AdmitsNobody(r: Roster) {
    forall ops: seq<Op> :: AdminOp(Unhide) !in ops ==> ActiveUsers(Run(r, ops).members) <= ActiveUsers(r.members)
  }

  lemma RunOne(r: Roster, op: Op)
    ensures Run(r, [op]) == Apply(r, op).0
  {
    assert [op][1..] == [];
  }

  /** Hiding keeps everybody out, over every run until it is undone, exactly when the club has a creator. */
  lemma HiddenAdmitsNobodyIff(r: Roster)
    requires r.status == Hidden
    ensures AdmitsNobody(r) <==> r.creator.Some?
  {
    if r.creator.Some? {
      forall ops: seq<Op> | AdminOp(Unhide) !in ops ensures ActiveUsers(Run(r, ops).members) <= ActiveUsers(r.members) {
        ClosedOffGainsNobody(r, ops);
      }
    } else {
      var u := SomeoneElse(r.members.Keys);
      var op := JoinOp(u, false, false);
      RunOne(r, op);
      assert u in ActiveUsers(Run(r, [op]).members) && AdminOp(Unhide) !in [op];
    }
  }

  /** Every official club can be joined while hidden. */
  lemma HiddenOfficialClubIsJoined(u: UserId)
    ensures var r := Run(OFFICIAL, [AdminOp(Hide), JoinOp(u, false, false)]);
      r.status == Hidden && IsActive(r.members, u)
  {
    var ops := [AdminOp(Hide), JoinOp(u, false, false)];
    var hidden := Apply(OFFICIAL, ops[0]).0;
    assert ops[1..] == [ops[1]];
    RunOne(hidden, ops[1]);
  }

  // ---------- the rows ----------

  datatype Chat = Chat(open: bool, members: map<UserId, Standing>)

  function ChatUsers(chat: Option<Chat>): set<UserId> {
    if chat.None? then {} else set u | u in chat.value.members && chat.value.members[u] == ACTIVE
  }

  lemma StandingFacts(members: Members, u: UserId, standing: Standing)
    requires u in members
    ensures ActiveUsers(WithStanding(members, u, standing)) ==
      if standing == ACTIVE then ActiveUsers(members) + {u} else ActiveUsers(members) - {u}
  {
  }

  lemma NewcomerFacts(members: Members, u: UserId)
    ensures ActiveUsers(members[u := Member(MEMBER, ACTIVE)]) == ActiveUsers(members) + {u}
  {
  }

  lemma EmptyOrMember(s: set<UserId>)
    ensures s == {} || exists u :: u in s
  {
    assert (forall u :: u !in s) ==> s == {};
  }

  // Every active row becomes a left row, one by one.
  method AllLeave(members: Members) returns (after: Members)
    ensures after == Emptied(members)
  {
    after := members;
    var todo := ActiveUsers(members);
    while todo != {}
      invariant forall u <- todo :: u in members && members[u].standing == ACTIVE
      invariant after.Keys == members.Keys
      invariant forall u <- members :: after[u] == if u in todo then members[u] else Emptied(members)[u]
      decreases |todo|
    {
      EmptyOrMember(todo);
      var u :| u in todo;
      after := WithStanding(after, u, LEFT);
      todo := todo - {u};
    }
    assert after.Keys == Emptied(members).Keys;
    forall u <- members ensures after[u] == Emptied(members)[u] {
      assert u !in todo;
    }
  }

  class Club {
    const creator: Option<UserId>
    const official: bool
    var status: ClubStatus
    var dissolvedAt: Option<int>
    var members: Members
    var memberCount: int
    var chat: Option<Chat>
    ghost var surplus: int  // members counted by the seed beyond the rows

    ghost function View(): Roster
      reads this
    {
      Roster(creator, official, status, dissolvedAt.Some?, members)
    }

    /** The chat's active members are the club's, and the cached count is off by a fixed surplus. */
    ghost predicate Valid()
      reads this
    {
      && Founded(View())
      && ChatUsers(chat) == ActiveUsers(members)
      && memberCount == |ActiveUsers(members)| + surplus && surplus >= 0
    }

    constructor Create(user: UserId)
      ensures Valid() && View() == Created(user) && surplus == 0
    {
      creator, official, status, dissolvedAt := Some(user), false, Live, None;
      members := map[user := Member(OWNER, ACTIVE)];
      memberCount, surplus := 1, 0;
      chat := None;
      new;
      EnsureConversation(user);
      assert ActiveUsers(members) == {user};
      assert ChatUsers(chat) == {user};
    }

    // Official clubs are seeded with a count and no rows.
    constructor Seed(count: nat)
      ensures Valid() && View() == OFFICIAL && surplus == count
    {
      creator, official, status, dissolvedAt := None, true, Live, None;
      members, memberCount, surplus, chat := map[], count, count, None;
    }

    // Opens or reopens the group chat and makes the user an active member of it.
    method EnsureConversation(user: UserId)
      modifies this`chat
      ensures chat.Some? && chat.value.open
      ensures ChatUsers(chat) == ChatUsers(old(chat)) + {user}
    {
      var conv := if chat.None? then Chat(true, map[]) else chat.value;
      if !conv.open { conv := conv.(open := true); }
      chat := Some(conv.(members := conv.members[user := ACTIVE]));
    }

    method DropConversationMember(user: UserId, standing: Standing)
      requires standing != ACTIVE
      modifies this`chat
      ensures ChatUsers(chat) == ChatUsers(old(chat)) - {user}
    {
      if chat.None? { return; }
      if user in chat.value.members {
        chat := Some(chat.value.(members := chat.value.members[user := standing]));
      }
    }

    method Join(user: UserId, banned: bool, blocked: bool) returns (error: Option<Error>)
      requires Valid()
      modifies this
      ensures Valid() && surplus == old(surplus)
      ensures (View(), error) == Joined(old(View()), user, banned, blocked)
    {
      if status == Dissolved || (status == Hidden && creator != None) { return Some(NotFound); }
      if banned { return Some(Limited); }
      if user in members && members[user].standing == ACTIVE { return None; }
      if user in members && members[user].standing == KICKED { return Some(NotAllowed); }
      if creator.Some? && blocked { return Some(NotAllowed); }
      ApplyKeepsFounded(View(), JoinOp(user, banned, blocked));
      NewcomerFacts(members, user);
      members := members[user := Member(MEMBER, ACTIVE)];
      memberCount := memberCount + 1;
      EnsureConversation(user);
      return None;
    }

    method Leave(user: UserId) returns (error: Option<Error>)
      requires Valid()
      modifies this
      ensures Valid() && surplus == old(surplus)
      ensures (View(), error) == Left(old(View()), user)
    {
      if status == Dissolved || (status == Hidden && creator != Some(user)) { return Some(NotFound); }
      if user !in members || members[user].standing != ACTIVE { return None; }
      if members[user].role == OWNER && creator == Some(user) { return Some(NotAllowed); }
      ApplyKeepsFounded(View(), LeaveOp(user));
      StandingFacts(members, user, LEFT);
      members := WithStanding(members, user, LEFT);
      memberCount := Max(0, memberCount - 1);
      DropConversationMember(user, LEFT);
      return None;
    }

    method Kick(user: UserId, target: UserId) returns (error: Option<Error>)
      requires Valid()
      modifies this
      ensures Valid() && surplus == old(surplus)
      ensures (View(), error) == Kicked(old(View()), user, target)
    {
      if status == Dissolved || (status == Hidden && creator != Some(user)) { return Some(NotFound); }
      if user !in members || members[user].standing != ACTIVE
        || (members[user].role != OWNER && members[user].role != ADMIN) {
        return Some(NotAllowed);
      }
      if target !in members || members[target].standing != ACTIVE { return Some(NotFound); }
      if members[target].role == OWNER { return Some(NotAllowed); }
      ApplyKeepsFounded(View(), KickOp(user, target));
      StandingFacts(members, target, KICKED);
      members := WithStanding(members, target, KICKED);
      memberCount := Max(0, memberCount - 1);
      DropConversationMember(target, KICKED);
      return None;
    }

    method OpenChat(user: UserId) returns (error: Option<Error>)
      requires Valid()
      modifies this
      ensures Valid() && surplus == old(surplus)
      ensures (View(), error) == Chatted(old(View()), user)
      ensures error.None? ==> chat.Some? && chat.value.open && user in ChatUsers(chat)
    {
      if status == Dissolved || (status == Hidden && creator != Some(user)) { return Some(NotFound); }
      if user !in members || members[user].standing != ACTIVE { return Some(NotAllowed); }
      EnsureConversation(user);
      return None;
    }

    method Dissolve(user: UserId, now: int) returns (error: Option<Error>)
      requires Valid()
      modifies this
      ensures Valid() && surplus == (if error.None? then 0 else old(surplus))
      ensures (View(), error) == DissolvedBy(old(View()), user)
    {
      if status == Dissolved || (status == Hidden && creator != Some(user)) { return Some(NotFound); }
      if official || creator != Some(user) { return Some(NotAllowed); }
      DissolveNow(now);
      return None;
    }

    /** Everyone leaves the club and its chat, the chat closes, and the count starts again from zero. */
    method DissolveNow(now: int)
      requires Valid()
      modifies this
      ensures Valid() && View() == Closed(old(View()))
      ensures memberCount == 0 && surplus == 0 && ChatUsers(chat) == {} && (chat.Some? ==> !chat.value.open)
    {
      ClosedIsFounded(View());
      status, dissolvedAt := Dissolved, Some(now);
      members := AllLeave(members);
      if chat.Some? {
        chat := Some(Chat(false, map u | u in chat.value.members :: LEFT));
      }
      memberCount, surplus := 0, 0;
    }

    method AdminSetStatus(action: AdminAction, now: int) returns (error: Option<Error>)
      requires Valid()
      modifies this
      ensures Valid() && surplus == (if action == AdminDissolve then 0 else old(surplus))
      ensures (View(), error) == Administered(old(View()), action)
    {
      ApplyKeepsFounded(View(), AdminOp(action));
      if action == Hide {
        status := Hidden;
      } else if action == Unhide {
        if status == Dissolved { return Some(Invalid); }
        status := Live;
      } else if action == AdminDissolve {
        DissolveNow(now);
      } else {
        return Some(Invalid);
      }
      return None;
    }
  }
}
