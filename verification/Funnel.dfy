/**
  Ordered funnels. The generator compiles a list of steps into a chain of common table
  expressions that keep, per actor, the earliest matching time at or after the previous
  step. Here the generated query is a relational term with an evaluator, and its meaning is
  proved to be the declarative one: an actor reaches step i exactly when some non-decreasing
  chain of matching events exists.
 */
module Funnel {
  import opened Common

  type Actor = string

  datatype Event = Event(
    userId: Option<string>,
    anonId: string,
    name: string,
    objectType: Option<string>,
    platform: string,
    occurredAt: int,
    receivedAt: int)

  datatype Step = Step(event: string, objectType: Option<string>)

  // COALESCE(user_id::text, anon_id)
  function ActorOf(e: Event): Actor {
    if e.userId.Some? then e.userId.value else e.anonId
  }

  // ---------- the query language ----------

  datatype Param = Start | End | Platform | EventName(step: nat) | ObjectType(step: nat)

  datatype Binding = Text(text: string) | At(time: int)

  type Params = map<Param, Binding>

  datatype Cond = ReceivedFrom | ReceivedBefore | NameIs(p: Param) | ObjectIs(p: Param) | PlatformIs(p: Param)

  // A scan of the event table grouped by actor with MIN(occurred_at); a later step also joins
  // the previous table on "same actor, at or after its time".
  datatype Cte = FirstStep(conds: seq<Cond>) | NextStep(conds: seq<Cond>, prev: nat)

  // WITH ctes SELECT i AS idx, COUNT(*) AS n FROM cte_i ... UNION ALL ... ORDER BY idx
  datatype Query = Query(ctes: seq<Cte>)

  type Table = map<Actor, int>

  type Hit = (Actor, int)

  predicate TextIs(ps: Params, p: Param, s: string) {
    p in ps && ps[p] == Text(s)
  }

  predicate Holds(c: Cond, e: Event, ps: Params) {
    match c
    case ReceivedFrom => Start in ps && ps[Start].At? && e.receivedAt >= ps[Start].time
    case ReceivedBefore => End in ps && ps[End].At? && e.receivedAt < ps[End].time
    case NameIs(p) => TextIs(ps, p, e.name)
    case ObjectIs(p) => e.objectType.Some? && TextIs(ps, p, e.objectType.value)
    case PlatformIs(p) => TextIs(ps, p, e.platform)
  }

  predicate AllHold(conds: seq<Cond>, e: Event, ps: Params) {
    forall c <- conds :: Holds(c, e, ps)
  }

  function Scan(conds: seq<Cond>, ps: Params, log: seq<Event>): seq<Hit> {
    if log == [] then []
    else
      var rest := Scan(conds, ps, log[1..]);
      if AllHold(conds, log[0], ps) then [(ActorOf(log[0]), log[0].occurredAt)] + rest else rest
  }

  function Join(rows: seq<Hit>, prev: Table): seq<Hit> {
    if rows == [] then []
    else
      var rest := Join(rows[1..], prev);
      if rows[0].0 in prev && rows[0].1 >= prev[rows[0].0] then [rows[0]] + rest else rest
  }

  function GroupMin(rows: seq<Hit>): Table {
    if rows == [] then map[]
    else
      var m := GroupMin(rows[1..]);
      var (a, t) := rows[0];
      if a in m && m[a] <= t then m else m[a := t]
  }

  function EvalCte(cte: Cte, earlier: seq<Table>, ps: Params, log: seq<Event>): Table {
    match cte
    case FirstStep(conds) => GroupMin(Scan(conds, ps, log))
    case NextStep(conds, prev) =>
      if prev < |earlier| then GroupMin(Join(Scan(conds, ps, log), earlier[prev])) else map[]
  }

  function Tables(ctes: seq<Cte>, ps: Params, log: seq<Event>): (ts: seq<Table>)
    ensures |ts| == |ctes|
  {
    if ctes == [] then []
    else
      var earlier := Tables(ctes[..|ctes| - 1], ps, log);
      earlier + [EvalCte(ctes[|ctes| - 1], earlier, ps, log)]
  }

  function Rows(q: Query, ps: Params, log: seq<Event>): seq<nat> {
    var ts := Tables(q.ctes, ps, log);
    seq(|ts|, i requires 0 <= i < |ts| => |ts[i]|)
  }

  // ---------- the generator ----------

  // A step's object type counts only when it is a non-empty string.
  predicate HasObject(step: Step) {
    step.objectType.Some? && step.objectType.value != ""
  }

  function CondsFor(step: Step, i: nat): seq<Cond> {
    [ReceivedFrom, ReceivedBefore, NameIs(EventName(i))] + if HasObject(step) then [ObjectIs(ObjectType(i))] else []
  }

  function CteFor(steps: seq<Step>, i: nat): Cte
    requires i < |steps|
  {
    if i == 0 then FirstStep(CondsFor(steps[i], i)) else NextStep(CondsFor(steps[i], i), i - 1)
  }

  function QueryFor(steps: seq<Step>): Query {
    Query(seq(|steps|, i requires 0 <= i < |steps| => CteFor(steps, i)))
  }

  // The parameters bind exactly the names and object types of the steps.
  ghost predicate BindsSteps(ps: Params, steps: seq<Step>) {
    forall i | 0 <= i < |steps| ::
      && TextIs(ps, EventName(i), steps[i].event)
      && (HasObject(steps[i]) ==> TextIs(ps, ObjectType(i), steps[i].objectType.value))
  }

  method FunnelSql(steps: seq<Step>) returns (q: Query, params: Params)
    ensures q == QueryFor(steps) && BindsSteps(params, steps)
    ensures Start !in params && End !in params && Platform !in params
  {
    params := map[];
    var ctes: seq<Cte> := [];
    for i := 0 to |steps|
      invariant |ctes| == i && forall k | 0 <= k < i :: ctes[k] == CteFor(steps, k)
      invariant BindsSteps(params, steps[..i])
      invariant Start !in params && End !in params && Platform !in params
    {
      var step := steps[i];
      params := params[EventName(i) := Text(step.event)];
      var cond := [ReceivedFrom, ReceivedBefore, NameIs(EventName(i))];
      if step.objectType.Some? && step.objectType.value != "" {
        params := params[ObjectType(i) := Text(step.objectType.value)];
        cond := cond + [ObjectIs(ObjectType(i))];
      }
      ctes := ctes + [if i == 0 then FirstStep(cond) else NextStep(cond, i - 1)];
    }
    assert steps[..|steps|] == steps;
    q := Query(ctes);
  }

  // ---------- the declarative meaning ----------

  datatype Window = Window(start: int, end: int)

  predicate Matches(step: Step, e: Event) {
    && e.name == step.event
    && (step.objectType.Some? && step.objectType.value != "" ==> e.objectType == step.objectType)
  }

  // A signed-in event belongs to its user, whatever the device; a signed-out one to its device.
  predicate IsBy(e: Event, a: Actor) {
    (e.userId.Some? && e.userId.value == a) || (e.userId.None? && e.anonId == a)
  }

  ghost predicate IsHit(log: seq<Event>, w: Window, step: Step, a: Actor, t: int) {
    exists e <- log :: w.start <= e.receivedAt < w.end && Matches(step, e) && IsBy(e, a) && e.occurredAt == t
  }

  // ts is a witness that actor a went through steps 0..i in order.
  ghost predicate Chain(log: seq<Event>, w: Window, steps: seq<Step>, i: nat, a: Actor, ts: seq<int>)
    requires i < |steps|
  {
    && |ts| == i + 1
    && (forall j | 0 <= j <= i :: IsHit(log, w, steps[j], a, ts[j]))
    && (forall j, k | 0 <= j < k <= i :: ts[j] <= ts[k])
  }

  ghost predicate Reaches(log: seq<Event>, w: Window, steps: seq<Step>, i: nat, a: Actor)
    requires i < |steps|
  {
    exists ts :: Chain(log, w, steps, i, a, ts)
  }

  ghost function Reached(log: seq<Event>, w: Window, steps: seq<Step>, i: nat): set<Actor>
    requires i < |steps|
  {
    (set e | e in log && e.userId.Some? && Reaches(log, w, steps, i, e.userId.value) :: e.userId.value)
    + (set e | e in log && e.userId.None? && Reaches(log, w, steps, i, e.anonId) :: e.anonId)
  }

  // The stored time is the least possible end of a chain.
  ghost predicate IsLeastEnd(log: seq<Event>, w: Window, steps: seq<Step>, i: nat, a: Actor, t: int)
    requires i < |steps|
  {
    && (exists ts :: Chain(log, w, steps, i, a, ts) && ts[i] == t)
    && (forall ts :: Chain(log, w, steps, i, a, ts) ==> t <= ts[i])
  }

  // ---------- what the relational operators compute ----------

  lemma {:induction false} ScanFacts(step: Step, i: nat, ps: Params, log: seq<Event>, w: Window, a: Actor, t: int)
    requires TextIs(ps, EventName(i), step.event)
    requires HasObject(step) ==> TextIs(ps, ObjectType(i), step.objectType.value)
    requires Start in ps && ps[Start] == At(w.start) && End in ps && ps[End] == At(w.end)
    ensures (a, t) in Scan(CondsFor(step, i), ps, log) <==> IsHit(log, w, step, a, t)
  {
    if log != [] {
      ScanFacts(step, i, ps, log[1..], w, a, t);
      var e, conds := log[0], CondsFor(step, i);
      assert AllHold(conds, e, ps) <==> w.start <= e.receivedAt < w.end && Matches(step, e) by {
        assert forall c :: c in conds <==> c == ReceivedFrom || c == ReceivedBefore || c == NameIs(EventName(i))
                                           || (HasObject(step) && c == ObjectIs(ObjectType(i)));
        assert ReceivedFrom in conds && ReceivedBefore in conds && NameIs(EventName(i)) in conds;
        assert HasObject(step) ==> ObjectIs(ObjectType(i)) in conds;
      }
      assert forall x :: x in log <==> x == log[0] || x in log[1..];
    }
  }

  lemma {:induction false} JoinFacts(rows: seq<Hit>, prev: Table, a: Actor, t: int)
    ensures (a, t) in Join(rows, prev) <==> (a, t) in rows && a in prev && t >= prev[a]
  {
    if rows != [] {
      JoinFacts(rows[1..], prev, a, t);
    }
  }

  lemma {:induction false} GroupMinFacts(rows: seq<Hit>, a: Actor)
    ensures a in GroupMin(rows) ==> (a, GroupMin(rows)[a]) in rows
    ensures forall t | (a, t) in rows :: a in GroupMin(rows) && GroupMin(rows)[a] <= t
  {
    if rows != [] {
      GroupMinFacts(rows[1..], a);
      assert rows[0] == (rows[0].0, rows[0].1);
    }
  }

  lemma {:induction false} TablesPrefix(ctes: seq<Cte>, n: nat, ps: Params, log: seq<Event>)
    requires n <= |ctes|
    ensures Tables(ctes[..n], ps, log) == Tables(ctes, ps, log)[..n]
    decreases |ctes|
  {
    if n < |ctes| {
      var front := ctes[..|ctes| - 1];
      TablesPrefix(front, n, ps, log);
      assert front[..n] == ctes[..n];
    } else {
      assert ctes[..n] == ctes;
    }
  }

  // Table i is the i-th CTE evaluated over the tables before it.
  lemma TableAt(ctes: seq<Cte>, i: nat, ps: Params, log: seq<Event>)
    requires i < |ctes|
    ensures Tables(ctes, ps, log)[i] == EvalCte(ctes[i], Tables(ctes, ps, log)[..i], ps, log)
  {
    TablesPrefix(ctes, i + 1, ps, log);
    TablesPrefix(ctes, i, ps, log);
    assert ctes[..i + 1][..i] == ctes[..i];
    assert Tables(ctes, ps, log)[..i + 1][i] == Tables(ctes, ps, log)[i];
  }

  ghost predicate WellBound(ps: Params, steps: seq<Step>, w: Window) {
    BindsSteps(ps, steps) && Start in ps && ps[Start] == At(w.start) && End in ps && ps[End] == At(w.end)
  }

  ghost function TableOf(steps: seq<Step>, i: nat, ps: Params, log: seq<Event>): Table
    requires i < |steps|
  {
    Tables(QueryFor(steps).ctes, ps, log)[i]
  }

  // The rows that CTE i groups.
  ghost function RowsAt(steps: seq<Step>, i: nat, ps: Params, log: seq<Event>): seq<Hit>
    requires i < |steps|
  {
    var scan := Scan(CondsFor(steps[i], i), ps, log);
    if i == 0 then scan else Join(scan, TableOf(steps, i - 1, ps, log))
  }

  lemma TableGroupsRows(steps: seq<Step>, i: nat, ps: Params, log: seq<Event>)
    requires i < |steps|
    ensures TableOf(steps, i, ps, log) == GroupMin(RowsAt(steps, i, ps, log))
  {
    var ctes := QueryFor(steps).ctes;
    TableAt(ctes, i, ps, log);
    assert ctes[i] == CteFor(steps, i);
    if i > 0 {
      assert Tables(ctes, ps, log)[..i][i - 1] == TableOf(steps, i - 1, ps, log);
    }
  }

  lemma RowsAtFacts(steps: seq<Step>, i: nat, ps: Params, log: seq<Event>, w: Window, a: Actor, t: int)
    requires i < |steps| && WellBound(ps, steps, w)
    ensures (a, t) in RowsAt(steps, i, ps, log) <==>
      IsHit(log, w, steps[i], a, t)
      && (i > 0 ==> a in TableOf(steps, i - 1, ps, log) && t >= TableOf(steps, i - 1, ps, log)[a])
  {
    ScanFacts(steps[i], i, ps, log, w, a, t);
    if i > 0 {
      JoinFacts(Scan(CondsFor(steps[i], i), ps, log), TableOf(steps, i - 1, ps, log), a, t);
    }
  }

  // ---------- the main theorem ----------

  /** The greedy earliest-match chain computes the declarative funnel: who is in table i, and with what time. */
  lemma {:induction false} FunnelMeaning(steps: seq<Step>, ps: Params, log: seq<Event>, w: Window, i: nat, a: Actor)
    requires i < |steps| && WellBound(ps, steps, w)
    ensures a in TableOf(steps, i, ps, log) <==> Reaches(log, w, steps, i, a)
    ensures a in TableOf(steps, i, ps, log) ==> IsLeastEnd(log, w, steps, i, a, TableOf(steps, i, ps, log)[a])
  {
    if i > 0 {
      FunnelMeaning(steps, ps, log, w, i - 1, a);
    }
    if a in TableOf(steps, i, ps, log) {
      StoredTimeEndsAChain(steps, ps, log, w, i, a);
    }
    forall ts | Chain(log, w, steps, i, a, ts)
      ensures a in TableOf(steps, i, ps, log) && TableOf(steps, i, ps, log)[a] <= ts[i]
    {
      ChainIsStored(steps, ps, log, w, i, a, ts);
    }
  }

  // Soundness of one step: extend a chain of the previous step by the stored time.
  lemma StoredTimeEndsAChain(steps: seq<Step>, ps: Params, log: seq<Event>, w: Window, i: nat, a: Actor)
    requires i < |steps| && WellBound(ps, steps, w) && a in TableOf(steps, i, ps, log)
    requires i > 0 && a in TableOf(steps, i - 1, ps, log) ==>
      IsLeastEnd(log, w, steps, i - 1, a, TableOf(steps, i - 1, ps, log)[a])
    ensures exists ts :: Chain(log, w, steps, i, a, ts) && ts[i] == TableOf(steps, i, ps, log)[a]
  {
    var t := TableOf(steps, i, ps, log)[a];
    TableGroupsRows(steps, i, ps, log);
    GroupMinFacts(RowsAt(steps, i, ps, log), a);
    RowsAtFacts(steps, i, ps, log, w, a, t);
    if i == 0 {
      assert Chain(log, w, steps, 0, a, [t]);
    } else {
      var ts :| Chain(log, w, steps, i - 1, a, ts) && ts[i - 1] == TableOf(steps, i - 1, ps, log)[a];
      ExtendChain(log, w, steps, i, a, ts, t);
    }
  }

  lemma ExtendChain(log: seq<Event>, w: Window, steps: seq<Step>, i: nat, a: Actor, ts: seq<int>, t: int)
    requires 0 < i < |steps| && Chain(log, w, steps, i - 1, a, ts)
    requires IsHit(log, w, steps[i], a, t) && ts[i - 1] <= t
    ensures Chain(log, w, steps, i, a, ts + [t]) && (ts + [t])[i] == t
  {
    forall j | 0 <= j < i ensures (ts + [t])[j] == ts[j] <= t {
      assert j < i - 1 ==> ts[j] <= ts[i - 1];
    }
  }

  // Completeness and leastness of one step: the exchange argument. The greedy time of the previous
  // step is no later than the chain's, so the chain's last event is among the joined rows.
  lemma ChainIsStored(steps: seq<Step>, ps: Params, log: seq<Event>, w: Window, i: nat, a: Actor, ts: seq<int>)
    requires i < |steps| && WellBound(ps, steps, w) && Chain(log, w, steps, i, a, ts)
    requires i > 0 && Reaches(log, w, steps, i - 1, a) ==>
      && a in TableOf(steps, i - 1, ps, log)
      && IsLeastEnd(log, w, steps, i - 1, a, TableOf(steps, i - 1, ps, log)[a])
    ensures a in TableOf(steps, i, ps, log) && TableOf(steps, i, ps, log)[a] <= ts[i]
  {
    TableGroupsRows(steps, i, ps, log);
    GroupMinFacts(RowsAt(steps, i, ps, log), a);
    if i > 0 {
      assert Chain(log, w, steps, i - 1, a, ts[..i]);
    }
    RowsAtFacts(steps, i, ps, log, w, a, ts[i]);
  }

  lemma ReachedMembers(log: seq<Event>, w: Window, steps: seq<Step>, i: nat, a: Actor)
    requires i < |steps|
    ensures a in Reached(log, w, steps, i) <==> Reaches(log, w, steps, i, a)
  {
    if Reaches(log, w, steps, i, a) {
      var ts :| Chain(log, w, steps, i, a, ts);
      assert IsHit(log, w, steps[0], a, ts[0]);
    }
  }

  /** The first step counts the users of the matching signed-in events in the window and the devices of the signed-out
      ones, whatever devices the users had. */
  lemma FirstStepActors(log: seq<Event>, w: Window, steps: seq<Step>)
    requires |steps| > 0
    ensures Reached(log, w, steps, 0)
         == (set e | e in log && IsCounted(e, w, steps[0]) && e.userId.Some? :: e.userId.value)
            + (set e | e in log && IsCounted(e, w, steps[0]) && e.userId.None? :: e.anonId)
  {
    forall a ensures Reaches(log, w, steps, 0, a) <==> exists e <- log :: IsCounted(e, w, steps[0]) && IsBy(e, a) {
      if Reaches(log, w, steps, 0, a) {
        var ts :| Chain(log, w, steps, 0, a, ts);
        assert IsHit(log, w, steps[0], a, ts[0]);
      }
      if e :| e in log && IsCounted(e, w, steps[0]) && IsBy(e, a) {
        assert IsHit(log, w, steps[0], a, e.occurredAt);
        assert Chain(log, w, steps, 0, a, [e.occurredAt]);
      }
    }
    forall a ensures a in Reached(log, w, steps, 0) <==> exists e <- log :: IsCounted(e, w, steps[0]) && IsBy(e, a) {
      ReachedMembers(log, w, steps, 0, a);
    }
  }

  predicate IsCounted(e: Event, w: Window, step: Step) {
    w.start <= e.receivedAt < w.end && Matches(step, e)
  }

  /** Every count of the generated query is the number of actors that reach the step. */
  lemma FunnelCounts(steps: seq<Step>, ps: Params, log: seq<Event>, w: Window, i: nat)
    requires i < |steps| && WellBound(ps, steps, w)
    ensures |Rows(QueryFor(steps), ps, log)| == |steps|
    ensures TableOf(steps, i, ps, log).Keys == Reached(log, w, steps, i)
    ensures Rows(QueryFor(steps), ps, log)[i] == |Reached(log, w, steps, i)|
  {
    var table := TableOf(steps, i, ps, log);
    forall a ensures a in table.Keys <==> a in Reached(log, w, steps, i) {
      FunnelMeaning(steps, ps, log, w, i, a);
      ReachedMembers(log, w, steps, i, a);
    }
    assert table.Keys == Reached(log, w, steps, i);
    assert |table| == |table.Keys|;
  }

  // ---------- consequences ----------

  lemma MoreRowsMoreChains(log: seq<Event>, more: seq<Event>, w: Window, steps: seq<Step>, i: nat,
      a: Actor, ts: seq<int>)
    requires i < |steps| && (forall e <- log :: e in more)
    requires Chain(log, w, steps, i, a, ts)
    ensures Chain(more, w, steps, i, a, ts)
  {
    forall j | 0 <= j <= i ensures IsHit(more, w, steps[j], a, ts[j]) {
      assert IsHit(log, w, steps[j], a, ts[j]);
    }
  }

  lemma SubsetSize<T>(s: set<T>, t: set<T>)
    requires s <= t
    ensures |s| <= |t|
  {
    assert t == s + (t - s);
  }

  /** Adding rows never lowers a count. */
  lemma CountsAreMonotone(steps: seq<Step>, ps: Params, log: seq<Event>, more: seq<Event>, w: Window, i: nat)
    requires i < |steps| && WellBound(ps, steps, w) && (forall e <- log :: e in more)
    ensures |TableOf(steps, i, ps, log)| <= |TableOf(steps, i, ps, more)|
  {
    forall a | a in TableOf(steps, i, ps, log) ensures a in TableOf(steps, i, ps, more) {
      FunnelMeaning(steps, ps, log, w, i, a);
      FunnelMeaning(steps, ps, more, w, i, a);
      var ts :| Chain(log, w, steps, i, a, ts);
      MoreRowsMoreChains(log, more, w, steps, i, a, ts);
    }
    SubsetSize(TableOf(steps, i, ps, log).Keys, TableOf(steps, i, ps, more).Keys);
  }

  /** The tables depend only on which rows the log holds, not on their order or repetition. */
  lemma OrderDoesNotMatter(steps: seq<Step>, ps: Params, log: seq<Event>, other: seq<Event>, w: Window, i: nat)
    requires i < |steps| && WellBound(ps, steps, w)
    requires forall e :: e in log <==> e in other
    ensures TableOf(steps, i, ps, log) == TableOf(steps, i, ps, other)
  {
    var t1, t2 := TableOf(steps, i, ps, log), TableOf(steps, i, ps, other);
    forall a ensures (a in t1 <==> a in t2) && (a in t1 && a in t2 ==> t1[a] == t2[a]) {
      FunnelMeaning(steps, ps, log, w, i, a);
      FunnelMeaning(steps, ps, other, w, i, a);
      forall ts ensures Chain(log, w, steps, i, a, ts) <==> Chain(other, w, steps, i, a, ts) {
        if Chain(log, w, steps, i, a, ts) { MoreRowsMoreChains(log, other, w, steps, i, a, ts); }
        if Chain(other, w, steps, i, a, ts) { MoreRowsMoreChains(other, log, w, steps, i, a, ts); }
      }
    }
    assert t1.Keys == t2.Keys;
  }

  /** Step counts never increase along a funnel. */
  lemma FunnelNarrows(steps: seq<Step>, log: seq<Event>, w: Window, j: nat, i: nat)
    requires j <= i < |steps|
    ensures Reached(log, w, steps, i) <= Reached(log, w, steps, j)
    ensures |Reached(log, w, steps, i)| <= |Reached(log, w, steps, j)|
  {
    forall a <- Reached(log, w, steps, i) ensures a in Reached(log, w, steps, j) {
      ReachedMembers(log, w, steps, i, a);
      ReachedMembers(log, w, steps, j, a);
      var ts :| Chain(log, w, steps, i, a, ts);
      assert Chain(log, w, steps, j, a, ts[..j + 1]);
    }
    SubsetSize(Reached(log, w, steps, i), Reached(log, w, steps, j));
  }

  // ---------- the live funnel ----------

  function CteForPlatform(cte: Cte): Cte {
    match cte
    case FirstStep(conds) => FirstStep([PlatformIs(Platform)] + conds)
    case NextStep(conds, prev) => NextStep([PlatformIs(Platform)] + conds, prev)
  }

  // The textual rewrite puts a platform condition in front of every scan's conditions.
  function ForPlatform(ctes: seq<Cte>): (r: seq<Cte>)
    ensures |r| == |ctes|
  {
    seq(|ctes|, i requires 0 <= i < |ctes| => CteForPlatform(ctes[i]))
  }

  function OnPlatform(log: seq<Event>, platform: string): seq<Event> {
    if log == [] then []
    else if log[0].platform == platform then [log[0]] + OnPlatform(log[1..], platform)
    else OnPlatform(log[1..], platform)
  }

  predicate IgnoresPlatform(conds: seq<Cond>) {
    forall c <- conds :: !c.PlatformIs? && (c.NameIs? ==> c.p != Platform) && (c.ObjectIs? ==> c.p != Platform)
  }

  lemma {:induction false} ScanOnPlatform(conds: seq<Cond>, ps: Params, log: seq<Event>, platform: string)
    requires IgnoresPlatform(conds)
    ensures Scan([PlatformIs(Platform)] + conds, ps[Platform := Text(platform)], log)
         == Scan(conds, ps, OnPlatform(log, platform))
  {
    if log != [] {
      ScanOnPlatform(conds, ps, log[1..], platform);
      var e, ps1, all := log[0], ps[Platform := Text(platform)], [PlatformIs(Platform)] + conds;
      assert AllHold(all, e, ps1) <==> e.platform == platform && AllHold(conds, e, ps) by {
        assert forall c <- conds :: Holds(c, e, ps1) == Holds(c, e, ps);
        assert forall c :: c in all <==> c == PlatformIs(Platform) || c in conds;
        assert Holds(PlatformIs(Platform), e, ps1) <==> e.platform == platform;
      }
    }
  }

  /** The rewritten query over the whole log is the original query over that platform's rows. */
  lemma {:induction false} PlatformRewrite(ctes: seq<Cte>, ps: Params, log: seq<Event>, platform: string)
    requires forall cte <- ctes :: IgnoresPlatform(cte.conds)
    ensures Tables(ForPlatform(ctes), ps[Platform := Text(platform)], log)
      == Tables(ctes, ps, OnPlatform(log, platform))
    decreases |ctes|
  {
    if ctes != [] {
      var n := |ctes| - 1;
      var front, ps1 := ctes[..n], ps[Platform := Text(platform)];
      assert ctes[n] in ctes;
      PlatformRewrite(front, ps, log, platform);
      assert ForPlatform(ctes)[..n] == ForPlatform(front) && ForPlatform(ctes)[n] == CteForPlatform(ctes[n]);
      CteOnPlatform(ctes[n], Tables(front, ps, OnPlatform(log, platform)), ps, log, platform);
    }
  }

  lemma CteOnPlatform(cte: Cte, earlier: seq<Table>, ps: Params, log: seq<Event>, platform: string)
    requires IgnoresPlatform(cte.conds)
    ensures EvalCte(CteForPlatform(cte), earlier, ps[Platform := Text(platform)], log)
         == EvalCte(cte, earlier, ps, OnPlatform(log, platform))
  {
    ScanOnPlatform(cte.conds, ps, log, platform);
  }

  // The rows a request sees: all of them, or one platform's when a non-empty platform is given.
  function Visible(log: seq<Event>, platform: Option<string>): seq<Event> {
    if platform.Some? && platform.value != "" then OnPlatform(log, platform.value) else log
  }

  /** A request sees exactly the log's rows of its platform, or all of them. */
  lemma VisibleRows(log: seq<Event>, platform: Option<string>, e: Event)
    ensures e in Visible(log, platform) <==>
      e in log && (platform.Some? && platform.value != "" ==> e.platform == platform.value)
  {
    if platform.Some? { OnPlatformRows(log, platform.value, e); }
  }

  lemma {:induction false} OnPlatformRows(log: seq<Event>, platform: string, e: Event)
    ensures e in OnPlatform(log, platform) <==> e in log && e.platform == platform
  {
    if log != [] {
      OnPlatformRows(log[1..], platform, e);
      assert e in log <==> e == log[0] || e in log[1..];
    }
  }

  ghost predicate CountsReached(counts: seq<nat>, log: seq<Event>, w: Window, steps: seq<Step>) {
    |counts| == |steps| && forall i | 0 <= i < |steps| :: counts[i] == |Reached(log, w, steps, i)|
  }

  predicate Narrowing(counts: seq<nat>) {
    forall j, i | 0 <= j <= i < |counts| :: counts[i] <= counts[j]
  }

  lemma CountsAreReached(steps: seq<Step>, ps: Params, log: seq<Event>, w: Window)
    requires WellBound(ps, steps, w)
    ensures CountsReached(Rows(QueryFor(steps), ps, log), log, w, steps) && Narrowing(Rows(QueryFor(steps), ps, log))
  {
    var counts := Rows(QueryFor(steps), ps, log);
    forall i | 0 <= i < |steps| ensures counts[i] == |Reached(log, w, steps, i)| {
      FunnelCounts(steps, ps, log, w, i);
    }
    forall j, i | 0 <= j <= i < |counts| ensures counts[i] <= counts[j] {
      FunnelNarrows(steps, log, w, j, i);
    }
  }

  /** Runs the generated query, rewritten when a platform is given: the counts are those of the visible rows. */
  method LiveCounts(steps: seq<Step>, w: Window, platform: Option<string>, log: seq<Event>) returns (counts: seq<nat>)
    ensures CountsReached(counts, Visible(log, platform), w, steps) && Narrowing(counts)
  {
    var q, params := FunnelSql(steps);
    params := params[Start := At(w.start)][End := At(w.end)];
    CountsAreReached(steps, params, Visible(log, platform), w);
    ghost var plain := params;
    if platform.Some? && platform.value != "" {
      q := Query(ForPlatform(q.ctes));
      params := params[Platform := Text(platform.value)];
      PlatformRewrite(QueryFor(steps).ctes, plain, log, platform.value);
    }
    counts := Rows(q, params, log);
  }

  datatype StepReport = StepReport(users: nat, rateFromPrev: Option<real>, rateFromFirst: Option<real>)

  // The rate n / d, defined when d is positive; it lies in 0..1 and multiplies back.
  ghost predicate IsRate(rate: Option<real>, n: nat, d: nat) {
    && (rate.Some? <==> d > 0)
    && (rate.Some? ==> 0.0 <= rate.value <= 1.0 && rate.value * d as real == n as real)
  }

  // round(n / d) without the rounding, or nothing when the divisor is zero or absent.
  function RateOf(n: nat, d: Option<nat>): Option<real> {
    if d.Some? && d.value != 0 then Some(n as real / d.value as real) else None
  }

  lemma RateFacts(n: nat, d: nat)
    requires n <= d
    ensures IsRate(RateOf(n, Some(d)), n, d)
  {
  }

  function ReportAt(counts: seq<nat>, i: nat): StepReport
    requires i < |counts|
  {
    var prev := if i == 0 then None else Some(counts[i - 1]);
    StepReport(counts[i], RateOf(counts[i], prev), RateOf(counts[i], Some(counts[0])))
  }

  // Users per step are the declarative counts; rates are against the previous and the first step.
  ghost predicate AreReports(out: seq<StepReport>, log: seq<Event>, w: Window, steps: seq<Step>) {
    && |out| == |steps|
    && forall i | 0 <= i < |out| ::
      && out[i].users == |Reached(log, w, steps, i)|
      && (if i == 0 then out[i].rateFromPrev == None else IsRate(out[i].rateFromPrev, out[i].users, out[i - 1].users))
      && IsRate(out[i].rateFromFirst, out[i].users, out[0].users)
  }

  lemma ReportsFromCounts(out: seq<StepReport>, counts: seq<nat>, log: seq<Event>, w: Window, steps: seq<Step>)
    requires CountsReached(counts, log, w, steps) && Narrowing(counts)
    requires |out| == |counts| && forall k | 0 <= k < |out| :: out[k] == ReportAt(counts, k)
    ensures AreReports(out, log, w, steps)
  {
    forall i | 0 <= i < |out|
      ensures i > 0 ==> IsRate(out[i].rateFromPrev, out[i].users, out[i - 1].users)
      ensures IsRate(out[i].rateFromFirst, out[i].users, out[0].users)
    {
      RateFacts(counts[i], counts[0]);
      if i > 0 { RateFacts(counts[i], counts[i - 1]); }
    }
  }

  /** Users per step with conversion rates against the previous and the first step. */
  method LiveFunnel(steps: seq<Step>, w: Window, platform: Option<string>, log: seq<Event>)
      returns (out: seq<StepReport>)
    ensures AreReports(out, Visible(log, platform), w, steps)
  {
    var counts := LiveCounts(steps, w, platform, log);
    var first := if |counts| > 0 then counts[0] else 0;
    var prev: Option<nat> := None;
    out := [];
    for i := 0 to |steps|
      invariant |out| == i && prev == if i == 0 then None else Some(counts[i - 1])
      invariant forall k | 0 <= k < i :: out[k] == ReportAt(counts, k)
    {
      var n := counts[i];
      out := out + [StepReport(n, RateOf(n, prev), RateOf(n, Some(first)))];
      prev := Some(n);
    }
    ReportsFromCounts(out, counts, Visible(log, platform), w, steps);
  }
}
