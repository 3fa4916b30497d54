/**
  The daily upkeep of the month tables over whole schedules: creating three months ahead and
  dropping what has expired, between batches that need a table for the present. Main result:
  no batch ever finds its table missing exactly when upkeep runs are at most 59 days apart and
  rows are kept long enough for the session zone.
 */
module Upkeep {
  import opened Calendar
  import opened EventBook
  import opened EventStore

  datatype Task = Maintain(now: int, today: YearMonth) | Arrive(now: int)

  const AHEAD := 3

  const SAFE_GAP := 59 * DAY

  // The month of the current date in the given zone.
  ghost predicate IsToday(today: YearMonth, now: int, zone: int) {
    && IsMonth(today) && AllCreatable(MonthsFrom(today, AHEAD))
    && LocalMidnight(today, zone) <= now < LocalMidnight(AddMonth(today, 1), zone)
  }

  ghost function Maintained(ts: Tables, now: int, today: YearMonth, keep: nat, zone: int): Tables
    requires AllCreatable(MonthsFrom(today, AHEAD))
  {
    LiveTables(WithMonths(ts, MonthsFrom(today, AHEAD), zone), now - keep)
  }

  ghost function After(ts: Tables, tasks: seq<Task>, keep: nat, zone: int): Tables
    requires Datable(tasks)
  {
    if tasks == [] then ts
    else
      var n := |tasks| - 1;
      var before := After(ts, tasks[..n], keep, zone);
      if tasks[n].Maintain? then Maintained(before, tasks[n].now, tasks[n].today, keep, zone) else before
  }

  ghost predicate Datable(tasks: seq<Task>) {
    forall i | 0 <= i < |tasks| && tasks[i].Maintain? :: AllCreatable(MonthsFrom(tasks[i].today, AHEAD))
  }

  // In order of time, each upkeep on its own date, and each arrival within `gap` of some upkeep.
  ghost predicate IsSchedule(tasks: seq<Task>, gap: nat, zone: int) {
    && Datable(tasks)
    && (forall i, j | 0 <= i < j < |tasks| :: tasks[i].now <= tasks[j].now)
    && (forall i | 0 <= i < |tasks| && tasks[i].Maintain? :: IsToday(tasks[i].today, tasks[i].now, zone))
    && (forall j | 0 <= j < |tasks| && tasks[j].Arrive? :: IsTended(tasks, j, gap))
  }

  ghost predicate IsTended(tasks: seq<Task>, j: int, gap: nat) {
    exists k | 0 <= k < j < |tasks| :: tasks[k].Maintain? && tasks[j].now - tasks[k].now <= gap
  }

  // Every arrival finds a table for its time.
  ghost predicate AlwaysRoom(ts: Tables, tasks: seq<Task>, keep: nat, zone: int)
    requires Datable(tasks)
  {
    forall j | 0 <= j < |tasks| && tasks[j].Arrive? :: HasRoom(After(ts, tasks[..j], keep, zone), tasks[j].now)
  }

  // ---------- one upkeep ----------

  // Dropping never takes the table of the present or of the future.
  lemma DropKeepsRoom(ts: Tables, now: int, t: int, keep: nat, zone: int)
    requires WellNamed(ts, zone) && keep + 1 >= -zone * MINUTE && now <= t && HasRoom(ts, t)
    ensures HasRoom(LiveTables(ts, now - keep), t)
  {
    var name :| name in ts && ts[name].lo <= t < ts[name].hi;
    assert IsMonthTable(name, ts[name], zone);
    assert name in LiveTables(ts, now - keep);
  }

  lemma MaintainedIsWellNamed(ts: Tables, now: int, today: YearMonth, keep: nat, zone: int)
    requires WellNamed(ts, zone) && AllCreatable(MonthsFrom(today, AHEAD))
    ensures WellNamed(Maintained(ts, now, today, keep, zone), zone)
  {
    var more := WithMonths(ts, MonthsFrom(today, AHEAD), zone);
    WithMonthsFacts(ts, MonthsFrom(today, AHEAD), zone);
    forall name <- LiveTables(more, now - keep) ensures IsMonthTable(name, more[name], zone) {}
  }

  // After an upkeep there is room from its time to the end of the ensured months, and no later room is lost.
  lemma MaintainedHasRoom(ts: Tables, now: int, today: YearMonth, keep: nat, zone: int, t: int)
    requires WellNamed(ts, zone) && keep + 1 >= -zone * MINUTE && now <= t && IsToday(today, now, zone)
    requires HasRoom(ts, t) || t < LocalMidnight(AddMonth(today, AHEAD), zone)
    ensures HasRoom(Maintained(ts, now, today, keep, zone), t)
  {
    var months := MonthsFrom(today, AHEAD);
    var more := WithMonths(ts, months, zone);
    WithMonthsFacts(ts, months, zone);
    AddMonthIsAction(today, 0, 0);
    if HasRoom(ts, t) {
      var name :| name in ts && ts[name].lo <= t < ts[name].hi;
      assert name in more;
    } else {
      MonthsHaveRoom(ts, today, AHEAD, zone, t);
    }
    DropKeepsRoom(more, now, t, keep, zone);
  }

  lemma DaysApart(a: YearMonth, b: YearMonth, days: int, zone: int)
    ensures MonthStart(b) >= MonthStart(a) + days ==> LocalMidnight(b, zone) >= LocalMidnight(a, zone) + days * DAY
    ensures MonthStart(b) == MonthStart(a) + days ==> LocalMidnight(b, zone) == LocalMidnight(a, zone) + days * DAY
  {
    Scaled(MonthStart(a), MonthStart(b), days);
  }

  lemma Scaled(a: int, b: int, days: int)
    ensures b >= a + days ==> b * DAY >= a * DAY + days * DAY
    ensures b == a + days ==> b * DAY == a * DAY + days * DAY
  {
  }

  // From any date, the ensured months reach 59 days past the present.
  lemma AheadIsEnough(today: YearMonth, now: int, zone: int)
    requires IsToday(today, now, zone)
    ensures now + SAFE_GAP < LocalMidnight(AddMonth(today, AHEAD), zone)
  {
    NextTwoMonths(today);
    DaysApart(AddMonth(today, 1), AddMonth(today, AHEAD), 59, zone);
  }

  // ---------- whole schedules ----------

  lemma {:induction false} AfterIsWellNamed(ts: Tables, tasks: seq<Task>, keep: nat, zone: int)
    requires WellNamed(ts, zone) && Datable(tasks)
    ensures WellNamed(After(ts, tasks, keep, zone), zone)
  {
    if tasks != [] {
      var n := |tasks| - 1;
      AfterIsWellNamed(ts, tasks[..n], keep, zone);
      if tasks[n].Maintain? {
        MaintainedIsWellNamed(After(ts, tasks[..n], keep, zone), tasks[n].now, tasks[n].today, keep, zone);
      }
    }
  }

  // Room made by the upkeep at step k lasts until its time comes.
  lemma {:induction false} RoomLasts(ts: Tables, tasks: seq<Task>, k: nat, n: nat, gap: nat,
      keep: nat, zone: int, t: int)
    requires WellNamed(ts, zone) && keep + 1 >= -zone * MINUTE && IsSchedule(tasks, gap, zone)
    requires k < n <= |tasks| && tasks[k].Maintain? && tasks[n - 1].now <= t
    requires t < LocalMidnight(AddMonth(tasks[k].today, AHEAD), zone)
    ensures HasRoom(After(ts, tasks[..n], keep, zone), t)
    decreases n
  {
    assert tasks[..n][..n - 1] == tasks[..n - 1];
    AfterIsWellNamed(ts, tasks[..n - 1], keep, zone);
    if k < n - 1 {
      RoomLasts(ts, tasks, k, n - 1, gap, keep, zone, t);
    }
    if tasks[n - 1].Maintain? {
      MaintainedHasRoom(After(ts, tasks[..n - 1], keep, zone), tasks[n - 1].now, tasks[n - 1].today, keep, zone, t);
    }
  }

  lemma ScheduleHasRoom(ts: Tables, tasks: seq<Task>, gap: nat, keep: nat, zone: int)
    requires WellNamed(ts, zone) && IsSchedule(tasks, gap, zone)
    requires gap <= SAFE_GAP && keep + 1 >= -zone * MINUTE
    ensures AlwaysRoom(ts, tasks, keep, zone)
  {
    forall j | 0 <= j < |tasks| && tasks[j].Arrive?
      ensures HasRoom(After(ts, tasks[..j], keep, zone), tasks[j].now)
    {
      assert IsTended(tasks, j, gap);
      var k :| 0 <= k < j && tasks[k].Maintain? && tasks[j].now - tasks[k].now <= gap;
      AheadIsEnough(tasks[k].today, tasks[k].now, zone);
      RoomLasts(ts, tasks, k, j, gap, keep, zone, tasks[j].now);
    }
  }

  // ---------- the bounds are needed ----------

  ghost predicate IsMonthOf(today: YearMonth, name: string, span: Span, k: nat, zone: int) {
    var ym := AddMonth(today, k);
    k < AHEAD && IsCreatable(ym) && name == Name(ym) && span == MonthSpan(ym, zone)
  }

  lemma {:induction false} OnlyTheMonths(months: seq<YearMonth>, zone: int, name: string)
    requires AllCreatable(months) && name in WithMonths(map[], months, zone)
    ensures exists k: nat ::
      k < |months| && name == Name(months[k]) && WithMonths(map[], months, zone)[name] == MonthSpan(months[k], zone)
  {
    var n := |months| - 1;
    if name in WithMonths(map[], months[..n], zone) {
      OnlyTheMonths(months[..n], zone, name);
    } else {
      assert name == Name(months[n]);
    }
  }

  // The tables an upkeep leaves when there were none.
  lemma ThreeTables(today: YearMonth, now: int, keep: nat, zone: int, name: string)
    requires AllCreatable(MonthsFrom(today, AHEAD)) && name in Maintained(map[], now, today, keep, zone)
    ensures !IsExpired(name, now - keep)
    ensures exists k: nat :: IsMonthOf(today, name, Maintained(map[], now, today, keep, zone)[name], k, zone)
  {
    var months := MonthsFrom(today, AHEAD);
    OnlyTheMonths(months, zone, name);
    var k: nat :| k < |months| && name == Name(months[k])
      && WithMonths(map[], months, zone)[name] == MonthSpan(months[k], zone);
    assert IsMonthOf(today, name, Maintained(map[], now, today, keep, zone)[name], k, zone);
  }

  // After the ensured months there is no table.
  lemma NoTableLater(today: YearMonth, now: int, t: int, keep: nat, zone: int)
    requires AllCreatable(MonthsFrom(today, AHEAD)) && t >= LocalMidnight(AddMonth(today, AHEAD), zone)
    ensures !HasRoom(Maintained(map[], now, today, keep, zone), t)
  {
    var ts := Maintained(map[], now, today, keep, zone);
    forall name <- ts ensures ts[name].hi <= t {
      ThreeTables(today, now, keep, zone, name);
      var k: nat :| IsMonthOf(today, name, ts[name], k, zone);
      MidnightsRise(today, k, zone);
      LaterMidnight(today, k + 1, AHEAD, zone);
    }
  }

  lemma {:induction false} LaterMidnight(today: YearMonth, j: nat, k: nat, zone: int)
    requires j <= k
    ensures LocalMidnight(AddMonth(today, j), zone) <= LocalMidnight(AddMonth(today, k), zone)
    decreases k - j
  {
    if j < k {
      MidnightsRise(today, j, zone);
      LaterMidnight(today, j + 1, k, zone);
    }
  }

  function MonthIndex(ym: YearMonth): int {
    ym.0 * 12 + ym.1
  }

  lemma LaterMonth(a: YearMonth, b: YearMonth, zone: int)
    requires IsMonth(a) && IsMonth(b) && MonthIndex(a) < MonthIndex(b)
    ensures MonthSpan(a, zone).hi <= MonthSpan(b, zone).lo
  {
    var k := MonthIndex(b) - MonthIndex(a);
    assert AddMonth(a, k) == b;
    LaterMidnight(a, 1, k, zone);
  }

  lemma MonthsApart(a: YearMonth, b: YearMonth, zone: int)
    requires IsMonth(a) && IsMonth(b) && a != b
    ensures MonthSpan(a, zone).hi <= MonthSpan(b, zone).lo || MonthSpan(b, zone).hi <= MonthSpan(a, zone).lo
  {
    if MonthIndex(a) < MonthIndex(b) {
      LaterMonth(a, b, zone);
    } else {
      assert MonthIndex(a) == MonthIndex(b) ==> a == b;
      LaterMonth(b, a, zone);
    }
  }

  // The table is the one of this month.
  ghost predicate IsTableOf(ts: Tables, name: string, ym: YearMonth) {
    name in ts && ParseName(name).Some? && ParseName(name).value == ym
  }

  lemma TableSpan(ts: Tables, zone: int, name: string, ym: YearMonth)
    requires WellNamed(ts, zone) && IsTableOf(ts, name, ym)
    ensures IsMonth(ym) && ts[name] == MonthSpan(ym, zone)
  {
    assert IsMonthTable(name, ts[name], zone);
  }

  /** Tables of different months never hold the same instant, whatever upkeep created or dropped. */
  lemma MonthTablesAreDisjoint(ts: Tables, zone: int, p: string, a: YearMonth, q: string, b: YearMonth)
    requires WellNamed(ts, zone) && IsTableOf(ts, p, a) && IsTableOf(ts, q, b) && a != b
    ensures ts[p].hi <= ts[q].lo || ts[q].hi <= ts[p].lo
  {
    TableSpan(ts, zone, p, a);
    TableSpan(ts, zone, q, b);
    MonthsApart(a, b, zone);
  }

  // A drop that thinks this month is over takes the table of the present.
  lemma NoTableNow(today: YearMonth, now: int, keep: nat, zone: int)
    requires AllCreatable(MonthsFrom(today, AHEAD))
    requires Midnight(AddMonth(today, 1)) < now - keep && now < LocalMidnight(AddMonth(today, 1), zone)
    ensures !HasRoom(Maintained(map[], now, today, keep, zone), now)
  {
    ThisMonthExpires(today, now - keep);
    forall name <- Maintained(map[], now, today, keep, zone)
      ensures now < Maintained(map[], now, today, keep, zone)[name].lo
    {
      ThreeTables(today, now, keep, zone, name);
      var k: nat :| IsMonthOf(today, name, Maintained(map[], now, today, keep, zone)[name], k, zone);
      MonthStartsLater(today, name, Maintained(map[], now, today, keep, zone)[name], k, zone, now - keep);
    }
  }

  lemma MonthStartsLater(today: YearMonth, name: string, span: Span, k: nat, zone: int, cutoff: int)
    requires IsMonthOf(today, name, span, k, zone) && !IsExpired(name, cutoff)
    requires IsCreatable(AddMonth(today, 0)) && IsExpired(Name(AddMonth(today, 0)), cutoff)
    ensures LocalMidnight(AddMonth(today, 1), zone) <= span.lo
  {
    assert k != 0;
    LaterMidnight(today, 1, k, zone);
  }

  lemma ThisMonthExpires(today: YearMonth, cutoff: int)
    requires AllCreatable(MonthsFrom(today, AHEAD)) && Midnight(AddMonth(today, 1)) < cutoff
    ensures IsCreatable(AddMonth(today, 0)) && IsExpired(Name(AddMonth(today, 0)), cutoff)
  {
    assert MonthsFrom(today, AHEAD)[0] == AddMonth(today, 0);
    AddMonthIsAction(today, 0, 1);
    MonthExpires(AddMonth(today, 0), AddMonth(today, 1), cutoff);
  }

  lemma MonthExpires(ym: YearMonth, next: YearMonth, cutoff: int)
    requires IsCreatable(ym) && next == AddMonth(ym, 1) && Midnight(next) < cutoff
    ensures IsExpired(Name(ym), cutoff)
  {
    NameRoundTrip(ym);
  }

  // A December before a common year, when the ensured months reach no further than 59 days past its end.
  ghost predicate IsTightDecember(ym: YearMonth) {
    ym.1 == 12 && !IsLeap(ym.0 + 1) && AllCreatable(MonthsFrom(ym, AHEAD))
  }

  lemma NoRoom(ym: YearMonth, gap: nat, keep: nat, zone: int) returns (now: int, t: int)
    requires IsTightDecember(ym) && -DAY < zone * MINUTE < DAY && (gap > SAFE_GAP || keep + 1 < -zone * MINUTE)
    ensures IsToday(ym, now, zone) && now <= t <= now + gap
    ensures !HasRoom(Maintained(map[], now, ym, keep, zone), t)
  {
    var year := LocalMidnight(AddMonth(ym, 1), zone);
    DecemberMidnights(ym, zone);
    if gap > SAFE_GAP {
      now, t := year - 1, year + SAFE_GAP;
      NoTableLater(ym, now, t, keep, zone);
    } else {
      now := year + zone * MINUTE + keep + 1;
      t := now;
      NoTableNow(ym, now, keep, zone);
    }
  }

  lemma DecemberMidnights(ym: YearMonth, zone: int)
    requires IsTightDecember(ym)
    ensures LocalMidnight(ym, zone) + 28 * DAY <= LocalMidnight(AddMonth(ym, 1), zone)
    ensures LocalMidnight(AddMonth(ym, AHEAD), zone) == LocalMidnight(AddMonth(ym, 1), zone) + SAFE_GAP
  {
    NextMonthStart(ym);
    NextTwoMonths(ym);
    DaysApart(ym, AddMonth(ym, 1), 28, zone);
    DaysApart(AddMonth(ym, 1), AddMonth(ym, AHEAD), 59, zone);
  }

  lemma SomeTightDecember() returns (ym: YearMonth)
    ensures IsTightDecember(ym)
  {
    ym := (2025, 12);
    forall k | 0 <= k < AHEAD ensures IsCreatable(MonthsFrom(ym, AHEAD)[k]) {}
  }

  // One upkeep, then one arrival.
  function Pair(now: int, today: YearMonth, t: int): seq<Task> {
    [Maintain(now, today), Arrive(t)]
  }

  lemma PairIsSchedule(now: int, today: YearMonth, t: int, gap: nat, zone: int)
    requires IsToday(today, now, zone) && now <= t <= now + gap
    ensures IsSchedule(Pair(now, today, t), gap, zone)
  {
    assert IsTended(Pair(now, today, t), 1, gap) by { assert Pair(now, today, t)[0].Maintain?; }
  }

  lemma PairHasNoRoom(now: int, today: YearMonth, t: int, keep: nat, zone: int)
    requires AllCreatable(MonthsFrom(today, AHEAD)) && !HasRoom(Maintained(map[], now, today, keep, zone), t)
    ensures Datable(Pair(now, today, t)) && !AlwaysRoom(map[], Pair(now, today, t), keep, zone)
  {
    var tasks := Pair(now, today, t);
    var first := [Maintain(now, today)];
    assert tasks[..1] == first && first[..0] == [];
    assert Datable(first) && After(map[], [], keep, zone) == map[];
    assert After(map[], first, keep, zone) == Maintained(map[], now, today, keep, zone);
    assert tasks[1] == Arrive(t);
  }

  /** No arrival on any schedule lacks a table, whatever tables there were at first, exactly when upkeep is at most 59
      days apart and rows are kept at least as long as the session zone is behind UTC. */
  lemma AlwaysRoomIff(gap: nat, keep: nat, zone: int)
    requires -DAY < zone * MINUTE < DAY
    ensures gap <= SAFE_GAP && keep + 1 >= -zone * MINUTE <==>
      forall ts: Tables, tasks: seq<Task> :: WellNamed(ts, zone) && IsSchedule(tasks, gap, zone) ==>
        AlwaysRoom(ts, tasks, keep, zone)
  {
    if gap <= SAFE_GAP && keep + 1 >= -zone * MINUTE {
      forall ts: Tables, tasks: seq<Task> | WellNamed(ts, zone) && IsSchedule(tasks, gap, zone)
        ensures AlwaysRoom(ts, tasks, keep, zone)
      {
        ScheduleHasRoom(ts, tasks, gap, keep, zone);
      }
    } else {
      var ym := SomeTightDecember();
      var now, t := NoRoom(ym, gap, keep, zone);
      PairIsSchedule(now, ym, t, gap, zone);
      PairHasNoRoom(now, ym, t, keep, zone);
      var ts: Tables := map[];
      assert WellNamed(ts, zone) && !AlwaysRoom(ts, Pair(now, ym, t), keep, zone);
    }
  }
}
