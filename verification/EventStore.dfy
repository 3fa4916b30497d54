/**
  The raw event table as month partitions, with its dedupe ledger: creation of future
  partitions, batch ingestion, two-stage retention and erasure. Every method is proved to be
  the matching step of the machine in EventBook.
 */
module EventStore {
  import opened Common
  import opened Calendar
  import opened EventBook

  const MINUTE := 60 * SECOND

  // Bounds are instants; a row belongs here when lo <= receivedAt < hi.
  datatype Partition = Partition(lo: int, hi: int, rows: set<RawRow>)

  type Partitions = map<string, Partition>

  // Midnight UTC at the start of a month.
  function Midnight(ym: YearMonth): int {
    MonthStart(ym) * DAY
  }

  // The database reads partition bounds as midnight of its session zone, `zone` minutes east of UTC.
  function LocalMidnight(ym: YearMonth, zone: int): int {
    Midnight(ym) - zone * MINUTE
  }

  predicate IsCreatable(ym: YearMonth) {
    IsMonth(ym) && 1 <= ym.0 <= 9998
  }

  ghost predicate IsMonthPartition(name: string, p: Partition, zone: int) {
    && (ParseName(name).Some? ==>
          var ym := ParseName(name).value;
          IsCreatable(ym) && p.lo == LocalMidnight(ym, zone) && p.hi == LocalMidnight(AddMonth(ym, 1), zone))
    && forall r <- p.rows :: p.lo <= r.receivedAt < p.hi
  }

  ghost predicate WellFormed(parts: Partitions, zone: int) {
    forall name {:trigger IsMonthPartition(name, parts[name], zone)} | name in parts ::
      IsMonthPartition(name, parts[name], zone)
  }

  function StoredRows(parts: Partitions): set<RawRow> {
    set name, r | name in parts && r in parts[name].rows :: r
  }

  // ---------- the tables without their rows ----------

  datatype Span = Span(lo: int, hi: int)

  type Tables = map<string, Span>

  function TablesOf(parts: Partitions): Tables {
    map name | name in parts :: Span(parts[name].lo, parts[name].hi)
  }

  function MonthSpan(ym: YearMonth, zone: int): Span {
    Span(LocalMidnight(ym, zone), LocalMidnight(AddMonth(ym, 1), zone))
  }

  function WithMonth(ts: Tables, ym: YearMonth, zone: int): Tables
    requires IsCreatable(ym)
  {
    if Name(ym) in ts then ts else ts[Name(ym) := MonthSpan(ym, zone)]
  }

  ghost predicate AllCreatable(months: seq<YearMonth>) {
    forall i | 0 <= i < |months| :: IsCreatable(months[i])
  }

  ghost function WithMonths(ts: Tables, months: seq<YearMonth>, zone: int): Tables
    requires AllCreatable(months)
  {
    if months == [] then ts
    else WithMonth(WithMonths(ts, months[..|months| - 1], zone), months[|months| - 1], zone)
  }

  function MonthsFrom(today: YearMonth, n: nat): (months: seq<YearMonth>)
    ensures |months| == n
  {
    seq(n, k requires 0 <= k < n => AddMonth(today, k))
  }

  predicate HasRoom(ts: Tables, t: int) {
    exists name <- ts :: ts[name].lo <= t < ts[name].hi
  }

  // A table named after a month has that month's bounds.
  ghost predicate WellNamed(ts: Tables, zone: int) {
    forall name {:trigger IsMonthTable(name, ts[name], zone)} | name in ts :: IsMonthTable(name, ts[name], zone)
  }

  ghost predicate IsMonthTable(name: string, span: Span, zone: int) {
    ParseName(name).Some? ==> IsCreatable(ParseName(name).value) && span == MonthSpan(ParseName(name).value, zone)
  }

  lemma WithMonthFacts(ts: Tables, ym: YearMonth, zone: int)
    requires WellNamed(ts, zone) && IsCreatable(ym)
    ensures WellNamed(WithMonth(ts, ym, zone), zone)
    ensures Name(ym) in WithMonth(ts, ym, zone) && WithMonth(ts, ym, zone)[Name(ym)] == MonthSpan(ym, zone)
  {
    NameRoundTrip(ym);
    if Name(ym) in ts {
      assert IsMonthTable(Name(ym), ts[Name(ym)], zone);
    } else {
      forall name <- WithMonth(ts, ym, zone) ensures IsMonthTable(name, WithMonth(ts, ym, zone)[name], zone) {
        if name != Name(ym) { assert IsMonthTable(name, ts[name], zone); }
      }
    }
  }

  lemma {:induction false} WithMonthsFacts(ts: Tables, months: seq<YearMonth>, zone: int)
    requires WellNamed(ts, zone) && AllCreatable(months)
    ensures WellNamed(WithMonths(ts, months, zone), zone)
    ensures forall name <- ts :: name in WithMonths(ts, months, zone) && WithMonths(ts, months, zone)[name] == ts[name]
    ensures forall ym <- months :: HasMonth(WithMonths(ts, months, zone), ym, zone)
  {
    if months != [] {
      var n := |months| - 1;
      var before := WithMonths(ts, months[..n], zone);
      WithMonthsFacts(ts, months[..n], zone);
      WithMonthFacts(before, months[n], zone);
      forall ym <- months ensures HasMonth(WithMonth(before, months[n], zone), ym, zone) {
        assert ym in months[..n] ==> HasMonth(before, ym, zone);
        assert months == months[..n] + [months[n]];
      }
    }
  }

  lemma WithOneMore(ts: Tables, months: seq<YearMonth>, n: nat, zone: int)
    requires n < |months| && AllCreatable(months[..n]) && IsCreatable(months[n])
    ensures AllCreatable(months[..n + 1])
    ensures WithMonths(ts, months[..n + 1], zone) == WithMonth(WithMonths(ts, months[..n], zone), months[n], zone)
  {
    assert months[..n + 1][..n] == months[..n];
  }

  ghost predicate HasMonth(ts: Tables, ym: YearMonth, zone: int) {
    IsCreatable(ym) && Name(ym) in ts && ts[Name(ym)] == MonthSpan(ym, zone)
  }

  // The ensured months have room for every instant of their span.
  lemma MonthsHaveRoom(ts: Tables, today: YearMonth, n: nat, zone: int, t: int)
    requires WellNamed(ts, zone) && AllCreatable(MonthsFrom(today, n))
    requires LocalMidnight(AddMonth(today, 0), zone) <= t < LocalMidnight(AddMonth(today, n), zone)
    ensures HasRoom(WithMonths(ts, MonthsFrom(today, n), zone), t)
  {
    WithMonthsFacts(ts, MonthsFrom(today, n), zone);
    var k := MonthHolding(today, n, zone, t);
    var ym := MonthsFrom(today, n)[k];
    assert HasMonth(WithMonths(ts, MonthsFrom(today, n), zone), ym, zone);
  }

  lemma MidnightsRise(today: YearMonth, k: nat, zone: int)
    ensures LocalMidnight(AddMonth(AddMonth(today, k), 1), zone) == LocalMidnight(AddMonth(today, k + 1), zone)
    ensures LocalMidnight(AddMonth(today, k), zone) < LocalMidnight(AddMonth(today, k + 1), zone)
  {
    PartitionsTouch(today, k);
    AddMonthIsAction(today, k, 1);
    DaysInOrder(AddMonth(today, k), AddMonth(today, k + 1), zone);
  }

  lemma DaysInOrder(a: YearMonth, b: YearMonth, zone: int)
    requires MonthStart(a) < MonthStart(b)
    ensures LocalMidnight(a, zone) < LocalMidnight(b, zone)
  {
  }

  lemma MonthHolding(today: YearMonth, n: nat, zone: int, t: int) returns (k: nat)
    requires LocalMidnight(AddMonth(today, 0), zone) <= t < LocalMidnight(AddMonth(today, n), zone)
    ensures k < n && MonthSpan(AddMonth(today, k), zone).lo <= t < MonthSpan(AddMonth(today, k), zone).hi
  {
    var f := (i: nat) => LocalMidnight(AddMonth(today, i), zone);
    forall i: nat ensures Rises(f, i) { MidnightsRise(today, i, zone); }
    RisingBoundsTile(f, n, t);
    k :| k < n && Within(f, k, t);
    MidnightsRise(today, k, zone);
  }

  function LiveTables(ts: Tables, cutoff: int): Tables {
    map name | name in ts && !IsExpired(name, cutoff) :: ts[name]
  }

  // ---------- two-stage expiry ----------

  predicate IsExpired(name: string, cutoff: int) {
    ParseName(name).Some? && Midnight(AddMonth(ParseName(name).value, 1)) < cutoff
  }

  function WithoutExpired(parts: Partitions, cutoff: int): Partitions {
    map name | name in parts && !IsExpired(name, cutoff) :: parts[name]
  }

  // What is left after dropping expired partitions and deleting the boundary rows.
  function TwoStage(parts: Partitions, cutoff: int): set<RawRow> {
    KeepRows(StoredRows(WithoutExpired(parts, cutoff)), cutoff)
  }

  // Rows young enough to keep that go down with a partition dropped too early.
  function DroppedEarly(parts: Partitions, cutoff: int): set<RawRow> {
    KeepRows(StoredRows(parts), cutoff) - TwoStage(parts, cutoff)
  }

  lemma TwoStageIsFilterLessDropped(parts: Partitions, cutoff: int)
    ensures TwoStage(parts, cutoff) == KeepRows(StoredRows(parts), cutoff) - DroppedEarly(parts, cutoff)
  {
    forall r <- TwoStage(parts, cutoff) ensures r in KeepRows(StoredRows(parts), cutoff) {
      var name :| name in WithoutExpired(parts, cutoff) && r in WithoutExpired(parts, cutoff)[name].rows;
      assert name in parts && r in parts[name].rows;
    }
  }

  lemma EastIsSafe(parts: Partitions, zone: int, cutoff: int)
    requires WellFormed(parts, zone) && zone >= 0
    ensures TwoStage(parts, cutoff) == KeepRows(StoredRows(parts), cutoff)
  {
    forall r | r in KeepRows(StoredRows(parts), cutoff) ensures r in TwoStage(parts, cutoff) {
      var name :| name in parts && r in parts[name].rows;
      assert IsMonthPartition(name, parts[name], zone);
      assert zone * MINUTE >= 0;
      assert name in WithoutExpired(parts, cutoff);
    }
  }

  // One month's partition holding one row in its last microsecond.
  function LateRow(ym: YearMonth, zone: int): RawRow {
    RawRow(0, 1, Sender(None, "device", None), 0, LocalMidnight(AddMonth(ym, 1), zone) - 1)
  }

  function OnePartition(ym: YearMonth, zone: int): Partitions
    requires IsCreatable(ym)
  {
    map[Name(ym) := Partition(LocalMidnight(ym, zone), LocalMidnight(AddMonth(ym, 1), zone), {LateRow(ym, zone)})]
  }

  lemma WestLosesARow(ym: YearMonth, zone: int)
    requires zone < 0 && IsCreatable(ym)
    ensures var parts, cutoff := OnePartition(ym, zone), Midnight(AddMonth(ym, 1)) + 1;
      WellFormed(parts, zone) && TwoStage(parts, cutoff) != KeepRows(StoredRows(parts), cutoff)
  {
    var parts, cutoff, row := OnePartition(ym, zone), Midnight(AddMonth(ym, 1)) + 1, LateRow(ym, zone);
    NameRoundTrip(ym);
    LastInstant(ym, zone);
    assert row in parts[Name(ym)].rows;
    assert row in KeepRows(StoredRows(parts), cutoff);
    assert IsExpired(Name(ym), cutoff);
    assert WithoutExpired(parts, cutoff) == map[];
  }

  // A month is not empty, and west of UTC it ends after its UTC end.
  lemma LastInstant(ym: YearMonth, zone: int)
    requires IsMonth(ym)
    ensures LocalMidnight(ym, zone) <= LocalMidnight(AddMonth(ym, 1), zone) - 1
    ensures zone < 0 ==> Midnight(AddMonth(ym, 1)) + 1 <= LocalMidnight(AddMonth(ym, 1), zone) - 1
  {
    NextMonthStart(ym);
    DaysInOrder(ym, AddMonth(ym, 1), zone);
    assert zone < 0 ==> zone * MINUTE <= -MINUTE;
  }

  /** Dropping expired partitions, then deleting boundary rows, is the plain filter on receivedAt exactly when
      the database session's zone is not west of UTC. */
  lemma TwoStageIsFilterIff(zone: int)
    ensures zone >= 0 <==>
      forall parts: Partitions, cutoff: int ::
        WellFormed(parts, zone) ==> TwoStage(parts, cutoff) == KeepRows(StoredRows(parts), cutoff)
  {
    if zone >= 0 {
      forall parts: Partitions, cutoff: int | WellFormed(parts, zone)
        ensures TwoStage(parts, cutoff) == KeepRows(StoredRows(parts), cutoff)
      {
        EastIsSafe(parts, zone, cutoff);
      }
    } else {
      WestLosesARow((2026, 1), zone);
    }
  }

  // ---------- row updates, partition by partition ----------

  function FilterRows(parts: Partitions, cutoff: int): Partitions {
    map name | name in parts :: parts[name].(rows := KeepRows(parts[name].rows, cutoff))
  }

  function MaskRows(parts: Partitions, now: int, ipDays: nat): Partitions {
    map name | name in parts :: parts[name].(rows := AnonymiseRows(parts[name].rows, now, ipDays))
  }

  function DropUser(parts: Partitions, userId: string): Partitions {
    map name | name in parts :: parts[name].(rows := set r | r in parts[name].rows && r.sender.userId != Some(userId))
  }

  function DropDevice(parts: Partitions, anonId: string): Partitions {
    map name | name in parts :: parts[name].(rows := set r | r in parts[name].rows && r.sender.anonId != anonId)
  }

  lemma FilterRowsFacts(parts: Partitions, cutoff: int, zone: int)
    requires WellFormed(parts, zone)
    ensures WellFormed(FilterRows(parts, cutoff), zone)
    ensures StoredRows(FilterRows(parts, cutoff)) == KeepRows(StoredRows(parts), cutoff)
  {
    var after := FilterRows(parts, cutoff);
    forall name <- after ensures IsMonthPartition(name, after[name], zone) {
      assert IsMonthPartition(name, parts[name], zone);
    }
    forall r ensures r in StoredRows(after) <==> r in KeepRows(StoredRows(parts), cutoff) {
      if r in KeepRows(StoredRows(parts), cutoff) {
        var name :| name in parts && r in parts[name].rows;
        assert r in after[name].rows;
      }
    }
  }

  lemma MaskRowsFacts(parts: Partitions, now: int, ipDays: nat, zone: int)
    requires WellFormed(parts, zone)
    ensures WellFormed(MaskRows(parts, now, ipDays), zone)
    ensures StoredRows(MaskRows(parts, now, ipDays)) == AnonymiseRows(StoredRows(parts), now, ipDays)
  {
    var after := MaskRows(parts, now, ipDays);
    forall name <- after ensures IsMonthPartition(name, after[name], zone) {
      assert IsMonthPartition(name, parts[name], zone);
    }
    forall r ensures r in StoredRows(after) <==> r in AnonymiseRows(StoredRows(parts), now, ipDays) {
      if r in StoredRows(after) {
        var name :| name in after && r in after[name].rows;
        var r0 :| r0 in parts[name].rows && r == Anonymise(r0, now, ipDays);
        assert r0 in StoredRows(parts);
      }
      if r in AnonymiseRows(StoredRows(parts), now, ipDays) {
        var r0 :| r0 in StoredRows(parts) && r == Anonymise(r0, now, ipDays);
        var name :| name in parts && r0 in parts[name].rows;
        assert r in after[name].rows;
      }
    }
  }

  lemma DropUserFacts(parts: Partitions, userId: string, zone: int)
    requires WellFormed(parts, zone)
    ensures WellFormed(DropUser(parts, userId), zone)
    ensures StoredRows(DropUser(parts, userId)) == set r | r in StoredRows(parts) && r.sender.userId != Some(userId)
  {
    var after := DropUser(parts, userId);
    forall name <- after ensures IsMonthPartition(name, after[name], zone) {
      assert IsMonthPartition(name, parts[name], zone);
    }
    forall r | r in StoredRows(parts) && r.sender.userId != Some(userId) ensures r in StoredRows(after) {
      var name :| name in parts && r in parts[name].rows;
      assert r in after[name].rows;
    }
  }

  lemma DropDeviceFacts(parts: Partitions, anonId: string, zone: int)
    requires WellFormed(parts, zone)
    ensures WellFormed(DropDevice(parts, anonId), zone)
    ensures StoredRows(DropDevice(parts, anonId)) == set r | r in StoredRows(parts) && r.sender.anonId != anonId
  {
    var after := DropDevice(parts, anonId);
    forall name <- after ensures IsMonthPartition(name, after[name], zone) {
      assert IsMonthPartition(name, parts[name], zone);
    }
    forall r | r in StoredRows(parts) && r.sender.anonId != anonId ensures r in StoredRows(after) {
      var name :| name in parts && r in parts[name].rows;
      assert r in after[name].rows;
    }
  }

  function Insert(parts: Partitions, name: string, row: RawRow): Partitions
    requires name in parts
  {
    parts[name := parts[name].(rows := parts[name].rows + {row})]
  }

  lemma InsertFacts(parts: Partitions, name: string, row: RawRow, zone: int)
    requires WellFormed(parts, zone) && name in parts && parts[name].lo <= row.receivedAt < parts[name].hi
    ensures WellFormed(Insert(parts, name, row), zone)
    ensures StoredRows(Insert(parts, name, row)) == StoredRows(parts) + {row}
  {
    var after := Insert(parts, name, row);
    forall n <- after ensures IsMonthPartition(n, after[n], zone) {
      assert IsMonthPartition(n, parts[n], zone);
    }
    forall r ensures r in StoredRows(after) <==> r in StoredRows(parts) + {row} {
      if r in StoredRows(parts) {
        var n :| n in parts && r in parts[n].rows;
        assert r in after[n].rows;
      }
      if r == row { assert r in after[name].rows; }
    }
  }

  // Some partition holds every instant of the span.
  ghost predicate CoversSpan(parts: Partitions, from: int, to: int) {
    forall t | from <= t < to :: HasRoomFor(parts, t)
  }

  predicate HasRoomFor(parts: Partitions, t: int) {
    exists name <- parts :: parts[name].lo <= t < parts[name].hi
  }

  lemma CreateFacts(parts: Partitions, ym: YearMonth, zone: int)
    requires WellFormed(parts, zone) && IsCreatable(ym)
    ensures var name, p := Name(ym), Partition(LocalMidnight(ym, zone), LocalMidnight(AddMonth(ym, 1), zone), {});
      && (name in parts ==> parts[name].lo == p.lo && parts[name].hi == p.hi)
      && (name !in parts ==> WellFormed(parts[name := p], zone) && StoredRows(parts[name := p]) == StoredRows(parts))
  {
    NameRoundTrip(ym);
    var name, p := Name(ym), Partition(LocalMidnight(ym, zone), LocalMidnight(AddMonth(ym, 1), zone), {});
    if name in parts {
      assert IsMonthPartition(name, parts[name], zone);
    } else {
      var after := parts[name := p];
      forall n <- after ensures IsMonthPartition(n, after[n], zone) {
        if n != name { assert IsMonthPartition(n, parts[n], zone); }
      }
      forall r | r in StoredRows(parts) ensures r in StoredRows(after) {
        var n :| n in parts && r in parts[n].rows;
        assert n in after && r in after[n].rows;
      }
    }
  }

  lemma RoomInTables(parts: Partitions, t: int)
    ensures HasRoomFor(parts, t) <==> HasRoom(TablesOf(parts), t)
  {
    if HasRoomFor(parts, t) {
      var name :| name in parts && parts[name].lo <= t < parts[name].hi;
      assert name in TablesOf(parts);
    }
  }

  lemma NamesInTables(parts: Partitions, zone: int)
    requires WellFormed(parts, zone)
    ensures WellNamed(TablesOf(parts), zone)
  {
    forall name <- TablesOf(parts) ensures IsMonthTable(name, TablesOf(parts)[name], zone) {
      assert IsMonthPartition(name, parts[name], zone);
    }
  }

  lemma MonthsCoverSpan(before: Partitions, parts: Partitions, today: YearMonth, n: nat, zone: int)
    requires WellFormed(before, zone) && AllCreatable(MonthsFrom(today, n))
    requires TablesOf(parts) == WithMonths(TablesOf(before), MonthsFrom(today, n), zone)
    ensures CoversSpan(parts, LocalMidnight(AddMonth(today, 0), zone), LocalMidnight(AddMonth(today, n), zone))
  {
    NamesInTables(before, zone);
    forall t | LocalMidnight(AddMonth(today, 0), zone) <= t < LocalMidnight(AddMonth(today, n), zone)
      ensures HasRoomFor(parts, t)
    {
      MonthsHaveRoom(TablesOf(before), today, n, zone, t);
      RoomInTables(parts, t);
    }
  }

  lemma WithoutExpiredFacts(parts: Partitions, cutoff: int, zone: int)
    requires WellFormed(parts, zone)
    ensures WellFormed(WithoutExpired(parts, cutoff), zone)
  {
    var live := WithoutExpired(parts, cutoff);
    forall name <- live ensures IsMonthPartition(name, live[name], zone) {
      assert IsMonthPartition(name, parts[name], zone);
    }
  }

  lemma RetainedFacts(parts: Partitions, live: Partitions, kept: Partitions, masked: Partitions,
      now: int, cfg: Settings, zone: int)
    requires WellFormed(parts, zone)
    requires live == WithoutExpired(parts, now - cfg.keep)
    requires kept == FilterRows(live, now - cfg.keep)
    requires masked == MaskRows(kept, now, cfg.ipHash)
    ensures WellFormed(masked, zone)
    ensures StoredRows(masked) == AnonymiseRows(TwoStage(parts, now - cfg.keep), now, cfg.ipHash)
  {
    assert WellFormed(live, zone) by { WithoutExpiredFacts(parts, now - cfg.keep, zone); }
    assert WellFormed(kept, zone) && StoredRows(kept) == TwoStage(parts, now - cfg.keep) by {
      FilterRowsFacts(live, now - cfg.keep, zone);
    }
    MaskRowsFacts(kept, now, cfg.ipHash, zone);
  }

  lemma RetainedTables(parts: Partitions, live: Partitions, kept: Partitions, masked: Partitions,
      now: int, cfg: Settings)
    requires live == WithoutExpired(parts, now - cfg.keep)
    requires kept == FilterRows(live, now - cfg.keep)
    requires masked == MaskRows(kept, now, cfg.ipHash)
    ensures TablesOf(masked) == LiveTables(TablesOf(parts), now - cfg.keep)
  {
    SameTablesOf(live, kept);
    SameTablesOf(kept, masked);
    LiveTablesOf(parts, now - cfg.keep);
  }

  // Same tables with the same bounds; only rows may differ.
  ghost predicate SameTables(parts: Partitions, other: Partitions) {
    parts.Keys == other.Keys
    && forall name <- parts :: other[name].lo == parts[name].lo && other[name].hi == parts[name].hi
  }

  lemma LiveTablesOf(parts: Partitions, cutoff: int)
    ensures TablesOf(WithoutExpired(parts, cutoff)) == LiveTables(TablesOf(parts), cutoff)
  {
  }

  lemma SameRoom(parts: Partitions, other: Partitions, most: Partitions, t: int)
    requires SameTables(parts, other)
    ensures HasRoomFor(other, t) <==> HasRoomFor(parts, t)
    ensures SameTables(other, most) ==> SameTables(parts, most)
  {
    if HasRoomFor(parts, t) {
      var name :| name in parts && parts[name].lo <= t < parts[name].hi;
      assert name in other;
    }
    if HasRoomFor(other, t) {
      var name :| name in other && other[name].lo <= t < other[name].hi;
      assert name in parts;
    }
  }

  lemma SameTablesOf(parts: Partitions, other: Partitions)
    requires SameTables(parts, other)
    ensures TablesOf(other) == TablesOf(parts)
  {
  }

  // Every table is still there, with its rows.
  ghost predicate Keeps(parts: Partitions, more: Partitions) {
    forall name <- parts :: name in more && more[name] == parts[name]
  }

  lemma KeepsOn(parts: Partitions, more: Partitions, most: Partitions)
    requires Keeps(parts, more) && Keeps(more, most)
    ensures Keeps(parts, most)
  {
    forall name <- parts ensures name in more {}
  }

  ghost predicate AreDistinct(names: seq<string>) {
    forall j, k | 0 <= j < k < |names| :: names[j] != names[k]
  }

  ghost predicate AreNamesOf(names: seq<string>, months: seq<YearMonth>)
    requires AllCreatable(months)
  {
    |names| == |months| && forall k | 0 <= k < |names| :: names[k] == Name(months[k])
  }

  lemma NamesGrow(names: seq<string>, months: seq<YearMonth>, n: nat)
    requires n < |months| && IsCreatable(months[n]) && AllCreatable(months[..n]) && AreNamesOf(names, months[..n])
    ensures AllCreatable(months[..n + 1]) && AreNamesOf(names + [Name(months[n])], months[..n + 1])
  {
  }

  lemma MonthNamesAreDistinct(names: seq<string>, today: YearMonth, n: nat)
    requires AllCreatable(MonthsFrom(today, n)) && AreNamesOf(names, MonthsFrom(today, n))
    ensures AreDistinct(names)
  {
    var months := MonthsFrom(today, n);
    forall j, k | 0 <= j < k < n ensures names[j] != names[k] {
      assert months[j] in months && months[k] in months;
      if names[j] == names[k] {
        NamesAreDistinct(months[j], months[k]);
      }
    }
  }

  datatype IngestError = BadSchema | TooManyEvents | NoPartition

  datatype IngestReply = IngestReply(accepted: nat, duplicated: nat, rejected: seq<(EventId, Reason)>)

  const MIN_SCHEMA := 1
  const MAX_SCHEMA := 2
  const MAX_BATCH := 50

  class Store {
    const zone: int
    const cfg: Settings
    var ledger: map<EventId, int>
    var parts: Partitions
    var nextSerial: nat

    ghost function View(): Book
      reads this
    {
      Book(ledger, StoredRows(parts), nextSerial)
    }

    ghost predicate Valid()
      reads this
    {
      WellFormed(parts, zone)
    }

    constructor (zone: int, cfg: Settings)
      ensures Valid() && View() == EMPTY && this.zone == zone && this.cfg == cfg
    {
      this.zone, this.cfg := zone, cfg;
      ledger, parts, nextSerial := map[], map[], 0;
    }

    // CREATE TABLE IF NOT EXISTS ... PARTITION OF analytics_events FOR VALUES FROM ... TO ...
    method CreateMonth(month: YearMonth)
      requires Valid() && IsCreatable(month)
      modifies this`parts
      ensures Valid() && View() == old(View())
      ensures Keeps(old(parts), parts)
      ensures TablesOf(parts) == WithMonth(TablesOf(old(parts)), month, zone)
    {
      CreateFacts(parts, month, zone);
      var name := Name(month);
      if name !in parts {
        parts := parts[name := Partition(LocalMidnight(month, zone), LocalMidnight(AddMonth(month, 1), zone), {})];
      }
    }

    /** Creates the missing month tables; afterwards the whole span of the next months has a table. */
    method EnsureFuturePartitions(today: YearMonth, monthsAhead: nat) returns (created: seq<string>)
      requires Valid() && AllCreatable(MonthsFrom(today, monthsAhead))
      modifies this`parts
      ensures Valid() && View() == old(View())
      ensures Keeps(old(parts), parts)
      ensures AreNamesOf(created, MonthsFrom(today, monthsAhead))
      ensures AreDistinct(created)
      ensures TablesOf(parts) == WithMonths(TablesOf(old(parts)), MonthsFrom(today, monthsAhead), zone)
      ensures CoversSpan(parts, LocalMidnight(AddMonth(today, 0), zone),
                         LocalMidnight(AddMonth(today, monthsAhead), zone))
    {
      var months := MonthsFrom(today, monthsAhead);
      created := [];
      for offset := 0 to monthsAhead
        invariant Valid() && View() == old(View())
        invariant Keeps(old(parts), parts)
        invariant AllCreatable(months[..offset]) && AreNamesOf(created, months[..offset])
        invariant TablesOf(parts) == WithMonths(TablesOf(old(parts)), months[..offset], zone)
      {
        var month := AddMonth(today, offset);
        assert month == months[offset] && IsCreatable(months[offset]);
        NamesGrow(created, months, offset);
        WithOneMore(TablesOf(old(parts)), months, offset, zone);
        ghost var before := parts;
        CreateMonth(month);
        created := created + [Name(month)];
        KeepsOn(old(parts), before, parts);
      }
      assert months[..monthsAhead] == months;
      MonthNamesAreDistinct(created, today, monthsAhead);
      MonthsCoverSpan(old(parts), parts, today, monthsAhead, zone);
    }

    // Puts a row into the partition for its time, if there is one.
    method StoreRow(tables: Partitions, row: RawRow) returns (stored: Option<Partitions>)
      requires WellFormed(tables, zone)
      ensures stored.None? <==> !HasRoomFor(tables, row.receivedAt)
      ensures stored.Some? ==>
        && WellFormed(stored.value, zone) && SameTables(tables, stored.value)
        && StoredRows(stored.value) == StoredRows(tables) + {row}
    {
      if name :| name in tables && tables[name].lo <= row.receivedAt < tables[name].hi {
        InsertFacts(tables, name, row, zone);
        return Some(Insert(tables, name, row));
      } else {
        return None;
      }
    }

    /** One request is one transaction: a batch is judged event by event, and nothing is stored when it fails. */
    method Ingest(now: int, sentAt: Option<int>, schema: int, events: seq<Event>, sender: Sender)
      returns (reply: Result<IngestReply, IngestError>)
      requires Valid()
      modifies this
      ensures Valid()
      ensures reply.Err? ==> View() == old(View())
      ensures SameTables(old(parts), parts)
      ensures reply == Err(BadSchema) <==> schema < MIN_SCHEMA || schema > MAX_SCHEMA
      ensures reply == Err(TooManyEvents) <==> MIN_SCHEMA <= schema <= MAX_SCHEMA && |events| > MAX_BATCH
      ensures reply == Err(NoPartition) <==>
        && MIN_SCHEMA <= schema <= MAX_SCHEMA && |events| <= MAX_BATCH
        && !HasRoomFor(old(parts), now) && AcceptsAny(old(View()), now, sentAt, events, sender, cfg)
      ensures reply.Ok? ==>
        && View() == SubmitAll(old(View()), now, sentAt, events, sender, cfg)
        && reply.value.accepted == nextSerial - old(nextSerial)
        && reply.value.rejected == RejectedIn(old(View()), now, sentAt, events, sender, cfg)
        && reply.value.accepted + reply.value.duplicated + |reply.value.rejected| == |events|
    {
      if schema < MIN_SCHEMA || schema > MAX_SCHEMA { return Err(BadSchema); }
      if |events| > MAX_BATCH { return Err(TooManyEvents); }
      var newLedger, newParts, serial := ledger, parts, nextSerial;
      var accepted, duplicated, rejected := 0, 0, [];
      ghost var b0 := View();
      for i := 0 to |events|
        invariant WellFormed(newParts, zone)
        invariant Book(newLedger, StoredRows(newParts), serial) == SubmitAll(b0, now, sentAt, events[..i], sender, cfg)
        invariant serial == b0.nextSerial + accepted
        invariant rejected == RejectedIn(b0, now, sentAt, events[..i], sender, cfg)
        invariant accepted + duplicated + |rejected| == i
        invariant SameTables(old(parts), newParts)
        invariant unchanged(this)
        invariant accepted > 0 ==> HasRoomFor(old(parts), now)
      {
        BatchStep(b0, now, sentAt, events, i, sender, cfg);
        var e := events[i];
        if e.fault.Some? {
          rejected := rejected + [(e.id, e.fault.value)];
          continue;
        }
        var timing := CorrectTime(e.occurredAt, sentAt, now, cfg);
        if timing == TooOld {
          rejected := rejected + [(e.id, EventTooOld)];
          continue;
        }
        if e.id in newLedger {
          duplicated := duplicated + 1;
          continue;
        }
        newLedger := newLedger[e.id := now];
        var stored := StoreRow(newParts, RawRow(serial, e.id, sender, timing.occurred, now));
        SameRoom(old(parts), newParts, stored.GetOr(newParts), now);
        if stored.None? {
          AcceptanceShows(b0, now, sentAt, events, i, sender, cfg);
          return Err(NoPartition);
        }
        newParts := stored.value;
        serial := serial + 1;
        accepted := accepted + 1;
      }
      assert events[..|events|] == events;
      ledger, parts, nextSerial := newLedger, newParts, serial;
      return Ok(IngestReply(accepted, duplicated, rejected));
    }

    method DropExpiredPartitions(now: int) returns (dropped: seq<string>)
      modifies this`parts, this`ledger
      ensures parts == WithoutExpired(old(parts), now - cfg.keep)
      ensures ledger == KeepLedger(old(ledger), now - cfg.keep)
      ensures forall name :: name in dropped <==> name in old(parts) && IsExpired(name, now - cfg.keep)
    {
      var cutoff := now - cfg.keep;
      dropped := [];
      var names := parts.Keys;
      while names != {}
        invariant names <= old(parts).Keys && ledger == old(ledger)
        invariant forall name :: name in parts <==> name in old(parts) && (name in names || !IsExpired(name, cutoff))
        invariant forall name <- parts :: parts[name] == old(parts)[name]
        invariant forall name :: name in dropped <==> name in old(parts) && name !in names && IsExpired(name, cutoff)
        decreases |names|
      {
        var name :| name in names;
        names := names - {name};
        var month := ParseName(name);
        if month.None? { continue; }
        if Midnight(AddMonth(month.value, 1)) >= cutoff { continue; }
        parts := parts - {name};
        dropped := dropped + [name];
      }
      ledger := KeepLedger(ledger, cutoff);
    }

    /** Two-stage expiry and the anonymisation band: plain retention, less the rows of partitions dropped too early. */
    method EnforceRetention(now: int) returns (dropped: seq<string>)
      requires Valid()
      modifies this`parts, this`ledger
      ensures Valid()
      ensures View() == RetainAll(old(View()), now, DroppedEarly(old(parts), now - cfg.keep), cfg)
      ensures forall name :: name in dropped <==> name in old(parts) && IsExpired(name, now - cfg.keep)
      ensures TablesOf(parts) == LiveTables(TablesOf(old(parts)), now - cfg.keep)
    {
      dropped := DropExpiredPartitions(now);
      ghost var live := parts;
      parts := FilterRows(parts, now - cfg.keep);
      ghost var kept := parts;
      parts := MaskRows(parts, now, cfg.ipHash);
      RetainedFacts(old(parts), live, kept, parts, now, cfg, zone);
      RetainedTables(old(parts), live, kept, parts, now, cfg);
      TwoStageIsFilterLessDropped(old(parts), now - cfg.keep);
    }

    // The daily job: three months ahead, then retention.
    method Maintain(today: YearMonth, now: int) returns (ensured: seq<string>, dropped: seq<string>)
      requires Valid() && AllCreatable(MonthsFrom(today, 3))
      modifies this`parts, this`ledger
      ensures Valid()
      ensures exists lost :: View() == RetainAll(old(View()), now, lost, cfg)
      ensures TablesOf(parts)
           == LiveTables(WithMonths(TablesOf(old(parts)), MonthsFrom(today, 3), zone), now - cfg.keep)
    {
      ensured := EnsureFuturePartitions(today, 3);
      dropped := EnforceRetention(now);
    }

    /** Erasure removes exactly the rows of the user or of the device, and says how many. */
    method DeleteMyData(userId: Option<string>, anonId: Option<string>) returns (deleted: int)
      requires Valid()
      modifies this`parts
      ensures Valid() && View() == EraseMine(old(View()), userId, anonId)
      ensures deleted == |old(View()).raw| - |View().raw|
      ensures TablesOf(parts) == TablesOf(old(parts))
    {
      deleted := 0;
      if userId.Some? {
        DropUserFacts(parts, userId.value, zone);
        var after := DropUser(parts, userId.value);
        deleted := deleted + |StoredRows(parts)| - |StoredRows(after)|;
        parts := after;
      }
      if anonId.Some? && anonId.value != "" {
        DropDeviceFacts(parts, anonId.value, zone);
        var after := DropDevice(parts, anonId.value);
        deleted := deleted + |StoredRows(parts)| - |StoredRows(after)|;
        parts := after;
      }
    }
  }
}
