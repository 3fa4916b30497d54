/**
  What the tables of EventBook hold after any run, told from the run alone: which verdict each
  submission got, and exactly which raw rows there are, with every field traced back to the
  submission that wrote it and the retention and erasure steps that came after.
 */
module EventTrail {
  import opened Common
  import opened EventBook

  // ---------- verdicts ----------

  ghost function VerdictAt(ops: seq<Op>, j: nat, cfg: Settings): Verdict
    requires j < |ops| && ops[j].Submit?
  {
    Judge(Run(ops[..j], cfg), ops[j].now, ops[j].sentAt, ops[j].event, cfg)
  }

  // How old the event of a submission is, on the device clock if the batch carries one.
  function RawAge(op: Op): int
    requires op.Submit?
  {
    if op.sentAt.Some? then op.sentAt.value - op.event.occurredAt else op.now - op.event.occurredAt
  }

  // The time stored for an accepted event: as long ago as its age, or now if that lies too far ahead.
  function OccurredOf(op: Op, cfg: Settings): int
    requires op.Submit?
  {
    if RawAge(op) + cfg.maxFuture < 0 then op.now else op.now - RawAge(op)
  }

  // An earlier step accepted this id and no retention run has dropped its ledger entry since.
  ghost predicate IsKnown(ops: seq<Op>, j: nat, cfg: Settings)
    requires j < |ops| && ops[j].Submit?
  {
    exists i | 0 <= i < j :: Remembered(ops, ops[j].event.id, i, j, cfg)
  }

  /** The verdict on every submission of every run. */
  lemma VerdictIs(ops: seq<Op>, j: nat, cfg: Settings)
    requires j < |ops| && ops[j].Submit?
    ensures VerdictAt(ops, j, cfg) ==
      if ops[j].event.fault.Some? then Rejected(ops[j].event.fault.value)
      else if RawAge(ops[j]) > cfg.maxAge then Rejected(EventTooOld)
      else if IsKnown(ops, j, cfg) then Duplicated
      else Accepted(OccurredOf(ops[j], cfg))
  {
    var id := ops[j].event.id;
    TimingByAge(ops[j].event.occurredAt, ops[j].sentAt, ops[j].now, cfg);
    if id in Run(ops[..j], cfg).ledger {
      var i := EntryIsRemembered(ops, id, j, cfg);
    }
    forall i | 0 <= i < j && Remembered(ops, id, i, j, cfg) ensures id in Run(ops[..j], cfg).ledger {
      RememberedHasEntry(ops, id, i, j, cfg);
    }
  }

  // ---------- rows ----------

  // Between steps i and n a retention run saw the row of step i in its anonymisation band.
  ghost predicate Masked(ops: seq<Op>, i: int, n: int, cfg: Settings) {
    exists k | 0 <= i < k < n <= |ops| :: SeesInBand(ops[k], ops[i].now, cfg)
  }

  // The 14 days before the limit.
  ghost predicate SeesInBand(op: Op, at: int, cfg: Settings) {
    op.Retain? && op.now - cfg.ipHash - 14 * DAY <= at < op.now - cfg.ipHash
  }

  // The row that an acceptance at step i has become by step n.
  ghost function RowOf(ops: seq<Op>, i: nat, n: nat, cfg: Settings): RawRow
    requires i < |ops| && ops[i].Submit?
  {
    var op := ops[i];
    var hash := if Masked(ops, i, n, cfg) then None else op.sender.ipHash;
    RawRow(SerialOf(ops, i, cfg), op.event.id, Sender(op.sender.userId, op.sender.anonId, hash),
           OccurredOf(op, cfg), op.now)
  }

  ghost function SerialOf(ops: seq<Op>, i: nat, cfg: Settings): nat
    requires i < |ops|
  {
    Run(ops[..i], cfg).nextSerial
  }

  // Step k takes the row of step i away: it expires, is lost with its partition, or is erased.
  ghost predicate RemovesRow(ops: seq<Op>, i: nat, k: nat, cfg: Settings)
    requires i < k < |ops| && ops[i].Submit?
  {
    match ops[k]
    case Submit(_, _, _, _) => false
    case Retain(now, lost) => ops[i].now < now - cfg.keep || RowOf(ops, i, k, cfg) in lost
    case Erase(_, userId, anonId) =>
      || (userId.Some? && ops[i].sender.userId.Some? && ops[i].sender.userId.value == userId.value)
      || (anonId.Some? && anonId.value != "" && ops[i].sender.anonId == anonId.value)
  }

  // No step between i and n took the row of step i away.
  ghost predicate Survives(ops: seq<Op>, i: nat, n: nat, cfg: Settings)
    requires i < n <= |ops| && ops[i].Submit?
  {
    forall k | i < k < n :: !RemovesRow(ops, i, k, cfg)
  }

  lemma SurvivesOn(ops: seq<Op>, i: nat, n: nat, cfg: Settings)
    requires i < n - 1 < |ops| && ops[i].Submit?
    ensures Survives(ops, i, n, cfg) <==> Survives(ops, i, n - 1, cfg) && !RemovesRow(ops, i, n - 1, cfg)
  {
  }

  lemma MaskedOn(ops: seq<Op>, i: nat, n: nat, cfg: Settings)
    requires i < n - 1 < |ops|
    ensures Masked(ops, i, n, cfg) <==> Masked(ops, i, n - 1, cfg) || SeesInBand(ops[n - 1], ops[i].now, cfg)
  {
  }

  // r is what step n finds of an event accepted at step i.
  ghost predicate IsTrail(ops: seq<Op>, i: int, n: nat, r: RawRow, cfg: Settings) {
    0 <= i < n <= |ops| && AcceptedAt(ops, i, cfg) && Survives(ops, i, n, cfg) && r == RowOf(ops, i, n, cfg)
  }

  ghost predicate HasTrail(ops: seq<Op>, n: nat, r: RawRow, cfg: Settings) {
    exists i :: IsTrail(ops, i, n, r, cfg)
  }

  // The rows after n steps are those with a trail.
  ghost predicate AllTrailed(ops: seq<Op>, n: nat, cfg: Settings)
    requires n <= |ops|
  {
    forall r {:trigger HasTrail(ops, n, r, cfg)} :: r in Run(ops[..n], cfg).raw <==> HasTrail(ops, n, r, cfg)
  }

  // ---------- one submission ----------

  lemma TrailOverSubmit(ops: seq<Op>, i: int, n: nat, r: RawRow, cfg: Settings)
    requires 0 < n <= |ops| && ops[n - 1].Submit?
    ensures IsTrail(ops, i, n, r, cfg) <==>
      IsTrail(ops, i, n - 1, r, cfg) || (i == n - 1 && AcceptedAt(ops, i, cfg) && r == RowOf(ops, i, n, cfg))
  {
    if 0 <= i < n - 1 && AcceptedAt(ops, i, cfg) {
      MaskedOn(ops, i, n, cfg);
      SurvivesOn(ops, i, n, cfg);
    }
  }

  lemma SubmissionStores(ops: seq<Op>, n: nat, r: RawRow, cfg: Settings)
    requires 0 < n <= |ops| && ops[n - 1].Submit?
    ensures r in Run(ops[..n], cfg).raw <==>
      r in Run(ops[..n - 1], cfg).raw || (AcceptedAt(ops, n - 1, cfg) && r == RowOf(ops, n - 1, n, cfg))
  {
    RunPrefix(ops, n - 1, cfg);
    VerdictIs(ops, n - 1, cfg);
    assert !Masked(ops, n - 1, n, cfg);
  }

  lemma TrailSubmitStep(ops: seq<Op>, n: nat, r: RawRow, cfg: Settings)
    requires 0 < n <= |ops| && ops[n - 1].Submit? && AllTrailed(ops, n - 1, cfg)
    ensures r in Run(ops[..n], cfg).raw <==> HasTrail(ops, n, r, cfg)
  {
    SubmissionStores(ops, n, r, cfg);
    assert r in Run(ops[..n - 1], cfg).raw <==> HasTrail(ops, n - 1, r, cfg);
    TrailOverSubmit(ops, n - 1, n, r, cfg);
    if HasTrail(ops, n - 1, r, cfg) {
      var i :| IsTrail(ops, i, n - 1, r, cfg);
      TrailOverSubmit(ops, i, n, r, cfg);
      assert IsTrail(ops, i, n, r, cfg);
    }
    if HasTrail(ops, n, r, cfg) {
      var i :| IsTrail(ops, i, n, r, cfg);
      TrailOverSubmit(ops, i, n, r, cfg);
      assert IsTrail(ops, i, n - 1, r, cfg) || i == n - 1;
    }
  }

  // ---------- one retention run ----------

  // Retention makes r out of r0.
  ghost predicate IsKeptBy(ops: seq<Op>, n: nat, r0: RawRow, r: RawRow, cfg: Settings)
    requires 0 < n <= |ops| && ops[n - 1].Retain?
  {
    && r0 in Run(ops[..n - 1], cfg).raw && r0.receivedAt >= ops[n - 1].now - cfg.keep && r0 !in ops[n - 1].lost
    && r == Anonymise(r0, ops[n - 1].now, cfg.ipHash)
  }

  lemma KeptIsRow(ops: seq<Op>, n: nat, r0: RawRow, r: RawRow, cfg: Settings)
    requires 0 < n <= |ops| && ops[n - 1].Retain? && IsKeptBy(ops, n, r0, r, cfg)
    ensures r in Run(ops[..n], cfg).raw
  {
    RunPrefix(ops, n - 1, cfg);
    assert r0 in KeepRows(Run(ops[..n - 1], cfg).raw, ops[n - 1].now - cfg.keep) - ops[n - 1].lost;
  }

  lemma RowWasKept(ops: seq<Op>, n: nat, r: RawRow, cfg: Settings) returns (r0: RawRow)
    requires 0 < n <= |ops| && ops[n - 1].Retain? && r in Run(ops[..n], cfg).raw
    ensures IsKeptBy(ops, n, r0, r, cfg)
  {
    RunPrefix(ops, n - 1, cfg);
    var b, op := Run(ops[..n - 1], cfg), ops[n - 1];
    r0 :| r0 in KeepRows(b.raw, op.now - cfg.keep) - op.lost && r == Anonymise(r0, op.now, cfg.ipHash);
  }

  lemma TrailOverRetain(ops: seq<Op>, i: int, n: nat, cfg: Settings)
    requires 0 < n <= |ops| && ops[n - 1].Retain? && 0 <= i < n - 1 && AcceptedAt(ops, i, cfg)
    ensures var r0, r := RowOf(ops, i, n - 1, cfg), RowOf(ops, i, n, cfg);
      && r == Anonymise(r0, ops[n - 1].now, cfg.ipHash)
      && (IsTrail(ops, i, n, r, cfg) <==>
            IsTrail(ops, i, n - 1, r0, cfg) && r0.receivedAt >= ops[n - 1].now - cfg.keep && r0 !in ops[n - 1].lost)
  {
    MaskedOn(ops, i, n, cfg);
    SurvivesOn(ops, i, n, cfg);
  }

  lemma TrailRetainStep(ops: seq<Op>, n: nat, r: RawRow, cfg: Settings)
    requires 0 < n <= |ops| && ops[n - 1].Retain? && AllTrailed(ops, n - 1, cfg)
    ensures r in Run(ops[..n], cfg).raw <==> HasTrail(ops, n, r, cfg)
  {
    if r in Run(ops[..n], cfg).raw {
      var r0 := RowWasKept(ops, n, r, cfg);
      assert HasTrail(ops, n - 1, r0, cfg);
      var i :| IsTrail(ops, i, n - 1, r0, cfg);
      TrailOverRetain(ops, i, n, cfg);
      assert IsTrail(ops, i, n, r, cfg);
    }
    if HasTrail(ops, n, r, cfg) {
      var i :| IsTrail(ops, i, n, r, cfg);
      assert i != n - 1;
      TrailOverRetain(ops, i, n, cfg);
      assert HasTrail(ops, n - 1, RowOf(ops, i, n - 1, cfg), cfg);
      KeptIsRow(ops, n, RowOf(ops, i, n - 1, cfg), r, cfg);
    }
  }

  // ---------- one erasure ----------

  // The request names the row's user, or its non-empty device id.
  ghost predicate IsNamed(op: Op, sender: Sender)
    requires op.Erase?
  {
    || (op.userId.Some? && sender.userId.Some? && sender.userId.value == op.userId.value)
    || (op.anonId.Some? && op.anonId.value != "" && sender.anonId == op.anonId.value)
  }

  /** Erasure keeps exactly the rows of other users on other devices; a signed-out row counts by its device alone. */
  lemma ErasureKeeps(b: Book, op: Op, r: RawRow, cfg: Settings)
    requires op.Erase?
    ensures r in Apply(b, op, cfg).raw <==> r in b.raw && !IsNamed(op, r.sender)
    ensures Apply(b, op, cfg).ledger == b.ledger
  {
  }

  lemma TrailOverErase(ops: seq<Op>, i: int, n: nat, r: RawRow, cfg: Settings)
    requires 0 < n <= |ops| && ops[n - 1].Erase?
    ensures IsTrail(ops, i, n, r, cfg) <==> IsTrail(ops, i, n - 1, r, cfg) && !IsNamed(ops[n - 1], r.sender)
  {
    if 0 <= i < n - 1 && AcceptedAt(ops, i, cfg) {
      MaskedOn(ops, i, n, cfg);
      SurvivesOn(ops, i, n, cfg);
    }
  }

  lemma TrailEraseStep(ops: seq<Op>, n: nat, r: RawRow, cfg: Settings)
    requires 0 < n <= |ops| && ops[n - 1].Erase? && AllTrailed(ops, n - 1, cfg)
    ensures r in Run(ops[..n], cfg).raw <==> HasTrail(ops, n, r, cfg)
  {
    RunPrefix(ops, n - 1, cfg);
    ErasureKeeps(Run(ops[..n - 1], cfg), ops[n - 1], r, cfg);
    assert r in Run(ops[..n - 1], cfg).raw <==> HasTrail(ops, n - 1, r, cfg);
    if HasTrail(ops, n - 1, r, cfg) {
      var i :| IsTrail(ops, i, n - 1, r, cfg);
      TrailOverErase(ops, i, n, r, cfg);
    }
    if HasTrail(ops, n, r, cfg) {
      var i :| IsTrail(ops, i, n, r, cfg);
      TrailOverErase(ops, i, n, r, cfg);
    }
  }

  // ---------- every run ----------

  lemma {:induction false} RowsUpTo(ops: seq<Op>, n: nat, cfg: Settings)
    requires n <= |ops|
    ensures AllTrailed(ops, n, cfg)
  {
    if n > 0 {
      RowsUpTo(ops, n - 1, cfg);
      forall r ensures r in Run(ops[..n], cfg).raw <==> HasTrail(ops, n, r, cfg) {
        match ops[n - 1]
        case Submit(_, _, _, _) => TrailSubmitStep(ops, n, r, cfg);
        case Retain(_, _) => TrailRetainStep(ops, n, r, cfg);
        case Erase(_, _, _) => TrailEraseStep(ops, n, r, cfg);
      }
    }
  }

  /** After any run the raw rows are exactly those of the accepted submissions that no later step expired, lost or
      erased, each with the id, sender and receipt time of its submission, the time its age says, and the address
      hash unless a retention run has masked it. */
  lemma RowsAreTrails(ops: seq<Op>, cfg: Settings, r: RawRow)
    ensures r in Run(ops, cfg).raw <==> HasTrail(ops, |ops|, r, cfg)
  {
    RowsUpTo(ops, |ops|, cfg);
    assert ops[..|ops|] == ops;
  }

  // ---------- refusals ----------

  // Why an event is refused, from the event and the batch alone.
  function RefusalOf(e: Event, now: int, sentAt: Option<int>, cfg: Settings): Option<Reason> {
    if e.fault.Some? then e.fault
    else if (if sentAt.Some? then sentAt.value else now) - e.occurredAt > cfg.maxAge then Some(EventTooOld)
    else None
  }

  function Refusals(events: seq<Event>, now: int, sentAt: Option<int>, cfg: Settings): seq<(EventId, Reason)> {
    if events == [] then []
    else
      var n := |events| - 1;
      var why := RefusalOf(events[n], now, sentAt, cfg);
      Refusals(events[..n], now, sentAt, cfg) + if why.Some? then [(events[n].id, why.value)] else []
  }

  /** The reply names exactly the refused events of the batch, in order, with their reasons; what is stored plays no
      part. */
  lemma {:induction false} RejectedAreRefusals(
      b: Book, now: int, sentAt: Option<int>, events: seq<Event>, sender: Sender, cfg: Settings)
    ensures RejectedIn(b, now, sentAt, events, sender, cfg) == Refusals(events, now, sentAt, cfg)
    decreases |events|
  {
    if events != [] {
      var n := |events| - 1;
      RejectedAreRefusals(b, now, sentAt, events[..n], sender, cfg);
      TimingByAge(events[n].occurredAt, sentAt, now, cfg);
    }
  }
}
