/**
  Event ingestion, the dedupe ledger, retention and erasure as one machine over a ledger of
  event ids and a set of raw rows. Times are microseconds. Main results: an event id is never
  accepted twice exactly when rows are kept at least as long as an event may be old, raw event
  ids stay unique, and the sliding anonymisation band misses no row exactly when runs are
  close enough together.
 */
module EventBook {
  import opened Common

  type EventId = int

  const SECOND := 1_000_000
  const DAY := 86_400 * SECOND
  const BAND := 14 * DAY  // width of the band each run anonymises

  datatype Settings = Settings(maxAge: nat, maxFuture: nat, keep: nat, ipHash: nat)

  const DEFAULTS := Settings(7 * DAY, 300 * SECOND, 180 * DAY, 30 * DAY)

  // ---------- clock correction ----------

  datatype Timing = OnTime(occurred: int) | TooOld

  function CorrectTime(occurredAt: int, sentAt: Option<int>, now: int, cfg: Settings): Timing {
    var corrected := if sentAt.Some? then now - (sentAt.value - occurredAt) else occurredAt;
    if corrected < now - cfg.maxAge then TooOld
    else if corrected > now + cfg.maxFuture then OnTime(now)
    else OnTime(corrected)
  }

  // How old an event is: on the device clock when the batch says when it was sent, else on ours.
  function Age(occurredAt: int, sentAt: Option<int>, now: int): int {
    (if sentAt.Some? then sentAt.value else now) - occurredAt
  }

  /** A device clock that is off by any amount gives the same result as a perfect one. */
  lemma SkewDoesNotMatter(occurredAt: int, now: int, skew: int, cfg: Settings)
    ensures CorrectTime(occurredAt + skew, Some(now + skew), now, cfg) == CorrectTime(occurredAt, None, now, cfg)
  {
  }

  /** The outcome depends on the age alone: too old is rejected, too far ahead becomes now, and anything between is
      now minus the age. */
  lemma TimingByAge(occurredAt: int, sentAt: Option<int>, now: int, cfg: Settings)
    ensures var timing, age := CorrectTime(occurredAt, sentAt, now, cfg), Age(occurredAt, sentAt, now);
      && (timing == TooOld <==> age > cfg.maxAge)
      && (timing.OnTime? ==> now - cfg.maxAge <= timing.occurred <= now + cfg.maxFuture)
      && (timing.OnTime? && age + cfg.maxFuture >= 0 ==> timing.occurred == now - age)
      && (age + cfg.maxFuture < 0 ==> timing == OnTime(now))
  {
  }

  // ---------- the machine ----------

  datatype Sender = Sender(userId: Option<string>, anonId: string, ipHash: Option<string>)

  datatype RawRow = RawRow(serial: nat, eventId: EventId, sender: Sender, occurredAt: int, receivedAt: int)

  datatype Book = Book(ledger: map<EventId, int>, raw: set<RawRow>, nextSerial: nat)

  datatype Reason = BadEventName | ObjectIdRequired | PropsTooLarge | EventTooOld

  // fault is the outcome of the checks that read the event alone.
  datatype Event = Event(id: EventId, occurredAt: int, fault: Option<Reason>)

  datatype Op =
    | Submit(now: int, sentAt: Option<int>, event: Event, sender: Sender)
    | Retain(now: int, lost: set<RawRow>)  // rows an early partition drop takes beyond the expired ones
    | Erase(now: int, userId: Option<string>, anonId: Option<string>)

  datatype Verdict = Accepted(occurred: int) | Duplicated | Rejected(reason: Reason)

  function Judge(b: Book, now: int, sentAt: Option<int>, e: Event, cfg: Settings): Verdict {
    if e.fault.Some? then Rejected(e.fault.value)
    else
      var timing := CorrectTime(e.occurredAt, sentAt, now, cfg);
      if timing == TooOld then Rejected(EventTooOld)
      else if e.id in b.ledger then Duplicated
      else Accepted(timing.occurred)
  }

  function Record(b: Book, now: int, e: Event, sender: Sender, occurred: int): Book {
    Book(b.ledger[e.id := now], b.raw + {RawRow(b.nextSerial, e.id, sender, occurred, now)}, b.nextSerial + 1)
  }

  function SubmitOne(b: Book, now: int, sentAt: Option<int>, e: Event, sender: Sender, cfg: Settings): Book {
    match Judge(b, now, sentAt, e, cfg)
    case Accepted(occurred) => Record(b, now, e, sender, occurred)
    case _ => b
  }

  // A batch is its events in order, all at the same time.
  function SubmitAll(b: Book, now: int, sentAt: Option<int>, events: seq<Event>, sender: Sender, cfg: Settings): Book {
    if events == [] then b
    else
      var n := |events| - 1;
      SubmitOne(SubmitAll(b, now, sentAt, events[..n], sender, cfg), now, sentAt, events[n], sender, cfg)
  }

  // A batch one event longer submits that event last.
  lemma BatchStep(b: Book, now: int, sentAt: Option<int>, events: seq<Event>, i: nat, sender: Sender, cfg: Settings)
    requires i < |events|
    ensures var before := SubmitAll(b, now, sentAt, events[..i], sender, cfg);
      && SubmitAll(b, now, sentAt, events[..i + 1], sender, cfg)
        == SubmitOne(before, now, sentAt, events[i], sender, cfg)
      && RejectedIn(b, now, sentAt, events[..i + 1], sender, cfg)
         == RejectedIn(b, now, sentAt, events[..i], sender, cfg)
            + match Judge(before, now, sentAt, events[i], cfg)
              case Rejected(reason) => [(events[i].id, reason)]
              case _ => []
  {
    assert events[..i + 1][..i] == events[..i];
  }

  // Some event of the batch is accepted.
  predicate AcceptsAny(b: Book, now: int, sentAt: Option<int>, events: seq<Event>, sender: Sender, cfg: Settings) {
    SubmitAll(b, now, sentAt, events, sender, cfg).nextSerial > b.nextSerial
  }

  lemma {:induction false} SerialsOnlyGrow(
      b: Book, now: int, sentAt: Option<int>, events: seq<Event>, n: nat, sender: Sender, cfg: Settings)
    requires n <= |events|
    ensures b.nextSerial <= SubmitAll(b, now, sentAt, events[..n], sender, cfg).nextSerial
         <= SubmitAll(b, now, sentAt, events, sender, cfg).nextSerial
    decreases |events|
  {
    var last := |events| - 1;
    if n == |events| {
      assert events[..n] == events;
      if events != [] { SerialsOnlyGrow(b, now, sentAt, events[..last], last, sender, cfg); }
    } else {
      SerialsOnlyGrow(b, now, sentAt, events[..last], n, sender, cfg);
      assert events[..last][..n] == events[..n];
    }
  }

  // One accepted event is enough for the batch to accept something.
  lemma AcceptanceShows(b: Book, now: int, sentAt: Option<int>, events: seq<Event>, i: nat,
      sender: Sender, cfg: Settings)
    requires i < |events|
    requires Judge(SubmitAll(b, now, sentAt, events[..i], sender, cfg), now, sentAt, events[i], cfg).Accepted?
    ensures AcceptsAny(b, now, sentAt, events, sender, cfg)
  {
    SerialsOnlyGrow(b, now, sentAt, events[..i], i, sender, cfg);
    assert events[..i][..i] == events[..i];
    assert events[..i + 1][..i] == events[..i];
    SerialsOnlyGrow(b, now, sentAt, events, i + 1, sender, cfg);
  }

  // The rejected events of a batch with their reasons, in order.
  function RejectedIn(b: Book, now: int, sentAt: Option<int>, events: seq<Event>, sender: Sender, cfg: Settings):
    seq<(EventId, Reason)>
  {
    if events == [] then []
    else
      var n := |events| - 1;
      var before := SubmitAll(b, now, sentAt, events[..n], sender, cfg);
      RejectedIn(b, now, sentAt, events[..n], sender, cfg)
      + match Judge(before, now, sentAt, events[n], cfg)
        case Rejected(reason) => [(events[n].id, reason)]
        case _ => []
  }

  function Submissions(now: int, sentAt: Option<int>, events: seq<Event>, sender: Sender): seq<Op> {
    seq(|events|, i requires 0 <= i < |events| => Submit(now, sentAt, events[i], sender))
  }

  /** Ingesting a batch after a run is the run extended by the batch's single submissions. */
  lemma {:induction false} BatchExtendsRun(
      ops: seq<Op>, now: int, sentAt: Option<int>, events: seq<Event>, sender: Sender, cfg: Settings)
    ensures SubmitAll(Run(ops, cfg), now, sentAt, events, sender, cfg)
         == Run(ops + Submissions(now, sentAt, events, sender), cfg)
    decreases |events|
  {
    var batch := Submissions(now, sentAt, events, sender);
    if events == [] {
      assert ops + batch == ops;
    } else {
      var n := |events| - 1;
      BatchExtendsRun(ops, now, sentAt, events[..n], sender, cfg);
      assert batch[..n] == Submissions(now, sentAt, events[..n], sender);
      assert (ops + batch)[..|ops + batch| - 1] == ops + batch[..n];
    }
  }

  function Anonymise(r: RawRow, now: int, ipDays: nat): RawRow {
    if now - (ipDays + BAND) <= r.receivedAt < now - ipDays then r.(sender := r.sender.(ipHash := None)) else r
  }

  function KeepLedger(ledger: map<EventId, int>, cutoff: int): map<EventId, int> {
    map id | id in ledger && ledger[id] >= cutoff :: ledger[id]
  }

  function KeepRows(raw: set<RawRow>, cutoff: int): set<RawRow> {
    set r | r in raw && r.receivedAt >= cutoff
  }

  function AnonymiseRows(raw: set<RawRow>, now: int, ipDays: nat): set<RawRow> {
    set r | r in raw :: Anonymise(r, now, ipDays)
  }

  function RetainAll(b: Book, now: int, lost: set<RawRow>, cfg: Settings): Book {
    b.(ledger := KeepLedger(b.ledger, now - cfg.keep),
       raw := AnonymiseRows(KeepRows(b.raw, now - cfg.keep) - lost, now, cfg.ipHash))
  }

  // A row of the given user, or of the given non-empty anonymous id.
  predicate IsMine(r: RawRow, userId: Option<string>, anonId: Option<string>) {
    || (userId.Some? && r.sender.userId == userId)
    || (anonId.Some? && anonId.value != "" && r.sender.anonId == anonId.value)
  }

  function EraseMine(b: Book, userId: Option<string>, anonId: Option<string>): Book {
    b.(raw := set r | r in b.raw && !IsMine(r, userId, anonId))
  }

  function Apply(b: Book, op: Op, cfg: Settings): Book {
    match op
    case Submit(now, sentAt, e, sender) => SubmitOne(b, now, sentAt, e, sender, cfg)
    case Retain(now, lost) => RetainAll(b, now, lost, cfg)
    case Erase(_, userId, anonId) => EraseMine(b, userId, anonId)
  }

  const EMPTY := Book(map[], {}, 0)

  function Run(ops: seq<Op>, cfg: Settings): Book {
    if ops == [] then EMPTY else Apply(Run(ops[..|ops| - 1], cfg), ops[|ops| - 1], cfg)
  }

  lemma RunPrefix(ops: seq<Op>, n: nat, cfg: Settings)
    requires n < |ops|
    ensures Run(ops[..n + 1], cfg) == Apply(Run(ops[..n], cfg), ops[n], cfg)
  {
    assert ops[..n + 1][..n] == ops[..n];
  }

  ghost predicate Ordered(ops: seq<Op>) {
    forall i, j | 0 <= i < j < |ops| :: ops[i].now <= ops[j].now
  }

  // ---------- unique raw ids ----------

  ghost predicate RawIsLedgered(b: Book) {
    && (forall r <- b.raw :: r.eventId in b.ledger && b.ledger[r.eventId] == r.receivedAt && r.serial < b.nextSerial)
    && (forall r, s | r in b.raw && s in b.raw && r.eventId == s.eventId :: r == s)
  }

  lemma SubmitKeepsLedgered(b: Book, now: int, sentAt: Option<int>, e: Event, sender: Sender, cfg: Settings)
    requires RawIsLedgered(b)
    ensures RawIsLedgered(SubmitOne(b, now, sentAt, e, sender, cfg))
  {
  }

  lemma RetainKeepsLedgered(b: Book, now: int, lost: set<RawRow>, cfg: Settings)
    requires RawIsLedgered(b)
    ensures RawIsLedgered(RetainAll(b, now, lost, cfg))
  {
    var b1 := RetainAll(b, now, lost, cfg);
    forall r <- b1.raw
      ensures r.eventId in b1.ledger && b1.ledger[r.eventId] == r.receivedAt && r.serial < b1.nextSerial
    {
      var r0 :| r0 in KeepRows(b.raw, now - cfg.keep) - lost && r == Anonymise(r0, now, cfg.ipHash);
      assert r0 in b.raw;
    }
    forall r, s | r in b1.raw && s in b1.raw && r.eventId == s.eventId ensures r == s {
      var r0 :| r0 in KeepRows(b.raw, now - cfg.keep) - lost && r == Anonymise(r0, now, cfg.ipHash);
      var s0 :| s0 in KeepRows(b.raw, now - cfg.keep) - lost && s == Anonymise(s0, now, cfg.ipHash);
      assert r0 in b.raw && s0 in b.raw;
    }
  }

  /** Whatever is ingested, retained, dropped early or erased, every raw row has its ledger entry and raw event ids
      are unique. */
  lemma {:induction false} RawIdsStayUnique(ops: seq<Op>, cfg: Settings)
    ensures RawIsLedgered(Run(ops, cfg))
  {
    if ops != [] {
      var n := |ops| - 1;
      RawIdsStayUnique(ops[..n], cfg);
      var b := Run(ops[..n], cfg);
      match ops[n]
      case Submit(now, sentAt, e, sender) => SubmitKeepsLedgered(b, now, sentAt, e, sender, cfg);
      case Retain(now, lost) => RetainKeepsLedgered(b, now, lost, cfg);
      case Erase(_, _, _) =>
    }
  }

  // ---------- exactly when an event is accepted ----------

  ghost predicate AcceptedAt(ops: seq<Op>, i: int, cfg: Settings) {
    && 0 <= i < |ops| && ops[i].Submit?
    && Judge(Run(ops[..i], cfg), ops[i].now, ops[i].sentAt, ops[i].event, cfg).Accepted?
  }

  function AgeOf(op: Op): int
    requires op.Submit?
  {
    Age(op.event.occurredAt, op.sentAt, op.now)
  }

  // A retention run between steps i and n dropped the ledger entry written at step i.
  ghost predicate Forgotten(ops: seq<Op>, i: int, n: int, cfg: Settings) {
    exists k | 0 <= i < k < n <= |ops| :: ops[k].Retain? && ops[i].now < ops[k].now - cfg.keep
  }

  // Step i accepted this id and its ledger entry has not been dropped since.
  ghost predicate Remembered(ops: seq<Op>, id: EventId, i: int, n: int, cfg: Settings) {
    i < n <= |ops| && AcceptedAt(ops, i, cfg) && ops[i].event.id == id && !Forgotten(ops, i, n, cfg)
  }

  lemma {:induction false} EntryIsRemembered(ops: seq<Op>, id: EventId, n: nat, cfg: Settings) returns (i: nat)
    requires n <= |ops| && id in Run(ops[..n], cfg).ledger
    ensures Remembered(ops, id, i, n, cfg) && Run(ops[..n], cfg).ledger[id] == ops[i].now
    decreases n
  {
    if n == 0 {
      assert false;
    } else {
      RunPrefix(ops, n - 1, cfg);
      if id in Run(ops[..n - 1], cfg).ledger {
        i := EntryIsRemembered(ops, id, n - 1, cfg);
      } else {
        i := n - 1;
      }
    }
  }

  lemma {:induction false} RememberedHasEntry(ops: seq<Op>, id: EventId, i: nat, n: nat, cfg: Settings)
    requires Remembered(ops, id, i, n, cfg)
    ensures id in Run(ops[..n], cfg).ledger && Run(ops[..n], cfg).ledger[id] == ops[i].now
    decreases n
  {
    RunPrefix(ops, n - 1, cfg);
    if i < n - 1 {
      assert Remembered(ops, id, i, n - 1, cfg);
      RememberedHasEntry(ops, id, i, n - 1, cfg);
    }
  }

  /** In every run, whatever the clocks do, a sound event is accepted exactly when its age allows it and every earlier
      acceptance of its id has been forgotten. */
  lemma AcceptedIff(ops: seq<Op>, j: nat, cfg: Settings)
    requires j < |ops| && ops[j].Submit?
    ensures AcceptedAt(ops, j, cfg) <==>
      && ops[j].event.fault.None? && AgeOf(ops[j]) <= cfg.maxAge
      && forall i | 0 <= i < j && AcceptedAt(ops, i, cfg) && ops[i].event.id == ops[j].event.id ::
        Forgotten(ops, i, j, cfg)
  {
    var id := ops[j].event.id;
    TimingByAge(ops[j].event.occurredAt, ops[j].sentAt, ops[j].now, cfg);
    if id in Run(ops[..j], cfg).ledger {
      var i := EntryIsRemembered(ops, id, j, cfg);
    }
    forall i | 0 <= i < j && AcceptedAt(ops, i, cfg) && ops[i].event.id == id && !Forgotten(ops, i, j, cfg)
      ensures id in Run(ops[..j], cfg).ledger
    {
      RememberedHasEntry(ops, id, i, j, cfg);
    }
  }

  // ---------- never accepted twice ----------

  ghost predicate NeverTwice(ops: seq<Op>, cfg: Settings) {
    forall i, j | 0 <= i < j < |ops| && AcceptedAt(ops, i, cfg) && AcceptedAt(ops, j, cfg) ::
      ops[i].event.id != ops[j].event.id
  }

  ghost predicate SameEvent(ops: seq<Op>, i: int, j: int) {
    0 <= i < j < |ops| && ops[i].Submit? && ops[j].Submit? && ops[i].event.id == ops[j].event.id
  }

  // Nothing is sent before it happened, and a resend is older by at least the time that passed.
  ghost predicate Steady(ops: seq<Op>) {
    forall i, j | SameEvent(ops, i, j) ::
      0 <= AgeOf(ops[i]) && AgeOf(ops[i]) + (ops[j].now - ops[i].now) <= AgeOf(ops[j])
  }

  /** A device whose clock never runs slower than ours, and which sends no event before it happened, is steady. */
  lemma AdvancingClockIsSteady(ops: seq<Op>)
    requires forall i, j | SameEvent(ops, i, j) ::
      && ops[i].event.occurredAt == ops[j].event.occurredAt
      && ops[i].sentAt.Some? && ops[j].sentAt.Some?
      && ops[i].event.occurredAt <= ops[i].sentAt.value
      && ops[j].sentAt.value - ops[i].sentAt.value >= ops[j].now - ops[i].now
    ensures Steady(ops)
  {
  }

  lemma SteadyMeansNeverTwice(ops: seq<Op>, cfg: Settings)
    requires cfg.keep >= cfg.maxAge && Ordered(ops) && Steady(ops)
    ensures NeverTwice(ops, cfg)
  {
    forall i, j | 0 <= i < j < |ops| && AcceptedAt(ops, i, cfg) && AcceptedAt(ops, j, cfg)
      ensures ops[i].event.id != ops[j].event.id
    {
      if ops[i].event.id == ops[j].event.id {
        AcceptedIff(ops, j, cfg);
        assert SameEvent(ops, i, j);
      }
    }
  }

  // Submit at 0, forget just after `keep`, resend at once.
  function Resend(keep: nat): seq<Op> {
    var e, sender := Event(1, 0, None), Sender(None, "device", None);
    [Submit(0, Some(0), e, sender), Retain(keep + 1, {}), Submit(keep + 1, Some(keep + 1), e, sender)]
  }

  lemma ResendIsAcceptedTwice(cfg: Settings)
    requires cfg.keep < cfg.maxAge
    ensures var ops := Resend(cfg.keep);
      Ordered(ops) && Steady(ops) && AcceptedAt(ops, 0, cfg) && AcceptedAt(ops, 2, cfg)
  {
    var ops := Resend(cfg.keep);
    assert Run(ops[..0], cfg) == EMPTY;
    RunPrefix(ops, 0, cfg);
    RunPrefix(ops, 1, cfg);
    assert Run(ops[..1], cfg).ledger == map[1 := 0];
    assert 1 !in Run(ops[..2], cfg).ledger;
  }

  /** No steady run accepts an id twice, over any mix of ingestion, retention and erasure, exactly when
      keep >= maxAge. */
  lemma NeverTwiceIffKeptLongEnough(cfg: Settings)
    ensures cfg.keep >= cfg.maxAge <==> forall ops: seq<Op> :: Ordered(ops) && Steady(ops) ==> NeverTwice(ops, cfg)
  {
    if cfg.keep >= cfg.maxAge {
      forall ops: seq<Op> | Ordered(ops) && Steady(ops) ensures NeverTwice(ops, cfg) {
        SteadyMeansNeverTwice(ops, cfg);
      }
    } else {
      ResendIsAcceptedTwice(cfg);
      assert !NeverTwice(Resend(cfg.keep), cfg);
    }
  }

  lemma DefaultsKeepLongEnough()
    ensures forall ops: seq<Op> :: Ordered(ops) && Steady(ops) ==> NeverTwice(ops, DEFAULTS)
  {
    NeverTwiceIffKeptLongEnough(DEFAULTS);
  }

  // ---------- the anonymisation band ----------

  function LastRetain(ops: seq<Op>, start: int): int {
    if ops == [] then start
    else if ops[|ops| - 1].Retain? then ops[|ops| - 1].now
    else LastRetain(ops[..|ops| - 1], start)
  }

  // A run from `start` on whose retention steps are never more than `gap` apart.
  ghost predicate Regular(ops: seq<Op>, start: int, gap: nat) {
    Ordered(ops) && forall i | 0 <= i < |ops| :: IsTimely(ops, i, start, gap)
  }

  ghost predicate IsTimely(ops: seq<Op>, i: int, start: int, gap: nat)
    requires 0 <= i < |ops|
  {
    start <= ops[i].now && (ops[i].Retain? ==> ops[i].now - LastRetain(ops[..i], start) <= gap)
  }

  // No row older than the limit still carries an address hash.
  ghost predicate Clean(b: Book, now: int, cfg: Settings) {
    forall r <- b.raw | r.sender.ipHash.Some? :: r.receivedAt >= now - cfg.ipHash
  }

  ghost predicate CleanAfterEveryRun(ops: seq<Op>, cfg: Settings) {
    forall i | 0 <= i < |ops| && ops[i].Retain? :: Clean(Run(ops[..i + 1], cfg), ops[i].now, cfg)
  }

  ghost predicate BandSuffices(gap: nat, cfg: Settings) {
    gap <= BAND || cfg.keep <= cfg.ipHash + BAND
  }

  lemma RetainCleans(b: Book, last: int, now: int, lost: set<RawRow>, gap: nat, cfg: Settings)
    requires Clean(b, last, cfg) && last <= now <= last + gap && BandSuffices(gap, cfg)
    ensures Clean(RetainAll(b, now, lost, cfg), now, cfg)
  {
    var b1 := RetainAll(b, now, lost, cfg);
    forall r <- b1.raw | r.sender.ipHash.Some? ensures r.receivedAt >= now - cfg.ipHash {
      var r0 :| r0 in KeepRows(b.raw, now - cfg.keep) - lost && r == Anonymise(r0, now, cfg.ipHash);
      assert r0 in b.raw;
    }
  }

  lemma RegularPrefix(ops: seq<Op>, start: int, gap: nat)
    requires Regular(ops, start, gap) && ops != []
    ensures Regular(ops[..|ops| - 1], start, gap)
    ensures LastRetain(ops[..|ops| - 1], start) <= ops[|ops| - 1].now
  {
    RegularTake(ops, |ops| - 1, start, gap);
    assert IsTimely(ops, |ops| - 1, start, gap);
    LastRetainBound(ops[..|ops| - 1], start, ops[|ops| - 1].now);
  }

  lemma {:induction false} LastRetainBound(ops: seq<Op>, start: int, now: int)
    requires start <= now && forall op <- ops :: op.now <= now
    ensures LastRetain(ops, start) <= now
  {
    if ops != [] {
      LastRetainBound(ops[..|ops| - 1], start, now);
    }
  }

  lemma {:induction false} CleanSinceLastRun(ops: seq<Op>, start: int, gap: nat, cfg: Settings)
    requires Regular(ops, start, gap) && BandSuffices(gap, cfg)
    ensures Clean(Run(ops, cfg), LastRetain(ops, start), cfg)
  {
    if ops != [] {
      var n := |ops| - 1;
      RegularPrefix(ops, start, gap);
      CleanSinceLastRun(ops[..n], start, gap, cfg);
      assert IsTimely(ops, n, start, gap);
      if ops[n].Retain? {
        RetainCleans(Run(ops[..n], cfg), LastRetain(ops[..n], start), ops[n].now, ops[n].lost, gap, cfg);
      }
    }
  }

  lemma RegularTake(ops: seq<Op>, n: nat, start: int, gap: nat)
    requires Regular(ops, start, gap) && n <= |ops|
    ensures Regular(ops[..n], start, gap)
  {
    forall i | 0 <= i < n ensures IsTimely(ops[..n], i, start, gap) {
      assert IsTimely(ops, i, start, gap);
      assert ops[..n][..i] == ops[..i];
    }
  }

  // Retention runs every `gap` up to time t, the first at most `gap` after 0.
  function Rounds(t: int, gap: nat): seq<Op>
    requires gap > 0
    decreases t
  {
    if t <= 0 then [] else Rounds(t - gap, gap) + [Retain(t, {})]
  }

  const HASHED := Sender(None, "device", Some("hash"))
  const FIRST := Submit(0, Some(0), Event(1, 0, None), HASHED)
  const ROW := RawRow(0, 1, HASHED, 0, 0)

  // A run at time t keeps the row of time 0 as it is, hash included.
  ghost predicate Spares(t: int, cfg: Settings) {
    0 <= t <= cfg.keep && (t <= cfg.ipHash || t > cfg.ipHash + BAND)
  }

  lemma SparedRow(b: Book, t: int, cfg: Settings)
    requires b.raw == {ROW} && Spares(t, cfg)
    ensures RetainAll(b, t, {}, cfg).raw == {ROW}
  {
    assert KeepRows(b.raw, t - cfg.keep) - {} == {ROW};
    assert Anonymise(ROW, t, cfg.ipHash) == ROW;
    assert AnonymiseRows({ROW}, t, cfg.ipHash) == {ROW};
  }

  lemma FirstStoresRow(cfg: Settings)
    ensures Run([FIRST], cfg).raw == {ROW}
  {
    assert [FIRST][..0] == [];
    assert Run([FIRST], cfg) == Apply(EMPTY, FIRST, cfg);
  }

  lemma RunAppend(ops: seq<Op>, op: Op, cfg: Settings)
    ensures Run(ops + [op], cfg) == Apply(Run(ops, cfg), op, cfg)
    ensures forall start :: LastRetain(ops + [op], start) == if op.Retain? then op.now else LastRetain(ops, start)
  {
    assert (ops + [op])[..|ops|] == ops;
  }

  // While the runs stay within the limit, the one hashed row of time 0 is untouched.
  lemma {:induction false} RoundsLeaveTheRow(t: int, gap: nat, cfg: Settings)
    requires gap > 0 && t <= cfg.ipHash < cfg.keep
    ensures Run([FIRST] + Rounds(t, gap), cfg).raw == {ROW}
    decreases t
  {
    if t <= 0 {
      assert [FIRST] + Rounds(t, gap) == [FIRST];
      FirstStoresRow(cfg);
    } else {
      RoundsLeaveTheRow(t - gap, gap, cfg);
      var front := [FIRST] + Rounds(t - gap, gap);
      assert [FIRST] + Rounds(t, gap) == front + [Retain(t, {})];
      RunAppend(front, Retain(t, {}), cfg);
      SparedRow(Run(front, cfg), t, cfg);
    }
  }

  lemma {:induction false} RoundsTimes(t: int, gap: nat)
    requires gap > 0
    ensures LastRetain([FIRST] + Rounds(t, gap), 0) == Max(t, 0)
    ensures forall op <- [FIRST] + Rounds(t, gap) :: op.now <= Max(t, 0)
    decreases t
  {
    if t <= 0 {
      assert [FIRST] + Rounds(t, gap) == [FIRST];
      assert [FIRST][..0] == [];
    } else {
      RoundsTimes(t - gap, gap);
      var front := [FIRST] + Rounds(t - gap, gap);
      assert [FIRST] + Rounds(t, gap) == front + [Retain(t, {})];
      RunAppend(front, Retain(t, {}), DEFAULTS);
    }
  }

  lemma {:induction false} RoundsAreRegular(t: int, gap: nat)
    requires gap > 0
    ensures Regular([FIRST] + Rounds(t, gap), 0, gap)
    decreases t
  {
    var ops := [FIRST] + Rounds(t, gap);
    if t <= 0 {
      assert ops == [FIRST];
      FirstIsRegular(gap);
    } else {
      RoundsAreRegular(t - gap, gap);
      RoundsTimes(t - gap, gap);
      var front := [FIRST] + Rounds(t - gap, gap);
      AppendRegular(front, Retain(t, {}), 0, gap);
      assert ops == front + [Retain(t, {})];
    }
  }

  lemma FirstIsRegular(gap: nat)
    ensures Regular([FIRST], 0, gap)
  {
  }

  lemma AppendRegular(ops: seq<Op>, op: Op, start: int, gap: nat)
    requires Regular(ops, start, gap) && start <= op.now && (forall o <- ops :: o.now <= op.now)
    requires op.Retain? ==> op.now - LastRetain(ops, start) <= gap
    ensures Regular(ops + [op], start, gap)
  {
    forall i | 0 <= i <= |ops| ensures IsTimely(ops + [op], i, start, gap) {
      assert (ops + [op])[..i] == ops[..i];
      if i < |ops| {
        assert IsTimely(ops, i, start, gap);
      } else {
        assert ops[..i] == ops;
      }
    }
  }

  // A gap wider than the band lets the row slip past it.
  function Slip(gap: nat, cfg: Settings): seq<Op>
    requires gap > 0
  {
    ([FIRST] + Rounds(cfg.ipHash, gap)) + [Retain(cfg.ipHash + BAND + 1, {})]
  }

  lemma SlipIsRegular(gap: nat, cfg: Settings)
    requires gap > BAND
    ensures Regular(Slip(gap, cfg), 0, gap)
  {
    RoundsAreRegular(cfg.ipHash, gap);
    RoundsTimes(cfg.ipHash, gap);
    AppendRegular([FIRST] + Rounds(cfg.ipHash, gap), Retain(cfg.ipHash + BAND + 1, {}), 0, gap);
  }

  lemma SlipMissesTheRow(gap: nat, cfg: Settings)
    requires !BandSuffices(gap, cfg)
    ensures !CleanAfterEveryRun(Slip(gap, cfg), cfg)
  {
    var front, t := [FIRST] + Rounds(cfg.ipHash, gap), cfg.ipHash + BAND + 1;
    var ops := Slip(gap, cfg);
    RoundsLeaveTheRow(cfg.ipHash, gap, cfg);
    RunAppend(front, Retain(t, {}), cfg);
    SparedRow(Run(front, cfg), t, cfg);
    var n := |front|;
    assert ops[..n + 1] == ops && ops[n] == Retain(t, {});
    assert ROW in Run(ops, cfg).raw;
    assert !Clean(Run(ops[..n + 1], cfg), ops[n].now, cfg);
  }

  /** Every run leaves no old address hash behind, on every regular schedule, exactly when the gap fits the band
      (or rows are dropped before they can leave it). */
  lemma AnonymisedIffBandSuffices(gap: nat, cfg: Settings)
    ensures BandSuffices(gap, cfg) <==>
      forall ops: seq<Op>, start: int :: Regular(ops, start, gap) ==> CleanAfterEveryRun(ops, cfg)
  {
    if BandSuffices(gap, cfg) {
      forall ops: seq<Op>, start: int | Regular(ops, start, gap) ensures CleanAfterEveryRun(ops, cfg) {
        forall i | 0 <= i < |ops| && ops[i].Retain? ensures Clean(Run(ops[..i + 1], cfg), ops[i].now, cfg) {
          RegularTake(ops, i + 1, start, gap);
          CleanSinceLastRun(ops[..i + 1], start, gap, cfg);
        }
      }
    } else {
      SlipIsRegular(gap, cfg);
      SlipMissesTheRow(gap, cfg);
    }
  }
}
