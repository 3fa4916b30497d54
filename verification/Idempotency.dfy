/**
  Idempotency records. Per (scope, key) the store is a slot that is free, pending or done with
  a stored reply; the fall-through after the status checks, which would insert a second row, is
  proved unreachable. Over any run, two starts of the guarded action with no failure between
  them lie at least one lifetime apart.
 */
module Idempotency {
  import opened Common

  type UserId = int
  type Json = string

  datatype Error = Conflict | InProgress | Duplicate

  // ---------- one slot ----------

  datatype Slot =
    | Free
    | Pending(id: nat, user: Option<UserId>, hash: string, expiresAt: int)
    | Done(id: nat, user: Option<UserId>, hash: string, expiresAt: int, reply: Json)

  datatype Outcome = Started(id: nat) | Replayed(reply: Json) | Refused(error: Error)

  predicate IsForeign(slot: Slot, user: Option<UserId>) {
    slot != Free && user.Some? && slot.user.Some? && slot.user != user
  }

  function Begun(slot: Slot, user: Option<UserId>, hash: string, now: int, ttl: int, id: nat): (Slot, Outcome) {
    if IsForeign(slot, user) then (slot, Refused(Conflict))
    else if slot == Free || slot.expiresAt <= now then (Pending(id, user, hash, now + ttl), Started(id))
    else if slot.hash != "" && slot.hash != hash then (slot, Refused(Conflict))
    else if slot.Done? then (slot, Replayed(slot.reply))
    else (slot, Refused(InProgress))
  }

  function Completed(slot: Slot, id: nat, reply: Json): Slot {
    if slot != Free && slot.id == id then Done(id, slot.user, slot.hash, slot.expiresAt, reply) else slot
  }

  function Failed(slot: Slot, id: nat): Slot {
    if slot != Free && slot.id == id then Free else slot
  }

  // ---------- runs on one slot ----------

  datatype Op =
    | BeginOp(now: int, user: Option<UserId>, hash: string)
    | CompleteOp(now: int, id: nat, reply: Json)
    | FailOp(now: int, id: nat)

  // The id of a record is the position of the step that created it.
  function Apply(slot: Slot, op: Op, ttl: int, id: nat): Slot {
    match op
    case BeginOp(now, user, hash) => Begun(slot, user, hash, now, ttl, id).0
    case CompleteOp(_, done, reply) => Completed(slot, done, reply)
    case FailOp(_, failed) => Failed(slot, failed)
  }

  // The slot after the first n steps.
  function SlotAfter(ops: seq<Op>, n: nat, ttl: int): Slot
    requires n <= |ops|
  {
    if n == 0 then Free else Apply(SlotAfter(ops, n - 1, ttl), ops[n - 1], ttl, n - 1)
  }

  function OutcomeAt(ops: seq<Op>, i: nat, ttl: int): Outcome
    requires i < |ops| && ops[i].BeginOp?
  {
    Begun(SlotAfter(ops, i, ttl), ops[i].user, ops[i].hash, ops[i].now, ttl, i).1
  }

  ghost predicate StartsAt(ops: seq<Op>, i: nat, ttl: int) {
    i < |ops| && ops[i].BeginOp? && OutcomeAt(ops, i, ttl).Started?
  }

  ghost predicate InOrder(ops: seq<Op>) {
    forall i, j | 0 <= i < j < |ops| :: ops[i].now <= ops[j].now
  }

  // ---------- how long a record stays ----------

  ghost predicate IsRecordOf(slot: Slot, i: nat) {
    slot != Free && slot.id == i
  }

  // Step k removes the record of start i: it fails, or its own user or an anonymous caller begins after expiry.
  ghost predicate EndsRecord(ops: seq<Op>, i: int, k: int, ttl: int) {
    0 <= i < k < |ops| && ops[i].BeginOp?
    && match ops[k]
       case BeginOp(now, user, _) =>
         now >= ops[i].now + ttl && (user.None? || ops[i].user.None? || user == ops[i].user)
       case CompleteOp(_, _, _) => false
       case FailOp(_, id) => id == i
  }

  ghost predicate IsUntouched(ops: seq<Op>, i: nat, n: nat, ttl: int) {
    forall k | i < k < n :: !EndsRecord(ops, i, k, ttl)
  }

  // If the slot holds the record of start i, it still shows that start's user, request and expiry.
  ghost predicate ShowsStart(slot: Slot, i: nat, op: Op, ttl: int)
    requires op.BeginOp?
  {
    IsRecordOf(slot, i) ==> slot.user == op.user && slot.hash == op.hash && slot.expiresAt == op.now + ttl
  }

  lemma StartMakesRecord(ops: seq<Op>, i: nat, ttl: int)
    requires StartsAt(ops, i, ttl)
    ensures SlotAfter(ops, i + 1, ttl) == Pending(i, ops[i].user, ops[i].hash, ops[i].now + ttl)
  {
  }

  /** The slot holds a start's record exactly until it fails, or until its user or an anonymous caller begins at or
      after its expiry. */
  lemma {:induction false} RecordLastsIff(ops: seq<Op>, i: nat, n: nat, ttl: int)
    requires StartsAt(ops, i, ttl) && i < n <= |ops|
    ensures IsRecordOf(SlotAfter(ops, n, ttl), i) <==> IsUntouched(ops, i, n, ttl)
    ensures ShowsStart(SlotAfter(ops, n, ttl), i, ops[i], ttl)
    decreases n
  {
    if n == i + 1 {
      StartMakesRecord(ops, i, ttl);
    } else {
      RecordLastsIff(ops, i, n - 1, ttl);
      RecordStep(ops, i, n - 1, SlotAfter(ops, n - 1, ttl), ttl);
      assert IsUntouched(ops, i, n, ttl) <==> IsUntouched(ops, i, n - 1, ttl) && !EndsRecord(ops, i, n - 1, ttl);
    }
  }

  lemma RecordStep(ops: seq<Op>, i: nat, k: nat, slot: Slot, ttl: int)
    requires i < k < |ops| && ops[i].BeginOp? && ShowsStart(slot, i, ops[i], ttl)
    ensures IsRecordOf(Apply(slot, ops[k], ttl, k), i) <==> IsRecordOf(slot, i) && !EndsRecord(ops, i, k, ttl)
    ensures ShowsStart(Apply(slot, ops[k], ttl, k), i, ops[i], ttl)
  {
  }

  /** Two starts of the guarded action are at least one lifetime apart unless the first one's record fails in
      between. */
  lemma StartsAreSpaced(ops: seq<Op>, i: nat, j: nat, ttl: nat)
    requires InOrder(ops) && i < j && StartsAt(ops, i, ttl) && StartsAt(ops, j, ttl)
    requires forall k | i < k < j :: ops[k] != FailOp(ops[k].now, i)
    ensures ops[j].now >= ops[i].now + ttl
  {
    RecordLastsIff(ops, i, j, ttl);
    if !IsUntouched(ops, i, j, ttl) {
      var k :| i < k < j && EndsRecord(ops, i, k, ttl);
      assert ops[k].BeginOp?;
    }
  }

  /** Ownership is checked before expiry: once a user has started, every later begin of another user is refused,
      however late, as long as nothing removed the record. */
  lemma ExpiredStillRefusesOthers(ops: seq<Op>, i: nat, j: nat, ttl: int)
    requires StartsAt(ops, i, ttl) && i < j < |ops| && ops[j].BeginOp?
    requires ops[i].user.Some? && ops[j].user.Some? && ops[i].user != ops[j].user
    requires IsUntouched(ops, i, j, ttl)
    ensures OutcomeAt(ops, j, ttl) == Refused(Conflict)
  {
    RecordLastsIff(ops, i, j, ttl);
  }

  // ---------- replies ----------

  // Before expiry, only completing or failing its own record changes a taken slot.
  lemma TakenStays(slot: Slot, op: Op, ttl: int, id: nat)
    requires slot != Free && op.now < slot.expiresAt && (op.CompleteOp? || op.FailOp? ==> op.id != slot.id)
    ensures Apply(slot, op, ttl, id) == slot
  {
  }

  lemma CompletionStores(slot: Slot, op: Op, ttl: int, id: nat)
    requires slot != Free && op.CompleteOp? && op.id == slot.id
    ensures Apply(slot, op, ttl, id) == Done(slot.id, slot.user, slot.hash, slot.expiresAt, op.reply)
  {
  }

  // A stored reply stays in place while the lifetime lasts and its own record is not touched again.
  lemma {:induction false} ReplyStays(ops: seq<Op>, i: nat, c: nat, n: nat, ttl: nat)
    requires StartsAt(ops, i, ttl) && i < c < n <= |ops| && ops[c].CompleteOp? && ops[c].id == i
    requires forall k | i < k < n :: ops[k].now < ops[i].now + ttl && ops[k] != FailOp(ops[k].now, i)
    requires forall k | c < k < n :: ops[k].CompleteOp? ==> ops[k].id != i
    ensures SlotAfter(ops, n, ttl) == Done(i, ops[i].user, ops[i].hash, ops[i].now + ttl, ops[c].reply)
    decreases n
  {
    if n > c + 1 {
      ReplyStays(ops, i, c, n - 1, ttl);
      TakenStays(SlotAfter(ops, n - 1, ttl), ops[n - 1], ttl, n - 1);
    } else {
      RecordLastsIff(ops, i, c, ttl);
      CompletionStores(SlotAfter(ops, c, ttl), ops[c], ttl, c);
    }
  }

  /** From its last completion until expiry, a begin is answered from the record: the stored reply for the same
      request, a conflict for another user or another request. The action is not started again. */
  lemma RetriesAreReplayed(ops: seq<Op>, i: nat, c: nat, j: nat, ttl: nat)
    requires InOrder(ops) && StartsAt(ops, i, ttl) && i < c < j < |ops| && ops[j].BeginOp?
    requires ops[c].CompleteOp? && ops[c].id == i
    requires forall k | i < k < j :: ops[k] != FailOp(ops[k].now, i)
    requires forall k | c < k < j :: ops[k].CompleteOp? ==> ops[k].id != i
    requires ops[j].now < ops[i].now + ttl
    ensures var foreign := ops[i].user.Some? && ops[j].user.Some? && ops[i].user != ops[j].user;
      OutcomeAt(ops, j, ttl) ==
        if foreign || (ops[i].hash != "" && ops[i].hash != ops[j].hash) then Refused(Conflict)
        else Replayed(ops[c].reply)
  {
    ReplyStays(ops, i, c, j, ttl);
  }

  // ---------- every answer ----------

  // Some step between i and n completed the record of start i.
  ghost predicate IsCompleted(ops: seq<Op>, i: nat, n: nat) {
    exists k | i < k < n <= |ops| :: ops[k].CompleteOp? && ops[k].id == i
  }

  // What the slot holds is always the record of one start.
  lemma {:induction false} SlotIsSomeRecord(ops: seq<Op>, n: nat, ttl: int) returns (i: nat)
    requires n <= |ops| && SlotAfter(ops, n, ttl) != Free
    ensures i < n && StartsAt(ops, i, ttl) && IsRecordOf(SlotAfter(ops, n, ttl), i) && IsUntouched(ops, i, n, ttl)
    decreases n
  {
    var before := SlotAfter(ops, n - 1, ttl);
    if ops[n - 1].BeginOp? && OutcomeAt(ops, n - 1, ttl).Started? {
      i := n - 1;
    } else {
      i := SlotIsSomeRecord(ops, n - 1, ttl);
    }
    RecordLastsIff(ops, i, n, ttl);
  }

  /** A begin starts the action exactly when no record stands in its way: every start so far has failed, been
      replaced, or gives way to this very begin. On a slot never used it always starts. */
  lemma StartsIff(ops: seq<Op>, j: nat, ttl: int)
    requires j < |ops| && ops[j].BeginOp?
    ensures StartsAt(ops, j, ttl) <==>
      forall i: nat | i < j && StartsAt(ops, i, ttl) && IsUntouched(ops, i, j, ttl) :: EndsRecord(ops, i, j, ttl)
  {
    forall i: nat | i < j && StartsAt(ops, i, ttl) && IsUntouched(ops, i, j, ttl)
      ensures StartsAt(ops, j, ttl) <==> EndsRecord(ops, i, j, ttl)
    {
      RecordLastsIff(ops, i, j, ttl);
    }
    if SlotAfter(ops, j, ttl) != Free {
      var i := SlotIsSomeRecord(ops, j, ttl);
    }
  }

  lemma {:induction false} PendingUntilCompleted(ops: seq<Op>, i: nat, n: nat, ttl: int)
    requires StartsAt(ops, i, ttl) && i < n <= |ops| && IsUntouched(ops, i, n, ttl)
    ensures SlotAfter(ops, n, ttl).Pending? <==> !IsCompleted(ops, i, n)
    decreases n
  {
    if n == i + 1 {
      StartMakesRecord(ops, i, ttl);
    } else {
      PendingUntilCompleted(ops, i, n - 1, ttl);
      RecordLastsIff(ops, i, n - 1, ttl);
      assert !EndsRecord(ops, i, n - 1, ttl);
      assert IsCompleted(ops, i, n) <==> IsCompleted(ops, i, n - 1) || (ops[n - 1].CompleteOp? && ops[n - 1].id == i);
    }
  }

  /** While the action runs, the same user's same request is told so, and is not started again. */
  lemma RetryWhilePending(ops: seq<Op>, i: nat, j: nat, ttl: int)
    requires StartsAt(ops, i, ttl) && i < j < |ops| && ops[j].BeginOp? && IsUntouched(ops, i, j, ttl)
    requires !IsCompleted(ops, i, j) && ops[j].now < ops[i].now + ttl
    requires ops[j].user == ops[i].user && ops[j].hash == ops[i].hash
    ensures OutcomeAt(ops, j, ttl) == Refused(InProgress)
  {
    RecordLastsIff(ops, i, j, ttl);
    PendingUntilCompleted(ops, i, j, ttl);
  }

  // ---------- the table ----------

  datatype Status = PENDING | COMPLETED

  datatype Record = Record(id: nat, user: Option<UserId>, hash: string, status: Status,
      snapshot: Option<Json>, expiresAt: int)

  type Key = (string, string)  // scope and key, unique together

  function SlotOf(records: map<Key, Record>, key: Key): Slot {
    if key !in records then Free
    else
      var r := records[key];
      if r.status == COMPLETED && r.snapshot.Some? then Done(r.id, r.user, r.hash, r.expiresAt, r.snapshot.value)
      else Pending(r.id, r.user, r.hash, r.expiresAt)
  }

  class Store {
    const ttl: int
    var records: map<Key, Record>
    var nextId: nat

    // A completed record always carries its reply.
    ghost predicate Valid()
      reads this
    {
      forall key <- records ::
        records[key].id < nextId && (records[key].status == COMPLETED <==> records[key].snapshot.Some?)
    }

    ghost predicate OthersKept(key: Key, before: map<Key, Record>)
      reads this
    {
      forall other | other != key :: SlotOf(records, other) == SlotOf(before, other)
    }

    constructor (ttl: int)
      ensures Valid() && records == map[] && this.ttl == ttl
    {
      this.ttl, records, nextId := ttl, map[], 0;
    }

    // The user check comes first; an expired record of the same user is deleted.
    method Lookup(key: Key, user: Option<UserId>, now: int) returns (found: Result<Option<Record>, Error>)
      requires Valid()
      modifies this`records
      ensures Valid() && OthersKept(key, old(records))
      ensures var slot := SlotOf(old(records), key);
        if IsForeign(slot, user) then found == Err(Conflict) && records == old(records)
        else if slot == Free || slot.expiresAt <= now then found == Ok(None) && key !in records
        else found == Ok(Some(old(records)[key])) && records == old(records)
    {
      if key !in records { return Ok(None); }
      var row := records[key];
      if user.Some? && row.user.Some? && row.user != user { return Err(Conflict); }
      if row.expiresAt <= now {
        records := records - {key};
        return Ok(None);
      }
      return Ok(Some(row));
    }

    /** Never a second live row: the fall-through after the status checks is dead. */
    method Begin(key: Key, user: Option<UserId>, hash: string, now: int) returns (outcome: Outcome)
      requires Valid()
      modifies this
      ensures Valid() && OthersKept(key, old(records))
      ensures (SlotOf(records, key), outcome) == Begun(SlotOf(old(records), key), user, hash, now, ttl, old(nextId))
      ensures nextId == old(nextId) + (if outcome.Started? then 1 else 0)
      ensures outcome != Refused(Duplicate)
    {
      var found := Lookup(key, user, now);
      if found.Err? { return Refused(found.error); }
      if found.value.Some? {
        var existing := found.value.value;
        if existing.hash != "" && existing.hash != hash { return Refused(Conflict); }
        if existing.status == COMPLETED && existing.snapshot.Some? { return Replayed(existing.snapshot.value); }
        if existing.status == PENDING { return Refused(InProgress); }
      }
      if key in records { return Refused(Duplicate); }  // the unique constraint on (scope, key)
      records := records[key := Record(nextId, user, hash, PENDING, None, now + ttl)];
      nextId := nextId + 1;
      return Started(nextId - 1);
    }

    // The update of a row that is gone matches nothing, which the caller sees as an error.
    method Complete(key: Key, id: nat, reply: Json) returns (stale: bool)
      requires Valid()
      modifies this`records
      ensures stale <==> !IsRecordOf(SlotOf(old(records), key), id)
      ensures Valid() && OthersKept(key, old(records))
      ensures SlotOf(records, key) == Completed(SlotOf(old(records), key), id, reply)
    {
      if key in records && records[key].id == id {
        records := records[key := records[key].(status := COMPLETED, snapshot := Some(reply))];
        return false;
      }
      return true;
    }

    method Fail(key: Key, id: nat)
      requires Valid()
      modifies this`records
      ensures Valid() && OthersKept(key, old(records))
      ensures SlotOf(records, key) == Failed(SlotOf(old(records), key), id)
    {
      if key in records && records[key].id == id {
        records := records - {key};
      }
    }
  }
}
