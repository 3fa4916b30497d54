/**
  One user's wallet: an account row with a cached balance and version, and its ledger. The
  account is proved to be determined by the ledger alone, over any run of operations. Each
  operation is one serial transaction that commits or leaves the state unchanged.
 */
module Wallet {
  import opened Common

  datatype Kind = Welcome | Movement(name: string)

  datatype Move = Move(kind: Kind, delta: int)

  // The wallet as a plain list of signed amounts.
  datatype Purse = Purse(open: bool, moves: seq<Move>)

  datatype Error = OrderInvalid | Insufficient

  datatype Op =
    | EnsureOp(grant: bool)
    | ChargeOp(amount: int, name: string)
    | CreditOp(amount: int, name: string)
    | ReconcileOp

  function Sum(moves: seq<Move>): int {
    if moves == [] then 0 else Sum(moves[..|moves| - 1]) + moves[|moves| - 1].delta
  }

  function Ensure(p: Purse, grant: bool, gift: int): Purse {
    if p.open then p else Purse(true, if grant && gift > 0 then [Move(Welcome, gift)] else [])
  }

  function Post(p: Purse, name: string, delta: int): Purse {
    p.(moves := p.moves + [Move(Movement(name), delta)])
  }

  function Charged(p: Purse, amount: int, name: string, gift: int): (Purse, Option<Error>) {
    if amount <= 0 then (p, Some(OrderInvalid))
    else if Sum(Ensure(p, true, gift).moves) < amount then (p, Some(Insufficient))
    else (Post(Ensure(p, true, gift), name, -amount), None)
  }

  function Credited(p: Purse, amount: int, name: string, gift: int): (Purse, Option<Error>) {
    if amount <= 0 then (p, Some(OrderInvalid)) else (Post(Ensure(p, false, gift), name, amount), None)
  }

  function Apply(p: Purse, op: Op, gift: int): Purse {
    match op
    case EnsureOp(grant) => Ensure(p, grant, gift)
    case ChargeOp(amount, name) => Charged(p, amount, name, gift).0
    case CreditOp(amount, name) => Credited(p, amount, name, gift).0
    case ReconcileOp => Ensure(p, false, gift)
  }

  function Run(p: Purse, ops: seq<Op>, gift: int): Purse
    decreases |ops|
  {
    if ops == [] then p else Run(Apply(p, ops[0], gift), ops[1..], gift)
  }

  const CLOSED := Purse(false, [])

  // Never overdrawn at any point of its history; the welcome gift only as the very first entry.
  ghost predicate Sound(p: Purse, gift: int) {
    && (!p.open ==> p.moves == [])
    && (forall n | 0 <= n <= |p.moves| :: Sum(p.moves[..n]) >= 0)
    && (forall i | 0 < i < |p.moves| :: p.moves[i].kind != Welcome)
    && (|p.moves| > 0 && p.moves[0].kind == Welcome ==> p.moves[0].delta == gift > 0)
  }

  lemma SumAppend(moves: seq<Move>, m: Move)
    ensures Sum(moves + [m]) == Sum(moves) + m.delta
  {
    assert (moves + [m])[..|moves|] == moves;
  }

  lemma PostKeepsSound(p: Purse, name: string, delta: int, gift: int)
    requires Sound(p, gift) && p.open && Sum(p.moves) + delta >= 0
    ensures Sound(Post(p, name, delta), gift)
  {
    var after := Post(p, name, delta).moves;
    SumAppend(p.moves, Move(Movement(name), delta));
    forall n | 0 <= n <= |after| ensures Sum(after[..n]) >= 0 {
      if n <= |p.moves| { assert after[..n] == p.moves[..n]; } else { assert after[..n] == after; }
    }
  }

  lemma EnsureKeepsSound(p: Purse, grant: bool, gift: int)
    requires Sound(p, gift)
    ensures Sound(Ensure(p, grant, gift), gift)
  {
    if !p.open && grant && gift > 0 {
      var after := Ensure(p, grant, gift).moves;
      SumAppend([], after[0]);
      assert [] + [after[0]] == after;
      forall n | 0 <= n <= 1 ensures Sum(after[..n]) >= 0 {
        assert after[..0] == [] && after[..1] == after;
      }
    }
  }

  lemma ApplyKeepsSound(p: Purse, op: Op, gift: int)
    requires Sound(p, gift)
    ensures Sound(Apply(p, op, gift), gift)
  {
    match op
    case EnsureOp(grant) => EnsureKeepsSound(p, grant, gift);
    case ReconcileOp => EnsureKeepsSound(p, false, gift);
    case ChargeOp(amount, name) => ChargeKeepsSound(p, amount, name, gift);
    case CreditOp(amount, name) => CreditKeepsSound(p, amount, name, gift);
  }

  lemma ChargeKeepsSound(p: Purse, amount: int, name: string, gift: int)
    requires Sound(p, gift)
    ensures Sound(Charged(p, amount, name, gift).0, gift)
  {
    EnsureKeepsSound(p, true, gift);
    var p1 := Ensure(p, true, gift);
    if amount > 0 && Sum(p1.moves) >= amount { PostKeepsSound(p1, name, -amount, gift); }
  }

  lemma CreditKeepsSound(p: Purse, amount: int, name: string, gift: int)
    requires Sound(p, gift)
    ensures Sound(Credited(p, amount, name, gift).0, gift)
  {
    EnsureKeepsSound(p, false, gift);
    var p1 := Ensure(p, false, gift);
    assert p1.moves[..|p1.moves|] == p1.moves;
    if amount > 0 { PostKeepsSound(p1, name, amount, gift); }
  }

  /** No run overdraws the wallet at any point, and the welcome gift appears at most once, first. */
  lemma {:induction false} RunKeepsSound(p: Purse, ops: seq<Op>, gift: int)
    requires Sound(p, gift)
    ensures Sound(Run(p, ops, gift), gift)
    decreases |ops|
  {
    if ops != [] {
      ApplyKeepsSound(p, ops[0], gift);
      RunKeepsSound(Apply(p, ops[0], gift), ops[1..], gift);
    }
  }

  lemma ReachableIsSound(ops: seq<Op>, gift: int)
    ensures Sound(Run(CLOSED, ops, gift), gift)
  {
    RunKeepsSound(CLOSED, ops, gift);
  }

  predicate HasGift(p: Purse) {
    |p.moves| > 0 && p.moves[0].kind == Welcome
  }

  /** The gift is decided when the account opens: one opened by a credit or a reconciliation never gets it. */
  lemma {:induction false} GiftIsDecidedAtOpening(p: Purse, ops: seq<Op>, gift: int)
    requires p.open
    ensures Run(p, ops, gift).open && (HasGift(Run(p, ops, gift)) <==> HasGift(p))
    decreases |ops|
  {
    if ops != [] {
      GiftIsDecidedAtOpening(Apply(p, ops[0], gift), ops[1..], gift);
    }
  }

  // ---------- what each operation does to the balance ----------

  ghost predicate IsUnusedUntilOpen(p: Purse) {
    !p.open ==> p.moves == []
  }

  // What there is to spend; a charge opens an account with the gift.
  function Spendable(p: Purse, gift: int): int {
    if p.open then Sum(p.moves) else Max(0, gift)
  }

  /** A charge takes exactly its amount, or changes nothing: it succeeds exactly for a positive amount that is
      covered. */
  lemma ChargeEffect(p: Purse, amount: int, name: string, gift: int)
    requires IsUnusedUntilOpen(p)
    ensures var (p1, error) := Charged(p, amount, name, gift);
      if amount <= 0 then error == Some(OrderInvalid) && p1 == p
      else if Spendable(p, gift) < amount then error == Some(Insufficient) && p1 == p
      else
        && error == None && p1.open && Sum(p1.moves) == Spendable(p, gift) - amount
        && p1.moves != [] && p1.moves[|p1.moves| - 1] == Move(Movement(name), -amount)
        && p.moves <= p1.moves && |p1.moves| == |p.moves| + (if !p.open && gift > 0 then 2 else 1)
  {
    var p0 := Ensure(p, true, gift);
    OpeningSum(p, true, gift);
    SumAppend(p0.moves, Move(Movement(name), -amount));
  }

  lemma OpeningSum(p: Purse, grant: bool, gift: int)
    requires IsUnusedUntilOpen(p)
    ensures Sum(Ensure(p, grant, gift).moves) == if p.open then Sum(p.moves) else if grant then Max(0, gift) else 0
  {
    SumAppend([], Move(Welcome, gift));
    assert [] + [Move(Welcome, gift)] == [Move(Welcome, gift)];
  }

  /** A credit adds exactly its amount; the account it opens gets no gift. */
  lemma CreditEffect(p: Purse, amount: int, name: string, gift: int)
    requires IsUnusedUntilOpen(p)
    ensures var (p1, error) := Credited(p, amount, name, gift);
      if amount <= 0 then error == Some(OrderInvalid) && p1 == p
      else
        && error == None && p1 == Purse(true, p.moves + [Move(Movement(name), amount)])
        && Sum(p1.moves) == Sum(p.moves) + amount
  {
    SumAppend(p.moves, Move(Movement(name), amount));
  }

  // What an operation brings in: gift, credit or charge, if it goes through.
  function Income(p: Purse, op: Op, gift: int): int {
    match op
    case EnsureOp(grant) => if !p.open && grant then Max(0, gift) else 0
    case ChargeOp(amount, _) =>
      if amount <= 0 || Spendable(p, gift) < amount then 0
      else (if p.open then 0 else Max(0, gift)) - amount
    case CreditOp(amount, _) => Max(0, amount)
    case ReconcileOp => 0
  }

  function TotalIncome(p: Purse, ops: seq<Op>, gift: int): int
    decreases |ops|
  {
    if ops == [] then 0 else Income(p, ops[0], gift) + TotalIncome(Apply(p, ops[0], gift), ops[1..], gift)
  }

  lemma ChargeConserves(p: Purse, amount: int, name: string, gift: int)
    requires IsUnusedUntilOpen(p)
    ensures Sum(Charged(p, amount, name, gift).0.moves) == Sum(p.moves) + Income(p, ChargeOp(amount, name), gift)
  {
    ChargeEffect(p, amount, name, gift);
  }

  lemma CreditConserves(p: Purse, amount: int, name: string, gift: int)
    requires IsUnusedUntilOpen(p)
    ensures Sum(Credited(p, amount, name, gift).0.moves) == Sum(p.moves) + Income(p, CreditOp(amount, name), gift)
  {
    CreditEffect(p, amount, name, gift);
  }

  lemma StepConserves(p: Purse, op: Op, gift: int)
    requires IsUnusedUntilOpen(p)
    ensures Sum(Apply(p, op, gift).moves) == Sum(p.moves) + Income(p, op, gift)
    ensures IsUnusedUntilOpen(Apply(p, op, gift))
  {
    match op
    case EnsureOp(grant) => OpeningSum(p, grant, gift);
    case ReconcileOp => OpeningSum(p, false, gift);
    case ChargeOp(amount, name) => ChargeConserves(p, amount, name, gift);
    case CreditOp(amount, name) => CreditConserves(p, amount, name, gift);
  }

  /** Over any run the balance moves by exactly the gift, credits and charges that went through. */
  lemma {:induction false} RunConserves(p: Purse, ops: seq<Op>, gift: int)
    requires IsUnusedUntilOpen(p)
    ensures Sum(Run(p, ops, gift).moves) == Sum(p.moves) + TotalIncome(p, ops, gift)
    decreases |ops|
  {
    if ops != [] {
      StepConserves(p, ops[0], gift);
      RunConserves(Apply(p, ops[0], gift), ops[1..], gift);
    }
  }

  // ---------- the tables ----------

  datatype Account = Account(balance: int, version: nat)

  datatype Entry = Entry(kind: Kind, delta: int, balanceAfter: int)

  datatype Report = Report(balance: int, ledgerSum: int, ok: bool)

  function MovesOf(ledger: seq<Entry>): (moves: seq<Move>)
    ensures |moves| == |ledger|
  {
    seq(|ledger|, i requires 0 <= i < |ledger| => Move(ledger[i].kind, ledger[i].delta))
  }

  lemma MovesOfAppend(ledger: seq<Entry>, e: Entry)
    ensures MovesOf(ledger + [e]) == MovesOf(ledger) + [Move(e.kind, e.delta)]
  {
  }

  lemma MovesOfPrefix(ledger: seq<Entry>, n: nat)
    requires n <= |ledger|
    ensures MovesOf(ledger[..n]) == MovesOf(ledger)[..n]
  {
  }

  method LedgerSum(rows: seq<Entry>) returns (sum: int)
    ensures sum == Sum(MovesOf(rows))
  {
    sum := 0;
    for i := 0 to |rows|
      invariant sum == Sum(MovesOf(rows[..i]))
    {
      assert rows[..i + 1] == rows[..i] + [rows[i]];
      MovesOfAppend(rows[..i], rows[i]);
      SumAppend(MovesOf(rows[..i]), Move(rows[i].kind, rows[i].delta));
      sum := sum + rows[i].delta;
    }
    assert rows[..|rows|] == rows;
  }

  class UserWallet {
    const gift: int
    var account: Option<Account>
    var ledger: seq<Entry>

    ghost function View(): Purse
      reads this
    {
      Purse(account.Some?, MovesOf(ledger))
    }

    // The account row is the summary of the ledger, and each entry carries the prefix sum.
    ghost predicate Coupled()
      reads this
    {
      && (account.Some? ==> account.value.balance == Sum(MovesOf(ledger)) && account.value.version == |ledger|)
      && forall i | 0 <= i < |ledger| :: ledger[i].balanceAfter == Sum(MovesOf(ledger[..i + 1]))
    }

    ghost predicate Valid()
      reads this
    {
      Coupled() && Sound(View(), gift)
    }

    constructor (gift: int)
      ensures Valid() && View() == CLOSED && this.gift == gift
    {
      this.gift, account, ledger := gift, None, [];
    }

    // Bumps balance and version and appends the entry. The overdraft guard is reported, not assumed away.
    method CreditEntry(kind: Kind, delta: int) returns (error: Option<Error>)
      requires Coupled() && account.Some?
      modifies this
      ensures Coupled() && account.Some?
      ensures error == if Sum(old(View()).moves) + delta < 0 then Some(Insufficient) else None
      ensures error.None? ==> View() == old(View()).(moves := old(View()).moves + [Move(kind, delta)])
      ensures error.Some? ==> View() == old(View())
    {
      var balance := account.value.balance + delta;
      var version := account.value.version + 1;
      if balance < 0 { return Some(Insufficient); }
      var entry := Entry(kind, delta, balance);
      MovesOfAppend(ledger, entry);
      SumAppend(MovesOf(ledger), Move(kind, delta));
      ghost var before := ledger;
      account := Some(Account(balance, version));
      ledger := ledger + [entry];
      forall i | 0 <= i < |ledger| ensures ledger[i].balanceAfter == Sum(MovesOf(ledger[..i + 1])) {
        if i < |before| {
          assert ledger[..i + 1] == before[..i + 1];
        } else {
          assert ledger[..i + 1] == ledger;
        }
      }
      return None;
    }

    method EnsureAccount(grant: bool)
      requires Valid()
      modifies this
      ensures Valid() && View() == Ensure(old(View()), grant, gift) && account.Some?
    {
      if account.Some? { return; }
      EnsureKeepsSound(View(), grant, gift);
      account := Some(Account(0, 0));
      assert MovesOf(ledger) == [];
      if grant && gift > 0 {
        var error := CreditEntry(Welcome, gift);
        assert error.None?;
      }
    }

    /** Every entry shows the sum up to itself, and none of them ever shows a debt. */
    lemma EntriesShowRunningTotals()
      requires Valid()
      ensures forall i | 0 <= i < |ledger| :: ledger[i].balanceAfter == Sum(View().moves[..i + 1]) >= 0
    {
      forall i | 0 <= i < |ledger| ensures ledger[i].balanceAfter == Sum(View().moves[..i + 1]) >= 0 {
        MovesOfPrefix(ledger, i + 1);
      }
    }

    /** A refused charge changes nothing, not even the account it would have opened. */
    method Charge(amount: int, name: string) returns (error: Option<Error>)
      requires Valid()
      modifies this
      ensures Valid() && (View(), error) == Charged(old(View()), amount, name, gift)
    {
      if amount <= 0 { return Some(OrderInvalid); }
      var savedAccount, savedLedger := account, ledger;
      ghost var before := View();
      EnsureAccount(true);
      if account.value.balance < amount {
        account, ledger := savedAccount, savedLedger;  // the request's transaction is rolled back
        return Some(Insufficient);
      }
      ApplyKeepsSound(before, ChargeOp(amount, name), gift);
      error := CreditEntry(Movement(name), -amount);
    }

    method Credit(amount: int, name: string) returns (error: Option<Error>)
      requires Valid()
      modifies this
      ensures Valid() && (View(), error) == Credited(old(View()), amount, name, gift)
    {
      if amount <= 0 { return Some(OrderInvalid); }
      ApplyKeepsSound(View(), CreditOp(amount, name), gift);
      EnsureAccount(false);
      assert View().moves[..|View().moves|] == View().moves;
      error := CreditEntry(Movement(name), amount);
    }

    /** Reconciliation always reports that balance and ledger agree. */
    method Reconcile() returns (report: Report)
      requires Valid()
      modifies this
      ensures Valid() && View() == Ensure(old(View()), false, gift)
      ensures report.ok && report.balance == report.ledgerSum == Sum(View().moves) >= 0
    {
      EnsureAccount(false);
      var ledgerSum := LedgerSum(ledger);
      assert View().moves[..|View().moves|] == View().moves;
      return Report(account.value.balance, ledgerSum, ledgerSum == account.value.balance);
    }
  }
}
