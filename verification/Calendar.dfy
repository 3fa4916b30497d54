/**
  Month arithmetic, the proleptic Gregorian day count, and the month partitions of the raw
  event table: their bounds and their names.
 */
module Calendar {
  import opened Common

  type YearMonth = (int, int)

  predicate IsMonth(ym: YearMonth) {
    1 <= ym.1 <= 12
  }

  // Python's // and % floor, as do Dafny's for a positive divisor.
  function AddMonth(ym: YearMonth, delta: int): (r: YearMonth)
    ensures IsMonth(r)
  {
    var index := ym.0 * 12 + (ym.1 - 1) + delta;
    (index / 12, index % 12 + 1)
  }

  /** Adding months is an action of the integers: adding 0 does nothing, and steps compose. */
  lemma AddMonthIsAction(ym: YearMonth, a: int, b: int)
    ensures IsMonth(ym) ==> AddMonth(ym, 0) == ym
    ensures AddMonth(AddMonth(ym, a), b) == AddMonth(ym, a + b)
    ensures IsMonth(ym) ==> AddMonth(AddMonth(ym, a), -a) == ym
  {
  }

  // ---------- day count ----------

  predicate IsLeap(y: int) {
    y % 4 == 0 && (y % 100 != 0 || y % 400 == 0)
  }

  function DaysInMonth(ym: YearMonth): (n: int)
    ensures 28 <= n <= 31
  {
    if ym.1 == 2 then (if IsLeap(ym.0) then 29 else 28)
    else if ym.1 == 4 || ym.1 == 6 || ym.1 == 9 || ym.1 == 11 then 30
    else 31
  }

  function DaysBeforeYear(y: int): int {
    (y - 1) * 365 + (y - 1) / 4 - (y - 1) / 100 + (y - 1) / 400
  }

  function DaysBeforeMonth(y: int, m: int): int
    decreases m
  {
    if m <= 1 then 0 else DaysBeforeMonth(y, m - 1) + DaysInMonth((y, m - 1))
  }

  // The ordinal of the first day of a month; 1 January of year 1 is day 1.
  function MonthStart(ym: YearMonth): int {
    DaysBeforeYear(ym.0) + DaysBeforeMonth(ym.0, ym.1) + 1
  }

  lemma YearLength(y: int)
    ensures DaysBeforeYear(y + 1) == DaysBeforeYear(y) + (if IsLeap(y) then 366 else 365)
  {
    FloorsStep(y);
    Centuries(y);
  }

  lemma Centuries(y: int)
    ensures y % 100 == 0 ==> y % 4 == 0
    ensures y % 400 == 0 ==> y % 100 == 0
  {
    Multiple(y, y / 100 * 25, 4);
    Multiple(y, y / 400 * 4, 100);
  }

  lemma Multiple(y: int, k: int, m: int)
    requires m == 4 || m == 100
    ensures y == k * m ==> y % m == 0
  {
  }

  lemma FloorsStep(y: int)
    ensures y / 4 == (y - 1) / 4 + (if y % 4 == 0 then 1 else 0)
    ensures y / 100 == (y - 1) / 100 + (if y % 100 == 0 then 1 else 0)
    ensures y / 400 == (y - 1) / 400 + (if y % 400 == 0 then 1 else 0)
  {
  }

  lemma DaysBeforeDecember(y: int)
    ensures DaysBeforeMonth(y, 12) + 31 == if IsLeap(y) then 366 else 365
  {
    var f := if IsLeap(y) then 29 else 28;
    assert DaysBeforeMonth(y, 3) == 31 + f;
    assert DaysBeforeMonth(y, 5) == 31 + f + 61;
    assert DaysBeforeMonth(y, 7) == 31 + f + 122;
    assert DaysBeforeMonth(y, 9) == 31 + f + 184;
    assert DaysBeforeMonth(y, 11) == 31 + f + 245;
  }

  /** Months follow each other without gap or overlap, across year ends and leap days. */
  lemma NextMonthStart(ym: YearMonth)
    requires IsMonth(ym)
    ensures MonthStart(AddMonth(ym, 1)) == MonthStart(ym) + DaysInMonth(ym)
  {
    if ym.1 == 12 {
      assert AddMonth(ym, 1) == (ym.0 + 1, 1);
      YearLength(ym.0);
      DaysBeforeDecember(ym.0);
    } else {
      assert AddMonth(ym, 1) == (ym.0, ym.1 + 1);
    }
  }

  // ---------- the ensured partitions ----------

  // The month table created for offset k covers days Lower(k) up to, not including, Upper(k).
  function Lower(today: YearMonth, k: nat): int {
    MonthStart(AddMonth(today, k))
  }

  function Upper(today: YearMonth, k: nat): int {
    MonthStart(AddMonth(AddMonth(today, k), 1))
  }

  lemma PartitionsTouch(today: YearMonth, k: nat)
    ensures Upper(today, k) == Lower(today, k + 1) && Lower(today, k) < Upper(today, k)
  {
    AddMonthIsAction(today, k, 1);
    NextMonthStart(AddMonth(today, k));
  }

  ghost predicate Rises(f: nat -> int, k: nat) {
    f(k) < f(k + 1)
  }

  ghost predicate Within(f: nat -> int, k: nat, x: int) {
    f(k) <= x < f(k + 1)
  }

  lemma {:induction false} RisingIsMonotone(f: nat -> int, j: nat, k: nat)
    requires (forall i: nat :: Rises(f, i)) && j <= k
    ensures f(j) <= f(k)
    decreases k
  {
    if j < k {
      RisingIsMonotone(f, j, k - 1);
      assert Rises(f, k - 1);
    }
  }

  // Half-open intervals between rising bounds tile the span.
  lemma {:induction false} RisingBoundsTile(f: nat -> int, n: nat, x: int)
    requires (forall i: nat :: Rises(f, i)) && f(0) <= x < f(n)
    ensures exists k: nat :: k < n && Within(f, k, x)
  {
    if x < f(n - 1) {
      RisingBoundsTile(f, n - 1, x);
    } else {
      assert Within(f, n - 1, x);
    }
  }

  lemma WithinOnlyOne(f: nat -> int, j: nat, k: nat, x: int)
    requires (forall i: nat :: Rises(f, i)) && Within(f, j, x) && Within(f, k, x)
    ensures j == k
  {
    if j < k { RisingIsMonotone(f, j + 1, k); }
    if k < j { RisingIsMonotone(f, k + 1, j); }
  }

  // The table for offset k holds the day.
  ghost predicate Covers(today: YearMonth, k: nat, day: int) {
    Lower(today, k) <= day < Upper(today, k)
  }

  lemma LowersRise(today: YearMonth, k: nat, day: int)
    ensures Rises((i: nat) => Lower(today, i), k)
    ensures Within((i: nat) => Lower(today, i), k, day) <==> Covers(today, k, day)
  {
    PartitionsTouch(today, k);
  }

  /** Every day from this month's first to the last ensured month's end lies in exactly one ensured partition. */
  lemma PartitionsTile(today: YearMonth, n: nat, day: int)
    requires Lower(today, 0) <= day < Lower(today, n)
    ensures exists k: nat :: k < n && Covers(today, k, day)
    ensures forall j: nat, k: nat :: Covers(today, j, day) && Covers(today, k, day) ==> j == k
  {
    var f := (i: nat) => Lower(today, i);
    forall k: nat ensures Rises(f, k) && (Within(f, k, day) <==> Covers(today, k, day)) {
      LowersRise(today, k, day);
    }
    RisingBoundsTile(f, n, day);
    forall j: nat, k: nat | Covers(today, j, day) && Covers(today, k, day) ensures j == k {
      WithinOnlyOne(f, j, k, day);
    }
  }

  ghost predicate IsDate(ym: YearMonth, d: int) {
    IsMonth(ym) && 1 <= d <= DaysInMonth(ym)
  }

  function DayOf(ym: YearMonth, d: int): int {
    MonthStart(ym) + d - 1
  }

  // Every day up to `ahead` days after a run on any date lies below the end of the n ensured months.
  ghost predicate CoversAhead(n: nat, ahead: int) {
    forall ym: YearMonth, d: int :: IsDate(ym, d) ==> DayOf(ym, d) + ahead < Lower(ym, n)
  }

  lemma ThreeMonths(ym: YearMonth)
    requires IsMonth(ym)
    ensures Lower(ym, 3)
         == MonthStart(ym) + DaysInMonth(ym) + DaysInMonth(AddMonth(ym, 1)) + DaysInMonth(AddMonth(ym, 2))
  {
    AddMonthIsAction(ym, 1, 1);
    AddMonthIsAction(ym, 2, 1);
    NextMonthStart(ym);
    NextMonthStart(AddMonth(ym, 1));
    NextMonthStart(AddMonth(ym, 2));
  }

  lemma AtLeastFiftyNine(ym: YearMonth, d: int)
    requires IsDate(ym, d)
    ensures DayOf(ym, d) + 59 < Lower(ym, 3)
  {
    ThreeMonths(ym);
    TwoMonthsAhead(ym);
  }

  lemma TwoMonthsAhead(ym: YearMonth)
    requires IsMonth(ym)
    ensures DaysInMonth(AddMonth(ym, 1)) + DaysInMonth(AddMonth(ym, 2)) >= 59
    ensures ym.1 == 12 && !IsLeap(ym.0 + 1) ==> DaysInMonth(AddMonth(ym, 1)) + DaysInMonth(AddMonth(ym, 2)) == 59
  {
    AddMonthIsAction(ym, 1, 1);
  }

  lemma NextTwoMonths(ym: YearMonth)
    requires IsMonth(ym)
    ensures MonthStart(AddMonth(ym, 3)) >= MonthStart(AddMonth(ym, 1)) + 59
    ensures ym.1 == 12 && !IsLeap(ym.0 + 1) ==> MonthStart(AddMonth(ym, 3)) == MonthStart(AddMonth(ym, 1)) + 59
  {
    NextMonthStart(ym);
    ThreeMonths(ym);
    TwoMonthsAhead(ym);
    assert Lower(ym, 3) == MonthStart(AddMonth(ym, 3));
  }

  lemma DecemberIsTight(ym: YearMonth)
    requires ym.1 == 12 && !IsLeap(ym.0 + 1)
    ensures Lower(ym, 3) == DayOf(ym, 31) + 60
  {
    ThreeMonths(ym);
    TwoMonthsAhead(ym);
  }

  /** With the default three months, a run covers exactly the next 59 days whatever its date. */
  lemma CoverageIsFiftyNineDays(ahead: int)
    ensures CoversAhead(3, ahead) <==> ahead <= 59
  {
    if ahead <= 59 {
      forall ym: YearMonth, d: int | IsDate(ym, d) ensures DayOf(ym, d) + ahead < Lower(ym, 3) {
        AtLeastFiftyNine(ym, d);
      }
    } else {
      var ym: YearMonth := (2025, 12);
      DecemberIsTight(ym);
      assert IsDate(ym, 31);
    }
  }

  // ---------- partition names ----------

  const PREFIX := "analytics_events_"

  predicate IsDigit(c: char) {
    '0' <= c <= '9'
  }

  function Digit(n: int): (c: char)
    requires 0 <= n <= 9
    ensures IsDigit(c) && c as int - '0' as int == n
  {
    '0' + n as char
  }

  function IntOf(s: string): int {
    if s == [] then 0 else IntOf(s[..|s| - 1]) * 10 + (s[|s| - 1] as int - '0' as int)
  }

  // f"analytics_events_{year:04d}{month:02d}" for a four-digit year.
  function Name(ym: YearMonth): string
    requires 0 <= ym.0 <= 9999 && IsMonth(ym)
  {
    var (y, m) := ym;
    PREFIX + [Digit(y / 1000), Digit(y / 100 % 10), Digit(y / 10 % 10), Digit(y % 10), Digit(m / 10), Digit(m % 10)]
  }

  // removeprefix, then six digits read as year and month; anything else is skipped.
  function ParseName(name: string): Option<YearMonth> {
    var suffix := if PREFIX <= name then name[|PREFIX|..] else name;
    if |suffix| != 6 || exists i | 0 <= i < 6 :: !IsDigit(suffix[i]) then None
    else Some((IntOf(suffix[..4]), IntOf(suffix[4..])))
  }

  lemma IntOfAppend(s: string, c: char)
    ensures IntOf(s + [c]) == IntOf(s) * 10 + (c as int - '0' as int)
  {
    assert (s + [c])[..|s|] == s;
  }

  lemma FourDigits(y: int)
    requires 0 <= y <= 9999
    ensures ((y / 1000 * 10 + y / 100 % 10) * 10 + y / 10 % 10) * 10 + y % 10 == y
  {
    TenTimesTen(y);
    assert y / 1000 * 10 + y / 100 % 10 == y / 100;
    assert y / 100 * 10 + y / 10 % 10 == y / 10;
  }

  lemma TenTimesTen(y: int)
    requires y >= 0
    ensures y / 100 == y / 10 / 10 && y / 1000 == y / 100 / 10
  {
  }

  lemma IntOfFour(a: char, b: char, c: char, d: char)
    ensures IntOf([a, b, c, d])
         == (((a as int - 48) * 10 + (b as int - 48)) * 10 + (c as int - 48)) * 10 + (d as int - 48)
  {
    assert [a] == [] + [a] && [a, b] == [a] + [b] && [a, b, c] == [a, b] + [c] && [a, b, c, d] == [a, b, c] + [d];
    IntOfAppend([], a);
    IntOfAppend([a], b);
    IntOfAppend([a, b], c);
    IntOfAppend([a, b, c], d);
  }

  lemma IntOfTwo(a: char, b: char)
    ensures IntOf([a, b]) == (a as int - 48) * 10 + (b as int - 48)
  {
    assert [a] == [] + [a] && [a, b] == [a] + [b];
    IntOfAppend([], a);
    IntOfAppend([a], b);
  }

  /** A generated name parses back to its month. */
  lemma NameRoundTrip(ym: YearMonth)
    requires 0 <= ym.0 <= 9999 && IsMonth(ym)
    ensures ParseName(Name(ym)) == Some(ym)
  {
    var (y, m) := ym;
    var a, b, c, d := Digit(y / 1000), Digit(y / 100 % 10), Digit(y / 10 % 10), Digit(y % 10);
    var e, f := Digit(m / 10), Digit(m % 10);
    var suffix := [a, b, c, d, e, f];
    assert Name(ym) == PREFIX + suffix && Name(ym)[|PREFIX|..] == suffix;
    assert suffix[..4] == [a, b, c, d] && suffix[4..] == [e, f];
    IntOfFour(a, b, c, d);
    IntOfTwo(e, f);
    FourDigits(y);
  }

  /** Distinct months have distinct tables. */
  lemma NamesAreDistinct(p: YearMonth, q: YearMonth)
    requires 0 <= p.0 <= 9999 && IsMonth(p) && 0 <= q.0 <= 9999 && IsMonth(q) && Name(p) == Name(q)
    ensures p == q
  {
    NameRoundTrip(p);
    NameRoundTrip(q);
  }
}
