/**
  The substitutions of module Scrub read declaratively: a value splits, left to right, into
  stretches without a match and matches, and the result is those stretches with the marker in
  place of every match. A match is described by its characters alone.
 */
module ScrubReading {
  import opened Common
  import opened Scrub

  // ---------- the patterns, on the characters ----------

  ghost predicate AllDigits(k: Classes, s: string, i: int, j: int) {
    0 <= i <= j <= |s| && forall x | i <= x < j :: k.digit(s[x])
  }

  // s[i..j] is 1, then 3 to 9, then nine digits, with no digit on either side.
  ghost predicate IsPhone(k: Classes, s: string, i: nat, j: nat) {
    && j == i + 11 && j <= |s| && s[i] == '1' && '3' <= s[i + 1] <= '9' && AllDigits(k, s, i + 2, j)
    && (i > 0 ==> !k.digit(s[i - 1])) && (j < |s| ==> !k.digit(s[j]))
  }

  ghost predicate IsAddress(k: Classes, s: string, i: nat, j: nat) {
    exists at: nat, dot: nat :: IsEmail(k, s, i, at, dot, j)
  }

  // s[i..j] is an address, and no longer one starts there.
  ghost predicate IsWholeAddress(k: Classes, s: string, i: nat, j: nat) {
    IsAddress(k, s, i, j) && forall b: nat :: IsAddress(k, s, i, b) ==> b <= j
  }

  // s[i..j] is nine or more digits, with no digit after them.
  ghost predicate IsNumber(k: Classes, s: string, i: nat, j: nat) {
    i + 9 <= j && AllDigits(k, s, i, j) && (j < |s| ==> !k.digit(s[j]))
  }

  ghost predicate IsMatch(k: Classes, p: Pattern, s: string, i: nat, j: nat) {
    match p
    case Phone => IsPhone(k, s, i, j)
    case Email => IsWholeAddress(k, s, i, j)
    case LongDigits => IsNumber(k, s, i, j)
  }

  lemma DigitsAreWithin(k: Classes, s: string, i: int, j: int)
    ensures AllDigits(k, s, i, j) <==> Within(k, DIGIT, s, i, j)
  {
    if Within(k, DIGIT, s, i, j) {
      forall x | i <= x < j ensures k.digit(s[x]) { assert In(k, DIGIT, s[x]); }
    }
  }

  lemma PhoneEndIs(k: Classes, s: string, i: nat, j: nat)
    requires i < |s|
    ensures j > 0 && PhoneEnd(k, s, i) == j <==> IsPhone(k, s, i, j)
  {
    if i + 11 <= |s| {
      DigitsAreWithin(k, s, i + 2, i + 11);
      DigitsAreWithin(k, s, i + 2, RunEnd(k, DIGIT, s, i + 2));
      if AllDigits(k, s, i + 2, i + 11) { RunEndIsLongest(k, DIGIT, s, i + 2, i + 11); }
    }
  }

  lemma NumberEndIs(k: Classes, s: string, i: nat, j: nat)
    requires i < |s|
    ensures j > 0 && LongEnd(k, s, i) == j <==> IsNumber(k, s, i, j)
  {
    var end := RunEnd(k, DIGIT, s, i);
    DigitsAreWithin(k, s, i, end);
    DigitsAreWithin(k, s, i, j);
    if IsNumber(k, s, i, j) { RunEndIsLongest(k, DIGIT, s, i, j); }
  }

  lemma AddressEndIs(k: Classes, s: string, i: nat, j: nat)
    requires Sane(k) && i < |s|
    ensures j > 0 && EmailEnd(k, s, i) == j <==> IsWholeAddress(k, s, i, j)
  {
    var end := EmailEnd(k, s, i);
    if end != 0 {
      var at := RunEnd(k, LOCAL, s, i);
      var dot := RunEnd(k, HOST, s, at + 1);
      assert IsEmail(k, s, i, at, dot, end);
      assert IsAddress(k, s, i, end);
    }
    forall b: nat | IsAddress(k, s, i, b) ensures b <= end {
      var at: nat, dot: nat :| IsEmail(k, s, i, at, dot, b);
      EmailEndIsLongest(k, s, i, at, dot, b);
    }
  }

  /** The matcher finds exactly the matches of the patterns. */
  lemma MatchEndIs(k: Classes, p: Pattern, s: string, i: nat, j: nat)
    requires Sane(k) && i < |s|
    ensures j > 0 && MatchEnd(k, p, s, i) == j <==> IsMatch(k, p, s, i, j)
  {
    match p
    case Phone => PhoneEndIs(k, s, i, j);
    case Email => AddressEndIs(k, s, i, j);
    case LongDigits => NumberEndIs(k, s, i, j);
  }

  lemma MatchIsInside(k: Classes, p: Pattern, s: string, i: nat, j: nat)
    requires IsMatch(k, p, s, i, j)
    ensures i < j <= |s|
  {
  }

  // ---------- substitution ----------

  type Span = (nat, nat)

  // From i on, ms are the matches met left to right, and between them no match starts.
  ghost predicate IsScan(k: Classes, p: Pattern, s: string, i: nat, ms: seq<Span>)
    decreases |ms|
  {
    if ms == [] then i <= |s| && NoneStarts(k, p, s, i, |s|)
    else
      var (a, b) := ms[0];
      i <= a && IsMatch(k, p, s, a, b) && NoneStarts(k, p, s, i, a) && IsScan(k, p, s, b, ms[1..])
  }

  ghost predicate NoneStarts(k: Classes, p: Pattern, s: string, i: int, j: int) {
    forall x: nat, y: nat | i <= x < j :: !IsMatch(k, p, s, x, y)
  }

  // s from i on, with the marker in place of each span.
  ghost function Replaced(s: string, i: nat, ms: seq<Span>, marker: string): string
    decreases |ms|
  {
    if ms == [] then (if i <= |s| then s[i..] else "")
    else
      var (a, b) := ms[0];
      (if i <= a <= |s| then s[i..a] else "") + marker + Replaced(s, b, ms[1..], marker)
  }

  // out is s with every match replaced, left to right.
  ghost predicate IsSubstitution(k: Classes, p: Pattern, marker: string, s: string, out: string) {
    exists ms :: IsScan(k, p, s, 0, ms) && out == Replaced(s, 0, ms, marker)
  }

  lemma SubUnmatched(k: Classes, p: Pattern, s: string, i: nat)
    requires i < |s| && MatchEnd(k, p, s, i) == 0
    ensures Sub(k, p, s, i) == [s[i]] + Sub(k, p, s, i + 1)
  {
  }

  lemma SubMatched(k: Classes, p: Pattern, s: string, i: nat, j: nat)
    requires i < |s| && j > 0 && MatchEnd(k, p, s, i) == j
    ensures Sub(k, p, s, i) == Marker(p) + Sub(k, p, s, j)
  {
  }

  lemma OneMoreCopied(s: string, i: nat, j: nat, tail: string)
    requires i < j <= |s|
    ensures [s[i]] + (s[i + 1..j] + tail) == s[i..j] + tail
  {
    assert s[i..j] == [s[i]] + s[i + 1..j];
  }

  // Up to an unmatched stretch's end, the output copies the input.
  lemma {:induction false} SubCopies(k: Classes, p: Pattern, s: string, i: nat, j: nat, tail: string)
    requires Sane(k) && i <= j <= |s| && NoneStarts(k, p, s, i, j) && tail == Sub(k, p, s, j)
    ensures Sub(k, p, s, i) == s[i..j] + tail
    decreases j - i
  {
    if i == j {
      assert s[i..j] + tail == tail;
    } else {
      UnmatchedAt(k, p, s, i);
      SubUnmatched(k, p, s, i);
      SubCopies(k, p, s, i + 1, j, tail);
      OneMoreCopied(s, i, j, tail);
    }
  }

  lemma UnmatchedAt(k: Classes, p: Pattern, s: string, i: nat)
    requires Sane(k) && i < |s| && forall y: nat :: !IsMatch(k, p, s, i, y)
    ensures MatchEnd(k, p, s, i) == 0
  {
    MatchEndIs(k, p, s, i, MatchEnd(k, p, s, i));
  }

  lemma SubToNextMatch(k: Classes, p: Pattern, s: string, i: nat, a: nat, b: nat, tail: string)
    requires Sane(k) && i <= a < b <= |s| && NoneStarts(k, p, s, i, a) && IsMatch(k, p, s, a, b)
    requires tail == Sub(k, p, s, b)
    ensures Sub(k, p, s, i) == s[i..a] + Marker(p) + tail
  {
    MatchEndIs(k, p, s, a, b);
    SubMatched(k, p, s, a, b);
    SubCopies(k, p, s, i, a, Marker(p) + tail);
    assert s[i..a] + (Marker(p) + tail) == s[i..a] + Marker(p) + tail;
  }

  lemma {:induction false} ScanGivesSub(k: Classes, p: Pattern, s: string, i: nat, ms: seq<Span>)
    requires Sane(k) && i <= |s| && IsScan(k, p, s, i, ms)
    ensures Sub(k, p, s, i) == Replaced(s, i, ms, Marker(p))
    decreases |ms|
  {
    if ms == [] {
      SubCopies(k, p, s, i, |s|, "");
    } else {
      var (a, b) := ms[0];
      MatchIsInside(k, p, s, a, b);
      ScanGivesSub(k, p, s, b, ms[1..]);
      SubToNextMatch(k, p, s, i, a, b, Replaced(s, b, ms[1..], Marker(p)));
    }
  }

  lemma {:induction false} FindScan(k: Classes, p: Pattern, s: string, i: nat, from: nat) returns (ms: seq<Span>)
    requires Sane(k) && i <= from <= |s| && NoneStarts(k, p, s, i, from)
    ensures IsScan(k, p, s, i, ms)
    decreases |s| - from
  {
    if from == |s| {
      ms := [];
    } else {
      var j := MatchEnd(k, p, s, from);
      forall y: nat ensures IsMatch(k, p, s, from, y) <==> y > 0 && y == j { MatchEndIs(k, p, s, from, y); }
      if j == 0 {
        ms := FindScan(k, p, s, i, from + 1);
      } else {
        var rest := FindScan(k, p, s, j, j);
        ms := [(from, j)] + rest;
        assert ms[1..] == rest;
      }
    }
  }

  /** A pass gives exactly the value with every match replaced by the marker and everything else kept as it is. */
  lemma SubIsSubstitution(k: Classes, p: Pattern, s: string, out: string)
    requires Sane(k)
    ensures out == Sub(k, p, s, 0) <==> IsSubstitution(k, p, Marker(p), s, out)
  {
    var found := FindScan(k, p, s, 0, 0);
    ScanGivesSub(k, p, s, 0, found);
    forall ms | IsScan(k, p, s, 0, ms) ensures Sub(k, p, s, 0) == Replaced(s, 0, ms, Marker(p)) {
      ScanGivesSub(k, p, s, 0, ms);
    }
  }

  // Phone numbers first, then addresses, then long numbers.
  ghost predicate IsScrubbed(k: Classes, value: string, noPhones: string, noAddresses: string, out: string) {
    && IsSubstitution(k, Phone, "[phone]", value, noPhones)
    && IsSubstitution(k, Email, "[email]", noPhones, noAddresses)
    && IsSubstitution(k, LongDigits, "[num]", noAddresses, out)
  }

  /** Scrubbing is exactly the three substitutions, in this order, with these markers. */
  lemma ScrubIsThreeSubstitutions(k: Classes, value: string, out: string)
    requires Sane(k)
    ensures out == ScrubValue(k, value) <==> exists v1, v2 :: IsScrubbed(k, value, v1, v2, out)
  {
    var w1 := Sub(k, Phone, value, 0);
    var w2 := Sub(k, Email, w1, 0);
    SubIsSubstitution(k, Phone, value, w1);
    SubIsSubstitution(k, Email, w1, w2);
    SubIsSubstitution(k, LongDigits, w2, out);
    if out == ScrubValue(k, value) {
      assert IsScrubbed(k, value, w1, w2, out);
    }
    forall v1, v2 | IsScrubbed(k, value, v1, v2, out) ensures v1 == w1 && v2 == w2 {
      SubIsSubstitution(k, Phone, value, v1);
      SubIsSubstitution(k, Email, w1, v2);
    }
  }

  // ---------- one phone number in clean text ----------

  ghost predicate IsClean(k: Classes, s: string) {
    !HasEmail(k, s) && !HasLongRun(k, s)
  }

  // pre and suf are clean, num has the shape of a phone number, and no digit touches it.
  ghost predicate IsIsolated(k: Classes, pre: string, num: string, suf: string) {
    && IsClean(k, pre) && IsClean(k, suf) && IsPhone(k, num, 0, 11) && |num| == 11
    && (pre != "" ==> !k.digit(pre[|pre| - 1])) && (suf != "" ==> !k.digit(suf[0]))
  }

  lemma PhoneStandsThere(k: Classes, pre: string, num: string, suf: string)
    requires Sane(k) && IsIsolated(k, pre, num, suf)
    ensures IsPhone(k, pre + num + suf, |pre|, |pre| + 11)
  {
    var s := pre + num + suf;
    forall x | |pre| + 2 <= x < |pre| + 11 ensures k.digit(s[x]) { assert s[x] == num[x - |pre|]; }
    assert s[|pre|] == num[0] && s[|pre| + 1] == num[1];
  }

  // Digits that start before a stretch's end and do not cross a non-digit lie inside it.
  lemma RunInside(k: Classes, s: string, part: string, from: nat, x: nat)
    requires from + |part| <= |s| && s[from..from + |part|] == part && AllDigits(k, s, x, x + 9)
    requires from <= x && x + 9 <= from + |part|
    ensures HasLongRun(k, part)
  {
    forall y | x - from <= y < x - from + 9 ensures In(k, DIGIT, part[y]) {
      assert part[y] == s[y + from];
    }
    assert IsLongRun(k, part, x - from);
  }

  lemma NoPhoneBefore(k: Classes, pre: string, num: string, suf: string)
    requires Sane(k) && IsIsolated(k, pre, num, suf)
    ensures NoneStarts(k, Phone, pre + num + suf, 0, |pre|)
  {
    var s := pre + num + suf;
    BeforeSlice(pre, num, suf, 0, |pre|);
    forall x: nat, y: nat | 0 <= x < |pre| ensures !IsPhone(k, s, x, y) {
      if IsPhone(k, s, x, y) {
        assert s[|pre| - 1] == pre[|pre| - 1];
        assert y <= |pre| by {
          assert forall z | x + 2 <= z < y :: k.digit(s[z]);
          assert k.digit(s[x]) && k.digit(s[x + 1]);
        }
        RunInside(k, s, pre, 0, x + 2);
      }
    }
  }

  lemma NoPhoneAfter(k: Classes, pre: string, num: string, suf: string)
    requires Sane(k) && IsIsolated(k, pre, num, suf)
    ensures var s := pre + num + suf; NoneStarts(k, Phone, s, |pre| + 11, |s|)
  {
    var s := pre + num + suf;
    AfterSlice(pre + num, suf, |pre| + 11, |pre| + 11 + |suf|);
    forall x: nat, y: nat | |pre| + 11 <= x < |s| ensures !IsPhone(k, s, x, y) {
      if IsPhone(k, s, x, y) {
        RunInside(k, s, suf, |pre| + 11, x + 2);
      }
    }
  }

  const MARK := "[phone]"

  // Around the marker nothing new is revealed.
  lemma MarkedIsClean(k: Classes, pre: string, suf: string)
    requires Sane(k) && IsClean(k, pre) && IsClean(k, suf)
    ensures IsClean(k, pre + MARK + suf)
  {
    var s := pre + MARK + suf;
    forall a: nat ensures !IsLongRun(k, s, a) { NoRunAround(k, pre, suf, a); }
    forall a: nat, at: nat, dot: nat, b: nat ensures !IsEmail(k, s, a, at, dot, b) {
      NoAddressAround(k, pre, suf, a, at, dot, b);
    }
  }

  // A stretch without brackets lies before, inside or after the marker.
  lemma AroundMark(pre: string, suf: string, a: nat, n: nat)
    requires NoBracket(pre + MARK + suf, a, n) && n > 0
    ensures a + n <= |pre| || (|pre| < a && a + n <= |pre| + 6) || |pre| + 7 <= a
  {
    var s := pre + MARK + suf;
    assert s[|pre|] == '[' && s[|pre| + 6] == ']';
  }

  lemma NoRunAround(k: Classes, pre: string, suf: string, a: nat)
    requires Sane(k) && IsClean(k, pre) && IsClean(k, suf)
    ensures !IsLongRun(k, pre + MARK + suf, a)
  {
    var s := pre + MARK + suf;
    if IsLongRun(k, s, a) {
      forall x | a <= x < a + 9 ensures k.digit(s[x]) && s[x] != '[' && s[x] != ']' { assert In(k, DIGIT, s[x]); }
      AroundMark(pre, suf, a, 9);
      if a + 9 <= |pre| {
        BeforeSlice(pre, MARK, suf, 0, |pre|);
        RunInside(k, s, pre, 0, a);
      } else {
        AfterSlice(pre + MARK, suf, |pre| + 7, |pre| + 7 + |suf|);
        RunInside(k, s, suf, |pre| + 7, a);
      }
    }
  }

  lemma BeforeSlice(pre: string, mid: string, suf: string, a: nat, b: nat)
    requires a <= b <= |pre|
    ensures (pre + mid + suf)[a..b] == pre[a..b]
  {
    forall x | a <= x < b ensures (pre + mid + suf)[x] == pre[x] { assert (pre + mid)[x] == pre[x]; }
  }

  lemma AfterSlice(head: string, suf: string, a: nat, b: nat)
    requires |head| <= a <= b <= |head| + |suf|
    ensures (head + suf)[a..b] == suf[a - |head|..b - |head|]
  {
    forall x | a <= x < b ensures (head + suf)[x] == suf[x - |head|] {}
  }

  lemma NoAddressAround(k: Classes, pre: string, suf: string, a: nat, at: nat, dot: nat, b: nat)
    requires Sane(k) && IsClean(k, pre) && IsClean(k, suf)
    ensures !IsEmail(k, pre + MARK + suf, a, at, dot, b)
  {
    var s := pre + MARK + suf;
    if IsEmail(k, s, a, at, dot, b) {
      EmailHasNoBracket(k, s, a, at, dot, b);
      AroundMark(pre, suf, a, b - a);
      if |pre| < at < |pre| + 7 { MarkHasNoAt(pre, suf, at); }
      if b <= |pre| {
        BeforeSlice(pre, MARK, suf, a, b);
        var at1, dot1, b1 := CopiedEmail(k, pre, a, s, a, at, dot, b);
      } else if |pre| + 7 <= a {
        AfterSlice(pre + MARK, suf, a, b);
        var at1, dot1, b1 := CopiedEmail(k, suf, a - |pre| - 7, s, a, at, dot, b);
      }
    }
  }

  lemma MarkHasNoAt(pre: string, suf: string, x: nat)
    requires |pre| < x < |pre| + 7
    ensures (pre + MARK + suf)[x] != '@'
  {
    assert (pre + MARK + suf)[x] == MARK[x - |pre|];
  }

  /** A phone number standing by itself in clean text becomes the phone marker, and the text stays as it is. */
  lemma IsolatedPhoneIsMarked(k: Classes, pre: string, num: string, suf: string)
    requires Sane(k) && IsIsolated(k, pre, num, suf)
    ensures ScrubValue(k, pre + num + suf) == pre + "[phone]" + suf
  {
    PhonePassMarks(k, pre, num, suf);
    MarkedIsClean(k, pre, suf);
    CleanPassesThrough(k, Email, pre + MARK + suf);
    CleanPassesThrough(k, LongDigits, pre + MARK + suf);
  }

  lemma PhonePassMarks(k: Classes, pre: string, num: string, suf: string)
    requires Sane(k) && IsIsolated(k, pre, num, suf)
    ensures Sub(k, Phone, pre + num + suf, 0) == pre + MARK + suf
  {
    var s, m, n := pre + num + suf, |pre|, |pre| + 11;
    PhoneStandsThere(k, pre, num, suf);
    NoPhoneAfter(k, pre, num, suf);
    SubCopies(k, Phone, s, n, |s|, "");
    assert s[n..|s|] + "" == suf;
    NoPhoneBefore(k, pre, num, suf);
    SubToNextMatch(k, Phone, s, 0, m, n, suf);
    assert s[0..m] == pre;
  }

  lemma CleanPassesThrough(k: Classes, p: Pattern, s: string)
    requires Sane(k) && IsClean(k, s)
    ensures Sub(k, p, s, 0) == s
  {
    forall x | 0 <= x < |s| ensures MatchEnd(k, p, s, x) == 0 { CleanHasNoMatch(k, p, s, x); }
    NoMatchNoChange(k, p, s, 0);
  }
}
