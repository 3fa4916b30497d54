/**
  Scrubbing of analytics property values: three regular-expression substitutions (phone
  numbers, email addresses, long digit runs) applied one after the other, and the filter that
  keeps at most 24 properties. The character classes \d and \w are parameters, so the
  results hold for any Unicode table that puts the ASCII characters where they belong.
 */
module Scrub {
  import opened Common

  datatype Classes = Classes(digit: char -> bool, word: char -> bool)

  ghost predicate Sane(k: Classes) {
    && (forall c :: k.digit(c) ==> k.word(c))
    && (forall c | '0' <= c <= '9' :: k.digit(c))
    && (forall c | 'a' <= c <= 'z' :: !k.digit(c))
    && !k.word('[') && !k.word(']') && !k.word('@') && !k.word('.')
  }

  datatype Pattern = Phone | Email | LongDigits

  function Marker(p: Pattern): string {
    match p
    case Phone => "[phone]"
    case Email => "[email]"
    case LongDigits => "[num]"
  }

  datatype Class = DIGIT | LOCAL | HOST | TAIL

  // \d, [\w.+-], [\w-] and [\w.-]
  predicate In(k: Classes, cls: Class, c: char) {
    match cls
    case DIGIT => k.digit(c)
    case LOCAL => k.word(c) || c == '.' || c == '+' || c == '-'
    case HOST => k.word(c) || c == '-'
    case TAIL => k.word(c) || c == '.' || c == '-'
  }

  // s[i..j] lies in the class.
  ghost predicate Within(k: Classes, cls: Class, s: string, i: int, j: int) {
    0 <= i <= j <= |s| && forall x | i <= x < j :: In(k, cls, s[x])
  }

  // ---------- matching ----------

  // The end of the longest stretch of characters of a class starting at i.
  function RunEnd(k: Classes, cls: Class, s: string, i: nat): (j: nat)
    requires i <= |s|
    ensures i <= j && Within(k, cls, s, i, j)
    ensures j < |s| ==> !In(k, cls, s[j])
    decreases |s| - i
  {
    if i < |s| && In(k, cls, s[i]) then RunEnd(k, cls, s, i + 1) else i
  }

  // (?<!\d)1[3-9]\d{9}(?!\d)
  function PhoneEnd(k: Classes, s: string, i: nat): nat
    requires i < |s|
  {
    if (i > 0 && k.digit(s[i - 1])) || i + 11 > |s| || s[i] != '1' || !('3' <= s[i + 1] <= '9') then 0
    else if RunEnd(k, DIGIT, s, i + 2) == i + 11 then i + 11
    else 0
  }

  // [\w.+-]+@[\w-]+\.[\w.-]+
  function EmailEnd(k: Classes, s: string, i: nat): nat
    requires i < |s|
  {
    var at := RunEnd(k, LOCAL, s, i);
    if at == i || at == |s| || s[at] != '@' then 0
    else
      var dot := RunEnd(k, HOST, s, at + 1);
      if dot == at + 1 || dot == |s| || s[dot] != '.' then 0
      else
        var end := RunEnd(k, TAIL, s, dot + 1);
        if end == dot + 1 then 0 else end
  }

  // \d{9,}
  function LongEnd(k: Classes, s: string, i: nat): nat
    requires i < |s|
  {
    var j := RunEnd(k, DIGIT, s, i);
    if j - i >= 9 then j else 0
  }

  // Where the match starting at i ends; 0 when there is none.
  function MatchEnd(k: Classes, p: Pattern, s: string, i: nat): (j: nat)
    requires i < |s|
    ensures j == 0 || i < j <= |s|
  {
    match p
    case Phone => PhoneEnd(k, s, i)
    case Email => EmailEnd(k, s, i)
    case LongDigits => LongEnd(k, s, i)
  }

  // Leftmost matches, left to right, without overlap.
  function Sub(k: Classes, p: Pattern, s: string, i: nat): string
    requires i <= |s|
    decreases |s| - i
  {
    if i == |s| then ""
    else
      var j := MatchEnd(k, p, s, i);
      if j == 0 then [s[i]] + Sub(k, p, s, i + 1) else Marker(p) + Sub(k, p, s, j)
  }

  function ScrubValue(k: Classes, value: string): string {
    Sub(k, LongDigits, Sub(k, Email, Sub(k, Phone, value, 0), 0), 0)
  }

  const MAX_STR := 120

  function Cut(s: string): string {
    if |s| <= MAX_STR then s else s[..MAX_STR]
  }

  // ---------- what the matchers recognise ----------

  // s[a..b] is an address: a local part, an at sign, a host, a dot and a tail, none of them empty.
  ghost predicate IsEmail(k: Classes, s: string, a: nat, at: nat, dot: nat, b: nat) {
    && a < at && at + 1 < dot && dot + 1 < b <= |s| && s[at] == '@' && s[dot] == '.'
    && Within(k, LOCAL, s, a, at) && Within(k, HOST, s, at + 1, dot) && Within(k, TAIL, s, dot + 1, b)
  }

  ghost predicate HasEmail(k: Classes, s: string) {
    exists a: nat, at: nat, dot: nat, b: nat :: IsEmail(k, s, a, at, dot, b)
  }

  ghost predicate IsLongRun(k: Classes, s: string, a: nat) {
    Within(k, DIGIT, s, a, a + 9)
  }

  ghost predicate HasLongRun(k: Classes, s: string) {
    exists a: nat :: IsLongRun(k, s, a)
  }

  lemma {:induction false} RunEndIsLongest(k: Classes, cls: Class, s: string, i: nat, j: nat)
    requires i <= j && Within(k, cls, s, i, j)
    ensures j <= RunEnd(k, cls, s, i)
    ensures j < |s| && !In(k, cls, s[j]) ==> RunEnd(k, cls, s, i) == j
    decreases |s| - i
  {
    if i < j {
      RunEndIsLongest(k, cls, s, i + 1, j);
    }
  }

  // Whatever the matcher returns is an address.
  lemma EmailEndIsEmail(k: Classes, s: string, i: nat)
    requires i < |s| && EmailEnd(k, s, i) != 0
    ensures HasEmail(k, s)
  {
    var at := RunEnd(k, LOCAL, s, i);
    var dot := RunEnd(k, HOST, s, at + 1);
    assert IsEmail(k, s, i, at, dot, EmailEnd(k, s, i));
  }

  // The matcher misses no address and always takes the longest one.
  lemma EmailEndIsLongest(k: Classes, s: string, a: nat, at: nat, dot: nat, b: nat)
    requires Sane(k) && IsEmail(k, s, a, at, dot, b)
    ensures b <= EmailEnd(k, s, a)
  {
    RunEndIsLongest(k, LOCAL, s, a, at);
    RunEndIsLongest(k, HOST, s, at + 1, dot);
    RunEndIsLongest(k, TAIL, s, dot + 1, b);
  }

  // ---------- what substitution does to stretches without brackets ----------

  ghost predicate NoBracket(s: string, a: nat, n: nat) {
    a + n <= |s| && forall x | a <= x < a + n :: s[x] != '[' && s[x] != ']'
  }

  ghost predicate SameStretch(s: string, b: nat, out: string, a: nat, n: nat) {
    b + n <= |s| && a + n <= |out| && out[a..a + n] == s[b..b + n]
  }

  // An output that does not start with a bracket starts with an unmatched character.
  lemma StartsUnmatched(k: Classes, p: Pattern, s: string, i: nat)
    requires i <= |s| && Sub(k, p, s, i) != "" && Sub(k, p, s, i)[0] != '['
    ensures i < |s| && MatchEnd(k, p, s, i) == 0
    ensures Sub(k, p, s, i) == [s[i]] + Sub(k, p, s, i + 1)
  {
    MarkerShape(p);
  }

  // Up to the first opening bracket, the output copies the input, and it starts at an unmatched place.
  lemma {:induction false} CopiesPrefix(k: Classes, p: Pattern, s: string, i: nat, n: nat, out: string)
    requires i <= |s| && out == Sub(k, p, s, i) && NoBracket(out, 0, n)
    ensures SameStretch(s, i, out, 0, n)
    ensures n > 0 ==> i < |s| && MatchEnd(k, p, s, i) == 0
    decreases n
  {
    if n == 0 {
      EmptyStretch(s, i, out);
    } else {
      StartsUnmatched(k, p, s, i);
      var rest := Sub(k, p, s, i + 1);
      TailNoBracket(out, s[i], rest, n);
      CopiesPrefix(k, p, s, i + 1, n - 1, rest);
      PrependSameStretch(s, i, out, rest, n);
    }
  }

  lemma EmptyStretch(s: string, i: nat, out: string)
    requires i <= |s|
    ensures SameStretch(s, i, out, 0, 0)
  {
    assert out[0..0] == [] == s[i..i];
  }

  lemma TailNoBracket(out: string, c: char, rest: string, n: nat)
    requires n > 0 && out == [c] + rest && NoBracket(out, 0, n)
    ensures NoBracket(rest, 0, n - 1)
  {
    forall x | 0 <= x < n - 1 ensures rest[x] != '[' && rest[x] != ']' {
      assert rest[x] == out[x + 1];
    }
  }

  lemma PrependSameStretch(s: string, i: nat, out: string, rest: string, n: nat)
    requires n > 0 && i < |s| && out == [s[i]] + rest && SameStretch(s, i + 1, rest, 0, n - 1)
    ensures SameStretch(s, i, out, 0, n)
  {
    assert out[0..n] == [s[i]] + rest[0..n - 1];
    assert s[i..i + n] == [s[i]] + s[i + 1..i + n];
  }

  // A bracket-free stretch of the output, behind its first piece, with a character foreign to the marker.
  ghost predicate IsForeignStretch(p: Pattern, out: string, a: nat, n: nat, x: nat) {
    x < n && NoBracket(out, a, n) && out[a + x] !in Marker(p)
  }

  // The first piece of the output: an unmatched character or a marker. A foreign stretch that starts later lies
  // behind it.
  lemma Peel(k: Classes, p: Pattern, s: string, i: nat, a: nat, n: nat, x: nat) returns (head: string, next: nat)
    requires i <= |s| && a > 0 && IsForeignStretch(p, Sub(k, p, s, i), a, n, x)
    ensures i < next <= |s| && |head| <= a && Sub(k, p, s, i) == head + Sub(k, p, s, next)
    ensures IsForeignStretch(p, Sub(k, p, s, next), a - |head|, n, x)
  {
    var j := MatchEnd(k, p, s, i);
    if j == 0 {
      head, next := [s[i]], i + 1;
    } else {
      head, next := Marker(p), j;
      MarkerShape(p);
      StretchIsPastMarker(Sub(k, p, s, i), head, Sub(k, p, s, next), a, n, x);
    }
    ShiftForeign(p, Sub(k, p, s, i), head, Sub(k, p, s, next), a, n, x);
  }

  lemma ShiftForeign(p: Pattern, out: string, head: string, rest: string, a: nat, n: nat, x: nat)
    requires out == head + rest && |head| <= a && IsForeignStretch(p, out, a, n, x)
    ensures IsForeignStretch(p, rest, a - |head|, n, x)
  {
    ShiftNoBracket(out, head, rest, a, n);
    assert out[a + x] == rest[a - |head| + x];
  }

  // Such a stretch is an input stretch at an unmatched place.
  lemma {:induction false} StretchComesFromInput(k: Classes, p: Pattern, s: string, i: nat, a: nat, n: nat, x: nat)
      returns (b: nat)
    requires i <= |s| && IsForeignStretch(p, Sub(k, p, s, i), a, n, x)
    ensures SameStretch(s, b, Sub(k, p, s, i), a, n) && b < |s| && MatchEnd(k, p, s, b) == 0
    decreases |s| - i
  {
    if a == 0 {
      CopiesPrefix(k, p, s, i, n, Sub(k, p, s, i));
      b := i;
    } else {
      var head, next := Peel(k, p, s, i, a, n, x);
      b := StretchComesFromInput(k, p, s, next, a - |head|, n, x);
      ShiftSameStretch(s, b, Sub(k, p, s, i), head, Sub(k, p, s, next), a, n);
    }
  }

  lemma ShiftNoBracket(out: string, head: string, rest: string, a: nat, n: nat)
    requires out == head + rest && |head| <= a && NoBracket(out, a, n)
    ensures NoBracket(rest, a - |head|, n)
  {
    forall x | a - |head| <= x < a - |head| + n ensures rest[x] != '[' && rest[x] != ']' {
      assert rest[x] == out[x + |head|];
    }
  }

  lemma ShiftSameStretch(s: string, b: nat, out: string, head: string, rest: string, a: nat, n: nat)
    requires out == head + rest && |head| <= a && SameStretch(s, b, rest, a - |head|, n)
    ensures SameStretch(s, b, out, a, n)
  {
    assert out[a..a + n] == rest[a - |head|..a - |head| + n];
  }

  // A bracket-free stretch holding a character foreign to the leading marker starts after it.
  lemma StretchIsPastMarker(out: string, marker: string, rest: string, a: nat, n: nat, x: nat)
    requires out == marker + rest && |marker| > 0 && marker[|marker| - 1] == ']'
    requires x < n && NoBracket(out, a, n) && out[a + x] !in marker
    ensures |marker| <= a
  {
    assert out[|marker| - 1] == ']';
    forall y | 0 <= y < |marker| ensures out[y] == marker[y] && out[y] in marker {}
  }

  lemma MarkerShape(p: Pattern)
    ensures |Marker(p)| > 1 && Marker(p)[|Marker(p)| - 1] == ']'
    ensures '@' !in Marker(p)
  {
  }

  lemma EmailHasNoBracket(k: Classes, s: string, a: nat, at: nat, dot: nat, b: nat)
    requires Sane(k) && IsEmail(k, s, a, at, dot, b)
    ensures NoBracket(s, a, b - a)
  {
    forall x | a <= x < b ensures s[x] != '[' && s[x] != ']' {
      assert x < at ==> In(k, LOCAL, s[x]);
      assert at < x < dot ==> In(k, HOST, s[x]);
      assert dot < x ==> In(k, TAIL, s[x]);
    }
  }

  lemma CopiedChar(s: string, c: nat, out: string, a: nat, n: nat, x: nat)
    requires SameStretch(s, c, out, a, n) && x < n
    ensures out[a + x] == s[c + x]
  {
    assert out[a..a + n][x] == s[c..c + n][x];
  }

  lemma CopiedClass(k: Classes, cls: Class, s: string, c: nat, out: string, a: nat, n: nat, i: nat, j: nat)
    requires SameStretch(s, c, out, a, n) && a <= i <= j <= a + n && Within(k, cls, out, i, j)
    ensures Within(k, cls, s, c + (i - a), c + (j - a))
  {
    forall x | c + (i - a) <= x < c + (j - a) ensures In(k, cls, s[x]) {
      CopiedChar(s, c, out, a, n, x - c);
      assert In(k, cls, out[a + (x - c)]);
    }
  }

  lemma CopiedEmail(k: Classes, s: string, c: nat, out: string, a: nat, at: nat, dot: nat, b: nat)
      returns (at1: nat, dot1: nat, b1: nat)
    requires IsEmail(k, out, a, at, dot, b) && SameStretch(s, c, out, a, b - a)
    ensures IsEmail(k, s, c, at1, dot1, b1)
  {
    at1, dot1, b1 := c + (at - a), c + (dot - a), c + (b - a);
    CopiedChar(s, c, out, a, b - a, at - a);
    CopiedChar(s, c, out, a, b - a, dot - a);
    CopiedClass(k, LOCAL, s, c, out, a, b - a, a, at);
    CopiedClass(k, HOST, s, c, out, a, b - a, at + 1, dot);
    CopiedClass(k, TAIL, s, c, out, a, b - a, dot + 1, b);
  }

  lemma AddressIsForeign(k: Classes, p: Pattern, s: string, a: nat, at: nat, dot: nat, b: nat)
    requires Sane(k) && IsEmail(k, s, a, at, dot, b)
    ensures IsForeignStretch(p, s, a, b - a, at - a)
  {
    EmailHasNoBracket(k, s, a, at, dot, b);
    MarkerShape(p);
  }

  // An address in the output of a pass was an address of its input, at an unmatched place.
  lemma AddressComesFromInput(k: Classes, p: Pattern, s: string, out: string, a: nat, at: nat, dot: nat, b: nat)
      returns (c: nat, at1: nat, dot1: nat, b1: nat)
    requires Sane(k) && out == Sub(k, p, s, 0) && IsEmail(k, out, a, at, dot, b)
    ensures c < |s| && MatchEnd(k, p, s, c) == 0 && IsEmail(k, s, c, at1, dot1, b1)
  {
    AddressIsForeign(k, p, out, a, at, dot, b);
    c := StretchComesFromInput(k, p, s, 0, a, b - a, at - a);
    at1, dot1, b1 := CopiedEmail(k, s, c, out, a, at, dot, b);
  }

  lemma DigitsComeFromInput(k: Classes, s: string, a: nat) returns (c: nat)
    requires Sane(k) && Within(k, DIGIT, Sub(k, LongDigits, s, 0), a, a + 9)
    ensures Within(k, DIGIT, s, c, c + 9) && c < |s| && LongEnd(k, s, c) == 0
  {
    var out := Sub(k, LongDigits, s, 0);
    forall x | a <= x < a + 9 ensures out[x] != '[' && out[x] != ']' && out[x] !in Marker(LongDigits) {
      assert In(k, DIGIT, out[x]);
    }
    c := StretchComesFromInput(k, LongDigits, s, 0, a, 9, 0);
    CopiedClass(k, DIGIT, s, c, out, a, 9, a, a + 9);
    assert MatchEnd(k, LongDigits, s, c) == LongEnd(k, s, c);
  }

  // ---------- the two goals, pass by pass ----------

  lemma NoAddressLeft(k: Classes, s: string, out: string, a: nat, at: nat, dot: nat, b: nat)
    requires Sane(k) && out == Sub(k, Email, s, 0)
    ensures !IsEmail(k, out, a, at, dot, b)
  {
    if IsEmail(k, out, a, at, dot, b) {
      var c, at1, dot1, b1 := AddressComesFromInput(k, Email, s, out, a, at, dot, b);
      UnmatchedIsNoAddress(k, s, c, at1, dot1, b1);
    }
  }

  lemma UnmatchedIsNoAddress(k: Classes, s: string, a: nat, at: nat, dot: nat, b: nat)
    requires Sane(k) && a < |s| && MatchEnd(k, Email, s, a) == 0
    ensures !IsEmail(k, s, a, at, dot, b)
  {
    if IsEmail(k, s, a, at, dot, b) {
      EmailEndIsLongest(k, s, a, at, dot, b);
    }
  }

  lemma EmailPassRemovesAddresses(k: Classes, s: string)
    requires Sane(k)
    ensures !HasEmail(k, Sub(k, Email, s, 0))
  {
    forall a: nat, at: nat, dot: nat, b: nat ensures !IsEmail(k, Sub(k, Email, s, 0), a, at, dot, b) {
      NoAddressLeft(k, s, Sub(k, Email, s, 0), a, at, dot, b);
    }
  }

  lemma DigitPassAddsNoAddress(k: Classes, s: string)
    requires Sane(k) && !HasEmail(k, s)
    ensures !HasEmail(k, Sub(k, LongDigits, s, 0))
  {
    forall a: nat, at: nat, dot: nat, b: nat ensures !IsEmail(k, Sub(k, LongDigits, s, 0), a, at, dot, b) {
      if IsEmail(k, Sub(k, LongDigits, s, 0), a, at, dot, b) {
        var c, at1, dot1, b1 := AddressComesFromInput(k, LongDigits, s, Sub(k, LongDigits, s, 0), a, at, dot, b);
      }
    }
  }

  lemma DigitPassRemovesRuns(k: Classes, s: string)
    requires Sane(k)
    ensures !HasLongRun(k, Sub(k, LongDigits, s, 0))
  {
    forall a: nat ensures !IsLongRun(k, Sub(k, LongDigits, s, 0), a) {
      if IsLongRun(k, Sub(k, LongDigits, s, 0), a) {
        var c := DigitsComeFromInput(k, s, a);
        RunEndIsLongest(k, DIGIT, s, c, c + 9);
      }
    }
  }

  lemma PrefixIsNoWorse(k: Classes, s: string, n: nat)
    requires n <= |s| && !HasEmail(k, s) && !HasLongRun(k, s)
    ensures !HasEmail(k, s[..n]) && !HasLongRun(k, s[..n])
  {
    forall a: nat, at: nat, dot: nat, b: nat ensures !IsEmail(k, s[..n], a, at, dot, b) {
      if IsEmail(k, s[..n], a, at, dot, b) {
        PrefixClass(k, LOCAL, s, n, a, at);
        PrefixClass(k, HOST, s, n, at + 1, dot);
        PrefixClass(k, TAIL, s, n, dot + 1, b);
        assert IsEmail(k, s, a, at, dot, b);
      }
    }
    forall a: nat ensures !IsLongRun(k, s[..n], a) {
      if IsLongRun(k, s[..n], a) {
        PrefixClass(k, DIGIT, s, n, a, a + 9);
        assert IsLongRun(k, s, a);
      }
    }
  }

  lemma PrefixClass(k: Classes, cls: Class, s: string, n: nat, i: nat, j: nat)
    requires n <= |s| && Within(k, cls, s[..n], i, j)
    ensures Within(k, cls, s, i, j)
  {
    forall x | i <= x < j ensures In(k, cls, s[x]) {
      assert In(k, cls, s[..n][x]);
    }
  }

  lemma CleanHasNoMatch(k: Classes, p: Pattern, s: string, i: nat)
    requires Sane(k) && !HasEmail(k, s) && !HasLongRun(k, s) && i < |s|
    ensures MatchEnd(k, p, s, i) == 0
  {
    match p
    case Email =>
      if EmailEnd(k, s, i) != 0 { EmailEndIsEmail(k, s, i); }
    case LongDigits =>
      assert !IsLongRun(k, s, i);
    case Phone =>
      assert !IsLongRun(k, s, i + 2);
  }

  lemma {:induction false} NoMatchNoChange(k: Classes, p: Pattern, s: string, i: nat)
    requires i <= |s| && forall x | i <= x < |s| :: MatchEnd(k, p, s, x) == 0
    ensures Sub(k, p, s, i) == s[i..]
    decreases |s| - i
  {
    if i < |s| {
      NoMatchNoChange(k, p, s, i + 1);
    }
  }

  lemma CleanIsUnchanged(k: Classes, s: string)
    requires Sane(k) && !HasEmail(k, s) && !HasLongRun(k, s)
    ensures ScrubValue(k, s) == s
  {
    forall p: Pattern ensures Sub(k, p, s, 0) == s {
      forall x | 0 <= x < |s| ensures MatchEnd(k, p, s, x) == 0 { CleanHasNoMatch(k, p, s, x); }
      NoMatchNoChange(k, p, s, 0);
      assert s[0..] == s;
    }
  }

  /** A scrubbed value cut to any length holds no address and no run of nine digits, and scrubbing it again changes
      nothing. */
  lemma ScrubbedIsClean(k: Classes, value: string, n: nat)
    requires Sane(k) && n <= |ScrubValue(k, value)|
    ensures var out := ScrubValue(k, value)[..n];
      !HasEmail(k, out) && !HasLongRun(k, out) && ScrubValue(k, out) == out
  {
    var s := Sub(k, Phone, value, 0);
    EmailPassRemovesAddresses(k, s);
    DigitPassAddsNoAddress(k, Sub(k, Email, s, 0));
    DigitPassRemovesRuns(k, Sub(k, Email, s, 0));
    PrefixIsNoWorse(k, ScrubValue(k, value), n);
    CleanIsUnchanged(k, ScrubValue(k, value)[..n]);
  }

  /** Scrubbing alters a value exactly when it holds an address or a run of nine digits. */
  lemma ScrubChangesIff(k: Classes, value: string)
    requires Sane(k)
    ensures ScrubValue(k, value) != value <==> HasEmail(k, value) || HasLongRun(k, value)
  {
    if !HasEmail(k, value) && !HasLongRun(k, value) {
      CleanIsUnchanged(k, value);
    } else {
      ScrubbedIsClean(k, value, |ScrubValue(k, value)|);
      assert ScrubValue(k, value)[..|ScrubValue(k, value)|] == ScrubValue(k, value);
    }
  }

  // ---------- properties of an event ----------

  datatype Value = Bool(b: bool) | Null | Int(n: int) | Float(r: real) | Text(s: string) | Nested

  const MAX_KEYS := 24

  // Keys meant to be refused: an exact list and a list of suffixes. StoredKeysAreCleanIff says when they are.
  datatype Blacklist = Blacklist(keys: set<string>, suffixes: set<string>)

  const PII := Blacklist({
    "phone", "mobile", "tel", "email", "mail", "id_card", "idcard", "id_number", "real_name", "name",
    "nickname", "nick", "address", "addr", "token", "password", "pwd", "secret", "message", "text",
    "content", "body", "wechat", "qq", "lat", "lng", "latitude", "longitude", "ip", "avatar", "photo",
    "face", "bio"
  }, {"_phone", "_email", "_name", "_token", "_password", "_address", "_text", "_content"})

  function LowerChar(c: char): char {
    if 'A' <= c <= 'Z' then c - 'A' + 'a' else c
  }

  function Lower(s: string): string {
    seq(|s|, i requires 0 <= i < |s| => LowerChar(s[i]))
  }

  predicate EndsWith(s: string, suffix: string) {
    |suffix| <= |s| && s[|s| - |suffix|..] == suffix
  }

  predicate IsPiiKey(list: Blacklist, key: string) {
    Lower(key) in list.keys || exists suffix <- list.suffixes :: EndsWith(Lower(key), suffix)
  }

  // [a-z][a-z0-9_]{0,39} up to the very end.
  predicate IsStrictKey(key: string) {
    && 1 <= |key| <= 40 && 'a' <= key[0] <= 'z'
    && forall i | 1 <= i < |key| :: 'a' <= key[i] <= 'z' || '0' <= key[i] <= '9' || key[i] == '_'
  }

  predicate EndsInNewline(s: string) {
    |s| > 0 && s[|s| - 1] == '\n'
  }

  // A key read without its final newline.
  function Stem(key: string): string {
    if EndsInNewline(key) then key[..|key| - 1] else key
  }

  // ^[a-z][a-z0-9_]{0,39}$ where $ also matches just before a final newline.
  predicate IsPropKey(key: string) {
    IsStrictKey(Stem(key))
  }

  predicate IsSafeKey(list: Blacklist, key: string) {
    IsPropKey(key) && !IsPiiKey(list, key)
  }

  type Item = (string, Value)

  predicate IsAcceptable(list: Blacklist, item: Item) {
    IsSafeKey(list, item.0) && !item.1.Nested?
  }

  function Acceptable(list: Blacklist, items: seq<Item>): nat {
    if items == [] then 0
    else Acceptable(list, items[..|items| - 1]) + (if IsAcceptable(list, items[|items| - 1]) then 1 else 0)
  }

  // Item i is among the first 24 acceptable ones.
  ghost predicate IsKept(list: Blacklist, items: seq<Item>, i: int) {
    0 <= i < |items| && IsAcceptable(list, items[i]) && Acceptable(list, items[..i]) < MAX_KEYS
  }

  // A stored value: text is scrubbed, short and free of addresses and long runs; a number is as supplied, however long.
  ghost predicate IsStoredCopy(k: Classes, stored: Value, supplied: Value) {
    if supplied.Text? then
      stored.Text? && |stored.s| <= MAX_STR && !HasEmail(k, stored.s) && !HasLongRun(k, stored.s)
      && stored.s <= ScrubValue(k, supplied.s) && |stored.s| == Min(120, |ScrubValue(k, supplied.s)|)
    else stored == supplied
  }

  method StoredValue(k: Classes, value: Value) returns (stored: Option<Value>)
    requires Sane(k)
    ensures stored.None? <==> value.Nested?
    ensures stored.Some? ==> IsStoredCopy(k, stored.value, value)
  {
    if value.Bool? || value.Null? || value.Int? || value.Float? {
      return Some(value);
    } else if value.Text? {
      var scrubbed := ScrubValue(k, value.s);
      ScrubbedIsClean(k, value.s, |Cut(scrubbed)|);
      assert scrubbed[..|Cut(scrubbed)|] == Cut(scrubbed);
      return Some(Text(Cut(scrubbed)));
    } else {
      return None;
    }
  }

  ghost predicate DistinctKeys(items: seq<Item>) {
    forall i, j | 0 <= i < j < |items| :: items[i].0 != items[j].0
  }

  ghost predicate IsHandled(k: Classes, list: Blacklist, clean: map<string, Value>, items: seq<Item>, i: int)
    requires 0 <= i < |items|
  {
    && (items[i].0 in clean <==> IsKept(list, items, i))
    && (items[i].0 in clean ==> IsStoredCopy(k, clean[items[i].0], items[i].1))
  }

  ghost predicate IsKeyOf(items: seq<Item>, n: nat, key: string)
    requires n <= |items|
  {
    exists i | 0 <= i < n :: items[i].0 == key
  }

  // clean holds exactly the kept ones of the first n items, text scrubbed.
  ghost predicate IsCleanOf(k: Classes, list: Blacklist, clean: map<string, Value>, items: seq<Item>, n: nat)
    requires n <= |items|
  {
    && (forall i | 0 <= i < n :: IsHandled(k, list, clean, items, i))
    && (forall key {:trigger IsKeyOf(items, n, key)} | key in clean :: IsKeyOf(items, n, key))
  }

  /** Keeps exactly the first 24 acceptable properties, text scrubbed; everything else is counted as dropped. */
  method SanitizeProps(k: Classes, list: Blacklist, items: seq<Item>) returns (clean: map<string, Value>, dropped: nat)
    requires Sane(k) && DistinctKeys(items)
    ensures |clean| == Min(24, Acceptable(list, items)) && |clean| + dropped == |items|
    ensures IsCleanOf(k, list, clean, items, |items|)
  {
    clean, dropped := map[], 0;
    for n := 0 to |items|
      invariant IsProgress(k, list, clean, dropped, items, n)
    {
      ghost var before, droppedBefore := clean, dropped;
      FreshKey(k, list, clean, items, n);
      var kept: bool;
      clean, kept := Offer(k, list, clean, items[n]);
      if !kept { dropped := dropped + 1; }
      ProgressStep(k, list, before, clean, kept, droppedBefore, items, n);
    }
    assert items[..|items|] == items;
  }

  lemma FreshKey(k: Classes, list: Blacklist, clean: map<string, Value>, items: seq<Item>, n: nat)
    requires n < |items| && DistinctKeys(items) && IsCleanOf(k, list, clean, items, n)
    ensures items[n].0 !in clean
  {
    assert !IsKeyOf(items, n, items[n].0);
  }

  ghost predicate IsProgress(k: Classes, list: Blacklist, clean: map<string, Value>, dropped: nat,
      items: seq<Item>, n: nat) {
    && n <= |items|
    && |clean| == Min(MAX_KEYS, Acceptable(list, items[..n])) && |clean| + dropped == n
    && IsCleanOf(k, list, clean, items, n)
  }

  ghost predicate IsOffered(k: Classes, list: Blacklist, clean: map<string, Value>, item: Item,
      after: map<string, Value>, kept: bool) {
    && (kept <==> |clean| < MAX_KEYS && IsAcceptable(list, item))
    && if kept then |after| == |clean| + 1 && item.0 in after && after == clean[item.0 := after[item.0]]
                    && IsStoredCopy(k, after[item.0], item.1)
       else after == clean
  }

  lemma ProgressStep(k: Classes, list: Blacklist, before: map<string, Value>, clean: map<string, Value>, kept: bool,
                     dropped: nat, items: seq<Item>, n: nat)
    requires n < |items| && DistinctKeys(items) && IsProgress(k, list, before, dropped, items, n)
    requires IsOffered(k, list, before, items[n], clean, kept)
    ensures IsProgress(k, list, clean, if kept then dropped else dropped + 1, items, n + 1)
  {
    assert IsKept(list, items, n) <==> kept;
    AcceptableStep(list, items, n);
    OneMore(k, list, before, clean, items, n);
  }

  // One turn of the loop: the item is stored or dropped.
  method Offer(k: Classes, list: Blacklist, clean: map<string, Value>, item: Item)
      returns (after: map<string, Value>, kept: bool)
    requires Sane(k) && item.0 !in clean
    ensures IsOffered(k, list, clean, item, after, kept)
  {
    var (key, value) := item;
    if |clean| >= MAX_KEYS { return clean, false; }
    if !IsPropKey(key) || IsPiiKey(list, key) { return clean, false; }
    var stored := StoredValue(k, value);
    if stored.None? { return clean, false; }
    return clean[key := stored.value], true;
  }

  lemma AcceptableStep(list: Blacklist, items: seq<Item>, n: nat)
    requires n < |items|
    ensures Acceptable(list, items[..n + 1])
         == Acceptable(list, items[..n]) + (if IsAcceptable(list, items[n]) then 1 else 0)
  {
    assert items[..n + 1][..n] == items[..n];
  }

  // Adding item n, if kept, extends the clean map by one position.
  lemma OneMore(k: Classes, list: Blacklist, before: map<string, Value>, clean: map<string, Value>,
      items: seq<Item>, n: nat)
    requires n < |items| && DistinctKeys(items) && IsCleanOf(k, list, before, items, n)
    requires var (key, value) := items[n];
      if IsKept(list, items, n) then
        key in clean && IsStoredCopy(k, clean[key], value) && clean == before[key := clean[key]]
      else clean == before
    ensures IsCleanOf(k, list, clean, items, n + 1)
  {
    assert items[n].0 in before ==> IsKeyOf(items, n, items[n].0);
    forall i | 0 <= i < n + 1 ensures IsHandled(k, list, clean, items, i) {
      if i < n { assert IsHandled(k, list, before, items, i); }
    }
    forall key <- clean ensures IsKeyOf(items, n + 1, key) {
      if key in before {
        assert IsKeyOf(items, n, key);
      } else {
        assert items[n].0 == key;
      }
    }
  }

  // ---------- which keys get stored ----------

  // A well-shaped blacklisted word with a newline behind it.
  predicate IsDisguised(list: Blacklist, key: string) {
    EndsInNewline(key) && IsStrictKey(Stem(key)) && IsPiiKey(list, Stem(key))
  }

  predicate IsSingleLine(list: Blacklist) {
    (forall w <- list.keys :: !EndsInNewline(w)) && (forall w <- list.suffixes :: |w| > 0 && !EndsInNewline(w))
  }

  lemma PiiIsSingleLine()
    ensures IsSingleLine(PII)
  {
    forall w <- PII.keys ensures !EndsInNewline(w) {}
    forall w <- PII.suffixes ensures |w| > 0 && !EndsInNewline(w) {}
  }

  lemma NewlineEscapesBlacklist(list: Blacklist, key: string)
    requires IsSingleLine(list) && EndsInNewline(key)
    ensures !IsPiiKey(list, key)
  {
    assert EndsInNewline(Lower(key));
    forall suffix <- list.suffixes ensures !EndsWith(Lower(key), suffix) {
      SuffixSharesEnd(Lower(key), suffix);
    }
  }

  lemma SuffixSharesEnd(s: string, suffix: string)
    requires |suffix| > 0
    ensures EndsWith(s, suffix) ==> (EndsInNewline(suffix) <==> EndsInNewline(s))
  {
    assert EndsWith(s, suffix) ==> s[|s| - |suffix|..][|suffix| - 1] == s[|s| - 1];
  }

  /** The filter admits a key exactly when it has the strict shape and is not blacklisted, or has it up to a final
      newline, blacklisted or not. */
  lemma SafeKeyIff(list: Blacklist, key: string)
    requires IsSingleLine(list)
    ensures IsSafeKey(list, key) <==> IsStrictKey(Stem(key)) && (IsPiiKey(list, Stem(key)) ==> IsDisguised(list, key))
  {
    if EndsInNewline(key) {
      NewlineEscapesBlacklist(list, key);
    }
  }

  // key ends in a listed suffix.
  ghost predicate IsSuffixed(key: string, head: string, suffix: string) {
    key == head + suffix
  }

  lemma StrictIsLower(key: string)
    requires IsStrictKey(key)
    ensures Lower(key) == key
  {
    forall i | 0 <= i < |key| ensures LowerChar(key[i]) == key[i] {
      assert i > 0 ==> 'a' <= key[i] <= 'z' || '0' <= key[i] <= '9' || key[i] == '_';
    }
  }

  /** A key without a final newline is admitted exactly when it has the strict shape, is not a listed word and ends
      in no listed suffix. */
  lemma PlainKeyIff(list: Blacklist, key: string)
    requires !EndsInNewline(key)
    ensures IsSafeKey(list, key) <==>
      && IsStrictKey(key) && key !in list.keys
      && !exists head, suffix :: suffix in list.suffixes && IsSuffixed(key, head, suffix)
  {
    if IsStrictKey(key) {
      StrictIsLower(key);
      forall suffix <- list.suffixes ensures EndsWith(key, suffix) <==> exists head :: IsSuffixed(key, head, suffix) {
        if EndsWith(key, suffix) {
          assert IsSuffixed(key, key[..|key| - |suffix|], suffix);
        }
        forall head | IsSuffixed(key, head, suffix) ensures EndsWith(key, suffix) {}
      }
    }
  }

  // The blacklist works on these items: no scalar under a disguised key comes before the 24 are full.
  ghost predicate IsUndisguised(list: Blacklist, items: seq<Item>) {
    forall i | 0 <= i < |items| && IsDisguised(list, items[i].0) && !items[i].1.Nested? ::
      Acceptable(list, items[..i]) >= MAX_KEYS
  }

  /** What is stored is free of blacklisted names, a final newline aside, exactly for undisguised items. */
  lemma StoredKeysAreCleanIff(k: Classes, list: Blacklist, clean: map<string, Value>, items: seq<Item>)
    requires IsSingleLine(list) && IsCleanOf(k, list, clean, items, |items|)
    ensures (forall key <- clean :: !IsPiiKey(list, Stem(key))) <==> IsUndisguised(list, items)
  {
    forall key <- clean ensures IsPiiKey(list, Stem(key)) ==> !IsUndisguised(list, items) {
      var i := KeptIndex(k, list, clean, items, key);
      SafeKeyIff(list, key);
    }
    forall i | 0 <= i < |items| && IsDisguised(list, items[i].0) && !items[i].1.Nested?
      ensures Acceptable(list, items[..i]) >= MAX_KEYS || items[i].0 in clean
    {
      SafeKeyIff(list, items[i].0);
      assert IsHandled(k, list, clean, items, i);
    }
  }

  lemma KeptIndex(k: Classes, list: Blacklist, clean: map<string, Value>, items: seq<Item>, key: string)
      returns (i: nat)
    requires IsCleanOf(k, list, clean, items, |items|) && key in clean
    ensures i < |items| && items[i].0 == key && IsKept(list, items, i)
  {
    assert IsKeyOf(items, |items|, key);
    i :| 0 <= i < |items| && items[i].0 == key;
    assert IsHandled(k, list, clean, items, i);
  }

  /** With no newline at the end of any supplied key, every stored key has the strict shape and is not blacklisted. */
  lemma PlainKeysAreClean(k: Classes, list: Blacklist, clean: map<string, Value>, items: seq<Item>)
    requires IsCleanOf(k, list, clean, items, |items|)
    requires forall i | 0 <= i < |items| :: !EndsInNewline(items[i].0)
    ensures forall key <- clean :: IsStrictKey(key) && !IsPiiKey(list, key)
  {
    forall key <- clean ensures IsStrictKey(key) && !IsPiiKey(list, key) {
      var i := KeptIndex(k, list, clean, items, key);
    }
  }

  /** Otherwise they may not be: a scalar supplied alone under a disguised key is stored. */
  lemma DisguisedKeyIsStored(k: Classes, list: Blacklist, key: string, value: Value, clean: map<string, Value>)
    requires IsSingleLine(list) && IsDisguised(list, key) && !value.Nested?
    requires IsCleanOf(k, list, clean, [(key, value)], 1)
    ensures key in clean && !IsPiiKey(list, key)
  {
    SafeKeyIff(list, key);
    NewlineEscapesBlacklist(list, key);
    assert [(key, value)][..0] == [];
    assert IsHandled(k, list, clean, [(key, value)], 0);
  }

  lemma PhoneIsBlacklisted()
    ensures "phone" in PII.keys
  {
  }

  // The word "phone" is blacklisted; with a newline behind it, it is not.
  lemma PhoneIsDisguised()
    ensures IsDisguised(PII, "phone\n") && !IsPiiKey(PII, "phone\n")
  {
    var list, key := PII, "phone\n";
    PhoneIsBlacklisted();
    PiiIsSingleLine();
    NewlineEscapesBlacklist(list, key);
    PhoneStem(list, key);
  }

  lemma PhoneStem(list: Blacklist, key: string)
    requires key == "phone\n" && "phone" in list.keys
    ensures IsDisguised(list, key)
  {
    assert Stem(key) == "phone" && Lower("phone") == "phone";
  }

  // ---------- which values get stored ----------

  ghost predicate IsRevealing(k: Classes, s: string) {
    HasEmail(k, s) || HasLongRun(k, s)
  }

  // A value as it is written out; `show` renders everything but text.
  function Written(show: Value -> string, v: Value): string {
    if v.Text? then v.s else show(v)
  }

  // Only text is scrubbed: no other scalar whose rendering is revealing comes before the 24 are full.
  ghost predicate IsGuarded(k: Classes, list: Blacklist, show: Value -> string, items: seq<Item>) {
    forall i | 0 <= i < |items| && IsAcceptable(list, items[i]) && !items[i].1.Text?
               && IsRevealing(k, show(items[i].1)) ::
      Acceptable(list, items[..i]) >= MAX_KEYS
  }

  /** The stored values, however numbers are written out, hold no address and no run of nine digits exactly for
      guarded items. */
  lemma StoredValuesAreCleanIff(k: Classes, list: Blacklist, show: Value -> string,
      clean: map<string, Value>, items: seq<Item>)
    requires IsCleanOf(k, list, clean, items, |items|)
    ensures (forall key <- clean :: !IsRevealing(k, Written(show, clean[key]))) <==> IsGuarded(k, list, show, items)
  {
    forall key <- clean ensures IsRevealing(k, Written(show, clean[key])) ==> !IsGuarded(k, list, show, items) {
      var i := KeptIndex(k, list, clean, items, key);
      assert IsHandled(k, list, clean, items, i);
    }
    forall i | 0 <= i < |items| && IsAcceptable(list, items[i]) && !items[i].1.Text?
      ensures Acceptable(list, items[..i]) >= MAX_KEYS || (items[i].0 in clean && clean[items[i].0] == items[i].1)
    {
      assert IsHandled(k, list, clean, items, i);
    }
  }

  /** A number supplied alone under a safe key is stored as it is, whatever its digits. */
  lemma NumberIsStored(k: Classes, list: Blacklist, key: string, n: int, clean: map<string, Value>)
    requires IsSafeKey(list, key) && IsCleanOf(k, list, clean, [(key, Int(n))], 1)
    ensures key in clean && clean[key] == Int(n)
  {
    assert [(key, Int(n))][..0] == [];
    assert IsHandled(k, list, clean, [(key, Int(n))], 0);
  }

  // A phone number as an integer, under a key that no blacklist entry matches.
  lemma PhoneNumberIsStored(k: Classes, clean: map<string, Value>)
    requires IsCleanOf(k, PII, clean, [("ref", Int(13912345678))], 1)
    ensures "ref" in clean && clean["ref"] == Int(13912345678)
  {
    RefIsSafe();
    NumberIsStored(k, PII, "ref", 13912345678, clean);
  }

  lemma RefIsSafe()
    ensures IsSafeKey(PII, "ref")
  {
    assert Lower("ref") == "ref";
    assert "ref" !in PII.keys;
    forall suffix <- PII.suffixes ensures !EndsWith("ref", suffix) {
      assert |suffix| > 3;
    }
  }
}
