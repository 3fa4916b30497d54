/**
  Refresh tokens. Each login starts a session whose tokens form a chain: only the last token of
  a live session can be redeemed, and redeeming it appends the next one. The token table, which
  holds nothing but a revoked flag per row, is proved to behave like this, and to hold at most
  one unrevoked row per login.
 */
module Sessions {
  import opened Common

  type UserId = int
  type Jti = int

  datatype Error = TokenInvalid | WrongType | Revoked | Expired

  datatype TokenKind = Refresh | Access

  // A presented token: None stands for one that does not decode.
  datatype Token = Token(kind: TokenKind, jti: Jti)

  // A session is named by the token of its login.
  datatype Session = Session(user: UserId, tokens: seq<Jti>, live: bool)

  datatype Family = Family(sessions: map<Jti, Session>, home: map<Jti, Jti>, expires: map<Jti, int>)

  ghost predicate Distinct(s: seq<Jti>) {
    forall i, j :: 0 <= i < j < |s| ==> s[i] != s[j]
  }

  // Every issued token sits at one place of one chain.
  ghost predicate Wf(f: Family) {
    && f.home.Keys == f.expires.Keys
    && (forall t {:trigger IsPlaced(f, t)} | t in f.home :: IsPlaced(f, t))
    && (forall r {:trigger IsChain(f, r)} | r in f.sessions :: IsChain(f, r))
  }

  ghost predicate IsPlaced(f: Family, t: Jti)
    requires t in f.home
  {
    f.home[t] in f.sessions && t in f.sessions[f.home[t]].tokens
  }

  ghost predicate IsChain(f: Family, r: Jti)
    requires r in f.sessions
  {
    var tokens := f.sessions[r].tokens;
    && tokens != [] && tokens[0] == r && Distinct(tokens)
    && forall t <- tokens :: t in f.home && f.home[t] == r
  }

  predicate IsLast(tokens: seq<Jti>, t: Jti) {
    tokens != [] && tokens[|tokens| - 1] == t
  }

  // Redeemable, up to expiry.
  predicate IsLive(f: Family, t: Jti) {
    && t in f.home && f.home[t] in f.sessions
    && f.sessions[f.home[t]].live && IsLast(f.sessions[f.home[t]].tokens, t)
  }

  function UserOf(f: Family, t: Jti): UserId {
    if t in f.home && f.home[t] in f.sessions then f.sessions[f.home[t]].user else 0
  }

  // ---------- the machine ----------

  function LoggedIn(f: Family, user: UserId, issued: Jti, expiresAt: int): Family {
    Family(f.sessions[issued := Session(user, [issued], true)], f.home[issued := issued],
      f.expires[issued := expiresAt])
  }

  function Extend(f: Family, t: Jti, issued: Jti, expiresAt: int): Family
    requires t in f.home && f.home[t] in f.sessions
  {
    var r := f.home[t];
    var s := f.sessions[r];
    Family(f.sessions[r := s.(tokens := s.tokens + [issued])], f.home[issued := r], f.expires[issued := expiresAt])
  }

  function Redeemed(f: Family, token: Option<Token>, now: int, issued: Jti, expiresAt: int):
    (Family, Result<Jti, Error>)
  {
    if token.None? then (f, Err(TokenInvalid))
    else if token.value.kind != Refresh then (f, Err(WrongType))
    else
      var t := token.value.jti;
      if !IsLive(f, t) then (f, Err(Revoked))
      else if t in f.expires && f.expires[t] < now then (f, Err(Expired))
      else (Extend(f, t, issued, expiresAt), Ok(issued))
  }

  function End(f: Family, r: Jti): Family
    requires r in f.sessions
  {
    f.(sessions := f.sessions[r := f.sessions[r].(live := false)])
  }

  function LoggedOut(f: Family, token: Option<Token>): Family {
    if token.Some? && IsLive(f, token.value.jti) then End(f, f.home[token.value.jti]) else f
  }

  function ForcedOut(f: Family, user: UserId): Family {
    f.(sessions := map r | r in f.sessions ::
      if f.sessions[r].user == user then f.sessions[r].(live := false) else f.sessions[r])
  }

  // ---------- the invariant ----------

  lemma LoginKeepsWf(f: Family, user: UserId, issued: Jti, expiresAt: int)
    requires Wf(f) && issued !in f.home
    ensures Wf(LoggedIn(f, user, issued, expiresAt))
    ensures forall t :: IsLive(LoggedIn(f, user, issued, expiresAt), t) <==> t == issued || IsLive(f, t)
    ensures forall t <- f.home :: UserOf(LoggedIn(f, user, issued, expiresAt), t) == UserOf(f, t)
  {
    var f1 := LoggedIn(f, user, issued, expiresAt);
    FreshIsNoSession(f, issued);
    forall r <- f1.sessions ensures IsChain(f1, r) {
      if r != issued { assert IsChain(f, r); }
    }
    forall t <- f.home ensures f.home[t] in f.sessions && f.home[t] != issued && IsPlaced(f1, t) {
      assert IsPlaced(f, t);
    }
  }

  lemma FreshIsNoSession(f: Family, issued: Jti)
    requires Wf(f) && issued !in f.home
    ensures issued !in f.sessions
  {
    forall r <- f.sessions ensures r in f.home {
      assert IsChain(f, r);
      assert r in f.sessions[r].tokens;
    }
  }

  lemma ExtendKeepsWf(f: Family, t: Jti, issued: Jti, expiresAt: int)
    requires Wf(f) && IsLive(f, t) && issued !in f.home
    ensures Wf(Extend(f, t, issued, expiresAt))
    ensures forall x :: IsLive(Extend(f, t, issued, expiresAt), x) <==> x == issued || (x != t && IsLive(f, x))
    ensures forall x <- f.home :: UserOf(Extend(f, t, issued, expiresAt), x) == UserOf(f, x)
  {
    var f1, r := Extend(f, t, issued, expiresAt), f.home[t];
    FreshIsNoSession(f, issued);
    assert IsChain(f, r);
    var tokens := f.sessions[r].tokens;
    assert issued !in tokens;
    forall q <- f1.sessions ensures IsChain(f1, q) {
      assert IsChain(f, q);
      if q == r {
        forall x <- tokens + [issued] ensures x in f1.home && f1.home[x] == r {
          assert x in tokens || x == issued;
        }
        assert (tokens + [issued])[0] == r;
      } else {
        assert issued !in f.sessions[q].tokens;
      }
    }
    forall x <- f.home ensures IsPlaced(f1, x) && (f.home[x] == r ==> x in tokens) {
      assert IsPlaced(f, x);
    }
  }

  lemma EndKeepsWf(f: Family, r: Jti)
    requires Wf(f) && r in f.sessions
    ensures Wf(End(f, r))
  {
    forall t <- f.home ensures IsPlaced(End(f, r), t) { assert IsPlaced(f, t); }
    forall q <- End(f, r).sessions ensures IsChain(End(f, r), q) { assert IsChain(f, q); }
  }

  lemma ForceLogoutKeepsWf(f: Family, user: UserId)
    requires Wf(f)
    ensures Wf(ForcedOut(f, user))
  {
    forall t <- f.home ensures IsPlaced(ForcedOut(f, user), t) { assert IsPlaced(f, t); }
    forall q <- ForcedOut(f, user).sessions ensures IsChain(ForcedOut(f, user), q) { assert IsChain(f, q); }
  }

  // ---------- runs ----------

  datatype Op =
    | LoginOp(user: UserId, issued: Jti, expiresAt: int)
    | RedeemOp(token: Option<Token>, now: int, issued: Jti, expiresAt: int)
    | LogoutOp(token: Option<Token>)
    | ForceLogoutOp(user: UserId)

  // New tokens carry identifiers never issued before.
  ghost predicate IsFresh(f: Family, op: Op) {
    (op.LoginOp? || op.RedeemOp?) ==> op.issued !in f.home
  }

  function Apply(f: Family, op: Op): Family {
    match op
    case LoginOp(user, issued, expiresAt) => LoggedIn(f, user, issued, expiresAt)
    case RedeemOp(token, now, issued, expiresAt) => Redeemed(f, token, now, issued, expiresAt).0
    case LogoutOp(token) => LoggedOut(f, token)
    case ForceLogoutOp(user) => ForcedOut(f, user)
  }

  function Run(f: Family, ops: seq<Op>): Family
    decreases |ops|
  {
    if ops == [] then f else Run(Apply(f, ops[0]), ops[1..])
  }

  ghost predicate AllFresh(f: Family, ops: seq<Op>)
    decreases |ops|
  {
    ops == [] || (IsFresh(f, ops[0]) && AllFresh(Apply(f, ops[0]), ops[1..]))
  }

  const NOBODY := Family(map[], map[], map[])

  lemma ApplyKeepsWf(f: Family, op: Op)
    requires Wf(f) && IsFresh(f, op)
    ensures Wf(Apply(f, op))
  {
    match op
    case LoginOp(user, issued, expiresAt) => LoginKeepsWf(f, user, issued, expiresAt);
    case RedeemOp(token, now, issued, expiresAt) =>
      if token.Some? && IsLive(f, token.value.jti) { ExtendKeepsWf(f, token.value.jti, issued, expiresAt); }
    case LogoutOp(token) =>
      if token.Some? && IsLive(f, token.value.jti) { EndKeepsWf(f, f.home[token.value.jti]); }
    case ForceLogoutOp(user) => ForceLogoutKeepsWf(f, user);
  }

  /** The tokens issued from one login always form one chain without repetition. */
  lemma {:induction false} RunKeepsWf(f: Family, ops: seq<Op>)
    requires Wf(f) && AllFresh(f, ops)
    ensures Wf(Run(f, ops))
    decreases |ops|
  {
    if ops != [] {
      ApplyKeepsWf(f, ops[0]);
      RunKeepsWf(Apply(f, ops[0]), ops[1..]);
    }
  }

  // Issued, and never to be redeemed again.
  ghost predicate IsDead(f: Family, t: Jti) {
    t in f.home && !IsLive(f, t)
  }

  lemma ApplyKeepsDead(f: Family, op: Op, t: Jti)
    requires Wf(f) && IsFresh(f, op) && IsDead(f, t)
    ensures IsDead(Apply(f, op), t)
  {
    match op
    case LoginOp(user, issued, expiresAt) => LoginKeepsWf(f, user, issued, expiresAt);
    case RedeemOp(token, now, issued, expiresAt) =>
      if token.Some? && IsLive(f, token.value.jti) { ExtendKeepsWf(f, token.value.jti, issued, expiresAt); }
    case LogoutOp(token) =>
    case ForceLogoutOp(user) =>
  }

  /** A token that is not redeemable now never becomes redeemable. */
  lemma {:induction false} DeadStaysDead(f: Family, ops: seq<Op>, t: Jti)
    requires Wf(f) && AllFresh(f, ops) && IsDead(f, t)
    ensures IsDead(Run(f, ops), t)
    decreases |ops|
  {
    if ops != [] {
      ApplyKeepsWf(f, ops[0]);
      ApplyKeepsDead(f, ops[0], t);
      DeadStaysDead(Apply(f, ops[0]), ops[1..], t);
    }
  }

  /** A redeemed token is never redeemed again, whatever happens in between. */
  lemma RedeemedAtMostOnce(f: Family, t: Jti, op: Op, ops: seq<Op>, now: int, issued: Jti, expiresAt: int)
    requires Wf(f) && op.RedeemOp? && op.token == Some(Token(Refresh, t)) && AllFresh(f, [op] + ops)
    requires Redeemed(f, op.token, op.now, op.issued, op.expiresAt).1.Ok?
    ensures Redeemed(Run(Apply(f, op), ops), op.token, now, issued, expiresAt).1 == Err(Revoked)
  {
    assert ([op] + ops)[0] == op && ([op] + ops)[1..] == ops;
    ApplyKeepsWf(f, op);
    ExtendKeepsWf(f, t, op.issued, op.expiresAt);
    DeadStaysDead(Apply(f, op), ops, t);
  }

  /** After a forced logout none of the user's earlier tokens is ever redeemed. */
  lemma ForcedLogoutIsFinal(f: Family, user: UserId, ops: seq<Op>, t: Jti, now: int, issued: Jti, expiresAt: int)
    requires Wf(f) && t in f.home && UserOf(f, t) == user && AllFresh(ForcedOut(f, user), ops)
    ensures Redeemed(Run(ForcedOut(f, user), ops), Some(Token(Refresh, t)), now, issued, expiresAt).1 == Err(Revoked)
  {
    ForceLogoutKeepsWf(f, user);
    DeadStaysDead(ForcedOut(f, user), ops, t);
  }

  // ---------- the rows ----------

  datatype Row = Row(user: UserId, revoked: bool, expiresAt: int)

  // The token rows, and for every token issued by a redemption the token that was redeemed.
  datatype Tokens = Tokens(rows: map<Jti, Row>, parent: map<Jti, Jti>)

  function Issue(x: Tokens, user: UserId, issued: Jti, expiresAt: int): Tokens {
    x.(rows := x.rows[issued := Row(user, false, expiresAt)])
  }

  function Revoke(x: Tokens, t: Jti): Tokens
    requires t in x.rows
  {
    x.(rows := x.rows[t := x.rows[t].(revoked := true)])
  }

  function Rotate(x: Tokens, t: Jti, issued: Jti, expiresAt: int): Tokens
    requires t in x.rows
  {
    var y := Issue(Revoke(x, t), x.rows[t].user, issued, expiresAt);
    y.(parent := y.parent[issued := t])
  }

  function Refreshed(x: Tokens, token: Option<Token>, now: int, issued: Jti, expiresAt: int):
    (Tokens, Result<Jti, Error>)
  {
    if token.None? then (x, Err(TokenInvalid))
    else if token.value.kind != Refresh then (x, Err(WrongType))
    else
      var t := token.value.jti;
      if t !in x.rows || x.rows[t].revoked then (x, Err(Revoked))
      else if x.rows[t].expiresAt < now then (x, Err(Expired))
      else (Rotate(x, t, issued, expiresAt), Ok(issued))
  }

  function SignedOut(x: Tokens, token: Option<Token>): Tokens {
    if token.Some? && token.value.jti in x.rows then Revoke(x, token.value.jti) else x
  }

  function RevokedAll(x: Tokens, user: UserId): Tokens {
    x.(rows := map t | t in x.rows ::
      if x.rows[t].user == user && !x.rows[t].revoked then x.rows[t].(revoked := true) else x.rows[t])
  }

  function Step(x: Tokens, op: Op): Tokens {
    match op
    case LoginOp(user, issued, expiresAt) => Issue(x, user, issued, expiresAt)
    case RedeemOp(token, now, issued, expiresAt) => Refreshed(x, token, now, issued, expiresAt).0
    case LogoutOp(token) => SignedOut(x, token)
    case ForceLogoutOp(user) => RevokedAll(x, user)
  }

  function Rows(x: Tokens, ops: seq<Op>): Tokens
    decreases |ops|
  {
    if ops == [] then x else Rows(Step(x, ops[0]), ops[1..])
  }

  ghost predicate IssuesFresh(x: Tokens, ops: seq<Op>)
    decreases |ops|
  {
    ops == []
    || ((ops[0].LoginOp? || ops[0].RedeemOp? ==> ops[0].issued !in x.rows) && IssuesFresh(Step(x, ops[0]), ops[1..]))
  }

  const NO_ROWS := Tokens(map[], map[])

  // ---------- one unrevoked row per login ----------

  // Only a revoked token was ever redeemed, and for at most one other.
  ghost predicate IsLinear(x: Tokens) {
    && (forall t <- x.parent :: t in x.rows && x.parent[t] in x.rows && x.rows[x.parent[t]].revoked)
    && (forall s, t | s in x.parent && t in x.parent && x.parent[s] == x.parent[t] :: s == t)
  }

  lemma StepKeepsLinear(x: Tokens, op: Op)
    requires IsLinear(x) && (op.LoginOp? || op.RedeemOp? ==> op.issued !in x.rows)
    ensures IsLinear(Step(x, op))
  {
    match op
    case LoginOp(_, _, _) =>
    case RedeemOp(_, _, _, _) =>
    case LogoutOp(_) =>
    case ForceLogoutOp(user) => assert RevokedAll(x, user).parent == x.parent;
  }

  lemma {:induction false} RowsKeepLinear(x: Tokens, ops: seq<Op>)
    requires IsLinear(x) && IssuesFresh(x, ops)
    ensures IsLinear(Rows(x, ops))
    decreases |ops|
  {
    if ops != [] {
      StepKeepsLinear(x, ops[0]);
      RowsKeepLinear(Step(x, ops[0]), ops[1..]);
    }
  }

  // t came from r by n redemptions.
  ghost predicate Descends(x: Tokens, r: Jti, t: Jti, n: nat)
    decreases n
  {
    if n == 0 then t == r else t in x.parent && Descends(x, r, x.parent[t], n - 1)
  }

  lemma {:induction false} SameGeneration(x: Tokens, r: Jti, s: Jti, t: Jti, n: nat)
    requires IsLinear(x) && Descends(x, r, s, n) && Descends(x, r, t, n)
    ensures s == t
    decreases n
  {
    if n > 0 {
      SameGeneration(x, r, x.parent[s], x.parent[t], n - 1);
    }
  }

  // An earlier generation was redeemed, hence is revoked.
  lemma {:induction false} EarlierIsRevoked(x: Tokens, r: Jti, s: Jti, m: nat, t: Jti, n: nat)
    requires IsLinear(x) && m < n && Descends(x, r, s, m) && Descends(x, r, t, n)
    ensures s in x.rows && x.rows[s].revoked
    decreases n
  {
    if m == n - 1 {
      SameGeneration(x, r, s, x.parent[t], m);
    } else {
      EarlierIsRevoked(x, r, s, m, x.parent[t], n - 1);
    }
  }

  ghost predicate IsUnrevoked(x: Tokens, t: Jti) {
    t in x.rows && !x.rows[t].revoked
  }

  /** In every reachable table, of all the tokens that came from one login at most one is unrevoked, and no token was
      ever issued for it. */
  lemma OneUnrevokedPerLogin(ops: seq<Op>, r: Jti, s: Jti, m: nat, t: Jti, n: nat)
    requires IssuesFresh(NO_ROWS, ops)
    ensures var x := Rows(NO_ROWS, ops);
      && (Descends(x, r, s, m) && Descends(x, r, t, n) && IsUnrevoked(x, s) && IsUnrevoked(x, t) ==> s == t)
      && (IsUnrevoked(x, s) && t in x.parent ==> x.parent[t] != s)
  {
    var x := Rows(NO_ROWS, ops);
    RowsKeepLinear(NO_ROWS, ops);
    if Descends(x, r, s, m) && Descends(x, r, t, n) && IsUnrevoked(x, s) && IsUnrevoked(x, t) {
      if m < n { EarlierIsRevoked(x, r, s, m, t, n); }
      if n < m { EarlierIsRevoked(x, r, t, n, s, m); }
      SameGeneration(x, r, s, t, n);
    }
  }

  // ---------- how long a token works ----------

  // The step revokes a token of this user with this expiry: it is redeemed in time, logged out, or its user is.
  ghost predicate Revokes(op: Op, t: Jti, user: UserId, expiresAt: int) {
    match op
    case LoginOp(_, _, _) => false
    case RedeemOp(token, now, _, _) => token == Some(Token(Refresh, t)) && now <= expiresAt
    case LogoutOp(token) => token.Some? && token.value.jti == t
    case ForceLogoutOp(u) => u == user
  }

  lemma StepRevokesIff(x: Tokens, op: Op, t: Jti)
    requires t in x.rows && (op.LoginOp? || op.RedeemOp? ==> op.issued !in x.rows)
    ensures var row := x.rows[t];
      && t in Step(x, op).rows
      && Step(x, op).rows[t] == row.(revoked := row.revoked || Revokes(op, t, row.user, row.expiresAt))
  {
  }

  lemma {:induction false} UnrevokedIff(x: Tokens, ops: seq<Op>, t: Jti)
    requires t in x.rows && IssuesFresh(x, ops)
    ensures var row := x.rows[t];
      && t in Rows(x, ops).rows
      && Rows(x, ops).rows[t] ==
           row.(revoked := row.revoked || exists op <- ops :: Revokes(op, t, row.user, row.expiresAt))
    decreases |ops|
  {
    if ops != [] {
      StepRevokesIff(x, ops[0], t);
      UnrevokedIff(Step(x, ops[0]), ops[1..], t);
      assert forall op :: op in ops <==> op == ops[0] || op in ops[1..];
    }
  }

  /** A token issued at login can be redeemed until its expiry, and answers "expired" from then on, unless and until
      it was redeemed in time, logged out, or its own user was forced out: no other step, of any user, touches it. */
  lemma TokenWorksUntil(x: Tokens, user: UserId, t: Jti, expiresAt: int, ops: seq<Op>, now: int, issued: Jti, next: int)
    requires t !in x.rows && IssuesFresh(Issue(x, user, t, expiresAt), ops)
    ensures var y := Rows(Issue(x, user, t, expiresAt), ops);
      Refreshed(y, Some(Token(Refresh, t)), now, issued, next).1 ==
        if exists op <- ops :: Revokes(op, t, user, expiresAt) then Err(Revoked)
        else if now > expiresAt then Err(Expired)
        else Ok(issued)
  {
    UnrevokedIff(Issue(x, user, t, expiresAt), ops, t);
  }

  /** A redemption changes the table only when it succeeds; then the old row is revoked and the new one belongs to
      the same user. Anything that is no stored refresh token is refused. */
  lemma RefreshEffect(x: Tokens, token: Option<Token>, now: int, issued: Jti, next: int)
    requires issued !in x.rows
    ensures var (y, r) := Refreshed(x, token, now, issued, next);
      && (r.Err? ==> y == x)
      && (token == None ==> r == Err(TokenInvalid))
      && (token.Some? && token.value.kind == Access ==> r == Err(WrongType))
      && (token.Some? && token.value.kind == Refresh && token.value.jti !in x.rows ==> r == Err(Revoked))
      && (r.Ok? ==>
            var t := token.value.jti;
            && t in x.rows && y.rows == x.rows[t := Row(x.rows[t].user, true, x.rows[t].expiresAt)]
                                              [issued := Row(x.rows[t].user, false, next)])
  {
  }

  // ---------- the rows behave like the chains ----------

  // The revoked flag says exactly whether a token is not the tip of a live session.
  ghost predicate Tracks(rows: map<Jti, Row>, f: Family) {
    && Wf(f) && rows.Keys == f.home.Keys
    && forall t {:trigger IsRowOf(rows[t], f, t)} | t in rows :: IsRowOf(rows[t], f, t)
  }

  ghost predicate IsRowOf(row: Row, f: Family, t: Jti) {
    t in f.expires && row == Row(UserOf(f, t), !IsLive(f, t), f.expires[t])
  }

  lemma IssueTracks(x: Tokens, f: Family, user: UserId, issued: Jti, expiresAt: int)
    requires Tracks(x.rows, f) && issued !in x.rows
    ensures Tracks(Issue(x, user, issued, expiresAt).rows, LoggedIn(f, user, issued, expiresAt))
  {
    LoginKeepsWf(f, user, issued, expiresAt);
    forall t <- x.rows ensures IsRowOf(x.rows[t], LoggedIn(f, user, issued, expiresAt), t) {
      assert IsRowOf(x.rows[t], f, t);
    }
  }

  lemma RotateTracks(x: Tokens, f: Family, t: Jti, issued: Jti, expiresAt: int)
    requires Tracks(x.rows, f) && IsUnrevoked(x, t) && issued !in x.rows
    ensures IsLive(f, t) && Tracks(Rotate(x, t, issued, expiresAt).rows, Extend(f, t, issued, expiresAt))
  {
    assert IsRowOf(x.rows[t], f, t);
    ExtendKeepsWf(f, t, issued, expiresAt);
    forall s <- x.rows ensures s != t ==> IsRowOf(x.rows[s], Extend(f, t, issued, expiresAt), s) {
      assert IsRowOf(x.rows[s], f, s);
    }
  }

  lemma RevokeTracks(x: Tokens, f: Family, t: Jti)
    requires Tracks(x.rows, f) && t in x.rows
    ensures Tracks(Revoke(x, t).rows, LoggedOut(f, Some(Token(Refresh, t))))
  {
    assert IsRowOf(x.rows[t], f, t);
    if IsLive(f, t) {
      EndKeepsWf(f, f.home[t]);
      EndedTip(f, t);
      forall s <- x.rows ensures s != t ==> IsRowOf(x.rows[s], End(f, f.home[t]), s) {
        assert IsRowOf(x.rows[s], f, s);
      }
    }
  }

  lemma RevokeAllTracks(x: Tokens, f: Family, user: UserId)
    requires Tracks(x.rows, f)
    ensures Tracks(RevokedAll(x, user).rows, ForcedOut(f, user))
  {
    ForceLogoutKeepsWf(f, user);
    forall s <- x.rows ensures IsRowOf(RevokedAll(x, user).rows[s], ForcedOut(f, user), s) {
      assert IsRowOf(x.rows[s], f, s);
    }
  }

  // Ending a session revokes its tip and no other token.
  lemma EndedTip(f: Family, t: Jti)
    requires Wf(f) && IsLive(f, t)
    ensures forall x :: IsLive(End(f, f.home[t]), x) <==> x != t && IsLive(f, x)
    ensures forall x :: UserOf(End(f, f.home[t]), x) == UserOf(f, x)
  {
  }

  /** The rows answer a redemption as the chains do, and stay theirs. */
  lemma RefreshTracks(x: Tokens, f: Family, token: Option<Token>, now: int, issued: Jti, expiresAt: int)
    requires Tracks(x.rows, f) && issued !in x.rows
    ensures var (y, r) := Refreshed(x, token, now, issued, expiresAt);
      r == Redeemed(f, token, now, issued, expiresAt).1 && Tracks(y.rows, Redeemed(f, token, now, issued, expiresAt).0)
  {
    if token.Some? && token.value.jti in x.rows {
      var t := token.value.jti;
      assert IsRowOf(x.rows[t], f, t);
      if IsUnrevoked(x, t) { RotateTracks(x, f, t, issued, expiresAt); }
    }
  }

  lemma SignOutTracks(x: Tokens, f: Family, token: Option<Token>)
    requires Tracks(x.rows, f)
    ensures Tracks(SignedOut(x, token).rows, LoggedOut(f, token))
  {
    if token.Some? && token.value.jti in x.rows { RevokeTracks(x, f, token.value.jti); }
  }

  lemma StepTracks(x: Tokens, f: Family, op: Op)
    requires Tracks(x.rows, f) && (op.LoginOp? || op.RedeemOp? ==> op.issued !in x.rows)
    ensures IsFresh(f, op) && Tracks(Step(x, op).rows, Apply(f, op))
  {
    match op
    case LoginOp(user, issued, expiresAt) => IssueTracks(x, f, user, issued, expiresAt);
    case RedeemOp(token, now, issued, expiresAt) => RefreshTracks(x, f, token, now, issued, expiresAt);
    case LogoutOp(token) => SignOutTracks(x, f, token);
    case ForceLogoutOp(user) => RevokeAllTracks(x, f, user);
  }

  /** Over every run the rows are those of the chains. */
  lemma {:induction false} RowsTrackRun(x: Tokens, f: Family, ops: seq<Op>)
    requires Tracks(x.rows, f) && IssuesFresh(x, ops)
    ensures AllFresh(f, ops) && Tracks(Rows(x, ops).rows, Run(f, ops))
    decreases |ops|
  {
    if ops != [] {
      StepTracks(x, f, ops[0]);
      RowsTrackRun(Step(x, ops[0]), Apply(f, ops[0]), ops[1..]);
    }
  }

  // ---------- the table ----------

  class TokenTable {
    const lifetime: int
    var rows: map<Jti, Row>
    ghost var parent: map<Jti, Jti>
    ghost var family: Family

    ghost function View(): Tokens
      reads this
    {
      Tokens(rows, parent)
    }

    ghost predicate Valid()
      reads this
    {
      Tracks(rows, family)
    }

    constructor (lifetime: int)
      ensures Valid() && View() == NO_ROWS && family == NOBODY && this.lifetime == lifetime
    {
      this.lifetime, rows, parent, family := lifetime, map[], map[], NOBODY;
    }

    // login, login_with_password: a new chain.
    method Login(user: UserId, now: int, issued: Jti)
      requires Valid() && issued !in rows
      modifies this
      ensures Valid() && View() == Issue(old(View()), user, issued, now + lifetime)
      ensures family == LoggedIn(old(family), user, issued, now + lifetime)
    {
      ghost var y, g := Issue(View(), user, issued, now + lifetime), LoggedIn(family, user, issued, now + lifetime);
      IssueTracks(View(), family, user, issued, now + lifetime);
      rows := rows[issued := Row(user, false, now + lifetime)];
      family := g;
      assert View() == y;
    }

    method Redeem(token: Option<Token>, now: int, issued: Jti) returns (r: Result<Jti, Error>)
      requires Valid() && issued !in rows
      modifies this
      ensures Valid() && (View(), r) == Refreshed(old(View()), token, now, issued, now + lifetime)
      ensures (family, r) == Redeemed(old(family), token, now, issued, now + lifetime)
    {
      RefreshTracks(View(), family, token, now, issued, now + lifetime);
      family := Redeemed(family, token, now, issued, now + lifetime).0;
      r := Exchange(token, now, issued);
    }

    // The request itself: the row checks, then the rotation.
    method Exchange(token: Option<Token>, now: int, issued: Jti) returns (r: Result<Jti, Error>)
      modifies this`rows, this`parent
      ensures (View(), r) == Refreshed(old(View()), token, now, issued, now + lifetime)
    {
      if token.None? { return Err(TokenInvalid); }
      if token.value.kind != Refresh { return Err(WrongType); }
      var t := token.value.jti;
      if t !in rows || rows[t].revoked { return Err(Revoked); }
      if rows[t].expiresAt < now { return Err(Expired); }
      var user := rows[t].user;
      rows := rows[t := rows[t].(revoked := true)];
      rows := rows[issued := Row(user, false, now + lifetime)];
      parent := parent[issued := t];
      return Ok(issued);
    }

    method Logout(token: Option<Token>)
      requires Valid()
      modifies this
      ensures Valid() && View() == SignedOut(old(View()), token)
      ensures family == LoggedOut(old(family), token)
    {
      SignOutTracks(View(), family, token);
      family := LoggedOut(family, token);
      if token.None? { return; }
      var t := token.value.jti;
      if t in rows {
        rows := rows[t := rows[t].(revoked := true)];
      }
    }

    method ForceLogout(user: UserId)
      requires Valid()
      modifies this
      ensures Valid() && View() == RevokedAll(old(View()), user)
      ensures family == ForcedOut(old(family), user)
    {
      RevokeAllTracks(View(), family, user);
      family := ForcedOut(family, user);
      rows := map t | t in rows ::
        if rows[t].user == user && !rows[t].revoked then rows[t].(revoked := true) else rows[t];
    }
  }
}
