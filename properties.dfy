/** Properties of sequences of requests: registration uniqueness, rotation
    exclusivity and where deterministic minting breaks it, collisions of
    minted tokens, and the register / login / refresh scenario end to end. */
module Properties {
  import opened Options
  import opened Decimal
  import opened Security
  import opened Models
  import opened Lifecycle

  /** A second registration of an email that registered once is refused and changes nothing. */
  lemma RegisterTwiceFails(db: Db, caps: Capabilities, email: string,
                           p1: string, s1: nat, n1: int, p2: string, s2: nat, n2: int)
    requires Valid(db)
    requires Register(db, caps, email, p1, s1, n1).result.Ok?
    ensures var db1 := Register(db, caps, email, p1, s1, n1).db;
      Register(db1, caps, email, p2, s2, n2) == Step(db1, Err(EmailAlreadyRegistered))
  {
    var db1 := Register(db, caps, email, p1, s1, n1).db;
    RegisterRejectsTakenEmail(db, caps, email, p1, s1, n1);
    RegisterAddsOneUser(db, caps, email, p1, s1, n1);
    assert db1.users[db.nextUserId].email == email;
    RegisterRejectsTakenEmail(db1, caps, email, p2, s2, n2);
  }

  /** The three refusals of login are one and the same response: an unknown
      email and a password rejected for any email cannot be told apart. */
  lemma LoginRefusalsIndistinguishable(db: Db, caps: Capabilities, unknown: string, email: string,
                                       p1: string, p2: string, n1: int, n2: int)
    requires Valid(db)
    requires !EmailRegistered(db.users, unknown)
    requires !PasswordAccepted(db, caps, email, p2)
    ensures Login(db, caps, unknown, p1, n1) == Login(db, caps, email, p2, n2) == Step(db, Err(IncorrectEmailOrPassword))
  {
    LoginRejectsBadCredentials(db, caps, unknown, p1, n1);
    LoginRejectsBadCredentials(db, caps, email, p2, n2);
  }

  /** Rotation exclusivity for the very next request: once a refresh has
      rotated a row to a token that differs from the presented one, presenting
      the old string again, at any time, is refused as unknown and changes
      nothing. `RotatedTokenStaysRetired` covers any longer run of requests. */
  lemma RotationExclusive(db: Db, caps: Capabilities, presented: string, now: int, later: int)
    requires Valid(db)
    requires Refresh(db, caps, presented, now).result.Ok?
    requires Refresh(db, caps, presented, now).result.value.refreshToken != presented
    ensures var db' := Refresh(db, caps, presented, now).db;
      Refresh(db', caps, presented, later) == Step(db', Err(InvalidRefreshToken))
  {
    var out := Refresh(db, caps, presented, now);
    RefreshRejectsUnknown(db, caps, presented, now);
    var t := TokenRow(db.refreshTokens, presented).value;
    RefreshPurgesExpired(db, caps, presented, now, t);
    RefreshRotatesInPlace(db, caps, presented, now, t);
    assert out.db.refreshTokens[t].token != presented;
    assert !TokenInUse(out.db.refreshTokens, presented);
    RefreshRejectsUnknown(out.db, caps, presented, later);
  }

  /** A request to one of the three endpoints, with the instant its clock reads. */
  datatype Request =
    | RegisterCall(email: string, password: string, salt: nat, now: int)
    | LoginCall(email: string, password: string, now: int)
    | RefreshCall(presented: string, now: int)

  /** The database after one request. */
  ghost function Apply(db: Db, caps: Capabilities, req: Request): Db {
    match req
    case RegisterCall(email, password, salt, now) => Register(db, caps, email, password, salt, now).db
    case LoginCall(email, password, now) => Login(db, caps, email, password, now).db
    case RefreshCall(presented, now) => Refresh(db, caps, presented, now).db
  }

  /** The database after a run of requests, served one after another. */
  ghost function Run(db: Db, caps: Capabilities, reqs: seq<Request>): Db
    decreases |reqs|
  {
    if reqs == [] then db else Run(Apply(db, caps, reqs[0]), caps, reqs[1..])
  }

  /** No row of the ledger was issued after `now`: the clock has not stepped
      back behind any token it minted. */
  ghost predicate IssuedBy(db: Db, now: int) {
    forall t :: t in db.refreshTokens ==> db.refreshTokens[t].expiresAt <= RefreshExpiry(now)
  }

  ghost predicate AllAtOrAfter(reqs: seq<Request>, now: int) {
    forall i :: 0 <= i < |reqs| ==> reqs[i].now >= now
  }

  /** Under an injective signer, a refresh token minted at `issuedAt` that is
      not in the ledger is not put back by a request whose clock reads a
      different instant: login and refresh only store tokens minted at the
      request's own instant. */
  lemma RequestKeepsRetired(db: Db, caps: Capabilities, req: Request, subject: string, issuedAt: int)
    requires EncoderInjective(caps)
    requires !TokenInUse(db.refreshTokens, CreateRefreshToken(caps, subject, issuedAt))
    requires req.now != issuedAt
    ensures !TokenInUse(Apply(db, caps, req).refreshTokens, CreateRefreshToken(caps, subject, issuedAt))
  {
    match req
    case RegisterCall(_, _, _, _) =>
    case LoginCall(email, password, now) => {
      var found := Authenticate(db, caps, email, password);
      if found.Some? {
        RefreshTokenInjective(caps, NatToString(found.value), now, subject, issuedAt);
      }
    }
    case RefreshCall(presented, now) => {
      var found := TokenRow(db.refreshTokens, presented);
      if found.Some? {
        RefreshTokenInjective(caps, NatToString(db.refreshTokens[found.value].userId), now, subject, issuedAt);
      }
    }
  }

  /** Under an injective signer, a retired refresh token stays out of the
      ledger through any run of requests whose clocks read later than its
      issue, so presenting it at the end is refused as unknown. */
  lemma {:induction false} RunKeepsRetired(db: Db, caps: Capabilities, reqs: seq<Request>,
                                           subject: string, issuedAt: int, now: int)
    requires EncoderInjective(caps)
    requires !TokenInUse(db.refreshTokens, CreateRefreshToken(caps, subject, issuedAt))
    requires issuedAt < now && AllAtOrAfter(reqs, now)
    ensures !TokenInUse(Run(db, caps, reqs).refreshTokens, CreateRefreshToken(caps, subject, issuedAt))
    decreases |reqs|
  {
    if reqs != [] {
      RequestKeepsRetired(db, caps, reqs[0], subject, issuedAt);
      assert AllAtOrAfter(reqs[1..], now) by {
        forall i | 0 <= i < |reqs[1..]| ensures reqs[1..][i].now >= now {
          assert reqs[1..][i] == reqs[i + 1];
        }
      }
      RunKeepsRetired(Apply(db, caps, reqs[0]), caps, reqs[1..], subject, issuedAt, now);
    }
  }

  /** Rotation exclusivity over any later run: on an agreeing ledger under an
      injective signer, when no row was issued after the rotating refresh's
      instant and every later request's clock reads no earlier than it, a
      token rotated away is never again accepted, whatever register, login
      and refresh requests come in between. */
  lemma RotatedTokenStaysRetired(db: Db, caps: Capabilities, presented: string, now: int,
                                 later: seq<Request>, replayAt: int)
    requires Valid(db) && Coherent(db, caps) && EncoderInjective(caps)
    requires IssuedBy(db, now)
    requires Refresh(db, caps, presented, now).result.Ok?
    requires Refresh(db, caps, presented, now).result.value.refreshToken != presented
    requires AllAtOrAfter(later, now)
    ensures var db' := Run(Refresh(db, caps, presented, now).db, caps, later);
      && !TokenInUse(db'.refreshTokens, presented)
      && Refresh(db', caps, presented, replayAt) == Step(db', Err(InvalidRefreshToken))
  {
    var out := Refresh(db, caps, presented, now);
    RefreshRejectsUnknown(db, caps, presented, now);
    var t := TokenRow(db.refreshTokens, presented).value;
    var row := db.refreshTokens[t];
    RefreshPurgesExpired(db, caps, presented, now, t);
    RefreshRotatesInPlace(db, caps, presented, now, t);
    // the presented string is the token minted for the row's owner at its issue instant
    var subject := NatToString(row.userId);
    var issuedAt := row.expiresAt - RefreshTokenExpireDays * SecondsPerDay;
    assert SignedFor(caps, row);
    assert presented == CreateRefreshToken(caps, subject, issuedAt);
    RefreshTokenInjective(caps, subject, now, subject, issuedAt);
    assert issuedAt < now;
    assert !TokenInUse(out.db.refreshTokens, presented);
    RunKeepsRetired(out.db, caps, later, subject, issuedAt, now);
    RefreshRejectsUnknown(Run(out.db, caps, later), caps, presented, replayAt);
  }

  /** Rotation is not exclusive when the refresh happens at the instant the
      presented token was issued: minting is deterministic, so the "new" token
      is the old string, the row is rewritten with what it held, and the
      presented string keeps working. */
  lemma RotationAtIssueInstantKeepsToken(db: Db, caps: Capabilities, presented: string, now: int, t: nat)
    requires Valid(db) && Coherent(db, caps)
    requires t in db.refreshTokens && db.refreshTokens[t].token == presented
    requires db.refreshTokens[t].expiresAt == RefreshExpiry(now)
    ensures var out := Refresh(db, caps, presented, now);
      && out.result.Ok?
      && out.result.value.refreshToken == presented
      && out.db == db
      && Refresh(out.db, caps, presented, now) == out
  {
    var row := db.refreshTokens[t];
    assert SignedFor(caps, row);
    RefreshRotatesInPlace(db, caps, presented, now, t);
    assert !TokenHeldElsewhere(db.refreshTokens, t, presented);
    assert db.refreshTokens[t := row] == db.refreshTokens;
  }

  /** A second successful password check for the same user at the same
      instant mints the token the first login stored, so its insert violates
      the unique token column: the request fails and no table changes. */
  lemma SecondLoginAtSameInstantConflicts(db: Db, caps: Capabilities, email: string, password: string, now: int)
    requires Valid(db)
    requires Login(db, caps, email, password, now).result.Ok?
    ensures var db1 := Login(db, caps, email, password, now).db;
      var out := Login(db1, caps, email, password, now);
      && out.result == Err(TokenConflict)
      && out.db.users == db1.users && out.db.credentials == db1.credentials
      && out.db.refreshTokens == db1.refreshTokens
  {
    LoginRejectsBadCredentials(db, caps, email, password, now);
    LoginIssuesTokens(db, caps, email, password, now);
    LoginKeepsInvariant(db, caps, email, password, now);
    var db1 := Login(db, caps, email, password, now).db;
    var u := UserByEmail(db.users, email).value;
    var token := TokensFor(caps, u, now).refreshToken;
    // users and credentials are untouched, so the same check passes again
    assert PasswordAccepted(db1, caps, email, password);
    LoginIssuesTokens(db1, caps, email, password, now);
    assert db1.refreshTokens[db.nextTokenId].token == token;
    assert TokenInUse(db1.refreshTokens, token);
  }

  /** Under an injective signer and an agreeing ledger, a ledger row holding the
      refresh token signed for `userId` and `expire` is that user's row
      with that expiry. */
  lemma SignedTokenIdentifiesRow(db: Db, caps: Capabilities, t: nat, userId: nat, expire: int)
    requires Coherent(db, caps) && EncoderInjective(caps)
    requires t in db.refreshTokens
    requires db.refreshTokens[t].token == Encode(caps, RefreshClaims(NatToString(userId), expire))
    ensures db.refreshTokens[t].userId == userId && db.refreshTokens[t].expiresAt == expire
  {
    var row := db.refreshTokens[t];
    assert SignedFor(caps, row);
    var c1 := RefreshClaims(NatToString(row.userId), row.expiresAt);
    var c2 := RefreshClaims(NatToString(userId), expire);
    assert c1 == c2;
    assert c1["sub"] == c2["sub"] && c1["exp"] == c2["exp"];
    NatToStringInjective(row.userId, userId);
  }

  /** Under an injective signer, a login whose password check passes fails
      with a token conflict exactly when that user already holds a row
      expiring 7 days from now, i.e. was issued a token at this same instant. */
  lemma LoginConflictsOnlyAtSameInstant(db: Db, caps: Capabilities, email: string, password: string, now: int)
    requires Valid(db) && Coherent(db, caps) && EncoderInjective(caps)
    requires PasswordAccepted(db, caps, email, password)
    ensures var u := UserByEmail(db.users, email);
      && u.Some?
      && (Login(db, caps, email, password, now).result == Err(TokenConflict) <==>
            exists t :: t in db.refreshTokens && db.refreshTokens[t].userId == u.value
                        && db.refreshTokens[t].expiresAt == RefreshExpiry(now))
  {
    LoginIssuesTokens(db, caps, email, password, now);
    var u := UserByEmail(db.users, email).value;
    var token := TokensFor(caps, u, now).refreshToken;
    if TokenInUse(db.refreshTokens, token) {
      var t :| t in db.refreshTokens && db.refreshTokens[t].token == token;
      SignedTokenIdentifiesRow(db, caps, t, u, RefreshExpiry(now));
    }
    if exists t :: t in db.refreshTokens && db.refreshTokens[t].userId == u
                   && db.refreshTokens[t].expiresAt == RefreshExpiry(now) {
      var t :| t in db.refreshTokens && db.refreshTokens[t].userId == u
               && db.refreshTokens[t].expiresAt == RefreshExpiry(now);
      assert SignedFor(caps, db.refreshTokens[t]);
      assert db.refreshTokens[t].token == token;
    }
  }

  /** A user that has just been created holds no ledger row, so under an
      injective signer no token minted for it is in use yet. */
  lemma FreshUserTokenUnused(db: Db, caps: Capabilities, userId: nat, now: int)
    requires Valid(db) && Coherent(db, caps) && EncoderInjective(caps)
    requires userId !in db.users
    ensures !TokenInUse(db.refreshTokens, TokensFor(caps, userId, now).refreshToken)
  {
    var token := TokensFor(caps, userId, now).refreshToken;
    if TokenInUse(db.refreshTokens, token) {
      var t :| t in db.refreshTokens && db.refreshTokens[t].token == token;
      SignedTokenIdentifiesRow(db, caps, t, userId, RefreshExpiry(now));
      assert false;
    }
  }

  /** The first login of a user registered on a database that knew neither
      its email nor its id succeeds and stores one row for it. */
  lemma LoginAfterRegister(db: Db, caps: Capabilities, email: string, password: string, salt: nat, t0: int, t1: int)
    requires Valid(db) && Coherent(db, caps) && EncoderInjective(caps)
    requires !EmailRegistered(db.users, email)
    requires VerifyPassword(caps, password, GetPasswordHash(caps, password, salt))
    ensures var u := db.nextUserId;
      var reg := Register(db, caps, email, password, salt, t0);
      var login := Login(reg.db, caps, email, password, t1);
      && reg.result == Ok(UserView(u, email, true))
      && login.result == Ok(TokensFor(caps, u, t1))
      && Valid(login.db) && Coherent(login.db, caps)
      && login.db.users == reg.db.users && login.db.credentials == reg.db.credentials
      && login.db.refreshTokens ==
           db.refreshTokens[db.nextTokenId := RefreshToken(u, TokensFor(caps, u, t1).refreshToken, RefreshExpiry(t1))]
      && u !in db.users && db.nextTokenId !in db.refreshTokens
  {
    var u := db.nextUserId;
    var cid := db.nextCredentialId;
    RegisterAddsOneUser(db, caps, email, password, salt, t0);
    RegisterKeepsInvariant(db, caps, email, password, salt, t0);
    var db1 := Register(db, caps, email, password, salt, t0).db;
    assert db1.credentials[cid] == AuthCredentials(u, GetPasswordHash(caps, password, salt), t0);
    assert db1.users[u].email == email;
    assert PasswordAccepted(db1, caps, email, password);
    LoginIssuesTokens(db1, caps, email, password, t1);
    LoginKeepsInvariant(db1, caps, email, password, t1);
    assert UserByEmail(db1.users, email) == Some(u);
    FreshUserTokenUnused(db, caps, u, t1);
  }

  /** Refreshing a user's only session at a later instant within its lifetime
      rotates it to a different token. */
  lemma RefreshOnlySession(db: Db, caps: Capabilities, u: nat, r: nat, t1: int, t2: int)
    requires Valid(db) && Coherent(db, caps) && EncoderInjective(caps)
    requires r in db.refreshTokens
    requires db.refreshTokens[r] == RefreshToken(u, TokensFor(caps, u, t1).refreshToken, RefreshExpiry(t1))
    requires forall t :: t in db.refreshTokens && t != r ==> db.refreshTokens[t].userId != u
    requires t1 < t2 <= RefreshExpiry(t1)
    ensures var token1 := TokensFor(caps, u, t1).refreshToken;
      var rot := Refresh(db, caps, token1, t2);
      && rot.result == Ok(TokensFor(caps, u, t2))
      && TokensFor(caps, u, t2).refreshToken != token1
  {
    var token1 := TokensFor(caps, u, t1).refreshToken;
    var token2 := TokensFor(caps, u, t2).refreshToken;
    RefreshRotatesInPlace(db, caps, token1, t2, r);
    if TokenHeldElsewhere(db.refreshTokens, r, token2) {
      var t :| t in db.refreshTokens && t != r && db.refreshTokens[t].token == token2;
      SignedTokenIdentifiesRow(db, caps, t, u, RefreshExpiry(t2));
      assert false;
    }
    RefreshTokenInjective(caps, NatToString(u), t1, NatToString(u), t2);
  }

  /** Register, log in, refresh, presenting the old refresh token again, and
      logging in with a wrong password, in that order. The capabilities are
      assumed to behave: the signer is injective and never returns the empty
      string, and the digest stored at registration verifies the right
      password and rejects the wrong one. The refresh happens at a later
      instant than the login, within the token's lifetime. */
  lemma EndToEnd(db: Db, caps: Capabilities, email: string, password: string, wrong: string, salt: nat,
                 t0: int, t1: int, t2: int, t3: int, t4: int)
    requires Valid(db) && Coherent(db, caps) && EncoderInjective(caps) && EncoderNonEmpty(caps)
    requires !EmailRegistered(db.users, email)
    requires VerifyPassword(caps, password, GetPasswordHash(caps, password, salt))
    requires !VerifyPassword(caps, wrong, GetPasswordHash(caps, password, salt))
    requires t1 < t2 <= RefreshExpiry(t1)
    ensures var reg := Register(db, caps, email, password, salt, t0);
      var login := Login(reg.db, caps, email, password, t1);
      && reg.result == Ok(UserView(db.nextUserId, email, true))
      && login.result.Ok?
      && login.result.value.accessToken != "" && login.result.value.refreshToken != ""
      && login.result.value.tokenType == "bearer"
      && var rot := Refresh(login.db, caps, login.result.value.refreshToken, t2);
      && rot.result.Ok?
      && rot.result.value.accessToken != "" && rot.result.value.refreshToken != ""
      && rot.result.value.refreshToken != login.result.value.refreshToken
      && Refresh(rot.db, caps, login.result.value.refreshToken, t3) == Step(rot.db, Err(InvalidRefreshToken))
      && Login(rot.db, caps, email, wrong, t4) == Step(rot.db, Err(IncorrectEmailOrPassword))
  {
    var u := db.nextUserId;
    var cid := db.nextCredentialId;
    LoginAfterRegister(db, caps, email, password, salt, t0, t1);
    RegisterAddsOneUser(db, caps, email, password, salt, t0);
    var db1 := Register(db, caps, email, password, salt, t0).db;
    var db2 := Login(db1, caps, email, password, t1).db;
    var token1 := TokensFor(caps, u, t1).refreshToken;

    RefreshOnlySession(db2, caps, u, db.nextTokenId, t1, t2);
    RotationExclusive(db2, caps, token1, t2, t3);

    RefreshRejectsUnknown(db2, caps, token1, t2);
    RefreshKeepsInvariant(db2, caps, token1, t2);
    var db3 := Refresh(db2, caps, token1, t2).db;
    assert db3.credentials[cid].hashedPassword == GetPasswordHash(caps, password, salt);
    assert !PasswordAccepted(db3, caps, email, wrong);
    LoginRejectsBadCredentials(db3, caps, email, wrong, t4);
  }
}
