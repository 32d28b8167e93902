/** The register / login / refresh endpoints as transitions of the database.
    Each takes the database before the request and returns the database after
    it together with the response; an HTTP error becomes an `Err` outcome. One
    `now` (seconds) stands for the wall clock read during the request. */
module Lifecycle {
  import opened Options
  import opened Decimal
  import opened Security
  import opened Models

  datatype AuthError =
    | EmailAlreadyRegistered     // 400 "Email already registered"
    | IncorrectEmailOrPassword   // 401 "Incorrect email or password"
    | InvalidRefreshToken        // 401 "Invalid refresh token"
    | RefreshTokenExpired        // 401 "Refresh token expired"
    | TokenConflict              // unique-constraint violation on refresh_tokens.token at commit

  datatype Result<T> = Ok(value: T) | Err(error: AuthError)

  /** The public view of a user returned by register. */
  datatype UserView = UserView(id: nat, email: string, isActive: bool)

  /** The token response; `tokenType` is always "bearer". */
  datatype TokenPair = TokenPair(accessToken: string, refreshToken: string, tokenType: string)

  /** The database after a request and the response to it. */
  datatype Step<T> = Step(db: Db, result: Result<T>)

  /** Every ledger row's token is the refresh token signed for its own owner and
      its own expiry: the ledger never disagrees with the claims it stores. */
  ghost predicate Coherent(db: Db, caps: Capabilities) {
    forall t :: t in db.refreshTokens ==> SignedFor(caps, db.refreshTokens[t])
  }

  /** The row's token is the refresh token for its owner expiring at its `expires_at`. */
  predicate SignedFor(caps: Capabilities, row: RefreshToken) {
    row.token == Encode(caps, RefreshClaims(NatToString(row.userId), row.expiresAt))
  }

  ghost predicate EmailRegistered(users: map<nat, User>, email: string) {
    exists u :: u in users && users[u].email == email
  }

  /** Some user with this email has a credential row the password verifies against. */
  ghost predicate PasswordAccepted(db: Db, caps: Capabilities, email: string, password: string) {
    exists u, c :: && u in db.users && db.users[u].email == email
                   && c in db.credentials && db.credentials[c].userId == u
                   && VerifyPassword(caps, password, db.credentials[c].hashedPassword)
  }

  ghost predicate TokenInUse(rows: map<nat, RefreshToken>, token: string) {
    exists t :: t in rows && rows[t].token == token
  }

  /** Some row other than `row` already holds `token`. */
  ghost predicate TokenHeldElsewhere(rows: map<nat, RefreshToken>, row: nat, token: string) {
    exists t :: t in rows && t != row && rows[t].token == token
  }

  /** The pair minted for a user id at `now`, as login and refresh return it. */
  function TokensFor(caps: Capabilities, userId: nat, now: int): TokenPair {
    var subject := NatToString(userId);
    TokenPair(CreateAccessToken(caps, subject, now), CreateRefreshToken(caps, subject, now), "bearer")
  }

  // Preservation of the store invariant by the three kinds of change the
  // endpoints make; kept apart so that each proof stays small.

  lemma AddUserKeepsValid(db: Db, caps: Capabilities, email: string, cred: AuthCredentials)
    requires Valid(db) && !EmailRegistered(db.users, email) && cred.userId == db.nextUserId
    ensures var db' := db.(users := db.users[db.nextUserId := User(email, true)],
                           nextUserId := db.nextUserId + 1,
                           credentials := db.credentials[db.nextCredentialId := cred],
                           nextCredentialId := db.nextCredentialId + 1);
      && Valid(db') && (Coherent(db, caps) ==> Coherent(db', caps))
      && db.nextUserId !in db.users && db.nextCredentialId !in db.credentials
      && |db'.users| == |db.users| + 1 && |db'.credentials| == |db.credentials| + 1
  {
  }

  lemma InsertTokenKeepsValid(db: Db, caps: Capabilities, row: RefreshToken)
    requires Valid(db) && row.userId in db.users && !TokenInUse(db.refreshTokens, row.token)
    ensures var db' := db.(refreshTokens := db.refreshTokens[db.nextTokenId := row], nextTokenId := db.nextTokenId + 1);
      && Valid(db')
      && (Coherent(db, caps) && SignedFor(caps, row)
          ==> Coherent(db', caps))
  {
  }

  lemma RotateTokenKeepsValid(db: Db, caps: Capabilities, t: nat, row: RefreshToken)
    requires Valid(db) && t in db.refreshTokens && row.userId == db.refreshTokens[t].userId
    requires !TokenHeldElsewhere(db.refreshTokens, t, row.token)
    ensures var db' := db.(refreshTokens := db.refreshTokens[t := row]);
      && Valid(db')
      && (Coherent(db, caps) && SignedFor(caps, row)
          ==> Coherent(db', caps))
  {
  }

  lemma DeleteTokenKeepsValid(db: Db, caps: Capabilities, t: nat)
    requires Valid(db)
    ensures var db' := db.(refreshTokens := db.refreshTokens - {t});
      Valid(db') && (Coherent(db, caps) ==> Coherent(db', caps))
  {
  }

  /** POST /register. */
  ghost function Register(db: Db, caps: Capabilities, email: string, password: string, salt: nat, now: int)
    : Step<UserView>
  {
    if EmailRegistered(db.users, email) then
      Step(db, Err(EmailAlreadyRegistered))
    else
      var u := db.nextUserId;
      var c := db.nextCredentialId;
      var db' := db.(users := db.users[u := User(email, true)],
                     nextUserId := u + 1,
                     credentials := db.credentials[c := AuthCredentials(u, GetPasswordHash(caps, password, salt), now)],
                     nextCredentialId := c + 1);
      Step(db', Ok(UserView(u, email, true)))
  }

  /** The user check at the start of POST /login: the user with this email, if
      it has a credential row and the password verifies against its digest. */
  ghost function Authenticate(db: Db, caps: Capabilities, email: string, password: string): Option<nat> {
    match UserByEmail(db.users, email)
    case None => None
    case Some(u) =>
      match CredentialOf(db.credentials, u)
      case None => None
      case Some(c) =>
        if VerifyPassword(caps, password, db.credentials[c].hashedPassword) then Some(u) else None
  }

  /** POST /login. */
  ghost function Login(db: Db, caps: Capabilities, email: string, password: string, now: int): Step<TokenPair> {
    match Authenticate(db, caps, email, password)
    case None => Step(db, Err(IncorrectEmailOrPassword))
    case Some(u) =>
      var minted := TokensFor(caps, u, now);
      var t := db.nextTokenId;
      if TokenInUse(db.refreshTokens, minted.refreshToken) then
        // the INSERT fails at commit; the sequence value it drew stays used
        Step(db.(nextTokenId := t + 1), Err(TokenConflict))
      else
        var row := RefreshToken(u, minted.refreshToken, RefreshExpiry(now));
        Step(db.(refreshTokens := db.refreshTokens[t := row], nextTokenId := t + 1), Ok(minted))
  }

  /** POST /refresh. The presented string is only looked up in the ledger, never decoded. */
  ghost function Refresh(db: Db, caps: Capabilities, presented: string, now: int): Step<TokenPair> {
    match TokenRow(db.refreshTokens, presented)
    case None => Step(db, Err(InvalidRefreshToken))
    case Some(t) =>
      var row := db.refreshTokens[t];
      if row.expiresAt < now then
        Step(db.(refreshTokens := db.refreshTokens - {t}), Err(RefreshTokenExpired))
      else
        var minted := TokensFor(caps, row.userId, now);
        if TokenHeldElsewhere(db.refreshTokens, t, minted.refreshToken) then
          // the UPDATE fails at commit and the transaction is rolled back
          Step(db, Err(TokenConflict))
        else
          var rotated := RefreshToken(row.userId, minted.refreshToken, RefreshExpiry(now));
          Step(db.(refreshTokens := db.refreshTokens[t := rotated]), Ok(minted))
  }

  // ---- register ----

  lemma RegisterKeepsInvariant(db: Db, caps: Capabilities, email: string, password: string, salt: nat, now: int)
    requires Valid(db)
    ensures var out := Register(db, caps, email, password, salt, now);
      Valid(out.db) && (Coherent(db, caps) ==> Coherent(out.db, caps))
  {
    if !EmailRegistered(db.users, email) {
      AddUserKeepsValid(db, caps, email, AuthCredentials(db.nextUserId, GetPasswordHash(caps, password, salt), now));
    }
  }

  /** A registered email is refused with "Email already registered" and nothing changes. */
  lemma RegisterRejectsTakenEmail(db: Db, caps: Capabilities, email: string, password: string, salt: nat, now: int)
    ensures var out := Register(db, caps, email, password, salt, now);
      && (out.result.Err? <==> EmailRegistered(db.users, email))
      && (out.result.Err? ==> out == Step(db, Err(EmailAlreadyRegistered)))
  {
  }

  /** A fresh email adds exactly one active user and exactly one credential row
      for it holding the password's digest; the ledger is untouched. */
  lemma RegisterAddsOneUser(db: Db, caps: Capabilities, email: string, password: string, salt: nat, now: int)
    requires Valid(db)
    requires !EmailRegistered(db.users, email)
    ensures var out := Register(db, caps, email, password, salt, now);
      && out.result.Ok?
      && var u := out.result.value.id;
      && out.result.value == UserView(u, email, true)
      && u !in db.users
      && out.db.users == db.users[u := User(email, true)]
      && db.nextCredentialId !in db.credentials
      && out.db.credentials ==
           db.credentials[db.nextCredentialId := AuthCredentials(u, GetPasswordHash(caps, password, salt), now)]
      && out.db.refreshTokens == db.refreshTokens
      && |out.db.users| == |db.users| + 1
      && |out.db.credentials| == |db.credentials| + 1
  {
    AddUserKeepsValid(db, caps, email, AuthCredentials(db.nextUserId, GetPasswordHash(caps, password, salt), now));
  }

  // ---- login ----

  lemma LoginKeepsInvariant(db: Db, caps: Capabilities, email: string, password: string, now: int)
    requires Valid(db)
    ensures var out := Login(db, caps, email, password, now);
      Valid(out.db) && (Coherent(db, caps) ==> Coherent(out.db, caps))
  {
    match Authenticate(db, caps, email, password)
    case None =>
    case Some(u) =>
      AuthenticateFindsUser(db, caps, email, password);
      var minted := TokensFor(caps, u, now);
      if !TokenInUse(db.refreshTokens, minted.refreshToken) {
        InsertTokenKeepsValid(db, caps, RefreshToken(u, minted.refreshToken, RefreshExpiry(now)));
      }
  }

  /** The user check succeeds exactly when some user with that email has a
      credential row the password verifies against, and then yields that user. */
  lemma AuthenticateFindsUser(db: Db, caps: Capabilities, email: string, password: string)
    requires Valid(db)
    ensures var r := Authenticate(db, caps, email, password);
      && (r.Some? <==> PasswordAccepted(db, caps, email, password))
      && (r.Some? ==> r.value in db.users && db.users[r.value].email == email
                      && UserByEmail(db.users, email) == r)
  {
    match UserByEmail(db.users, email)
    case None =>
    case Some(u) =>
      match CredentialOf(db.credentials, u)
      case None =>
      case Some(c) =>
  }

  /** Unknown email, missing credential row and wrong password all give the
      same "Incorrect email or password" and leave the database as it was. */
  lemma LoginRejectsBadCredentials(db: Db, caps: Capabilities, email: string, password: string, now: int)
    requires Valid(db)
    ensures var out := Login(db, caps, email, password, now);
      && (out.result == Err(IncorrectEmailOrPassword) <==> !PasswordAccepted(db, caps, email, password))
      && (!PasswordAccepted(db, caps, email, password) ==> out.db == db)
  {
    AuthenticateFindsUser(db, caps, email, password);
  }

  /** Accepted credentials mint the pair for `str(user.id)` and insert exactly one
      ledger row for that user, expiring 7 days from now, unless that token
      string is already in the ledger, in which case the insert fails and no
      table changes. */
  lemma LoginIssuesTokens(db: Db, caps: Capabilities, email: string, password: string, now: int)
    requires Valid(db)
    requires PasswordAccepted(db, caps, email, password)
    ensures var out := Login(db, caps, email, password, now);
      && UserByEmail(db.users, email).Some?
      && var u := UserByEmail(db.users, email).value;
      && var minted := TokensFor(caps, u, now);
      && (out.result.Ok? || out.result == Err(TokenConflict))
      && (out.result == Err(TokenConflict) <==> TokenInUse(db.refreshTokens, minted.refreshToken))
      && (out.result == Err(TokenConflict) ==>
            out.db.users == db.users && out.db.credentials == db.credentials && out.db.refreshTokens == db.refreshTokens)
      && (out.result.Ok? ==>
            && out.result.value == minted
            && db.nextTokenId !in db.refreshTokens
            && out.db.users == db.users && out.db.credentials == db.credentials
            && out.db.refreshTokens == db.refreshTokens[db.nextTokenId := RefreshToken(u, minted.refreshToken, RefreshExpiry(now))]
            && |out.db.refreshTokens| == |db.refreshTokens| + 1)
  {
    AuthenticateFindsUser(db, caps, email, password);
  }

  // ---- refresh ----

  lemma RefreshKeepsInvariant(db: Db, caps: Capabilities, presented: string, now: int)
    requires Valid(db)
    ensures var out := Refresh(db, caps, presented, now);
      Valid(out.db) && (Coherent(db, caps) ==> Coherent(out.db, caps))
  {
    match TokenRow(db.refreshTokens, presented)
    case None =>
    case Some(t) =>
      var row := db.refreshTokens[t];
      var minted := TokensFor(caps, row.userId, now);
      if row.expiresAt < now {
        DeleteTokenKeepsValid(db, caps, t);
      } else if !TokenHeldElsewhere(db.refreshTokens, t, minted.refreshToken) {
        RotateTokenKeepsValid(db, caps, t, RefreshToken(row.userId, minted.refreshToken, RefreshExpiry(now)));
      }
  }

  /** A string absent from the ledger is refused with "Invalid refresh token"
      and nothing changes; refresh never touches users or credentials. */
  lemma RefreshRejectsUnknown(db: Db, caps: Capabilities, presented: string, now: int)
    ensures var out := Refresh(db, caps, presented, now);
      && (out.result == Err(InvalidRefreshToken) <==> !TokenInUse(db.refreshTokens, presented))
      && (!TokenInUse(db.refreshTokens, presented) ==> out.db == db)
      && out.db.users == db.users && out.db.credentials == db.credentials
  {
  }

  /** A found row whose expiry is strictly before `now` is deleted (that row
      only) and "Refresh token expired" is returned; expiry equal to `now` is
      still live. */
  lemma RefreshPurgesExpired(db: Db, caps: Capabilities, presented: string, now: int, t: nat)
    requires Valid(db)
    requires t in db.refreshTokens && db.refreshTokens[t].token == presented
    ensures var out := Refresh(db, caps, presented, now);
      && (out.result == Err(RefreshTokenExpired) <==> db.refreshTokens[t].expiresAt < now)
      && (db.refreshTokens[t].expiresAt < now ==>
            && out.db == db.(refreshTokens := db.refreshTokens - {t})
            && |out.db.refreshTokens| == |db.refreshTokens| - 1)
  {
  }

  /** A live row is rotated in place: same primary key and owner, the new
      refresh token, expiry 7 days from now; every other row and the ledger's
      size are unchanged and both returned tokens are for the row's owner. If
      another row already holds the new token the update fails and nothing
      changes. */
  lemma RefreshRotatesInPlace(db: Db, caps: Capabilities, presented: string, now: int, t: nat)
    requires Valid(db)
    requires t in db.refreshTokens && db.refreshTokens[t].token == presented
    requires now <= db.refreshTokens[t].expiresAt
    ensures var out := Refresh(db, caps, presented, now);
      var row := db.refreshTokens[t];
      var minted := TokensFor(caps, row.userId, now);
      && (out.result.Ok? || out.result == Err(TokenConflict))
      && (out.result == Err(TokenConflict) <==> TokenHeldElsewhere(db.refreshTokens, t, minted.refreshToken))
      && (out.result == Err(TokenConflict) ==> out.db == db)
      && (out.result.Ok? ==>
            && out.result.value == minted
            && out.db == db.(refreshTokens := db.refreshTokens[t := RefreshToken(row.userId, minted.refreshToken, RefreshExpiry(now))])
            && t in out.db.refreshTokens && out.db.refreshTokens[t].userId == row.userId
            && (forall t' :: t' in db.refreshTokens && t' != t ==> t' in out.db.refreshTokens && out.db.refreshTokens[t'] == db.refreshTokens[t'])
            && |out.db.refreshTokens| == |db.refreshTokens|)
  {
    var row := db.refreshTokens[t];
    var rotated := RefreshToken(row.userId, TokensFor(caps, row.userId, now).refreshToken, RefreshExpiry(now));
    assert db.refreshTokens[t := rotated].Keys == db.refreshTokens.Keys;
  }
}
