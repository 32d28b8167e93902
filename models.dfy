/** The three tables of the auth database (users, auth_credentials,
    refresh_tokens), each keyed by its integer primary key, with the column
    constraints as the store invariant and the single-row queries the
    endpoints issue. */
module Models {
  import opened Options

  /** A `users` row; `created_at`/`updated_at` are server-side and not modelled. */
  datatype User = User(email: string, isActive: bool)

  /** An `auth_credentials` row; `user_id` is a unique foreign key to `users`. */
  datatype AuthCredentials = AuthCredentials(userId: nat, hashedPassword: string, passwordChangedAt: int)

  /** A `refresh_tokens` row; `user_id` is an indexed (not unique) foreign key,
      `token` is unique, `expires_at` is in seconds. */
  datatype RefreshToken = RefreshToken(userId: nat, token: string, expiresAt: int)

  /** The database: each table maps primary keys to rows; the `next...` fields
      are the serial sequences that hand out primary keys. */
  datatype Db = Db(
    users: map<nat, User>,
    credentials: map<nat, AuthCredentials>,
    refreshTokens: map<nat, RefreshToken>,
    nextUserId: nat,
    nextCredentialId: nat,
    nextTokenId: nat)

  /** A fresh database: empty tables, sequences starting at 1. */
  function EmptyDb(): (db: Db)
    ensures Valid(db)
  {
    Db(map[], map[], map[], 1, 1, 1)
  }

  /** `users.email` is unique. */
  ghost predicate UniqueEmails(users: map<nat, User>) {
    forall a, b :: a in users && b in users && users[a].email == users[b].email ==> a == b
  }

  /** `auth_credentials.user_id` is unique: at most one credential row per user. */
  ghost predicate OneCredentialPerUser(credentials: map<nat, AuthCredentials>) {
    forall a, b :: a in credentials && b in credentials && credentials[a].userId == credentials[b].userId ==> a == b
  }

  /** `refresh_tokens.token` is unique. */
  ghost predicate UniqueTokens(rows: map<nat, RefreshToken>) {
    forall a, b :: a in rows && b in rows && rows[a].token == rows[b].token ==> a == b
  }

  /** Both foreign keys point at existing users. */
  ghost predicate ForeignKeysHold(db: Db) {
    && (forall c :: c in db.credentials ==> db.credentials[c].userId in db.users)
    && (forall t :: t in db.refreshTokens ==> db.refreshTokens[t].userId in db.users)
  }

  /** Every primary key in use was handed out by its sequence. */
  ghost predicate KeysFromSequences(db: Db) {
    && (forall u :: u in db.users ==> u < db.nextUserId)
    && (forall c :: c in db.credentials ==> c < db.nextCredentialId)
    && (forall t :: t in db.refreshTokens ==> t < db.nextTokenId)
  }

  /** The constraints the schema declares. */
  ghost predicate Valid(db: Db) {
    && UniqueEmails(db.users)
    && OneCredentialPerUser(db.credentials)
    && UniqueTokens(db.refreshTokens)
    && ForeignKeysHold(db)
    && KeysFromSequences(db)
  }

  /** `query(User).filter(User.email == email).first()`, as a primary key. */
  ghost function UserByEmail(users: map<nat, User>, email: string): (r: Option<nat>)
    ensures r.Some? ==> r.value in users && users[r.value].email == email
    ensures r.None? <==> forall u :: u in users ==> users[u].email != email
    ensures UniqueEmails(users) ==> forall u :: u in users && users[u].email == email ==> r == Some(u)
  {
    if exists u :: u in users && users[u].email == email then
      Some(var u :| u in users && users[u].email == email; u)
    else
      None
  }

  /** `user.auth_credentials`: the credential row whose `user_id` is the user's id. */
  ghost function CredentialOf(credentials: map<nat, AuthCredentials>, userId: nat): (r: Option<nat>)
    ensures r.Some? ==> r.value in credentials && credentials[r.value].userId == userId
    ensures r.None? <==> forall c :: c in credentials ==> credentials[c].userId != userId
    ensures OneCredentialPerUser(credentials) ==>
      forall c :: c in credentials && credentials[c].userId == userId ==> r == Some(c)
  {
    if exists c :: c in credentials && credentials[c].userId == userId then
      Some(var c :| c in credentials && credentials[c].userId == userId; c)
    else
      None
  }

  /** `query(RefreshToken).filter(RefreshToken.token == token).first()`. */
  ghost function TokenRow(rows: map<nat, RefreshToken>, token: string): (r: Option<nat>)
    ensures r.Some? ==> r.value in rows && rows[r.value].token == token
    ensures r.None? <==> forall t :: t in rows ==> rows[t].token != token
    ensures UniqueTokens(rows) ==> forall t :: t in rows && rows[t].token == token ==> r == Some(t)
  {
    if exists t :: t in rows && rows[t].token == token then
      Some(var t :| t in rows && rows[t].token == token; t)
    else
      None
  }

  /** A user may hold several refresh-token rows at once: only `token` is unique. */
  lemma SeveralTokensPerUser(email: string, t1: string, t2: string)
    requires t1 != t2
    ensures var db := Db(map[1 := User(email, true)], map[],
                         map[1 := RefreshToken(1, t1, 0), 2 := RefreshToken(1, t2, 0)], 2, 1, 3);
      Valid(db) && db.refreshTokens[1].userId == db.refreshTokens[2].userId
  {
  }
}
