/** The auth endpoints as a service object whose fields are the three tables
    and their primary-key sequences; each endpoint updates them in place, as
    the request's database session does, and is proved to make exactly the
    transition `Lifecycle` specifies. */
module Auth {
  import opened Options
  import opened Security
  import opened Models
  import opened Lifecycle

  class AuthService {
    const caps: Capabilities
    var users: map<nat, User>
    var credentials: map<nat, AuthCredentials>
    var refreshTokens: map<nat, RefreshToken>
    var nextUserId: nat
    var nextCredentialId: nat
    var nextTokenId: nat

    /** The database as a value. */
    function State(): Db
      reads this
    {
      Db(users, credentials, refreshTokens, nextUserId, nextCredentialId, nextTokenId)
    }

    ghost predicate Valid()
      reads this
    {
      Models.Valid(State()) && Coherent(State(), caps)
    }

    constructor (caps: Capabilities)
      ensures Valid() && this.caps == caps && State() == EmptyDb()
    {
      this.caps := caps;
      users, credentials, refreshTokens := map[], map[], map[];
      nextUserId, nextCredentialId, nextTokenId := 1, 1, 1;
    }

    method Register(email: string, password: string, salt: nat, now: int) returns (r: Result<UserView>)
      requires Valid()
      modifies this
      ensures Valid()
      ensures Step(State(), r) == Lifecycle.Register(old(State()), caps, email, password, salt, now)
    {
      RegisterKeepsInvariant(State(), caps, email, password, salt, now);
      if exists u :: u in users && users[u].email == email {
        r := Err(EmailAlreadyRegistered);
        return;
      }
      // db.add(user); db.flush()
      var u := nextUserId;
      users := users[u := User(email, true)];
      nextUserId := nextUserId + 1;
      // db.add(auth_credentials); db.commit()
      var c := nextCredentialId;
      credentials := credentials[c := AuthCredentials(u, GetPasswordHash(caps, password, salt), now)];
      nextCredentialId := nextCredentialId + 1;
      r := Ok(UserView(u, email, true));
    }

    /** The user lookup and password check of login; reads the tables only. */
    method Authenticate(email: string, password: string) returns (found: Option<nat>)
      requires Valid()
      ensures found == Lifecycle.Authenticate(State(), caps, email, password)
    {
      if !exists u :: u in users && users[u].email == email {
        assert UserByEmail(users, email) == None;
        return None;
      }
      var u :| u in users && users[u].email == email;
      assert UserByEmail(users, email) == Some(u);
      if !exists c :: c in credentials && credentials[c].userId == u {
        assert CredentialOf(credentials, u) == None;
        return None;
      }
      var c :| c in credentials && credentials[c].userId == u;
      assert CredentialOf(credentials, u) == Some(c);
      if !VerifyPassword(caps, password, credentials[c].hashedPassword) {
        return None;
      }
      return Some(u);
    }

    method Login(email: string, password: string, now: int) returns (r: Result<TokenPair>)
      requires Valid()
      modifies this
      ensures Valid()
      ensures Step(State(), r) == Lifecycle.Login(old(State()), caps, email, password, now)
    {
      ghost var db := State();
      var found := Authenticate(email, password);
      if found.None? {
        r := Err(IncorrectEmailOrPassword);
      } else {
        var u := found.value;
        var minted := TokensFor(caps, u, now);
        var t := nextTokenId;
        nextTokenId := nextTokenId + 1;
        if exists t' :: t' in refreshTokens && refreshTokens[t'].token == minted.refreshToken {
          assert TokenInUse(db.refreshTokens, minted.refreshToken);
          r := Err(TokenConflict);
        } else {
          assert !TokenInUse(db.refreshTokens, minted.refreshToken);
          refreshTokens := refreshTokens[t := RefreshToken(u, minted.refreshToken, RefreshExpiry(now))];
          r := Ok(minted);
        }
      }
      assert Step(State(), r) == Lifecycle.Login(db, caps, email, password, now);
      LoginKeepsInvariant(db, caps, email, password, now);
    }

    method Refresh(presented: string, now: int) returns (r: Result<TokenPair>)
      requires Valid()
      modifies this
      ensures Valid()
      ensures Step(State(), r) == Lifecycle.Refresh(old(State()), caps, presented, now)
    {
      ghost var db := State();
      RefreshKeepsInvariant(db, caps, presented, now);
      if !exists t :: t in refreshTokens && refreshTokens[t].token == presented {
        assert TokenRow(db.refreshTokens, presented) == None;
        r := Err(InvalidRefreshToken);
        return;
      }
      var t :| t in refreshTokens && refreshTokens[t].token == presented;
      assert TokenRow(db.refreshTokens, presented) == Some(t);
      var row := refreshTokens[t];
      if row.expiresAt < now {
        // db.delete(token); db.commit()
        refreshTokens := refreshTokens - {t};
        r := Err(RefreshTokenExpired);
        assert State() == db.(refreshTokens := db.refreshTokens - {t});
        return;
      }
      var minted := TokensFor(caps, row.userId, now);
      if exists t' :: t' in refreshTokens && t' != t && refreshTokens[t'].token == minted.refreshToken {
        assert TokenHeldElsewhere(db.refreshTokens, t, minted.refreshToken);
        r := Err(TokenConflict);
        return;
      }
      assert !TokenHeldElsewhere(db.refreshTokens, t, minted.refreshToken);
      // token.token = ...; token.expires_at = ...: the same row, updated in place
      var rotated := RefreshToken(row.userId, minted.refreshToken, RefreshExpiry(now));
      refreshTokens := refreshTokens[t := rotated];
      r := Ok(minted);
      assert State() == db.(refreshTokens := db.refreshTokens[t := rotated]);
    }
  }
}
