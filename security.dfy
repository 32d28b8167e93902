/** Token minting and password capabilities of the auth service's security
    helpers. The JWT signer and the bcrypt hasher/verifier are foreign code and
    stay uninterpreted: they are function values supplied once at start-up. */
module Security {
  import opened Options

  /** Configured token lifetimes (config.py defaults) and time units in seconds. */
  const AccessTokenExpireMinutes: int := 30
  const RefreshTokenExpireDays: int := 7
  const SecondsPerMinute: int := 60
  const SecondsPerDay: int := 86400

  /** A value in a JWT claim set: the `exp` timestamp (seconds since the epoch,
      as the JWT library stores it), the `sub` string or the `refresh` flag. */
  datatype ClaimValue = Timestamp(seconds: int) | Text(text: string) | Flag(flag: bool)

  /** The dictionary handed to the JWT encoder. */
  type Claims = map<string, ClaimValue>

  /** Process-wide configuration and foreign capabilities.
      `encode(claims, key, algorithm)` stands for `jwt.encode`; being a function
      it is deterministic in its claims. `hash(password, salt)` stands for
      `pwd_context.hash`, whose random salt is made an explicit argument;
      `verify(plain, digest)` stands for `pwd_context.verify`. */
  datatype Capabilities = Capabilities(
    encode: (Claims, string, string) -> string,
    secretKey: string,
    algorithm: string,
    hash: (string, nat) -> string,
    verify: (string, string) -> bool)

  function AccessExpiry(now: int): int {
    now + AccessTokenExpireMinutes * SecondsPerMinute
  }

  function RefreshExpiry(now: int): int {
    now + RefreshTokenExpireDays * SecondsPerDay
  }

  function AccessClaims(subject: string, expire: int): Claims {
    map["exp" := Timestamp(expire), "sub" := Text(subject)]
  }

  function RefreshClaims(subject: string, expire: int): Claims {
    map["exp" := Timestamp(expire), "sub" := Text(subject), "refresh" := Flag(true)]
  }

  /** Both token kinds are signed with the same key and algorithm. */
  function Encode(caps: Capabilities, claims: Claims): string {
    caps.encode(claims, caps.secretKey, caps.algorithm)
  }

  function CreateAccessToken(caps: Capabilities, subject: string, now: int): string {
    Encode(caps, AccessClaims(subject, AccessExpiry(now)))
  }

  function CreateRefreshToken(caps: Capabilities, subject: string, now: int): string {
    Encode(caps, RefreshClaims(subject, RefreshExpiry(now)))
  }

  function GetPasswordHash(caps: Capabilities, password: string, salt: nat): string {
    caps.hash(password, salt)
  }

  function VerifyPassword(caps: Capabilities, plain: string, hashed: string): bool {
    caps.verify(plain, hashed)
  }

  // Readers of a claim set, used to state what a minted token carries.

  function SubjectOf(claims: Claims): (r: Option<string>)
    ensures r.Some? <==> "sub" in claims && claims["sub"].Text?
  {
    if "sub" in claims && claims["sub"].Text? then Some(claims["sub"].text) else None
  }

  function ExpiryOf(claims: Claims): (r: Option<int>)
    ensures r.Some? <==> "exp" in claims && claims["exp"].Timestamp?
  {
    if "exp" in claims && claims["exp"].Timestamp? then Some(claims["exp"].seconds) else None
  }

  predicate IsRefreshClaimSet(claims: Claims) {
    "refresh" in claims && claims["refresh"] == Flag(true)
  }

  /** An idealised signer: distinct claim sets never share a token. This is an
      assumption about the foreign encoder and is only ever a precondition. */
  ghost predicate EncoderInjective(caps: Capabilities) {
    forall c1: Claims, c2: Claims :: Encode(caps, c1) == Encode(caps, c2) ==> c1 == c2
  }

  /** An access token's claims are exactly `exp` (now + 30 minutes) and `sub`. */
  lemma AccessClaimsExact(subject: string, now: int)
    ensures var c := AccessClaims(subject, AccessExpiry(now));
      && c.Keys == {"exp", "sub"}
      && ExpiryOf(c) == Some(now + 30 * 60)
      && SubjectOf(c) == Some(subject)
      && !IsRefreshClaimSet(c)
  {
  }

  /** A refresh token's claims are exactly `exp` (now + 7 days), `sub` and `refresh = true`. */
  lemma RefreshClaimsExact(subject: string, now: int)
    ensures var c := RefreshClaims(subject, RefreshExpiry(now));
      && c.Keys == {"exp", "sub", "refresh"}
      && ExpiryOf(c) == Some(now + 7 * 86400)
      && SubjectOf(c) == Some(subject)
      && IsRefreshClaimSet(c)
  {
  }

  /** The two claim sets minted for one subject at one instant always differ. */
  lemma AccessAndRefreshClaimsDiffer(subject: string, now: int)
    ensures AccessClaims(subject, AccessExpiry(now)) != RefreshClaims(subject, RefreshExpiry(now))
  {
    assert "refresh" in RefreshClaims(subject, RefreshExpiry(now));
  }

  /** With the configured lifetimes a refresh token outlives an access token minted with it. */
  lemma RefreshOutlivesAccess(now: int)
    ensures AccessExpiry(now) < RefreshExpiry(now)
  {
  }

  /** A signer that never returns the empty string; like injectivity, an
      assumption about the foreign encoder, used only as a precondition. */
  ghost predicate EncoderNonEmpty(caps: Capabilities) {
    forall c: Claims :: Encode(caps, c) != ""
  }

  /** Under an injective signer, two refresh tokens are the same string exactly
      when they were minted for the same subject at the same instant. */
  lemma RefreshTokenInjective(caps: Capabilities, subject1: string, now1: int, subject2: string, now2: int)
    requires EncoderInjective(caps)
    ensures CreateRefreshToken(caps, subject1, now1) == CreateRefreshToken(caps, subject2, now2)
            <==> subject1 == subject2 && now1 == now2
  {
    var c1 := RefreshClaims(subject1, RefreshExpiry(now1));
    var c2 := RefreshClaims(subject2, RefreshExpiry(now2));
    if Encode(caps, c1) == Encode(caps, c2) {
      assert c1 == c2;
      assert c1["sub"] == c2["sub"] && c1["exp"] == c2["exp"];
    }
  }
}
