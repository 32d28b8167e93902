# Auth service token lifecycle, modelled in Dafny

This project models the core of the auth service: the `register`, `login` and
`refresh` endpoints, working on three tables (`users`, `auth_credentials`,
`refresh_tokens`), and the security helpers that mint access and refresh
tokens. Password hashing and JWT signing are kept abstract.

- `models.dfy` (module `Models`): the three tables as maps from primary key to
  row, the serial sequences that hand out keys, and the schema constraints as
  the store invariant `Valid`. These are: unique email, one credential row per
  user, unique token string, and both foreign keys pointing at existing users.
  It also holds the single-row queries the endpoints run (`.filter(...).first()`).
- `security.dfy` (module `Security`): the claim sets of the two token kinds,
  with expiry arithmetic from the configured 30-minute and 7-day lifetimes.
  `jwt.encode`, `pwd_context.hash` and `pwd_context.verify` are function
  values in a `Capabilities` record supplied at start-up. Being functions,
  they are deterministic. bcrypt's random salt becomes an explicit argument.
- `decimal.dfy` (module `Decimal`): `str(user.id)`, which is the token
  subject, and its inverse.
- `lifecycle.dfy` (module `Lifecycle`): each endpoint as a function from the
  database before a request to the database after it plus the response.
  Each `HTTPException` becomes an `Err` outcome. Lemmas state each endpoint's
  promises and prove that it keeps the invariant. One of those invariants is
  `Coherent`: every ledger row's token is the refresh token signed for that
  row's own owner and `expires_at`.
- `auth.dfy` (module `Auth`): class `AuthService`, whose fields are the
  tables and sequences. Its methods update those fields in place, as the
  request's session does. Each method is proved to make exactly the
  transition that `Lifecycle` specifies.
- `properties.dfy` (module `Properties`): properties of several requests in a
  row, including the scenario register, login, refresh, replay of the old
  refresh token, and login with a wrong password.

Each request reads the clock once, as an explicit `now` in whole seconds.

Behaviour of the code that the model keeps and proves:

- `refresh` never decodes the presented string, or checks its signature or
  its `refresh` claim. Liveness is just ledger membership plus
  `expires_at < now`, and a row expiring exactly at `now` is still live.
- Rotation updates the found row in place. It keeps the primary key and owner
  and changes only `token` and `expires_at`.
- Minting depends only on subject and expiry, so two refresh tokens for one
  user at one instant are the same string. This has two consequences:
  - A second login at the same instant breaks the unique token column. The
    commit then fails (`TokenConflict`, an unhandled HTTP 500) and the tables
    stay as they were (`SecondLoginAtSameInstantConflicts`).
  - A refresh at the instant the presented token was issued rewrites the row
    with what it already held. The old string then stays valid, so rotation
    is single-use only when the new token differs from the presented one
    (`RotationExclusive` against `RotationAtIssueInstantKeepsToken`).
  - Rotation is exclusive over any later run of requests only while the clock
    does not step back. A successful login by the token's owner, or a
    successful refresh of another of the owner's live rows, whose clock reads
    the instant a rotated-away token was issued stores that string again.
    Under an injective signer, no request whose clock reads any other instant
    does (`RequestKeepsRetired`). `RotatedTokenStaysRetired` proves
    exclusivity under a clock that never reads earlier.
- `login` does not look at `is_active`.

## Model

| member | source | states |
|---|---|---|
| Decimal.NatToString | services/auth/app/api/v1/endpoints/auth.py:69-70 | `str(user.id)` is a non-empty string of decimal digits with no leading zero |
| Decimal.ParseNatToString | services/auth/app/api/v1/endpoints/auth.py:69-70 | reading the subject string back as a number gives the user id again |
| Decimal.NatToStringInjective | services/auth/app/api/v1/endpoints/auth.py:112-113 | two user ids have the same subject string exactly when they are equal |
| Security.AccessClaimsExact | services/auth/app/core/security.py:9-11 | an access token's claims have exactly the keys `exp` and `sub`; `exp` is now + 30·60 s, `sub` is the subject, and there is no `refresh` claim |
| Security.RefreshClaimsExact | services/auth/app/core/security.py:14-16 | a refresh token's claims have exactly the keys `exp`, `sub` and `refresh`; `exp` is now + 7·86400 s and `refresh` is true |
| Security.AccessAndRefreshClaimsDiffer | services/auth/app/core/security.py:11-16 | the access and refresh claim sets for one subject at one instant are distinct |
| Security.RefreshOutlivesAccess | services/auth/app/core/config.py:13-14 | with the configured lifetimes a refresh token expires strictly after an access token minted at the same instant |
| Security.RefreshTokenInjective | services/auth/app/core/security.py:14-17 | with an injective signer, two refresh tokens are the same string exactly when they were minted for the same subject at the same instant |
| Models.EmptyDb | services/auth/app/database/models.py:7-39 | a database with empty tables satisfies every schema constraint |
| Models.UserByEmail | services/auth/app/api/v1/endpoints/auth.py:54 | the email query returns a user with that email, or none exactly when no user has it; with unique emails it returns the only such user |
| Models.CredentialOf | services/auth/app/database/models.py:16-22 | the `auth_credentials` relationship gives a row whose `user_id` is the user, or none exactly when no row has it; with unique `user_id` it is the only such row |
| Models.TokenRow | services/auth/app/api/v1/endpoints/auth.py:93-95 | the token query returns a row holding that string, or none exactly when no row does; with unique tokens it is the only such row |
| Models.SeveralTokensPerUser | services/auth/app/database/models.py:34-35 | a database where one user owns two refresh-token rows satisfies every constraint |
| Lifecycle.RegisterKeepsInvariant | services/auth/app/api/v1/endpoints/auth.py:20-45 | register keeps every schema constraint and the ledger's agreement with its claims |
| Lifecycle.RegisterRejectsTakenEmail | services/auth/app/api/v1/endpoints/auth.py:24-28 | register fails exactly when the email is already registered; it then answers "Email already registered" and changes nothing |
| Lifecycle.RegisterAddsOneUser | services/auth/app/api/v1/endpoints/auth.py:30-45 | a fresh email adds exactly one active user with a fresh id and exactly one credential row for that id holding `hash(password)`; the ledger is untouched and each of the two tables grows by one |
| Lifecycle.AuthenticateFindsUser | services/auth/app/api/v1/endpoints/auth.py:54-66 | the user check succeeds exactly when some user with the email has a credential row the password verifies against, and it yields that user |
| Lifecycle.LoginRejectsBadCredentials | services/auth/app/api/v1/endpoints/auth.py:54-66 | an unknown email, a missing credential row and a wrong password all give the same "Incorrect email or password", and only these do; the database is unchanged |
| Lifecycle.LoginIssuesTokens | services/auth/app/api/v1/endpoints/auth.py:68-84 | after a passed check, login returns the pair minted for `str(user.id)` and inserts exactly one ledger row (that user, that token, expiry now + 7 days) with users and credentials untouched; it fails with a conflict, changing no table, exactly when that token is already in the ledger |
| Lifecycle.LoginKeepsInvariant | services/auth/app/api/v1/endpoints/auth.py:68-79 | login keeps every schema constraint and the ledger's agreement with its claims |
| Lifecycle.RefreshRejectsUnknown | services/auth/app/api/v1/endpoints/auth.py:93-101 | refresh answers "Invalid refresh token" exactly when no row holds the string, and then changes nothing; users and credentials are never touched |
| Lifecycle.RefreshPurgesExpired | services/auth/app/api/v1/endpoints/auth.py:103-110 | a found row with `expires_at < now` (strictly) is deleted, that row only, and "Refresh token expired" is returned |
| Lifecycle.RefreshRotatesInPlace | services/auth/app/api/v1/endpoints/auth.py:111-123 | a live row keeps its key and owner and gets the new token and expiry now + 7 days; every other row and the ledger size are unchanged and both tokens returned are for the row's owner; a new token already held by another row makes the commit fail with nothing changed |
| Lifecycle.RefreshKeepsInvariant | services/auth/app/api/v1/endpoints/auth.py:86-123 | refresh keeps every schema constraint and the ledger's agreement with its claims |
| Auth.AuthService.constructor | services/auth/app/database/models.py:7-39 | a new service has empty tables, satisfies the invariant and holds the given capabilities |
| Auth.AuthService.Register | services/auth/app/api/v1/endpoints/auth.py:20-45 | the in-place insert of the user and credential rows ends in the state and response `Lifecycle.Register` gives, and keeps the invariant |
| Auth.AuthService.Authenticate | services/auth/app/api/v1/endpoints/auth.py:54-66 | the lookup of user and credentials and the password check, reading only, give the user that `Lifecycle.Authenticate` gives |
| Auth.AuthService.Login | services/auth/app/api/v1/endpoints/auth.py:47-84 | the in-place ledger insert ends in the state and response `Lifecycle.Login` gives, and keeps the invariant |
| Auth.AuthService.Refresh | services/auth/app/api/v1/endpoints/auth.py:86-123 | the in-place delete or row update ends in the state and response `Lifecycle.Refresh` gives, and keeps the invariant |
| Properties.RegisterTwiceFails | services/auth/app/api/v1/endpoints/auth.py:24-28 | once an email has registered, registering it again fails and changes nothing |
| Properties.LoginRefusalsIndistinguishable | services/auth/app/api/v1/endpoints/auth.py:55-66 | login with an unknown email and login with a rejected password give the identical outcome |
| Properties.RotationExclusive | services/auth/app/api/v1/endpoints/auth.py:93-118 | after a successful refresh whose new token differs from the presented one, presenting the old string again in the next request, at any time, is refused as unknown and changes nothing |
| Properties.RequestKeepsRetired | services/auth/app/api/v1/endpoints/auth.py:20-123 | with an injective signer, a register, login or refresh whose clock reads another instant than a refresh token's issue does not put that absent token back in the ledger |
| Properties.RunKeepsRetired | services/auth/app/api/v1/endpoints/auth.py:20-123 | with an injective signer, an absent refresh token stays absent through any run of requests whose clocks read later than its issue |
| Properties.RotatedTokenStaysRetired | services/auth/app/api/v1/endpoints/auth.py:93-118 | when no row was issued after the rotating refresh and later clocks read no earlier, a token rotated away stays out of the ledger through any later run of requests and is then refused as "Invalid refresh token" with nothing changed |
| Properties.RotationAtIssueInstantKeepsToken | services/auth/app/api/v1/endpoints/auth.py:112-118 | a refresh at the instant the presented token was issued returns that same string and leaves the database unchanged, so the string keeps working |
| Properties.SecondLoginAtSameInstantConflicts | services/auth/app/api/v1/endpoints/auth.py:70-79 | a second successful login at the same instant collides with the stored token: it fails and changes no table |
| Properties.SignedTokenIdentifiesRow | services/auth/app/core/security.py:14-17 | with an injective signer and an agreeing ledger, a row holding the token signed for a user id and expiry belongs to that user and has that expiry |
| Properties.LoginConflictsOnlyAtSameInstant | services/auth/app/api/v1/endpoints/auth.py:70-79 | with an injective signer, a login whose check passes conflicts exactly when the user already holds a row expiring now + 7 days |
| Properties.FreshUserTokenUnused | services/auth/app/api/v1/endpoints/auth.py:31-33 | with an injective signer, no token minted for a user id not yet in the table is in the ledger |
| Properties.LoginAfterRegister | services/auth/app/api/v1/endpoints/auth.py:30-84 | with an injective signer, the first login of a newly registered user with the right password succeeds and stores exactly one row for it |
| Properties.RefreshOnlySession | services/auth/app/api/v1/endpoints/auth.py:111-123 | with an injective signer, refreshing a user's only session later within its lifetime succeeds and returns a different refresh token |
| Properties.EndToEnd | services/auth/app/api/v1/endpoints/auth.py:20-123 | register returns an active user; login with the right password succeeds with non-empty bearer tokens (given a signer that never returns the empty string); a later refresh returns non-empty tokens and a different refresh token; replaying the old one is "Invalid refresh token"; a wrong password is "Incorrect email or password" |

## Left out

- bcrypt hashing and verification (`pwd_context`) and JWT signing (`jwt.encode`) are foreign libraries. They appear only as uninterpreted function values. Facts about them are preconditions where a lemma needs them: an injective signer, or a digest that verifies the right password.
- Time: each request reads the clock once as `now`, in whole seconds. In the code, `create_refresh_token` and `expires_at` read the clock separately, microseconds apart, and the JWT stores `exp` in whole seconds while the column keeps microseconds. The model treats these as one instant.
- Transactions, isolation and concurrent requests, such as racing registrations of one email or racing refreshes of one token, are not modelled. The model is sequential, and a failed commit is modelled as leaving the tables as they were.
- Database engine, connection pool and session lifecycle (`database/config.py`), settings loading from the environment and the secret key's value (`core/config.py`, except the two lifetimes), app and router wiring, and `setup.py` are not part of this model.
- Pydantic request and response schemas, `EmailStr` validation and the OAuth2 form (whose `username` carries the email) are not modelled. Emails and passwords are arbitrary strings.
- Server-side timestamps `created_at` and `updated_at`, and `ON DELETE CASCADE`, are not modelled, since no endpoint deletes a user. `password_changed_at` is set to `now`.
- Properties.RotatedTokenStaysRetired: assumes a clock that never reads earlier than the rotating refresh. When the clock steps back to a rotated-away token's issue instant, a successful login by the token's owner, or a successful refresh of another of the owner's live rows, stores that string again in the code too, so no exclusivity is promised then.
- Properties.EndToEnd: states that the returned tokens are non-empty only under the hypothesis `EncoderNonEmpty` that the signer never returns the empty string, since the signer is uninterpreted.
- Postgres sequences: a login whose insert fails still uses up a primary key. The model keeps this, and no lemma depends on it.
