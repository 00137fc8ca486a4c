# fastapi-auth-jwt, modelled in Dafny

This project models the core of `fastapi-auth-jwt`, a JWT authentication layer for FastAPI.
It covers these parts:

- **Token codec** (`JWTHandler`). It signs a payload with an optional `exp` claim. It also
  verifies a token and gives back its claims with `exp` removed.
- **Token lifecycle** (`JWTAuthBackend`). This is a process-wide singleton. It issues tokens
  and records each token's payload in a repository. It authenticates a token by decoding it
  and then checking the decoded claims against the recorded payload. It can also invalidate
  a token.
- **Request middleware** (`JWTAuthenticationMiddleware`). It lets excluded paths through.
  It reads a `Bearer` token from the `Authorization` header, or from the cookie of that
  name. It maps every failure to an HTTP status and detail.
- **Settings and storage**:
  - `AuthConfig` and its validation;
  - the storage kinds and storage configurations, including the Redis URL and `repr`;
  - `cast_to_seconds`;
  - the singleton metaclass the repositories use;
  - the repository factory;
  - the in-memory repository with lazy expiry.

## How the model is built

The model is functional. Every operation that touches shared state takes the state and
returns the new state together with its result (`Wrappers.Step`). Exceptions are
`Errors.Error` values inside a `Result`. The clock is a parameter `now`, counted in whole
seconds.

Other stand-ins:

- **Store failures.** When a repository call fails, the failure arrives as the parameter
  `fault`.
- **Authentication inside the middleware.** The backend's `authenticate` is a function
  parameter.
- **Claim maps.** A claim map is an ordered list with unique keys, and it follows Python
  `dict` semantics (`Claims`).
- **Signing.** Signing is abstract. A token is its claim set together with the secret and
  algorithm it was signed with. Text that cannot be parsed is `Malformed(reason)`.

The model follows the signing library the package calls (PyJWT 2.x), in this order:

1. The token is parsed.
2. The algorithm must be the one allowed.
3. The algorithm must be a supported HMAC algorithm.
4. The signature is checked.
5. Required claims are checked.
6. `iat`, if present, must be an integer.
7. `nbf` is checked: the token is not valid while `nbf > now`.
8. `exp` is checked: the token is expired once `exp <= now`.
9. `aud`, if present and truthy, is refused, because the package never names an expected
   audience.

Steps 6 to 9 happen only when the signature is verified. Releases from 2.10 on add three
checks:

- `decode` refuses an `iat` in the future, before it looks at `exp`;
- `decode` refuses a non-string `sub` or `jti`, after it looks at `exp`;
- `encode` refuses a non-string `iss` with a `TypeError`.

The model does not check these. Instead, every lemma that encodes a payload and then decodes
it requires a payload that passes the checks that could change its outcome. For the
lemmas that end in an expired or immature token, that means an `iat` already reached and
a string `iss`; the round-trip lemmas also need string `sub` and `jti`. With those
requirements the lemmas hold for every 2.x release.

Where the repository's tests or documentation disagree with its code, the model follows
the code:

- `invalidate_token` deletes the record without decoding the token.
- `create_token` does not reject a zero or negative lifetime.
- A `set` with no expiration keeps an expiry recorded earlier for the same key.
- `expiration_seconds = 0` is accepted, although the error message says "greater than 0".
- After logout, `tests/component_test.py:127-128` expects 401 "User not found.". No code
  of the package produces that detail. A token without a record authenticates as no user,
  and the middleware lets the request proceed.
- `tests/test_middleware.py:230-242` reads a class attribute `_default_excluded_urls`,
  which the middleware does not have. The default exclusion list is empty
  (`middleware.py:33`).

Two defects of the code are recorded under "## Findings". For each one, the model contains
the code as written and also a corrected version, which the rest of the model uses.

## Model

| member | source | states |
|---|---|---|
| StorageType.Values | fastapi_auth_jwt/config/storage_type.py:19-31 | `values()` lists the members' string values in declaration order, which is exactly `["redis", "memory"]` |
| StorageType.FromValue | fastapi_auth_jwt/config/storage_type.py:16-17 | a string is accepted as a storage kind exactly when it is one of `values()`, and the accepted member has that string as its value; anything else is a validation error |
| StorageType.MembersAreExhaustiveAndDistinct | fastapi_auth_jwt/config/storage_type.py:16-17 | every kind is listed once, and different members have different values |
| StorageType.KindRoundTrip | fastapi_auth_jwt/config/storage_type.py:16-31 | member to value and back to member gives the same member |
| StorageType.ValueRoundTrip | fastapi_auth_jwt/config/storage_type.py:16-31 | an accepted string, turned into a member and back into a value, gives the same string |
| Storage.DefaultKinds | fastapi_auth_jwt/config/storage.py:23 | a `StorageConfig` left at its defaults uses memory storage; a `RedisConfig` uses redis |
| Storage.NewStorageConfig | fastapi_auth_jwt/config/storage.py:23-31 | with no kind, memory is used; a kind string is accepted exactly when it is a member value, and the result's kind renders back to that string; extra fields are kept |
| Storage.GetUrl | fastapi_auth_jwt/config/storage.py:116-120 | a non-empty `url` is returned verbatim; otherwise the URL is `redis://`, then `:<password>@` exactly when a non-empty password is given, then `host:port/db` |
| Storage.UrlOverridesFields | fastapi_auth_jwt/config/storage.py:116-117 | a non-empty `url` is returned verbatim, whatever the host, port, db and password are |
| Storage.EmptyMeansAbsent | fastapi_auth_jwt/config/storage.py:116-119 | an empty `url` or `password` gives the same URL as a missing one |
| Storage.BuiltUrlShape | fastapi_auth_jwt/config/storage.py:118-120 | a built URL starts with `redis://` and ends with `/` followed by the db index, and parsing that ending as an integer gives the db back |
| Storage.ReprAttributes | fastapi_auth_jwt/config/storage.py:75-77 | the repr's first attribute is `storage_type` with the kind's value, and its last attribute is `url` with the URL `get_url` returns |
| Storage.Repr | fastapi_auth_jwt/config/storage.py:75-79 | the repr text opens with `RedisConfig(storage_type=<value>, ` and closes with `, url=<get_url()>)` |
| TimeHelpers.TruncReal | fastapi_auth_jwt/utils/time_helpers.py:24-25 | `int(x)` of a float drops the fractional part, rounding toward zero for both signs |
| TimeHelpers.TruncationIsUnique | fastapi_auth_jwt/utils/time_helpers.py:24-25 | at most one integer is the truncation of a given number |
| TimeHelpers.TruncDiv | fastapi_auth_jwt/utils/time_helpers.py:26-27 | whole seconds of a `timedelta` are the microsecond count divided by 10^6 and rounded toward zero, for negative durations too |
| TimeHelpers.TruncDivIsTruncation | fastapi_auth_jwt/utils/time_helpers.py:26-27 | that integer division agrees with truncating the exact real quotient |
| TimeHelpers.CastToSeconds | fastapi_auth_jwt/utils/time_helpers.py:7-28 | `None` maps to no expiration and only `None` does; an `int` is kept; a finite float or a `timedelta` is truncated toward zero; a float NaN is `int()`'s `ValueError` and an infinity its `OverflowError`; any other type is `TypeError("Invalid expiration type")`; these are the only failures |
| TimeHelpers.TimedeltaAgreesWithFloat | fastapi_auth_jwt/utils/time_helpers.py:24-27 | a `timedelta` and a float with the same number of seconds normalise to the same value |
| TimeHelpers.CastIsIdempotent | fastapi_auth_jwt/utils/time_helpers.py:7-28 | normalising an already normalised value changes nothing |
| TimeHelpers.ZeroIsPresent | fastapi_auth_jwt/utils/time_helpers.py:20-27 | a zero `int`, float or `timedelta` normalises to a present `0`, not to "no expiration" |
| TimeHelpers.CastPreservesTruthiness | fastapi_auth_jwt/utils/time_helpers.py:22-23 | for an `int`, the normalised value is non-zero exactly when the input is truthy |
| TimeHelpers.SubSecondIsTruthyButCastsToZero | fastapi_auth_jwt/utils/time_helpers.py:24-27 | a non-zero float or `timedelta` shorter than a second is truthy, yet it normalises to `0`, which the repository reads as "no expiry" |
| Text.ContainsIffOccurs | fastapi_auth_jwt/backend.py:55 | substring `in` is true exactly when the needle occurs in the text at some index |
| Text.Lower | fastapi_auth_jwt/middleware.py:57 | `lower()` keeps the length and lower-cases each ASCII letter in place |
| Text.IntToStringRoundTrip | fastapi_auth_jwt/config/storage.py:119-120 | `int(str(n)) == n` for every integer |
| Text.JoinEnds | fastapi_auth_jwt/config/storage.py:78 | a join of two or more parts starts with the first part and the separator, and ends with the separator and the last part |
| Errors.Wrap | fastapi_auth_jwt/backend.py:44-45 | a wrapping exception's message is the context, then `": "`, then exactly the message of the cause |
| Claims.PyEqReflexive | fastapi_auth_jwt/backend.py:88 | every claim value is equal to itself under Python `==`, nested lists included |
| Claims.PyEqSymmetric | fastapi_auth_jwt/backend.py:88 | Python `==` on claim values is symmetric |
| Claims.PyEqScalars | fastapi_auth_jwt/backend.py:88 | for non-list values, `==` is identity, except that `True == 1` and `False == 0` |
| Claims.Put | fastapi_auth_jwt/utils/jwt_token.py:22 | after `d[k] = v`, looking up `k` gives `v` and every other key is unchanged; an existing key keeps its position, and a new key goes last |
| Claims.Pop | fastapi_auth_jwt/utils/jwt_token.py:45 | after `d.pop(k, None)`, `k` is absent and every other key is unchanged; popping an absent key changes nothing |
| Claims.Update | fastapi_auth_jwt/utils/jwt_token.py:23 | after `d.update(o)`, a key of `o` maps to `o`'s value and any other key maps to `d`'s value |
| Claims.UpdateKeyOrder | fastapi_auth_jwt/utils/jwt_token.py:23 | after `d.update(o)`, the keys of `d` keep their order, and the keys of `o` that `d` lacked follow in `o`'s order |
| Claims.PutThenPop | fastapi_auth_jwt/utils/jwt_token.py:45 | putting a fresh key and popping it again gives back the original map, order included |
| Singleton.Call | fastapi_auth_jwt/repository/base.py:18-22 | a class that already has an instance gets that instance back, and its constructor is not run; otherwise a successful construction is registered; other classes' entries are kept |
| Singleton.LaterCallsShareTheInstance | fastapi_auth_jwt/repository/base.py:18-22 | after a successful first construction, every later construction returns the same instance and leaves the registry unchanged, whatever it is given |
| Singleton.ClassesAreIndependent | fastapi_auth_jwt/repository/base.py:16-22 | constructing one class never changes another class's registered instance |
| LocalRepository.Delete | fastapi_auth_jwt/repository/local.py:139-140 | the key leaves both maps, every other key keeps its value and expiry, and deleting an absent key is a no-op |
| LocalRepository.Get | fastapi_auth_jwt/repository/local.py:84-87 | an entry past its expiry is deleted and reported absent; otherwise the state is unchanged and the stored value, if any, is returned |
| LocalRepository.Set | fastapi_auth_jwt/repository/local.py:113-118 | the value is always written, even when the expiration is refused; the call fails exactly when normalising the expiration fails, with that error; a non-zero normalised expiration records `now + seconds`; `None` or zero leaves the expiry map as it was |
| LocalRepository.EmptyIsValid | fastapi_auth_jwt/repository/local.py:31-32 | a new repository has no expiry without a value |
| LocalRepository.GetPreservesValidity | fastapi_auth_jwt/repository/local.py:84-87 | `get` keeps every expiring key backed by a value |
| LocalRepository.SetPreservesValidity | fastapi_auth_jwt/repository/local.py:113-118 | `set` keeps every expiring key backed by a value |
| LocalRepository.DeletePreservesValidity | fastapi_auth_jwt/repository/local.py:139-140 | `delete` keeps every expiring key backed by a value |
| LocalRepository.ExpiryIsStrict | fastapi_auth_jwt/repository/local.py:84-86 | a value set for `n` seconds is served up to and including `now + n`, and after that it is gone from both maps |
| LocalRepository.SetWithoutExpiryKeepsOldExpiry | fastapi_auth_jwt/repository/local.py:113-118 | re-setting a key without an expiration keeps the expiry recorded before |
| LocalRepository.DeleteThenGet | fastapi_auth_jwt/repository/local.py:139-140 | after `delete`, `get` returns nothing at any time and changes nothing |
| LocalRepository.SetWithoutExpiryNeverLapses | fastapi_auth_jwt/repository/local.py:113-115 | a key set with no expiry, and none recorded before, is served at every later time |
| LocalRepository.Apply | fastapi_auth_jwt/repository/base.py:25-84 | each of the interface's three requests (`get`, `set`, `delete`) touches only its own key: every other key keeps its value and its expiry, and no other key gains or loses either |
| LocalRepository.RunPreservesValidity | fastapi_auth_jwt/repository/local.py:31-140 | any sequence of requests, at any clock readings, keeps every expiring key backed by a value |
| RepositoryFactory.Build | fastapi_auth_jwt/repository/factory.py:20-30 | constructing the local class always succeeds; constructing the Redis class fails exactly when it is given a plain `StorageConfig`, which has no `get_url` (an `AttributeError`), or a URL that does not start with `redis://`, `rediss://` or `unix://` (the client's `ValueError`) |
| RepositoryFactory.BuiltUrlIsAccepted | fastapi_auth_jwt/repository/redis.py:13-15 | a Redis configuration without an explicit `url` always builds a URL that passes the client's scheme check, so the client is built |
| RepositoryFactory.ForeignSchemeIsRefused | fastapi_auth_jwt/repository/redis.py:15 | an explicit `http://` URL, or `REDIS://` in capitals, is refused with the client's scheme `ValueError` |
| RepositoryFactory.ClassFor | fastapi_auth_jwt/repository/factory.py:12-16 | the memory kind selects the local repository and only it; redis selects the Redis repository |
| RepositoryFactory.Create | fastapi_auth_jwt/repository/factory.py:9-18 | the instance returned belongs to the class the kind selects; memory never fails; a failure happens exactly for a redis kind when no Redis instance exists yet and the config is a plain `StorageConfig` or its URL lacks a Redis scheme; a failure reports the construction's error and leaves the registry as it was; existing instances are kept |
| RepositoryFactory.SelectionIgnoresOtherFields | fastapi_auth_jwt/repository/factory.py:12-16 | two configurations of the same kind get repositories of the same class |
| RepositoryFactory.MemoryRepositoryIsShared | fastapi_auth_jwt/repository/factory.py:20-24 | creating the in-memory repository twice yields one instance, built from the first configuration |
| AuthToken.ValidateExpirationSeconds | fastapi_auth_jwt/config/auth_token.py:11-19 | ints, floats and strings go through `int()`: floats truncate, strings parse, a NaN is a `ValueError` and an infinity an `OverflowError`; a `Decimal` is compared with 0 as it is, then accepted only when it is whole; a negative result and an unparsable string are `ValueError`s; an object that cannot be compared with 0 is a `TypeError`; every accepted value is at least 0 |
| AuthToken.NewAuthConfig | fastapi_auth_jwt/config/auth_token.py:6-19 | each field that is not given takes its default; construction succeeds exactly when the given lifetime validates; the stored lifetime is never negative |
| AuthToken.ExpirationMinutes | fastapi_auth_jwt/config/auth_token.py:21-23 | minutes are missing exactly when the lifetime is 0; otherwise `m*60 <= seconds < m*60 + 60` |
| AuthToken.DefaultsAndMinutes | fastapi_auth_jwt/config/auth_token.py:6-23 | the defaults are `default_secret`, `HS256` and 3600 seconds, which is 60 minutes; 1800 seconds is 30 minutes |
| AuthToken.ValidationBoundary | fastapi_auth_jwt/config/auth_token.py:13-17 | 0 and -0.5 are accepted, as 0; -1 is refused with the "greater than 0" message; `Decimal("60")` is accepted as 60 and `Decimal("0.5")` is refused |
| AuthToken.MinutesAreFloorDivision | fastapi_auth_jwt/config/auth_token.py:21-23 | the minutes are the unique `m` with `m*60 <= seconds < m*60 + 60` |
| JwtToken.NewHandler | fastapi_auth_jwt/utils/jwt_token.py:8-11 | the handler keeps the given secret, and its algorithm defaults to `HS256` |
| JwtToken.Sign | fastapi_auth_jwt/utils/jwt_token.py:24 | signing succeeds exactly for a payload with a JSON form under a supported algorithm; a payload with no JSON form is a `TypeError` |
| JwtToken.ExpiryStamp | fastapi_auth_jwt/utils/jwt_token.py:21-22 | a falsy expiration stamps nothing; an `int` stamps `now + n`; a finite float stamps `now` plus its seconds rounded down; a NaN is a `ValueError` and an infinity an `OverflowError`; a truthy `timedelta` or other object is a `TypeError` from the `timedelta(seconds=...)` call; nothing else fails |
| JwtToken.EncodedClaims | fastapi_auth_jwt/utils/jwt_token.py:20-23 | each key of the signed claim set comes from the keyword claims first, then from the stamped `exp`, then from the payload; with no stamp and no keyword claims the payload is signed as it is; a stamp on a payload without `exp` appends `exp` last |
| JwtToken.ClassifyEncodeError | fastapi_auth_jwt/utils/jwt_token.py:26-31 | signing-library errors pass through unchanged; a `TypeError` becomes "Invalid type in payload: " followed by the cause; anything else becomes a bare exception with the encoding context |
| JwtToken.ClassifyDecodeError | fastapi_auth_jwt/utils/jwt_token.py:47-50 | signing-library errors pass through unchanged; anything else becomes a bare exception with the decoding context |
| JwtToken.Encode | fastapi_auth_jwt/utils/jwt_token.py:13-31 | the signed claims are the payload, with `exp` set when the expiration is truthy, and then the keyword claims on top; success is exactly a stampable expiration, a supported algorithm and a JSON-shaped claim set; errors are only type errors or wrapped errors |
| JwtToken.FirstMissing | fastapi_auth_jwt/utils/jwt_token.py:39-44 | finds the first required claim, in order, that is absent or `None`; nothing is reported exactly when all are present |
| JwtToken.IntOf | fastapi_auth_jwt/utils/jwt_token.py:39-44 | `int()` of a decoded time claim: integers and booleans convert, a string converts exactly when it parses, a bad string is a `ValueError`, and any other value is a `TypeError` |
| JwtToken.TimeClaim | fastapi_auth_jwt/utils/jwt_token.py:39-44 | an absent time claim gives no instant; a convertible one gives its integer; the only library error it raises is the claim's own "must be an integer" decode error |
| JwtToken.Verify | fastapi_auth_jwt/utils/jwt_token.py:39-44 | the library's `decode` accepts only a well-formed token with its required claims, and it returns that token's claims; when the signature is verified, the algorithm and secret match, `iat` is an integer, `nbf` has been reached, `exp` has not, and no audience is named; conversely, a token meeting all of these under a supported algorithm is accepted |
| JwtToken.Decode | fastapi_auth_jwt/utils/jwt_token.py:33-50 | decoding succeeds exactly when the library's `decode` does, and then returns the library's claims with `exp` popped, so they never contain `exp` and agree with the token on every other claim; a verified result comes from the handler's algorithm and secret; a library error passes through unchanged, and any other error carries the decoding context |
| JwtToken.EncodeSucceeds | fastapi_auth_jwt/utils/jwt_token.py:20-25 | a JSON-shaped payload under a supported algorithm encodes whenever its expiration can be stamped; for a payload without `exp` of its own, `exp` is present exactly when the expiration is truthy; it holds the stamped instant, which is `now + n` for an `int` |
| JwtToken.RoundTrip | fastapi_auth_jwt/utils/jwt_token.py:13-50 | before expiry, decoding an encoded payload gives back that payload exactly, in order, the empty payload included; this holds for every payload without `exp` whose `nbf` and `iat` have been reached, that names no audience, and whose `iss`, `sub` and `jti` are strings |
| JwtToken.ExpiresAtStamp | fastapi_auth_jwt/utils/jwt_token.py:21-44 | at or after the stamped instant, the same token is refused as expired, provided its `iat` and its `nbf` have been reached and its `iss` is a string |
| JwtToken.AudienceIsRefused | fastapi_auth_jwt/utils/jwt_token.py:39-44 | a token naming an audience is refused with "Invalid audience", because `decode` never names one |
| JwtToken.NonIntegerIssuedAtIsRefused | fastapi_auth_jwt/utils/jwt_token.py:39-44 | a token whose `iat` does not convert to an integer is refused with "Issued At claim (iat) must be an integer." |
| JwtToken.OtherAlgorithmIsRefused | fastapi_auth_jwt/utils/jwt_token.py:39-44 | a handler set up for another algorithm refuses the token, whatever the secret |
| JwtToken.OtherSecretIsRefused | fastapi_auth_jwt/utils/jwt_token.py:39-44 | a token signed with another secret fails signature verification |
| JwtToken.MissingClaimIsReported | fastapi_auth_jwt/utils/jwt_token.py:39-44 | requiring a claim the token lacks fails with an error that names that claim |
| JwtToken.UnverifiedDecodeAcceptsAnything | fastapi_auth_jwt/utils/jwt_token.py:39-46 | with signature verification off, every well-formed token decodes, expired or not, under any key |
| JwtToken.FutureNotBeforeIsImmature | fastapi_auth_jwt/utils/jwt_token.py:23-44 | an `nbf` merged in as a keyword claim holds the token back until that instant, for a payload with an integer `iat` and a string `iss` |
| JwtToken.UnserializablePayloadIsTypeError | fastapi_auth_jwt/utils/jwt_token.py:24-29 | a payload with no JSON form is refused with "Invalid type in payload: ...", and nothing is signed |
| Backend.Construct | fastapi_auth_jwt/backend.py:16-36 | an initialised instance is returned unchanged and the arguments are ignored; otherwise the settings or their defaults are recorded, the repository the storage kind selects is created, and the codec uses the configured secret and algorithm; a repository failure leaves the instance allocated but uninitialised |
| Backend.HasInstance | fastapi_auth_jwt/backend.py:98-100 | there is an instance exactly when the class has ever been constructed |
| Backend.LaterConstructionsShareTheBackend | fastapi_auth_jwt/backend.py:27 | once the backend is initialised, every later construction returns it and changes nothing |
| Backend.FirstCandidate | fastapi_auth_jwt/backend.py:53-57 | finds the first settings field whose name contains `expire`, `expiration` or `exp`; no field is found exactly when none contains one |
| Backend.ResolveExpiry | fastapi_auth_jwt/backend.py:52-57 | an explicitly given lifetime is used as it is |
| Backend.DefaultLifetimeIsConfigured | fastapi_auth_jwt/backend.py:52-57 | without an explicit lifetime, the configured `expiration_seconds` is used, because neither `secret` nor `algorithm` names an expiration |
| Backend.CreateToken | fastapi_auth_jwt/backend.py:47-70 | a token is issued exactly when encoding succeeds, the store works and the lifetime normalises; each failure is reported with its own error; an issued token is signed with the backend's secret and algorithm, its payload is recorded, and its claims equal the payload apart from `exp`; a truthy lifetime stamps `exp` at `now` plus the lifetime rounded down; a non-zero normalised lifetime records the expiry `now + seconds`, which is `exp` or one second after it; the store stays consistent; a store failure leaves the store unchanged |
| Backend.EncodableLifetime | fastapi_auth_jwt/backend.py:59 | corrected: a `timedelta` reaches `encode` as its float seconds; every other lifetime is passed on unchanged; truthiness and the normalised seconds are kept |
| Backend.CreateTokenAsWritten | fastapi_auth_jwt/backend.py:47-70 | the code as written refuses a truthy `timedelta` lifetime with a payload type error before anything is stored |
| Backend.AsWrittenAgreesExceptOnTimedelta | fastapi_auth_jwt/backend.py:59 | for every lifetime except a `timedelta`, the code as written and the corrected version behave identically |
| Backend.TimedeltaLifetime | fastapi_auth_jwt/backend.py:59-66 | a one-minute `timedelta` issues no token as written; corrected, it issues a token whose `exp`, and whose store expiry, is `now + 60` |
| Backend.SubSecondLifetimeExpires | fastapi_auth_jwt/backend.py:59-66 | a positive float or `timedelta` under a second issues a token whose `exp` is the issuing instant, records no expiry, and is refused as expired from then on, provided the payload's `iat` and `nbf` have been reached and its `iss` is a string |
| Backend.ZeroLifetimeRecordsNoExpiry | fastapi_auth_jwt/backend.py:59-66 | a zero lifetime issues a token without `exp` and records no expiry |
| Backend.StoreFailureIssuesNoToken | fastapi_auth_jwt/backend.py:61-68 | when the store refuses the write, no token is returned, and the error is "Failed to store token in cache: " followed by the cause |
| Backend.Attr | fastapi_auth_jwt/backend.py:91-96 | a user attribute comes from the recorded payload, and a recorded `token` claim wins over the token itself |
| Backend.FirstMismatch | fastapi_auth_jwt/backend.py:85-89 | finds the first decoded claim that is neither `None` nor present-and-equal in the record; nothing is found exactly when every claim agrees |
| Backend.ExtraRecordKeysAreIgnored | fastapi_auth_jwt/backend.py:85-89 | keys the record has beyond the decoded claims never cause a mismatch |
| Backend.RecordMatchesItself | fastapi_auth_jwt/backend.py:85-89 | a claim set never mismatches a record that holds exactly those claims |
| Backend.GetCurrentUser | fastapi_auth_jwt/backend.py:75-96 | a decode error is raised before the store is read; a lookup failure is wrapped; for a decodable token, no record or an empty one gives no user, a non-empty record that agrees with every decoded claim gives the user made of the token and that record, and otherwise the error names the first disagreeing claim; these are the only outcomes |
| Backend.InvalidateToken | fastapi_auth_jwt/backend.py:72-73 | the token's record and expiry are removed; every other record and every other expiry is untouched, and no record appears; a store failure propagates unwrapped |
| Backend.Authenticate | fastapi_auth_jwt/backend.py:38-45 | the user lookup's result and signing-library errors pass through unchanged; every other failure is wrapped as an unexpected authentication error |
| Backend.CreateThenAuthenticate | fastapi_auth_jwt/backend.py:47-96 | a token issued for a non-empty payload authenticates, until it expires, as a user carrying that token and exactly that payload; this holds for every payload without `exp` whose `nbf` and `iat` have been reached, that names no audience, and whose `iss`, `sub` and `jti` are strings |
| Backend.ExpiredTokenIsRefused | fastapi_auth_jwt/backend.py:76 | once the lifetime has run out, the token is refused as expired, before the store is consulted, provided its `iat` and its `nbf` have been reached and its `iss` is a string |
| Backend.InvalidatedTokenHasNoUser | fastapi_auth_jwt/backend.py:72-83 | after invalidation, no lookup of the token yields a user |
| Backend.MalformedTokenIsDecodeError | fastapi_auth_jwt/backend.py:38-43 | unparsable text fails as a decode error, which is a kind of invalid token, and the store is untouched |
| Backend.EmptyPayloadHasNoUser | fastapi_auth_jwt/backend.py:82-83 | a token issued for the empty payload never yields a user, because its record is empty |
| Backend.AlteredRecordIsRefused | fastapi_auth_jwt/backend.py:85-89 | a record that contradicts a decoded claim makes the token invalid, and the error names the first such claim |
| Middleware.Excluded | fastapi_auth_jwt/middleware.py:79 | scanning the list, a path is excluded exactly when some listed url is a substring of it |
| Middleware.ExcludeList | fastapi_auth_jwt/middleware.py:33 | no exclusion list behaves as the empty list |
| Middleware.ExclusionExtremes | fastapi_auth_jwt/middleware.py:79 | with the default list, no path is excluded; an empty string in the list excludes every path |
| Middleware.SchemeParam | fastapi_auth_jwt/middleware.py:53 | the scheme has no space; scheme, a space and the parameter rebuild the header; a header with no space is all scheme |
| Middleware.SchemeParamSplits | fastapi_auth_jwt/middleware.py:53 | a space-free scheme, a space and any parameter split back into that scheme and that parameter |
| Middleware.ParseAuthorization | fastapi_auth_jwt/middleware.py:49-62 | the value is empty exactly when the result is the 401 "missing" error; a scheme that is not `bearer` in any letter case is the 400 error; otherwise the token is the text after the scheme |
| Middleware.ExtractToken | fastapi_auth_jwt/middleware.py:36-62 | a non-empty header is used, and otherwise the cookie; with neither, the result is 401 "Authorization header is missing." |
| Middleware.BearerValueGivesToken | fastapi_auth_jwt/middleware.py:52-62 | `<scheme> <token>` with scheme `bearer` in any letter case gives exactly the token, spaces inside it included; any other scheme is refused with 400 |
| Middleware.CookieIsFallback | fastapi_auth_jwt/middleware.py:48 | when the header is absent or empty, the cookie is read exactly as a header would be |
| Middleware.ErrorResponse | fastapi_auth_jwt/middleware.py:85-129 | a missing claim is 400, even though it is also a signing-library error; other signing-library errors are 401; an `HTTPException` keeps its own status and detail; anything else is 500 |
| Middleware.Dispatch | fastapi_auth_jwt/middleware.py:64-103 | a request passes through untouched exactly when its path is excluded; it proceeds only with the user that `authenticate` returned for the extracted token; a failure to extract, or a failure to authenticate, becomes the response for that error |
| Middleware.NoCredentialsIs401 | fastapi_auth_jwt/middleware.py:48-50 | a protected request with neither header nor cookie is answered 401 "Authorization header is missing." |
| Middleware.AuthenticationDecides | fastapi_auth_jwt/middleware.py:82-103 | for a `Bearer` header, whatever `authenticate` returns decides the request: any user, even none, proceeds; a missing claim is 400; any other signing-library error is 401 |
| Middleware.ImportPackageAsWritten | fastapi_auth_jwt/middleware.py:21 | importing the package constructs the backend singleton with default settings, because the default argument is evaluated at import |
| Middleware.ConfiguredSecretIsIgnored | fastapi_auth_jwt/middleware.py:21 | as written, a backend configured after the import keeps the default secret and settings |
| Middleware.MiddlewareBackend | fastapi_auth_jwt/middleware.py:21-32 | corrected: the middleware's backend is the one passed in, or else the singleton as it exists when the middleware is created |
| Middleware.ConfiguredSecretIsUsed | fastapi_auth_jwt/middleware.py:21-32 | corrected: an application that configures its backend at start-up and then adds the middleware authenticates with its own secret and settings |

## Left out

- **Redis repository**:
  - Not modelled: its `set` calls `self._cast_expiration`, which `RedisRepository` never defines (`fastapi_auth_jwt/repository/redis.py:37`).
  - Not modelled: its `get` calls `.decode` on a string that the `decode_responses=True` client already returns (`fastapi_auth_jwt/repository/redis.py:15`, `:28`).
  - Only its construction is modelled (`RepositoryFactory.Build`).
- **User schemas** (`config/user_schema.py` and pydantic's `model_validate`): the user is the token plus the recorded payload, with extra attributes allowed. A custom schema's validation errors are not modelled.
- **Environment defaults**: `RedisConfig`'s `decouple` defaults (`storage.py:52-57`) are modelled with the environment unset.
- **Async and concurrency**: not modelled. Each operation runs to completion on the state it is given.
- **Signing library internals**, all left abstract or treated as unsupported:
  - the wire format and the HMAC;
  - asymmetric keys and the `none` algorithm;
  - key-shape checks;
  - `iss`, and the checks added in release 2.10 (an `iat` in the future, a non-string `sub` or `jti`, and a non-string `iss` at encoding);
  - leeway;
  - the exact text of parse errors.
- **Claim values**: floats, nested objects and `datetime` values are not modelled. Claim
  values are null, booleans, integers, strings, lists and sets. So the `datetime` `nbf` of
  `tests/utils/test_jwt_token.py:140-147`, which the library turns into a timestamp, is
  stood for by its integer instant.
- **Letter case, digits and whitespace**: `lower()` covers ASCII letters only, and
  `Text.ParseInt` reads ASCII digits only, while `int()` also accepts other Unicode
  decimal digits. `Text.Strip` removes ASCII whitespace only, while `int()` also strips
  Unicode whitespace such as U+00A0.
- **Clocks**:
  - one whole-second clock stands for both `utcnow()` in the codec and `now()` in the repository, so the time-zone offset between the two is not modelled;
  - the clock counts whole seconds, so the fraction of the current second, which can carry a fractional lifetime into the next second, is not modelled;
  - `datetime` overflow is not modelled.
- **Scheme parsing errors**: the `ValueError` branch of scheme parsing (`middleware.py:54-55`) is not modelled. `get_authorization_scheme_param` partitions on a space and cannot raise.
- **Error responses**: the response body's path, method and timestamp (`middleware.py:131-141`), and `call_next`, are not modelled. Only the status and detail are.
- **Aliasing**: the payload dict is stored by reference, so a caller that later mutates it changes the record. The model has value semantics.
- **Decode keyword arguments**: of the keyword arguments `decode` forwards to the library, only signature verification and required claims are modelled (`DecodeOptions`).
- **`AuthConfig.__repr__`**: the JSON rendering (`auth_token.py:25-30`) is not modelled.
- **Setters**: the backend's property setters (`backend.py:102-140`) are not modelled.
- **Unknown storage kinds**: the factory's unknown-kind branch (`factory.py:17-18`) cannot be reached with the closed set of kinds.
- AuthToken.ValidateExpirationSeconds: the `TypeError` for an unsupported type has a fixed
  message, not pydantic's exact wording. `Fraction` and other numeric types are not
  modelled. Neither are a `Decimal` NaN or infinity.
- RepositoryFactory.Build: only the client's scheme check is modelled. Its other URL
  errors, such as a bad port or bad query arguments, are not.
- JwtToken.Encode: it follows the releases before 2.10 on `iss`. From 2.10 on, `encode`
  refuses a non-string `iss` with a `TypeError`, which the model does not; its success
  condition is exact only for a payload whose `iss` is absent or a string.
- JwtToken.EncodeSucceeds: it inherits the `iss` limit of `Encode`, and so do
  `Backend.CreateToken` and `Backend.TimedeltaLifetime`, which sign through it.
- RepositoryFactory.Create: it inherits the limits of `Build`.
- RepositoryFactory.BuiltUrlIsAccepted: it promises only that a built URL passes the scheme
  check. The client's URL parser can still refuse a built URL with another `ValueError`: a
  port outside 0 to 65535 (the `port` field is any integer), or a password or host holding
  a reserved character such as `/`, `@` or `:`. These refusals are not modelled.
- JwtToken.ExpiryStamp: a stamp past year 9999, which `datetime` refuses with an
  `OverflowError`, is not modelled. Neither is the rounding of a float to whole
  microseconds by `timedelta`.
- TimeHelpers.CastToSeconds: a `timedelta` is exact to the microsecond, so its rounding to
  microseconds at construction is outside the model. The source also truncates the float
  `total_seconds()`, which is rounded to the nearest double. From about 2^34 seconds, a
  duration with a fraction can round up to the next whole second. For example,
  `timedelta(seconds=2**34, microseconds=999999)` casts to 2^34 + 1 in the source and to
  2^34 in the model.
- TimeHelpers.TruncDiv: it divides the exact microsecond count. It does not model the
  double rounding of `total_seconds()` that the source truncates, so for durations of about
  2^34 seconds or more with a fraction it can be one second below the source.
- Backend.EncodableLifetime: a `timedelta` becomes its exact seconds, not the double that
  `total_seconds()` returns. The two differ only for durations of about 2^34 seconds or more.

## Findings

| source | as written | input that shows it | evidently intended | confidence | as-written member | corrected member |
|---|---|---|---|---|---|---|
| fastapi_auth_jwt/middleware.py:21 | the default argument `backend=JWTAuthBackend()` is evaluated when `middleware.py` is imported. `__init__.py:9` imports it with the package, so the singleton is initialised with default settings before any application code runs, and every later `JWTAuthBackend(config)` returns that instance unchanged | `import fastapi_auth_jwt`, then `JWTAuthBackend(AuthConfig(secret="s"))`: the backend signs with `default_secret` | the backend the application configures is the one used; the default is resolved when the middleware is created | high (not executed) | Middleware.ConfiguredSecretIsIgnored | Middleware.ConfiguredSecretIsUsed |
| fastapi_auth_jwt/backend.py:59 | `create_token` passes the lifetime to `encode` unnormalised, and `encode` builds `timedelta(seconds=expiration)`, which refuses a `timedelta`; so a `timedelta` lifetime, which the signature admits, raises "Invalid type in payload: unsupported type for timedelta seconds component: datetime.timedelta" | `create_token({"user_id": 1}, timedelta(minutes=1))` | a `timedelta` is converted to its seconds (`total_seconds()`) before stamping, so it is treated like the float lifetimes `encode` already accepts, and the token expires a minute later | high (not executed) | Backend.TimedeltaLifetime | Backend.CreateToken |
