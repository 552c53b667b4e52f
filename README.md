# WebAuthn registration actor and API error mapping, in Dafny

This project models the two pieces of logic in a small Rust web API:

- **`WebauthnActor`** (`src/webauthn/actors.rs`), the registration side of a WebAuthn relying party.
  It keeps three pieces of state.
  The first is a bounded least-recently-used cache of pending registration challenges: one per user key, capacity 256.
  The second is a cache of the same size for authentication challenges, which is allocated and never used.
  The third maps each user to that user's credentials, keyed by credential id.
  - `challenge_register` asks the verifier for a challenge.
    It then files the server state under the UTF-8 bytes of the user name, replacing any earlier pending state.
  - `register` pops that state, failing with `ChallengeNotFound` if there is none.
    It then lets the verifier check the client's answer against a "credential id already registered" predicate.
    On success it files the new credential in the user's bucket.
- **`src/errors.rs`**, which covers:
  - the API's error kinds and their HTTP statuses;
  - the conversions from database and WebAuthn errors;
  - `handle_rejection`, the fixed-priority mapping from a rejected request to a status code and JSON message.

Files:

- `wrappers.dfy`: `Option`, `Result` and a `byte` type.
- `utf8.dfy`: the UTF-8 encoding that `String::into_bytes` and `str::as_bytes` produce, with a strict decoder.
  The two are proved inverse in both directions, so the encoding is injective: two names share a cache key only when they are the same name.
- `lru.dfy`: the `lru` crate's `LruCache`, written as an explicit bounded map with a recency order (least recent first).
  `Cache` is its value at one moment; the class `LruCache` updates it in place.
- `webauthn.dfy`: the `webauthn_rs` values the actor passes around, and the relying-party object `Webauthn`.
  `Webauthn` is modelled as two uninterpreted functions: challenge generation, which may fail, and credential verification, which may fail.
- `actors.dfy`: the actor's state as a value (`ActorState`) with the two operations as functions, and the class `WebauthnActor`.
  The class mutates the caches and the credential map in place and is proved to follow those functions.
- `errors.dfy`: `ErrorType`, `ApiError`, the conversions and `handle_rejection`.

Facts about the code that the model keeps:

- Duplicate credentials.
  The actor does not reject a duplicate credential id itself; its `insert` would overwrite the entry.
  It leaves the rejection to the verifier, passing a predicate that says which ids this user already has.
  `RegisterNeverOverwrites` proves that nothing is overwritten when the verifier honours the predicate.
- User resolution.
  `register` takes only the user name and returns `()`; it neither looks up nor creates a user record.
- Error passing.
  A failed challenge generation returns the `WebauthnError` unchanged to the caller.
- Authentication.
  There is no authentication flow: `auth_chals` is created and never read or written.
- Locking.
  The credential lock is held across the verifier call; the model is sequential, so this does not show.

## Model

| member | source | states |
|---|---|---|
| `Utf8.Utf8Encode` | src/webauthn/actors.rs:42 | the key bytes of a name (`into_bytes`, and `as_bytes` at :58) take between one and four bytes per character |
| `Utf8.DecodeEncode` | src/webauthn/actors.rs:42 | every user name survives encoding to its key bytes and strict decoding back |
| `Utf8.EncodeDecode` | src/webauthn/actors.rs:58 | every byte string that decodes is exactly the encoding of what it decodes to |
| `Utf8.EncodeInjective` | src/webauthn/actors.rs:42 | two user names give the same key bytes if and only if they are the same name (`into_bytes` at :42 and `as_bytes` at :58 agree) |
| `Lru.Empty` | src/webauthn/actors.rs:28 | `LruCache::new(n)` is a valid, empty cache of capacity n |
| `Lru.Cache.Put` | src/webauthn/actors.rs:42 | `put` keeps the cache valid and within capacity, and stores the value under the key. The new recency order is the old one with the key moved (or added) to the most recent end, and, when a new key enters a full cache, the least recently used key dropped; every other key keeps its relative place. So the keys afterwards are the old keys plus this one, minus the least recently used key exactly when a new key enters a full cache. Every other key keeps its value |
| `Lru.Cache.Pop` | src/webauthn/actors.rs:64 | `pop` returns the key's value if cached and None otherwise. The key is absent afterwards, so a second pop finds nothing. Every other key keeps its value and its place in the recency order |
| `Lru.Bounded` | src/webauthn/actors.rs:15 | a valid cache never holds more entries than its capacity |
| `Lru.RecentSurvivesPut` | src/webauthn/actors.rs:42 | in a cache of capacity at least 2, a key just put survives the put of any other key, with its value |
| `Lru.FillKeepsLatest` | src/webauthn/actors.rs:42 | putting keys never seen before keeps exactly the latest `cap` keys put, least recent first |
| `Lru.OverfillEvictsFirst` | src/webauthn/actors.rs:15 | putting n+1 distinct keys into an empty cache of capacity n leaves the first absent and all the others present |
| `Lru.CapacityTwoScenario` | src/webauthn/actors.rs:42 | with capacity 2, after putting a, b and c, a is gone and b and c are present |
| `Lru.LruCache.constructor` | src/webauthn/actors.rs:28 | a new cache object is empty with the given capacity |
| `Lru.LruCache.Put` | src/webauthn/actors.rs:42 | the in-place `put` keeps the cache valid and leaves it in the state `Cache.Put` gives |
| `Lru.LruCache.Pop` | src/webauthn/actors.rs:64 | the in-place `pop` keeps the cache valid, returns what `Cache.Pop` returns, and leaves the state it gives |
| `Actors.DuplicatePredicate` | src/webauthn/actors.rs:68-79 | the predicate given to the verifier holds of an id exactly when the id is in this user's bucket; it is constantly false for a user without a bucket |
| `Actors.StoreCredential` | src/webauthn/actors.rs:72-85 | the credential is filed under its own id in the user's bucket, and a new user gets a one-element bucket. The user's other credentials and every other user's bucket are unchanged. Credentials stay keyed by their ids |
| `Actors.Initial` | src/webauthn/actors.rs:25-31 | the initial state is valid, with no pending challenge and no credentials |
| `Actors.ActorState.ChallengeRegister` | src/webauthn/actors.rs:34-45 | if challenge generation fails, its error is returned and nothing changes. Otherwise the public challenge is returned and the server state is put under the name's bytes, with `put`'s replacement and eviction. The credentials are never touched |
| `Actors.ActorState.Register` | src/webauthn/actors.rs:47-92 | the user's pending state is removed whatever happens. Without one, the result is `ChallengeNotFound`. With one, the verifier gets exactly that state and this user's duplicate predicate. Its error is passed through with the credentials unchanged. On success the new credential store is exactly `StoreCredential` of the old one: the credential is filed under its id in this user's bucket (a one-element bucket for a new user), and the user's other credentials and every other bucket are kept |
| `Actors.RegisterTwiceFails` | src/webauthn/actors.rs:60-65 | a second `register` for the same user, with no challenge in between, fails with `ChallengeNotFound` and changes nothing |
| `Actors.ChallengeThenRegister` | src/webauthn/actors.rs:42-71 | after a successful `challenge_register`, the same user's `register` hands the verifier exactly the state that was issued, and returns its verdict |
| `Actors.IndependentUsers` | src/webauthn/actors.rs:42 | challenges for two different users do not interfere: after one for a and then one for b, a's own state is still pending |
| `Actors.RegisterNeverOverwrites` | src/webauthn/actors.rs:68-75 | with a verifier that honours the duplicate predicate, a successful `register` keeps every existing credential of the user and grows the bucket by exactly one |
| `Actors.WebauthnActor.constructor` | src/webauthn/actors.rs:25-31 | `new` gives two empty caches of capacity 256 and an empty credential map |
| `Actors.WebauthnActor.ChallengeRegister` | src/webauthn/actors.rs:34-45 | the in-place operation returns what `ActorState.ChallengeRegister` returns and leaves the state it gives; the authentication cache is unchanged |
| `Actors.WebauthnActor.Register` | src/webauthn/actors.rs:47-92 | the in-place operation returns what `ActorState.Register` returns and leaves the state it gives; the authentication cache is unchanged |
| `Errors.ApiError.New` | src/errors.rs:28-33 | `ApiError::new` keeps the message and the kind as given |
| `Errors.ApiError.ToHttpStatus` | src/errors.rs:35-42 | every kind maps to a 4xx or 5xx status, and `KindOfStatus` recovers the kind from it: 404, 500, 400 and 401 |
| `Errors.WithContext` | src/errors.rs:46 | the message `format!` builds (also at :61) is the context, then `": "`, then the error text, each at its own position |
| `Errors.SplitWithContext` | src/errors.rs:46 | a message built as context, `": "`, error text gives back the context and the text, whenever the context holds no `": "` |
| `Errors.FromDieselErr` | src/errors.rs:44-57 | the message is the context, `": "`, the error's text. The kind is BadRequest exactly for a unique-constraint violation and NotFound exactly for a missing record; everything else is Internal, never Webauthn |
| `Errors.FromWebauthnError` | src/errors.rs:59-67 | the message is the context, `": "`, the error's text; the kind is always Webauthn, so the status is 401 |
| `Errors.FindApiError` | src/errors.rs:87 | the result is the first `ApiError` among the rejection's causes, or None exactly when there is none |
| `Errors.HandleRejection` | src/errors.rs:84-108 | the checks run in a fixed order. "No route" gives 404 "Not Found". Otherwise the first `ApiError` gives its own status and message. With no ApiError, a body that did not deserialize gives 400 "Invalid Body", whatever else was wrong. With neither, a wrong method gives 405 "Method Not Allowed", and anything else 500 "Unhandled rejection". 405 is returned exactly in that case. 401 is returned exactly for a Webauthn-kind ApiError. 500 comes exactly from an Internal-kind ApiError or an unrecognised rejection. The body's code equals the status |

## Left out

- The inside of `webauthn_rs`: challenge and nonce generation, attestation verification.
  They are the two uninterpreted functions of `WebauthnTypes.Webauthn`.
  The randomness of challenge generation is an explicit `entropy` argument.
- The async mutexes around each structure and the order they are locked in.
  The actor is one sequential object.
- Logging (`log::info!`, `log::debug!`, `eprintln!`).
- The authentication flow.
  `auth_chals` is modelled as allocated and provably untouched by both operations.
  No operation of the code uses it.
- `to_string()` of database and WebAuthn errors.
  It is foreign display code and enters as a `display` function argument.
- `Lru.LruCache.constructor`: requires a positive capacity.
  The code only ever creates caches of capacity 256.
- Database access (`src/db.rs`), the HTTP routes and replies, JSON encoding, server setup and the local store.
  These are transport and library plumbing.
- warp's `Rejection` is reduced to the cases `handle_rejection` checks for, plus an "other" cause.
  The JSON serialisation of the reply is left out.
