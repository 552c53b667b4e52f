/**
 * `WebauthnActor`: the registration side of a WebAuthn relying party. It keeps
 * the pending registration ceremony of each user in a bounded LRU cache, a
 * second cache of the same size for authentication ceremonies (allocated, and
 * never touched by any operation), and every user's credentials, filed by
 * credential id. `ActorState` is the state as a value, with the two
 * operations as functions; the class `WebauthnActor` updates the state in
 * place and is proved to follow them.
 */
module Actors {
  import opened Wrappers
  import opened Utf8
  import opened Lru
  import opened WebauthnTypes

  /** Capacity of each challenge cache. */
  const ChallengeCacheSize: nat := 256

  type CredentialBucket = map<CredentialId, Credential>

  /** Per-user credentials: user key, then credential id. */
  type CredentialStore = map<UserId, CredentialBucket>

  /** Every credential is filed under its own id. */
  predicate KeyedById(creds: CredentialStore) {
    forall u, id | u in creds && id in creds[u] :: creds[u][id].credId == id
  }

  /**
   * The predicate handed to the verifier: "this id is already one of the
   * user's credentials". A user without a bucket gets the constant false.
   */
  function DuplicatePredicate(creds: CredentialStore, user: UserId): (isDup: CredentialId -> bool)
    ensures forall id :: isDup(id) <==> user in creds && id in creds[user]
  {
    if user in creds then
      var bucket := creds[user];
      id => id in bucket
    else
      _ => false
  }

  /**
   * Files `cred` under its own id in `user`'s bucket, creating a one-element
   * bucket for a user who had none; every other user's bucket, and every
   * other credential of this user, stays as it was.
   */
  function StoreCredential(creds: CredentialStore, user: UserId, cred: Credential): (r: CredentialStore)
    ensures r.Keys == creds.Keys + {user}
    ensures r[user].Keys == (if user in creds then creds[user].Keys else {}) + {cred.credId}
    ensures r[user][cred.credId] == cred
    ensures user !in creds ==> r[user] == map[cred.credId := cred]
    ensures forall id | id in r[user] && id != cred.credId :: r[user][id] == creds[user][id]
    ensures forall u | u in creds && u != user :: r[u] == creds[u]
    ensures KeyedById(creds) ==> KeyedById(r)
  {
    if user in creds then creds[user := creds[user][cred.credId := cred]]
    else creds[user := map[cred.credId := cred]]
  }

  /** The actor's state as a value: the registration challenge cache and the credential store. */
  datatype ActorState = ActorState(regChals: Cache<UserId, RegistrationState>, creds: CredentialStore)
  {
    predicate Valid() {
      regChals.Valid() && regChals.cap == ChallengeCacheSize && KeyedById(creds)
    }

    /**
     * `challenge_register`: ask the verifier for a fresh challenge for
     * `username`. On success the server state is put under the name's bytes,
     * replacing any earlier pending state of that user; on failure the error
     * comes back and nothing changes. The credentials are never touched.
     */
    function ChallengeRegister(wan: Webauthn, username: string, entropy: Bytes)
      : (r: (ActorState, Result<CreationChallengeResponse, WebauthnError>))
      requires Valid()
      ensures r.0.Valid() && r.0.creds == creds
      ensures match wan.generateChallengeRegister(username, Some(Discouraged), entropy)
        case Err(e) => r == (this, Err(e))
        case Ok((ccr, rs)) => r.1 == Ok(ccr) && r.0.regChals == regChals.Put(Utf8Encode(username), rs)
    {
      match wan.generateChallengeRegister(username, Some(Discouraged), entropy)
      case Err(e) => (this, Err(e))
      case Ok((ccr, rs)) => (ActorState(regChals.Put(Utf8Encode(username), rs), creds), Ok(ccr))
    }

    /**
     * `register`: consume the user's pending registration state, failing with
     * ChallengeNotFound when there is none; hand it to the verifier with the
     * user's duplicate predicate; on success file the new credential in the
     * user's bucket. The pending state is gone afterwards whatever the
     * verifier says, and the credentials change only on success.
     */
    function Register(wan: Webauthn, username: string, reg: RegisterPublicKeyCredential)
      : (r: (ActorState, Result<(), WebauthnError>))
      requires Valid()
      ensures r.0.Valid()
      ensures r.0.regChals == regChals.Pop(Utf8Encode(username)).0
      ensures Utf8Encode(username) !in r.0.regChals.entries
      ensures Utf8Encode(username) !in regChals.entries ==> r.1 == Err(ChallengeNotFound)
      ensures r.1.Err? ==> r.0.creds == creds
      // with a pending state, the verifier gets exactly that state and this user's duplicate predicate,
      // and its verdict decides: on success its credential is filed in this user's bucket and nothing else changes
      ensures var key := Utf8Encode(username);
        key in regChals.entries ==>
          match wan.registerCredential(reg, regChals.entries[key], DuplicatePredicate(creds, key))
          case Err(e) => r.1 == Err(e) && r.0.creds == creds
          case Ok(cred) =>
            && r.1 == Ok(())
            && r.0.creds == StoreCredential(creds, key, cred)
    {
      var key := Utf8Encode(username);
      var (chals, popped) := regChals.Pop(key);
      match popped
      case None => (ActorState(chals, creds), Err(ChallengeNotFound))
      case Some(rs) =>
        match wan.registerCredential(reg, rs, DuplicatePredicate(creds, key))
        case Err(e) => (ActorState(chals, creds), Err(e))
        case Ok(cred) => (ActorState(chals, StoreCredential(creds, key, cred)), Ok(()))
    }
  }

  /** The state `WebauthnActor::new` starts in. */
  function Initial(): (s: ActorState)
    ensures s.Valid() && s.regChals.entries == map[] && s.creds == map[]
  {
    ActorState(Empty(ChallengeCacheSize), map[])
  }

  /**
   * A challenge is consumed at most once: a second `register` for the same
   * user, with no new challenge in between, fails with ChallengeNotFound and
   * changes nothing.
   */
  lemma RegisterTwiceFails(s: ActorState, wan: Webauthn, username: string,
                           reg1: RegisterPublicKeyCredential, reg2: RegisterPublicKeyCredential)
    requires s.Valid()
    ensures var s1 := s.Register(wan, username, reg1).0;
      s1.Register(wan, username, reg2) == (s1, Err(ChallengeNotFound))
  {
    var key := Utf8Encode(username);
    var s1 := s.Register(wan, username, reg1).0;
    assert s1.regChals.Pop(key).0 == s1.regChals by {
      WithoutDistinct(s1.regChals.order, key);
    }
  }

  /**
   * A challenge issued for a user is the one the user's next `register`
   * hands to the verifier.
   */
  lemma ChallengeThenRegister(s: ActorState, wan: Webauthn, username: string, entropy: Bytes,
                              reg: RegisterPublicKeyCredential)
    requires s.Valid()
    requires wan.generateChallengeRegister(username, Some(Discouraged), entropy).Ok?
    ensures var rs := wan.generateChallengeRegister(username, Some(Discouraged), entropy).value.1;
      var s1 := s.ChallengeRegister(wan, username, entropy).0;
      var key := Utf8Encode(username);
      s1.Register(wan, username, reg).1
        == match wan.registerCredential(reg, rs, DuplicatePredicate(s.creds, key))
           case Ok(_) => Ok(())
           case Err(e) => Err(e)
  {
  }

  /**
   * Ceremonies of two different users do not interfere: after challenges for
   * `a` and then `b`, `a`'s registration still finds `a`'s own state.
   */
  lemma IndependentUsers(s: ActorState, wan: Webauthn, a: string, ea: Bytes, b: string, eb: Bytes,
                         reg: RegisterPublicKeyCredential)
    requires s.Valid() && a != b
    requires wan.generateChallengeRegister(a, Some(Discouraged), ea).Ok?
    requires wan.generateChallengeRegister(b, Some(Discouraged), eb).Ok?
    ensures var rsA := wan.generateChallengeRegister(a, Some(Discouraged), ea).value.1;
      var s2 := s.ChallengeRegister(wan, a, ea).0.ChallengeRegister(wan, b, eb).0;
      Utf8Encode(a) in s2.regChals.entries && s2.regChals.entries[Utf8Encode(a)] == rsA
  {
    EncodeInjective(a, b);
    var rsA := wan.generateChallengeRegister(a, Some(Discouraged), ea).value.1;
    var rsB := wan.generateChallengeRegister(b, Some(Discouraged), eb).value.1;
    RecentSurvivesPut(s.regChals, Utf8Encode(a), rsA, Utf8Encode(b), rsB);
  }

  /**
   * With a verifier that honours the duplicate predicate, a successful
   * registration adds a credential and never replaces one: the user's
   * bucket grows by exactly the new id.
   */
  lemma RegisterNeverOverwrites(s: ActorState, wan: Webauthn, username: string, reg: RegisterPublicKeyCredential)
    requires s.Valid() && HonoursDuplicates(wan)
    ensures var key := Utf8Encode(username);
      var r := s.Register(wan, username, reg);
      r.1.Ok? && key in s.creds ==>
        && (forall id | id in s.creds[key] :: id in r.0.creds[key] && r.0.creds[key][id] == s.creds[key][id])
        && |r.0.creds[key]| == |s.creds[key]| + 1
  {
    var key := Utf8Encode(username);
    if key in s.regChals.entries && key in s.creds {
      var rs := s.regChals.entries[key];
      var isDup := DuplicatePredicate(s.creds, key);
      var out := wan.registerCredential(reg, rs, isDup);
      if out.Ok? {
        assert !isDup(out.value.credId);
        var r := s.Register(wan, username, reg);
        assert r.0.creds[key] == s.creds[key][out.value.credId := out.value];
      }
    }
  }

  /** The actor object: the two challenge caches and the credential store, updated in place. */
  class WebauthnActor {
    const wan: Webauthn
    const regChals: LruCache<UserId, RegistrationState>
    const authChals: LruCache<UserId, AuthenticationState>
    var creds: CredentialStore

    function Model(): ActorState
      reads this, regChals
    {
      ActorState(regChals.Model(), creds)
    }

    ghost predicate Valid()
      reads this, regChals, authChals
    {
      && Model().Valid()
      && authChals.Valid() && authChals.cap == ChallengeCacheSize
    }

    /** `WebauthnActor::new`: both caches empty with capacity 256, no credentials. */
    constructor (config: Webauthn)
      ensures Valid() && fresh(regChals) && fresh(authChals)
      ensures wan == config && Model() == Initial()
      ensures authChals.Model() == Empty(ChallengeCacheSize)
    {
      wan := config;
      regChals := new LruCache(ChallengeCacheSize);
      authChals := new LruCache(ChallengeCacheSize);
      creds := map[];
    }

    method ChallengeRegister(username: string, entropy: Bytes)
      returns (r: Result<CreationChallengeResponse, WebauthnError>)
      requires Valid()
      modifies regChals
      ensures Valid()
      ensures (Model(), r) == old(Model()).ChallengeRegister(wan, username, entropy)
      ensures authChals.Model() == old(authChals.Model())
    {
      match wan.generateChallengeRegister(username, Some(Discouraged), entropy)
      case Err(e) =>
        r := Err(e);
      case Ok((ccr, rs)) =>
        regChals.Put(Utf8Encode(username), rs);
        r := Ok(ccr);
    }

    method Register(username: string, reg: RegisterPublicKeyCredential)
      returns (r: Result<(), WebauthnError>)
      requires Valid()
      modifies this, regChals
      ensures Valid()
      ensures (Model(), r) == old(Model()).Register(wan, username, reg)
      ensures authChals.Model() == old(authChals.Model())
    {
      ghost var before := Model();
      var key := Utf8Encode(username);
      var popped := regChals.Pop(key);
      if popped.None? {
        return Err(ChallengeNotFound);
      }
      var isDup := DuplicatePredicate(creds, key);
      match wan.registerCredential(reg, popped.value, isDup)
      case Err(e) =>
        r := Err(e);
      case Ok(cred) =>
        if key in creds {
          var ucreds := creds[key];
          creds := creds[key := ucreds[cred.credId := cred]];
        } else {
          var t := map[cred.credId := cred];
          creds := creds[key := t];
        }
        assert creds == StoreCredential(before.creds, key, cred);
        r := Ok(());
    }
  }
}
