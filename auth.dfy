/**
 * Challenge/response login. `/auth/challenge` provisions a user on first contact and issues
 * a random nonce valid for ten minutes; `/auth/verify` checks a Baby Jubjub signature over
 * Poseidon(nonce, ownerKey) and binds the user's key on first use. Both handlers work on
 * one user table, keyed by owner key, and one session table.
 */
module Auth {
  import opened Wrappers
  import opened Hex
  import opened Primitives
  import opened CryptoService

  /** Lifetime of a challenge nonce: ten minutes, in milliseconds. */
  const ChallengeTtlMs: int := 10 * 60 * 1000

  /** The optional `authPubKey` of a request body. */
  datatype AuthKey = AuthKey(x: string, y: string)

  /** A row of the user table; the key coordinates are nullable columns. */
  datatype User = User(id: nat, ownerKey: string, authPubX: Option<string>, authPubY: Option<string>)

  /** A row of the session table; `expiresAt` is in milliseconds since the epoch. */
  datatype Session = Session(userId: nat, nonce: string, expiresAt: int)

  /** Both tables, plus the next id the user table hands out. Sessions are in creation order. */
  datatype AuthState = AuthState(users: map<string, User>, sessions: seq<Session>, nextUserId: nat)

  datatype AuthError =
    | InvalidBody                              // the body does not have the validated shape
    | MissingAuthPubKeyForNewUser              // 400 missing_authPubKey_for_new_user
    | UnknownUser                              // 400 unknown_user
    | NonceExpiredOrInvalid                    // 400 nonce_expired_or_invalid
    | BadSignature                             // 401 bad_signature
    | SignatureCheckFailed(cause: CryptoError) // thrown by verifyBabyJubSig

  predicate HasUserWithId(users: map<string, User>, id: nat)
  {
    exists k | k in users :: users[k].id == id
  }

  /** Users are stored under their own owner key with distinct ids, and sessions belong to users. */
  ghost predicate StoreInvariant(st: AuthState)
  {
    && (forall k | k in st.users :: st.users[k].ownerKey == k && st.users[k].id < st.nextUserId)
    && (forall k1, k2 | k1 in st.users && k2 in st.users && st.users[k1].id == st.users[k2].id :: k1 == k2)
    && (forall i | 0 <= i < |st.sessions| :: HasUserWithId(st.users, st.sessions[i].userId))
  }

  // ---------------------------------------------------------------------------------------
  // /auth/challenge

  datatype ChallengeReply = ChallengeReply(nonce: string, expiresAt: int)

  /**
   * The `/auth/challenge` handler: `random` is what `crypto.randomBytes(32)` returned and
   * `now` what `Date.now()` returned.
   */
  function Challenge(st: AuthState, ownerKey: string, authPubKey: Option<AuthKey>, random: Bytes32, now: int)
    : (AuthState, Result<ChallengeReply, AuthError>)
  {
    if !IsHex0x(ownerKey) then (st, Failure(InvalidBody))
    else if ownerKey !in st.users && authPubKey.None? then (st, Failure(MissingAuthPubKeyForNewUser))
    else
      var known := ownerKey in st.users;
      var user :=
        if known then st.users[ownerKey]
        else User(st.nextUserId, ownerKey, Some(authPubKey.value.x), Some(authPubKey.value.y));
      var nonce := BytesToHex(random);
      var expiresAt := now + ChallengeTtlMs;
      (AuthState(
         if known then st.users else st.users[ownerKey := user],
         st.sessions + [Session(user.id, nonce, expiresAt)],
         if known then st.nextUserId else st.nextUserId + 1),
       Success(ChallengeReply(nonce, expiresAt)))
  }

  /** A new owner key without `authPubKey` is refused, and neither table changes. */
  lemma ChallengeNeedsKeyForNewUser(st: AuthState, ownerKey: string, random: Bytes32, now: int)
    requires IsHex0x(ownerKey) && ownerKey !in st.users
    ensures Challenge(st, ownerKey, None, random, now) == (st, Failure(MissingAuthPubKeyForNewUser))
  {
  }

  /**
   * Which users exist afterwards: a new owner key with `authPubKey` gets exactly one new user
   * holding the supplied coordinates; a known owner's record stays as it was, whatever key
   * was sent.
   */
  lemma ChallengeUsers(st: AuthState, ownerKey: string, authPubKey: Option<AuthKey>, random: Bytes32, now: int)
    requires StoreInvariant(st)
    requires Challenge(st, ownerKey, authPubKey, random, now).1.Success?
    ensures var st' := Challenge(st, ownerKey, authPubKey, random, now).0;
            && (ownerKey in st.users ==> st'.users == st.users)
            && (ownerKey !in st.users ==>
                  && authPubKey.Some?
                  && st'.users == st.users[ownerKey := User(st.nextUserId, ownerKey, Some(authPubKey.value.x), Some(authPubKey.value.y))]
                  && |st'.users| == |st.users| + 1)
  {
  }

  /**
   * Every successful challenge appends exactly one session for the owner: its nonce is the
   * 64 lowercase hex digits of the 32 random bytes, it expires ten minutes after `now`, and
   * the reply carries the same nonce and expiry. Earlier sessions are kept as they were.
   */
  lemma ChallengeSession(st: AuthState, ownerKey: string, authPubKey: Option<AuthKey>, random: Bytes32, now: int)
    requires Challenge(st, ownerKey, authPubKey, random, now).1.Success?
    ensures var (st', r) := Challenge(st, ownerKey, authPubKey, random, now);
            && ownerKey in st'.users
            && st'.sessions == st.sessions + [Session(st'.users[ownerKey].id, r.value.nonce, r.value.expiresAt)]
            && r.value.expiresAt == now + 600000
            && |r.value.nonce| == 64 && IsLowerHex(r.value.nonce)
            && HexToBytes(r.value.nonce) == Some(random)
  {
    HexIsLower(random);
    BytesHexRoundTrip(random);
  }

  /** Whatever the outcome, a challenge never removes or rewrites a session. */
  lemma ChallengeKeepsSessions(st: AuthState, ownerKey: string, authPubKey: Option<AuthKey>, random: Bytes32, now: int)
    ensures var st' := Challenge(st, ownerKey, authPubKey, random, now).0;
            |st.sessions| <= |st'.sessions| && st'.sessions[..|st.sessions|] == st.sessions
  {
  }

  lemma ChallengePreservesInvariant(st: AuthState, ownerKey: string, authPubKey: Option<AuthKey>, random: Bytes32, now: int)
    requires StoreInvariant(st)
    ensures StoreInvariant(Challenge(st, ownerKey, authPubKey, random, now).0)
  {
    var (st', r) := Challenge(st, ownerKey, authPubKey, random, now);
    if r.Success? {
      assert HasUserWithId(st'.users, st'.users[ownerKey].id);
      forall i | 0 <= i < |st'.sessions| ensures HasUserWithId(st'.users, st'.sessions[i].userId) {
        if i < |st.sessions| {
          assert HasUserWithId(st.users, st.sessions[i].userId);
          var k :| k in st.users && st.users[k].id == st.sessions[i].userId;
          assert st'.users[k] == st.users[k];
        }
      }
    }
  }

  // ---------------------------------------------------------------------------------------
  // /auth/verify

  datatype VerifyRequest = VerifyRequest(ownerKey: string, nonce: string, signature: Signature, authPubKey: Option<AuthKey>)

  /** The claims handed to the token signer. */
  datatype Token = Token(sub: string, ownerKey: string)

  datatype VerifyReply = VerifyReply(token: Token, userId: nat, ownerKey: string)

  /**
   * Which key a signature is checked against. `BodyKeyFirst` is what the handler does; the
   * other rule honours a key once it is bound.
   */
  datatype KeyRule = BodyKeyFirst | BoundKeyFirst

  /** The user has a key: both stored coordinates are present and non-empty. */
  predicate KeyBound(u: User)
  {
    u.authPubX.Some? && u.authPubX.value != "" && u.authPubY.Some? && u.authPubY.value != ""
  }

  function StoredKey(u: User): PubKey
  {
    PubKey(u.authPubX, u.authPubY)
  }

  function BodyKey(k: AuthKey): PubKey
  {
    PubKey(Some(k.x), Some(k.y))
  }

  /**
   * The key the login signature is checked against. Without a key in the body it is the
   * stored one; under the bound-key rule a user whose key is bound is always checked
   * against that key, and a body key is used only to bind an unbound user.
   */
  function ResolveKey(rule: KeyRule, body: Option<AuthKey>, u: User): (k: PubKey)
    ensures body.None? ==> k == StoredKey(u)
    ensures rule == BoundKeyFirst && KeyBound(u) ==> k == StoredKey(u)
    ensures body.Some? && (rule == BodyKeyFirst || !KeyBound(u)) ==> k == BodyKey(body.value)
  {
    match rule
    case BodyKeyFirst => if body.Some? then BodyKey(body.value) else StoredKey(u)
    case BoundKeyFirst => if body.Some? && !KeyBound(u) then BodyKey(body.value) else StoredKey(u)
  }

  predicate SessionMatches(s: Session, userId: nat, nonce: string)
  {
    s.userId == userId && s.nonce == nonce
  }

  /** Index of the most recently created session of the user carrying this nonce. */
  function LatestSession(sessions: seq<Session>, userId: nat, nonce: string): (r: Option<nat>)
    ensures r.Some? ==> r.value < |sessions| && SessionMatches(sessions[r.value], userId, nonce)
    ensures r.Some? ==> forall j | r.value < j < |sessions| :: !SessionMatches(sessions[j], userId, nonce)
    ensures r.None? ==> forall j | 0 <= j < |sessions| :: !SessionMatches(sessions[j], userId, nonce)
  {
    if sessions == [] then None
    else if SessionMatches(sessions[|sessions| - 1], userId, nonce) then Some(|sessions| - 1)
    else LatestSession(sessions[..|sessions| - 1], userId, nonce)
  }

  /** The message a client signs: Poseidon of "0x" + nonce and of the owner key. */
  function LoginMessage(c: Crypto, req: VerifyRequest): nat
    requires IsHex0x(req.ownerKey) && IsHexDigits(req.nonce)
  {
    var nonceHex := "0x" + req.nonce;
    assert nonceHex[..2] == "0x" && nonceHex[2..] == req.nonce;
    PoseidonLoginMsg(c, nonceHex, req.ownerKey)
  }

  /**
   * The `/auth/verify` handler under a key rule, with the circomlibjs cache it reads and
   * fills: the new tables, the new cache and the reply. `now` is the current time.
   */
  function Verify(c: Crypto, st: AuthState, cache: CacheState, lib: Circomlib, req: VerifyRequest, now: int, rule: KeyRule)
    : (AuthState, CacheState, Result<VerifyReply, AuthError>)
  {
    if !IsHex0x(req.ownerKey) || !IsHexDigits(req.nonce) then (st, cache, Failure(InvalidBody))
    else if req.ownerKey !in st.users then (st, cache, Failure(UnknownUser))
    else
      var user := st.users[req.ownerKey];
      var found := LatestSession(st.sessions, user.id, req.nonce);
      if found.None? || st.sessions[found.value].expiresAt < now then (st, cache, Failure(NonceExpiredOrInvalid))
      else
        var pub := ResolveKey(rule, req.authPubKey, user);
        var (cache', ok) := VerifyBabyJubSig(c, cache, lib, LoginMessage(c, req), req.signature, pub);
        if ok.Failure? then (st, cache', Failure(SignatureCheckFailed(ok.error)))
        else if !ok.value then (st, cache', Failure(BadSignature))
        else
          var users := if KeyBound(user) then st.users
                       else st.users[req.ownerKey := user.(authPubX := pub.x, authPubY := pub.y)];
          (st.(users := users), cache',
           Success(VerifyReply(Token(NatToString(user.id, 10), user.ownerKey), user.id, user.ownerKey)))
  }

  /** Whether the session check of verify passes: the latest matching session exists and `expiresAt >= now`. */
  predicate SessionLive(st: AuthState, ownerKey: string, nonce: string, now: int)
    requires ownerKey in st.users
  {
    var found := LatestSession(st.sessions, st.users[ownerKey].id, nonce);
    found.Some? && st.sessions[found.value].expiresAt >= now
  }

  /**
   * The early exits of verify: an unknown owner key and a missing or expired nonce are
   * refused, and neither the tables nor the cache change. Expiring exactly at `now` still
   * passes.
   */
  lemma VerifyRefusals(c: Crypto, st: AuthState, cache: CacheState, lib: Circomlib, req: VerifyRequest, now: int, rule: KeyRule)
    requires IsHex0x(req.ownerKey) && IsHexDigits(req.nonce)
    ensures var (st', cache', r) := Verify(c, st, cache, lib, req, now, rule);
            && (req.ownerKey !in st.users <==> r == Failure(UnknownUser))
            && (req.ownerKey in st.users ==>
                  (r == Failure(NonceExpiredOrInvalid) <==> !SessionLive(st, req.ownerKey, req.nonce, now)))
            && (r == Failure(UnknownUser) || r == Failure(NonceExpiredOrInvalid) ==> st' == st && cache' == cache)
  {
  }

  /**
   * A successful verify means: the owner is known, the latest session for the nonce has not
   * expired, and `verifyPoseidon` accepted the signature over Poseidon("0x" + nonce, ownerKey)
   * under the resolved key. The token names the user's id in decimal and the owner key.
   */
  lemma VerifySuccess(c: Crypto, st: AuthState, cache: CacheState, lib: Circomlib, req: VerifyRequest, now: int, rule: KeyRule)
    requires StoreInvariant(st)
    requires Verify(c, st, cache, lib, req, now, rule).2.Success?
    ensures IsHex0x(req.ownerKey) && IsHexDigits(req.nonce) && req.ownerKey in st.users
    ensures var user := st.users[req.ownerKey];
            var pub := ResolveKey(rule, req.authPubKey, user);
            var r := Verify(c, st, cache, lib, req, now, rule).2;
            && SessionLive(st, req.ownerKey, req.nonce, now)
            && pub.x.Some? && pub.y.Some?
            && ToBI(pub.x.value).Some? && ToBI(pub.y.value).Some?
            && ToBI(req.signature.R8x).Some? && ToBI(req.signature.R8y).Some? && ToBI(req.signature.S).Some?
            && c.verifyPoseidon(LoginMessage(c, req),
                 Point(ToBI(req.signature.R8x).value, ToBI(req.signature.R8y).value), ToBI(req.signature.S).value,
                 Point(ToBI(pub.x.value).value, ToBI(pub.y.value).value))
            && r.value.token.ownerKey == req.ownerKey
            && r.value.token.sub == NatToString(user.id, 10)
            && AllDigits(r.value.token.sub, 10) && DigitsValue(r.value.token.sub, 10) == user.id
  {
    var user := st.users[req.ownerKey];
    var pub := ResolveKey(rule, req.authPubKey, user);
    VerifySigOutcomes(c, cache, lib, LoginMessage(c, req), req.signature, pub);
    NatToStringValue(user.id, 10);
  }

  /** Verify never touches the session table: a nonce is not consumed by a login. */
  lemma VerifyKeepsSessions(c: Crypto, st: AuthState, cache: CacheState, lib: Circomlib, req: VerifyRequest, now: int, rule: KeyRule)
    ensures var st' := Verify(c, st, cache, lib, req, now, rule).0;
            st'.sessions == st.sessions && st'.nextUserId == st.nextUserId && st'.users.Keys == st.users.Keys
  {
  }

  /** Only a successful verify changes the user table; a rejected signature leaves it as it was. */
  lemma VerifyFailureKeepsUsers(c: Crypto, st: AuthState, cache: CacheState, lib: Circomlib, req: VerifyRequest, now: int, rule: KeyRule)
    requires Verify(c, st, cache, lib, req, now, rule).2.Failure?
    ensures Verify(c, st, cache, lib, req, now, rule).0 == st
  {
  }

  /**
   * Binding on first use: a successful verify leaves a bound user as it was, and writes the
   * key from the body onto a user without one. Nothing else in the table changes.
   */
  lemma VerifyBinding(c: Crypto, st: AuthState, cache: CacheState, lib: Circomlib, req: VerifyRequest, now: int, rule: KeyRule)
    requires Verify(c, st, cache, lib, req, now, rule).2.Success?
    ensures req.ownerKey in st.users
    ensures var st' := Verify(c, st, cache, lib, req, now, rule).0;
            var user := st.users[req.ownerKey];
            && (KeyBound(user) ==> st'.users == st.users)
            && (!KeyBound(user) ==>
                  && req.authPubKey.Some?
                  && st'.users == st.users[req.ownerKey := user.(authPubX := Some(req.authPubKey.value.x),
                                                                 authPubY := Some(req.authPubKey.value.y))])
  {
    var user := st.users[req.ownerKey];
    var pub := ResolveKey(rule, req.authPubKey, user);
    VerifySigOutcomes(c, cache, lib, LoginMessage(c, req), req.signature, pub);
  }

  /**
   * Replay: since sessions are never consumed, a request that verified once verifies again
   * with the same answer while its session is live, from the state the first call left.
   */
  lemma {:induction false} VerifyReplay(c: Crypto, st: AuthState, cache: CacheState, lib: Circomlib, req: VerifyRequest, now: int, later: int, rule: KeyRule)
    requires Verify(c, st, cache, lib, req, now, rule).2.Success?
    requires now <= later && SessionLive(st, req.ownerKey, req.nonce, later)
    ensures var (st', cache', r) := Verify(c, st, cache, lib, req, now, rule);
            Verify(c, st', cache', lib, req, later, rule).2 == r
  {
    var (st', cache', r) := Verify(c, st, cache, lib, req, now, rule);
    var user := st.users[req.ownerKey];
    var pub := ResolveKey(rule, req.authPubKey, user);
    VerifyBinding(c, st, cache, lib, req, now, rule);
    VerifySigOutcomes(c, cache, lib, LoginMessage(c, req), req.signature, pub);
    var user' := st'.users[req.ownerKey];
    assert user'.id == user.id && user'.ownerKey == user.ownerKey;
    var pub' := ResolveKey(rule, req.authPubKey, user');
    LoadKeepsCache(cache, lib);
    LoadIdempotent(cache, lib, lib);
    if !KeyBound(user) {
      assert pub' == pub;
    } else {
      assert user' == user;
    }
  }

  /** The session a challenge appends is the latest one for its nonce, and expires at `t0` + ten minutes. */
  lemma ChallengeLatestSession(st: AuthState, ownerKey: string, authPubKey: Option<AuthKey>, random: Bytes32, t0: int)
    requires Challenge(st, ownerKey, authPubKey, random, t0).1.Success?
    ensures var (st1, reply) := Challenge(st, ownerKey, authPubKey, random, t0);
            var found := LatestSession(st1.sessions, st1.users[ownerKey].id, reply.value.nonce);
            && IsHex0x(ownerKey) && IsHexDigits(reply.value.nonce)
            && found == Some(|st1.sessions| - 1)
            && st1.sessions[found.value].expiresAt == reply.value.expiresAt == t0 + ChallengeTtlMs
  {
    HexOfBytesValue(random);
    ChallengeSession(st, ownerKey, authPubKey, random, t0);
  }

  /**
   * Without a key in the body, a live session and a signature that verifies under the
   * stored key log the user in and change no user.
   */
  lemma VerifyWithStoredKey(c: Crypto, st: AuthState, cache: CacheState, lib: Circomlib, req: VerifyRequest, now: int, rule: KeyRule)
    requires IsHex0x(req.ownerKey) && IsHexDigits(req.nonce) && req.ownerKey in st.users && req.authPubKey.None?
    requires SessionLive(st, req.ownerKey, req.nonce, now)
    requires VerifyBabyJubSig(c, cache, lib, LoginMessage(c, req), req.signature, StoredKey(st.users[req.ownerKey])).1 == Success(true)
    ensures var (st', _, r) := Verify(c, st, cache, lib, req, now, rule);
            r.Success? && st' == st
  {
    var user := st.users[req.ownerKey];
    VerifySigOutcomes(c, cache, lib, LoginMessage(c, req), req.signature, StoredKey(user));
  }

  /**
   * The signature step of verify, once the session is live: a `false` answer is
   * `bad_signature` and nothing else is; a check that throws (no field, a null coordinate, a
   * malformed number, a failed load) is passed on as that error, never as `bad_signature`;
   * and a user without a key who sends one that the signature verifies under is logged in.
   */
  lemma VerifySignatureStep(c: Crypto, st: AuthState, cache: CacheState, lib: Circomlib, req: VerifyRequest, now: int, rule: KeyRule)
    requires IsHex0x(req.ownerKey) && IsHexDigits(req.nonce) && req.ownerKey in st.users
    requires SessionLive(st, req.ownerKey, req.nonce, now)
    ensures var user := st.users[req.ownerKey];
            var chk := VerifyBabyJubSig(c, cache, lib, LoginMessage(c, req), req.signature,
                                        ResolveKey(rule, req.authPubKey, user));
            var (st', cache', r) := Verify(c, st, cache, lib, req, now, rule);
            && cache' == chk.0
            && (chk.1 == Success(false) <==> r == Failure(BadSignature))
            && (chk.1.Failure? ==> r == Failure(SignatureCheckFailed(chk.1.error)))
            && (chk.1 == Success(true) <==> r.Success?)
            && (!KeyBound(user) && req.authPubKey.Some? && chk.1 == Success(true) ==>
                  r.Success? && st'.users[req.ownerKey] == user.(authPubX := Some(req.authPubKey.value.x),
                                                                  authPubY := Some(req.authPubKey.value.y)))
  {
  }

  /**
   * A challenge followed by a verify of its nonce, without a key in the body: after the
   * expiry the nonce is refused even with a good signature; up to the expiry (inclusive) a
   * signature that verifies under the stored key logs the user in, and the user record
   * (bound at challenge time for a new owner) stays as it was.
   */
  lemma ChallengeThenVerify(c: Crypto, st: AuthState, cache: CacheState, lib: Circomlib, ownerKey: string,
                            authPubKey: Option<AuthKey>, random: Bytes32, t0: int, t1: int, sig: Signature, rule: KeyRule)
    requires Challenge(st, ownerKey, authPubKey, random, t0).1.Success?
    ensures var (st1, reply) := Challenge(st, ownerKey, authPubKey, random, t0);
            var req := VerifyRequest(ownerKey, reply.value.nonce, sig, None);
            var (st2, cache2, r) := Verify(c, st1, cache, lib, req, t1, rule);
            && IsHex0x(ownerKey) && IsHexDigits(req.nonce) && ownerKey in st1.users
            && (t1 > reply.value.expiresAt ==> r == Failure(NonceExpiredOrInvalid) && st2 == st1)
            && (t1 <= reply.value.expiresAt
                && VerifyBabyJubSig(c, cache, lib, LoginMessage(c, req), sig, StoredKey(st1.users[ownerKey])).1 == Success(true)
                ==> r.Success? && st2 == st1)
  {
    var (st1, reply) := Challenge(st, ownerKey, authPubKey, random, t0);
    ChallengeLatestSession(st, ownerKey, authPubKey, random, t0);
    var req := VerifyRequest(ownerKey, reply.value.nonce, sig, None);
    if t1 > reply.value.expiresAt {
      VerifyRefusals(c, st1, cache, lib, req, t1, rule);
    } else if VerifyBabyJubSig(c, cache, lib, LoginMessage(c, req), sig, StoredKey(st1.users[ownerKey])).1 == Success(true) {
      VerifyWithStoredKey(c, st1, cache, lib, req, t1, rule);
    }
  }

  /** Rewriting the key of one user keeps the store invariant. */
  lemma RekeyPreservesInvariant(st: AuthState, k: string, x: Option<string>, y: Option<string>)
    requires StoreInvariant(st) && k in st.users
    ensures StoreInvariant(st.(users := st.users[k := st.users[k].(authPubX := x, authPubY := y)]))
  {
    var st' := st.(users := st.users[k := st.users[k].(authPubX := x, authPubY := y)]);
    forall i | 0 <= i < |st'.sessions| ensures HasUserWithId(st'.users, st'.sessions[i].userId) {
      assert HasUserWithId(st.users, st.sessions[i].userId);
      var j :| j in st.users && st.users[j].id == st.sessions[i].userId;
      assert st'.users[j].id == st.users[j].id;
    }
  }

  lemma VerifyPreservesInvariant(c: Crypto, st: AuthState, cache: CacheState, lib: Circomlib, req: VerifyRequest, now: int, rule: KeyRule)
    requires StoreInvariant(st)
    ensures StoreInvariant(Verify(c, st, cache, lib, req, now, rule).0)
  {
    var r := Verify(c, st, cache, lib, req, now, rule).2;
    if r.Success? {
      VerifyBinding(c, st, cache, lib, req, now, rule);
      if !KeyBound(st.users[req.ownerKey]) {
        RekeyPreservesInvariant(st, req.ownerKey, Some(req.authPubKey.value.x), Some(req.authPubKey.value.y));
      }
    }
  }

  /**
   * As written, the key in the body wins over the bound one: for a user whose key is bound,
   * a caller who signs the challenge with a key of their own and sends that key is logged in,
   * even though the signature does not verify under the bound key.
   */
  lemma ForeignKeyAccepted(c: Crypto, st: AuthState, cache: CacheState, lib: Circomlib, req: VerifyRequest, now: int)
    requires IsHex0x(req.ownerKey) && IsHexDigits(req.nonce) && req.ownerKey in st.users
    requires SessionLive(st, req.ownerKey, req.nonce, now)
    requires var user := st.users[req.ownerKey];
             && KeyBound(user) && req.authPubKey.Some? && BodyKey(req.authPubKey.value) != StoredKey(user)
    requires VerifyBabyJubSig(c, cache, lib, LoginMessage(c, req), req.signature, StoredKey(st.users[req.ownerKey])).1 == Success(false)
    requires VerifyBabyJubSig(c, cache, lib, LoginMessage(c, req), req.signature, BodyKey(req.authPubKey.value)).1 == Success(true)
    ensures Verify(c, st, cache, lib, req, now, BodyKeyFirst).2.Success?
    ensures Verify(c, st, cache, lib, req, now, BoundKeyFirst).2 == Failure(BadSignature)
  {
  }

  /**
   * With the bound key taking precedence, a successful login of a user whose key is bound
   * means the signature verified under that bound key, whatever key the body carried.
   */
  lemma BoundKeyEnforced(c: Crypto, st: AuthState, cache: CacheState, lib: Circomlib, req: VerifyRequest, now: int)
    requires Verify(c, st, cache, lib, req, now, BoundKeyFirst).2.Success?
    requires req.ownerKey in st.users && KeyBound(st.users[req.ownerKey])
    ensures var user := st.users[req.ownerKey];
            && IsHex0x(req.ownerKey) && IsHexDigits(req.nonce)
            && c.verifyPoseidon(LoginMessage(c, req),
                 Point(ToBI(req.signature.R8x).value, ToBI(req.signature.R8y).value), ToBI(req.signature.S).value,
                 Point(ToBI(user.authPubX.value).value, ToBI(user.authPubY.value).value))
            && Verify(c, st, cache, lib, req, now, BoundKeyFirst).0 == st
  {
    var user := st.users[req.ownerKey];
    VerifySigOutcomes(c, cache, lib, LoginMessage(c, req), req.signature, StoredKey(user));
  }

  // ---------------------------------------------------------------------------------------
  // The two handlers over the stored tables

  /** The user and session tables as the two handlers read and update them. */
  class AuthStore {
    var users: map<string, User>
    var sessions: seq<Session>
    var nextUserId: nat

    function State(): AuthState
      reads this
    {
      AuthState(users, sessions, nextUserId)
    }

    ghost predicate Valid()
      reads this
    {
      StoreInvariant(State())
    }

    constructor ()
      ensures Valid() && State() == AuthState(map[], [], 0)
    {
      users, sessions, nextUserId := map[], [], 0;
    }

    /** `POST /auth/challenge`. */
    method IssueChallenge(ownerKey: string, authPubKey: Option<AuthKey>, random: Bytes32, now: int)
      returns (r: Result<ChallengeReply, AuthError>)
      requires Valid()
      modifies this
      ensures Valid()
      ensures (State(), r) == Challenge(old(State()), ownerKey, authPubKey, random, now)
    {
      ChallengePreservesInvariant(State(), ownerKey, authPubKey, random, now);
      if !IsHex0x(ownerKey) {
        return Failure(InvalidBody);
      }
      var user: User;
      if ownerKey in users {
        user := users[ownerKey];
      } else {
        if authPubKey.None? {
          return Failure(MissingAuthPubKeyForNewUser);
        }
        user := User(nextUserId, ownerKey, Some(authPubKey.value.x), Some(authPubKey.value.y));
        users := users[ownerKey := user];
        nextUserId := nextUserId + 1;
      }
      var nonce := BytesToHex(random);
      var expiresAt := now + ChallengeTtlMs;
      sessions := sessions + [Session(user.id, nonce, expiresAt)];
      r := Success(ChallengeReply(nonce, expiresAt));
    }

    /**
     * `POST /auth/verify` under a key rule: `BodyKeyFirst` is the handler as written,
     * `BoundKeyFirst` the corrected choice of key.
     */
    method VerifyChallenge(c: Crypto, lib: Circomlib, cache: CircomlibCache, req: VerifyRequest, now: int, rule: KeyRule)
      returns (r: Result<VerifyReply, AuthError>)
      requires Valid() && cache.Valid()
      modifies this, cache
      ensures Valid() && cache.Valid()
      ensures (State(), cache.State(), r) == Verify(c, old(State()), old(cache.State()), lib, req, now, rule)
    {
      VerifyPreservesInvariant(c, State(), cache.State(), lib, req, now, rule);
      if !IsHex0x(req.ownerKey) || !IsHexDigits(req.nonce) {
        return Failure(InvalidBody);
      }
      if req.ownerKey !in users {
        return Failure(UnknownUser);
      }
      var user := users[req.ownerKey];
      var found := LatestSession(sessions, user.id, req.nonce);
      if found.None? || sessions[found.value].expiresAt < now {
        return Failure(NonceExpiredOrInvalid);
      }
      var msgField := LoginMessage(c, req);
      var pub := ResolveKey(rule, req.authPubKey, user);
      var ok := cache.VerifySig(c, lib, msgField, req.signature, pub);
      if ok.Failure? {
        return Failure(SignatureCheckFailed(ok.error));
      }
      if !ok.value {
        return Failure(BadSignature);
      }
      if !KeyBound(user) {
        users := users[req.ownerKey := user.(authPubX := pub.x, authPubY := pub.y)];
      }
      r := Success(VerifyReply(Token(NatToString(user.id, 10), user.ownerKey), user.id, user.ownerKey));
    }
  }
}
