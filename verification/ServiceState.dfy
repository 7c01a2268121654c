/**
 Rows and cache entries of pkg/service/service.go, and when the entries are coherent with the rows.

 Redis keys keep their three kinds apart (`user:`, `api_token:…:user_uid`, `user_password_hash:`).
 Within `user:` an id and a UID share the key space.
*/
module ServiceState {
  import opened Wrappers
  import opened Strings
  import opened Slug
  import opened SlugWords

  type Uid = string

  const NIL_UID: Uid := "00000000-0000-0000-0000-000000000000"
  const CACHE_TTL: nat := 300

  /** `profile` stands for the remaining fields that an update replaces. */
  datatype Owner = Owner(id: string, isUser: bool, displayName: string, profile: string,
                         createTime: nat, updateTime: nat, passwordHash: string)

  datatype PbUser = PbUser(name: string, id: string, displayName: string, slug: string, profile: string,
                           createTime: nat, updateTime: nat)

  datatype TokenState = StateUnspecified | StateInactive | StateActive

  /** Times are in seconds since the epoch. */
  datatype Token = Token(id: string, owner: Uid, accessToken: string, state: TokenState, expireTime: int)

  /** What a request says about a token's lifetime. */
  datatype Expiration = Ttl(seconds: int) | ExpireTime(time: int) | NoExpiration

  const END_OF_2099: int := 4102358400    // 2099-12-31

  /** None is the error for a negative time to live other than -1; without an expiration it is the epoch. */
  function ExpiryOf(x: Expiration, now: nat): Option<int> {
    match x
    case Ttl(s) => if s >= 0 then Some(now + s) else if s == -1 then Some(END_OF_2099) else None
    case ExpireTime(t) => Some(t)
    case NoExpiration => Some(0)
  }

  datatype Key = UserKey(k: string) | TokenKey(accessToken: string) | HashKey(uid: Uid)

  datatype Cached = UserValue(user: PbUser) | UidValue(uid: Uid) | HashValue(hash: string)

  datatype Entry = Entry(value: Cached, expiry: nat)

  type Owners = map<Uid, Owner>
  type Tokens = map<Uid, Token>
  type Cache = map<Key, Entry>
  type Lower = char -> char

  function Convert(lower: Lower, o: Owner): PbUser {
    PbUser("users/" + o.id, o.id, o.displayName,
           if o.displayName != "" then GenerateSlug(lower, o.displayName) else o.id,
           o.profile, o.createTime, o.updateTime)
  }

  /** The conversion copies the columns one by one; the slug spells the words of the display name, if it has
      one, and is the id otherwise. */
  lemma ConvertShows(lower: Lower, o: Owner)
    ensures var pb := Convert(lower, o);
            && pb.name == "users/" + o.id && pb.id == o.id && pb.displayName == o.displayName
            && pb.profile == o.profile && pb.createTime == o.createTime && pb.updateTime == o.updateTime
            && (o.displayName == "" ==> pb.slug == o.id)
            && (o.displayName != "" ==> IsSlug(pb.slug) && SameWords(Map(lower, o.displayName), pb.slug)
                                        && Tight(pb.slug, Positions(pb.slug)))
  {
    GeneratesSlug(lower, o.displayName);
    SlugSpellsWords(lower, o.displayName);
  }

  /* ---- Coherence ---- */

  /** Equal except for the time of the last update. */
  predicate SameUser(a: PbUser, b: PbUser) {
    a.(updateTime := 0) == b.(updateTime := 0)
  }

  /** The key names user `u`, and the value is that user's row as it is now. */
  predicate ShowsUser(lower: Lower, owners: Owners, u: Uid, k: string, pb: PbUser) {
    u in owners && owners[u].isUser && (k == owners[u].id || k == u) && SameUser(pb, Convert(lower, owners[u]))
  }

  ghost predicate UserEntryOk(lower: Lower, owners: Owners, k: string, pb: PbUser) {
    exists u :: ShowsUser(lower, owners, u, k, pb)
  }

  predicate IsTokenOf(tokens: Tokens, t: Uid, access: string, uid: Uid) {
    t in tokens && tokens[t].accessToken == access && tokens[t].owner == uid
  }

  ghost predicate TokenEntryOk(tokens: Tokens, access: string, uid: Uid) {
    exists t :: IsTokenOf(tokens, t, access, uid)
  }

  ghost predicate EntryOk(lower: Lower, owners: Owners, tokens: Tokens, used: set<Uid>, k: Key, v: Cached) {
    match k
    case UserKey(id) => v.UserValue? && UserEntryOk(lower, owners, id, v.user)
    case TokenKey(access) => v.UidValue? && TokenEntryOk(tokens, access, v.uid)
    case HashKey(uid) => v.HashValue? && uid in used && (uid in owners ==> v.hash == owners[uid].passwordHash)
  }

  /** Every user entry shows the current row, every token entry names the owner of a stored token,
      and every hash entry is the stored hash while the row exists. */
  ghost predicate Coherent(lower: Lower, owners: Owners, tokens: Tokens, used: set<Uid>, cache: Cache) {
    forall k | k in cache :: EntryOk(lower, owners, tokens, used, k, cache[k].value)
  }

  /** Another token has the access token, or the owner has one with the id. */
  predicate IsTaken(tokens: Tokens, owner: Uid, id: string, accessToken: string) {
    exists t :: t in tokens
      && (tokens[t].accessToken == accessToken || (tokens[t].owner == owner && tokens[t].id == id))
  }

  predicate UniqueIds(owners: Owners) {
    forall u, v | u in owners && v in owners && owners[u].id == owners[v].id :: u == v
  }

  /** No id looks like a UID in use. */
  predicate IdsAreNotUids(owners: Owners) {
    forall u, v | u in owners && v in owners :: owners[u].id != v
  }

  predicate UniqueTokens(tokens: Tokens) {
    forall t, s | t in tokens && s in tokens ::
      (tokens[t].accessToken == tokens[s].accessToken ==> t == s)
      && (tokens[t].owner == tokens[s].owner && tokens[t].id == tokens[s].id ==> t == s)
  }

  /** No call stores a token in another state. */
  predicate AllActive(tokens: Tokens) {
    forall t | t in tokens :: tokens[t].state == StateActive
  }

  /** What ValidateToken accepts. */
  predicate Accepts(tokens: Tokens, access: string) {
    exists t | t in tokens :: tokens[t].accessToken == access && tokens[t].owner != NIL_UID
  }

  /** The access token of an active, unexpired token. */
  predicate UsableAccess(tokens: Tokens, access: string, now: int) {
    exists t | t in tokens ::
      tokens[t].accessToken == access && tokens[t].state == StateActive && now < tokens[t].expireTime
  }

  /** ValidateToken accepts active, unexpired tokens only if and only if every stored token of an owner other
      than the nil UID is active and unexpired: it looks at neither. */
  lemma AcceptsOnlyUsableIff(tokens: Tokens, now: int)
    requires UniqueTokens(tokens)
    ensures (forall access: string :: Accepts(tokens, access) ==> UsableAccess(tokens, access, now))
            <==> (forall t | t in tokens && tokens[t].owner != NIL_UID ::
                    tokens[t].state == StateActive && now < tokens[t].expireTime)
  {
    if forall access: string :: Accepts(tokens, access) ==> UsableAccess(tokens, access, now) {
      forall t | t in tokens && tokens[t].owner != NIL_UID
        ensures tokens[t].state == StateActive && now < tokens[t].expireTime
      {
        assert Accepts(tokens, tokens[t].accessToken);
        var s :| s in tokens && tokens[s].accessToken == tokens[t].accessToken
                 && tokens[s].state == StateActive && now < tokens[s].expireTime;
        assert s == t;
      }
    }
  }

  /** A row may change, or go, in every column but id and password once its two keys are gone. */
  lemma RewriteKeepsCoherent(lower: Lower, owners: Owners, owners': Owners, tokens: Tokens, used: set<Uid>,
      cache: Cache, uid: Uid)
    requires Coherent(lower, owners, tokens, used, cache) && uid in owners
    requires UserKey(owners[uid].id) !in cache && UserKey(uid) !in cache
    requires forall u | u != uid :: (u in owners <==> u in owners') && (u in owners ==> owners[u] == owners'[u])
    requires uid in owners' ==> owners'[uid].passwordHash == owners[uid].passwordHash
    ensures Coherent(lower, owners', tokens, used, cache)
  {
    forall k | k in cache ensures EntryOk(lower, owners', tokens, used, k, cache[k].value) {
      assert EntryOk(lower, owners, tokens, used, k, cache[k].value);
      if k.UserKey? {
        var u :| ShowsUser(lower, owners, u, k.k, cache[k].value.user);
        assert ShowsUser(lower, owners', u, k.k, cache[k].value.user);
      }
    }
  }

  /** So may the password of a row whose hash entry is gone, with its update time. */
  lemma NewPasswordKeepsCoherent(lower: Lower, owners: Owners, owners': Owners, tokens: Tokens, used: set<Uid>,
      cache: Cache, uid: Uid)
    requires Coherent(lower, owners, tokens, used, cache) && uid in owners && HashKey(uid) !in cache
    requires exists hash, now :: owners' == owners[uid := owners[uid].(passwordHash := hash, updateTime := now)]
    ensures Coherent(lower, owners', tokens, used, cache)
  {
    forall k | k in cache ensures EntryOk(lower, owners', tokens, used, k, cache[k].value) {
      assert EntryOk(lower, owners, tokens, used, k, cache[k].value);
      if k.UserKey? {
        var u :| ShowsUser(lower, owners, u, k.k, cache[k].value.user);
        assert ShowsUser(lower, owners', u, k.k, cache[k].value.user);
      }
    }
  }

  lemma NewUserKeepsCoherent(lower: Lower, owners: Owners, tokens: Tokens, used: set<Uid>, cache: Cache, uid: Uid,
      o: Owner)
    requires Coherent(lower, owners, tokens, used, cache) && uid !in used && owners.Keys <= used
    ensures Coherent(lower, owners[uid := o], tokens, used + {uid}, cache)
  {
    forall k | k in cache ensures EntryOk(lower, owners[uid := o], tokens, used + {uid}, k, cache[k].value) {
      assert EntryOk(lower, owners, tokens, used, k, cache[k].value);
      if k.UserKey? {
        var u :| ShowsUser(lower, owners, u, k.k, cache[k].value.user);
        assert u in used && ShowsUser(lower, owners[uid := o], u, k.k, cache[k].value.user);
      }
    }
  }

  /** A token may go once its key is gone; a new one disturbs nothing. */
  lemma TokenChangeKeepsCoherent(lower: Lower, owners: Owners, tokens: Tokens, tokens': Tokens, used: set<Uid>,
      cache: Cache, t: Uid)
    requires Coherent(lower, owners, tokens, used, cache)
    requires t in tokens ==> TokenKey(tokens[t].accessToken) !in cache
    requires forall s | s != t :: (s in tokens <==> s in tokens') && (s in tokens ==> tokens[s] == tokens'[s])
    ensures Coherent(lower, owners, tokens', used, cache)
  {
    forall k | k in cache ensures EntryOk(lower, owners, tokens', used, k, cache[k].value) {
      assert EntryOk(lower, owners, tokens, used, k, cache[k].value);
      if k.TokenKey? {
        var s :| IsTokenOf(tokens, s, k.accessToken, cache[k].value.uid);
        assert IsTokenOf(tokens', s, k.accessToken, cache[k].value.uid);
      }
    }
  }

  /** A user's id and UID lead to that user's own entry. */
  lemma OwnEntry(lower: Lower, owners: Owners, u: Uid, k: string, pb: PbUser)
    requires UniqueIds(owners) && IdsAreNotUids(owners) && u in owners && (k == u || k == owners[u].id)
    requires UserEntryOk(lower, owners, k, pb)
    ensures SameUser(pb, Convert(lower, owners[u]))
  {
    var v :| ShowsUser(lower, owners, v, k, pb);
  }

  predicate IsUserWithId(owners: Owners, u: Uid, id: string) {
    u in owners && owners[u].id == id && owners[u].isUser
  }

  ghost predicate HasUserWithId(owners: Owners, id: string) {
    exists u :: IsUserWithId(owners, u, id)
  }

  /** Reads of users only add user entries, or renew them. */
  predicate OnlyFilled(before: Cache, after: Cache, expiry: nat) {
    && (forall k | k in before :: k in after)
    && (forall k | k in after :: (k in before && after[k] == before[k]) || (k.UserKey? && after[k].expiry == expiry))
  }
}
