/**
 The service of pkg/service/service.go with its cache, run one whole call at a time: Redis works,
 there is no replica lag, but statements may fail (a unique constraint, say).
*/
module Service {
  import opened Wrappers
  import opened ServiceState

  class Service {
    var owners: Owners
    var tokens: Tokens
    var cache: Cache
    var clock: nat
    ghost var used: set<Uid>                 // every user UID there has been
    const lower: Lower                       // strings.ToLower
    const matches: (string, string) -> bool  // does the hash accept the password?

    ghost predicate Valid()
      reads this
    {
      && UniqueIds(owners) && IdsAreNotUids(owners) && UniqueTokens(tokens) && AllActive(tokens)
      && owners.Keys <= used
      && Coherent(lower, owners, tokens, used, cache)
    }

    constructor (lower: Lower, matches: (string, string) -> bool)
      ensures Valid() && owners == map[] && tokens == map[] && cache == map[] && clock == 0 && used == {}
      ensures this.lower == lower && this.matches == matches
    {
      this.lower := lower;
      this.matches := matches;
      owners, tokens, cache, clock, used := map[], map[], map[], 0, {};
    }

    predicate Live(k: Key)
      reads this
    {
      k in cache && clock < cache[k].expiry
    }

    function EntryOf(v: Cached): (e: Entry)
      reads this
      ensures e.value == v && e.expiry == clock + 300
    {
      Entry(v, clock + CACHE_TTL)
    }

    method Wait(seconds: nat)
      requires Valid()
      modifies this`clock
      ensures Valid() && clock == old(clock) + seconds
    {
      clock := clock + seconds;
    }

    /* ---- Users: reads ---- */

    method FindById(id: string) returns (r: Option<Uid>)
      requires Valid()
      ensures r.Some? <==> HasUserWithId(owners, id)
      ensures r.Some? ==> IsUserWithId(owners, r.value, id)
    {
      if u: Uid :| u in owners && IsUserWithId(owners, u, id) {
        r := Some(u);
      } else {
        r := None;
      }
    }

    method SetUserToCache(k: string, pb: PbUser)
      requires Valid() && UserEntryOk(lower, owners, k, pb)
      modifies this`cache
      ensures Valid() && cache == old(cache)[UserKey(k) := EntryOf(UserValue(pb))]
    {
      cache := cache[UserKey(k) := Entry(UserValue(pb), clock + CACHE_TTL)];
    }

    /** Answers with the user's current row, except perhaps its update time, exactly if there is such
        a user; a live entry also answers to the UID it was stored under. */
    method GetUserAdmin(id: string) returns (r: Result<PbUser>)
      requires Valid()
      modifies this`cache
      ensures Valid()
      ensures r.Ok? <==> HasUserWithId(owners, id) || old(Live(UserKey(id)))
      ensures r.Ok? ==> UserEntryOk(lower, owners, id, r.value)
      ensures !r.Ok? || old(Live(UserKey(id))) ==> cache == old(cache)
      ensures r.Ok? && !old(Live(UserKey(id))) ==> cache == old(cache)[UserKey(id) := EntryOf(UserValue(r.value))]
    {
      if Live(UserKey(id)) {
        assert EntryOk(lower, owners, tokens, used, UserKey(id), cache[UserKey(id)].value);
        return Ok(cache[UserKey(id)].value.user);
      }
      var found := FindById(id);
      match found {
        case None => r := Err;
        case Some(u) =>
          var pb := Convert(lower, owners[u]);
          assert ShowsUser(lower, owners, u, id, pb);
          SetUserToCache(id, pb);
          r := Ok(pb);
      }
    }

    /** Looks up by UID and caches under both keys. */
    method GetUserByUIDAdmin(uid: Uid) returns (r: Result<PbUser>)
      requires Valid()
      modifies this`cache
      ensures Valid()
      ensures r.Ok? <==> (uid in owners && owners[uid].isUser) || old(Live(UserKey(uid)))
      ensures r.Ok? ==> UserEntryOk(lower, owners, uid, r.value)
      ensures !r.Ok? || old(Live(UserKey(uid))) ==> cache == old(cache)
      ensures r.Ok? && !old(Live(UserKey(uid))) ==>
                && r.value == Convert(lower, owners[uid])
                && var e := EntryOf(UserValue(r.value));
                   cache == old(cache)[UserKey(owners[uid].id) := e][UserKey(uid) := e]
    {
      if Live(UserKey(uid)) {
        assert EntryOk(lower, owners, tokens, used, UserKey(uid), cache[UserKey(uid)].value);
        return Ok(cache[UserKey(uid)].value.user);
      }
      if uid !in owners || !owners[uid].isUser {
        return Err;
      }
      var pb := Convert(lower, owners[uid]);
      assert ShowsUser(lower, owners, uid, pb.id, pb) && ShowsUser(lower, owners, uid, uid, pb);
      SetUserToCache(pb.id, pb);
      SetUserToCache(uid, pb);
      r := Ok(pb);
    }

    /** `me` stands for the calling user. */
    method GetUser(ctxUid: Uid, id: string) returns (r: Result<PbUser>)
      requires Valid()
      modifies this`cache
      ensures Valid()
      ensures id != "me" ==> (r.Ok? <==> HasUserWithId(owners, id) || old(Live(UserKey(id))))
      ensures id != "me" && r.Ok? ==> UserEntryOk(lower, owners, id, r.value)
      ensures id == "me" && ctxUid in owners && owners[ctxUid].isUser ==>
                r.Ok? && SameUser(r.value, Convert(lower, owners[ctxUid]))
      ensures OnlyFilled(old(cache), cache, clock + CACHE_TTL)
    {
      if id != "me" {
        r := GetUserAdmin(id);
        return;
      }
      var me := GetUserByUIDAdmin(ctxUid);
      match me {
        case Ok(pb) =>
          r := GetUserAdmin(pb.id);
          if ctxUid in owners && owners[ctxUid].isUser {
            OwnEntry(lower, owners, ctxUid, ctxUid, pb);
            assert IsUserWithId(owners, ctxUid, pb.id);
            OwnEntry(lower, owners, ctxUid, pb.id, r.value);
          }
        case _ => r := Err;
      }
    }

    /* ---- Users: writes ---- */

    /** A new user gets a UID that was never used; a duplicate id is an error, and `up` is the fate of the
        statement otherwise (a duplicate email, say).  No id looks like a UID. */
    method CreateUser(uid: Uid, o: Owner, up: bool) returns (ok: bool)
      requires Valid() && uid !in used && o.id != uid
      requires forall v | v in owners :: o.id != v && owners[v].id != uid
      modifies this`owners, this`used
      ensures Valid()
      ensures ok <==> up && forall v | v in old(owners) :: old(owners)[v].id != o.id
      ensures owners == if ok then old(owners)[uid := o.(createTime := clock, updateTime := clock)] else old(owners)
      ensures used == if ok then old(used) + {uid} else old(used)
    {
      if v: Uid :| v in owners && owners[v].id == o.id {
        return false;
      }
      if !up {
        return false;
      }
      NewUserKeepsCoherent(lower, owners, tokens, used, cache, uid, o.(createTime := clock, updateTime := clock));
      owners := owners[uid := o.(createTime := clock, updateTime := clock)];
      used := used + {uid};
      ok := true;
    }

    method DeleteUserKeys(id: string, uid: Uid)
      requires Valid()
      modifies this`cache
      ensures Valid() && cache == old(cache) - {UserKey(id), UserKey(uid)}
    {
      cache := cache - {UserKey(id)};
      cache := cache - {UserKey(uid)};
    }

    /** Invalidates both keys, then writes; `ok` is the fate of the statement. */
    method UpdateAuthenticatedUser(uid: Uid, displayName: string, profile: string, ok: bool) returns (r: Result<PbUser>)
      requires Valid()
      modifies this`cache, this`owners
      ensures Valid()
      ensures r.Ok? <==> ok && uid in old(owners) && old(owners)[uid].isUser
      ensures r.Ok? ==>
        && owners ==
           old(owners)[uid := old(owners)[uid].(displayName := displayName, profile := profile, updateTime := clock)]
        && r.value == Convert(lower, owners[uid])
      ensures !r.Ok? ==> owners == old(owners)
      ensures cache == if uid in old(owners) && old(owners)[uid].isUser
                       then old(cache) - {UserKey(old(owners)[uid].id), UserKey(uid)} else old(cache)
    {
      if uid !in owners || !owners[uid].isUser {
        return Err;
      }
      DeleteUserKeys(owners[uid].id, uid);
      if !ok {
        return Err;
      }
      var next := owners[uid := owners[uid].(displayName := displayName, profile := profile, updateTime := clock)];
      RewriteKeepsCoherent(lower, owners, next, tokens, used, cache, uid);
      owners := next;
      r := Ok(Convert(lower, owners[uid]));
    }

    method DeleteUser(id: string, ok: bool) returns (deleted: bool)
      requires Valid()
      modifies this`cache, this`owners
      ensures Valid()
      ensures deleted <==> ok && HasUserWithId(old(owners), id)
      ensures !deleted ==> owners == old(owners)
      ensures HasUserWithId(old(owners), id) ==>
                exists u :: IsUserWithId(old(owners), u, id) && cache == old(cache) - {UserKey(id), UserKey(u)}
                            && (deleted ==> owners == old(owners) - {u})
      ensures !HasUserWithId(old(owners), id) ==> cache == old(cache)
      ensures deleted ==> !Live(UserKey(id)) && !HasUserWithId(owners, id)
    {
      var found := FindById(id);
      match found {
        case None => return false;
        case Some(u) =>
          DeleteUserKeys(id, u);
          if !ok { return false; }
          RewriteKeepsCoherent(lower, owners, owners - {u}, tokens, used, cache, u);
          owners := owners - {u};
          deleted := true;
      }
    }

    /* ---- Passwords ---- */

    /** Decides by the stored hash while the row exists.  A hash that is still cached decides for a row
        that is gone. */
    method CheckUserPassword(uid: Uid, password: string) returns (ok: bool)
      requires Valid()
      modifies this`cache
      ensures Valid()
      ensures uid in owners ==> ok == matches(owners[uid].passwordHash, password)
      ensures uid !in owners ==>
                ok == (old(Live(HashKey(uid))) && old(cache)[HashKey(uid)].value != HashValue("")
                       && matches(old(cache)[HashKey(uid)].value.hash, password))
      ensures cache == if uid !in owners || (old(Live(HashKey(uid))) && old(cache)[HashKey(uid)].value != HashValue(""))
                       then old(cache) else old(cache)[HashKey(uid) := EntryOf(HashValue(owners[uid].passwordHash))]
    {
      var hash := "";
      if Live(HashKey(uid)) {
        assert EntryOk(lower, owners, tokens, used, HashKey(uid), cache[HashKey(uid)].value);
        hash := cache[HashKey(uid)].value.hash;
      }
      if hash == "" {
        if uid !in owners {
          return false;
        }
        hash := owners[uid].passwordHash;
        cache := cache[HashKey(uid) := Entry(HashValue(hash), clock + CACHE_TTL)];
      }
      ok := matches(hash, password);
    }

    /** `hash` is bcrypt's hash of the new password. */
    method UpdateUserPassword(uid: Uid, hash: string, ok: bool)
      requires Valid()
      modifies this`cache, this`owners
      ensures Valid() && cache == old(cache) - {HashKey(uid)}
      ensures owners == if ok && uid in old(owners)
                        then old(owners)[uid := old(owners)[uid].(passwordHash := hash, updateTime := clock)]
                        else old(owners)
    {
      cache := cache - {HashKey(uid)};
      if ok && uid in owners {
        var next := owners[uid := owners[uid].(passwordHash := hash, updateTime := clock)];
        NewPasswordKeepsCoherent(lower, owners, next, tokens, used, cache, uid);
        owners := next;
      }
    }

    /* ---- Tokens ---- */

    method ExpireTimeFor(x: Expiration) returns (ok: bool, time: int)
      ensures ok == ExpiryOf(x, clock).Some? && (ok ==> Some(time) == ExpiryOf(x, clock))
      ensures ok <==> !(x.Ttl? && x.seconds < -1)
      ensures x.Ttl? && x.seconds >= 0 ==> time == clock + x.seconds
      ensures x == Ttl(-1) ==> time == 4102358400
      ensures x.ExpireTime? ==> time == x.time
      ensures x.NoExpiration? ==> time == 0
    {
      ok, time := true, 0;
      match x {
        case Ttl(s) =>
          if s >= 0 {
            time := clock + s;
          } else if s == -1 {
            time := END_OF_2099;
          } else {
            ok := false;
          }
        case ExpireTime(t) => time := t;
        case NoExpiration =>
      }
    }

    /** The new token is active.  A bad time to live is an error; so is a duplicate access token, or a
        duplicate id of the same owner; `up` is the fate of the statement otherwise. */
    method CreateToken(ctxUid: Uid, t: Uid, id: string, accessToken: string, expiration: Expiration, up: bool)
      returns (ok: bool)
      requires Valid() && t !in tokens
      modifies this`cache, this`tokens
      ensures Valid()
      ensures ok <==> up && !(expiration.Ttl? && expiration.seconds < -1)
                      && forall s | s in old(tokens) ::
                           && old(tokens)[s].accessToken != accessToken
                           && !(old(tokens)[s].owner == ctxUid && old(tokens)[s].id == id)
      ensures ok ==> && tokens ==
                        old(tokens)[t := Token(id, ctxUid, accessToken, StateActive, ExpiryOf(expiration, clock).value)]
                     && cache == old(cache)[TokenKey(accessToken) := EntryOf(UidValue(ctxUid))]
      ensures !ok ==> tokens == old(tokens) && cache == old(cache)
    {
      var expireTime: int;
      ok, expireTime := ExpireTimeFor(expiration);
      if !ok {
        return false;
      }
      if IsTaken(tokens, ctxUid, id, accessToken) || !up {
        return false;
      }
      var next := tokens[t := Token(id, ctxUid, accessToken, StateActive, expireTime)];
      TokenChangeKeepsCoherent(lower, owners, tokens, next, used, cache, t);
      tokens := next;
      assert IsTokenOf(tokens, t, accessToken, ctxUid);
      cache := cache[TokenKey(accessToken) := Entry(UidValue(ctxUid), clock + CACHE_TTL)];
      ok := true;
    }

    method DeleteToken(ctxUid: Uid, id: string, up: bool) returns (ok: bool)
      requires Valid()
      modifies this`cache, this`tokens
      ensures Valid()
      ensures ok <==> up && exists t :: t in old(tokens) && old(tokens)[t].owner == ctxUid && old(tokens)[t].id == id
      ensures forall t | t in old(tokens) && old(tokens)[t].owner == ctxUid && old(tokens)[t].id == id ::
                && tokens == (if ok then old(tokens) - {t} else old(tokens))
                && cache == old(cache) - {TokenKey(old(tokens)[t].accessToken)}
      ensures (forall t | t in old(tokens) :: !(old(tokens)[t].owner == ctxUid && old(tokens)[t].id == id)) ==>
                tokens == old(tokens) && cache == old(cache)
    {
      if t: Uid :| t in tokens && tokens[t].owner == ctxUid && tokens[t].id == id {
        cache := cache - {TokenKey(tokens[t].accessToken)};
        if !up { return false; }
        TokenChangeKeepsCoherent(lower, owners, tokens, tokens - {t}, used, cache, t);
        tokens := tokens - {t};
        ok := true;
      } else {
        ok := false;
      }
    }

    /** Accepts an access token exactly if it is stored and its owner is not the nil UID, and then
        answers with its owner. */
    method ValidateToken(accessToken: string) returns (r: Result<Uid>)
      requires Valid()
      modifies this`cache
      ensures Valid()
      ensures r.Ok? <==> Accepts(tokens, accessToken)
      ensures r.Ok? ==> TokenEntryOk(tokens, accessToken, r.value) && r.value != NIL_UID
      ensures cache == old(cache)
              || exists t :: t in tokens && tokens[t].accessToken == accessToken
                             && cache == old(cache)[TokenKey(accessToken) := EntryOf(UidValue(tokens[t].owner))]
      ensures old(Live(TokenKey(accessToken))) && old(cache)[TokenKey(accessToken)].value != UidValue(NIL_UID) ==>
                cache == old(cache)
      ensures r.Ok? ==> Live(TokenKey(accessToken))
    {
      var uid := NIL_UID;
      if Live(TokenKey(accessToken)) {
        assert EntryOk(lower, owners, tokens, used, TokenKey(accessToken), cache[TokenKey(accessToken)].value);
        uid := cache[TokenKey(accessToken)].value.uid;
      }
      if uid == NIL_UID {
        if t: Uid :| t in tokens && tokens[t].accessToken == accessToken {
          uid := tokens[t].owner;
          assert IsTokenOf(tokens, t, accessToken, uid);
          cache := cache[TokenKey(accessToken) := Entry(UidValue(uid), clock + CACHE_TTL)];
        } else {
          return Err;
        }
      }
      r := if uid == NIL_UID then Err else Ok(uid);
    }
  }

  /** An hour after a token of one second has expired, and long after its entry has, it is accepted. */
  method AcceptsExpiredToken(lower: Lower, matches: (string, string) -> bool) returns (s: Service, r: Result<Uid>)
    ensures fresh(s) && s.Valid() && r == Ok("u")
    ensures exists t :: t in s.tokens && s.tokens[t].accessToken == "secret" && s.tokens[t].expireTime + 3600 == s.clock
  {
    s := new Service(lower, matches);
    var created := s.CreateToken("u", "t", "token", "secret", Ttl(1), true);
    assert "t" in s.tokens && s.tokens["t"] == Token("token", "u", "secret", StateActive, 1);
    s.Wait(3601);
    r := s.ValidateToken("secret");
  }

  /** A user who has logged in is deleted; the password is accepted for another five minutes. */
  method CachedHashOutlivesRow(lower: Lower, matches: (string, string) -> bool, o: Owner, password: string,
      seconds: nat)
    returns (s: Service, ok: bool)
    requires o.isUser && o.id != "u" && o.passwordHash != "" && matches(o.passwordHash, password)
    ensures fresh(s) && s.Valid() && "u" !in s.owners && (ok <==> seconds < 300)
  {
    s := new Service(lower, matches);
    var created := s.CreateUser("u", o, true);
    var before := s.CheckUserPassword("u", password);
    assert IsUserWithId(s.owners, "u", o.id);
    var deleted := s.DeleteUser(o.id, true);
    s.Wait(seconds);
    ok := s.CheckUserPassword("u", password);
  }
}
