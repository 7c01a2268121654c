/** The invariant of the cache protocol and its preservation, event by event. */
module UserCacheInvariant {
  import opened Wrappers
  import opened Maps
  import opened UserCache

  /** Row `u` of the version's cause moved; every other row stayed. */
  ghost predicate Follows(prev: Table, v: Version) {
    match v.cause
    case Initial => false
    case Created(u) => u !in prev && u in v.table && OthersStay(prev, v.table, u)
    case Touched(u) =>
      u in prev && u in v.table && OthersStay(prev, v.table, u)
      && v.table[u] == prev[u].(updateTime := v.table[u].updateTime)
    case Updated(u, _) => u in prev && u in v.table && OthersStay(prev, v.table, u)
    case Deleted(u, _) => u in prev && u !in v.table && OthersStay(prev, v.table, u)
  }

  /** The ID and the UID of a user determine each other, in all versions. */
  ghost predicate StableIds(h: seq<Version>) {
    forall i, j, u, v | 0 <= i < |h| && 0 <= j < |h| && u in h[i].table && v in h[j].table ::
      h[i].table[u].id == h[j].table[v].id <==> u == v
  }

  predicate HasInv(cause: Cause) { cause.Updated? || cause.Deleted? }

  ghost predicate HistoryOk(s: State) {
    var h := s.history;
    && |h| > 0 && s.replica < |h|
    && (forall i, j | 0 <= i <= j < |h| :: h[i].time <= h[j].time)
    && (forall i | 0 <= i < |h| :: h[i].time <= s.clock)
    && (forall i | s.replica < i < |h| :: s.clock <= h[i].time + s.lag)
    && StableIds(h)
    && (forall i | 0 < i < |h| :: Follows(h[i - 1].table, h[i]))
    && (forall i | 0 <= i < |h| && HasInv(h[i].cause) ::
          h[i].cause.inv.idAt < s.steps && h[i].cause.inv.uidAt < s.steps)
  }

  /** The read returned the conversion of a row it saw, and can only have missed
      commits that were at most `lag` old. */
  ghost predicate ReadOk(s: State, r: Read, pb: PbUser) {
    var h := s.history;
    && r.version < |h|
    && r.uid in h[r.version].table
    && pb == Convert(h[r.version].table[r.uid])
    && h[r.version].time <= r.time <= s.clock
    && r.at < s.steps
    && (forall j | r.version < j < |h| :: r.time <= h[j].time + s.lag)
    && (r.primary ==> forall j | r.version < j < |h| :: r.at < h[j].at)
  }

  /** The writer behind `cause` deleted key `k` of the read's user before `at`. */
  predicate InvalidatedBefore(cause: Cause, k: Key, pb: PbUser, uid: Uid, at: nat)
    requires HasInv(cause)
  {
    (k == pb.id ==> cause.inv.idAt < at) && (k == uid ==> cause.inv.uidAt < at)
  }

  /** Every writer of this row that the read missed had invalidated the key before the store. */
  ghost predicate RacedOnly(s: State, k: Key, e: Entry) {
    forall j | e.read.version < j < |s.history| && HasInv(s.history[j].cause) && s.history[j].cause.uid == e.read.uid ::
      InvalidatedBefore(s.history[j].cause, k, e.value, e.read.uid, e.storedAt)
  }

  ghost predicate EntryOk(s: State, k: Key, e: Entry) {
    && ReadOk(s, e.read, e.value)
    && e.read.time <= e.storeTime <= s.clock
    && e.expiry == e.storeTime + USER_TTL
    && e.storedAt < s.steps
    && (k == e.value.id || k == e.read.uid)
    && RacedOnly(s, k, e)
  }

  /** The pair was read from some version. */
  ghost predicate Pair(s: State, uid: Uid, id: string) {
    exists i :: 0 <= i < |s.history| && uid in s.history[i].table && s.history[i].table[uid].id == id
  }

  /** Key `k` was deleted at event `at`: what it holds now was stored later. */
  ghost predicate Since(s: State, k: Key, at: nat) {
    at < s.steps && (k in s.redis ==> at < s.redis[k].storedAt)
  }

  ghost predicate CallOk(s: State, call: Call) {
    match call
    case IdStore(pb, read) => ReadOk(s, read, pb)
    case UidStoreId(uid, _, pb, read) => ReadOk(s, read, pb) && read.uid == uid
    case UidStoreUid(uid, _, pb, read) => ReadOk(s, read, pb) && read.uid == uid
    case UpdDelId(uid, id, _) => Pair(s, uid, id)
    case UpdDelUid(uid, id, _, idAt) => Pair(s, uid, id) && Since(s, id, idAt)
    case UpdWrite(uid, id, _, inv) => Pair(s, uid, id) && Since(s, id, inv.idAt) && Since(s, uid, inv.uidAt)
    case DelDelId(uid, id) => Pair(s, uid, id)
    case DelDelUid(uid, id, idAt) => Pair(s, uid, id) && Since(s, id, idAt)
    case DelWrite(uid, id, inv) => Pair(s, uid, id) && Since(s, id, inv.idAt) && Since(s, uid, inv.uidAt)
    case _ => true
  }

  ghost predicate EntriesOk(s: State) {
    forall k | k in s.redis :: EntryOk(s, k, s.redis[k])
  }

  ghost predicate CallsOk(s: State) {
    forall c | c in s.calls :: CallOk(s, s.calls[c])
  }

  ghost predicate Inv(s: State) {
    HistoryOk(s) && EntriesOk(s) && CallsOk(s)
  }

  lemma InitInv(s: State)
    requires Init(s)
    ensures Inv(s)
  {}

  /** `s'` follows `s` with the same history and clock; what changed in Redis was deleted or
      stored just now. */
  ghost predicate RedisStep(s: State, s': State) {
    && s'.history == s.history && s'.lag == s.lag && s'.replica == s.replica && s'.clock == s.clock
    && s.steps < s'.steps
    && forall k | k in s'.redis ::
         (k in s.redis && s'.redis[k] == s.redis[k]) || s'.redis[k].storedAt == s.steps
  }

  lemma HistoryStays(s: State, s': State)
    requires HistoryOk(s) && RedisStep(s, s')
    ensures HistoryOk(s')
  {}

  lemma EntryStays(s: State, s': State, k: Key, e: Entry)
    requires EntryOk(s, k, e) && RedisStep(s, s')
    ensures EntryOk(s', k, e)
  {}

  lemma CallStays(s: State, s': State, call: Call)
    requires CallOk(s, call) && RedisStep(s, s')
    ensures CallOk(s', call)
  {
    match call
    case UpdDelUid(uid, id, _, _) => PairStays(s, s', uid, id);
    case UpdDelId(uid, id, _) => PairStays(s, s', uid, id);
    case UpdWrite(uid, id, _, _) => PairStays(s, s', uid, id);
    case DelDelId(uid, id) => PairStays(s, s', uid, id);
    case DelDelUid(uid, id, _) => PairStays(s, s', uid, id);
    case DelWrite(uid, id, _) => PairStays(s, s', uid, id);
    case _ =>
  }

  lemma PairStays(s: State, s': State, uid: Uid, id: string)
    requires Pair(s, uid, id)
    requires |s.history| <= |s'.history| && s'.history[..|s.history|] == s.history
    ensures Pair(s', uid, id)
  {
    var i :| 0 <= i < |s.history| && uid in s.history[i].table && s.history[i].table[uid].id == id;
    assert s'.history[i] == s.history[i];
  }

  /** One Redis command or none, and a new program counter for call `c`. */
  lemma RedisStepKeepsInv(s: State, s': State, c: CallId, k: Key)
    requires Inv(s) && RedisStep(s, s')
    requires s'.calls.Keys == s.calls.Keys + {c}
    requires forall d | d in s.calls && d != c :: s'.calls[d] == s.calls[d]
    requires CallOk(s', s'.calls[c])
    requires forall x | x in s'.redis && x != k :: x in s.redis && s'.redis[x] == s.redis[x]
    requires k in s'.redis ==> EntryOk(s', k, s'.redis[k])
    ensures Inv(s')
  {
    HistoryStays(s, s');
    forall x | x in s'.redis ensures EntryOk(s', x, s'.redis[x]) {
      if x != k { EntryStays(s, s', x, s.redis[x]); }
    }
    forall d | d in s'.calls ensures CallOk(s', s'.calls[d]) {
      if d != c { CallStays(s, s', s.calls[d]); }
    }
  }

  lemma PutKeepsInv(s: State, c: CallId, call: Call)
    requires Inv(s) && CallOk(Put(s, c, call), call)
    ensures Inv(Put(s, c, call))
  {
    var s' := Put(s, c, call);
    HistoryStays(s, s');
    forall k | k in s'.redis ensures EntryOk(s', k, s'.redis[k]) { EntryStays(s, s', k, s.redis[k]); }
    forall d | d in s'.calls ensures CallOk(s', s'.calls[d]) {
      if d != c { CallStays(s, s', s.calls[d]); }
    }
  }

  lemma StoredEntryOk(s: State, s': State, k: Key, pb: PbUser, read: Read)
    requires HistoryOk(s) && ReadOk(s, read, pb) && (k == pb.id || k == read.uid)
    requires RedisStep(s, s')
    ensures EntryOk(s', k, Entry(pb, s.clock + USER_TTL, read, s.clock, s.steps))
  {}

  lemma CallStaysUnclaimed(s: State, s': State, call: Call)
    requires CallOk(s, call) && (call.Done? || call.IdLookup? || call.UidStoreUid?)
    requires RedisStep(s, s')
    ensures CallOk(s', call)
  {}

  /** A store is later than every invalidation so far, so it keeps both the entries and
      the writers' claims on their keys. */
  lemma StoreKeepsInv(s: State, c: CallId, k: Key, pb: PbUser, read: Read, call: Call)
    requires Inv(s) && ReadOk(s, read, pb) && (k == pb.id || k == read.uid)
    requires CallOk(s, call) && (call.Done? || call.IdLookup? || call.UidStoreUid?)
    ensures Inv(Put(SetKey(s, k, pb, read), c, call))
  {
    var s' := Put(SetKey(s, k, pb, read), c, call);
    assert RedisStep(s, s');
    CallStaysUnclaimed(s, s', call);
    assert EntryOk(s', k, s'.redis[k]) by { StoredEntryOk(s, s', k, pb, read); }
    RedisStepKeepsInv(s, s', c, k);
  }

  /** Deleting a key is a Redis step whose caller may then claim the key. */
  lemma DeleteKeepsInv(s: State, c: CallId, k: Key, call: Call)
    requires Inv(s) && CallOk(Put(DelKey(s, k), c, call), call)
    ensures Inv(Put(DelKey(s, k), c, call))
  {
    RedisStepKeepsInv(s, Put(DelKey(s, k), c, call), c, k);
  }

  /** The writer of `cause` has invalidated every entry filled from its row. */
  ghost predicate Covers(s: State, cause: Cause) {
    HasInv(cause) ==>
      && cause.inv.idAt < s.steps && cause.inv.uidAt < s.steps
      && forall k | k in s.redis && s.redis[k].read.uid == cause.uid ::
           InvalidatedBefore(cause, k, s.redis[k].value, cause.uid, s.redis[k].storedAt)
  }

  ghost predicate Extends(s: State, s': State, v: Version) {
    && s'.history == s.history + [v] && v.time == s.clock && v.at == s.steps
    && s' == s.(history := s'.history, steps := s.steps + 1)
  }

  lemma HistoryExtends(s: State, s': State, v: Version)
    requires HistoryOk(s) && Extends(s, s', v)
    requires Follows(Last(s).table, v) && StableIds(s'.history)
    requires HasInv(v.cause) ==> v.cause.inv.idAt < s.steps && v.cause.inv.uidAt < s.steps
    ensures HistoryOk(s')
  {
    var n := |s.history|;
    forall i | 0 < i < |s'.history| ensures Follows(s'.history[i - 1].table, s'.history[i]) {
      if i < n { assert Follows(s.history[i - 1].table, s.history[i]); }
    }
  }

  lemma ReadExtends(s: State, s': State, v: Version, r: Read, pb: PbUser)
    requires ReadOk(s, r, pb) && Extends(s, s', v)
    ensures ReadOk(s', r, pb)
  {
    assert s'.history[r.version] == s.history[r.version];
    forall j | r.version < j < |s'.history| ensures r.time <= s'.history[j].time + s'.lag {
      if j < |s.history| { assert s'.history[j] == s.history[j]; }
    }
  }

  lemma EntryExtends(s: State, s': State, v: Version, k: Key)
    requires k in s.redis && EntryOk(s, k, s.redis[k]) && Extends(s, s', v) && Covers(s, v.cause)
    ensures EntryOk(s', k, s.redis[k])
  {
    var e := s.redis[k];
    ReadExtends(s, s', v, e.read, e.value);
    forall j | e.read.version < j < |s'.history| && HasInv(s'.history[j].cause) && s'.history[j].cause.uid == e.read.uid
      ensures InvalidatedBefore(s'.history[j].cause, k, e.value, e.read.uid, e.storedAt)
    {
      if j < |s.history| { assert s'.history[j] == s.history[j]; }
    }
  }

  lemma CallExtends(s: State, s': State, v: Version, call: Call)
    requires CallOk(s, call) && Extends(s, s', v)
    ensures CallOk(s', call)
  {
    match call
    case IdStore(pb, read) => ReadExtends(s, s', v, read, pb);
    case UidStoreId(_, _, pb, read) => ReadExtends(s, s', v, read, pb);
    case UidStoreUid(_, _, pb, read) => ReadExtends(s, s', v, read, pb);
    case UpdDelId(uid, id, _) => PairStays(s, s', uid, id);
    case UpdDelUid(uid, id, _, _) => PairStays(s, s', uid, id);
    case UpdWrite(uid, id, _, _) => PairStays(s, s', uid, id);
    case DelDelId(uid, id) => PairStays(s, s', uid, id);
    case DelDelUid(uid, id, _) => PairStays(s, s', uid, id);
    case DelWrite(uid, id, _) => PairStays(s, s', uid, id);
    case _ =>
  }

  /** A commit at the current time keeps the invariant if it moves one row, keeps IDs
      stable, and its writer holds both keys. */
  lemma CommitKeepsInv(s: State, t: Table, cause: Cause)
    requires Inv(s)
    requires Follows(Last(s).table, Version(t, s.clock, s.steps, cause))
    requires StableIds(s.history + [Version(t, s.clock, s.steps, cause)])
    requires Covers(s, cause)
    ensures Inv(Commit(s, t, cause).(steps := s.steps + 1))
  {
    var v := Version(t, s.clock, s.steps, cause);
    var s' := Commit(s, t, cause).(steps := s.steps + 1);
    HistoryExtends(s, s', v);
    forall k | k in s'.redis ensures EntryOk(s', k, s'.redis[k]) {
      EntryExtends(s, s', v, k);
    }
    forall d | d in s'.calls ensures CallOk(s', s'.calls[d]) {
      CallExtends(s, s', v, s.calls[d]);
    }
  }

  lemma InvalidateKeepsInv(s: State, c: CallId, ok: bool)
    requires Inv(s) && Enabled(s, Invalidate(c, ok))
    ensures Inv(Apply(s, Invalidate(c, ok)))
  {
    assert CallOk(s, s.calls[c]);
    if !ok {
      PutKeepsInv(s, c, Done(Failed));
    } else {
      match s.calls[c]
      case UpdDelId(uid, id, profile) => ClaimId(s, c, uid, id, UpdDelUid(uid, id, profile, s.steps));
      case UpdDelUid(uid, id, profile, idAt) =>
        ClaimUid(s, c, uid, id, idAt, UpdWrite(uid, id, profile, Invalidation(idAt, s.steps)));
      case DelDelId(uid, id) => ClaimId(s, c, uid, id, DelDelUid(uid, id, s.steps));
      case DelDelUid(uid, id, idAt) =>
        ClaimUid(s, c, uid, id, idAt, DelWrite(uid, id, Invalidation(idAt, s.steps)));
    }
  }

  lemma ClaimId(s: State, c: CallId, uid: Uid, id: string, call: Call)
    requires Inv(s) && Pair(s, uid, id)
    requires call == DelDelUid(uid, id, s.steps) || exists p :: call == UpdDelUid(uid, id, p, s.steps)
    ensures Inv(Put(DelKey(s, id), c, call))
  {
    var s' := Put(DelKey(s, id), c, call);
    PairStays(s, s', uid, id);
    DeleteKeepsInv(s, c, id, call);
  }

  lemma ClaimUid(s: State, c: CallId, uid: Uid, id: string, idAt: nat, call: Call)
    requires Inv(s) && Pair(s, uid, id) && Since(s, id, idAt)
    requires call == DelWrite(uid, id, Invalidation(idAt, s.steps))
          || exists p :: call == UpdWrite(uid, id, p, Invalidation(idAt, s.steps))
    ensures Inv(Put(DelKey(s, uid), c, call))
  {
    var s' := Put(DelKey(s, uid), c, call);
    PairStays(s, s', uid, id);
    DeleteKeepsInv(s, c, uid, call);
  }

  lemma LookupKeepsInv(s: State, c: CallId, ok: bool)
    requires Inv(s) && Enabled(s, Lookup(c, ok))
    ensures Inv(Apply(s, Lookup(c, ok)))
  {
    PutKeepsInv(s, c, Apply(s, Lookup(c, ok)).calls[c]);
  }

  lemma ReadKeepsInv(s: State, c: CallId, primary: bool, found: Option<Uid>)
    requires Inv(s) && Enabled(s, ReadRow(c, primary, found))
    ensures Inv(Apply(s, ReadRow(c, primary, found)))
  {
    match found
    case None => PutKeepsInv(s, c, Done(NotFound));
    case Some(u) =>
      var v := ReadVersion(s, primary);
      var row := s.history[v].table[u];
      var call := Apply(s, ReadRow(c, primary, found)).calls[c];
      var s' := Put(s, c, call);
      assert Pair(s', u, row.id);
      assert ReadOk(s', Read(c, s.steps, primary, u, v, s.clock), Convert(row));
      PutKeepsInv(s, c, call);
  }

  lemma StoreEventKeepsInv(s: State, c: CallId, ok: bool)
    requires Inv(s) && Enabled(s, Store(c, ok))
    ensures Inv(Apply(s, Store(c, ok)))
  {
    assert CallOk(s, s.calls[c]);
    if !ok {
      PutKeepsInv(s, c, Done(Failed));
    } else {
      match s.calls[c]
      case IdStore(pb, read) => StoreKeepsInv(s, c, pb.id, pb, read, Done(Served(pb)));
      case UidStoreId(uid, me, pb, read) => StoreKeepsInv(s, c, pb.id, pb, read, UidStoreUid(uid, me, pb, read));
      case UidStoreUid(uid, me, pb, read) => StoreKeepsInv(s, c, uid, pb, read, AfterUid(me, pb));
    }
  }

  lemma EntryKeyIs(s: State, uid: Uid, id: string, k: Key)
    requires HistoryOk(s) && Pair(s, uid, id) && k in s.redis && EntryOk(s, k, s.redis[k]) && s.redis[k].read.uid == uid
    ensures s.redis[k].value.id == id
  {
    var i :| 0 <= i < |s.history| && uid in s.history[i].table && s.history[i].table[uid].id == id;
  }

  /** A writer's statement reaches the very row whose keys it deleted, because IDs are
      never reused; and whatever those keys hold by now was stored after the deletions. */
  lemma ClaimCovers(s: State, uid: Uid, id: string, inv: Invalidation, u: Uid, cause: Cause)
    requires Inv(s) && Pair(s, uid, id) && Since(s, id, inv.idAt) && Since(s, uid, inv.uidAt)
    requires u in Last(s).table && Last(s).table[u].id == id
    requires cause == Updated(u, inv) || cause == Deleted(u, inv)
    ensures u == uid && Covers(s, cause)
  {
    forall k | k in s.redis && s.redis[k].read.uid == u
      ensures InvalidatedBefore(cause, k, s.redis[k].value, u, s.redis[k].storedAt)
    {
      EntryKeyIs(s, uid, id, k);
    }
  }

  /** Removing rows, or rewriting rows under their own ID, keeps IDs stable. */
  lemma StableIdsKept(s: State, v: Version)
    requires HistoryOk(s)
    requires forall u | u in v.table :: u in Last(s).table && v.table[u].id == Last(s).table[u].id
    ensures StableIds(s.history + [v])
  {
    var h := s.history + [v];
    forall i, j, x, y | 0 <= i < |h| && 0 <= j < |h| && x in h[i].table && y in h[j].table
      ensures h[i].table[x].id == h[j].table[y].id <==> x == y
    {
      var n := |s.history| - 1;
      var i', j' := if i <= n then i else n, if j <= n then j else n;
      assert x in s.history[i'].table && y in s.history[j'].table;
      assert h[i].table[x].id == s.history[i'].table[x].id;
      assert h[j].table[y].id == s.history[j'].table[y].id;
    }
  }

  lemma StableIdsInserted(s: State, uid: Uid, row: Row)
    requires HistoryOk(s) && Enabled(s, Insert(uid, row))
    ensures StableIds(s.history + [Version(Last(s).table[uid := row], s.clock, s.steps, Created(uid))])
  {
    var h := s.history + [Version(Last(s).table[uid := row], s.clock, s.steps, Created(uid))];
    var n := |s.history| - 1;
    forall i, j, x, y | 0 <= i < |h| && 0 <= j < |h| && x in h[i].table && y in h[j].table
      ensures h[i].table[x].id == h[j].table[y].id <==> x == y
    {
      var i', j' := if i <= n then i else n, if j <= n then j else n;
      assert FreshId(s.history[i'].table, row.id) && FreshId(s.history[j'].table, row.id);
      assert x != uid ==> x in s.history[i'].table && h[i].table[x].id == s.history[i'].table[x].id;
      assert y != uid ==> y in s.history[j'].table && h[j].table[y].id == s.history[j'].table[y].id;
    }
  }

  lemma WriteKeepsInv(s: State, c: CallId, ok: bool, target: Option<Uid>)
    requires Inv(s) && Enabled(s, Write(c, ok, target))
    ensures Inv(Apply(s, Write(c, ok, target)))
  {
    assert CallOk(s, s.calls[c]);
    if !ok || target.None? {
      PutKeepsInv(s, c, Apply(s, Write(c, ok, target)).calls[c]);
    } else {
      var t, u := Last(s).table, target.value;
      match s.calls[c]
      case UpdWrite(uid, id, profile, inv) =>
        CommitByCall(s, c, uid, id, inv, u, t[u := t[u].(profile := profile, updateTime := s.clock)], Updated(u, inv));
      case DelWrite(uid, id, inv) => CommitByCall(s, c, uid, id, inv, u, t - {u}, Deleted(u, inv));
    }
  }

  lemma CommitByCall(s: State, c: CallId, uid: Uid, id: string, inv: Invalidation, u: Uid, t: Table, cause: Cause)
    requires Inv(s) && Pair(s, uid, id) && Since(s, id, inv.idAt) && Since(s, uid, inv.uidAt)
    requires u in Last(s).table && Last(s).table[u].id == id
    requires cause == Updated(u, inv) || cause == Deleted(u, inv)
    requires Follows(Last(s).table, Version(t, s.clock, s.steps, cause))
    requires forall x | x in t :: x in Last(s).table && t[x].id == Last(s).table[x].id
    ensures Inv(Put(Commit(s, t, cause), c, Done(Finished)))
  {
    ClaimCovers(s, uid, id, inv, u, cause);
    StableIdsKept(s, Version(t, s.clock, s.steps, cause));
    CommitKeepsInv(s, t, cause);
    var s1 := Commit(s, t, cause).(steps := s.steps + 1);
    RetirePc(s1, c);
    assert Put(Commit(s, t, cause), c, Done(Finished)) == s1.(calls := s1.calls[c := Done(Finished)]);
  }

  /** Time passes, and nothing an entry or a call rests on changes. */
  ghost predicate Passes(s: State, s': State) {
    && s'.history == s.history && s'.lag == s.lag && s'.redis == s.redis
    && s.clock <= s'.clock && s.steps <= s'.steps
  }

  lemma CallPasses(s: State, s': State, call: Call)
    requires CallOk(s, call) && Passes(s, s')
    ensures CallOk(s', call)
  {
    if call.UpdDelId? || call.UpdDelUid? || call.UpdWrite? || call.DelDelId? || call.DelDelUid? || call.DelWrite? {
      PairStays(s, s', call.uid, call.id);
    }
  }

  /** So such a step, which may also finish a call, keeps the invariant. */
  lemma PassKeepsInv(s: State, s': State)
    requires Inv(s) && Passes(s, s') && HistoryOk(s')
    requires forall c | c in s'.calls :: s'.calls[c] == Done(Finished) || (c in s.calls && s'.calls[c] == s.calls[c])
    ensures Inv(s')
  {
    forall k | k in s'.redis ensures EntryOk(s', k, s'.redis[k]) { assert EntryOk(s, k, s.redis[k]); }
    forall c | c in s'.calls ensures CallOk(s', s'.calls[c]) {
      if s'.calls[c] != Done(Finished) { CallPasses(s, s', s.calls[c]); }
    }
  }

  /** Finishing a call touches nothing an invariant speaks of. */
  lemma RetirePc(s: State, c: CallId)
    requires Inv(s)
    ensures Inv(s.(calls := s.calls[c := Done(Finished)]))
  {
    PassKeepsInv(s, s.(calls := s.calls[c := Done(Finished)]));
  }

  lemma InsertKeepsInv(s: State, uid: Uid, row: Row)
    requires Inv(s) && Enabled(s, Insert(uid, row))
    ensures Inv(Apply(s, Insert(uid, row)))
  {
    var t := Last(s).table[uid := row];
    assert uid !in s.history[|s.history| - 1].table;
    assert Follows(Last(s).table, Version(t, s.clock, s.steps, Created(uid)));
    StableIdsInserted(s, uid, row);
    CommitKeepsInv(s, t, Created(uid));
    assert Apply(s, Insert(uid, row)) == Commit(s, t, Created(uid)).(steps := s.steps + 1);
  }

  lemma TouchKeepsInv(s: State, uid: Uid)
    requires Inv(s) && Enabled(s, Touch(uid))
    ensures Inv(Apply(s, Touch(uid)))
  {
    var row := Last(s).table[uid].(updateTime := s.clock);
    var t := Last(s).table[uid := row];
    assert Follows(Last(s).table, Version(t, s.clock, s.steps, Touched(uid)));
    StableIdsKept(s, Version(t, s.clock, s.steps, Touched(uid)));
    CommitKeepsInv(s, t, Touched(uid));
    assert Apply(s, Touch(uid)) == Commit(s, t, Touched(uid)).(steps := s.steps + 1);
  }

  /** Every event of every call keeps the invariant. */
  lemma StepKeepsInv(s: State, e: Event)
    requires Inv(s) && Enabled(s, e)
    ensures Inv(Apply(s, e))
  {
    var s' := Apply(s, e);
    match e
    case Start(c, call) => PutKeepsInv(s, c, call);
    case Lookup(c, ok) => LookupKeepsInv(s, c, ok);
    case ReadRow(c, primary, found) => ReadKeepsInv(s, c, primary, found);
    case Store(c, ok) => StoreEventKeepsInv(s, c, ok);
    case Invalidate(c, ok) => InvalidateKeepsInv(s, c, ok);
    case Write(c, ok, target) => WriteKeepsInv(s, c, ok, target);
    case Insert(uid, row) => InsertKeepsInv(s, uid, row);
    case Touch(uid) => TouchKeepsInv(s, uid);
    case Replicate => PassKeepsInv(s, s');
    case Tick => PassKeepsInv(s, s');
  }

  lemma {:induction false} RunKeepsInv(run: seq<State>, events: seq<Event>, i: nat)
    requires IsRun(run, events) && i < |run|
    ensures Inv(run[i])
  {
    if i == 0 {
      InitInv(run[0]);
    } else {
      RunKeepsInv(run, events, i - 1);
      StepKeepsInv(run[i - 1], events[i - 1]);
    }
  }
}
