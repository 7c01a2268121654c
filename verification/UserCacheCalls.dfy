/** Each call of the cache protocol run without interruption: what it answers and what it leaves behind. */
module UserCacheCalls {
  import opened Wrappers
  import opened UserCache
  import opened UserCacheWrites

  /** The events from the i-th on are these. */
  predicate Happen(run: seq<State>, events: seq<Event>, i: nat, es: seq<Event>) {
    IsRun(run, events) && i + |es| <= |events| && events[i..i + |es|] == es
  }

  /** `pb` is the row as a user sees it. */
  predicate Shows(pb: PbUser, row: Row) {
    && pb.name == "users/" + row.id && pb.id == row.id && pb.profile == row.profile
    && pb.createTime == row.createTime && pb.updateTime == row.updateTime
  }

  /** Redis has a live entry under the key. */
  predicate Holds(s: State, k: Key) { k in s.redis && s.clock < s.redis[k].expiry }

  /** `k` holds `pb` for the next five minutes, and every other key what it held. */
  ghost predicate Cached(before: map<Key, Entry>, after: map<Key, Entry>, k: Key, pb: PbUser, now: nat) {
    && k in after && after[k].value == pb && after[k].expiry == now + 300
    && forall x | x != k :: (x in before <==> x in after) && (x in before ==> after[x] == before[x])
  }

  /** A lookup that hits answers with the entry and changes nothing. */
  lemma HitById(run: seq<State>, events: seq<Event>, i: nat, c: CallId, id: string)
    requires Happen(run, events, i, [Start(c, IdLookup(id)), Lookup(c, true)])
    requires Holds(run[i], id)
    ensures c in run[i + 2].calls && run[i + 2].calls[c] == Done(Served(run[i].redis[id].value))
    ensures run[i + 2].redis == run[i].redis && run[i + 2].history == run[i].history
  {
    assert events[i] == events[i..i + 2][0] && events[i + 1] == events[i..i + 2][1];
  }

  lemma EventAt(run: seq<State>, events: seq<Event>, i: nat, es: seq<Event>, k: nat)
    requires Happen(run, events, i, es) && k < |es|
    ensures events[i + k] == es[k]
    ensures |run[i + k].history| > 0 && run[i + k].replica < |run[i + k].history|
    ensures Enabled(run[i + k], es[k]) && run[i + k + 1] == Apply(run[i + k], es[k])
  {
    assert events[i + k] == events[i..i + |es|][k];
  }

  /** The rows a read sees. */
  function RowsRead(s: State, primary: bool): Table
    requires s.replica < |s.history|
  {
    if primary then s.history[|s.history| - 1].table else s.history[s.replica].table
  }

  /** A lookup that misses, or fails, and finds no row either, says so. */
  lemma MissWithoutRow(run: seq<State>, events: seq<Event>, i: nat, c: CallId, call: Call, ok: bool, primary: bool)
    requires call.IdLookup? || call.UidLookup?
    requires Happen(run, events, i, [Start(c, call), Lookup(c, ok), ReadRow(c, primary, None)])
    requires ok ==> !Holds(run[i], if call.IdLookup? then call.id else call.uid)
    ensures c in run[i + 3].calls && run[i + 3].calls[c] == Done(NotFound)
    ensures run[i + 3].redis == run[i].redis && run[i + 3].history == run[i].history
  {
    var es := [Start(c, call), Lookup(c, ok), ReadRow(c, primary, None)];
    EventAt(run, events, i, es, 0);
    EventAt(run, events, i, es, 1);
    EventAt(run, events, i, es, 2);
  }

  /** One that finds a user's row with the id answers with it and caches it under the id. */
  lemma MissById(run: seq<State>, events: seq<Event>, i: nat, c: CallId, id: string, ok: bool, primary: bool, u: Uid)
    returns (pb: PbUser)
    requires Happen(run, events, i,
                    [Start(c, IdLookup(id)), Lookup(c, ok), ReadRow(c, primary, Some(u)), Store(c, true)])
    requires ok ==> !Holds(run[i], id)
    ensures run[i].replica < |run[i].history| && u in RowsRead(run[i], primary)
    ensures var row := RowsRead(run[i], primary)[u]; row.id == id && row.isUser && Shows(pb, row)
    ensures c in run[i + 4].calls && run[i + 4].calls[c] == Done(Served(pb))
    ensures Cached(run[i].redis, run[i + 4].redis, id, pb, run[i].clock) && run[i + 4].history == run[i].history
  {
    var es := [Start(c, IdLookup(id)), Lookup(c, ok), ReadRow(c, primary, Some(u)), Store(c, true)];
    EventAt(run, events, i, es, 0);
    EventAt(run, events, i, es, 1);
    EventAt(run, events, i, es, 2);
    EventAt(run, events, i, es, 3);
    pb := run[i + 3].calls[c].pb;
  }

  /** A lookup by UID that hits answers with the entry; on behalf of `me` it goes on with the id found there. */
  lemma HitByUid(run: seq<State>, events: seq<Event>, i: nat, c: CallId, uid: Uid, me: bool)
    requires Happen(run, events, i, [Start(c, UidLookup(uid, me)), Lookup(c, true)])
    requires Holds(run[i], uid)
    ensures c in run[i + 2].calls
    ensures run[i + 2].calls[c] ==
              if me then IdLookup(run[i].redis[uid].value.id) else Done(Served(run[i].redis[uid].value))
    ensures run[i + 2].redis == run[i].redis && run[i + 2].history == run[i].history
  {
    var es := [Start(c, UidLookup(uid, me)), Lookup(c, true)];
    EventAt(run, events, i, es, 0);
    EventAt(run, events, i, es, 1);
  }

  /** One that misses and finds the user's row caches it under both keys. */
  lemma MissByUid(run: seq<State>, events: seq<Event>, i: nat, c: CallId, uid: Uid, me: bool, ok: bool, primary: bool)
    returns (pb: PbUser, between: map<Key, Entry>)
    requires Happen(run, events, i, [Start(c, UidLookup(uid, me)), Lookup(c, ok), ReadRow(c, primary, Some(uid)),
                                     Store(c, true), Store(c, true)])
    requires ok ==> !Holds(run[i], uid)
    ensures run[i].replica < |run[i].history| && uid in RowsRead(run[i], primary)
    ensures var row := RowsRead(run[i], primary)[uid]; row.isUser && Shows(pb, row)
    ensures c in run[i + 5].calls && run[i + 5].calls[c] == if me then IdLookup(pb.id) else Done(Served(pb))
    ensures Cached(run[i].redis, between, pb.id, pb, run[i].clock)
    ensures Cached(between, run[i + 5].redis, uid, pb, run[i].clock) && run[i + 5].history == run[i].history
  {
    var es := [Start(c, UidLookup(uid, me)), Lookup(c, ok), ReadRow(c, primary, Some(uid)), Store(c, true),
               Store(c, true)];
    EventAt(run, events, i, es, 0);
    EventAt(run, events, i, es, 1);
    EventAt(run, events, i, es, 2);
    EventAt(run, events, i, es, 3);
    EventAt(run, events, i, es, 4);
    pb, between := run[i + 3].calls[c].pb, run[i + 4].redis;
  }

  /** An update drops both keys of the user and then changes the row. */
  lemma UpdateAlone(run: seq<State>, events: seq<Event>, i: nat, c: CallId, uid: Uid, profile: string,
      target: Option<Uid>)
    requires Happen(run, events, i, [Start(c, UpdRead(uid, profile)), ReadRow(c, true, Some(uid)), Invalidate(c, true),
                                     Invalidate(c, true), Write(c, true, target)])
    requires |run[i].history| > 0 && UniqueIds(Rows(run[i]))
    ensures |run[i + 5].history| > 0 && RowUpdated(Rows(run[i]), Rows(run[i + 5]), uid, profile, run[i].clock)
    ensures run[i + 5].redis == run[i].redis - {Rows(run[i])[uid].id, uid}
    ensures c in run[i + 5].calls && run[i + 5].calls[c] == Done(Finished)
  {
    var es := [Start(c, UpdRead(uid, profile)), ReadRow(c, true, Some(uid)), Invalidate(c, true), Invalidate(c, true),
               Write(c, true, target)];
    EventAt(run, events, i, es, 0);
    EventAt(run, events, i, es, 1);
    EventAt(run, events, i, es, 2);
    EventAt(run, events, i, es, 3);
    EventAt(run, events, i, es, 4);
    var id := Rows(run[i])[uid].id;
    assert run[i + 4].redis == run[i].redis - {id} - {uid};
    assert target == Some(uid);
  }

  /** A deletion drops both keys and then the row. */
  lemma DeleteAlone(run: seq<State>, events: seq<Event>, i: nat, c: CallId, id: string, u: Uid, target: Option<Uid>)
    requires Happen(run, events, i, [Start(c, DelRead(id)), ReadRow(c, true, Some(u)), Invalidate(c, true),
                                     Invalidate(c, true), Write(c, true, target)])
    requires |run[i].history| > 0 && UniqueIds(Rows(run[i]))
    ensures |run[i + 5].history| > 0 && RowGone(Rows(run[i]), Rows(run[i + 5]), u) && Rows(run[i])[u].id == id
    ensures run[i + 5].redis == run[i].redis - {id, u}
    ensures c in run[i + 5].calls && run[i + 5].calls[c] == Done(Finished)
  {
    var es := [Start(c, DelRead(id)), ReadRow(c, true, Some(u)), Invalidate(c, true), Invalidate(c, true),
               Write(c, true, target)];
    EventAt(run, events, i, es, 0);
    EventAt(run, events, i, es, 1);
    EventAt(run, events, i, es, 2);
    EventAt(run, events, i, es, 3);
    EventAt(run, events, i, es, 4);
    assert run[i + 4].redis == run[i].redis - {id} - {u};
    assert target == Some(u);
  }

  /** A store or a deletion of a key that Redis refuses ends the call with an error and changes nothing. */
  lemma RedisFailureEndsCall(run: seq<State>, events: seq<Event>, i: nat, c: CallId)
    requires IsRun(run, events) && i < |events| && (events[i] == Store(c, false) || events[i] == Invalidate(c, false))
    ensures c in run[i + 1].calls && run[i + 1].calls[c] == Done(Failed)
    ensures run[i + 1].redis == run[i].redis && run[i + 1].history == run[i].history
  {}

  /** Time passes second by second, and the replica follows version by version. */
  lemma ClockAndReplicaMove(run: seq<State>, events: seq<Event>, i: nat)
    requires IsRun(run, events) && i < |events|
    ensures run[i + 1].clock == if events[i] == Tick then run[i].clock + 1 else run[i].clock
    ensures run[i + 1].replica == if events[i] == Replicate then run[i].replica + 1 else run[i].replica
    ensures events[i] == Tick || events[i] == Replicate ==>
              && run[i + 1].history == run[i].history && run[i + 1].redis == run[i].redis
              && run[i + 1].calls == run[i].calls
  {}

  /** A read by id finds a user's row with that id, and nothing only if there is none; one of the two is always
      possible, and likewise for the statements of the writers. */
  lemma SelectionIsPossible(t: Table, id: string) returns (found: Option<Uid>)
    ensures SelectsById(t, id, found)
    ensures found == None <==> forall u | u in t :: t[u].id != id || !t[u].isUser
  {
    if u: Uid :| u in t && t[u].id == id && t[u].isUser { found := Some(u); } else { found := None; }
  }

  /** No call is stuck: until it is done, some event of its own can happen. */
  lemma NoCallIsStuck(s: State, c: CallId, primary: bool) returns (e: Event)
    requires |s.history| > 0 && s.replica < |s.history| && c in s.calls && !s.calls[c].Done?
    ensures !e.Start? && !e.Insert? && !e.Touch? && !e.Replicate? && !e.Tick? && e.c == c && Enabled(s, e)
  {
    var t := RowsRead(s, primary);
    match s.calls[c]
    case IdLookup(_) => e := Lookup(c, true);
    case UidLookup(_, _) => e := Lookup(c, true);
    case IdRead(id) => var found := SelectionIsPossible(t, id); e := ReadRow(c, primary, found);
    case DelRead(id) => var found := SelectionIsPossible(t, id); e := ReadRow(c, primary, found);
    case UidRead(uid, _) => e := ReadRow(c, primary, if uid in t && t[uid].isUser then Some(uid) else None);
    case UpdRead(uid, _) => e := ReadRow(c, primary, if uid in t && t[uid].isUser then Some(uid) else None);
    case IdStore(_, _) => e := Store(c, true);
    case UidStoreId(_, _, _, _) => e := Store(c, true);
    case UidStoreUid(_, _, _, _) => e := Store(c, true);
    case UpdDelId(_, _, _) => e := Invalidate(c, true);
    case UpdDelUid(_, _, _, _) => e := Invalidate(c, true);
    case DelDelId(_, _) => e := Invalidate(c, true);
    case DelDelUid(_, _, _) => e := Invalidate(c, true);
    case UpdWrite(_, id, _, _) => var found := SelectionIsPossible(Rows(s), id); e := Write(c, true, found);
    case DelWrite(_, id, _) => var found := SelectionIsPossible(Rows(s), id); e := Write(c, true, found);
  }
}
