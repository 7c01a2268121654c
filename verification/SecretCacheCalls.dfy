/** The token and password protocol: what its writers do to the primary, and each call run without interruption. */
module SecretCacheCalls {
  import opened Wrappers
  import opened SecretCache

  function Rows(s: State): Table
    requires |s.history| > 0
  {
    s.history[|s.history| - 1].table
  }

  /** Key `k` has the value, or none, and every other key what it had. */
  ghost predicate RowIs(t: Table, t': Table, k: Key, v: Option<Val>) {
    && (if v.Some? then k in t' && t'[k] == v.value else k !in t')
    && forall x | x != k :: (x in t <==> x in t') && (x in t ==> t'[x] == t[x])
  }

  /** A change or removal whose statement succeeds has done its work when the call has finished, if there is
      such a row; an insertion always has, and goes on to cache its value. */
  lemma WriteTakesEffect(run: seq<State>, events: seq<Event>, i: nat, c: CallId, ok: bool)
    requires IsRun(run, events) && i < |events| && events[i] == Commit(c, ok)
    ensures c in run[i].calls && c in run[i + 1].calls && |run[i].history| > 0 && |run[i + 1].history| > 0
    ensures run[i].calls[c].WriteRow? || run[i].calls[c].InsertRow?
    ensures var call, t, t' := run[i].calls[c], Rows(run[i]), Rows(run[i + 1]);
            && (ok && call.WriteRow? && call.k in t ==> RowIs(t, t', call.k, call.next))
            && (ok && call.InsertRow? ==> RowIs(t, t', call.k, Some(call.v)))
            && (!ok || (call.WriteRow? && call.k !in t) ==> t' == t)
            && (call.WriteRow? ==> run[i + 1].calls[c] == Done(Finished))
            && (call.InsertRow? && !ok ==> run[i + 1].calls[c] == Done(Refused))
            && (call.InsertRow? && ok ==>
                  run[i + 1].calls[c].Fill? && run[i + 1].calls[c].k == call.k && run[i + 1].calls[c].v == call.v)
    ensures run[i + 1].redis == run[i].redis
  {}

  /** A new user's hash comes under a key that no version had, a deleted user's goes, and both leave Redis alone. */
  lemma OtherWritersTakeEffect(run: seq<State>, events: seq<Event>, i: nat, k: Key, v: Val)
    requires IsRun(run, events) && i < |events|
    ensures |run[i].history| > 0 && |run[i + 1].history| > 0
    ensures events[i] == Put(k, v) ==>
              && RowIs(Rows(run[i]), Rows(run[i + 1]), k, Some(v)) && run[i + 1].redis == run[i].redis
              && forall j | 0 <= j < |run[i].history| :: k !in run[i].history[j].table
    ensures events[i] == Remove(k) ==>
              k in Rows(run[i]) && RowIs(Rows(run[i]), Rows(run[i + 1]), k, None) && run[i + 1].redis == run[i].redis
  {}

  /** The events from the i-th on are these. */
  predicate Happen(run: seq<State>, events: seq<Event>, i: nat, es: seq<Event>) {
    IsRun(run, events) && i + |es| <= |events| && events[i..i + |es|] == es
  }

  lemma EventAt(run: seq<State>, events: seq<Event>, i: nat, es: seq<Event>, k: nat)
    requires Happen(run, events, i, es) && k < |es|
    ensures events[i + k] == es[k]
    ensures |run[i + k].history| > 0 && run[i + k].replica < |run[i + k].history|
    ensures Enabled(run[i + k], es[k]) && run[i + k + 1] == Apply(run[i + k], es[k])
  {
    assert events[i + k] == events[i..i + |es|][k];
  }

  /** Redis has a live entry under the key that is neither the nil UID nor the empty hash. */
  predicate Holds(s: State, k: Key) { k in s.redis && s.clock < s.redis[k].expiry && s.redis[k].value != "" }

  /** `k` holds `v` for the next five minutes, and every other key what it held. */
  ghost predicate Cached(before: map<Key, Entry>, after: map<Key, Entry>, k: Key, v: Val, now: nat) {
    && k in after && after[k].value == v && after[k].expiry == now + 300
    && forall x | x != k :: (x in before <==> x in after) && (x in before ==> after[x] == before[x])
  }

  function RowsRead(s: State, primary: bool): Table
    requires s.replica < |s.history|
  {
    if primary then s.history[|s.history| - 1].table else s.history[s.replica].table
  }

  /** A live entry answers; nothing else changes. */
  lemma HitAlone(run: seq<State>, events: seq<Event>, i: nat, c: CallId, k: Key)
    requires Happen(run, events, i, [Start(c, Lookup(k)), Get(c, true)]) && Holds(run[i], k)
    ensures c in run[i + 2].calls && run[i + 2].calls[c] == Done(Accepted(run[i].redis[k].value))
    ensures run[i + 2].redis == run[i].redis && run[i + 2].history == run[i].history
  {
    var es := [Start(c, Lookup(k)), Get(c, true)];
    EventAt(run, events, i, es, 0);
    EventAt(run, events, i, es, 1);
  }

  /** Without one, or if Redis fails, the row decides, and a row is cached even if it is refused. */
  lemma MissAlone(run: seq<State>, events: seq<Event>, i: nat, c: CallId, k: Key, ok: bool, primary: bool, stored: bool)
    requires Happen(run, events, i, [Start(c, Lookup(k)), Get(c, ok), Read(c, primary)])
    requires ok ==> !Holds(run[i], k)
    ensures run[i].replica < |run[i].history| && c in run[i + 3].calls
    ensures k !in RowsRead(run[i], primary) ==>
              run[i + 3].calls[c] == Done(Refused) && run[i + 3].redis == run[i].redis
    ensures k in RowsRead(run[i], primary) && i + 3 < |events| && events[i + 3] == Store(c, stored) ==>
              && var v := RowsRead(run[i], primary)[k];
              && c in run[i + 4].calls && run[i + 4].calls[c] == Done(if v == "" then Refused else Accepted(v))
              && if stored then Cached(run[i].redis, run[i + 4].redis, k, v, run[i].clock)
                 else run[i + 4].redis == run[i].redis
  {
    var es := [Start(c, Lookup(k)), Get(c, ok), Read(c, primary)];
    EventAt(run, events, i, es, 0);
    EventAt(run, events, i, es, 1);
    EventAt(run, events, i, es, 2);
  }

  /** A change or removal drops the entry, if Redis works, and then writes. */
  lemma WriteAlone(run: seq<State>, events: seq<Event>, i: nat, c: CallId, k: Key, next: Option<Val>, ok: bool)
    requires Happen(run, events, i, [Start(c, DeleteKey(k, next)), Del(c, ok), Commit(c, true)])
    requires |run[i].history| > 0 && k in Rows(run[i])
    ensures |run[i + 3].history| > 0 && RowIs(Rows(run[i]), Rows(run[i + 3]), k, next)
    ensures run[i + 3].redis == if ok then run[i].redis - {k} else run[i].redis
    ensures c in run[i + 3].calls && run[i + 3].calls[c] == Done(Finished)
  {
    var es := [Start(c, DeleteKey(k, next)), Del(c, ok), Commit(c, true)];
    EventAt(run, events, i, es, 0);
    EventAt(run, events, i, es, 1);
    EventAt(run, events, i, es, 2);
  }

  /** An insertion writes and then caches. */
  lemma InsertAlone(run: seq<State>, events: seq<Event>, i: nat, c: CallId, k: Key, v: Val)
    requires Happen(run, events, i, [Start(c, InsertRow(k, v)), Commit(c, true), Store(c, true)])
    ensures |run[i].history| > 0 && |run[i + 3].history| > 0
    ensures RowIs(Rows(run[i]), Rows(run[i + 3]), k, Some(v))
    ensures Cached(run[i].redis, run[i + 3].redis, k, v, run[i].clock)
    ensures c in run[i + 3].calls && run[i + 3].calls[c] == Done(Finished)
  {
    var es := [Start(c, InsertRow(k, v)), Commit(c, true), Store(c, true)];
    EventAt(run, events, i, es, 0);
    EventAt(run, events, i, es, 1);
    EventAt(run, events, i, es, 2);
  }

  /** Time passes second by second, and the replica follows version by version. */
  lemma ClockAndReplicaMove(run: seq<State>, events: seq<Event>, i: nat)
    requires IsRun(run, events) && i < |events|
    ensures run[i + 1].clock == if events[i] == Tick then run[i].clock + 1 else run[i].clock
    ensures run[i + 1].replica == if events[i] == Replicate then run[i].replica + 1 else run[i].replica
    ensures events[i] == Tick || events[i] == Replicate ==>
              && run[i + 1].history == run[i].history && run[i + 1].redis == run[i].redis
              && run[i + 1].calls == run[i].calls
  {}

  /** No call is stuck: until it is done, some event of its own can happen. */
  lemma NoCallIsStuck(s: State, c: CallId) returns (e: Event)
    requires |s.history| > 0 && s.replica < |s.history| && c in s.calls && !s.calls[c].Done?
    ensures (e.Get? || e.Read? || e.Store? || e.Del? || e.Commit?) && e.c == c && Enabled(s, e)
  {
    match s.calls[c]
    case Lookup(_) => e := Get(c, true);
    case ReadDb(_) => e := Read(c, true);
    case Fill(_, _, _, _) => e := Store(c, true);
    case DeleteKey(_, _) => e := Del(c, true);
    case WriteRow(_, _, _) => e := Commit(c, true);
    case InsertRow(_, _) => e := Commit(c, false);
  }
}
