/** How long a revoked token or an old password keeps being accepted, and when. */
module SecretCacheTheorems {
  import opened Wrappers
  import opened SecretCache
  import opened SecretCacheInvariant

  /* ---- Where an entry comes from ---- */

  /** Event `r.at` is the caller's database access: a read that saw that version, or the insertion that made it. */
  ghost predicate TracedSource(run: seq<State>, events: seq<Event>, i: nat, r: Source)
    requires |run| == |events| + 1 && i < |run|
  {
    && r.at < i && r.time == run[r.at].clock && |run[r.at].history| > 0
    && match events[r.at]
       case Read(c, primary) => c == r.caller && r.version == ReadVersion(run[r.at], primary)
       case Commit(c, ok) =>
         && ok && c == r.caller && r.version == |run[r.at].history|
         && c in run[r.at].calls && run[r.at].calls[c].InsertRow?
       case _ => false
  }

  /** Event `e.storedAt` is the same call storing that value. */
  ghost predicate TracedEntry(run: seq<State>, events: seq<Event>, i: nat, e: Entry)
    requires |run| == |events| + 1 && i < |run|
  {
    && TracedSource(run, events, i, e.source)
    && e.source.at < e.storedAt < i && events[e.storedAt] == Store(e.source.caller, true)
    && e.storeTime == run[e.storedAt].clock
  }

  ghost predicate Traced(run: seq<State>, events: seq<Event>, i: nat)
    requires |run| == |events| + 1 && i < |run|
  {
    && run[i].steps == i
    && (forall k | k in run[i].redis :: TracedEntry(run, events, i, run[i].redis[k]))
    && (forall c | c in run[i].calls && run[i].calls[c].Fill? ::
          run[i].calls[c].source.caller == c && TracedSource(run, events, i, run[i].calls[c].source))
  }

  /** One event leaves an entry alone or stores what its call holds. */
  ghost predicate EntryStep(s: State, e: Event, k: Key, x: Entry) {
    || (k in s.redis && x == s.redis[k])
    || (e.Store? && e.ok && e.c in s.calls && s.calls[e.c].Fill? && x.source == s.calls[e.c].source
        && x.storedAt == s.steps && x.storeTime == s.clock)
  }

  lemma StepEntry(s: State, e: Event, k: Key)
    requires |s.history| > 0 && s.replica < |s.history| && Enabled(s, e) && k in Apply(s, e).redis
    ensures EntryStep(s, e, k, Apply(s, e).redis[k])
  {}

  /** One event passes a call's source on or is that access. */
  ghost predicate FillStep(s: State, e: Event, c: CallId, r: Source) {
    || (c in s.calls && s.calls[c].Fill? && s.calls[c].source == r)
    || (|s.history| > 0 && e.Read? && e.c == c && r == Source(c, s.steps, ReadVersion(s, e.primary), s.clock))
    || (|s.history| > 0 && e.Commit? && e.ok && e.c == c && c in s.calls && s.calls[c].InsertRow?
        && r == Source(c, s.steps, |s.history|, s.clock))
  }

  lemma StepCounts(s: State, e: Event)
    requires |s.history| > 0 && s.replica < |s.history| && Enabled(s, e)
    ensures Apply(s, e).steps == s.steps + 1
  {}

  lemma EntryIsTraced(run: seq<State>, events: seq<Event>, i: nat, k: Key, x: Entry)
    requires |run| == |events| + 1 && 0 < i < |run| && Traced(run, events, i - 1)
    requires EntryStep(run[i - 1], events[i - 1], k, x)
    ensures TracedEntry(run, events, i, x)
  {
    var s, e := run[i - 1], events[i - 1];
    if k in s.redis && x == s.redis[k] {
      assert TracedEntry(run, events, i - 1, s.redis[k]);
    } else {
      assert TracedSource(run, events, i - 1, s.calls[e.c].source);
    }
  }

  lemma FillIsTraced(run: seq<State>, events: seq<Event>, i: nat, c: CallId, r: Source)
    requires |run| == |events| + 1 && 0 < i < |run| && Traced(run, events, i - 1)
    requires FillStep(run[i - 1], events[i - 1], c, r)
    ensures r.caller == c && TracedSource(run, events, i, r)
  {
    var s, e := run[i - 1], events[i - 1];
    if c in s.calls && s.calls[c].Fill? && s.calls[c].source == r {
      assert TracedSource(run, events, i - 1, s.calls[c].source);
    }
  }

  lemma {:induction false} RunIsTraced(run: seq<State>, events: seq<Event>, i: nat)
    requires IsRun(run, events) && i < |run|
    ensures Traced(run, events, i)
  {
    if i > 0 {
      RunIsTraced(run, events, i - 1);
      var s, e := run[i - 1], events[i - 1];
      forall k | k in run[i].redis ensures TracedEntry(run, events, i, run[i].redis[k]) {
        StepEntry(s, e, k);
        EntryIsTraced(run, events, i, k, run[i].redis[k]);
      }
      forall c | c in run[i].calls && run[i].calls[c].Fill?
        ensures run[i].calls[c].source.caller == c && TracedSource(run, events, i, run[i].calls[c].source)
      {
        FillIsTraced(run, events, i, c, run[i].calls[c].source);
      }
      StepCounts(s, e);
    }
  }

  /* ---- How stale an answer can be ---- */

  /** Version `v` was the primary's table at instant `t`. */
  ghost predicate CurrentAt(s: State, v: nat, t: nat) {
    && v < |s.history| && s.history[v].time <= t <= s.clock
    && (v + 1 < |s.history| ==> t <= s.history[v + 1].time)
  }

  /** `x` was the primary's value of the key less than `age` ago. */
  ghost predicate Recent(s: State, k: Key, x: Val, age: nat) {
    exists v: nat, t: nat ::
      CurrentAt(s, v, t) && s.clock < t + age && k in s.history[v].table && x == s.history[v].table[k]
  }

  lemma SourceIsRecent(s: State, k: Key, x: Val, r: Source, age: nat)
    requires HistoryOk(s) && SourceOk(s, k, x, r) && (s.clock - r.time) + s.lag < age
    ensures Recent(s, k, x, age)
  {
    var v := r.version;
    var t := if v + 1 < |s.history| && s.history[v + 1].time < r.time then s.history[v + 1].time else r.time;
    assert CurrentAt(s, v, t);
  }

  /** The step from `s` to `s'` makes call `c` accept `x`. */
  predicate Accepts(s: State, s': State, c: CallId, x: Val) {
    c in s'.calls && s'.calls[c] == Done(Accepted(x)) && (c !in s.calls || s.calls[c] != s'.calls[c])
  }

  /** The answer of call `c` rests on that access: its own, made now, or that of a live entry under the key it
      asked for, stored at `storeTime`. */
  ghost predicate RestsOn(run: seq<State>, events: seq<Event>, i: nat, c: CallId, k: Key, source: Source,
      storeTime: nat)
    requires |run| == |events| + 1 && i < |run|
  {
    var s := run[i];
    && c in s.calls && TracedSource(run, events, i, source)
    && (|| (s.calls[c].Fill? && s.calls[c].k == k && s.calls[c].source == source && storeTime == s.clock)
        || (s.calls[c] == Lookup(k) && Live(s, k) && s.redis[k].source == source && s.redis[k].storeTime == storeTime
            && TracedEntry(run, events, i, s.redis[k])))
  }

  /** An answer is a live entry's value, or what the call itself has read. */
  lemma AnswerComesFrom(s: State, e: Event, c: CallId, x: Val)
    requires |s.history| > 0 && s.replica < |s.history| && Enabled(s, e) && Accepts(s, Apply(s, e), c, x)
    ensures c in s.calls
    ensures || (s.calls[c].Lookup? && Live(s, s.calls[c].k) && x == s.redis[s.calls[c].k].value)
            || (s.calls[c].Fill? && s.calls[c].reply == Accepted(x))
  {
    match e
    case Get(d, _) => assert d == c;
    case Store(d, _) => assert d == c;
    case _ =>
  }

  lemma HitIsRecent(run: seq<State>, events: seq<Event>, i: nat, k: Key)
    requires IsRun(run, events) && i < |run| && Live(run[i], k)
    ensures var s := run[i]; var e := s.redis[k];
            && TracedEntry(run, events, i, e) && SourceOk(s, k, e.value, e.source)
            && e.source.time <= e.storeTime <= s.clock < e.storeTime + TTL
            && Recent(s, k, e.value, TTL + (e.storeTime - e.source.time) + s.lag)
  {
    RunKeepsInv(run, events, i);
    RunIsTraced(run, events, i);
    var s, e := run[i], run[i].redis[k];
    assert EntryOk(s, k, e);
    SourceIsRecent(s, k, e.value, e.source, TTL + (e.storeTime - e.source.time) + s.lag);
  }

  lemma FillIsRecent(run: seq<State>, events: seq<Event>, i: nat, c: CallId)
    requires IsRun(run, events) && i < |run| && c in run[i].calls && run[i].calls[c].Fill?
    ensures var s := run[i]; var f := s.calls[c];
            && TracedSource(run, events, i, f.source) && SourceOk(s, f.k, f.v, f.source)
            && (f.reply.Accepted? ==> f.reply.v == f.v)
            && Recent(s, f.k, f.v, TTL + (s.clock - f.source.time) + s.lag)
  {
    RunKeepsInv(run, events, i);
    RunIsTraced(run, events, i);
    var s, f := run[i], run[i].calls[c];
    assert CallOk(s, f);
    SourceIsRecent(s, f.k, f.v, f.source, TTL + (s.clock - f.source.time) + s.lag);
  }

  /** Every accepted value, cached or read, is what the primary held for the key asked for less than five
      minutes, plus the time between access and store, plus the replica's lag ago. */
  lemma AnswerIsRecent(run: seq<State>, events: seq<Event>, i: nat, c: CallId, x: Val)
    returns (k: Key, source: Source, storeTime: nat)
    requires IsRun(run, events) && i < |events| && Accepts(run[i], run[i + 1], c, x)
    ensures RestsOn(run, events, i, c, k, source, storeTime)
    ensures SourceOk(run[i], k, x, source) && source.time <= storeTime <= run[i].clock < storeTime + TTL
    ensures Recent(run[i], k, x, TTL + (storeTime - source.time) + run[i].lag)
  {
    var s := run[i];
    AnswerComesFrom(s, events[i], c, x);
    k := s.calls[c].k;
    if s.calls[c].Lookup? {
      HitIsRecent(run, events, i, k);
      source, storeTime := s.redis[k].source, s.redis[k].storeTime;
    } else {
      FillIsRecent(run, events, i, c);
      source, storeTime := s.calls[c].source, s.clock;
    }
  }

  lemma {:induction false} KeyStaysAway(s: State, k: Key, j: nat, n: nat)
    requires HistoryOk(s) && 0 < j <= n < |s.history| && s.history[j].cause.Changed? && s.history[j].cause.k == k
    requires k !in s.history[j].table
    ensures k !in s.history[n].table
    decreases n
  {
    assert Follows(s.history, j);
    if n > j {
      KeyStaysAway(s, k, j, n - 1);
      assert Follows(s.history, n);
      assert k in s.history[j - 1].table;
    }
  }

  /** So a token is refused, like the password of a removed row, from five minutes, plus the time between
      the access and the store of the entry that answers, plus the lag after the removal was committed. */
  lemma RemovalTakesHold(run: seq<State>, events: seq<Event>, i: nat, c: CallId, x: Val, j: nat)
    returns (k: Key, source: Source, storeTime: nat)
    requires IsRun(run, events) && i < |events| && Accepts(run[i], run[i + 1], c, x)
    requires 0 < j < |run[i].history| && run[i].history[j].cause.Changed?
    requires run[i].history[j].cause.k !in run[i].history[j].table
    ensures RestsOn(run, events, i, c, k, source, storeTime) && source.time <= storeTime
    ensures run[i].history[j].cause.k == k ==>
              run[i].clock < run[i].history[j].time + TTL + (storeTime - source.time) + run[i].lag
  {
    k, source, storeTime := AnswerIsRecent(run, events, i, c, x);
    RunKeepsInv(run, events, i);
    var s := run[i];
    if s.history[j].cause.k == k {
      if source.version >= j {
        KeyStaysAway(s, k, j, source.version);
      }
      assert source.time <= s.history[j].time + s.lag;
    }
  }

  /* ---- When an entry is stale ---- */

  predicate Fresh(s: State, k: Key, e: Entry)
    requires |s.history| > 0
  {
    k in Last(s).table && Last(s).table[k] == e.value
  }

  /** Version `j` changed or removed the row after the entry's source had seen it, and its writer's deletion of
      the key came before the store, failed or was never tried. */
  ghost predicate Overtaken(s: State, k: Key, e: Entry, j: nat) {
    && e.source.version < j < |s.history| && s.history[j].cause.Changed? && s.history[j].cause.k == k
    && (s.history[j].cause.deletedAt.Some? ==> s.history[j].cause.deletedAt.value < e.storedAt)
    && e.source.time <= s.history[j].time + s.lag
  }

  ghost predicate WasOvertaken(s: State, k: Key, e: Entry) {
    exists j: nat :: Overtaken(s, k, e, j)
  }

  lemma {:induction false} FindChange(s: State, k: Key, v: nat, n: nat) returns (j: nat)
    requires HistoryOk(s) && v <= n < |s.history| && k in s.history[v].table
    requires !(k in s.history[n].table && s.history[n].table[k] == s.history[v].table[k])
    ensures v < j <= n && s.history[j].cause.Changed? && s.history[j].cause.k == k
    decreases n
  {
    assert Follows(s.history, n);
    if s.history[n].cause.Changed? && s.history[n].cause.k == k {
      j := n;
    } else {
      j := FindChange(s, k, v, n - 1);
    }
  }

  /** Every change of the row since the access stored another value. */
  predicate ChangesDiffer(s: State, k: Key, e: Entry) {
    forall j | e.source.version < j < |s.history| && s.history[j].cause.Changed? && s.history[j].cause.k == k ::
      k in s.history[j].table ==> s.history[j].table[k] != e.value
  }

  lemma {:induction false} ChangeLasts(s: State, k: Key, e: Entry, j: nat, n: nat)
    requires HistoryOk(s) && e.source.version < j <= n < |s.history| && ChangesDiffer(s, k, e)
    requires s.history[j].cause.Changed? && s.history[j].cause.k == k
    ensures k in s.history[n].table ==> s.history[n].table[k] != e.value
    decreases n
  {
    if n > j {
      ChangeLasts(s, k, e, j, n - 1);
      assert Follows(s.history, n) && Follows(s.history, j);
      assert k in s.history[j - 1].table;
    }
  }

  /** The exact condition, over every run: if changes store other values (hashes are salted), an entry is stale
      if and only if a change or removal of its row overtook it. */
  lemma StaleIffOvertaken(run: seq<State>, events: seq<Event>, i: nat, k: Key)
    requires IsRun(run, events) && i < |run| && k in run[i].redis && ChangesDiffer(run[i], k, run[i].redis[k])
    ensures |run[i].history| > 0
    ensures !Fresh(run[i], k, run[i].redis[k]) <==> WasOvertaken(run[i], k, run[i].redis[k])
  {
    RunKeepsInv(run, events, i);
    var s, e := run[i], run[i].redis[k];
    assert EntryOk(s, k, e);
    if !Fresh(s, k, e) {
      var j := FindChange(s, k, e.source.version, |s.history| - 1);
      assert Overtaken(s, k, e, j);
    }
    if j: nat :| Overtaken(s, k, e, j) {
      ChangeLasts(s, k, e, j, |s.history| - 1);
    }
  }

  /* ---- The condition in the order of events ---- */

  ghost predicate CommitsArePast(s: State) {
    forall j | 0 < j < |s.history| :: s.history[j].at < s.steps
  }

  lemma {:induction false} RunKeepsPast(run: seq<State>, events: seq<Event>, i: nat)
    requires IsRun(run, events) && i < |run|
    ensures CommitsArePast(run[i]) && run[i].steps == i
  {
    if i > 0 {
      RunKeepsPast(run, events, i - 1);
      StepKeepsPast(run[i - 1], events[i - 1]);
      StepCounts(run[i - 1], events[i - 1]);
    }
  }

  lemma StepKeepsPast(s: State, e: Event)
    requires |s.history| > 0 && s.replica < |s.history| && Enabled(s, e) && CommitsArePast(s)
    ensures CommitsArePast(Apply(s, e)) && |s.history| <= |Apply(s, e).history|
    ensures Apply(s, e).history[..|s.history|] == s.history
    ensures forall j | |s.history| <= j < |Apply(s, e).history| :: Apply(s, e).history[j].at == s.steps
  {}

  /** The versions of an earlier state are those written before it. */
  lemma {:induction false} VersionsSince(run: seq<State>, events: seq<Event>, a: nat, i: nat, j: nat)
    requires IsRun(run, events) && a <= i < |run| && 0 < j < |run[i].history|
    ensures |run[a].history| <= |run[i].history|
    ensures j < |run[a].history| <==> run[i].history[j].at < a
    decreases i
  {
    CommittedBefore(run, events, i, j);
    if a < i {
      HistoryGrows(run, events, a, i - 1);
      StepVersion(run, events, i - 1, j);
      if j < |run[i - 1].history| { VersionsSince(run, events, a, i - 1, j); }
    }
  }

  lemma CommittedBefore(run: seq<State>, events: seq<Event>, i: nat, j: nat)
    requires IsRun(run, events) && i < |run| && 0 < j < |run[i].history|
    ensures run[i].history[j].at < i
  {
    RunKeepsPast(run, events, i);
  }

  lemma StepVersion(run: seq<State>, events: seq<Event>, i: nat, j: nat)
    requires IsRun(run, events) && i < |events| && j < |run[i + 1].history|
    ensures |run[i].history| <= |run[i + 1].history|
    ensures if j < |run[i].history| then run[i + 1].history[j] == run[i].history[j] else run[i + 1].history[j].at == i
  {
    RunKeepsPast(run, events, i);
    StepKeepsPast(run[i], events[i]);
    if j < |run[i].history| { assert run[i + 1].history[j] == run[i + 1].history[..|run[i].history|][j]; }
  }

  lemma {:induction false} HistoryGrows(run: seq<State>, events: seq<Event>, a: nat, i: nat)
    requires IsRun(run, events) && a <= i < |run|
    ensures |run[a].history| <= |run[i].history|
    decreases i
  {
    if a < i {
      HistoryGrows(run, events, a, i - 1);
      RunKeepsPast(run, events, i - 1);
      StepKeepsPast(run[i - 1], events[i - 1]);
    }
  }

  /** The access went to the primary: a read there, or the caller's own insertion. */
  ghost predicate OnPrimary(events: seq<Event>, r: Source) {
    r.at < |events| && (events[r.at].Commit? || (events[r.at].Read? && events[r.at].primary))
  }

  /** Such an access sees the commits before it, its own included, and misses those after it. */
  lemma PrimarySees(run: seq<State>, events: seq<Event>, i: nat, r: Source, j: nat)
    requires IsRun(run, events) && i < |run| && TracedSource(run, events, i, r) && OnPrimary(events, r)
    requires 0 < j < |run[i].history|
    ensures r.version < j <==> r.at < run[i].history[j].at
  {
    VersionsSince(run, events, r.at + 1, i, j);
  }

  /** A change of the row came after the access, and its writer deleted the key before the store, failed to, or
      never tried. */
  ghost predicate Overlapped(s: State, k: Key, e: Entry) {
    exists j :: 0 < j < |s.history| && s.history[j].cause.Changed? && s.history[j].cause.k == k
      && (s.history[j].cause.deletedAt.Some? ==> s.history[j].cause.deletedAt.value < e.storedAt)
      && e.source.at < s.history[j].at
  }

  /** For entries that go back to the primary the condition is one on the order of events alone. */
  lemma StaleIffOverlapped(run: seq<State>, events: seq<Event>, i: nat, k: Key)
    requires IsRun(run, events) && i < |run| && k in run[i].redis && ChangesDiffer(run[i], k, run[i].redis[k])
    requires OnPrimary(events, run[i].redis[k].source)
    ensures |run[i].history| > 0
    ensures !Fresh(run[i], k, run[i].redis[k]) <==> Overlapped(run[i], k, run[i].redis[k])
  {
    StaleIffOvertaken(run, events, i, k);
    RunKeepsInv(run, events, i);
    RunIsTraced(run, events, i);
    var s, e := run[i], run[i].redis[k];
    assert EntryOk(s, k, e) && TracedEntry(run, events, i, e);
    forall j: nat | 0 < j < |s.history| ensures e.source.version < j <==> e.source.at < s.history[j].at {
      PrimarySees(run, events, i, e.source, j);
    }
    OvertakenIsOverlap(s, k, e);
  }

  lemma OvertakenIsOverlap(s: State, k: Key, e: Entry)
    requires EntryOk(s, k, e)
    requires forall j: nat | 0 < j < |s.history| :: e.source.version < j <==> e.source.at < s.history[j].at
    ensures WasOvertaken(s, k, e) <==> Overlapped(s, k, e)
  {
    if j: nat :| Overtaken(s, k, e, j) {
      assert e.source.at < s.history[j].at;
    }
    if Overlapped(s, k, e) {
      var j :| 0 < j < |s.history| && s.history[j].cause.Changed? && s.history[j].cause.k == k
        && (s.history[j].cause.deletedAt.Some? ==> s.history[j].cause.deletedAt.value < e.storedAt)
        && e.source.at < s.history[j].at;
      assert Overtaken(s, k, e, j);
    }
  }

  /* ---- The race does happen ---- */

  ghost predicate StepsTo(s: State, e: Event, s': State) {
    |s.history| > 0 && s.replica < |s.history| && Enabled(s, e) && Apply(s, e) == s'
  }

  lemma ExtendRun(run: seq<State>, events: seq<Event>, e: Event, s': State)
    requires IsRun(run, events) && StepsTo(run[|events|], e, s')
    ensures IsRun(run + [s'], events + [e])
  {
    var run', events' := run + [s'], events + [e];
    forall i | 0 <= i < |events'|
      ensures && |run'[i].history| > 0 && run'[i].replica < |run'[i].history|
              && Enabled(run'[i], events'[i]) && run'[i + 1] == Apply(run'[i], events'[i])
    {
      if i < |events| { assert run'[i] == run[i] && run'[i + 1] == run[i + 1] && events'[i] == events[i]; }
    }
  }

  const ROWS: Table := map["key" := "old"]
  const BEFORE: seq<Version> := [Version(ROWS, 0, 0, Initial)]
  const OLD_READ: Source := Source(1, 4, 0, 0)

  function Early(calls: map<CallId, Call>, steps: nat): State {
    State(0, BEFORE, 0, map[], calls, 0, steps)
  }

  /** A writer has deleted the key, and a reader then reads the row. */
  lemma ReaderSlipsIn(next: Option<Val>) returns (run: seq<State>, events: seq<Event>)
    ensures IsRun(run, events) && |events| == 5 && run[0].lag == 0
    ensures run[5] ==
              Early(map[0 := WriteRow("key", next, Some(1)), 1 := Fill("key", "old", OLD_READ, Accepted("old"))], 5)
  {
    var w := WriteRow("key", next, Some(1));
    run, events := [Early(map[], 0)], [];
    var s1 := Early(map[0 := DeleteKey("key", next)], 1);
    ExtendRun(run, events, Start(0, DeleteKey("key", next)), s1);
    run, events := run + [s1], events + [Start(0, DeleteKey("key", next))];
    var s2 := Early(map[0 := w], 2);
    ExtendRun(run, events, Del(0, true), s2);
    run, events := run + [s2], events + [Del(0, true)];
    var s3 := Early(map[0 := w, 1 := Lookup("key")], 3);
    ExtendRun(run, events, Start(1, Lookup("key")), s3);
    run, events := run + [s3], events + [Start(1, Lookup("key"))];
    var s4 := Early(map[0 := w, 1 := ReadDb("key")], 4);
    ExtendRun(run, events, Get(1, true), s4);
    run, events := run + [s4], events + [Get(1, true)];
    var s5 := Early(map[0 := w, 1 := Fill("key", "old", OLD_READ, Accepted("old"))], 5);
    ExtendRun(run, events, Read(1, true), s5);
    run, events := run + [s5], events + [Read(1, true)];
  }

  const CACHED: map<Key, Entry> := map["key" := Entry("old", 300, OLD_READ, 0, 6)]

  function Late(redis: map<Key, Entry>, rows: Table, calls: map<CallId, Call>, steps: nat): State {
    State(0, BEFORE + [Version(rows, 0, 5, Changed("key", Some(1)))], 0, redis, calls, 0, steps)
  }

  /** The writer commits and returns, and the reader stores the old value. */
  lemma OldValueIsCached(next: Option<Val>) returns (run: seq<State>, events: seq<Event>, rows: Table)
    requires next != Some("old")
    ensures IsRun(run, events) && |events| == 7 && run[0].lag == 0
    ensures !("key" in rows && rows["key"] == "old")
    ensures run[7] == Late(CACHED, rows, map[0 := Done(Finished), 1 := Done(Accepted("old"))], 7)
  {
    run, events := ReaderSlipsIn(next);
    rows := if next.Some? then ROWS["key" := next.value] else ROWS - {"key"};
    var s6 := Late(map[], rows, map[0 := Done(Finished), 1 := Fill("key", "old", OLD_READ, Accepted("old"))], 6);
    ExtendRun(run, events, Commit(0, true), s6);
    run, events := run + [s6], events + [Commit(0, true)];
    var s7 := Late(CACHED, rows, map[0 := Done(Finished), 1 := Done(Accepted("old"))], 7);
    ExtendRun(run, events, Store(1, true), s7);
    run, events := run + [s7], events + [Store(1, true)];
  }

  /** With no lag, no failure and only primary reads: after a token has been deleted, or a password changed,
      and the call has returned, a new call is still answered with the old value. */
  lemma OldValueStillAccepted(next: Option<Val>) returns (run: seq<State>, events: seq<Event>)
    requires next != Some("old")
    ensures IsRun(run, events) && run[0].lag == 0 && |events| == 9
    ensures 0 in run[7].calls && run[7].calls[0] == Done(Finished) && 2 !in run[7].calls
    ensures |run[7].history| > 0 && !("key" in Last(run[7]).table && Last(run[7]).table["key"] == "old")
    ensures events[7] == Start(2, Lookup("key"))
    ensures 2 in run[9].calls && run[9].calls[2] == Done(Accepted("old"))
  {
    var rows;
    run, events, rows := OldValueIsCached(next);
    var done := map[0 := Done(Finished), 1 := Done(Accepted("old"))];
    var s8 := Late(CACHED, rows, done[2 := Lookup("key")], 8);
    ExtendRun(run, events, Start(2, Lookup("key")), s8);
    run, events := run + [s8], events + [Start(2, Lookup("key"))];
    var s9 := Late(CACHED, rows, done[2 := Done(Accepted("old"))], 9);
    ExtendRun(run, events, Get(2, true), s9);
    run, events := run + [s9], events + [Get(2, true)];
  }
}
