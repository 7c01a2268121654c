/** What the cache protocol promises, and what it does not, over every run. */
module UserCacheTheorems {
  import opened Wrappers
  import opened UserCache
  import opened UserCacheInvariant

  /* ---- Where an entry comes from ---- */

  /** Event `r.at` of the run is the database read `r` describes. */
  ghost predicate TracedRead(run: seq<State>, events: seq<Event>, i: nat, r: Read)
    requires |run| == |events| + 1 && i < |run|
  {
    && r.at < i && |run[r.at].history| > 0
    && events[r.at] == ReadRow(r.caller, r.primary, Some(r.uid))
    && r.version == ReadVersion(run[r.at], r.primary)
    && r.time == run[r.at].clock
  }

  /** Event `e.storedAt` is the same call storing what it read. */
  ghost predicate TracedEntry(run: seq<State>, events: seq<Event>, i: nat, e: Entry)
    requires |run| == |events| + 1 && i < |run|
  {
    && TracedRead(run, events, i, e.read)
    && e.read.at < e.storedAt < i
    && events[e.storedAt] == Store(e.read.caller, true)
    && e.storeTime == run[e.storedAt].clock
  }

  predicate CarriesRead(call: Call) { call.IdStore? || call.UidStoreId? || call.UidStoreUid? }

  ghost predicate Traced(run: seq<State>, events: seq<Event>, i: nat)
    requires |run| == |events| + 1 && i < |run|
  {
    && run[i].steps == i
    && (forall k | k in run[i].redis :: TracedEntry(run, events, i, run[i].redis[k]))
    && (forall c | c in run[i].calls && CarriesRead(run[i].calls[c]) ::
          run[i].calls[c].read.caller == c && TracedRead(run, events, i, run[i].calls[c].read))
  }

  /** One event either leaves an entry alone or stores what its call read. */
  ghost predicate EntryStep(s: State, e: Event, k: Key, x: Entry) {
    || (k in s.redis && x == s.redis[k])
    || (e.Store? && e.ok && e.c in s.calls && CarriesRead(s.calls[e.c]) && x.read == s.calls[e.c].read
        && x.storedAt == s.steps && x.storeTime == s.clock)
  }

  lemma StepEntry(s: State, e: Event, k: Key)
    requires |s.history| > 0 && s.replica < |s.history| && Enabled(s, e) && k in Apply(s, e).redis
    ensures EntryStep(s, e, k, Apply(s, e).redis[k])
  {}

  /** One event either passes a call's read on or is that read. */
  ghost predicate CallStep(s: State, e: Event, c: CallId, read: Read) {
    || (c in s.calls && CarriesRead(s.calls[c]) && read == s.calls[c].read)
    || (e.ReadRow? && e.c == c && e.found.Some? && |s.history| > 0
        && read == Read(c, s.steps, e.primary, e.found.value, ReadVersion(s, e.primary), s.clock))
  }

  lemma StepCall(s: State, e: Event, c: CallId)
    requires |s.history| > 0 && s.replica < |s.history| && Enabled(s, e)
    requires c in Apply(s, e).calls && CarriesRead(Apply(s, e).calls[c])
    ensures CallStep(s, e, c, Apply(s, e).calls[c].read)
  {
    match e
    case Store(d, ok) => assert d == c ==> s.calls[c].UidStoreId?;
    case Invalidate(d, ok) => assert d != c;
    case Lookup(d, ok) => assert d != c;
    case _ =>
  }

  lemma EntryIsTraced(run: seq<State>, events: seq<Event>, i: nat, k: Key, x: Entry)
    requires |run| == |events| + 1 && 0 < i < |run| && Traced(run, events, i - 1)
    requires EntryStep(run[i - 1], events[i - 1], k, x)
    ensures TracedEntry(run, events, i, x)
  {
    var s, e := run[i - 1], events[i - 1];
    if k in s.redis && x == s.redis[k] {
      assert TracedEntry(run, events, i - 1, s.redis[k]);
    } else {
      assert TracedRead(run, events, i - 1, s.calls[e.c].read);
    }
  }

  lemma CallIsTraced(run: seq<State>, events: seq<Event>, i: nat, c: CallId, read: Read)
    requires |run| == |events| + 1 && 0 < i < |run| && Traced(run, events, i - 1)
    requires CallStep(run[i - 1], events[i - 1], c, read)
    ensures read.caller == c && TracedRead(run, events, i, read)
  {
    var s, e := run[i - 1], events[i - 1];
    if c in s.calls && CarriesRead(s.calls[c]) && read == s.calls[c].read {
      assert TracedRead(run, events, i - 1, s.calls[c].read);
    }
  }

  lemma {:induction false} RunIsTraced(run: seq<State>, events: seq<Event>, i: nat)
    requires IsRun(run, events) && i < |run|
    ensures Traced(run, events, i)
  {
    if i > 0 {
      RunIsTraced(run, events, i - 1);
      RunKeepsInv(run, events, i - 1);
      var s, e := run[i - 1], events[i - 1];
      forall k | k in run[i].redis ensures TracedEntry(run, events, i, run[i].redis[k]) {
        StepEntry(s, e, k);
        EntryIsTraced(run, events, i, k, run[i].redis[k]);
      }
      forall c | c in run[i].calls && CarriesRead(run[i].calls[c])
        ensures run[i].calls[c].read.caller == c && TracedRead(run, events, i, run[i].calls[c].read)
      {
        StepCall(s, e, c);
        CallIsTraced(run, events, i, c, run[i].calls[c].read);
      }
      StepCounts(s, e);
    }
  }

  lemma StepCounts(s: State, e: Event)
    requires |s.history| > 0 && s.replica < |s.history| && Enabled(s, e)
    ensures Apply(s, e).steps == s.steps + 1
  {}

  /** Every entry holds the conversion of the row its own filler read, under that row's
      ID or UID, and expires five minutes after that filler stored it. */
  lemma EntriesComeFromReads(run: seq<State>, events: seq<Event>, i: nat, k: Key)
    requires IsRun(run, events) && i < |run| && k in run[i].redis
    ensures var e := run[i].redis[k];
            && TracedEntry(run, events, i, e)
            && e.read.version < |run[e.read.at].history|
            && e.read.uid in run[e.read.at].history[e.read.version].table
            && var row := run[e.read.at].history[e.read.version].table[e.read.uid];
            && e.value == Convert(row)
            && (k == row.id || k == e.read.uid)
            && e.expiry == run[e.storedAt].clock + USER_TTL
  {
    RunIsTraced(run, events, i);
    RunKeepsInv(run, events, i);
    var e := run[i].redis[k];
    assert EntryOk(run[i], k, e);
    HistoryGrows(run, events, e.read.at, i);
  }

  lemma {:induction false} HistoryGrows(run: seq<State>, events: seq<Event>, i: nat, j: nat)
    requires IsRun(run, events) && i <= j < |run|
    ensures |run[i].history| <= |run[j].history|
    ensures run[j].history[..|run[i].history|] == run[i].history
    ensures run[j].lag == run[i].lag && run[i].clock <= run[j].clock
    decreases j
  {
    if i < j {
      HistoryGrows(run, events, i, j - 1);
      StepGrows(run[j - 1], events[j - 1]);
      PrefixOfPrefix(run[i].history, run[j - 1].history, run[j].history);
    }
  }

  lemma PrefixOfPrefix<T>(a: seq<T>, b: seq<T>, c: seq<T>)
    requires |a| <= |b| <= |c| && b[..|a|] == a && c[..|b|] == b
    ensures c[..|a|] == a
  {
    assert c[..|a|] == c[..|b|][..|a|];
  }

  lemma StepGrows(s: State, e: Event)
    requires |s.history| > 0 && s.replica < |s.history| && Enabled(s, e)
    ensures |s.history| <= |Apply(s, e).history|
    ensures Apply(s, e).history[..|s.history|] == s.history
    ensures Apply(s, e).lag == s.lag && s.clock <= Apply(s, e).clock
  {}

  /* ---- How stale a served value can be ---- */

  /** Version `v` was the primary's table at instant `t`. */
  ghost predicate CurrentAt(s: State, v: nat, t: nat) {
    && v < |s.history|
    && s.history[v].time <= t <= s.clock
    && (v + 1 < |s.history| ==> t <= s.history[v + 1].time)
  }

  /** `pb` shows the row of the read's user as the primary held it less than `age` ago. */
  ghost predicate Recent(s: State, read: Read, pb: PbUser, age: nat) {
    exists v: nat, t: nat ::
      CurrentAt(s, v, t) && s.clock < t + age && read.uid in s.history[v].table
          && pb == Convert(s.history[v].table[read.uid])
  }

  lemma ReadIsRecent(s: State, read: Read, pb: PbUser, storeTime: nat, ttl: nat)
    requires HistoryOk(s) && ReadOk(s, read, pb)
    requires read.time <= storeTime <= s.clock < storeTime + ttl
    ensures Recent(s, read, pb, ttl + (storeTime - read.time) + s.lag)
  {
    var v := read.version;
    var t := if v + 1 < |s.history| && s.history[v + 1].time < read.time then s.history[v + 1].time else read.time;
    assert CurrentAt(s, v, t);
  }

  /** Bounded staleness.  A live entry holds what the primary held at some instant less than five
      minutes, plus the filler's read-to-store gap, plus the replica's lag ago. */
  lemma LiveEntryIsRecent(run: seq<State>, events: seq<Event>, i: nat, k: Key)
    requires IsRun(run, events) && i < |run| && Live(run[i], k)
    ensures var e := run[i].redis[k];
            && TracedEntry(run, events, i, e)
            && e.read.time <= e.storeTime <= run[i].clock < e.storeTime + USER_TTL && ReadOk(run[i], e.read, e.value)
            && Recent(run[i], e.read, e.value, USER_TTL + (e.storeTime - e.read.time) + run[i].lag)
            && Recent(run[i], e.read, e.value, 1 + (run[i].clock - e.read.time) + run[i].lag)
  {
    RunIsTraced(run, events, i);
    RunKeepsInv(run, events, i);
    var e := run[i].redis[k];
    assert EntryOk(run[i], k, e);
    ReadIsRecent(run[i], e.read, e.value, e.storeTime, USER_TTL);
    ReadIsRecent(run[i], e.read, e.value, run[i].clock, 1);
  }

  lemma OwnReadIsRecent(run: seq<State>, events: seq<Event>, i: nat, c: CallId)
    requires IsRun(run, events) && i < |run| && c in run[i].calls && CarriesRead(run[i].calls[c])
    ensures var s := run[i]; var read := s.calls[c].read;
            && TracedRead(run, events, i, read) && read.time <= s.clock && ReadOk(s, read, s.calls[c].pb)
            && Recent(s, read, s.calls[c].pb, USER_TTL + (s.clock - read.time) + s.lag)
            && Recent(s, read, s.calls[c].pb, 1 + (s.clock - read.time) + s.lag)
  {
    RunIsTraced(run, events, i);
    RunKeepsInv(run, events, i);
    assert CallOk(run[i], run[i].calls[c]);
    ReadIsRecent(run[i], run[i].calls[c].read, run[i].calls[c].pb, run[i].clock, USER_TTL);
    ReadIsRecent(run[i], run[i].calls[c].read, run[i].calls[c].pb, run[i].clock, 1);
  }

  /** The step from `s` to `s'` answers call `c` with `pb`. */
  predicate Answers(s: State, s': State, c: CallId, pb: PbUser) {
    c in s'.calls && s'.calls[c] == Done(Served(pb)) && (c !in s.calls || s.calls[c] != s'.calls[c])
  }

  /** What an answer can be: a live entry's value, or what the call itself has read.  A lookup on behalf
      of the alias `me` gives no answer; it goes on to the id it found. */
  lemma AnswerComesFrom(s: State, e: Event, c: CallId, pb: PbUser)
    requires |s.history| > 0 && s.replica < |s.history| && Enabled(s, e) && Answers(s, Apply(s, e), c, pb)
    ensures c in s.calls
    ensures || (s.calls[c].IdLookup? && Live(s, s.calls[c].id) && pb == s.redis[s.calls[c].id].value)
            || (s.calls[c].UidLookup? && Live(s, s.calls[c].uid) && pb == s.redis[s.calls[c].uid].value)
            || (CarriesRead(s.calls[c]) && pb == s.calls[c].pb)
    ensures s.calls[c].UidLookup? || s.calls[c].UidStoreUid? ==> !s.calls[c].me
  {
    match e
    case Lookup(d, _) => assert d == c;
    case Store(d, _) => assert d == c;
    case _ =>
  }

  /** The answer of call `c` rests on that read: its own, or that of a live entry under the key it asked for,
      stored at `storeTime`. */
  ghost predicate RestsOn(run: seq<State>, events: seq<Event>, i: nat, c: CallId, read: Read, storeTime: nat)
    requires |run| == |events| + 1 && i < |run|
  {
    var s := run[i];
    && c in s.calls && TracedRead(run, events, i, read)
    && (|| (CarriesRead(s.calls[c]) && s.calls[c].read == read && storeTime == s.clock)
        || exists k | k in s.redis ::
             && Live(s, k) && (s.calls[c] == IdLookup(k) || s.calls[c] == UidLookup(k, false))
             && s.redis[k].read == read && s.redis[k].storeTime == storeTime && TracedEntry(run, events, i, s.redis[k]))
  }

  /** So is every answer: `read` is the database read it goes back to, and `storeTime` the time that
      read was cached; the answer is older than that read by no more than the lag. */
  lemma AnswerIsRecent(run: seq<State>, events: seq<Event>, i: nat, c: CallId, pb: PbUser)
    returns (read: Read, storeTime: nat)
    requires IsRun(run, events) && i < |events| && Answers(run[i], run[i + 1], c, pb)
    ensures RestsOn(run, events, i, c, read, storeTime)
    ensures read.time <= storeTime <= run[i].clock < storeTime + USER_TTL
    ensures ReadOk(run[i], read, pb)
    ensures Recent(run[i], read, pb, USER_TTL + (storeTime - read.time) + run[i].lag)
    ensures Recent(run[i], read, pb, 1 + (run[i].clock - read.time) + run[i].lag)
  {
    var s := run[i];
    AnswerComesFrom(s, events[i], c, pb);
    if CarriesRead(s.calls[c]) {
      OwnReadIsRecent(run, events, i, c);
      read, storeTime := s.calls[c].read, s.clock;
    } else {
      var k := if s.calls[c].IdLookup? then s.calls[c].id else s.calls[c].uid;
      LiveEntryIsRecent(run, events, i, k);
      read, storeTime := s.redis[k].read, s.redis[k].storeTime;
    }
  }

  /* ---- When a stale entry can arise ---- */

  /** The entry shows the current row, apart from the time of its last update. */
  predicate Fresh(s: State, e: Entry)
    requires |s.history| > 0
  {
    && e.read.uid in Last(s).table
    && e.value.(updateTime := 0) == Convert(Last(s).table[e.read.uid]).(updateTime := 0)
  }

  /** The commit that made the entry stale, searching back from version `n`. */
  lemma {:induction false} FindCommit(s: State, uid: Uid, v: nat, n: nat)
    returns (j: nat)
    requires HistoryOk(s) && v <= n < |s.history|
    requires uid in s.history[v].table
    requires uid in s.history[n].table ==>
               Convert(s.history[n].table[uid]).(updateTime := 0) != Convert(s.history[v].table[uid]).(updateTime := 0)
    ensures v < j <= n && HasInv(s.history[j].cause) && s.history[j].cause.uid == uid
    decreases n
  {
    assert v < n;
    assert Follows(s.history[n - 1].table, s.history[n]);
    if HasInv(s.history[n].cause) && s.history[n].cause.uid == uid {
      j := n;
    } else {
      j := FindCommit(s, uid, v, n - 1);
    }
  }

  /** Commit `j` and the fill of `e` raced: the writer deleted the key before the filler
      stored, and committed after the filler read, or within the lag of a replica read. */
  ghost predicate Raced(s: State, k: Key, e: Entry, j: nat)
    requires j < |s.history| && HasInv(s.history[j].cause)
  {
    && s.history[j].cause.uid == e.read.uid
    && InvalidatedBefore(s.history[j].cause, k, e.value, e.read.uid, e.storedAt)
    && (if e.read.primary then e.read.at < s.history[j].at else e.read.time <= s.history[j].time + s.lag)
  }

  /** A stale entry is always the trace of such a race. */
  lemma StaleOnlyByRace(run: seq<State>, events: seq<Event>, i: nat, k: Key)
    requires IsRun(run, events) && i < |run| && k in run[i].redis
    requires |run[i].history| > 0 && !Fresh(run[i], run[i].redis[k])
    ensures var s := run[i]; var e := s.redis[k];
            exists j :: e.read.version < j < |s.history| && HasInv(s.history[j].cause) && Raced(s, k, e, j)
  {
    RunKeepsInv(run, events, i);
    StaleEntryRaced(run[i], k, run[i].redis[k]);
  }

  lemma StaleEntryRaced(s: State, k: Key, e: Entry)
    requires HistoryOk(s) && EntryOk(s, k, e) && !Fresh(s, e)
    ensures exists j :: e.read.version < j < |s.history| && HasInv(s.history[j].cause) && Raced(s, k, e, j)
  {
    var j := FindCommit(s, e.read.uid, e.read.version, |s.history| - 1);
    assert Raced(s, k, e, j);
  }

  /** No row is created under a UID that any earlier version had. */
  ghost predicate UidsAreNew(h: seq<Version>) {
    forall i, j | 0 <= j < i < |h| && h[i].cause.Created? :: h[i].cause.uid !in h[j].table
  }

  lemma StepKeepsUidsNew(s: State, e: Event)
    requires |s.history| > 0 && s.replica < |s.history| && Enabled(s, e) && UidsAreNew(s.history)
    ensures UidsAreNew(Apply(s, e).history)
  {}

  lemma {:induction false} RunKeepsUidsNew(run: seq<State>, events: seq<Event>, i: nat)
    requires IsRun(run, events) && i < |run|
    ensures UidsAreNew(run[i].history)
  {
    if i > 0 {
      RunKeepsUidsNew(run, events, i - 1);
      StepKeepsUidsNew(run[i - 1], events[i - 1]);
    }
  }

  /** Every update of the row since the read stored a profile other than the one read. */
  predicate UpdatesDiffer(s: State, read: Read)
    requires read.version < |s.history| && read.uid in s.history[read.version].table
  {
    forall j | read.version < j < |s.history| && s.history[j].cause.Updated? && s.history[j].cause.uid == read.uid ::
      read.uid in s.history[j].table ==>
        s.history[j].table[read.uid].profile != s.history[read.version].table[read.uid].profile
  }

  /** From an update or deletion on, the row is never again what was read. */
  lemma {:induction false} CommitLasts(s: State, read: Read, j: nat, n: nat)
    requires HistoryOk(s) && UidsAreNew(s.history) && read.version < j <= n < |s.history|
    requires read.uid in s.history[read.version].table && UpdatesDiffer(s, read)
    requires HasInv(s.history[j].cause) && s.history[j].cause.uid == read.uid
    ensures read.uid in s.history[n].table ==>
              s.history[n].table[read.uid].profile != s.history[read.version].table[read.uid].profile
    decreases n
  {
    assert Follows(s.history[n - 1].table, s.history[n]);
    if n > j {
      CommitLasts(s, read, j, n - 1);
    }
  }

  ghost predicate RaceHappened(s: State, k: Key, e: Entry) {
    exists j :: e.read.version < j < |s.history| && HasInv(s.history[j].cause) && Raced(s, k, e, j)
  }

  lemma ChangedEntryIsStale(s: State, e: Entry, j: nat)
    requires HistoryOk(s) && UidsAreNew(s.history) && e.read.version < j < |s.history|
    requires e.read.uid in s.history[e.read.version].table && UpdatesDiffer(s, e.read)
    requires e.value == Convert(s.history[e.read.version].table[e.read.uid])
    requires HasInv(s.history[j].cause) && s.history[j].cause.uid == e.read.uid
    ensures !Fresh(s, e)
  {
    CommitLasts(s, e.read, j, |s.history| - 1);
    OtherProfileIsStale(s, e);
  }

  lemma RacedCommit(s: State, k: Key, e: Entry) returns (j: nat)
    requires RaceHappened(s, k, e)
    ensures e.read.version < j < |s.history| && HasInv(s.history[j].cause) && s.history[j].cause.uid == e.read.uid
  {
    j :| e.read.version < j < |s.history| && HasInv(s.history[j].cause) && Raced(s, k, e, j);
  }

  lemma OtherProfileIsStale(s: State, e: Entry)
    requires |s.history| > 0 && e.read.version < |s.history| && e.read.uid in s.history[e.read.version].table
    requires e.value == Convert(s.history[e.read.version].table[e.read.uid])
    requires e.read.uid in Last(s).table ==>
               Last(s).table[e.read.uid].profile != s.history[e.read.version].table[e.read.uid].profile
    ensures !Fresh(s, e)
  {}

  /** The exact condition.  In every run, if the updates of the row store profiles other than the one that was
      read, an entry is stale if and only if its fill raced an update or deletion of its row: the writer
      deleted the key before the fill stored it, and committed after the fill had read, or within the lag of a
      replica read. */
  lemma StaleIffRaced(run: seq<State>, events: seq<Event>, i: nat, k: Key)
    requires IsRun(run, events) && i < |run| && k in run[i].redis
    requires var s := run[i]; var r := s.redis[k].read;
             r.version < |s.history| && r.uid in s.history[r.version].table ==> UpdatesDiffer(s, r)
    ensures |run[i].history| > 0
    ensures !Fresh(run[i], run[i].redis[k]) <==> RaceHappened(run[i], k, run[i].redis[k])
  {
    RunKeepsInv(run, events, i);
    RunKeepsUidsNew(run, events, i);
    var s, e := run[i], run[i].redis[k];
    assert EntryOk(s, k, e);
    if !Fresh(s, e) {
      StaleEntryRaced(s, k, e);
    }
    if RaceHappened(s, k, e) {
      var j := RacedCommit(s, k, e);
      ChangedEntryIsStale(s, e, j);
    }
  }

  /** Every commit lies in the past. */
  ghost predicate CommitsArePast(s: State) {
    forall j | 0 < j < |s.history| :: s.history[j].at < s.steps
  }

  lemma StepKeepsPast(s: State, e: Event)
    requires |s.history| > 0 && s.replica < |s.history| && Enabled(s, e) && CommitsArePast(s)
    ensures CommitsArePast(Apply(s, e))
  {}

  lemma {:induction false} RunKeepsPast(run: seq<State>, events: seq<Event>, i: nat)
    requires IsRun(run, events) && i < |run|
    ensures CommitsArePast(run[i])
  {
    if i > 0 {
      RunKeepsPast(run, events, i - 1);
      StepKeepsPast(run[i - 1], events[i - 1]);
    }
  }

  /** A read of the primary sees the commits before it and misses those after it. */
  lemma PrimaryReadSees(run: seq<State>, events: seq<Event>, i: nat, read: Read, pb: PbUser, j: nat)
    requires IsRun(run, events) && i < |run| && TracedRead(run, events, i, read) && read.primary
    requires ReadOk(run[i], read, pb) && 0 < j < |run[i].history|
    ensures if j <= read.version then run[i].history[j].at < read.at else read.at < run[i].history[j].at
  {
    if j <= read.version {
      HistoryGrows(run, events, read.at, i);
      RunKeepsPast(run, events, read.at);
      RunIsTraced(run, events, read.at);
      assert run[i].history[j] == run[read.at].history[j];
    }
  }

  /** Some writer of the row deleted the key before the entry was stored, and committed after it was read. */
  ghost predicate Overlapped(s: State, k: Key, e: Entry) {
    exists j :: 0 < j < |s.history| && HasInv(s.history[j].cause) && s.history[j].cause.uid == e.read.uid
      && InvalidatedBefore(s.history[j].cause, k, e.value, e.read.uid, e.storedAt) && e.read.at < s.history[j].at
  }

  /** For fills from the primary the condition is one on the order of events alone. */
  lemma StaleIffOverlapped(run: seq<State>, events: seq<Event>, i: nat, k: Key)
    requires IsRun(run, events) && i < |run| && k in run[i].redis && run[i].redis[k].read.primary
    requires var s := run[i]; var r := s.redis[k].read;
             r.version < |s.history| && r.uid in s.history[r.version].table ==> UpdatesDiffer(s, r)
    ensures |run[i].history| > 0
    ensures !Fresh(run[i], run[i].redis[k]) <==> Overlapped(run[i], k, run[i].redis[k])
  {
    StaleIffRaced(run, events, i, k);
    RunKeepsInv(run, events, i);
    RunIsTraced(run, events, i);
    var s, e := run[i], run[i].redis[k];
    assert EntryOk(s, k, e) && TracedEntry(run, events, i, e);
    forall j: nat | 0 < j < |s.history| ensures e.read.version < j <==> e.read.at < s.history[j].at {
      PrimaryReadSees(run, events, i, e.read, e.value, j);
    }
    RaceIsOverlap(s, k, e);
  }

  lemma RaceIsOverlap(s: State, k: Key, e: Entry)
    requires HistoryOk(s) && EntryOk(s, k, e) && e.read.primary
    requires forall j: nat | 0 < j < |s.history| :: e.read.version < j <==> e.read.at < s.history[j].at
    ensures RaceHappened(s, k, e) <==> Overlapped(s, k, e)
  {
    if RaceHappened(s, k, e) {
      var j :| e.read.version < j < |s.history| && HasInv(s.history[j].cause) && Raced(s, k, e, j);
      assert e.read.at < s.history[j].at;
    }
    if Overlapped(s, k, e) {
      var j :| 0 < j < |s.history| && HasInv(s.history[j].cause) && s.history[j].cause.uid == e.read.uid
        && InvalidatedBefore(s.history[j].cause, k, e.value, e.read.uid, e.storedAt) && e.read.at < s.history[j].at;
      assert Raced(s, k, e, j);
    }
  }

  /** When a commit is visible through the cache, to its own writer as to anyone: an answer shows version `j`
      or a later one exactly if the read behind it, made on the primary, came after the commit; a replica read
      is sure to show it once the lag has passed.  Which server that read went to is its own caller's pin to
      decide, not the writer's. */
  lemma CommitIsVisible(run: seq<State>, events: seq<Event>, i: nat, c: CallId, pb: PbUser, j: nat)
    returns (read: Read, storeTime: nat)
    requires IsRun(run, events) && i < |events| && Answers(run[i], run[i + 1], c, pb) && 0 < j < |run[i].history|
    ensures RestsOn(run, events, i, c, read, storeTime)
    ensures var h := run[i].history;
            && read.version < |h| && read.uid in h[read.version].table && pb == Convert(h[read.version].table[read.uid])
            && (read.primary ==> (j <= read.version <==> h[j].at < read.at))
            && (!read.primary && h[j].time + run[i].lag < read.time ==> j <= read.version)
  {
    read, storeTime := AnswerIsRecent(run, events, i, c, pb);
    if read.primary {
      PrimaryReadSees(run, events, i, read, pb, j);
    }
  }

  /** Hence a fill from the primary that no writer overlaps is fresh: it is enough that every
      update or deletion of the row committed before the read, or deleted this key only after
      the store. */
  lemma UnracedEntryIsFresh(run: seq<State>, events: seq<Event>, i: nat, k: Key)
    requires IsRun(run, events) && i < |run| && k in run[i].redis && run[i].redis[k].read.primary
    requires var s := run[i]; var e := s.redis[k];
             forall j | 0 <= j < |s.history| && HasInv(s.history[j].cause) && s.history[j].cause.uid == e.read.uid ::
               s.history[j].at <= e.read.at
               || !InvalidatedBefore(s.history[j].cause, k, e.value, e.read.uid, e.storedAt)
    ensures |run[i].history| > 0 && Fresh(run[i], run[i].redis[k])
  {
    RunKeepsInv(run, events, i);
    if !Fresh(run[i], run[i].redis[k]) {
      StaleOnlyByRace(run, events, i, k);
    }
  }
}
