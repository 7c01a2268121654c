/** The invariant of the token and password protocol and its preservation, event by event. */
module SecretCacheInvariant {
  import opened Wrappers
  import opened Maps
  import opened SecretCache

  /** One row was added under a key no version had, or one row changed or went. */
  ghost predicate Follows(h: seq<Version>, i: nat)
    requires 0 < i < |h|
  {
    match h[i].cause
    case Initial => false
    case Added(k) => OthersStay(h[i - 1].table, h[i].table, k) && forall j | 0 <= j < i :: k !in h[j].table
    case Changed(k, d) => k in h[i - 1].table && OthersStay(h[i - 1].table, h[i].table, k)
  }

  ghost predicate HistoryOk(s: State) {
    var h := s.history;
    && |h| > 0 && s.replica < |h|
    && (forall i, j | 0 <= i <= j < |h| :: h[i].time <= h[j].time)
    && (forall i | 0 <= i < |h| :: h[i].time <= s.clock)
    && (forall i | s.replica < i < |h| :: s.clock <= h[i].time + s.lag)
    && (forall i | 0 < i < |h| :: Follows(h, i))
    && (forall i | 0 <= i < |h| && h[i].cause.Changed? && h[i].cause.deletedAt.Some? ::
        h[i].cause.deletedAt.value < s.steps)
  }

  /** The value was that of the key in the version accessed, and later versions are at most `lag` older than
      the access. */
  ghost predicate SourceOk(s: State, k: Key, v: Val, r: Source) {
    var h := s.history;
    && r.version < |h| && k in h[r.version].table && v == h[r.version].table[k]
    && h[r.version].time <= r.time <= s.clock && r.at < s.steps
    && forall j | r.version < j < |h| :: r.time <= h[j].time + s.lag
  }

  ghost predicate EntryOk(s: State, k: Key, e: Entry) {
    && SourceOk(s, k, e.value, e.source)
    && e.source.time <= e.storeTime <= s.clock && e.expiry == e.storeTime + TTL && e.storedAt < s.steps
    && forall j | e.source.version < j < |s.history| && s.history[j].cause.Changed? && s.history[j].cause.k == k ::
         s.history[j].cause.deletedAt.Some? ==> s.history[j].cause.deletedAt.value < e.storedAt
  }

  ghost predicate CallOk(s: State, call: Call) {
    match call
    case Fill(k, v, r, reply) => SourceOk(s, k, v, r) && (reply.Accepted? ==> reply.v == v)
    case WriteRow(k, _, Some(d)) => d < s.steps && (k in s.redis ==> d < s.redis[k].storedAt)
    case _ => true
  }

  ghost predicate Inv(s: State) {
    && HistoryOk(s)
    && (forall k | k in s.redis :: EntryOk(s, k, s.redis[k]))
    && (forall c | c in s.calls :: CallOk(s, s.calls[c]))
  }

  /** The tables stay; keys may go, and entries come only with the current event's number. */
  ghost predicate QuietStep(s: State, s': State) {
    && s'.history == s.history && s'.lag == s.lag && s.clock <= s'.clock && s.steps < s'.steps
    && forall k | k in s'.redis :: (k in s.redis && s'.redis[k] == s.redis[k]) || s'.redis[k].storedAt == s.steps
  }

  /** One table is appended, under the current event's number; Redis stays. */
  ghost predicate CommitStep(s: State, s': State, v: Version) {
    && s'.history == s.history + [v] && s'.lag == s.lag && s'.clock == s.clock && s.steps < s'.steps
    && s'.redis == s.redis && s'.replica == s.replica
    && v.time == s.clock && v.at == s.steps
  }

  ghost predicate Invalidates(s: State, cause: Cause) {
    cause.Changed? && cause.deletedAt.Some? ==>
      cause.deletedAt.value < s.steps && (cause.k in s.redis ==> cause.deletedAt.value < s.redis[cause.k].storedAt)
  }

  lemma CommitKeepsHistory(s: State, s': State, v: Version)
    requires HistoryOk(s) && CommitStep(s, s', v) && Invalidates(s, v.cause)
    requires Follows(s.history + [v], |s.history|)
    ensures HistoryOk(s')
  {
    var h, n := s'.history, |s.history|;
    forall i | 0 < i < |h| ensures Follows(h, i) {
      if i < n {
        assert Follows(s.history, i);
        assert forall j | 0 <= j <= i :: h[j] == s.history[j];
      }
    }
  }

  /** What does not touch the tables keeps everything but, perhaps, what it is about. */
  lemma QuietKeeps(s: State, s': State, c: CallId)
    requires Inv(s) && QuietStep(s, s') && s'.replica < |s.history|
    requires forall i | s'.replica < i < |s.history| :: s'.clock <= s.history[i].time + s.lag
    requires forall d | d in s'.calls && d != c :: d in s.calls && s'.calls[d] == s.calls[d]
    requires c in s'.calls ==> CallOk(s', s'.calls[c])
    requires forall k | k in s'.redis && !(k in s.redis && s'.redis[k] == s.redis[k]) :: EntryOk(s', k, s'.redis[k])
    ensures Inv(s')
  {
    forall k | k in s'.redis ensures EntryOk(s', k, s'.redis[k]) {
      if k in s.redis && s'.redis[k] == s.redis[k] { assert EntryOk(s, k, s.redis[k]); }
    }
    forall d | d in s'.calls ensures CallOk(s', s'.calls[d]) {
      if d != c { assert CallOk(s, s.calls[d]); }
    }
  }

  lemma ReadKeepsInv(s: State, e: Event)
    requires Inv(s) && Enabled(s, e) && (e.Get? || e.Read?)
    ensures Inv(Apply(s, e))
  {
    QuietKeeps(s, Apply(s, e), e.c);
  }

  lemma StoreKeepsInv(s: State, c: CallId, ok: bool)
    requires Inv(s) && Enabled(s, Store(c, ok))
    ensures Inv(Apply(s, Store(c, ok)))
  {
    assert CallOk(s, s.calls[c]);
    QuietKeeps(s, Apply(s, Store(c, ok)), c);
  }

  lemma CommitKeeps(s: State, s': State, v: Version, c: CallId)
    requires Inv(s) && CommitStep(s, s', v) && Invalidates(s, v.cause) && Follows(s.history + [v], |s.history|)
    requires forall d | d in s'.calls && d != c :: d in s.calls && s'.calls[d] == s.calls[d]
    requires c in s'.calls ==> CallOk(s', s'.calls[c])
    ensures Inv(s')
  {
    CommitKeepsHistory(s, s', v);
    forall k | k in s'.redis ensures EntryOk(s', k, s'.redis[k]) { assert EntryOk(s, k, s.redis[k]); }
    forall d | d in s'.calls ensures CallOk(s', s'.calls[d]) {
      if d != c { assert CallOk(s, s.calls[d]); }
    }
  }

  lemma WriteKeepsInv(s: State, c: CallId, ok: bool)
    requires Inv(s) && Enabled(s, Commit(c, ok))
    ensures Inv(Apply(s, Commit(c, ok)))
  {
    var s' := Apply(s, Commit(c, ok));
    assert CallOk(s, s.calls[c]);
    if |s'.history| == |s.history| {
      QuietKeeps(s, s', c);
    } else {
      CommitKeeps(s, s', Last(s'), c);
    }
  }

  lemma StepKeepsInv(s: State, e: Event)
    requires Inv(s) && Enabled(s, e)
    ensures Inv(Apply(s, e))
  {
    var s' := Apply(s, e);
    match e
    case Start(c, _) => QuietKeeps(s, s', c);
    case Get(c, _) => ReadKeepsInv(s, e);
    case Read(c, _) => ReadKeepsInv(s, e);
    case Store(c, ok) => StoreKeepsInv(s, c, ok);
    case Del(c, _) => QuietKeeps(s, s', c);
    case Commit(c, ok) => WriteKeepsInv(s, c, ok);
    case Put(_, _) => InsertKeepsInv(s, s');
    case Remove(_) => InsertKeepsInv(s, s');
    case Replicate => SameCallsKeepInv(s, s');
    case Tick => SameCallsKeepInv(s, s');
  }

  lemma InsertKeepsInv(s: State, s': State)
    requires Inv(s) && |s'.history| > 0 && CommitStep(s, s', Last(s')) && s'.calls == s.calls
    requires Invalidates(s, Last(s').cause) && Follows(s'.history, |s.history|)
    ensures Inv(s')
  {
    forall c | c in s'.calls ensures CallOk(s', s'.calls[c]) { assert CallOk(s, s.calls[c]); }
    forall k | k in s'.redis ensures EntryOk(s', k, s'.redis[k]) { assert EntryOk(s, k, s.redis[k]); }
    CommitKeepsHistory(s, s', Last(s'));
  }

  lemma SameCallsKeepInv(s: State, s': State)
    requires Inv(s) && QuietStep(s, s') && s'.calls == s.calls && s'.redis == s.redis && s'.replica < |s.history|
    requires forall i | s'.replica < i < |s.history| :: s'.clock <= s.history[i].time + s.lag
    ensures Inv(s')
  {
    forall c | c in s'.calls ensures CallOk(s', s'.calls[c]) { assert CallOk(s, s.calls[c]); }
    forall k | k in s'.redis ensures EntryOk(s', k, s'.redis[k]) { assert EntryOk(s, k, s.redis[k]); }
  }

  lemma {:induction false} RunKeepsInv(run: seq<State>, events: seq<Event>, i: nat)
    requires IsRun(run, events) && i < |run|
    ensures Inv(run[i])
  {
    if i > 0 {
      RunKeepsInv(run, events, i - 1);
      StepKeepsInv(run[i - 1], events[i - 1]);
    }
  }
}
