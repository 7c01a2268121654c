/** What the writers of the cache protocol do to the primary, in every run, and what later reads see of it. */
module UserCacheWrites {
  import opened Wrappers
  import opened UserCache
  import opened UserCacheInvariant
  import opened UserCacheTheorems

  /** The rows of the primary. */
  function Rows(s: State): Table
    requires |s.history| > 0
  {
    s.history[|s.history| - 1].table
  }

  /** Row `u` went, and nothing else happened. */
  ghost predicate RowGone(t: Table, t': Table, u: Uid) {
    && u in t && u !in t'
    && forall x | x != u :: (x in t <==> x in t') && (x in t ==> t'[x] == t[x])
  }

  /** Row `u` has the profile and the time of the write, its other columns stayed, and so did other rows. */
  ghost predicate RowUpdated(t: Table, t': Table, u: Uid, profile: string, now: nat) {
    && u in t && u in t'
    && t'[u].profile == profile && t'[u].updateTime == now
    && t'[u].id == t[u].id && t'[u].isUser == t[u].isUser && t'[u].createTime == t[u].createTime
    && forall x | x != u :: (x in t <==> x in t') && (x in t ==> t'[x] == t[x])
  }

  /** A statement that finds its row has done its work when the call has finished; any other changes nothing. */
  lemma WriteTakesEffect(run: seq<State>, events: seq<Event>, i: nat, c: CallId, ok: bool, target: Option<Uid>)
    requires IsRun(run, events) && i < |events| && events[i] == Write(c, ok, target)
    ensures c in run[i].calls && c in run[i + 1].calls && |run[i].history| > 0 && |run[i + 1].history| > 0
    ensures run[i].calls[c].UpdWrite? || run[i].calls[c].DelWrite?
    ensures ok && target.Some? && run[i].calls[c].DelWrite? ==>
              RowGone(Rows(run[i]), Rows(run[i + 1]), target.value) && run[i + 1].calls[c] == Done(Finished)
    ensures ok && target.Some? && run[i].calls[c].UpdWrite? ==>
              && RowUpdated(Rows(run[i]), Rows(run[i + 1]), target.value, run[i].calls[c].profile, run[i].clock)
              && run[i + 1].calls[c] == Done(Finished)
    ensures !ok || target.None? ==>
              && Rows(run[i + 1]) == Rows(run[i])
              && run[i + 1].calls[c] == Done(if ok && run[i].calls[c].UpdWrite? then Finished else Failed)
    ensures target.Some? ==>
              && target.value in Rows(run[i])
              && Rows(run[i])[target.value].id == run[i].calls[c].id && Rows(run[i])[target.value].isUser
  {}

  /** No other event of a read or a writer touches the rows. */
  lemma OnlyWritesChangeRows(run: seq<State>, events: seq<Event>, i: nat)
    requires IsRun(run, events) && i < |events|
    requires !events[i].Write? && !events[i].Insert? && !events[i].Touch?
    ensures run[i + 1].history == run[i].history
  {}

  /** A new row comes under a uid that no version had; a password update moves only the row's update time. */
  lemma OtherWritersTakeEffect(run: seq<State>, events: seq<Event>, i: nat, uid: Uid, row: Row)
    requires IsRun(run, events) && i < |events|
    ensures |run[i].history| > 0 && |run[i + 1].history| > 0
    ensures events[i] == Insert(uid, row) ==>
              && uid !in Rows(run[i]) && Rows(run[i + 1]) == Rows(run[i])[uid := row]
              && forall v | 0 <= v < |run[i].history| :: uid !in run[i].history[v].table
    ensures events[i] == Touch(uid) ==>
              && uid in Rows(run[i])
              && RowUpdated(Rows(run[i]), Rows(run[i + 1]), uid, Rows(run[i])[uid].profile, run[i].clock)
  {
    if events[i] == Insert(uid, row) { assert uid !in run[i].history[|run[i].history| - 1].table; }
  }

  /* ---- After a deletion ---- */

  /** A deletion by a call about `id` that found row `u`, at event `i`. */
  predicate Deletes(run: seq<State>, events: seq<Event>, i: nat, c: CallId, u: Uid, id: string) {
    && i < |events| && i < |run| && events[i] == Write(c, true, Some(u))
    && c in run[i].calls && run[i].calls[c].DelWrite? && run[i].calls[c].id == id
  }

  /** No version from the n-th on has the row, nor another one under its id. */
  lemma {:induction false} GoneFrom(s: State, u: Uid, id: string, v: nat, n: nat, j: nat)
    requires HistoryOk(s) && UidsAreNew(s.history) && v < n <= j < |s.history|
    requires u in s.history[v].table && s.history[v].table[u].id == id && u !in s.history[n].table
    ensures u !in s.history[j].table
    ensures forall x | x in s.history[j].table :: s.history[j].table[x].id != id
    decreases j
  {
    if j > n {
      GoneFrom(s, u, id, v, n, j - 1);
      assert Follows(s.history[j - 1].table, s.history[j]);
    }
  }

  lemma DeletionCommits(run: seq<State>, events: seq<Event>, i: nat, c: CallId, u: Uid, id: string)
    requires IsRun(run, events) && Deletes(run, events, i, c, u, id)
    ensures |run[i].history| > 0
    ensures var h, n := run[i + 1].history, |run[i].history|;
            && |h| == n + 1 && h[..n] == run[i].history
            && u in h[n - 1].table && h[n - 1].table[u].id == id && u !in h[n].table
            && h[n].time == run[i].clock && h[n].at == i
  {
    RunIsTraced(run, events, i);
  }

  /** After a deletion the primary has neither the row nor another one under its id, ever again. */
  lemma DeletedStaysAway(run: seq<State>, events: seq<Event>, i: nat, c: CallId, u: Uid, id: string, j: nat, v: nat)
    requires IsRun(run, events) && Deletes(run, events, i, c, u, id) && i < j < |run|
    requires |run[i].history| <= v < |run[j].history|
    ensures u !in run[j].history[v].table
    ensures forall x | x in run[j].history[v].table :: run[j].history[v].table[x].id != id
  {
    DeletionCommits(run, events, i, c, u, id);
    HistoryGrows(run, events, i + 1, j);
    RunKeepsInv(run, events, j);
    RunKeepsUidsNew(run, events, j);
    var n := |run[i].history|;
    assert run[j].history[n] == run[i + 1].history[n] && run[j].history[n - 1] == run[i + 1].history[n - 1];
    GoneFrom(run[j], u, id, n - 1, n, v);
  }

  /** So every later read of the primary by that id finds nothing, and no such read finds the row. */
  lemma ReadAfterDeletion(run: seq<State>, events: seq<Event>, i: nat, c: CallId, u: Uid, id: string,
      j: nat, d: CallId, found: Option<Uid>)
    requires IsRun(run, events) && Deletes(run, events, i, c, u, id) && i < j < |events|
    requires events[j] == ReadRow(d, true, found)
    ensures found != Some(u) && d in run[j].calls && d in run[j + 1].calls
    ensures run[j].calls[d] == IdRead(id) || run[j].calls[d] == DelRead(id) ==>
              found == None && run[j + 1].calls[d] == Done(NotFound)
  {
    DeletionCommits(run, events, i, c, u, id);
    HistoryGrows(run, events, i + 1, j);
    DeletedStaysAway(run, events, i, c, u, id, j, |run[j].history| - 1);
  }

  /** A read that found the row missed the deletion. */
  lemma ReadMissedDeletion(run: seq<State>, events: seq<Event>, i: nat, c: CallId, u: Uid, id: string,
      k: nat, read: Read, pb: PbUser)
    requires IsRun(run, events) && Deletes(run, events, i, c, u, id) && i < k < |run|
    requires ReadOk(run[k], read, pb) && read.uid == u
    ensures (read.primary ==> read.at < i) && read.time <= run[i].clock + run[k].lag
  {
    DeletionCommits(run, events, i, c, u, id);
    HistoryGrows(run, events, i + 1, k);
    var n, h := |run[i].history|, run[k].history;
    assert h[n] == run[i + 1].history[n];
    if read.version >= n {
      DeletedStaysAway(run, events, i, c, u, id, k, read.version);
      assert false;
    }
  }

  /** A user who is still answered with comes from a read before the deletion or from the replica, and only for
      five minutes, plus that read's way to the cache, plus the lag. */
  lemma DeletionTakesHold(run: seq<State>, events: seq<Event>, i: nat, c: CallId, u: Uid, id: string,
      k: nat, d: CallId, pb: PbUser)
    returns (read: Read, storeTime: nat)
    requires IsRun(run, events) && Deletes(run, events, i, c, u, id) && i < k < |events|
    requires Answers(run[k], run[k + 1], d, pb)
    ensures RestsOn(run, events, k, d, read, storeTime) && ReadOk(run[k], read, pb) && read.time <= storeTime
    ensures read.uid == u ==>
              && (!read.primary || read.at < i)
              && run[k].clock < run[i].clock + USER_TTL + (storeTime - read.time) + run[k].lag
  {
    read, storeTime := AnswerIsRecent(run, events, k, d, pb);
    if read.uid == u { ReadMissedDeletion(run, events, i, c, u, id, k, read, pb); }
  }
}
