/** Two runs of the cache protocol that leave an old row in the cache after an update has finished. */
module UserCacheRuns {
  import opened Wrappers
  import opened UserCache
  import opened UserCacheTheorems

  ghost predicate StepsTo(s: State, e: Event, s': State) {
    |s.history| > 0 && s.replica < |s.history| && Enabled(s, e) && Apply(s, e) == s'
  }

  lemma ExtendRun(run: seq<State>, events: seq<Event>, e: Event, s': State)
    requires IsRun(run, events) && StepsTo(run[|events|], e, s')
    ensures IsRun(run + [s'], events + [e])
  {
    var run', events' := run + [s'], events + [e];
    forall i | 0 <= i < |events'|
      ensures && |run'[i].history| > 0 && run'[i].replica < |run'[i].history|
              && Enabled(run'[i], events'[i]) && run'[i + 1] == Apply(run'[i], events'[i])
    {
      if i < |events| { assert run'[i] == run[i] && run'[i + 1] == run[i + 1] && events'[i] == events[i]; }
    }
  }

  const BEFORE: Table := map["u" := Row("amy", true, "old", 0, 0)]
  const AFTER: Table := map["u" := Row("amy", true, "new", 0, 0)]
  const OLD: PbUser := Convert(Row("amy", true, "old", 0, 0))
  const INVALIDATED: Invalidation := Invalidation(2, 3)
  const WRITER: Call := UpdWrite("u", "amy", "new", INVALIDATED)

  /** Before the update's statement. */
  function Early(lag: nat, calls: map<CallId, Call>, steps: nat): State {
    State(lag, [Version(BEFORE, 0, 0, Initial)], 0, map[], calls, 0, steps)
  }

  /** After it, made by event `at`; the replica still shows the old table. */
  function Late(lag: nat, at: nat, redis: map<Key, Entry>, calls: map<CallId, Call>, steps: nat): State {
    State(lag, [Version(BEFORE, 0, 0, Initial), Version(AFTER, 0, at, Updated("u", INVALIDATED))],
          0, redis, calls, 0, steps)
  }

  /** An update has deleted its keys and is about to write. */
  lemma UpdateInvalidates(lag: nat) returns (run: seq<State>, events: seq<Event>)
    ensures IsRun(run, events) && |events| == 4 && run[0].lag == lag && run[4] == Early(lag, map[0 := WRITER], 4)
  {
    var s0 := Early(lag, map[], 0);
    var s1 := Early(lag, map[0 := UpdRead("u", "new")], 1);
    var s2 := Early(lag, map[0 := UpdDelId("u", "amy", "new")], 2);
    var s3 := Early(lag, map[0 := UpdDelUid("u", "amy", "new", 2)], 3);
    var s4 := Early(lag, map[0 := WRITER], 4);
    assert StepsTo(s0, Start(0, UpdRead("u", "new")), s1);
    assert StepsTo(s1, ReadRow(0, true, Some("u")), s2);
    assert StepsTo(s2, Invalidate(0, true), s3);
    assert StepsTo(s3, Invalidate(0, true), s4);
    events := [Start(0, UpdRead("u", "new")), ReadRow(0, true, Some("u")), Invalidate(0, true), Invalidate(0, true)];
    run := [s0, s1, s2, s3, s4];
  }

  lemma WriteSteps(lag: nat, calls: map<CallId, Call>, steps: nat)
    requires 0 in calls && calls[0] == WRITER
    ensures StepsTo(Early(lag, calls, steps), Write(0, true, Some("u")),
                    Late(lag, steps, map[], calls[0 := Done(Finished)], steps + 1))
  {
    assert BEFORE["u" := BEFORE["u"].(profile := "new", updateTime := 0)] == AFTER;
  }

  /* ---- A race ---- */

  const RACING_READ: Read := Read(1, 6, true, "u", 0, 0)

  /** Between the two halves of the update a reader misses the cache and reads the old row. */
  lemma ReaderReadsInBetween() returns (run: seq<State>, events: seq<Event>)
    ensures IsRun(run, events) && |events| == 7 && run[0].lag == 0
    ensures run[7] == Early(0, map[0 := WRITER, 1 := IdStore(OLD, RACING_READ)], 7)
  {
    run, events := UpdateInvalidates(0);
    var s5 := Early(0, map[0 := WRITER, 1 := IdLookup("amy")], 5);
    ExtendRun(run, events, Start(1, IdLookup("amy")), s5);
    run, events := run + [s5], events + [Start(1, IdLookup("amy"))];
    var s6 := Early(0, map[0 := WRITER, 1 := IdRead("amy")], 6);
    ExtendRun(run, events, Lookup(1, true), s6);
    run, events := run + [s6], events + [Lookup(1, true)];
    var s7 := Early(0, map[0 := WRITER, 1 := IdStore(OLD, RACING_READ)], 7);
    ExtendRun(run, events, ReadRow(1, true, Some("u")), s7);
    run, events := run + [s7], events + [ReadRow(1, true, Some("u"))];
  }

  /** With no lag, no failure and only primary reads, a reader that reads between the two
      halves of an update leaves the old row in the cache after the update has finished. */
  lemma StaleEntryAfterUpdate() returns (run: seq<State>, events: seq<Event>)
    ensures IsRun(run, events) && run[0].lag == 0
    ensures var s := run[|run| - 1];
            && |s.history| > 0
            && s.calls == map[0 := Done(Finished), 1 := Done(Served(OLD))]
            && Live(s, "amy") && s.redis["amy"].read.primary && !Fresh(s, s.redis["amy"])
  {
    run, events := ReaderReadsInBetween();
    WriteSteps(0, map[0 := WRITER, 1 := IdStore(OLD, RACING_READ)], 7);
    var s8 := Late(0, 7, map[], map[0 := Done(Finished), 1 := IdStore(OLD, RACING_READ)], 8);
    ExtendRun(run, events, Write(0, true, Some("u")), s8);
    run, events := run + [s8], events + [Write(0, true, Some("u"))];
    var s9 := Late(0, 7, map["amy" := Entry(OLD, 300, RACING_READ, 0, 8)],
                   map[0 := Done(Finished), 1 := Done(Served(OLD))], 9);
    ExtendRun(run, events, Store(1, true), s9);
    run, events := run + [s9], events + [Store(1, true)];
  }

  /* ---- A lagging replica ---- */

  const REPLICA_READ: Read := Read(1, 7, false, "u", 0, 0)
  const REFILLED: map<Key, Entry> := map["amy" := Entry(OLD, 300, REPLICA_READ, 0, 8)]

  /** After the update has returned, someone else's read, not pinned to the primary, starts and reads the old
      row on the replica. */
  lemma ReplicaShowsOldRow(lag: nat) returns (run: seq<State>, events: seq<Event>)
    ensures IsRun(run, events) && |events| == 8 && run[0].lag == lag && events[5] == Start(1, IdLookup("amy"))
    ensures run[5] == Late(lag, 4, map[], map[0 := Done(Finished)], 5)
    ensures run[8] == Late(lag, 4, map[], map[0 := Done(Finished), 1 := IdStore(OLD, REPLICA_READ)], 8)
  {
    run, events := UpdateInvalidates(lag);
    WriteSteps(lag, map[0 := WRITER], 4);
    var s5 := Late(lag, 4, map[], map[0 := Done(Finished)], 5);
    ExtendRun(run, events, Write(0, true, Some("u")), s5);
    run, events := run + [s5], events + [Write(0, true, Some("u"))];
    var s6 := Late(lag, 4, map[], map[0 := Done(Finished), 1 := IdLookup("amy")], 6);
    ExtendRun(run, events, Start(1, IdLookup("amy")), s6);
    run, events := run + [s6], events + [Start(1, IdLookup("amy"))];
    var s7 := Late(lag, 4, map[], map[0 := Done(Finished), 1 := IdRead("amy")], 7);
    ExtendRun(run, events, Lookup(1, true), s7);
    run, events := run + [s7], events + [Lookup(1, true)];
    var s8 := Late(lag, 4, map[], map[0 := Done(Finished), 1 := IdStore(OLD, REPLICA_READ)], 8);
    ExtendRun(run, events, ReadRow(1, false, Some("u")), s8);
    run, events := run + [s8], events + [ReadRow(1, false, Some("u"))];
  }

  /** It stores that row, and the writer, though pinned, is then answered with it: a cache hit asks no
      database. */
  lemma OldRowServedToWriter(lag: nat) returns (run: seq<State>, events: seq<Event>)
    ensures IsRun(run, events) && |events| == 11 && run[0].lag == lag
    ensures run[5] == Late(lag, 4, map[], map[0 := Done(Finished)], 5) && events[9] == Start(2, IdLookup("amy"))
    ensures 2 in run[11].calls && run[11].calls[2] == Done(Served(OLD))
  {
    run, events := ReplicaShowsOldRow(lag);
    var s9 := Late(lag, 4, REFILLED, map[0 := Done(Finished), 1 := Done(Served(OLD))], 9);
    ExtendRun(run, events, Store(1, true), s9);
    run, events := run + [s9], events + [Store(1, true)];
    var s10 := Late(lag, 4, REFILLED, map[0 := Done(Finished), 1 := Done(Served(OLD)), 2 := IdLookup("amy")], 10);
    ExtendRun(run, events, Start(2, IdLookup("amy")), s10);
    run, events := run + [s10], events + [Start(2, IdLookup("amy"))];
    var s11 := Late(lag, 4, REFILLED, map[0 := Done(Finished), 1 := Done(Served(OLD)), 2 := Done(Served(OLD))], 11);
    ExtendRun(run, events, Lookup(2, true), s11);
    run, events := run + [s11], events + [Lookup(2, true)];
  }
}
