/** When every read sees its user's own writes: exactly if the shorter time frame covers lag and delay. */
module PrimaryPinTheorems {
  import opened PrimaryPin

  /* ---- Sufficiency ---- */

  /** Commit `i` of user `u` to `x` is either replicated or still covered by the pin. */
  ghost predicate CommitsCovered(cfg: Config, s: State, x: Store) {
    forall i | 0 <= i && s.Of(x).applied <= i < |s.Of(x).commits| ::
      var c := s.Of(x).commits[i];
      c.user in s.pins && c.time + cfg.Of(x).lag <= s.pins[c.user]
  }

  ghost predicate WritesCovered(cfg: Config, s: State, x: Store) {
    forall w | w in s.writers && s.writers[w].store == x ::
      var p := s.writers[w];
      p.user in s.pins && p.pinned <= s.clock && p.pinned + MinFrame(cfg) <= s.pins[p.user]
  }

  /** A replica read's user has nothing hidden among the commits it must see. */
  ghost predicate ReadsCovered(s: State, x: Store) {
    forall r | r in s.readers && s.readers[r].store == x ::
      var rd := s.readers[r];
      && rd.before <= |s.Of(x).commits|
      && (!rd.primary ==> forall j | s.Of(x).applied <= j < rd.before :: s.Of(x).commits[j].user != rd.user)
  }

  ghost predicate Inv(cfg: Config, s: State, x: Store) {
    var l := s.Of(x);
    && l.applied <= |l.commits|
    && (forall i | 0 <= i < |l.commits| :: l.commits[i].time <= s.clock)
    && (forall i | l.applied <= i < |l.commits| :: s.clock < l.commits[i].time + cfg.Of(x).lag)
    && DelayOk(cfg, s, s.clock)
    && CommitsCovered(cfg, s, x) && WritesCovered(cfg, s, x) && ReadsCovered(s, x)
  }

  lemma PinKeepsInv(cfg: Config, s: State, w: nat, u: User, y: Store, x: Store)
    requires cfg.Valid() && FrameCovers(cfg, x) && Inv(cfg, s, x) && Enabled(cfg, s, Pin(w, u, y))
    ensures Inv(cfg, Apply(cfg, s, Pin(w, u, y)), x)
  {
    var s' := Apply(cfg, s, Pin(w, u, y));
    assert s'.Of(x) == s.Of(x);
    assert MinFrame(cfg) <= cfg.Of(y).frame;
  }

  lemma CommitKeepsInv(cfg: Config, s: State, w: nat, x: Store)
    requires cfg.Valid() && FrameCovers(cfg, x) && Inv(cfg, s, x) && Enabled(cfg, s, CommitWrite(w))
    ensures Inv(cfg, Apply(cfg, s, CommitWrite(w)), x)
  {
    var s' := Apply(cfg, s, CommitWrite(w));
    var p := s.writers[w];
    if p.store == x {
      assert s'.Of(x) == s.Of(x).(commits := s.Of(x).commits + [Commit(p.user, s.clock)]);
    } else {
      assert s'.Of(x) == s.Of(x);
    }
  }

  lemma CheckKeepsInv(cfg: Config, s: State, r: nat, u: User, y: Store, redisUp: bool, x: Store)
    requires cfg.Valid() && Inv(cfg, s, x) && Enabled(cfg, s, Check(r, u, y, redisUp))
    ensures Inv(cfg, Apply(cfg, s, Check(r, u, y, redisUp)), x)
  {
    assert Apply(cfg, s, Check(r, u, y, redisUp)).Of(x) == s.Of(x);
  }

  lemma StepKeepsInv(cfg: Config, s: State, e: Event, x: Store)
    requires cfg.Valid() && FrameCovers(cfg, x) && Inv(cfg, s, x) && Enabled(cfg, s, e)
    ensures Inv(cfg, Apply(cfg, s, e), x)
  {
    var s' := Apply(cfg, s, e);
    match e
    case Pin(w, u, y) => PinKeepsInv(cfg, s, w, u, y, x);
    case CommitWrite(w) => CommitKeepsInv(cfg, s, w, x);
    case Check(r, u, y, redisUp) => CheckKeepsInv(cfg, s, r, u, y, redisUp, x);
    case Answer(r, shown) => assert s'.Of(x) == s.Of(x);
    case Replicate(y) => assert y != x ==> s'.Of(x) == s.Of(x);
    case Tick =>
      assert s'.Of(x) == s.Of(x);
      assert LagOk(cfg, s, s.clock + 1);
  }

  lemma {:induction false} RunKeepsInv(cfg: Config, run: seq<State>, events: seq<Event>, i: nat, x: Store)
    requires cfg.Valid() && FrameCovers(cfg, x) && IsRun(cfg, run, events) && i < |run|
    ensures Inv(cfg, run[i], x)
  {
    if i > 0 {
      RunKeepsInv(cfg, run, events, i - 1, x);
      StepKeepsInv(cfg, run[i - 1], events[i - 1], x);
    }
  }

  lemma FrameCoversSuffices(cfg: Config, x: Store)
    requires cfg.Valid() && FrameCovers(cfg, x)
    ensures ReadYourWrites(cfg, x)
  {
    forall run: seq<State>, events: seq<Event>, i: nat |
      IsRun(cfg, run, events) && i < |events| && events[i].Answer? && run[i].readers[events[i].r].store == x
      ensures SeesOwnWrites(run, events, i)
    {
      RunKeepsInv(cfg, run, events, i, x);
    }
  }

  /* ---- Necessity ---- */

  lemma ExtendRun(cfg: Config, run: seq<State>, events: seq<Event>, e: Event)
    returns (run': seq<State>, events': seq<Event>)
    requires IsRun(cfg, run, events) && Enabled(cfg, run[|events|], e)
    ensures IsRun(cfg, run', events') && events' == events + [e]
    ensures run' == run + [Apply(cfg, run[|events|], e)]
  {
    run', events' := run + [Apply(cfg, run[|events|], e)], events + [e];
    forall i | 0 <= i < |events'|
      ensures Enabled(cfg, run'[i], events'[i]) && run'[i + 1] == Apply(cfg, run'[i], events'[i])
    {
      if i < |events| { assert run'[i] == run[i] && run'[i + 1] == run[i + 1] && events'[i] == events[i]; }
    }
  }

  /** Time may pass for as long as neither bound stands in the way. */
  lemma {:induction false} Wait(cfg: Config, run: seq<State>, events: seq<Event>, n: nat)
    returns (run': seq<State>, events': seq<Event>)
    requires IsRun(cfg, run, events)
    requires var s := run[|events|]; n > 0 ==> LagOk(cfg, s, s.clock + n) && DelayOk(cfg, s, s.clock + n)
    ensures IsRun(cfg, run', events')
    ensures var s := run[|events|]; run'[|events'|] == s.(clock := s.clock + n)
    decreases n
  {
    if n == 0 {
      run', events' := run, events;
    } else {
      var s := run[|events|];
      assert LagOk(cfg, s, s.clock + 1);
      run', events' := ExtendRun(cfg, run, events, Tick);
      assert forall z: Store :: run'[|events'|].Of(z) == s.Of(z);
      run', events' := Wait(cfg, run', events', n - 1);
    }
  }

  /** A write to `x` is announced; then a write to the store with the shorter frame cuts the
      pin down, and is itself done and replicated at once. */
  lemma PinCutShort(cfg: Config, x: Store) returns (run: seq<State>, events: seq<Event>)
    requires cfg.Valid()
    ensures IsRun(cfg, run, events)
    ensures var s := run[|events|];
            && s.clock == 0 && s.pins == map["u" := MinFrame(cfg)] && s.readers == map[]
            && s.writers == map[0 := Pending("u", x, 0)]
            && (forall z: Store :: s.Of(z).applied == |s.Of(z).commits|)
  {
    var y: Store := if cfg.db.frame < cfg.fga.frame then Db else Fga;
    run, events := [State(Log([], 0), Log([], 0), map[], map[], map[], 0)], [];
    run, events := ExtendRun(cfg, run, events, Pin(0, "u", x));
    run, events := ExtendRun(cfg, run, events, Pin(1, "u", y));
    run, events := ExtendRun(cfg, run, events, CommitWrite(1));
    run, events := ExtendRun(cfg, run, events, Replicate(y));
  }

  /** The announced write commits as late as it may, and stays hidden. */
  lemma LateCommit(cfg: Config, x: Store) returns (run: seq<State>, events: seq<Event>)
    requires cfg.Valid()
    ensures IsRun(cfg, run, events)
    ensures var s := run[|events|];
            && s.clock == cfg.Of(x).delay && s.pins == map["u" := MinFrame(cfg)] && s.readers == map[]
            && s.writers == map[]
            && s.Of(x).applied < |s.Of(x).commits| && s.Of(x).commits[s.Of(x).applied] == Commit("u", s.clock)
            && s.Of(x).applied + 1 == |s.Of(x).commits|
            && (forall z: Store | z != x :: s.Of(z).applied == |s.Of(z).commits|)
  {
    run, events := PinCutShort(cfg, x);
    var start := run[|events|];
    run, events := Wait(cfg, run, events, cfg.Of(x).delay);
    var before := run[|events|];
    run, events := ExtendRun(cfg, run, events, CommitWrite(0));
    var s := run[|events|];
    assert forall z: Store :: before.Of(z) == start.Of(z);
    assert s.Of(x) == before.Of(x).(commits := before.Of(x).commits + [Commit("u", before.clock)]);
    assert forall z: Store :: z != x ==> s.Of(z) == start.Of(z);
  }

  /** Otherwise the pin can lapse while the commit is still hidden. */
  lemma FrameCoversNeeded(cfg: Config, x: Store)
    requires cfg.Valid() && !FrameCovers(cfg, x)
    ensures !ReadYourWrites(cfg, x)
  {
    var m, delay := MinFrame(cfg), cfg.Of(x).delay;
    var run, events := LateCommit(cfg, x);
    var s := run[|events|];
    run, events := Wait(cfg, run, events, if m > delay then m - delay else 0);
    run, events := ExtendRun(cfg, run, events, Check(0, "u", x, true));
    run, events := ExtendRun(cfg, run, events, Answer(0, s.Of(x).applied));
    var i := |events| - 1;
    assert run[i].readers[0] == Reading("u", x, false, |s.Of(x).commits|);
    assert run[i].Of(x).commits[s.Of(x).applied].user == "u";
    assert !SeesOwnWrites(run, events, i);
  }

  /** Reads of a store see their user's writes in every run exactly if the store's lag and
      pin-to-commit delay fit into the shorter of the two time frames, its own or the other's. */
  lemma ReadYourWritesIffFrameCovers(cfg: Config, x: Store)
    requires cfg.Valid()
    ensures ReadYourWrites(cfg, x) <==> FrameCovers(cfg, x)
  {
    if FrameCovers(cfg, x) {
      FrameCoversSuffices(cfg, x);
    } else {
      FrameCoversNeeded(cfg, x);
    }
  }
}
