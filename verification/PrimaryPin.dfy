/**
 Read-your-writes through the pin key `db_pin_user:<user>`.

 Two stores, the SQL database and OpenFGA, each have a primary and a lagging replica.
 A write to either first sets the user's pin key with that store's own replication time
 frame, then commits on the primary.  A read checks the key and goes to the primary if
 the key is there, or if Redis cannot say; otherwise it goes to the replica.  Both stores
 share one key, so a write to one overwrites the expiry the other asked for.
*/
module PrimaryPin {
  type User = string

  datatype Store = Db | Fga

  /** Per store: the pin's time to live, the longest time from setting the pin to the
      commit, and the bound on replication lag.  All in the same unit. */
  datatype Timing = Timing(frame: nat, delay: nat, lag: nat)

  datatype Config = Config(db: Timing, fga: Timing) {
    function Of(x: Store): Timing {
      match x case Db => db case Fga => fga
    }
    /** Neither time frame is zero (Redis reads that as no expiry); replicas do lag. */
    predicate Valid() {
      db.frame > 0 && fga.frame > 0 && db.lag > 0 && fga.lag > 0
    }
  }

  datatype Commit = Commit(user: User, time: nat)

  /** A primary's commits in order, and how many of them the replica shows. */
  datatype Log = Log(commits: seq<Commit>, applied: nat)

  datatype Pending = Pending(user: User, store: Store, pinned: nat)

  /** A read that has chosen its server.  `before` is the number of commits at that time. */
  datatype Reading = Reading(user: User, store: Store, primary: bool, before: nat)

  datatype State = State(
    db: Log, fga: Log,
    pins: map<User, nat>,          // key to expiry
    writers: map<nat, Pending>,
    readers: map<nat, Reading>,
    clock: nat)
  {
    function Of(x: Store): Log {
      match x case Db => db case Fga => fga
    }
    function With(x: Store, l: Log): (s: State)
      ensures s.Of(x) == l && forall y | y != x :: s.Of(y) == Of(y)
    {
      match x case Db => this.(db := l) case Fga => this.(fga := l)
    }
  }

  datatype Event =
    | Pin(w: nat, user: User, store: Store)
    | CommitWrite(w: nat)
    | Check(r: nat, user: User, store: Store, redisUp: bool)
    | Answer(r: nat, shown: nat)
    | Replicate(store: Store)
    | Tick

  predicate Pinned(s: State, u: User) {
    u in s.pins && s.clock < s.pins[u]
  }

  /** Hidden commits stay hidden for less than the lag. */
  predicate LagOk(cfg: Config, s: State, now: nat) {
    forall x: Store, i | 0 <= i && s.Of(x).applied <= i < |s.Of(x).commits| ::
      now < s.Of(x).commits[i].time + cfg.Of(x).lag
  }

  /** Announced writes commit within their delay. */
  predicate DelayOk(cfg: Config, s: State, now: nat) {
    forall w | w in s.writers :: now <= s.writers[w].pinned + cfg.Of(s.writers[w].store).delay
  }

  predicate Enabled(cfg: Config, s: State, e: Event) {
    match e
    case Pin(w, _, _) => w !in s.writers
    case CommitWrite(w) => w in s.writers
    case Check(r, _, _, _) => r !in s.readers
    // a read of the primary shows all commits, a read of the replica the applied ones
    case Answer(r, shown) =>
      r in s.readers
      && var l := s.Of(s.readers[r].store);
      shown == if s.readers[r].primary then |l.commits| else l.applied
    case Replicate(x) => s.Of(x).applied < |s.Of(x).commits|
    case Tick => LagOk(cfg, s, s.clock + 1) && DelayOk(cfg, s, s.clock + 1)
  }

  function Apply(cfg: Config, s: State, e: Event): State
    requires Enabled(cfg, s, e)
  {
    match e
    case Pin(w, u, x) =>
      s.(pins := s.pins[u := s.clock + cfg.Of(x).frame], writers := s.writers[w := Pending(u, x, s.clock)])
    case CommitWrite(w) =>
      var p := s.writers[w];
      var l := s.Of(p.store);
      s.With(p.store, l.(commits := l.commits + [Commit(p.user, s.clock)])).(writers := s.writers - {w})
    case Check(r, u, x, redisUp) =>
      s.(readers := s.readers[r := Reading(u, x, !redisUp || Pinned(s, u), |s.Of(x).commits|)])
    case Answer(r, _) => s.(readers := s.readers - {r})
    case Replicate(x) => s.With(x, s.Of(x).(applied := s.Of(x).applied + 1))
    case Tick => s.(clock := s.clock + 1)
  }

  predicate Init(s: State) {
    s.db == Log([], 0) && s.fga == Log([], 0) && s.pins == map[] && s.writers == map[] && s.readers == map[]
  }

  predicate IsRun(cfg: Config, run: seq<State>, events: seq<Event>) {
    && |run| == |events| + 1 && Init(run[0])
    && forall i | 0 <= i < |events| :: Enabled(cfg, run[i], events[i]) && run[i + 1] == Apply(cfg, run[i], events[i])
  }

  /** The answer at event `i` shows every commit its user made to that store before the
      read chose its server. */
  predicate SeesOwnWrites(run: seq<State>, events: seq<Event>, i: nat)
    requires i < |events| < |run| && events[i].Answer? && events[i].r in run[i].readers
  {
    var rd := run[i].readers[events[i].r];
    forall j | events[i].shown <= j < rd.before && j < |run[i].Of(rd.store).commits| ::
      run[i].Of(rd.store).commits[j].user != rd.user
  }

  /** Read-your-writes on store `x`, over every run. */
  ghost predicate ReadYourWrites(cfg: Config, x: Store) {
    forall run: seq<State>, events: seq<Event>, i: nat |
      IsRun(cfg, run, events) && i < |events| && events[i].Answer? && run[i].readers[events[i].r].store == x ::
      SeesOwnWrites(run, events, i)
  }

  function MinFrame(cfg: Config): (m: nat)
    ensures m <= cfg.db.frame && m <= cfg.fga.frame && (m == cfg.db.frame || m == cfg.fga.frame)
  {
    if cfg.db.frame < cfg.fga.frame then cfg.db.frame else cfg.fga.frame
  }

  /** Lag plus delay fit into the shorter of the two time frames. */
  predicate FrameCovers(cfg: Config, x: Store) {
    cfg.Of(x).lag + cfg.Of(x).delay <= MinFrame(cfg)
  }
}
