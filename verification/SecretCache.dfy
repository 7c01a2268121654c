/**
 Access tokens and password hashes behind their Redis entries, as a protocol.

 ValidateToken and CheckUserPassword look a key up, read the database on a miss and store what they read;
 CreateToken stores what it has just inserted.  DeleteToken and UpdateUserPassword delete the key and then
 write.  These calls are split into Redis and database effects that interleave freely; unlike for user
 entries, every Redis failure is ignored.  A key is an access token or a user's UID, a value the owner's UID
 or the stored hash; the empty value stands for the nil UID and the empty hash, which are read through.
*/
module SecretCache {
  import opened Wrappers

  type Key = string
  type Val = string
  type CallId = nat
  type Table = map<Key, Val>

  const TTL: nat := 300
  const BLANK: Val := ""

  /** `deletedAt` is the event at which the writer deleted the key; None if that failed or was not tried. */
  datatype Cause = Initial | Added(k: Key) | Changed(k: Key, deletedAt: Option<nat>)

  datatype Version = Version(table: Table, time: nat, at: nat, cause: Cause)

  /** The database access a cached value goes back to: a read, or the caller's own insertion. */
  datatype Source = Source(caller: CallId, at: nat, version: nat, time: nat)

  /** `source`, `storeTime` and `storedAt` record where the entry came from; no event consults them. */
  datatype Entry = Entry(value: Val, expiry: nat, source: Source, storeTime: nat, storedAt: nat)

  datatype Reply = Accepted(v: Val) | Refused | Finished

  datatype Call =
    | Lookup(k: Key)
    | ReadDb(k: Key)
    | Fill(k: Key, v: Val, source: Source, reply: Reply)
    | DeleteKey(k: Key, next: Option<Val>)
    | WriteRow(k: Key, next: Option<Val>, deletedAt: Option<nat>)
    | InsertRow(k: Key, v: Val)
    | Done(reply: Reply)

  datatype State = State(
    lag: nat, history: seq<Version>, replica: nat, redis: map<Key, Entry>, calls: map<CallId, Call>,
    clock: nat, steps: nat)

  datatype Event =
    | Start(c: CallId, call: Call)
    | Get(c: CallId, ok: bool)
    | Read(c: CallId, primary: bool)
    | Store(c: CallId, ok: bool)
    | Del(c: CallId, ok: bool)
    | Commit(c: CallId, ok: bool)
    | Put(k: Key, v: Val)          // a row inserted without caching it: a new user's hash
    | Remove(k: Key)               // a row removed without deleting its key: a deleted user's hash
    | Replicate
    | Tick

  function Last(s: State): (v: Version)
    requires |s.history| > 0
  {
    s.history[|s.history| - 1]
  }

  predicate Live(s: State, k: Key) {
    k in s.redis && s.clock < s.redis[k].expiry
  }

  predicate NeverUsed(s: State, k: Key) {
    forall i | 0 <= i < |s.history| :: k !in s.history[i].table
  }

  function ReadVersion(s: State, primary: bool): nat
    requires |s.history| > 0
  {
    if primary then |s.history| - 1 else s.replica
  }

  predicate InState(s: State, c: CallId, e: Event) {
    && c in s.calls
    && match e
       case Get(_, _) => s.calls[c].Lookup?
       case Read(_, _) => s.calls[c].ReadDb?
       case Store(_, _) => s.calls[c].Fill?
       case Del(_, _) => s.calls[c].DeleteKey?
       case Commit(_, _) => s.calls[c].WriteRow? || s.calls[c].InsertRow?
       case _ => false
  }

  predicate Enabled(s: State, e: Event)
    requires |s.history| > 0 && s.replica < |s.history|
  {
    match e
    case Start(c, call) => c !in s.calls && (call.Lookup? || call.DeleteKey? || call.InsertRow?)
    case Get(c, _) => InState(s, c, e)
    case Read(c, _) => InState(s, c, e)
    case Store(c, _) => InState(s, c, e)
    case Del(c, _) => InState(s, c, e)
    // access tokens are random and UIDs fresh
    case Commit(c, ok) => InState(s, c, e) && (ok && s.calls[c].InsertRow? ==> NeverUsed(s, s.calls[c].k))
    case Put(k, _) => NeverUsed(s, k)
    case Remove(k) => k in Last(s).table
    case Replicate => s.replica + 1 < |s.history|
    case Tick => forall i | s.replica < i < |s.history| :: s.clock + 1 <= s.history[i].time + s.lag
  }

  function Go(s: State, c: CallId, call: Call): State {
    s.(calls := s.calls[c := call], steps := s.steps + 1)
  }

  function Append(s: State, t: Table, cause: Cause): State {
    s.(history := s.history + [Version(t, s.clock, s.steps, cause)])
  }

  function ReplyWith(v: Val): Reply { if v == BLANK then Refused else Accepted(v) }

  function ApplyCommit(s: State, c: CallId, ok: bool): State
    requires |s.history| > 0 && c in s.calls && (s.calls[c].WriteRow? || s.calls[c].InsertRow?)
  {
    var t := Last(s).table;
    match s.calls[c]
    case WriteRow(k, next, deletedAt) =>
      if !ok || k !in t then Go(s, c, Done(Finished))
      else Go(Append(s, if next.Some? then t[k := next.value] else t - {k}, Changed(k, deletedAt)), c, Done(Finished))
    case InsertRow(k, v) =>
      if !ok then Go(s, c, Done(Refused))
      else Go(Append(s, t[k := v], Added(k)), c, Fill(k, v, Source(c, s.steps, |s.history|, s.clock), Finished))
  }

  function Apply(s: State, e: Event): State
    requires |s.history| > 0 && s.replica < |s.history| && Enabled(s, e)
  {
    match e
    case Start(c, call) => Go(s, c, call)
    case Get(c, ok) =>
      var k := s.calls[c].k;
      Go(s, c, if ok && Live(s, k) && s.redis[k].value != BLANK then Done(Accepted(s.redis[k].value)) else ReadDb(k))
    case Read(c, primary) =>
      var k, v := s.calls[c].k, ReadVersion(s, primary);
      var t := s.history[v].table;
      Go(s, c, if k in t then Fill(k, t[k], Source(c, s.steps, v, s.clock), ReplyWith(t[k])) else Done(Refused))
    case Store(c, ok) =>
      var f := s.calls[c];
      var s' := if ok then s.(redis := s.redis[f.k := Entry(f.v, s.clock + TTL, f.source, s.clock, s.steps)]) else s;
      Go(s', c, Done(f.reply))
    case Del(c, ok) =>
      var w := s.calls[c];
      if ok then Go(s.(redis := s.redis - {w.k}), c, WriteRow(w.k, w.next, Some(s.steps)))
      else Go(s, c, WriteRow(w.k, w.next, None))
    case Commit(c, ok) => ApplyCommit(s, c, ok)
    case Put(k, v) => Append(s, Last(s).table[k := v], Added(k)).(steps := s.steps + 1)
    case Remove(k) => Append(s, Last(s).table - {k}, Changed(k, None)).(steps := s.steps + 1)
    case Replicate => s.(replica := s.replica + 1, steps := s.steps + 1)
    case Tick => s.(clock := s.clock + 1, steps := s.steps + 1)
  }

  predicate Init(s: State) {
    && |s.history| == 1 && s.replica == 0 && s.history[0].cause == Initial && s.history[0].time <= s.clock
    && s.redis == map[] && s.calls == map[] && s.steps == 0
  }

  predicate IsRun(run: seq<State>, events: seq<Event>) {
    && |run| == |events| + 1 && Init(run[0])
    && forall i | 0 <= i < |events| ::
         && |run[i].history| > 0 && run[i].replica < |run[i].history|
         && Enabled(run[i], events[i]) && run[i + 1] == Apply(run[i], events[i])
  }
}
