/**
 The cached user reads and the two writers that invalidate them, as a protocol.

 Every call of pkg/service/service.go that touches a `user:` key is split into its
 Redis and database effects; each effect is one event, and events of different calls
 interleave freely.  The primary is a history of tables, the replica a position in
 that history, Redis a map of keys with expiry.  Redis commands may fail.

 Redis keys are written without their `user:` prefix, so an ID and a UID share the
 key space exactly as they do in Redis.
*/
module UserCache {
  import opened Wrappers

  type Uid = string
  type Key = string
  type CallId = nat

  /** Five minutes, in seconds (pkg/service/cache.go). */
  const USER_TTL: nat := 300

  /** An owner row.  `profile` stands for the fields an update replaces. */
  datatype Row = Row(id: string, isUser: bool, profile: string, createTime: nat, updateTime: nat)

  /** The cached projection of a row. */
  datatype PbUser = PbUser(name: string, id: string, profile: string, createTime: nat, updateTime: nat)

  function Convert(row: Row): PbUser {
    PbUser("users/" + row.id, row.id, row.profile, row.createTime, row.updateTime)
  }

  type Table = map<Uid, Row>

  /** The event numbers at which a writer deleted the two keys of its user. */
  datatype Invalidation = Invalidation(idAt: nat, uidAt: nat)

  datatype Cause =
    | Initial
    | Created(uid: Uid)
    | Touched(uid: Uid)                      // a password update: only update_time moves
    | Updated(uid: Uid, inv: Invalidation)
    | Deleted(uid: Uid, inv: Invalidation)

  /** A committed table: when it was committed, by which event, and why. */
  datatype Version = Version(table: Table, time: nat, at: nat, cause: Cause)

  /** A database read that found a row: the call, the event, whether it went to the
      primary, the row's UID, the version it saw and the time. */
  datatype Read = Read(caller: CallId, at: nat, primary: bool, uid: Uid, version: nat, time: nat)

  /** A Redis entry.  `read`, `storeTime` and `storedAt` record where the entry came
      from; no event consults them. */
  datatype Entry = Entry(value: PbUser, expiry: nat, read: Read, storeTime: nat, storedAt: nat)

  datatype Reply = Served(user: PbUser) | NotFound | Failed | Finished

  /** Program counters of the calls in flight. */
  datatype Call =
    | IdLookup(id: string)
    | IdRead(id: string)
    | IdStore(pb: PbUser, read: Read)
    | UidLookup(uid: Uid, me: bool)
    | UidRead(uid: Uid, me: bool)
    | UidStoreId(uid: Uid, me: bool, pb: PbUser, read: Read)
    | UidStoreUid(uid: Uid, me: bool, pb: PbUser, read: Read)
    | UpdRead(uid: Uid, profile: string)
    | UpdDelId(uid: Uid, id: string, profile: string)
    | UpdDelUid(uid: Uid, id: string, profile: string, idAt: nat)
    | UpdWrite(uid: Uid, id: string, profile: string, inv: Invalidation)
    | DelRead(id: string)
    | DelDelId(uid: Uid, id: string)
    | DelDelUid(uid: Uid, id: string, idAt: nat)
    | DelWrite(uid: Uid, id: string, inv: Invalidation)
    | Done(reply: Reply)

  datatype State = State(
    lag: nat,                    // bound on replication lag
    history: seq<Version>,       // the primary's committed tables, oldest first
    replica: nat,                // the version the replica shows
    redis: map<Key, Entry>,
    calls: map<CallId, Call>,
    clock: nat,
    steps: nat)                  // events so far

  datatype Event =
    | Start(c: CallId, call: Call)
    | Lookup(c: CallId, ok: bool)
    | ReadRow(c: CallId, primary: bool, found: Option<Uid>)
    | Store(c: CallId, ok: bool)
    | Invalidate(c: CallId, ok: bool)
    | Write(c: CallId, ok: bool, target: Option<Uid>)
    | Insert(uid: Uid, row: Row)
    | Touch(uid: Uid)
    | Replicate
    | Tick

  function Last(s: State): (v: Version)
    requires |s.history| > 0
  {
    s.history[|s.history| - 1]
  }

  predicate Live(s: State, k: Key) {
    k in s.redis && s.clock < s.redis[k].expiry
  }

  /** `found` is the outcome of selecting the user row with this ID. */
  predicate SelectsById(t: Table, id: string, found: Option<Uid>) {
    match found
    case Some(u) => u in t && t[u].id == id && t[u].isUser
    case None => forall u | u in t :: !(t[u].id == id && t[u].isUser)
  }

  /** `found` is the outcome of selecting the user row with this UID. */
  predicate SelectsByUid(t: Table, uid: Uid, found: Option<Uid>) {
    if uid in t && t[uid].isUser then found == Some(uid) else found == None
  }

  function ReadVersion(s: State, primary: bool): nat
    requires |s.history| > 0
  {
    if primary then |s.history| - 1 else s.replica
  }

  predicate InitialCall(call: Call) {
    call.IdLookup? || call.UidLookup? || call.UpdRead? || call.DelRead?
  }

  predicate Enabled(s: State, e: Event)
    requires |s.history| > 0 && s.replica < |s.history|
  {
    match e
    case Start(c, call) => c !in s.calls && InitialCall(call)
    case Lookup(c, _) => c in s.calls && (s.calls[c].IdLookup? || s.calls[c].UidLookup?)
    case ReadRow(c, primary, found) =>
      var t := s.history[ReadVersion(s, primary)].table;
      && c in s.calls
      && (match s.calls[c]
          case IdRead(id) => SelectsById(t, id, found)
          case DelRead(id) => SelectsById(t, id, found)
          case UidRead(uid, _) => SelectsByUid(t, uid, found)
          case UpdRead(uid, _) => SelectsByUid(t, uid, found)
          case _ => false)
    case Store(c, _) =>
      c in s.calls && (s.calls[c].IdStore? || s.calls[c].UidStoreId? || s.calls[c].UidStoreUid?)
    case Invalidate(c, _) =>
      c in s.calls && (s.calls[c].UpdDelId? || s.calls[c].UpdDelUid? || s.calls[c].DelDelId? || s.calls[c].DelDelUid?)
    case Write(c, _, target) =>
      c in s.calls && (s.calls[c].UpdWrite? || s.calls[c].DelWrite?)
      && SelectsById(Last(s).table, s.calls[c].id, target)
    // UUIDs are fresh, and IDs are derived from them
    case Insert(uid, row) =>
      forall i | 0 <= i < |s.history| :: uid !in s.history[i].table && FreshId(s.history[i].table, row.id)
    case Touch(uid) => uid in Last(s).table
    case Replicate => s.replica + 1 < |s.history|
    // the lag bound is a promise of the environment: time does not pass a commit it still hides
    case Tick => forall i | s.replica < i < |s.history| :: s.clock + 1 <= s.history[i].time + s.lag
  }

  predicate FreshId(t: Table, id: string) {
    forall u | u in t :: t[u].id != id
  }

  function Put(s: State, c: CallId, call: Call): State {
    s.(calls := s.calls[c := call], steps := s.steps + 1)
  }

  function SetKey(s: State, k: Key, pb: PbUser, read: Read): State {
    s.(redis := s.redis[k := Entry(pb, s.clock + USER_TTL, read, s.clock, s.steps)])
  }

  function DelKey(s: State, k: Key): State {
    s.(redis := s.redis - {k})
  }

  function Commit(s: State, t: Table, cause: Cause): State {
    s.(history := s.history + [Version(t, s.clock, s.steps, cause)])
  }

  /** A lookup by UID either answers its caller or resolves the alias `me` into an ID. */
  function AfterUid(me: bool, pb: PbUser): Call {
    if me then IdLookup(pb.id) else Done(Served(pb))
  }

  function ApplyLookup(s: State, c: CallId, ok: bool): State
    requires c in s.calls && (s.calls[c].IdLookup? || s.calls[c].UidLookup?)
  {
    match s.calls[c]
    case IdLookup(id) =>
      Put(s, c, if ok && Live(s, id) then Done(Served(s.redis[id].value)) else IdRead(id))
    case UidLookup(uid, me) =>
      Put(s, c, if ok && Live(s, uid) then AfterUid(me, s.redis[uid].value) else UidRead(uid, me))
  }

  function ApplyRead(s: State, c: CallId, primary: bool, found: Option<Uid>): State
    requires |s.history| > 0 && s.replica < |s.history|
    requires Enabled(s, ReadRow(c, primary, found))
  {
    var v := ReadVersion(s, primary);
    match found
    case None => Put(s, c, Done(NotFound))
    case Some(u) =>
      var row := s.history[v].table[u];
      var read := Read(c, s.steps, primary, u, v, s.clock);
      match s.calls[c]
      case IdRead(_) => Put(s, c, IdStore(Convert(row), read))
      case UidRead(uid, me) => Put(s, c, UidStoreId(uid, me, Convert(row), read))
      case UpdRead(uid, profile) => Put(s, c, UpdDelId(uid, row.id, profile))
      case DelRead(id) => Put(s, c, DelDelId(u, id))
  }

  function ApplyStore(s: State, c: CallId, ok: bool): State
    requires c in s.calls && (s.calls[c].IdStore? || s.calls[c].UidStoreId? || s.calls[c].UidStoreUid?)
  {
    if !ok then Put(s, c, Done(Failed)) else
    match s.calls[c]
    case IdStore(pb, read) => Put(SetKey(s, pb.id, pb, read), c, Done(Served(pb)))
    case UidStoreId(uid, me, pb, read) => Put(SetKey(s, pb.id, pb, read), c, UidStoreUid(uid, me, pb, read))
    case UidStoreUid(uid, me, pb, read) => Put(SetKey(s, uid, pb, read), c, AfterUid(me, pb))
  }

  function ApplyInvalidate(s: State, c: CallId, ok: bool): State
    requires c in s.calls
    requires s.calls[c].UpdDelId? || s.calls[c].UpdDelUid? || s.calls[c].DelDelId? || s.calls[c].DelDelUid?
  {
    if !ok then Put(s, c, Done(Failed)) else
    match s.calls[c]
    case UpdDelId(uid, id, profile) => Put(DelKey(s, id), c, UpdDelUid(uid, id, profile, s.steps))
    case UpdDelUid(uid, id, profile, idAt) =>
      Put(DelKey(s, uid), c, UpdWrite(uid, id, profile, Invalidation(idAt, s.steps)))
    case DelDelId(uid, id) => Put(DelKey(s, id), c, DelDelUid(uid, id, s.steps))
    case DelDelUid(uid, id, idAt) => Put(DelKey(s, uid), c, DelWrite(uid, id, Invalidation(idAt, s.steps)))
  }

  /** Both statements select by ID; `ok == false` is a failing statement, such as a
      violated unique constraint. */
  function ApplyWrite(s: State, c: CallId, ok: bool, target: Option<Uid>): State
    requires |s.history| > 0 && s.replica < |s.history|
    requires Enabled(s, Write(c, ok, target))
  {
    var t := Last(s).table;
    if !ok then Put(s, c, Done(Failed)) else
    match s.calls[c]
    case UpdWrite(_, _, profile, inv) =>
      (match target
       case None => Put(s, c, Done(Finished))
       case Some(u) =>
         var row := t[u].(profile := profile, updateTime := s.clock);
         Put(Commit(s, t[u := row], Updated(u, inv)), c, Done(Finished)))
    case DelWrite(_, _, inv) =>
      (match target
       case None => Put(s, c, Done(Failed))
       case Some(u) => Put(Commit(s, t - {u}, Deleted(u, inv)), c, Done(Finished)))
  }

  function Apply(s: State, e: Event): State
    requires |s.history| > 0 && s.replica < |s.history|
    requires Enabled(s, e)
  {
    match e
    case Start(c, call) => Put(s, c, call)
    case Lookup(c, ok) => ApplyLookup(s, c, ok)
    case ReadRow(c, primary, found) => ApplyRead(s, c, primary, found)
    case Store(c, ok) => ApplyStore(s, c, ok)
    case Invalidate(c, ok) => ApplyInvalidate(s, c, ok)
    case Write(c, ok, target) => ApplyWrite(s, c, ok, target)
    case Insert(uid, row) =>
      Commit(s, Last(s).table[uid := row], Created(uid)).(steps := s.steps + 1)
    case Touch(uid) =>
      var row := Last(s).table[uid].(updateTime := s.clock);
      Commit(s, Last(s).table[uid := row], Touched(uid)).(steps := s.steps + 1)
    case Replicate => s.(replica := s.replica + 1, steps := s.steps + 1)
    case Tick => s.(clock := s.clock + 1, steps := s.steps + 1)
  }

  /** IDs are unique in the owner table. */
  predicate UniqueIds(t: Table) {
    forall u, v | u in t && v in t && t[u].id == t[v].id :: u == v
  }

  predicate Init(s: State) {
    && |s.history| == 1 && s.replica == 0
    && s.history[0].cause == Initial && s.history[0].time <= s.clock
    && UniqueIds(s.history[0].table)
    && s.redis == map[] && s.calls == map[] && s.steps == 0
  }

  /** `run` lists the states of an execution under `events`. */
  predicate IsRun(run: seq<State>, events: seq<Event>) {
    && |run| == |events| + 1
    && Init(run[0])
    && forall i | 0 <= i < |events| ::
         && |run[i].history| > 0 && run[i].replica < |run[i].history|
         && Enabled(run[i], events[i])
         && run[i + 1] == Apply(run[i], events[i])
  }
}
