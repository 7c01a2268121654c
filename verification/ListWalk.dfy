/**
 A ListTokens or ListOwners walk while rows are created and deleted, also between the two queries of one
 request.  Every query may be served by the primary or by a replica that lags by any amount, so it may see
 any table there has been.
*/
module ListWalk {
  import opened Wrappers
  import opened Keyset
  import opened KeysetWalk
  import opened Listing

  /** What is listed, and how many rows a page holds. */
  datatype Request = Request(group: string, keep: Row -> bool, limit: nat)

  /** Where the client is: before a request, between its page and last-row query, or done. */
  datatype Phase = Ready | Paged(page: seq<Row>) | Finished

  /** The tables so far, oldest first.  `ever` holds every row there has been; uids and tie breakers are never
      used twice. */
  datatype State = State(
    tables: seq<set<Row>>, ever: set<Row>,
    cursor: Option<Cursor>, phase: Phase, returned: seq<Row>)

  /** A query names the table it sees. */
  datatype Event = Create(row: Row) | Delete(row: Row) | PageQuery(v: nat) | LastQuery(v: nat)

  predicate Enabled(s: State, e: Event)
    requires s.tables != []
  {
    match e
    case Create(row) => forall a | a in s.ever :: a.uid != row.uid && a.tie != row.tie
    case Delete(row) => row in Last(s.tables)
    case PageQuery(v) => s.phase == Ready && v < |s.tables|
    case LastQuery(v) => s.phase.Paged? && v < |s.tables|
  }

  predicate Init(s: State) {
    s.tables == [s.ever] && Keyed(s.ever) && s.cursor == None && s.phase == Ready && s.returned == []
  }

  /** The rows of table `v` that are listed. */
  function Seen(s: State, q: Request, v: nat): set<Row>
    requires v < |s.tables|
  {
    Matching(s.tables[v], q.group, q.keep)
  }

  predicate TablesKeyed(s: State) {
    forall v | 0 <= v < |s.tables| :: Keyed(s.tables[v])
  }

  function Apply(s: State, q: Request, e: Event): State
    requires s.tables != [] && TablesKeyed(s) && Enabled(s, e)
  {
    match e
    case Create(row) => s.(tables := s.tables + [Last(s.tables) + {row}], ever := s.ever + {row})
    case Delete(row) => s.(tables := s.tables + [Last(s.tables) - {row}])
    case PageQuery(v) => s.(phase := Paged(Page(Seen(s, q, v), s.cursor, q.limit)))
    case LastQuery(v) =>
      var page := s.phase.page;
      var done := s.(returned := s.returned + page);
      match NextToken(page, LastRow(Seen(s, q, v)))
      case None => done.(phase := Finished)
      case Some(k) => done.(cursor := Some(k), phase := Ready)
  }

  predicate IsRun(run: seq<State>, q: Request, events: seq<Event>) {
    && |run| == |events| + 1 && Init(run[0])
    && forall i | 0 <= i < |events| ::
         && run[i].tables != [] && TablesKeyed(run[i]) && Enabled(run[i], events[i])
         && run[i + 1] == Apply(run[i], q, events[i])
  }

  /** Strictly descending in (create_time, uid). */
  predicate KeyDescends(r: seq<Row>) {
    forall i, j | 0 <= i < j < |r| :: Below(r[j], Key(r[i]))
  }

  predicate AllBelow(r: seq<Row>, c: Option<Cursor>) {
    c.Some? ==> forall i | 0 <= i < |r| :: Below(r[i], c.value)
  }

  /** What has been returned lies at or above the cursor. */
  predicate ReturnedAbove(r: seq<Row>, c: Option<Cursor>) {
    if c.None? then r == []
    else r != [] && Key(r[|r| - 1]) == c.value
  }

  /** Among the listed rows there have ever been, the sort order's tie breaker and the uid agree. */
  predicate OrdersAgree(s: State, q: Request) {
    forall a, b | a in s.ever && b in s.ever && a.group == q.group == b.group && q.keep(a) && q.keep(b)
                  && a.time == b.time :: a.tie < b.tie <==> a.uid < b.uid
  }

  predicate AllIn(r: seq<Row>, rows: set<Row>) {
    forall i | 0 <= i < |r| :: r[i] in rows
  }

  ghost predicate Inv(s: State, q: Request) {
    && s.tables != [] && Keyed(s.ever) && (forall v | 0 <= v < |s.tables| :: s.tables[v] <= s.ever)
    && KeyDescends(s.returned) && AllIn(s.returned, Matching(s.ever, q.group, q.keep))
    && (!s.phase.Finished? ==> ReturnedAbove(s.returned, s.cursor))
    && (s.phase.Paged? ==>
          && KeyDescends(s.phase.page) && AllBelow(s.phase.page, s.cursor)
          && AllIn(s.phase.page, Matching(s.ever, q.group, q.keep)))
  }

  /** A row that every query has seen: returned, on the page just read, or still below the cursor. */
  ghost predicate Accounted(s: State, a: Row) {
    match s.phase
    case Ready => a in s.returned || a in BelowCursor({a}, s.cursor)
    case Paged(page) => a in s.returned || a in page || (page != [] && Below(a, Key(Last(page))))
    case Finished => a in s.returned
  }

  lemma PageFacts(rows: set<Row>, c: Option<Cursor>, p: nat)
    requires Keyed(rows) && TiesAgree(rows)
    ensures KeyDescends(Page(rows, c, p)) && AllBelow(Page(rows, c, p), c) && AllIn(Page(rows, c, p), rows)
  {
    var here := BelowCursor(rows, c);
    SortedIsSorted(here);
    forall i | 0 <= i < |Page(rows, c, p)|
      ensures Page(rows, c, p)[i] in rows && (c.Some? ==> Below(Page(rows, c, p)[i], c.value))
    {
      assert Page(rows, c, p)[i] == Sorted(here)[i] && Sorted(here)[i] in here;
    }
  }

  /** A row below the cursor is on the page, or below its end. */
  lemma PageCovers(rows: set<Row>, c: Option<Cursor>, p: nat, a: Row)
    requires Keyed(rows) && TiesAgree(rows) && p > 0 && a in BelowCursor(rows, c)
    ensures var page := Page(rows, c, p); page != [] && (a in page || Below(a, Key(Last(page))))
  {
    var here := BelowCursor(rows, c);
    var all := Sorted(here);
    SortedIsSorted(here);
    assert a in all;
    PrefixCovers(here, all, if |all| <= p then |all| else p, a);
  }

  lemma PrefixCovers(rows: set<Row>, all: seq<Row>, n: nat, a: Row)
    requires Keyed(rows) && TiesAgree(rows) && Descends(all) && 0 < n <= |all| && a in all
    requires forall x | x in all :: x in rows
    ensures a in all[..n] || Below(a, Key(all[n - 1]))
  {
    var i :| 0 <= i < |all| && all[i] == a;
    if i < n {
      assert all[..n][i] == a;
    } else {
      assert all[n - 1] in all && SortsBefore(all[n - 1], all[i]);
    }
  }

  lemma StepKeepsInv(s: State, q: Request, e: Event)
    requires Inv(s, q) && TablesKeyed(s) && OrdersAgree(s, q) && Enabled(s, e)
    ensures Inv(Apply(s, q, e), q)
  {
    match e
    case PageQuery(v) => PageFacts(Seen(s, q, v), s.cursor, q.limit);
    case LastQuery(v) => AppendPage(s.returned, s.phase.page, s.cursor);
    case _ =>
  }

  lemma AppendPage(r: seq<Row>, page: seq<Row>, c: Option<Cursor>)
    requires KeyDescends(r) && KeyDescends(page) && ReturnedAbove(r, c) && AllBelow(page, c)
    ensures KeyDescends(r + page)
  {
    var z := r + page;
    forall i, j | 0 <= i < j < |z| ensures Below(z[j], Key(z[i])) {
      if i < |r| <= j {
        var k := j - |r|;
        assert z[j] == page[k] && Below(page[k], c.value);
        assert i < |r| - 1 ==> Below(r[|r| - 1], Key(r[i]));
      } else if |r| <= i {
        assert z[i] == page[i - |r|] && z[j] == page[j - |r|];
      }
    }
  }

  predicate IsQuery(e: Event) { e.PageQuery? || e.LastQuery? }

  lemma StepAccounts(s: State, q: Request, e: Event, a: Row)
    requires Inv(s, q) && TablesKeyed(s) && OrdersAgree(s, q) && Enabled(s, e) && q.limit > 0
    requires IsQuery(e) ==> a in Seen(s, q, e.v)
    requires Accounted(s, a)
    ensures Accounted(Apply(s, q, e), a)
  {
    if e.PageQuery? && a !in s.returned { PageCovers(Seen(s, q, e.v), s.cursor, q.limit, a); }
  }

  /** The orders agree in every state up to the n-th. */
  predicate AgreeUpTo(run: seq<State>, q: Request, n: nat)
    requires n < |run|
  {
    forall i | 0 <= i <= n :: OrdersAgree(run[i], q)
  }

  lemma {:induction false} RunKeepsInv(run: seq<State>, q: Request, events: seq<Event>, n: nat)
    requires IsRun(run, q, events) && n < |run| && AgreeUpTo(run, q, n)
    ensures Inv(run[n], q)
  {
    if n > 0 {
      RunKeepsInv(run, q, events, n - 1);
      assert OrdersAgree(run[n - 1], q);
      StepKeepsInv(run[n - 1], q, events[n - 1]);
    }
  }

  /** Safety.  Whatever is created and deleted in between and however old the tables are that the queries see,
      a walk returns rows in strictly descending order, hence no row twice. */
  lemma WalkDescends(run: seq<State>, q: Request, events: seq<Event>, n: nat)
    requires IsRun(run, q, events) && n < |run| && AgreeUpTo(run, q, n)
    ensures KeyDescends(run[n].returned)
    ensures forall i, j | 0 <= i < j < |run[n].returned| :: run[n].returned[i].uid != run[n].returned[j].uid
  {
    RunKeepsInv(run, q, events, n);
    var r := run[n].returned;
    forall i, j | 0 <= i < j < |r| ensures r[i].uid != r[j].uid {
      assert Below(r[j], Key(r[i])) && r[i] in run[n].ever && r[j] in run[n].ever;
    }
  }

  /** A row enters the walk only through a page query that finds it. */
  lemma NewlyReturned(s: State, q: Request, e: Event, a: Row)
    requires Inv(s, q) && TablesKeyed(s) && OrdersAgree(s, q) && Enabled(s, e)
    requires var s' := Apply(s, q, e); a in s'.returned || (s'.phase.Paged? && a in s'.phase.page)
    ensures a in s.returned || (s.phase.Paged? && a in s.phase.page) || (e.PageQuery? && a in Seen(s, q, e.v))
  {
    if e.PageQuery? { PageFacts(Seen(s, q, e.v), s.cursor, q.limit); }
  }

  /** Only listed rows are returned, each from a table that a page query saw. */
  lemma {:induction false} ReturnedWasThere(run: seq<State>, q: Request, events: seq<Event>, n: nat, a: Row)
    requires IsRun(run, q, events) && n < |run| && AgreeUpTo(run, q, n)
    requires a in run[n].returned || (run[n].phase.Paged? && a in run[n].phase.page)
    ensures a.group == q.group && q.keep(a)
    ensures exists i :: 0 <= i < n && events[i].PageQuery? && events[i].v < |run[i].tables|
              && a in run[i].tables[events[i].v]
  {
    if n > 0 {
      RunKeepsInv(run, q, events, n - 1);
      var s, e := run[n - 1], events[n - 1];
      assert OrdersAgree(s, q);
      NewlyReturned(s, q, e, a);
      if a in s.returned || (s.phase.Paged? && a in s.phase.page) {
        ReturnedWasThere(run, q, events, n - 1, a);
      } else {
        assert events[n - 1].PageQuery? && a in run[n - 1].tables[events[n - 1].v];
      }
    }
  }

  /** The row is listed, and in the table of every query among the first `n` events. */
  predicate SeenByAll(run: seq<State>, q: Request, events: seq<Event>, n: nat, a: Row)
    requires n <= |events| < |run|
  {
    && a.group == q.group && q.keep(a)
    && forall i | 0 <= i < n && IsQuery(events[i]) :: events[i].v < |run[i].tables| && a in run[i].tables[events[i].v]
  }

  lemma {:induction false} RunAccounts(run: seq<State>, q: Request, events: seq<Event>, n: nat, a: Row)
    requires IsRun(run, q, events) && n < |run| && AgreeUpTo(run, q, n) && q.limit > 0
    requires SeenByAll(run, q, events, n, a)
    ensures Accounted(run[n], a)
  {
    if n > 0 {
      RunAccounts(run, q, events, n - 1, a);
      RunKeepsInv(run, q, events, n - 1);
      assert OrdersAgree(run[n - 1], q);
      StepAccounts(run[n - 1], q, events[n - 1], a);
    }
  }

  /** Completeness.  When a walk finishes, every row that all its queries saw has been returned, exactly once. */
  lemma FinishedWalkIsComplete(run: seq<State>, q: Request, events: seq<Event>, n: nat, a: Row)
    requires IsRun(run, q, events) && n < |run| && AgreeUpTo(run, q, n) && q.limit > 0
    requires run[n].phase.Finished? && SeenByAll(run, q, events, n, a)
    ensures multiset(run[n].returned)[a] == 1
  {
    RunAccounts(run, q, events, n, a);
    RunKeepsInv(run, q, events, n);
    OnceInDescending(run[n].returned, a);
  }

  lemma {:induction false} OnceInDescending(r: seq<Row>, a: Row)
    requires KeyDescends(r)
    ensures multiset(r)[a] == if a in r then 1 else 0
  {
    if r != [] {
      OnceInDescending(r[1..], a);
      assert r == [r[0]] + r[1..];
      forall x | x in r[1..] ensures x != r[0] {
        var i :| 0 <= i < |r| - 1 && r[1..][i] == x;
        assert Below(r[i + 1], Key(r[0]));
      }
    }
  }

  /** Tokens are sorted and cut by the same key. */
  lemma TokenOrdersAgree(s: State, q: Request)
    requires TieIsUid(s.ever)
    ensures OrdersAgree(s, q)
  {}

  /* ---- Events one by one, and a walk that nothing disturbs ---- */

  /** A creation adds just the new row, with a uid and a tie breaker of its own; a deletion removes just the row,
      which was there. */
  lemma TablesChange(run: seq<State>, q: Request, events: seq<Event>, i: nat)
    requires IsRun(run, q, events) && i < |events|
    ensures run[i].tables != [] && run[i + 1].tables != []
    ensures var t, t' := Last(run[i].tables), Last(run[i + 1].tables);
            match events[i]
            case Create(row) => t' == t + {row} && forall a | a in run[i].ever :: a.uid != row.uid && a.tie != row.tie
            case Delete(row) => row in t && t' == t - {row}
            case _ => run[i + 1].tables == run[i].tables
  {}

  /** Page and last-row queries in turn, all of the first table. */
  predicate Undisturbed(events: seq<Event>) {
    forall i | 0 <= i < |events| :: events[i] == if i % 2 == 0 then PageQuery(0) else LastQuery(0)
  }

  lemma OneRequest(s: State, q: Request, s1: State, s2: State)
    requires s.tables == [s.ever] && Keyed(s.ever) && s.phase == Ready
    requires s1 == Apply(s, q, PageQuery(0)) && s2 == Apply(s1, q, LastQuery(0))
    ensures s2.tables == s.tables && s2.ever == s.ever
    ensures var mine := Matching(s.ever, q.group, q.keep); var walk := Walk(mine, s.cursor, q.limit);
            && |s.returned| <= |s2.returned| && s2.returned[..|s.returned|] == s.returned
            && var page := s2.returned[|s.returned|..];
            match s2.phase
            case Ready =>
              && Flatten(walk) == page + Flatten(Walk(mine, s2.cursor, q.limit))
              && |walk| == 1 + |Walk(mine, s2.cursor, q.limit)|
            case Finished => Flatten(walk) == page && |walk| == 1
            case Paged(_) => false
  {
    var mine := Matching(s.ever, q.group, q.keep);
    assert Seen(s, q, 0) == mine && Seen(s1, q, 0) == mine;
    var page := Page(mine, s.cursor, q.limit);
    assert s2.returned == s.returned + page;
    match NextToken(page, LastRow(mine))
    case None => FlattenOne(page);
    case Some(k) =>
      var walk := Walk(mine, s.cursor, q.limit);
      assert walk == [page] + Walk(mine, Some(k), q.limit) && walk[1..] == Walk(mine, Some(k), q.limit);
  }

  /** What has been returned after `k` requests and what Walk would still return from the cursor are together
      the whole of Walk. */
  ghost predicate SoFar(s: State, q: Request, rows: set<Row>, k: nat)
    requires Keyed(rows)
  {
    var walk := Walk(rows, None, q.limit);
    match s.phase
    case Ready =>
      && Flatten(walk) == s.returned + Flatten(Walk(rows, s.cursor, q.limit))
      && |walk| == k + |Walk(rows, s.cursor, q.limit)|
    case Finished => Flatten(walk) == s.returned && |walk| == k
    case Paged(_) => false
  }

  lemma NextRequest(s: State, q: Request, s1: State, s2: State, rows: set<Row>, k: nat)
    requires s.tables == [s.ever] && Keyed(s.ever) && s.phase == Ready
    requires s1 == Apply(s, q, PageQuery(0)) && s2 == Apply(s1, q, LastQuery(0))
    requires rows == Matching(s.ever, q.group, q.keep) && SoFar(s, q, rows, k)
    ensures s2.tables == s.tables && s2.ever == s.ever && SoFar(s2, q, rows, k + 1)
  {
    OneRequest(s, q, s1, s2);
    var page := s2.returned[|s.returned|..];
    Joined(s.returned, s2.returned);
    if s2.phase.Ready? { Reassociate(s.returned, page, Flatten(Walk(rows, s2.cursor, q.limit))); }
  }

  lemma Joined<T>(a: seq<T>, b: seq<T>)
    requires |a| <= |b| && b[..|a|] == a
    ensures a + b[|a|..] == b
  {}

  lemma Reassociate<T>(a: seq<T>, b: seq<T>, c: seq<T>)
    ensures a + (b + c) == (a + b) + c
  {}

  /** Undisturbed, the requests return page by page what Walk does, and finish with it. */
  lemma {:induction false} UndisturbedRequests(run: seq<State>, q: Request, events: seq<Event>, k: nat)
    requires IsRun(run, q, events) && Undisturbed(events) && 2 * k < |run|
    ensures run[2 * k].tables == [run[0].ever] && run[2 * k].ever == run[0].ever && Keyed(run[0].ever)
    ensures SoFar(run[2 * k], q, Matching(run[0].ever, q.group, q.keep), k)
  {
    var rows := Matching(run[0].ever, q.group, q.keep);
    if k == 0 {
      assert [] + Flatten(Walk(rows, None, q.limit)) == Flatten(Walk(rows, None, q.limit));
    } else {
      var i := 2 * (k - 1);
      UndisturbedRequests(run, q, events, k - 1);
      assert events[i] == PageQuery(0) && events[i + 1] == LastQuery(0);
      assert run[i + 1] == Apply(run[i], q, events[i]) && run[i + 1 + 1] == Apply(run[i + 1], q, events[i + 1]);
      NextRequest(run[i], q, run[i + 1], run[i + 2], rows, k - 1);
    }
  }
}
