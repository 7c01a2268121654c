/**
 ListTokens and ListOwners, query by query.  The queries of one call may see different tables,
 because other calls commit between them.
*/
module Listing {
  import opened Wrappers
  import opened Keyset
  import opened KeysetWalk

  const DEFAULT_PAGE_SIZE: nat := 100
  const MAX_PAGE_SIZE: nat := 1000

  function ClampPageSize(n: nat): nat {
    if n == 0 then DEFAULT_PAGE_SIZE else if n > MAX_PAGE_SIZE then MAX_PAGE_SIZE else n
  }

  /** The rows of one owner, or of one owner type, that the filter keeps. */
  function Matching(table: set<Row>, group: string, keep: Row -> bool): (r: set<Row>)
    ensures Keyed(table) ==> Keyed(r)
  {
    set a | a in table && a.group == group && keep(a)
  }

  function Everything(): Row -> bool { a => true }

  /** The row loop of both lists: the rows in order, and the time of the last one. */
  method ScanRows(rows: seq<Row>) returns (items: seq<Row>, createTime: int)
    ensures items == rows
    ensures rows != [] ==> createTime == rows[|rows| - 1].time
  {
    items, createTime := [], 0;
    var i := 0;
    while i < |rows|
      invariant 0 <= i <= |rows| && items == rows[..i]
      invariant i > 0 ==> createTime == rows[i - 1].time
    {
      createTime := rows[i].time;
      items := items + [rows[i]];
      i := i + 1;
    }
  }

  /* ---- What a call must return, in columns ---- */

  /** The listed rows after the page token. */
  function Remaining(table: set<Row>, group: string, keep: Row -> bool, token: Option<Cursor>): set<Row> {
    set a | a in table && a.group == group && keep(a)
            && match token
               case None => true
               case Some(k) => a.time < k.time || (a.time == k.time && a.uid < k.uid)
  }

  /** The first `limit` of the rows, latest first and by descending tie breaker among equal times. */
  ghost predicate IsPageOf(page: seq<Row>, rows: set<Row>, limit: nat) {
    && |page| == (if |rows| < limit then |rows| else limit)
    && (forall i | 0 <= i < |page| :: page[i] in rows)
    && (forall i, j | 0 <= i < j < |page| ::
          page[i].time > page[j].time || (page[i].time == page[j].time && page[i].tie > page[j].tie))
    && forall i, b | 0 <= i < |page| && b in rows && b !in page ::
         page[i].time > b.time || (page[i].time == b.time && page[i].tie > b.tie)
  }

  /** The row of the page's last uid is below all other rows in (time, uid). */
  ghost predicate EndsTheList(page: seq<Row>, rows: set<Row>)
    requires page != []
  {
    exists z :: z in rows && z.uid == page[|page| - 1].uid
                && forall b | b in rows && b != z :: z.time < b.time || (z.time == b.time && z.uid < b.uid)
  }

  /** The next page token: none after the end of the list, else the time and uid of the page's last row. */
  ghost predicate IsNextToken(next: Option<Cursor>, page: seq<Row>, rows: set<Row>) {
    if page == [] || EndsTheList(page, rows) then next == None
    else next == Some(Cursor(page[|page| - 1].time, page[|page| - 1].uid))
  }

  lemma PageIsPageOf(table: set<Row>, group: string, keep: Row -> bool, token: Option<Cursor>, limit: nat)
    requires Keyed(table)
    ensures IsPageOf(Page(Matching(table, group, keep), token, limit), Remaining(table, group, keep, token), limit)
  {
    var rows := BelowCursor(Matching(table, group, keep), token);
    assert rows == Remaining(table, group, keep, token);
    SortedIsSorted(rows);
    var all, page := Sorted(rows), Page(Matching(table, group, keep), token, limit);
    forall i | 0 <= i < |page| ensures page[i] in rows && page[i] == all[i] { assert all[i] in all; }
    forall i, b | 0 <= i < |page| && b in rows && b !in page ensures SortsBefore(page[i], b) {
      var k :| 0 <= k < |all| && all[k] == b;
      assert k < |page| ==> page[k] == b;
    }
  }

  lemma NextIsNextToken(table: set<Row>, group: string, keep: Row -> bool, page: seq<Row>)
    requires Keyed(table)
    ensures var next := NextToken(page, LastRow(Matching(table, group, keep)));
            IsNextToken(next, page, Remaining(table, group, keep, None))
  {
    var rows := Matching(table, group, keep);
    assert rows == Remaining(table, group, keep, None);
    var last := LastRow(rows);
    if page != [] && EndsTheList(page, rows) {
      var z :| z in rows && z.uid == page[|page| - 1].uid
               && forall b | b in rows && b != z :: z.time < b.time || (z.time == b.time && z.uid < b.uid);
      OneLast(rows, last.value, z);
    } else if page != [] && last.Some? {
      assert IsLast(last.value, rows);
    }
  }

  lemma OneLast(rows: set<Row>, a: Row, z: Row)
    requires IsLast(a, rows) && z in rows
    requires forall b | b in rows && b != z :: z.time < b.time || (z.time == b.time && z.uid < b.uid)
    ensures a == z
  {
    assert z != a ==> Below(a, Key(z));
  }

  lemma AllOfThem(table: set<Row>, group: string)
    ensures Matching(table, group, Everything()) == set a | a in table && a.group == group
    ensures forall token :: Remaining(table, group, Everything(), token) == Remaining(table, group, a => true, token)
  {}

  /** `counted`, `paged` and `last` are the tables the three queries see.  A page token is None when
      empty and Err when it does not decode. */
  method ListTokens(counted: set<Row>, paged: set<Row>, last: set<Row>, owner: string, pageSize: nat,
      token: Result<Option<Cursor>>)
    returns (tokens: seq<Row>, total: nat, next: Option<Cursor>, ok: bool)
    requires Keyed(paged) && Keyed(last)
    ensures ok == token.Ok?
    ensures !ok ==> tokens == [] && total == 0 && next == None
    ensures ok ==>
      && total == |Matching(counted, owner, Everything())|
      && tokens == Page(Matching(paged, owner, Everything()), token.value, ClampPageSize(pageSize))
      && next == NextToken(tokens, LastRow(Matching(last, owner, Everything())))
    ensures ok ==>
      && total == |set a | a in counted && a.group == owner|
      && IsPageOf(tokens, Remaining(paged, owner, a => true, token.value),
                  if pageSize == 0 then 100 else if pageSize > 1000 then 1000 else pageSize)
      && IsNextToken(next, tokens, Remaining(last, owner, a => true, None))
  {
    AllOfThem(counted, owner);
    AllOfThem(paged, owner);
    AllOfThem(last, owner);
    tokens, next := [], None;
    total := |Matching(counted, owner, Everything())|;
    var limit := pageSize;
    if pageSize == 0 {
      limit := DEFAULT_PAGE_SIZE;
    } else if pageSize > MAX_PAGE_SIZE {
      limit := MAX_PAGE_SIZE;
    }
    if !token.Ok? {
      return [], 0, None, false;
    }
    var rows := Page(Matching(paged, owner, Everything()), token.value, limit);
    var createTime;
    tokens, createTime := ScanRows(rows);
    ok := true;
    if |tokens| > 0 {
      var lastUid := tokens[|tokens| - 1].uid;
      var lastItem := LastRow(Matching(last, owner, Everything()));
      if lastItem.Some? && lastItem.value.uid == lastUid {
        next := None;
      } else {
        next := Some(Cursor(createTime, lastUid));
      }
    }
    PageIsPageOf(paged, owner, Everything(), token.value, limit);
    NextIsNextToken(last, owner, Everything(), tokens);
  }

  /** A page size that is not positive means no limit.  The compiled filter is one more conjunct of
      both queries; a filter that does not compile, and a page token that does not decode, are errors. */
  method ListOwners(counted: set<Row>, paged: set<Row>, last: set<Row>, ownerType: string, pageSize: int,
                    token: Result<Option<Cursor>>, filter: Result<Row -> bool>)
    returns (owners: seq<Row>, total: nat, next: Option<Cursor>, ok: bool)
    requires Keyed(paged) && Keyed(last)
    ensures ok == (filter.Ok? && token.Ok?)
    ensures total == if filter.Ok? then |Matching(counted, ownerType, Everything())| else 0
    ensures !ok ==> owners == [] && next == None
    ensures ok ==>
      && owners ==
                Page(Matching(paged, ownerType, filter.value), token.value, if pageSize > 0 then pageSize else |paged|)
      && next == NextToken(owners, LastRow(Matching(last, ownerType, filter.value)))
    ensures filter.Ok? ==> total == |set a | a in counted && a.group == ownerType|
    ensures ok ==>
      && IsPageOf(owners, Remaining(paged, ownerType, filter.value, token.value),
                  if pageSize > 0 then pageSize else |paged|)
      && IsNextToken(next, owners, Remaining(last, ownerType, filter.value, None))
  {
    AllOfThem(counted, ownerType);
    owners, next := [], None;
    total := |Matching(counted, ownerType, Everything())|;
    if !filter.Ok? {
      return [], 0, None, false;
    }
    if !token.Ok? {
      return [], total, None, false;
    }
    var matching := Matching(paged, ownerType, filter.value);
    var rows: seq<Row>;
    if pageSize > 0 {
      rows := Page(matching, token.value, pageSize);
    } else {
      rows := Sorted(BelowCursor(matching, token.value));
      SubsetSize(BelowCursor(matching, token.value), paged);
    }
    assert rows == Page(matching, token.value, if pageSize > 0 then pageSize else |paged|);
    var createTime;
    owners, createTime := ScanRows(rows);
    ok := true;
    if |owners| > 0 {
      var lastUid := owners[|owners| - 1].uid;
      var lastItem := LastRow(Matching(last, ownerType, filter.value));
      if lastItem.Some? && lastItem.value.uid == lastUid {
        next := None;
      } else {
        next := Some(Cursor(createTime, lastUid));
      }
    }
    PageIsPageOf(paged, ownerType, filter.value, token.value, if pageSize > 0 then pageSize else |paged|);
    NextIsNextToken(last, ownerType, filter.value, owners);
  }

  lemma {:induction false} SubsetSize<T>(a: set<T>, b: set<T>)
    requires a <= b
    ensures |a| <= |b|
  {
    if a != {} {
      var x :| x in a;
      SubsetSize(a - {x}, b - {x});
    }
  }

  /** Token lists break ties by uid, the column they cut by. */
  predicate TieIsUid(table: set<Row>) {
    forall a | a in table :: a.tie == a.uid
  }

  /** Latest first, larger tie breaker first among equal times. */
  predicate Descending(r: seq<Row>) {
    forall i, j | 0 <= i < j < |r| ::
      r[i].time > r[j].time || (r[i].time == r[j].time && r[i].tie > r[j].tie)
  }

  /** Over an unchanging table, following ListTokens' page tokens from the empty one returns the
      owner's tokens in descending order, each exactly once and no others, in max(1, ceil(n / p)) requests. */
  lemma ListTokensWalk(table: set<Row>, owner: string, pageSize: nat)
    requires Keyed(table) && TieIsUid(table)
    ensures var walk := Walk(Matching(table, owner, Everything()), None, ClampPageSize(pageSize));
            && Descending(Flatten(walk))
            && (forall a :: multiset(Flatten(walk))[a] == if a in table && a.group == owner then 1 else 0)
            && |walk| == Requests(|set a | a in table && a.group == owner|, ClampPageSize(pageSize))
            && forall i | 0 <= i < |walk| - 1 :: |walk[i]| == ClampPageSize(pageSize)
  {
    var mine := Matching(table, owner, Everything());
    AllOfThem(table, owner);
    WalkFrom(mine, None, ClampPageSize(pageSize));
    AgreeingTiesComplete(mine, ClampPageSize(pageSize));
    SortedIsSorted(mine);
    SameCounts(Flatten(Walk(mine, None, ClampPageSize(pageSize))), mine);
  }

  lemma SameCounts<T>(r: seq<T>, s: set<T>)
    ensures multiset(r) == multiset(s) <==> forall a :: multiset(r)[a] == if a in s then 1 else 0
  {
    if multiset(r) == multiset(s) {
      forall a ensures multiset(r)[a] == if a in s then 1 else 0 { assert multiset(r)[a] == multiset(s)[a]; }
    }
  }

  /** Every matching row is on exactly one of the pages, and no other row is. */
  ghost predicate ReturnsOnce(pages: seq<seq<Row>>, table: set<Row>, group: string, keep: Row -> bool) {
    forall a :: multiset(Flatten(pages))[a] == if a in table && a.group == group && keep(a) then 1 else 0
  }

  /** Matching rows of one time have their tie breakers in the order of their uids. */
  predicate SameOrder(table: set<Row>, group: string, keep: Row -> bool) {
    forall a, b | a in table && b in table && a.group == group == b.group && keep(a) && keep(b) && a.time == b.time ::
      a.tie < b.tie <==> a.uid < b.uid
  }

  lemma OrderOfTies(table: set<Row>, group: string, keep: Row -> bool)
    ensures TiesAgree(Matching(table, group, keep)) <==> SameOrder(table, group, keep)
  {}

  lemma CompleteIsOnce(table: set<Row>, group: string, keep: Row -> bool, p: nat)
    requires Keyed(table)
    ensures var mine := Matching(table, group, keep);
            Complete(mine, p) <==> ReturnsOnce(Walk(mine, None, p), table, group, keep)
  {
    var mine := Matching(table, group, keep);
    SameCounts(Flatten(Walk(mine, None, p)), mine);
  }

  /** ListOwners sorts by (create_time, id) and cuts by (create_time, uid).  Over an unchanging
      table its walks return every matching owner exactly once and nothing else, at every positive page size,
      if and only if id order and uid order agree among matching owners created at the same time. */
  lemma ListOwnersWalkIff(table: set<Row>, ownerType: string, keep: Row -> bool)
    requires Keyed(table)
    ensures var mine := Matching(table, ownerType, keep);
            (forall p: nat | p > 0 :: ReturnsOnce(Walk(mine, None, p), table, ownerType, keep))
            <==> SameOrder(table, ownerType, keep)
  {
    var mine := Matching(table, ownerType, keep);
    CompleteIffTiesAgree(mine);
    OrderOfTies(table, ownerType, keep);
    if SameOrder(table, ownerType, keep) {
      forall p: nat | p > 0 ensures ReturnsOnce(Walk(mine, None, p), table, ownerType, keep) {
        CompleteIsOnce(table, ownerType, keep, p);
      }
    } else {
      var p: nat :| p > 0 && !Complete(mine, p);
      CompleteIsOnce(table, ownerType, keep, p);
    }
  }

  /** Two owners created at the same instant whose ids and uids are ordered differently: pages of
      one owner lose the second. */
  lemma ListOwnersLosesAnOwner()
    ensures var amy, bob := Row("user", 5, 1, 20), Row("user", 5, 2, 10);
            && Keyed({amy, bob})
            && Walk({amy, bob}, None, 1) == [[bob]]
  {
    var amy, bob := Row("user", 5, 1, 20), Row("user", 5, 2, 10);
    var rows := {amy, bob};
    assert IsFirst(bob, rows) && IsLast(bob, rows);
    assert First(rows) == bob && LastRow(rows) == Some(bob);
    var all := Sorted(rows);
    assert all[0] == bob && all[..1] == [bob];
  }
}
