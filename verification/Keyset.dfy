/**
 Keyset pagination as ListTokens and ListOwners do it: an ordered, limited query below a
 cursor, and a second query for the last row of all.
*/
module Keyset {
  import opened Wrappers

  /**
   A row of either table.  `group` is the column both lists select on (a token's owner, an
   owner's type); `tie` is the column that breaks ties of `time` in the sort order (a token's
   uid, the rank of an owner's id in the database's collation).
  */
  datatype Row = Row(group: string, time: int, tie: int, uid: int)

  /** A decoded page token. */
  datatype Cursor = Cursor(time: int, uid: int)

  /** `(a.create_time, a.uid) < (time, uid)` */
  predicate Below(a: Row, c: Cursor) {
    a.time < c.time || (a.time == c.time && a.uid < c.uid)
  }

  function Key(a: Row): Cursor { Cursor(a.time, a.uid) }

  /** The sort order of the page query. */
  predicate SortsBefore(a: Row, b: Row) {
    a.time > b.time || (a.time == b.time && a.tie > b.tie)
  }

  function BelowCursor(rows: set<Row>, c: Option<Cursor>): set<Row> {
    match c
    case None => rows
    case Some(k) => set a | a in rows && Below(a, k)
  }

  /** `uid` is the primary key, and the tie breaker is unique as well. */
  predicate Keyed(rows: set<Row>) {
    forall a, b | a in rows && b in rows :: (a.uid == b.uid ==> a == b) && (a.tie == b.tie ==> a == b)
  }

  /** Among rows of equal time, the tie breaker and the uid agree on the order. */
  predicate TiesAgree(rows: set<Row>) {
    forall a, b | a in rows && b in rows && a.time == b.time :: a.tie < b.tie <==> a.uid < b.uid
  }

  /* ---- The queries ---- */

  predicate IsFirst(a: Row, rows: set<Row>) {
    a in rows && forall b | b in rows && b != a :: SortsBefore(a, b)
  }

  lemma {:induction false} FirstExists(rows: set<Row>)
    requires rows != {} && Keyed(rows)
    ensures exists a :: IsFirst(a, rows)
    decreases |rows|
  {
    var x :| x in rows;
    if rows == {x} {
      assert IsFirst(x, rows);
    } else {
      var rest := rows - {x};
      assert rows == rest + {x};
      FirstExists(rest);
      var y :| IsFirst(y, rest);
      var a := if SortsBefore(x, y) then x else y;
      assert forall b | b in rows && b != a :: SortsBefore(a, b);
      assert IsFirst(a, rows);
    }
  }

  function First(rows: set<Row>): (a: Row)
    requires rows != {} && Keyed(rows)
    ensures IsFirst(a, rows)
  {
    FirstExists(rows);
    var a :| IsFirst(a, rows);
    a
  }

  /** `ORDER BY create_time DESC, tie DESC` */
  function Sorted(rows: set<Row>): (r: seq<Row>)
    requires Keyed(rows)
    ensures |r| == |rows|
    decreases |rows|
  {
    if rows == {} then [] else
    var a := First(rows);
    [a] + Sorted(rows - {a})
  }

  /** The page query: the first `limit` rows below the cursor. */
  function Page(rows: set<Row>, c: Option<Cursor>, limit: nat): (r: seq<Row>)
    requires Keyed(rows)
    ensures |r| <= limit
  {
    var all := Sorted(BelowCursor(rows, c));
    if |all| <= limit then all else all[..limit]
  }

  predicate IsLast(a: Row, rows: set<Row>) {
    a in rows && forall b | b in rows && b != a :: Below(a, Key(b))
  }

  lemma {:induction false} LastExists(rows: set<Row>)
    requires rows != {} && Keyed(rows)
    ensures exists a :: IsLast(a, rows)
    decreases |rows|
  {
    var x :| x in rows;
    if rows == {x} {
      assert IsLast(x, rows);
    } else {
      var rest := rows - {x};
      assert rows == rest + {x};
      LastExists(rest);
      var y :| IsLast(y, rest);
      var a := if Below(x, Key(y)) then x else y;
      assert IsLast(a, rows);
    }
  }

  /** The last-row query: `ORDER BY create_time ASC, uid ASC LIMIT 1`. */
  function LastRow(rows: set<Row>): (r: Option<Row>)
    requires Keyed(rows)
    ensures r == None <==> rows == {}
    ensures r.Some? ==> IsLast(r.value, rows)
  {
    if rows == {} then None else
    LastExists(rows);
    var a :| IsLast(a, rows);
    Some(a)
  }

  /** The next page token: none after an empty page or after the page ending in the last row. */
  function NextToken(page: seq<Row>, last: Option<Row>): Option<Cursor> {
    if page == [] then None
    else if last.Some? && last.value.uid == page[|page| - 1].uid then None
    else Some(Key(page[|page| - 1]))
  }
}
