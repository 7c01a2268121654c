/** Whole walks over an unchanging table. */
module KeysetWalk {
  import opened Wrappers
  import opened Keyset

  /* ---- The sorted table ---- */

  predicate Descends(r: seq<Row>) {
    forall i, j | 0 <= i < j < |r| :: SortsBefore(r[i], r[j])
  }

  lemma FirstThenRest(a: Row, rows: set<Row>, rest: seq<Row>)
    requires IsFirst(a, rows) && Descends(rest) && multiset(rest) == multiset(rows - {a})
    requires forall x :: x in rest <==> x in rows - {a}
    ensures Descends([a] + rest) && multiset([a] + rest) == multiset(rows)
    ensures forall x :: x in [a] + rest <==> x in rows
  {
    assert rows == {a} + (rows - {a});
    forall i, j | 0 <= i < j < |[a] + rest| ensures SortsBefore(([a] + rest)[i], ([a] + rest)[j]) {
      assert rest[j - 1] in rest;
    }
  }

  lemma {:induction false} SortedIsSorted(rows: set<Row>)
    requires Keyed(rows)
    ensures Descends(Sorted(rows)) && multiset(Sorted(rows)) == multiset(rows)
    ensures forall a :: a in Sorted(rows) <==> a in rows
    decreases |rows|
  {
    if rows != {} {
      var a := First(rows);
      SortedIsSorted(rows - {a});
      FirstThenRest(a, rows, Sorted(rows - {a}));
    }
  }

  lemma FirstIs(a: Row, rows: set<Row>)
    requires Keyed(rows) && IsFirst(a, rows)
    ensures First(rows) == a
  {}

  /** A descending sequence is the sorted form of its elements. */
  lemma {:induction false} SortedUnique(r: seq<Row>, rows: set<Row>)
    requires Keyed(rows) && Descends(r) && (forall a :: a in r <==> a in rows)
    ensures Sorted(rows) == r
    decreases |rows|
  {
    if r == [] {
      assert rows == {};
    } else {
      var a, rest := r[0], r[1..];
      FirstIs(a, rows);
      SortedUnique(rest, rows - {a});
      assert r == [a] + rest;
    }
  }

  /** Where ties agree, cutting below a row leaves what the sort puts after it. */
  lemma CutIsDrop(rows: set<Row>, c: Option<Cursor>, k: nat)
    requires Keyed(rows) && TiesAgree(rows) && k < |Sorted(BelowCursor(rows, c))|
    ensures Sorted(BelowCursor(rows, Some(Key(Sorted(BelowCursor(rows, c))[k]))))
              == Sorted(BelowCursor(rows, c))[k + 1..]
  {
    SortedIsSorted(BelowCursor(rows, c));
    CutOf(rows, c, Sorted(BelowCursor(rows, c)), k);
  }

  lemma CutOf(rows: set<Row>, c: Option<Cursor>, all: seq<Row>, k: nat)
    requires Keyed(rows) && TiesAgree(rows) && Descends(all) && k < |all|
    requires forall a :: a in all <==> a in BelowCursor(rows, c)
    ensures Sorted(BelowCursor(rows, Some(Key(all[k])))) == all[k + 1..]
  {
    assert all[k] in all;
    var next := BelowCursor(rows, Some(Key(all[k])));
    var tail := all[k + 1..];
    forall x ensures x in tail <==> x in next {
      if x in tail {
        var i :| 0 <= i < |tail| && tail[i] == x;
        TailIsBelow(rows, all, k, k + 1 + i);
      }
      if x in next {
        BelowIsTail(rows, c, all, k, x);
      }
    }
    assert Descends(tail) by {
      forall i, j | 0 <= i < j < |tail| ensures SortsBefore(tail[i], tail[j]) {
        assert SortsBefore(all[k + 1 + i], all[k + 1 + j]);
      }
    }
    SortedUnique(tail, next);
  }

  lemma TailIsBelow(rows: set<Row>, all: seq<Row>, k: nat, i: nat)
    requires TiesAgree(rows) && Descends(all) && k < i < |all| && all[k] in rows
    requires forall a | a in all :: a in rows
    ensures all[i] in BelowCursor(rows, Some(Key(all[k])))
  {
    assert all[i] in all && SortsBefore(all[k], all[i]);
  }

  lemma BelowIsTail(rows: set<Row>, c: Option<Cursor>, all: seq<Row>, k: nat, x: Row)
    requires TiesAgree(rows) && Descends(all) && k < |all|
    requires forall a :: a in all <==> a in BelowCursor(rows, c)
    requires x in BelowCursor(rows, Some(Key(all[k])))
    ensures x in all[k + 1..]
  {
    assert all[k] in all;
    assert x in BelowCursor(rows, c);
    var i :| 0 <= i < |all| && all[i] == x;
    assert i < k ==> SortsBefore(x, all[k]);
    assert i > k;
    assert all[k + 1..][i - k - 1] == x;
  }

  /* ---- The walk ---- */

  function Last<T>(s: seq<T>): T
    requires s != []
  {
    s[|s| - 1]
  }

  lemma CursorDescends(rows: set<Row>, c: Option<Cursor>, p: nat)
    requires Keyed(rows) && Page(rows, c, p) != []
    ensures BelowCursor(rows, Some(Key(Last(Page(rows, c, p))))) < BelowCursor(rows, c)
  {
    var here := BelowCursor(rows, c);
    SortedIsSorted(here);
    var a := Last(Page(rows, c, p));
    assert a in Sorted(here);
    assert a in here && a !in BelowCursor(rows, Some(Key(a)));
  }

  /** The pages a client gets by following tokens from `c` until there is none.  It always stops,
      whatever the tie breaker does. */
  function Walk(rows: set<Row>, c: Option<Cursor>, p: nat): (pages: seq<seq<Row>>)
    requires Keyed(rows)
    ensures pages != []
    decreases BelowCursor(rows, c)
  {
    var page := Page(rows, c, p);
    match NextToken(page, LastRow(rows))
    case None => [page]
    case Some(k) =>
      CursorDescends(rows, c, p);
      [page] + Walk(rows, Some(k), p)
  }

  function Flatten(pages: seq<seq<Row>>): seq<Row> {
    if pages == [] then [] else pages[0] + Flatten(pages[1..])
  }

  /** max(1, ceil(n / p)): the fewest pages of `p` rows that hold `n` rows, and at least one. */
  function Requests(n: nat, p: nat): (k: nat)
    requires p > 0
    ensures k >= 1 && n <= k * p && (k > 1 ==> (k - 1) * p < n)
  {
    if n <= p then 1 else
    var k := Requests(n - p, p);
    assert (k + 1) * p == k * p + p && k * p == (k - 1) * p + p;
    k + 1
  }

  lemma FlattenOne(page: seq<Row>)
    ensures Flatten([page]) == page
  {
    assert Flatten([page]) == page + Flatten([page][1..]);
  }

  /** The last row of all is where the sort ends, if ties agree. */
  lemma LastIsLast(rows: set<Row>, c: Option<Cursor>)
    requires Keyed(rows) && TiesAgree(rows) && BelowCursor(rows, c) != {}
    ensures Sorted(BelowCursor(rows, c)) != []
    ensures LastRow(rows) == Some(Last(Sorted(BelowCursor(rows, c))))
  {
    SortedIsSorted(BelowCursor(rows, c));
    EndIsLast(rows, c, Sorted(BelowCursor(rows, c)));
  }

  lemma EndIsLast(rows: set<Row>, c: Option<Cursor>, all: seq<Row>)
    requires Keyed(rows) && TiesAgree(rows) && Descends(all) && all != []
    requires forall a :: a in all <==> a in BelowCursor(rows, c)
    ensures LastRow(rows) == Some(Last(all))
  {
    var here := BelowCursor(rows, c);
    var a := Last(all);
    assert a in all;
    forall b | b in rows && b != a ensures Below(a, Key(b)) {
      if b in here {
        assert b in all;
        var i :| 0 <= i < |all| && all[i] == b;
        assert SortsBefore(all[i], a);
      }
    }
    assert IsLast(a, rows);
  }

  /** The pages are `all` in order, in as few requests as the page size allows: every page but the
      last is full. */
  ghost predicate Paginates(w: seq<seq<Row>>, all: seq<Row>, p: nat)
    requires p > 0
  {
    && Flatten(w) == all
    && |w| == Requests(|all|, p)
    && forall i | 0 <= i < |w| - 1 :: |w[i]| == p
  }

  /** Following tokens from a cursor returns the rows below it, sorted, in as few requests as possible. */
  lemma {:induction false} WalkFrom(rows: set<Row>, c: Option<Cursor>, p: nat)
    requires Keyed(rows) && TiesAgree(rows) && p > 0
    ensures Paginates(Walk(rows, c, p), Sorted(BelowCursor(rows, c)), p)
    decreases BelowCursor(rows, c)
  {
    var all := Sorted(BelowCursor(rows, c));
    if |all| <= p {
      OnlyPage(rows, c, p);
      FlattenOne(all);
    } else {
      MorePages(rows, c, p);
      CutIsDrop(rows, c, p - 1);
      WalkFrom(rows, Some(Key(all[p - 1])), p);
      AddPage(all, p, Walk(rows, Some(Key(all[p - 1])), p));
    }
  }

  lemma AddPage(all: seq<Row>, p: nat, rest: seq<seq<Row>>)
    requires 0 < p < |all| && Paginates(rest, all[p..], p)
    ensures Paginates([all[..p]] + rest, all, p)
  {
    var w := [all[..p]] + rest;
    assert w[1..] == rest;
    assert all == all[..p] + all[p..];
  }

  /** When everything fits on one page, the walk is that page. */
  lemma OnlyPage(rows: set<Row>, c: Option<Cursor>, p: nat)
    requires Keyed(rows) && TiesAgree(rows) && p > 0 && |Sorted(BelowCursor(rows, c))| <= p
    ensures Walk(rows, c, p) == [Sorted(BelowCursor(rows, c))]
  {
    var page := Page(rows, c, p);
    if BelowCursor(rows, c) != {} {
      LastIsLast(rows, c);
      assert NextToken(page, LastRow(rows)) == None;
    } else {
      assert page == [];
    }
  }

  /** With more rows than fit on a page, the page is full and the next token points at its end. */
  lemma MorePages(rows: set<Row>, c: Option<Cursor>, p: nat)
    requires Keyed(rows) && TiesAgree(rows) && p > 0 && |Sorted(BelowCursor(rows, c))| > p
    ensures var all := Sorted(BelowCursor(rows, c));
            && Page(rows, c, p) == all[..p]
            && BelowCursor(rows, Some(Key(all[p - 1]))) < BelowCursor(rows, c)
            && Walk(rows, c, p) == [all[..p]] + Walk(rows, Some(Key(all[p - 1])), p)
  {
    CursorDescends(rows, c, p);
    var here := BelowCursor(rows, c);
    var all := Sorted(here);
    SortedIsSorted(here);
    LastIsLast(rows, c);
    DifferentUids(rows, all, p - 1);
    assert NextToken(all[..p], LastRow(rows)) == Some(Key(all[p - 1]));
  }

  lemma DifferentUids(rows: set<Row>, all: seq<Row>, k: nat)
    requires Keyed(rows) && Descends(all) && k < |all| - 1 && forall a | a in all :: a in rows
    ensures all[k].uid != Last(all).uid
  {
    assert SortsBefore(all[k], Last(all));
    assert all[k] in all && Last(all) in all;
  }

  /* ---- Complete walks ---- */

  /** The walk returns every row exactly once. */
  ghost predicate Complete(rows: set<Row>, p: nat)
    requires Keyed(rows)
  {
    multiset(Flatten(Walk(rows, None, p))) == multiset(rows)
  }

  lemma AgreeingTiesComplete(rows: set<Row>, p: nat)
    requires Keyed(rows) && TiesAgree(rows) && p > 0
    ensures Complete(rows, p)
  {
    WalkFrom(rows, None, p);
    SortedIsSorted(rows);
  }

  lemma {:induction false} WalkStaysBelow(rows: set<Row>, c: Option<Cursor>, p: nat, a: Row)
    requires Keyed(rows) && a in Flatten(Walk(rows, c, p))
    ensures a in BelowCursor(rows, c)
    decreases BelowCursor(rows, c)
  {
    var here := BelowCursor(rows, c);
    SortedIsSorted(here);
    var page := Page(rows, c, p);
    var w := Walk(rows, c, p);
    FlattenOne(page);
    if a in page {
      assert a in Sorted(here);
    } else {
      match NextToken(page, LastRow(rows))
      case None =>
      case Some(k) =>
        CursorDescends(rows, c, p);
        assert w[1..] == Walk(rows, Some(k), p);
        WalkStaysBelow(rows, Some(k), p, a);
    }
  }

  /** Two rows that the tie breaker and the uid order differently are not both reached by pages of
      one row. */
  lemma {:induction false} DisagreeingTiesLose(rows: set<Row>, c: Option<Cursor>, a: Row, b: Row)
    requires Keyed(rows) && a.time == b.time && a.tie > b.tie && a.uid < b.uid
    ensures !(a in Flatten(Walk(rows, c, 1)) && b in Flatten(Walk(rows, c, 1)))
    decreases BelowCursor(rows, c)
  {
    var w := Walk(rows, c, 1);
    if a in Flatten(w) && b in Flatten(w) {
      WalkStaysBelow(rows, c, 1, a);
      WalkStaysBelow(rows, c, 1, b);
      var here := BelowCursor(rows, c);
      var page := Page(rows, c, 1);
      var r := First(here);
      assert page == [r];
      assert r != b;
      assert Flatten(w) == page + Flatten(w[1..]);
      assert NextToken(page, LastRow(rows)).Some?;
      var k := Key(r);
      CursorDescends(rows, c, 1);
      assert w[1..] == Walk(rows, Some(k), 1);
      assert b in Flatten(w[1..]);
      WalkStaysBelow(rows, Some(k), 1, b);
      assert r != a;
      assert a in Flatten(w[1..]);
      DisagreeingTiesLose(rows, Some(k), a, b);
      assert false;
    }
  }

  /** A list that sorts by (time, tie) but cuts by (time, uid) is walked completely at every page
      size if and only if the two tie breakers agree on rows of equal time. */
  lemma CompleteIffTiesAgree(rows: set<Row>)
    requires Keyed(rows)
    ensures (forall p: nat | p > 0 :: Complete(rows, p)) <==> TiesAgree(rows)
  {
    if TiesAgree(rows) {
      forall p: nat | p > 0 ensures Complete(rows, p) { AgreeingTiesComplete(rows, p); }
    } else {
      var a, b :| a in rows && b in rows && a.time == b.time && !(a.tie < b.tie <==> a.uid < b.uid);
      assert a != b && a.tie != b.tie && a.uid != b.uid;
      var x, y := if a.tie > b.tie then a else b, if a.tie > b.tie then b else a;
      DisagreeingTiesLose(rows, None, x, y);
      var seen := Flatten(Walk(rows, None, 1));
      assert x in multiset(rows) && y in multiset(rows);
      assert (x in multiset(seen) <==> x in seen) && (y in multiset(seen) <==> y in seen);
      assert !Complete(rows, 1);
    }
  }
}
