/**
 What a database makes of the compiled text.  Placeholders are bound left to right; the
 boolean part is read with SQL precedence: NOT binds tighter than AND, AND tighter than OR.
 The reader knows the leaf forms the compiler can write and refuses everything else.
*/
module SqlReader {
  import opened Wrappers
  import opened FilterCompiler
  import opened Connectives

  /** A column, or a JSON field below it. */
  datatype Column = Column(name: string, path: seq<string>)

  /** The leaf conditions. */
  datatype Cond =
    | Compare(op: Cmp, col: Column, v: Value)
    | Contains(name: string, v: Value)      // case-insensitive substring
    | Member(col: Column, v: Value)
    | Matches(col: Column, v: Value)
    | Flag(col: Column)

  /* ---- Placeholders ---- */

  function Holes(sql: seq<Token>): nat {
    if sql == [] then 0 else (if sql[0] == Hole then 1 else 0) + Holes(sql[1..])
  }

  /** Fill the placeholders left to right; fails unless there are as many as variables. */
  function Bind(sql: seq<Token>, vars: seq<Value>): Option<seq<Token>> {
    if sql == [] then if vars == [] then Some([]) else None
    else if sql[0] == Hole then
      if vars == [] then None else
      (match Bind(sql[1..], vars[1..])
       case Some(rest) => Some([Token.Bound(vars[0])] + rest)
       case None => None)
    else
      (match Bind(sql[1..], vars)
       case Some(rest) => Some([sql[0]] + rest)
       case None => None)
  }

  lemma {:induction false} BindAppend(a: seq<Token>, b: seq<Token>, va: seq<Value>, vb: seq<Value>)
    requires Bind(a, va).Some? && Bind(b, vb).Some?
    ensures Bind(a + b, va + vb) == Some(Bind(a, va).value + Bind(b, vb).value)
  {
    if a == [] {
      assert va == [] && a + b == b && va + vb == vb;
      assert [] + Bind(b, vb).value == Bind(b, vb).value;
    } else {
      assert (a + b)[1..] == a[1..] + b;
      if a[0] == Hole {
        assert (va + vb)[1..] == va[1..] + vb;
        BindAppend(a[1..], b, va[1..], vb);
      } else {
        BindAppend(a[1..], b, va, vb);
      }
      assert forall x: Token, s: seq<Token>, r: seq<Token> :: [x] + (s + r) == ([x] + s) + r;
    }
  }

  lemma {:induction false} BindNeedsEqual(sql: seq<Token>, vars: seq<Value>)
    ensures Bind(sql, vars).Some? <==> Holes(sql) == |vars|
  {
    if sql != [] {
      if sql[0] == Hole {
        if vars != [] { BindNeedsEqual(sql[1..], vars[1..]); }
      } else {
        BindNeedsEqual(sql[1..], vars);
      }
    }
  }

  lemma {:induction false} HolesAppend(a: seq<Token>, b: seq<Token>)
    ensures Holes(a + b) == Holes(a) + Holes(b)
  {
    if a == [] {
      assert a + b == b;
    } else {
      assert (a + b)[1..] == a[1..] + b;
      HolesAppend(a[1..], b);
    }
  }

  lemma {:induction false} NoHoles(ts: seq<Token>)
    requires Hole !in ts
    ensures Holes(ts) == 0
  {
    if ts != [] { NoHoles(ts[1..]); }
  }

  lemma JoinHoles(a: seq<Token>, sep: Token, b: seq<Token>)
    ensures Holes(a + [sep] + b) == Holes(a) + Holes([sep]) + Holes(b)
  {
    HolesAppend(a + [sep], b);
    HolesAppend(a, [sep]);
  }

  lemma ContainsHoles(name: string)
    ensures Holes(ContainsTokens(name, Hole)) == 1
  {
    JoinHoles(ContainsBefore(name), Hole, CONTAINS_AFTER);
    NoHoles(ContainsBefore(name));
    NoHoles(CONTAINS_AFTER);
  }

  lemma MemberHoles(col: seq<Token>)
    requires Hole !in col
    ensures Holes(MemberTokens(col, Hole)) == 1
  {
    var after := [Op(EQ), Name("ANY"), LParen] + col + [RParen];
    NoHoles(after);
    assert MemberTokens(col, Hole)[1..] == after;
  }

  /* ---- The reader ---- */

  function Split(ts: seq<Token>, sep: Token): (r: seq<seq<Token>>)
    ensures r != []
  {
    if ts == [] then [[]]
    else if ts[0] == sep then [[]] + Split(ts[1..], sep)
    else var r := Split(ts[1..], sep); [[ts[0]] + r[0]] + r[1..]
  }

  function ReadColumn(ts: seq<Token>): Option<Column> {
    var n := |ts|;
    if n == 1 then if ts[0].Name? then Some(Column(ts[0].s, [])) else None
    else if n >= 3 && ts[n - 2] == Arrow && ts[n - 1].Quoted? then
      (match ReadColumn(ts[..n - 2])
       case Some(c) => Some(Column(c.name, c.path + [ts[n - 1].q]))
       case None => None)
    else None
  }

  /* A parenthesized LIKE between two text expressions. */

  datatype TextExpr =
    | ColumnText(name: string)
    | QuotedText(s: string)
    | ValueText(v: Value)
    | Lower(e: TextExpr)
    | Concat(es: seq<TextExpr>)

  /** A text expression, and what comes after it. */
  function ReadText(ts: seq<Token>): (r: Option<(TextExpr, seq<Token>)>)
    ensures r.Some? ==> |r.value.1| < |ts|
    decreases |ts|, 0
  {
    if ts == [] then None else
    match ts[0]
    case Quoted(q) => Some((QuotedText(q), ts[1..]))
    case Bound(v) => Some((ValueText(v), ts[1..]))
    case Name(f) =>
      if |ts| < 2 || ts[1] != LParen then Some((ColumnText(f), ts[1..])) else
      (match ReadTexts(ts[2..])
       case None => None
       case Some((es, rest)) =>
         if f == "LOWER" && |es| == 1 then Some((Lower(es[0]), rest))
         else if f == "CONCAT" then Some((Concat(es), rest))
         else None)
    case _ => None
  }

  /** Text expressions with commas between them up to the closing parenthesis. */
  function ReadTexts(ts: seq<Token>): (r: Option<(seq<TextExpr>, seq<Token>)>)
    ensures r.Some? ==> |r.value.1| < |ts|
    decreases |ts|, 1
  {
    match ReadText(ts)
    case None => None
    case Some((e, rest)) =>
      if rest == [] then None
      else if rest[0] == RParen then Some(([e], rest[1..]))
      else if rest[0] != Comma then None
      else
        match ReadTexts(rest[1..])
        case None => None
        case Some((es, after)) => Some(([e] + es, after))
  }

  function ReadLike(ts: seq<Token>): Option<(TextExpr, TextExpr)> {
    if ts == [] || ts[0] != LParen then None else
    match ReadText(ts[1..])
    case None => None
    case Some((l, rest)) =>
      if rest == [] || rest[0] != Like then None else
      match ReadText(rest[1..])
      case None => None
      case Some((r, end)) => if end == [RParen] then Some((l, r)) else None
  }

  /** `LOWER(name) LIKE LOWER(CONCAT('%', v, '%'))` is the substring condition. */
  function ContainsOf(l: TextExpr, r: TextExpr): Option<Cond> {
    if && l.Lower? && l.e.ColumnText? && r.Lower? && r.e.Concat? && |r.e.es| == 3
       && r.e.es[0] == QuotedText("%") && r.e.es[1].ValueText? && r.e.es[2] == QuotedText("%")
    then Some(Contains(l.e.name, r.e.es[1].v)) else None
  }

  function ReadCond(ts: seq<Token>): Option<Cond> {
    var n := |ts|;
    if n == 0 then None
    else if ts[0].Bound? then
      if n >= 5 && ts[1..4] == [Op(EQ), Name("ANY"), LParen] && ts[n - 1] == RParen then
        (match ReadColumn(ts[4..n - 1])
         case Some(c) => Some(Member(c, ts[0].v))
         case None => None)
      else None
    else if ts[0] == LParen then
      (match ReadLike(ts)
       case Some((l, r)) => ContainsOf(l, r)
       case None => None)
    else if n >= 3 && ts[n - 1].Bound? && ts[n - 2].Op? then
      (match ReadColumn(ts[..n - 2])
       case Some(c) => Some(Compare(ts[n - 2].op, c, ts[n - 1].v))
       case None => None)
    else if n >= 3 && ts[n - 1].Bound? && ts[n - 2] == Like then
      (match ReadColumn(ts[..n - 2])
       case Some(c) => Some(Matches(c, ts[n - 1].v))
       case None => None)
    else
      (match ReadColumn(ts)
       case Some(c) => Some(Flag(c))
       case None => None)
  }

  function ReadLit(ts: seq<Token>): Option<Lit<Cond>> {
    if ts != [] && ts[0] == NotT then
      (match ReadLit(ts[1..])
       case Some(x) => Some(Lit(x.nots + 1, x.a))
       case None => None)
    else
      (match ReadCond(ts)
       case Some(c) => Some(Lit(0, c))
       case None => None)
  }

  function ReadGroup(parts: seq<seq<Token>>): Option<seq<Lit<Cond>>> {
    if parts == [] then Some([]) else
    match (ReadLit(parts[0]), ReadGroup(parts[1..]))
    case (Some(x), Some(xs)) => Some([x] + xs)
    case _ => None
  }

  function ReadGroups(parts: seq<seq<Token>>): Option<Groups<Cond>> {
    if parts == [] then Some([]) else
    match (ReadGroup(Split(parts[0], AndT)), ReadGroups(parts[1..]))
    case (Some(x), Some(xs)) => Some([x] + xs)
    case _ => None
  }

  /** OR of ANDs of literals. */
  function Read(ts: seq<Token>): Option<Groups<Cond>> {
    ReadGroups(Split(ts, OrT))
  }

  /** The truth of the compiled clause on a row that gives each condition the truth `m`; None
      if the statement is malformed. */
  function SqlTruth(c: Clause, m: Cond -> Truth): Option<Truth> {
    match Bind(c.sql, c.vars)
    case None => None
    case Some(ts) =>
      match Read(ts)
      case None => None
      case Some(gs) => Some(EvalGroups(gs, m))
  }

  /* ---- Splitting ---- */

  lemma {:induction false} SplitAppend(a: seq<Token>, b: seq<Token>, sep: Token)
    ensures Split(a + b, sep) == Glue(Split(a, sep), Split(b, sep))
  {
    if a == [] {
      assert a + b == b && Split(a, sep) == [[]];
      assert [] + Split(b, sep)[0] == Split(b, sep)[0];
    } else {
      assert (a + b)[1..] == a[1..] + b;
      SplitAppend(a[1..], b, sep);
      var r, s := Split(a[1..], sep), Split(b, sep);
      if a[0] == sep {
        GlueCons([], r, s);
      } else {
        GluePrefix(a[0], r, s);
      }
    }
  }

  lemma GlueEmpty<T>(x: seq<seq<T>>, y: seq<seq<T>>)
    requires x != []
    ensures Glue(x, [[]] + y) == x + y
  {
    assert x[|x| - 1] + [] == x[|x| - 1];
    assert ([[]] + y)[1..] == y;
  }

  lemma SplitAt(a: seq<Token>, b: seq<Token>, sep: Token)
    ensures Split(a + [sep] + b, sep) == Split(a, sep) + Split(b, sep)
  {
    assert a + [sep] + b == a + ([sep] + b);
    SplitAppend(a, [sep] + b, sep);
    assert ([sep] + b)[1..] == b;
    GlueEmpty(Split(a, sep), Split(b, sep));
  }

  lemma {:induction false} SplitNone(a: seq<Token>, sep: Token)
    requires sep !in a
    ensures Split(a, sep) == [a]
  {
    if a != [] {
      SplitNone(a[1..], sep);
      assert [a[0]] + a[1..] == a;
    }
  }
}
