/** The compiled filter on rows, where conditions are not free to mean anything. */
module FilterRows {
  import opened Wrappers
  import opened FilterCompiler
  import opened Connectives
  import opened SqlReader
  import opened FilterMeaning
  import opened LikePatterns
  import opened Strings

  function At<R(!new)>(holds: (R, Cond) -> Truth, row: R): Cond -> Truth {
    c => holds(row, c)
  }

  ghost predicate Shows<R(!new)>(holds: (R, Cond) -> Truth, row: R, conds: set<Cond>, s: set<Cond>) {
    forall c | c in conds :: holds(row, c) == Of(c in s)
  }

  /** Whatever choice of the conditions is to be true, some row makes those true and the others false. */
  ghost predicate Independent<R(!new)>(holds: (R, Cond) -> Truth, conds: set<Cond>) {
    forall s: set<Cond> | s <= conds :: exists row: R :: Shows(holds, row, conds, s)
  }

  /** The statement is well-formed and true on exactly the rows on which the filter is. */
  ghost predicate SelectsItsRows<R(!new)>(env: Env, e: Expr, holds: (R, Cond) -> Truth)
    requires View(env, e).Some? && Transpile(env, e).Ok?
  {
    forall row: R ::
      var r := SqlTruth(Transpile(env, e).value, At(holds, row));
      r.Some? && (r.value == True <==> Eval(View(env, e).value, At(holds, row)) == True)
  }

  /** The exact fragment on rows.  For a filter whose conditions rows can satisfy independently, the statement
      selects exactly the filter's rows if and only if no constant lies below a NOT, no OR lies below an
      AND, and NOT stands, except in pairs, only before single conditions. */
  lemma SelectsItsRowsIffOrderSafe<R(!new)>(env: Env, e: Expr, holds: (R, Cond) -> Truth)
    requires View(env, e).Some? && Distinct(View(env, e).value) && Independent(holds, Leaves(View(env, e).value))
    ensures Transpile(env, e).Ok?
    ensures SelectsItsRows(env, e, holds) <==>
              ConstantsUnderNot(View(env, e).value) == 0 && OrderSafe(View(env, e).value)
  {
    var t := View(env, e).value;
    TranspileIsText(env, e);
    var c := Transpile(env, e).value;
    if ConstantsUnderNot(t) == 0 && OrderSafe(t) {
      forall row: R ensures SqlTruth(c, At(holds, row)) == Some(Eval(t, At(holds, row))) {
        OrderSafeFilterSelectsItsRows(env, e, At(holds, row));
      }
    } else {
      var s := if OrderSafe(t) then {} else Difference(t);
      assert s <= Leaves(t);
      var row: R :| Shows(holds, row, Leaves(t), s);
      SqlMeansRegrouping(env, e, At(holds, row));
      if !OrderSafe(t) { Differs(t, At(holds, row)); }
      assert !SelectsItsRows(env, e, holds);
    }
  }

  /* ---- The rows of the user list ---- */

  /** The two columns that the user list's filters can name; None is NULL. */
  datatype OwnerRow = OwnerRow(id: Option<string>, email: Option<string>)

  function Cell(row: OwnerRow, name: string): Option<string> {
    if name == "id" then row.id else if name == "email" then row.email else None
  }

  function RowHolds(lc: char -> char, row: OwnerRow, c: Cond): Truth {
    match c
    case Contains(name, VString(v)) =>
      (match Cell(row, name)
       case Some(x) => if ContainsHolds(lc, x, v) then True else False
       case None => Unknown)
    case _ => Unknown
  }

  /** A text expression on a row; None is NULL, or a value that is no text. */
  function TextOn(lc: char -> char, row: OwnerRow, e: TextExpr): Option<string> {
    match e
    case ColumnText(name) => Cell(row, name)
    case QuotedText(s) => Some(s)
    case ValueText(v) => if v.VString? then Some(v.s) else None
    case Lower(a) => (match TextOn(lc, row, a) case Some(s) => Some(Map(lc, s)) case None => None)
    case Concat(es) => Concatenated(lc, row, es)
  }

  function Concatenated(lc: char -> char, row: OwnerRow, es: seq<TextExpr>): Option<string> {
    if es == [] then Some("") else
    match (TextOn(lc, row, es[0]), Concatenated(lc, row, es[1..]))
    case (Some(s), Some(t)) => Some(s + t)
    case _ => None
  }

  /** What the tokens of a LIKE come to on a row: NULL on either side is unknown. */
  function LikeOn(lc: char -> char, row: OwnerRow, ts: seq<Token>): Option<Truth> {
    match ReadLike(ts)
    case None => None
    case Some((l, r)) =>
      match (TextOn(lc, row, l), TextOn(lc, row, r))
      case (Some(x), Some(p)) => Some(if LikeMatches(x, p) then True else False)
      case _ => Some(Unknown)
  }

  lemma PatternOn(lc: char -> char, row: OwnerRow, v: string)
    ensures TextOn(lc, row, Pattern(VString(v)))
         == Some(Map(lc, "%" + v + "%"))
  {
    var es := [QuotedText("%"), ValueText(VString(v)), QuotedText("%")];
    assert es[1..] == [ValueText(VString(v)), QuotedText("%")] && es[1..][1..] == [QuotedText("%")];
    assert Concatenated(lc, row, [QuotedText("%")]) == Some("%" + "") by { assert [QuotedText("%")][1..] == []; }
    assert Concatenated(lc, row, es[1..]) == Some(v + ("%" + ""));
    assert Concatenated(lc, row, es) == Some("%" + (v + ("%" + "")));
    assert "%" + (v + ("%" + "")) == "%" + v + "%";
    assert TextOn(lc, row, Concat(es)) == Some("%" + v + "%");
  }

  /** The text of `email = v` and `id = v`, read token by token and evaluated on a row: true exactly if the
      lower-case cell matches, as a pattern, the lower-case `v` between two percent signs. */
  lemma EqualityOnRow(lc: char -> char, env: Env, e: Expr, name: string, v: string, row: OwnerRow)
    requires e.Call? && e.fn == CmpF(EQ) && |e.args| == 2 && (name == "email" || name == "id")
    requires ViewColumn(env, e.args[0]) == Some(Column(name, [])) && ViewValue(env, e.args[1]) == Some(VString(v))
    ensures Transpile(env, e).Ok? && Bind(Transpile(env, e).value.sql, Transpile(env, e).value.vars).Some?
    ensures LikeOn(lc, row, Bind(Transpile(env, e).value.sql, Transpile(env, e).value.vars).value) ==
              match Cell(row, name)
              case Some(x) => Some(if LikeMatches(Map(lc, x), Map(lc, "%" + v + "%")) then True else False)
              case None => Some(Unknown)
    ensures LikeOn(lc, row, Bind(Transpile(env, e).value.sql, Transpile(env, e).value.vars).value)
         == Some(Eval(View(env, e).value, RowTruth(lc, row)))
  {
    EqualityTranspiles(env, e, name, v);
    ContainsOn(lc, row, name, v);
    assert Eval(View(env, e).value, RowTruth(lc, row)) == RowHolds(lc, row, Contains(name, VString(v)));
  }

  lemma EqualityTranspiles(env: Env, e: Expr, name: string, v: string)
    requires e.Call? && e.fn == CmpF(EQ) && |e.args| == 2 && (name == "email" || name == "id")
    requires ViewColumn(env, e.args[0]) == Some(Column(name, [])) && ViewValue(env, e.args[1]) == Some(VString(v))
    ensures View(env, e) == Some(Leaf(Contains(name, VString(v))))
    ensures Transpile(env, e) == Ok(Clause(ContainsTokens(name, Hole), [VString(v)]))
    ensures Bind(ContainsTokens(name, Hole), [VString(v)]) == Some(ContainsTokens(name, Token.Bound(VString(v))))
  {
    TranspileIsText(env, e);
    CondBinds(Contains(name, VString(v)));
  }

  lemma ContainsOn(lc: char -> char, row: OwnerRow, name: string, v: string)
    ensures LikeOn(lc, row, ContainsTokens(name, Token.Bound(VString(v)))) ==
              match Cell(row, name)
              case Some(x) => Some(if LikeMatches(Map(lc, x), Map(lc, "%" + v + "%")) then True else False)
              case None => Some(Unknown)
  {
    ContainsReads(name, VString(v));
    PatternOn(lc, row, v);
    var l := Lower(ColumnText(name));
    assert TextOn(lc, row, l) == (match Cell(row, name) case Some(x) => Some(Map(lc, x)) case None => None) by {
      assert TextOn(lc, row, ColumnText(name)) == Cell(row, name);
    }
  }

  function HoldsOn(lc: char -> char): (OwnerRow, Cond) -> Truth {
    (row, c) => RowHolds(lc, row, c)
  }

  function RowTruth(lc: char -> char, row: OwnerRow): Cond -> Truth {
    c => RowHolds(lc, row, c)
  }

  /** An equality of `id` or `email` with a value that is not empty and has no LIKE metacharacter. */
  predicate PlainEquality(c: Cond) {
    c.Contains? && (c.name == "id" || c.name == "email") && c.v.VString? && c.v.s != "" && Wildcardless(c.v.s)
  }

  /** No value contains another one compared with the same column, and none contains `sep`. */
  ghost predicate Unrelated(lc: char -> char, conds: set<Cond>, sep: char) {
    && (forall c | c in conds :: PlainEquality(c) && lc(sep) !in Map(lc, c.v.s))
    && forall c, d | c in conds && d in conds && c.name == d.name && c != d ::
        !IsSubstring(Map(lc, c.v.s), Map(lc, d.v.s))
  }

  /** The texts one after the other, each followed by `sep`. */
  function Spelled(vs: seq<string>, sep: char): string {
    if vs == [] then "" else vs[0] + [sep] + Spelled(vs[1..], sep)
  }

  lemma {:induction false} SpelledContains(vs: seq<string>, sep: char, k: nat)
    requires k < |vs|
    ensures IsSubstring(vs[k], Spelled(vs, sep))
  {
    if k == 0 {
      assert OccursAt(vs[0], Spelled(vs, sep), 0);
    } else {
      SpelledContains(vs[1..], sep, k - 1);
      var rest := Spelled(vs[1..], sep);
      var i: nat :| OccursAt(vs[k], rest, i);
      var j := |vs[0]| + 1 + i;
      assert Spelled(vs, sep)[j..j + |vs[k]|] == rest[i..i + |vs[k]|];
      assert OccursAt(vs[k], Spelled(vs, sep), j);
    }
  }

  lemma AcrossHasSeparator(a: string, rest: string, sep: char, i: nat, n: nat)
    requires i <= |a| < i + n <= |a| + 1 + |rest|
    ensures sep in (a + [sep] + rest)[i..i + n]
  {
    assert (a + [sep] + rest)[i..i + n][|a| - i] == sep;
  }

  lemma OccursLeft(v: string, a: string, rest: string, sep: char, i: nat)
    requires OccursAt(v, a + [sep] + rest, i) && i + |v| <= |a|
    ensures IsSubstring(v, a)
  {
    assert a[i..i + |v|] == (a + [sep] + rest)[i..i + |v|];
    assert OccursAt(v, a, i);
  }

  /** A text without the separator occurs in the spelling only within one of its parts. */
  lemma {:induction false} SpelledOnly(v: string, vs: seq<string>, sep: char, i: nat) returns (k: nat)
    requires v != "" && sep !in v && OccursAt(v, Spelled(vs, sep), i)
    ensures k < |vs| && IsSubstring(v, vs[k])
  {
    var a, rest := vs[0], Spelled(vs[1..], sep);
    if i <= |a| < i + |v| { AcrossHasSeparator(a, rest, sep, i, |v|); }
    if i + |v| <= |a| {
      OccursLeft(v, a, rest, sep, i);
      k := 0;
    } else {
      k := SpelledOnly(v, vs[1..], sep, i - |a| - 1);
      k := k + 1;
    }
  }

  lemma {:induction false} LoweredSpelling(lc: char -> char, vs: seq<string>, sep: char)
    ensures Map(lc, Spelled(vs, sep)) == Spelled(seq(|vs|, i requires 0 <= i < |vs| => Map(lc, vs[i])), lc(sep))
  {
    if vs != [] {
      LoweredSpelling(lc, vs[1..], sep);
      var us := seq(|vs|, i requires 0 <= i < |vs| => Map(lc, vs[i]));
      assert us[1..] == seq(|vs[1..]|, i requires 0 <= i < |vs[1..]| => Map(lc, vs[1..][i]));
      assert Map(lc, vs[0] + [sep] + Spelled(vs[1..], sep))
          == Map(lc, vs[0]) + [lc(sep)] + Map(lc, Spelled(vs[1..], sep));
    }
  }

  lemma {:induction false} Listed(s: set<Cond>, name: string) returns (vs: seq<string>)
    requires forall c | c in s :: PlainEquality(c)
    ensures forall v :: v in vs <==> Contains(name, VString(v)) in s
    decreases |s|
  {
    if s == {} {
      vs := [];
    } else {
      var c :| c in s;
      vs := Listed(s - {c}, name);
      if c.name == name {
        assert forall v :: Contains(name, VString(v)) == c <==> v == c.v.s;
        vs := [c.v.s] + vs;
      } else {
        assert forall v :: Contains(name, VString(v)) != c;
      }
    }
  }

  /** A cell that spells out the wanted values contains them and no others. */
  lemma CellShows(lc: char -> char, conds: set<Cond>, sep: char, s: set<Cond>, vs: seq<string>, c: Cond)
    requires KeepsSpecial(lc) && Unrelated(lc, conds, sep) && s <= conds && c in conds
    requires forall v :: v in vs <==> Contains(c.name, VString(v)) in s
    ensures ContainsHolds(lc, Spelled(vs, sep), c.v.s) <==> c in s
  {
    EqualityMeansSubstring(lc, Spelled(vs, sep), c.v.s);
    LoweredSpelling(lc, vs, sep);
    var us := seq(|vs|, i requires 0 <= i < |vs| => Map(lc, vs[i]));
    var v := Map(lc, c.v.s);
    if c in s {
      assert c == Contains(c.name, VString(c.v.s)) && c.v.s in vs;
      var k :| 0 <= k < |vs| && vs[k] == c.v.s;
      SpelledContains(us, lc(sep), k);
    }
    if i: nat :| OccursAt(v, Spelled(us, lc(sep)), i) {
      var k := SpelledOnly(v, us, lc(sep), i);
      var d := Contains(c.name, VString(vs[k]));
      assert vs[k] in vs && d in s;
      assert c == d;
    }
  }

  /** Rows satisfy such equalities independently. */
  lemma UnrelatedAreIndependent(lc: char -> char, conds: set<Cond>, sep: char)
    requires KeepsSpecial(lc) && Unrelated(lc, conds, sep)
    ensures Independent(HoldsOn(lc), conds)
  {
    forall s: set<Cond> | s <= conds ensures exists row: OwnerRow :: Shows(HoldsOn(lc), row, conds, s) {
      var ids := Listed(s, "id");
      var emails := Listed(s, "email");
      var row := OwnerRow(Some(Spelled(ids, sep)), Some(Spelled(emails, sep)));
      forall c | c in conds ensures HoldsOn(lc)(row, c) == Of(c in s) {
        CellShows(lc, conds, sep, s, if c.name == "id" then ids else emails, c);
      }
      assert Shows(HoldsOn(lc), row, conds, s);
    }
  }

  /** The user list's filters: if no value occurs in another one compared with the same column, the statement
      selects exactly the filter's rows if and only if no constant lies below a NOT and no OR below an AND. */
  lemma UserListSelectsItsRowsIff(lc: char -> char, env: Env, e: Expr, sep: char)
    requires KeepsSpecial(lc) && View(env, e).Some? && Distinct(View(env, e).value)
    requires Unrelated(lc, Leaves(View(env, e).value), sep)
    ensures Transpile(env, e).Ok?
    ensures SelectsItsRows(env, e, HoldsOn(lc)) <==>
              ConstantsUnderNot(View(env, e).value) == 0 && OrderSafe(View(env, e).value)
  {
    UnrelatedAreIndependent(lc, Leaves(View(env, e).value), sep);
    SelectsItsRowsIffOrderSafe(env, e, HoldsOn(lc));
  }
}
