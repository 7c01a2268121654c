/** Where the compiled filter departs from the filter, by example. */
module FilterLimits {
  import opened Wrappers
  import opened FilterCompiler
  import opened Connectives
  import opened SqlReader
  import opened FilterMeaning
  import opened FilterOutcome
  import opened FilterRows
  import opened LikePatterns
  import opened Strings

  /** `name = v` */
  function Equals(id: int, name: string, v: string): Expr {
    Call(0, CmpF(EQ), [Ident(id, name), Constant(0, StringC(v))])
  }

  /** `id = a AND (p OR q)`, where `p` and `q` compare the named columns. */
  function AndOr(a: string, p: string, b: string, q: string, c: string): Expr {
    Call(0, AndF, [Equals(1, "id", a), Call(0, OrF, [Equals(2, p, b), Equals(3, q, c)])])
  }

  lemma AndOrViews(a: string, p: string, b: string, q: string, c: string)
    requires (p == "email" || p == "id") && (q == "email" || q == "id")
    ensures View(USER_LIST, AndOr(a, p, b, q, c))
         == Some(And(Leaf(Contains("id", VString(a))),
             Or(Leaf(Contains(p, VString(b))), Leaf(Contains(q, VString(c))))))
  {
    assert View(USER_LIST, Call(0, OrF, [Equals(2, p, b), Equals(3, q, c)]))
        == Some(Or(Leaf(Contains(p, VString(b))), Leaf(Contains(q, VString(c)))));
  }

  /** The text of `p AND (q OR r)` is read as `(p AND q) OR r`. */
  lemma OrBelowAndReadsOtherwise(p: Cond, q: Cond, r: Cond, m: Cond -> Truth)
    ensures EvalGroups(Regroup(And(Leaf(p), Or(Leaf(q), Leaf(r)))), m) == OrOf(AndOf(m(p), m(q)), m(r))
  {
    var x, y, z := Lit(0, p), Lit(0, q), Lit(0, r);
    assert Regroup(Or(Leaf(q), Leaf(r))) == [[y], [z]];
    assert Glue([[x]], [[y], [z]]) == [[x] + [y]] + [[z]];
    EvalGroupsAppend([[x, y]], [[z]], m);
    SingleLit(z, m);
    EvalGroupAppend([x], [y], m);
    SingleLit(x, m);
    SingleLit(y, m);
    assert [x] + [y] == [x, y];
    assert EvalGroups([[x, y]], m) == OrOf(EvalGroup([x, y], m), EvalGroups([], m));
  }

  /** The statement of `id = a AND (p OR q)` is true as `(id = a AND p) OR q` is. */
  lemma AndOrSelects(m: Cond -> Truth, a: string, p: string, b: string, q: string, c: string, x: Truth, y: Truth,
      z: Truth)
    requires (p == "email" || p == "id") && (q == "email" || q == "id")
    requires x == m(Contains("id", VString(a))) && y == m(Contains(p, VString(b))) && z == m(Contains(q, VString(c)))
    ensures var f := AndOr(a, p, b, q, c);
            && View(USER_LIST, f).Some? && Transpile(USER_LIST, f).Ok?
            && Eval(View(USER_LIST, f).value, m) == AndOf(x, OrOf(y, z))
            && SqlTruth(Transpile(USER_LIST, f).value, m) == Some(OrOf(AndOf(x, y), z))
  {
    var s, t, u := Leaf(Contains("id", VString(a))), Leaf(Contains(p, VString(b))), Leaf(Contains(q, VString(c)));
    AndOrViews(a, p, b, q, c);
    AndOrEvaluates(s, t, u, m);
    SqlMeansRegrouping(USER_LIST, AndOr(a, p, b, q, c), m);
    OrBelowAndReadsOtherwise(s.a, t.a, u.a, m);
  }

  lemma AndOrEvaluates(s: Tree<Cond>, t: Tree<Cond>, u: Tree<Cond>, m: Cond -> Truth)
    requires s.Leaf? && t.Leaf? && u.Leaf?
    ensures Eval(And(s, Or(t, u)), m) == AndOf(m(s.a), OrOf(m(t.a), m(u.a))) && ConstantsUnderNot(And(s, Or(t, u))) == 0
  {
    assert Eval(Or(t, u), m) == OrOf(Eval(t, m), Eval(u, m));
    assert ConstantsUnderNot(Or(t, u)) == ConstantsUnderNot(t) + ConstantsUnderNot(u);
  }

  lemma NothingInNothing(lc: char -> char, v: string)
    requires KeepsSpecial(lc) && v != "" && Wildcardless(v)
    ensures !ContainsHolds(lc, "", v)
  {
    EqualityMeansSubstring(lc, "", v);
  }

  lemma ContainsItself(lc: char -> char, v: string)
    requires KeepsSpecial(lc) && Wildcardless(v)
    ensures ContainsHolds(lc, v, v)
  {
    EqualityMeansSubstring(lc, v, v);
    assert OccursAt(Map(lc, v), Map(lc, v), 0);
  }

  lemma DoubledContainsSingle(lc: char -> char, x: string)
    requires KeepsSpecial(lc)
    ensures ContainsHolds(lc, x, "xx") ==> ContainsHolds(lc, x, "x")
  {
    EqualityMeansSubstring(lc, x, "x");
    EqualityMeansSubstring(lc, x, "xx");
    var s := Map(lc, x);
    if i: nat :| OccursAt(Map(lc, "xx"), s, i) {
      assert s[i..i + 1] == s[i..i + 2][..1] == Map(lc, "x");
      assert OccursAt(Map(lc, "x"), s, i);
    }
  }

  /** AIP-160 parses `id = "a" AND id = "b" OR email = "c"` as `id = "a" AND (id = "b" OR email = "c")`, because
      OR binds tighter there.  The compiled text loses that: it selects the row with an empty id and the
      email `c`, which the filter does not. */
  lemma OrBelowAndSelectsTooMuch(lc: char -> char)
    requires KeepsSpecial(lc)
    ensures var f := AndOr("a", "id", "b", "email", "c"); var m := RowTruth(lc, OwnerRow(Some(""), Some("c")));
            && View(USER_LIST, f).Some? && Eval(View(USER_LIST, f).value, m) == False
            && Transpile(USER_LIST, f).Ok? && SqlTruth(Transpile(USER_LIST, f).value, m) == Some(True)
  {
    NothingInNothing(lc, "a");
    NothingInNothing(lc, "b");
    ContainsItself(lc, "c");
    AndOrSelects(RowTruth(lc, OwnerRow(Some(""), Some("c"))), "a", "id", "b", "email", "c", False, False, True);
  }

  lemma AndOrShape(s: Tree<Cond>, t: Tree<Cond>, u: Tree<Cond>)
    requires s.Leaf? && t.Leaf? && u.Leaf? && s.a != t.a && t.a != u.a && s.a != u.a
    ensures Distinct(And(s, Or(t, u))) && !OrderSafe(And(s, Or(t, u)))
  {
    assert Leaves(Or(t, u)) == {t.a, u.a} && HasOr(Or(t, u));
  }

  /** Three different conditions and an OR below an AND, yet the text selects exactly the filter's rows:
      an id that contains `xx` contains `x`. */
  lemma DependentConditionsMayCoincide(lc: char -> char, row: OwnerRow)
    requires KeepsSpecial(lc)
    ensures var f := AndOr("x", "email", "y", "id", "xx"); var m := RowTruth(lc, row);
            && View(USER_LIST, f).Some? && Distinct(View(USER_LIST, f).value) && !OrderSafe(View(USER_LIST, f).value)
            && Transpile(USER_LIST, f).Ok?
            && SqlTruth(Transpile(USER_LIST, f).value, m) == Some(Eval(View(USER_LIST, f).value, m))
  {
    AndOrViews("x", "email", "y", "id", "xx");
    AndOrShape(
      Leaf(Contains("id", VString("x"))), Leaf(Contains("email", VString("y"))), Leaf(Contains("id", VString("xx"))));
    var m := RowTruth(lc, row);
    var p, q, r := Contains("id", VString("x")), Contains("email", VString("y")), Contains("id", VString("xx"));
    if row.id.Some? { DoubledContainsSingle(lc, row.id.value); }
    AndOrSelects(m, "x", "email", "y", "id", "xx", m(p), m(q), m(r));
  }

  /** A filter with a constant below a NOT is accepted and yields a statement with an unbound
      placeholder, whatever else it contains. */
  lemma ConstantUnderNotIsUnbound(env: Env, e: Expr, m: Cond -> Truth)
    requires View(env, e).Some? && ConstantsUnderNot(View(env, e).value) > 0
    ensures Transpile(env, e).Ok?
    ensures Holes(Transpile(env, e).value.sql) > |Transpile(env, e).value.vars|
    ensures SqlTruth(Transpile(env, e).value, m) == None
  {
    TranspileIsText(env, e);
    PlaceholderLaw(View(env, e).value);
    SqlMeansRegrouping(env, e, m);
  }

  /** Not only NOT drops variables: so does the left side of a comparison.  AIP-160 text cannot put a
      comparison there, but the compiler accepts the tree. */
  lemma LeftHandSideVariablesAreLost(v: string)
    ensures var e := Call(0, CmpF(EQ), [Equals(1, "id", v), Constant(0, BoolC(true))]);
            && Transpile(USER_LIST, e) == Ok(Clause(ContainsTokens("id", Hole) + [Op(EQ), Hole], [VBool(true)]))
            && View(USER_LIST, e) == None
  {
    var a := Equals(1, "id", v);
    TranspileIsText(USER_LIST, a);
    var e := Call(0, CmpF(EQ), [a, Constant(0, BoolC(true))]);
    assert Transpile(USER_LIST, e.args[1]) == Ok(Clause([], [VBool(true)]));
    assert |ContainsTokens("id", Hole)| > 1;
    assert Transpile(USER_LIST, e) == CompareClause(USER_LIST, EQ, ContainsTokens("id", Hole), [VBool(true)]);
  }
}
