/** When the filter compiler answers, and when it panics. */
module FilterOutcome {
  import opened Wrappers
  import opened FilterCompiler
  import opened SqlReader
  import opened FilterMeaning

  /** `:` on a list of primitives, or on a field of a column. */
  predicate HasTarget(env: Env, lhs: Expr) {
    match lhs
    case Ident(id, _) => id in env.types && env.types[id] == PrimitiveList
    case Select(_, _, _) => ViewColumn(env, lhs).Some?
    case _ => false
  }

  /** A column or a value. */
  predicate IsOperand(env: Env, e: Expr) {
    ViewColumn(env, e).Some? || ViewValue(env, e).Some?
  }

  /** AND, OR and NOT over comparisons of columns and values, `:` with a constant, and bare columns. */
  predicate Shaped(env: Env, e: Expr) {
    match e
    case Call(_, AndF, args) => |args| == 2 && Shaped(env, args[0]) && Shaped(env, args[1])
    case Call(_, OrF, args) => |args| == 2 && Shaped(env, args[0]) && Shaped(env, args[1])
    case Call(_, NotF, args) => |args| == 1 && Shaped(env, args[0])
    case Call(_, CmpF(_), args) =>
      |args| == 2 && IsOperand(env, args[0]) && IsOperand(env, args[1])
    case Call(_, HasF, args) => |args| == 2 && args[1].Constant? && !args[1].c.OtherC? && HasTarget(env, args[0])
    case Ident(_, _) => ViewColumn(env, e).Some?
    case Select(_, _, _) => ViewColumn(env, e).Some?
    case _ => false
  }

  /** An equality of `email` or `id` with a column, or a field that `:` compares with something other than a
      string. */
  predicate Offends(env: Env, e: Expr)
    requires Shaped(env, e)
  {
    match e
    case Call(_, AndF, args) => Offends(env, args[0]) || Offends(env, args[1])
    case Call(_, OrF, args) => Offends(env, args[0]) || Offends(env, args[1])
    case Call(_, NotF, args) => Offends(env, args[0])
    case Call(_, CmpF(op), args) =>
      && op == EQ && ViewColumn(env, args[1]).Some?
      && (ViewColumn(env, args[0]) == Some(Column("email", [])) || ViewColumn(env, args[0]) == Some(Column("id", [])))
    case Call(_, HasF, args) => args[0].Select? && !args[1].c.StringC?
    case _ => false
  }

  lemma OperandTranspiles(env: Env, e: Expr)
    requires IsOperand(env, e)
    ensures Transpile(env, e) == (match ViewColumn(env, e)
                                  case Some(c) => Ok(Clause(ColumnTokens(c), []))
                                  case None => Ok(Clause([], [ViewValue(env, e).value])))
  {
    if ViewColumn(env, e).Some? { ColumnTranspiles(env, e); }
  }

  lemma ComparisonOutcome(env: Env, e: Expr)
    requires Shaped(env, e) && e.Call? && e.fn.CmpF?
    ensures if Offends(env, e) then Transpile(env, e) == Panic else Transpile(env, e).Ok?
  {
    OperandTranspiles(env, e.args[0]);
    OperandTranspiles(env, e.args[1]);
  }

  lemma HasOutcome(env: Env, e: Expr)
    requires Shaped(env, e) && e.Call? && e.fn == HasF
    ensures if Offends(env, e) then Transpile(env, e) == Panic else Transpile(env, e).Ok?
  {
    if e.args[0].Select? {
      var operand := e.args[0].operand;
      assert ViewColumn(env, operand).Some?;
      ColumnTranspiles(env, if operand.Select? then operand.operand else operand);
    }
  }

  /** The compiler never refuses such a filter with an error; it panics if and only if a leaf offends. */
  lemma {:induction false} PanicsIffOffends(env: Env, e: Expr)
    requires Shaped(env, e)
    ensures Transpile(env, e) == Panic <==> Offends(env, e)
    ensures Transpile(env, e) != Err
  {
    match e
    case Call(_, AndF, args) => PanicsIffOffends(env, args[0]); PanicsIffOffends(env, args[1]);
    case Call(_, OrF, args) => PanicsIffOffends(env, args[0]); PanicsIffOffends(env, args[1]);
    case Call(_, NotF, args) => PanicsIffOffends(env, args[0]);
    case Call(_, CmpF(_), args) => ComparisonOutcome(env, e);
    case Call(_, HasF, args) => HasOutcome(env, e);
    case _ => ColumnTranspiles(env, e);
  }

  /** Filters whose leaves are conditions on a column and a value never panic. */
  lemma {:induction false} ViewedNeverPanics(env: Env, e: Expr)
    requires View(env, e).Some?
    ensures Shaped(env, e) && !Offends(env, e)
  {
    match e
    case Call(_, AndF, args) => ViewedNeverPanics(env, args[0]); ViewedNeverPanics(env, args[1]);
    case Call(_, OrF, args) => ViewedNeverPanics(env, args[0]); ViewedNeverPanics(env, args[1]);
    case Call(_, NotF, args) => ViewedNeverPanics(env, args[0]);
    case _ =>
  }

  /** The two identifiers that the user list declares, both strings. */
  const USER_LIST: Env :=
    Env("owner", map[1 := OtherType, 2 := OtherType, 3 := OtherType], (s: string) => s, (s: string) => None)

  /** `email = id`, which the user list's declarations allow, panics. */
  lemma EmailEqualsIdPanics()
    ensures var e := Call(0, CmpF(EQ), [Ident(1, "email"), Ident(2, "id")]);
            Shaped(USER_LIST, e) && Transpile(USER_LIST, e) == Panic
  {
    var e := Call(0, CmpF(EQ), [Ident(1, "email"), Ident(2, "id")]);
    assert ViewColumn(USER_LIST, e.args[0]) == Some(Column("email", []));
    assert ViewColumn(USER_LIST, e.args[1]) == Some(Column("id", []));
    PanicsIffOffends(USER_LIST, e);
  }
}
