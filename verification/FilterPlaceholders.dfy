/** Placeholders against variables, for every filter the compiler accepts. */
module FilterPlaceholders {
  import opened Wrappers
  import opened FilterCompiler
  import opened SqlReader
  import opened FilterMeaning

  function SqlOf(env: Env, e: Expr): seq<Token> {
    match Transpile(env, e) case Ok(c) => c.sql case _ => []
  }

  function VarsOf(env: Env, e: Expr): seq<Value> {
    match Transpile(env, e) case Ok(c) => c.vars case _ => []
  }

  predicate IsConnective(e: Expr) {
    e.Call? && (e.fn.AndF? || e.fn.OrF?) && |e.args| == 2
  }

  /** The operand whose text is kept and whose variables are not: that of NOT, the left side of a
      comparison, the inside of a selection. */
  function TextOnly(e: Expr): Option<Expr> {
    match e
    case Call(_, NotF, args) => if |args| == 1 then Some(args[0]) else None
    case Call(_, CmpF(_), args) => if |args| == 2 then Some(args[0]) else None
    case Call(_, HasF, args) =>
      if |args| == 2 && args[0].Select? && args[0].operand.Select? then Some(args[0].operand.operand) else None
    case Select(_, operand, _) => Some(operand)
    case _ => None
  }

  predicate IsCondition(e: Expr) { e.Call? && (e.fn.CmpF? || e.fn.HasF?) }

  /** The comparisons and `:` calls that write a placeholder: those reached through AND and OR and through
      operands whose text is kept. */
  function Marks(e: Expr): nat {
    if IsConnective(e) then Marks(e.args[0]) + Marks(e.args[1])
    else (if IsCondition(e) then 1 else 0) + (match TextOnly(e) case Some(u) => Marks(u) case None => 0)
  }

  /** An equality with the `email` or `id` column, which takes one variable and no more. */
  predicate IsSubstringTest(env: Env, e: Expr) {
    && e.Call? && e.fn == CmpF(EQ) && |e.args| == 2 && e.args[0].Ident? && IsName(env, e.args[0])
    && (env.snake(e.args[0].name) == "email" || env.snake(e.args[0].name) == "id")
  }

  /** An identifier that stands for a column, not for an enum value. */
  predicate IsName(env: Env, e: Expr)
    requires e.Ident?
  {
    e.id in env.types && !(env.types[e.id].EnumType? && e.name in env.types[e.id].values)
  }

  /** The values that become variables, left to right: constants, timestamps and enum values that stand on the
      right of a comparison or `:`, or bare, outside NOT. */
  function Listed(env: Env, e: Expr): seq<Value> {
    match e
    case Call(_, AndF, args) => if |args| == 2 then Listed(env, args[0]) + Listed(env, args[1]) else []
    case Call(_, OrF, args) => if |args| == 2 then Listed(env, args[0]) + Listed(env, args[1]) else []
    case Call(_, CmpF(_), args) =>
      if |args| != 2 then [] else
      var right := Listed(env, args[1]);
      if IsSubstringTest(env, e) && right != [] then [right[0]] else right
    case Call(_, HasF, args) => if |args| == 2 && args[1].Constant? then HasValue(args[0], args[1].c) else []
    case _ => (match ViewValue(env, e) case Some(v) => [v] case None => [])
  }

  /** A field's string is looked for inside quotes, below its outer field if there is one. */
  function HasValue(lhs: Expr, c: Const): seq<Value> {
    if lhs.Select? then
      if !c.StringC? then []
      else if lhs.operand.Select? then [VString("%\"" + lhs.field + "\": \"" + c.s + "\"%")]
      else [VString("%\"" + c.s + "\"%")]
    else match ConstValue(c) case Ok(v) => [v] case _ => []
  }

  function Values(env: Env, e: Expr): nat {
    |Listed(env, e)|
  }

  /** Every comparison that a chain of AND and OR reaches has one value on its right. */
  predicate OneValueEach(env: Env, e: Expr) {
    if IsConnective(e) then OneValueEach(env, e.args[0]) && OneValueEach(env, e.args[1])
    else e.Call? && e.fn.CmpF? && |e.args| == 2 ==> Values(env, e.args[1]) == 1
  }

  /** The placeholders below outermost operands that lose their variables. */
  function Orphans(e: Expr): nat {
    if IsConnective(e) then Orphans(e.args[0]) + Orphans(e.args[1])
    else match TextOnly(e) case Some(u) => Marks(u) case None => 0
  }

  /** Values standing where a condition should: they bring a variable and no text. */
  function BareValues(env: Env, e: Expr): nat {
    if IsConnective(e) then BareValues(env, e.args[0]) + BareValues(env, e.args[1])
    else match e
      case Constant(_, _) => 1
      case Call(_, TimestampF, _) => 1
      case Ident(_, _) => if IsName(env, e) then 0 else 1
      case _ => 0
  }

  lemma CompareHoles(env: Env, op: Cmp, ident: seq<Token>, vars: seq<Value>)
    requires CompareClause(env, op, ident, vars).Ok?
    ensures Holes(CompareClause(env, op, ident, vars).value.sql) == Holes(ident) + 1
  {
    var sql := if ident == [Name("create_time")] || ident == [Name("update_time")]
               then [Name(env.table + "." + ident[0].s)] else ident;
    assert |sql| == 1 && sql[0].Name? ==> Holes(sql) == 0;
    if op == EQ && (sql == [Name("email")] || sql == [Name("id")]) {
      ContainsHoles(sql[0].s);
    } else {
      JoinHoles(sql, Op(op), [Hole]);
      assert sql + [Op(op)] + [Hole] == sql + [Op(op), Hole];
      assert [Hole][1..] == [];
    }
  }

  lemma JsonHoles(col: seq<Token>, field: string)
    ensures Holes(col + [Arrow, Quoted(field), Like, Hole]) == Holes(col) + 1
  {
    HolesAppend(col, [Arrow, Quoted(field), Like, Hole]);
    HolesAppend([Arrow, Quoted(field), Like], [Hole]);
    NoHoles([Arrow, Quoted(field), Like]);
    assert [Arrow, Quoted(field), Like] + [Hole] == [Arrow, Quoted(field), Like, Hole];
    assert [Hole][1..] == [];
  }

  lemma JsonClauseHoles(col: Result<Clause>, field: string, c: Const, before: string, after: string)
    requires JsonClause(col, field, c, before, after).Ok?
    ensures col.Ok?
    ensures var r := JsonClause(col, field, c, before, after).value;
              Holes(r.sql) == Holes(col.value.sql) + 1 && |r.vars| == 1
  {
    JsonHoles(col.value.sql, field);
  }

  lemma HasHoles(env: Env, e: Expr)
    requires e.Call? && e.fn == HasF && TranspileHas(env, e).Ok?
    ensures var r := TranspileHas(env, e).value;
            && |r.vars| == 1
            && Holes(r.sql) == 1 + (match TextOnly(e) case Some(u) => Holes(SqlOf(env, u)) case None => 0)
  {
    match e.args[0]
    case Ident(id, name) =>
      MemberHoles(TranspileIdent(env, id, name).value.sql);
    case Select(_, operand, field) =>
      if operand.Ident? {
        JsonClauseHoles(TranspileIdent(env, operand.id, operand.name), field, e.args[1].c, "%\"", "\"%");
      } else {
        JsonClauseHoles(Transpile(env, operand.operand), operand.field, e.args[1].c, "%\"" + field + "\": \"", "\"%");
      }
  }

  /** The text of an accepted filter has a placeholder for each of these marks. */
  lemma {:induction false} HolesAreMarks(env: Env, e: Expr)
    requires Transpile(env, e).Ok?
    ensures Holes(SqlOf(env, e)) == Marks(e)
  {
    match e
    case Call(_, AndF, args) =>
      HolesAreMarks(env, args[0]);
      HolesAreMarks(env, args[1]);
      JoinHoles(SqlOf(env, args[0]), AndT, SqlOf(env, args[1]));
    case Call(_, OrF, args) =>
      HolesAreMarks(env, args[0]);
      HolesAreMarks(env, args[1]);
      JoinHoles(SqlOf(env, args[0]), OrT, SqlOf(env, args[1]));
    case Call(_, NotF, args) =>
      HolesAreMarks(env, args[0]);
      assert ([NotT] + SqlOf(env, args[0]))[1..] == SqlOf(env, args[0]);
    case Call(_, CmpF(op), args) =>
      HolesAreMarks(env, args[0]);
      CompareHoles(env, op, SqlOf(env, args[0]), VarsOf(env, args[1]));
    case Call(_, HasF, args) =>
      HasHoles(env, e);
      if TextOnly(e).Some? { HolesAreMarks(env, TextOnly(e).value); }
    case Select(_, operand, field) =>
      HolesAreMarks(env, operand);
      HolesAppend(SqlOf(env, operand), [Arrow, Quoted(field)]);
      NoHoles([Arrow, Quoted(field)]);
    case _ =>
  }

  /** The substring form is written for the two columns only. */
  lemma SubstringColumns(env: Env, e: Expr, name: string)
    requires Transpile(env, e).Ok?
    ensures SqlOf(env, e) == [Name(name)] <==> e.Ident? && IsName(env, e) && env.snake(e.name) == name
  {
    match e
    case Call(_, AndF, args) => assert SqlOf(env, e)[|SqlOf(env, args[0])|] == AndT;
    case Call(_, OrF, args) => assert SqlOf(env, e)[|SqlOf(env, args[0])|] == OrT;
    case Call(_, NotF, args) => assert SqlOf(env, e)[0] == NotT;
    case Call(_, CmpF(op), args) => CompareHoles(env, op, SqlOf(env, args[0]), VarsOf(env, args[1]));
    case Call(_, HasF, args) => HasHoles(env, e);
    case Select(_, operand, field) => assert |SqlOf(env, e)| >= 2;
    case _ =>
  }

  lemma CompareVars(env: Env, e: Expr)
    requires e.Call? && e.fn.CmpF? && Transpile(env, e).Ok?
    ensures var right := VarsOf(env, e.args[1]);
            VarsOf(env, e) == if IsSubstringTest(env, e) && right != [] then [right[0]] else right
  {
    SubstringColumns(env, e.args[0], "email");
    SubstringColumns(env, e.args[0], "id");
    assert |env.table + "." + "create_time"| > |"email"| && |env.table + "." + "update_time"| > |"email"|;
  }

  /** Its variables are these values, in this order. */
  lemma {:induction false} VarsAreListed(env: Env, e: Expr)
    requires Transpile(env, e).Ok?
    ensures VarsOf(env, e) == Listed(env, e)
  {
    match e
    case Call(_, AndF, args) => VarsAreListed(env, args[0]); VarsAreListed(env, args[1]);
    case Call(_, OrF, args) => VarsAreListed(env, args[0]); VarsAreListed(env, args[1]);
    case Call(_, CmpF(op), args) =>
      VarsAreListed(env, args[1]);
      CompareVars(env, e);
    case _ =>
  }

  /** An accepted filter binds, every placeholder with a variable of its own and none left over, if and only
      if it has as many such marks as values. */
  lemma BindsIffBalanced(env: Env, e: Expr)
    requires Transpile(env, e).Ok?
    ensures Bind(SqlOf(env, e), VarsOf(env, e)).Some? <==> Marks(e) == Values(env, e)
  {
    HolesAreMarks(env, e);
    VarsAreListed(env, e);
    BindNeedsEqual(SqlOf(env, e), VarsOf(env, e));
  }

  lemma {:induction false} MarksLessValues(env: Env, e: Expr)
    requires Transpile(env, e).Ok? && OneValueEach(env, e)
    ensures Marks(e) - Values(env, e) == Orphans(e) - BareValues(env, e)
  {
    if IsConnective(e) {
      MarksLessValues(env, e.args[0]);
      MarksLessValues(env, e.args[1]);
    }
  }

  /** The surplus of placeholders over variables: the orphans less the bare values.  A filter of conditions
      has no bare values, so it binds if and only if nothing with a placeholder stands below a dropped
      operand. */
  lemma PlaceholderSurplus(env: Env, e: Expr)
    requires Transpile(env, e).Ok? && OneValueEach(env, e)
    ensures Holes(SqlOf(env, e)) - |VarsOf(env, e)| == Orphans(e) - BareValues(env, e)
    ensures BareValues(env, e) == 0 ==> (Bind(SqlOf(env, e), VarsOf(env, e)).Some? <==> Orphans(e) == 0)
  {
    HolesAreMarks(env, e);
    VarsAreListed(env, e);
    MarksLessValues(env, e);
    BindsIffBalanced(env, e);
  }
}
