/** What the filter compiler's output means, against what the filter meant. */
module FilterMeaning {
  import opened Wrappers
  import opened FilterCompiler
  import opened Connectives
  import opened SqlReader

  /* ---- The filter as its author reads it ---- */

  /** A column or a JSON field: an identifier that is no enum value, and selections below it. */
  function ViewColumn(env: Env, e: Expr): Option<Column> {
    match e
    case Ident(id, name) =>
      if id in env.types && !(env.types[id].EnumType? && name in env.types[id].values)
      then Some(Column(env.snake(name), [])) else None
    case Select(_, operand, field) =>
      (match ViewColumn(env, operand)
       case Some(c) => Some(Column(c.name, c.path + [field]))
       case None => None)
    case _ => None
  }

  /** A constant, a timestamp or an enum value. */
  function ViewValue(env: Env, e: Expr): Option<Value> {
    match e
    case Constant(_, c) => (match ConstValue(c) case Ok(v) => Some(v) case _ => None)
    case Call(_, TimestampF, args) =>
      if |args| == 1 && args[0].Constant? && args[0].c.StringC? then
        (match env.parseTime(args[0].c.s) case Some(t) => Some(VTime(t)) case None => None)
      else None
    case Ident(id, name) =>
      if id in env.types && env.types[id].EnumType? && name in env.types[id].values then Some(VEnum(name)) else None
    case _ => None
  }

  function CompareCond(env: Env, op: Cmp, col: Column, v: Value): Cond {
    var c := if col.path == [] && (col.name == "create_time" || col.name == "update_time")
             then Column(env.table + "." + col.name, []) else col;
    if op == EQ && c.path == [] && (c.name == "email" || c.name == "id") then Contains(c.name, v)
    else Compare(op, c, v)
  }

  function ViewHas(env: Env, lhs: Expr, c: Const): Option<Cond> {
    match lhs
    case Ident(id, name) =>
      if id in env.types && env.types[id] == PrimitiveList && ConstValue(c).Ok?
      then Some(Member(Column(env.snake(name), []), ConstValue(c).value)) else None
    case Select(_, operand, field) =>
      if !c.StringC? then None else
      (match operand
       case Ident(_, _) =>
         (match ViewColumn(env, lhs)
          case Some(col) => Some(Matches(col, VString("%\"" + c.s + "\"%")))
          case None => None)
       case Select(_, _, _) =>
         (match ViewColumn(env, operand)
          case Some(col) => Some(Matches(col, VString("%\"" + field + "\": \"" + c.s + "\"%")))
          case None => None)
       case _ => None)
    case _ => None
  }

  /** The propositional tree of a filter with well-formed leaves. */
  function View(env: Env, e: Expr): Option<Tree<Cond>>
    decreases e
  {
    match e
    case Call(_, AndF, args) =>
      if |args| != 2 then None else
      (match (View(env, args[0]), View(env, args[1]))
       case (Some(l), Some(r)) => Some(And(l, r))
       case _ => None)
    case Call(_, OrF, args) =>
      if |args| != 2 then None else
      (match (View(env, args[0]), View(env, args[1]))
       case (Some(l), Some(r)) => Some(Or(l, r))
       case _ => None)
    case Call(_, NotF, args) =>
      if |args| != 1 then None else
      (match View(env, args[0])
       case Some(t) => Some(Not(t))
       case None => None)
    case Call(_, CmpF(op), args) =>
      if |args| != 2 then None else
      (match (ViewColumn(env, args[0]), ViewValue(env, args[1]))
       case (Some(c), Some(v)) => Some(Leaf(CompareCond(env, op, c, v)))
       case _ => None)
    case Call(_, HasF, args) =>
      if |args| != 2 || !args[1].Constant? then None else
      (match ViewHas(env, args[0], args[1].c)
       case Some(c) => Some(Leaf(c))
       case None => None)
    case Ident(_, _) => (match ViewColumn(env, e) case Some(c) => Some(Leaf(Flag(c))) case None => None)
    case Select(_, _, _) => (match ViewColumn(env, e) case Some(c) => Some(Leaf(Flag(c))) case None => None)
    case _ => None
  }

  /* ---- Its text ---- */

  function ColumnTokens(c: Column): (ts: seq<Token>)
    ensures ts != [] && ts[0].Name?
    decreases |c.path|
  {
    if c.path == [] then [Name(c.name)]
    else ColumnTokens(Column(c.name, c.path[..|c.path| - 1])) + [Arrow, Quoted(c.path[|c.path| - 1])]
  }

  function CondTokens(c: Cond, hole: Token): seq<Token> {
    match c
    case Compare(op, col, _) => ColumnTokens(col) + [Op(op), hole]
    case Contains(name, _) => ContainsTokens(name, hole)
    case Member(col, _) => MemberTokens(ColumnTokens(col), hole)
    case Matches(col, _) => ColumnTokens(col) + [Like, hole]
    case Flag(col) => ColumnTokens(col)
  }

  function CondVars(c: Cond): seq<Value> {
    if c.Flag? then [] else [c.v]
  }

  /** The in-order text; `bound` writes each leaf's own constant in place of its placeholder. */
  function Text(t: Tree<Cond>, bound: bool): seq<Token> {
    match t
    case Leaf(c) => CondTokens(c, if bound && !c.Flag? then Token.Bound(c.v) else Hole)
    case And(l, r) => Text(l, bound) + [AndT] + Text(r, bound)
    case Or(l, r) => Text(l, bound) + [OrT] + Text(r, bound)
    case Not(u) => [NotT] + Text(u, bound)
  }

  /** The constants of the leaves outside every NOT, left to right. */
  function LiveVars(t: Tree<Cond>): seq<Value> {
    match t
    case Leaf(c) => CondVars(c)
    case And(l, r) => LiveVars(l) + LiveVars(r)
    case Or(l, r) => LiveVars(l) + LiveVars(r)
    case Not(_) => []
  }

  /** The number of leaves with a constant. */
  function Constants(t: Tree<Cond>): nat {
    match t
    case Leaf(c) => |CondVars(c)|
    case And(l, r) => Constants(l) + Constants(r)
    case Or(l, r) => Constants(l) + Constants(r)
    case Not(u) => Constants(u)
  }

  /** The number of leaves with a constant below an outermost NOT. */
  function ConstantsUnderNot(t: Tree<Cond>): nat {
    match t
    case Leaf(_) => 0
    case And(l, r) => ConstantsUnderNot(l) + ConstantsUnderNot(r)
    case Or(l, r) => ConstantsUnderNot(l) + ConstantsUnderNot(r)
    case Not(u) => Constants(u)
  }

  /* ---- The compiler writes exactly that text ---- */

  lemma {:induction false} ColumnTranspiles(env: Env, e: Expr)
    requires ViewColumn(env, e).Some?
    ensures Transpile(env, e) == Ok(Clause(ColumnTokens(ViewColumn(env, e).value), []))
  {
    if e.Select? {
      ColumnTranspiles(env, e.operand);
      var c := ViewColumn(env, e.operand).value;
      var d := ViewColumn(env, e).value;
      assert d.path[..|d.path| - 1] == c.path;
    }
  }

  lemma ValueTranspiles(env: Env, e: Expr)
    requires ViewValue(env, e).Some?
    ensures Transpile(env, e) == Ok(Clause([], [ViewValue(env, e).value]))
  {}

  lemma {:induction false} NameOnly(c: Column, name: string)
    ensures ColumnTokens(c) == [Name(name)] <==> c == Column(name, [])
  {}

  lemma CompareTranspiles(env: Env, op: Cmp, c: Column, v: Value)
    ensures CompareClause(env, op, ColumnTokens(c), [v])
         == Ok(Clause(CondTokens(CompareCond(env, op, c, v), Hole), [v]))
  {
    NameOnly(c, "create_time");
    NameOnly(c, "update_time");
    NameOnly(c, "email");
    NameOnly(c, "id");
  }

  lemma FieldTokens(c: Column, field: string)
    ensures ColumnTokens(Column(c.name, c.path + [field])) + [Like, Hole]
         == ColumnTokens(c) + [Arrow, Quoted(field), Like, Hole]
  {
    var d := Column(c.name, c.path + [field]);
    assert d.path[..|d.path| - 1] == c.path;
  }

  /** `col ->> 'field' LIKE ?` on a column is the `Matches` condition of the field. */
  lemma JsonTranspiles(env: Env, operand: Expr, field: string, c: Const, before: string, after: string)
    requires ViewColumn(env, operand).Some? && c.StringC?
    ensures var col := ViewColumn(env, operand).value;
            var cond := Matches(Column(col.name, col.path + [field]), VString(before + c.s + after));
            JsonClause(Transpile(env, operand), field, c, before, after) == Ok(Clause(CondTokens(cond, Hole), [cond.v]))
  {
    ColumnTranspiles(env, operand);
    FieldTokens(ViewColumn(env, operand).value, field);
  }

  lemma HasTranspiles(env: Env, e: Expr)
    requires e.Call? && e.fn == HasF && |e.args| == 2 && e.args[1].Constant?
    requires ViewHas(env, e.args[0], e.args[1].c).Some?
    ensures TranspileHas(env, e) == Ok(Clause(CondTokens(ViewHas(env, e.args[0], e.args[1].c).value, Hole),
                                              CondVars(ViewHas(env, e.args[0], e.args[1].c).value)))
  {
    var c := e.args[1].c;
    match e.args[0]
    case Ident(_, _) =>
    case Select(_, operand, field) =>
      if operand.Ident? {
        JsonTranspiles(env, operand, field, c, "%\"", "\"%");
      } else {
        JsonTranspiles(env, operand.operand, operand.field, c, "%\"" + field + "\": \"", "\"%");
      }
  }

  /** A filter with well-formed leaves is accepted; its text is the in-order sequence of its
      leaves and connectives without parentheses, its variables are the constants outside NOT. */
  lemma {:induction false} TranspileIsText(env: Env, e: Expr)
    requires View(env, e).Some?
    ensures Transpile(env, e) == Ok(Clause(Text(View(env, e).value, false), LiveVars(View(env, e).value)))
  {
    match e
    case Call(_, AndF, args) => TranspileIsText(env, args[0]); TranspileIsText(env, args[1]);
    case Call(_, OrF, args) => TranspileIsText(env, args[0]); TranspileIsText(env, args[1]);
    case Call(_, NotF, args) => TranspileIsText(env, args[0]);
    case Call(_, CmpF(op), args) =>
      ColumnTranspiles(env, args[0]);
      ValueTranspiles(env, args[1]);
      CompareTranspiles(env, op, ViewColumn(env, args[0]).value, ViewValue(env, args[1]).value);
    case Call(_, HasF, args) => HasTranspiles(env, e);
    case Ident(_, _) => ColumnTranspiles(env, e);
    case Select(_, _, _) => ColumnTranspiles(env, e);
  }

  /* ---- Placeholders ---- */

  lemma {:induction false} ColumnHasNoHoles(c: Column)
    ensures Hole !in ColumnTokens(c) && AndT !in ColumnTokens(c) && OrT !in ColumnTokens(c)
    ensures Holes(ColumnTokens(c)) == 0
    decreases |c.path|
  {
    if c.path != [] {
      ColumnHasNoHoles(Column(c.name, c.path[..|c.path| - 1]));
    }
    NoHoles(ColumnTokens(c));
  }

  lemma CondHoles(c: Cond)
    ensures Holes(CondTokens(c, Hole)) == |CondVars(c)|
  {
    match c
    case Compare(op, col, _) => InfixHoles(col, Op(op));
    case Contains(name, _) => ContainsHoles(name);
    case Member(col, _) => ColumnHasNoHoles(col); MemberHoles(ColumnTokens(col));
    case Matches(col, _) => InfixHoles(col, Like);
    case Flag(col) => ColumnHasNoHoles(col);
  }

  lemma InfixHoles(col: Column, op: Token)
    requires op != Hole
    ensures Holes(ColumnTokens(col) + [op, Hole]) == 1
  {
    ColumnHasNoHoles(col);
    NoHoles([op]);
    assert ColumnTokens(col) + [op, Hole] == ColumnTokens(col) + [op] + [Hole];
    HolesAppend(ColumnTokens(col) + [op], [Hole]);
    HolesAppend(ColumnTokens(col), [op]);
  }

  /** The placeholder law: the text has one placeholder per constant, so it has exactly as many
      more placeholders than variables as there are constants below outermost NOTs. */
  lemma {:induction false} PlaceholderLaw(t: Tree<Cond>)
    ensures Holes(Text(t, false)) == Constants(t)
    ensures Holes(Text(t, false)) - |LiveVars(t)| == ConstantsUnderNot(t)
  {
    match t
    case Leaf(c) => CondHoles(c);
    case And(l, r) => PlaceholderLaw(l); PlaceholderLaw(r); JoinHoles(Text(l, false), AndT, Text(r, false));
    case Or(l, r) => PlaceholderLaw(l); PlaceholderLaw(r); JoinHoles(Text(l, false), OrT, Text(r, false));
    case Not(u) => PlaceholderLaw(u); HolesAppend([NotT], Text(u, false));
  }

  lemma {:induction false} BindNothing(ts: seq<Token>)
    requires Hole !in ts
    ensures Bind(ts, []) == Some(ts)
  {
    if ts != [] {
      BindNothing(ts[1..]);
      assert [ts[0]] + ts[1..] == ts;
    }
  }

  lemma InfixBinds(col: Column, op: Token, v: Value)
    requires op != Hole
    ensures Bind(ColumnTokens(col) + [op, Hole], [v]) == Some(ColumnTokens(col) + [op, Token.Bound(v)])
  {
    ColumnHasNoHoles(col);
    var before := ColumnTokens(col) + [op];
    BindAround(before, [], v);
    assert ColumnTokens(col) + [op, Hole] == before + [Hole] + [];
    assert ColumnTokens(col) + [op, Token.Bound(v)] == before + [Token.Bound(v)] + [];
  }

  lemma MemberBinds(col: Column, v: Value)
    ensures Bind(MemberTokens(ColumnTokens(col), Hole), [v]) == Some(MemberTokens(ColumnTokens(col), Token.Bound(v)))
  {
    ColumnHasNoHoles(col);
    var after := [Op(EQ), Name("ANY"), LParen] + ColumnTokens(col) + [RParen];
    BindAround([], after, v);
    assert MemberTokens(ColumnTokens(col), Hole) == [] + [Hole] + after;
    assert MemberTokens(ColumnTokens(col), Token.Bound(v)) == [] + [Token.Bound(v)] + after;
  }

  lemma CondBinds(c: Cond)
    ensures Bind(CondTokens(c, Hole), CondVars(c)) == Some(Text(Leaf(c), true))
  {
    match c
    case Compare(op, col, v) => InfixBinds(col, Op(op), v);
    case Contains(name, v) => BindAround(ContainsBefore(name), CONTAINS_AFTER, v);
    case Member(col, v) => MemberBinds(col, v);
    case Matches(col, v) => InfixBinds(col, Like, v);
    case Flag(col) =>
      ColumnHasNoHoles(col);
      BindNothing(ColumnTokens(col));
  }

  lemma BindAround(before: seq<Token>, after: seq<Token>, v: Value)
    requires Hole !in before && Hole !in after
    ensures Bind(before + [Hole] + after, [v]) == Some(before + [Token.Bound(v)] + after)
  {
    BindNothing(before);
    BindNothing(after);
    assert Bind([Hole] + after, [v]) == Some([Token.Bound(v)] + after) by {
      assert ([Hole] + after)[1..] == after && [v][1..] == [];
    }
    BindAppend(before, [Hole] + after, [], [v]);
    assert before + [Hole] + after == before + ([Hole] + after);
    assert before + [Token.Bound(v)] + after == before + ([Token.Bound(v)] + after);
    assert [] + [v] == [v];
  }

  /** Left-to-right binding gives every leaf its own constant, as long as NOT dropped none. */
  lemma {:induction false} TextBinds(t: Tree<Cond>)
    requires ConstantsUnderNot(t) == 0
    ensures Bind(Text(t, false), LiveVars(t)) == Some(Text(t, true))
  {
    match t
    case Leaf(c) => CondBinds(c);
    case And(l, r) => TextBinds(l); TextBinds(r); JoinBinds(l, r, AndT);
    case Or(l, r) => TextBinds(l); TextBinds(r); JoinBinds(l, r, OrT);
    case Not(u) =>
      NoConstants(u);
      TextBinds(u);
      assert ([NotT] + Text(u, false))[1..] == Text(u, false);
  }

  lemma JoinBinds(l: Tree<Cond>, r: Tree<Cond>, sep: Token)
    requires sep == AndT || sep == OrT
    requires Bind(Text(l, false), LiveVars(l)) == Some(Text(l, true))
    requires Bind(Text(r, false), LiveVars(r)) == Some(Text(r, true))
    ensures Bind(Text(l, false) + [sep] + Text(r, false), LiveVars(l) + LiveVars(r))
         == Some(Text(l, true) + [sep] + Text(r, true))
  {
    BindNothing([sep]);
    BindAppend(Text(l, false), [sep], LiveVars(l), []);
    assert LiveVars(l) + [] == LiveVars(l);
    BindAppend(Text(l, false) + [sep], Text(r, false), LiveVars(l), LiveVars(r));
  }

  lemma {:induction false} NoConstants(t: Tree<Cond>)
    requires Constants(t) == 0
    ensures LiveVars(t) == [] && ConstantsUnderNot(t) == 0
  {
    match t
    case Leaf(_) =>
    case And(l, r) => NoConstants(l); NoConstants(r);
    case Or(l, r) => NoConstants(l); NoConstants(r);
    case Not(u) => NoConstants(u);
  }

  /* ---- Reading the text back ---- */

  lemma FieldReads(ts: seq<Token>, c: Column, field: string)
    requires ts != [] && ReadColumn(ts) == Some(c)
    ensures ReadColumn(ts + [Arrow, Quoted(field)]) == Some(Column(c.name, c.path + [field]))
  {
    var all := ts + [Arrow, Quoted(field)];
    assert all[..|all| - 2] == ts;
  }

  lemma {:induction false} ColumnReads(c: Column)
    ensures ReadColumn(ColumnTokens(c)) == Some(c)
    decreases |c.path|
  {
    if c.path != [] {
      var init, last := c.path[..|c.path| - 1], c.path[|c.path| - 1];
      ColumnReads(Column(c.name, init));
      FieldReads(ColumnTokens(Column(c.name, init)), Column(c.name, init), last);
      assert init + [last] == c.path;
    }
  }

  /** A column followed by an operator and a constant reads back as that comparison. */
  lemma InfixReads(col: Column, op: Token, v: Value)
    requires op.Op? || op == Like
    ensures ReadCond(ColumnTokens(col) + [op, Token.Bound(v)])
         == Some(if op.Op? then Compare(op.op, col, v) else Matches(col, v))
  {
    ColumnReads(col);
    var ts := ColumnTokens(col) + [op, Token.Bound(v)];
    assert ts[..|ts| - 2] == ColumnTokens(col);
    assert ts[0] == ColumnTokens(col)[0];
  }

  lemma MemberReads(col: Column, v: Value)
    ensures ReadCond(MemberTokens(ColumnTokens(col), Token.Bound(v))) == Some(Member(col, v))
  {
    ColumnReads(col);
    var cs := ColumnTokens(col);
    var ts := MemberTokens(cs, Token.Bound(v));
    assert |ts| == |cs| + 5 && ts[0] == Token.Bound(v) && ts[|ts| - 1] == RParen;
    assert ts[1..4] == [Op(EQ), Name("ANY"), LParen];
    assert ts[4..|ts| - 1] == cs;
  }

  lemma CallReads(f: string, inner: seq<Token>, es: seq<TextExpr>, rest: seq<Token>)
    requires ReadTexts(inner) == Some((es, rest)) && (f == "CONCAT" || (f == "LOWER" && |es| == 1))
    ensures ReadText([Name(f), LParen] + inner) == Some((if f == "LOWER" then Lower(es[0]) else Concat(es), rest))
  {
    var ts := [Name(f), LParen] + inner;
    assert ts[0] == Name(f) && ts[1] == LParen && ts[2..] == inner;
  }

  lemma OnlyTextReads(ts: seq<Token>, e: TextExpr, rest: seq<Token>)
    requires ReadText(ts) == Some((e, [RParen] + rest))
    ensures ReadTexts(ts) == Some(([e], rest))
  {
    assert ([RParen] + rest)[1..] == rest;
  }

  lemma NextTextReads(t: Token, e: TextExpr, after: seq<Token>, es: seq<TextExpr>, rest: seq<Token>)
    requires ReadText([t] + ([Comma] + after)) == Some((e, [Comma] + after)) && ReadTexts(after) == Some((es, rest))
    ensures ReadTexts([t] + ([Comma] + after)) == Some(([e] + es, rest))
  {
    assert ([Comma] + after)[1..] == after;
  }

  function SimpleText(t: Token): TextExpr
    requires t.Name? || t.Quoted? || t.Bound?
  {
    match t
    case Name(s) => ColumnText(s)
    case Quoted(q) => QuotedText(q)
    case Bound(v) => ValueText(v)
  }

  lemma SimpleTextReads(t: Token, rest: seq<Token>)
    requires rest != [] && rest[0] != LParen && (t.Name? || t.Quoted? || t.Bound?)
    ensures ReadText([t] + rest) == Some((SimpleText(t), rest))
  {
    assert ([t] + rest)[1..] == rest && ([t] + rest)[0] == t && ([t] + rest)[1] == rest[0];
  }

  lemma LowerColumnReads(name: string, rest: seq<Token>)
    ensures ReadText([Name("LOWER"), LParen] + ([Name(name)] + ([RParen] + rest)))
         == Some((Lower(ColumnText(name)), rest))
  {
    SimpleTextReads(Name(name), [RParen] + rest);
    OnlyTextReads([Name(name)] + ([RParen] + rest), ColumnText(name), rest);
    CallReads("LOWER", [Name(name)] + ([RParen] + rest), [ColumnText(name)], rest);
  }

  function Around(v: Value, rest: seq<Token>): seq<Token> {
    [Quoted("%")] + ([Comma] + ([Token.Bound(v)] + ([Comma] + ([Quoted("%")] + ([RParen] + rest)))))
  }

  /** `'%', v, '%')` */
  lemma AroundReads(v: Value, rest: seq<Token>) returns (ts: seq<Token>)
    ensures ts == Around(v, rest)
    ensures ReadTexts(ts) == Some(([QuotedText("%"), ValueText(v), QuotedText("%")], rest))
  {
    var t1 := [Quoted("%")] + ([RParen] + rest);
    SimpleTextReads(Quoted("%"), [RParen] + rest);
    OnlyTextReads(t1, QuotedText("%"), rest);
    var t2 := [Token.Bound(v)] + ([Comma] + t1);
    SimpleTextReads(Token.Bound(v), [Comma] + t1);
    NextTextReads(Token.Bound(v), ValueText(v), t1, [QuotedText("%")], rest);
    ts := [Quoted("%")] + ([Comma] + t2);
    SimpleTextReads(Quoted("%"), [Comma] + t2);
    NextTextReads(Quoted("%"), QuotedText("%"), t2, [ValueText(v)] + [QuotedText("%")], rest);
    assert [QuotedText("%")] + ([ValueText(v)] + [QuotedText("%")]) == [QuotedText("%"), ValueText(v), QuotedText("%")];
  }

  lemma PatternReads(v: Value, rest: seq<Token>) returns (ts: seq<Token>)
    ensures ts == [Name("LOWER"), LParen] + ([Name("CONCAT"), LParen] + Around(v, [RParen] + rest))
    ensures ReadText(ts) == Some((Pattern(v), rest))
  {
    var es := [QuotedText("%"), ValueText(v), QuotedText("%")];
    var inner := AroundReads(v, [RParen] + rest);
    CallReads("CONCAT", inner, es, [RParen] + rest);
    var call := [Name("CONCAT"), LParen] + inner;
    OnlyTextReads(call, Concat(es), rest);
    CallReads("LOWER", call, [Concat(es)], rest);
    ts := [Name("LOWER"), LParen] + call;
  }

  lemma LikeReads(ts: seq<Token>, l: TextExpr, after: seq<Token>, r: TextExpr)
    requires ReadText(ts) == Some((l, [Like] + after)) && ReadText(after) == Some((r, [RParen]))
    ensures ReadLike([LParen] + ts) == Some((l, r))
  {
    assert ([LParen] + ts)[1..] == ts && ([Like] + after)[1..] == after;
  }

  function Pattern(v: Value): TextExpr {
    Lower(Concat([QuotedText("%"), ValueText(v), QuotedText("%")]))
  }

  /** The reader finds a lower-cased column and the lower-cased concatenation of `v` between two percent signs. */
  lemma ContainsReads(name: string, v: Value)
    ensures ReadLike(ContainsTokens(name, Token.Bound(v))) == Some((Lower(ColumnText(name)), Pattern(v)))
  {
    var pattern := PatternReads(v, [RParen]);
    LowerColumnReads(name, [Like] + pattern);
    var column := [Name("LOWER"), LParen] + ([Name(name)] + ([RParen] + ([Like] + pattern)));
    LikeReads(column, Lower(ColumnText(name)), pattern, Pattern(v));
    ContainsNests(name, v, pattern);
  }

  lemma ContainsNests(name: string, v: Value, pattern: seq<Token>)
    requires pattern == [Name("LOWER"), LParen] + ([Name("CONCAT"), LParen] + Around(v, [RParen] + [RParen]))
    ensures ContainsTokens(name, Token.Bound(v))
         == [LParen] + ([Name("LOWER"), LParen] + ([Name(name)] + ([RParen] + ([Like] + pattern))))
  {}

  lemma ContainsCondReads(name: string, v: Value)
    ensures ReadCond(ContainsTokens(name, Token.Bound(v))) == Some(Contains(name, v))
  {
    ContainsReads(name, v);
    assert ContainsTokens(name, Token.Bound(v))[0] == LParen;
  }

  lemma FlagReads(col: Column)
    ensures ReadCond(ColumnTokens(col)) == Some(Flag(col))
  {
    ColumnReads(col);
  }

  /** Every leaf form reads back as the condition it was written for. */
  lemma CondReads(c: Cond)
    ensures ReadCond(Text(Leaf(c), true)) == Some(c)
  {
    match c
    case Compare(op, col, v) => InfixReads(col, Op(op), v);
    case Contains(name, v) => ContainsCondReads(name, v);
    case Member(col, v) => MemberReads(col, v);
    case Matches(col, v) => InfixReads(col, Like, v);
    case Flag(col) => FlagReads(col);
  }

  function LitTokens(x: Lit<Cond>): seq<Token>
    decreases x.nots
  {
    if x.nots == 0 then Text(Leaf(x.a), true) else [NotT] + LitTokens(Lit(x.nots - 1, x.a))
  }

  function GroupTokens(g: seq<Lit<Cond>>): (r: seq<seq<Token>>)
    ensures |r| == |g|
  {
    seq(|g|, i requires 0 <= i < |g| => LitTokens(g[i]))
  }

  lemma NegatedReads(ts: seq<Token>, x: Lit<Cond>)
    requires ReadLit(ts) == Some(x)
    ensures ReadLit([NotT] + ts) == Some(Lit(x.nots + 1, x.a))
  {
    assert ([NotT] + ts)[1..] == ts;
  }

  lemma {:induction false} LitReads(x: Lit<Cond>)
    ensures ReadLit(LitTokens(x)) == Some(x)
    decreases x.nots
  {
    if x.nots == 0 {
      CondReads(x.a);
    } else {
      var y := Lit(x.nots - 1, x.a);
      LitReads(y);
      NegatedReads(LitTokens(y), y);
    }
  }

  lemma {:induction false} GroupReads(g: seq<Lit<Cond>>)
    ensures ReadGroup(GroupTokens(g)) == Some(g)
  {
    if g != [] {
      LitReads(g[0]);
      GroupReads(g[1..]);
      assert GroupTokens(g)[1..] == GroupTokens(g[1..]);
      assert [g[0]] + g[1..] == g;
    }
  }

  /** `parts` are texts whose AND-pieces are the literals of the groups. */
  ghost predicate Renders(parts: seq<seq<Token>>, gs: Groups<Cond>) {
    |parts| == |gs| && forall i | 0 <= i < |gs| :: Split(parts[i], AndT) == GroupTokens(gs[i])
  }

  lemma {:induction false} GroupsRead(parts: seq<seq<Token>>, gs: Groups<Cond>)
    requires Renders(parts, gs)
    ensures ReadGroups(parts) == Some(gs)
  {
    if gs != [] {
      assert Split(parts[0], AndT) == GroupTokens(gs[0]);
      GroupReads(gs[0]);
      assert Renders(parts[1..], gs[1..]) by {
        forall i | 0 <= i < |gs[1..]| ensures Split(parts[1..][i], AndT) == GroupTokens(gs[1..][i]) {
          assert Split(parts[i + 1], AndT) == GroupTokens(gs[i + 1]);
        }
      }
      GroupsRead(parts[1..], gs[1..]);
      assert [gs[0]] + gs[1..] == gs;
    }
  }

  lemma CondHasNoConnective(c: Cond)
    ensures AndT !in Text(Leaf(c), true) && OrT !in Text(Leaf(c), true)
  {
    if !c.Contains? { ColumnHasNoHoles(c.col); }
  }

  /** Cutting the text at its ORs, and the pieces at their ANDs, gives the regrouping. */
  lemma {:induction false} TextRenders(t: Tree<Cond>)
    ensures Renders(Split(Text(t, true), OrT), Regroup(t))
  {
    match t
    case Leaf(c) =>
      CondHasNoConnective(c);
      SplitNone(Text(t, true), OrT);
      SplitNone(Text(t, true), AndT);
    case And(l, r) => TextRenders(l); TextRenders(r); AndRenders(l, r);
    case Or(l, r) =>
      TextRenders(l);
      TextRenders(r);
      SplitAt(Text(l, true), Text(r, true), OrT);
    case Not(u) => TextRenders(u); NotRenders(u);
  }

  lemma AndText(l: Tree<Cond>, r: Tree<Cond>)
    ensures Split(Text(And(l, r), true), OrT)
              == Glue(Glue(Split(Text(l, true), OrT), [[AndT]]), Split(Text(r, true), OrT))
  {
    var a, b := Text(l, true), Text(r, true);
    SplitAppend(a + [AndT], b, OrT);
    SplitAppend(a, [AndT], OrT);
    SplitNone([AndT], OrT);
  }

  lemma AndRenders(l: Tree<Cond>, r: Tree<Cond>)
    requires Renders(Split(Text(l, true), OrT), Regroup(l)) && Renders(Split(Text(r, true), OrT), Regroup(r))
    ensures Renders(Split(Text(And(l, r), true), OrT), Regroup(And(l, r)))
  {
    AndText(l, r);
    GlueRenders(Split(Text(l, true), OrT), Split(Text(r, true), OrT), Regroup(l), Regroup(r));
  }

  lemma GlueRenders(x: seq<seq<Token>>, y: seq<seq<Token>>, p: Groups<Cond>, q: Groups<Cond>)
    requires Renders(x, p) && Renders(y, q) && p != [] && q != []
    ensures Renders(Glue(Glue(x, [[AndT]]), y), Glue(p, q))
  {
    var n := |x| - 1;
    var z, g := Glue(Glue(x, [[AndT]]), y), Glue(p, q);
    assert z[n] == x[n] + [AndT] + y[0];
    SplitAt(x[n], y[0], AndT);
    assert Split(x[n], AndT) == GroupTokens(p[n]) && Split(y[0], AndT) == GroupTokens(q[0]);
    assert GroupTokens(p[n]) + GroupTokens(q[0]) == GroupTokens(p[n] + q[0]);
    forall i | 0 <= i < |z| ensures Split(z[i], AndT) == GroupTokens(g[i]) {
      if i < n {
        assert z[i] == x[i] && g[i] == p[i];
      } else if i > n {
        assert z[i] == y[i - n] && g[i] == q[i - n];
      }
    }
  }

  lemma SplitNot(ts: seq<Token>, sep: Token)
    requires sep != NotT
    ensures Split([NotT] + ts, sep) == [[NotT] + Split(ts, sep)[0]] + Split(ts, sep)[1..]
  {
    assert ([NotT] + ts)[1..] == ts;
  }

  /** One more NOT before a group is one more NOT before its first literal. */
  lemma NegatedGroup(g: seq<Lit<Cond>>)
    requires g != []
    ensures GroupTokens([Lit(g[0].nots + 1, g[0].a)] + g[1..]) == [[NotT] + GroupTokens(g)[0]] + GroupTokens(g)[1..]
  {
    assert LitTokens(Lit(g[0].nots + 1, g[0].a)) == [NotT] + LitTokens(g[0]);
  }

  lemma NegationRenders(x: seq<seq<Token>>, p: Groups<Cond>, y: seq<seq<Token>>, q: Groups<Cond>)
    requires Renders(x, p) && p != [] && p[0] != []
    requires y == [[NotT] + x[0]] + x[1..]
    requires q == Negated(p)
    ensures Renders(y, q)
  {
    SplitNot(x[0], AndT);
    NegatedGroup(p[0]);
    assert Split(x[0], AndT) == GroupTokens(p[0]);
    forall i | 0 < i < |y| ensures Split(y[i], AndT) == GroupTokens(q[i]) {
      assert y[i] == x[i] && q[i] == p[i];
    }
  }

  lemma NotRenders(u: Tree<Cond>)
    requires Renders(Split(Text(u, true), OrT), Regroup(u))
    ensures Renders(Split(Text(Not(u), true), OrT), Regroup(Not(u)))
  {
    var ts := Text(u, true);
    SplitNot(ts, OrT);
    NegationRenders(Split(ts, OrT), Regroup(u), Split([NotT] + ts, OrT), Regroup(Not(u)));
  }

  /** The database reads the text as the OR-of-ANDs regrouping of the tree. */
  lemma TextReads(t: Tree<Cond>)
    ensures Read(Text(t, true)) == Some(Regroup(t))
  {
    TextRenders(t);
    GroupsRead(Split(Text(t, true), OrT), Regroup(t));
  }

  /* ---- Main results ---- */

  /** The compiled filter is a well-formed statement exactly if no constant lies below a NOT;
      then its truth on a row is that of the regrouping. */
  lemma SqlMeansRegrouping(env: Env, e: Expr, m: Cond -> Truth)
    requires View(env, e).Some?
    ensures Transpile(env, e).Ok?
    ensures SqlTruth(Transpile(env, e).value, m)
         == if ConstantsUnderNot(View(env, e).value) == 0
            then Some(EvalGroups(Regroup(View(env, e).value), m)) else None
  {
    var t := View(env, e).value;
    TranspileIsText(env, e);
    PlaceholderLaw(t);
    BindNeedsEqual(Text(t, false), LiveVars(t));
    if ConstantsUnderNot(t) == 0 {
      TextBinds(t);
      TextReads(t);
    }
  }

  /** The statement selects the filter's own rows whenever no OR lies below an AND and NOT stands,
      except in pairs, only before single conditions, none of them with a constant. */
  lemma OrderSafeFilterSelectsItsRows(env: Env, e: Expr, m: Cond -> Truth)
    requires View(env, e).Some? && OrderSafe(View(env, e).value) && ConstantsUnderNot(View(env, e).value) == 0
    ensures Transpile(env, e).Ok?
    ensures SqlTruth(Transpile(env, e).value, m) == Some(Eval(View(env, e).value, m))
  {
    SqlMeansRegrouping(env, e, m);
    OrderSafeKeepsMeaning(View(env, e).value, m);
  }

  /** The exact fragment for filters with pairwise different conditions: the statement has the filter's
      meaning, whatever the conditions mean, if and only if no constant lies below a NOT, no OR lies below
      an AND, and NOT stands, except in pairs, only before single conditions. */
  lemma FilterKeptIffOrderSafe(env: Env, e: Expr)
    requires View(env, e).Some? && Distinct(View(env, e).value)
    ensures Transpile(env, e).Ok?
    ensures (forall m: Cond -> Truth :: SqlTruth(Transpile(env, e).value, m) == Some(Eval(View(env, e).value, m)))
            <==> ConstantsUnderNot(View(env, e).value) == 0 && OrderSafe(View(env, e).value)
  {
    var t := View(env, e).value;
    TranspileIsText(env, e);
    var c := Transpile(env, e).value;
    forall m: Cond -> Truth
      ensures SqlTruth(c, m) == if ConstantsUnderNot(t) == 0 then Some(EvalGroups(Regroup(t), m)) else None
    {
      SqlMeansRegrouping(env, e, m);
    }
    MeaningKeptIffOrderSafe(t);
    if ConstantsUnderNot(t) > 0 {
      var m: Cond -> Truth := x => True;
      assert SqlTruth(c, m) == None;
    }
  }
}
