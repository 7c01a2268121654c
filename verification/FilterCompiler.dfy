/**
 The filter compiler of pkg/repository/transpiler.go: a checked filter tree becomes flat SQL
 text and a positional list of variables.  The SQL text is a sequence of tokens.
*/
module FilterCompiler {
  import opened Wrappers

  /* ---- Checked expressions ---- */

  datatype Const = BoolC(b: bool) | DoubleC(d: real) | IntC(i: int) | StringC(s: string) | UintC(u: nat) | OtherC

  datatype Cmp = EQ | NEQ | LT | LTE | GT | GTE

  datatype Fn = HasF | CmpF(op: Cmp) | AndF | OrF | NotF | TimestampF | OtherF(name: string)

  datatype Expr =
    | Call(id: int, fn: Fn, args: seq<Expr>)
    | Ident(id: int, name: string)
    | Constant(id: int, c: Const)
    | Select(id: int, operand: Expr, field: string)
    | OtherExpr(id: int)

  /** The checked type of an identifier: an enum with its value names, a list of primitives,
      or anything else. */
  datatype IdentType = EnumType(values: set<string>) | PrimitiveList | OtherType

  /** The transpiler's table name and type map, and the two library functions it calls. */
  datatype Env = Env(
    table: string,
    types: map<int, IdentType>,
    snake: string -> string,
    parseTime: string -> Option<int>)

  /* ---- SQL ---- */

  datatype Value =
    | VBool(b: bool) | VReal(d: real) | VInt(i: int) | VString(s: string) | VUint(u: nat)
    | VEnum(name: string) | VTime(t: int)

  /** `Bound` is a placeholder after its variable has been put in. */
  datatype Token =
    | Name(s: string) | Quoted(q: string) | Arrow | Op(op: Cmp) | Like
    | LParen | RParen | Comma
    | Hole | Bound(v: Value)
    | AndT | OrT | NotT

  datatype Clause = Clause(sql: seq<Token>, vars: seq<Value>)

  function ConstValue(c: Const): Result<Value> {
    match c
    case BoolC(b) => Ok(VBool(b))
    case DoubleC(d) => Ok(VReal(d))
    case IntC(i) => Ok(VInt(i))
    case StringC(s) => Ok(VString(s))
    case UintC(u) => Ok(VUint(u))
    case OtherC => Err
  }

  function ContainsBefore(col: string): seq<Token> {
    [LParen, Name("LOWER"), LParen, Name(col), RParen, Like,
     Name("LOWER"), LParen, Name("CONCAT"), LParen, Quoted("%"), Comma]
  }

  const CONTAINS_AFTER: seq<Token> := [Comma, Quoted("%"), RParen, RParen, RParen]

  /** `(LOWER(col) LIKE LOWER(CONCAT('%', ?, '%')))` around the given placeholder. */
  function ContainsTokens(col: string, hole: Token): seq<Token> {
    ContainsBefore(col) + [hole] + CONTAINS_AFTER
  }

  /** `? = ANY(col)` */
  function MemberTokens(col: seq<Token>, hole: Token): seq<Token> {
    [hole, Op(EQ), Name("ANY"), LParen] + col + [RParen]
  }

  function TranspileConst(c: Const): Result<Clause> {
    match ConstValue(c)
    case Ok(v) => Ok(Clause([], [v]))
    case _ => Err
  }

  function TranspileIdent(env: Env, id: int, name: string): Result<Clause> {
    if id !in env.types then Err
    else if env.types[id].EnumType? && name in env.types[id].values then Ok(Clause([], [VEnum(name)]))
    else Ok(Clause([Name(env.snake(name))], []))
  }

  function Transpile(env: Env, e: Expr): Result<Clause>
    decreases e
  {
    match e
    case Call(_, HasF, args) => TranspileHas(env, e)
    case Call(_, CmpF(op), args) =>
      if |args| != 2 then Err else
      var ident := Transpile(env, args[0]);
      if !ident.Ok? then ident else
      var con := Transpile(env, args[1]);
      if !con.Ok? then con else
      CompareClause(env, op, ident.value.sql, con.value.vars)
    case Call(_, AndF, args) => TranspileBinary(env, e, AndT)
    case Call(_, OrF, args) => TranspileBinary(env, e, OrT)
    case Call(_, NotF, args) =>
      if |args| != 1 then Err else
      var rhs := Transpile(env, args[0]);
      if !rhs.Ok? then rhs else
      Ok(Clause([NotT] + rhs.value.sql, []))   // the operand's variables are dropped
    case Call(_, TimestampF, args) =>
      if |args| != 1 || !args[0].Constant? || !args[0].c.StringC? then Err else
      (match env.parseTime(args[0].c.s)
       case Some(t) => Ok(Clause([], [VTime(t)]))
       case None => Err)
    case Call(_, OtherF(_), _) => Err
    case Ident(id, name) => TranspileIdent(env, id, name)
    case Constant(_, c) => TranspileConst(c)
    case Select(_, operand, field) =>
      var op := Transpile(env, operand);
      if !op.Ok? then op else
      Ok(Clause(op.value.sql + [Arrow, Quoted(field)], []))
    case OtherExpr(_) => Err
  }

  function TranspileBinary(env: Env, e: Expr, connective: Token): Result<Clause>
    requires e.Call?
    decreases e, 0
  {
    if |e.args| != 2 then Err else
    var lhs := Transpile(env, e.args[0]);
    if !lhs.Ok? then lhs else
    var rhs := Transpile(env, e.args[1]);
    if !rhs.Ok? then rhs else
    Ok(Clause(lhs.value.sql + [connective] + rhs.value.sql, lhs.value.vars + rhs.value.vars))
  }

  /** The comparison text.  Times get the table's prefix; `email` and `id` equality becomes a
      case-insensitive substring match that indexes the right-hand side's first variable. */
  function CompareClause(env: Env, op: Cmp, ident: seq<Token>, vars: seq<Value>): Result<Clause> {
    var sql := if ident == [Name("create_time")] || ident == [Name("update_time")]
               then [Name(env.table + "." + ident[0].s)] else ident;
    if op == EQ && (sql == [Name("email")] || sql == [Name("id")]) then
      if vars == [] then Panic else Ok(Clause(ContainsTokens(sql[0].s, Hole), [vars[0]]))
    else
      Ok(Clause(sql + [Op(op), Hole], vars))
  }

  function TranspileHas(env: Env, e: Expr): Result<Clause>
    requires e.Call?
    decreases e, 0
  {
    if |e.args| != 2 || !e.args[1].Constant? then Err else
    var c := e.args[1].c;
    match e.args[0]
    case Ident(id, name) =>
      if id !in env.types || env.types[id] != PrimitiveList then Err else
      var iden := TranspileIdent(env, id, name);
      if !iden.Ok? then iden else
      var con := TranspileConst(c);
      if !con.Ok? then con else
      Ok(Clause(MemberTokens(iden.value.sql, Hole), con.value.vars))
    case Select(_, operand, field) =>
      (match operand
       case Ident(id, name) =>
         JsonClause(TranspileIdent(env, id, name), field, c, "%\"", "\"%")
       case Select(_, inner, outer) =>
         JsonClause(Transpile(env, inner), outer, c, "%\"" + field + "\": \"", "\"%")
       case _ => Err)
    case _ => Err
  }

  /** `col ->> 'field' LIKE ?`; the constant is asserted to be a string. */
  function JsonClause(col: Result<Clause>, field: string, c: Const, before: string, after: string): Result<Clause> {
    if !col.Ok? then col else
    var con := TranspileConst(c);
    if !con.Ok? then con
    else if !c.StringC? then Panic
    else Ok(Clause(col.value.sql + [Arrow, Quoted(field), Like, Hole], [VString(before + c.s + after)]))
  }
}
