/** Which filter trees the compiler accepts. */
module FilterAcceptance {
  import opened Wrappers
  import opened FilterCompiler
  import opened FilterPlaceholders

  /** `:` looks into a list of primitives, or for a string in a field, of an accepted column if it is two deep. */
  predicate AcceptedHas(env: Env, lhs: Expr, rhs: Expr)
    decreases lhs, 0
  {
    && rhs.Constant?
    && match lhs
       case Ident(id, _) => id in env.types && env.types[id] == PrimitiveList && !rhs.c.OtherC?
       case Select(_, operand, _) =>
         && rhs.c.StringC?
         && (match operand
             case Ident(id, _) => id in env.types
             case Select(_, inner, _) => Accepted(env, inner)
             case _ => false)
       case _ => false
  }

  /** Known constants, timestamps that parse, typed identifiers, selections from an accepted operand, AND, OR and
      NOT of accepted operands; comparisons of two accepted operands, where an equality with `email` or `id`
      needs a value on its right; and `:` as above. */
  predicate Accepted(env: Env, e: Expr)
    decreases e, 1
  {
    match e
    case Constant(_, c) => !c.OtherC?
    case Ident(id, _) => id in env.types
    case Select(_, operand, _) => Accepted(env, operand)
    case Call(_, AndF, args) => |args| == 2 && Accepted(env, args[0]) && Accepted(env, args[1])
    case Call(_, OrF, args) => |args| == 2 && Accepted(env, args[0]) && Accepted(env, args[1])
    case Call(_, NotF, args) => |args| == 1 && Accepted(env, args[0])
    case Call(_, CmpF(_), args) =>
      && |args| == 2 && Accepted(env, args[0]) && Accepted(env, args[1])
      && (IsSubstringTest(env, e) ==> Listed(env, args[1]) != [])
    case Call(_, HasF, args) => |args| == 2 && AcceptedHas(env, args[0], args[1])
    case Call(_, TimestampF, args) =>
      |args| == 1 && args[0].Constant? && args[0].c.StringC? && env.parseTime(args[0].c.s).Some?
    case _ => false
  }

  lemma CompareAccepts(env: Env, e: Expr)
    requires e.Call? && e.fn.CmpF? && |e.args| == 2 && Transpile(env, e.args[0]).Ok? && Transpile(env, e.args[1]).Ok?
    ensures Transpile(env, e).Ok? <==> (IsSubstringTest(env, e) ==> Listed(env, e.args[1]) != [])
  {
    VarsAreListed(env, e.args[1]);
    SubstringColumns(env, e.args[0], "email");
    SubstringColumns(env, e.args[0], "id");
    assert |env.table + "." + "create_time"| > |"email"| && |env.table + "." + "update_time"| > |"email"|;
  }

  /** The compiler accepts exactly these. */
  lemma {:induction false} AcceptsExactly(env: Env, e: Expr)
    ensures Transpile(env, e).Ok? <==> Accepted(env, e)
    decreases e
  {
    match e
    case Call(_, fn, args) =>
      if (fn.AndF? || fn.OrF? || fn.CmpF?) && |args| == 2 {
        AcceptsExactly(env, args[0]);
        AcceptsExactly(env, args[1]);
        if fn.CmpF? && Accepted(env, args[0]) && Accepted(env, args[1]) { CompareAccepts(env, e); }
      } else if fn.NotF? && |args| == 1 {
        AcceptsExactly(env, args[0]);
      } else if fn.HasF? && |args| == 2 && args[0].Select? && args[0].operand.Select? {
        AcceptsExactly(env, args[0].operand.operand);
      }
    case Select(_, operand, _) => AcceptsExactly(env, operand);
    case _ =>
  }

  /** A constant of an unknown kind after `:` is an error, never a panic. */
  lemma UnknownConstantIsRefused(env: Env, e: Expr)
    requires e.Call? && e.fn == HasF && |e.args| == 2 && e.args[1].Constant? && e.args[1].c.OtherC?
    requires e.args[0].Ident? || (e.args[0].Select? && e.args[0].operand.Ident?)
    ensures Transpile(env, e) == Err
  {}
}
