/**
 ExtractConstExpr and HijackConstExpr of pkg/repository/influx_transpiler.go: a walk over the
 filter tree that threads a `found` flag from one argument to the next.  Here they are functions
 from trees to trees; InfluxRewriteInPlace has the rewrite that overwrites nodes.
*/
module InfluxRewrite {
  import opened FilterCompiler

  /** What the walk is asked for.  `snake` is the library's name normalisation. */
  datatype Job = Job(snake: string -> string, before: string, newName: string, newValue: string) {
    /** The name looked for is not empty, and normalising nothing gives nothing. */
    predicate Valid() { before != "" && snake("") == "" }
  }

  function Args(e: Expr): seq<Expr> { if e.Call? then e.args else [] }

  function IdentName(e: Expr): string { if e.Ident? then e.name else "" }

  function StringValue(e: Expr): string { if e.Constant? && e.c.StringC? then e.c.s else "" }

  /** The rewritten tree and the pair the code returns. */
  function Hijack(j: Job, e: Expr, found: bool): (Expr, string, bool)
    requires j.Valid()
    decreases e, 1
  {
    if Args(e) == [] && j.snake(IdentName(e)) == j.before then (Ident(e.id, j.newName), "", true)
    else if found then (Constant(e.id, StringC(j.newValue)), j.newValue, true)
    else if !e.Call? then (e, "", false)   // no arguments to visit
    else
      var (args, s, f) := HijackArgs(j, e.args, false);
      (e.(args := args), s, f)
  }

  function HijackArgs(j: Job, args: seq<Expr>, found: bool): (r: (seq<Expr>, string, bool))
    requires j.Valid()
    ensures |r.0| == |args|
    decreases args, 0
  {
    if args == [] then ([], "", false) else
    var (a, s, f) := Hijack(j, args[0], found);
    if s != "" && f then ([a] + args[1..], s, true) else
    var (rest, s', f') := HijackArgs(j, args[1..], f);
    ([a] + rest, s', f')
  }

  function Extract(snake: string -> string, e: Expr, target: string, found: bool): (string, bool)
    decreases e, 1
  {
    if Args(e) == [] && snake(IdentName(e)) == target then ("", true)
    else if found then (StringValue(e), true)
    else if !e.Call? then ("", false)
    else ExtractArgs(snake, e.args, target, false)
  }

  function ExtractArgs(snake: string -> string, args: seq<Expr>, target: string, found: bool): (string, bool)
    decreases args, 0
  {
    if args == [] then ("", false) else
    var (s, f) := Extract(snake, args[0], target, found);
    if s != "" && f then (s, true) else ExtractArgs(snake, args[1..], target, f)
  }
}
