/** HijackConstExpr as it is: it overwrites the nodes of the tree it is given. */
module InfluxRewriteInPlace {
  import opened FilterCompiler
  import opened InfluxRewrite

  /** What a node holds: a call, whose arguments are nodes, or something without arguments. */
  datatype Payload = CallPayload(fn: Fn) | LeafPayload(e: Expr)

  class ExprNode {
    var id: int
    var payload: Payload
    var args: seq<ExprNode>
    ghost var model: Expr          // the tree below this node
    ghost var repr: set<object>    // its nodes

    /** The node is the root of a proper tree, with no node in two places, and shows `model`. */
    ghost predicate Valid()
      reads this, repr
      decreases repr
    {
      && this in repr
      && (payload.LeafPayload? ==> args == [] && !payload.e.Call? && model == payload.e && model.id == id)
      && (payload.CallPayload? ==> model.Call? && model.id == id && model.fn == payload.fn && |model.args| == |args|)
      && (forall i | 0 <= i < |args| ::
            args[i] in repr && this !in args[i].repr && args[i].repr <= repr && args[i].Valid())
      && (forall i | 0 <= i < |args| :: args[i].model == model.args[i])
      && (forall i, k | 0 <= i < k < |args| :: args[i].repr !! args[k].repr)
    }

    constructor Leaf(e: Expr)
      requires !e.Call?
      ensures Valid() && model == e && fresh(repr)
    {
      id := e.id;
      payload := LeafPayload(e);
      args := [];
      model := e;
      repr := {this};
    }

    /** The children are proper trees apart from each other and from this node. */
    ghost predicate Branches()
      reads this, repr
    {
      && this in repr
      && (forall i | 0 <= i < |args| ::
            args[i] in repr && this !in args[i].repr && args[i].repr <= repr && args[i].Valid())
      && (forall i, k | 0 <= i < k < |args| :: args[i].repr !! args[k].repr)
    }

    /** Once the children show `now`, so does this call. */
    ghost method Show(now: seq<Expr>)
      requires Branches() && payload.CallPayload? && model.Call? && model.id == id && model.fn == payload.fn
      requires |now| == |args| && forall i | 0 <= i < |args| :: args[i].model == now[i]
      modifies this`model
      ensures Valid() && model == old(model).(args := now)
    {
      model := model.(args := now);
      assert forall i | 0 <= i < |args| :: args[i].Valid();
    }

    /** The identifier's name, or nothing. */
    function NameOf(): string
      reads this
    {
      if payload.LeafPayload? then IdentName(payload.e) else ""
    }
  }

  /** The rewrite in place leaves exactly the tree, and returns exactly the pair, of the function. */
  method HijackConstExpr(j: Job, e: ExprNode, found: bool) returns (value: string, hit: bool)
    requires j.Valid() && e.Valid()
    modifies e.repr
    ensures e.Valid() && e.repr == old(e.repr)
    ensures (e.model, value, hit) == Hijack(j, old(e.model), found)
    decreases e.repr, 2
  {
    if |e.args| == 0 && j.snake(e.NameOf()) == j.before {
      // the name is not empty, so this node is an identifier
      e.payload := LeafPayload(Ident(e.id, j.newName));
      e.model := Ident(e.id, j.newName);
      return "", true;
    }
    if found {
      e.payload := LeafPayload(Constant(e.id, StringC(j.newValue)));
      e.args := [];
      e.model := Constant(e.id, StringC(j.newValue));
      return j.newValue, true;
    }
    if e.payload.LeafPayload? {
      return "", false;
    }
    value, hit := HijackArguments(j, e);
  }

  /** One argument is visited; its siblings are out of reach. */
  method VisitArgument(j: Job, e: ExprNode, i: nat, found: bool) returns (value: string, hit: bool)
    requires j.Valid() && e.Branches() && i < |e.args|
    modifies e.args[i].repr
    ensures e.Branches() && e.args == old(e.args) && e.payload == old(e.payload) && e.id == old(e.id)
    ensures e.repr == old(e.repr) && e.model == old(e.model)
    ensures (e.args[i].model, value, hit) == Hijack(j, old(e.args[i].model), found)
    ensures forall k | 0 <= k < |e.args| && k != i :: e.args[k].model == old(e.args[k].model)
    decreases e.repr, 0
  {
    forall k | 0 <= k < |e.args| && k != i ensures e.args[k].repr !! e.args[i].repr && e.args[k] in e.args[k].repr {
      assert e.args[k].Valid();
    }
    value, hit := HijackConstExpr(j, e.args[i], found);
    assert forall k | 0 <= k < |e.args| && k != i :: e.args[k].repr == old(e.args[k].repr);
  }

  method HijackArguments(j: Job, e: ExprNode) returns (value: string, hit: bool)
    requires j.Valid() && e.Valid() && e.payload.CallPayload?
    modifies e.repr
    ensures e.Valid() && e.repr == old(e.repr)
    ensures e.model.Call? && e.model.id == old(e.model.id) && e.model.fn == old(e.model.fn)
    ensures (e.model.args, value, hit) == HijackArgs(j, old(e.model.args), false)
    decreases e.repr, 1
  {
    ghost var was := e.model.args;
    ghost var now := was;
    value, hit := "", false;
    var i := 0;
    ProgressStart(j, was);
    while i < |e.args|
      invariant 0 <= i <= |e.args| == |was| == |now|
      invariant e.args == old(e.args) && e.payload == old(e.payload) && e.id == old(e.id)
      invariant e.repr == old(e.repr) && e.model == old(e.model) && e.Branches()
      invariant forall k | 0 <= k < |e.args| :: e.args[k].model == now[k]
      invariant Progress(j, was, now, i, hit)
    {
      ghost var flag := hit;
      assert now[i] == now[i..][0] == was[i..][0] == was[i];
      value, hit := VisitArgument(j, e, i, hit);
      ProgressStep(j, was, now, i, flag, e.args[i].model, value, hit);
      now := now[i := e.args[i].model];
      if value != "" && hit {
        e.Show(now);
        return value, true;
      }
      i := i + 1;
    }
    ProgressEnd(j, was, now, hit);
    e.Show(now);
    return "", false;
  }

  /** The first `i` arguments have been visited, giving `now`, and the flag is `hit`. */
  ghost predicate Progress(j: Job, was: seq<Expr>, now: seq<Expr>, i: nat, hit: bool)
    requires j.Valid()
  {
    && i <= |was| == |now| && now[i..] == was[i..]
    && var (rest, s, f) := HijackArgs(j, was[i..], hit);
    HijackArgs(j, was, false) == (now[..i] + rest, s, f)
  }

  lemma ProgressStart(j: Job, was: seq<Expr>)
    requires j.Valid()
    ensures Progress(j, was, was, 0, false)
  {
    assert was[0..] == was;
    assert was[..0] + HijackArgs(j, was, false).0 == HijackArgs(j, was, false).0;
  }

  lemma ProgressStep(j: Job, was: seq<Expr>, now: seq<Expr>, i: nat, hit: bool, child: Expr, value: string, hit': bool)
    requires j.Valid() && i < |was| && Progress(j, was, now, i, hit)
    requires (child, value, hit') == Hijack(j, was[i], hit)
    ensures value != "" && hit' ==> HijackArgs(j, was, false) == (now[i := child], value, true)
    ensures !(value != "" && hit') ==> Progress(j, was, now[i := child], i + 1, hit')
  {
    assert was[i..][0] == was[i] && was[i..][1..] == was[i + 1..];
    if value != "" && hit' {
      assert now[i := child] == now[..i] + ([child] + was[i + 1..]);
    } else {
      NextPrefix(was, now, i, child, HijackArgs(j, was[i + 1..], hit').0);
    }
  }

  lemma NextPrefix(was: seq<Expr>, now: seq<Expr>, i: nat, child: Expr, rest: seq<Expr>)
    requires i < |was| == |now| && now[i..] == was[i..]
    ensures now[..i] + ([child] + rest) == now[i := child][..i + 1] + rest
    ensures now[i := child][i + 1..] == was[i + 1..]
  {
    assert now[i := child][i + 1..] == now[i..][1..] && was[i + 1..] == was[i..][1..];
  }

  lemma ProgressEnd(j: Job, was: seq<Expr>, now: seq<Expr>, hit: bool)
    requires j.Valid() && |was| == |now| && Progress(j, was, now, |was|, hit)
    ensures HijackArgs(j, was, false) == (now, "", false)
  {
    assert was[|was|..] == [] && now[..|was|] + [] == now;
  }
}
