/** The rewrite of pkg/repository/influx_transpiler.go on trees with bare identifiers: when it is exact. */
module InfluxRewriteExact {
  import opened FilterCompiler
  import opened InfluxRewrite
  import opened InfluxRewriteTrees

  /** Calls all the way down to comparisons and bare identifiers. */
  predicate IsMixedTree(e: Expr) {
    IsComparison(e) || (e.Call? && e.args != [] && forall a | a in e.args :: a.Ident? || (a.Call? && IsMixedTree(a)))
  }

  predicate AreMixed(args: seq<Expr>) {
    forall a | a in args :: a.Ident? || (a.Call? && IsMixedTree(a))
  }

  /** The comparisons and bare identifiers of a tree, left to right. */
  function Items(e: Expr): seq<Expr>
    requires IsMixedTree(e)
    decreases e, 1
  {
    if IsComparison(e) then [e] else ItemsOf(e.args)
  }

  function ItemsOf(args: seq<Expr>): seq<Expr>
    requires AreMixed(args)
    decreases args, 0
  {
    if args == [] then []
    else (if args[0].Ident? then [args[0]] else Items(args[0])) + ItemsOf(args[1..])
  }

  predicate BareNamed(j: Job, x: Expr) {
    x.Ident? && j.snake(x.name) == j.before
  }

  /** Every bare identifier on the old name has a comparison on the old name before it. */
  predicate ComparisonFirst(j: Job, items: seq<Expr>) {
    forall i | 0 <= i < |items| && BareNamed(j, items[i]) :: exists k | 0 <= k < i :: Named(j.snake, items[k], j.before)
  }

  predicate HasNamed(j: Job, items: seq<Expr>) {
    exists x | x in items :: Named(j.snake, x, j.before)
  }

  /** The tree with its leftmost comparison on the old name rewritten, if it has one, and nothing else. */
  function LeftmostRewritten(j: Job, e: Expr): Expr
    requires IsMixedTree(e)
    decreases e, 1
  {
    if IsComparison(e) then if Named(j.snake, e, j.before) then Renamed(j, e) else e
    else e.(args := LeftmostRewrittenOf(j, e.args))
  }

  function LeftmostRewrittenOf(j: Job, args: seq<Expr>): (r: seq<Expr>)
    requires AreMixed(args)
    ensures |r| == |args|
    decreases args, 0
  {
    if args == [] then []
    else if args[0].Ident? then [args[0]] + LeftmostRewrittenOf(j, args[1..])
    else if HasNamed(j, Items(args[0])) then [LeftmostRewritten(j, args[0])] + args[1..]
    else [args[0]] + LeftmostRewrittenOf(j, args[1..])
  }

  /** Which comes first: a property of the first list unless nothing in it is on the old name. */
  lemma FirstOfAppend(j: Job, a: seq<Expr>, b: seq<Expr>)
    ensures HasNamed(j, a + b) <==> HasNamed(j, a) || HasNamed(j, b)
    ensures HasNamed(j, a) ==> (ComparisonFirst(j, a + b) <==> ComparisonFirst(j, a))
    ensures !HasNamed(j, a) ==> (ComparisonFirst(j, a + b) <==> ComparisonFirst(j, a) && ComparisonFirst(j, b))
  {
    var c := a + b;
    assert forall i | 0 <= i < |a| :: c[i] == a[i];
    assert forall i | 0 <= i < |b| :: c[|a| + i] == b[i];
    if ComparisonFirst(j, c) {
      forall i | 0 <= i < |a| && BareNamed(j, a[i]) ensures exists k | 0 <= k < i :: Named(j.snake, a[k], j.before) {
        assert BareNamed(j, c[i]);
        var k :| 0 <= k < i && Named(j.snake, c[k], j.before);
        assert Named(j.snake, a[k], j.before);
      }
      if !HasNamed(j, a) {
        assert forall q | 0 <= q < |a| :: a[q] in a && !Named(j.snake, c[q], j.before);
        forall i | 0 <= i < |b| && BareNamed(j, b[i]) ensures exists k | 0 <= k < i :: Named(j.snake, b[k], j.before) {
          assert BareNamed(j, c[|a| + i]);
          var k :| 0 <= k < |a| + i && Named(j.snake, c[k], j.before);
          assert Named(j.snake, b[k - |a|], j.before);
        }
      }
    }
    if ComparisonFirst(j, a) && (HasNamed(j, a) || ComparisonFirst(j, b)) {
      forall i | 0 <= i < |c| && BareNamed(j, c[i]) ensures exists k | 0 <= k < i :: Named(j.snake, c[k], j.before) {
        if i < |a| {
          var k :| 0 <= k < i && Named(j.snake, a[k], j.before);
          assert Named(j.snake, c[k], j.before);
        } else if HasNamed(j, a) {
          var x :| x in a && Named(j.snake, x, j.before);
          var k :| 0 <= k < |a| && a[k] == x;
          assert Named(j.snake, c[k], j.before);
        } else {
          var k :| 0 <= k < i - |a| && Named(j.snake, b[k], j.before);
          assert Named(j.snake, c[|a| + k], j.before);
        }
      }
    }
  }

  lemma OneItem(j: Job, x: Expr)
    ensures HasNamed(j, [x]) <==> Named(j.snake, x, j.before)
    ensures ComparisonFirst(j, [x]) <==> !BareNamed(j, x)
  {
    assert [x][0] == x;
  }

  /** On a tree in which a comparison comes first, the walk rewrites that one and reports it. */
  ghost predicate Behaves(j: Job, e: Expr)
    requires j.Valid() && IsMixedTree(e)
  {
    Hijack(j, e, false)
      == (LeftmostRewritten(j, e), if HasNamed(j, Items(e)) then j.newValue else "", HasNamed(j, Items(e)))
  }

  ghost predicate BehavesOn(j: Job, args: seq<Expr>)
    requires j.Valid() && AreMixed(args)
  {
    HijackArgs(j, args, false)
      == (LeftmostRewrittenOf(j, args),
          if HasNamed(j, ItemsOf(args)) then j.newValue else "", HasNamed(j, ItemsOf(args)))
  }

  lemma {:induction false} MixedWalk(j: Job, e: Expr)
    requires j.Valid() && IsMixedTree(e) && j.newValue != "" && j.snake(j.newName) != j.before
    ensures if ComparisonFirst(j, Items(e)) then Behaves(j, e) else Hijack(j, e, false).0 != LeftmostRewritten(j, e)
    decreases e, 1
  {
    if IsComparison(e) {
      OneItem(j, e);
      HijackComparison(j, e);
    } else {
      MixedWalkOf(j, e.args);
    }
  }

  lemma {:induction false} MixedWalkOf(j: Job, args: seq<Expr>)
    requires j.Valid() && AreMixed(args) && j.newValue != "" && j.snake(j.newName) != j.before
    ensures if ComparisonFirst(j, ItemsOf(args)) then BehavesOn(j, args)
            else HijackArgs(j, args, false).0 != LeftmostRewrittenOf(j, args)
    decreases args, 0
  {
    if args != [] {
      var a, rest := args[0], args[1..];
      MixedWalkOf(j, rest);
      var here := if a.Ident? then [a] else Items(a);
      FirstOfAppend(j, here, ItemsOf(rest));
      if a.Ident? {
        OneItem(j, a);
        if BareNamed(j, a) {
          assert Hijack(j, a, false).0 == Ident(a.id, j.newName);
          assert HijackArgs(j, args, false).0[0] != LeftmostRewrittenOf(j, args)[0];
        } else {
          assert Hijack(j, a, false) == (a, "", false);
          FirstKept(j, args);
        }
      } else {
        MixedWalk(j, a);
        if !ComparisonFirst(j, here) {
          NothingNamedIsKept(j, a);
          assert HijackArgs(j, args, false).0[0] == Hijack(j, a, false).0;
          assert LeftmostRewrittenOf(j, args)[0] == LeftmostRewritten(j, a);
        } else if !HasNamed(j, here) {
          NothingNamedIsKept(j, a);
          FirstKept(j, args);
        }
      }
    }
  }

  /** The walk leaves the first argument alone and goes on. */
  lemma FirstKept(j: Job, args: seq<Expr>)
    requires j.Valid() && args != [] && Hijack(j, args[0], false) == (args[0], "", false)
    ensures var (rest, s, f) := HijackArgs(j, args[1..], false); HijackArgs(j, args, false) == ([args[0]] + rest, s, f)
    ensures forall t: seq<Expr> :: [args[0]] + HijackArgs(j, args[1..], false).0 == [args[0]] + t
              ==> HijackArgs(j, args[1..], false).0 == t
  {
    forall t: seq<Expr> | [args[0]] + HijackArgs(j, args[1..], false).0 == [args[0]] + t
      ensures HijackArgs(j, args[1..], false).0 == t
    {
      var rest := HijackArgs(j, args[1..], false).0;
      assert ([args[0]] + t)[1..] == t && ([args[0]] + rest)[1..] == rest;
    }
  }

  lemma {:induction false} NothingNamedIsKept(j: Job, e: Expr)
    requires IsMixedTree(e)
    ensures !HasNamed(j, Items(e)) ==> LeftmostRewritten(j, e) == e
    decreases e, 1
  {
    if IsComparison(e) {
      OneItem(j, e);
    } else {
      NothingNamedIsKeptIn(j, e.args);
    }
  }

  lemma {:induction false} NothingNamedIsKeptIn(j: Job, args: seq<Expr>)
    requires AreMixed(args)
    ensures !HasNamed(j, ItemsOf(args)) ==> LeftmostRewrittenOf(j, args) == args
    decreases args, 0
  {
    if args != [] {
      FirstOfAppend(j, if args[0].Ident? then [args[0]] else Items(args[0]), ItemsOf(args[1..]));
      NothingNamedIsKeptIn(j, args[1..]);
      assert [args[0]] + args[1..] == args;
    }
  }

  /** The exact condition.  With a value, and a new name that is not the old one, the result is the tree with
      its leftmost comparison on the old name rewritten, and nothing else, if and only if no bare identifier
      on the old name comes before that comparison. */
  lemma HijackExactIff(j: Job, e: Expr)
    requires j.Valid() && IsMixedTree(e) && j.newValue != "" && j.snake(j.newName) != j.before
    ensures Hijack(j, e, false).0 == LeftmostRewritten(j, e) <==> ComparisonFirst(j, Items(e))
  {
    MixedWalk(j, e);
  }

  /** Outside comparison trees the flag leaks: a bare identifier as the first operand of AND gets the
      whole second operand overwritten by the new value. */
  lemma BareIdentifierOverwritesSibling(j: Job, id: int, sibling: Expr)
    requires j.Valid() && j.newValue != "" && j.snake(j.before) == j.before && sibling.Call? && sibling.args != []
    ensures Hijack(j, Call(0, AndF, [Ident(id, j.before), sibling]), false)
         == (Call(0, AndF, [Ident(id, j.newName), Constant(sibling.id, StringC(j.newValue))]), j.newValue, true)
  {
    var e := Call(0, AndF, [Ident(id, j.before), sibling]);
    assert e.args[1..] == [sibling] && [sibling][1..] == [];
    assert Hijack(j, e.args[0], false) == (Ident(id, j.newName), "", true);
    assert Hijack(j, sibling, true) == (Constant(sibling.id, StringC(j.newValue)), j.newValue, true);
    assert [Constant(sibling.id, StringC(j.newValue))] + [] == [Constant(sibling.id, StringC(j.newValue))];
    assert HijackArgs(j, [sibling], true) == ([Constant(sibling.id, StringC(j.newValue))], j.newValue, true);
    var both := [Ident(id, j.newName)] + [Constant(sibling.id, StringC(j.newValue))];
    assert both == [Ident(id, j.newName), Constant(sibling.id, StringC(j.newValue))];
    assert HijackArgs(j, e.args, false) == (both, j.newValue, true);
  }
}
