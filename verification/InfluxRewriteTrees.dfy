/** What the walks of InfluxRewrite do on trees of comparisons. */
module InfluxRewriteTrees {
  import opened FilterCompiler
  import opened InfluxRewrite

  /* ---- Comparison trees ---- */

  predicate IsComparison(e: Expr) {
    e.Call? && |e.args| == 2 && e.args[0].Ident? && e.args[1].Constant?
  }

  /** Calls all the way down to comparisons of an identifier with a constant. */
  predicate IsComparisonTree(e: Expr) {
    IsComparison(e) || (e.Call? && e.args != [] && forall a | a in e.args :: a.Call? && IsComparisonTree(a))
  }

  /** The comparisons of a tree, left to right. */
  function Comparisons(e: Expr): seq<Expr>
    requires IsComparisonTree(e)
    decreases e, 1
  {
    if IsComparison(e) then [e] else ComparisonsOf(e.args)
  }

  function ComparisonsOf(args: seq<Expr>): seq<Expr>
    requires forall a | a in args :: a.Call? && IsComparisonTree(a)
    decreases args, 0
  {
    if args == [] then [] else Comparisons(args[0]) + ComparisonsOf(args[1..])
  }

  /** The tree with its comparisons replaced one for one, everything else as it was. */
  function Refill(e: Expr, comps: seq<Expr>): Expr
    requires IsComparisonTree(e) && |comps| == |Comparisons(e)|
    decreases e, 1
  {
    if IsComparison(e) then comps[0] else e.(args := RefillArgs(e.args, comps))
  }

  function RefillArgs(args: seq<Expr>, comps: seq<Expr>): (r: seq<Expr>)
    requires forall a | a in args :: a.Call? && IsComparisonTree(a)
    requires |comps| == |ComparisonsOf(args)|
    ensures |r| == |args|
    decreases args, 0
  {
    if args == [] then [] else
    var n := |Comparisons(args[0])|;
    [Refill(args[0], comps[..n])] + RefillArgs(args[1..], comps[n..])
  }

  predicate Named(snake: string -> string, c: Expr, name: string) {
    IsComparison(c) && snake(c.args[0].name) == name
  }

  /** The comparison under its new name and value; the ids of all three nodes stay. */
  function Renamed(j: Job, c: Expr): Expr
    requires IsComparison(c)
  {
    c.(args := [Ident(c.args[0].id, j.newName), Constant(c.args[1].id, StringC(j.newValue))])
  }

  predicate AllComparisons(cs: seq<Expr>) {
    forall c | c in cs :: IsComparison(c)
  }

  /** Rewrite the first comparison on the old name. */
  function RewriteFirst(j: Job, cs: seq<Expr>): (r: seq<Expr>)
    requires AllComparisons(cs)
    ensures |r| == |cs|
  {
    if cs == [] then []
    else if Named(j.snake, cs[0], j.before) then [Renamed(j, cs[0])] + cs[1..]
    else [cs[0]] + RewriteFirst(j, cs[1..])
  }

  function RewriteAll(j: Job, cs: seq<Expr>): (r: seq<Expr>)
    requires AllComparisons(cs)
    ensures |r| == |cs|
  {
    seq(|cs|, i requires 0 <= i < |cs| => if Named(j.snake, cs[i], j.before) then Renamed(j, cs[i]) else cs[i])
  }

  predicate Occurs(j: Job, cs: seq<Expr>) {
    exists c | c in cs :: Named(j.snake, c, j.before)
  }

  /** The constant of the first comparison on `target` whose string value is not empty. */
  function FirstValue(snake: string -> string, cs: seq<Expr>, target: string): string
    requires AllComparisons(cs)
  {
    if cs == [] then ""
    else if Named(snake, cs[0], target) && StringValue(cs[0].args[1]) != "" then StringValue(cs[0].args[1])
    else FirstValue(snake, cs[1..], target)
  }

  /* ---- The walk on comparison trees ---- */

  lemma {:induction false} ComparisonsAre(e: Expr)
    requires IsComparisonTree(e)
    ensures AllComparisons(Comparisons(e))
    decreases e, 1
  {
    if !IsComparison(e) { ComparisonsOfAre(e.args); }
  }

  lemma {:induction false} ComparisonsOfAre(args: seq<Expr>)
    requires forall a | a in args :: a.Call? && IsComparisonTree(a)
    ensures AllComparisons(ComparisonsOf(args))
    decreases args, 0
  {
    if args != [] {
      ComparisonsAre(args[0]);
      ComparisonsOfAre(args[1..]);
    }
  }

  lemma {:induction false} RefillSame(e: Expr)
    requires IsComparisonTree(e)
    ensures Refill(e, Comparisons(e)) == e
    decreases e, 1
  {
    if !IsComparison(e) { RefillArgsSame(e.args); }
  }

  lemma {:induction false} RefillArgsSame(args: seq<Expr>)
    requires forall a | a in args :: a.Call? && IsComparisonTree(a)
    ensures RefillArgs(args, ComparisonsOf(args)) == args
    decreases args, 0
  {
    if args != [] {
      var n := |Comparisons(args[0])|;
      var all := ComparisonsOf(args);
      assert all[..n] == Comparisons(args[0]) && all[n..] == ComparisonsOf(args[1..]);
      RefillSame(args[0]);
      RefillArgsSame(args[1..]);
    }
  }

  /** What the rewrite does to the comparisons of a tree, for the value it is given. */
  function Rewrite(j: Job, cs: seq<Expr>): (r: seq<Expr>)
    requires AllComparisons(cs)
    ensures |r| == |cs|
  {
    if j.newValue != "" then RewriteFirst(j, cs) else RewriteAll(j, cs)
  }

  /** And what it returns. */
  function Answer(j: Job, cs: seq<Expr>): (string, bool) {
    if j.newValue != "" && Occurs(j, cs) then (j.newValue, true) else ("", false)
  }

  lemma OccursCons(j: Job, a: seq<Expr>)
    requires a != []
    ensures Occurs(j, a) <==> Named(j.snake, a[0], j.before) || Occurs(j, a[1..])
  {
    assert a == [a[0]] + a[1..];
  }

  lemma RewriteHere(j: Job, a: seq<Expr>, b: seq<Expr>)
    requires a != [] && AllComparisons(a) && AllComparisons(a + b) && Named(j.snake, a[0], j.before)
    ensures RewriteFirst(j, a + b) == RewriteFirst(j, a) + b
  {
    assert (a + b)[1..] == a[1..] + b;
  }

  lemma RewriteLater(j: Job, a: seq<Expr>, b: seq<Expr>)
    requires a != [] && AllComparisons(a) && AllComparisons(a + b) && !Named(j.snake, a[0], j.before)
    ensures AllComparisons(a[1..]) && AllComparisons(a[1..] + b)
    ensures RewriteFirst(j, a + b) == [a[0]] + RewriteFirst(j, a[1..] + b)
    ensures RewriteFirst(j, a) == [a[0]] + RewriteFirst(j, a[1..])
  {
    assert (a + b)[1..] == a[1..] + b;
  }

  lemma Reassociate<T>(x: seq<T>, y: seq<T>, z: seq<T>)
    ensures x + (y + z) == (x + y) + z
  {}

  lemma {:induction false} RewriteFirstAppend(j: Job, a: seq<Expr>, b: seq<Expr>)
    requires AllComparisons(a) && AllComparisons(b) && AllComparisons(a + b)
    ensures RewriteFirst(j, a + b) == if Occurs(j, a) then RewriteFirst(j, a) + b else a + RewriteFirst(j, b)
  {
    if a == [] {
      assert a + b == b;
    } else {
      OccursCons(j, a);
      if Named(j.snake, a[0], j.before) {
        RewriteHere(j, a, b);
      } else {
        RewriteLater(j, a, b);
        RewriteFirstAppend(j, a[1..], b);
        Reassociate([a[0]], RewriteFirst(j, a[1..]), b);
        Reassociate([a[0]], a[1..], RewriteFirst(j, b));
        assert a == [a[0]] + a[1..];
      }
    }
  }

  lemma {:induction false} NothingToRewrite(j: Job, a: seq<Expr>)
    requires AllComparisons(a) && !Occurs(j, a)
    ensures Rewrite(j, a) == a
  {
    if a != [] {
      NothingToRewrite(j, a[1..]);
      assert !Named(j.snake, a[0], j.before) && [a[0]] + a[1..] == a;
    }
  }

  lemma RewriteAppend(j: Job, a: seq<Expr>, b: seq<Expr>)
    requires AllComparisons(a) && AllComparisons(b)
    ensures AllComparisons(a + b)
    ensures j.newValue != "" && Occurs(j, a) ==> Rewrite(j, a + b) == Rewrite(j, a) + b
    ensures j.newValue == "" || !Occurs(j, a) ==> Rewrite(j, a + b) == Rewrite(j, a) + Rewrite(j, b)
  {
    if j.newValue != "" {
      RewriteFirstAppend(j, a, b);
      if !Occurs(j, a) { NothingToRewrite(j, a); }
    } else {
      assert RewriteAll(j, a + b) == RewriteAll(j, a) + RewriteAll(j, b);
    }
  }

  /** One comparison. */
  lemma HijackComparison(j: Job, c: Expr)
    requires j.Valid() && IsComparison(c)
    ensures Hijack(j, c, false) ==
              if Named(j.snake, c, j.before)
              then (Renamed(j, c), j.newValue, j.newValue != "")
              else (c, "", false)
  {
    var id, k := c.args[0], c.args[1];
    var named := Named(j.snake, c, j.before);
    assert c.args[1..] == [k] && c.args[1..][1..] == [];
    assert Hijack(j, id, false) == if named then (Ident(id.id, j.newName), "", true) else (id, "", false);
    assert [k][1..] == [];
    assert HijackArgs(j, [], false) == ([], "", false) && HijackArgs(j, [], true) == ([], "", false);
    if named {
      assert Hijack(j, k, true) == (Constant(k.id, StringC(j.newValue)), j.newValue, true);
      assert [Constant(k.id, StringC(j.newValue))] + [] == [Constant(k.id, StringC(j.newValue))];
      assert HijackArgs(j, [k], true) == ([Constant(k.id, StringC(j.newValue))], j.newValue, j.newValue != "");
      assert [Ident(id.id, j.newName)] + [Constant(k.id, StringC(j.newValue))] == Renamed(j, c).args;
      assert HijackArgs(j, c.args, false) == (Renamed(j, c).args, j.newValue, j.newValue != "");
    } else {
      assert Hijack(j, k, false) == (k, "", false);
      assert [k] + [] == [k];
      assert HijackArgs(j, [k], false) == ([k], "", false);
      assert [id] + [k] == c.args;
      assert HijackArgs(j, c.args, false) == (c.args, "", false);
    }
  }

  /** The rewrite on a comparison tree: with a value, the leftmost comparison on the old name gets the
      new name and value; without one, all of them do.  Nothing else changes. */
  lemma {:induction false} HijackRewrites(j: Job, e: Expr)
    requires j.Valid() && IsComparisonTree(e)
    ensures AllComparisons(Comparisons(e))
    ensures Hijack(j, e, false) ==
              (Refill(e, Rewrite(j, Comparisons(e))), Answer(j, Comparisons(e)).0, Answer(j, Comparisons(e)).1)
    decreases e, 1
  {
    ComparisonsAre(e);
    if IsComparison(e) {
      HijackComparison(j, e);
      assert Occurs(j, [e]) <==> Named(j.snake, e, j.before) by { assert e in [e]; }
      assert RewriteFirst(j, [e][1..]) == [];
    } else {
      HijackArgsRewrite(j, e.args);
    }
  }

  lemma {:induction false} HijackArgsRewrite(j: Job, args: seq<Expr>)
    requires j.Valid() && forall a | a in args :: a.Call? && IsComparisonTree(a)
    ensures AllComparisons(ComparisonsOf(args))
    ensures HijackArgs(j, args, false)
         == (RefillArgs(args, Rewrite(j, ComparisonsOf(args))),
             Answer(j, ComparisonsOf(args)).0, Answer(j, ComparisonsOf(args)).1)
    decreases args, 0
  {
    ComparisonsOfAre(args);
    if args != [] {
      var cs, ds := Comparisons(args[0]), ComparisonsOf(args[1..]);
      HijackRewrites(j, args[0]);
      HijackArgsRewrite(j, args[1..]);
      RewriteAppend(j, cs, ds);
      var comps := Rewrite(j, cs + ds);
      if Answer(j, cs).1 {
        assert comps[..|cs|] == Rewrite(j, cs) && comps[|cs|..] == ds;
        RefillArgsSame(args[1..]);
      } else {
        assert comps[..|cs|] == Rewrite(j, cs) && comps[|cs|..] == Rewrite(j, ds);
      }
    }
  }

  /* ---- Extraction ---- */

  lemma {:induction false} FirstValueAppend(snake: string -> string, a: seq<Expr>, b: seq<Expr>, target: string)
    requires AllComparisons(a) && AllComparisons(b)
    ensures AllComparisons(a + b)
    ensures FirstValue(snake, a + b, target) ==
              if FirstValue(snake, a, target) != "" then FirstValue(snake, a, target)
              else FirstValue(snake, b, target)
  {
    if a == [] {
      assert a + b == b;
    } else {
      assert (a + b)[1..] == a[1..] + b;
      FirstValueAppend(snake, a[1..], b, target);
    }
  }

  /** Extraction from a comparison tree returns the first non-empty string compared with the name. */
  lemma {:induction false} ExtractFinds(snake: string -> string, e: Expr, target: string)
    requires IsComparisonTree(e) && target != "" && snake("") == ""
    ensures AllComparisons(Comparisons(e))
    ensures var v := FirstValue(snake, Comparisons(e), target); Extract(snake, e, target, false) == (v, v != "")
    decreases e, 1
  {
    ComparisonsAre(e);
    if IsComparison(e) {
      var id, k := e.args[0], e.args[1];
      assert e.args[1..] == [k] && [k][1..] == [];
      assert ExtractArgs(snake, [], target, false) == ("", false)
          && ExtractArgs(snake, [], target, true) == ("", false);
      assert FirstValue(snake, [e][1..], target) == "";
      assert Extract(snake, k, target, false) == ("", false);
      assert Extract(snake, k, target, true) == (StringValue(k), true);
      assert ExtractArgs(snake, [k], target, false) == ("", false);
      assert ExtractArgs(snake, [k], target, true) == (StringValue(k), StringValue(k) != "");
      assert Extract(snake, id, target, false) == if Named(snake, e, target) then ("", true) else ("", false);
      assert Extract(snake, e, target, false) == ExtractArgs(snake, e.args, target, false);
    } else {
      ExtractArgsFinds(snake, e.args, target);
    }
  }

  lemma {:induction false} ExtractArgsFinds(snake: string -> string, args: seq<Expr>, target: string)
    requires target != "" && snake("") == ""
    requires forall a | a in args :: a.Call? && IsComparisonTree(a)
    ensures AllComparisons(ComparisonsOf(args))
    ensures var v := FirstValue(snake, ComparisonsOf(args), target);
              ExtractArgs(snake, args, target, false) == (v, v != "")
    decreases args, 0
  {
    ComparisonsOfAre(args);
    if args != [] {
      ExtractFinds(snake, args[0], target);
      ExtractArgsFinds(snake, args[1..], target);
      FirstValueAppend(snake, Comparisons(args[0]), ComparisonsOf(args[1..]), target);
    }
  }

  /** The loop of the code.  On a comparison tree it finds the leftmost non-empty string compared with
      the target, and nothing exactly if there is none. */
  method ExtractConstExpr(snake: string -> string, e: Expr, target: string, found: bool)
    returns (value: string, hit: bool)
    ensures (value, hit) == Extract(snake, e, target, found)
    ensures target != "" && snake("") == "" && !found && IsComparisonTree(e) ==>
              AllComparisons(Comparisons(e)) && value == FirstValue(snake, Comparisons(e), target)
              && hit == (value != "")
    decreases e
  {
    if target != "" && snake("") == "" && IsComparisonTree(e) { ExtractFinds(snake, e, target); }
    if Args(e) == [] && snake(IdentName(e)) == target { return "", true; }
    if found { return StringValue(e), true; }
    value, hit := "", false;
    var args := Args(e);
    var i := 0;
    while i < |args|
      invariant 0 <= i <= |args|
      invariant ExtractArgs(snake, args, target, false) == ExtractArgs(snake, args[i..], target, hit)
    {
      assert args[i..][0] == args[i] && args[i..][1..] == args[i + 1..];
      value, hit := ExtractConstExpr(snake, args[i], target, hit);
      if value != "" && hit { return value, true; }
      i := i + 1;
    }
    return "", false;
  }

  /* ---- One after the other ---- */

  lemma {:induction false} RefillComparisons(e: Expr, comps: seq<Expr>)
    requires IsComparisonTree(e) && |comps| == |Comparisons(e)| && AllComparisons(comps)
    ensures IsComparisonTree(Refill(e, comps)) && Comparisons(Refill(e, comps)) == comps
    ensures IsComparison(Refill(e, comps)) <==> IsComparison(e)
    ensures Refill(e, comps).Call?
    decreases e, 1
  {
    if !IsComparison(e) {
      RefillArgsComparisons(e.args, comps);
      assert forall a | a in e.args :: a.Call?;
    }
  }

  lemma ComparisonsCons(a: Expr, rest: seq<Expr>)
    requires a.Call? && IsComparisonTree(a) && forall b | b in rest :: b.Call? && IsComparisonTree(b)
    ensures forall b | b in [a] + rest :: b.Call? && IsComparisonTree(b)
    ensures ComparisonsOf([a] + rest) == Comparisons(a) + ComparisonsOf(rest)
  {
    assert ([a] + rest)[1..] == rest;
  }

  lemma {:induction false} RefillArgsComparisons(args: seq<Expr>, comps: seq<Expr>)
    requires forall a | a in args :: a.Call? && IsComparisonTree(a)
    requires |comps| == |ComparisonsOf(args)| && AllComparisons(comps)
    ensures forall a | a in RefillArgs(args, comps) :: a.Call? && IsComparisonTree(a)
    ensures ComparisonsOf(RefillArgs(args, comps)) == comps
    decreases args, 0
  {
    if args != [] {
      var n := |Comparisons(args[0])|;
      var first, others := comps[..n], comps[n..];
      assert comps == first + others;
      RefillComparisons(args[0], first);
      RefillArgsComparisons(args[1..], others);
      ComparisonsCons(Refill(args[0], first), RefillArgs(args[1..], others));
      assert RefillArgs(args, comps) == [Refill(args[0], first)] + RefillArgs(args[1..], others);
    }
  }

  /** The comparisons before the first one on the old name. */
  function Earlier(j: Job, cs: seq<Expr>): (r: seq<Expr>)
    requires AllComparisons(cs)
    ensures AllComparisons(r)
  {
    if cs == [] || Named(j.snake, cs[0], j.before) then [] else [cs[0]] + Earlier(j, cs[1..])
  }

  lemma {:induction false} FirstValueOfRewritten(j: Job, cs: seq<Expr>)
    requires AllComparisons(cs) && Occurs(j, cs) && j.newValue != ""
    ensures AllComparisons(RewriteFirst(j, cs))
    ensures var target := j.snake(j.newName); var v := FirstValue(j.snake, Earlier(j, cs), target);
            FirstValue(j.snake, RewriteFirst(j, cs), target) == if v != "" then v else j.newValue
  {
    if !Named(j.snake, cs[0], j.before) {
      FirstValueOfRewritten(j, cs[1..]);
      assert ([cs[0]] + Earlier(j, cs[1..]))[1..] == Earlier(j, cs[1..]);
      assert ([cs[0]] + RewriteFirst(j, cs[1..]))[1..] == RewriteFirst(j, cs[1..]);
    }
  }

  /** Rewriting with a value and then extracting the new name gives that value back, unless an
      earlier comparison on the new name already has a non-empty string; then it gives that one. */
  lemma ExtractAfterHijack(j: Job, e: Expr)
    requires j.Valid() && IsComparisonTree(e) && j.newValue != "" && j.snake(j.newName) != ""
    requires AllComparisons(Comparisons(e)) && Occurs(j, Comparisons(e))
    ensures var target := j.snake(j.newName);
            var v := FirstValue(j.snake, Earlier(j, Comparisons(e)), target);
            Extract(j.snake, Hijack(j, e, false).0, target, false) == (if v != "" then v else j.newValue, true)
  {
    var cs := Comparisons(e);
    HijackRewrites(j, e);
    FirstValueOfRewritten(j, cs);
    RefillComparisons(e, RewriteFirst(j, cs));
    ExtractFinds(j.snake, Refill(e, RewriteFirst(j, cs)), j.snake(j.newName));
  }
}
