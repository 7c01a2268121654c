/**
 Propositional trees over the filter's connectives, their meaning in SQL's three-valued
 logic, and the meaning they get when their in-order text is read with SQL precedence.
*/
module Connectives {
  datatype Tree<A> = Leaf(a: A) | And(l: Tree<A>, r: Tree<A>) | Or(l: Tree<A>, r: Tree<A>) | Not(t: Tree<A>)

  datatype Truth = False | Unknown | True

  function AndOf(p: Truth, q: Truth): Truth {
    if p.False? || q.False? then False else if p.True? && q.True? then True else Unknown
  }

  function OrOf(p: Truth, q: Truth): Truth {
    if p.True? || q.True? then True else if p.False? && q.False? then False else Unknown
  }

  function NotOf(p: Truth): Truth {
    match p case False => True case True => False case Unknown => Unknown
  }

  function Degree(p: Truth): nat { if p.False? then 0 else if p.Unknown? then 1 else 2 }

  /** SQL's tables: AND is the lesser truth, OR the greater, and NOT turns the order round. */
  lemma TruthTables(p: Truth, q: Truth)
    ensures Degree(AndOf(p, q)) == if Degree(p) < Degree(q) then Degree(p) else Degree(q)
    ensures Degree(OrOf(p, q)) == if Degree(p) < Degree(q) then Degree(q) else Degree(p)
    ensures Degree(NotOf(p)) == 2 - Degree(p)
  {}

  /** The tree's own meaning, given what its leaves mean. */
  function Eval<A>(t: Tree<A>, m: A -> Truth): Truth {
    match t
    case Leaf(a) => m(a)
    case And(l, r) => AndOf(Eval(l, m), Eval(r, m))
    case Or(l, r) => OrOf(Eval(l, m), Eval(r, m))
    case Not(u) => NotOf(Eval(u, m))
  }

  /** A leaf under a number of NOTs. */
  datatype Lit<A> = Lit(nots: nat, a: A)

  type Groups<A> = seq<seq<Lit<A>>>

  function EvalLit<A>(x: Lit<A>, m: A -> Truth): Truth
    decreases x.nots
  {
    if x.nots == 0 then m(x.a) else NotOf(EvalLit(Lit(x.nots - 1, x.a), m))
  }

  function EvalGroup<A>(g: seq<Lit<A>>, m: A -> Truth): Truth {
    if g == [] then True else AndOf(EvalLit(g[0], m), EvalGroup(g[1..], m))
  }

  /** OR of ANDs of literals. */
  function EvalGroups<A>(gs: Groups<A>, m: A -> Truth): Truth {
    if gs == [] then False else OrOf(EvalGroup(gs[0], m), EvalGroups(gs[1..], m))
  }

  /** Join two lists of groups by AND: the last group of one runs into the first of the other. */
  function Glue<T>(x: seq<seq<T>>, y: seq<seq<T>>): (z: seq<seq<T>>)
    requires x != [] && y != []
    ensures |z| == |x| + |y| - 1
  {
    x[..|x| - 1] + [x[|x| - 1] + y[0]] + y[1..]
  }

  lemma GlueCons<T>(x: seq<T>, r: seq<seq<T>>, s: seq<seq<T>>)
    requires r != [] && s != []
    ensures Glue([x] + r, s) == [x] + Glue(r, s)
  {}

  lemma GluePrefix<T>(x: T, r: seq<seq<T>>, s: seq<seq<T>>)
    requires r != [] && s != []
    ensures Glue([[x] + r[0]] + r[1..], s) == [[x] + Glue(r, s)[0]] + Glue(r, s)[1..]
  {
    var r' := [[x] + r[0]] + r[1..];
    if |r| == 1 {
      assert ([x] + r[0]) + s[0] == [x] + (r[0] + s[0]);
    } else {
      assert Glue(r, s)[0] == r[0];
      assert r'[|r| - 1] == r[|r| - 1];
    }
  }

  ghost predicate NoneEmpty<T>(x: seq<seq<T>>) {
    x != [] && forall i | 0 <= i < |x| :: x[i] != []
  }

  /** One more NOT on the first literal. */
  function Negated<A>(gs: Groups<A>): (r: Groups<A>)
    requires gs != [] && gs[0] != []
    ensures |r| == |gs| && r[0] != []
  {
    [[Lit(gs[0][0].nots + 1, gs[0][0].a)] + gs[0][1..]] + gs[1..]
  }

  /** The in-order sequence of leaves and connectives, cut at the ORs first, then at the ANDs,
      with a NOT bound to the leaf that follows it. */
  function Regroup<A>(t: Tree<A>): (gs: Groups<A>)
    ensures NoneEmpty(gs)
  {
    match t
    case Leaf(a) => [[Lit(0, a)]]
    case And(l, r) => Glue(Regroup(l), Regroup(r))
    case Or(l, r) => Regroup(l) + Regroup(r)
    case Not(u) => Negated(Regroup(u))
  }

  predicate HasOr<A>(t: Tree<A>) {
    match t
    case Leaf(_) => false
    case And(l, r) => HasOr(l) || HasOr(r)
    case Or(_, _) => true
    case Not(u) => HasOr(u)
  }

  /** A leaf under any number of NOTs. */
  predicate IsLiteral<A>(t: Tree<A>) {
    t.Leaf? || (t.Not? && IsLiteral(t.t))
  }

  /** No OR lies below an AND, and NOT is applied to literals only, except in pairs. */
  predicate OrderSafe<A>(t: Tree<A>) {
    match t
    case Leaf(_) => true
    case And(l, r) => !HasOr(l) && !HasOr(r) && OrderSafe(l) && OrderSafe(r)
    case Or(l, r) => OrderSafe(l) && OrderSafe(r)
    case Not(u) => IsLiteral(u) || (u.Not? && OrderSafe(u.t))
  }

  /* ---- The order-safe fragment keeps its meaning ---- */

  lemma {:induction false} EvalGroupAppend<A>(g: seq<Lit<A>>, h: seq<Lit<A>>, m: A -> Truth)
    ensures EvalGroup(g + h, m) == AndOf(EvalGroup(g, m), EvalGroup(h, m))
  {
    if g == [] {
      assert g + h == h;
    } else {
      assert (g + h)[1..] == g[1..] + h;
      EvalGroupAppend(g[1..], h, m);
    }
  }

  lemma {:induction false} EvalGroupsAppend<A>(g: Groups<A>, h: Groups<A>, m: A -> Truth)
    ensures EvalGroups(g + h, m) == OrOf(EvalGroups(g, m), EvalGroups(h, m))
  {
    if g == [] {
      assert g + h == h;
    } else {
      assert (g + h)[1..] == g[1..] + h;
      EvalGroupsAppend(g[1..], h, m);
    }
  }

  lemma {:induction false} GroupCount<A>(t: Tree<A>)
    ensures |Regroup(t)| == 1 <==> !HasOr(t)
  {
    match t
    case Leaf(_) =>
    case And(l, r) => GroupCount(l); GroupCount(r);
    case Or(l, r) =>
    case Not(u) => GroupCount(u);
  }

  lemma {:induction false} LiteralRegroups<A>(t: Tree<A>, m: A -> Truth)
    requires IsLiteral(t)
    ensures |Regroup(t)| == 1 && |Regroup(t)[0]| == 1 && EvalLit(Regroup(t)[0][0], m) == Eval(t, m)
  {
    if t.Not? { LiteralRegroups(t.t, m); }
  }

  lemma SingleLit<A>(x: Lit<A>, m: A -> Truth)
    ensures EvalGroups([[x]], m) == EvalLit(x, m)
  {
    assert EvalGroup([x], m) == AndOf(EvalLit(x, m), EvalGroup([], m));
    assert EvalGroups([[x]], m) == OrOf(EvalGroup([x], m), EvalGroups([], m));
  }

  lemma {:induction false} OrderSafeKeepsMeaning<A>(t: Tree<A>, m: A -> Truth)
    requires OrderSafe(t)
    ensures EvalGroups(Regroup(t), m) == Eval(t, m)
  {
    match t
    case Leaf(a) => SingleLit(Lit(0, a), m);
    case And(l, r) =>
      OrderSafeKeepsMeaning(l, m);
      OrderSafeKeepsMeaning(r, m);
      GroupCount(l);
      GroupCount(r);
      EvalGroupAppend(Regroup(l)[0], Regroup(r)[0], m);
    case Or(l, r) =>
      OrderSafeKeepsMeaning(l, m);
      OrderSafeKeepsMeaning(r, m);
      EvalGroupsAppend(Regroup(l), Regroup(r), m);
    case Not(u) =>
      if IsLiteral(u) {
        LiteralRegroups(t, m);
        SingleLit(Regroup(t)[0][0], m);
        assert Regroup(t)[0] == [Regroup(t)[0][0]];
        assert Regroup(t) == [Regroup(t)[0]];
      } else {
        OrderSafeKeepsMeaning(u.t, m);
        TwoNots(u.t, m);
      }
  }

  /** Two NOTs before a text cancel: both bind to its first literal. */
  lemma TwoNots<A>(t: Tree<A>, m: A -> Truth)
    ensures EvalGroups(Regroup(Not(Not(t))), m) == EvalGroups(Regroup(t), m)
  {
    var gs := Regroup(t);
    var x: Lit<A> := gs[0][0];
    var y: Lit<A> := Lit(x.nots + 2, x.a);
    var hs := Negated(Negated(gs));
    assert hs[0][0] == y && hs[0][1..] == gs[0][1..] && hs[1..] == gs[1..];
    assert EvalLit(y, m) == NotOf(EvalLit(Lit(x.nots + 1, x.a), m)) == NotOf(NotOf(EvalLit(x, m)));
  }

  /* ---- Outside it, some meaning of the leaves tells the two apart ---- */

  function Leaves<A>(t: Tree<A>): set<A> {
    match t
    case Leaf(a) => {a}
    case And(l, r) => Leaves(l) + Leaves(r)
    case Or(l, r) => Leaves(l) + Leaves(r)
    case Not(u) => Leaves(u)
  }

  /** No two leaves are the same. */
  ghost predicate Distinct<A>(t: Tree<A>) {
    match t
    case Leaf(_) => true
    case And(l, r) => Distinct(l) && Distinct(r) && Leaves(l) !! Leaves(r)
    case Or(l, r) => Distinct(l) && Distinct(r) && Leaves(l) !! Leaves(r)
    case Not(u) => Distinct(u)
  }

  function Of(b: bool): Truth { if b then True else False }

  /** On the leaves of `t`, exactly those in `s` are true and the others false. */
  ghost predicate Sets<A(!new)>(m: A -> Truth, t: Tree<A>, s: set<A>) {
    forall a | a in Leaves(t) :: m(a) == Of(a in s)
  }

  /** True leaves that give a tree the truth `b`, and its regrouping as well. */
  function Agreement<A>(t: Tree<A>, b: bool): (s: set<A>)
    ensures s <= Leaves(t)
  {
    match t
    case Leaf(a) => if b then {a} else {}
    case And(l, r) => Agreement(l, b) + Agreement(r, true)
    case Or(l, r) => Agreement(l, b) + Agreement(r, false)
    case Not(u) => Agreement(u, !b)
  }

  /** The first group has the value `b`, which is that of its first literal; all others are false. */
  ghost predicate FirstDecides<A(!new)>(gs: Groups<A>, m: A -> Truth, b: bool) {
    && gs != [] && gs[0] != []
    && EvalLit(gs[0][0], m) == Of(b) && EvalGroup(gs[0][1..], m) == True
    && forall i | 0 < i < |gs| :: EvalGroup(gs[i], m) == False
  }

  lemma {:induction false} AllFalse<A(!new)>(gs: Groups<A>, m: A -> Truth)
    requires forall i | 0 <= i < |gs| :: EvalGroup(gs[i], m) == False
    ensures EvalGroups(gs, m) == False
  {
    if gs != [] { AllFalse(gs[1..], m); }
  }

  lemma DecidedValue<A(!new)>(gs: Groups<A>, m: A -> Truth, b: bool)
    requires FirstDecides(gs, m, b)
    ensures EvalGroup(gs[0], m) == Of(b) && EvalGroups(gs, m) == Of(b)
  {
    AllFalse(gs[1..], m);
  }

  lemma {:induction false} SomeTrue<A(!new)>(gs: Groups<A>, k: nat, m: A -> Truth)
    requires k < |gs| && EvalGroup(gs[k], m) == True
    ensures EvalGroups(gs, m) == True
  {
    if k > 0 { SomeTrue(gs[1..], k - 1, m); }
  }

  /** Joined by AND, the left side's first literal still decides, if the right side is true. */
  lemma GlueDecides<A(!new)>(x: Groups<A>, y: Groups<A>, m: A -> Truth, b: bool)
    requires FirstDecides(x, m, b) && FirstDecides(y, m, true)
    ensures FirstDecides(Glue(x, y), m, b)
  {
    var z, n := Glue(x, y), |x| - 1;
    DecidedValue(y, m, true);
    EvalGroupAppend(x[n], y[0], m);
    assert z[n] == x[n] + y[0];
    if n == 0 {
      assert z[0][1..] == x[0][1..] + y[0];
      EvalGroupAppend(x[0][1..], y[0], m);
    } else {
      assert z[0] == x[0];
    }
    forall i | 0 < i < |z| ensures EvalGroup(z[i], m) == False {
      if i < n { assert z[i] == x[i]; } else if i > n { assert z[i] == y[i - n]; }
    }
  }

  lemma FlipDecides<A(!new)>(t: Tree<A>, m: A -> Truth, b: bool)
    requires FirstDecides(Regroup(t), m, b)
    ensures FirstDecides(Regroup(Not(t)), m, !b)
  {
    var gs, hs := Regroup(t), Regroup(Not(t));
    assert EvalLit(hs[0][0], m) == NotOf(EvalLit(gs[0][0], m));
    assert hs[0][1..] == gs[0][1..];
    assert forall i | 0 < i < |gs| :: hs[i] == gs[i];
  }

  /** Whatever the tree, some meaning of its leaves makes it and its regrouping true, and some other
      makes both false. */
  lemma {:induction false} Agrees<A(!new)>(t: Tree<A>, b: bool, m: A -> Truth)
    requires Distinct(t) && Sets(m, t, Agreement(t, b))
    ensures Eval(t, m) == Of(b) && FirstDecides(Regroup(t), m, b)
  {
    match t
    case Leaf(a) =>
    case And(l, r) =>
      Agrees(l, b, m);
      Agrees(r, true, m);
      GlueDecides(Regroup(l), Regroup(r), m, b);
    case Or(l, r) =>
      Agrees(l, b, m);
      Agrees(r, false, m);
      DecidedValue(Regroup(r), m, false);
    case Not(u) =>
      Agrees(u, !b, m);
      FlipDecides(u, m, !b);
  }

  lemma AgreesInValue<A(!new)>(t: Tree<A>, b: bool, m: A -> Truth)
    requires Distinct(t) && Sets(m, t, Agreement(t, b))
    ensures Eval(t, m) == Of(b) && EvalGroup(Regroup(t)[0], m) == Of(b) && EvalGroups(Regroup(t), m) == Of(b)
  {
    Agrees(t, b, m);
    DecidedValue(Regroup(t), m, b);
  }

  /** True leaves that make the last group of the regrouping true. */
  function LastTrue<A>(t: Tree<A>): (s: set<A>)
    ensures s <= Leaves(t)
  {
    match t
    case Leaf(a) => {a}
    case And(l, r) => if HasOr(r) then LastTrue(r) else LastTrue(l) + Agreement(r, true)
    case Or(l, r) => LastTrue(r)
    case Not(u) => if HasOr(u) then LastTrue(u) else Agreement(u, false)
  }

  function LastGroup<A>(t: Tree<A>): seq<Lit<A>> {
    Regroup(t)[|Regroup(t)| - 1]
  }

  lemma LastOfAnd<A>(l: Tree<A>, r: Tree<A>)
    ensures LastGroup(And(l, r)) == if HasOr(r) then LastGroup(r) else LastGroup(l) + Regroup(r)[0]
  {
    GroupCount(r);
  }

  lemma LastOfNot<A>(u: Tree<A>)
    ensures LastGroup(Not(u)) == if HasOr(u) then LastGroup(u) else Regroup(Not(u))[0]
  {
    GroupCount(u);
  }

  lemma {:induction false} LastIsTrue<A(!new)>(t: Tree<A>, m: A -> Truth)
    requires Distinct(t) && Sets(m, t, LastTrue(t))
    ensures EvalGroup(LastGroup(t), m) == True
  {
    match t
    case Leaf(a) => assert EvalGroup([Lit(0, a)], m) == AndOf(m(a), EvalGroup([], m));
    case And(l, r) =>
      LastOfAnd(l, r);
      if HasOr(r) {
        LastIsTrue(r, m);
      } else {
        LastIsTrue(l, m);
        AgreesInValue(r, true, m);
        EvalGroupAppend(LastGroup(l), Regroup(r)[0], m);
      }
    case Or(l, r) => LastIsTrue(r, m);
    case Not(u) =>
      LastOfNot(u);
      if HasOr(u) { LastIsTrue(u, m); } else { AgreesInValue(t, true, m); }
  }

  /** True leaves on which a tree that is not order-safe and its regrouping differ. */
  function Difference<A>(t: Tree<A>): (s: set<A>)
    requires !OrderSafe(t)
    ensures s <= Leaves(t)
  {
    match t
    case And(l, r) =>
      if HasOr(l) then Agreement(l, true) + Agreement(r, false)   // the first group now stands alone
      else if HasOr(r) then Agreement(l, false) + LastTrue(r)     // the last group now stands alone
      else if !OrderSafe(l) then Difference(l) + Agreement(r, true)
      else Agreement(l, true) + Difference(r)
    case Or(l, r) =>
      if !OrderSafe(l) then Difference(l) + Agreement(r, false) else Agreement(l, false) + Difference(r)
    case Not(u) =>
      match u
      case Not(v) => Difference(v)
      case And(l, r) => Agreement(l, true) + Agreement(r, false)  // NOT now negates the first literal only
      case Or(l, r) => Agreement(l, false) + Agreement(r, true)
  }

  /** An OR below an AND: the left side's first group, or the right side's last, now stands alone. */
  lemma OrBelowAndDiffers<A(!new)>(l: Tree<A>, r: Tree<A>, m: A -> Truth)
    requires Distinct(And(l, r)) && (HasOr(l) || HasOr(r)) && Sets(m, And(l, r), Difference(And(l, r)))
    ensures Eval(And(l, r), m) == False && EvalGroups(Regroup(And(l, r)), m) == True
  {
    var z := Regroup(And(l, r));
    if HasOr(l) {
      AgreesInValue(l, true, m);
      AgreesInValue(r, false, m);
      GroupCount(l);
      assert z[0] == Regroup(l)[0];
      SomeTrue(z, 0, m);
    } else {
      AgreesInValue(l, false, m);
      LastIsTrue(r, m);
      LastOfAnd(l, r);
      SomeTrue(z, |z| - 1, m);
    }
  }

  lemma OneGroupEach<A>(l: Tree<A>, r: Tree<A>, m: A -> Truth)
    requires !HasOr(l) && !HasOr(r)
    ensures EvalGroups(Regroup(And(l, r)), m) == AndOf(EvalGroups(Regroup(l), m), EvalGroups(Regroup(r), m))
  {
    GroupCount(l);
    GroupCount(r);
    EvalGroupAppend(Regroup(l)[0], Regroup(r)[0], m);
  }

  lemma NotAndText<A>(l: Tree<A>, r: Tree<A>)
    ensures Regroup(Not(And(l, r))) == Glue(Regroup(Not(l)), Regroup(r))
  {
    assert Regroup(And(l, r)) == Glue(Regroup(l), Regroup(r));
    NotOfGlue(Regroup(l), Regroup(r));
  }

  /** NOT before an AND makes the text false where it makes the tree true. */
  lemma NotAndDiffers<A(!new)>(l: Tree<A>, r: Tree<A>, m: A -> Truth)
    requires Eval(l, m) == True && FirstDecides(Regroup(l), m, true)
    requires Eval(r, m) == False && FirstDecides(Regroup(r), m, false)
    ensures Eval(Not(And(l, r)), m) == True && EvalGroups(Regroup(Not(And(l, r))), m) == False
  {
    var x, y := Regroup(Not(l)), Regroup(r);
    FlipDecides(l, m, true);
    DecidedValue(x, m, false);
    DecidedValue(y, m, false);
    var z := Glue(x, y);
    NotAndText(l, r);
    EvalGroupAppend(x[|x| - 1], y[0], m);
    forall i | 0 <= i < |z| ensures EvalGroup(z[i], m) == False {
      if i < |x| - 1 { assert z[i] == x[i]; } else if i > |x| - 1 { assert z[i] == y[i - |x| + 1]; }
    }
    AllFalse(z, m);
  }

  lemma NotOfGlue<A>(x: Groups<A>, y: Groups<A>)
    requires x != [] && x[0] != [] && y != []
    ensures Glue(x, y)[0] != [] && Negated(Glue(x, y)) == Glue(Negated(x), y)
  {
    var n := Negated(x);
    if |x| == 1 {
      assert Glue(x, y) == [x[0] + y[0]] + y[1..] && Glue(n, y) == [n[0] + y[0]] + y[1..];
      assert (x[0] + y[0])[1..] == x[0][1..] + y[0];
      assert n[0] + y[0] == n[0][..1] + (x[0][1..] + y[0]);
    } else {
      assert x == [x[0]] + x[1..] && n == [n[0]] + x[1..];
    }
  }

  /** NOT before an OR makes the text true where it makes the tree false. */
  lemma NotOrDiffers<A(!new)>(l: Tree<A>, r: Tree<A>, m: A -> Truth)
    requires Eval(r, m) == True && FirstDecides(Regroup(l), m, false)
    ensures Eval(Not(Or(l, r)), m) == False && EvalGroups(Regroup(Not(Or(l, r))), m) == True
  {
    FlipDecides(l, m, false);
    DecidedValue(Regroup(Not(l)), m, true);
    assert Regroup(Not(Or(l, r)))[0] == Regroup(Not(l))[0];
    SomeTrue(Regroup(Not(Or(l, r))), 0, m);
  }

  /** One is true and the other false. */
  predicate Opposite(p: Truth, q: Truth) {
    (p == True && q == False) || (p == False && q == True)
  }

  lemma {:induction false} Differs<A(!new)>(t: Tree<A>, m: A -> Truth)
    requires Distinct(t) && !OrderSafe(t) && Sets(m, t, Difference(t))
    ensures Opposite(Eval(t, m), EvalGroups(Regroup(t), m))
  {
    match t
    case And(l, r) =>
      if HasOr(l) || HasOr(r) { OrBelowAndDiffers(l, r, m); } else { PlainAndDiffers(l, r, m); }
    case Or(l, r) =>
      EvalGroupsAppend(Regroup(l), Regroup(r), m);
      if !OrderSafe(l) {
        Differs(l, m);
        AgreesInValue(r, false, m);
      } else {
        Differs(r, m);
        AgreesInValue(l, false, m);
      }
    case Not(u) =>
      match u
      case Not(v) =>
        assert Leaves(t) == Leaves(v);
        Differs(v, m);
        TwoNots(v, m);
      case And(l, r) =>
        assert Leaves(t) == Leaves(l) + Leaves(r);
        Agrees(l, true, m);
        Agrees(r, false, m);
        NotAndDiffers(l, r, m);
      case Or(l, r) =>
        assert Leaves(t) == Leaves(l) + Leaves(r);
        Agrees(l, false, m);
        Agrees(r, true, m);
        NotOrDiffers(l, r, m);
  }

  lemma {:induction false} PlainAndDiffers<A(!new)>(l: Tree<A>, r: Tree<A>, m: A -> Truth)
    requires Distinct(And(l, r)) && !HasOr(l) && !HasOr(r) && !OrderSafe(And(l, r))
    requires Sets(m, And(l, r), Difference(And(l, r)))
    ensures Opposite(Eval(And(l, r), m), EvalGroups(Regroup(And(l, r)), m))
    decreases And(l, r), 0
  {
    OneGroupEach(l, r, m);
    if !OrderSafe(l) {
      Differs(l, m);
      AgreesInValue(r, true, m);
    } else {
      Differs(r, m);
      AgreesInValue(l, true, m);
    }
  }

  lemma MeaningLost<A(!new)>(t: Tree<A>)
    requires Distinct(t) && !OrderSafe(t)
    ensures exists m: A -> Truth :: EvalGroups(Regroup(t), m) != Eval(t, m)
  {
    var m: A -> Truth := a => Of(a in Difference(t));
    Differs(t, m);
    assert EvalGroups(Regroup(t), m) != Eval(t, m);
  }

  /** The exact fragment.  For a tree whose leaves may mean anything, independently of each other,
      reading its text with SQL precedence keeps its meaning if and only if it is order-safe. */
  lemma MeaningKeptIffOrderSafe<A(!new)>(t: Tree<A>)
    requires Distinct(t)
    ensures (forall m: A -> Truth :: EvalGroups(Regroup(t), m) == Eval(t, m)) <==> OrderSafe(t)
  {
    if OrderSafe(t) {
      forall m: A -> Truth ensures EvalGroups(Regroup(t), m) == Eval(t, m) {
        OrderSafeKeepsMeaning(t, m);
      }
    } else {
      MeaningLost(t);
    }
  }
}
