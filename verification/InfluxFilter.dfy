/**
 The AND-only InfluxTranspiler of pkg/repository/influx_transpiler.go: a filter tree becomes one
 string, its conditions joined by `&&`, to be split there again and appended to a Flux query.
*/
module InfluxFilter {
  import opened Wrappers
  import opened FilterCompiler
  import opened Selections

  /** The checked type of an identifier: a timestamp, an enum with its value names, a list of
      primitives, or anything else. */
  datatype InfluxType = TimestampType | EnumOf(values: set<string>) | ListOfPrimitives | PlainType

  /** The type map, and the library's name normalisation and number formatting. */
  datatype InfluxEnv = InfluxEnv(types: map<int, InfluxType>, snake: string -> string, show: Const -> string)

  /* ---- The code ---- */

  datatype Piece = Piece(text: string, timestamp: bool)

  function OpText(op: Cmp): string {
    match op
    case EQ => "==" case NEQ => "!=" case LT => "<" case LTE => "<=" case GT => ">" case GTE => ">="
  }

  const OPEN: string := "|> filter(fn: (r) => r[\""
  const CLOSE: string := "\")"

  /** `|> filter(fn: (r) => r["ident"] op "con")` */
  function CompareText(ident: string, op: Cmp, con: string): string {
    OPEN + ident + "\"] " + OpText(op) + " \"" + con + CLOSE
  }

  function ConstText(env: InfluxEnv, c: Const): Result<string> {
    match c
    case StringC(s) => Ok(s)
    case OtherC => Err
    case _ => Ok(env.show(c))
  }

  function IdentPiece(env: InfluxEnv, id: int, name: string): Result<Piece> {
    if id !in env.types then Err else
    match env.types[id]
    case EnumOf(values) => Ok(Piece(if env.snake(name) in values then env.snake(name) else name, false))
    case TimestampType => Ok(Piece(name, true))
    case _ => Ok(Piece(name, false))
  }

  function Transpile(env: InfluxEnv, e: Expr): Result<Piece> {
    match e
    case Call(_, AndF, args) =>
      if |args| != 2 then Err else
      (match (Transpile(env, args[0]), Transpile(env, args[1]))
       case (Ok(l), Ok(r)) => Ok(Piece(l.text + "&&" + r.text, false))
       case _ => Err)
    case Call(_, CmpF(op), args) =>
      if |args| != 2 then Err else
      (match (Transpile(env, args[0]), Transpile(env, args[1]))
       case (Ok(ident), Ok(con)) =>
         var name := env.snake(ident.text);
         Ok(Piece(if ident.timestamp then name + "@" + con.text else CompareText(name, op, con.text), false))
       case _ => Err)
    case Call(_, HasF, args) =>
      if |args| != 2 || !args[1].Constant? || !args[0].Ident? || args[0].id !in env.types
         || env.types[args[0].id] != ListOfPrimitives then Err else
      (match (IdentPiece(env, args[0].id, args[0].name), ConstText(env, args[1].c))
       case (Ok(iden), Ok(con)) =>
         Ok(Piece("|> filter(fn: (r) => contains(value: \"" + iden.text + "\", set: \"" + con + "\"))", false))
       case _ => Err)
    case Call(_, TimestampF, args) =>
      if |args| == 1 && args[0].Constant? && args[0].c.StringC? then Ok(Piece(args[0].c.s, false)) else Err
    case Call(_, _, _) => Err       // OR, NOT and unknown functions
    case Ident(id, name) => IdentPiece(env, id, name)
    case Constant(_, c) => (match ConstText(env, c) case Ok(s) => Ok(Piece(s, false)) case _ => Err)
    case Select(_, _, _) => Err
    case OtherExpr(_) => Err
  }

  /* ---- AND is the only connective ---- */

  /** No OR, NOT, selection or unknown function occurs anywhere in the tree. */
  predicate AndOnly(e: Expr) {
    match e
    case Call(_, fn, args) => !fn.OrF? && !fn.NotF? && !fn.OtherF? && forall a | a in args :: AndOnly(a)
    case Select(_, _, _) => false
    case OtherExpr(_) => false
    case _ => true
  }

  lemma {:induction false} AcceptsAndOnly(env: InfluxEnv, e: Expr)
    requires Transpile(env, e).Ok?
    ensures AndOnly(e)
  {
    match e
    case Call(_, AndF, args) => AcceptsAndOnly(env, args[0]); AcceptsAndOnly(env, args[1]);
    case Call(_, CmpF(_), args) => AcceptsAndOnly(env, args[0]); AcceptsAndOnly(env, args[1]);
    case Call(_, HasF, args) => assert AndOnly(args[0]) && AndOnly(args[1]);
    case Call(_, TimestampF, args) => assert AndOnly(args[0]);
    case _ =>
  }

  /** A value: a constant of a known kind, or a timestamp of one string. */
  predicate IsValue(e: Expr) {
    || (e.Constant? && !e.c.OtherC?)
    || (e.Call? && e.fn == TimestampF && |e.args| == 1 && e.args[0].Constant? && e.args[0].c.StringC?)
  }

  /** ANDs and comparisons of two accepted trees each, values, typed identifiers, and `:` between a list of
      primitives and a constant. */
  predicate Acceptable(env: InfluxEnv, e: Expr) {
    || IsValue(e)
    || (e.Ident? && e.id in env.types)
    || (e.Call? && (e.fn == AndF || e.fn.CmpF?) && |e.args| == 2 && forall a | a in e.args :: Acceptable(env, a))
    || (e.Call? && e.fn == HasF && |e.args| == 2 && e.args[1].Constant? && IsValue(e.args[1])
        && e.args[0].Ident? && e.args[0].id in env.types && env.types[e.args[0].id] == ListOfPrimitives)
  }

  /** These are the trees accepted; all others are refused with an error. */
  lemma {:induction false} AcceptsExactly(env: InfluxEnv, e: Expr)
    ensures if Acceptable(env, e) then Transpile(env, e).Ok? else Transpile(env, e) == Err
  {
    if e.Call? && (e.fn == AndF || e.fn.CmpF?) && |e.args| == 2 {
      AcceptsExactly(env, e.args[0]);
      AcceptsExactly(env, e.args[1]);
    }
  }

  /* ---- The string is a list of fragments ---- */

  /** The operands of the outer ANDs, left to right. */
  function Conjuncts(e: Expr): (r: seq<Expr>)
    ensures r != []
  {
    if e.Call? && e.fn == AndF && |e.args| == 2 then Conjuncts(e.args[0]) + Conjuncts(e.args[1]) else [e]
  }

  function Join(parts: seq<string>): string
    requires parts != []
  {
    if |parts| == 1 then parts[0] else parts[0] + "&&" + Join(parts[1..])
  }

  lemma {:induction false} JoinAppend(a: seq<string>, b: seq<string>)
    requires a != [] && b != []
    ensures Join(a + b) == Join(a) + "&&" + Join(b)
  {
    if |a| == 1 {
      assert (a + b)[1..] == b;
    } else {
      assert (a + b)[1..] == a[1..] + b;
      JoinAppend(a[1..], b);
    }
  }

  function Texts(env: InfluxEnv, es: seq<Expr>): (r: seq<string>)
    requires forall e | e in es :: Transpile(env, e).Ok?
    ensures |r| == |es|
  {
    seq(|es|, i requires 0 <= i < |es| => Transpile(env, es[i]).value.text)
  }

  lemma TextsAppend(env: InfluxEnv, a: seq<Expr>, b: seq<Expr>)
    requires (forall e | e in a :: Transpile(env, e).Ok?) && (forall e | e in b :: Transpile(env, e).Ok?)
    ensures forall e | e in a + b :: Transpile(env, e).Ok?
    ensures Texts(env, a + b) == Texts(env, a) + Texts(env, b)
  {}

  /** An accepted tree's string is the strings of its conjuncts, in order, joined by `&&`. */
  lemma {:induction false} StringIsJoin(env: InfluxEnv, e: Expr)
    requires Transpile(env, e).Ok?
    ensures forall c | c in Conjuncts(e) :: Transpile(env, c).Ok?
    ensures Transpile(env, e).value.text == Join(Texts(env, Conjuncts(e)))
  {
    if e.Call? && e.fn == AndF {
      StringIsJoin(env, e.args[0]);
      StringIsJoin(env, e.args[1]);
      var l, r := Conjuncts(e.args[0]), Conjuncts(e.args[1]);
      JoinAppend(Texts(env, l), Texts(env, r));
      TextsAppend(env, l, r);
    }
  }

  /* ---- Splitting it again ---- */

  /** strings.Split(s, "&&") */
  function Split(s: string): (r: seq<string>)
    ensures r != []
  {
    if |s| < 2 then [s]
    else if s[..2] == "&&" then [""] + Split(s[2..])
    else var r := Split(s[1..]); [[s[0]] + r[0]] + r[1..]
  }

  predicate HasAmpAmp(s: string) {
    exists i :: 0 <= i < |s| - 1 && s[i] == '&' && s[i + 1] == '&'
  }

  /** Every fragment is free of `&&`, and none but the last ends with `&`. */
  predicate Splittable(parts: seq<string>) {
    && (forall i | 0 <= i < |parts| :: !HasAmpAmp(parts[i]))
    && (forall i | 0 <= i < |parts| - 1 :: parts[i] != "" ==> parts[i][|parts[i]| - 1] != '&')
  }

  lemma {:induction false} SplitOne(s: string)
    requires !HasAmpAmp(s)
    ensures Split(s) == [s]
  {
    if |s| >= 2 {
      assert s[..2] == [s[0], s[1]];
      forall i | 0 <= i < |s[1..]| - 1 ensures !(s[1..][i] == '&' && s[1..][i + 1] == '&') {
        assert !(s[i + 1] == '&' && s[i + 2] == '&');
      }
      SplitOne(s[1..]);
      assert [s[0]] + s[1..] == s;
    }
  }

  lemma {:induction false} SplitFirst(a: string, rest: string)
    requires !HasAmpAmp(a) && (a != "" ==> a[|a| - 1] != '&')
    ensures Split(a + "&&" + rest) == [a] + Split(rest)
  {
    var s := a + "&&" + rest;
    if a == "" {
      assert s[..2] == "&&" && s[2..] == rest;
    } else {
      assert s[1..] == a[1..] + "&&" + rest;
      assert s[..2] == [s[0], s[1]];
      if |a| > 1 { assert !(a[0] == '&' && a[1] == '&'); }
      forall i | 0 <= i < |a[1..]| - 1 ensures !(a[1..][i] == '&' && a[1..][i + 1] == '&') {
        assert !(a[i + 1] == '&' && a[i + 2] == '&');
      }
      SplitFirst(a[1..], rest);
      assert [a[0]] + a[1..] == a;
    }
  }

  /** A piece of a split contains no `&&`. */
  lemma {:induction false} SplitPiecesAreFree(s: string, k: nat)
    requires k < |Split(s)|
    ensures !HasAmpAmp(Split(s)[k])
    ensures k == 0 && Split(s)[0] != "" ==> s != "" && Split(s)[0][0] == s[0]
    ensures k == 0 && |Split(s)[0]| >= 2 ==> Split(s)[0][1] == s[1]
  {
    if |s| >= 2 {
      if s[..2] == "&&" {
        if k > 0 { SplitPiecesAreFree(s[2..], k - 1); }
      } else {
        SplitPiecesAreFree(s[1..], k);
        var r := Split(s[1..]);
        if k == 0 {
          var p := [s[0]] + r[0];
          assert s[..2] == [s[0], s[1]];
          forall i | 0 <= i < |p| - 1 ensures !(p[i] == '&' && p[i + 1] == '&') {
            if i > 0 { assert r[0][i - 1] == p[i] && r[0][i] == p[i + 1]; }
          }
        }
      }
    }
  }

  /** The split goes back to the fragments if and only if they are free of `&&` and none but the last
      ends with `&`. */
  lemma {:induction false} SplitInvertsJoinIff(parts: seq<string>)
    requires parts != []
    ensures Split(Join(parts)) == parts <==> Splittable(parts)
  {
    if Splittable(parts) {
      SplitInvertsJoin(parts);
    } else if i :| 0 <= i < |parts| && HasAmpAmp(parts[i]) {
      if i < |Split(Join(parts))| { SplitPiecesAreFree(Join(parts), i); }
    } else {
      var i :| 0 <= i < |parts| - 1 && parts[i] != "" && parts[i][|parts[i]| - 1] == '&';
      TrailingAmpBreaksSplit(parts, i);
    }
  }

  lemma {:induction false} SplitInvertsJoin(parts: seq<string>)
    requires parts != [] && Splittable(parts)
    ensures Split(Join(parts)) == parts
  {
    if |parts| == 1 {
      SplitOne(parts[0]);
    } else {
      SplitInvertsJoin(parts[1..]);
      SplitFirst(parts[0], Join(parts[1..]));
    }
  }

  lemma {:induction false} TrailingAmpBreaksSplit(parts: seq<string>, i: nat)
    requires i < |parts| - 1 && parts[i] != "" && parts[i][|parts[i]| - 1] == '&'
    requires forall k | 0 <= k < |parts| :: !HasAmpAmp(parts[k])
    ensures Split(Join(parts)) != parts
  {
    var a, rest := parts[0], Join(parts[1..]);
    if a != "" && a[|a| - 1] == '&' {
      var b := a[..|a| - 1];
      forall k | 0 <= k < |b| - 1 ensures !(b[k] == '&' && b[k + 1] == '&') {
        assert !(a[k] == '&' && a[k + 1] == '&');
      }
      if b != "" {
        var k := |b| - 1;
        assert a[k + 1] == '&';
        assert a[k] != '&';
      }
      assert a + "&&" + rest == b + "&&" + ("&" + rest);
      SplitFirst(b, "&" + rest);
      assert Split(Join(parts))[0] == b;
    } else {
      SplitFirst(a, rest);
      TrailingAmpBreaksSplit(parts[1..], i - 1);
      assert Split(Join(parts))[1..] == Split(rest);
    }
  }

  /* ---- Which filters survive the split ---- */

  /** A comparison of an identifier with a constant or a timestamp, or `:` with a constant. */
  predicate IsLeaf(env: InfluxEnv, c: Expr) {
    && c.Call? && |c.args| == 2 && c.args[0].Ident? && c.args[0].id in env.types
    && (|| (c.fn.CmpF? && (c.args[1].Constant? || (c.args[1].Call? && c.args[1].fn == TimestampF)))
        || (c.fn == HasF && env.types[c.args[0].id] == ListOfPrimitives && c.args[1].Constant?))
    && Transpile(env, c.args[1]).Ok?
  }

  function NameIn(env: InfluxEnv, c: Expr): string
    requires IsLeaf(env, c)
  {
    var name := c.args[0].name;
    if c.fn == HasF then name else
    match env.types[c.args[0].id]
    case EnumOf(values) => env.snake(if env.snake(name) in values then env.snake(name) else name)
    case _ => env.snake(name)
  }

  function ValueIn(env: InfluxEnv, c: Expr): string
    requires IsLeaf(env, c)
  {
    match c.args[1]
    case Constant(_, StringC(s)) => s
    case Constant(_, k) => env.show(k)
    case Call(_, _, args) => if |args| == 1 && args[0].Constant? && args[0].c.StringC? then args[0].c.s else ""
    case _ => ""
  }

  predicate OnTimestamp(env: InfluxEnv, c: Expr)
    requires IsLeaf(env, c)
  {
    c.fn.CmpF? && env.types[c.args[0].id] == TimestampType
  }

  const HAS_OPEN: string := "|> filter(fn: (r) => contains(value: \""
  const HAS_MIDDLE: string := "\", set: \""

  lemma LeafText(env: InfluxEnv, c: Expr)
    requires IsLeaf(env, c)
    ensures Transpile(env, c).Ok?
    ensures var name, v, s := NameIn(env, c), ValueIn(env, c), Transpile(env, c).value.text;
            if OnTimestamp(env, c) then s == name + "@" + v
            else if c.fn == HasF then s == HAS_OPEN + name + HAS_MIDDLE + v + "\"))"
            else s == CompareText(name, c.fn.op, v)
  {
    assert Transpile(env, c.args[0]) == IdentPiece(env, c.args[0].id, c.args[0].name);
    assert Transpile(env, c.args[1]).value.text == ValueIn(env, c);
  }

  predicate EndsInAmp(s: string) { s != "" && s[|s| - 1] == '&' }

  /** A middle without `&` keeps the two sides apart. */
  lemma AmpAmpBeside(a: string, m: string, b: string)
    requires m != "" && '&' !in m
    ensures HasAmpAmp(a + m + b) <==> HasAmpAmp(a) || HasAmpAmp(b)
  {
    var s := a + m + b;
    assert forall i | 0 <= i < |m| :: s[|a| + i] == m[i] && m[i] in m;
    assert forall i | 0 <= i < |b| :: s[|a| + |m| + i] == b[i];
    if i :| 0 <= i < |s| - 1 && s[i] == '&' && s[i + 1] == '&' {
      if i + 1 < |a| {
        assert a[i] == '&' && a[i + 1] == '&';
      } else {
        assert i >= |a| + |m|;
        assert b[i - |a| - |m|] == '&' && b[i - |a| - |m| + 1] == '&';
      }
    }
    if i :| 0 <= i < |a| - 1 && a[i] == '&' && a[i + 1] == '&' {
      assert s[i] == '&' && s[i + 1] == '&';
    }
    if i :| 0 <= i < |b| - 1 && b[i] == '&' && b[i + 1] == '&' {
      assert s[|a| + |m| + i] == '&' && s[|a| + |m| + i + 1] == '&';
    }
  }

  /** Text around two strings: only they can bring in `&&`. */
  lemma AmpAmpBetween(open: string, a: string, middle: string, b: string, close: string)
    requires open != "" && middle != "" && close != "" && '&' !in open && '&' !in middle && '&' !in close
    ensures HasAmpAmp(open + a + middle + b + close) <==> HasAmpAmp(a) || HasAmpAmp(b)
  {
    AmpAmpBeside("", open, a);
    AmpAmpBeside(open + a, middle, b);
    AmpAmpBeside(open + a + middle + b, close, "");
    assert "" + open + a == open + a;
    assert open + a + middle + b + close + "" == open + a + middle + b + close;
  }

  lemma TimestampAmps(name: string, v: string)
    ensures HasAmpAmp(name + "@" + v) <==> HasAmpAmp(name) || HasAmpAmp(v)
    ensures EndsInAmp(name + "@" + v) <==> EndsInAmp(v)
  {
    AmpAmpBeside(name, "@", v);
  }

  lemma HasTextAmps(name: string, v: string)
    ensures var s := HAS_OPEN + name + HAS_MIDDLE + v + "\"))";
              (HasAmpAmp(s) <==> HasAmpAmp(name) || HasAmpAmp(v)) && !EndsInAmp(s)
  {
    AmpAmpBetween(HAS_OPEN, name, HAS_MIDDLE, v, "\"))");
  }

  lemma CompareTextAmps(name: string, op: Cmp, v: string)
    ensures var s := CompareText(name, op, v); (HasAmpAmp(s) <==> HasAmpAmp(name) || HasAmpAmp(v)) && !EndsInAmp(s)
  {
    var middle := "\"] " + OpText(op) + " \"";
    assert CompareText(name, op, v) == OPEN + name + middle + v + CLOSE;
    AmpAmpBetween(OPEN, name, middle, v, CLOSE);
  }

  /** A leaf's text contains `&&` if its name or value does; it ends with `&` if it is a comparison on a
      timestamp whose value does. */
  lemma LeafAmps(env: InfluxEnv, c: Expr)
    requires IsLeaf(env, c)
    ensures Transpile(env, c).Ok?
    ensures HasAmpAmp(Transpile(env, c).value.text) <==> HasAmpAmp(NameIn(env, c)) || HasAmpAmp(ValueIn(env, c))
    ensures EndsInAmp(Transpile(env, c).value.text) <==> OnTimestamp(env, c) && EndsInAmp(ValueIn(env, c))
  {
    LeafText(env, c);
    var name, v := NameIn(env, c), ValueIn(env, c);
    if OnTimestamp(env, c) {
      TimestampAmps(name, v);
    } else if c.fn == HasF {
      HasTextAmps(name, v);
    } else {
      CompareTextAmps(name, c.fn.op, v);
    }
  }

  /** No name or value contains `&&`, and no value compared with a timestamp ends with `&`, except in the
      last leaf. */
  predicate Survives(env: InfluxEnv, leaves: seq<Expr>)
    requires forall c | c in leaves :: IsLeaf(env, c)
  {
    && (forall c | c in leaves :: !HasAmpAmp(NameIn(env, c)) && !HasAmpAmp(ValueIn(env, c)))
    && forall i | 0 <= i < |leaves| - 1 :: !(OnTimestamp(env, leaves[i]) && EndsInAmp(ValueIn(env, leaves[i])))
  }

  lemma SurvivesIsSplittable(env: InfluxEnv, leaves: seq<Expr>)
    requires forall c | c in leaves :: IsLeaf(env, c)
    ensures forall c | c in leaves :: Transpile(env, c).Ok?
    ensures Splittable(Texts(env, leaves)) <==> Survives(env, leaves)
  {
    forall c | c in leaves
      ensures Transpile(env, c).Ok?
      ensures HasAmpAmp(Transpile(env, c).value.text) <==> HasAmpAmp(NameIn(env, c)) || HasAmpAmp(ValueIn(env, c))
      ensures EndsInAmp(Transpile(env, c).value.text) <==> OnTimestamp(env, c) && EndsInAmp(ValueIn(env, c))
    {
      LeafAmps(env, c);
    }
    var parts := Texts(env, leaves);
    assert forall i | 0 <= i < |parts| :: leaves[i] in leaves && parts[i] == Transpile(env, leaves[i]).value.text;
    assert (forall i | 0 <= i < |parts| - 1 :: parts[i] != "" ==> parts[i][|parts[i]| - 1] != '&')
      <==> (forall i | 0 <= i < |parts| - 1 :: !EndsInAmp(parts[i]));
  }

  /** The filters that survive: splitting an accepted tree's string gives its conjuncts' fragments back if and
      only if that holds of its leaves. */
  lemma FilterSurvivesIff(env: InfluxEnv, e: Expr)
    requires Transpile(env, e).Ok? && forall c | c in Conjuncts(e) :: IsLeaf(env, c)
    ensures forall c | c in Conjuncts(e) :: Transpile(env, c).Ok?
    ensures Split(Transpile(env, e).value.text) == Texts(env, Conjuncts(e)) <==> Survives(env, Conjuncts(e))
  {
    StringIsJoin(env, e);
    SurvivesIsSplittable(env, Conjuncts(e));
    SplitInvertsJoinIff(Texts(env, Conjuncts(e)));
  }

  const TWO_COLUMNS: InfluxEnv := InfluxEnv(map[1 := TimestampType, 2 := PlainType], (s: string) => s, (c: Const) => "")

  /** `t = "a&" AND s = "b"`, with `t` a timestamp: no fragment contains `&&`, yet the split cuts the first one
      short. */
  lemma TrailingAmpersandIsLost()
    ensures var e := Call(0, AndF, [Call(0, CmpF(EQ), [Ident(1, "t"), Constant(0, StringC("a&"))]),
                                    Call(0, CmpF(EQ), [Ident(2, "s"), Constant(0, StringC("b"))])]);
            && Transpile(TWO_COLUMNS, e).Ok? && (forall c | c in Conjuncts(e) :: IsLeaf(TWO_COLUMNS, c))
            && Split(Transpile(TWO_COLUMNS, e).value.text) != Texts(TWO_COLUMNS, Conjuncts(e))
  {
    var l := Call(0, CmpF(EQ), [Ident(1, "t"), Constant(0, StringC("a&"))]);
    var r := Call(0, CmpF(EQ), [Ident(2, "s"), Constant(0, StringC("b"))]);
    var e := Call(0, AndF, [l, r]);
    assert Transpile(TWO_COLUMNS, l.args[1]).Ok? && Transpile(TWO_COLUMNS, r.args[1]).Ok?;
    assert IsLeaf(TWO_COLUMNS, l) && IsLeaf(TWO_COLUMNS, r);
    LeafText(TWO_COLUMNS, l);
    LeafText(TWO_COLUMNS, r);
    assert Conjuncts(l) == [l] && Conjuncts(r) == [r] && Conjuncts(e) == [l] + [r];
    assert OnTimestamp(TWO_COLUMNS, ([l] + [r])[0]) && EndsInAmp(ValueIn(TWO_COLUMNS, l));
    FilterSurvivesIff(TWO_COLUMNS, e);
  }

  /* ---- What the pieces mean ---- */

  /** A condition on a record's columns. */
  datatype Filter = Filter(ident: string, op: Cmp, con: string)

  /** The text before the first quote, and the text after it. */
  function UntilQuote(s: string): Option<(string, string)> {
    if s == "" then None
    else if s[0] == '"' then Some(("", s[1..]))
    else match UntilQuote(s[1..]) case Some((a, b)) => Some(([s[0]] + a, b)) case None => None
  }

  function ReadOp(s: string): Option<Cmp> {
    if s == "] == " then Some(EQ) else if s == "] != " then Some(NEQ)
    else if s == "] < " then Some(LT) else if s == "] <= " then Some(LTE)
    else if s == "] > " then Some(GT) else if s == "] >= " then Some(GTE) else None
  }

  /** Read `|> filter(fn: (r) => r["ident"] op "con")`. */
  function ReadFilter(s: string): Option<Filter> {
    if !(OPEN <= s) then None else
    match UntilQuote(s[|OPEN|..])
    case None => None
    case Some((ident, s1)) =>
      match UntilQuote(s1)
      case None => None
      case Some((op, s2)) =>
        match (ReadOp(op), UntilQuote(s2))
        case (Some(o), Some((con, s3))) => if s3 == ")" then Some(Filter(ident, o, con)) else None
        case _ => None
  }

  lemma {:induction false} UntilQuoteFinds(a: string, rest: string)
    requires '"' !in a
    ensures UntilQuote(a + "\"" + rest) == Some((a, rest))
  {
    var s := a + "\"" + rest;
    if a == "" {
      assert s[1..] == rest;
    } else {
      assert s[1..] == a[1..] + "\"" + rest;
      UntilQuoteFinds(a[1..], rest);
      assert [a[0]] + a[1..] == a;
    }
  }

  lemma OpReads(op: Cmp)
    ensures var mid := "] " + OpText(op) + " "; '"' !in mid && ReadOp(mid) == Some(op)
  {
    var mid := "] " + OpText(op) + " ";
    match op
    case EQ => assert mid == "] == ";
    case NEQ => assert mid == "] != ";
    case LT => assert mid == "] < ";
    case LTE => assert mid == "] <= ";
    case GT => assert mid == "] > ";
    case GTE => assert mid == "] >= ";
  }

  /** The first quote ends the text before it. */
  lemma {:induction false} UntilQuoteStops(s: string, a: string, b: string)
    requires UntilQuote(s) == Some((a, b))
    ensures '"' !in a && s == a + "\"" + b
  {
    if s[0] != '"' {
      var rest := UntilQuote(s[1..]).value;
      UntilQuoteStops(s[1..], rest.0, rest.1);
      assert s == [s[0]] + s[1..];
    }
  }

  lemma QuoteFreeReads(ident: string, op: Cmp, con: string)
    requires '"' !in ident && '"' !in con
    ensures ReadFilter(CompareText(ident, op, con)) == Some(Filter(ident, op, con))
  {
    var mid := "] " + OpText(op) + " ";
    var s := CompareText(ident, op, con);
    assert s[|OPEN|..] == ident + "\"" + (mid + "\"" + (con + "\"" + ")"));
    OpReads(op);
    UntilQuoteFinds(ident, mid + "\"" + (con + "\"" + ")"));
    UntilQuoteFinds(mid, con + "\"" + ")");
    UntilQuoteFinds(con, ")");
  }

  lemma ReadsQuoteFree(s: string)
    requires ReadFilter(s).Some?
    ensures '"' !in ReadFilter(s).value.ident && '"' !in ReadFilter(s).value.con
  {
    var (ident, s1) := UntilQuote(s[|OPEN|..]).value;
    var (op, s2) := UntilQuote(s1).value;
    var (con, s3) := UntilQuote(s2).value;
    UntilQuoteStops(s[|OPEN|..], ident, s1);
    UntilQuoteStops(s2, con, s3);
  }

  /** A fragment reads back as what was written if and only if neither the name nor the constant contains a
      quote. */
  lemma ReadsWhatWasWrittenIff(ident: string, op: Cmp, con: string)
    ensures ReadFilter(CompareText(ident, op, con)) == Some(Filter(ident, op, con)) <==> '"' !in ident && '"' !in con
  {
    if '"' !in ident && '"' !in con {
      QuoteFreeReads(ident, op, con);
    } else if ReadFilter(CompareText(ident, op, con)).Some? {
      ReadsQuoteFree(CompareText(ident, op, con));
    }
  }

  /** A comparison of an identifier that is no timestamp with a constant. */
  predicate PlainComparison(env: InfluxEnv, e: Expr) {
    && e.Call? && e.fn.CmpF? && |e.args| == 2 && e.args[0].Ident? && e.args[1].Constant?
    && e.args[0].id in env.types && env.types[e.args[0].id] != TimestampType && !e.args[1].c.OtherC?
  }

  /** The condition its author meant: the normalised name, the operator, the constant as text. */
  function FilterOf(env: InfluxEnv, e: Expr): Filter
    requires PlainComparison(env, e)
  {
    var c := e.args[1].c;
    Filter(env.snake(e.args[0].name), e.fn.op, if c.StringC? then c.s else env.show(c))
  }

  /** Normalising a normalised name changes nothing. */
  ghost predicate SnakeSettles(env: InfluxEnv) {
    forall s: string :: env.snake(env.snake(s)) == env.snake(s)
  }

  lemma ComparisonText(env: InfluxEnv, e: Expr)
    requires PlainComparison(env, e) && SnakeSettles(env)
    ensures var f := FilterOf(env, e); Transpile(env, e) == Ok(Piece(CompareText(f.ident, f.op, f.con), false))
  {
    assert Transpile(env, e.args[0]).Ok? && Transpile(env, e.args[1]).Ok?;
  }

  /** `s = "a\"b"`: the quote is written as it is, and the fragment does not read back as the condition. */
  lemma QuotedConstantIsMisread()
    ensures var e := Call(0, CmpF(EQ), [Ident(2, "s"), Constant(0, StringC("a\"b"))]);
            && Transpile(TWO_COLUMNS, e).Ok? && PlainComparison(TWO_COLUMNS, e)
            && ReadFilter(Transpile(TWO_COLUMNS, e).value.text) != Some(FilterOf(TWO_COLUMNS, e))
  {
    var e := Call(0, CmpF(EQ), [Ident(2, "s"), Constant(0, StringC("a\"b"))]);
    ComparisonText(TWO_COLUMNS, e);
    assert "a\"b"[1] == '"';
    ReadsWhatWasWrittenIff("s", EQ, "a\"b");
  }

  type Record = map<string, string>

  /** Apply the pieces one after the other, as stages of a pipeline; None if one cannot be read. */
  function Pipeline(pieces: seq<string>, records: seq<Record>, holds: (Record, Filter) -> bool): Option<seq<Record>> {
    if pieces == [] then Some(records) else
    match ReadFilter(pieces[0])
    case None => None
    case Some(f) => Pipeline(pieces[1..], Chosen(records, r => holds(r, f)), holds)
  }

  /** The meaning of a tree of plain comparisons. */
  predicate Satisfies(env: InfluxEnv, e: Expr, r: Record, holds: (Record, Filter) -> bool) {
    if e.Call? && e.fn == AndF && |e.args| == 2 then
      Satisfies(env, e.args[0], r, holds) && Satisfies(env, e.args[1], r, holds)
    else
      PlainComparison(env, e) && holds(r, FilterOf(env, e))
  }

  /** The comparisons whose text neither contains a quote nor disturbs the split. */
  predicate Clean(env: InfluxEnv, c: Expr) {
    PlainComparison(env, c)
    && var f := FilterOf(env, c);
    '"' !in f.ident && '"' !in f.con && !HasAmpAmp(CompareText(f.ident, f.op, f.con))
  }

  /** The records a tree keeps. */
  function Kept(env: InfluxEnv, e: Expr, records: seq<Record>, holds: (Record, Filter) -> bool): seq<Record> {
    Chosen(records, r => Satisfies(env, e, r, holds))
  }

  lemma {:induction false} KeptByAnd(env: InfluxEnv, e: Expr, records: seq<Record>, holds: (Record, Filter) -> bool)
    requires e.Call? && e.fn == AndF && |e.args| == 2
    ensures Kept(env, e.args[1], Kept(env, e.args[0], records, holds), holds) == Kept(env, e, records, holds)
  {
    if records != [] {
      KeptByAnd(env, e, records[1..], holds);
      var rest := Kept(env, e.args[0], records[1..], holds);
      if Satisfies(env, e.args[0], records[0], holds) {
        assert ([records[0]] + rest)[1..] == rest;
      } else {
        assert [] + rest == rest;
      }
    }
  }

  lemma {:induction false} KeptByComparison(env: InfluxEnv, e: Expr, records: seq<Record>,
      holds: (Record, Filter) -> bool)
    requires PlainComparison(env, e)
    ensures Chosen(records, r => holds(r, FilterOf(env, e))) == Kept(env, e, records, holds)
  {
    if records != [] { KeptByComparison(env, e, records[1..], holds); }
  }

  lemma {:induction false} PipelineAppend(a: seq<string>, b: seq<string>, records: seq<Record>,
      holds: (Record, Filter) -> bool)
    requires Pipeline(a, records, holds).Some?
    ensures Pipeline(a + b, records, holds) == Pipeline(b, Pipeline(a, records, holds).value, holds)
    decreases |a|
  {
    if a == [] {
      assert a + b == b;
    } else {
      assert (a + b)[1..] == a[1..] + b;
      var f := ReadFilter(a[0]).value;
      PipelineAppend(a[1..], b, Chosen(records, r => holds(r, f)), holds);
    }
  }

  /** The stages of a tree of clean comparisons keep exactly the records that satisfy the whole tree. */
  lemma {:induction false} PipelineSelects(env: InfluxEnv, e: Expr, records: seq<Record>,
      holds: (Record, Filter) -> bool)
    requires SnakeSettles(env) && Transpile(env, e).Ok? && forall c | c in Conjuncts(e) :: Clean(env, c)
    ensures forall c | c in Conjuncts(e) :: Transpile(env, c).Ok?
    ensures Pipeline(Texts(env, Conjuncts(e)), records, holds) == Some(Kept(env, e, records, holds))
  {
    StringIsJoin(env, e);
    if e.Call? && e.fn == AndF && |e.args| == 2 {
      var l, r := e.args[0], e.args[1];
      assert forall c | c in Conjuncts(l) || c in Conjuncts(r) :: c in Conjuncts(e);
      PipelineSelects(env, l, records, holds);
      PipelineSelects(env, r, Kept(env, l, records, holds), holds);
      PipelineAppend(Texts(env, Conjuncts(l)), Texts(env, Conjuncts(r)), records, holds);
      TextsAppend(env, Conjuncts(l), Conjuncts(r));
      KeptByAnd(env, e, records, holds);
    } else {
      assert e in Conjuncts(e);
      OneStage(env, e, records, holds);
      assert Texts(env, Conjuncts(e)) == [Transpile(env, e).value.text];
    }
  }

  lemma OneStage(env: InfluxEnv, e: Expr, records: seq<Record>, holds: (Record, Filter) -> bool)
    requires Clean(env, e) && SnakeSettles(env)
    ensures Transpile(env, e).Ok?
    ensures Pipeline([Transpile(env, e).value.text], records, holds) == Some(Kept(env, e, records, holds))
  {
    var f := FilterOf(env, e);
    ReadsWhatWasWrittenIff(f.ident, f.op, f.con);
    ComparisonText(env, e);
    KeptByComparison(env, e, records, holds);
    assert [CompareText(f.ident, f.op, f.con)][1..] == [];
  }

  /** From the one string: split it at `&&`, run the pieces as stages. */
  lemma SplitPipelineSelects(env: InfluxEnv, e: Expr, records: seq<Record>, holds: (Record, Filter) -> bool)
    requires SnakeSettles(env) && Transpile(env, e).Ok? && forall c | c in Conjuncts(e) :: Clean(env, c)
    ensures Pipeline(Split(Transpile(env, e).value.text), records, holds)
         == Some(Kept(env, e, records, holds))
    ensures Picks(records, Kept(env, e, records, holds), Places(records, r => Satisfies(env, e, r, holds)))
  {
    ChosenPicks(records, r => Satisfies(env, e, r, holds));
    StringIsJoin(env, e);
    var parts := Texts(env, Conjuncts(e));
    forall i | 0 <= i < |parts| ensures !HasAmpAmp(parts[i]) && parts[i] != "" && parts[i][|parts[i]| - 1] == ')' {
      var c := Conjuncts(e)[i];
      assert Clean(env, c);
      var f := FilterOf(env, c);
      ComparisonText(env, c);
    }
    SplitInvertsJoin(parts);
    PipelineSelects(env, e, records, holds);
  }
}
