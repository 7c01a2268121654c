/** What becomes of any display name as a slug. */
module SlugWords {
  import opened Strings
  import opened Slug
  import opened Selections

  predicate Alphanumeric(c: char) { 'a' <= c <= 'z' || '0' <= c <= '9' }

  predicate Separator(c: char) { c == ' ' || c == '-' }

  /** Where the letters and digits are, from position `i` on. */
  function PositionsFrom(s: string, i: nat): (p: seq<nat>)
    requires i <= |s|
    ensures forall j, k | 0 <= j < k < |p| :: p[j] < p[k]
    ensures forall k | 0 <= k < |p| :: i <= p[k] < |s| && Alphanumeric(s[p[k]])
    ensures forall m | i <= m < |s| && Alphanumeric(s[m]) :: m in p
  {
    PlacesFromAre(s, Alphanumeric, i);
    PlacesFrom(s, Alphanumeric, i)
  }

  function Positions(s: string): seq<nat> { PositionsFrom(s, 0) }

  ghost predicate HasSeparator(s: string, from: nat, to: nat)
    requires to <= |s|
  {
    exists m :: from <= m < to && Separator(s[m])
  }

  /** The same letters and digits in the same order, and separators between the same of them. */
  ghost predicate SameWords(s: string, t: string) {
    var p, q := Positions(s), Positions(t);
    && |p| == |q|
    && (forall k | 0 <= k < |p| :: s[p[k]] == t[q[k]])
    && forall k | 0 <= k < |p| - 1 :: HasSeparator(s, p[k], p[k + 1]) <==> HasSeparator(t, q[k], q[k + 1])
  }

  /** A letter or digit, and whether a separator follows before the next one or the end. */
  datatype Mark = Mark(c: char, gap: bool)

  /** The letters and digits with what follows them, and whether a separator comes before the first. */
  function Marks(s: string): (bool, seq<Mark>) {
    if s == "" then (false, []) else
    var (lead, ms) := Marks(s[1..]);
    if Alphanumeric(s[0]) then (false, [Mark(s[0], lead)] + ms) else (lead || Separator(s[0]), ms)
  }

  /** Where position `k` of `p` ends: at the next one or at the end of the text. */
  function NextOf(s: string, p: seq<nat>, k: nat): nat { if k < |p| then p[k] else |s| }

  ghost predicate MarkIs(s: string, p: seq<nat>, ms: seq<Mark>, k: nat)
    requires k < |p| == |ms| && forall k | 0 <= k < |p| :: p[k] < |s|
  {
    ms[k].c == s[p[k]] && (ms[k].gap <==> HasSeparator(s, p[k], NextOf(s, p, k + 1)))
  }

  ghost predicate MarksAre(s: string, i: nat, p: seq<nat>, lead: bool, ms: seq<Mark>)
    requires forall k | 0 <= k < |p| :: p[k] < |s|
  {
    && |ms| == |p|
    && (lead <==> HasSeparator(s, i, NextOf(s, p, 0)))
    && forall k | 0 <= k < |p| :: MarkIs(s, p, ms, k)
  }

  lemma MarkMoves(s: string, i: nat, q: seq<nat>, m: Mark, ms: seq<Mark>, k: nat)
    requires i < |s| && k < |q| == |ms| && (forall k | 0 <= k < |q| :: q[k] < |s|) && MarkIs(s, q, ms, k)
    ensures MarkIs(s, [i] + q, [m] + ms, k + 1)
  {
    assert ([m] + ms)[k + 1] == ms[k] && ([i] + q)[k + 1] == q[k];
    assert NextOf(s, [i] + q, k + 2) == NextOf(s, q, k + 1);
  }

  lemma LetterMark(s: string, i: nat, q: seq<nat>, lead: bool, ms: seq<Mark>)
    requires i < |s| && Alphanumeric(s[i]) && forall k | 0 <= k < |q| :: q[k] < |s|
    requires MarksAre(s, i + 1, q, lead, ms)
    ensures MarksAre(s, i, [i] + q, false, [Mark(s[i], lead)] + ms)
  {
    var p, ns := [i] + q, [Mark(s[i], lead)] + ms;
    SkipLetter(s, i, NextOf(s, q, 0));
    assert NextOf(s, p, 0) == i && NextOf(s, p, 1) == NextOf(s, q, 0);
    forall k | 0 <= k < |p| ensures MarkIs(s, p, ns, k) {
      if k > 0 { MarkMoves(s, i, q, Mark(s[i], lead), ms, k - 1); }
    }
  }

  lemma SkipLetter(s: string, i: nat, to: nat)
    requires i < |s| && Alphanumeric(s[i]) && to <= |s|
    ensures HasSeparator(s, i, to) <==> HasSeparator(s, i + 1, to)
    ensures !HasSeparator(s, i, i)
  {}

  lemma OtherMark(s: string, i: nat, q: seq<nat>, lead: bool, ms: seq<Mark>)
    requires i < |s| && !Alphanumeric(s[i]) && forall k | 0 <= k < |q| :: i < q[k] < |s|
    requires MarksAre(s, i + 1, q, lead, ms)
    ensures MarksAre(s, i, q, lead || Separator(s[i]), ms)
  {
    assert NextOf(s, q, 0) > i;
    assert HasSeparator(s, i, NextOf(s, q, 0)) <==> HasSeparator(s, i + 1, NextOf(s, q, 0)) || Separator(s[i]);
  }

  lemma NextPosition(s: string, i: nat)
    requires i < |s|
    ensures PositionsFrom(s, i) == (if Alphanumeric(s[i]) then [i] else []) + PositionsFrom(s, i + 1)
  {}

  lemma NextMark(s: string, i: nat, q: seq<nat>, lead: bool, ms: seq<Mark>)
    requires i < |s| && (forall k | 0 <= k < |q| :: i < q[k] < |s|) && MarksAre(s, i + 1, q, lead, ms)
    ensures if Alphanumeric(s[i]) then MarksAre(s, i, [i] + q, false, [Mark(s[i], lead)] + ms)
            else MarksAre(s, i, q, lead || Separator(s[i]), ms)
  {
    if Alphanumeric(s[i]) { LetterMark(s, i, q, lead, ms); } else { OtherMark(s, i, q, lead, ms); }
  }

  lemma {:induction false} MarksOfPositions(s: string, i: nat)
    requires i <= |s|
    ensures MarksAre(s, i, PositionsFrom(s, i), Marks(s[i..]).0, Marks(s[i..]).1)
    decreases |s| - i
  {
    if i < |s| {
      MarksOfPositions(s, i + 1);
      assert s[i..][1..] == s[i + 1..];
      NextPosition(s, i);
      var q, m := PositionsFrom(s, i + 1), Marks(s[i + 1..]);
      NextMark(s, i, q, m.0, m.1);
      assert (if Alphanumeric(s[i]) then [i] else []) + q == if Alphanumeric(s[i]) then [i] + q else q;
    }
  }

  /** The passes one by one. */
  lemma {:induction false} KeepMarks(s: string)
    ensures Marks(Keep(Map(Hyphen, s))) == Marks(s)
  {
    if s != "" {
      KeepMarks(s[1..]);
      assert Map(Hyphen, s)[1..] == Map(Hyphen, s[1..]);
      var r := Keep(Map(Hyphen, s[1..]));
      var c := Hyphen(s[0]);
      if SlugChar(c) { assert ([c] + r)[1..] == r; } else { assert "" + r == r; }
    }
  }

  lemma {:induction false} CollapseMarks(s: string)
    ensures Marks(Collapse(s)) == Marks(s)
  {
    if |s| > 1 {
      CollapseMarks(s[1..]);
      if s[0] == '-' && s[1] == '-' {
        assert Marks(s[1..]).0;
      } else {
        assert ([s[0]] + Collapse(s[1..]))[1..] == Collapse(s[1..]);
      }
    }
  }

  lemma {:induction false} TrimLeftMarks(s: string)
    ensures Marks(TrimLeft(s)).1 == Marks(s).1
  {
    if s != "" && s[0] == '-' { TrimLeftMarks(s[1..]); }
  }

  /** Equal but for what follows the last letter or digit. */
  predicate SameInside(a: seq<Mark>, b: seq<Mark>) {
    && |a| == |b|
    && (forall k | 0 <= k < |a| :: a[k].c == b[k].c)
    && forall k | 0 <= k < |a| - 1 :: a[k].gap == b[k].gap
  }

  /** A hyphen at the end. */
  lemma {:induction false} HyphenAtEnd(s: string)
    ensures SameInside(Marks(s).1, Marks(s + "-").1)
    ensures Marks(s).1 != [] ==> Marks(s).0 == Marks(s + "-").0
  {
    if s != "" {
      HyphenAtEnd(s[1..]);
      assert (s + "-")[1..] == s[1..] + "-";
    } else {
      assert Marks("-") == (true, []);
    }
  }

  lemma {:induction false} TrimRightMarks(s: string)
    ensures SameInside(Marks(TrimRight(s)).1, Marks(s).1)
  {
    if s != "" && s[|s| - 1] == '-' {
      TrimRightMarks(s[..|s| - 1]);
      HyphenAtEnd(s[..|s| - 1]);
      assert s[..|s| - 1] + "-" == s;
    }
  }

  lemma MarksGiveWords(s: string, t: string)
    requires SameInside(Marks(s).1, Marks(t).1)
    ensures SameWords(s, t)
  {
    MarksOfPositions(s, 0);
    MarksOfPositions(t, 0);
    assert s[0..] == s && t[0..] == t;
    var p, q := Positions(s), Positions(t);
    forall k | 0 <= k < |p| ensures s[p[k]] == t[q[k]] {
      assert MarkIs(s, p, Marks(s).1, k) && MarkIs(t, q, Marks(t).1, k);
    }
    forall k | 0 <= k < |p| - 1 ensures HasSeparator(s, p[k], p[k + 1]) <==> HasSeparator(t, q[k], q[k + 1]) {
      assert MarkIs(s, p, Marks(s).1, k) && MarkIs(t, q, Marks(t).1, k);
      assert NextOf(s, p, k + 1) == p[k + 1] && NextOf(t, q, k + 1) == q[k + 1];
    }
  }

  lemma PassesKeepWords(lower: char -> char, s: string)
    ensures SameWords(GenerateSlug(lower, s), Map(lower, s))
  {
    var t := Map(lower, s);
    KeepMarks(t);
    CollapseMarks(Keep(Map(Hyphen, t)));
    TrimLeftMarks(Collapse(Keep(Map(Hyphen, t))));
    TrimRightMarks(TrimLeft(Collapse(Keep(Map(Hyphen, t)))));
    MarksGiveWords(GenerateSlug(lower, s), t);
  }

  /** `r` is its own letters and digits at `q`, next to each other or one hyphen apart, from end to end. */
  ghost predicate Tight(r: string, q: seq<nat>)
    requires forall k | 0 <= k < |q| :: q[k] < |r|
  {
    if q == [] then r == "" else
    && q[0] == 0 && q[|q| - 1] == |r| - 1
    && forall k | 0 <= k < |q| - 1 ::
         if HasSeparator(r, q[k], q[k + 1]) then q[k + 1] == q[k] + 2 && r[q[k] + 1] == '-' else q[k + 1] == q[k] + 1
  }

  lemma SlugIsTight(r: string)
    requires IsSlug(r)
    ensures Tight(r, Positions(r))
  {
    var q := Positions(r);
    assert r != "" ==> r[0] in r;
    if q != [] {
      FirstAndLast(r);
      forall k | 0 <= k < |q| - 1
        ensures if HasSeparator(r, q[k], q[k + 1]) then q[k + 1] == q[k] + 2 && r[q[k] + 1] == '-'
                else q[k + 1] == q[k] + 1
      {
        BetweenLetters(r, k);
      }
    }
  }

  lemma BetweenLetters(r: string, k: nat)
    requires IsSlug(r) && k + 1 < |Positions(r)|
    ensures var q := Positions(r);
            if HasSeparator(r, q[k], q[k + 1]) then q[k + 1] == q[k] + 2 && r[q[k] + 1] == '-'
            else q[k + 1] == q[k] + 1
  {
    var q := Positions(r);
    forall m | q[k] < m < q[k + 1] ensures r[m] == '-' {
      assert r[m] in r;
      forall j | 0 <= j < |q| ensures q[j] != m { assert j <= k || j >= k + 1; }
    }
    if q[k] + 1 < q[k + 1] {
      var m := q[k] + 1;
      assert r[m] == '-' && r[m + 1] != '-' && Separator(r[m]);
    }
  }

  lemma LetterHasPosition(r: string, m: nat)
    requires m < |r| && SlugChar(r[m]) && r[m] != '-'
    ensures m in Positions(r)
  {}

  lemma EndsOf(q: seq<nat>, i: nat, j: nat)
    requires i < |q| && j < |q| && forall k, l | 0 <= k < l < |q| :: q[k] < q[l]
    ensures q[0] <= q[i] && q[j] <= q[|q| - 1]
  {}

  lemma FirstAndLast(r: string)
    requires IsSlug(r) && Positions(r) != []
    ensures Positions(r)[0] == 0 && Positions(r)[|Positions(r)| - 1] == |r| - 1
  {
    var q := Positions(r);
    var last := |r| - 1;
    LetterHasPosition(r, 0);
    LetterHasPosition(r, last);
    var i, j :| 0 <= i < |q| && 0 <= j < |q| && q[i] == 0 && q[j] == last;
    EndsOf(q, i, j);
  }

  /** What becomes of any name: its lower-case letters and digits stay, in order, and nothing else does; one
      hyphen stands between two that follow each other if the name has a space or hyphen there, and nothing
      otherwise. */
  lemma SlugSpellsWords(lower: char -> char, s: string)
    ensures SameWords(Map(lower, s), GenerateSlug(lower, s))
    ensures Tight(GenerateSlug(lower, s), Positions(GenerateSlug(lower, s)))
  {
    GeneratesSlug(lower, s);
    SlugIsTight(GenerateSlug(lower, s));
    PassesKeepWords(lower, s);
  }

  lemma {:induction false} SamePlaces(r: string, s: string, p: seq<nat>, q: seq<nat>, k: nat)
    requires p == Positions(r) && q == Positions(s) && |p| == |q| && Tight(r, p) && Tight(s, q)
    requires forall k | 0 <= k < |p| - 1 :: HasSeparator(r, p[k], p[k + 1]) <==> HasSeparator(s, q[k], q[k + 1])
    requires k < |p|
    ensures p[k] == q[k]
  {
    if k > 0 {
      SamePlaces(r, s, p, q, k - 1);
      assert HasSeparator(r, p[k - 1], p[k - 1 + 1]) <==> HasSeparator(s, q[k - 1], q[k - 1 + 1]);
    }
  }

  /** The last place at or before `m`. */
  lemma {:induction false} PlaceBefore(p: seq<nat>, m: nat) returns (k: nat)
    requires p != [] && p[0] <= m
    ensures k < |p| && p[k] <= m && (k + 1 < |p| ==> m < p[k + 1])
  {
    if |p| == 1 || m < p[1] {
      k := 0;
    } else {
      k := PlaceBefore(p[1..], m);
      k := k + 1;
    }
  }

  /** That determines the slug. */
  lemma WordsDetermineSlug(r: string, s: string)
    requires SameWords(r, s) && Tight(r, Positions(r)) && Tight(s, Positions(s))
    ensures r == s
  {
    var p, q := Positions(r), Positions(s);
    forall k | 0 <= k < |p| ensures p[k] == q[k] { SamePlaces(r, s, p, q, k); }
    assert p == q && |r| == |s|;
    forall m | 0 <= m < |r| ensures r[m] == s[m] { SameAt(r, s, p, m); }
  }

  lemma SameAt(r: string, s: string, p: seq<nat>, m: nat)
    requires p == Positions(r) == Positions(s) && SameWords(r, s) && Tight(r, p) && Tight(s, p)
    requires |r| == |s| && m < |r|
    ensures r[m] == s[m]
  {
    var k := PlaceBefore(p, m);
    assert p[k] == m || m == p[k] + 1;
  }
}
