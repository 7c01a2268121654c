/** SQL's LIKE, and the leaf the filter compiler writes for `email = v` and `id = v`. */
module LikePatterns {
  import opened Strings

  /** `%` matches any text, `_` any character, `\` quotes the next character. */
  function LikeMatches(s: string, p: string): bool
    decreases |p|, |s|
  {
    if p == "" then s == ""
    else if p[0] == '%' then LikeMatches(s, p[1..]) || (s != "" && LikeMatches(s[1..], p))
    else if p[0] == '_' then s != "" && LikeMatches(s[1..], p[1..])
    else if p[0] == '\\' then |p| >= 2 && s != "" && s[0] == p[1] && LikeMatches(s[1..], p[2..])
    else s != "" && s[0] == p[0] && LikeMatches(s[1..], p[1..])
  }

  /** Every backslash has a character to quote. */
  predicate Whole(p: string) {
    if p == "" then true
    else if p[0] == '\\' then |p| >= 2 && Whole(p[2..])
    else Whole(p[1..])
  }

  lemma {:induction false} LikeJoin(s: string, t: string, p: string, q: string)
    requires LikeMatches(s, p) && LikeMatches(t, q)
    ensures LikeMatches(s + t, p + q)
    decreases |p|, |s|
  {
    if p == "" {
      assert s + t == t && p + q == q;
    } else {
      assert (p + q)[1..] == p[1..] + q;
      if p[0] == '%' && LikeMatches(s, p[1..]) {
        LikeJoin(s, t, p[1..], q);
      } else {
        assert (s + t)[1..] == s[1..] + t;
        if p[0] == '%' {
          LikeJoin(s[1..], t, p, q);
        } else if p[0] == '\\' {
          assert (p + q)[2..] == p[2..] + q;
          LikeJoin(s[1..], t, p[2..], q);
        } else {
          LikeJoin(s[1..], t, p[1..], q);
        }
      }
    }
  }

  lemma AfterFirst(s: string, k: nat)
    requires k < |s|
    ensures s[..k + 1][0] == s[0] && s[..k + 1][1..] == s[1..][..k] && s[k + 1..] == s[1..][k..]
  {}

  /** What matches `p + q` is a match of `p` followed by one of `q`. */
  lemma {:induction false} LikeSplit(s: string, p: string, q: string) returns (k: nat)
    requires LikeMatches(s, p + q) && Whole(p)
    ensures k <= |s| && LikeMatches(s[..k], p) && LikeMatches(s[k..], q)
    decreases |p|, |s|
  {
    if p == "" {
      k := 0;
      assert p + q == q && s[0..] == s;
    } else {
      assert (p + q)[1..] == p[1..] + q;
      if p[0] == '%' && LikeMatches(s, p[1..] + q) {
        k := LikeSplit(s, p[1..], q);
      } else {
        var rest := s[1..];
        if p[0] == '%' {
          k := LikeSplit(rest, p, q);
        } else if p[0] == '\\' {
          assert (p + q)[2..] == p[2..] + q;
          k := LikeSplit(rest, p[2..], q);
        } else {
          k := LikeSplit(rest, p[1..], q);
        }
        AfterFirst(s, k);
        k := k + 1;
      }
    }
  }

  /** What each piece of a pattern matches. */
  lemma PiecesMatch(s: string, c: char)
    ensures LikeMatches(s, "") <==> s == ""
    ensures LikeMatches(s, "%")
    ensures LikeMatches(s, "_") <==> |s| == 1
    ensures LikeMatches(s, "\\" + [c]) <==> s == [c]
    ensures c != '%' && c != '_' && c != '\\' ==> (LikeMatches(s, [c]) <==> s == [c])
    ensures !LikeMatches(s, "\\") && !Whole("\\") && Whole("\\" + [c])
  {
    PercentMatchesAll(s);
    if s != "" { assert s == [s[0]] + s[1..]; }
    assert ("\\" + [c])[1] == c && ("\\" + [c])[2..] == "" && "_"[1..] == "" && [c][1..] == "";
  }

  /** A pattern matches piece by piece. */
  lemma PatternsConcatenate(s: string, p: string, q: string)
    requires Whole(p)
    ensures LikeMatches(s, p + q) <==> exists k: nat :: k <= |s| && LikeMatches(s[..k], p) && LikeMatches(s[k..], q)
  {
    if LikeMatches(s, p + q) {
      var k := LikeSplit(s, p, q);
    }
    if k: nat :| k <= |s| && LikeMatches(s[..k], p) && LikeMatches(s[k..], q) {
      LikeJoin(s[..k], s[k..], p, q);
      assert s[..k] + s[k..] == s;
    }
  }

  /** A leading percent sign skips any number of characters. */
  lemma {:induction false} LeadingPercent(s: string, p: string)
    ensures LikeMatches(s, "%" + p) <==> exists i: nat :: i <= |s| && LikeMatches(s[i..], p)
    decreases |s|
  {
    assert ("%" + p)[1..] == p && s[0..] == s;
    if s != "" {
      LeadingPercent(s[1..], p);
      if i: nat :| i <= |s| && LikeMatches(s[i..], p) {
        if i > 0 { assert s[1..][i - 1..] == s[i..]; }
      }
      if i: nat :| i <= |s[1..]| && LikeMatches(s[1..][i..], p) {
        assert s[1..][i..] == s[i + 1..];
      }
    }
  }

  lemma {:induction false} PercentMatchesAll(s: string)
    ensures LikeMatches(s, "%")
  {
    if s != "" { PercentMatchesAll(s[1..]); }
  }

  /** Some slice of `s` matches the pattern. */
  ghost predicate SliceMatches(s: string, p: string) {
    exists i: nat, k: nat :: i <= k <= |s| && LikeMatches(s[i..k], p)
  }

  /** Some end of `s` matches the pattern. */
  ghost predicate EndMatches(s: string, p: string) {
    exists i: nat :: i <= |s| && LikeMatches(s[i..], p)
  }

  /** A pattern between two percent signs matches the texts that have a matching slice.  If the pattern
      ends with a lone backslash, that quotes the closing percent sign, which then stands for itself. */
  lemma ContainsMeansSlice(s: string, v: string)
    ensures LikeMatches(s, "%" + v + "%") <==> if Whole(v) then SliceMatches(s, v) else EndMatches(s, v + "%")
  {
    assert "%" + v + "%" == "%" + (v + "%");
    LeadingPercent(s, v + "%");
    if Whole(v) {
      if i: nat :| i <= |s| && LikeMatches(s[i..], v + "%") {
        var k := LikeSplit(s[i..], v, "%");
        assert s[i..i + k] == s[i..][..k];
      }
      if i: nat, k: nat :| i <= k <= |s| && LikeMatches(s[i..k], v) {
        PercentMatchesAll(s[k..]);
        LikeJoin(s[i..k], s[k..], v, "%");
        assert s[i..k] + s[k..] == s[i..];
      }
    }
  }

  /* ---- Without metacharacters ---- */

  predicate Special(c: char) { c == '%' || c == '_' || c == '\\' }

  predicate Wildcardless(p: string) {
    forall i | 0 <= i < |p| :: !Special(p[i])
  }

  predicate OccursAt(v: string, s: string, i: nat) {
    i + |v| <= |s| && s[i..i + |v|] == v
  }

  ghost predicate IsSubstring(v: string, s: string) {
    exists i: nat :: OccursAt(v, s, i)
  }

  lemma {:induction false} PlainMatchesItself(s: string, v: string)
    requires Wildcardless(v)
    ensures Whole(v) && (LikeMatches(s, v) <==> s == v)
  {
    if v != "" {
      PlainMatchesItself(if s == "" then "" else s[1..], v[1..]);
      if s != "" { assert s == [s[0]] + s[1..] && v == [v[0]] + v[1..]; }
    }
  }

  lemma SliceIsSubstring(s: string, v: string)
    requires Wildcardless(v)
    ensures Whole(v) && (SliceMatches(s, v) <==> IsSubstring(v, s))
  {
    PlainMatchesItself("", v);
    if i: nat, k: nat :| i <= k <= |s| && LikeMatches(s[i..k], v) {
      PlainMatchesItself(s[i..k], v);
      assert OccursAt(v, s, i);
    }
    if i: nat :| OccursAt(v, s, i) {
      PlainMatchesItself(s[i..i + |v|], v);
    }
  }

  /* ---- The leaf ---- */

  /** `LOWER(x) LIKE LOWER(CONCAT('%', v, '%'))` */
  predicate ContainsHolds(lc: char -> char, x: string, v: string) {
    LikeMatches(Map(lc, x), Map(lc, "%" + v + "%"))
  }

  /** Lower-casing neither makes nor loses a metacharacter. */
  ghost predicate KeepsSpecial(lc: char -> char) {
    forall c :: if Special(c) then lc(c) == c else !Special(lc(c))
  }

  lemma {:induction false} LowerKeepsWhole(lc: char -> char, v: string)
    requires KeepsSpecial(lc)
    ensures Whole(Map(lc, v)) <==> Whole(v)
  {
    if v != "" {
      assert Special('\\');
      assert lc(v[0]) == '\\' <==> v[0] == '\\';
      if v[0] == '\\' {
        if |v| >= 2 {
          LowerKeepsWhole(lc, v[2..]);
          assert Map(lc, v)[2..] == Map(lc, v[2..]);
        }
      } else {
        LowerKeepsWhole(lc, v[1..]);
        assert Map(lc, v)[1..] == Map(lc, v[1..]);
      }
    }
  }

  /** `email = v` does not test equality.  It holds exactly if some slice of the row's lower-case value
      matches `v`, in lower case, as a pattern; without metacharacters, if `v` is a substring of it. */
  lemma EqualityMeansSubstring(lc: char -> char, x: string, v: string)
    requires KeepsSpecial(lc)
    ensures ContainsHolds(lc, x, v) <==>
              if Whole(v) then SliceMatches(Map(lc, x), Map(lc, v)) else EndMatches(Map(lc, x), Map(lc, v) + "%")
    ensures Wildcardless(v) ==> (ContainsHolds(lc, x, v) <==> IsSubstring(Map(lc, v), Map(lc, x)))
  {
    assert Special('%');
    assert Map(lc, "%" + v + "%") == "%" + Map(lc, v) + "%";
    LowerKeepsWhole(lc, v);
    ContainsMeansSlice(Map(lc, x), Map(lc, v));
    if Wildcardless(v) { SliceIsSubstring(Map(lc, x), Map(lc, v)); }
  }
}
