/** generateSlug of pkg/service/convertor.go: five passes over a display name. */
module Slug {
  import opened Strings

  predicate SlugChar(c: char) {
    'a' <= c <= 'z' || '0' <= c <= '9' || c == '-'
  }

  /** What a lower-casing function does to the characters a slug may contain: nothing. */
  ghost predicate KeepsSlugChars(lower: char -> char) {
    forall c :: SlugChar(c) ==> lower(c) == c
  }

  function Hyphen(c: char): char { if c == ' ' then '-' else c }

  /** Drop what does not belong in a slug. */
  function Keep(s: string): (r: string)
    ensures forall c | c in r :: SlugChar(c)
  {
    if s == "" then "" else (if SlugChar(s[0]) then [s[0]] else "") + Keep(s[1..])
  }

  predicate NoDoubleHyphen(s: string) {
    forall i | 0 <= i < |s| - 1 :: !(s[i] == '-' && s[i + 1] == '-')
  }

  /** Every run of hyphens becomes one. */
  function Collapse(s: string): (r: string)
    ensures (forall c | c in r :: c in s) && NoDoubleHyphen(r)
    ensures s != "" ==> r != "" && r[0] == s[0]
  {
    if |s| <= 1 then s
    else if s[0] == '-' && s[1] == '-' then Collapse(s[1..])
    else [s[0]] + Collapse(s[1..])
  }

  function TrimLeft(s: string): (r: string)
    ensures (forall c | c in r :: c in s) && (r != "" ==> r[0] != '-')
    ensures NoDoubleHyphen(s) ==> NoDoubleHyphen(r)
  {
    if s != "" && s[0] == '-' then TrimLeft(s[1..]) else s
  }

  function TrimRight(s: string): (r: string)
    ensures r <= s && (r != "" ==> r[|r| - 1] != '-')
  {
    if s != "" && s[|s| - 1] == '-' then TrimRight(s[..|s| - 1]) else s
  }

  function GenerateSlug(lower: char -> char, displayName: string): string {
    var slug := Map(lower, displayName);
    var slug := Map(Hyphen, slug);
    var slug := Keep(slug);
    var slug := Collapse(slug);
    TrimRight(TrimLeft(slug))
  }

  /** Slug characters only, hyphens neither doubled nor at an end. */
  predicate IsSlug(s: string) {
    && (forall c | c in s :: SlugChar(c))
    && NoDoubleHyphen(s)
    && (s != "" ==> s[0] != '-' && s[|s| - 1] != '-')
  }

  lemma GeneratesSlug(lower: char -> char, s: string)
    ensures IsSlug(GenerateSlug(lower, s))
  {
    var left := TrimLeft(Collapse(Keep(Map(Hyphen, Map(lower, s)))));
    var right := TrimRight(left);
    assert forall i | 0 <= i < |right| :: right[i] == left[i];
  }

  lemma {:induction false} KeepAll(s: string)
    requires forall c | c in s :: SlugChar(c)
    ensures Keep(s) == s
  {
    if s != "" {
      assert s[0] in s;
      KeepAll(s[1..]);
      assert [s[0]] + s[1..] == s;
    }
  }

  lemma {:induction false} CollapseNone(s: string)
    requires NoDoubleHyphen(s)
    ensures Collapse(s) == s
  {
    if |s| > 1 {
      CollapseNone(s[1..]);
      assert [s[0]] + s[1..] == s;
    }
  }

  /** The slugs are exactly the fixed points, so making a slug of a slug changes nothing. */
  lemma FixedPoints(lower: char -> char, s: string)
    requires KeepsSlugChars(lower)
    ensures GenerateSlug(lower, s) == s <==> IsSlug(s)
    ensures GenerateSlug(lower, GenerateSlug(lower, s)) == GenerateSlug(lower, s)
  {
    GeneratesSlug(lower, s);
    SlugIsFixed(lower, GenerateSlug(lower, s));
    if IsSlug(s) { SlugIsFixed(lower, s); }
  }

  lemma SlugIsFixed(lower: char -> char, s: string)
    requires KeepsSlugChars(lower) && IsSlug(s)
    ensures GenerateSlug(lower, s) == s
  {
    assert forall i | 0 <= i < |s| :: s[i] in s && SlugChar(s[i]);
    assert Map(lower, s) == s && Map(Hyphen, s) == s;
    KeepAll(s);
    CollapseNone(s);
  }
}
