/** Choosing from a sequence by a condition, and the places of what is chosen. */
module Selections {
  /** The satisfying elements, in order. */
  function Chosen<T>(s: seq<T>, keep: T -> bool): seq<T> {
    if s == [] then [] else (if keep(s[0]) then [s[0]] else []) + Chosen(s[1..], keep)
  }

  function PlacesFrom<T>(s: seq<T>, keep: T -> bool, i: nat): seq<nat>
    requires i <= |s|
    decreases |s| - i
  {
    if i == |s| then [] else (if keep(s[i]) then [i] else []) + PlacesFrom(s, keep, i + 1)
  }

  /** `p` is the places from `i` on whose elements satisfy the condition, in order. */
  ghost predicate ArePlaces<T>(s: seq<T>, keep: T -> bool, i: nat, p: seq<nat>) {
    && (forall j, k | 0 <= j < k < |p| :: p[j] < p[k])
    && (forall k | 0 <= k < |p| :: i <= p[k] < |s| && keep(s[p[k]]))
    && forall m | i <= m < |s| && keep(s[m]) :: m in p
  }

  lemma {:induction false} PlacesFromAre<T>(s: seq<T>, keep: T -> bool, i: nat)
    requires i <= |s|
    ensures ArePlaces(s, keep, i, PlacesFrom(s, keep, i))
    decreases |s| - i
  {
    if i < |s| {
      PlacesFromAre(s, keep, i + 1);
      PlaceAdded(s, keep, i, PlacesFrom(s, keep, i + 1));
    }
  }

  lemma PlaceAdded<T>(s: seq<T>, keep: T -> bool, i: nat, q: seq<nat>)
    requires i < |s| && ArePlaces(s, keep, i + 1, q)
    ensures ArePlaces(s, keep, i, (if keep(s[i]) then [i] else []) + q)
  {
    var p := (if keep(s[i]) then [i] else []) + q;
    forall m | i <= m < |s| && keep(s[m]) ensures m in p {
      if m > i { assert m in q; }
    }
  }

  function Places<T>(s: seq<T>, keep: T -> bool): (p: seq<nat>)
    ensures ArePlaces(s, keep, 0, p)
  {
    PlacesFromAre(s, keep, 0);
    PlacesFrom(s, keep, 0)
  }

  /** `kept` is the elements at these places, in order. */
  predicate Picks<T(==)>(s: seq<T>, kept: seq<T>, p: seq<nat>) {
    |kept| == |p| && forall k | 0 <= k < |p| :: p[k] < |s| && kept[k] == s[p[k]]
  }

  lemma {:induction false} ChosenPicksFrom<T>(s: seq<T>, keep: T -> bool, i: nat)
    requires i <= |s|
    ensures Picks(s, Chosen(s[i..], keep), PlacesFrom(s, keep, i))
    decreases |s| - i
  {
    if i < |s| {
      ChosenPicksFrom(s, keep, i + 1);
      assert s[i..][1..] == s[i + 1..];
    }
  }

  /** What is chosen is the satisfying elements, each as often as it is there, in order. */
  lemma ChosenPicks<T>(s: seq<T>, keep: T -> bool)
    ensures Picks(s, Chosen(s, keep), Places(s, keep))
  {
    ChosenPicksFrom(s, keep, 0);
    assert s[0..] == s;
  }

  lemma {:induction false} ChosenCounts<T>(s: seq<T>, keep: T -> bool, x: T)
    ensures multiset(Chosen(s, keep))[x] == if keep(x) then multiset(s)[x] else 0
  {
    if s != [] {
      ChosenCounts(s[1..], keep, x);
      assert s == [s[0]] + s[1..];
    }
  }

  lemma {:induction false} SameChoice<T>(s: seq<T>, keep: T -> bool, keep': T -> bool)
    requires forall x | x in s :: keep(x) == keep'(x)
    ensures Chosen(s, keep) == Chosen(s, keep')
  {
    if s != [] { SameChoice(s[1..], keep, keep'); }
  }
}
