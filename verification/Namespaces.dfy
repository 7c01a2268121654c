/** CheckNamespace of pkg/handler/publichandler.go against the ids it protects. */
module Namespaces {
  import opened Strings
  import opened Wrappers

  function ReplaceAll(s: string, a: char, b: char): (r: string)
    ensures |r| == |s| && forall i | 0 <= i < |s| :: r[i] == if s[i] == a then b else s[i]
  {
    Map(c => if c == a then b else c, s)
  }

  /** The "other" spelling of a namespace; empty if it has neither dash nor underscore. */
  function SanitizedVariant(id: string): string {
    if '-' in id then ReplaceAll(id, '-', '_')
    else if '_' in id then ReplaceAll(id, '_', '-')
    else ""
  }

  /** How namespace ids are normalised internally. */
  function Normal(id: string): string { ReplaceAll(id, '-', '_') }

  datatype Answer = NamespaceUser | NamespaceReserved | NamespaceAvailable

  /** `users` are the ids for which the lookup succeeds. */
  function CheckNamespace(users: set<string>, id: string): Answer {
    if id in users then NamespaceUser
    else if SanitizedVariant(id) != "" && SanitizedVariant(id) in users then NamespaceReserved
    else NamespaceAvailable
  }

  /** The admin endpoint first validates the id (a library check, here a parameter). */
  function CheckNamespaceAdmin(valid: string -> bool, users: set<string>, id: string): Result<Answer> {
    if valid(id) then Ok(CheckNamespace(users, id)) else Err
  }

  predicate Mixed(id: string) { '-' in id && '_' in id }

  /** No stored id is another spelling of `id`. */
  predicate NoCollision(users: set<string>, id: string) {
    forall u | u in users :: Normal(u) != Normal(id)
  }

  /** Two spellings of one name that use one separator each are equal or each other's variant. */
  lemma UnmixedSpellings(a: string, b: string)
    requires !Mixed(a) && !Mixed(b) && Normal(a) == Normal(b) && a != b
    ensures SanitizedVariant(a) == b && b != ""
  {
    assert |a| == |b|;
    var i :| 0 <= i < |a| && a[i] != b[i];
    assert Normal(a)[i] == Normal(b)[i];
    assert {a[i], b[i]} == {'-', '_'};
    assert a[i] in a && b[i] in b;
    forall k | 0 <= k < |a| ensures SanitizedVariant(a)[k] == b[k] && |SanitizedVariant(a)| == |b| {
      assert Normal(a)[k] == Normal(b)[k];
      assert a[k] in a && b[k] in b;
    }
  }

  /** For ids that do not mix dash and underscore, AVAILABLE means that no stored id has the same
      normal form, and nothing else. */
  lemma AvailableIffNoCollision(users: set<string>, id: string)
    requires !Mixed(id) && forall u | u in users :: !Mixed(u)
    ensures CheckNamespace(users, id) == NamespaceAvailable <==> NoCollision(users, id)
  {
    if !NoCollision(users, id) {
      var u :| u in users && Normal(u) == Normal(id);
      if u != id { UnmixedSpellings(id, u); }
    }
  }

  /** The admin endpoint makes the same decision for the ids that pass its validation, and refuses the others. */
  lemma AdminAvailableIff(valid: string -> bool, users: set<string>, id: string)
    requires !Mixed(id) && forall u | u in users :: !Mixed(u)
    ensures CheckNamespaceAdmin(valid, users, id) == Ok(NamespaceAvailable) <==> valid(id) && NoCollision(users, id)
    ensures CheckNamespaceAdmin(valid, users, id) == Err <==> !valid(id)
  {
    AvailableIffNoCollision(users, id);
  }

  predicate IsSeparator(c: char) { c == '-' || c == '_' }

  /** `u` is `id` with every dash made an underscore or, if it has none, every underscore a dash. */
  predicate Swaps(id: string, u: string) {
    && |u| == |id| && (exists i :: 0 <= i < |id| && IsSeparator(id[i]))
    && forall i | 0 <= i < |id| ::
         u[i] == if id[i] == '-' then '_' else if id[i] == '_' && (forall k | 0 <= k < |id| :: id[k] != '-') then '-'
                 else id[i]
  }

  /** USER is the answer for the stored ids, RESERVED for those of which the swapped spelling is stored. */
  lemma AnswersExactly(users: set<string>, id: string)
    ensures CheckNamespace(users, id) == NamespaceUser <==> id in users
    ensures CheckNamespace(users, id) == NamespaceReserved <==> id !in users && exists u :: u in users && Swaps(id, u)
  {
    var v := SanitizedVariant(id);
    assert v != "" <==> exists i :: 0 <= i < |id| && IsSeparator(id[i]);
    if v != "" { assert Swaps(id, v); }
    forall u | Swaps(id, u) ensures u == v { assert |u| == |v|; }
  }

  predicate AtMostOneSeparator(id: string) {
    forall i, j | 0 <= i < j < |id| :: !(IsSeparator(id[i]) && IsSeparator(id[j]))
  }

  /** Against stored ids of any form the check is sound for exactly the ids with at most one
      separator: only they have no third spelling. */
  lemma SoundIffAtMostOneSeparator(id: string)
    ensures (forall users: set<string> :: CheckNamespace(users, id) == NamespaceAvailable ==> NoCollision(users, id))
            <==> AtMostOneSeparator(id)
  {
    if AtMostOneSeparator(id) {
      forall users: set<string> ensures CheckNamespace(users, id) == NamespaceAvailable ==> NoCollision(users, id) {
        forall u | u in users && Normal(u) == Normal(id) && u != id ensures u == SanitizedVariant(id) != "" {
          OneSeparatorSpellings(id, u);
        }
      }
    } else {
      var i, j :| 0 <= i < j < |id| && IsSeparator(id[i]) && IsSeparator(id[j]);
      var u := ThirdSpelling(id, i, j);
      assert CheckNamespace({u}, id) == NamespaceAvailable && !NoCollision({u}, id) by { assert u in {u}; }
    }
  }

  lemma OneSeparatorSpellings(a: string, b: string)
    requires AtMostOneSeparator(a) && Normal(a) == Normal(b) && a != b
    ensures SanitizedVariant(a) == b && b != ""
  {
    assert |a| == |b|;
    var i :| 0 <= i < |a| && a[i] != b[i];
    assert Normal(a)[i] == Normal(b)[i] && IsSeparator(a[i]);
    assert a[i] in a;
    forall k | 0 <= k < |a| ensures SanitizedVariant(a)[k] == b[k] && |SanitizedVariant(a)| == |b| {
      assert Normal(a)[k] == Normal(b)[k];
      assert k != i ==> !IsSeparator(a[k]);
    }
  }

  /** A spelling that is neither the id nor its variant. */
  lemma ThirdSpelling(id: string, i: nat, j: nat) returns (u: string)
    requires i < j < |id| && IsSeparator(id[i]) && IsSeparator(id[j])
    ensures Normal(u) == Normal(id) && u != id && u != SanitizedVariant(id)
  {
    var k := if id[i] == '-' && id[j] == '_' then j else i;
    var kept := if k == i then j else i;
    u := id[k := if id[k] == '-' then '_' else '-'];
    assert u[k] != id[k] && u[kept] == id[kept] && id[kept] in id && id[k] in id;
  }

  predicate Injective(users: set<string>) {
    forall u, v | u in users && v in users && Normal(u) == Normal(v) :: u == v
  }

  /** The check never lets a colliding id through, whatever id is asked for. */
  ghost predicate Sound(users: set<string>) {
    forall id: string :: CheckNamespace(users, id) == NamespaceAvailable ==> NoCollision(users, id)
  }

  /** An id whose only other spelling is its variant, or which is every other spelling's variant. */
  predicate Guarded(u: string) {
    AtMostOneSeparator(u) || '-' !in u
  }

  lemma GuardedIsFound(users: set<string>, u: string, id: string)
    requires u in users && Guarded(u) && Normal(u) == Normal(id)
    ensures CheckNamespace(users, id) != NamespaceAvailable
  {
    if u != id {
      if AtMostOneSeparator(u) {
        OneSeparatorSpellings(id, u);
      } else {
        UnderscoresAreTheVariant(u, id);
      }
    }
  }

  lemma UnderscoresAreTheVariant(u: string, id: string)
    requires '-' !in u && Normal(u) == Normal(id) && u != id
    ensures SanitizedVariant(id) == u && u != ""
  {}

  /** Any other stored id has a spelling that is neither it nor, once varied, leads to it. */
  lemma EscapingId(u: string) returns (id: string)
    requires !Guarded(u)
    ensures Normal(id) == Normal(u) && id != u && SanitizedVariant(id) != u
  {
    var dashes := ReplaceAll(u, '_', '-');
    var i, j :| 0 <= i < j < |u| && IsSeparator(u[i]) && IsSeparator(u[j]);
    if u != dashes {
      id := dashes;
      assert dashes[i] == '-' && '-' in dashes;
    } else {
      id := u[i := '_'];
      assert dashes[j] == '-' && id[j] == '-' && '-' in id;
    }
    var k :| 0 <= k < |u| && u[k] == '-';
    assert SanitizedVariant(id)[k] == '_';
  }

  /** The exact condition on the stored ids, for every id that may be asked for: each has at most one
      separator, or no dash. */
  lemma SoundIffGuarded(users: set<string>)
    requires Injective(users)
    ensures Sound(users) <==> forall u | u in users :: Guarded(u)
  {
    if forall u | u in users :: Guarded(u) {
      GuardedAreSound(users);
    } else {
      var u :| u in users && !Guarded(u);
      var id := EscapingId(u);
      assert CheckNamespace(users, id) == NamespaceAvailable && !NoCollision(users, id);
    }
  }

  lemma GuardedAreSound(users: set<string>)
    requires forall u | u in users :: Guarded(u)
    ensures Sound(users)
  {
    forall id: string | CheckNamespace(users, id) == NamespaceAvailable ensures NoCollision(users, id) {
      forall u | u in users && Normal(u) == Normal(id) ensures false {
        GuardedIsFound(users, u, id);
      }
    }
  }

  /** Among stored ids that do not mix, the check is sound for exactly the ids that do not mix either. */
  lemma SoundForUnmixedIff(id: string)
    ensures (forall users: set<string> | (forall u | u in users :: !Mixed(u)) ::
               CheckNamespace(users, id) == NamespaceAvailable ==> NoCollision(users, id))
            <==> !Mixed(id)
  {
    if Mixed(id) {
      var u := ReplaceAll(id, '_', '-');
      assert '_' !in u && u != id && u in {u};
      var k :| 0 <= k < |id| && id[k] == '-';
      assert u[k] == '-' && SanitizedVariant(id)[k] == '_';
      assert CheckNamespace({u}, id) == NamespaceAvailable && !NoCollision({u}, id);
    } else {
      forall users: set<string> | forall u | u in users :: !Mixed(u)
        ensures CheckNamespace(users, id) == NamespaceAvailable ==> NoCollision(users, id)
      {
        AvailableIffNoCollision(users, id);
      }
    }
  }

  /** The ids this repository stores: `usr-` and a separator-free text, or a separator-free word. */
  predicate StoredHere(u: string) {
    forall i | (if "usr-" <= u then 4 else 0) <= i < |u| :: !IsSeparator(u[i])
  }

  /** Against them the check is sound for every id, mixed or not. */
  lemma StoredHereAreSafe(users: set<string>)
    requires forall u | u in users :: StoredHere(u)
    ensures Sound(users)
  {
    forall u | u in users ensures AtMostOneSeparator(u) {
      assert "usr-" <= u ==> u[0] == 'u' && u[1] == 's' && u[2] == 'r';
    }
    GuardedAreSound(users);
  }

  /** A stored id with two dashes, which nothing here creates, is escaped by mixing them. */
  lemma MixedIdEscapes()
    ensures CheckNamespace({"a-b-c"}, "a_b-c") == NamespaceAvailable && !NoCollision({"a-b-c"}, "a_b-c")
  {
    var u, id := "a-b-c", "a_b-c";
    assert id[3] == '-';
    assert SanitizedVariant(id)[1] == '_' && u[1] == '-';
    assert Normal(u) == Normal(id) && u in {u};
  }

  /* ---- Runs of check-then-create ---- */

  /** Create the id if the check lets it through, in one step. */
  function CheckThenCreate(users: set<string>, id: string): set<string> {
    if CheckNamespace(users, id) == NamespaceAvailable then users + {id} else users
  }

  function CreateAll(users: set<string>, ids: seq<string>): set<string>
    decreases |ids|
  {
    if ids == [] then users else CreateAll(CheckThenCreate(users, ids[0]), ids[1..])
  }

  /** Every run keeps normalisation injective on the stored ids, and loses none of them. */
  lemma {:induction false} RunsKeepNormalFormsApart(users: set<string>, ids: seq<string>)
    requires Injective(users) && (forall u | u in users :: !Mixed(u)) && (forall id | id in ids :: !Mixed(id))
    ensures Injective(CreateAll(users, ids)) && users <= CreateAll(users, ids)
    ensures forall id | id in ids :: exists u | u in CreateAll(users, ids) :: Normal(u) == Normal(id)
    decreases |ids|
  {
    if ids != [] {
      var next := CheckThenCreate(users, ids[0]);
      assert ids[0] in ids;
      AvailableIffNoCollision(users, ids[0]);
      RunsKeepNormalFormsApart(next, ids[1..]);
      var w :| w in next && Normal(w) == Normal(ids[0]);
      assert w in CreateAll(users, ids);
      forall id | id in ids ensures exists u | u in CreateAll(users, ids) :: Normal(u) == Normal(id) {
        if id != ids[0] { assert id in ids[1..]; }
      }
    }
  }
}
