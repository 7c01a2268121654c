/**
 Organization memberships of pkg/acl/acl.go over a tuple store: role replacement is a loop of
 deletions whose failures are ignored, then one write.
*/
module Membership {
  import opened Wrappers
  import opened Permissions
  import opened Selections

  const ROLES: seq<Relation> := [Owner, Admin, Member, PendingOwner, PendingAdmin, PendingMember]

  function RoleTuple(org: string, user: string, role: Relation): Tuple {
    Tuple(User(user), role, Org(org))
  }

  /** Relations of an organization that users can hold directly. */
  predicate Assignable(role: Relation) {
    role in ROLES
  }

  /* ---- Specification ---- */

  /** The role tuples whose deletion, among the first `n`, gets through. */
  function Removed(org: string, user: string, up: seq<bool>, n: nat): set<Tuple>
    requires n <= |ROLES| <= |up|
  {
    set i | 0 <= i < n && up[i] :: RoleTuple(org, user, ROLES[i])
  }

  function AfterDelete(tuples: set<Tuple>, org: string, user: string, up: seq<bool>): set<Tuple>
    requires |ROLES| <= |up|
  {
    tuples - Removed(org, user, up, |ROLES|)
  }

  predicate WriteSucceeds(tuples: set<Tuple>, t: Tuple, up: bool) {
    up && Assignable(t.relation) && t !in tuples
  }

  function AfterSet(tuples: set<Tuple>, org: string, user: string, role: Relation, up: seq<bool>): set<Tuple>
    requires |up| == |ROLES| + 1
  {
    var rest := AfterDelete(tuples, org, user, up);
    var t := RoleTuple(org, user, role);
    if WriteSucceeds(rest, t, up[|ROLES|]) then rest + {t} else rest
  }

  /* ---- The client ---- */

  /** A store refuses to delete a tuple it does not have and to write one it has, or one the model
      does not allow.  `up` says whether the store answers the request at all. */
  class AclClient {
    var tuples: set<Tuple>

    constructor (tuples: set<Tuple>)
      ensures this.tuples == tuples
    {
      this.tuples := tuples;
    }

    method Write(t: Tuple, up: bool) returns (ok: bool)
      modifies this
      ensures ok == WriteSucceeds(old(tuples), t, up)
      ensures tuples == if ok then old(tuples) + {t} else old(tuples)
    {
      ok := up && t.relation in ROLES && t !in tuples;
      if ok { tuples := tuples + {t}; }
    }

    method Delete(t: Tuple, up: bool) returns (ok: bool)
      modifies this
      ensures ok == (up && t in old(tuples))
      ensures tuples == if ok then old(tuples) - {t} else old(tuples)
    {
      ok := up && t in tuples;
      if ok { tuples := tuples - {t}; }
    }

    /** `up[i]` is the fate of the i-th request. */
    method DeleteOrganizationUserMembership(org: string, user: string, up: seq<bool>)
      requires |ROLES| <= |up|
      modifies this
      ensures tuples == AfterDelete(old(tuples), org, user, up)
    {
      var i := 0;
      while i < |ROLES|
        invariant 0 <= i <= |ROLES|
        invariant tuples == old(tuples) - Removed(org, user, up, i)
      {
        var _ := Delete(RoleTuple(org, user, ROLES[i]), up[i]);
        i := i + 1;
      }
    }

    method SetOrganizationUserMembership(org: string, user: string, role: Relation, up: seq<bool>) returns (ok: bool)
      requires |up| == |ROLES| + 1
      modifies this
      ensures tuples == AfterSet(old(tuples), org, user, role, up)
      ensures ok == WriteSucceeds(AfterDelete(old(tuples), org, user, up), RoleTuple(org, user, role), up[|ROLES|])
    {
      DeleteOrganizationUserMembership(org, user, up);
      ok := Write(RoleTuple(org, user, role), up[|ROLES|]);
    }
  }

  /* ---- One role per user ---- */

  function RolesOf(tuples: set<Tuple>, org: string, user: string): set<Relation> {
    set r | r in ROLES && RoleTuple(org, user, r) in tuples
  }

  predicate OneRole(tuples: set<Tuple>, org: string, user: string) {
    forall r, q | r in RolesOf(tuples, org, user) && q in RolesOf(tuples, org, user) :: r == q
  }

  /** The roles a deletion leaves are those whose request was lost. */
  lemma RolesAfterDelete(tuples: set<Tuple>, org: string, user: string, up: seq<bool>)
    requires |ROLES| <= |up|
    ensures RolesOf(AfterDelete(tuples, org, user, up), org, user)
         == set i | 0 <= i < |ROLES| && !up[i] && ROLES[i] in RolesOf(tuples, org, user) :: ROLES[i]
  {
    var rest := AfterDelete(tuples, org, user, up);
    forall r | r in ROLES
      ensures RoleTuple(org, user, r) in Removed(org, user, up, |ROLES|) <==>
                exists i :: 0 <= i < |ROLES| && ROLES[i] == r && up[i]
    {
    }
  }

  /** Tuples of other pairs, other objects and other subjects stay as they are. */
  lemma OthersUntouched(tuples: set<Tuple>, org: string, user: string, role: Relation, up: seq<bool>, t: Tuple)
    requires |up| == |ROLES| + 1 && (t.subject != User(user) || t.obj != Org(org))
    ensures t in AfterDelete(tuples, org, user, up) <==> t in tuples
    ensures t in AfterSet(tuples, org, user, role, up) <==> t in tuples
  {}

  /** A set leaves exactly the new role, and says so, if and only if the role is one of the six, the
      final write gets through, and no deletion of a role the user held was lost. */
  lemma SetReplacesIff(tuples: set<Tuple>, org: string, user: string, role: Relation, up: seq<bool>)
    requires |up| == |ROLES| + 1
    ensures var rest := AfterDelete(tuples, org, user, up);
            var ok := WriteSucceeds(rest, RoleTuple(org, user, role), up[|ROLES|]);
            (ok && RolesOf(AfterSet(tuples, org, user, role, up), org, user) == {role})
            <==> (role in ROLES && up[|ROLES|]
                  && forall i | 0 <= i < |ROLES| && ROLES[i] in RolesOf(tuples, org, user) :: up[i])
  {
    var rest := AfterDelete(tuples, org, user, up);
    var after := AfterSet(tuples, org, user, role, up);
    RolesAfterDelete(tuples, org, user, up);
    var kept := RolesOf(rest, org, user);
    if WriteSucceeds(rest, RoleTuple(org, user, role), up[|ROLES|]) {
      assert RolesOf(after, org, user) == kept + {role};
      assert role !in kept;
    }
    if forall i | 0 <= i < |ROLES| && ROLES[i] in RolesOf(tuples, org, user) :: up[i] {
      assert kept == {};
    } else {
      var i :| 0 <= i < |ROLES| && ROLES[i] in RolesOf(tuples, org, user) && !up[i];
      assert ROLES[i] in kept;
    }
  }

  /* ---- Runs of membership writes ---- */

  datatype Op =
    | SetRole(org: string, user: string, role: Relation, up: seq<bool>)
    | RemoveRole(org: string, user: string, up: seq<bool>)

  /** A well-formed request with one of the six roles. */
  predicate ValidOp(op: Op) {
    match op
    case SetRole(_, _, role, up) => |up| == |ROLES| + 1 && role in ROLES
    case RemoveRole(_, _, up) => |up| == |ROLES|
  }

  /** No request of the operation is lost. */
  predicate Undisturbed(op: Op) {
    forall i | 0 <= i < |op.up| :: op.up[i]
  }

  function ApplyOp(tuples: set<Tuple>, op: Op): set<Tuple>
    requires ValidOp(op)
  {
    match op
    case SetRole(org, user, role, up) => AfterSet(tuples, org, user, role, up)
    case RemoveRole(org, user, up) => AfterDelete(tuples, org, user, up)
  }

  function ApplyAll(tuples: set<Tuple>, ops: seq<Op>): set<Tuple>
    requires forall i | 0 <= i < |ops| :: ValidOp(ops[i])
    decreases |ops|
  {
    if ops == [] then tuples else ApplyOp(ApplyAll(tuples, ops[..|ops| - 1]), ops[|ops| - 1])
  }

  predicate Concerns(op: Op, org: string, user: string) {
    op.org == org && op.user == user
  }

  /** The role the last operation on the pair gave it, or what it had. */
  function LastRole(before: set<Relation>, ops: seq<Op>, org: string, user: string): set<Relation>
    decreases |ops|
  {
    if ops == [] then before else
    var op := ops[|ops| - 1];
    if !Concerns(op, org, user) then LastRole(before, ops[..|ops| - 1], org, user)
    else if op.SetRole? then {op.role} else {}
  }

  /** After any run of undisturbed writes, a pair has exactly the role last set, none if that was
      removed since, and its old roles if no operation concerned it. */
  lemma {:induction false} RunLeavesLastRole(tuples: set<Tuple>, ops: seq<Op>, org: string, user: string)
    requires forall i | 0 <= i < |ops| :: ValidOp(ops[i]) && Undisturbed(ops[i])
    ensures RolesOf(ApplyAll(tuples, ops), org, user) == LastRole(RolesOf(tuples, org, user), ops, org, user)
    decreases |ops|
  {
    if ops != [] {
      var init, op := ops[..|ops| - 1], ops[|ops| - 1];
      var before := ApplyAll(tuples, init);
      RunLeavesLastRole(tuples, init, org, user);
      if Concerns(op, org, user) {
        RolesAfterDelete(before, org, user, op.up);
        assert RolesOf(AfterDelete(before, org, user, op.up), org, user) == {};
        if op.SetRole? { SetReplacesIff(before, org, user, op.role, op.up); }
      } else {
        forall r ensures RoleTuple(org, user, r) in ApplyOp(before, op) <==> RoleTuple(org, user, r) in before {
        }
        assert RolesOf(ApplyOp(before, op), org, user) == RolesOf(before, org, user);
      }
    }
  }

  /** Hence no run of undisturbed writes gives a pair a second role. */
  lemma RunKeepsOneRole(tuples: set<Tuple>, ops: seq<Op>, org: string, user: string)
    requires forall i | 0 <= i < |ops| :: ValidOp(ops[i]) && Undisturbed(ops[i])
    requires OneRole(tuples, org, user)
    ensures OneRole(ApplyAll(tuples, ops), org, user)
  {
    RunLeavesLastRole(tuples, ops, org, user);
    LastRoleIsOne(RolesOf(tuples, org, user), ops, org, user);
  }

  lemma {:induction false} LastRoleIsOne(before: set<Relation>, ops: seq<Op>, org: string, user: string)
    requires forall r, q | r in before && q in before :: r == q
    ensures forall r, q | r in LastRole(before, ops, org, user) && q in LastRole(before, ops, org, user) :: r == q
    decreases |ops|
  {
    if ops != [] { LastRoleIsOne(before, ops[..|ops| - 1], org, user); }
  }

  /** One lost deletion is enough for a second role: its failure is ignored. */
  lemma LostDeletionLeavesTwoRoles(org: string, user: string)
    ensures var up := [true, true, false, true, true, true, true];
            var after := AfterSet({RoleTuple(org, user, Member)}, org, user, Admin, up);
            RoleTuple(org, user, Member) in after && RoleTuple(org, user, Admin) in after
  {
    assert ROLES[2] == Member;
  }

  /** A role the model does not allow is refused only after the old role is gone. */
  lemma BadRoleRemovesMembership(tuples: set<Tuple>, org: string, user: string, role: Relation, up: seq<bool>)
    requires |up| == |ROLES| + 1 && role !in ROLES && forall i | 0 <= i < |up| :: up[i]
    ensures RolesOf(AfterSet(tuples, org, user, role, up), org, user) == {}
  {
    RolesAfterDelete(tuples, org, user, up);
  }

  /* ---- Rights that follow from a role ---- */

  /** A user is an effective member exactly if one of its roles is not pending. */
  lemma MembershipIffActiveRole(tuples: set<Tuple>, org: string, user: string)
    ensures Check(tuples, User(user), Member, Org(org)) <==> exists r | r in RolesOf(tuples, org, user) :: !IsPending(r)
  {
    var o := Org(org);
    CheckIsGranted(tuples, User(user), Member, o);
    assert forall r | r in ROLES :: RoleTuple(org, user, r) in tuples <==> r in RolesOf(tuples, org, user);
    forall q | q in Sources(o, Member) && Direct(tuples, AllowedOn(o, q), User(user), q, o)
      ensures q in RolesOf(tuples, org, user) && !IsPending(q)
    {
      assert RoleTuple(org, user, q) in tuples && q in ROLES;
    }
    if r :| r in RolesOf(tuples, org, user) && !IsPending(r) {
      assert r in Sources(o, Member) && RoleTuple(org, user, r) in tuples;
      assert Direct(tuples, AllowedOn(o, r), User(user), r, o);
    }
  }

  /** Setting a role makes the user an effective member, with admin through reader on everything the
      organization owns, if the role is not pending; a pending role leaves the user with what the
      deletion alone would have left. */
  lemma RoleGivesRights(tuples: set<Tuple>, org: string, user: string, role: Relation, up: seq<bool>)
    requires |up| == |ROLES| + 1 && role in ROLES && forall i | 0 <= i < |up| :: up[i]
    ensures var after := AfterSet(tuples, org, user, role, up);
            && (Check(after, User(user), Member, Org(org)) <==> !IsPending(role))
            && (!IsPending(role) ==>
                  forall r, obj: Object | obj.Resource? && PassesToMembers(r)
                      && Tuple(OrgSubject(org), Owner, obj) in after ::
                    Check(after, User(user), r, obj))
            && (IsPending(role) ==>
                  forall r, obj: Object | !IsPending(r) ::
                    Check(after, User(user), r, obj) <==> Check(AfterDelete(tuples, org, user, up), User(user), r, obj))
  {
    var rest := AfterDelete(tuples, org, user, up);
    var after := AfterSet(tuples, org, user, role, up);
    RolesAfterDelete(tuples, org, user, up);
    assert RolesOf(rest, org, user) == {};
    SetReplacesIff(tuples, org, user, role, up);
    assert after == rest + {RoleTuple(org, user, role)};
    MembershipIffActiveRole(after, org, user);
    assert role in RolesOf(after, org, user);
    forall r, obj: Object | obj.Resource? && PassesToMembers(r) && Tuple(OrgSubject(org), Owner, obj) in after
        && !IsPending(role)
      ensures Check(after, User(user), r, obj)
    {
      MembersOfOwnerHoldAll(after, User(user), org, r, obj);
    }
    forall r, obj: Object | !IsPending(r) && IsPending(role)
      ensures Check(after, User(user), r, obj) <==> Check(rest, User(user), r, obj)
    {
      PendingAddsNothing(rest, RoleTuple(org, user, role), User(user), r, obj);
    }
  }

  /** The tuples of a pair. */
  function PairTuples(org: string, user: string): set<Tuple> {
    set r | r in ROLES :: RoleTuple(org, user, r)
  }

  lemma OnlyRoleOf(tuples: set<Tuple>, org: string, user: string, role: Relation)
    requires RolesOf(tuples, org, user) == {role}
    ensures tuples == (tuples - PairTuples(org, user)) + {RoleTuple(org, user, role)}
  {
    var rest := tuples - PairTuples(org, user);
    assert role in RolesOf(tuples, org, user);
    forall t ensures t in tuples <==> t in rest + {RoleTuple(org, user, role)} {
      if t in tuples && t in PairTuples(org, user) {
        var r :| r in ROLES && t == RoleTuple(org, user, r);
        assert r in RolesOf(tuples, org, user);
      }
    }
  }

  /** After every run of undisturbed writes, the role last set decides.  The user is an effective member, with
      admin through reader on everything the organization owns, exactly if it is there and not pending;
      otherwise the pair's tuples give no right but the pending one itself. */
  lemma RunGivesRights(tuples: set<Tuple>, ops: seq<Op>, org: string, user: string)
    requires (forall i | 0 <= i < |ops| :: ValidOp(ops[i]) && Undisturbed(ops[i])) && OneRole(tuples, org, user)
    ensures var after := ApplyAll(tuples, ops);
            var active := exists r | r in LastRole(RolesOf(tuples, org, user), ops, org, user) :: !IsPending(r);
            && (Check(after, User(user), Member, Org(org)) <==> active)
            && (active ==>
                  forall r, obj: Object | obj.Resource? && PassesToMembers(r)
                      && Tuple(OrgSubject(org), Owner, obj) in after ::
                    Check(after, User(user), r, obj))
            && (!active ==>
                  forall r, obj: Object | !IsPending(r) ::
                    Check(after, User(user), r, obj) <==> Check(after - PairTuples(org, user), User(user), r, obj))
  {
    var after := ApplyAll(tuples, ops);
    RunLeavesLastRole(tuples, ops, org, user);
    RunKeepsOneRole(tuples, ops, org, user);
    MembershipIffActiveRole(after, org, user);
    if exists r | r in RolesOf(after, org, user) :: !IsPending(r) {
      forall r, obj: Object | obj.Resource? && PassesToMembers(r) && Tuple(OrgSubject(org), Owner, obj) in after
        ensures Check(after, User(user), r, obj)
      {
        MembersOfOwnerHoldAll(after, User(user), org, r, obj);
      }
    } else {
      InactiveAddsNothing(after, org, user);
    }
  }

  lemma InactiveAddsNothing(tuples: set<Tuple>, org: string, user: string)
    requires OneRole(tuples, org, user) && forall r | r in RolesOf(tuples, org, user) :: IsPending(r)
    ensures forall r, obj: Object | !IsPending(r) ::
              Check(tuples, User(user), r, obj) <==> Check(tuples - PairTuples(org, user), User(user), r, obj)
  {
    var rest := tuples - PairTuples(org, user);
    if role :| role in RolesOf(tuples, org, user) {
      assert RolesOf(tuples, org, user) == {role};
      OnlyRoleOf(tuples, org, user, role);
      forall r, obj: Object | !IsPending(r)
        ensures Check(tuples, User(user), r, obj) <==> Check(rest, User(user), r, obj)
      {
        PendingAddsNothing(rest, RoleTuple(org, user, role), User(user), r, obj);
      }
    } else {
      assert forall r | r in ROLES :: r !in RolesOf(tuples, org, user) && RoleTuple(org, user, r) !in tuples;
      assert rest == tuples;
    }
  }

  /* ---- Listing ---- */

  datatype Listed = Listed(uid: string, role: Relation)

  /** One page of a read: at most one tuple, and the token of the next one, if any. */
  function ReadPage(matching: seq<Tuple>, at: nat): (seq<Tuple>, Option<nat>)
    requires at <= |matching|
  {
    (if at < |matching| then [matching[at]] else [], if at + 1 < |matching| then Some(at + 1) else None)
  }

  /** The store's tuples in the order it reads them. */
  predicate Enumerates(order: seq<Tuple>, tuples: set<Tuple>) {
    multiset(order) == multiset(tuples)
  }

  predicate UserOfOrg(t: Tuple, org: string) { t.obj == Org(org) && t.subject.User? }

  predicate OrgOfUser(t: Tuple, user: string) { t.subject == User(user) && t.obj.Org? }

  /** What a read of the organization's, or of the user's, tuples matches. */
  function OrgMatches(order: seq<Tuple>, org: string): seq<Tuple> {
    Chosen(order, t => UserOfOrg(t, org))
  }

  function UserMatches(order: seq<Tuple>, user: string): seq<Tuple> {
    Chosen(order, t => OrgOfUser(t, user))
  }

  /* What they must match. */

  function UserIn(org: string): Tuple -> bool {
    (t: Tuple) => t.obj == Org(org) && t.subject.User?
  }

  function OrgOf(user: string): Tuple -> bool {
    (t: Tuple) => t.subject == User(user) && t.obj.Org?
  }

  lemma OrgMatchesPick(order: seq<Tuple>, org: string)
    ensures Picks(order, OrgMatches(order, org), Places(order, UserIn(org)))
  {
    SameChoice(order, t => UserOfOrg(t, org), UserIn(org));
    ChosenPicks(order, UserIn(org));
  }

  lemma UserMatchesPick(order: seq<Tuple>, user: string)
    ensures Picks(order, UserMatches(order, user), Places(order, OrgOf(user)))
  {
    SameChoice(order, t => OrgOfUser(t, user), OrgOf(user));
    ChosenPicks(order, OrgOf(user));
  }

  /** The continuation loop: on a stable store it visits every matching tuple once, in order, and stops. */
  method GetOrganizationUsers(order: seq<Tuple>, org: string) returns (relations: seq<Listed>)
    ensures var p := Places(order, UserIn(org));
            && |relations| == |p|
            && forall i | 0 <= i < |p| :: relations[i] == Listed(order[p[i]].subject.id, order[p[i]].relation)
  {
    var matching := OrgMatches(order, org);
    OrgMatchesPick(order, org);
    relations := [];
    var at := 0;
    var more := true;
    while more
      invariant more ==> at == |relations| && at <= |matching| && (at < |matching| || at == 0)
      invariant !more ==> |relations| == |matching|
      invariant |relations| <= |matching|
      invariant forall i | 0 <= i < |relations| :: relations[i] == Listed(matching[i].subject.id, matching[i].relation)
      decreases more, |matching| - at
    {
      var (page, token) := ReadPage(matching, at);
      if |page| > 0 {
        relations := relations + [Listed(page[0].subject.id, page[0].relation)];
      }
      match token {
        case None => more := false;
        case Some(k) => at := k;
      }
    }
  }

  method GetUserOrganizations(order: seq<Tuple>, user: string) returns (relations: seq<Listed>)
    ensures var p := Places(order, OrgOf(user));
            && |relations| == |p|
            && forall i | 0 <= i < |p| :: relations[i] == Listed(order[p[i]].obj.id, order[p[i]].relation)
  {
    var matching := UserMatches(order, user);
    UserMatchesPick(order, user);
    relations := [];
    var at := 0;
    var more := true;
    while more
      invariant more ==> at == |relations| && at <= |matching| && (at < |matching| || at == 0)
      invariant !more ==> |relations| == |matching|
      invariant |relations| <= |matching|
      invariant forall i | 0 <= i < |relations| :: relations[i] == Listed(matching[i].obj.id, matching[i].relation)
      decreases more, |matching| - at
    {
      var (page, token) := ReadPage(matching, at);
      if |page| > 0 {
        relations := relations + [Listed(page[0].obj.id, page[0].relation)];
      }
      match token {
        case None => more := false;
        case Some(k) => at := k;
      }
    }
  }

  /** The two listings are transposes: each visits the tuple of a pair and role exactly once if the
      store has it and never otherwise, in whatever orders the store reads. */
  lemma ListingsAreTransposes(tuples: set<Tuple>, order: seq<Tuple>, order': seq<Tuple>, org: string, user: string,
      role: Relation)
    requires Enumerates(order, tuples) && Enumerates(order', tuples)
    ensures var t := Tuple(User(user), role, Org(org));
            multiset(OrgMatches(order, org))[t] == multiset(UserMatches(order', user))[t]
                == (if t in tuples then 1 else 0)
  {
    var t := Tuple(User(user), role, Org(org));
    assert multiset(order)[t] == multiset(tuples)[t] == multiset(order')[t];
    ChosenCounts(order, t => UserOfOrg(t, org), t);
    ChosenCounts(order', t => OrgOfUser(t, user), t);
  }
}
