/**
 The authorization model of pkg/acl/fga/fga.fga: relation rewrite rules as data, the recursive
 check that evaluates them, and the closed form of what it grants.
*/
module Permissions {
  datatype Subject =
    | User(id: string) | AnyUser
    | Code(id: string)
    | Visitor(id: string) | AnyVisitor
    | OrgSubject(id: string)

  /** Pipelines, models and knowledge bases have the same relations. */
  datatype ResourceType = Pipeline | Model | KnowledgeBase

  datatype Object = Org(id: string) | Resource(kind: ResourceType, id: string)

  datatype Relation =
    | Owner | Admin | Member | Writer | Executor | Reader
    | PendingOwner | PendingAdmin | PendingMember
    | CanCreateOrganization | CanDeleteOrganization | CanGetMembership
    | CanRemoveMembership | CanSetMembership | CanUpdateOrganization

  datatype Tuple = Tuple(subject: Subject, relation: Relation, obj: Object)

  /** The subjects a relation may hold directly. */
  datatype Allowed = Allowed(users: bool, anyUser: bool, codes: bool, anyVisitor: bool, orgs: bool)

  const USERS: Allowed := Allowed(true, false, false, false, false)

  predicate Permits(a: Allowed, s: Subject) {
    match s
    case User(_) => a.users
    case AnyUser => a.anyUser
    case Code(_) => a.codes
    case Visitor(_) => false
    case AnyVisitor => a.anyVisitor
    case OrgSubject(_) => a.orgs
  }

  /** One alternative of a relation's definition. */
  datatype Rewrite =
    | This(allowed: Allowed)           // [user, ...]
    | Computed(relation: Relation)     // or writer
    | MemberFromOwner                  // or member from owner

  /** The model file, line by line.  A relation that a type does not define has no alternatives. */
  function Rules(obj: Object, r: Relation): seq<Rewrite> {
    match obj
    case Org(_) =>
      (match r
       case Owner => [This(USERS)]
       case Admin => [This(USERS), Computed(Owner)]
       case Member => [This(USERS), Computed(Admin), Computed(Owner)]
       case PendingOwner => [This(USERS)]
       case PendingAdmin => [This(USERS)]
       case PendingMember => [This(USERS)]
       case CanCreateOrganization => [Computed(Owner)]
       case CanDeleteOrganization => [Computed(Owner)]
       case CanGetMembership => [Computed(Owner), Computed(Admin), Computed(Member)]
       case CanRemoveMembership => [Computed(Owner), Computed(Admin)]
       case CanSetMembership => [Computed(Owner), Computed(Admin)]
       case CanUpdateOrganization => [Computed(Owner), Computed(Admin)]
       case _ => [])
    case Resource(_, _) =>
      (match r
       case Owner => [This(Allowed(true, false, false, false, true))]
       case Admin => [This(USERS), Computed(Owner), MemberFromOwner]
       case Writer => [This(USERS), Computed(Admin), MemberFromOwner]
       case Executor => [This(Allowed(true, true, true, false, false)), Computed(Writer), MemberFromOwner]
       case Reader => [This(Allowed(true, true, true, true, false)), Computed(Executor), MemberFromOwner]
       case _ => [])
  }

  function Rank(r: Relation): nat {
    match r
    case Owner => 0
    case Admin => 1
    case Writer => 2
    case Executor => 3
    case Reader => 4
    case Member => 2
    case PendingOwner => 0
    case PendingAdmin => 0
    case PendingMember => 0
    case _ => 3
  }

  /** A tuple names the subject itself or everyone of its type. */
  predicate Direct(tuples: set<Tuple>, a: Allowed, s: Subject, r: Relation, obj: Object) {
    || (Permits(a, s) && Tuple(s, r, obj) in tuples)
    || (s.User? && a.anyUser && Tuple(AnyUser, r, obj) in tuples)
    || (s.Visitor? && a.anyVisitor && Tuple(AnyVisitor, r, obj) in tuples)
  }

  /** The check: does one of the relation's alternatives hold?  It terminates because computed
      relations go down in rank and `member from owner` goes from a resource to an organization. */
  predicate Check(tuples: set<Tuple>, s: Subject, r: Relation, obj: Object)
    decreases obj.Resource?, Rank(r), 1
  {
    exists w | w in Rules(obj, r) :: Holds(tuples, s, r, obj, w)
  }

  predicate Holds(tuples: set<Tuple>, s: Subject, r: Relation, obj: Object, w: Rewrite)
    requires w in Rules(obj, r)
    decreases obj.Resource?, Rank(r), 0
  {
    match w
    case This(a) => Direct(tuples, a, s, r, obj)
    case Computed(q) => Check(tuples, s, q, obj)
    case MemberFromOwner =>
      exists t | t in tuples ::
        t.relation == Owner && t.obj == obj && t.subject.OrgSubject? && Check(tuples, s, Member, Org(t.subject.id))
  }

  /* ---- Closed form ---- */

  /** The relations whose own tuples lead to `r`. */
  function Sources(obj: Object, r: Relation): set<Relation> {
    if obj.Org? then
      (match r
       case Admin => {Owner, Admin}
       case Member => {Owner, Admin, Member}
       case Owner => {Owner}
       case PendingOwner => {PendingOwner}
       case PendingAdmin => {PendingAdmin}
       case PendingMember => {PendingMember}
       case CanCreateOrganization => {Owner}
       case CanDeleteOrganization => {Owner}
       case CanGetMembership => {Owner, Admin, Member}
       case CanRemoveMembership => {Owner, Admin}
       case CanSetMembership => {Owner, Admin}
       case CanUpdateOrganization => {Owner, Admin}
       case _ => {})
    else
      (match r
       case Owner => {Owner}
       case Admin => {Owner, Admin}
       case Writer => {Owner, Admin, Writer}
       case Executor => {Owner, Admin, Writer, Executor}
       case Reader => {Owner, Admin, Writer, Executor, Reader}
       case _ => {})
  }

  /** Who may hold the relation directly. */
  function AllowedOn(obj: Object, r: Relation): Allowed {
    if obj.Org? then USERS else
    match r
    case Owner => Allowed(true, false, false, false, true)
    case Executor => Allowed(true, true, true, false, false)
    case Reader => Allowed(true, true, true, true, false)
    case _ => USERS
  }

  /** A tuple on a relation that leads to `r`. */
  predicate HasSource(tuples: set<Tuple>, s: Subject, r: Relation, obj: Object) {
    exists q | q in Sources(obj, r) :: Direct(tuples, AllowedOn(obj, q), s, q, obj)
  }

  /** A tuple as member, admin or owner of an organization that owns the object. */
  predicate MemberOfOwner(tuples: set<Tuple>, s: Subject, obj: Object) {
    exists t | t in tuples ::
      t.relation == Owner && t.obj == obj && t.subject.OrgSubject? && HasSource(tuples, s, Member, Org(t.subject.id))
  }

  predicate PassesToMembers(r: Relation) {
    r in {Admin, Writer, Executor, Reader}
  }

  /** What the rules grant, without recursion. */
  predicate Granted(tuples: set<Tuple>, s: Subject, r: Relation, obj: Object) {
    HasSource(tuples, s, r, obj) || (obj.Resource? && PassesToMembers(r) && MemberOfOwner(tuples, s, obj))
  }

  lemma CheckGivesHolds(tuples: set<Tuple>, s: Subject, r: Relation, obj: Object) returns (w: Rewrite)
    requires Check(tuples, s, r, obj)
    ensures w in Rules(obj, r) && Holds(tuples, s, r, obj, w)
  {
    w :| w in Rules(obj, r) && Holds(tuples, s, r, obj, w);
  }

  lemma CheckOne(tuples: set<Tuple>, s: Subject, r: Relation, obj: Object, a: Rewrite)
    requires Rules(obj, r) == [a]
    ensures Check(tuples, s, r, obj) <==> Holds(tuples, s, r, obj, a)
  {
    assert a in Rules(obj, r);
  }

  lemma CheckTwo(tuples: set<Tuple>, s: Subject, r: Relation, obj: Object, a: Rewrite, b: Rewrite)
    requires Rules(obj, r) == [a, b]
    ensures a in Rules(obj, r) && b in Rules(obj, r)
    ensures Check(tuples, s, r, obj) <==> Holds(tuples, s, r, obj, a) || Holds(tuples, s, r, obj, b)
  {
    assert Rules(obj, r)[0] == a && Rules(obj, r)[1] == b;
  }

  lemma CheckThree(tuples: set<Tuple>, s: Subject, r: Relation, obj: Object, a: Rewrite, b: Rewrite, c: Rewrite)
    requires Rules(obj, r) == [a, b, c]
    ensures a in Rules(obj, r) && b in Rules(obj, r) && c in Rules(obj, r)
    ensures Holds(tuples, s, r, obj, a) || Holds(tuples, s, r, obj, b) || Holds(tuples, s, r, obj, c) ==>
              Check(tuples, s, r, obj)
    ensures Check(tuples, s, r, obj) ==>
              Holds(tuples, s, r, obj, a) || Holds(tuples, s, r, obj, b) || Holds(tuples, s, r, obj, c)
  {
    if Check(tuples, s, r, obj) {
      var w := CheckGivesHolds(tuples, s, r, obj);
    }
  }

  lemma OrgRolesAreGranted(tuples: set<Tuple>, s: Subject, org: string)
    ensures Check(tuples, s, Owner, Org(org)) <==> HasSource(tuples, s, Owner, Org(org))
    ensures Check(tuples, s, Admin, Org(org)) <==> HasSource(tuples, s, Admin, Org(org))
    ensures Check(tuples, s, Member, Org(org)) <==> HasSource(tuples, s, Member, Org(org))
  {
    var o := Org(org);
    CheckOne(tuples, s, Owner, o, This(USERS));
    CheckTwo(tuples, s, Admin, o, This(USERS), Computed(Owner));
    CheckThree(tuples, s, Member, o, This(USERS), Computed(Admin), Computed(Owner));
    assert Owner in Sources(o, Owner) && Owner in Sources(o, Admin) && Admin in Sources(o, Admin);
    assert Owner in Sources(o, Member) && Admin in Sources(o, Member) && Member in Sources(o, Member);
  }

  lemma OrgCheckIsGranted(tuples: set<Tuple>, s: Subject, r: Relation, org: string)
    ensures Check(tuples, s, r, Org(org)) <==> HasSource(tuples, s, r, Org(org))
  {
    var o := Org(org);
    OrgRolesAreGranted(tuples, s, org);
    assert Owner in Sources(o, Owner) && Owner in Sources(o, Admin) && Admin in Sources(o, Admin);
    assert Owner in Sources(o, Member) && Admin in Sources(o, Member) && Member in Sources(o, Member);
    match r
    case PendingOwner => CheckOne(tuples, s, r, o, This(USERS)); assert r in Sources(o, r);
    case PendingAdmin => CheckOne(tuples, s, r, o, This(USERS)); assert r in Sources(o, r);
    case PendingMember => CheckOne(tuples, s, r, o, This(USERS)); assert r in Sources(o, r);
    case CanCreateOrganization => CheckOne(tuples, s, r, o, Computed(Owner));
    case CanDeleteOrganization => CheckOne(tuples, s, r, o, Computed(Owner));
    case CanGetMembership => CheckThree(tuples, s, r, o, Computed(Owner), Computed(Admin), Computed(Member));
    case CanRemoveMembership => CheckTwo(tuples, s, r, o, Computed(Owner), Computed(Admin));
    case CanSetMembership => CheckTwo(tuples, s, r, o, Computed(Owner), Computed(Admin));
    case CanUpdateOrganization => CheckTwo(tuples, s, r, o, Computed(Owner), Computed(Admin));
    case Owner =>
    case Admin =>
    case Member =>
    case _ => assert Rules(o, r) == [];
  }

  lemma MemberFromOwnerIsMemberOfOwner(tuples: set<Tuple>, s: Subject, r: Relation, obj: Object)
    requires MemberFromOwner in Rules(obj, r)
    ensures Holds(tuples, s, r, obj, MemberFromOwner) <==> MemberOfOwner(tuples, s, obj)
  {
    forall org ensures Check(tuples, s, Member, Org(org)) <==> HasSource(tuples, s, Member, Org(org)) {
      OrgCheckIsGranted(tuples, s, Member, org);
    }
  }

  /** The next weaker relation adds its own tuples and, from admin on, the owner's members. */
  lemma {:induction false} ResourceCheckIsGranted(tuples: set<Tuple>, s: Subject, r: Relation, obj: Object)
    requires obj.Resource?
    ensures Check(tuples, s, r, obj) <==> Granted(tuples, s, r, obj)
    decreases Rank(r)
  {
    match r
    case Owner =>
      CheckOne(tuples, s, r, obj, This(AllowedOn(obj, r)));
      assert r in Sources(obj, r);
    case Admin => WeakerCheck(tuples, s, r, Owner, obj);
    case Writer => WeakerCheck(tuples, s, r, Admin, obj);
    case Executor => WeakerCheck(tuples, s, r, Writer, obj);
    case Reader => WeakerCheck(tuples, s, r, Executor, obj);
    case _ => assert Rules(obj, r) == [];
  }

  lemma {:induction false} WeakerCheck(tuples: set<Tuple>, s: Subject, r: Relation, q: Relation, obj: Object)
    requires obj.Resource? && Rank(q) < Rank(r)
    requires Rules(obj, r) == [This(AllowedOn(obj, r)), Computed(q), MemberFromOwner]
    requires Sources(obj, r) == Sources(obj, q) + {r} && PassesToMembers(r) && (PassesToMembers(q) || q == Owner)
    ensures Check(tuples, s, r, obj) <==> Granted(tuples, s, r, obj)
    decreases Rank(r), 0
  {
    CheckThree(tuples, s, r, obj, This(AllowedOn(obj, r)), Computed(q), MemberFromOwner);
    MemberFromOwnerIsMemberOfOwner(tuples, s, r, obj);
    ResourceCheckIsGranted(tuples, s, q, obj);
    assert HasSource(tuples, s, r, obj) <==>
      HasSource(tuples, s, q, obj) || Direct(tuples, AllowedOn(obj, r), s, r, obj);
  }

  /** The recursive check equals the closed form: a tuple on a relation that leads to the asked one,
      or, on a resource and for admin through reader, membership of an owning organization. */
  lemma CheckIsGranted(tuples: set<Tuple>, s: Subject, r: Relation, obj: Object)
    ensures Check(tuples, s, r, obj) <==> Granted(tuples, s, r, obj)
  {
    match obj
    case Org(org) => OrgCheckIsGranted(tuples, s, r, org);
    case Resource(_, _) => ResourceCheckIsGranted(tuples, s, r, obj);
  }

  /* ---- What follows ---- */

  /** owner, admin, writer, executor, reader: each implies the next on every resource. */
  lemma RightsAreNested(tuples: set<Tuple>, s: Subject, obj: Object)
    requires obj.Resource?
    ensures Check(tuples, s, Owner, obj) ==> Check(tuples, s, Admin, obj)
    ensures Check(tuples, s, Admin, obj) ==> Check(tuples, s, Writer, obj)
    ensures Check(tuples, s, Writer, obj) ==> Check(tuples, s, Executor, obj)
    ensures Check(tuples, s, Executor, obj) ==> Check(tuples, s, Reader, obj)
  {
    forall r { CheckIsGranted(tuples, s, r, obj); }
  }

  /** Every effective member of an owning organization holds admin through reader. */
  lemma MembersOfOwnerHoldAll(tuples: set<Tuple>, s: Subject, org: string, r: Relation, obj: Object)
    requires obj.Resource? && PassesToMembers(r)
    requires Tuple(OrgSubject(org), Owner, obj) in tuples && Check(tuples, s, Member, Org(org))
    ensures Check(tuples, s, r, obj)
  {
    OrgCheckIsGranted(tuples, s, Member, org);
    assert MemberOfOwner(tuples, s, obj);
    CheckIsGranted(tuples, s, r, obj);
  }

  /** More tuples never take a right away. */
  lemma ChecksAreMonotone(tuples: set<Tuple>, more: set<Tuple>, s: Subject, r: Relation, obj: Object)
    requires tuples <= more && Check(tuples, s, r, obj)
    ensures Check(more, s, r, obj)
  {
    CheckIsGranted(tuples, s, r, obj);
    CheckIsGranted(more, s, r, obj);
    forall o: Object, q: Relation | HasSource(tuples, s, q, o) ensures HasSource(more, s, q, o) {
      var p :| p in Sources(o, q) && Direct(tuples, AllowedOn(o, p), s, p, o);
      assert Direct(more, AllowedOn(o, p), s, p, o);
    }
  }

  predicate IsPending(r: Relation) { r in {PendingOwner, PendingAdmin, PendingMember} }

  /** Adding a tuple that no source of the asked right can use changes nothing. */
  lemma UselessTuple(tuples: set<Tuple>, t: Tuple, s: Subject, r: Relation, obj: Object)
    requires forall o: Object, q: Relation | q in Sources(o, r) || q in {Owner, Admin, Member} ::
               Direct(tuples + {t}, AllowedOn(o, q), s, q, o) ==> Direct(tuples, AllowedOn(o, q), s, q, o)
    requires t.subject.OrgSubject? ==> t in tuples
    ensures Check(tuples + {t}, s, r, obj) <==> Check(tuples, s, r, obj)
  {
    var more := tuples + {t};
    CheckIsGranted(tuples, s, r, obj);
    CheckIsGranted(more, s, r, obj);
    if Check(tuples, s, r, obj) { ChecksAreMonotone(tuples, more, s, r, obj); }
    forall o: Object | HasSource(more, s, Member, o) && o.Org? ensures HasSource(tuples, s, Member, o) {
      var p :| p in Sources(o, Member) && Direct(more, AllowedOn(o, p), s, p, o);
      assert Direct(tuples, AllowedOn(o, p), s, p, o);
    }
    if HasSource(more, s, r, obj) {
      var p :| p in Sources(obj, r) && Direct(more, AllowedOn(obj, p), s, p, obj);
      assert Direct(tuples, AllowedOn(obj, p), s, p, obj);
    }
  }

  /** A pending role adds nothing but itself. */
  lemma PendingAddsNothing(tuples: set<Tuple>, t: Tuple, s: Subject, r: Relation, obj: Object)
    requires IsPending(t.relation) && !t.subject.OrgSubject? && !IsPending(r)
    ensures Check(tuples + {t}, s, r, obj) <==> Check(tuples, s, r, obj)
  {
    UselessTuple(tuples, t, s, r, obj);
  }

  /** `user:*` and `visitor:*` tuples add no relation but executor and reader. */
  lemma WildcardsOnlyExecuteAndRead(tuples: set<Tuple>, t: Tuple, s: Subject, r: Relation, obj: Object)
    requires t.subject in {AnyUser, AnyVisitor} && r !in {Executor, Reader}
    ensures Check(tuples + {t}, s, r, obj) <==> Check(tuples, s, r, obj)
  {
    UselessTuple(tuples, t, s, r, obj);
  }
}
