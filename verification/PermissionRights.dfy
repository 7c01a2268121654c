/** The tuples that give each kind of subject its rights, and CheckPermission of pkg/acl/acl.go. */
module PermissionRights {
  import opened Permissions

  /** A tuple of the subject's own on one of the relations. */
  predicate Own(tuples: set<Tuple>, s: Subject, obj: Object, relations: set<Relation>) {
    exists q | q in relations :: Tuple(s, q, obj) in tuples
  }

  /** The user is owner, admin or member of an organization that owns the object. */
  ghost predicate InOwningOrganization(tuples: set<Tuple>, user: string, obj: Object) {
    exists org :: Tuple(OrgSubject(org), Owner, obj) in tuples
      && Own(tuples, User(user), Org(org), {Owner, Admin, Member})
  }

  /** What the tuples say of a user on an organization. */
  predicate UserMayOnOrganization(tuples: set<Tuple>, s: Subject, r: Relation, obj: Object) {
    match r
    case Owner => Own(tuples, s, obj, {Owner})
    case Admin => Own(tuples, s, obj, {Owner, Admin})
    case Member => Own(tuples, s, obj, {Owner, Admin, Member})
    case PendingOwner => Own(tuples, s, obj, {PendingOwner})
    case PendingAdmin => Own(tuples, s, obj, {PendingAdmin})
    case PendingMember => Own(tuples, s, obj, {PendingMember})
    case CanCreateOrganization => Own(tuples, s, obj, {Owner})
    case CanDeleteOrganization => Own(tuples, s, obj, {Owner})
    case CanGetMembership => Own(tuples, s, obj, {Owner, Admin, Member})
    case CanRemoveMembership => Own(tuples, s, obj, {Owner, Admin})
    case CanSetMembership => Own(tuples, s, obj, {Owner, Admin})
    case CanUpdateOrganization => Own(tuples, s, obj, {Owner, Admin})
    case _ => false
  }

  /** And on a pipeline, a model or a knowledge base. */
  ghost predicate UserMayOnResource(tuples: set<Tuple>, user: string, r: Relation, obj: Object) {
    var s := User(user);
    match r
    case Owner => Own(tuples, s, obj, {Owner})
    case Admin => Own(tuples, s, obj, {Owner, Admin}) || InOwningOrganization(tuples, user, obj)
    case Writer => Own(tuples, s, obj, {Owner, Admin, Writer}) || InOwningOrganization(tuples, user, obj)
    case Executor =>
      || Own(tuples, s, obj, {Owner, Admin, Writer, Executor}) || Own(tuples, AnyUser, obj, {Executor})
      || InOwningOrganization(tuples, user, obj)
    case Reader =>
      || Own(tuples, s, obj, {Owner, Admin, Writer, Executor, Reader}) || Own(tuples, AnyUser, obj, {Executor, Reader})
      || InOwningOrganization(tuples, user, obj)
    case _ => false
  }

  /** A visitor reads what is open to every visitor, whatever tuples name it. */
  predicate VisitorMay(tuples: set<Tuple>, r: Relation, obj: Object) {
    obj.Resource? && r == Reader && Tuple(AnyVisitor, Reader, obj) in tuples
  }

  /** A sharing code, or `user:*` itself, executes and reads through its own tuples. */
  predicate SharedMay(tuples: set<Tuple>, s: Subject, r: Relation, obj: Object) {
    && obj.Resource?
    && match r
       case Executor => Tuple(s, Executor, obj) in tuples
       case Reader => Tuple(s, Executor, obj) in tuples || Tuple(s, Reader, obj) in tuples
       case _ => false
  }

  /** What the tuples say of any subject. */
  ghost predicate Entitled(tuples: set<Tuple>, s: Subject, r: Relation, obj: Object) {
    match s
    case User(u) => if obj.Org? then UserMayOnOrganization(tuples, s, r, obj) else UserMayOnResource(tuples, u, r, obj)
    case Visitor(_) => VisitorMay(tuples, r, obj)
    case AnyVisitor => VisitorMay(tuples, r, obj)
    case Code(_) => SharedMay(tuples, s, r, obj)
    case AnyUser => SharedMay(tuples, s, r, obj)
    case OrgSubject(_) =>
      obj.Resource? && r in {Owner, Admin, Writer, Executor, Reader} && Tuple(s, Owner, obj) in tuples
  }

  /* ---- The check grants exactly these ---- */

  /** A source of a user is a tuple of its own or, on executor and reader, one for all users. */
  lemma UserSources(tuples: set<Tuple>, u: string, r: Relation, obj: Object)
    ensures obj.Org? ==> (HasSource(tuples, User(u), r, obj) <==> Own(tuples, User(u), obj, Sources(obj, r)))
    ensures obj.Resource? ==>
              (HasSource(tuples, User(u), r, obj) <==>
                || Own(tuples, User(u), obj, Sources(obj, r))
                || Own(tuples, AnyUser, obj, Sources(obj, r) * {Executor, Reader}))
  {
    if HasSource(tuples, User(u), r, obj) {
      var q :| q in Sources(obj, r) && Direct(tuples, AllowedOn(obj, q), User(u), q, obj);
      assert Tuple(User(u), q, obj) in tuples || (q in {Executor, Reader} && Tuple(AnyUser, q, obj) in tuples);
    }
    if Own(tuples, User(u), obj, Sources(obj, r)) {
      var q :| q in Sources(obj, r) && Tuple(User(u), q, obj) in tuples;
      assert Direct(tuples, AllowedOn(obj, q), User(u), q, obj);
    }
    if obj.Resource? && Own(tuples, AnyUser, obj, Sources(obj, r) * {Executor, Reader}) {
      var q :| q in Sources(obj, r) * {Executor, Reader} && Tuple(AnyUser, q, obj) in tuples;
      assert Direct(tuples, AllowedOn(obj, q), User(u), q, obj);
    }
  }

  lemma OwningOrganization(tuples: set<Tuple>, u: string, obj: Object)
    ensures MemberOfOwner(tuples, User(u), obj) <==> InOwningOrganization(tuples, u, obj)
  {
    forall org
      ensures HasSource(tuples, User(u), Member, Org(org)) <==> Own(tuples, User(u), Org(org), {Owner, Admin, Member})
    {
      UserSources(tuples, u, Member, Org(org));
    }
    if org :| Tuple(OrgSubject(org), Owner, obj) in tuples && Own(tuples, User(u), Org(org), {Owner, Admin, Member}) {
      var t := Tuple(OrgSubject(org), Owner, obj);
      assert t.subject.id == org;
    }
  }

  lemma UserRights(tuples: set<Tuple>, u: string, r: Relation, obj: Object)
    ensures Check(tuples, User(u), r, obj) <==>
              if obj.Org? then UserMayOnOrganization(tuples, User(u), r, obj) else UserMayOnResource(tuples, u, r, obj)
  {
    CheckIsGranted(tuples, User(u), r, obj);
    UserSources(tuples, u, r, obj);
    if obj.Resource? {
      OwningOrganization(tuples, u, obj);
    }
  }

  /** Nobody but a user has a source on an organization. */
  lemma OthersHaveNoRole(tuples: set<Tuple>, s: Subject, obj: Object)
    requires !s.User?
    ensures forall org, r :: !HasSource(tuples, s, r, Org(org))
    ensures !MemberOfOwner(tuples, s, obj)
  {
    forall org, r ensures !HasSource(tuples, s, r, Org(org)) {
      forall q | q in Sources(Org(org), r) ensures !Direct(tuples, AllowedOn(Org(org), q), s, q, Org(org)) {}
    }
  }

  /** The source a subject that is no user can have on a resource. */
  lemma SourceOf(tuples: set<Tuple>, s: Subject, q: Relation, obj: Object)
    requires obj.Resource? && !s.User?
    ensures Direct(tuples, AllowedOn(obj, q), s, q, obj) <==>
              match s
              case Visitor(_) => q == Reader && Tuple(AnyVisitor, Reader, obj) in tuples
              case AnyVisitor => q == Reader && Tuple(s, Reader, obj) in tuples
              case OrgSubject(_) => q == Owner && Tuple(s, Owner, obj) in tuples
              case _ => q in {Executor, Reader} && Tuple(s, q, obj) in tuples
  {}

  lemma OtherRights(tuples: set<Tuple>, s: Subject, r: Relation, obj: Object)
    requires !s.User?
    ensures Check(tuples, s, r, obj) <==> Entitled(tuples, s, r, obj)
  {
    CheckIsGranted(tuples, s, r, obj);
    OthersHaveNoRole(tuples, s, obj);
    if obj.Resource? {
      forall q: Relation { SourceOf(tuples, s, q, obj); }
      SourcesReach(obj, r);
    }
  }

  lemma SourcesReach(obj: Object, r: Relation)
    requires obj.Resource?
    ensures Owner in Sources(obj, r) <==> r in {Owner, Admin, Writer, Executor, Reader}
    ensures Executor in Sources(obj, r) <==> r in {Executor, Reader}
    ensures Reader in Sources(obj, r) <==> r == Reader
  {}

  /** The check grants a right exactly to those the tuples say it of. */
  lemma CheckIsEntitled(tuples: set<Tuple>, s: Subject, r: Relation, obj: Object)
    ensures Check(tuples, s, r, obj) <==> Entitled(tuples, s, r, obj)
  {
    match s
    case User(u) => UserRights(tuples, u, r, obj);
    case _ => OtherRights(tuples, s, r, obj);
  }

  /** A sharing code opens executor and reader of a resource through its own tuples there, and
      nothing else. */
  lemma CodesOnlyExecuteAndRead(tuples: set<Tuple>, code: string, r: Relation, obj: Object)
    ensures Check(tuples, Code(code), r, obj) <==>
              && obj.Resource?
              && (|| (r in {Executor, Reader} && Tuple(Code(code), Executor, obj) in tuples)
                  || (r == Reader && Tuple(Code(code), Reader, obj) in tuples))
  {
    CheckIsEntitled(tuples, Code(code), r, obj);
  }

  /* ---- CheckPermission ---- */

  /** The caller's own right, or that of the sharing code it presents. */
  method CheckPermission(tuples: set<Tuple>, s: Subject, code: string, r: Relation, obj: Object) returns (allowed: bool)
    ensures allowed <==> Entitled(tuples, s, r, obj) || (code != "" && Entitled(tuples, Code(code), r, obj))
  {
    CheckIsEntitled(tuples, s, r, obj);
    CheckIsEntitled(tuples, Code(code), r, obj);
    allowed := Check(tuples, s, r, obj);
    if allowed { return true; }
    if code == "" { return false; }
    allowed := Check(tuples, Code(code), r, obj);
  }
}
