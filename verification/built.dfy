/** The store a load builds from a document in saved form, written as the
    plain sequence of object creations, field writes and list appends the
    load performs when none of its checks fails. */
module Built {
  import opened Wrappers
  import opened Seqs
  import opened Decimal
  import opened Entities
  import opened Objects
  import opened DataStorage
  import opened Codec
  import opened SavedForm
  import opened LoadKeys

  /* ---------------- Publications ---------------- */

  /** Publication `p` of staff member `m` stored: a new object, appended to
      the personal list and to the store's list. */
  function StorePub(s: Store, m: MemberRef, p: Publication): (r: Store)
    requires m in s.heap.members && s.heap.members[m].Staff?
    ensures r.views == s.views && r.admin == s.admin
    ensures m in r.heap.members && r.heap.members[m].Staff?
    ensures r.heap.groups == s.heap.groups && r.groups == s.groups
    ensures r.staff == s.staff && r.students == s.students
  {
    var n := s.heap.next;
    var h1 := s.heap.(pubs := s.heap.pubs[n := p], next := n + 1);
    var h2 := h1.(members := h1.members[m := h1.members[m].(publications := h1.members[m].publications + [n])]);
    s.(publications := s.publications + [n], heap := h2)
  }

  /** The publication elements of staff member `m`, stored in order. */
  ghost function StorePubs(s: Store, m: MemberRef, ds: seq<PublicationDoc>): (r: Store)
    requires m in s.heap.members && s.heap.members[m].Staff? && PublicationDocsOk(ds)
    ensures r.views == s.views && r.admin == s.admin
    ensures m in r.heap.members && r.heap.members[m].Staff?
    ensures r.heap.groups == s.heap.groups && r.groups == s.groups
    ensures r.staff == s.staff && r.students == s.students
    decreases |ds|
  {
    if |ds| == 0 then s else StorePubs(StorePub(s, m, Decoded(ds[0])), m, ds[1..])
  }

  /* ---------------- Members ---------------- */

  /** Member `x` appended to the member list of group `g`. */
  function Join(s: Store, g: GroupRef, x: MemberRef): Store
    requires g in s.heap.groups
  {
    s.(heap := s.heap.(groups := s.heap.groups[g := s.heap.groups[g].(members := s.heap.groups[g].members + [x])]))
  }

  /** A student element: a new student, joined to group `g` and listed. */
  function StoreStudent(s: Store, g: GroupRef, d: MemberDoc): (r: Store)
    requires g in s.heap.groups && d.studentID.Some?
    ensures r.views == s.views && r.admin == s.admin
    ensures g in r.heap.groups
  {
    var x := s.heap.next;
    var h1 := s.heap.(members := s.heap.members[x := Student(d.name, d.title, g, d.email, d.studentID.value)],
                      next := x + 1);
    var s2 := Join(s.(heap := h1), g, x);
    s2.(students := s2.students + [x])
  }

  /** A staff element before its flag and publications are read: a new
      staff member, joined to group `g` and listed. */
  function NewListedStaff(s: Store, g: GroupRef, d: MemberDoc): (r: Store)
    requires g in s.heap.groups && d.password.Some?
    ensures r.views == s.views && r.admin == s.admin
    ensures g in r.heap.groups
    ensures s.heap.next in r.heap.members && r.heap.members[s.heap.next].Staff?
    ensures r.heap.members[s.heap.next].group == g
  {
    var x := s.heap.next;
    var h1 := s.heap.(members := s.heap.members[x := NewAcademicStaff(d.name, d.title, g, d.email, d.password.value)],
                      next := x + 1);
    var s2 := Join(s.(heap := h1), g, x);
    s2.(staff := s2.staff + [x])
  }

  /** `setCoordinator(true)` on staff member `x`: the flag is set and the
      member becomes its group's coordinator. */
  function SetFlag(h: Heap, x: MemberRef): (r: Heap)
    requires x in h.members && h.members[x].Staff? && h.members[x].group in h.groups
    ensures x in r.members && r.members[x].Staff? && r.groups.Keys == h.groups.Keys
  {
    var staff := h.members[x];
    var h1 := h.(groups := h.groups[staff.group := h.groups[staff.group].(coordinator := Some(x))]);
    h1.(members := h1.members[x := staff.(isCoordinator := true)])
  }

  /** The rest of a staff element once the member `x` exists: its flag,
      then its publications. */
  ghost function FlagAndPubs(s: Store, x: MemberRef, d: MemberDoc): (r: Store)
    requires x in s.heap.members && s.heap.members[x].Staff? && s.heap.members[x].group in s.heap.groups
    requires PublicationDocsOk(d.publications)
    ensures r.views == s.views && r.admin == s.admin
    ensures r.heap.groups.Keys == s.heap.groups.Keys
  {
    var s2 := if Flagged(d) then s.(heap := SetFlag(s.heap, x)) else s;
    StorePubs(s2, x, d.publications)
  }

  /** A staff element: listed, flagged as coordinator when its flag text
      is "true", then given its publications. */
  ghost function StoreStaff(s: Store, g: GroupRef, d: MemberDoc): (r: Store)
    requires g in s.heap.groups && d.password.Some? && PublicationDocsOk(d.publications)
    ensures r.views == s.views && r.admin == s.admin
    ensures g in r.heap.groups
  {
    FlagAndPubs(NewListedStaff(s, g, d), s.heap.next, d)
  }

  ghost function StoreMember(s: Store, g: GroupRef, d: MemberDoc): (r: Store)
    requires g in s.heap.groups && MemberDocOk(d)
    ensures r.views == s.views && r.admin == s.admin
    ensures g in r.heap.groups
  {
    if d.memberType == StudentText then StoreStudent(s, g, d) else StoreStaff(s, g, d)
  }

  ghost function StoreMembers(s: Store, g: GroupRef, ds: seq<MemberDoc>): (r: Store)
    requires g in s.heap.groups && MemberDocsOk(ds)
    ensures r.views == s.views && r.admin == s.admin
    ensures g in r.heap.groups
    decreases |ds|
  {
    if |ds| == 0 then s else StoreMembers(StoreMember(s, g, ds[0]), g, ds[1..])
  }

  /* ---------------- Coordinator and seminars ---------------- */

  function SetCoordinatorOf(s: Store, g: GroupRef, x: MemberRef): (r: Store)
    requires g in s.heap.groups
    ensures r.views == s.views && r.admin == s.admin
    ensures g in r.heap.groups
  {
    s.(heap := s.heap.(groups := s.heap.groups[g := s.heap.groups[g].(coordinator := Some(x))]))
  }

  /** The member at the index of the first member element with the
      coordinator's email becomes the coordinator. */
  ghost function StoreCoordinator(s: Store, g: GroupRef, d: GroupDoc): (r: Store)
    requires g in s.heap.groups
    ensures r.views == s.views && r.admin == s.admin
    ensures g in r.heap.groups
  {
    match FirstIndex(d.members, EmailIs(d.coordinator))
    case None => s
    case Some(i) =>
      if i < |s.heap.groups[g].members| then SetCoordinatorOf(s, g, s.heap.groups[g].members[i]) else s
  }

  function AddSeminar(s: Store, g: GroupRef, x: Seminar): (r: Store)
    requires g in s.heap.groups
    ensures r.views == s.views && r.admin == s.admin
    ensures g in r.heap.groups
  {
    s.(heap := s.heap.(groups := s.heap.groups[g := s.heap.groups[g].(seminars := s.heap.groups[g].seminars + [x])]))
  }

  ghost function StoreSeminars(s: Store, g: GroupRef, ds: seq<SeminarDoc>): (r: Store)
    requires g in s.heap.groups && SeminarDocsOk(ds)
    ensures r.views == s.views && r.admin == s.admin
    ensures g in r.heap.groups
    decreases |ds|
  {
    if |ds| == 0 then s else StoreSeminars(AddSeminar(s, g, DecodedSeminar(ds[0])), g, ds[1..])
  }

  /* ---------------- Groups ---------------- */

  /** A new group with the element's ID, listed in the store. */
  ghost function NewListedGroup(s: Store, d: GroupDoc): (r: Store)
    requires IdText(d.groupID)
    ensures r.views == s.views && r.admin == s.admin
    ensures s.heap.next in r.heap.groups
  {
    var g := s.heap.next;
    var h1 := s.heap.(groups := s.heap.groups[g := NewResearchGroup(d.name, IdOf(d.groupID))],
                      next := g + 1);
    s.(heap := h1).(groups := s.groups + [g])
  }

  /** A group element: the group, its members, its coordinator, its
      seminars. */
  ghost function StoreGroup(s: Store, d: GroupDoc): (r: Store)
    requires GroupDocOk(d)
    ensures r.views == s.views && r.admin == s.admin
  {
    var g := s.heap.next;
    var s2 := StoreMembers(NewListedGroup(s, d), g, d.members);
    StoreSeminars(StoreCoordinator(s2, g, d), g, d.seminars)
  }

  ghost function StoreGroups(s: Store, ds: seq<GroupDoc>): (r: Store)
    requires GroupDocsOk(ds)
    ensures r.views == s.views && r.admin == s.admin
    decreases |ds|
  {
    if |ds| == 0 then s else StoreGroups(StoreGroup(s, ds[0]), ds[1..])
  }

  /** The store a load of `d` builds: the lists emptied, the administrator
      read, then every group. */
  ghost function BuiltData(s: Store, d: Document): Store
    requires d.admin.Some? && GroupDocsOk(d.groups)
  {
    StoreGroups(s.(publications := [], groups := [], staff := [], students := [],
                   admin := Some(LoadAdmin(d.admin.value))), d.groups)
  }

  /* ---------------- Facts about the publication steps ---------------- */

  /** Storing a publication adds its title and ID to the store's keys. */
  lemma StorePubKeys(s: Store, m: MemberRef, p: Publication)
    requires DataStorage.Valid(s) && m in s.heap.members && s.heap.members[m].Staff?
    ensures StoreKeys(StorePub(s, m, p)) == StoreKeys(s).Plus(PublicationDocKeys(SavePublication(p)))
  {
    var r := StorePub(s, m, p);
    var n := s.heap.next;
    assert Titles(r.heap, r.publications) == Titles(s.heap, s.publications) + [p.title];
    assert Ids(r.heap, r.publications) == Ids(s.heap, s.publications) + [p.id];
    assert MemberKeys(r.heap, r.staff) == MemberKeys(s.heap, s.staff);
    assert MemberKeys(r.heap, r.students) == MemberKeys(s.heap, s.students);
    PlusNoKeys(NoKeys);
  }

  /** Storing a publication keeps the personal list within the store's. */
  lemma StorePubPersonal(s: Store, m: MemberRef, p: Publication)
    requires m in s.heap.members && s.heap.members[m].Staff?
    requires forall x :: x in s.heap.members[m].publications ==> x in s.publications
    ensures var r := StorePub(s, m, p);
            forall x :: x in r.heap.members[m].publications ==> x in r.publications
  {
  }

  /* ---------------- Facts about the member steps ---------------- */

  function StudentKeys(d: MemberDoc): Keys {
    Keys([], [], [], [(d.email, OrEmpty(d.studentID))], [])
  }

  function StaffKeys(d: MemberDoc): Keys {
    Keys([], [], [(d.email, OrEmpty(d.password))], [], [])
  }

  /** Every member of group `g` is on the store's staff or student list. */
  predicate Listed(s: Store, g: GroupRef)
    requires g in s.heap.groups
  {
    forall i :: 0 <= i < |s.heap.groups[g].members| ==>
      s.heap.groups[g].members[i] in s.staff || s.heap.groups[g].members[i] in s.students
  }

  /** A stored student adds its email and student ID to the student keys. */
  lemma StoreStudentKeys(s: Store, g: GroupRef, d: MemberDoc)
    requires DataStorage.Valid(s) && g in s.heap.groups && d.studentID.Some?
    ensures StoreKeys(StoreStudent(s, g, d)) == StoreKeys(s).Plus(StudentKeys(d))
  {
    var r := StoreStudent(s, g, d);
    assert Titles(r.heap, r.publications) == Titles(s.heap, s.publications);
    assert Ids(r.heap, r.publications) == Ids(s.heap, s.publications);
    assert MemberKeys(r.heap, r.staff) == MemberKeys(s.heap, s.staff);
    assert MemberKeys(r.heap, r.students) == MemberKeys(s.heap, s.students) + [(d.email, d.studentID.value)];
    assert GroupIds(r.heap, r.groups) == GroupIds(s.heap, s.groups);
  }

  /** A new staff member adds its email and password to the staff keys. */
  lemma NewListedStaffKeys(s: Store, g: GroupRef, d: MemberDoc)
    requires DataStorage.Valid(s) && g in s.heap.groups && d.password.Some?
    ensures StoreKeys(NewListedStaff(s, g, d)) == StoreKeys(s).Plus(StaffKeys(d))
  {
    var r := NewListedStaff(s, g, d);
    assert Titles(r.heap, r.publications) == Titles(s.heap, s.publications);
    assert Ids(r.heap, r.publications) == Ids(s.heap, s.publications);
    assert MemberKeys(r.heap, r.staff) == MemberKeys(s.heap, s.staff) + [(d.email, d.password.value)];
    assert MemberKeys(r.heap, r.students) == MemberKeys(s.heap, s.students);
    assert GroupIds(r.heap, r.groups) == GroupIds(s.heap, s.groups);
  }

  /** Setting the coordinator flag changes no key. */
  lemma SetFlagKeys(s: Store, x: MemberRef)
    requires x in s.heap.members && s.heap.members[x].Staff? && s.heap.members[x].group in s.heap.groups
    ensures StoreKeys(s.(heap := SetFlag(s.heap, x))) == StoreKeys(s)
  {
    var r := s.(heap := SetFlag(s.heap, x));
    assert MemberKeys(r.heap, r.staff) == MemberKeys(s.heap, s.staff);
    assert MemberKeys(r.heap, r.students) == MemberKeys(s.heap, s.students);
    assert GroupIds(r.heap, r.groups) == GroupIds(s.heap, s.groups);
  }

  /** Storing a member element keeps every member of the group listed. */
  lemma StoreMemberListed(s: Store, g: GroupRef, d: MemberDoc)
    requires g in s.heap.groups && MemberDocOk(d) && Listed(s, g)
    ensures Listed(StoreMember(s, g, d), g)
  {
    if d.memberType != StudentText {
      var s1 := NewListedStaff(s, g, d);
      assert Listed(s1, g);
      if Flagged(d) {
        assert Listed(s1.(heap := SetFlag(s1.heap, s.heap.next)), g);
      }
    }
  }
}
