/** A load of a document in saved form whose keys are fresh passes every
    check: each load function returns the store `Built` describes, with no
    error. */
module LoadPath {
  import opened Wrappers
  import opened Seqs
  import opened Decimal
  import opened FieldText
  import opened Entities
  import opened Objects
  import opened DataStorage
  import opened Codec
  import opened LoadKeys
  import opened SavedForm
  import opened Built
  import opened RoundTrip
  import ResearchGroup
  import AcademicStaff

  /* ---------------- Publications ---------------- */

  /** A new object at a free handle leaves a list's lookups alone. */
  lemma HasPublicationFresh(pubs: map<PubRef, Publication>, refs: seq<PubRef>, n: PubRef, p: Publication)
    requires forall i :: 0 <= i < |refs| ==> refs[i] in pubs
    requires n !in pubs
    ensures AcademicStaff.HasPublication(pubs[n := p], refs, p) == AcademicStaff.HasPublication(pubs, refs, p)
  {
  }

  /** A publication colliding with no listed one and equal to none on the
      personal list is stored. */
  lemma StorePublicationBuilt(s: Store, m: MemberRef, p: Publication)
    requires DataStorage.Valid(s) && m in s.heap.members && s.heap.members[m].Staff?
    requires !AcademicStaff.HasPublication(s.heap.pubs, s.heap.members[m].publications, p)
    requires forall i :: 0 <= i < |s.publications| ==> !Collides(p, s.heap.pubs[s.publications[i]])
    ensures StorePublication(s, m, p) == Loaded(StorePub(s, m, p), None)
  {
    assert MemberClosed(s.heap, s.heap.members[m]);
    HasPublicationFresh(s.heap.pubs, s.heap.members[m].publications, s.heap.next, p);
  }

  /** Fresh keys mean the publication collides with no listed one, hence
      equals none on a personal list within the store's list. */
  lemma FreshPublication(s: Store, m: MemberRef, p: Publication, rest: Keys)
    requires DataStorage.Valid(s) && m in s.heap.members && s.heap.members[m].Staff?
    requires forall x :: x in s.heap.members[m].publications ==> x in s.publications
    requires StoreKeys(s).Plus(PublicationDocKeys(SavePublication(p))).Plus(rest).Distinct()
    ensures !AcademicStaff.HasPublication(s.heap.pubs, s.heap.members[m].publications, p)
    ensures forall i :: 0 <= i < |s.publications| ==> !Collides(p, s.heap.pubs[s.publications[i]])
  {
    var k := PublicationDocKeys(SavePublication(p));
    DistinctSplit(StoreKeys(s).Plus(k), rest);
    DistinctSplit(StoreKeys(s), k);
    forall i | 0 <= i < |s.publications| ensures !Collides(p, s.heap.pubs[s.publications[i]]) {
      assert Titles(s.heap, s.publications)[i] in StoreKeys(s).titles;
      assert Ids(s.heap, s.publications)[i] in StoreKeys(s).ids;
    }
    var own := s.heap.members[m].publications;
    forall j | 0 <= j < |own| ensures !SamePublication(s.heap.pubs[own[j]], p) {
      assert own[j] in s.publications;
    }
  }

  /** A publication whose title and ID are on no listed publication is
      stored. */
  lemma LoadPublicationBuilt(s: Store, m: MemberRef, d: PublicationDoc, rest: Keys)
    requires DataStorage.Valid(s) && m in s.heap.members && s.heap.members[m].Staff?
    requires PublicationDocOk(d)
    requires forall x :: x in s.heap.members[m].publications ==> x in s.publications
    requires StoreKeys(s).Plus(PublicationDocKeys(d)).Plus(rest).Distinct()
    ensures LoadPublication(s, m, d) == Loaded(StorePub(s, m, Decoded(d)), None)
  {
    PublicationRoundTrip(Decoded(d));
    FreshPublication(s, m, Decoded(d), rest);
    StorePublicationBuilt(s, m, Decoded(d));
  }

  /** A publication list in saved form with fresh keys is stored in full. */
  lemma {:induction false} LoadPublicationsBuilt(s: Store, m: MemberRef, ds: seq<PublicationDoc>, rest: Keys)
    requires DataStorage.Valid(s) && m in s.heap.members && s.heap.members[m].Staff?
    requires PublicationDocsOk(ds)
    requires forall x :: x in s.heap.members[m].publications ==> x in s.publications
    requires StoreKeys(s).Plus(PublicationDocsKeys(ds)).Plus(rest).Distinct()
    ensures LoadPublications(s, m, ds) == Loaded(StorePubs(s, m, ds), None)
    ensures StoreKeys(StorePubs(s, m, ds)) == StoreKeys(s).Plus(PublicationDocsKeys(ds))
    decreases |ds|
  {
    if |ds| == 0 {
      PlusNoKeys(StoreKeys(s));
    } else {
      var p := Decoded(ds[0]);
      var k0, k1 := PublicationDocKeys(ds[0]), PublicationDocsKeys(ds[1..]);
      ShiftKeys(StoreKeys(s), k0, k1, rest);
      LoadPublicationBuilt(s, m, ds[0], k1.Plus(rest));
      StorePubKeys(s, m, p);
      StorePubPersonal(s, m, p);
      LoadPublicationsBuilt(StorePub(s, m, p), m, ds[1..], rest);
      PlusAssoc(StoreKeys(s), k0, k1);
    }
  }

  /* ---------------- Members ---------------- */

  /** The free handle is no listed handle, of the group or of the store. */
  lemma NextUnlisted(s: Store, g: GroupRef)
    requires DataStorage.Valid(s) && g in s.heap.groups
    ensures forall i :: 0 <= i < |s.heap.groups[g].members| ==> s.heap.groups[g].members[i] in s.heap.members
    ensures s.heap.next !in s.heap.members
  {
    assert GroupClosed(s.heap, s.heap.groups[g]);
  }

  /** A student whose email and ID are on no listed student joins the group
      and the store. */
  lemma LoadStudentBuilt(s: Store, g: GroupRef, d: MemberDoc, rest: Keys)
    requires DataStorage.Valid(s) && g in s.heap.groups && Listed(s, g)
    requires d.studentID.Some?
    requires StoreKeys(s).Plus(StudentKeys(d)).Plus(rest).Distinct()
    ensures LoadStudent(s, g, d, d.studentID.value) == Loaded(StoreStudent(s, g, d), None)
  {
    var m := Student(d.name, d.title, g, d.email, d.studentID.value);
    DistinctSplit(StoreKeys(s).Plus(StudentKeys(d)), rest);
    DistinctSplit(StoreKeys(s), StudentKeys(d));
    FreshKeyNotMember(s, s.heap.groups[g].members, m);
    NextUnlisted(s, g);
    HasMemberFresh(s.heap.members, s.heap.groups[g].members, s.heap.next, m);
    HasMemberFresh(s.heap.members, s.students, s.heap.next, m);
  }

  /** A staff member whose email and password are on no listed staff member
      joins the group and the store. */
  lemma NewStaffBuilt(s: Store, g: GroupRef, d: MemberDoc, rest: Keys)
    requires DataStorage.Valid(s) && g in s.heap.groups && Listed(s, g)
    requires d.password.Some?
    requires StoreKeys(s).Plus(StaffKeys(d)).Plus(rest).Distinct()
    ensures NewStaff(s, g, d, d.password.value) == Loaded(NewListedStaff(s, g, d), None)
  {
    var m := NewAcademicStaff(d.name, d.title, g, d.email, d.password.value);
    DistinctSplit(StoreKeys(s).Plus(StaffKeys(d)), rest);
    DistinctSplit(StoreKeys(s), StaffKeys(d));
    FreshKeyNotMember(s, s.heap.groups[g].members, m);
    NextUnlisted(s, g);
    HasMemberFresh(s.heap.members, s.heap.groups[g].members, s.heap.next, m);
    HasMemberFresh(s.heap.members, s.staff, s.heap.next, m);
  }

  /** `setCoordinator(true)` is the flag write `Built` describes. */
  lemma SetCoordinatorFlag(h: Heap, x: MemberRef)
    requires Objects.Valid(h) && x in h.members && h.members[x].Staff?
    ensures h.members[x].group in h.groups
    ensures AcademicStaff.SetCoordinator(h, x, true) == SetFlag(h, x)
  {
    assert MemberClosed(h, h.members[x]);
  }

  /** Once the staff member exists, its flag and its publications are
      read in full. */
  lemma FlagAndPubsBuilt(s: Store, x: MemberRef, d: MemberDoc, rest: Keys)
    requires DataStorage.Valid(s) && x in s.heap.members && s.heap.members[x].Staff?
    requires s.heap.members[x].publications == []
    requires MemberDocOk(d) && d.memberType == StaffText
    requires StoreKeys(s).Plus(PublicationDocsKeys(d.publications)).Plus(rest).Distinct()
    ensures var r := LoadPublications(FlagCoordinator(s, x, d.isCoordinator.value), x, d.publications);
            r == Loaded(FlagAndPubs(s, x, d), None)
    ensures StoreKeys(FlagAndPubs(s, x, d)) == StoreKeys(s).Plus(PublicationDocsKeys(d.publications))
  {
    SetCoordinatorFlag(s.heap, x);
    if Flagged(d) {
      SetFlagKeys(s, x);
    }
    var s2 := FlagCoordinator(s, x, d.isCoordinator.value);
    LoadPublicationsBuilt(s2, x, d.publications, rest);
  }

  /** A staff element in saved form with fresh keys is read in full: the
      member, its flag, its publications. */
  lemma LoadStaffBuilt(s: Store, g: GroupRef, d: MemberDoc, rest: Keys)
    requires DataStorage.Valid(s) && g in s.heap.groups && Listed(s, g)
    requires MemberDocOk(d) && d.memberType == StaffText
    requires StoreKeys(s).Plus(MemberDocKeys(d)).Plus(rest).Distinct()
    ensures LoadStaff(s, g, d, d.password.value, d.isCoordinator.value) == Loaded(StoreStaff(s, g, d), None)
    ensures StoreKeys(StoreStaff(s, g, d)) == StoreKeys(s).Plus(MemberDocKeys(d))
  {
    var ks, kp := StaffKeys(d), PublicationDocsKeys(d.publications);
    ShiftKeys(StoreKeys(s), ks, kp, rest);
    NewStaffBuilt(s, g, d, kp.Plus(rest));
    NewListedStaffKeys(s, g, d);
    FlagAndPubsBuilt(NewListedStaff(s, g, d), s.heap.next, d, rest);
  }

  /** A member element in saved form with fresh keys is read in full. */
  lemma LoadMemberBuilt(s: Store, g: GroupRef, d: MemberDoc, rest: Keys)
    requires DataStorage.Valid(s) && g in s.heap.groups && Listed(s, g)
    requires MemberDocOk(d)
    requires StoreKeys(s).Plus(MemberDocKeys(d)).Plus(rest).Distinct()
    ensures LoadMember(s, g, d) == Loaded(StoreMember(s, g, d), None)
    ensures StoreKeys(StoreMember(s, g, d)) == StoreKeys(s).Plus(MemberDocKeys(d))
  {
    if d.memberType == StudentText {
      LoadStudentBuilt(s, g, d, rest);
      StoreStudentKeys(s, g, d);
    } else {
      LoadStaffBuilt(s, g, d, rest);
    }
  }

  /** A member list in saved form with fresh keys is read in full. */
  lemma {:induction false} LoadMembersBuilt(s: Store, g: GroupRef, ds: seq<MemberDoc>, rest: Keys)
    requires DataStorage.Valid(s) && g in s.heap.groups && Listed(s, g)
    requires MemberDocsOk(ds)
    requires StoreKeys(s).Plus(MemberDocsKeys(ds)).Plus(rest).Distinct()
    ensures LoadMembers(s, g, ds) == Loaded(StoreMembers(s, g, ds), None)
    ensures StoreKeys(StoreMembers(s, g, ds)) == StoreKeys(s).Plus(MemberDocsKeys(ds))
    decreases |ds|
  {
    if |ds| == 0 {
      PlusNoKeys(StoreKeys(s));
    } else {
      var k0, k1 := MemberDocKeys(ds[0]), MemberDocsKeys(ds[1..]);
      ShiftKeys(StoreKeys(s), k0, k1, rest);
      LoadMemberBuilt(s, g, ds[0], k1.Plus(rest));
      StoreMemberListed(s, g, ds[0]);
      LoadMembersBuilt(StoreMember(s, g, ds[0]), g, ds[1..], rest);
    }
  }

  /* ---------------- Coordinator and seminars ---------------- */

  /** Changing one group object without touching its ID changes no key. */
  lemma GroupOnlyKeys(s: Store, r: Store, g: GroupRef)
    requires g in s.heap.groups && g in r.heap.groups
    requires r == s.(heap := s.heap.(groups := s.heap.groups[g := r.heap.groups[g]]))
    requires r.heap.groups[g].groupID == s.heap.groups[g].groupID
    ensures StoreKeys(r) == StoreKeys(s)
  {
    assert GroupIds(r.heap, r.groups) == GroupIds(s.heap, s.groups);
  }

  /** When the members save as the member elements, the coordinator text
      resolves to the member the saved form names, and never to a student. */
  lemma ResolveCoordinatorBuilt(s: Store, g: GroupRef, d: GroupDoc)
    requires DataStorage.Valid(s) && g in s.heap.groups
    requires MembersSaved(s.heap, g, d.members) && CoordinatorOk(d)
    ensures ResolveCoordinator(s, g, d.coordinator) == Loaded(StoreCoordinator(s, g, d), None)
  {
    var refs := s.heap.groups[g].members;
    var p, q := HasEmail(s.heap.members, d.coordinator), EmailIs(d.coordinator);
    forall i | 0 <= i < |refs| ensures p(refs[i]) == q(d.members[i]) {
      assert SaveMember(s.heap, refs[i]) == d.members[i];
    }
    FirstIndexSame(refs, p, d.members, q);
    match FirstIndex(d.members, q)
    case None =>
    case Some(i) =>
      assert SaveMember(s.heap, refs[i]) == d.members[i];
  }

  /** A seminar element in saved form whose date-time and topic no listed
      seminar of the group shares is added to it. */
  lemma LoadSeminarBuilt(s: Store, g: GroupRef, d: SeminarDoc)
    requires DataStorage.Valid(s) && g in s.heap.groups && SeminarDocOk(d)
    requires (d.dateTime, d.topic) !in SeminarDocsKeys(SaveSeminars(s.heap.groups[g].seminars))
    ensures LoadSeminar(s, g, d) == Loaded(AddSeminar(s, g, DecodedSeminar(d)), None)
  {
    var x := DecodedSeminar(d);
    SeminarRoundTrip(x);
    var sems := s.heap.groups[g].seminars;
    forall i | 0 <= i < |sems| ensures !SameSeminar(sems[i], x) {
      assert SeminarDocsKeys(SaveSeminars(sems))[i] == (EncodeDateTime(sems[i].dateTime), sems[i].topic);
    }
  }

  /** Seminar elements in saved form whose date-times and topics are
      distinct from each other and from the listed seminars are all added. */
  lemma {:induction false} LoadSeminarsBuilt(s: Store, g: GroupRef, ds: seq<SeminarDoc>)
    requires DataStorage.Valid(s) && g in s.heap.groups && SeminarDocsOk(ds)
    requires NoDup(SeminarDocsKeys(SaveSeminars(s.heap.groups[g].seminars) + ds))
    ensures LoadSeminars(s, g, ds) == Loaded(StoreSeminars(s, g, ds), None)
    decreases |ds|
  {
    if |ds| > 0 {
      var sems := s.heap.groups[g].seminars;
      var saved := SaveSeminars(sems);
      var keys := SeminarDocsKeys(saved + ds);
      assert keys[|saved|] == (ds[0].dateTime, ds[0].topic);
      assert SeminarDocsKeys(saved) == keys[..|saved|];
      LoadSeminarBuilt(s, g, ds[0]);
      var x := DecodedSeminar(ds[0]);
      SaveSeminarsAppend(sems, x, ds);
      LoadSeminarsBuilt(AddSeminar(s, g, x), g, ds[1..]);
    }
  }

  /* ---------------- Groups ---------------- */

  /** A group element whose ID text is fresh, read into a store with room
      for it, lists a new group with that ID. */
  lemma NewGroupBuilt(s: Store, d: GroupDoc, rest: Keys)
    requires DataStorage.Valid(s) && |s.groups| < MaxGroups && IdText(d.groupID)
    requires StoreKeys(s).Plus(GroupIdKey(d)).Plus(rest).Distinct()
    ensures ParseInt(d.groupID) == Some(IdOf(d.groupID))
    ensures var (h1, g) := AllocGroup(s.heap, NewResearchGroup(d.name, IdOf(d.groupID)));
            AddResearchGroup(s.(heap := h1), g) == Ok(NewListedGroup(s, d))
  {
    IntRoundTrip(IdOf(d.groupID));
    AllocGroupAt(s.heap, NewResearchGroup(d.name, IdOf(d.groupID)));
    var ids := GroupIds(s.heap, s.groups);
    DistinctSplit(StoreKeys(s).Plus(GroupIdKey(d)), rest);
    NoDupSplit(ids, [d.groupID]);
    forall i | 0 <= i < |s.groups| ensures s.heap.groups[s.groups[i]].groupID != IdOf(d.groupID) {
      assert ids[i] in ids;
    }
    NewGroupAdded(s, d);
  }

  /** `AllocGroup` puts the group at the next free handle. */
  lemma AllocGroupAt(h: Heap, grp: Group)
    requires Objects.Valid(h) && GroupClosed(h, grp)
    ensures AllocGroup(h, grp) == (h.(groups := h.groups[h.next := grp], next := h.next + 1), h.next)
  {
  }

  /** A group whose ID no listed group has is listed at the free handle. */
  lemma NewGroupAdded(s: Store, d: GroupDoc)
    requires IdText(d.groupID) && |s.groups| < MaxGroups && s.heap.next !in s.heap.groups
    requires forall i :: 0 <= i < |s.groups| ==> s.groups[i] in s.heap.groups
    requires !HasGroup(s, NewResearchGroup(d.name, IdOf(d.groupID)))
    ensures var g := s.heap.next;
            var grp := NewResearchGroup(d.name, IdOf(d.groupID));
            var h1 := s.heap.(groups := s.heap.groups[g := grp], next := g + 1);
            AddResearchGroup(s.(heap := h1), g) == Ok(NewListedGroup(s, d))
  {
  }

  /** The store with a new group listed is well formed when there is room. */
  lemma NewListedGroupValid(s: Store, d: GroupDoc)
    requires DataStorage.Valid(s) && |s.groups| < MaxGroups && IdText(d.groupID)
    ensures DataStorage.Valid(NewListedGroup(s, d))
  {
    var (h1, g) := AllocGroup(s.heap, NewResearchGroup(d.name, IdOf(d.groupID)));
    ExtendsGrows(s.heap, h1);
    GrowsKeepsStore(s, h1);
    assert NewListedGroup(s, d) == s.(heap := h1).(groups := s.groups + [g]);
  }

  /** Listing a new group adds its ID text to the group keys. */
  lemma NewListedGroupKeys(s: Store, d: GroupDoc)
    requires DataStorage.Valid(s) && IdText(d.groupID)
    ensures StoreKeys(NewListedGroup(s, d)) == StoreKeys(s).Plus(GroupIdKey(d))
  {
    var s0 := NewListedGroup(s, d);
    assert Titles(s0.heap, s0.publications) == Titles(s.heap, s.publications);
    assert Ids(s0.heap, s0.publications) == Ids(s.heap, s.publications);
    assert MemberKeys(s0.heap, s0.staff) == MemberKeys(s.heap, s.staff);
    assert MemberKeys(s0.heap, s0.students) == MemberKeys(s.heap, s.students);
    assert GroupIds(s0.heap, s0.groups) == GroupIds(s.heap, s.groups) + [d.groupID];
  }

  /** Once the members save as the member elements, the coordinator text
      is resolved with no error, and no key changes. */
  lemma CoordinatorBuilt(s: Store, g: GroupRef, d: GroupDoc)
    requires DataStorage.Valid(s) && g in s.heap.groups
    requires MembersSaved(s.heap, g, d.members) && CoordinatorOk(d)
    requires NoneFlagged(d.members) ==> s.heap.groups[g].coordinator.None?
    ensures ResolveCoordinator(s, g, d.coordinator) == Loaded(StoreCoordinator(s, g, d), None)
    ensures CoordinatorStored(s, StoreCoordinator(s, g, d), g, d)
    ensures StoreKeys(StoreCoordinator(s, g, d)) == StoreKeys(s)
  {
    ResolveCoordinatorBuilt(s, g, d);
    StoreCoordinatorSaved(s, g, d);
    GroupOnlyKeys(s, StoreCoordinator(s, g, d), g);
  }

  /** The seminar elements of a group that has none yet are read in full,
      and no key changes. */
  lemma SeminarsBuilt(s: Store, g: GroupRef, ds: seq<SeminarDoc>)
    requires DataStorage.Valid(s) && g in s.heap.groups && s.heap.groups[g].seminars == []
    requires SeminarDocsOk(ds) && NoDup(SeminarDocsKeys(ds))
    ensures LoadSeminars(s, g, ds) == Loaded(StoreSeminars(s, g, ds), None)
    ensures StoreKeys(StoreSeminars(s, g, ds)) == StoreKeys(s)
  {
    assert SaveSeminars(s.heap.groups[g].seminars) + ds == ds;
    LoadSeminarsBuilt(s, g, ds);
    StoreSeminarsSaved(s, g, ds);
    GroupOnlyKeys(s, StoreSeminars(s, g, ds), g);
  }

  /** A group element in saved form whose keys are fresh, read into a store
      with room for one more group, is read in full. */
  lemma LoadGroupBuilt(s: Store, d: GroupDoc, rest: Keys)
    requires DataStorage.Valid(s) && |s.groups| < MaxGroups && GroupDocOk(d)
    requires StoreKeys(s).Plus(GroupDocKeys(d)).Plus(rest).Distinct()
    ensures LoadGroup(s, d) == Loaded(StoreGroup(s, d), None)
    ensures StoreKeys(StoreGroup(s, d)) == StoreKeys(s).Plus(GroupDocKeys(d))
  {
    var g := s.heap.next;
    var kg, km := GroupIdKey(d), MemberDocsKeys(d.members);
    ShiftKeys(StoreKeys(s), kg, km, rest);
    NewGroupBuilt(s, d, km.Plus(rest));
    NewListedGroupValid(s, d);
    NewListedGroupKeys(s, d);
    var s0 := NewListedGroup(s, d);
    LoadMembersBuilt(s0, g, d.members, rest);
    GroupMembersSaved(s, d);
    GroupTailBuilt(s, StoreMembers(s0, g, d.members), g, d);
  }

  /** After its members, a group element's coordinator and seminars are
      read in full, and they change no key. */
  lemma GroupTailBuilt(s: Store, s1: Store, g: GroupRef, d: GroupDoc)
    requires GroupDocOk(d) && DataStorage.Valid(s1) && GroupStarted(s, s1, g, d)
    ensures ResolveCoordinator(s1, g, d.coordinator) == Loaded(StoreCoordinator(s1, g, d), None)
    ensures var s2 := StoreCoordinator(s1, g, d);
            && LoadSeminars(s2, g, d.seminars) == Loaded(StoreSeminars(s2, g, d.seminars), None)
            && StoreKeys(StoreSeminars(s2, g, d.seminars)) == StoreKeys(s1)
  {
    CoordinatorBuilt(s1, g, d);
    SeminarsBuilt(StoreCoordinator(s1, g, d), g, d.seminars);
  }

  /** A well-formed heap has every handle below the next free one. */
  lemma ValidBounded(h: Heap)
    requires Objects.Valid(h)
    ensures Bounded(h)
  {
  }

  /** Group elements in saved form whose keys are fresh, read into a store
      with room for all of them, are read in full. */
  lemma {:induction false} LoadGroupsBuilt(s: Store, ds: seq<GroupDoc>, rest: Keys)
    requires DataStorage.Valid(s) && |s.groups| + |ds| <= MaxGroups && GroupDocsOk(ds)
    requires StoreKeys(s).Plus(GroupDocsKeys(ds)).Plus(rest).Distinct()
    ensures LoadGroups(s, ds) == Loaded(StoreGroups(s, ds), None)
    ensures StoreKeys(StoreGroups(s, ds)) == StoreKeys(s).Plus(GroupDocsKeys(ds))
    decreases |ds|
  {
    if |ds| == 0 {
      PlusNoKeys(StoreKeys(s));
    } else {
      var k0, k1 := GroupDocKeys(ds[0]), GroupDocsKeys(ds[1..]);
      ShiftKeys(StoreKeys(s), k0, k1, rest);
      LoadGroupBuilt(s, ds[0], k1.Plus(rest));
      ValidBounded(s.heap);
      StoreGroupSaved(s, ds[0]);
      LoadGroupsBuilt(StoreGroup(s, ds[0]), ds[1..], rest);
      PlusAssoc(StoreKeys(s), k0, k1);
    }
  }

  /** A document in saved form is read in full: the load reports no error
      and builds the store `BuiltData` describes. */
  lemma LoadDataBuilt(s: Store, d: Document)
    requires DataStorage.Valid(s) && DocOk(d)
    ensures LoadData(s, d) == Loaded(BuiltData(s, d), None)
    ensures StoreKeys(LoadData(s, d).store) == GroupDocsKeys(d.groups)
  {
    var s0 := Cleared(s).(admin := Some(LoadAdmin(d.admin.value)));
    assert StoreKeys(s0) == NoKeys;
    PlusNoKeys(GroupDocsKeys(d.groups));
    PlusNoKeys(NoKeys.Plus(GroupDocsKeys(d.groups)));
    LoadGroupsBuilt(s0, d.groups, NoKeys);
  }

  /** Loading a document in saved form succeeds, and saving the loaded
      store writes the same document back. */
  lemma LoadThenSave(s: Store, d: Document)
    requires DataStorage.Valid(s) && DocOk(d)
    ensures LoadData(s, d).error.None?
    ensures SaveData(LoadData(s, d).store) == d
  {
    LoadDataBuilt(s, d);
    ValidBounded(s.heap);
    BuiltSaves(s, d);
  }
}
