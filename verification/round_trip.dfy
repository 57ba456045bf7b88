/** Saving the store a load builds from a document in saved form gives the
    document back: each step of `Built` writes objects whose save is the
    element they came from, and leaves every object written before alone. */
module RoundTrip {
  import opened Wrappers
  import opened Seqs
  import opened Decimal
  import opened FieldText
  import opened Entities
  import opened Objects
  import opened DataStorage
  import opened Codec
  import opened SavedForm
  import opened Built

  /* ---------------- Frames ---------------- */

  /** Every handle in use is below the next free one. */
  ghost predicate Bounded(h: Heap) {
    && (forall x :: x in h.pubs ==> x < h.next)
    && (forall x :: x in h.members ==> x < h.next)
    && (forall x :: x in h.groups ==> x < h.next)
  }

  /** `h2` holds every publication and member of `h`, unchanged. */
  ghost predicate Keeps(h: Heap, h2: Heap) {
    && h.next <= h2.next
    && (forall x :: x in h.pubs ==> x in h2.pubs && h2.pubs[x] == h.pubs[x])
    && (forall x :: x in h.members ==> x in h2.members && h2.members[x] == h.members[x])
  }

  /** `h2` holds every group of `h` other than `g`, unchanged. */
  ghost predicate GroupsOutside(h: Heap, h2: Heap, g: GroupRef) {
    forall y :: y in h.groups && y != g ==> y in h2.groups && h2.groups[y] == h.groups[y]
  }

  lemma KeepsTransitive(h1: Heap, h2: Heap, h3: Heap, g: GroupRef)
    requires Keeps(h1, h2) && Keeps(h2, h3)
    requires GroupsOutside(h1, h2, g) && GroupsOutside(h2, h3, g)
    ensures Keeps(h1, h3) && GroupsOutside(h1, h3, g)
  {
  }

  /** Member `x` is saved as `d`, and every handle its save follows is
      allocated. */
  ghost predicate MemberSaved(h: Heap, x: MemberRef, d: MemberDoc) {
    && x in h.members
    && (h.members[x].Staff? ==>
          forall i :: 0 <= i < |h.members[x].publications| ==> h.members[x].publications[i] in h.pubs)
    && SaveMember(h, x) == d
  }

  /** A member saved as `d` stays so while its objects are kept. */
  lemma MemberSavedKept(h: Heap, h2: Heap, x: MemberRef, d: MemberDoc)
    requires Keeps(h, h2) && MemberSaved(h, x, d)
    ensures MemberSaved(h2, x, d)
  {
    if h.members[x].Staff? {
      var own := h.members[x].publications;
      assert SavePublications(h2, own) == SavePublications(h, own);
    }
  }

  /* ---------------- Publications ---------------- */

  /** What storing publications of staff member `m` does to the heap: new
      publication objects, appended to `m`'s personal list, nothing else
      touched. */
  ghost predicate PubsAppended(s: Store, r: Store, m: MemberRef)
    requires m in s.heap.members && s.heap.members[m].Staff?
  {
    && Bounded(r.heap) && s.heap.next <= r.heap.next
    && (forall x :: x in s.heap.pubs ==> x in r.heap.pubs && r.heap.pubs[x] == s.heap.pubs[x])
    && r.heap.members.Keys == s.heap.members.Keys
    && (forall x :: x in s.heap.members && x != m ==> r.heap.members[x] == s.heap.members[x])
    && r.heap.groups == s.heap.groups
    && r.groups == s.groups && r.staff == s.staff && r.students == s.students
    && r.heap.members[m].Staff?
    && r.heap.members[m] == s.heap.members[m].(publications := r.heap.members[m].publications)
    && s.heap.members[m].publications <= r.heap.members[m].publications
    && (forall i :: 0 <= i < |r.heap.members[m].publications| ==> r.heap.members[m].publications[i] in r.heap.pubs)
  }

  /** Storing one publication appends a new object to the personal list and
      to the store's list; the personal list saves as before plus the
      publication. */
  lemma StorePubSaved(s: Store, m: MemberRef, p: Publication)
    requires Bounded(s.heap) && m in s.heap.members && s.heap.members[m].Staff?
    requires forall i :: 0 <= i < |s.heap.members[m].publications| ==> s.heap.members[m].publications[i] in s.heap.pubs
    ensures var r := StorePub(s, m, p);
            && PubsAppended(s, r, m)
            && r.heap.members[m].publications == s.heap.members[m].publications + [s.heap.next]
            && r.publications == s.publications + [s.heap.next]
            && SavePublications(r.heap, r.heap.members[m].publications)
               == SavePublications(s.heap, s.heap.members[m].publications) + [SavePublication(p)]
  {
    var r := StorePub(s, m, p);
    var own := s.heap.members[m].publications;
    assert SavePublications(r.heap, own) == SavePublications(s.heap, own);
  }

  lemma PubsAppendedTransitive(s: Store, s1: Store, r: Store, m: MemberRef)
    requires m in s.heap.members && s.heap.members[m].Staff?
    requires PubsAppended(s, s1, m) && PubsAppended(s1, r, m)
    ensures PubsAppended(s, r, m)
  {
  }

  /** `a + [x]` followed by the rest of `ds` is `a + ds`. */
  lemma AppendCons<T>(a: seq<T>, ds: seq<T>)
    requires |ds| > 0
    ensures (a + [ds[0]]) + ds[1..] == a + ds
  {
    assert ds == [ds[0]] + ds[1..];
  }

  /** Two lists that grow by the same handles stay in step. */
  lemma SameSuffix<T>(p0: seq<T>, p1: seq<T>, p2: seq<T>, o0: seq<T>, o1: seq<T>, o2: seq<T>, n: T)
    requires o1 == o0 + [n] && o1 <= o2
    requires p1 == p0 + [n] && p2 == p1 + o2[|o1|..]
    ensures p2 == p0 + o2[|o0|..]
  {
    assert o2[|o0|..] == [n] + o2[|o1|..];
  }

  /** Storing a list of publications: the personal list saves as before
      plus the elements, and the store's list gains the same handles in the
      same order. */
  lemma {:induction false} StorePubsSaved(s: Store, m: MemberRef, ds: seq<PublicationDoc>)
    requires Bounded(s.heap) && m in s.heap.members && s.heap.members[m].Staff? && PublicationDocsOk(ds)
    requires forall i :: 0 <= i < |s.heap.members[m].publications| ==> s.heap.members[m].publications[i] in s.heap.pubs
    ensures var r := StorePubs(s, m, ds);
            var own, own2 := s.heap.members[m].publications, r.heap.members[m].publications;
            && PubsAppended(s, r, m)
            && r.publications == s.publications + own2[|own|..]
            && SavePublications(r.heap, own2) == SavePublications(s.heap, own) + ds
    decreases |ds|
  {
    var own := s.heap.members[m].publications;
    if |ds| == 0 {
      assert own[|own|..] == [];
    } else {
      var s1 := StorePub(s, m, Decoded(ds[0]));
      StorePubSaved(s, m, Decoded(ds[0]));
      StorePubsSaved(s1, m, ds[1..]);
      var r := StorePubs(s, m, ds);
      PubsAppendedTransitive(s, s1, r, m);
      SameSuffix(s.publications, s1.publications, r.publications,
                 own, s1.heap.members[m].publications, r.heap.members[m].publications, s.heap.next);
      AppendCons(SavePublications(s.heap, own), ds);
    }
  }

  /* ---------------- Members ---------------- */

  /** The group object after member `x` joined it and the coordinator
      became `c`. */
  function Joined(grp: Group, x: MemberRef, c: Option<MemberRef>): Group {
    grp.(members := grp.members + [x], coordinator := c)
  }

  /** A student element: a new student object saved as the element, joined
      to the group; no other object changes. */
  lemma StoreStudentSaved(s: Store, g: GroupRef, d: MemberDoc)
    requires Bounded(s.heap) && g in s.heap.groups && MemberDocOk(d) && d.memberType == StudentText
    ensures var r := StoreStudent(s, g, d);
            var x := s.heap.next;
            && Bounded(r.heap) && Keeps(s.heap, r.heap) && GroupsOutside(s.heap, r.heap, g)
            && x !in s.heap.members && MemberSaved(r.heap, x, d)
            && r.heap.groups[g] == Joined(s.heap.groups[g], x, s.heap.groups[g].coordinator)
            && r.groups == s.groups
  {
  }

  /** A staff object whose fields are the element's saves as the element. */
  lemma StaffSavedAs(h: Heap, x: MemberRef, d: MemberDoc)
    requires MemberDocOk(d) && d.memberType == StaffText
    requires x in h.members && h.members[x].Staff?
    requires var m := h.members[x];
             && m.name == d.name && m.title == d.title && m.email == d.email
             && m.password == d.password.value && m.isCoordinator == Flagged(d)
             && SavePublications(h, m.publications) == d.publications
    ensures SaveMember(h, x) == d
  {
  }

  /** `setCoordinator(true)` changes the member's flag and its group's
      coordinator, nothing else. */
  lemma SetFlagFrame(s: Store, x: MemberRef)
    requires Bounded(s.heap) && x in s.heap.members && s.heap.members[x].Staff?
    requires s.heap.members[x].group in s.heap.groups
    ensures var h := SetFlag(s.heap, x);
            var g := s.heap.members[x].group;
            && Bounded(h) && h.next == s.heap.next && h.pubs == s.heap.pubs
            && h.members == s.heap.members[x := s.heap.members[x].(isCoordinator := true)]
            && h.groups == s.heap.groups[g := s.heap.groups[g].(coordinator := Some(x))]
  {
  }

  /** The publications of a new staff member whose other fields are the
      element's: the member then saves as the element. */
  lemma NewStaffPubsSaved(s: Store, x: MemberRef, d: MemberDoc)
    requires Bounded(s.heap) && x in s.heap.members && s.heap.members[x].Staff?
    requires MemberDocOk(d) && d.memberType == StaffText
    requires var m := s.heap.members[x];
             && m.name == d.name && m.title == d.title && m.email == d.email
             && m.password == d.password.value && m.isCoordinator == Flagged(d) && m.publications == []
    ensures var r := StorePubs(s, x, d.publications);
            PubsAppended(s, r, x) && MemberSaved(r.heap, x, d)
  {
    StorePubsSaved(s, x, d.publications);
    var r := StorePubs(s, x, d.publications);
    StaffSavedAs(r.heap, x, d);
  }

  /** The flag and the publications of a new staff member `x`: the member
      saves as the element; the flag makes it its group's coordinator; the
      objects of `h0`, which lacks `x`, stay. */
  lemma FlagAndPubsSaved(h0: Heap, s: Store, x: MemberRef, d: MemberDoc)
    requires Bounded(s.heap) && x in s.heap.members && s.heap.members[x].Staff?
    requires s.heap.members[x].group in s.heap.groups
    requires Keeps(h0, s.heap) && x !in h0.members
    requires MemberDocOk(d) && d.memberType == StaffText
    requires s.heap.members[x] == NewAcademicStaff(d.name, d.title, s.heap.members[x].group, d.email, d.password.value)
    ensures var r := FlagAndPubs(s, x, d);
            var g := s.heap.members[x].group;
            var c := if Flagged(d) then Some(x) else s.heap.groups[g].coordinator;
            && Bounded(r.heap) && Keeps(h0, r.heap)
            && GroupsOutside(s.heap, r.heap, g) && g in r.heap.groups
            && r.heap.groups[g] == s.heap.groups[g].(coordinator := c)
            && MemberSaved(r.heap, x, d)
            && r.groups == s.groups
  {
    SetFlagFrame(s, x);
    var s2 := if Flagged(d) then s.(heap := SetFlag(s.heap, x)) else s;
    NewStaffPubsSaved(s2, x, d);
  }

  /** A staff element: a new staff member saved as the element, joined to
      the group, which it coordinates when flagged; no other object
      changes. */
  lemma StoreStaffSaved(s: Store, g: GroupRef, d: MemberDoc)
    requires Bounded(s.heap) && g in s.heap.groups && MemberDocOk(d) && d.memberType == StaffText
    ensures var r := StoreStaff(s, g, d);
            var x := s.heap.next;
            var c := if Flagged(d) then Some(x) else s.heap.groups[g].coordinator;
            && Bounded(r.heap) && Keeps(s.heap, r.heap) && GroupsOutside(s.heap, r.heap, g)
            && x !in s.heap.members && MemberSaved(r.heap, x, d)
            && r.heap.groups[g] == Joined(s.heap.groups[g], x, c)
            && r.groups == s.groups
  {
    var s1 := NewListedStaff(s, g, d);
    FlagAndPubsSaved(s.heap, s1, s.heap.next, d);
  }

  /** Any member element: see the two lemmas above. */
  lemma StoreMemberSaved(s: Store, g: GroupRef, d: MemberDoc)
    requires Bounded(s.heap) && g in s.heap.groups && MemberDocOk(d)
    ensures var r := StoreMember(s, g, d);
            var x := s.heap.next;
            var c := if Flagged(d) then Some(x) else s.heap.groups[g].coordinator;
            && Bounded(r.heap) && Keeps(s.heap, r.heap) && GroupsOutside(s.heap, r.heap, g)
            && x !in s.heap.members && MemberSaved(r.heap, x, d)
            && r.heap.groups[g] == Joined(s.heap.groups[g], x, c)
            && r.groups == s.groups
  {
    if d.memberType == StudentText {
      StoreStudentSaved(s, g, d);
    } else {
      StoreStaffSaved(s, g, d);
    }
  }

  /** No element of the list is flagged as coordinator. */
  predicate NoneFlagged(ds: seq<MemberDoc>) {
    forall i :: 0 <= i < |ds| ==> !Flagged(ds[i])
  }

  /** What storing the member list of group `g` leaves behind. */
  ghost predicate MembersStored(s: Store, r: Store, g: GroupRef, ds: seq<MemberDoc>)
    requires g in s.heap.groups
  {
    var before := s.heap.groups[g].members;
    && Bounded(r.heap) && Keeps(s.heap, r.heap) && GroupsOutside(s.heap, r.heap, g)
    && g in r.heap.groups
    && var after := r.heap.groups[g].members;
    && before <= after && |after| == |before| + |ds|
    && (forall i :: 0 <= i < |ds| ==> MemberSaved(r.heap, after[|before| + i], ds[i]))
    && r.heap.groups[g] == s.heap.groups[g].(members := after, coordinator := r.heap.groups[g].coordinator)
    && (NoneFlagged(ds) ==> r.heap.groups[g].coordinator == s.heap.groups[g].coordinator)
    && r.groups == s.groups
  }

  /** Storing a member list: the group gains one member per element, in
      order, each saved as its element; no earlier object changes. */
  lemma {:induction false} StoreMembersSaved(s: Store, g: GroupRef, ds: seq<MemberDoc>)
    requires Bounded(s.heap) && g in s.heap.groups && MemberDocsOk(ds)
    ensures MembersStored(s, StoreMembers(s, g, ds), g, ds)
    decreases |ds|
  {
    if |ds| == 0 {
      assert s.heap.groups[g] == s.heap.groups[g].(members := s.heap.groups[g].members,
                                                     coordinator := s.heap.groups[g].coordinator);
    } else {
      var s1 := StoreMember(s, g, ds[0]);
      StoreMemberSaved(s, g, ds[0]);
      StoreMembersSaved(s1, g, ds[1..]);
      MembersStoredStep(s, s1, StoreMembers(s, g, ds), g, ds);
    }
  }

  /** One member stored, then the rest of the list. */
  lemma MembersStoredStep(s: Store, s1: Store, r: Store, g: GroupRef, ds: seq<MemberDoc>)
    requires |ds| > 0 && g in s.heap.groups
    requires var x := s.heap.next;
             var c := if Flagged(ds[0]) then Some(x) else s.heap.groups[g].coordinator;
             && Bounded(s1.heap) && Keeps(s.heap, s1.heap) && GroupsOutside(s.heap, s1.heap, g)
             && g in s1.heap.groups && MemberSaved(s1.heap, x, ds[0])
             && s1.heap.groups[g] == Joined(s.heap.groups[g], x, c)
             && s1.groups == s.groups
    requires MembersStored(s1, r, g, ds[1..])
    ensures MembersStored(s, r, g, ds)
  {
    var x := s.heap.next;
    var before, mid, after := s.heap.groups[g].members, s1.heap.groups[g].members, r.heap.groups[g].members;
    assert mid == before + [x];
    MemberSavedKept(s1.heap, r.heap, x, ds[0]);
    forall i | 0 <= i < |ds| ensures MemberSaved(r.heap, after[|before| + i], ds[i]) {
      if i > 0 {
        assert after[|before| + i] == after[|mid| + (i - 1)];
        assert ds[i] == ds[1..][i - 1];
      }
    }
    if NoneFlagged(ds) {
      assert !Flagged(ds[0]);
      assert NoneFlagged(ds[1..]) by {
        forall i | 0 <= i < |ds[1..]| ensures !Flagged(ds[1..][i]) {
          assert ds[1..][i] == ds[i + 1];
        }
      }
    }
  }

  /* ---------------- Coordinator and seminars ---------------- */

  /** The members of group `g` save as the member elements. */
  ghost predicate MembersSaved(h: Heap, g: GroupRef, ds: seq<MemberDoc>)
    requires g in h.groups
  {
    && |h.groups[g].members| == |ds|
    && forall i :: 0 <= i < |ds| ==> MemberSaved(h, h.groups[g].members[i], ds[i])
  }

  /** `r` is `s` with the coordinator of group `g` set to a member whose
      email is the coordinator text. */
  ghost predicate CoordinatorStored(s: Store, r: Store, g: GroupRef, d: GroupDoc)
    requires g in s.heap.groups
  {
    && g in r.heap.groups
    && var grp := r.heap.groups[g];
    && r == s.(heap := s.heap.(groups := s.heap.groups[g := grp]))
    && grp == s.heap.groups[g].(coordinator := grp.coordinator)
    && (grp.coordinator.Some? ==> grp.coordinator.value in r.heap.members)
    && CoordinatorText(r.heap, grp) == d.coordinator
  }

  /** Resolving the coordinator text makes the group's coordinator the
      member whose email it names, which saves back as that text; nothing
      else changes. */
  lemma StoreCoordinatorSaved(s: Store, g: GroupRef, d: GroupDoc)
    requires g in s.heap.groups && MembersSaved(s.heap, g, d.members) && CoordinatorOk(d)
    requires NoneFlagged(d.members) ==> s.heap.groups[g].coordinator.None?
    ensures CoordinatorStored(s, StoreCoordinator(s, g, d), g, d)
  {
    var refs := s.heap.groups[g].members;
    match FirstIndex(d.members, EmailIs(d.coordinator))
    case None =>
    case Some(i) =>
      assert SaveMember(s.heap, refs[i]) == d.members[i];
  }

  lemma SaveSeminarsAppend(before: seq<Seminar>, x: Seminar, ds: seq<SeminarDoc>)
    requires |ds| > 0 && SaveSeminar(x) == ds[0]
    ensures SaveSeminars(before + [x]) + ds[1..] == SaveSeminars(before) + ds
  {
    assert SaveSeminars(before + [x]) == SaveSeminars(before) + [ds[0]];
    AppendCons(SaveSeminars(before), ds);
  }

  /** `r` is `s` with seminars that save as `ds` appended to group `g`. */
  ghost predicate SeminarsStored(s: Store, r: Store, g: GroupRef, ds: seq<SeminarDoc>)
    requires g in s.heap.groups
  {
    && g in r.heap.groups
    && var grp := r.heap.groups[g];
    && r == s.(heap := s.heap.(groups := s.heap.groups[g := grp]))
    && grp == s.heap.groups[g].(seminars := grp.seminars)
    && SaveSeminars(grp.seminars) == SaveSeminars(s.heap.groups[g].seminars) + ds
  }

  /** Storing the seminar elements appends seminars that save as them;
      nothing else changes. */
  lemma {:induction false} StoreSeminarsSaved(s: Store, g: GroupRef, ds: seq<SeminarDoc>)
    requires g in s.heap.groups && SeminarDocsOk(ds)
    ensures SeminarsStored(s, StoreSeminars(s, g, ds), g, ds)
    decreases |ds|
  {
    if |ds| == 0 {
      assert s.heap.groups[g := s.heap.groups[g]] == s.heap.groups;
    } else {
      var x := DecodedSeminar(ds[0]);
      var s1 := AddSeminar(s, g, x);
      StoreSeminarsSaved(s1, g, ds[1..]);
      SaveSeminarsAppend(s.heap.groups[g].seminars, x, ds);
      var grp := StoreSeminars(s, g, ds).heap.groups[g];
      assert s1.heap.groups[g := grp] == s.heap.groups[g := grp];
    }
  }

  /* ---------------- Groups ---------------- */

  /** Group `g` saves as `d`, and every handle its save follows is
      allocated. */
  ghost predicate GroupSaved(h: Heap, g: GroupRef, d: GroupDoc) {
    && g in h.groups
    && MembersSaved(h, g, d.members)
    && (h.groups[g].coordinator.Some? ==> h.groups[g].coordinator.value in h.members)
    && SaveGroup(h, g) == d
  }

  /** A group saved as `d` stays so while it and the objects are kept. */
  lemma GroupSavedKept(h: Heap, h2: Heap, g: GroupRef, d: GroupDoc)
    requires Keeps(h, h2) && GroupSaved(h, g, d)
    requires g in h2.groups && h2.groups[g] == h.groups[g]
    ensures GroupSaved(h2, g, d)
  {
    var refs := h.groups[g].members;
    forall i | 0 <= i < |refs| ensures MemberSaved(h2, refs[i], d.members[i]) {
      MemberSavedKept(h, h2, refs[i], d.members[i]);
    }
    assert SaveMembers(h2, refs) == SaveMembers(h, refs);
  }

  /** `h2` holds every group of `h`, unchanged. */
  ghost predicate GroupsKept(h: Heap, h2: Heap) {
    forall y :: y in h.groups ==> y in h2.groups && h2.groups[y] == h.groups[y]
  }

  /** Group `g` of `r` is new since `s` and has its members read: every
      earlier object stays, the members save as the elements, and the
      group has the element's name and ID and no seminars yet. */
  ghost predicate GroupStarted(s: Store, r: Store, g: GroupRef, d: GroupDoc)
    requires IdText(d.groupID)
  {
    && Bounded(r.heap) && Keeps(s.heap, r.heap) && GroupsKept(s.heap, r.heap)
    && g !in s.heap.groups && g in r.heap.groups
    && MembersSaved(r.heap, g, d.members)
    && r.heap.groups[g].name == d.name && r.heap.groups[g].groupID == IdOf(d.groupID)
    && r.heap.groups[g].seminars == []
    && (NoneFlagged(d.members) ==> r.heap.groups[g].coordinator.None?)
    && r.groups == s.groups + [g]
  }

  /** The new group, before its members. */
  lemma NewListedGroupSaved(s: Store, d: GroupDoc)
    requires Bounded(s.heap) && IdText(d.groupID)
    ensures var s0 := NewListedGroup(s, d);
            && GroupStarted(s, s0, s.heap.next, d.(members := []))
            && s0.heap.groups[s.heap.next].members == []
            && s0.heap.groups[s.heap.next].coordinator.None?
  {
  }

  /** Reading the member list of a group that had none. */
  lemma MembersFromEmpty(s: Store, s0: Store, r: Store, g: GroupRef, d: GroupDoc)
    requires IdText(d.groupID)
    requires GroupStarted(s, s0, g, d.(members := []))
    requires s0.heap.groups[g].members == [] && s0.heap.groups[g].coordinator.None?
    requires MembersStored(s0, r, g, d.members)
    ensures GroupStarted(s, r, g, d)
  {
    forall i | 0 <= i < |d.members| ensures MemberSaved(r.heap, r.heap.groups[g].members[i], d.members[i]) {
      assert r.heap.groups[g].members[i] == r.heap.groups[g].members[|s0.heap.groups[g].members| + i];
    }
  }

  /** A new group with its member list stored. */
  lemma GroupMembersSaved(s: Store, d: GroupDoc)
    requires Bounded(s.heap) && GroupDocOk(d)
    ensures GroupStarted(s, StoreMembers(NewListedGroup(s, d), s.heap.next, d.members), s.heap.next, d)
  {
    var g := s.heap.next;
    var s0 := NewListedGroup(s, d);
    NewListedGroupSaved(s, d);
    StoreMembersSaved(s0, g, d.members);
    MembersFromEmpty(s, s0, StoreMembers(s0, g, d.members), g, d);
  }

  /** Group `g` of `r` is new since `s` and saves as `d`; every earlier
      object stays. */
  ghost predicate GroupDone(s: Store, r: Store, g: GroupRef, d: GroupDoc) {
    && Bounded(r.heap) && Keeps(s.heap, r.heap) && GroupsKept(s.heap, r.heap)
    && g !in s.heap.groups && GroupSaved(r.heap, g, d)
    && r.groups == s.groups + [g]
  }

  /** The members of group `g` save as the elements. */
  lemma MembersSave(h: Heap, g: GroupRef, ds: seq<MemberDoc>)
    requires g in h.groups && MembersSaved(h, g, ds)
    ensures SaveMembers(h, h.groups[g].members) == ds
  {
  }

  /** Changing only group `g`, which `s` lacks, keeps what `s` had. */
  lemma GroupOnlyFrame(s: Store, s1: Store, s3: Store, g: GroupRef)
    requires Bounded(s1.heap) && Keeps(s.heap, s1.heap) && GroupsKept(s.heap, s1.heap)
    requires g !in s.heap.groups && g in s1.heap.groups && g in s3.heap.groups
    requires s3.heap == s1.heap.(groups := s1.heap.groups[g := s3.heap.groups[g]])
    ensures Bounded(s3.heap) && Keeps(s.heap, s3.heap) && GroupsKept(s.heap, s3.heap)
  {
  }

  /** A group object with the element's fields saves as the element. */
  lemma GroupSavedAs(h1: Heap, h3: Heap, g: GroupRef, d: GroupDoc)
    requires g in h1.groups && MembersSaved(h1, g, d.members)
    requires g in h3.groups && h3 == h1.(groups := h1.groups[g := h3.groups[g]])
    requires var grp := h3.groups[g];
             && grp.members == h1.groups[g].members && grp.name == d.name
             && IntToString(grp.groupID) == d.groupID
             && (grp.coordinator.Some? ==> grp.coordinator.value in h3.members)
             && CoordinatorText(h3, grp) == d.coordinator
             && SaveSeminars(grp.seminars) == d.seminars
    ensures GroupSaved(h3, g, d)
  {
    MembersSave(h3, g, d.members);
  }

  /** The members, then the coordinator, then the seminars. */
  lemma GroupFinished(s: Store, s1: Store, s2: Store, s3: Store, g: GroupRef, d: GroupDoc)
    requires IdText(d.groupID) && GroupStarted(s, s1, g, d)
    requires CoordinatorStored(s1, s2, g, d) && SeminarsStored(s2, s3, g, d.seminars)
    ensures GroupDone(s, s3, g, d)
  {
    var grp3 := s3.heap.groups[g];
    assert s2.heap.groups[g := grp3] == s1.heap.groups[g := grp3];
    GroupOnlyFrame(s, s1, s3, g);
    assert SaveSeminars([]) == [];
    GroupSavedAs(s1.heap, s3.heap, g, d);
  }

  /** A group element: a new group saved as the element; every earlier
      object stays. */
  lemma StoreGroupSaved(s: Store, d: GroupDoc)
    requires Bounded(s.heap) && GroupDocOk(d)
    ensures GroupDone(s, StoreGroup(s, d), s.heap.next, d)
  {
    var g := s.heap.next;
    GroupMembersSaved(s, d);
    var s1 := StoreMembers(NewListedGroup(s, d), g, d.members);
    StoreCoordinatorSaved(s1, g, d);
    var s2 := StoreCoordinator(s1, g, d);
    StoreSeminarsSaved(s2, g, d.seminars);
    GroupFinished(s, s1, s2, StoreSeminars(s2, g, d.seminars), g, d);
  }

  /** The groups of `r` after those of `s` are new and save as `ds`; every
      earlier object stays. */
  ghost predicate GroupsDone(s: Store, r: Store, ds: seq<GroupDoc>) {
    && Bounded(r.heap) && Keeps(s.heap, r.heap) && GroupsKept(s.heap, r.heap)
    && s.groups <= r.groups && |r.groups| == |s.groups| + |ds|
    && (forall i :: 0 <= i < |ds| ==> GroupSaved(r.heap, r.groups[|s.groups| + i], ds[i]))
  }

  /** One group stored, then the rest of the list. */
  lemma GroupsDoneStep(s: Store, s1: Store, r: Store, ds: seq<GroupDoc>)
    requires |ds| > 0 && GroupDone(s, s1, s.heap.next, ds[0]) && GroupsDone(s1, r, ds[1..])
    ensures GroupsDone(s, r, ds)
  {
    var g := s.heap.next;
    GroupSavedKept(s1.heap, r.heap, g, ds[0]);
    forall i | 0 <= i < |ds| ensures GroupSaved(r.heap, r.groups[|s.groups| + i], ds[i]) {
      if i > 0 {
        assert r.groups[|s.groups| + i] == r.groups[|s1.groups| + (i - 1)];
        assert ds[i] == ds[1..][i - 1];
      }
    }
  }

  /** Storing a group list: one new group per element, in order, each saved
      as its element. */
  lemma {:induction false} StoreGroupsSaved(s: Store, ds: seq<GroupDoc>)
    requires Bounded(s.heap) && GroupDocsOk(ds)
    ensures GroupsDone(s, StoreGroups(s, ds), ds)
    decreases |ds|
  {
    if |ds| > 0 {
      StoreGroupSaved(s, ds[0]);
      var s1 := StoreGroup(s, ds[0]);
      StoreGroupsSaved(s1, ds[1..]);
      GroupsDoneStep(s, s1, StoreGroups(s1, ds[1..]), ds);
    }
  }

  /** The groups listed after none save as the elements. */
  lemma GroupsSave(s: Store, r: Store, ds: seq<GroupDoc>)
    requires s.groups == [] && GroupsDone(s, r, ds)
    ensures SaveGroups(r.heap, r.groups) == ds
  {
  }

  /** Saving the store a load builds from a document in saved form gives
      the document back. */
  lemma BuiltSaves(s: Store, d: Document)
    requires Bounded(s.heap) && d.admin.Some? && GroupDocsOk(d.groups)
    ensures SaveData(BuiltData(s, d)) == d
  {
    var s0 := s.(publications := [], groups := [], staff := [], students := [],
                 admin := Some(LoadAdmin(d.admin.value)));
    StoreGroupsSaved(s0, d.groups);
    GroupsSave(s0, BuiltData(s, d), d.groups);
  }
}
