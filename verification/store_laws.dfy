/** Laws connecting the checked add and remove operations: an add that
    succeeds is undone by the matching remove, on the store's lists, on a
    group's member and seminar lists and on a staff member's own list. */
module StoreLaws {
  import opened Wrappers
  import opened Seqs
  import opened Time
  import opened Entities
  import opened Objects
  import opened DataStorage
  import ResearchGroup
  import AcademicStaff

  /** Removing a publication just added gives the store back. */
  lemma AddThenRemovePublication(s: Store, p: PubRef)
    requires p in s.heap.pubs
    requires forall i :: 0 <= i < |s.publications| ==> s.publications[i] in s.heap.pubs
    requires AddPublication(s, p).Ok?
    ensures RemovePublication(AddPublication(s, p).value, p) == Ok(s)
  {
    var q := AcademicStaff.EqualPublication(s.heap.pubs, s.heap.pubs[p]);
    AppendedIsFirst(s.publications, p, q);
  }

  /** Removing a staff member just added gives the store back. */
  lemma AddThenRemoveStaff(s: Store, m: MemberRef)
    requires m in s.heap.members && s.heap.members[m].Staff?
    requires forall i :: 0 <= i < |s.staff| ==> s.staff[i] in s.heap.members
    requires AddAcademicStaff(s, m).Ok?
    ensures RemoveAcademicStaff(AddAcademicStaff(s, m).value, m) == Ok(s)
  {
    var q := ResearchGroup.EqualMember(s.heap.members, s.heap.members[m]);
    AppendedIsFirst(s.staff, m, q);
  }

  /** Removing a student just added gives the store back. */
  lemma AddThenRemoveStudent(s: Store, m: MemberRef)
    requires m in s.heap.members && s.heap.members[m].Student?
    requires forall i :: 0 <= i < |s.students| ==> s.students[i] in s.heap.members
    requires AddResearchStudent(s, m).Ok?
    ensures RemoveResearchStudent(AddResearchStudent(s, m).value, m) == Ok(s)
  {
    var q := ResearchGroup.EqualMember(s.heap.members, s.heap.members[m]);
    AppendedIsFirst(s.students, m, q);
  }

  /** Removing a group just added gives the store back. */
  lemma AddThenRemoveGroup(s: Store, g: GroupRef)
    requires g in s.heap.groups
    requires AddResearchGroup(s, g).Ok?
    ensures RemoveResearchGroup(AddResearchGroup(s, g).value, g) == Ok(s)
  {
    var q := EqualGroup(s.heap.groups, s.heap.groups[g]);
    AppendedIsFirst(s.groups, g, q);
  }

  /** Unregistering a view just registered gives the store back. */
  lemma AddThenRemoveView(s: Store, v: ViewRef)
    requires AddView(s, v).Ok?
    ensures RemoveView(AddView(s, v).value, v) == Ok(s)
  {
    AppendedIsFirst(s.views, v, x => x == v);
  }

  /** Removing a member just added to a group gives the group back. */
  lemma AddThenRemoveMember(g: Group, members: map<MemberRef, Member>, m: MemberRef)
    requires m in members
    requires forall i :: 0 <= i < |g.members| ==> g.members[i] in members
    requires ResearchGroup.AddMember(g, members, m).Ok?
    ensures ResearchGroup.RemoveMemberAsWritten(ResearchGroup.AddMember(g, members, m).value, members, m) == Ok(g)
  {
    AppendedIsFirst(g.members, m, ResearchGroup.EqualMember(members, members[m]));
  }

  /** Removing a seminar just added gives the group back. */
  lemma AddThenRemoveSeminar(g: Group, x: Seminar, now: Instant)
    requires ResearchGroup.AddNewSeminar(g, x, now).Ok?
    ensures ResearchGroup.RemoveSeminar(ResearchGroup.AddNewSeminar(g, x, now).value, x) == Ok(g)
  {
    AppendedIsFirst(g.seminars, x, y => SameSeminar(y, x));
  }

  /** Removing a publication just added to a staff member's own list gives
      the member back. */
  lemma AddThenRemovePersonal(m: Member, pubs: map<PubRef, Publication>, p: PubRef)
    requires m.Staff? && p in pubs
    requires forall i :: 0 <= i < |m.publications| ==> m.publications[i] in pubs
    requires AcademicStaff.AddPublication(m, pubs, p).Ok?
    ensures AcademicStaff.RemovePublication(AcademicStaff.AddPublication(m, pubs, p).value, pubs, p) == Ok(m)
  {
    AppendedIsFirst(m.publications, p, AcademicStaff.EqualPublication(pubs, pubs[p]));
  }
}
