/** `SystemAdminController`: the administrator logs in, registers and
    removes staff members, research students and research groups, edits
    their details, and appoints seminar coordinators. Registration and
    removal loop over the store's group list; edits loop over the flat lists
    and compare each object with the target object's current state. */
module AdminController {
  import opened Wrappers
  import opened Seqs
  import opened Decimal
  import opened Entities
  import opened Objects
  import opened DataStorage
  import opened Sweeps
  import ResearchGroup

  /* ---------------- Login ---------------- */

  /** `login`: true exactly when both the email and the password are the
      administrator's. The store must hold an administrator. */
  function Login(s: Store, email: string, password: string): (ok: bool)
    requires s.admin.Some?
    ensures ok ==> s.admin.value.email == email
    ensures ok ==> s.admin.value.password == password
    ensures !ok ==> s.admin.value.email != email || s.admin.value.password != password
  {
    s.admin.value.email == email && s.admin.value.password == password
  }

  /* ---------------- The member lists by variant ---------------- */

  /** The store's flat list for members of `m`'s variant. */
  function ListOf(s: Store, m: Member): seq<MemberRef> {
    if m.Staff? then s.staff else s.students
  }

  /** The list an error about `m`'s variant names. */
  function ListKind(m: Member): Kind {
    if m.Staff? then StaffKind else StudentKind
  }

  /** The store with the flat list for `m`'s variant replaced. */
  function WithList(s: Store, m: Member, l: seq<MemberRef>): (r: Store)
    ensures ListOf(r, m) == l
    ensures r == (if m.Staff? then s.(staff := l) else s.(students := l))
  {
    if m.Staff? then s.(staff := l) else s.(students := l)
  }

  /** The handles on `m`'s list are allocated. */
  predicate ListAllocated(s: Store, m: Member) {
    forall i :: 0 <= i < |ListOf(s, m)| ==> ListOf(s, m)[i] in s.heap.members
  }

  /** `addAcademicStaff` or `addResearchStudent`, by `x`'s variant. */
  function AddToList(s: Store, x: MemberRef): (r: Result<Store, Error>)
    requires x in s.heap.members && ListAllocated(s, s.heap.members[x])
    ensures r.Err? <==> ResearchGroup.HasMember(s.heap.members, ListOf(s, s.heap.members[x]), s.heap.members[x])
    ensures r.Err? ==> r.error == Duplicate(ListKind(s.heap.members[x]))
    ensures r.Ok? ==> r.value == WithList(s, s.heap.members[x], ListOf(s, s.heap.members[x]) + [x])
  {
    if s.heap.members[x].Staff? then
      assert ListOf(s, s.heap.members[x]) == s.staff;
      AddAcademicStaff(s, x)
    else
      assert ListOf(s, s.heap.members[x]) == s.students;
      AddResearchStudent(s, x)
  }

  /** `removeAcademicStaff` or `removeResearchStudent`, by `x`'s variant. */
  function RemoveFromList(s: Store, x: MemberRef): (r: Result<Store, Error>)
    requires x in s.heap.members
    ensures r.Err? <==> !ResearchGroup.HasMember(s.heap.members, ListOf(s, s.heap.members[x]), s.heap.members[x])
    ensures r.Err? ==> r.error == NotFound(ListKind(s.heap.members[x]))
    ensures r.Ok? ==> r.value == WithList(s, s.heap.members[x],
                        RemoveFirst(ListOf(s, s.heap.members[x]), ResearchGroup.EqualMember(s.heap.members, s.heap.members[x])))
  {
    if s.heap.members[x].Staff? then RemoveAcademicStaff(s, x) else RemoveResearchStudent(s, x)
  }

  /* ---------------- Registering and removing members ---------------- */

  /** Selects the listed groups equal (same ID) to the group `m` names. */
  function GroupIs(s: Store, m: MemberRef): GroupRef -> bool
    requires m in s.heap.members && s.heap.members[m].group in s.heap.groups
  {
    EqualGroup(s.heap.groups, s.heap.groups[s.heap.members[m].group])
  }

  /** What registration and removal read is allocated: the member, the
      group it names, the listed groups, and every handle on the flat list
      for its variant. */
  predicate Registrable(s: Store, m: MemberRef) {
    && m in s.heap.members && s.heap.members[m].group in s.heap.groups
    && (forall i :: 0 <= i < |s.groups| ==> s.groups[i] in s.heap.groups)
    && ListAllocated(s, s.heap.members[m])
  }

  /** The handles on every group's member list are allocated. */
  predicate GroupMembersAllocated(s: Store) {
    forall g :: g in s.heap.groups ==>
      forall j :: 0 <= j < |s.heap.groups[g].members| ==> s.heap.groups[g].members[j] in s.heap.members
  }

  /** The store after `m` joins its flat list and the member list of
      group `g`. */
  function Joined(s: Store, m: MemberRef, g: GroupRef): Store
    requires m in s.heap.members && g in s.heap.groups
  {
    var grp := s.heap.groups[g];
    WithList(s, s.heap.members[m], ListOf(s, s.heap.members[m]) + [m])
      .(heap := s.heap.(groups := s.heap.groups[g := grp.(members := grp.members + [m])]))
  }

  /** The store after the first member equal to `m` leaves its flat list
      and the member list of group `g`; the group's coordinator field is
      left as it was, even when it names `m`. */
  function Left(s: Store, m: MemberRef, g: GroupRef): Store
    requires m in s.heap.members && g in s.heap.groups
  {
    var grp := s.heap.groups[g];
    var same := ResearchGroup.EqualMember(s.heap.members, s.heap.members[m]);
    WithList(s, s.heap.members[m], RemoveFirst(ListOf(s, s.heap.members[m]), same))
      .(heap := s.heap.(groups := s.heap.groups[g := grp.(members := RemoveFirst(grp.members, same))]))
  }

  /** Some listed group after index `k` satisfies `G`. */
  predicate MatchAfter(groups: seq<GroupRef>, G: GroupRef -> bool, k: nat) {
    exists j :: k < j < |groups| && G(groups[j])
  }

  /** No two listed groups satisfy `G`. */
  predicate AtMostOneMatch(groups: seq<GroupRef>, G: GroupRef -> bool) {
    forall i, j :: 0 <= i < j < |groups| && G(groups[i]) ==> !G(groups[j])
  }

  /** `m` joins its flat list and then group `g`; each refuses a member
      equal to one it already holds, and a refusal by the group comes after
      the flat list has taken `m`. */
  function JoinGroup(s: Store, m: MemberRef, g: GroupRef): Outcome
    requires m in s.heap.members && g in s.heap.groups
  {
    var mm := s.heap.members[m];
    if ResearchGroup.HasMember(s.heap.members, ListOf(s, mm), mm) then Outcome(s, Some(Duplicate(ListKind(mm))))
    else if ResearchGroup.HasMember(s.heap.members, s.heap.groups[g].members, mm) then
      Outcome(WithList(s, mm, ListOf(s, mm) + [m]), Some(Duplicate(MemberKind)))
    else Outcome(Joined(s, m, g), None)
  }

  /** The first member equal to `m` leaves its flat list and then group
      `g`; each fails when it holds no such member, and a failure by the
      group comes after the flat list has lost it. */
  function LeaveGroup(s: Store, m: MemberRef, g: GroupRef): Outcome
    requires m in s.heap.members && g in s.heap.groups
  {
    var mm := s.heap.members[m];
    if !ResearchGroup.HasMember(s.heap.members, ListOf(s, mm), mm) then Outcome(s, Some(NotFound(ListKind(mm))))
    else if !ResearchGroup.HasMember(s.heap.members, s.heap.groups[g].members, mm) then
      Outcome(WithList(s, mm, RemoveFirst(ListOf(s, mm), ResearchGroup.EqualMember(s.heap.members, mm))), Some(NotFound(MemberKind)))
    else Outcome(Left(s, m, g), None)
  }

  /** The two calls one matching group makes when registering `m`: the
      store's add for `m`'s variant, then the group's `addMember`. */
  method Join(s: Store, m: MemberRef, g: GroupRef) returns (r: Outcome)
    requires m in s.heap.members && g in s.heap.groups && ListAllocated(s, s.heap.members[m])
    requires forall j :: 0 <= j < |s.heap.groups[g].members| ==> s.heap.groups[g].members[j] in s.heap.members
    ensures r == JoinGroup(s, m, g)
  {
    var added := AddToList(s, m);
    if added.Err? {
      return Outcome(s, Some(added.error));
    }
    var s1 := added.value;
    var joined := ResearchGroup.AddMember(s1.heap.groups[g], s1.heap.members, m);
    if joined.Err? {
      return Outcome(s1, Some(joined.error));
    }
    return Outcome(s1.(heap := s1.heap.(groups := s1.heap.groups[g := joined.value])), None);
  }

  /** The two calls one matching group makes when removing `m`: the
      store's remove for `m`'s variant, then the group's `removeMember`. */
  method Leave(s: Store, m: MemberRef, g: GroupRef) returns (r: Outcome)
    requires m in s.heap.members && g in s.heap.groups
    ensures r == LeaveGroup(s, m, g)
  {
    var dropped := RemoveFromList(s, m);
    if dropped.Err? {
      return Outcome(s, Some(dropped.error));
    }
    var s1 := dropped.value;
    var left := ResearchGroup.RemoveMemberAsWritten(s1.heap.groups[g], s1.heap.members, m);
    if left.Err? {
      return Outcome(s1, Some(left.error));
    }
    var same := ResearchGroup.EqualMember(s.heap.members, s.heap.members[m]);
    assert left.value.members == RemoveFirst(s.heap.groups[g].members, same) by {
      var i := FirstIndex(s.heap.groups[g].members, same).value;
      assert IsFirst(s.heap.groups[g].members, same, i);
    }
    return Outcome(s1.(heap := s1.heap.(groups := s1.heap.groups[g := left.value])), None);
  }

  /** What registering `m` leaves behind: nothing changes when no listed
      group has the ID of `m`'s group; otherwise `m` joins the first such
      group, and once it has, a later group with the same ID makes the
      store's list refuse `m` as a duplicate. */
  function Registration(s: Store, m: MemberRef): Outcome
    requires Registrable(s, m) && GroupMembersAllocated(s)
  {
    match FirstIndex(s.groups, GroupIs(s, m))
    case None => Outcome(s, Some(GroupNotListed))
    case Some(k) =>
      var o := JoinGroup(s, m, s.groups[k]);
      if o.error.Some? then o
      else Outcome(o.store, if MatchAfter(s.groups, GroupIs(s, m), k) then Some(Duplicate(ListKind(s.heap.members[m]))) else None)
  }

  /** What removing `m` leaves behind when at most one listed group has
      the ID of `m`'s group: nothing changes when none has; otherwise the
      first member equal to `m` leaves the store's list and that group. */
  function Removal(s: Store, m: MemberRef): Outcome
    requires Registrable(s, m)
  {
    match FirstIndex(s.groups, GroupIs(s, m))
    case None => Outcome(s, Some(GroupNotListed))
    case Some(k) => LeaveGroup(s, m, s.groups[k])
  }

  /** Registration case by case: refused with no group of `m`'s ID; with
      one, the first such group decides through `JoinGroup`, and a later
      group with the same ID turns a successful join into a duplicate
      refusal by the store's list. */
  lemma RegistrationCases(s: Store, m: MemberRef, k: nat)
    requires Registrable(s, m) && GroupMembersAllocated(s)
    ensures !Exists(s.groups, GroupIs(s, m)) ==> Registration(s, m) == Outcome(s, Some(GroupNotListed))
    ensures IsFirst(s.groups, GroupIs(s, m), k) ==>
              Registration(s, m) ==
                if JoinGroup(s, m, s.groups[k]).error.Some? then JoinGroup(s, m, s.groups[k])
                else Outcome(Joined(s, m, s.groups[k]),
                             if MatchAfter(s.groups, GroupIs(s, m), k) then Some(Duplicate(ListKind(s.heap.members[m]))) else None)
  {
    if IsFirst(s.groups, GroupIs(s, m), k) {
      FirstIndexOf(s.groups, GroupIs(s, m), k);
    }
  }

  /** Removal case by case: refused with no group of `m`'s ID; otherwise
      the first such group decides through `LeaveGroup`. */
  lemma RemovalCases(s: Store, m: MemberRef, k: nat)
    requires Registrable(s, m)
    ensures !Exists(s.groups, GroupIs(s, m)) ==> Removal(s, m) == Outcome(s, Some(GroupNotListed))
    ensures IsFirst(s.groups, GroupIs(s, m), k) ==> Removal(s, m) == LeaveGroup(s, m, s.groups[k])
  {
    if IsFirst(s.groups, GroupIs(s, m), k) {
      FirstIndexOf(s.groups, GroupIs(s, m), k);
    }
  }

  /** `registerStaffMember` and `registerResearchStudent`: for each listed
      group with the ID of `m`'s group, add `m` to the store's list for its
      variant and then to that group, stopping at the first refusal;
      refuse when no group matched. */
  method RegisterMember(s: Store, m: MemberRef) returns (r: Outcome)
    requires Registrable(s, m) && GroupMembersAllocated(s)
    ensures r == Registration(s, m)
  {
    ghost var mm := s.heap.members[m];
    ghost var G := GroupIs(s, m);
    var cur := s;
    var registered := false;
    ghost var first: nat := 0;
    for i := 0 to |s.groups|
      invariant !registered ==> cur == s && forall j :: 0 <= j < i ==> !G(s.groups[j])
      invariant registered ==>
                  && first < i && IsFirst(s.groups, G, first)
                  && JoinGroup(s, m, s.groups[first]).error.None?
                  && cur == Joined(s, m, s.groups[first])
                  && forall j :: first < j < i ==> !G(s.groups[j])
    {
      var g := s.groups[i];
      if registered {
        JoinedFrame(s, m, s.groups[first]);
      }
      if SameGroup(cur.heap.groups[g], cur.heap.groups[cur.heap.members[m].group]) {
        assert G(g);
        if registered {
          RegisteredAgain(s, m, first, i);
        }
        var joined := Join(cur, m, g);
        if joined.error.Some? {
          RegistrationCases(s, m, if registered then first else i);
          return joined;
        }
        cur := joined.store;
        registered := true;
        first := i;
      } else {
        assert !G(g);
      }
    }
    RegistrationCases(s, m, first);
    if !registered {
      return Outcome(s, Some(GroupNotListed));
    }
    return Outcome(cur, None);
  }

  /** Joining changes only the flat list and one group's member list, and
      keeps every handle allocated. */
  lemma JoinedFrame(s: Store, m: MemberRef, g: GroupRef)
    requires m in s.heap.members && g in s.heap.groups
    requires GroupMembersAllocated(s) && ListAllocated(s, s.heap.members[m])
    ensures Joined(s, m, g).heap.members == s.heap.members && Joined(s, m, g).heap.groups.Keys == s.heap.groups.Keys
    ensures forall x :: x in s.heap.groups ==> Joined(s, m, g).heap.groups[x].groupID == s.heap.groups[x].groupID
    ensures GroupMembersAllocated(Joined(s, m, g)) && ListAllocated(Joined(s, m, g), s.heap.members[m])
  {
    var j := Joined(s, m, g);
    var mm := s.heap.members[m];
    assert ListOf(j, mm) == ListOf(s, mm) + [m];
  }

  /** Once `m` has joined the group at `first`, a later group at `i` with
      the same ID finds `m` on the store's list already. */
  lemma RegisteredAgain(s: Store, m: MemberRef, first: nat, i: nat)
    requires Registrable(s, m) && GroupMembersAllocated(s)
    requires IsFirst(s.groups, GroupIs(s, m), first) && first < i < |s.groups| && GroupIs(s, m)(s.groups[i])
    requires JoinGroup(s, m, s.groups[first]).error.None?
    ensures MatchAfter(s.groups, GroupIs(s, m), first)
    ensures JoinGroup(Joined(s, m, s.groups[first]), m, s.groups[i]) ==
              Outcome(Joined(s, m, s.groups[first]), Some(Duplicate(ListKind(s.heap.members[m]))))
  {
    var mm := s.heap.members[m];
    var cur := Joined(s, m, s.groups[first]);
    assert ListOf(cur, mm)[|ListOf(s, mm)|] == m;
    assert ResearchGroup.HasMember(cur.heap.members, ListOf(cur, mm), mm);
  }

  /** Leaving changes only the flat list and one group's member list. */
  lemma LeaveGroupFrame(s: Store, m: MemberRef, g: GroupRef)
    requires m in s.heap.members && g in s.heap.groups
    ensures LeaveGroup(s, m, g).store.heap.members == s.heap.members
    ensures LeaveGroup(s, m, g).store.heap.groups.Keys == s.heap.groups.Keys
    ensures forall x :: x in s.heap.groups ==> LeaveGroup(s, m, g).store.heap.groups[x].groupID == s.heap.groups[x].groupID
  {
  }

  /** `removeStaffMember` and `removeResearchStudent`: for each listed
      group with the ID of `m`'s group, remove the first member equal to
      `m` from the store's list for its variant and then from that group,
      stopping at the first refusal; refuse when no group matched. */
  method RemoveMember(s: Store, m: MemberRef) returns (r: Outcome)
    requires Registrable(s, m)
    ensures AtMostOneMatch(s.groups, GroupIs(s, m)) ==> r == Removal(s, m)
  {
    ghost var G := GroupIs(s, m);
    var cur := s;
    var removed := false;
    ghost var first: nat := 0;
    for i := 0 to |s.groups|
      invariant cur.heap.members == s.heap.members && cur.heap.groups.Keys == s.heap.groups.Keys
      invariant forall x :: x in s.heap.groups ==> cur.heap.groups[x].groupID == s.heap.groups[x].groupID
      invariant !removed ==> cur == s && forall j :: 0 <= j < i ==> !G(s.groups[j])
      invariant removed ==> first < i && IsFirst(s.groups, G, first) && G(s.groups[first])
      invariant removed && AtMostOneMatch(s.groups, G) ==>
                  LeaveGroup(s, m, s.groups[first]) == Outcome(cur, None) && forall j :: first < j < i ==> !G(s.groups[j])
    {
      var g := s.groups[i];
      if SameGroup(cur.heap.groups[g], cur.heap.groups[cur.heap.members[m].group]) {
        assert G(g);
        var left := Leave(cur, m, g);
        if left.error.Some? {
          RemovalCases(s, m, i);
          return left;
        }
        LeaveGroupFrame(cur, m, g);
        cur := left.store;
        if !removed {
          first := i;
        }
        removed := true;
      }
    }
    RemovalCases(s, m, first);
    if !removed {
      return Outcome(s, Some(GroupNotListed));
    }
    return Outcome(cur, None);
  }

  /** `WithList` over a store with another heap. */
  lemma WithListLaws(s: Store, mm: Member, a: seq<MemberRef>, b: seq<MemberRef>, h: Heap)
    ensures WithList(WithList(s, mm, a).(heap := h), mm, b) == WithList(s, mm, b).(heap := h)
    ensures WithList(s, mm, ListOf(s, mm)) == s
    ensures WithList(s, mm, a).heap == s.heap
  {
  }

  /** Removing a member just registered with group `g` gives the store
      back: both lists lose the handle the registration appended. */
  lemma JoinedThenLeft(s: Store, m: MemberRef, g: GroupRef)
    requires m in s.heap.members && g in s.heap.groups && ListAllocated(s, s.heap.members[m])
    requires !ResearchGroup.HasMember(s.heap.members, ListOf(s, s.heap.members[m]), s.heap.members[m])
    requires !ResearchGroup.HasMember(s.heap.members, s.heap.groups[g].members, s.heap.members[m])
    ensures Left(Joined(s, m, g), m, g) == s
  {
    var mm := s.heap.members[m];
    var same := ResearchGroup.EqualMember(s.heap.members, mm);
    var grp := s.heap.groups[g];
    var L := ListOf(s, mm);
    var h1 := s.heap.(groups := s.heap.groups[g := grp.(members := grp.members + [m])]);
    var j := Joined(s, m, g);
    WithListLaws(s, mm, L + [m], L, h1);
    assert j == WithList(s, mm, L + [m]).(heap := h1);
    assert j.heap == h1 && ListOf(j, mm) == L + [m];
    AppendedIsFirst(L, m, same);
    AppendedIsFirst(grp.members, m, same);
    assert RemoveFirst(ListOf(j, mm), same) == L;
    assert RemoveFirst(h1.groups[g].members, same) == grp.members;
    assert h1.groups[g := grp] == s.heap.groups;
    WithListLaws(s, mm, L, L, s.heap);
  }

  /** After `m` joins group `g`, the listed groups matching `m`'s group are
      the same, and both lists now hold `m`, so the removal of `m` meets
      no refusal. */
  lemma JoinedMatches(s: Store, m: MemberRef, g: GroupRef)
    requires Registrable(s, m) && GroupMembersAllocated(s) && g in s.heap.groups
    ensures Joined(s, m, g).groups == s.groups && Registrable(Joined(s, m, g), m)
    ensures forall i :: 0 <= i < |s.groups| ==> GroupIs(Joined(s, m, g), m)(s.groups[i]) == GroupIs(s, m)(s.groups[i])
    ensures LeaveGroup(Joined(s, m, g), m, g) == Outcome(Left(Joined(s, m, g), m, g), None)
  {
    var mm := s.heap.members[m];
    var j := Joined(s, m, g);
    JoinedFrame(s, m, g);
    assert ListOf(j, mm)[|ListOf(s, mm)|] == m;
    assert j.heap.groups[g].members[|s.heap.groups[g].members|] == m;
  }

  /** A registration that succeeds is undone by the removal of the same
      member: the store comes back as it was. */
  lemma RegisterThenRemove(s: Store, m: MemberRef)
    requires Registrable(s, m) && GroupMembersAllocated(s)
    requires Registration(s, m).error == None
    ensures Registrable(Registration(s, m).store, m)
    ensures Removal(Registration(s, m).store, m) == Outcome(s, None)
  {
    var k := FirstIndex(s.groups, GroupIs(s, m)).value;
    var g := s.groups[k];
    RegistrationCases(s, m, k);
    var j := Joined(s, m, g);
    assert Registration(s, m).store == j;
    JoinedMatches(s, m, g);
    assert IsFirst(j.groups, GroupIs(j, m), k);
    RemovalCases(j, m, k);
    JoinedThenLeft(s, m, g);
  }

  /* ---------------- Editing details ---------------- */

  /** The setters `editStaffDetails` calls. */
  function StaffEdit(name: string, title: string, email: string, password: string): Member -> Member {
    (a: Member) => if a.Staff? then a.(name := name, title := title, email := email, password := password) else a
  }

  /** The setters `editStudentDetails` calls. */
  function StudentEdit(name: string, title: string, email: string, studentID: string): Member -> Member {
    (a: Member) => if a.Student? then a.(name := name, title := title, email := email, studentID := studentID) else a
  }

  /** The setters `editResearchGroup` calls. */
  function GroupEdit(name: string, groupID: Int32): Group -> Group {
    (g: Group) => g.(name := name, groupID := groupID)
  }

  /** Every handle on the list is allocated. */
  predicate Allocated<T>(objs: map<nat, T>, refs: seq<nat>) {
    forall i :: 0 <= i < |refs| ==> refs[i] in objs
  }

  /** `editStaffDetails` (and, with `students` and `StudentEdit`,
      `editStudentDetails`): the sweep over the staff list that sets the
      name, title, email and password of each member equal to `t`'s current
      state. Fails, changing nothing, when no listed member equals `t`. */
  method EditStaffDetails(s: Store, t: MemberRef, name: string, title: string, email: string, password: string)
    returns (r: Outcome)
    requires Allocated(s.heap.members, s.staff) && t in s.heap.members && s.heap.members[t].Staff?
    ensures r.error.Some? <==> !ResearchGroup.HasMember(s.heap.members, s.staff, s.heap.members[t])
    ensures r.error.Some? ==> r == Outcome(s, Some(NotFound(StaffKind)))
    ensures r.store == s.(heap := s.heap.(members := r.store.heap.members))
    ensures r.store.heap.members.Keys == s.heap.members.Keys
    ensures forall x :: x in s.heap.members ==>
              r.store.heap.members[x] ==
                if Swept(s.heap.members, s.staff, t, SameMember, StaffEdit(name, title, email, password), x)
                then StaffEdit(name, title, email, password)(s.heap.members[x])
                else s.heap.members[x]
  {
    var members, found := EditSweep(s.heap.members, s.staff, t, SameMember, StaffEdit(name, title, email, password));
    if !found {
      return Outcome(s, Some(NotFound(StaffKind)));
    }
    return Outcome(s.(heap := s.heap.(members := members)), None);
  }

  /** `editStudentDetails`: as `EditStaffDetails`, over the student list,
      setting the name, title, email and student ID. */
  method EditStudentDetails(s: Store, t: MemberRef, name: string, title: string, email: string, studentID: string)
    returns (r: Outcome)
    requires Allocated(s.heap.members, s.students) && t in s.heap.members && s.heap.members[t].Student?
    ensures r.error.Some? <==> !ResearchGroup.HasMember(s.heap.members, s.students, s.heap.members[t])
    ensures r.error.Some? ==> r == Outcome(s, Some(NotFound(StudentKind)))
    ensures r.store == s.(heap := s.heap.(members := r.store.heap.members))
    ensures r.store.heap.members.Keys == s.heap.members.Keys
    ensures forall x :: x in s.heap.members ==>
              r.store.heap.members[x] ==
                if Swept(s.heap.members, s.students, t, SameMember, StudentEdit(name, title, email, studentID), x)
                then StudentEdit(name, title, email, studentID)(s.heap.members[x])
                else s.heap.members[x]
  {
    var members, found := EditSweep(s.heap.members, s.students, t, SameMember, StudentEdit(name, title, email, studentID));
    if !found {
      return Outcome(s, Some(NotFound(StudentKind)));
    }
    return Outcome(s.(heap := s.heap.(members := members)), None);
  }

  /** `editResearchGroup`: the sweep over the group list that sets the name
      and ID of each group with the ID `t` currently has. IDs are not
      checked for clashes. Fails, changing nothing, when no listed group
      has that ID. */
  method EditResearchGroup(s: Store, t: GroupRef, name: string, groupID: Int32) returns (r: Outcome)
    requires Allocated(s.heap.groups, s.groups) && t in s.heap.groups
    ensures r.error.Some? <==> !HasGroup(s, s.heap.groups[t])
    ensures r.error.Some? ==> r == Outcome(s, Some(NotFound(GroupKind)))
    ensures r.store == s.(heap := s.heap.(groups := r.store.heap.groups))
    ensures r.store.heap.groups.Keys == s.heap.groups.Keys
    ensures forall x :: x in s.heap.groups ==>
              r.store.heap.groups[x] ==
                if Swept(s.heap.groups, s.groups, t, SameGroup, GroupEdit(name, groupID), x)
                then GroupEdit(name, groupID)(s.heap.groups[x])
                else s.heap.groups[x]
  {
    var groups, found := EditSweep(s.heap.groups, s.groups, t, SameGroup, GroupEdit(name, groupID));
    if !found {
      return Outcome(s, Some(NotFound(GroupKind)));
    }
    return Outcome(s.(heap := s.heap.(groups := groups)), None);
  }

  /** Members that keep their variant, group and publications keep every
      handle they hold allocated, in a heap with the same handles. */
  lemma MembersStayClosed(h: Heap, h2: Heap)
    requires h2.pubs == h.pubs && h2.members.Keys == h.members.Keys && h2.groups.Keys == h.groups.Keys
    requires forall x :: x in h.members ==> MemberClosed(h, h.members[x])
    requires forall x :: x in h2.members ==> h2.members[x].Staff? == h.members[x].Staff? && h2.members[x].group == h.members[x].group
    requires forall x :: x in h2.members && h2.members[x].Staff? ==> h2.members[x].publications == h.members[x].publications
    ensures forall x :: x in h2.members ==> MemberClosed(h2, h2.members[x])
  {
    forall x | x in h2.members ensures MemberClosed(h2, h2.members[x]) {
      assert MemberClosed(h, h.members[x]);
    }
  }

  /** Groups that keep their members and coordinator keep every handle
      they hold allocated, with members that keep their variant. */
  lemma GroupsStayClosed(h: Heap, h2: Heap)
    requires h2.members.Keys == h.members.Keys && h2.groups.Keys == h.groups.Keys
    requires forall x :: x in h.groups ==> GroupClosed(h, h.groups[x])
    requires forall x :: x in h2.members ==> h2.members[x].Staff? == h.members[x].Staff?
    requires forall x :: x in h2.groups ==> h2.groups[x].members == h.groups[x].members && h2.groups[x].coordinator == h.groups[x].coordinator
    ensures forall x :: x in h2.groups ==> GroupClosed(h2, h2.groups[x])
  {
    forall x | x in h2.groups ensures GroupClosed(h2, h2.groups[x]) {
      assert GroupClosed(h, h.groups[x]);
    }
  }

  /** The edits keep the store well formed: members keep their variant,
      group and publications, and groups keep their members and
      coordinator. */
  lemma EditsKeepValid(s: Store, members: map<MemberRef, Member>, groups: map<GroupRef, Group>)
    requires DataStorage.Valid(s)
    requires members.Keys == s.heap.members.Keys && groups.Keys == s.heap.groups.Keys
    requires forall x :: x in members ==> members[x].Staff? == s.heap.members[x].Staff? && members[x].group == s.heap.members[x].group
    requires forall x :: x in members && members[x].Staff? ==> members[x].publications == s.heap.members[x].publications
    requires forall x :: x in groups ==> groups[x].members == s.heap.groups[x].members && groups[x].coordinator == s.heap.groups[x].coordinator
    ensures DataStorage.Valid(s.(heap := s.heap.(members := members, groups := groups)))
  {
    var h := s.heap.(members := members, groups := groups);
    MembersStayClosed(s.heap, h);
    GroupsStayClosed(s.heap, h);
  }

  /* ---------------- Appointing a seminar coordinator ---------------- */

  /** Selects the listed staff handles equal to `t` whose group is `g`. */
  function Appoints(members: map<MemberRef, Member>, t: Member, g: GroupRef): MemberRef -> bool {
    x => x in members && SameMember(members[x], t) && members[x].group == g
  }

  /** Group `grp` with the last listed member selected by `p`, if any, as
      its coordinator. */
  function Appointed(grp: Group, refs: seq<MemberRef>, p: MemberRef -> bool): Group {
    match LastIndex(refs, p)
    case None => grp
    case Some(k) => grp.(coordinator := Some(refs[k]))
  }

  /** The staff handles the sweep over `refs` visits are allocated staff
      members naming allocated groups. */
  predicate SweepTyped(members: map<MemberRef, Member>, groups: map<GroupRef, Group>, refs: seq<MemberRef>) {
    forall i :: 0 <= i < |refs| ==> refs[i] in members && members[refs[i]].Staff? && members[refs[i]].group in groups
  }

  /** `ms` holds the flags the sweep has set after visiting `refs`. */
  predicate FlagsSet(members: map<MemberRef, Member>, ms: map<MemberRef, Member>, refs: seq<MemberRef>, t: Member)
    requires forall i :: 0 <= i < |refs| ==> refs[i] in members && members[refs[i]].Staff?
  {
    && ms.Keys == members.Keys
    && forall x :: x in members ==>
         ms[x] == if x in refs && SameMember(members[x], t) then members[x].(isCoordinator := true) else members[x]
  }

  /** One more member visited: its flag is set when it equals `t`. */
  lemma FlagStep(members: map<MemberRef, Member>, groups: map<GroupRef, Group>, ms: map<MemberRef, Member>,
                 refs: seq<MemberRef>, t: Member, i: nat)
    requires SweepTyped(members, groups, refs) && i < |refs|
    requires FlagsSet(members, ms, refs[..i], t)
    ensures FlagsSet(members, if SameMember(members[refs[i]], t) then ms[refs[i] := ms[refs[i]].(isCoordinator := true)] else ms,
                     refs[..i + 1], t)
  {
    PrefixStep(refs, i);
  }

  /** `gs` holds the coordinators the sweep has named after visiting
      `refs`. */
  predicate CoordinatorsSet(members: map<MemberRef, Member>, groups: map<GroupRef, Group>, gs: map<GroupRef, Group>,
                            refs: seq<MemberRef>, t: Member)
  {
    && gs.Keys == groups.Keys
    && forall g :: g in groups ==> gs[g] == Appointed(groups[g], refs, Appoints(members, t, g))
  }

  /** One more member visited: when it equals `t` it becomes the
      coordinator of the group it names, and of no other. */
  lemma CoordinatorStep(members: map<MemberRef, Member>, groups: map<GroupRef, Group>, gs: map<GroupRef, Group>,
                        refs: seq<MemberRef>, t: Member, i: nat)
    requires SweepTyped(members, groups, refs) && i < |refs|
    requires CoordinatorsSet(members, groups, gs, refs[..i], t)
    ensures var a := refs[i];
            var g := members[a].group;
            CoordinatorsSet(members, groups, if SameMember(members[a], t) then gs[g := gs[g].(coordinator := Some(a))] else gs,
                            refs[..i + 1], t)
  {
    forall g | g in groups
      ensures LastIndex(refs[..i + 1], Appoints(members, t, g)) ==
                if Appoints(members, t, g)(refs[i]) then Some(i) else LastIndex(refs[..i], Appoints(members, t, g))
    {
      LastIndexStep(refs, Appoints(members, t, g), i);
    }
  }

  /** What the coordinator sweep leaves behind: the member objects, the
      group objects, and whether any visited member equalled the target. */
  datatype Appointment = Appointment(members: map<MemberRef, Member>, groups: map<GroupRef, Group>, found: bool)

  /** The coordinator sweep over `refs`, one visit at a time: a visited
      member equal to `t` gets its flag set and becomes the coordinator of
      the group it names. */
  function Appoint(members: map<MemberRef, Member>, groups: map<GroupRef, Group>, refs: seq<MemberRef>, t: Member): (r: Appointment)
    requires SweepTyped(members, groups, refs)
    ensures r.members.Keys == members.Keys && r.groups.Keys == groups.Keys
    ensures forall x :: x in members ==>
              r.members[x] == members[x] || (members[x].Staff? && r.members[x] == members[x].(isCoordinator := true))
    decreases |refs|
  {
    if |refs| == 0 then Appointment(members, groups, false)
    else
      var n := |refs| - 1;
      assert SweepTyped(members, groups, refs[..n]) by {
        assert forall i :: 0 <= i < n ==> refs[..n][i] == refs[i];
      }
      var prev := Appoint(members, groups, refs[..n], t);
      var a := refs[n];
      if SameMember(members[a], t) then
        var g := members[a].group;
        Appointment(prev.members[a := prev.members[a].(isCoordinator := true)],
                    prev.groups[g := prev.groups[g].(coordinator := Some(a))], true)
      else prev
  }

  /** The sweep sets exactly the flags of the visited members equal to
      `t`. */
  lemma {:induction false} AppointFlags(members: map<MemberRef, Member>, groups: map<GroupRef, Group>, refs: seq<MemberRef>, t: Member)
    requires SweepTyped(members, groups, refs)
    ensures FlagsSet(members, Appoint(members, groups, refs, t).members, refs, t)
    decreases |refs|
  {
    if |refs| > 0 {
      var n := |refs| - 1;
      assert refs[..n + 1] == refs;
      assert SweepTyped(members, groups, refs[..n]) by {
        assert forall i :: 0 <= i < n ==> refs[..n][i] == refs[i];
      }
      AppointFlags(members, groups, refs[..n], t);
      var prev := Appoint(members, groups, refs[..n], t).members;
      var a := refs[n];
      assert Appoint(members, groups, refs, t).members ==
               if SameMember(members[a], t) then prev[a := prev[a].(isCoordinator := true)] else prev;
      FlagStep(members, groups, prev, refs, t, n);
    }
  }

  /** The sweep makes each group's coordinator the last visited member
      equal to `t` that names it, and leaves the other groups alone. */
  lemma {:induction false} AppointCoordinators(members: map<MemberRef, Member>, groups: map<GroupRef, Group>, refs: seq<MemberRef>, t: Member)
    requires SweepTyped(members, groups, refs)
    ensures CoordinatorsSet(members, groups, Appoint(members, groups, refs, t).groups, refs, t)
    decreases |refs|
  {
    if |refs| > 0 {
      var n := |refs| - 1;
      assert refs[..n + 1] == refs;
      assert SweepTyped(members, groups, refs[..n]) by {
        assert forall i :: 0 <= i < n ==> refs[..n][i] == refs[i];
      }
      AppointCoordinators(members, groups, refs[..n], t);
      var prev := Appoint(members, groups, refs[..n], t).groups;
      var a := refs[n];
      var g := members[a].group;
      assert Appoint(members, groups, refs, t).groups ==
               if SameMember(members[a], t) then prev[g := prev[g].(coordinator := Some(a))] else prev;
      CoordinatorStep(members, groups, prev, refs, t, n);
    }
  }

  /** The sweep reports whether any visited member equalled `t`. */
  lemma {:induction false} AppointFound(members: map<MemberRef, Member>, groups: map<GroupRef, Group>, refs: seq<MemberRef>, t: Member)
    requires SweepTyped(members, groups, refs)
    ensures Appoint(members, groups, refs, t).found <==> exists i :: 0 <= i < |refs| && SameMember(members[refs[i]], t)
    decreases |refs|
  {
    if |refs| > 0 {
      var n := |refs| - 1;
      assert SweepTyped(members, groups, refs[..n]) by {
        assert forall i :: 0 <= i < n ==> refs[..n][i] == refs[i];
      }
      AppointFound(members, groups, refs[..n], t);
      assert forall i :: 0 <= i < n ==> refs[..n][i] == refs[i];
    }
  }

  /** The coordinator `Appointed` names is the last member `p` selects;
      with none, the group is left alone. */
  lemma AppointedLast(grp: Group, refs: seq<MemberRef>, p: MemberRef -> bool)
    ensures !Exists(refs, p) ==> Appointed(grp, refs, p) == grp
    ensures forall i: nat :: IsLast(refs, p, i) ==> Appointed(grp, refs, p) == grp.(coordinator := Some(refs[i]))
  {
  }

  /** The loop of `makeSeminarCoordinator`, over the member and group
      objects: each listed member equal to `t` gets its coordinator flag set
      and becomes the coordinator of the group it names, so a group with
      several such members ends up with the last of them. Nobody's flag is
      cleared. */
  method CoordinatorSweep(members: map<MemberRef, Member>, groups: map<GroupRef, Group>, refs: seq<MemberRef>, t: MemberRef)
    returns (ms: map<MemberRef, Member>, gs: map<GroupRef, Group>, found: bool)
    requires SweepTyped(members, groups, refs)
    requires t in members && members[t].Staff?
    ensures ms.Keys == members.Keys && gs.Keys == groups.Keys
    ensures found <==> exists i :: 0 <= i < |refs| && SameMember(members[refs[i]], members[t])
    ensures forall x :: x in members ==>
              ms[x] == if x in refs && SameMember(members[x], members[t]) then members[x].(isCoordinator := true) else members[x]
    ensures forall g :: g in groups ==> gs[g] == Appointed(groups[g], refs, Appoints(members, members[t], g))
  {
    ms := members;
    gs := groups;
    found := false;
    for i := 0 to |refs|
      invariant SweepTyped(members, groups, refs[..i])
      invariant Appointment(ms, gs, found) == Appoint(members, groups, refs[..i], members[t])
    {
      var a := refs[i];
      assert refs[..i + 1][..i] == refs[..i] && refs[..i + 1][i] == a;
      assert SweepTyped(members, groups, refs[..i + 1]);
      assert SameMember(ms[a], ms[t]) == SameMember(members[a], members[t]) by {
        assert ms[a].email == members[a].email && ms[a].password == members[a].password;
        assert ms[t].email == members[t].email && ms[t].password == members[t].password;
      }
      if SameMember(ms[a], ms[t]) {
        // setCoordinator(true) names `a` in its group, then sets the flag;
        // the loop then names `a` in the same group once more
        var g := ms[a].group;
        var once := gs[g := gs[g].(coordinator := Some(a))];
        gs := once;
        ms := ms[a := ms[a].(isCoordinator := true)];
        gs := gs[g := gs[g].(coordinator := Some(a))];
        assert gs == once;
        found := true;
      }
    }
    assert refs[..|refs|] == refs;
    AppointFlags(members, groups, refs, members[t]);
    AppointCoordinators(members, groups, refs, members[t]);
    AppointFound(members, groups, refs, members[t]);
  }

  /** `makeSeminarCoordinator`: the coordinator sweep over the staff list;
      fails, changing nothing, when no listed member equals `t`. */
  method MakeSeminarCoordinator(s: Store, t: MemberRef) returns (r: Outcome)
    requires t in s.heap.members && s.heap.members[t].Staff?
    requires SweepTyped(s.heap.members, s.heap.groups, s.staff)
    ensures r.error.Some? <==> !ResearchGroup.HasMember(s.heap.members, s.staff, s.heap.members[t])
    ensures r.error.Some? ==> r == Outcome(s, Some(NotFound(StaffKind)))
    ensures r.store == s.(heap := s.heap.(members := r.store.heap.members, groups := r.store.heap.groups))
    ensures r.store.heap.members.Keys == s.heap.members.Keys && r.store.heap.groups.Keys == s.heap.groups.Keys
    ensures r.error.None? ==> forall x :: x in s.heap.members ==>
              r.store.heap.members[x] ==
                if x in s.staff && SameMember(s.heap.members[x], s.heap.members[t])
                then s.heap.members[x].(isCoordinator := true) else s.heap.members[x]
    ensures r.error.None? ==> forall g, i: nat :: g in s.heap.groups && IsLast(s.staff, Appoints(s.heap.members, s.heap.members[t], g), i) ==>
              r.store.heap.groups[g] == s.heap.groups[g].(coordinator := Some(s.staff[i]))
    ensures forall g :: g in s.heap.groups && !Exists(s.staff, Appoints(s.heap.members, s.heap.members[t], g)) ==>
              r.store.heap.groups[g] == s.heap.groups[g]
  {
    var members, groups, found := CoordinatorSweep(s.heap.members, s.heap.groups, s.staff, t);
    forall g | g in s.heap.groups
      ensures !Exists(s.staff, Appoints(s.heap.members, s.heap.members[t], g)) ==> groups[g] == s.heap.groups[g]
      ensures forall i: nat :: IsLast(s.staff, Appoints(s.heap.members, s.heap.members[t], g), i) ==>
                groups[g] == s.heap.groups[g].(coordinator := Some(s.staff[i]))
    {
      AppointedLast(s.heap.groups[g], s.staff, Appoints(s.heap.members, s.heap.members[t], g));
    }
    if !found {
      return Outcome(s, Some(NotFound(StaffKind)));
    }
    return Outcome(s.(heap := s.heap.(members := members, groups := groups)), None);
  }
}
