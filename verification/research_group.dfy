/** `ResearchGroup`: its member list, its seminar list and its coordinator.
    Member lookups compare the stored members by their own `equals`, so the
    functions take a read-only view of the member objects. */
module ResearchGroup {
  import opened Wrappers
  import opened Seqs
  import opened Time
  import opened Entities

  /** Selects the listed handles whose member equals `m`. */
  function EqualMember(members: map<MemberRef, Member>, m: Member): MemberRef -> bool {
    x => x in members && SameMember(members[x], m)
  }

  /** Some listed member equals `m`. */
  predicate HasMember(members: map<MemberRef, Member>, refs: seq<MemberRef>, m: Member) {
    exists i :: 0 <= i < |refs| && refs[i] in members && SameMember(members[refs[i]], m)
  }

  /** No two listed members are equal. */
  predicate DistinctMembers(members: map<MemberRef, Member>, refs: seq<MemberRef>)
    requires forall i :: 0 <= i < |refs| ==> refs[i] in members
  {
    forall i, j :: 0 <= i < j < |refs| ==> !SameMember(members[refs[i]], members[refs[j]])
  }

  /** `addMember`: refuses a member equal to a listed one, otherwise appends. */
  function AddMember(g: Group, members: map<MemberRef, Member>, m: MemberRef): (r: Result<Group, Error>)
    requires m in members
    requires forall i :: 0 <= i < |g.members| ==> g.members[i] in members
    ensures r.Err? <==> HasMember(members, g.members, members[m])
    ensures r.Err? ==> r.error == Duplicate(MemberKind)
    ensures r.Ok? ==> r.value == g.(members := g.members + [m])
    ensures r.Ok? && DistinctMembers(members, g.members) ==> DistinctMembers(members, r.value.members)
  {
    if FirstIndex(g.members, EqualMember(members, members[m])).Some? then Err(Duplicate(MemberKind))
    else Ok(g.(members := g.members + [m]))
  }

  /** The group's seminar coordinator, when there is one, is on its member
      list: the coordinator is chosen from the members and stays one of them. */
  predicate CoordinatorListed(g: Group) {
    g.coordinator.Some? ==> g.coordinator.value in g.members
  }

  /** `removeMember` as intended: fails when no listed member equals `m`,
      otherwise drops the first equal one; a coordinator who leaves the
      member list stops being the group's coordinator. */
  function RemoveMember(g: Group, members: map<MemberRef, Member>, m: MemberRef): (r: Result<Group, Error>)
    requires m in members
    ensures r.Err? <==> !HasMember(members, g.members, members[m])
    ensures r.Err? ==> r.error == NotFound(MemberKind)
    ensures r.Ok? ==> forall i: nat :: IsFirst(g.members, EqualMember(members, members[m]), i) ==>
                        r.value.members == RemoveAt(g.members, i) &&
                        (r.value.coordinator.None? <==> g.coordinator.None? || g.coordinator == Some(g.members[i]))
    ensures r.Ok? ==> r.value.coordinator.Some? ==> r.value.coordinator == g.coordinator
    ensures r.Ok? ==> r.value.name == g.name && r.value.groupID == g.groupID && r.value.seminars == g.seminars
  {
    if FirstIndex(g.members, EqualMember(members, members[m])).None? then Err(NotFound(MemberKind))
    else Ok(DropFirst(g, EqualMember(members, members[m])))
  }

  /** The group without its first member selected by `same`, and without a
      coordinator when that member was it; the group itself when no member
      is selected. */
  function DropFirst(g: Group, same: MemberRef -> bool): Group {
    match FirstIndex(g.members, same)
    case None => g
    case Some(i) =>
      g.(members := RemoveAt(g.members, i),
         coordinator := if g.coordinator == Some(g.members[i]) then None else g.coordinator)
  }

  /** Removing a member keeps the coordinator on the member list. */
  lemma RemoveMemberKeepsCoordinatorListed(g: Group, members: map<MemberRef, Member>, m: MemberRef)
    requires m in members
    requires CoordinatorListed(g)
    ensures RemoveMember(g, members, m).Ok? ==> CoordinatorListed(RemoveMember(g, members, m).value)
  {
    var r := RemoveMember(g, members, m);
    if r.Ok? && r.value.coordinator.Some? {
      var i :| IsFirst(g.members, EqualMember(members, members[m]), i) by {
        var k := FirstIndex(g.members, EqualMember(members, members[m])).value;
        assert IsFirst(g.members, EqualMember(members, members[m]), k);
      }
      var c := g.coordinator.value;
      var k :| 0 <= k < |g.members| && g.members[k] == c;
      assert k != i;
      if k < i {
        assert r.value.members[k] == c;
      } else {
        assert r.value.members[k - 1] == c;
      }
    }
  }

  /** `removeMember` as the source writes it, and as the controllers call
      it: the coordinator field is left alone even when the member removed
      is the coordinator. */
  function RemoveMemberAsWritten(g: Group, members: map<MemberRef, Member>, m: MemberRef): (r: Result<Group, Error>)
    requires m in members
    ensures r.Err? <==> !HasMember(members, g.members, members[m])
    ensures r.Err? ==> r.error == NotFound(MemberKind)
    ensures r.Ok? ==> forall i :: IsFirst(g.members, EqualMember(members, members[m]), i) ==>
                        r.value == g.(members := RemoveAt(g.members, i))
  {
    match FirstIndex(g.members, EqualMember(members, members[m]))
    case None => Err(NotFound(MemberKind))
    case Some(i) => Ok(g.(members := RemoveAt(g.members, i)))
  }

  /** The removal as written leaves a coordinator behind that is no longer a
      member: a group whose only member is its coordinator, after removing
      that member, still names it as coordinator and lists nobody. */
  lemma AsWrittenLeavesCoordinatorUnlisted(members: map<MemberRef, Member>, c: MemberRef)
    requires c in members
    ensures var g := Group("", 0, [c], Some(c), []);
            CoordinatorListed(g) &&
            RemoveMemberAsWritten(g, members, c) == Ok(g.(members := [])) &&
            !CoordinatorListed(RemoveMemberAsWritten(g, members, c).value) &&
            RemoveMember(g, members, c) == Ok(g.(members := [], coordinator := None))
  {
    var g := Group("", 0, [c], Some(c), []);
    EqualitiesAreEquivalences();
    assert IsFirst(g.members, EqualMember(members, members[c]), 0);
  }

  /** Selects the seminars equal to `s`. */
  function EqualSeminar(s: Seminar): Seminar -> bool {
    x => SameSeminar(x, s)
  }

  /** Some listed seminar equals `s`. */
  predicate HasSeminar(g: Group, s: Seminar) {
    exists i :: 0 <= i < |g.seminars| && SameSeminar(g.seminars[i], s)
  }

  /** No two listed seminars are equal. */
  predicate DistinctSeminars(g: Group) {
    forall i, j :: 0 <= i < j < |g.seminars| ==> !SameSeminar(g.seminars[i], g.seminars[j])
  }

  /** `addOldSeminar`: any date-time; refuses only a duplicate. */
  function AddOldSeminar(g: Group, s: Seminar): (r: Result<Group, Error>)
    ensures r.Err? <==> HasSeminar(g, s)
    ensures r.Err? ==> r.error == Duplicate(SeminarKind)
    ensures r.Ok? ==> r.value == g.(seminars := g.seminars + [s])
    ensures r.Ok? && DistinctSeminars(g) ==> DistinctSeminars(r.value)
  {
    if FirstIndex(g.seminars, EqualSeminar(s)).Some? then Err(Duplicate(SeminarKind))
    else Ok(g.(seminars := g.seminars + [s]))
  }

  /** `addNewSeminar`: a date-time strictly before `now` is refused first;
      then a duplicate; otherwise the seminar is appended. A seminar in the
      current minute is accepted only at the minute's very first instant. */
  function AddNewSeminar(g: Group, s: Seminar, now: Instant): (r: Result<Group, Error>)
    ensures BeforeNow(s.dateTime, now) ==> r == Err(DatePassed)
    ensures !BeforeNow(s.dateTime, now) && HasSeminar(g, s) ==> r == Err(Duplicate(SeminarKind))
    ensures !BeforeNow(s.dateTime, now) && !HasSeminar(g, s) ==>
              r == Ok(g.(seminars := g.seminars + [s]))
    ensures r.Ok? && DistinctSeminars(g) ==> DistinctSeminars(r.value)
  {
    if BeforeNow(s.dateTime, now) then Err(DatePassed) else AddOldSeminar(g, s)
  }

  /** `removeSeminar`: fails when no listed seminar equals `s`, otherwise
      drops the first equal one. */
  function RemoveSeminar(g: Group, s: Seminar): (r: Result<Group, Error>)
    ensures r.Err? <==> !HasSeminar(g, s)
    ensures r.Err? ==> r.error == NotFound(SeminarKind)
    ensures r.Ok? ==> forall i :: IsFirst(g.seminars, EqualSeminar(s), i) ==>
                        r.value == g.(seminars := RemoveAt(g.seminars, i))
  {
    match FirstIndex(g.seminars, EqualSeminar(s))
    case None => Err(NotFound(SeminarKind))
    case Some(i) => Ok(g.(seminars := RemoveAt(g.seminars, i)))
  }
}
