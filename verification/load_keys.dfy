/** The equality keys a load checks for duplicates: publication titles and
    IDs (store list), staff email and password, student email and ID, group
    IDs. A load succeeds when the keys already in the store followed by the
    keys the document brings are free of duplicates. */
module LoadKeys {
  import opened Wrappers
  import opened Decimal
  import opened Entities
  import opened Objects
  import opened DataStorage
  import opened Codec
  import ResearchGroup

  predicate NoDup<T(==)>(s: seq<T>) {
    forall i, j :: 0 <= i < j < |s| ==> s[i] != s[j]
  }

  lemma {:induction false} NoDupSplit<T>(a: seq<T>, b: seq<T>)
    requires NoDup(a + b)
    ensures NoDup(a) && NoDup(b)
    ensures forall x :: x in a ==> x !in b
  {
    forall i, j | 0 <= i < j < |a| ensures a[i] != a[j] {
      assert (a + b)[i] == a[i] && (a + b)[j] == a[j];
    }
    forall i, j | 0 <= i < j < |b| ensures b[i] != b[j] {
      assert (a + b)[|a| + i] == b[i] && (a + b)[|a| + j] == b[j];
    }
    forall i, j | 0 <= i < |a| && 0 <= j < |b| ensures a[i] != b[j] {
      assert (a + b)[i] == a[i] && (a + b)[|a| + j] == b[j];
    }
  }

  datatype Keys = Keys(titles: seq<string>, ids: seq<string>, staff: seq<(string, string)>,
                       students: seq<(string, string)>, groups: seq<string>)
  {
    function Plus(k: Keys): Keys {
      Keys(titles + k.titles, ids + k.ids, staff + k.staff, students + k.students, groups + k.groups)
    }

    predicate Distinct() {
      NoDup(titles) && NoDup(ids) && NoDup(staff) && NoDup(students) && NoDup(groups)
    }
  }

  const NoKeys := Keys([], [], [], [], [])

  lemma PlusAssoc(a: Keys, b: Keys, c: Keys)
    ensures a.Plus(b).Plus(c) == a.Plus(b.Plus(c))
  {
    assert (a.titles + b.titles) + c.titles == a.titles + (b.titles + c.titles);
    assert (a.ids + b.ids) + c.ids == a.ids + (b.ids + c.ids);
    assert (a.staff + b.staff) + c.staff == a.staff + (b.staff + c.staff);
    assert (a.students + b.students) + c.students == a.students + (b.students + c.students);
    assert (a.groups + b.groups) + c.groups == a.groups + (b.groups + c.groups);
  }

  lemma PlusNoKeys(a: Keys)
    ensures a.Plus(NoKeys) == a && NoKeys.Plus(a) == a
  {
    assert a.titles + [] == a.titles && a.ids + [] == a.ids && a.staff + [] == a.staff;
    assert a.students + [] == a.students && a.groups + [] == a.groups;
  }

  /** Moving the first part of the incoming keys `k0` over to the keys
      already present keeps them free of duplicates. */
  lemma ShiftKeys(a: Keys, k0: Keys, k1: Keys, rest: Keys)
    requires a.Plus(k0.Plus(k1)).Plus(rest).Distinct()
    ensures a.Plus(k0).Plus(k1.Plus(rest)).Distinct()
    ensures a.Plus(k0).Plus(k1).Plus(rest).Distinct()
    ensures a.Plus(k0.Plus(k1)) == a.Plus(k0).Plus(k1)
  {
    PlusAssoc(a, k0, k1);
    PlusAssoc(a.Plus(k0), k1, rest);
  }

  /** Keys free of duplicates stay so when a suffix is dropped, and share
      nothing with that suffix. */
  lemma DistinctSplit(a: Keys, b: Keys)
    requires a.Plus(b).Distinct()
    ensures a.Distinct()
    ensures forall x :: x in a.titles ==> x !in b.titles
    ensures forall x :: x in a.ids ==> x !in b.ids
    ensures forall x :: x in a.staff ==> x !in b.staff
    ensures forall x :: x in a.students ==> x !in b.students
    ensures forall x :: x in a.groups ==> x !in b.groups
  {
    NoDupSplit(a.titles, b.titles);
    NoDupSplit(a.ids, b.ids);
    NoDupSplit(a.staff, b.staff);
    NoDupSplit(a.students, b.students);
    NoDupSplit(a.groups, b.groups);
  }

  /* ---------------- Keys in the store ---------------- */

  /** The key `equals` compares, beside the variant. */
  function MemberKey(m: Member): (string, string) {
    (m.email, if m.Staff? then m.password else m.studentID)
  }

  function Titles(h: Heap, refs: seq<PubRef>): seq<string> {
    seq(|refs|, i requires 0 <= i < |refs| => PubAt(h, refs[i]).title)
  }

  function Ids(h: Heap, refs: seq<PubRef>): seq<string> {
    seq(|refs|, i requires 0 <= i < |refs| => PubAt(h, refs[i]).id)
  }

  function MemberKeys(h: Heap, refs: seq<MemberRef>): seq<(string, string)> {
    seq(|refs|, i requires 0 <= i < |refs| => MemberKey(MemberAt(h, refs[i])))
  }

  function GroupIds(h: Heap, refs: seq<GroupRef>): seq<string> {
    seq(|refs|, i requires 0 <= i < |refs| => IntToString(GroupAt(h, refs[i]).groupID))
  }

  function StoreKeys(s: Store): Keys {
    Keys(Titles(s.heap, s.publications), Ids(s.heap, s.publications), MemberKeys(s.heap, s.staff),
         MemberKeys(s.heap, s.students), GroupIds(s.heap, s.groups))
  }

  /** A staff member (or student) whose key the store's staff (or student)
      list lacks equals no listed member, nor any member of a group whose
      members are all listed in the store. */
  lemma FreshKeyNotMember(s: Store, refs: seq<MemberRef>, m: Member)
    requires DataStorage.Valid(s)
    requires forall i :: 0 <= i < |refs| ==> refs[i] in s.staff || refs[i] in s.students
    requires m.Staff? ==> MemberKey(m) !in StoreKeys(s).staff
    requires m.Student? ==> MemberKey(m) !in StoreKeys(s).students
    ensures !ResearchGroup.HasMember(s.heap.members, refs, m)
    ensures !ResearchGroup.HasMember(s.heap.members, s.staff, m)
    ensures !ResearchGroup.HasMember(s.heap.members, s.students, m)
  {
    var hm := s.heap.members;
    forall i | 0 <= i < |s.staff| ensures !SameMember(hm[s.staff[i]], m) {
      assert MemberKeys(s.heap, s.staff)[i] in StoreKeys(s).staff;
    }
    forall i | 0 <= i < |s.students| ensures !SameMember(hm[s.students[i]], m) {
      assert MemberKeys(s.heap, s.students)[i] in StoreKeys(s).students;
    }
    forall i | 0 <= i < |refs| && refs[i] in hm ensures !SameMember(hm[refs[i]], m) {
      if refs[i] in s.staff {
        var j :| 0 <= j < |s.staff| && s.staff[j] == refs[i];
      } else {
        var j :| 0 <= j < |s.students| && s.students[j] == refs[i];
      }
    }
  }

  /** A new object at a free handle leaves a list's lookups alone. */
  lemma HasMemberFresh(members: map<MemberRef, Member>, refs: seq<MemberRef>, x: MemberRef, m: Member)
    requires forall i :: 0 <= i < |refs| ==> refs[i] in members
    requires x !in members
    ensures ResearchGroup.HasMember(members[x := m], refs, m) == ResearchGroup.HasMember(members, refs, m)
  {
  }

  /* ---------------- Keys a document brings ---------------- */

  function OrEmpty(o: Option<string>): string {
    if o.Some? then o.value else ""
  }

  function PublicationDocKeys(d: PublicationDoc): Keys {
    Keys([d.title], [d.id], [], [], [])
  }

  function PublicationDocsKeys(ds: seq<PublicationDoc>): Keys
    decreases |ds|
  {
    if |ds| == 0 then NoKeys else PublicationDocKeys(ds[0]).Plus(PublicationDocsKeys(ds[1..]))
  }

  function MemberDocKeys(d: MemberDoc): Keys {
    if d.memberType == StudentText then Keys([], [], [], [(d.email, OrEmpty(d.studentID))], [])
    else if d.memberType == StaffText then
      Keys([], [], [(d.email, OrEmpty(d.password))], [], []).Plus(PublicationDocsKeys(d.publications))
    else NoKeys
  }

  function MemberDocsKeys(ds: seq<MemberDoc>): Keys
    decreases |ds|
  {
    if |ds| == 0 then NoKeys else MemberDocKeys(ds[0]).Plus(MemberDocsKeys(ds[1..]))
  }

  function GroupIdKey(d: GroupDoc): Keys {
    Keys([], [], [], [], [d.groupID])
  }

  function GroupDocKeys(d: GroupDoc): Keys {
    GroupIdKey(d).Plus(MemberDocsKeys(d.members))
  }

  function GroupDocsKeys(ds: seq<GroupDoc>): Keys
    decreases |ds|
  {
    if |ds| == 0 then NoKeys else GroupDocKeys(ds[0]).Plus(GroupDocsKeys(ds[1..]))
  }
}
