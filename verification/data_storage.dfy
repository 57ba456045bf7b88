/** `DataStorage`: the four flat lists, the administrator and the registered
    views, with their checked add and remove operations. Each operation
    either fails and leaves the store as it was, or changes exactly one list. */
module DataStorage {
  import opened Wrappers
  import opened Seqs
  import opened Entities
  import opened Objects
  import ResearchGroup
  import AcademicStaff

  datatype Store = Store(
    views: seq<ViewRef>,
    publications: seq<PubRef>,
    groups: seq<GroupRef>,
    staff: seq<MemberRef>,
    students: seq<MemberRef>,
    admin: Option<Admin>,
    heap: Heap)

  /** The four lists hold allocated handles of the right kinds. */
  ghost predicate ListsTyped(s: Store) {
    && (forall i :: 0 <= i < |s.publications| ==> s.publications[i] in s.heap.pubs)
    && (forall i :: 0 <= i < |s.groups| ==> s.groups[i] in s.heap.groups)
    && (forall i :: 0 <= i < |s.staff| ==> s.staff[i] in s.heap.members && s.heap.members[s.staff[i]].Staff?)
    && (forall i :: 0 <= i < |s.students| ==> s.students[i] in s.heap.members && s.heap.members[s.students[i]].Student?)
  }

  /** A well-formed store: a well-formed heap and well-typed lists. */
  ghost predicate Valid(s: Store) {
    Objects.Valid(s.heap) && ListsTyped(s)
  }

  /** What a controller action leaves behind: the store, and the exception
      it threw, if any. Effects made before the exception are kept. */
  datatype Outcome = Outcome(store: Store, error: Option<Error>)

  /** The maximum number of research groups in the department. */
  const MaxGroups := 10

  /** Publication `q` collides with `p` on title or on ID. */
  predicate Collides(p: Publication, q: Publication) {
    q.title == p.title || q.id == p.id
  }

  /** `addPublication`: refuses a publication whose title or whose ID is
      already used by a listed one; otherwise appends it. */
  function AddPublication(s: Store, p: PubRef): (r: Result<Store, Error>)
    requires p in s.heap.pubs
    requires forall i :: 0 <= i < |s.publications| ==> s.publications[i] in s.heap.pubs
    ensures r.Err? <==> exists i :: 0 <= i < |s.publications| && Collides(s.heap.pubs[p], s.heap.pubs[s.publications[i]])
    ensures r.Err? ==> r.error == Duplicate(PublicationKind)
    ensures r.Ok? ==> r.value == s.(publications := s.publications + [p])
    ensures r.Ok? && Valid(s) ==> Valid(r.value)
  {
    var pub := s.heap.pubs[p];
    if FirstIndex(s.publications, x => x in s.heap.pubs && Collides(pub, s.heap.pubs[x])).Some? then
      Err(Duplicate(PublicationKind))
    else Ok(s.(publications := s.publications + [p]))
  }

  /** `removePublication`: removes the first listed publication equal to `p`
      (same title and same ID); fails when there is none. */
  function RemovePublication(s: Store, p: PubRef): (r: Result<Store, Error>)
    requires p in s.heap.pubs
    ensures r.Err? <==> !AcademicStaff.HasPublication(s.heap.pubs, s.publications, s.heap.pubs[p])
    ensures r.Err? ==> r.error == NotFound(PublicationKind)
    ensures r.Ok? ==> forall i :: IsFirst(s.publications, AcademicStaff.EqualPublication(s.heap.pubs, s.heap.pubs[p]), i) ==>
                        r.value == s.(publications := RemoveAt(s.publications, i))
    ensures r.Ok? && Valid(s) ==> Valid(r.value)
  {
    match FirstIndex(s.publications, AcademicStaff.EqualPublication(s.heap.pubs, s.heap.pubs[p]))
    case None => Err(NotFound(PublicationKind))
    case Some(i) => Ok(s.(publications := RemoveAt(s.publications, i)))
  }

  /** Selects the listed handles whose group has the same ID as `g`. */
  function EqualGroup(groups: map<GroupRef, Group>, g: Group): GroupRef -> bool {
    x => x in groups && SameGroup(groups[x], g)
  }

  /** Some listed group has the ID of `g`. */
  predicate HasGroup(s: Store, g: Group) {
    exists i :: 0 <= i < |s.groups| && s.groups[i] in s.heap.groups && SameGroup(s.heap.groups[s.groups[i]], g)
  }

  /** `addResearchGroup`: a group with a listed ID is refused first; then,
      with ten groups listed, any group is refused; otherwise it is appended. */
  function AddResearchGroup(s: Store, g: GroupRef): (r: Result<Store, Error>)
    requires g in s.heap.groups
    ensures HasGroup(s, s.heap.groups[g]) ==> r == Err(Duplicate(GroupKind))
    ensures !HasGroup(s, s.heap.groups[g]) && |s.groups| == MaxGroups ==> r == Err(CapacityExceeded)
    ensures !HasGroup(s, s.heap.groups[g]) && |s.groups| != MaxGroups ==>
              r == Ok(s.(groups := s.groups + [g]))
    ensures r.Ok? && |s.groups| <= MaxGroups ==> |r.value.groups| <= MaxGroups
    ensures r.Ok? && Valid(s) ==> Valid(r.value)
  {
    if FirstIndex(s.groups, EqualGroup(s.heap.groups, s.heap.groups[g])).Some? then Err(Duplicate(GroupKind))
    else if |s.groups| == MaxGroups then Err(CapacityExceeded)
    else Ok(s.(groups := s.groups + [g]))
  }

  /** `removeResearchGroup`: removes the first listed group with the ID of
      `g`; fails when there is none. */
  function RemoveResearchGroup(s: Store, g: GroupRef): (r: Result<Store, Error>)
    requires g in s.heap.groups
    ensures r.Err? <==> !HasGroup(s, s.heap.groups[g])
    ensures r.Err? ==> r.error == NotFound(GroupKind)
    ensures r.Ok? ==> forall i :: IsFirst(s.groups, EqualGroup(s.heap.groups, s.heap.groups[g]), i) ==>
                        r.value == s.(groups := RemoveAt(s.groups, i))
    ensures r.Ok? && Valid(s) ==> Valid(r.value)
  {
    match FirstIndex(s.groups, EqualGroup(s.heap.groups, s.heap.groups[g]))
    case None => Err(NotFound(GroupKind))
    case Some(i) => Ok(s.(groups := RemoveAt(s.groups, i)))
  }

  /** `addAcademicStaff`: refuses a staff member equal (same email and
      password) to a listed one, otherwise appends. */
  function AddAcademicStaff(s: Store, m: MemberRef): (r: Result<Store, Error>)
    requires m in s.heap.members && s.heap.members[m].Staff?
    requires forall i :: 0 <= i < |s.staff| ==> s.staff[i] in s.heap.members
    ensures r.Err? <==> ResearchGroup.HasMember(s.heap.members, s.staff, s.heap.members[m])
    ensures r.Err? ==> r.error == Duplicate(StaffKind)
    ensures r.Ok? ==> r.value == s.(staff := s.staff + [m])
    ensures r.Ok? && Valid(s) ==> Valid(r.value)
  {
    if FirstIndex(s.staff, ResearchGroup.EqualMember(s.heap.members, s.heap.members[m])).Some? then
      Err(Duplicate(StaffKind))
    else Ok(s.(staff := s.staff + [m]))
  }

  /** `removeAcademicStaff`: removes the first listed staff member equal to
      `m`; fails when there is none. */
  function RemoveAcademicStaff(s: Store, m: MemberRef): (r: Result<Store, Error>)
    requires m in s.heap.members
    ensures r.Err? <==> !ResearchGroup.HasMember(s.heap.members, s.staff, s.heap.members[m])
    ensures r.Err? ==> r.error == NotFound(StaffKind)
    ensures r.Ok? ==> forall i :: IsFirst(s.staff, ResearchGroup.EqualMember(s.heap.members, s.heap.members[m]), i) ==>
                        r.value == s.(staff := RemoveAt(s.staff, i))
    ensures r.Ok? && Valid(s) ==> Valid(r.value)
  {
    match FirstIndex(s.staff, ResearchGroup.EqualMember(s.heap.members, s.heap.members[m]))
    case None => Err(NotFound(StaffKind))
    case Some(i) => Ok(s.(staff := RemoveAt(s.staff, i)))
  }

  /** `addResearchStudent`: refuses a student equal (same email and student
      ID) to a listed one, otherwise appends. */
  function AddResearchStudent(s: Store, m: MemberRef): (r: Result<Store, Error>)
    requires m in s.heap.members && s.heap.members[m].Student?
    requires forall i :: 0 <= i < |s.students| ==> s.students[i] in s.heap.members
    ensures r.Err? <==> ResearchGroup.HasMember(s.heap.members, s.students, s.heap.members[m])
    ensures r.Err? ==> r.error == Duplicate(StudentKind)
    ensures r.Ok? ==> r.value == s.(students := s.students + [m])
    ensures r.Ok? && Valid(s) ==> Valid(r.value)
  {
    if FirstIndex(s.students, ResearchGroup.EqualMember(s.heap.members, s.heap.members[m])).Some? then
      Err(Duplicate(StudentKind))
    else Ok(s.(students := s.students + [m]))
  }

  /** `removeResearchStudent`: removes the first listed student equal to
      `m`; fails when there is none. */
  function RemoveResearchStudent(s: Store, m: MemberRef): (r: Result<Store, Error>)
    requires m in s.heap.members
    ensures r.Err? <==> !ResearchGroup.HasMember(s.heap.members, s.students, s.heap.members[m])
    ensures r.Err? ==> r.error == NotFound(StudentKind)
    ensures r.Ok? ==> forall i :: IsFirst(s.students, ResearchGroup.EqualMember(s.heap.members, s.heap.members[m]), i) ==>
                        r.value == s.(students := RemoveAt(s.students, i))
    ensures r.Ok? && Valid(s) ==> Valid(r.value)
  {
    match FirstIndex(s.students, ResearchGroup.EqualMember(s.heap.members, s.heap.members[m]))
    case None => Err(NotFound(StudentKind))
    case Some(i) => Ok(s.(students := RemoveAt(s.students, i)))
  }

  /** `addView`: refuses a view already registered, otherwise appends it. */
  function AddView(s: Store, v: ViewRef): (r: Result<Store, Error>)
    ensures r.Err? <==> v in s.views
    ensures r.Err? ==> r.error == Duplicate(ViewKind)
    ensures r.Ok? ==> r.value == s.(views := s.views + [v])
    ensures r.Ok? && (forall i, j :: 0 <= i < j < |s.views| ==> s.views[i] != s.views[j]) ==>
              forall i, j :: 0 <= i < j < |r.value.views| ==> r.value.views[i] != r.value.views[j]
  {
    if FirstIndex(s.views, x => x == v).Some? then Err(Duplicate(ViewKind))
    else Ok(s.(views := s.views + [v]))
  }

  /** `removeView`: fails when the view is not registered, otherwise
      unregisters its first occurrence; the other views keep their order. */
  function RemoveView(s: Store, v: ViewRef): (r: Result<Store, Error>)
    ensures r.Err? <==> v !in s.views
    ensures r.Err? ==> r.error == NotFound(ViewKind)
    ensures r.Ok? ==> |r.value.views| == |s.views| - 1 && r.value == s.(views := r.value.views)
    ensures r.Ok? ==> forall i :: IsFirst(s.views, x => x == v, i) ==> r.value == s.(views := RemoveAt(s.views, i))
    ensures r.Ok? && (forall i, j :: 0 <= i < j < |s.views| ==> s.views[i] != s.views[j]) ==>
              v !in r.value.views
  {
    match FirstIndex(s.views, x => x == v)
    case None => Err(NotFound(ViewKind))
    case Some(i) => Ok(s.(views := RemoveAt(s.views, i)))
  }
}
