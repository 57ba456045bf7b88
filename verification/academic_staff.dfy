/** `AcademicStaff`: the personal publication list and the coordinator flag. */
module AcademicStaff {
  import opened Wrappers
  import opened Seqs
  import opened Entities
  import opened Objects

  /** Selects the listed handles whose publication equals `p`. */
  function EqualPublication(pubs: map<PubRef, Publication>, p: Publication): PubRef -> bool {
    x => x in pubs && SamePublication(pubs[x], p)
  }

  /** Some listed publication equals `p` (same title and ID). */
  predicate HasPublication(pubs: map<PubRef, Publication>, refs: seq<PubRef>, p: Publication) {
    exists i :: 0 <= i < |refs| && refs[i] in pubs && SamePublication(pubs[refs[i]], p)
  }

  /** No two listed publications are equal. */
  predicate DistinctPublications(pubs: map<PubRef, Publication>, refs: seq<PubRef>)
    requires forall i :: 0 <= i < |refs| ==> refs[i] in pubs
  {
    forall i, j :: 0 <= i < j < |refs| ==> !SamePublication(pubs[refs[i]], pubs[refs[j]])
  }

  /** `addPublication`: refuses a publication equal to a listed one (same
      title and same ID), otherwise appends it. */
  function AddPublication(m: Member, pubs: map<PubRef, Publication>, p: PubRef): (r: Result<Member, Error>)
    requires m.Staff? && p in pubs
    requires forall i :: 0 <= i < |m.publications| ==> m.publications[i] in pubs
    ensures r.Err? <==> HasPublication(pubs, m.publications, pubs[p])
    ensures r.Err? ==> r.error == Duplicate(PersonalPublicationKind)
    ensures r.Ok? ==> r.value == m.(publications := m.publications + [p])
    ensures r.Ok? && DistinctPublications(pubs, m.publications) ==>
              DistinctPublications(pubs, r.value.publications)
  {
    if FirstIndex(m.publications, EqualPublication(pubs, pubs[p])).Some? then
      Err(Duplicate(PersonalPublicationKind))
    else Ok(m.(publications := m.publications + [p]))
  }

  /** `removePublication`: fails when no listed publication equals `p`,
      otherwise drops the first equal one. */
  function RemovePublication(m: Member, pubs: map<PubRef, Publication>, p: PubRef): (r: Result<Member, Error>)
    requires m.Staff? && p in pubs
    ensures r.Err? <==> !HasPublication(pubs, m.publications, pubs[p])
    ensures r.Err? ==> r.error == NotFound(PersonalPublicationKind)
    ensures r.Ok? ==> forall i :: IsFirst(m.publications, EqualPublication(pubs, pubs[p]), i) ==>
                        r.value == m.(publications := RemoveAt(m.publications, i))
  {
    match FirstIndex(m.publications, EqualPublication(pubs, pubs[p]))
    case None => Err(NotFound(PersonalPublicationKind))
    case Some(i) => Ok(m.(publications := RemoveAt(m.publications, i)))
  }

  /** `setCoordinator(value)`: sets the flag; when `value` is true it also
      makes this member the coordinator of the group its back-reference
      names. Clearing the flag leaves every group alone. */
  function SetCoordinator(h: Heap, m: MemberRef, value: bool): (h2: Heap)
    requires Valid(h) && m in h.members && h.members[m].Staff?
    ensures Valid(h2)
    ensures h2.members == h.members[m := h.members[m].(isCoordinator := value)]
    ensures value ==> var g := h.members[m].group;
                      h2.groups == h.groups[g := h.groups[g].(coordinator := Some(m))]
    ensures !value ==> h2.groups == h.groups
    ensures h2.pubs == h.pubs && h2.next == h.next
  {
    var staff := h.members[m];
    var h1 := if value then PutGroup(h, staff.group, h.groups[staff.group].(coordinator := Some(m)))
              else h;
    PutMember(h1, m, staff.(isCoordinator := value))
  }
}
