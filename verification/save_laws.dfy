/** When a store's save can be read back: conditions on the store itself
    under which `saveData` writes a document in saved form, so that loading
    it succeeds and saving the loaded store writes the same document. */
module SaveLaws {
  import opened Wrappers
  import opened Seqs
  import opened Decimal
  import opened Time
  import opened FieldText
  import opened Entities
  import opened Objects
  import opened DataStorage
  import opened Codec
  import opened LoadKeys
  import opened SavedForm
  import opened LoadPath
  import ResearchGroup

  /* ---------------- Keys in save order ---------------- */

  /** The titles and IDs of the publications `refs` handles. */
  function PubKeys(h: Heap, refs: seq<PubRef>): Keys {
    Keys(Titles(h, refs), Ids(h, refs), [], [], [])
  }

  /** The key of one member, followed by its publications' keys when it is
      staff. */
  function MemberSaveKeys(h: Heap, m: MemberRef): Keys {
    var a := MemberAt(h, m);
    if a.Student? then Keys([], [], [], [MemberKey(a)], [])
    else Keys([], [], [MemberKey(a)], [], []).Plus(PubKeys(h, a.publications))
  }

  function MembersSaveKeys(h: Heap, refs: seq<MemberRef>): Keys
    decreases |refs|
  {
    if |refs| == 0 then NoKeys else MemberSaveKeys(h, refs[0]).Plus(MembersSaveKeys(h, refs[1..]))
  }

  /** Every key a save of the groups `refs` writes, in the order it writes
      them: each group's ID, then its members with their publications. */
  function GroupsSaveKeys(h: Heap, refs: seq<GroupRef>): Keys
    decreases |refs|
  {
    if |refs| == 0 then NoKeys
    else Keys([], [], [], [], [IntToString(GroupAt(h, refs[0]).groupID)])
           .Plus(MembersSaveKeys(h, GroupAt(h, refs[0]).members))
           .Plus(GroupsSaveKeys(h, refs[1..]))
  }

  /* ---------------- The store conditions ---------------- */

  /** Selects the handles of members with email `e`. */
  function HasEmail(h: Heap, e: string): MemberRef -> bool {
    (x: MemberRef) => MemberAt(h, x).email == e
  }

  /** The member is staff flagged as a coordinator. */
  predicate Coordinates(a: Member) {
    a.Staff? && a.isCoordinator
  }

  /** The group's coordinator, when set, is a staff member on its list and
      the first listed member with its email; with no coordinator, no listed
      member is flagged and none has an empty email. */
  predicate CoordinatorSaveable(h: Heap, g: Group) {
    match g.coordinator
    case Some(c) =>
      && MemberAt(h, c).Staff?
      && (match FirstIndex(g.members, HasEmail(h, MemberAt(h, c).email))
          case Some(i) => g.members[i] == c
          case None => false)
    case None =>
      forall i :: 0 <= i < |g.members| ==>
        MemberAt(h, g.members[i]).email != "" && !Coordinates(MemberAt(h, g.members[i]))
  }

  predicate GroupSaveable(h: Heap, g: Group) {
    ResearchGroup.DistinctSeminars(g) && CoordinatorSaveable(h, g)
  }

  /** A store whose save reads back: an administrator, at most `MaxGroups`
      groups, distinct seminars and a well-placed coordinator in each group,
      and no two publications, staff members, students or groups equal under
      their `equals` among everything the save writes. */
  predicate Saveable(s: Store) {
    && s.admin.Some?
    && |s.groups| <= MaxGroups
    && (forall i :: 0 <= i < |s.groups| ==> GroupSaveable(s.heap, GroupAt(s.heap, s.groups[i])))
    && GroupsSaveKeys(s.heap, s.groups).Distinct()
  }

  /** A coordinator placed as a save needs it is on the member list. */
  lemma SaveableCoordinatorListed(h: Heap, g: Group)
    requires CoordinatorSaveable(h, g)
    ensures ResearchGroup.CoordinatorListed(g)
  {
    if g.coordinator.Some? {
      var i := FirstIndex(g.members, HasEmail(h, MemberAt(h, g.coordinator.value).email)).value;
      assert g.members[i] == g.coordinator.value;
    }
  }

  /* ---------------- Keys of the saved document ---------------- */

  lemma PubKeySaved(p: Publication)
    ensures PublicationDocKeys(SavePublication(p)) == Keys([p.title], [p.id], [], [], [])
  {
  }

  lemma PubKeysStep(h: Heap, refs: seq<PubRef>)
    requires |refs| > 0
    ensures PubKeys(h, refs) == Keys([PubAt(h, refs[0]).title], [PubAt(h, refs[0]).id], [], [], []).Plus(PubKeys(h, refs[1..]))
  {
    assert Titles(h, refs) == [PubAt(h, refs[0]).title] + Titles(h, refs[1..]);
    assert Ids(h, refs) == [PubAt(h, refs[0]).id] + Ids(h, refs[1..]);
  }

  lemma {:induction false} PubKeysSaved(h: Heap, refs: seq<PubRef>)
    ensures PublicationDocsKeys(SavePublications(h, refs)) == PubKeys(h, refs)
    decreases |refs|
  {
    if |refs| > 0 {
      var ds := SavePublications(h, refs);
      assert ds[1..] == SavePublications(h, refs[1..]);
      PubKeysSaved(h, refs[1..]);
      var p, k := PubAt(h, refs[0]), PubKeys(h, refs[1..]);
      assert ds[0] == SavePublication(p);
      PubKeySaved(p);
      assert PublicationDocsKeys(ds) == Keys([p.title], [p.id], [], [], []).Plus(k);
      PubKeysStep(h, refs);
    }
  }

  lemma MemberKeysSaved(h: Heap, m: MemberRef)
    ensures MemberDocKeys(SaveMember(h, m)) == MemberSaveKeys(h, m)
  {
    if MemberAt(h, m).Staff? {
      PubKeysSaved(h, MemberAt(h, m).publications);
    }
  }

  lemma {:induction false} MembersKeysSaved(h: Heap, refs: seq<MemberRef>)
    ensures MemberDocsKeys(SaveMembers(h, refs)) == MembersSaveKeys(h, refs)
    decreases |refs|
  {
    if |refs| > 0 {
      assert SaveMembers(h, refs)[1..] == SaveMembers(h, refs[1..]);
      MemberKeysSaved(h, refs[0]);
      MembersKeysSaved(h, refs[1..]);
    }
  }

  /** The keys the saved document brings are the store's keys in save
      order. */
  lemma {:induction false} GroupsKeysSaved(h: Heap, refs: seq<GroupRef>)
    ensures GroupDocsKeys(SaveGroups(h, refs)) == GroupsSaveKeys(h, refs)
    decreases |refs|
  {
    if |refs| > 0 {
      assert SaveGroups(h, refs)[1..] == SaveGroups(h, refs[1..]);
      MembersKeysSaved(h, GroupAt(h, refs[0]).members);
      GroupsKeysSaved(h, refs[1..]);
    }
  }

  /* ---------------- Elements in saved form ---------------- */

  lemma {:induction false} PublicationsSavedOk(h: Heap, refs: seq<PubRef>)
    ensures PublicationDocsOk(SavePublications(h, refs))
    decreases |refs|
  {
    if |refs| > 0 {
      assert SavePublications(h, refs)[1..] == SavePublications(h, refs[1..]);
      PublicationRoundTrip(PubAt(h, refs[0]));
      PublicationsSavedOk(h, refs[1..]);
    }
  }

  lemma MemberSavedOk(h: Heap, m: MemberRef)
    ensures MemberDocOk(SaveMember(h, m))
  {
    if MemberAt(h, m).Staff? {
      PublicationsSavedOk(h, MemberAt(h, m).publications);
    }
  }

  lemma {:induction false} MembersSavedOk(h: Heap, refs: seq<MemberRef>)
    ensures MemberDocsOk(SaveMembers(h, refs))
    decreases |refs|
  {
    if |refs| > 0 {
      assert SaveMembers(h, refs)[1..] == SaveMembers(h, refs[1..]);
      MemberSavedOk(h, refs[0]);
      MembersSavedOk(h, refs[1..]);
    }
  }

  lemma {:induction false} SeminarsSavedOk(ss: seq<Seminar>)
    ensures SeminarDocsOk(SaveSeminars(ss))
    decreases |ss|
  {
    if |ss| > 0 {
      assert SaveSeminars(ss)[1..] == SaveSeminars(ss[1..]);
      SeminarRoundTrip(ss[0]);
      SeminarsSavedOk(ss[1..]);
    }
  }

  /** Distinct seminars keep distinct keys once their date-times are
      written as text. */
  lemma SeminarKeysDistinct(g: Group)
    requires ResearchGroup.DistinctSeminars(g)
    ensures NoDup(SeminarDocsKeys(SaveSeminars(g.seminars)))
  {
    var ks := SeminarDocsKeys(SaveSeminars(g.seminars));
    forall i, j | 0 <= i < j < |ks| ensures ks[i] != ks[j] {
      var a, b := g.seminars[i], g.seminars[j];
      DateTimeRoundTrip(a.dateTime);
      DateTimeRoundTrip(b.dateTime);
      assert !SameSeminar(a, b);
    }
  }

  /** A well-placed coordinator is written as a text the load resolves to a
      staff member, or as the empty text nobody matches. */
  lemma CoordinatorSavedOk(h: Heap, g: Group, d: GroupDoc)
    requires CoordinatorSaveable(h, g)
    requires d.members == SaveMembers(h, g.members) && d.coordinator == CoordinatorText(h, g)
    ensures CoordinatorOk(d)
  {
    forall i | 0 <= i < |d.members| ensures EmailIs(d.coordinator)(d.members[i]) == HasEmail(h, d.coordinator)(g.members[i]) {
      assert d.members[i] == SaveMember(h, g.members[i]);
    }
    FirstIndexSame(d.members, EmailIs(d.coordinator), g.members, HasEmail(h, d.coordinator));
    if g.coordinator.None? {
      assert FirstIndex(g.members, HasEmail(h, "")).None?;
    }
  }

  lemma GroupSavedOk(h: Heap, g: GroupRef)
    requires GroupSaveable(h, GroupAt(h, g))
    ensures GroupDocOk(SaveGroup(h, g))
  {
    var grp := GroupAt(h, g);
    assert IntToString(grp.groupID) == SaveGroup(h, g).groupID;
    MembersSavedOk(h, grp.members);
    SeminarsSavedOk(grp.seminars);
    SeminarKeysDistinct(grp);
    CoordinatorSavedOk(h, grp, SaveGroup(h, g));
  }

  lemma {:induction false} GroupsSavedOk(h: Heap, refs: seq<GroupRef>)
    requires forall i :: 0 <= i < |refs| ==> GroupSaveable(h, GroupAt(h, refs[i]))
    ensures GroupDocsOk(SaveGroups(h, refs))
    decreases |refs|
  {
    if |refs| > 0 {
      assert SaveGroups(h, refs)[1..] == SaveGroups(h, refs[1..]);
      GroupSavedOk(h, refs[0]);
      GroupsSavedOk(h, refs[1..]);
    }
  }

  /* ---------------- The save round trip ---------------- */

  /** A saveable store is saved as a document in saved form. */
  lemma SavedIsDocOk(s: Store)
    requires Saveable(s)
    ensures DocOk(SaveData(s))
  {
    GroupsSavedOk(s.heap, s.groups);
    GroupsKeysSaved(s.heap, s.groups);
  }

  /** Saving a saveable store, loading what was written into any store and
      saving again writes the same document, and the load reports no
      error. */
  lemma SaveLoadSave(s0: Store, s: Store)
    requires DataStorage.Valid(s0) && Saveable(s)
    ensures LoadData(s0, SaveData(s)).error.None?
    ensures SaveData(LoadData(s0, SaveData(s)).store) == SaveData(s)
  {
    SavedIsDocOk(s);
    LoadThenSave(s0, SaveData(s));
  }

  /** A coordinator left off an emptied member list is written with its
      email, which names nobody in the group: the document is not in saved
      form. */
  lemma DanglingCoordinatorNotSaveable(h: Heap, g: GroupRef)
    requires g in h.groups && h.groups[g].members == []
    requires h.groups[g].coordinator.Some? && MemberAt(h, h.groups[g].coordinator.value).email != ""
    ensures !GroupDocOk(SaveGroup(h, g))
    ensures !CoordinatorSaveable(h, h.groups[g])
  {
  }
}
