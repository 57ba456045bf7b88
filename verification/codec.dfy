/** `saveData` and `loadData`: the store written as a document tree and read
    back. The document is modelled as typed records whose leaves are the text
    contents the XML would hold; an element that may be absent is an
    `Option`. */
module Codec {
  import opened Wrappers
  import opened Seqs
  import opened Decimal
  import opened Time
  import opened FieldText
  import opened Entities
  import opened Objects
  import opened DataStorage
  import ResearchGroup
  import AcademicStaff

  /* ---------------- The document ---------------- */

  datatype AdminDoc = AdminDoc(name: string, officeNumber: string, phoneNumber: string,
                               email: string, password: string)

  /** A `publication` element; `id` is its `publicationID` attribute. */
  datatype PublicationDoc = PublicationDoc(
    id: string,
    title: string,
    authors: seq<string>,
    abstractText: string,
    groupID: string,
    staffEmail: string,
    pubType: string,
    date: string,
    journalName: Option<string>,
    pageNumber: Option<string>,
    conferenceName: Option<string>,
    conferenceLocation: Option<string>,
    conferenceDate: Option<string>,
    isbn: Option<string>,
    publisher: Option<string>)

  /** A `member` element with its discriminant and variant fields. */
  datatype MemberDoc = MemberDoc(
    name: string,
    title: string,
    email: string,
    memberType: string,
    studentID: Option<string>,
    password: Option<string>,
    isCoordinator: Option<string>,
    publications: seq<PublicationDoc>)

  datatype SeminarDoc = SeminarDoc(topic: string, location: string, dateTime: string)

  /** A `researchGroup` element; `groupID` is its attribute and
      `coordinator` the text of `seminarCoordinator` (empty when unset). */
  datatype GroupDoc = GroupDoc(
    groupID: string,
    name: string,
    members: seq<MemberDoc>,
    coordinator: string,
    seminars: seq<SeminarDoc>)

  /** The `dataStore` root: the administrator block (empty when no
      administrator is set) and the group list. */
  datatype Document = Document(admin: Option<AdminDoc>, groups: seq<GroupDoc>)

  /* ---------------- Discriminant texts ---------------- */

  const StaffText := "STAFF"
  const StudentText := "STUDENT"

  function TypeText(t: PublicationType): string {
    match t
    case JournalPaperType => "JOURNALPAPER"
    case ConferencePaperType => "CONFERENCEPAPER"
    case BookType => "BOOK"
  }

  /* ---------------- Save ---------------- */

  function SavePublication(p: Publication): PublicationDoc {
    var base := PublicationDoc(p.id, p.title, p.authors, p.abstractText, IntToString(p.groupID),
                               p.staffEmail, TypeText(p.Type()), EncodeDate(p.date),
                               None, None, None, None, None, None, None);
    match p.details
    case JournalDetails(jn, pn) =>
      base.(journalName := Some(jn), pageNumber := Some(IntToString(pn)))
    case ConferenceDetails(cn, cl, cd) =>
      base.(conferenceName := Some(cn), conferenceLocation := Some(cl),
            conferenceDate := Some(EncodeDate(cd)))
    case BookDetails(isbn, publisher) =>
      base.(isbn := Some(isbn), publisher := Some(publisher))
  }

  /* A save follows handles through the heap. In a valid heap every handle
     is allocated; a dangling one would read as the empty record below. */

  const NoPublication := Publication("", "", [], "", 0, "", Date(0, 0, 0), BookDetails("", ""))
  const NoMember := Student("", "", 0, "", "")
  const NoGroup := Group("", 0, [], None, [])

  function PubAt(h: Heap, x: PubRef): Publication {
    if x in h.pubs then h.pubs[x] else NoPublication
  }

  function MemberAt(h: Heap, x: MemberRef): Member {
    if x in h.members then h.members[x] else NoMember
  }

  function GroupAt(h: Heap, x: GroupRef): Group {
    if x in h.groups then h.groups[x] else NoGroup
  }

  function SavePublications(h: Heap, refs: seq<PubRef>): seq<PublicationDoc> {
    seq(|refs|, i requires 0 <= i < |refs| => SavePublication(PubAt(h, refs[i])))
  }

  function SaveMember(h: Heap, m: MemberRef): MemberDoc {
    match MemberAt(h, m)
    case Student(name, title, _, email, studentID) =>
      MemberDoc(name, title, email, StudentText, Some(studentID), None, None, [])
    case Staff(name, title, _, email, password, flag, pubs) =>
      MemberDoc(name, title, email, StaffText, None, Some(password), Some(BoolText(flag)),
                SavePublications(h, pubs))
  }

  function SaveMembers(h: Heap, refs: seq<MemberRef>): seq<MemberDoc> {
    seq(|refs|, i requires 0 <= i < |refs| => SaveMember(h, refs[i]))
  }

  function SaveSeminar(s: Seminar): SeminarDoc {
    SeminarDoc(s.topic, s.location, EncodeDateTime(s.dateTime))
  }

  function SaveSeminars(ss: seq<Seminar>): seq<SeminarDoc> {
    seq(|ss|, i requires 0 <= i < |ss| => SaveSeminar(ss[i]))
  }

  /** The coordinator's email, or the empty text when there is none. */
  function CoordinatorText(h: Heap, g: Group): string {
    match g.coordinator
    case None => ""
    case Some(c) => MemberAt(h, c).email
  }

  function SaveGroup(h: Heap, g: GroupRef): GroupDoc {
    var grp := GroupAt(h, g);
    GroupDoc(IntToString(grp.groupID), grp.name, SaveMembers(h, grp.members),
             CoordinatorText(h, grp), SaveSeminars(grp.seminars))
  }

  function SaveGroups(h: Heap, refs: seq<GroupRef>): seq<GroupDoc> {
    seq(|refs|, i requires 0 <= i < |refs| => SaveGroup(h, refs[i]))
  }

  function SaveAdmin(a: Admin): AdminDoc {
    AdminDoc(a.name, a.officeNumber, a.phoneNumber, a.email, a.password)
  }

  /** `saveData`: the administrator (if set) and every listed group with its
      members, their publications, its coordinator and its seminars. The
      store's flat lists are not written: they are rebuilt on load. */
  function SaveData(s: Store): Document {
    Document(if s.admin.Some? then Some(SaveAdmin(s.admin.value)) else None,
             SaveGroups(s.heap, s.groups))
  }

  /* ---------------- Load ---------------- */

  /** The store after a load, and the exception that stopped it, if any. */
  datatype Loaded = Loaded(store: Store, error: Option<Error>)

  /** `b` is `a` with at most its coordinator flag and its personal
      publication list changed. */
  predicate MemberKept(a: Member, b: Member) {
    if a.Staff? then b.Staff? && b.(isCoordinator := a.isCoordinator, publications := a.publications) == a
    else b == a
  }

  /** What a load step may do to the heap: allocate, change groups, set
      coordinator flags and extend personal lists. No object disappears and
      no publication or member key changes. */
  ghost predicate Grows(h: Heap, h2: Heap) {
    && h.next <= h2.next
    && (forall x :: x in h.pubs ==> x in h2.pubs && h2.pubs[x] == h.pubs[x])
    && (forall x :: x in h.members ==> x in h2.members && MemberKept(h.members[x], h2.members[x]))
    && (forall x :: x in h.groups ==> x in h2.groups && h2.groups[x].groupID == h.groups[x].groupID)
  }

  /** What a load step may do to the store: the views and the administrator
      stay, the four lists only grow at their ends. */
  ghost predicate Evolves(s: Store, r: Store) {
    && DataStorage.Valid(r)
    && r.views == s.views && r.admin == s.admin
    && s.publications <= r.publications && s.groups <= r.groups
    && s.staff <= r.staff && s.students <= r.students
    && Grows(s.heap, r.heap)
  }

  lemma EvolvesTransitive(a: Store, b: Store, c: Store)
    requires Evolves(a, b) && Evolves(b, c)
    ensures Evolves(a, c)
  {
  }

  lemma GrowsReflexive(h: Heap)
    ensures Grows(h, h)
  {
    forall x | x in h.members ensures MemberKept(h.members[x], h.members[x]) {
      var a := h.members[x];
      if a.Staff? {
        assert a.(isCoordinator := a.isCoordinator, publications := a.publications) == a;
      }
    }
  }

  /** An add on one of the four lists. */
  lemma AppendEvolves(s: Store, r: Store)
    requires DataStorage.Valid(r) && r.heap == s.heap && r.views == s.views && r.admin == s.admin
    requires s.publications <= r.publications && s.groups <= r.groups
    requires s.staff <= r.staff && s.students <= r.students
    ensures Evolves(s, r)
  {
    GrowsReflexive(s.heap);
  }

  /** Replacing the heap by one that grows from it keeps the store valid. */
  lemma GrowsKeepsStore(s: Store, h2: Heap)
    requires DataStorage.Valid(s) && Objects.Valid(h2) && Grows(s.heap, h2)
    ensures Evolves(s, s.(heap := h2))
  {
    var s2 := s.(heap := h2);
    forall i | 0 <= i < |s.staff| ensures s2.staff[i] in h2.members && h2.members[s2.staff[i]].Staff? {
      assert MemberKept(s.heap.members[s.staff[i]], h2.members[s.staff[i]]);
    }
    forall i | 0 <= i < |s.students| ensures s2.students[i] in h2.members && h2.members[s2.students[i]].Student? {
      assert MemberKept(s.heap.members[s.students[i]], h2.members[s.students[i]]);
    }
  }

  lemma ExtendsGrows(h: Heap, h2: Heap)
    requires Extends(h, h2)
    ensures Grows(h, h2)
  {
    forall x | x in h.members ensures MemberKept(h.members[x], h2.members[x]) {
      var a := h.members[x];
      if a.Staff? {
        assert a.(isCoordinator := a.isCoordinator, publications := a.publications) == a;
      }
    }
  }

  /** Replacing one group's state. */
  lemma GroupUpdateGrows(h: Heap, g: GroupRef, grp: Group)
    requires Objects.Valid(h) && g in h.groups && GroupClosed(h, grp)
    requires grp.groupID == h.groups[g].groupID
    ensures Grows(h, PutGroup(h, g, grp))
  {
    var h2 := PutGroup(h, g, grp);
    forall x | x in h.members ensures MemberKept(h.members[x], h2.members[x]) {
      var a := h.members[x];
      if a.Staff? {
        assert a.(isCoordinator := a.isCoordinator, publications := a.publications) == a;
      }
    }
  }

  /** Making a staff member a coordinator. */
  lemma SetCoordinatorGrows(h: Heap, m: MemberRef)
    requires Objects.Valid(h) && m in h.members && h.members[m].Staff?
    ensures Grows(h, AcademicStaff.SetCoordinator(h, m, true))
  {
    var h2 := AcademicStaff.SetCoordinator(h, m, true);
    forall x | x in h.members ensures MemberKept(h.members[x], h2.members[x]) {
      var a := h.members[x];
      if a.Staff? {
        assert a.(isCoordinator := a.isCoordinator, publications := a.publications) == a;
      }
    }
  }

  /** Updating one staff member's flag or personal list. */
  lemma StaffUpdateGrows(h: Heap, m: MemberRef, staff: Member)
    requires Objects.Valid(h) && m in h.members && h.members[m].Staff?
    requires MemberClosed(h, staff) && MemberKept(h.members[m], staff)
    ensures Grows(h, PutMember(h, m, staff))
  {
    var h2 := PutMember(h, m, staff);
    forall x | x in h.members ensures MemberKept(h.members[x], h2.members[x]) {
      var a := h.members[x];
      if x != m && a.Staff? {
        assert a.(isCoordinator := a.isCoordinator, publications := a.publications) == a;
      }
    }
  }

  /** The type a type text names, if any. */
  function TypeOfText(text: string): (r: Option<PublicationType>)
    ensures r.Some? ==> TypeText(r.value) == text
  {
    if text == "JOURNALPAPER" then Some(JournalPaperType)
    else if text == "CONFERENCEPAPER" then Some(ConferencePaperType)
    else if text == "BOOK" then Some(BookType)
    else None
  }

  /** Reads the variant fields of type `t`; `None` when one is missing or
      unreadable. */
  function DecodeDetails(d: PublicationDoc, t: PublicationType): Option<Details> {
    match t
    case JournalPaperType =>
      if d.journalName.Some? && d.pageNumber.Some? && ParseInt(d.pageNumber.value).Some? then
        Some(JournalDetails(d.journalName.value, ParseInt(d.pageNumber.value).value))
      else None
    case ConferencePaperType =>
      if && d.conferenceName.Some? && d.conferenceLocation.Some? && d.conferenceDate.Some?
         && DecodeDate(d.conferenceDate.value).Some? then
        Some(ConferenceDetails(d.conferenceName.value, d.conferenceLocation.value,
                               DecodeDate(d.conferenceDate.value).value))
      else None
    case BookType =>
      if d.isbn.Some? && d.publisher.Some? then Some(BookDetails(d.isbn.value, d.publisher.value))
      else None
  }

  /** Reads the fields of a publication element. `Ok(None)` is an element
      whose type text is none of the three, which is skipped; `Err` is an
      unreadable field. */
  function DecodePublication(d: PublicationDoc): Result<Option<Publication>, Error> {
    var gid, date := ParseInt(d.groupID), DecodeDate(d.date);
    if gid.None? || date.None? then Err(CorruptData)
    else match TypeOfText(d.pubType)
      case None => Ok(None)
      case Some(t) =>
        match DecodeDetails(d, t)
        case None => Err(CorruptData)
        case Some(details) =>
          Ok(Some(Publication(d.id, d.title, d.authors, d.abstractText, gid.value,
                              d.staffEmail, date.value, details)))
  }

  /** `staff.addPublication(p)` on the staff object `m`, written back. */
  function AddPersonal(s: Store, m: MemberRef, p: PubRef): (r: Result<Store, Error>)
    requires DataStorage.Valid(s) && m in s.heap.members && s.heap.members[m].Staff? && p in s.heap.pubs
    ensures r.Err? <==> AcademicStaff.HasPublication(s.heap.pubs, s.heap.members[m].publications, s.heap.pubs[p])
    ensures r.Ok? ==> Evolves(s, r.value) && r.value == s.(heap := r.value.heap)
    ensures r.Ok? ==> r.value.heap == s.heap.(members := s.heap.members[m := s.heap.members[m].(publications := s.heap.members[m].publications + [p])])
  {
    assert MemberClosed(s.heap, s.heap.members[m]);
    match AcademicStaff.AddPublication(s.heap.members[m], s.heap.pubs, p)
    case Err(e) => Err(e)
    case Ok(staff) =>
      var h2 := PutMember(s.heap, m, staff);
      StaffUpdateGrows(s.heap, m, staff);
      GrowsKeepsStore(s, h2);
      Ok(s.(heap := h2))
  }

  /** A decoded publication of staff member `m`: a new object, added to
      `m`'s personal list, then to the store's list. */
  function StorePublication(s: Store, m: MemberRef, pub: Publication): (r: Loaded)
    requires DataStorage.Valid(s) && m in s.heap.members && s.heap.members[m].Staff?
    ensures Evolves(s, r.store)
    ensures r.store.groups == s.groups && r.store.staff == s.staff && r.store.students == s.students
  {
    var (h1, p) := AllocPublication(s.heap, pub);
    ExtendsGrows(s.heap, h1);
    GrowsKeepsStore(s, h1);
    match AddPersonal(s.(heap := h1), m, p)
    case Err(e) => Loaded(s.(heap := h1), Some(e))
    case Ok(s2) =>
      EvolvesTransitive(s, s.(heap := h1), s2);
      match DataStorage.AddPublication(s2, p)
      case Err(e) => Loaded(s2, Some(e))
      case Ok(s3) =>
        AppendEvolves(s2, s3);
        EvolvesTransitive(s, s2, s3);
        Loaded(s3, None)
  }

  /** One `publication` element of staff member `m`. */
  function LoadPublication(s: Store, m: MemberRef, d: PublicationDoc): (r: Loaded)
    requires DataStorage.Valid(s) && m in s.heap.members && s.heap.members[m].Staff?
    ensures Evolves(s, r.store)
    ensures r.store.groups == s.groups && r.store.staff == s.staff && r.store.students == s.students
  {
    match DecodePublication(d)
    case Err(e) => Loaded(s, Some(e))
    case Ok(None) => GrowsReflexive(s.heap); Loaded(s, None)
    case Ok(Some(pub)) => StorePublication(s, m, pub)
  }

  /** The publication list of staff member `m`, in document order; the
      first failure stops the load. */
  function LoadPublications(s: Store, m: MemberRef, ds: seq<PublicationDoc>): (r: Loaded)
    requires DataStorage.Valid(s) && m in s.heap.members && s.heap.members[m].Staff?
    ensures Evolves(s, r.store)
    ensures r.store.groups == s.groups && r.store.staff == s.staff && r.store.students == s.students
    decreases |ds|
  {
    if |ds| == 0 then Loaded(s, None)
    else
      var r1 := LoadPublication(s, m, ds[0]);
      if r1.error.Some? then r1
      else
        var r2 := LoadPublications(r1.store, m, ds[1..]);
        EvolvesTransitive(s, r1.store, r2.store);
        r2
  }

  /** `addMember` on the group object `g`, written back to the heap. */
  function JoinGroup(s: Store, g: GroupRef, m: MemberRef): (r: Result<Store, Error>)
    requires DataStorage.Valid(s) && g in s.heap.groups && m in s.heap.members
    ensures r.Err? <==> ResearchGroup.HasMember(s.heap.members, s.heap.groups[g].members, s.heap.members[m])
    ensures r.Ok? ==> Evolves(s, r.value) && r.value == s.(heap := r.value.heap)
    ensures r.Ok? ==> r.value.heap == s.heap.(groups := s.heap.groups[g := s.heap.groups[g].(members := s.heap.groups[g].members + [m])])
  {
    assert GroupClosed(s.heap, s.heap.groups[g]);
    match ResearchGroup.AddMember(s.heap.groups[g], s.heap.members, m)
    case Err(e) => Err(e)
    case Ok(grp) =>
      var h2 := PutGroup(s.heap, g, grp);
      GroupUpdateGrows(s.heap, g, grp);
      GrowsKeepsStore(s, h2);
      Ok(s.(heap := h2))
  }

  /** A `member` element of type STUDENT, with its student ID read. */
  function LoadStudent(s: Store, g: GroupRef, d: MemberDoc, sid: string): (r: Loaded)
    requires DataStorage.Valid(s) && g in s.heap.groups
    ensures Evolves(s, r.store)
    ensures r.store.groups == s.groups
  {
    var (h1, m) := AllocMember(s.heap, Student(d.name, d.title, g, d.email, sid));
    ExtendsGrows(s.heap, h1);
    GrowsKeepsStore(s, h1);
    match JoinGroup(s.(heap := h1), g, m)
    case Err(e) => Loaded(s.(heap := h1), Some(e))
    case Ok(s2) =>
      EvolvesTransitive(s, s.(heap := h1), s2);
      match AddResearchStudent(s2, m)
      case Err(e) => Loaded(s2, Some(e))
      case Ok(s3) =>
        AppendEvolves(s2, s3);
        EvolvesTransitive(s, s2, s3);
        Loaded(s3, None)
  }

  /** `setCoordinator(true)` when the flag text is "true"; any other text
      leaves the new member as constructed. */
  function FlagCoordinator(s: Store, m: MemberRef, flag: string): (r: Store)
    requires DataStorage.Valid(s) && m in s.heap.members && s.heap.members[m].Staff?
    ensures Evolves(s, r)
    ensures r == s.(heap := r.heap)
    ensures flag == "true" ==> r.heap == AcademicStaff.SetCoordinator(s.heap, m, true)
    ensures flag != "true" ==> r == s
  {
    if flag == "true" then
      var h2 := AcademicStaff.SetCoordinator(s.heap, m, true);
      SetCoordinatorGrows(s.heap, m);
      GrowsKeepsStore(s, h2);
      s.(heap := h2)
    else s
  }

  /** A new staff member from a `member` element, added to group `g` and
      to the store. Its handle is the heap's next free one. */
  function NewStaff(s: Store, g: GroupRef, d: MemberDoc, pw: string): (r: Loaded)
    requires DataStorage.Valid(s) && g in s.heap.groups
    ensures Evolves(s, r.store)
    ensures r.store.groups == s.groups
    ensures r.error.None? ==> s.heap.next in r.store.heap.members && r.store.heap.members[s.heap.next].Staff?
  {
    var (h1, m) := AllocMember(s.heap, NewAcademicStaff(d.name, d.title, g, d.email, pw));
    ExtendsGrows(s.heap, h1);
    GrowsKeepsStore(s, h1);
    match JoinGroup(s.(heap := h1), g, m)
    case Err(e) => Loaded(s.(heap := h1), Some(e))
    case Ok(s2) =>
      EvolvesTransitive(s, s.(heap := h1), s2);
      match AddAcademicStaff(s2, m)
      case Err(e) => Loaded(s2, Some(e))
      case Ok(s3) =>
        AppendEvolves(s2, s3);
        EvolvesTransitive(s, s2, s3);
        Loaded(s3, None)
  }

  /** A `member` element of type STAFF, with its password and flag read. */
  function LoadStaff(s: Store, g: GroupRef, d: MemberDoc, pw: string, flag: string): (r: Loaded)
    requires DataStorage.Valid(s) && g in s.heap.groups
    ensures Evolves(s, r.store)
    ensures r.store.groups == s.groups
  {
    var r1 := NewStaff(s, g, d, pw);
    if r1.error.Some? then r1
    else
      var m := s.heap.next;
      var s4 := FlagCoordinator(r1.store, m, flag);
      EvolvesTransitive(s, r1.store, s4);
      var r2 := LoadPublications(s4, m, d.publications);
      EvolvesTransitive(s, s4, r2.store);
      r2
  }

  /** One `member` element of group `g`. A student is created, added to the
      group and to the store; a staff member likewise, then flagged as
      coordinator when its flag text is "true", then given its publications.
      A missing variant field fails; an element whose type text is neither
      is skipped. */
  function LoadMember(s: Store, g: GroupRef, d: MemberDoc): (r: Loaded)
    requires DataStorage.Valid(s) && g in s.heap.groups
    ensures Evolves(s, r.store)
    ensures r.store.groups == s.groups
  {
    if d.memberType == StudentText then
      if d.studentID.None? then Loaded(s, Some(CorruptData))
      else LoadStudent(s, g, d, d.studentID.value)
    else if d.memberType == StaffText then
      if d.password.None? || d.isCoordinator.None? then Loaded(s, Some(CorruptData))
      else LoadStaff(s, g, d, d.password.value, d.isCoordinator.value)
    else Loaded(s, None)
  }

  /** The member list of group `g`, in document order. */
  function LoadMembers(s: Store, g: GroupRef, ds: seq<MemberDoc>): (r: Loaded)
    requires DataStorage.Valid(s) && g in s.heap.groups
    ensures Evolves(s, r.store)
    ensures r.store.groups == s.groups
    decreases |ds|
  {
    if |ds| == 0 then Loaded(s, None)
    else
      var r1 := LoadMember(s, g, ds[0]);
      if r1.error.Some? then r1
      else
        var r2 := LoadMembers(r1.store, g, ds[1..]);
        EvolvesTransitive(s, r1.store, r2.store);
        r2
  }

  /** Selects the handles whose member has email `e`. */
  function HasEmail(members: map<MemberRef, Member>, e: string): MemberRef -> bool {
    x => x in members && members[x].email == e
  }

  /** The `seminarCoordinator` text: the first member of the group with that
      email becomes the coordinator; a student there is a failed cast; no
      match leaves the coordinator as the member flags set it. */
  function ResolveCoordinator(s: Store, g: GroupRef, e: string): (r: Loaded)
    requires DataStorage.Valid(s) && g in s.heap.groups
    ensures Evolves(s, r.store)
    ensures r.store.groups == s.groups
  {
    var grp := s.heap.groups[g];
    assert GroupClosed(s.heap, grp);
    match FirstIndex(grp.members, HasEmail(s.heap.members, e))
    case None => Loaded(s, None)
    case Some(i) =>
      var x := grp.members[i];
      if s.heap.members[x].Student? then Loaded(s, Some(CorruptData))
      else
        var h2 := PutGroup(s.heap, g, grp.(coordinator := Some(x)));
        GroupUpdateGrows(s.heap, g, grp.(coordinator := Some(x)));
        GrowsKeepsStore(s, h2);
        Loaded(s.(heap := h2), None)
  }

  /** The coordinator text names the first member of the group with that
      email: no such member leaves the load as it was; a student there fails
      the load; a staff member becomes the group's coordinator. */
  lemma ResolveCoordinatorFirst(s: Store, g: GroupRef, e: string, i: nat)
    requires DataStorage.Valid(s) && g in s.heap.groups
    ensures !Exists(s.heap.groups[g].members, HasEmail(s.heap.members, e)) ==> ResolveCoordinator(s, g, e) == Loaded(s, None)
    ensures IsFirst(s.heap.groups[g].members, HasEmail(s.heap.members, e), i) ==>
              var x := s.heap.groups[g].members[i];
              var r := ResolveCoordinator(s, g, e);
              && (r.error.Some? <==> s.heap.members[x].Student?)
              && (r.error.None? ==> r.store == s.(heap := PutGroup(s.heap, g, s.heap.groups[g].(coordinator := Some(x)))))
  {
    if IsFirst(s.heap.groups[g].members, HasEmail(s.heap.members, e), i) {
      FirstIndexOf(s.heap.groups[g].members, HasEmail(s.heap.members, e), i);
    }
  }

  /** One `seminar` element: decoded and added with `addOldSeminar`, which
      does not look at the clock. */
  function LoadSeminar(s: Store, g: GroupRef, d: SeminarDoc): (r: Loaded)
    requires DataStorage.Valid(s) && g in s.heap.groups
    ensures Evolves(s, r.store)
    ensures r.store.groups == s.groups
  {
    match DecodeDateTime(d.dateTime)
    case None => Loaded(s, Some(CorruptData))
    case Some(dt) =>
      var grp := s.heap.groups[g];
      assert GroupClosed(s.heap, grp);
      match ResearchGroup.AddOldSeminar(grp, Seminar(dt, d.location, d.topic))
      case Err(e) => Loaded(s, Some(e))
      case Ok(grp2) =>
        var h2 := PutGroup(s.heap, g, grp2);
        GroupUpdateGrows(s.heap, g, grp2);
        GrowsKeepsStore(s, h2);
        Loaded(s.(heap := h2), None)
  }

  function LoadSeminars(s: Store, g: GroupRef, ds: seq<SeminarDoc>): (r: Loaded)
    requires DataStorage.Valid(s) && g in s.heap.groups
    ensures Evolves(s, r.store)
    ensures r.store.groups == s.groups
    decreases |ds|
  {
    if |ds| == 0 then Loaded(s, None)
    else
      var r1 := LoadSeminar(s, g, ds[0]);
      if r1.error.Some? then r1
      else
        var r2 := LoadSeminars(r1.store, g, ds[1..]);
        EvolvesTransitive(s, r1.store, r2.store);
        r2
  }

  /** One `researchGroup` element: a new group with the parsed ID is added
      to the store, then its members, its coordinator and its seminars are
      read into it. */
  function LoadGroup(s: Store, d: GroupDoc): (r: Loaded)
    requires DataStorage.Valid(s)
    ensures Evolves(s, r.store)
    ensures |s.groups| <= MaxGroups ==> |r.store.groups| <= MaxGroups
    ensures r.error.None? ==> |r.store.groups| == |s.groups| + 1
  {
    match ParseInt(d.groupID)
    case None => Loaded(s, Some(CorruptData))
    case Some(id) =>
      var (h1, g) := AllocGroup(s.heap, NewResearchGroup(d.name, id));
      ExtendsGrows(s.heap, h1);
      GrowsKeepsStore(s, h1);
      match AddResearchGroup(s.(heap := h1), g)
      case Err(e) => Loaded(s.(heap := h1), Some(e))
      case Ok(s2) =>
        AppendEvolves(s.(heap := h1), s2);
        EvolvesTransitive(s, s.(heap := h1), s2);
        var r1 := LoadMembers(s2, g, d.members);
        EvolvesTransitive(s, s2, r1.store);
        if r1.error.Some? then r1
        else
          var r2 := ResolveCoordinator(r1.store, g, d.coordinator);
          EvolvesTransitive(s, r1.store, r2.store);
          if r2.error.Some? then r2
          else
            var r3 := LoadSeminars(r2.store, g, d.seminars);
            EvolvesTransitive(s, r2.store, r3.store);
            r3
  }

  function LoadGroups(s: Store, ds: seq<GroupDoc>): (r: Loaded)
    requires DataStorage.Valid(s)
    ensures Evolves(s, r.store)
    ensures |s.groups| <= MaxGroups ==> |r.store.groups| <= MaxGroups
    ensures r.error.None? ==> |r.store.groups| == |s.groups| + |ds|
    decreases |ds|
  {
    if |ds| == 0 then Loaded(s, None)
    else
      var r1 := LoadGroup(s, ds[0]);
      if r1.error.Some? then r1
      else
        var r2 := LoadGroups(r1.store, ds[1..]);
        EvolvesTransitive(s, r1.store, r2.store);
        r2
  }

  /** The store with its four lists emptied; the views, the administrator
      and the objects stay. */
  function Cleared(s: Store): (r: Store)
    requires DataStorage.Valid(s)
    ensures DataStorage.Valid(r)
    ensures r.views == s.views && r.admin == s.admin && r.heap == s.heap
    ensures r.publications == [] && r.groups == [] && r.staff == [] && r.students == []
  {
    s.(publications := [], groups := [], staff := [], students := [])
  }

  /** `loadData`: empties the four lists, reads the administrator, then each
      group in document order. The first failure ends the load and leaves
      what was read so far in place. The lists the load leaves start from
      empty, so nothing listed before the load survives it. */
  function LoadData(s: Store, d: Document): (r: Loaded)
    requires DataStorage.Valid(s)
    ensures DataStorage.Valid(r.store) && Grows(s.heap, r.store.heap)
    ensures r.store.views == s.views
    ensures |r.store.groups| <= MaxGroups
    ensures d.admin.None? ==> r == Loaded(Cleared(s), Some(CorruptData))
    ensures d.admin.Some? ==> r.store.admin == Some(LoadAdmin(d.admin.value))
    ensures d.admin.Some? ==> Evolves(Cleared(s).(admin := Some(LoadAdmin(d.admin.value))), r.store)
    ensures r.error.None? ==> |r.store.groups| == |d.groups|
  {
    match d.admin
    case None => Loaded(Cleared(s), Some(CorruptData))
    case Some(a) => LoadGroups(Cleared(s).(admin := Some(LoadAdmin(a))), d.groups)
  }

  function LoadAdmin(a: AdminDoc): Admin {
    Admin(a.name, a.officeNumber, a.phoneNumber, a.email, a.password)
  }
}
