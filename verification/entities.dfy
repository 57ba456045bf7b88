/** The records of the department store: publications and their three
    variants, group members (staff or student), research groups, seminars and
    the administrator, together with the key-based `equals` of each, which
    decides what every list in the system treats as a duplicate. */
module Entities {
  import opened Wrappers
  import opened Decimal
  import opened Time

  /** Handles of heap objects; two lists share an object by holding the same
      handle. */
  type PubRef = nat
  type MemberRef = nat
  type GroupRef = nat
  /** A registered view, compared by identity. */
  type ViewRef = nat

  /** Which list or entity an error is about. */
  datatype Kind =
    | PublicationKind         // the store's global publication list
    | PersonalPublicationKind // a staff member's own publication list
    | GroupKind
    | StaffKind
    | StudentKind
    | MemberKind              // a group's member list
    | SeminarKind
    | ViewKind

  /** The conditions under which the system throws `DPMSystemException`,
      plus the unchecked exceptions that abort a load. */
  datatype Error =
    | Duplicate(kind: Kind)
    | NotFound(kind: Kind)
    | CapacityExceeded   // ten groups already registered
    | DatePassed         // a date-time before "now"
    | GroupNotListed     // a member's group is not in the store
    | BadCredentials     // no staff member with that email and password
    | NotPublishable     // seminar not listed or not in the future
    | NoResult           // a search matched no publication
    | CorruptData        // the persisted document cannot be read back

  /* ---------------- Publications ---------------- */

  /** The immutable type discriminant. */
  datatype PublicationType = JournalPaperType | ConferencePaperType | BookType

  /** The fields of the three publication variants. */
  datatype Details =
    | JournalDetails(journalName: string, pageNumber: Int32)
    | ConferenceDetails(conferenceName: string, conferenceLocation: string, conferenceDate: Date)
    | BookDetails(isbn: string, publisher: string)

  /** A publication: eight base fields and its variant's fields. Its type is
      the variant, which no setter can change. */
  datatype Publication = Publication(
    id: string,
    title: string,
    authors: seq<string>,
    abstractText: string,
    groupID: Int32,
    staffEmail: string,
    date: Date,
    details: Details)
  {
    function Type(): PublicationType {
      TypeOf(details)
    }
  }

  /** The variant a set of details belongs to. */
  function TypeOf(d: Details): PublicationType {
    match d
    case JournalDetails(_, _) => JournalPaperType
    case ConferenceDetails(_, _, _) => ConferencePaperType
    case BookDetails(_, _) => BookType
  }

  /** `Publication.equals`: same title and same publication ID. */
  predicate SamePublication(a: Publication, b: Publication) {
    a.title == b.title && a.id == b.id
  }

  /** `addAuthorName` has an empty body. */
  function AddAuthorName(p: Publication, name: string): (r: Publication)
    ensures r.authors == p.authors && r == p
  {
    p
  }

  /** `removeAuthorName` has an empty body. */
  function RemoveAuthorName(p: Publication, name: string): (r: Publication)
    ensures r.authors == p.authors && r == p
  {
    p
  }

  /** `setTitle`: the title changes, and with it the equality key. */
  function SetTitle(p: Publication, title: string): (r: Publication)
    ensures r.title == title && r.Type() == p.Type()
    ensures r.(title := p.title) == p
  {
    p.(title := title)
  }

  /** `setPublicationID`: the ID changes, and with it the equality key. */
  function SetPublicationID(p: Publication, id: string): (r: Publication)
    ensures r.id == id && r.Type() == p.Type()
    ensures r.(id := p.id) == p
  {
    p.(id := id)
  }

  /* ---------------- Group members ---------------- */

  /** A group member: `AcademicStaff` or `ResearchStudent`. `group` is the
      back-reference to the member's `ResearchGroup` object. */
  datatype Member =
    | Staff(name: string, title: string, group: GroupRef, email: string,
            password: string, isCoordinator: bool, publications: seq<PubRef>)
    | Student(name: string, title: string, group: GroupRef, email: string,
              studentID: string)

  /** `AcademicStaff.equals` and `ResearchStudent.equals`: a staff member
      equals a staff member with the same email and password, a student a
      student with the same email and student ID; a staff member never
      equals a student. */
  predicate SameMember(a: Member, b: Member) {
    || (a.Staff? && b.Staff? && a.email == b.email && a.password == b.password)
    || (a.Student? && b.Student? && a.email == b.email && a.studentID == b.studentID)
  }

  /** The `AcademicStaff` constructor: not a coordinator, no publications. */
  function NewAcademicStaff(name: string, title: string, group: GroupRef, email: string,
                            password: string): (m: Member)
    ensures m.Staff? && !m.isCoordinator && m.publications == []
    ensures m.name == name && m.title == title && m.group == group
    ensures m.email == email && m.password == password
  {
    Staff(name, title, group, email, password, false, [])
  }

  /** `setStudentID`: replaces the ID and so the student's equality key. */
  function SetStudentID(m: Member, studentID: string): (r: Member)
    requires m.Student?
    ensures r.Student? && r.studentID == studentID
    ensures r.(studentID := m.studentID) == m
    ensures SameMember(r, m) <==> studentID == m.studentID
  {
    m.(studentID := studentID)
  }

  /* ---------------- Seminars ---------------- */

  /** A seminar. Its back-reference to the owning group is never read by the
      modelled code and is omitted. */
  datatype Seminar = Seminar(dateTime: DateTime, location: string, topic: string)

  /** `Seminar.equals`: same date-time and same topic. */
  predicate SameSeminar(a: Seminar, b: Seminar) {
    a.dateTime == b.dateTime && a.topic == b.topic
  }

  /** `setDateTime`: a date-time strictly before `now` is refused and the old
      one kept; any other replaces it. */
  function SetDateTime(s: Seminar, dateTime: DateTime, now: Instant): (r: Result<Seminar, Error>)
    ensures r.Err? <==> BeforeNow(dateTime, now)
    ensures r.Err? ==> r.error == DatePassed
    ensures r.Ok? ==> r.value.dateTime == dateTime && r.value.location == s.location
                      && r.value.topic == s.topic
  {
    if BeforeNow(dateTime, now) then Err(DatePassed) else Ok(s.(dateTime := dateTime))
  }

  /** `setLocation`: only the location changes. */
  function SetLocation(s: Seminar, location: string): (r: Seminar)
    ensures r.location == location && r.dateTime == s.dateTime && r.topic == s.topic
  {
    s.(location := location)
  }

  /** `setTopic`: only the topic changes. */
  function SetTopic(s: Seminar, topic: string): (r: Seminar)
    ensures r.topic == topic && r.dateTime == s.dateTime && r.location == s.location
  {
    s.(topic := topic)
  }

  /* ---------------- Research groups and the administrator ---------------- */

  /** A research group. Members are shared objects; seminars are owned. */
  datatype Group = Group(
    name: string,
    groupID: Int32,
    members: seq<MemberRef>,
    coordinator: Option<MemberRef>,
    seminars: seq<Seminar>)

  /** `ResearchGroup.equals`: same group ID, whatever else differs. */
  predicate SameGroup(a: Group, b: Group) {
    a.groupID == b.groupID
  }

  /** The `ResearchGroup` constructor: no members, seminars or coordinator. */
  function NewResearchGroup(name: string, groupID: Int32): (g: Group)
    ensures g.name == name && g.groupID == groupID
    ensures g.members == [] && g.seminars == [] && g.coordinator.None?
  {
    Group(name, groupID, [], None, [])
  }

  /** The system administrator. */
  datatype Admin = Admin(name: string, officeNumber: string, phoneNumber: string,
                         email: string, password: string)

  /** Each `equals` is symmetric, so `list.contains(x)` (which calls
      `x.equals(e)`) agrees with a scan calling `e.equals(x)`, and each is an
      equivalence. */
  lemma EqualitiesAreEquivalences()
    ensures forall a: Publication, b: Publication :: SamePublication(a, b) <==> SamePublication(b, a)
    ensures forall a: Member, b: Member :: SameMember(a, b) <==> SameMember(b, a)
    ensures forall a: Group, b: Group :: SameGroup(a, b) <==> SameGroup(b, a)
    ensures forall a: Seminar, b: Seminar :: SameSeminar(a, b) <==> SameSeminar(b, a)
    ensures forall a: Member :: SameMember(a, a)
  {
  }
}
