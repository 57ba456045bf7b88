/** Documents in the form a save writes them: every field a load reads is
    present and reads back as the text it came from. */
module SavedForm {
  import opened Wrappers
  import opened Seqs
  import opened Decimal
  import opened Time
  import opened FieldText
  import opened Entities
  import opened DataStorage
  import opened Codec
  import opened LoadKeys

  /* ---------------- Publications ---------------- */

  /** A publication element as a save writes it: the save of some
      publication. */
  ghost predicate PublicationDocOk(d: PublicationDoc) {
    exists p :: SavePublication(p) == d
  }

  ghost predicate PublicationDocsOk(ds: seq<PublicationDoc>)
    decreases |ds|
  {
    |ds| == 0 || (PublicationDocOk(ds[0]) && PublicationDocsOk(ds[1..]))
  }

  /** The publication an element in saved form is the save of. */
  ghost function Decoded(d: PublicationDoc): (p: Publication)
    requires PublicationDocOk(d)
    ensures SavePublication(p) == d
  {
    var p :| SavePublication(p) == d; p
  }

  lemma TypeTextRoundTrip(t: PublicationType)
    ensures TypeOfText(TypeText(t)) == Some(t)
  {
  }

  /** The variant fields of a saved publication read back as they were. */
  lemma DetailsRoundTrip(p: Publication)
    ensures DecodeDetails(SavePublication(p), p.Type()) == Some(p.details)
  {
    match p.details
    case JournalDetails(_, n) => IntRoundTrip(n);
    case ConferenceDetails(_, _, cd) => DateRoundTrip(cd);
    case BookDetails(_, _) =>
  }

  /** Decoding a saved publication gives the publication back. */
  lemma PublicationRoundTrip(p: Publication)
    ensures DecodePublication(SavePublication(p)) == Ok(Some(p))
    ensures PublicationDocOk(SavePublication(p))
  {
    IntRoundTrip(p.groupID);
    DateRoundTrip(p.date);
    TypeTextRoundTrip(p.Type());
    DetailsRoundTrip(p);
  }

  /* ---------------- Seminars ---------------- */

  /** A seminar element as a save writes it: the save of some seminar. */
  ghost predicate SeminarDocOk(d: SeminarDoc) {
    exists x :: SaveSeminar(x) == d
  }

  ghost predicate SeminarDocsOk(ds: seq<SeminarDoc>)
    decreases |ds|
  {
    |ds| == 0 || (SeminarDocOk(ds[0]) && SeminarDocsOk(ds[1..]))
  }

  /** The seminar an element in saved form is the save of. */
  ghost function DecodedSeminar(d: SeminarDoc): (x: Seminar)
    requires SeminarDocOk(d)
    ensures SaveSeminar(x) == d
  {
    var x :| SaveSeminar(x) == d; x
  }

  /** Decoding a saved seminar's date-time gives it back. */
  lemma SeminarRoundTrip(x: Seminar)
    ensures DecodeDateTime(SaveSeminar(x).dateTime) == Some(x.dateTime)
    ensures SeminarDocOk(SaveSeminar(x))
  {
    DateTimeRoundTrip(x.dateTime);
  }

  /** The texts `Seminar.equals` compares once decoded: the date-time and
      the topic. */
  function SeminarDocsKeys(ds: seq<SeminarDoc>): seq<(string, string)> {
    seq(|ds|, i requires 0 <= i < |ds| => (ds[i].dateTime, ds[i].topic))
  }

  /* ---------------- Members ---------------- */

  /** A member element as a save writes it: the variant's fields present,
      the other variant's absent, a flag text of "true" or "false". */
  ghost predicate MemberDocOk(d: MemberDoc) {
    || (&& d.memberType == StudentText && d.studentID.Some? && d.password.None?
        && d.isCoordinator.None? && d.publications == [])
    || (&& d.memberType == StaffText && d.studentID.None? && d.password.Some?
        && (d.isCoordinator == Some("true") || d.isCoordinator == Some("false"))
        && PublicationDocsOk(d.publications))
  }

  ghost predicate MemberDocsOk(ds: seq<MemberDoc>)
    decreases |ds|
  {
    |ds| == 0 || (MemberDocOk(ds[0]) && MemberDocsOk(ds[1..]))
  }

  /** The member element is flagged as coordinator. */
  predicate Flagged(d: MemberDoc) {
    d.isCoordinator == Some("true")
  }

  function EmailIs(e: string): MemberDoc -> bool {
    (d: MemberDoc) => d.email == e
  }

  /* ---------------- Groups ---------------- */

  /** The coordinator text names a staff member: the first member with that
      email is staff; or it is empty, no member has an empty email and no
      member is flagged. */
  predicate CoordinatorOk(d: GroupDoc) {
    match FirstIndex(d.members, EmailIs(d.coordinator))
    case Some(i) => d.members[i].memberType == StaffText
    case None => d.coordinator == "" && forall i :: 0 <= i < |d.members| ==> !Flagged(d.members[i])
  }

  /** The text is the decimal form of some `int`. */
  ghost predicate IdText(text: string) {
    exists id: Int32 :: IntToString(id) == text
  }

  /** The `int` whose decimal form the text is. */
  ghost function IdOf(text: string): (id: Int32)
    requires IdText(text)
    ensures IntToString(id) == text
  {
    var id: Int32 :| IntToString(id) == text; id
  }

  ghost predicate GroupDocOk(d: GroupDoc) {
    && IdText(d.groupID)
    && MemberDocsOk(d.members)
    && SeminarDocsOk(d.seminars)
    && NoDup(SeminarDocsKeys(d.seminars))
    && CoordinatorOk(d)
  }

  ghost predicate GroupDocsOk(ds: seq<GroupDoc>)
    decreases |ds|
  {
    |ds| == 0 || (GroupDocOk(ds[0]) && GroupDocsOk(ds[1..]))
  }

  /** A document a load reads completely and a save writes back unchanged:
      an administrator, at most `MaxGroups` groups, every element in saved
      form, and no two publications, staff members, students or groups
      equal under their `equals`. */
  ghost predicate DocOk(d: Document) {
    && d.admin.Some?
    && |d.groups| <= MaxGroups
    && GroupDocsOk(d.groups)
    && GroupDocsKeys(d.groups).Distinct()
  }
}
