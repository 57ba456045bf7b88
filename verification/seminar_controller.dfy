/** `SeminarCoordinatorController`: the coordinator of one research group
    adds, removes and edits the group's seminars, and publishes a seminar to
    the group's members together with a digest of the group's recent
    publications. The controller keeps the digest selection and the
    recipient list in fields that no call ever clears. */
module SeminarController {
  import opened Wrappers
  import opened Seqs
  import opened Decimal
  import opened Time
  import opened Entities
  import opened Objects
  import opened DataStorage
  import ResearchGroup

  /** The controller: the group it coordinates, and the publications and
      email addresses gathered by earlier publishes. */
  datatype Coordinator = Coordinator(group: GroupRef, recent: seq<PubRef>, emails: seq<string>)

  /** The store with group `g`'s object replaced. */
  function WithGroup(s: Store, g: GroupRef, grp: Group): (r: Store)
    ensures r.heap.groups.Keys == s.heap.groups.Keys + {g} && r.heap.groups[g] == grp
    ensures forall x :: x in s.heap.groups && x != g ==> r.heap.groups[x] == s.heap.groups[x]
  {
    s.(heap := s.heap.(groups := s.heap.groups[g := grp]))
  }

  /* ---------------- Adding, removing and editing seminars ---------------- */

  /** `addSeminar`: the group's `addNewSeminar`. A date-time
      before `now` is refused first, then a seminar equal to a listed one;
      any other seminar is appended. */
  function AddSeminar(s: Store, c: Coordinator, seminar: Seminar, now: Instant): (r: Outcome)
    requires c.group in s.heap.groups
    ensures BeforeNow(seminar.dateTime, now) ==> r == Outcome(s, Some(DatePassed))
    ensures !BeforeNow(seminar.dateTime, now) && ResearchGroup.HasSeminar(s.heap.groups[c.group], seminar) ==>
              r == Outcome(s, Some(Duplicate(SeminarKind)))
    ensures !BeforeNow(seminar.dateTime, now) && !ResearchGroup.HasSeminar(s.heap.groups[c.group], seminar) ==>
              var grp := s.heap.groups[c.group];
              r == Outcome(WithGroup(s, c.group, grp.(seminars := grp.seminars + [seminar])), None)
  {
    match ResearchGroup.AddNewSeminar(s.heap.groups[c.group], seminar, now)
    case Err(e) => Outcome(s, Some(e))
    case Ok(grp) => Outcome(WithGroup(s, c.group, grp), None)
  }

  /** `removeSeminar`: the group's `removeSeminar`, which drops
      the first listed seminar equal to `seminar` and fails when there is
      none. */
  function RemoveSeminar(s: Store, c: Coordinator, seminar: Seminar): (r: Outcome)
    requires c.group in s.heap.groups
    ensures !ResearchGroup.HasSeminar(s.heap.groups[c.group], seminar) ==> r == Outcome(s, Some(NotFound(SeminarKind)))
    ensures forall i :: IsFirst(s.heap.groups[c.group].seminars, ResearchGroup.EqualSeminar(seminar), i) ==>
              var grp := s.heap.groups[c.group];
              r == Outcome(WithGroup(s, c.group, grp.(seminars := RemoveAt(grp.seminars, i))), None)
  {
    match ResearchGroup.RemoveSeminar(s.heap.groups[c.group], seminar)
    case Err(e) => Outcome(s, Some(e))
    case Ok(grp) => Outcome(WithGroup(s, c.group, grp), None)
  }

  /** Removing a seminar just added gives the store back. */
  lemma AddThenRemoveSeminar(s: Store, c: Coordinator, seminar: Seminar, now: Instant)
    requires c.group in s.heap.groups
    requires AddSeminar(s, c, seminar, now).error == None
    ensures c.group in AddSeminar(s, c, seminar, now).store.heap.groups
    ensures RemoveSeminar(AddSeminar(s, c, seminar, now).store, c, seminar) == Outcome(s, None)
  {
    var grp := s.heap.groups[c.group];
    var s1 := AddSeminar(s, c, seminar, now).store;
    assert s1 == WithGroup(s, c.group, grp.(seminars := grp.seminars + [seminar]));
    AppendedIsFirst(grp.seminars, seminar, ResearchGroup.EqualSeminar(seminar));
    assert WithGroup(s1, c.group, grp) == s by {
      assert s.heap.groups[c.group := grp] == s.heap.groups;
    }
  }

  /** A seminar with the date-time, location and topic an edit gives it. */
  function Rescheduled(x: Seminar, dateTime: DateTime, location: string, topic: string): Seminar {
    x.(dateTime := dateTime, location := location, topic := topic)
  }

  /** `editSeminarDetails`: for each listed seminar equal to
      `seminar`, set its date-time (refused when before `now`), location
      and topic; fail when no listed seminar is equal. The date-time check
      is the same for every match, so a refusal comes at the first match,
      before any seminar has changed. */
  method EditSeminarDetails(s: Store, c: Coordinator, seminar: Seminar, dateTime: DateTime, location: string,
                            topic: string, now: Instant) returns (r: Outcome)
    requires c.group in s.heap.groups
    ensures !ResearchGroup.HasSeminar(s.heap.groups[c.group], seminar) ==> r == Outcome(s, Some(NotFound(SeminarKind)))
    ensures ResearchGroup.HasSeminar(s.heap.groups[c.group], seminar) && BeforeNow(dateTime, now) ==>
              r == Outcome(s, Some(DatePassed))
    ensures ResearchGroup.HasSeminar(s.heap.groups[c.group], seminar) && !BeforeNow(dateTime, now) ==>
              && r.error == None
              && c.group in r.store.heap.groups
              && r.store == WithGroup(s, c.group, s.heap.groups[c.group].(seminars := r.store.heap.groups[c.group].seminars))
              && |r.store.heap.groups[c.group].seminars| == |s.heap.groups[c.group].seminars|
              && forall i :: 0 <= i < |s.heap.groups[c.group].seminars| ==>
                   var x := s.heap.groups[c.group].seminars[i];
                   r.store.heap.groups[c.group].seminars[i] ==
                     if SameSeminar(x, seminar) then Rescheduled(x, dateTime, location, topic) else x
  {
    var grp := s.heap.groups[c.group];
    var list := grp.seminars;
    var edited := false;
    for i := 0 to |list|
      invariant |list| == |grp.seminars|
      invariant forall j :: 0 <= j < |list| ==>
                  list[j] == if j < i && SameSeminar(grp.seminars[j], seminar)
                             then Rescheduled(grp.seminars[j], dateTime, location, topic) else grp.seminars[j]
      invariant edited <==> exists j :: 0 <= j < i && SameSeminar(grp.seminars[j], seminar)
      invariant edited ==> !BeforeNow(dateTime, now)
    {
      if SameSeminar(list[i], seminar) {
        var moved := SetDateTime(list[i], dateTime, now);
        if moved.Err? {
          assert list == grp.seminars;
          assert WithGroup(s, c.group, grp.(seminars := list)) == s by {
            assert s.heap.groups[c.group := grp] == s.heap.groups;
          }
          return Outcome(WithGroup(s, c.group, grp.(seminars := list)), Some(moved.error));
        }
        list := list[i := SetTopic(SetLocation(moved.value, location), topic)];
        edited := true;
      }
    }
    if !edited {
      return Outcome(s, Some(NotFound(SeminarKind)));
    }
    return Outcome(WithGroup(s, c.group, grp.(seminars := list)), None);
  }

  /* ---------------- Publishing a seminar ---------------- */

  /** A listed publication is selected for the digest when it carries the
      group's ID and is dated strictly after `cutoff`, the day thirty days
      before today. */
  function Recent(pubs: map<PubRef, Publication>, groupID: Int32, cutoff: Date): PubRef -> bool {
    p => p in pubs && pubs[p].groupID == groupID && DateBefore(cutoff, pubs[p].date)
  }

  /** The store's publication handles are allocated. */
  predicate PublicationsAllocated(s: Store) {
    forall i :: 0 <= i < |s.publications| ==> s.publications[i] in s.heap.pubs
  }

  /** `fillPublicationList`: appends to the selection, in
      store order, exactly the listed publications of the group's ID dated
      after `cutoff`; earlier selections stay. */
  method FillPublicationList(s: Store, c: Coordinator, cutoff: Date) returns (c2: Coordinator)
    requires c.group in s.heap.groups && PublicationsAllocated(s)
    ensures c2.group == c.group && c2.emails == c.emails
    ensures c2.recent == c.recent + Filter(s.publications, Recent(s.heap.pubs, s.heap.groups[c.group].groupID, cutoff))
  {
    var selected := KeepMatching(s.publications, Recent(s.heap.pubs, s.heap.groups[c.group].groupID, cutoff));
    c2 := c.(recent := c.recent + selected);
  }

  /** The group's member handles are allocated. */
  predicate MembersAllocated(s: Store, g: GroupRef)
    requires g in s.heap.groups
  {
    forall i :: 0 <= i < |s.heap.groups[g].members| ==> s.heap.groups[g].members[i] in s.heap.members
  }

  /** The emails of the group's members, in member-list order. */
  function Emails(s: Store, g: GroupRef): seq<string>
    requires g in s.heap.groups && MembersAllocated(s, g)
  {
    var refs := s.heap.groups[g].members;
    seq(|refs|, i requires 0 <= i < |refs| => s.heap.members[refs[i]].email)
  }

  /** `fillEmailList`: appends the email of every member of
      the group, in list order; earlier recipients stay. */
  method FillEmailList(s: Store, c: Coordinator) returns (c2: Coordinator)
    requires c.group in s.heap.groups && MembersAllocated(s, c.group)
    ensures c2.group == c.group && c2.recent == c.recent
    ensures |c2.emails| == |c.emails| + |s.heap.groups[c.group].members|
    ensures c2.emails[..|c.emails|] == c.emails
    ensures forall i :: 0 <= i < |s.heap.groups[c.group].members| ==>
              c2.emails[|c.emails| + i] == s.heap.members[s.heap.groups[c.group].members[i]].email
    ensures c2.emails == c.emails + Emails(s, c.group)
  {
    var refs := s.heap.groups[c.group].members;
    var emails := c.emails;
    for i := 0 to |refs|
      invariant |emails| == |c.emails| + i
      invariant emails[..|c.emails|] == c.emails
      invariant forall j :: 0 <= j < i ==> emails[|c.emails| + j] == s.heap.members[refs[j]].email
    {
      emails := emails + [s.heap.members[refs[i]].email];
    }
    c2 := c.(emails := emails);
  }

  /** `DayOfWeek`, printed by the name of its constant. */
  datatype Weekday = Monday | Tuesday | Wednesday | Thursday | Friday | Saturday | Sunday

  function WeekdayName(d: Weekday): string {
    match d
    case Monday => "MONDAY"
    case Tuesday => "TUESDAY"
    case Wednesday => "WEDNESDAY"
    case Thursday => "THURSDAY"
    case Friday => "FRIDAY"
    case Saturday => "SATURDAY"
    case Sunday => "SUNDAY"
  }

  /** The opening of the announcement: topic, location, hour and minute
      (unpadded decimal) and day of the week. */
  function Header(seminar: Seminar, day: Weekday): string {
    "Hello,\nThis week's seminar on the topic of: " + seminar.topic + ", is in " + seminar.location
    + " at " + IntToString(seminar.dateTime.hour) + ":" + IntToString(seminar.dateTime.minute)
    + " on " + WeekdayName(day) + "\n\nHere is a list of this months publications:\n"
  }

  /** Every handle is allocated and its publication names at least one
      author, whose name the digest prints. */
  predicate Printable(pubs: map<PubRef, Publication>, refs: seq<PubRef>) {
    forall i :: 0 <= i < |refs| ==> refs[i] in pubs && |pubs[refs[i]].authors| >= 1
  }

  /** One digest line: a new line, the title, a tab and the first author,
      with " et al." when there are further authors. */
  function Line(p: Publication): string
    requires |p.authors| >= 1
  {
    "\n" + p.title + "\t" + p.authors[0] + (if |p.authors| > 1 then " et al." else "")
  }

  /** The digest lines of the publications, in order. */
  function Listing(pubs: map<PubRef, Publication>, refs: seq<PubRef>): string
    requires Printable(pubs, refs)
    decreases |refs|
  {
    if |refs| == 0 then ""
    else
      var n := |refs| - 1;
      assert Printable(pubs, refs[..n]) by {
        assert forall i :: 0 <= i < n ==> refs[..n][i] == refs[i];
      }
      Listing(pubs, refs[..n]) + Line(pubs[refs[n]])
  }

  /** Two printable selections in a row are printable. */
  lemma PrintableConcat(pubs: map<PubRef, Publication>, a: seq<PubRef>, b: seq<PubRef>)
    requires Printable(pubs, a) && Printable(pubs, b)
    ensures Printable(pubs, a + b)
  {
    forall i | 0 <= i < |a + b| ensures (a + b)[i] in pubs && |pubs[(a + b)[i]].authors| >= 1 {
      if i >= |a| {
        assert (a + b)[i] == b[i - |a|];
      }
    }
  }

  /** The digest of two selections in a row is the digest of the first
      followed by that of the second, so a second publish repeats every
      line of the first before its own. */
  lemma {:induction false} ListingAppend(pubs: map<PubRef, Publication>, a: seq<PubRef>, b: seq<PubRef>)
    requires Printable(pubs, a) && Printable(pubs, b)
    ensures Printable(pubs, a + b)
    ensures Listing(pubs, a + b) == Listing(pubs, a) + Listing(pubs, b)
    decreases |b|
  {
    PrintableConcat(pubs, a, b);
    if |b| == 0 {
      assert a + b == a;
    } else {
      var n := |b| - 1;
      assert Printable(pubs, b[..n]) by {
        assert forall i :: 0 <= i < n ==> b[..n][i] == b[i];
      }
      ListingAppend(pubs, a, b[..n]);
      assert (a + b)[..|a + b| - 1] == a + b[..n];
      assert (a + b)[|a + b| - 1] == b[n];
      calc {
        Listing(pubs, a + b);
        Listing(pubs, a + b[..n]) + Line(pubs[b[n]]);
        Listing(pubs, a) + Listing(pubs, b[..n]) + Line(pubs[b[n]]);
        Listing(pubs, a) + Listing(pubs, b);
      }
    }
  }

  /** The loop of `publishSeminar` that appends one digest
      line per selected publication to the header. */
  method BuildMessage(pubs: map<PubRef, Publication>, refs: seq<PubRef>, header: string) returns (message: string)
    requires Printable(pubs, refs)
    ensures message == header + Listing(pubs, refs)
  {
    message := header;
    for i := 0 to |refs|
      invariant Printable(pubs, refs[..i])
      invariant message == header + Listing(pubs, refs[..i])
    {
      var p := pubs[refs[i]];
      assert refs[..i + 1][..i] == refs[..i];
      message := message + ("\n" + p.title + "\t" + p.authors[0]);
      if |p.authors| > 1 {
        message := message + " et al.";
      }
    }
    assert refs[..|refs|] == refs;
  }

  /** What a publish hands to the mail system, and the controller after
      it. */
  datatype Published = Published(controller: Coordinator, recipients: seq<string>, message: string)

  /** `publishSeminar`: refused unless `seminar` equals a
      listed seminar of the group and is strictly after `now`; otherwise
      the selection and recipient lists grow, and the announcement lists
      every publication selected so far, by this publish and earlier ones.
      The sending itself is not modelled. */
  method PublishSeminar(s: Store, c: Coordinator, seminar: Seminar, now: Instant, cutoff: Date, day: Weekday)
    returns (r: Result<Published, Error>)
    requires c.group in s.heap.groups && PublicationsAllocated(s) && MembersAllocated(s, c.group)
    requires Printable(s.heap.pubs, c.recent)
    requires Printable(s.heap.pubs, Filter(s.publications, Recent(s.heap.pubs, s.heap.groups[c.group].groupID, cutoff)))
    ensures r.Err? <==> !(ResearchGroup.HasSeminar(s.heap.groups[c.group], seminar) && AfterNow(seminar.dateTime, now))
    ensures r.Err? ==> r.error == NotPublishable
    ensures r.Ok? ==> r.value.controller.group == c.group
    ensures r.Ok? ==> r.value.controller.recent ==
                        c.recent + Filter(s.publications, Recent(s.heap.pubs, s.heap.groups[c.group].groupID, cutoff))
    ensures r.Ok? ==> r.value.controller.emails == c.emails + Emails(s, c.group)
    ensures r.Ok? ==> r.value.recipients == r.value.controller.emails
    ensures r.Ok? ==> Printable(s.heap.pubs, r.value.controller.recent) &&
                      r.value.message == Header(seminar, day) + Listing(s.heap.pubs, r.value.controller.recent)
  {
    var grp := s.heap.groups[c.group];
    if !(ResearchGroup.HasSeminar(grp, seminar) && AfterNow(seminar.dateTime, now)) {
      return Err(NotPublishable);
    }
    var c1 := FillPublicationList(s, c, cutoff);
    var c2 := FillEmailList(s, c1);
    ListingAppend(s.heap.pubs, c.recent, Filter(s.publications, Recent(s.heap.pubs, grp.groupID, cutoff)));
    var message := BuildMessage(s.heap.pubs, c2.recent, Header(seminar, day));
    return Ok(Published(c2, c2.emails, message));
  }
}
