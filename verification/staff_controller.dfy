/** `AcademicStaffController`: a staff member logs in, then adds and removes
    publications (on the store's list and on their own list) and edits any
    listed publication by its ID. Each action changes the store step by
    step, so a failure in a later step keeps the effects of the earlier
    ones. */
module StaffController {
  import opened Wrappers
  import opened Seqs
  import opened Entities
  import opened Objects
  import opened DataStorage
  import ResearchGroup
  import AcademicStaff

  /* ---------------- Login ---------------- */

  /** Selects the staff handles whose email and password are the given ones. */
  function HasCredentials(members: map<MemberRef, Member>, email: string, password: string): MemberRef -> bool {
    x => x in members && members[x].Staff? && members[x].email == email && members[x].password == password
  }

  /** Every handle on the staff list is an allocated staff member. */
  predicate StaffListed(s: Store) {
    forall i :: 0 <= i < |s.staff| ==> s.staff[i] in s.heap.members && s.heap.members[s.staff[i]].Staff?
  }

  /** `login`: scans the whole staff list and keeps the LAST member with
      these credentials; fails when there is none. On failure the caller's
      logged-in member stays what it was. */
  method Login(s: Store, email: string, password: string) returns (r: Result<MemberRef, Error>)
    requires StaffListed(s)
    ensures r.Err? <==> forall i :: 0 <= i < |s.staff| ==>
                          s.heap.members[s.staff[i]].email != email || s.heap.members[s.staff[i]].password != password
    ensures r.Err? ==> r.error == BadCredentials
    ensures r.Ok? ==> exists i: nat :: IsLast(s.staff, HasCredentials(s.heap.members, email, password), i) && r.value == s.staff[i]
  {
    var found := LastMatching(s.staff, HasCredentials(s.heap.members, email, password));
    if found.None? {
      return Err(BadCredentials);
    }
    return Ok(s.staff[found.value]);
  }

  /** On a staff list without two equal members (which `addAcademicStaff`
      maintains), the member `login` keeps is the only one with those
      credentials, so scanning from the front would find the same one. */
  lemma LoginMatchIsUnique(s: Store, email: string, password: string, i: nat)
    requires StaffListed(s)
    requires ResearchGroup.DistinctMembers(s.heap.members, s.staff)
    requires IsLast(s.staff, HasCredentials(s.heap.members, email, password), i)
    ensures IsFirst(s.staff, HasCredentials(s.heap.members, email, password), i)
    ensures forall j :: 0 <= j < |s.staff| && HasCredentials(s.heap.members, email, password)(s.staff[j]) ==> j == i
  {
  }

  /* ---------------- Adding and removing publications ---------------- */

  /** Some publication on the store's list has `p`'s title or ID. */
  predicate Taken(s: Store, p: PubRef)
    requires p in s.heap.pubs && forall i :: 0 <= i < |s.publications| ==> s.publications[i] in s.heap.pubs
  {
    exists i :: 0 <= i < |s.publications| && Collides(s.heap.pubs[p], s.heap.pubs[s.publications[i]])
  }

  /** `m`'s own list holds a publication equal to `p`. */
  predicate OwnsEqual(s: Store, m: MemberRef, p: PubRef)
    requires m in s.heap.members && s.heap.members[m].Staff? && p in s.heap.pubs
  {
    AcademicStaff.HasPublication(s.heap.pubs, s.heap.members[m].publications, s.heap.pubs[p])
  }

  /** What the publication actions read is allocated: the logged-in staff
      member `m`, the publication `p`, and the handles on the store's list
      and on `m`'s own list. */
  predicate CanAct(s: Store, m: MemberRef, p: PubRef) {
    && m in s.heap.members && s.heap.members[m].Staff? && p in s.heap.pubs
    && (forall i :: 0 <= i < |s.publications| ==> s.publications[i] in s.heap.pubs)
    && (forall i :: 0 <= i < |s.heap.members[m].publications| ==> s.heap.members[m].publications[i] in s.heap.pubs)
  }

  /** `m`'s object with a new personal list. */
  function WithOwn(s: Store, m: MemberRef, own: seq<PubRef>): (h: Heap)
    requires m in s.heap.members && s.heap.members[m].Staff?
  {
    s.heap.(members := s.heap.members[m := s.heap.members[m].(publications := own)])
  }

  /** `addPublication` by the logged-in member `m`: the store's list first,
      then `m`'s own list. When the store refuses, nothing changes; when
      `m`'s list refuses, the store's list keeps the publication. */
  function AddPublication(s: Store, m: MemberRef, p: PubRef): (r: Outcome)
    requires CanAct(s, m, p)
    ensures Taken(s, p) ==> r == Outcome(s, Some(Duplicate(PublicationKind)))
    ensures !Taken(s, p) && OwnsEqual(s, m, p) ==>
              r == Outcome(s.(publications := s.publications + [p]), Some(Duplicate(PersonalPublicationKind)))
    ensures !Taken(s, p) && !OwnsEqual(s, m, p) ==>
              r == Outcome(s.(publications := s.publications + [p],
                              heap := WithOwn(s, m, s.heap.members[m].publications + [p])), None)
  {
    match DataStorage.AddPublication(s, p)
    case Err(e) => Outcome(s, Some(e))
    case Ok(s1) =>
      match AcademicStaff.AddPublication(s1.heap.members[m], s1.heap.pubs, p)
      case Err(e) => Outcome(s1, Some(e))
      case Ok(staff) => Outcome(s1.(heap := s1.heap.(members := s1.heap.members[m := staff])), None)
  }

  /** `removePublication` by the logged-in member `m`: the store's list
      first, then `m`'s own list; each drops the first publication equal to
      `p`. When the store's list has none, nothing changes; when `m`'s list
      has none, the store's list has already lost it. */
  function RemovePublication(s: Store, m: MemberRef, p: PubRef): (r: Outcome)
    requires CanAct(s, m, p)
    ensures !AcademicStaff.HasPublication(s.heap.pubs, s.publications, s.heap.pubs[p]) ==>
              r == Outcome(s, Some(NotFound(PublicationKind)))
    ensures AcademicStaff.HasPublication(s.heap.pubs, s.publications, s.heap.pubs[p]) && !OwnsEqual(s, m, p) ==>
              r == Outcome(s.(publications := RemoveFirst(s.publications, AcademicStaff.EqualPublication(s.heap.pubs, s.heap.pubs[p]))),
                           Some(NotFound(PersonalPublicationKind)))
    ensures AcademicStaff.HasPublication(s.heap.pubs, s.publications, s.heap.pubs[p]) && OwnsEqual(s, m, p) ==>
              r == Outcome(s.(publications := RemoveFirst(s.publications, AcademicStaff.EqualPublication(s.heap.pubs, s.heap.pubs[p])),
                              heap := WithOwn(s, m, RemoveFirst(s.heap.members[m].publications,
                                                                AcademicStaff.EqualPublication(s.heap.pubs, s.heap.pubs[p])))), None)
  {
    match DataStorage.RemovePublication(s, p)
    case Err(e) => Outcome(s, Some(e))
    case Ok(s1) =>
      match AcademicStaff.RemovePublication(s1.heap.members[m], s1.heap.pubs, p)
      case Err(e) => Outcome(s1, Some(e))
      case Ok(staff) => Outcome(s1.(heap := s1.heap.(members := s1.heap.members[m := staff])), None)
  }

  /** Replacing a staff member's personal list by one whose handles are
      allocated keeps the store well formed. */
  lemma WithOwnValid(s: Store, m: MemberRef, own: seq<PubRef>)
    requires DataStorage.Valid(s) && m in s.heap.members && s.heap.members[m].Staff?
    requires forall i :: 0 <= i < |own| ==> own[i] in s.heap.pubs
    ensures DataStorage.Valid(s.(heap := WithOwn(s, m, own)))
  {
    var h := WithOwn(s, m, own);
    assert MemberClosed(s.heap, s.heap.members[m]);
    assert h == PutMember(s.heap, m, s.heap.members[m].(publications := own));
  }

  /** Both publication actions keep the store well formed, whether they
      succeed or not. */
  lemma PublicationActionsValid(s: Store, m: MemberRef, p: PubRef)
    requires DataStorage.Valid(s) && CanAct(s, m, p)
    ensures DataStorage.Valid(AddPublication(s, m, p).store)
    ensures DataStorage.Valid(RemovePublication(s, m, p).store)
  {
    var own := s.heap.members[m].publications;
    var q := AcademicStaff.EqualPublication(s.heap.pubs, s.heap.pubs[p]);
    WithOwnValid(s.(publications := s.publications + [p]), m, own + [p]);
    WithOwnValid(s.(publications := RemoveFirst(s.publications, q)), m, RemoveFirst(own, q));
  }

  /** Setting a personal list twice keeps the second; setting it to what it
      was changes nothing. */
  lemma WithOwnTwice(s: Store, m: MemberRef, a: seq<PubRef>, b: seq<PubRef>)
    requires m in s.heap.members && s.heap.members[m].Staff?
    ensures WithOwn(s.(heap := WithOwn(s, m, a)), m, b) == WithOwn(s, m, b)
    ensures WithOwn(s, m, s.heap.members[m].publications) == s.heap
  {
    assert s.heap.members[m].(publications := s.heap.members[m].publications) == s.heap.members[m];
  }

  /** The removal half of `AddThenRemove`, from the store the add built. */
  lemma RemoveAfterAdd(s: Store, m: MemberRef, p: PubRef, s1: Store)
    requires CanAct(s, m, p) && !Taken(s, p) && !OwnsEqual(s, m, p)
    requires s1 == s.(publications := s.publications + [p],
                      heap := WithOwn(s, m, s.heap.members[m].publications + [p]))
    ensures RemovePublication(s1, m, p) == Outcome(s, None)
  {
    var q := AcademicStaff.EqualPublication(s.heap.pubs, s.heap.pubs[p]);
    var own := s.heap.members[m].publications;
    AppendedIsFirst(s.publications, p, q);
    AppendedIsFirst(own, p, q);
    assert AcademicStaff.HasPublication(s.heap.pubs, s1.publications, s.heap.pubs[p]) by {
      assert q(s1.publications[|s.publications|]);
    }
    assert OwnsEqual(s1, m, p) by {
      assert q(s1.heap.members[m].publications[|own|]);
    }
    WithOwnTwice(s, m, own + [p], own);
  }

  /** Removing a publication just added by the same member gives the store
      back: both lists and the member's object return to what they were. */
  lemma AddThenRemove(s: Store, m: MemberRef, p: PubRef)
    requires CanAct(s, m, p)
    requires AddPublication(s, m, p).error == None
    ensures RemovePublication(AddPublication(s, m, p).store, m, p) == Outcome(s, None)
  {
    RemoveAfterAdd(s, m, p, AddPublication(s, m, p).store);
  }

  /* ---------------- Editing a publication ---------------- */

  /** The arguments of the three `editPublication` overloads: the base
      fields they replace, and the variant fields (journal name and page
      number; conference name, location and date; ISBN and publisher). */
  datatype PublicationEdit = PublicationEdit(
    title: string,
    authors: seq<string>,
    abstractText: string,
    details: Details)

  /** A publication after the setters of an edit. */
  function Edited(p: Publication, e: PublicationEdit): Publication {
    p.(title := e.title, authors := e.authors, abstractText := e.abstractText, details := e.details)
  }

  /** `p` is on the store's list with the given ID: the edit applies to it. */
  predicate Targeted(s: Store, id: string, x: PubRef)
    requires x in s.heap.pubs
  {
    x in s.publications && s.heap.pubs[x].id == id
  }

  /** The loop of `editPublication`, over the publication objects: every
      listed publication with the ID gets the new fields. */
  method EditListed(pubs: map<PubRef, Publication>, refs: seq<PubRef>, id: string, e: PublicationEdit)
    returns (edited: map<PubRef, Publication>, found: bool)
    requires forall i :: 0 <= i < |refs| ==> refs[i] in pubs
    ensures edited.Keys == pubs.Keys
    ensures found <==> exists i :: 0 <= i < |refs| && pubs[refs[i]].id == id
    ensures forall x :: x in pubs ==>
              edited[x] == if x in refs && pubs[x].id == id then Edited(pubs[x], e) else pubs[x]
  {
    edited := pubs;
    found := false;
    for i := 0 to |refs|
      invariant edited.Keys == pubs.Keys
      invariant found <==> exists j :: 0 <= j < i && pubs[refs[j]].id == id
      invariant forall x :: x in pubs ==>
                  edited[x] == if x in refs[..i] && pubs[x].id == id then Edited(pubs[x], e) else pubs[x]
    {
      assert refs[..i + 1] == refs[..i] + [refs[i]];
      var x := refs[i];
      if edited[x].id == id {
        edited := edited[x := Edited(edited[x], e)];
        found := true;
      }
    }
    assert refs[..|refs|] == refs;
  }

  /** `editPublication` (all three overloads): every publication on the
      store's list with that ID gets the new title, authors, abstract and
      variant fields; nothing else changes, and titles are not checked for
      clashes. The overload must match the variant of each such
      publication. Fails, changing nothing, when no listed publication has
      the ID. */
  method EditPublication(s: Store, id: string, e: PublicationEdit) returns (r: Outcome)
    requires DataStorage.Valid(s)
    requires forall i :: 0 <= i < |s.publications| && s.heap.pubs[s.publications[i]].id == id ==>
               s.heap.pubs[s.publications[i]].Type() == TypeOf(e.details)
    ensures DataStorage.Valid(r.store)
    ensures r.error.Some? <==> forall i :: 0 <= i < |s.publications| ==> s.heap.pubs[s.publications[i]].id != id
    ensures r.error.Some? ==> r == Outcome(s, Some(NotFound(PublicationKind)))
    ensures r.store == s.(heap := r.store.heap)
    ensures r.store.heap == s.heap.(pubs := r.store.heap.pubs)
    ensures r.store.heap.pubs.Keys == s.heap.pubs.Keys
    ensures forall x :: x in s.heap.pubs && Targeted(s, id, x) ==>
              var old_ := s.heap.pubs[x]; var new_ := r.store.heap.pubs[x];
              && new_.title == e.title && new_.authors == e.authors
              && new_.abstractText == e.abstractText && new_.details == e.details
              && new_.id == old_.id && new_.groupID == old_.groupID
              && new_.staffEmail == old_.staffEmail && new_.date == old_.date
              && new_.Type() == old_.Type()
    ensures forall x :: x in s.heap.pubs && !Targeted(s, id, x) ==> r.store.heap.pubs[x] == s.heap.pubs[x]
  {
    var edited, found := EditListed(s.heap.pubs, s.publications, id, e);
    if !found {
      return Outcome(s, Some(NotFound(PublicationKind)));
    }
    var h := s.heap.(pubs := edited);
    assert forall x :: x in h.members ==> MemberClosed(h, h.members[x]) by {
      forall x | x in h.members ensures MemberClosed(h, h.members[x]) {
        assert MemberClosed(s.heap, s.heap.members[x]);
      }
    }
    assert forall x :: x in h.groups ==> GroupClosed(h, h.groups[x]) by {
      forall x | x in h.groups ensures GroupClosed(h, h.groups[x]) {
        assert GroupClosed(s.heap, s.heap.groups[x]);
      }
    }
    r := Outcome(s.(heap := h), None);
    forall x | x in s.heap.pubs && Targeted(s, id, x)
      ensures r.store.heap.pubs[x].Type() == s.heap.pubs[x].Type()
    {
      var i :| 0 <= i < |s.publications| && s.publications[i] == x;
    }
  }
}
