/** `UserController`: the searches any user can run over the store's
    publication list. Each scans the list in order and fails when nothing
    matches. */
module UserController {
  import opened Wrappers
  import opened Seqs
  import opened Entities
  import opened DataStorage

  /** Every handle on the publication list is allocated. */
  predicate PubsListed(s: Store) {
    forall i :: 0 <= i < |s.publications| ==> s.publications[i] in s.heap.pubs
  }

  function TitleIs(pubs: map<PubRef, Publication>, title: string): PubRef -> bool {
    x => x in pubs && pubs[x].title == title
  }

  function ByAuthor(pubs: map<PubRef, Publication>, author: string): PubRef -> bool {
    x => x in pubs && author in pubs[x].authors
  }

  function OfType(pubs: map<PubRef, Publication>, t: PublicationType): PubRef -> bool {
    x => x in pubs && pubs[x].Type() == t
  }

  /** `searchByTitle`: the publication with that title at the lowest index. */
  method SearchByTitle(s: Store, title: string) returns (r: Result<PubRef, Error>)
    requires PubsListed(s)
    ensures r.Err? <==> forall i :: 0 <= i < |s.publications| ==> s.heap.pubs[s.publications[i]].title != title
    ensures r.Err? ==> r.error == NoResult
    ensures r.Ok? ==> exists i: nat :: IsFirst(s.publications, TitleIs(s.heap.pubs, title), i) && r.value == s.publications[i]
  {
    var index: Option<nat> := None;
    var i := 0;
    while i < |s.publications|
      invariant 0 <= i <= |s.publications|
      invariant index.None? ==> forall j :: 0 <= j < i ==> s.heap.pubs[s.publications[j]].title != title
      invariant index.Some? ==> IsFirst(s.publications, TitleIs(s.heap.pubs, title), index.value)
    {
      if s.heap.pubs[s.publications[i]].title == title {
        index := Some(i);
        break;
      }
      i := i + 1;
    }
    if index.None? {
      return Err(NoResult);
    }
    return Ok(s.publications[index.value]);
  }

  /** The inner scan of `searchByAuthor`: stops at the first equal name. */
  method ListsName(names: seq<string>, name: string) returns (found: bool)
    ensures found <==> name in names
  {
    found := false;
    for i := 0 to |names|
      invariant found <==> name in names[..i]
    {
      if names[i] == name {
        found := true;
        break;
      }
    }
  }

  /** The outer loop of `searchByAuthor`: appends each publication whose
      author scan finds the name. */
  method KeepAuthored(pubs: map<PubRef, Publication>, refs: seq<PubRef>, author: string)
    returns (found: seq<PubRef>)
    requires forall i :: 0 <= i < |refs| ==> refs[i] in pubs
    ensures found == Filter(refs, ByAuthor(pubs, author))
  {
    found := [];
    for i := 0 to |refs|
      invariant found == Filter(refs[..i], ByAuthor(pubs, author))
    {
      FilterStep(refs, i, ByAuthor(pubs, author));
      var listed := ListsName(pubs[refs[i]].authors, author);
      if listed {
        found := found + [refs[i]];
      }
    }
    assert refs[..|refs|] == refs;
  }

  /** `searchByAuthor`: in list order, every publication whose author list
      holds the name, and only those. */
  method SearchByAuthor(s: Store, author: string) returns (r: Result<seq<PubRef>, Error>)
    requires PubsListed(s)
    ensures r.Err? <==> forall i :: 0 <= i < |s.publications| ==> author !in s.heap.pubs[s.publications[i]].authors
    ensures r.Err? ==> r.error == NoResult
    ensures r.Ok? ==> r.value == Filter(s.publications, ByAuthor(s.heap.pubs, author))
  {
    var found := KeepAuthored(s.heap.pubs, s.publications, author);
    FilterEmpty(s.publications, ByAuthor(s.heap.pubs, author));
    if |found| == 0 {
      return Err(NoResult);
    }
    return Ok(found);
  }

  /** `searchByType`: in list order, every publication of the type, and
      only those. */
  method SearchByType(s: Store, t: PublicationType) returns (r: Result<seq<PubRef>, Error>)
    requires PubsListed(s)
    ensures r.Err? <==> forall i :: 0 <= i < |s.publications| ==> s.heap.pubs[s.publications[i]].Type() != t
    ensures r.Err? ==> r.error == NoResult
    ensures r.Ok? ==> r.value == Filter(s.publications, OfType(s.heap.pubs, t))
  {
    var found := KeepMatching(s.publications, OfType(s.heap.pubs, t));
    FilterEmpty(s.publications, OfType(s.heap.pubs, t));
    if |found| == 0 {
      return Err(NoResult);
    }
    return Ok(found);
  }
}
