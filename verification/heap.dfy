/** The object graph. Java lists hold references, and the same object can sit
    in several lists at once (a staff member in its group's member list and
    in the store's staff list; a publication in the store's list and in its
    author's personal list), so a change made through one list is seen
    through every other. The heap maps handles to the current state of each
    object. */
module Objects {
  import opened Wrappers
  import opened Entities

  datatype Heap = Heap(
    pubs: map<PubRef, Publication>,
    members: map<MemberRef, Member>,
    groups: map<GroupRef, Group>,
    next: nat) // the next unused handle

  /** Every handle a group holds is allocated, and its coordinator is a
      staff member (the field is typed `AcademicStaff`). */
  ghost predicate GroupClosed(h: Heap, g: Group) {
    && (forall i :: 0 <= i < |g.members| ==> g.members[i] in h.members)
    && (g.coordinator.Some? ==>
          g.coordinator.value in h.members && h.members[g.coordinator.value].Staff?)
  }

  /** Every handle a member holds is allocated. */
  ghost predicate MemberClosed(h: Heap, m: Member) {
    && m.group in h.groups
    && (m.Staff? ==> forall i :: 0 <= i < |m.publications| ==> m.publications[i] in h.pubs)
  }

  /** No dangling handles, and every allocated handle is below `next`. */
  ghost predicate Valid(h: Heap) {
    && (forall r :: r in h.pubs ==> r < h.next)
    && (forall r :: r in h.members ==> r < h.next)
    && (forall r :: r in h.groups ==> r < h.next)
    && (forall r :: r in h.groups ==> GroupClosed(h, h.groups[r]))
    && (forall r :: r in h.members ==> MemberClosed(h, h.members[r]))
  }

  /** `h2` only adds objects to `h`: every object of `h` is still there,
      unchanged. */
  ghost predicate Extends(h: Heap, h2: Heap) {
    && h.next <= h2.next
    && (forall r :: r in h.pubs ==> r in h2.pubs && h2.pubs[r] == h.pubs[r])
    && (forall r :: r in h.members ==> r in h2.members && h2.members[r] == h.members[r])
    && (forall r :: r in h.groups ==> r in h2.groups && h2.groups[r] == h.groups[r])
  }

  lemma ExtendsTransitive(h1: Heap, h2: Heap, h3: Heap)
    requires Extends(h1, h2) && Extends(h2, h3)
    ensures Extends(h1, h3)
  {
  }

  lemma ExtendsKeepsClosed(h: Heap, h2: Heap, g: Group, m: Member)
    requires Extends(h, h2)
    ensures GroupClosed(h, g) ==> GroupClosed(h2, g)
    ensures MemberClosed(h, m) ==> MemberClosed(h2, m)
  {
  }

  /** `new` of a publication: a fresh handle to it. */
  function AllocPublication(h: Heap, p: Publication): (r: (Heap, PubRef))
    requires Valid(h)
    ensures Valid(r.0) && Extends(h, r.0)
    ensures r.1 !in h.pubs && r.1 in r.0.pubs && r.0.pubs[r.1] == p
    ensures r.0.members == h.members && r.0.groups == h.groups
    ensures r.0.pubs == h.pubs[r.1 := p]
  {
    (h.(pubs := h.pubs[h.next := p], next := h.next + 1), h.next)
  }

  /** `new` of a group member whose handles are allocated. */
  function AllocMember(h: Heap, m: Member): (r: (Heap, MemberRef))
    requires Valid(h) && MemberClosed(h, m)
    ensures Valid(r.0) && Extends(h, r.0)
    ensures r.1 !in h.members && r.1 in r.0.members && r.0.members[r.1] == m
    ensures r.0.pubs == h.pubs && r.0.groups == h.groups
    ensures r.0.members == h.members[r.1 := m]
  {
    var h2 := h.(members := h.members[h.next := m], next := h.next + 1);
    assert forall r :: r in h2.groups ==> GroupClosed(h2, h2.groups[r]) by {
      forall r | r in h2.groups ensures GroupClosed(h2, h2.groups[r]) {
        assert GroupClosed(h, h.groups[r]);
      }
    }
    (h2, h.next)
  }

  /** `new` of a research group whose handles are allocated. */
  function AllocGroup(h: Heap, g: Group): (r: (Heap, GroupRef))
    requires Valid(h) && GroupClosed(h, g)
    ensures Valid(r.0) && Extends(h, r.0)
    ensures r.1 !in h.groups && r.1 in r.0.groups && r.0.groups[r.1] == g
    ensures r.0.pubs == h.pubs && r.0.members == h.members
    ensures r.0.groups == h.groups[r.1 := g]
  {
    var h2 := h.(groups := h.groups[h.next := g], next := h.next + 1);
    assert forall r :: r in h2.members ==> MemberClosed(h2, h2.members[r]) by {
      forall r | r in h2.members ensures MemberClosed(h2, h2.members[r]) {
        assert MemberClosed(h, h.members[r]);
      }
    }
    (h2, h.next)
  }

  /** Overwrites the state of an allocated group. */
  function PutGroup(h: Heap, r: GroupRef, g: Group): (h2: Heap)
    requires Valid(h) && r in h.groups && GroupClosed(h, g)
    ensures Valid(h2)
    ensures h2.groups == h.groups[r := g]
    ensures h2.pubs == h.pubs && h2.members == h.members && h2.next == h.next
  {
    var h2 := h.(groups := h.groups[r := g]);
    assert forall x :: x in h2.members ==> MemberClosed(h2, h2.members[x]) by {
      forall x | x in h2.members ensures MemberClosed(h2, h2.members[x]) {
        assert MemberClosed(h, h.members[x]);
      }
    }
    h2
  }

  /** Overwrites the state of an allocated member, keeping its variant. */
  function PutMember(h: Heap, r: MemberRef, m: Member): (h2: Heap)
    requires Valid(h) && r in h.members && MemberClosed(h, m)
    requires m.Staff? == h.members[r].Staff?
    ensures Valid(h2)
    ensures h2.members == h.members[r := m]
    ensures h2.pubs == h.pubs && h2.groups == h.groups && h2.next == h.next
  {
    var h2 := h.(members := h.members[r := m]);
    assert forall x :: x in h2.groups ==> GroupClosed(h2, h2.groups[x]) by {
      forall x | x in h2.groups ensures GroupClosed(h2, h2.groups[x]) {
        assert GroupClosed(h, h.groups[x]);
      }
    }
    h2
  }

  /** Overwrites the state of an allocated publication. */
  function PutPublication(h: Heap, r: PubRef, p: Publication): (h2: Heap)
    requires Valid(h) && r in h.pubs
    ensures Valid(h2)
    ensures h2.pubs == h.pubs[r := p]
    ensures h2.members == h.members && h2.groups == h.groups && h2.next == h.next
  {
    var h2 := h.(pubs := h.pubs[r := p]);
    assert forall x :: x in h2.members ==> MemberClosed(h2, h2.members[x]) by {
      forall x | x in h2.members ensures MemberClosed(h2, h2.members[x]) {
        assert MemberClosed(h, h.members[x]);
      }
    }
    h2
  }
}
