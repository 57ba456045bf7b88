/** The edit loops of the administrator: a for-each over a list of handles
    that edits every object equal to a target object. The comparison reads
    the target's CURRENT state, and the target may itself be on the list:
    once the loop has edited it, later objects are compared with its edited
    state. */
module Sweeps {
  import opened Seqs

  /** Whether the sweep edits `x`: it is listed before the target's first
      place on the list (anywhere, when the target is not listed) and equals
      the target's original state; or it is the target; or it is listed
      after the target's first place and equals the target's edited state. */
  predicate Swept<T>(objs: map<nat, T>, refs: seq<nat>, t: nat, same: (T, T) -> bool, edit: T -> T, x: nat)
    requires t in objs && x in objs
  {
    SweptUpTo(objs, refs, t, same, edit, x, |refs|)
  }

  /** `Swept` for the first `i` handles of the list. */
  predicate SweptUpTo<T>(objs: map<nat, T>, refs: seq<nat>, t: nat, same: (T, T) -> bool, edit: T -> T, x: nat, i: nat)
    requires t in objs && x in objs && i <= |refs|
  {
    var k := IndexOf(refs, t);
    || (x in refs[..if i < k then i else k] && same(objs[x], objs[t]))
    || (k < i && (x == t || (x in refs[k + 1..i] && same(objs[x], edit(objs[t])))))
  }

  /** Extending the prefix by one handle adds at most that handle, and adds
      it exactly when the loop's comparison at that step succeeds. */
  lemma SweptStep<T>(objs: map<nat, T>, refs: seq<nat>, t: nat, same: (T, T) -> bool, edit: T -> T, x: nat, i: nat)
    requires t in objs && x in objs && i < |refs|
    ensures SweptUpTo(objs, refs, t, same, edit, x, i + 1) <==>
              || SweptUpTo(objs, refs, t, same, edit, x, i)
              || (x == refs[i] && (if i < IndexOf(refs, t) then same(objs[x], objs[t])
                                   else if i == IndexOf(refs, t) then true
                                   else same(objs[x], edit(objs[t]))))
  {
    var k := IndexOf(refs, t);
    assert refs[..i + 1] == refs[..i] + [refs[i]];
    if k < i {
      assert refs[k + 1..i + 1] == refs[k + 1..i] + [refs[i]];
    } else if k == i {
      assert refs[k + 1..i + 1] == [];
    }
  }

  /** Before its first place on the list, the target is not edited. */
  lemma TargetUntouched<T>(objs: map<nat, T>, refs: seq<nat>, t: nat, same: (T, T) -> bool, edit: T -> T, i: nat)
    requires t in objs && i <= IndexOf(refs, t) && i <= |refs|
    ensures !SweptUpTo(objs, refs, t, same, edit, t, i)
  {
    assert t !in refs[..i];
  }

  /** The for-each loop: edits each listed object equal to the target's
      current state, and reports whether any was. */
  method EditSweep<T>(objs: map<nat, T>, refs: seq<nat>, t: nat, same: (T, T) -> bool, edit: T -> T)
    returns (r: map<nat, T>, found: bool)
    requires forall i :: 0 <= i < |refs| ==> refs[i] in objs
    requires t in objs
    requires forall a :: same(a, a)
    requires forall a :: edit(edit(a)) == edit(a)
    ensures r.Keys == objs.Keys
    ensures found <==> exists i :: 0 <= i < |refs| && same(objs[refs[i]], objs[t])
    ensures forall x :: x in objs ==> r[x] == if Swept(objs, refs, t, same, edit, x) then edit(objs[x]) else objs[x]
  {
    r := objs;
    found := false;
    ghost var k := IndexOf(refs, t);
    for i := 0 to |refs|
      invariant r.Keys == objs.Keys
      invariant found <==> exists j :: 0 <= j < i && same(objs[refs[j]], objs[t])
      invariant forall x :: x in objs ==>
                  r[x] == if SweptUpTo(objs, refs, t, same, edit, x, i) then edit(objs[x]) else objs[x]
    {
      var x := refs[i];
      if i <= k {
        TargetUntouched(objs, refs, t, same, edit, i);
      }
      forall y | y in objs
        ensures SweptUpTo(objs, refs, t, same, edit, y, i + 1) <==>
                  || SweptUpTo(objs, refs, t, same, edit, y, i)
                  || (y == x && (if i < k then same(objs[y], objs[t])
                                 else if i == k then true
                                 else same(objs[y], edit(objs[t]))))
      {
        SweptStep(objs, refs, t, same, edit, y, i);
      }
      if same(r[x], r[t]) {
        r := r[x := edit(r[x])];
        found := true;
      }
    }
  }

  /** When the target is not listed, the sweep edits exactly the listed
      objects equal to it. */
  lemma SweptUnlisted<T>(objs: map<nat, T>, refs: seq<nat>, t: nat, same: (T, T) -> bool, edit: T -> T, x: nat)
    requires t in objs && x in objs && t !in refs
    ensures Swept(objs, refs, t, same, edit, x) <==> x in refs && same(objs[x], objs[t])
  {
    assert refs[..|refs|] == refs;
  }

  /** When the target is listed and no other listed object equals either
      its original or its edited state, the sweep edits the target alone. */
  lemma SweptOnlyTarget<T>(objs: map<nat, T>, refs: seq<nat>, t: nat, same: (T, T) -> bool, edit: T -> T, x: nat)
    requires t in objs && x in objs && t in refs
    requires forall i :: 0 <= i < |refs| ==> refs[i] in objs
    requires forall i :: 0 <= i < |refs| && refs[i] != t ==>
               !same(objs[refs[i]], objs[t]) && !same(objs[refs[i]], edit(objs[t]))
    ensures Swept(objs, refs, t, same, edit, x) <==> x == t
  {
    var k := IndexOf(refs, t);
    if x in refs[..k] {
      var j :| 0 <= j < k && refs[j] == x;
    }
    if x in refs[k + 1..] && x != t {
      var j :| k + 1 <= j < |refs| && refs[j] == x;
    }
  }
}
