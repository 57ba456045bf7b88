/** Linear scans over ordered lists, as `ArrayList.contains`, `indexOf`,
    `remove(Object)` and filtering for-each loops perform them. */
module Seqs {
  import opened Wrappers

  /** The index of the first element satisfying `p`, if any. */
  function FirstIndex<T>(s: seq<T>, p: T -> bool): (r: Option<nat>)
    ensures r.Some? ==> r.value < |s| && p(s[r.value])
    ensures r.Some? ==> forall j :: 0 <= j < r.value ==> !p(s[j])
    ensures r.None? <==> forall j :: 0 <= j < |s| ==> !p(s[j])
  {
    if |s| == 0 then None
    else if p(s[0]) then Some(0)
    else match FirstIndex(s[1..], p)
      case None => None
      case Some(i) => Some(i + 1)
  }

  /** Scans of two lists of equal length that agree pointwise on their
      predicates stop at the same index. */
  lemma {:induction false} FirstIndexSame<A, B>(a: seq<A>, p: A -> bool, b: seq<B>, q: B -> bool)
    requires |a| == |b|
    requires forall i :: 0 <= i < |a| ==> p(a[i]) == q(b[i])
    ensures FirstIndex(a, p) == FirstIndex(b, q)
    decreases |a|
  {
    if |a| > 0 && !p(a[0]) {
      FirstIndexSame(a[1..], p, b[1..], q);
    }
  }

  /** The first element satisfying `p` is the one `FirstIndex` finds. */
  lemma FirstIndexOf<T>(s: seq<T>, p: T -> bool, k: nat)
    requires IsFirst(s, p, k)
    ensures FirstIndex(s, p) == Some(k)
  {
  }

  /** The index of the first occurrence of `x`, or `|s|` when there is
      none. */
  function IndexOf<T(==)>(s: seq<T>, x: T): (k: nat)
    ensures k <= |s|
    ensures k < |s| ==> s[k] == x
    ensures forall j :: 0 <= j < k ==> s[j] != x
    ensures k == |s| <==> x !in s
  {
    if |s| == 0 then 0
    else if s[0] == x then 0
    else 1 + IndexOf(s[1..], x)
  }

  /** True when some element satisfies `p`. */
  predicate Exists<T>(s: seq<T>, p: T -> bool) {
    exists j :: 0 <= j < |s| && p(s[j])
  }

  /** `i` is the index of the first element satisfying `p`. */
  predicate IsFirst<T>(s: seq<T>, p: T -> bool, i: nat) {
    i < |s| && p(s[i]) && forall j :: 0 <= j < i ==> !p(s[j])
  }

  /** `i` is the index of the last element satisfying `p`. */
  predicate IsLast<T>(s: seq<T>, p: T -> bool, i: nat) {
    i < |s| && p(s[i]) && forall j :: i < j < |s| ==> !p(s[j])
  }

  /** The index of the last element satisfying `p`, if any. */
  function LastIndex<T>(s: seq<T>, p: T -> bool): (r: Option<nat>)
    ensures r.None? <==> forall j :: 0 <= j < |s| ==> !p(s[j])
    ensures r.Some? ==> IsLast(s, p, r.value)
    decreases |s|
  {
    if |s| == 0 then None
    else if p(s[|s| - 1]) then Some(|s| - 1)
    else
      var r := LastIndex(s[..|s| - 1], p);
      assert forall j :: 0 <= j < |s| - 1 ==> s[..|s| - 1][j] == s[j];
      r
  }

  /** A prefix one element longer is the shorter prefix with that element
      appended. */
  lemma PrefixStep<T>(s: seq<T>, i: nat)
    requires i < |s|
    ensures s[..i + 1] == s[..i] + [s[i]]
  {
  }

  /** Growing a prefix by one element: the last match moves to the new
      element exactly when it satisfies `p`. */
  lemma LastIndexStep<T>(s: seq<T>, p: T -> bool, i: nat)
    requires i < |s|
    ensures LastIndex(s[..i + 1], p) == if p(s[i]) then Some(i) else LastIndex(s[..i], p)
  {
    assert s[..i + 1][..i] == s[..i];
  }

  /** A for-each loop that remembers the last element satisfying `p`. */
  method LastMatching<T>(s: seq<T>, p: T -> bool) returns (r: Option<nat>)
    ensures r.None? <==> forall j :: 0 <= j < |s| ==> !p(s[j])
    ensures r.Some? ==> IsLast(s, p, r.value)
  {
    r := None;
    for i := 0 to |s|
      invariant r.None? ==> forall j :: 0 <= j < i ==> !p(s[j])
      invariant r.Some? ==> r.value < i && p(s[r.value]) && forall j :: r.value < j < i ==> !p(s[j])
    {
      if p(s[i]) {
        r := Some(i);
      }
    }
  }

  /** `ArrayList.remove(Object)`: drops the first element satisfying `p`;
      the list is unchanged when there is none. */
  function RemoveFirst<T>(s: seq<T>, p: T -> bool): (r: seq<T>)
    ensures !Exists(s, p) ==> r == s
    ensures forall i :: IsFirst(s, p, i) ==> r == RemoveAt(s, i)
  {
    match FirstIndex(s, p)
    case None => s
    case Some(i) => RemoveAt(s, i)
  }

  /** The list without its `i`-th element. */
  function RemoveAt<T>(s: seq<T>, i: nat): (r: seq<T>)
    requires i < |s|
    ensures |r| == |s| - 1
    ensures forall j :: 0 <= j < i ==> r[j] == s[j]
    ensures forall j :: i <= j < |r| ==> r[j] == s[j + 1]
  {
    s[..i] + s[i + 1..]
  }

  /** The elements satisfying `p`, in their original order. */
  function Filter<T(!new)>(s: seq<T>, p: T -> bool): (r: seq<T>)
    ensures |r| <= |s|
  {
    if |s| == 0 then []
    else if p(s[0]) then [s[0]] + Filter(s[1..], p)
    else Filter(s[1..], p)
  }

  /** `Filter` keeps every occurrence of an element satisfying `p` and
      nothing else. */
  lemma {:induction false} FilterContents<T(!new)>(s: seq<T>, p: T -> bool)
    ensures forall x :: x in Filter(s, p) <==> x in s && p(x)
    ensures forall x :: multiset(Filter(s, p))[x] == if p(x) then multiset(s)[x] else 0
    decreases |s|
  {
    if |s| > 0 {
      FilterContents(s[1..], p);
      assert s == [s[0]] + s[1..];
    }
  }

  /** Filtering commutes with concatenation, so the filtered list keeps the
      relative order of the input. */
  lemma {:induction false} FilterConcat<T(!new)>(a: seq<T>, b: seq<T>, p: T -> bool)
    ensures Filter(a + b, p) == Filter(a, p) + Filter(b, p)
    decreases |a|
  {
    if |a| == 0 {
      assert a + b == b;
    } else {
      assert (a + b)[1..] == a[1..] + b;
      FilterConcat(a[1..], b, p);
    }
  }

  /** Filtering keeps nothing exactly when no element satisfies `p`. */
  lemma FilterEmpty<T(!new)>(s: seq<T>, p: T -> bool)
    ensures Filter(s, p) == [] <==> forall i :: 0 <= i < |s| ==> !p(s[i])
  {
    FilterContents(s, p);
    if Filter(s, p) != [] {
      assert Filter(s, p)[0] in Filter(s, p);
    } else {
      forall i | 0 <= i < |s| ensures !p(s[i]) {
        assert s[i] in s;
      }
    }
  }

  /** Keeping the matches of a longer prefix appends at most the new one. */
  lemma FilterStep<T(!new)>(s: seq<T>, i: nat, p: T -> bool)
    requires i < |s|
    ensures Filter(s[..i + 1], p) == Filter(s[..i], p) + (if p(s[i]) then [s[i]] else [])
  {
    assert s[..i + 1] == s[..i] + [s[i]];
    FilterConcat(s[..i], [s[i]], p);
    assert [s[i]][1..] == [];
  }

  /** A for-each loop that appends every element satisfying `p` to a new
      list. */
  method KeepMatching<T(!new)>(s: seq<T>, p: T -> bool) returns (found: seq<T>)
    ensures found == Filter(s, p)
  {
    found := [];
    for i := 0 to |s|
      invariant found == Filter(s[..i], p)
    {
      FilterStep(s, i, p);
      if p(s[i]) {
        found := found + [s[i]];
      }
    }
    assert s[..|s|] == s;
  }

  /** An element appended to a list none of whose elements satisfies `p`
      is the first to satisfy it, and removing it gives the list back. */
  lemma AppendedIsFirst<T>(s: seq<T>, x: T, p: T -> bool)
    requires p(x) && forall i :: 0 <= i < |s| ==> !p(s[i])
    ensures IsFirst(s + [x], p, |s|)
    ensures RemoveAt(s + [x], |s|) == s
  {
    assert (s + [x])[..|s|] == s;
  }
}
