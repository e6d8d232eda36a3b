/**
 The contract of the C library's qsort (section 7.20.5.2 of ISO C99), and an in-place sort that
 meets it. Users of the contract may rely on nothing else: elements that compare equal come out
 in any order.
 */
module Qsort {

  ghost predicate TotalPreorder<T(!new)>(cmp: (T, T) -> int) {
    && (forall a, b :: cmp(a, b) <= 0 || cmp(b, a) <= 0)
    && (forall a, b, c :: cmp(a, b) <= 0 && cmp(b, c) <= 0 ==> cmp(a, c) <= 0)
  }

  ghost predicate Sorted<T>(s: seq<T>, cmp: (T, T) -> int) {
    forall i, j :: 0 <= i < j < |s| ==> cmp(s[i], s[j]) <= 0
  }

  ghost predicate IsQsortOf<T>(input: seq<T>, output: seq<T>, cmp: (T, T) -> int) {
    multiset(output) == multiset(input) && Sorted(output, cmp)
  }

  function Insert<T>(s: seq<T>, e: T, cmp: (T, T) -> int): seq<T> {
    if s == [] || cmp(s[|s| - 1], e) <= 0 then s + [e]
    else Insert(s[..|s| - 1], e, cmp) + [s[|s| - 1]]
  }

  function InsertAll<T>(s: seq<T>, cmp: (T, T) -> int): seq<T> {
    if s == [] then [] else Insert(InsertAll(s[..|s| - 1], cmp), s[|s| - 1], cmp)
  }

  lemma {:induction false} InsertKeepsElements<T>(s: seq<T>, e: T, cmp: (T, T) -> int)
    ensures multiset(Insert(s, e, cmp)) == multiset(s) + multiset{e}
  {
    if s != [] && cmp(s[|s| - 1], e) > 0 {
      InsertKeepsElements(s[..|s| - 1], e, cmp);
      assert s == s[..|s| - 1] + [s[|s| - 1]];
    }
  }

  lemma AppendSorted<T(!new)>(s: seq<T>, e: T, cmp: (T, T) -> int)
    requires TotalPreorder(cmp) && Sorted(s, cmp)
    requires s != [] ==> cmp(s[|s| - 1], e) <= 0 || forall i :: 0 <= i < |s| ==> cmp(s[i], e) <= 0
    ensures Sorted(s + [e], cmp)
  {
    forall i | 0 <= i < |s| ensures cmp(s[i], e) <= 0 {
      if i < |s| - 1 {
        assert cmp(s[i], s[|s| - 1]) <= 0;
      }
    }
  }

  lemma {:induction false} InsertSorts<T(!new)>(s: seq<T>, e: T, cmp: (T, T) -> int)
    requires TotalPreorder(cmp) && Sorted(s, cmp)
    ensures Sorted(Insert(s, e, cmp), cmp)
  {
    if s != [] && cmp(s[|s| - 1], e) > 0 {
      var init, last := s[..|s| - 1], s[|s| - 1];
      var out := Insert(init, e, cmp);
      InsertSorts(init, e, cmp);
      InsertKeepsElements(init, e, cmp);
      forall i | 0 <= i < |out| ensures cmp(out[i], last) <= 0 {
        assert out[i] in multiset(init) + multiset{e};
        if out[i] != e {
          assert out[i] in init;
        }
      }
      AppendSorted(out, last, cmp);
    } else if s != [] {
      AppendSorted(s, e, cmp);
    }
  }

  lemma {:induction false} InsertAllIsQsort<T(!new)>(s: seq<T>, cmp: (T, T) -> int)
    requires TotalPreorder(cmp)
    ensures IsQsortOf(s, InsertAll(s, cmp), cmp)
  {
    if s != [] {
      var init, last := s[..|s| - 1], s[|s| - 1];
      InsertAllIsQsort(init, cmp);
      InsertSorts(InsertAll(init, cmp), last, cmp);
      InsertKeepsElements(InsertAll(init, cmp), last, cmp);
      assert s == init + [last];
    }
  }

  lemma {:induction false} InsertPosition<T>(s: seq<T>, e: T, cmp: (T, T) -> int, j: nat)
    requires j <= |s|
    requires j > 0 ==> cmp(s[j - 1], e) <= 0
    requires forall k :: j <= k < |s| ==> cmp(s[k], e) > 0
    ensures Insert(s, e, cmp) == s[..j] + [e] + s[j..]
  {
    if j == |s| {
      assert s[..j] == s && s[j..] == [];
    } else {
      var init := s[..|s| - 1];
      InsertPosition(init, e, cmp, j);
      assert init[..j] == s[..j] && init[j..] + [s[|s| - 1]] == s[j..];
    }
  }

  /** Makes room for `e` by moving the larger elements before `i` up by one place. */
  method Shift<T>(a: array<T>, i: nat, e: T, cmp: (T, T) -> int) returns (j: nat)
    requires i < a.Length
    modifies a
    ensures j <= i && (j > 0 ==> cmp(old(a[..])[j - 1], e) <= 0)
    ensures forall k :: j <= k < i ==> cmp(old(a[..])[k], e) > 0
    ensures Shifted(old(a[..]), a[..], j, i)
  {
    ghost var was := a[..];
    j := i;
    while j > 0 && cmp(a[j - 1], e) > 0
      invariant 0 <= j <= i
      invariant forall k :: j <= k < i ==> cmp(was[k], e) > 0
      invariant Shifted(was, a[..], j, i)
    {
      ghost var before := a[..];
      a[j] := a[j - 1];
      j := j - 1;
      assert a[..] == before[j + 1 := before[j]];
      ShiftOne(was, before, j, i);
    }
  }

  /** `now` has the elements of `was` from `j` on up to `i` one place higher; place `j` is free. */
  ghost predicate Shifted<T>(was: seq<T>, now: seq<T>, j: nat, i: nat)
    requires j <= i < |was|
  {
    && |now| == |was|
    && (forall k {:trigger now[k]} :: 0 <= k < j ==> now[k] == was[k])
    && (forall k {:trigger now[k]} :: j < k <= i ==> now[k] == was[k - 1])
    && (forall k {:trigger now[k]} :: i < k < |was| ==> now[k] == was[k])
  }

  lemma ShiftOne<T>(was: seq<T>, now: seq<T>, j: nat, i: nat)
    requires j + 1 <= i < |was| && Shifted(was, now, j + 1, i)
    ensures Shifted(was, now[j + 1 := now[j]], j, i)
  {
  }

  method InsertInPlace<T>(a: array<T>, i: nat, cmp: (T, T) -> int)
    requires i < a.Length
    modifies a
    ensures a[..i + 1] == Insert(old(a[..i]), old(a[i]), cmp)
    ensures a[i + 1..] == old(a[i + 1..])
  {
    ghost var was := a[..];
    var e := a[i];
    var j := Shift(a, i, e, cmp);
    ghost var now := a[..];
    a[j] := e;
    FillGap(was, now, j, i, cmp);
  }

  /** Putting the element into the free place completes the insertion. */
  lemma FillGap<T>(was: seq<T>, now: seq<T>, j: nat, i: nat, cmp: (T, T) -> int)
    requires j <= i < |was| && Shifted(was, now, j, i)
    requires j > 0 ==> cmp(was[j - 1], was[i]) <= 0
    requires forall k :: j <= k < i ==> cmp(was[k], was[i]) > 0
    ensures now[j := was[i]][..i + 1] == Insert(was[..i], was[i], cmp)
    ensures now[j := was[i]][i + 1..] == was[i + 1..]
  {
    var s, e := was[..i], was[i];
    InsertPosition(s, e, cmp, j);
    assert now[j := e][..i + 1] == now[..j] + [e] + now[j + 1..i + 1];
    assert s[..j] == was[..j] && s[j..] == was[j..i];
  }

  lemma InsertAllStep<T>(s: seq<T>, i: nat, cmp: (T, T) -> int)
    requires i < |s|
    ensures InsertAll(s[..i + 1], cmp) == Insert(InsertAll(s[..i], cmp), s[i], cmp)
  {
    assert s[..i + 1][..i] == s[..i];
  }

  method Sort<T(!new)>(a: array<T>, count: nat, cmp: (T, T) -> int)
    requires count <= a.Length && TotalPreorder(cmp)
    modifies a
    ensures IsQsortOf(old(a[..count]), a[..count], cmp)
    ensures a[count..] == old(a[count..])
  {
    ghost var was := a[..];
    for i := 0 to count
      invariant a[..i] == InsertAll(was[..i], cmp)
      invariant a[i..] == was[i..]
    {
      ghost var rest := a[i..];
      assert a[i] == rest[0] == was[i] && a[i + 1..] == rest[1..];
      InsertInPlace(a, i, cmp);
      InsertAllStep(was, i, cmp);
    }
    InsertAllIsQsort(was[..count], cmp);
  }
}
