/**
 The entries of the access list of libdhcp/src/acl.cpp, their comparator, and the sort.
 */
module Acl {
  import opened Wrappers
  import Qsort

  const MAX_ENTRIES: nat := 2048
  const ACCESS_PERMIT: int := 1

  datatype RawEntry = RawEntry(hwType: byte, addr: seq<byte>, mask: seq<byte>, access: int)

  /** ACL_ENTRY: 16 bytes of address, 16 bytes of mask. */
  type Entry = e: RawEntry | |e.addr| == 16 && |e.mask| == 16
    witness RawEntry(0, seq(16, _ => 0), seq(16, _ => 0), 0)

  const ZERO_ENTRY: Entry := RawEntry(0, seq(16, _ => 0), seq(16, _ => 0), 0)

  // ----- the comparator

  /** The bytes the comparator looks at, most significant first. */
  function Key(e: Entry): (k: seq<byte>)
    ensures |k| == 33
  {
    [e.hwType] + e.mask + e.addr
  }

  /** The difference of the first pair of bytes that differ, 0 if none does. */
  function Lex(x: seq<byte>, y: seq<byte>): int
    requires |x| == |y|
  {
    if x == [] then 0
    else if x[0] != y[0] then x[0] as int - y[0] as int
    else Lex(x[1..], y[1..])
  }

  function Compare(a: Entry, b: Entry): int {
    Lex(Key(a), Key(b))
  }

  lemma {:induction false} LexAtFirstDifference(x: seq<byte>, y: seq<byte>, k: nat)
    requires |x| == |y| && k < |x| && x[..k] == y[..k] && x[k] != y[k]
    ensures Lex(x, y) == x[k] as int - y[k] as int
  {
    if k > 0 {
      assert x[0] == x[..k][0] == y[..k][0];
      assert x[1..][..k - 1] == x[..k][1..] == y[..k][1..] == y[1..][..k - 1];
      LexAtFirstDifference(x[1..], y[1..], k - 1);
    }
  }

  lemma {:induction false} LexZero(x: seq<byte>, y: seq<byte>)
    requires |x| == |y|
    ensures Lex(x, y) == 0 <==> x == y
  {
    if x != [] && x[0] == y[0] {
      LexZero(x[1..], y[1..]);
      assert x == [x[0]] + x[1..] && y == [y[0]] + y[1..];
    }
  }

  lemma {:induction false} LexAntisymmetric(x: seq<byte>, y: seq<byte>)
    requires |x| == |y|
    ensures Lex(x, y) == -Lex(y, x)
  {
    if x != [] && x[0] == y[0] {
      LexAntisymmetric(x[1..], y[1..]);
    }
  }

  lemma {:induction false} LexTransitive(x: seq<byte>, y: seq<byte>, z: seq<byte>)
    requires |x| == |y| == |z|
    requires Lex(x, y) <= 0 && Lex(y, z) <= 0
    ensures Lex(x, z) <= 0
    ensures Lex(x, y) < 0 || Lex(y, z) < 0 ==> Lex(x, z) < 0
  {
    if x != [] && x[0] == y[0] == z[0] {
      LexTransitive(x[1..], y[1..], z[1..]);
    }
  }

  lemma {:induction false} LexBytewise(x: seq<byte>, y: seq<byte>)
    requires |x| == |y| && forall i :: 0 <= i < |x| ==> x[i] <= y[i]
    ensures Lex(x, y) <= 0
  {
    if x != [] && x[0] == y[0] {
      LexBytewise(x[1..], y[1..]);
    }
  }

  /** The comparator is a total preorder, and 0 exactly on equal type, mask and address. */
  lemma CompareIsTotalPreorder(a: Entry, b: Entry, c: Entry)
    ensures Compare(a, b) == 0 <==> a.hwType == b.hwType && a.mask == b.mask && a.addr == b.addr
    ensures Compare(a, b) == -Compare(b, a)
    ensures Compare(a, b) <= 0 && Compare(b, c) <= 0 ==> Compare(a, c) <= 0
  {
    LexZero(Key(a), Key(b));
    KeyInjective(a, b);
    LexAntisymmetric(Key(a), Key(b));
    if Compare(a, b) <= 0 && Compare(b, c) <= 0 {
      LexTransitive(Key(a), Key(b), Key(c));
    }
  }

  lemma KeyInjective(a: Entry, b: Entry)
    ensures Key(a) == Key(b) <==> a.hwType == b.hwType && a.mask == b.mask && a.addr == b.addr
  {
    assert Key(a)[0] == a.hwType && Key(a)[1..17] == a.mask && Key(a)[17..] == a.addr;
    assert Key(b)[0] == b.hwType && Key(b)[1..17] == b.mask && Key(b)[17..] == b.addr;
  }

  lemma {:induction false} LexConcat(x: seq<byte>, y: seq<byte>, u: seq<byte>, v: seq<byte>)
    requires |x| == |y| && |u| == |v|
    ensures Lex(x + u, y + v) == if Lex(x, y) != 0 then Lex(x, y) else Lex(u, v)
  {
    if x == [] {
      assert x + u == u && y + v == v;
    } else {
      LexConcat(x[1..], y[1..], u, v);
      assert (x + u)[1..] == x[1..] + u && (y + v)[1..] == y[1..] + v;
    }
  }

  /** The type decides first, then the mask bytes, ascending, then the address bytes. */
  lemma CompareOrder(a: Entry, b: Entry)
    ensures a.hwType != b.hwType ==> Compare(a, b) == a.hwType as int - b.hwType as int
    ensures a.hwType == b.hwType && Lex(a.mask, b.mask) != 0 ==> Compare(a, b) == Lex(a.mask, b.mask)
    ensures a.hwType == b.hwType && Lex(a.mask, b.mask) == 0 ==> Compare(a, b) == Lex(a.addr, b.addr)
  {
    LexConcat([a.hwType] + a.mask, [b.hwType] + b.mask, a.addr, b.addr);
    LexConcat([a.hwType], [b.hwType], a.mask, b.mask);
    assert Lex([a.hwType], [b.hwType]) == a.hwType as int - b.hwType as int;
  }

  /** acl_compartor. */
  method Comparator(a: Entry, b: Entry) returns (r: int)
    ensures r == Compare(a, b)
  {
    ghost var x, y := Key(a), Key(b);
    if a.hwType != b.hwType {
      LexAtFirstDifference(x, y, 0);
      return a.hwType as int - b.hwType as int;
    }
    for i := 0 to 16
      invariant x[..1 + i] == y[..1 + i]
    {
      if a.mask[i] != b.mask[i] {
        LexAtFirstDifference(x, y, 1 + i);
        return a.mask[i] as int - b.mask[i] as int;
      }
    }
    for i := 0 to 16
      invariant x[..17 + i] == y[..17 + i]
    {
      if a.addr[i] != b.addr[i] {
        LexAtFirstDifference(x, y, 17 + i);
        return a.addr[i] as int - b.addr[i] as int;
      }
    }
    assert x == x[..33] == y[..33] == y;
    LexZero(x, y);
    return 0;
  }

  // ----- the sort

  ghost predicate Sorted(s: seq<Entry>) {
    Qsort.Sorted(s, Compare)
  }

  ghost predicate IsQsortOf(input: seq<Entry>, output: seq<Entry>) {
    Qsort.IsQsortOf(input, output, Compare)
  }

  lemma CompareIsAQsortOrder()
    ensures Qsort.TotalPreorder(Compare)
  {
    forall a: Entry, b: Entry
      ensures Compare(a, b) == -Compare(b, a)
    {
      CompareIsTotalPreorder(a, b, b);
    }
    forall a: Entry, b: Entry, c: Entry | Compare(a, b) <= 0 && Compare(b, c) <= 0
      ensures Compare(a, c) <= 0
    {
      CompareIsTotalPreorder(a, b, c);
    }
  }

  /** acl_sort_entry. */
  method SortEntries(a: array<Entry>, count: nat)
    requires count <= a.Length
    modifies a
    ensures IsQsortOf(old(a[..count]), a[..count])
    ensures a[count..] == old(a[count..])
  {
    CompareIsAQsortOrder();
    Qsort.Sort(a, count, Compare);
  }
}
