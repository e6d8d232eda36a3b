/**
 acl_filter of libdhcp/src/acl.cpp and what it decides. The sort is ascending on the mask bytes,
 so of two overlapping entries the one with the smaller mask bytes wins; nothing here says that
 the most specific entry wins, and `CoveredEntryNeverDecides` says that it does not.
 */
module AclFilter {
  import opened Wrappers
  import opened Acl
  import Qsort

  /** The byte loop of acl_filter runs over the packet's address bytes, at most 16 of them. */
  predicate Matches(e: Entry, hwType: byte, addr: seq<byte>)
    requires |addr| <= 16
  {
    e.hwType == hwType && forall j :: 0 <= j < |addr| ==> ByteMatches(e.mask, e.addr, addr, j)
  }

  predicate ByteMatches(mask: seq<byte>, want: seq<byte>, addr: seq<byte>, j: nat)
    requires j < |addr| && j < |mask| && j < |want|
  {
    addr[j] & mask[j] == want[j]
  }

  // ----- what a match means, bit by bit

  /** Whether a byte has the bit of weight `p`. */
  predicate Bit(x: byte, p: byte) {
    x & p != 0
  }

  /** Where the mask has the bit, the packet and the entry agree; where it has not, the entry asks
      for 0, or else nothing matches. */
  predicate BitMatches(m: byte, want: byte, x: byte, p: byte) {
    if Bit(m, p) then Bit(x, p) == Bit(want, p) else !Bit(want, p)
  }

  predicate AllBitsMatch(m: byte, want: byte, x: byte) {
    && BitMatches(m, want, x, 1) && BitMatches(m, want, x, 2)
    && BitMatches(m, want, x, 4) && BitMatches(m, want, x, 8)
    && BitMatches(m, want, x, 16) && BitMatches(m, want, x, 32)
    && BitMatches(m, want, x, 64) && BitMatches(m, want, x, 128)
  }

  lemma BitsOfBytes(m: byte, want: byte, x: byte)
    ensures x & m == want <==> AllBitsMatch(m, want, x)
  {
  }

  /** An entry matches exactly when the types are equal and every bit of every compared byte
      matches. */
  lemma MatchesBitByBit(e: Entry, hwType: byte, addr: seq<byte>)
    requires |addr| <= 16
    ensures Matches(e, hwType, addr) <==>
            && e.hwType == hwType
            && forall j :: 0 <= j < |addr| ==> AllBitsMatch(e.mask[j], e.addr[j], addr[j])
  {
    forall j | 0 <= j < |addr|
      ensures ByteMatches(e.mask, e.addr, addr, j) <==> AllBitsMatch(e.mask[j], e.addr[j], addr[j])
    {
      BitsOfBytes(e.mask[j], e.addr[j], addr[j]);
    }
  }

  /** The access of the first matching entry. */
  function First(table: seq<Entry>, hwType: byte, addr: seq<byte>): Option<int>
    requires |addr| <= 16
  {
    if table == [] then None
    else if Matches(table[0], hwType, addr) then Some(table[0].access)
    else First(table[1..], hwType, addr)
  }

  /** What the filter answers: TRUE when nothing matches. */
  function Decision(table: seq<Entry>, hwType: byte, addr: seq<byte>): int
    requires |addr| <= 16
  {
    match First(table, hwType, addr)
    case Some(access) => access
    case None => ACCESS_PERMIT
  }

  lemma FirstAt(table: seq<Entry>, i: nat, hwType: byte, addr: seq<byte>)
    requires |addr| <= 16 && i < |table|
    ensures First(table[i..], hwType, addr) ==
            if Matches(table[i], hwType, addr) then Some(table[i].access)
            else First(table[i + 1..], hwType, addr)
  {
    assert table[i..][1..] == table[i + 1..];
  }

  lemma {:induction false} FirstSplit(s: seq<Entry>, t: seq<Entry>, hwType: byte, addr: seq<byte>)
    requires |addr| <= 16
    ensures First(s + t, hwType, addr) ==
            if First(s, hwType, addr).Some? then First(s, hwType, addr) else First(t, hwType, addr)
  {
    if s == [] {
      assert s + t == t;
    } else {
      assert (s + t)[1..] == s[1..] + t;
      FirstSplit(s[1..], t, hwType, addr);
    }
  }

  /** `First` is the access at the least matching index, and absent iff no entry matches. */
  lemma {:induction false} FirstIsLeastIndex(table: seq<Entry>, hwType: byte, addr: seq<byte>) returns (f: nat)
    requires |addr| <= 16
    ensures f <= |table| && forall i :: 0 <= i < f ==> !Matches(table[i], hwType, addr)
    ensures f < |table| ==> Matches(table[f], hwType, addr) && First(table, hwType, addr) == Some(table[f].access)
    ensures f == |table| ==> First(table, hwType, addr) == None
  {
    if table == [] || Matches(table[0], hwType, addr) {
      f := 0;
    } else {
      var g := FirstIsLeastIndex(table[1..], hwType, addr);
      f := g + 1;
      forall i | 0 <= i < f ensures !Matches(table[i], hwType, addr) {
        if i > 0 {
          assert table[i] == table[1..][i - 1];
        }
      }
    }
  }

  /** The inner loop of acl_filter: the type test, then byte after byte. */
  method MatchEntry(e: Entry, hwType: byte, hwAddr: seq<byte>) returns (m: bool)
    requires |hwAddr| <= 16
    ensures m <==> Matches(e, hwType, hwAddr)
  {
    if e.hwType != hwType {
      return false;
    }
    for j := 0 to |hwAddr|
      invariant forall k :: 0 <= k < j ==> ByteMatches(e.mask, e.addr, hwAddr, k)
    {
      if !ByteMatches(e.mask, e.addr, hwAddr, j) {
        return false;
      }
    }
    return true;
  }

  /** ACL_LIST. */
  class AclList {
    var length: nat
    const entry: array<Entry>

    ghost predicate Valid()
      reads this
    {
      entry.Length == MAX_ENTRIES && length <= MAX_ENTRIES
    }

    ghost function Table(): seq<Entry>
      requires Valid()
      reads this, entry
    {
      entry[..length]
    }

    /** The mapping starts out zeroed. */
    constructor ()
      ensures Valid() && Table() == [] && fresh(entry)
    {
      length := 0;
      entry := new Entry[MAX_ENTRIES](_ => ZERO_ENTRY);
    }

    /** acl_filter, for the address lengths its byte loop supports. */
    method Filter(hwType: byte, hwAddr: seq<byte>) returns (access: int)
      requires Valid() && |hwAddr| <= 16
      ensures access == Decision(Table(), hwType, hwAddr)
    {
      ghost var table := entry[..length];
      var i := 0;
      while i < length
        invariant 0 <= i <= length
        invariant First(table, hwType, hwAddr) == First(table[i..], hwType, hwAddr)
      {
        var m := MatchEntry(entry[i], hwType, hwAddr);
        FirstAt(table, i, hwType, hwAddr);
        if m {
          return entry[i].access;
        }
        i := i + 1;
      }
      return ACCESS_PERMIT;
    }
  }

  // ----- on a sorted table the comparator-least matching entry decides

  ghost predicate LeastMatch(table: seq<Entry>, e: Entry, hwType: byte, addr: seq<byte>)
    requires |addr| <= 16
  {
    && e in table && Matches(e, hwType, addr)
    && forall g :: g in table && Matches(g, hwType, addr) ==> Compare(e, g) <= 0
  }

  lemma SortedDecision(table: seq<Entry>, hwType: byte, addr: seq<byte>)
    requires Sorted(table) && |addr| <= 16
    ensures (exists g :: g in table && Matches(g, hwType, addr)) ==>
              exists e :: LeastMatch(table, e, hwType, addr) && Decision(table, hwType, addr) == e.access
    ensures (forall g :: g in table ==> !Matches(g, hwType, addr)) ==>
              Decision(table, hwType, addr) == ACCESS_PERMIT
  {
    var f := FirstIsLeastIndex(table, hwType, addr);
    if f < |table| {
      var e := table[f];
      forall g | g in table && Matches(g, hwType, addr)
        ensures Compare(e, g) <= 0
      {
        var i :| 0 <= i < |table| && table[i] == g;
        CompareIsTotalPreorder(e, e, e);
        assert i == f || f < i;
      }
      assert LeastMatch(table, e, hwType, addr);
    }
  }

  // ----- which decisions the freedom of qsort allows

  lemma SameElements(s: seq<Entry>, t: seq<Entry>)
    requires multiset(s) == multiset(t)
    ensures forall e :: e in s <==> e in t
  {
    forall e ensures e in s <==> e in t {
      assert e in s <==> e in multiset(s);
      assert e in t <==> e in multiset(t);
    }
  }

  /** Any sort of the rows decides by one of their least matches. */
  lemma SortDecides(rows: seq<Entry>, t: seq<Entry>, hwType: byte, addr: seq<byte>)
    requires IsQsortOf(rows, t) && |addr| <= 16
    ensures (exists g :: g in rows && Matches(g, hwType, addr)) ==>
              exists e :: LeastMatch(rows, e, hwType, addr) && Decision(t, hwType, addr) == e.access
    ensures (forall g :: g in rows ==> !Matches(g, hwType, addr)) ==>
              Decision(t, hwType, addr) == ACCESS_PERMIT
  {
    SameElements(rows, t);
    SortedDecision(t, hwType, addr);
    if g :| g in rows && Matches(g, hwType, addr) {
      assert g in t;
      var e :| LeastMatch(t, e, hwType, addr) && Decision(t, hwType, addr) == e.access;
      assert LeastMatch(rows, e, hwType, addr);
    }
  }

  /** Two entries with equal keys may change places in a sorted table. */
  lemma SwapEqualKeys(t: seq<Entry>, f: nat, k: nat)
    requires f < |t| && k < |t| && Sorted(t) && Key(t[f]) == Key(t[k])
    ensures IsQsortOf(t, t[f := t[k]][k := t[f]])
  {
    var u := t[f := t[k]][k := t[f]];
    assert forall i :: 0 <= i < |t| ==> Key(u[i]) == Key(t[i]);
    forall i, j | 0 <= i < j < |u| ensures Compare(u[i], u[j]) <= 0 {
      assert Compare(u[i], u[j]) == Compare(t[i], t[j]);
    }
  }

  /** Every least match decides in some sort. */
  lemma LeastMatchDecides(rows: seq<Entry>, e: Entry, hwType: byte, addr: seq<byte>) returns (t: seq<Entry>)
    requires |addr| <= 16 && LeastMatch(rows, e, hwType, addr)
    ensures IsQsortOf(rows, t) && Decision(t, hwType, addr) == e.access
  {
    var s := ASort(rows);
    SameElements(rows, s);
    var k :| 0 <= k < |s| && s[k] == e;
    assert LeastMatch(s, s[k], hwType, addr);
    t := LeastMatchFirst(s, k, hwType, addr);
  }

  lemma ASort(rows: seq<Entry>) returns (t: seq<Entry>)
    ensures IsQsortOf(rows, t)
  {
    CompareIsAQsortOrder();
    Qsort.InsertAllIsQsort(rows, Compare);
    t := Qsort.InsertAll(rows, Compare);
  }

  /** It changes places with the first match, which has the same key. */
  lemma LeastMatchFirst(s: seq<Entry>, k: nat, hwType: byte, addr: seq<byte>) returns (t: seq<Entry>)
    requires |addr| <= 16 && k < |s| && Sorted(s) && LeastMatch(s, s[k], hwType, addr)
    ensures IsQsortOf(s, t) && Decision(t, hwType, addr) == s[k].access
  {
    var f := FirstIsLeastIndex(s, hwType, addr);
    LeastMatchesCompareEqual(s, f, k, hwType, addr);
    t := s[f := s[k]][k := s[f]];
    SwapEqualKeys(s, f, k);
    var g := FirstIsLeastIndex(t, hwType, addr);
    assert t[f] == s[k];
    assert forall i :: 0 <= i < f ==> t[i] == s[i];
  }

  lemma LeastMatchesCompareEqual(s: seq<Entry>, f: nat, k: nat, hwType: byte, addr: seq<byte>)
    requires |addr| <= 16 && f <= k < |s| && Sorted(s)
    requires Matches(s[f], hwType, addr) && LeastMatch(s, s[k], hwType, addr)
    ensures Key(s[f]) == Key(s[k])
  {
    CompareIsTotalPreorder(s[f], s[k], s[k]);
    CompareIsTotalPreorder(s[k], s[f], s[f]);
    KeyInjective(s[f], s[k]);
  }

  /** The decisions that are possible for given rows, whatever qsort does, are exactly the
      accesses of the comparator-least rows that match. */
  lemma PossibleDecisions(rows: seq<Entry>, hwType: byte, addr: seq<byte>, access: int)
    requires |addr| <= 16
    ensures (exists t :: IsQsortOf(rows, t) && Decision(t, hwType, addr) == access) <==>
            if exists g :: g in rows && Matches(g, hwType, addr)
            then exists e :: LeastMatch(rows, e, hwType, addr) && e.access == access
            else access == ACCESS_PERMIT
  {
    if t :| IsQsortOf(rows, t) && Decision(t, hwType, addr) == access {
      SortDecides(rows, t, hwType, addr);
    }
    if e :| LeastMatch(rows, e, hwType, addr) && e.access == access {
      var t := LeastMatchDecides(rows, e, hwType, addr);
    }
    if forall g :: g in rows ==> !Matches(g, hwType, addr) {
      var t := ASort(rows);
      SortDecides(rows, t, hwType, addr);
    }
  }

  ghost predicate SortsAgree(rows: seq<Entry>, hwType: byte, addr: seq<byte>)
    requires |addr| <= 16
  {
    forall t1, t2 :: IsQsortOf(rows, t1) && IsQsortOf(rows, t2) ==>
      Decision(t1, hwType, addr) == Decision(t2, hwType, addr)
  }

  ghost predicate LeastMatchesAgree(rows: seq<Entry>, hwType: byte, addr: seq<byte>)
    requires |addr| <= 16
  {
    forall a, b :: LeastMatch(rows, a, hwType, addr) && LeastMatch(rows, b, hwType, addr) ==> a.access == b.access
  }

  /** Two rows that both are least matches and differ in access make two sorts decide differently. */
  lemma ConflictingRowsShowOrder(rows: seq<Entry>, a: Entry, b: Entry, hwType: byte, addr: seq<byte>)
    returns (t1: seq<Entry>, t2: seq<Entry>)
    requires |addr| <= 16 && a.access != b.access
    requires LeastMatch(rows, a, hwType, addr) && LeastMatch(rows, b, hwType, addr)
    ensures IsQsortOf(rows, t1) && IsQsortOf(rows, t2)
    ensures Decision(t1, hwType, addr) == a.access && Decision(t2, hwType, addr) == b.access
  {
    t1 := LeastMatchDecides(rows, a, hwType, addr);
    t2 := LeastMatchDecides(rows, b, hwType, addr);
  }

  /** A query is answered alike by all sorts of the rows if and only if their least matches for it
      agree on access. */
  lemma SortsAgreeIff(rows: seq<Entry>, hwType: byte, addr: seq<byte>)
    requires |addr| <= 16
    ensures SortsAgree(rows, hwType, addr) <==> LeastMatchesAgree(rows, hwType, addr)
  {
    if SortsAgree(rows, hwType, addr) {
      forall a, b | LeastMatch(rows, a, hwType, addr) && LeastMatch(rows, b, hwType, addr)
        ensures a.access == b.access
      {
        if a.access != b.access {
          var t1, t2 := ConflictingRowsShowOrder(rows, a, b, hwType, addr);
          assert false;
        }
      }
    }
    if LeastMatchesAgree(rows, hwType, addr) {
      forall t1, t2 | IsQsortOf(rows, t1) && IsQsortOf(rows, t2)
        ensures Decision(t1, hwType, addr) == Decision(t2, hwType, addr)
      {
        SortDecides(rows, t1, hwType, addr);
        SortDecides(rows, t2, hwType, addr);
      }
    }
  }

  /** Rows with the same type, mask and address carry the same access. */
  ghost predicate AccessAgrees(rows: seq<Entry>) {
    forall a, b :: a in rows && b in rows && Compare(a, b) == 0 ==> a.access == b.access
  }

  /** When equal-key rows agree on access, neither the order of the rows nor the freedom qsort
      has shows in any decision. */
  lemma DecisionIgnoresRowOrder(rows1: seq<Entry>, rows2: seq<Entry>, t1: seq<Entry>, t2: seq<Entry>,
                                hwType: byte, addr: seq<byte>)
    requires multiset(rows1) == multiset(rows2) && AccessAgrees(rows1)
    requires IsQsortOf(rows1, t1) && IsQsortOf(rows2, t2) && |addr| <= 16
    ensures Decision(t1, hwType, addr) == Decision(t2, hwType, addr)
  {
    forall a, b | LeastMatch(rows1, a, hwType, addr) && LeastMatch(rows1, b, hwType, addr)
      ensures a.access == b.access
    {
      CompareIsTotalPreorder(a, b, a);
    }
    SortsAgreeIff(rows1, hwType, addr);
    assert IsQsortOf(rows1, t2);
  }

  /** Of two equal-key rows that differ in access, both orders are sorted, and they decide
      differently exactly for the addresses the rows match. */
  lemma TwoConflictingRows(e: Entry, deny: Entry, hwType: byte, addr: seq<byte>)
    requires Compare(e, deny) == 0 && e.access != deny.access && |addr| <= 16
    ensures IsQsortOf([e, deny], [e, deny]) && IsQsortOf([e, deny], [deny, e])
    ensures Decision([e, deny], hwType, addr) != Decision([deny, e], hwType, addr) <==> Matches(e, hwType, addr)
  {
    CompareIsTotalPreorder(e, deny, e);
    assert Matches(deny, hwType, addr) <==> Matches(e, hwType, addr);
    var f := FirstIsLeastIndex([e, deny], hwType, addr);
    var g := FirstIsLeastIndex([deny, e], hwType, addr);
    assert f == g == if Matches(e, hwType, addr) then 0 else 2;
  }

  // ----- covered and dead entries

  /** `g` tests a subset of the bits `e` tests and asks for the same values there. */
  ghost predicate Covers(g: Entry, e: Entry) {
    && g.hwType == e.hwType
    && forall j :: 0 <= j < 16 ==> g.mask[j] & e.mask[j] == g.mask[j] && e.addr[j] & g.mask[j] == g.addr[j]
  }

  lemma CoverMatchesMore(g: Entry, e: Entry, hwType: byte, addr: seq<byte>)
    requires Covers(g, e) && |addr| <= 16 && Matches(e, hwType, addr)
    ensures Matches(g, hwType, addr)
  {
    forall j | 0 <= j < |addr| ensures ByteMatches(g.mask, g.addr, addr, j) {
      assert ByteMatches(e.mask, e.addr, addr, j);
      MaskTwice(addr[j], e.mask[j], g.mask[j]);
    }
  }

  lemma MaskTwice(x: byte, m: byte, n: byte)
    ensures n & m == n ==> x & n == (x & m) & n && n <= m
    ensures x & n <= x
    ensures (x & m) & m == x & m
  {
  }

  lemma CoverSortsNoLater(g: Entry, e: Entry)
    requires Covers(g, e)
    ensures Compare(g, e) <= 0
  {
    forall i | 0 <= i < 33 ensures Key(g)[i] <= Key(e)[i] {
      if 1 <= i < 17 {
        MaskTwice(0, e.mask[i - 1], g.mask[i - 1]);
        assert Key(g)[i] == g.mask[i - 1] && Key(e)[i] == e.mask[i - 1];
      } else if 17 <= i {
        MaskTwice(e.addr[i - 17], 0, g.mask[i - 17]);
        assert Key(g)[i] == g.addr[i - 17] && Key(e)[i] == e.addr[i - 17];
      }
    }
    LexBytewise(Key(g), Key(e));
  }

  /** Some address byte among the first `len` asks for a bit the mask clears. */
  ghost predicate DeadFor(e: Entry, len: nat) {
    exists j :: 0 <= j < len && j < 16 && e.addr[j] & e.mask[j] != e.addr[j]
  }

  lemma DeadNeverMatches(e: Entry, hwType: byte, addr: seq<byte>)
    requires |addr| <= 16 && DeadFor(e, |addr|)
    ensures !Matches(e, hwType, addr)
  {
    var j :| 0 <= j < |addr| && j < 16 && e.addr[j] & e.mask[j] != e.addr[j];
    MaskTwice(addr[j], e.mask[j], e.mask[j]);
    assert !ByteMatches(e.mask, e.addr, addr, j);
  }

  /** Strictly covered by another entry of the table, or dead for addresses of that length. */
  ghost predicate Redundant(table: seq<Entry>, e: Entry, len: nat) {
    || (exists g :: g in table && Covers(g, e) && Compare(g, e) != 0)
    || DeadFor(e, len)
  }

  /** The table without the entries at the indices in `del`. */
  function Without(table: seq<Entry>, del: set<nat>): seq<Entry> {
    if table == [] then []
    else
      var n := |table| - 1;
      Without(table[..n], del) + if n in del then [] else [table[n]]
  }

  /** Deleting entries none of which is the first match changes nothing. */
  lemma {:induction false} DeleteNonFirst(table: seq<Entry>, del: set<nat>, hwType: byte, addr: seq<byte>, f: nat)
    requires |addr| <= 16 && f !in del && f <= |table|
    requires forall i :: 0 <= i < f ==> !Matches(table[i], hwType, addr)
    requires f < |table| ==> Matches(table[f], hwType, addr)
    ensures First(Without(table, del), hwType, addr) == First(table, hwType, addr)
  {
    if table != [] {
      var n := |table| - 1;
      var init, last := table[..n], [table[n]];
      assert table == init + last;
      FirstSplit(init, last, hwType, addr);
      FirstSplit(Without(init, del), if n in del then [] else last, hwType, addr);
      var g := FirstIsLeastIndex(init, hwType, addr);
      if f <= n {
        DeleteNonFirst(init, del, hwType, addr, f);
      } else {
        NoMatchLeft(init, del, hwType, addr);
      }
    }
  }

  lemma {:induction false} NoMatchLeft(table: seq<Entry>, del: set<nat>, hwType: byte, addr: seq<byte>)
    requires |addr| <= 16 && forall i :: 0 <= i < |table| ==> !Matches(table[i], hwType, addr)
    ensures First(Without(table, del), hwType, addr) == None
  {
    if table != [] {
      var n := |table| - 1;
      NoMatchLeft(table[..n], del, hwType, addr);
      FirstSplit(Without(table[..n], del), if n in del then [] else [table[n]], hwType, addr);
    }
  }

  /** An entry that decides is not redundant. */
  lemma FirstMatchNotRedundant(table: seq<Entry>, hwType: byte, addr: seq<byte>, f: nat)
    requires Sorted(table) && |addr| <= 16 && f < |table|
    requires Matches(table[f], hwType, addr)
    requires forall i :: 0 <= i < f ==> !Matches(table[i], hwType, addr)
    ensures !Redundant(table, table[f], |addr|)
  {
    var e := table[f];
    if DeadFor(e, |addr|) {
      DeadNeverMatches(e, hwType, addr);
    }
    forall g | g in table && Covers(g, e) ensures Compare(g, e) == 0 {
      CoverMatchesMore(g, e, hwType, addr);
      CoverSortsNoLater(g, e);
      var i :| 0 <= i < |table| && table[i] == g;
      CompareIsTotalPreorder(g, e, e);
      assert i == f || Compare(e, g) <= 0;
    }
  }

  /** On a sorted table, deleting any set of strictly covered or dead entries at once changes
      no decision for any address of that length. */
  lemma DeletingRedundantEntries(table: seq<Entry>, del: set<nat>, hwType: byte, addr: seq<byte>)
    requires Sorted(table) && |addr| <= 16
    requires forall i :: i in del ==> i < |table| && Redundant(table, table[i], |addr|)
    ensures Decision(Without(table, del), hwType, addr) == Decision(table, hwType, addr)
  {
    var f := FirstIsLeastIndex(table, hwType, addr);
    if f < |table| {
      FirstMatchNotRedundant(table, hwType, addr, f);
      assert f !in del;
      DeleteNonFirst(table, del, hwType, addr, f);
    } else {
      NoMatchLeft(table, del, hwType, addr);
    }
  }

  /** A specific exception to a wider rule never takes effect: whatever its access says, the
      sorted table decides as if it were not there. */
  lemma CoveredEntryNeverDecides(table: seq<Entry>, i: nat, access: int, hwType: byte, addr: seq<byte>)
    requires Sorted(table) && i < |table| && |addr| <= 16
    requires exists g :: g in table && Covers(g, table[i]) && Compare(g, table[i]) != 0
    ensures var e: Entry := table[i].(access := access);
            Decision(table[i := e], hwType, addr) == Decision(table, hwType, addr)
  {
    var e: Entry := table[i].(access := access);
    var f := FirstIsLeastIndex(table, hwType, addr);
    assert f != i by {
      if f < |table| {
        FirstMatchNotRedundant(table, hwType, addr, f);
      }
    }
    var t := table[i := e];
    forall k | 0 <= k < |t|
      ensures Matches(table[k], hwType, addr) <==> Matches(t[k], hwType, addr)
    {
    }
    SameFirst(table, t, f, hwType, addr);
  }

  lemma SameFirst(s: seq<Entry>, t: seq<Entry>, f: nat, hwType: byte, addr: seq<byte>)
    requires |addr| <= 16 && |s| == |t| && f <= |s|
    requires forall i :: 0 <= i < |s| ==> (Matches(s[i], hwType, addr) <==> Matches(t[i], hwType, addr))
    requires forall i :: 0 <= i < f ==> !Matches(s[i], hwType, addr)
    requires f < |s| ==> s[f] == t[f] && Matches(s[f], hwType, addr)
    ensures First(s, hwType, addr) == First(t, hwType, addr)
  {
    var g := FirstIsLeastIndex(s, hwType, addr);
    var h := FirstIsLeastIndex(t, hwType, addr);
  }
}
