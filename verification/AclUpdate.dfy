/**
 acl_do_update of Monitor/acl_update.cpp: database rows become a sorted table that replaces the
 shared one. The rows themselves are an input; fetching them is not modelled.
 */
module AclUpdate {
  import opened Wrappers
  import opened Strtoul
  import opened HwAddr
  import opened Acl
  import opened AclFilter

  /** One row of access_list; the two integers are what atoi made of their columns. */
  datatype Row = Row(hwType: int, hwAddr: CString, hwMask: CString, access: int)

  /** What parsing leaves in a zeroed 16-byte field. */
  function Field(str: CString): (f: seq<byte>)
    ensures |f| == 16
  {
    var values := Parsed(str, 0, 16);
    seq(16, j requires 0 <= j < 16 => if j < |values| then LowByte(values[j]) else 0)
  }

  function EntryOf(row: Row): Entry {
    RawEntry(ToByte(row.hwType % 256), Field(row.hwAddr), Field(row.hwMask), row.access)
  }

  function Entries(rows: seq<Row>): (es: seq<Entry>)
    ensures |es| == |rows|
  {
    if rows == [] then [] else Entries(rows[..|rows| - 1]) + [EntryOf(rows[|rows| - 1])]
  }

  /** The rows that fit: the first 2048. */
  function Loaded(rows: seq<Row>): (es: seq<Entry>)
    ensures |es| <= MAX_ENTRIES
  {
    Entries(if |rows| <= MAX_ENTRIES then rows else rows[..MAX_ENTRIES])
  }

  /** Row by row, in order, and no more than 2048 of them. */
  lemma {:induction false} LoadedRows(rows: seq<Row>, i: nat)
    requires i < |rows|
    ensures |Entries(rows)| == |rows| && Entries(rows)[i] == EntryOf(rows[i])
    ensures i < MAX_ENTRIES ==> i < |Loaded(rows)| && Loaded(rows)[i] == EntryOf(rows[i])
  {
    if i < |rows| - 1 {
      LoadedRows(rows[..|rows| - 1], i);
    }
    if |rows| > MAX_ENTRIES && i < MAX_ENTRIES {
      LoadedRows(rows[..MAX_ENTRIES], i);
    }
  }

  method ParseField(str: CString) returns (f: seq<byte>)
    ensures f == Field(str)
  {
    var buf := new byte[16](_ => 0);
    var _ := ParseHwAddr(buf, 16, str);
    f := buf[..];
    assert f == Field(str);
  }

  method ParseRow(row: Row) returns (e: Entry)
    ensures e == EntryOf(row)
  {
    var addr := ParseField(row.hwAddr);
    var mask := ParseField(row.hwMask);
    e := RawEntry(ToByte(row.hwType % 256), addr, mask, row.access);
  }

  lemma {:induction false} EntriesAppend(rows: seq<Row>, n: nat)
    requires n < |rows|
    ensures Entries(rows[..n + 1]) == Entries(rows[..n]) + [EntryOf(rows[n])]
  {
    assert rows[..n + 1][..n] == rows[..n];
  }

  /** The body of the row loop. */
  method LoadRow(buff: array<Entry>, rows: seq<Row>, count: nat)
    requires count < |rows| && count < buff.Length
    requires forall k :: 0 <= k < count ==> buff[k] == Entries(rows[..count])[k]
    modifies buff
    ensures forall k :: 0 <= k <= count ==> buff[k] == Entries(rows[..count + 1])[k]
    ensures forall k :: count < k < buff.Length ==> buff[k] == old(buff[k])
  {
    var e := ParseRow(rows[count]);
    buff[count] := e;
    EntriesAppend(rows, count);
  }

  /** The row loop: entries beyond the first `count` stay zero. */
  method LoadRows(rows: seq<Row>) returns (buff: array<Entry>, count: nat)
    ensures fresh(buff) && buff.Length == MAX_ENTRIES
    ensures count <= MAX_ENTRIES && buff[..count] == Loaded(rows)
    ensures forall k :: count <= k < MAX_ENTRIES ==> buff[k] == ZERO_ENTRY
  {
    buff := new Entry[MAX_ENTRIES](_ => ZERO_ENTRY);
    count := 0;
    while count < |rows| && count < MAX_ENTRIES
      invariant 0 <= count <= |rows| && count <= MAX_ENTRIES
      invariant forall k :: 0 <= k < count ==> buff[k] == Entries(rows[..count])[k]
      invariant forall k :: count <= k < MAX_ENTRIES ==> buff[k] == ZERO_ENTRY
    {
      LoadRow(buff, rows, count);
      count := count + 1;
    }
    assert rows[..|rows|] == rows;
  }

  /** The copy into the shared list, under the exclusive lock. */
  method Publish(acl: AclList, buff: array<Entry>, count: nat)
    requires acl.Valid() && count <= MAX_ENTRIES && count <= buff.Length && buff != acl.entry
    modifies acl, acl.entry
    ensures acl.Valid() && acl.Table() == old(buff[..count])
  {
    acl.length := count;
    for i := 0 to count
      invariant acl.length == count
      invariant forall k :: 0 <= k < i ==> acl.entry[k] == old(buff[k])
    {
      acl.entry[i] := buff[i];
    }
  }

  /** acl_do_update: the new table is a sorted rearrangement of the loaded rows. */
  method DoUpdate(acl: AclList, rows: seq<Row>)
    requires acl.Valid()
    modifies acl, acl.entry
    ensures acl.Valid() && IsQsortOf(Loaded(rows), acl.Table())
  {
    var buff, count := LoadRows(rows);
    SortEntries(buff, count);
    Publish(acl, buff, count);
  }

  // ----- what a prefix rule written as text matches

  function Ones(n: nat): (s: seq<byte>)
    ensures |s| == n && forall i :: 0 <= i < n ==> s[i] == 0xFF
  {
    seq(n, _ => 0xFF)
  }

  lemma FieldOfPrinted(str: CString, addr: seq<byte>)
    requires 1 <= |addr| <= 16 && str == Printed(addr)
    ensures forall j :: 0 <= j < 16 ==> Field(str)[j] == if j < |addr| then addr[j] else 0
  {
    ParsePrinted(str, addr, 16);
  }

  lemma {:induction false} TypeByte(n: int, b: byte)
    ensures ToByte(n % 256) == b <==> b as int == n % 256
  {
    if b as int == n % 256 {
      ByteInjective(ToByte(n % 256), b);
    }
  }

  lemma MaskOnesAndZeros(x: byte)
    ensures x & 0xFF == x && x & 0 == 0
  {
  }

  /** A row whose address prints `prefix` and whose mask prints as many ff bytes matches exactly
      the addresses of its type that agree with the prefix on the bytes they share; from the
      prefix's length on, these are the addresses that begin with it. */
  lemma PrefixRule(row: Row, prefix: seq<byte>, hwType: byte, addr: seq<byte>)
    requires 1 <= |prefix| <= 16 && |addr| <= 16
    requires row.hwAddr == Printed(prefix) && row.hwMask == Printed(Ones(|prefix|))
    ensures Matches(EntryOf(row), hwType, addr) <==>
            hwType as int == row.hwType % 256 &&
            forall j :: 0 <= j < |addr| && j < |prefix| ==> addr[j] == prefix[j]
    ensures |addr| >= |prefix| ==>
            (Matches(EntryOf(row), hwType, addr) <==> hwType as int == row.hwType % 256 && prefix <= addr)
    ensures EntryOf(row).access == row.access
  {
    TypeByte(row.hwType, hwType);
    FieldOfPrinted(row.hwAddr, prefix);
    FieldOfPrinted(row.hwMask, Ones(|prefix|));
    PrefixMatch(EntryOf(row), prefix, hwType, addr);
  }

  /** A printed address or mask, filled up with zero bytes. */
  function Padded(text: seq<byte>): (f: seq<byte>)
    requires |text| <= 16
    ensures |f| == 16
  {
    text + seq(16 - |text|, _ => 0)
  }

  /** The general rule, for any printed address and any printed mask: a row matches exactly the
      addresses of its type that agree with the row's address wherever the mask has a bit,
      provided that the row's address has no bit outside the mask. */
  lemma PrintedRule(row: Row, want: seq<byte>, mask: seq<byte>, hwType: byte, addr: seq<byte>)
    requires 1 <= |want| <= 16 && 1 <= |mask| <= 16 && |addr| <= 16
    requires row.hwAddr == Printed(want) && row.hwMask == Printed(mask)
    ensures Matches(EntryOf(row), hwType, addr) <==>
            && hwType as int == row.hwType % 256
            && forall j :: 0 <= j < |addr| ==> AllBitsMatch(Padded(mask)[j], Padded(want)[j], addr[j])
    ensures EntryOf(row).access == row.access
  {
    TypeByte(row.hwType, hwType);
    FieldOfPrinted(row.hwAddr, want);
    FieldOfPrinted(row.hwMask, mask);
    var e := EntryOf(row);
    assert e.addr == Padded(want) && e.mask == Padded(mask);
    MatchesBitByBit(e, hwType, addr);
  }

  /** The same on the entry itself. */
  lemma {:induction false} PrefixMatch(e: Entry, prefix: seq<byte>, hwType: byte, addr: seq<byte>)
    requires |prefix| <= 16 && |addr| <= 16
    requires forall j :: 0 <= j < 16 ==> e.addr[j] == if j < |prefix| then prefix[j] else 0
    requires forall j :: 0 <= j < 16 ==> e.mask[j] == if j < |prefix| then 0xFF else 0
    ensures Matches(e, hwType, addr) <==>
            e.hwType == hwType && forall j :: 0 <= j < |addr| && j < |prefix| ==> addr[j] == prefix[j]
  {
    forall j | 0 <= j < |addr|
      ensures ByteMatches(e.mask, e.addr, addr, j) <==> j < |prefix| ==> addr[j] == prefix[j]
    {
      MaskOnesAndZeros(addr[j]);
    }
  }
}
