/**
 Hardware addresses as text: the printer dhcp_hw_addr_ansi (libdhcp/src/dhcp.c) and the parser
 acl_parse_hwaddr (Monitor/acl_update.cpp).
 */
module HwAddr {
  import opened Wrappers
  import opened Strtoul

  /** The bytes as numbers. */
  function Values(addr: seq<byte>): (v: seq<octet>)
    ensures |v| == |addr|
  {
    if addr == [] then [] else Values(addr[..|addr| - 1]) + [addr[|addr| - 1] as nat]
  }

  /** The conversion to unsigned char: 256 is taken off until the value fits. */
  function LowByte(v: nat): byte {
    if v < 256 then ToByte(v) else LowByte(v - 256)
  }

  lemma {:induction false} LowByteOfByte(b: byte)
    ensures LowByte(b as nat) == b
  {
    ByteInjective(LowByte(b as nat), b);
  }

  lemma {:induction false} ValuesAt(addr: seq<byte>, k: nat)
    requires k < |addr|
    ensures Values(addr)[k] == addr[k] as nat
  {
    if k < |addr| - 1 {
      ValuesAt(addr[..|addr| - 1], k);
    }
  }

  // ----- the parser

  /** What strtoul read at each position of a text. */
  function Reads(s: CString): (read: seq<Number>)
    ensures |read| == |s| + 1 && ValidReads(read)
  {
    seq(|s| + 1, p requires 0 <= p <= |s| => Strtoul16(s, p))
  }

  ghost predicate ValidReads(read: seq<Number>) {
    forall p :: 0 <= p < |read| ==> p <= read[p].end < |read|
  }

  /** The numbers read from position `p` on, one behind the other with one character between,
      until the terminator or as many as there is room for. */
  function ParsedFrom(read: seq<Number>, p: nat, room: nat): (values: seq<nat>)
    requires ValidReads(read) && p < |read|
    ensures |values| <= room
    decreases |read| - p
  {
    if room == 0 then []
    else if read[p].end == |read| - 1 then [read[p].value]
    else [read[p].value] + ParsedFrom(read, read[p].end + 1, room - 1)
  }

  /** The numbers the parser read from position `p` on, with `room` bytes of buffer left. */
  function Parsed(s: CString, p: nat, room: nat): (values: seq<nat>)
    requires p <= |s|
    ensures |values| <= room
  {
    ParsedFrom(Reads(s), p, room)
  }

  /** Where these numbers start. */
  ghost function Starts(read: seq<Number>, p: nat, room: nat): (starts: seq<nat>)
    requires ValidReads(read) && p < |read|
    ensures |starts| == |ParsedFrom(read, p, room)|
    decreases |read| - p
  {
    if room == 0 then []
    else if read[p].end == |read| - 1 then [p]
    else [p] + Starts(read, read[p].end + 1, room - 1)
  }

  /** The k-th number is read at the k-th start; the next start is behind the separator, and
      there is none when the string ends or the buffer is full. */
  lemma {:induction false} RoundAt(read: seq<Number>, p: nat, room: nat, k: nat)
    requires ValidReads(read) && p < |read| && k < |ParsedFrom(read, p, room)|
    ensures Starts(read, p, room)[k] < |read|
    ensures var n, more := read[Starts(read, p, room)[k]], k + 1 < |ParsedFrom(read, p, room)|;
      && n.value == ParsedFrom(read, p, room)[k]
      && (more <==> k + 1 < room && n.end < |read| - 1)
      && (more ==> Starts(read, p, room)[k + 1] == n.end + 1)
    decreases |read| - p
  {
    if k > 0 {
      RoundAt(read, read[p].end + 1, room - 1, k - 1);
    }
  }

  /** Round `k` of the parser: it read at starts[k], stores bytes[k], and either ends the scan
      or leaves it at starts[k + 1]. */
  ghost predicate Round(s: CString, room: nat, bytes: seq<byte>, starts: seq<nat>, k: nat)
    requires k < |bytes| == |starts|
  {
    && starts[k] <= |s|
    && var n := Strtoul16(s, starts[k]);
    && LowByte(n.value) == bytes[k]
    && (k + 1 < |bytes| <==> k + 1 < room && At(s, n.end) != NUL)
    && (k + 1 < |bytes| ==> starts[k + 1] == n.end + 1)
  }

  /** The first `n` rounds. */
  ghost predicate Rounds(s: CString, room: nat, bytes: seq<byte>, starts: seq<nat>, n: nat)
    requires n <= |bytes| == |starts|
  {
    n == 0 || (Round(s, room, bytes, starts, n - 1) && Rounds(s, room, bytes, starts, n - 1))
  }

  lemma {:induction false} RoundOf(s: CString, room: nat, bytes: seq<byte>, starts: seq<nat>, n: nat, k: nat)
    requires k < n <= |bytes| == |starts| && Rounds(s, room, bytes, starts, n)
    ensures Round(s, room, bytes, starts, k)
  {
    if k < n - 1 {
      RoundOf(s, room, bytes, starts, n - 1, k);
    }
  }

  /** The rounds that the numbers read stand for. */
  lemma {:induction false} RoundsOf(s: CString, room: nat, bytes: seq<byte>, n: nat)
    requires var values := Parsed(s, 0, room);
      |values| == |bytes| && forall k :: 0 <= k < |values| ==> bytes[k] == LowByte(values[k])
    requires n <= |bytes|
    ensures Rounds(s, room, bytes, Starts(Reads(s), 0, room), n)
  {
    if n > 0 {
      RoundsOf(s, room, bytes, n - 1);
      RoundAt(Reads(s), 0, room, n - 1);
    }
  }

  /** acl_parse_hwaddr. `end` is where the scan stopped: never past the terminator. */
  method ParseHwAddr(buf: array<byte>, bufsize: nat, str: CString)
    returns (ghost end: nat)
    requires bufsize <= buf.Length
    modifies buf
    ensures end <= |str|
    ensures var values := Parsed(str, 0, bufsize);
      && (forall k :: 0 <= k < |values| ==> buf[k] == LowByte(values[k]))
      && (forall k :: |values| <= k < buf.Length ==> buf[k] == old(buf[k]))
  {
    ghost var values, starts := Parsed(str, 0, bufsize), Starts(Reads(str), 0, bufsize);
    ghost var bytes := seq(|values|, k requires 0 <= k < |values| => LowByte(values[k]));
    RoundsOf(str, bufsize, bytes, |bytes|);
    end := ParseRounds(buf, bufsize, str, bytes, starts);
  }

  /** The parser's loop, against the rounds it is to make. */
  method ParseRounds(buf: array<byte>, bufsize: nat, str: CString, ghost bytes: seq<byte>, ghost starts: seq<nat>)
    returns (ghost end: nat)
    requires |bytes| <= bufsize <= buf.Length && |starts| == |bytes|
    requires bufsize > 0 ==> 0 < |bytes| && starts[0] == 0
    requires Rounds(str, bufsize, bytes, starts, |bytes|)
    modifies buf
    ensures end <= |str|
    ensures forall k :: 0 <= k < |bytes| ==> buf[k] == bytes[k]
    ensures forall k :: |bytes| <= k < buf.Length ==> buf[k] == old(buf[k])
  {
    var idx: nat, endptr: nat := 0, 0;
    while idx < bufsize
      invariant idx <= |bytes| && endptr <= |str|
      invariant idx < bufsize ==> idx < |bytes| && starts[idx] == endptr
      invariant forall k :: 0 <= k < idx ==> buf[k] == bytes[k]
      invariant forall k :: idx <= k < buf.Length ==> buf[k] == old(buf[k])
      decreases bufsize - idx
    {
      var b, more;
      b, endptr, more := NextByte(str, endptr, bufsize, bytes, starts, idx);
      buf[idx] := b;
      idx := idx + 1;
      if !more {
        break;
      }
    }
    end := endptr;
  }

  /** One strtoul call, and the step over the separator unless the string ends. */
  method NextByte(str: CString, endptr: nat, ghost room: nat, ghost bytes: seq<byte>, ghost starts: seq<nat>, ghost k: nat)
    returns (b: byte, next: nat, more: bool)
    requires k < |bytes| == |starts| && endptr == starts[k] && Rounds(str, room, bytes, starts, |bytes|)
    ensures b == bytes[k] && next <= |str|
    ensures !more ==> k + 1 == |bytes|
    ensures more && k + 1 < room ==> k + 1 < |bytes| && next == starts[k + 1]
  {
    RoundOf(str, room, bytes, starts, |bytes|, k);
    var n := Strtoul16(str, endptr);
    b, next := LowByte(n.value), n.end;
    more := At(str, next) != NUL;
    if more {
      next := next + 1; // skip ":"
    }
  }

  // ----- the printer

  const HEX_DIGITS: string := "0123456789abcdef"

  lemma {:induction false} HexTable(v: nat)
    requires v < 16
    ensures HEX_DIGITS[v] == HexDigit(v)
  {
    assert v == 0 || v == 1 || v == 2 || v == 3 || v == 4 || v == 5 || v == 6 || v == 7 || v == 8 ||
           v == 9 || v == 10 || v == 11 || v == 12 || v == 13 || v == 14 || v == 15;
  }

  /** Two digits per number and colons between them. */
  function Text(v: seq<octet>): (s: seq<char>)
    requires v != []
    ensures |s| == 3 * |v| - 1
  {
    var digits := [HexDigit(v[0] / 16), HexDigit(v[0] % 16)];
    if |v| == 1 then digits else digits + [':'] + Text(v[1..])
  }

  lemma {:induction false} TextAppend(v: seq<octet>, x: octet)
    requires v != []
    ensures Text(v + [x]) == Text(v) + [':'] + [HexDigit(x / 16), HexDigit(x % 16)]
  {
    var w := v + [x];
    if |v| == 1 {
      assert w[1..] == [x];
    } else {
      assert w[1..] == v[1..] + [x];
      TextAppend(v[1..], x);
    }
  }

  function Printed(addr: seq<byte>): (s: seq<char>)
    requires addr != []
    ensures |s| == 3 * |addr| - 1
  {
    Text(Values(addr))
  }

  lemma {:induction false} TextCharacters(v: seq<octet>, k: nat)
    requires k < |v|
    ensures Text(v)[3 * k] == HexDigit(v[k] / 16) && Text(v)[3 * k + 1] == HexDigit(v[k] % 16)
    ensures k + 1 < |v| ==> Text(v)[3 * k + 2] == ':'
    decreases |v|
  {
    if k > 0 {
      TextCharacters(v[1..], k - 1);
    }
  }

  /** Character by character: for each byte its high and its low digit, colons between. */
  lemma PrintedCharacters(addr: seq<byte>, k: nat)
    requires k < |addr|
    ensures Printed(addr)[3 * k] == HEX_DIGITS[addr[k] as nat / 16]
    ensures Printed(addr)[3 * k + 1] == HEX_DIGITS[addr[k] as nat % 16]
    ensures k + 1 < |addr| ==> Printed(addr)[3 * k + 2] == ':'
  {
    ValuesAt(addr, k);
    TextCharacters(Values(addr), k);
    HexTable(addr[k] as nat / 16);
    HexTable(addr[k] as nat % 16);
  }

  lemma {:induction false} Nibbles(b: byte)
    ensures ((b >> 4) & 0x0F) as int == (b as int) / 16 && (b & 0x0F) as int == (b as int) % 16
  {
  }

  /** What the loop of the printer writes: every byte followed by a colon. */
  function WithColons(addr: seq<byte>): (s: seq<char>)
    ensures |s| == 3 * |addr|
  {
    if addr == [] then [] else WithColons(addr[..|addr| - 1]) + Triple(addr[|addr| - 1])
  }

  function Triple(b: byte): (s: seq<char>)
    ensures |s| == 3
  {
    [HexDigit((b as nat) / 16), HexDigit((b as nat) % 16), ':']
  }

  lemma {:induction false} ColonsAppend(addr: seq<byte>, b: byte)
    ensures WithColons(addr + [b]) == WithColons(addr) + Triple(b)
  {
    assert (addr + [b])[..|addr + [b]| - 1] == addr;
  }

  lemma {:induction false} PrintedWithColons(addr: seq<byte>)
    requires addr != []
    ensures Printed(addr) + [':'] == WithColons(addr)
  {
    var init, b := addr[..|addr| - 1], addr[|addr| - 1];
    assert Values(addr) == Values(init) + [b as nat];
    if init != [] {
      PrintedWithColons(init);
      TextAppend(Values(init), b as nat);
      assert Printed(addr) + [':'] == (Printed(init) + [':']) + Triple(b);
    } else {
      assert Values(init) == [] && WithColons(init) == [];
    }
  }

  /** dhcp_hw_addr_ansi. With no bytes to print the source would write before its buffer. */
  method PrintHwAddr(buff: array<char>, addr: seq<byte>)
    requires 1 <= |addr| && 3 * |addr| <= buff.Length
    modifies buff
    ensures buff[..3 * |addr|] == Printed(addr) + [NUL]
    ensures forall k :: 3 * |addr| <= k < buff.Length ==> buff[k] == old(buff[k])
  {
    var len := |addr|;
    for i := 0 to len
      invariant forall k :: 0 <= k < 3 * i ==> buff[k] == WithColons(addr[..i])[k]
      invariant forall k :: 3 * i <= k < buff.Length ==> buff[k] == old(buff[k])
    {
      PutByte(buff, i, addr[..i], addr[i]);
      assert addr[..i + 1] == addr[..i] + [addr[i]];
    }
    assert addr[..len] == addr;
    PrintedWithColons(addr);
    buff[len * 3 - 1] := NUL;
    assert buff[..3 * len - 1] == Printed(addr);
  }

  /** The body of the printer's loop; `done` are the bytes printed before. */
  method PutByte(buff: array<char>, i: nat, ghost done: seq<byte>, b: byte)
    requires i == |done| && 3 * i + 3 <= buff.Length
    requires forall k :: 0 <= k < 3 * i ==> buff[k] == WithColons(done)[k]
    modifies buff
    ensures forall k :: 0 <= k < 3 * i + 3 ==> buff[k] == WithColons(done + [b])[k]
    ensures forall k :: 3 * i + 3 <= k < buff.Length ==> buff[k] == old(buff[k])
  {
    Nibbles(b);
    HexTable((b as nat) / 16);
    HexTable((b as nat) % 16);
    buff[i * 3 + 0] := HEX_DIGITS[((b >> 4) & 0x0F) as nat];
    buff[i * 3 + 1] := HEX_DIGITS[(b & 0x0F) as nat];
    buff[i * 3 + 2] := ':';
    ColonsAppend(done, b);
  }

  // ----- round trip

  /** The string from position `p` to its end is the text of `v`, character by character. */
  ghost predicate TextAt(s: CString, p: nat, v: seq<octet>)
    requires v != []
    decreases |v|
  {
    && TwoDigitsAt(s, p, v[0] / 16, v[0] % 16)
    && if |v| == 1 then p + 2 == |s|
       else p + 2 < |s| && s[p + 2] == ':' && TextAt(s, p + 3, v[1..])
  }

  lemma {:induction false} TextIsText(s: CString, p: nat, v: seq<octet>)
    requires v != [] && p <= |s| && s[p..] == Text(v)
    ensures TextAt(s, p, v)
    decreases |v|
  {
    var t := s[p..];
    assert s[p] == t[0] && s[p + 1] == t[1];
    if |v| > 1 {
      assert s[p + 2] == t[2] && s[p + 3..] == t[3..];
      TextIsText(s, p + 3, v[1..]);
    }
  }

  /** The parser's first round on such text. */
  lemma {:induction false} ParseFirst(s: CString, p: nat, v: seq<octet>, room: nat)
    requires v != [] && room > 0 && TextAt(s, p, v)
    ensures |v| == 1 ==> Parsed(s, p, room) == [v[0]]
    ensures |v| > 1 ==> Parsed(s, p, room) == [v[0]] + Parsed(s, p + 3, room - 1)
  {
    ReadsTwoDigits(s, p, v[0] / 16, v[0] % 16);
  }

  /** Parsing printed numbers read them back, one each. */
  lemma {:induction false} ParseText(s: CString, p: nat, v: seq<octet>, room: nat)
    requires 1 <= |v| <= room && TextAt(s, p, v)
    ensures Parsed(s, p, room) == v
    decreases |v|
  {
    ParseFirst(s, p, v, room);
    if |v| == 1 {
      assert v == [v[0]];
    } else {
      ParseText(s, p + 3, v[1..], room - 1);
      calc {
        Parsed(s, p, room);
        [v[0]] + Parsed(s, p + 3, room - 1);
        [v[0]] + v[1..];
        v;
      }
    }
  }

  /** The text of a printed address parses back to its bytes. */
  lemma ParsePrinted(s: CString, addr: seq<byte>, room: nat)
    requires 1 <= |addr| <= room && s == Printed(addr)
    ensures |Parsed(s, 0, room)| == |addr|
    ensures forall k :: 0 <= k < |addr| ==> LowByte(Parsed(s, 0, room)[k]) == addr[k]
  {
    assert s[0..] == s;
    TextIsText(s, 0, Values(addr));
    ParseText(s, 0, Values(addr), room);
    forall k | 0 <= k < |addr| ensures LowByte(Values(addr)[k]) == addr[k] {
      ValuesAt(addr, k);
      LowByteOfByte(addr[k]);
    }
  }

  /** Texts that differ in letter case only parse alike. */
  lemma ParsesAlike(s: CString, t: CString, p: nat, room: nat)
    requires SameButCase(s, t) && p <= |s|
    ensures Parsed(s, p, room) == Parsed(t, p, room)
  {
    forall q | 0 <= q <= |s| ensures Reads(s)[q] == Reads(t)[q] {
      CaseDoesNotMatter(s, t, q);
    }
    assert Reads(s) == Reads(t);
  }

  /** A printed address parses back also when its letters are written in upper case. */
  lemma ParsePrintedAnyCase(s: CString, t: CString, addr: seq<byte>, room: nat)
    requires 1 <= |addr| <= room && s == Printed(addr) && SameButCase(s, t)
    ensures |Parsed(t, 0, room)| == |addr|
    ensures forall k :: 0 <= k < |addr| ==> LowByte(Parsed(t, 0, room)[k]) == addr[k]
  {
    ParsePrinted(s, addr, room);
    ParsesAlike(s, t, 0, room);
  }

  /** The conversion keeps the value modulo 256. */
  lemma {:induction false} LowByteIsModulo(v: nat)
    ensures LowByte(v) as int == v % 256
  {
    if v >= 256 {
      LowByteIsModulo(v - 256);
    }
  }

  // ----- the printer's output handed to the parser

  lemma {:induction false} TextHasNoNul(v: seq<octet>, k: nat)
    requires v != [] && k < 3 * |v| - 1
    ensures Text(v)[k] != NUL
    decreases |v|
  {
    HexDigitRoundTrip(v[0] / 16);
    HexDigitRoundTrip(v[0] % 16);
    if k >= 3 {
      TextHasNoNul(v[1..], k - 3);
    }
  }

  /** Printed text is a C string: its only NUL is the terminator. */
  lemma PrintedIsCString(addr: seq<byte>)
    requires addr != []
    ensures forall k :: 0 <= k < |Printed(addr)| ==> Printed(addr)[k] != NUL
  {
    forall k | 0 <= k < |Printed(addr)| ensures Printed(addr)[k] != NUL {
      TextHasNoNul(Values(addr), k);
    }
  }

  /** Print an address, then parse the text: the bytes come back, and the rest of the buffer
      they are parsed into is unchanged. */
  method PrintThenParse(addr: seq<byte>, buf: array<byte>)
    requires 1 <= |addr| <= buf.Length
    modifies buf
    ensures buf[..|addr|] == addr
    ensures forall k :: |addr| <= k < buf.Length ==> buf[k] == old(buf[k])
  {
    var buff := new char[3 * |addr|];
    PrintHwAddr(buff, addr);
    PrintedIsCString(addr);
    ghost var text := buff[..3 * |addr|];
    var str: CString := buff[..3 * |addr| - 1];
    assert str == text[..3 * |addr| - 1] == Printed(addr);
    ParseBack(buf, str, addr);
  }

  /** Parsing the text of a printed address. */
  method ParseBack(buf: array<byte>, str: CString, ghost addr: seq<byte>)
    requires 1 <= |addr| <= buf.Length && str == Printed(addr)
    modifies buf
    ensures buf[..|addr|] == addr
    ensures forall k :: |addr| <= k < buf.Length ==> buf[k] == old(buf[k])
  {
    ParsePrinted(str, addr, buf.Length);
    var _ := ParseHwAddr(buf, buf.Length, str);
  }
}
