/**
 dhcp_find_option of libdhcp/src/dhcp.c against the option format of sections 2 and 3.2 of
 RFC 2132: code, length, payload; a one-byte Pad (0); a one-byte End (255).
 */
module DhcpOptions {
  import opened Wrappers

  const PAD: octet := 0
  const END: octet := 0xFF

  /** The scanner's index is a 32-bit unsigned int. */
  const INDEX_LIMIT: nat := 0x1_0000_0000

  datatype Found = NotFound | Found(pos: nat, len: nat)

  // ----- the scanner

  /** The answer of the walk from index `idx` on. */
  function Scan(data: seq<octet>, size: nat, option: octet, idx: nat): Found
    requires Readable(data, size, option, idx)
    decreases size - idx
  {
    if idx >= size then NotFound
    else if data[idx] == option then Found(idx + 2, data[idx + 1])
    else if data[idx] == END then NotFound
    else Scan(data, size, option, idx + data[idx + 1] + 2)
  }

  /** Every byte the walk looks at exists: the code, and the byte after it. */
  predicate Readable(data: seq<octet>, size: nat, option: octet, idx: nat)
    decreases size - idx
  {
    idx < size ==>
      && idx + 1 < |data|
      && (data[idx] != option && data[idx] != END ==>
            Readable(data, size, option, idx + data[idx + 1] + 2))
  }

  /** One byte behind `size` is enough, whatever the data. */
  lemma {:induction false} OneMoreByteSuffices(data: seq<octet>, size: nat, option: octet, idx: nat)
    requires size < |data|
    ensures Readable(data, size, option, idx)
    decreases size - idx
  {
    if idx < size {
      OneMoreByteSuffices(data, size, option, idx + data[idx + 1] + 2);
    }
  }

  /** The walk's index stays below 2^32. */
  predicate Fits(data: seq<octet>, size: nat, option: octet, idx: nat)
    requires Readable(data, size, option, idx)
    decreases size - idx
  {
    idx < size && data[idx] != option && data[idx] != END ==>
      var next := idx + data[idx + 1] + 2;
      next < INDEX_LIMIT && Fits(data, size, option, next)
  }

  /** It does for every size up to 2^32 - 257, whatever the data. */
  lemma {:induction false} SmallSizesFit(data: seq<octet>, size: nat, option: octet, idx: nat)
    requires Readable(data, size, option, idx) && size <= INDEX_LIMIT - 257
    ensures Fits(data, size, option, idx)
    decreases size - idx
  {
    if idx < size && data[idx] != option && data[idx] != END {
      SmallSizesFit(data, size, option, idx + data[idx + 1] + 2);
    }
  }

  /** dhcp_find_option. */
  method FindOption(data: array<octet>, size: nat, option: octet) returns (r: Found)
    requires Readable(data[..], size, option, 0) && Fits(data[..], size, option, 0)
    ensures r == Scan(data[..], size, option, 0)
  {
    ghost var d := data[..];
    var idx: nat := 0;
    var cop: octet := 0;
    var dlen: octet := 0;
    while cop != END && idx < size
      invariant cop != END ==> Readable(d, size, option, idx) && Fits(d, size, option, idx)
      invariant Scan(d, size, option, 0) == if cop == END then NotFound else Scan(d, size, option, idx)
      decreases if cop == END then 0 else size - idx
    {
      cop := data[idx];
      dlen := data[idx + 1];
      if cop == option {
        return Found(idx + 2, dlen);
      } else {
        idx := Wrap32(idx + dlen + 2);
      }
    }
    return NotFound;
  }

  /** Addition on a 32-bit unsigned int. */
  function Wrap32(n: nat): (r: nat)
    ensures n < INDEX_LIMIT ==> r == n
  {
    n % INDEX_LIMIT
  }

  // ----- the format

  datatype Item = Pad | Opt(code: octet, len: octet, payload: seq<octet>)
  {
    predicate Has(option: octet) { Opt? && code == option }

    predicate WellFormed() {
      Opt? ==> code != PAD && code != END && len == |payload|
    }

    function Size(): nat { if Pad? then 1 else 2 + |payload| }

    function Bytes(): (b: seq<octet>)
      ensures |b| == Size()
    {
      match this
      case Pad => [PAD]
      case Opt(code, len, payload) => [code, len] + payload
    }
  }

  predicate WellFormed(items: seq<Item>) {
    forall i :: 0 <= i < |items| ==> items[i].WellFormed()
  }

  function Size(items: seq<Item>): nat {
    if items == [] then 0 else items[0].Size() + Size(items[1..])
  }

  function Encode(items: seq<Item>): (b: seq<octet>)
    ensures |b| == Size(items)
  {
    if items == [] then [] else items[0].Bytes() + Encode(items[1..])
  }

  /** What the format says: where the payload of the first option with that code lies, when the
      items start at offset `at`. */
  function Lookup(items: seq<Item>, option: octet, at: nat): Found {
    if items == [] then NotFound
    else if items[0].Has(option) then Found(at + 2, |items[0].payload|)
    else Lookup(items[1..], option, at + items[0].Size())
  }

  /** No Pad comes before the first option with that code. */
  predicate PadFreeUntil(items: seq<Item>, option: octet) {
    items == [] || (items[0].Opt? && (items[0].code == option || PadFreeUntil(items[1..], option)))
  }

  /** The items lie at `at`, one after the other, are followed by End before `size`, and one
      byte after End can be read. */
  predicate LaidOut(data: seq<octet>, size: nat, at: nat, items: seq<Item>)
    decreases |items|
  {
    if items == [] then EndAt(data, size, at)
    else ItemAt(data, at, items[0]) && LaidOut(data, size, at + items[0].Size(), items[1..])
  }

  predicate EndAt(data: seq<octet>, size: nat, at: nat) {
    at < size && at + 1 < |data| && data[at] == END
  }

  predicate ItemAt(data: seq<octet>, at: nat, item: Item) {
    match item
    case Pad => at < |data| && data[at] == PAD
    case Opt(code, len, payload) =>
      at + 2 <= |data| && data[at] == code && data[at + 1] == len && BytesAt(data, at + 2, payload)
  }

  predicate BytesAt(data: seq<octet>, at: nat, bytes: seq<octet>) {
    at + |bytes| <= |data| && forall k :: 0 <= k < |bytes| ==> data[at + k] == bytes[k]
  }

  lemma {:induction false} LaidOutInside(data: seq<octet>, size: nat, at: nat, items: seq<Item>)
    requires LaidOut(data, size, at, items)
    ensures at < size && at + 1 < |data|
    decreases |items|
  {
    if items != [] {
      LaidOutInside(data, size, at + items[0].Size(), items[1..]);
    }
  }

  lemma Windows(data: seq<octet>, at: nat, x: seq<octet>, y: seq<octet>)
    requires BytesAt(data, at, x + y)
    ensures BytesAt(data, at, x) && BytesAt(data, at + |x|, y)
  {
    forall k | 0 <= k < |x| ensures data[at + k] == x[k] {
      assert (x + y)[k] == x[k];
    }
    forall k | 0 <= k < |y| ensures data[at + |x| + k] == y[k] {
      assert (x + y)[|x| + k] == y[k];
    }
  }

  lemma FirstItem(data: seq<octet>, at: nat, item: Item)
    requires BytesAt(data, at, item.Bytes())
    ensures ItemAt(data, at, item)
  {
    var b := item.Bytes();
    assert data[at] == b[0];
    if item.Opt? {
      assert data[at + 1] == b[1];
      Windows(data, at, [item.code, item.len], item.payload);
    }
  }

  lemma {:induction false} EncodedIsLaidOut(data: seq<octet>, size: nat, at: nat, items: seq<Item>, end: nat)
    requires BytesAt(data, at, Encode(items)) && end == at + Size(items) && EndAt(data, size, end)
    ensures LaidOut(data, size, at, items)
    decreases |items|
  {
    if items != [] {
      EncodedStep(data, at, items);
      EncodedIsLaidOut(data, size, at + items[0].Size(), items[1..], end);
    }
  }

  lemma {:induction false} EncodedStep(data: seq<octet>, at: nat, items: seq<Item>)
    requires items != [] && BytesAt(data, at, Encode(items))
    ensures ItemAt(data, at, items[0]) && BytesAt(data, at + items[0].Size(), Encode(items[1..]))
  {
    ItemThenRest(data, at, items[0], Encode(items[1..]));
  }

  lemma ItemThenRest(data: seq<octet>, at: nat, first: Item, rest: seq<octet>)
    requires BytesAt(data, at, first.Bytes() + rest)
    ensures ItemAt(data, at, first) && BytesAt(data, at + first.Size(), rest)
  {
    Windows(data, at, first.Bytes(), rest);
    FirstItem(data, at, first);
  }

  /** The data starts with the encoded list, followed by End before `size` and one more byte. */
  ghost predicate Encoded(data: seq<octet>, size: nat, items: seq<Item>) {
    var end := Size(items);
    EndAt(data, size, end) && data[..end] == Encode(items)
  }

  lemma {:induction false} StartsWith(data: seq<octet>, bytes: seq<octet>)
    requires |bytes| <= |data| && data[..|bytes|] == bytes
    ensures BytesAt(data, 0, bytes)
  {
    forall k | 0 <= k < |bytes| ensures data[0 + k] == bytes[k] {
      assert data[..|bytes|][k] == data[k];
    }
  }

  /** An option with another code is stepped over. */
  lemma {:induction false} ScanSkips(data: seq<octet>, size: nat, at: nat, item: Item, option: octet)
    requires item.Opt? && item.WellFormed() && item.code != option
    requires ItemAt(data, at, item) && at < size && Readable(data, size, option, at + item.Size())
    ensures Readable(data, size, option, at)
    ensures Scan(data, size, option, at) == Scan(data, size, option, at + item.Size())
  {
    assert at + data[at + 1] + 2 == at + item.Size();
  }

  /**
   On a list closed by End in which no Pad precedes the wanted option, the scanner finds
   exactly what the format says: the first option with that code, or nothing iff there is none.
   */
  lemma {:induction false} ScanFindsFirst(data: seq<octet>, size: nat, at: nat, items: seq<Item>, option: octet)
    requires WellFormed(items) && LaidOut(data, size, at, items)
    requires option != END && PadFreeUntil(items, option)
    ensures Readable(data, size, option, at)
    ensures Scan(data, size, option, at) == Lookup(items, option, at)
    decreases |items|
  {
    LaidOutInside(data, size, at, items);
    if items != [] {
      var first, rest := items[0], items[1..];
      assert first.WellFormed();
      if first.code != option {
        ScanFindsFirst(data, size, at + first.Size(), rest, option);
        ScanSkips(data, size, at, first, option);
      }
    }
  }

  /** The first item with that code, or the number of items. */
  function FirstWith(items: seq<Item>, option: octet): (i: nat)
    ensures i <= |items| && (i < |items| ==> items[i].Has(option))
  {
    if items == [] || items[0].Has(option) then 0 else FirstWith(items[1..], option) + 1
  }

  lemma {:induction false} FirstWithIsFirst(items: seq<Item>, option: octet, j: nat)
    requires j < FirstWith(items, option)
    ensures !items[j].Has(option)
  {
    if j > 0 {
      FirstWithIsFirst(items[1..], option, j - 1);
    }
  }

  /** `Lookup` in plain words: nothing iff no item has the code, else the place behind the first
      item that has it begins: past everything before it, and past its code and length. */
  lemma {:induction false} LookupIsFirst(items: seq<Item>, option: octet, at: nat)
    ensures var f := FirstWith(items, option);
      Lookup(items, option, at) ==
      if f == |items| then NotFound else Found(at + Size(items[..f]) + 2, |items[f].payload|)
  {
    if items != [] && !items[0].Has(option) {
      LookupIsFirst(items[1..], option, at + items[0].Size());
      var f := FirstWith(items, option);
      assert f == FirstWith(items[1..], option) + 1;
      assert items[..f][0] == items[0] && items[..f][1..] == items[1..][..f - 1];
    }
  }

  /** Each item lies behind the items before it. */
  lemma {:induction false} LaidOutAt(data: seq<octet>, size: nat, at: nat, items: seq<Item>, i: nat)
    requires LaidOut(data, size, at, items) && i < |items|
    ensures ItemAt(data, at + Size(items[..i]), items[i])
    decreases |items|
  {
    if i > 0 {
      LaidOutAt(data, size, at + items[0].Size(), items[1..], i - 1);
      assert items[..i][0] == items[0] && items[..i][1..] == items[1..][..i - 1];
    }
  }

  /** All of it on the bytes of an encoded list: what dhcp_find_option answers is absent iff no
      option has the code, and is otherwise the place, length and bytes of the payload of the
      first one that has. */
  lemma FindsFirstOption(data: seq<octet>, size: nat, items: seq<Item>, option: octet)
    requires WellFormed(items) && Encoded(data, size, items)
    requires option != END && PadFreeUntil(items, option)
    ensures Readable(data, size, option, 0)
    ensures var r, f := Scan(data, size, option, 0), FirstWith(items, option);
      && (r.NotFound? <==> forall i :: 0 <= i < |items| ==> !items[i].Has(option))
      && (r.Found? ==>
            && f < |items|
            && r == Found(|Encode(items[..f])| + 2, |items[f].payload|)
            && BytesAt(data, r.pos, items[f].payload))
  {
    EncodedDataLaidOut(data, size, items);
    FindsFirstLaidOut(data, size, items, option);
    var f := FirstWith(items, option);
    assert |Encode(items[..f])| == Size(items[..f]);
  }

  lemma EncodedDataLaidOut(data: seq<octet>, size: nat, items: seq<Item>)
    requires Encoded(data, size, items)
    ensures LaidOut(data, size, 0, items)
  {
    StartsWith(data, Encode(items));
    EncodedIsLaidOut(data, size, 0, items, Size(items));
  }

  lemma FindsFirstLaidOut(data: seq<octet>, size: nat, items: seq<Item>, option: octet)
    requires WellFormed(items) && LaidOut(data, size, 0, items)
    requires option != END && PadFreeUntil(items, option)
    ensures Readable(data, size, option, 0)
    ensures var r, f := Scan(data, size, option, 0), FirstWith(items, option);
      && (r.NotFound? <==> forall i :: 0 <= i < |items| ==> !items[i].Has(option))
      && (r.Found? ==>
            && f < |items|
            && r == Found(Size(items[..f]) + 2, |items[f].payload|)
            && BytesAt(data, r.pos, items[f].payload))
  {
    ScanFindsFirst(data, size, 0, items, option);
    LookupIsFirst(items, option, 0);
    var f := FirstWith(items, option);
    forall i | 0 <= i < f ensures !items[i].Has(option) {
      FirstWithIsFirst(items, option, i);
    }
    if f < |items| {
      LaidOutAt(data, size, 0, items, f);
    }
  }

  // ----- a Pad in front of the wanted option

  /** The items lie at `at`, one after the other; what follows them is left open. */
  predicate ItemsAt(data: seq<octet>, at: nat, items: seq<Item>)
    decreases |items|
  {
    items == [] || (ItemAt(data, at, items[0]) && ItemsAt(data, at + items[0].Size(), items[1..]))
  }

  /** Options only, and none with that code. */
  predicate OtherOptions(items: seq<Item>, option: octet) {
    WellFormed(items) && forall i :: 0 <= i < |items| ==> items[i].Opt? && items[i].code != option
  }

  /** Options with other codes are stepped over, all of them. */
  lemma {:induction false} ScanSkipsAll(data: seq<octet>, size: nat, at: nat, items: seq<Item>, option: octet)
    requires size < |data| && OtherOptions(items, option)
    requires ItemsAt(data, at, items) && at + Size(items) <= size
    ensures Readable(data, size, option, at) && Readable(data, size, option, at + Size(items))
    ensures Scan(data, size, option, at) == Scan(data, size, option, at + Size(items))
    decreases |items|
  {
    OneMoreByteSuffices(data, size, option, at);
    OneMoreByteSuffices(data, size, option, at + Size(items));
    if items != [] {
      var first, rest := items[0], items[1..];
      assert first.WellFormed();
      ScanSkipsAll(data, size, at + first.Size(), rest, option);
      ScanSkips(data, size, at, first, option);
    }
  }

  /** Items without the code do not matter to the format. */
  lemma {:induction false} LookupAppend(xs: seq<Item>, ys: seq<Item>, option: octet, at: nat)
    ensures Lookup(xs + ys, option, at) ==
            if FirstWith(xs, option) < |xs| then Lookup(xs, option, at)
            else Lookup(ys, option, at + Size(xs))
    decreases |xs|
  {
    if xs == [] {
      assert xs + ys == ys;
    } else {
      assert (xs + ys)[0] == xs[0] && (xs + ys)[1..] == xs[1..] + ys;
      if !xs[0].Has(option) {
        LookupAppend(xs[1..], ys, option, at + xs[0].Size());
      }
    }
  }

  lemma {:induction false} OtherOptionsLackIt(items: seq<Item>, option: octet)
    requires OtherOptions(items, option)
    ensures FirstWith(items, option) == |items|
  {
    if items != [] {
      OtherOptionsLackIt(items[1..], option);
    }
  }

  /** The first Pad lies at `p`, behind options without the code. */
  ghost predicate PadAt(data: seq<octet>, size: nat, at: nat, before: seq<Item>, option: octet, p: nat) {
    && option != PAD && option != END
    && OtherOptions(before, option) && ItemsAt(data, at, before) && p == at + Size(before)
    && p < size < |data| && data[p] == PAD
  }

  /** Where the walk goes on after a Pad at `p`: the byte behind the Pad is taken for a length. */
  function AfterPad(data: seq<octet>, p: nat): nat
    requires p + 1 < |data|
  {
    p + data[p + 1] + 2
  }

  /** Whatever follows the Pad, the walk goes on at `AfterPad`, and it agrees with the format if
      and only if from there it finds what the format finds right behind the Pad. */
  lemma PadPutsOutOfStep(data: seq<octet>, size: nat, at: nat, before: seq<Item>, rest: seq<Item>,
                         option: octet, p: nat)
    requires PadAt(data, size, at, before, option, p)
    ensures Readable(data, size, option, at) && Readable(data, size, option, AfterPad(data, p))
    ensures Scan(data, size, option, at) == Scan(data, size, option, AfterPad(data, p))
    ensures Lookup(before + ([Pad] + rest), option, at) == Lookup(rest, option, p + 1)
  {
    ScanSkipsAll(data, size, at, before, option);
    OneMoreByteSuffices(data, size, option, AfterPad(data, p));
    OtherOptionsLackIt(before, option);
    LookupAppend(before, [Pad] + rest, option, at);
    assert ([Pad] + rest)[0] == Pad && ([Pad] + rest)[1..] == rest;
  }

  /** Nothing but zero bytes: nothing is found. */
  lemma {:induction false} ScanZeros(data: seq<octet>, size: nat, option: octet, idx: nat)
    requires size < |data| && option != PAD && forall k :: idx <= k < size ==> data[k] == PAD
    ensures Readable(data, size, option, idx) && Scan(data, size, option, idx) == NotFound
    decreases size - idx
  {
    OneMoreByteSuffices(data, size, option, idx);
    if idx < size {
      ScanZeros(data, size, option, idx + data[idx + 1] + 2);
    }
  }

  /** When the walk goes on past `size`, or into the zero bytes that fill the message, the Pad
      hides everything behind it: the answer is right if and only if the format has nothing. */
  lemma PadHidesTheRest(data: seq<octet>, size: nat, at: nat, before: seq<Item>, rest: seq<Item>,
                        option: octet, p: nat)
    requires PadAt(data, size, at, before, option, p)
    requires forall k :: AfterPad(data, p) <= k < size ==> data[k] == PAD
    ensures Readable(data, size, option, at) && Scan(data, size, option, at) == NotFound
    ensures Scan(data, size, option, at) == Lookup(before + ([Pad] + rest), option, at) <==>
            Lookup(rest, option, p + 1) == NotFound
  {
    PadPutsOutOfStep(data, size, at, before, rest, option, p);
    ScanZeros(data, size, option, AfterPad(data, p));
  }

  lemma {:induction false} LookupRange(items: seq<Item>, option: octet, at: nat)
    ensures Lookup(items, option, at).Found? ==>
              at + 2 <= Lookup(items, option, at).pos <= at + Size(items)
    ensures Lookup(items, option, at).Found? <==> FirstWith(items, option) < |items|
  {
    if items != [] && !items[0].Has(option) {
      LookupRange(items[1..], option, at + items[0].Size());
    }
  }

  /** Leaving items out does not change what the format says iff none of them has the code. */
  lemma LookupSkip(skipped: seq<Item>, tail: seq<Item>, option: octet, at: nat, next: nat)
    requires next == at + Size(skipped)
    ensures Lookup(skipped + tail, option, at) == Lookup(tail, option, next) <==>
            FirstWith(skipped, option) == |skipped|
  {
    LookupAppend(skipped, tail, option, at);
    LookupRange(skipped, option, at);
    LookupRange(tail, option, next);
  }

  /** When the walk goes on at the start of an item again, behind the items `skipped`, it is back
      in step: the answer is right if and only if none of those has the code. Two Pads in a row
      are such a case: the first one skips the second. */
  lemma PadSkipsItems(data: seq<octet>, size: nat, at: nat, before: seq<Item>, skipped: seq<Item>,
                      tail: seq<Item>, option: octet, p: nat, next: nat)
    requires PadAt(data, size, at, before, option, p)
    requires next == AfterPad(data, p) == p + 1 + Size(skipped)
    requires WellFormed(tail) && LaidOut(data, size, next, tail) && PadFreeUntil(tail, option)
    ensures Readable(data, size, option, at)
    ensures Scan(data, size, option, at) == Lookup(before + ([Pad] + (skipped + tail)), option, at) <==>
            FirstWith(skipped, option) == |skipped|
  {
    LookupSkip(skipped, tail, option, p + 1, next);
    var rest := skipped + tail;
    ScanFindsFirst(data, size, next, tail, option);
    PadPutsOutOfStep(data, size, at, before, rest, option, p);
  }

  /** Out of step, payload bytes are taken for options: here the second payload byte passes for
      the code and the third for the length, and the answer points at End. */
  lemma PadGivesAWrongHit(data: seq<octet>, items: seq<Item>)
    requires data == [0, 2, 3, 2, 2, 0, 0xFF, 0] && items == [Pad, Opt(2, 3, [2, 2, 0])]
    ensures WellFormed(items) && Encoded(data, 7, items)
    ensures Readable(data, 7, 2, 0) && Scan(data, 7, 2, 0) == Found(6, 0)
    ensures Lookup(items, 2, 0) == Found(3, 3)
  {
    assert items[1..] == [Opt(2, 3, [2, 2, 0])] && items[1..][1..] == [];
    assert Encode(items[1..]) == [2, 3, 2, 2, 0];
    assert Encode(items) == [0, 2, 3, 2, 2, 0];
    assert data[..6] == [0, 2, 3, 2, 2, 0];
    assert Readable(data, 7, 2, 4);
  }

  /** Asked for code 255, the scanner takes End itself for the option. */
  lemma EndIsTakenForAnOption(data: seq<octet>, size: nat, at: nat, items: seq<Item>, end: nat)
    requires OtherOptions(items, END) && ItemsAt(data, at, items) && end == at + Size(items)
    requires end < size < |data| && data[end] == END
    ensures Readable(data, size, END, at)
    ensures Scan(data, size, END, at) == Found(end + 2, data[end + 1])
    ensures Lookup(items, END, at) == NotFound
  {
    ScanSkipsAll(data, size, at, items, END);
    OtherOptionsLackIt(items, END);
    LookupRange(items, END, at);
  }
}
