/**
 The high-byte-first store and load macros of libmysql/include/myisampack.h. Integers are
 unbounded here and each macro's casts are written out: `ulong` is 32 bits wide, so the macros
 for five bytes and more split the value into two words.
 */
module Pack {
  import opened Wrappers

  const WORD: int := 0x1_0000_0000

  // ----- big-endian images

  /** The last `n` bytes of the two's complement image of `a`, most significant first. */
  function Image(a: int, n: nat): (s: seq<octet>)
    ensures |s| == n
    decreases n
  {
    if n == 0 then [] else Image(a / 256, n - 1) + [a % 256]
  }

  function Unsigned(s: seq<octet>): nat {
    if s == [] then 0 else Unsigned(s[..|s| - 1]) * 256 + s[|s| - 1]
  }

  function Pow256(n: nat): (p: int)
    ensures p > 0
  {
    if n == 0 then 1 else 256 * Pow256(n - 1)
  }

  /** The value of an image read as a two's complement number. */
  function Signed(s: seq<octet>): int {
    if s != [] && s[0] >= 128 then Unsigned(s) - Pow256(|s|) else Unsigned(s)
  }

  lemma {:induction false} UnsignedOfImage(a: int, n: nat)
    requires 0 <= a < Pow256(n)
    ensures Unsigned(Image(a, n)) == a
  {
    if n > 0 {
      UnsignedOfImage(a / 256, n - 1);
      var s := Image(a, n);
      assert s[..n - 1] == Image(a / 256, n - 1) && s[n - 1] == a % 256;
    }
  }

  lemma {:induction false} ImageOfNegative(a: int, n: nat)
    ensures Image(a, n) == Image(a + Pow256(n), n)
    decreases n
  {
    if n > 0 {
      assert (a + Pow256(n)) / 256 == a / 256 + Pow256(n - 1);
      assert (a + Pow256(n)) % 256 == a % 256;
      ImageOfNegative(a / 256, n - 1);
    }
  }

  lemma {:induction false} TopByte(a: int, n: nat)
    requires n > 0 && 0 <= a < Pow256(n)
    ensures Image(a, n)[0] >= 128 <==> 2 * a >= Pow256(n)
  {
    if n > 1 {
      var q, half := a / 256, Pow256(n - 1) / 2;
      TopByte(q, n - 1);
      assert Image(a, n)[0] == Image(q, n - 1)[0];
      EvenPow(n - 1);
      assert Pow256(n - 1) == 2 * half && Pow256(n) == 512 * half;
      assert a >= 256 * half <==> q >= half;
    } else {
      assert Image(a, 1) == [] + [a % 256];
    }
  }

  lemma {:induction false} EvenPow(n: nat)
    requires n > 0
    ensures Pow256(n) % 2 == 0
  {
    assert Pow256(n) == 2 * (128 * Pow256(n - 1));
  }

  /** Every signed value that fits comes back, sign included. */
  lemma SignedOfImage(a: int, n: nat)
    requires n > 0 && -Pow256(n) <= 2 * a < Pow256(n)
    ensures Signed(Image(a, n)) == a
  {
    var u := if a < 0 then a + Pow256(n) else a;
    ImageOfNegative(a, n);
    UnsignedOfImage(u, n);
    TopByte(u, n);
  }

  // ----- byte order is numeric order

  predicate LexLess(s: seq<octet>, t: seq<octet>)
    requires |s| == |t|
  {
    s != [] && (s[0] < t[0] || (s[0] == t[0] && LexLess(s[1..], t[1..])))
  }

  lemma {:induction false} LexLessSnoc(s: seq<octet>, t: seq<octet>, a: octet, b: octet)
    requires |s| == |t|
    ensures LexLess(s + [a], t + [b]) <==> LexLess(s, t) || (s == t && a < b)
  {
    if s == [] {
      assert s + [a] == [a] && t + [b] == [b];
    } else {
      assert (s + [a])[1..] == s[1..] + [a] && (t + [b])[1..] == t[1..] + [b];
      LexLessSnoc(s[1..], t[1..], a, b);
      assert s == [s[0]] + s[1..] && t == [t[0]] + t[1..];
    }
  }

  lemma {:induction false} ByteOrderIsNumericOrder(a: int, b: int, n: nat)
    requires 0 <= a < Pow256(n) && 0 <= b < Pow256(n)
    ensures LexLess(Image(a, n), Image(b, n)) <==> a < b
  {
    if n > 0 {
      ByteOrderIsNumericOrder(a / 256, b / 256, n - 1);
      UnsignedOfImage(a / 256, n - 1);
      UnsignedOfImage(b / 256, n - 1);
      LexLessSnoc(Image(a / 256, n - 1), Image(b / 256, n - 1), a % 256, b % 256);
    }
  }

  // ----- the store macros

  /** The `k`-th byte from the low end. */
  function Digit(a: int, k: nat): octet
    decreases k
  {
    if k == 0 then a % 256 else Digit(a / 256, k - 1)
  }

  lemma {:induction false} ImageDigit(a: int, n: nat, k: nat)
    requires k < n
    ensures Image(a, n)[n - 1 - k] == Digit(a, k)
    decreases n
  {
    if k > 0 {
      ImageDigit(a / 256, n - 1, k - 1);
    }
  }

  lemma {:induction false} Shifts(a: int, q: int, w: int)
    requires a == q * WORD + w && 0 <= w < WORD
    ensures a / 256 == q * 0x100_0000 + w / 256
    ensures a / 256 / 256 == q * 0x1_0000 + w / 0x1_0000
    ensures a / 256 / 256 / 256 == q * 0x100 + w / 0x100_0000
  {
  }

  /** The bytes of the low word, as the macros shift them out of `def_temp`. */
  lemma {:induction false} LowWord(a: int, w: int)
    requires w == a % WORD
    ensures w % 256 == Digit(a, 0) && (w / 0x100) % 256 == Digit(a, 1)
    ensures (w / 0x1_0000) % 256 == Digit(a, 2) && (w / 0x100_0000) % 256 == Digit(a, 3)
  {
    Shifts(a, a / WORD, w);
    LowDigits(a);
  }

  lemma {:induction false} LowDigits(a: int)
    ensures Digit(a, 1) == (a / 256) % 256 && Digit(a, 2) == (a / 256 / 256) % 256
    ensures Digit(a, 3) == (a / 256 / 256 / 256) % 256
  {
    assert Digit(a, 1) == Digit(a / 256, 0);
    assert Digit(a, 2) == Digit(a / 256, 1) == Digit(a / 256 / 256, 0);
    assert Digit(a, 3) == Digit(a / 256, 2) == Digit(a / 256 / 256, 1) == Digit(a / 256 / 256 / 256, 0);
  }

  lemma {:induction false} HighDigit(a: int, k: nat)
    ensures Digit(a, k + 4) == Digit(a / WORD, k)
  {
    assert a / 256 / 256 / 256 / 256 == a / WORD;
    assert Digit(a, k + 4) == Digit(a / 256, k + 3) == Digit(a / 256 / 256, k + 2);
    assert Digit(a / 256 / 256, k + 2) == Digit(a / 256 / 256 / 256, k + 1) == Digit(a / 256 / 256 / 256 / 256, k);
  }

  /** The bytes of both words. */
  lemma {:induction false} BothWords(a: int, w: int, w2: int)
    requires w == a % WORD && w2 == (a / WORD) % WORD
    ensures w % 256 == Digit(a, 0) && (w / 0x100) % 256 == Digit(a, 1)
    ensures (w / 0x1_0000) % 256 == Digit(a, 2) && (w / 0x100_0000) % 256 == Digit(a, 3)
    ensures w2 % 256 == Digit(a, 4) && (w2 / 0x100) % 256 == Digit(a, 5)
    ensures (w2 / 0x1_0000) % 256 == Digit(a, 6) && (w2 / 0x100_0000) % 256 == Digit(a, 7)
  {
    LowWord(a, w);
    LowWord(a / WORD, w2);
    HighDigit(a, 0);
    HighDigit(a, 1);
    HighDigit(a, 2);
    HighDigit(a, 3);
  }

  /** Bytes that are the digits of `a` are its image. */
  lemma DigitsAreImage(s: seq<octet>, a: int, n: nat)
    requires |s| == n && forall k :: 0 <= k < n ==> s[n - 1 - k] == Digit(a, k)
    ensures s == Image(a, n)
  {
    forall i | 0 <= i < n ensures s[i] == Image(a, n)[i] {
      ImageDigit(a, n, n - 1 - i);
      assert s[n - 1 - (n - 1 - i)] == Digit(a, n - 1 - i);
    }
  }

  method Store2(t: array<octet>, off: nat, a: int)
    requires off + 2 <= t.Length
    modifies t
    ensures t[off..off + 2] == Image(a, 2)
    ensures t[..off] == old(t[..off]) && t[off + 2..] == old(t[off + 2..])
  {
    var temp := a % WORD;
    LowWord(a, temp);
    t[off + 1] := temp % 256;
    t[off + 0] := (temp / 0x100) % 256;
    DigitsAreImage(t[off..off + 2], a, 2);
  }

  method Store3(t: array<octet>, off: nat, a: int)
    requires off + 3 <= t.Length
    modifies t
    ensures t[off..off + 3] == Image(a, 3)
    ensures t[..off] == old(t[..off]) && t[off + 3..] == old(t[off + 3..])
  {
    var temp := a % WORD;
    LowWord(a, temp);
    t[off + 2] := temp % 256;
    t[off + 1] := (temp / 0x100) % 256;
    t[off + 0] := (temp / 0x1_0000) % 256;
    DigitsAreImage(t[off..off + 3], a, 3);
  }

  method Store4(t: array<octet>, off: nat, a: int)
    requires off + 4 <= t.Length
    modifies t
    ensures t[off..off + 4] == Image(a, 4)
    ensures t[..off] == old(t[..off]) && t[off + 4..] == old(t[off + 4..])
  {
    var temp := a % WORD;
    LowWord(a, temp);
    t[off + 3] := temp % 256;
    t[off + 2] := (temp / 0x100) % 256;
    t[off + 1] := (temp / 0x1_0000) % 256;
    t[off + 0] := (temp / 0x100_0000) % 256;
    DigitsAreImage(t[off..off + 4], a, 4);
  }

  method Store5(t: array<octet>, off: nat, a: int)
    requires off + 5 <= t.Length
    modifies t
    ensures t[off..off + 5] == Image(a, 5)
    ensures t[..off] == old(t[..off]) && t[off + 5..] == old(t[off + 5..])
  {
    var temp, temp2 := a % WORD, (a / WORD) % WORD;
    BothWords(a, temp, temp2);
    t[off + 4] := temp % 256;
    t[off + 3] := (temp / 0x100) % 256;
    t[off + 2] := (temp / 0x1_0000) % 256;
    t[off + 1] := (temp / 0x100_0000) % 256;
    t[off + 0] := temp2 % 256;
    DigitsAreImage(t[off..off + 5], a, 5);
  }

  method Store6(t: array<octet>, off: nat, a: int)
    requires off + 6 <= t.Length
    modifies t
    ensures t[off..off + 6] == Image(a, 6)
    ensures t[..off] == old(t[..off]) && t[off + 6..] == old(t[off + 6..])
  {
    var temp, temp2 := a % WORD, (a / WORD) % WORD;
    BothWords(a, temp, temp2);
    t[off + 5] := temp % 256;
    t[off + 4] := (temp / 0x100) % 256;
    t[off + 3] := (temp / 0x1_0000) % 256;
    t[off + 2] := (temp / 0x100_0000) % 256;
    t[off + 1] := temp2 % 256;
    t[off + 0] := (temp2 / 0x100) % 256;
    DigitsAreImage(t[off..off + 6], a, 6);
  }

  method Store7(t: array<octet>, off: nat, a: int)
    requires off + 7 <= t.Length
    modifies t
    ensures t[off..off + 7] == Image(a, 7)
    ensures t[..off] == old(t[..off]) && t[off + 7..] == old(t[off + 7..])
  {
    var temp, temp2 := a % WORD, (a / WORD) % WORD;
    BothWords(a, temp, temp2);
    t[off + 6] := temp % 256;
    t[off + 5] := (temp / 0x100) % 256;
    t[off + 4] := (temp / 0x1_0000) % 256;
    t[off + 3] := (temp / 0x100_0000) % 256;
    t[off + 2] := temp2 % 256;
    t[off + 1] := (temp2 / 0x100) % 256;
    t[off + 0] := (temp2 / 0x1_0000) % 256;
    DigitsAreImage(t[off..off + 7], a, 7);
  }

  method Store8(t: array<octet>, off: nat, a: int)
    requires off + 8 <= t.Length
    modifies t
    ensures t[off..off + 8] == Image(a, 8)
    ensures t[..off] == old(t[..off]) && t[off + 8..] == old(t[off + 8..])
  {
    var temp3, temp4 := a % WORD, (a / WORD) % WORD;
    TwoHalves(a, temp3, temp4);
    Store4(t, off + 0, temp4);
    Store4(t, off + 4, temp3);
    assert t[off..off + 8] == t[off..off + 4] + t[off + 4..off + 8];
  }

  lemma {:induction false} HalfDigits(a: int, w: int, w2: int, k: nat)
    requires w == a % WORD && w2 == (a / WORD) % WORD && k < 4
    ensures Digit(w, k) == Digit(a, k) && Digit(w2, k) == Digit(a, k + 4)
  {
    LowWord(a, w);
    LowWord(w, w);
    LowWord(a / WORD, w2);
    LowWord(w2, w2);
    HighDigit(a, k);
  }

  /** Eight bytes are the images of the two words. */
  lemma {:induction false} TwoHalves(a: int, w: int, w2: int)
    requires w == a % WORD && w2 == (a / WORD) % WORD
    ensures Image(a, 8) == Image(w2, 4) + Image(w, 4)
  {
    var n: nat := 4;
    var s := Image(w2, n) + Image(w, n);
    forall k | 0 <= k < 8 ensures s[8 - 1 - k] == Digit(a, k) {
      if k < 4 {
        HalfDigits(a, w, w2, k);
        ImageDigit(w, n, k);
      } else {
        HalfDigits(a, w, w2, k - 4);
        ImageDigit(w2, n, k - 4);
      }
    }
    DigitsAreImage(s, a, 8);
  }

  // ----- the load macros

  function Uint2(s: seq<octet>): int
    requires |s| == 2
  {
    (Wide(s[1]) + Wide(s[0]) * 0x100) % 0x1_0000
  }

  function Uint3(s: seq<octet>): int
    requires |s| == 3
  {
    (Wide(s[2]) + Wide(s[1]) * 0x100 + Wide(s[0]) * 0x1_0000) % WORD
  }

  function Uint4(s: seq<octet>): int
    requires |s| == 4
  {
    (Wide(s[3]) + Wide(s[2]) * 0x100 + Wide(s[1]) * 0x1_0000 + Wide(s[0]) * 0x100_0000) % WORD
  }

  // From five bytes on: the last four bytes as one word, the others as a second one.

  function Uint5(s: seq<octet>): int
    requires |s| == 5
  {
    Uint4(s[1..]) + Wide(s[0]) * WORD
  }

  function Uint6(s: seq<octet>): int
    requires |s| == 6
  {
    Uint4(s[2..]) + Uint2(s[..2]) * WORD
  }

  function Uint7(s: seq<octet>): int
    requires |s| == 7
  {
    Uint4(s[3..]) + Uint3(s[..3]) * WORD
  }

  function Uint8(s: seq<octet>): int
    requires |s| == 8
  {
    Uint4(s[4..]) + Uint4(s[..4]) * WORD
  }

  /** A byte as a number of a wider type. */
  function Wide(x: octet): int { x }

  /** A `char`, which is signed. */
  function Char(x: octet): int {
    if x >= 128 then x - 256 else x
  }

  function Sint2(s: seq<octet>): int
    requires |s| == 2
  {
    Wide(s[1]) + Char(s[0]) * 0x100
  }

  /** The top bit of the first byte selects the branch that puts 255 in front. */
  function Sint3(s: seq<octet>): int
    requires |s| == 3
  {
    if s[0] >= 128 then 255 * 0x100_0000 + Wide(s[0]) * 0x1_0000 + Wide(s[1]) * 0x100 + Wide(s[2]) - WORD
    else Wide(s[0]) * 0x1_0000 + Wide(s[1]) * 0x100 + Wide(s[2])
  }

  function Sint4(s: seq<octet>): int
    requires |s| == 4
  {
    Wide(s[3]) + Wide(s[2]) * 0x100 + Wide(s[1]) * 0x1_0000 + Char(s[0]) * 0x100_0000
  }

  function Sint8(s: seq<octet>): int
    requires |s| == 8
  {
    if Uint8(s) >= WORD * WORD / 2 then Uint8(s) - WORD * WORD else Uint8(s)
  }

  lemma {:induction false} Horner(s: seq<octet>, n: nat)
    requires |s| == n + 1
    ensures |s[..n]| == n && Unsigned(s) == Unsigned(s[..n]) * 256 + s[n]
  {
  }

  lemma {:induction false} Load2(s: seq<octet>)
    requires |s| == 2
    ensures Uint2(s) == Unsigned(s) && Sint2(s) == Signed(s)
  {
    Horner(s, 1);
    Horner(s[..1], 0);
    assert s[..1][..0] == [] && Pow256(2) == 0x1_0000;
  }

  lemma {:induction false} Load3(s: seq<octet>)
    requires |s| == 3
    ensures Uint3(s) == Unsigned(s) && Sint3(s) == Signed(s)
  {
    Horner(s, 2);
    Load2(s[..2]);
    assert Pow256(3) == 0x100_0000;
  }

  lemma {:induction false} Load4(s: seq<octet>)
    requires |s| == 4
    ensures Uint4(s) == Unsigned(s) && Sint4(s) == Signed(s)
  {
    Horner(s, 3);
    Load3(s[..3]);
    assert Pow256(4) == WORD;
  }

  /** The value of the last bytes adds to the value of the bytes before them, shifted up. */
  lemma {:induction false} SplitValue(s: seq<octet>, n: nat)
    requires n <= |s|
    ensures Unsigned(s) == Unsigned(s[..n]) * Pow256(|s| - n) + Unsigned(s[n..])
  {
    if n == |s| {
      assert s[..n] == s && s[n..] == [];
    } else {
      var m := |s| - 1;
      var u, p, v := Unsigned(s[..n]), Pow256(m - n), Unsigned(s[n..m]);
      SplitValue(s[..m], n);
      assert s[..m][..n] == s[..n] && s[..m][n..] == s[n..m];
      assert Unsigned(s[..m]) == u * p + v;
      assert Unsigned(s[n..]) == v * 256 + s[m] by {
        assert s[n..][..m - n] == s[n..m];
      }
      ShiftSum(u, p, v);
    }
  }

  lemma {:induction false} ShiftSum(u: int, p: int, v: int)
    ensures (u * p + v) * 256 == u * (256 * p) + v * 256
  {
  }

  lemma {:induction false} Load5(s: seq<octet>)
    requires |s| == 5
    ensures Uint5(s) == Unsigned(s)
  {
    SplitValue(s, 1);
    Load4(s[1..]);
    assert s[..1][..0] == [] && Unsigned(s[..1]) == s[0] && Pow256(4) == WORD;
  }

  lemma {:induction false} Load6(s: seq<octet>)
    requires |s| == 6
    ensures Uint6(s) == Unsigned(s)
  {
    SplitValue(s, 2);
    Load2(s[..2]);
    Load4(s[2..]);
    assert Pow256(4) == WORD;
  }

  lemma {:induction false} Load7(s: seq<octet>)
    requires |s| == 7
    ensures Uint7(s) == Unsigned(s)
  {
    SplitValue(s, 3);
    Load3(s[..3]);
    Load4(s[3..]);
    assert Pow256(4) == WORD;
  }

  lemma {:induction false} Load8(s: seq<octet>)
    requires |s| == 8
    ensures Uint8(s) == Unsigned(s) && Sint8(s) == Signed(s)
  {
    SplitValue(s, 4);
    Load4(s[..4]);
    Load4(s[4..]);
    assert Pow256(4) == WORD && Pow256(8) == WORD * WORD;
    assert s[0] >= 128 <==> Uint4(s[..4]) >= WORD / 2;
  }

  // ----- round trips

  /** What a store macro writes, the load macro of the same width reads back, for every value
      that fits. */
  lemma StoreThenLoad(a: int)
    ensures 0 <= a < Pow256(2) ==> Uint2(Image(a, 2)) == a
    ensures 0 <= a < Pow256(3) ==> Uint3(Image(a, 3)) == a
    ensures 0 <= a < Pow256(4) ==> Uint4(Image(a, 4)) == a
    ensures 0 <= a < Pow256(5) ==> Uint5(Image(a, 5)) == a
    ensures 0 <= a < Pow256(6) ==> Uint6(Image(a, 6)) == a
    ensures 0 <= a < Pow256(7) ==> Uint7(Image(a, 7)) == a
    ensures 0 <= a < Pow256(8) ==> Uint8(Image(a, 8)) == a
  {
    if 0 <= a < Pow256(2) { UnsignedOfImage(a, 2); Load2(Image(a, 2)); }
    if 0 <= a < Pow256(3) { UnsignedOfImage(a, 3); Load3(Image(a, 3)); }
    if 0 <= a < Pow256(4) { UnsignedOfImage(a, 4); Load4(Image(a, 4)); }
    if 0 <= a < Pow256(5) { UnsignedOfImage(a, 5); Load5(Image(a, 5)); }
    if 0 <= a < Pow256(6) { UnsignedOfImage(a, 6); Load6(Image(a, 6)); }
    if 0 <= a < Pow256(7) { UnsignedOfImage(a, 7); Load7(Image(a, 7)); }
    if 0 <= a < Pow256(8) { UnsignedOfImage(a, 8); Load8(Image(a, 8)); }
  }

  lemma SignedStoreThenLoad(a: int)
    ensures -Pow256(2) <= 2 * a < Pow256(2) ==> Sint2(Image(a, 2)) == a
    ensures -Pow256(3) <= 2 * a < Pow256(3) ==> Sint3(Image(a, 3)) == a
    ensures -Pow256(4) <= 2 * a < Pow256(4) ==> Sint4(Image(a, 4)) == a
    ensures -Pow256(8) <= 2 * a < Pow256(8) ==> Sint8(Image(a, 8)) == a
  {
    if -Pow256(2) <= 2 * a < Pow256(2) { SignedOfImage(a, 2); Load2(Image(a, 2)); }
    if -Pow256(3) <= 2 * a < Pow256(3) { SignedOfImage(a, 3); Load3(Image(a, 3)); }
    if -Pow256(4) <= 2 * a < Pow256(4) { SignedOfImage(a, 4); Load4(Image(a, 4)); }
    if -Pow256(8) <= 2 * a < Pow256(8) { SignedOfImage(a, 8); Load8(Image(a, 8)); }
  }
}
