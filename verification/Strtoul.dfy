/**
 C strings and strtoul in base 16, as section 7.20.1.4 of ISO C99 describes it, with a 32-bit
 unsigned long.
 */
module Strtoul {
  const NUL: char := '\0'
  const ULONG_MAX: nat := 0xFFFF_FFFF

  /** The characters of a C string before its terminator. */
  type CString = s: seq<char> | forall i :: 0 <= i < |s| ==> s[i] != NUL

  /** The character at a position of a C string, the terminator included. */
  function At(s: CString, p: nat): (c: char)
    requires p <= |s|
    ensures c == NUL <==> p == |s|
  {
    if p < |s| then s[p] else NUL
  }

  // ----- hexadecimal digits

  function HexDigit(v: nat): char
    requires v < 16
  {
    if v < 10 then (v + '0' as int) as char else (v - 10 + 'a' as int) as char
  }

  predicate IsHex(c: char) {
    '0' <= c <= '9' || 'a' <= c <= 'f' || 'A' <= c <= 'F'
  }

  function HexValue(c: char): (v: nat)
    requires IsHex(c)
    ensures v < 16
  {
    if '0' <= c <= '9' then c as int - '0' as int
    else if 'a' <= c <= 'f' then c as int - 'a' as int + 10
    else c as int - 'A' as int + 10
  }

  predicate IsSpace(c: char) {
    c == ' ' || '\t' <= c <= '\r'
  }

  /** Digits survive the round trip and are not taken for anything else. */
  lemma {:induction false} HexDigitRoundTrip(v: nat)
    requires v < 16
    ensures var c := HexDigit(v);
            IsHex(c) && HexValue(c) == v && !IsSpace(c) && c != '+' && c != '-' && c != 'x' && c != 'X'
  {
  }

  // ----- the conversion

  datatype Number = Number(value: nat, end: nat)

  function SkipSpaces(s: CString, p: nat): (q: nat)
    requires p <= |s|
    ensures p <= q <= |s|
    decreases |s| - p
  {
    if IsSpace(At(s, p)) then SkipSpaces(s, p + 1) else p
  }

  /** Where the digits start, past a sign and a 0x prefix. */
  function DigitsStart(s: CString, q: nat): (d: nat)
    requires q <= |s|
    ensures q <= d <= |s|
  {
    var r := if At(s, q) == '+' || At(s, q) == '-' then q + 1 else q;
    if At(s, r) == '0' && (At(s, r + 1) == 'x' || At(s, r + 1) == 'X') && IsHex(At(s, r + 2)) then r + 2 else r
  }

  /** The digits from position `d` on, after the value `acc` of the digits before it. */
  function Digits(s: CString, d: nat, acc: nat): (n: Number)
    requires d <= |s|
    ensures d <= n.end <= |s|
    decreases |s| - d
  {
    if IsHex(At(s, d)) then Digits(s, d + 1, acc * 16 + HexValue(At(s, d))) else Number(acc, d)
  }

  /** The result for the digits at `d`: too large a value saturates, a minus sign negates. */
  function Convert(s: CString, d: nat, negative: bool): (n: Number)
    requires d <= |s|
    ensures d <= n.end <= |s|
  {
    var n := Digits(s, d, 0);
    if n.value > ULONG_MAX then Number(ULONG_MAX, n.end)
    else if negative && n.value > 0 then Number(ULONG_MAX + 1 - n.value, n.end)
    else n
  }

  /** strtoul with base 16: the value, and the first character not converted. */
  function Strtoul16(s: CString, p: nat): (n: Number)
    requires p <= |s|
    ensures p <= n.end <= |s|
  {
    var q := SkipSpaces(s, p);
    var d := DigitsStart(s, q);
    if IsHex(At(s, d)) then Convert(s, d, At(s, q) == '-') else Number(0, p)
  }

  ghost predicate TwoDigitsAt(s: CString, p: nat, hi: nat, lo: nat)
    requires hi < 16 && lo < 16
  {
    && p + 2 <= |s|
    && s[p] == HexDigit(hi) && s[p + 1] == HexDigit(lo) && !IsHex(At(s, p + 2))
  }

  /** Two digits are read as one number, which ends right behind them. */
  lemma {:induction false} ReadsTwoDigits(s: CString, p: nat, hi: nat, lo: nat)
    requires hi < 16 && lo < 16 && TwoDigitsAt(s, p, hi, lo)
    ensures Strtoul16(s, p) == Number(hi * 16 + lo, p + 2)
  {
    HexDigitRoundTrip(hi);
    HexDigitRoundTrip(lo);
    assert SkipSpaces(s, p) == p && DigitsStart(s, p) == p;
    calc {
      Digits(s, p, 0);
      Digits(s, p + 1, hi);
      Digits(s, p + 2, hi * 16 + lo);
      Number(hi * 16 + lo, p + 2);
    }
  }

  // ----- letter case does not matter

  function Lower(c: char): char {
    if 'A' <= c <= 'Z' then (c as int - 'A' as int + 'a' as int) as char else c
  }

  ghost predicate SameButCase(s: CString, t: CString) {
    |s| == |t| && forall i :: 0 <= i < |s| ==> Lower(s[i]) == Lower(t[i])
  }

  lemma {:induction false} SameCharacter(s: CString, t: CString, p: nat)
    requires SameButCase(s, t) && p <= |s|
    ensures var c, d := At(s, p), At(t, p);
      && (IsSpace(c) <==> IsSpace(d)) && (c == '0' <==> d == '0') && (c == '+' <==> d == '+')
      && (c == '-' <==> d == '-') && (c == 'x' || c == 'X' <==> d == 'x' || d == 'X')
      && (IsHex(c) <==> IsHex(d)) && (IsHex(c) ==> HexValue(c) == HexValue(d))
  {
    if p < |s| {
      assert Lower(s[p]) == Lower(t[p]);
    }
  }

  lemma {:induction false} SameSpaces(s: CString, t: CString, p: nat)
    requires SameButCase(s, t) && p <= |s|
    ensures SkipSpaces(s, p) == SkipSpaces(t, p)
    decreases |s| - p
  {
    SameCharacter(s, t, p);
    if IsSpace(At(s, p)) {
      SameSpaces(s, t, p + 1);
    }
  }

  lemma {:induction false} SameStart(s: CString, t: CString, q: nat)
    requires SameButCase(s, t) && q <= |s|
    ensures DigitsStart(s, q) == DigitsStart(t, q)
  {
    SameCharacter(s, t, q);
    var r := if At(s, q) == '+' || At(s, q) == '-' then q + 1 else q;
    SameCharacter(s, t, r);
    if At(s, r) == '0' {
      SameCharacter(s, t, r + 1);
      if At(s, r + 1) == 'x' || At(s, r + 1) == 'X' {
        SameCharacter(s, t, r + 2);
      }
    }
  }

  lemma {:induction false} SameDigits(s: CString, t: CString, d: nat, acc: nat)
    requires SameButCase(s, t) && d <= |s|
    ensures Digits(s, d, acc) == Digits(t, d, acc)
    decreases |s| - d
  {
    SameCharacter(s, t, d);
    if IsHex(At(s, d)) {
      SameDigits(s, t, d + 1, acc * 16 + HexValue(At(s, d)));
    }
  }

  /** Texts that differ in letter case only are read alike, at every position. */
  lemma {:induction false} CaseDoesNotMatter(s: CString, t: CString, p: nat)
    requires SameButCase(s, t) && p <= |s|
    ensures Strtoul16(s, p) == Strtoul16(t, p)
  {
    SameSpaces(s, t, p);
    var q := SkipSpaces(s, p);
    SameStart(s, t, q);
    var d := DigitsStart(s, q);
    SameCharacter(s, t, q);
    SameCharacter(s, t, d);
    SameDigits(s, t, d, 0);
  }

  // ----- what is read, for every text

  const LOWER_DIGITS: string := "0123456789abcdef"
  const UPPER_DIGITS: string := "0123456789ABCDEF"

  /** The character is the hexadecimal digit of `v`, in either case. */
  predicate IsDigitOf(c: char, v: nat) {
    v < 16 && (c == LOWER_DIGITS[v] || c == UPPER_DIGITS[v])
  }

  ghost predicate IsDigit(c: char) {
    exists v :: 0 <= v < 16 && IsDigitOf(c, v)
  }

  /** The six white-space characters of the C locale. */
  predicate IsWhite(c: char) {
    c == ' ' || c == '\t' || c == '\n' || c == '\U{000B}' || c == '\U{000C}' || c == '\r'
  }

  /** No character is a digit of two values, and the others are no digits. */
  lemma {:induction false} DigitTable(c: char)
    ensures forall v :: 0 <= v < 16 ==> (IsDigitOf(c, v) <==> IsHex(c) && HexValue(c) == v)
    ensures IsDigit(c) <==> IsHex(c)
  {
    if IsHex(c) {
      assert HexValue(c) < 16 && (c == LOWER_DIGITS[HexValue(c)] || c == UPPER_DIGITS[HexValue(c)]);
      assert IsDigitOf(c, HexValue(c));
    }
    forall v | 0 <= v < 16 ensures IsDigitOf(c, v) <==> IsHex(c) && HexValue(c) == v {
      assert v == 0 || v == 1 || v == 2 || v == 3 || v == 4 || v == 5 || v == 6 || v == 7 || v == 8 ||
             v == 9 || v == 10 || v == 11 || v == 12 || v == 13 || v == 14 || v == 15;
    }
  }

  /** The number that digits stand for in base 16. */
  function Base16(v: seq<nat>): nat {
    if v == [] then 0 else Base16(v[..|v| - 1]) * 16 + v[|v| - 1]
  }

  /** The digits from `d` on are those of `v`, and no further digit follows. */
  ghost predicate DigitsAt(s: CString, d: nat, v: seq<nat>) {
    && d + |v| <= |s|
    && (forall i :: 0 <= i < |v| ==> IsDigitOf(s[d + i], v[i]))
    && !IsDigit(At(s, d + |v|))
  }

  lemma {:induction false} ReadsDigits(s: CString, d: nat, v: seq<nat>, k: nat)
    requires DigitsAt(s, d, v) && k <= |v|
    ensures Digits(s, d + k, Base16(v[..k])) == Number(Base16(v), d + |v|)
    decreases |v| - k
  {
    if k < |v| {
      DigitTable(s[d + k]);
      assert v[..k + 1][..k] == v[..k];
      assert IsDigitOf(s[d + k], v[k]);
      ReadsDigits(s, d, v, k + 1);
    } else {
      DigitTable(At(s, d + |v|));
      assert v[..k] == v;
    }
  }

  /** A subject sequence: white space, a sign or none, 0x or nothing, digits. `q`, `r` and `d` are
      where the sign, the prefix and the digits stand or would stand. */
  ghost predicate SubjectAt(s: CString, p: nat, q: nat, r: nat, d: nat, v: seq<nat>) {
    && p <= q <= r <= d <= |s| && v != []
    && (forall i :: p <= i < q ==> IsWhite(s[i])) && !IsWhite(At(s, q))
    && (if At(s, q) == '+' || At(s, q) == '-' then r == q + 1 else r == q)
    && (d == r || (d == r + 2 && s[r] == '0' && (s[r + 1] == 'x' || s[r + 1] == 'X')))
    && (d == r ==> !(At(s, r) == '0' && (At(s, r + 1) == 'x' || At(s, r + 1) == 'X') && IsDigit(At(s, r + 2))))
    && DigitsAt(s, d, v)
  }

  lemma {:induction false} SkipsSpaces(s: CString, p: nat, q: nat)
    requires p <= q <= |s| && (forall i :: p <= i < q ==> IsSpace(s[i])) && !IsSpace(At(s, q))
    ensures SkipSpaces(s, p) == q
    decreases q - p
  {
    if p < q {
      SkipsSpaces(s, p + 1, q);
    }
  }

  /** The value of the digits, at most ULONG_MAX; a minus sign negates it modulo 2^32 unless it
      did not fit. */
  function Value(v: seq<nat>, negative: bool): nat {
    if Base16(v) > ULONG_MAX then ULONG_MAX
    else if negative then (ULONG_MAX + 1 - Base16(v)) % (ULONG_MAX + 1)
    else Base16(v)
  }

  lemma ConvertsToValue(s: CString, d: nat, v: seq<nat>, negative: bool)
    requires d + |v| <= |s| && Digits(s, d, 0) == Number(Base16(v), d + |v|)
    ensures Convert(s, d, negative) == Number(Value(v, negative), d + |v|)
  {
  }

  /** A subject sequence is read as its value, and the end is right behind its last digit. */
  lemma {:induction false} ReadsSubject(s: CString, p: nat, q: nat, r: nat, d: nat, v: seq<nat>)
    requires SubjectAt(s, p, q, r, d, v)
    ensures Strtoul16(s, p) == Number(Value(v, At(s, q) == '-'), d + |v|)
  {
    SubjectHasDigit(s, p, q, r, d, v);
    ReadsDigits(s, d, v, 0);
    assert v[..0] == [];
    ConvertsToValue(s, d, v, At(s, q) == '-');
  }

  /** The values of the digits from `d` on, up to the first character that is none. */
  function DigitValues(s: CString, d: nat): (v: seq<nat>)
    requires d <= |s|
    decreases |s| - d
  {
    if IsHex(At(s, d)) then [HexValue(s[d])] + DigitValues(s, d + 1) else []
  }

  lemma {:induction false} DigitValuesAt(s: CString, d: nat)
    requires d <= |s|
    ensures DigitsAt(s, d, DigitValues(s, d))
    decreases |s| - d
  {
    if IsHex(At(s, d)) {
      var v, rest := DigitValues(s, d), DigitValues(s, d + 1);
      DigitValuesAt(s, d + 1);
      DigitTable(s[d]);
      forall i | 0 <= i < |v| ensures IsDigitOf(s[d + i], v[i]) {
        if i > 0 {
          assert IsDigitOf(s[d + 1 + (i - 1)], rest[i - 1]);
        }
      }
    }
  }

  /** A subject sequence begins with a digit behind the white space, sign and prefix. */
  lemma {:induction false} SubjectHasDigit(s: CString, p: nat, q: nat, r: nat, d: nat, v: seq<nat>)
    requires SubjectAt(s, p, q, r, d, v)
    ensures q == SkipSpaces(s, p) && d == DigitsStart(s, q) && IsHex(At(s, d))
  {
    SkipsSpaces(s, p, q);
    DigitTable(s[d]);
    if d == r && At(s, r) == '0' && (At(s, r + 1) == 'x' || At(s, r + 1) == 'X') {
      DigitTable(At(s, r + 2));
    }
    assert IsDigitOf(s[d + 0], v[0]);
  }

  /** Every text either has a subject sequence, which `ReadsSubject` reads, or has none, and then 0
      is read and nothing consumed. */
  lemma SubjectOrNone(s: CString, p: nat) returns (q: nat, r: nat, d: nat, v: seq<nat>)
    requires p <= |s|
    ensures SubjectAt(s, p, q, r, d, v) || (Strtoul16(s, p) == Number(0, p) && NoSubject(s, p))
  {
    q := SkipSpaces(s, p);
    r := if At(s, q) == '+' || At(s, q) == '-' then q + 1 else q;
    d := DigitsStart(s, q);
    v := DigitValues(s, d);
    if IsHex(At(s, d)) {
      SkippedAreSpaces(s, p);
      DigitValuesAt(s, d);
      if At(s, r) == '0' && (At(s, r + 1) == 'x' || At(s, r + 1) == 'X') {
        DigitTable(At(s, r + 2));
      }
    } else {
      NoDigitNoSubject(s, p);
    }
  }

  ghost predicate NoSubject(s: CString, p: nat) {
    forall q, r, d, v :: !SubjectAt(s, p, q, r, d, v)
  }

  lemma NoDigitNoSubject(s: CString, p: nat)
    requires p <= |s| && !IsHex(At(s, DigitsStart(s, SkipSpaces(s, p))))
    ensures NoSubject(s, p)
  {
    forall q: nat, r: nat, d: nat, v: seq<nat> ensures !SubjectAt(s, p, q, r, d, v) {
      if SubjectAt(s, p, q, r, d, v) {
        SubjectHasDigit(s, p, q, r, d, v);
      }
    }
  }

  lemma {:induction false} SkippedAreSpaces(s: CString, p: nat)
    requires p <= |s|
    ensures forall i :: p <= i < SkipSpaces(s, p) ==> IsSpace(s[i])
    ensures !IsSpace(At(s, SkipSpaces(s, p)))
    decreases |s| - p
  {
    if IsSpace(At(s, p)) {
      SkippedAreSpaces(s, p + 1);
    }
  }
}
