/**
 skip_trailing_space of libmysql/include/m_string.h: the end of a string without its trailing
 spaces, found a machine word at a time where alignment allows. The buffer's address matters
 and is a parameter; positions are offsets from it.
 */
module SkipSpace {
  import opened Wrappers

  const SPACE: octet := 0x20

  /** SIZEOF_INT. */
  type WordSize = w: nat | w == 4 || w == 8 witness 4

  /** SPACE_INT. */
  function SpaceInt(w: WordSize): nat {
    if w == 4 then 0x20202020 else 0x2020202020202020
  }

  /** The plain byte loop. */
  function TrimEnd(s: seq<octet>): nat {
    if s == [] || s[|s| - 1] != SPACE then |s| else TrimEnd(s[..|s| - 1])
  }

  lemma {:induction false} TrimEndIs(s: seq<octet>, e: nat)
    requires e <= |s| && (e > 0 ==> s[e - 1] != SPACE)
    requires forall k :: e <= k < |s| ==> s[k] == SPACE
    ensures TrimEnd(s) == e
  {
    if e < |s| {
      TrimEndIs(s[..|s| - 1], e);
    }
  }

  /** The value of bytes in memory, low byte first. */
  function Little(s: seq<octet>): nat {
    if s == [] then 0 else s[0] + 256 * Little(s[1..])
  }

  function Spaces(n: nat): (s: seq<octet>)
    ensures |s| == n && forall i :: 0 <= i < n ==> s[i] == SPACE
  {
    seq(n, _ => SPACE)
  }

  lemma {:induction false} LittleInjective(s: seq<octet>, t: seq<octet>)
    requires |s| == |t| && Little(s) == Little(t)
    ensures s == t
  {
    if s != [] {
      LittleInjective(s[1..], t[1..]);
      assert s == [s[0]] + s[1..] && t == [t[0]] + t[1..];
    }
  }

  lemma {:induction false} SpacesCons(n: nat)
    requires n > 0
    ensures Little(Spaces(n)) == SPACE + 256 * Little(Spaces(n - 1))
  {
    assert Spaces(n)[1..] == Spaces(n - 1);
  }

  /** SPACE_INT is the word of all spaces. */
  lemma {:induction false} SpaceIntIsSpaces(w: WordSize)
    ensures Little(Spaces(w)) == SpaceInt(w)
  {
    SpacesCons(1); SpacesCons(2); SpacesCons(3); SpacesCons(4);
    assert Spaces(0) == [];
    if w == 8 {
      SpacesCons(5); SpacesCons(6); SpacesCons(7); SpacesCons(8);
    }
  }

  /** So a word equals SPACE_INT exactly when all its bytes are spaces. */
  lemma {:induction false} WordTest(s: seq<octet>, w: WordSize)
    requires |s| == w
    ensures Little(s) == SpaceInt(w) <==> forall i :: 0 <= i < w ==> s[i] == SPACE
  {
    SpaceIntIsSpaces(w);
    if Little(s) == SpaceInt(w) {
      LittleInjective(s, Spaces(w));
    }
    if forall i :: 0 <= i < w ==> s[i] == SPACE {
      assert s == Spaces(w);
    }
  }

  /** An `unsigned` read: only at an aligned address and only inside the buffer. Compared with
      SPACE_INT it tells whether those bytes of the buffer are all spaces. */
  method LoadWord(buf: array<octet>, addr: nat, at: nat, w: WordSize) returns (word: nat)
    requires (addr + at) % w == 0 && at + w <= buf.Length
    ensures word == Little(buf[at..at + w])
    ensures word == SpaceInt(w) <==> forall k :: at <= k < at + w ==> buf[k] == SPACE
  {
    ghost var s := buf[at..at + w];
    word := Little(buf[at..at + w]);
    WordTest(s, w);
    assert forall i :: 0 <= i < w ==> s[i] == buf[at + i];
    assert forall k :: at <= k < at + w ==> buf[k] == s[k - at];
  }

  /** The first and last word boundaries of the buffer. */
  lemma Boundaries(addr: nat, len: nat, w: WordSize)
    requires len > 20
    ensures var endWords := (addr + len) / w * w - addr;
            var startWords := (addr + w - 1) / w * w - addr;
      && 0 < endWords <= len && (addr + endWords) % w == 0
      && 0 <= startWords && (addr + startWords) % w == 0
  {
    if w == 4 {
    } else {
    }
  }

  lemma AlignedGap(addr: nat, start: nat, end: nat, w: WordSize)
    requires start < end && (addr + start) % w == 0 && (addr + end) % w == 0
    ensures start + w <= end && (addr + end - w) % w == 0
  {
    if w == 4 {
    } else {
    }
  }

  /** Whatever the content, length and address, the answer is that of the plain byte loop. */
  method SkipTrailingSpace(buf: array<octet>, addr: nat, w: WordSize) returns (end: nat)
    ensures end == TrimEnd(buf[..])
  {
    var len := buf.Length;
    end := len;
    if len > 20 {
      var endWords := (addr + len) / w * w - addr;
      var startWords := (addr + w - 1) / w * w - addr;
      Boundaries(addr, len, w);
      if endWords > 0 {
        while end > endWords && buf[end - 1] == SPACE
          invariant endWords <= end <= len
          invariant forall k :: end <= k < len ==> buf[k] == SPACE
        {
          end := end - 1;
        }
        if buf[end - 1] == SPACE && startWords < endWords {
          end := SkipWords(buf, addr, startWords, end, w);
        }
      }
    }
    while end > 0 && buf[end - 1] == SPACE
      invariant end <= len
      invariant forall k :: end <= k < len ==> buf[k] == SPACE
    {
      end := end - 1;
    }
    TrimEndIs(buf[..], end);
  }

  /** The word loop: word by word, reading at aligned addresses inside the buffer only, it goes
      back over exactly the words that are all spaces. */
  method SkipWords(buf: array<octet>, addr: nat, start: nat, from: nat, w: WordSize) returns (end: nat)
    requires start < from <= buf.Length && (addr + start) % w == 0 && (addr + from) % w == 0
    ensures start <= end <= from && (addr + end) % w == 0
    ensures forall k :: end <= k < from ==> buf[k] == SPACE
    ensures end == start || (start + w <= end && exists k :: end - w <= k < end && buf[k] != SPACE)
  {
    end := from;
    while end > start
      invariant start <= end <= from && (addr + end) % w == 0
      invariant forall k :: end <= k < from ==> buf[k] == SPACE
    {
      AlignedGap(addr, start, end, w);
      var word := LoadWord(buf, addr, end - w, w);
      if word != SpaceInt(w) {
        break;
      }
      end := end - w;
    }
  }
}
