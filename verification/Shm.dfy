/**
 The shared-memory writer of libdhcp/src/shm.cpp: a mapping that starts with the lock names and
 goes on with the data region, a mutex with a timeout, and writers that copy byte by byte.
 */
module Shm {
  import opened Wrappers

  /** sizeof(_SHM_LOCKDEF): three names of 256 two-byte characters. */
  const HEADER: nat := 1536

  // Return codes as 32-bit DWORDs.
  const LOCK_FAILED: nat := 0xFFFF_FFFF
  const WRITE_TIMEOUT: nat := 0xFFFF_FFFD

  /** The FAILED macro: negative as a signed 32-bit value. */
  predicate Failed(code: nat) {
    code >= 0x8000_0000
  }

  function Min(a: nat, b: nat): (m: nat)
    ensures m <= a && m <= b && (m == a || m == b)
  {
    if a <= b then a else b
  }

  /** What a successful write of `n` bytes to a region of `len` bytes returns. */
  function Written(n: nat, len: nat): nat {
    Min(n, len) % 0x1_0000_0000
  }

  /** The region after `data`, cut to its length, has been copied to its start. */
  function Overlay(region: seq<byte>, data: seq<byte>): (r: seq<byte>)
    ensures |r| == |region|
    ensures forall i :: 0 <= i < |r| ==> r[i] == if i < |data| then data[i] else region[i]
  {
    var n := Min(|data|, |region|);
    data[..n] + region[n..]
  }

  /** A write that fits returns its own length, any other the region's, both as DWORDs. */
  lemma WrittenIs(n: nat, len: nat)
    ensures n <= len < 0x1_0000_0000 ==> Written(n, len) == n
    ensures len <= n && len < 0x1_0000_0000 ==> Written(n, len) == len
    ensures Written(n, len) < 0x1_0000_0000 && (if n <= len then n else len) % 0x1_0000_0000 == Written(n, len)
  {
  }

  /** A success never looks like a failure exactly when the region is shorter than 2^31 bytes. */
  lemma SuccessIsRecognizable(len: nat)
    ensures (forall n: nat :: !Failed(Written(n, len))) <==> len < 0x8000_0000
  {
    if len >= 0x8000_0000 {
      assert Failed(Written(0x8000_0000, len));
    }
  }

  // ----- the calls as code

  class ShmBlock {
    const len: nat
    const mem: array<byte>
    const lockInit: bool

    ghost predicate Valid() {
      mem.Length == HEADER + len
    }

    ghost function Region(): seq<byte>
      requires Valid()
      reads mem
    {
      mem[HEADER..]
    }

    /** The layout set up by shm_init: the names in front, the data region behind them. */
    constructor (len: nat, names: seq<byte>, lockInit: bool)
      requires |names| == HEADER
      ensures Valid() && this.len == len && this.lockInit == lockInit && fresh(mem)
      ensures mem[..HEADER] == names && forall i :: 0 <= i < len ==> Region()[i] == 0
    {
      this.len, this.lockInit := len, lockInit;
      mem := new byte[HEADER + len](i => if 0 <= i < |names| then names[i] else 0);
      new;
      assert forall i :: 0 <= i < HEADER ==> mem[..HEADER][i] == names[i];
    }

    /** memcpy to the start of the region. */
    method Copy(data: seq<byte>, n: nat)
      requires Valid() && n <= |data| && n <= len
      modifies mem
      ensures mem[..HEADER] == old(mem[..HEADER])
      ensures Region() == data[..n] + old(Region())[n..]
    {
      for k := 0 to n
        invariant forall i :: 0 <= i < HEADER ==> mem[i] == old(mem[i])
        invariant forall i :: 0 <= i < k ==> mem[HEADER + i] == data[i]
        invariant forall i :: HEADER + k <= i < mem.Length ==> mem[i] == old(mem[i])
      {
        mem[HEADER + k] := data[k];
      }
      ghost var r := data[..n] + old(mem[HEADER..])[n..];
      forall i | 0 <= i < len ensures Region()[i] == r[i] {
        assert mem[HEADER..][i] == mem[HEADER + i];
      }
    }

    /** shm_write; `waitOk` is the result of the wait for the mutex, if there is one. */
    method Write(data: seq<byte>, waitOk: bool) returns (code: nat)
      requires Valid()
      modifies mem
      ensures mem[..HEADER] == old(mem[..HEADER])
      ensures lockInit && !waitOk ==> code == LOCK_FAILED && Region() == old(Region())
      ensures !lockInit || waitOk ==> code == Written(|data|, len) && Region() == Overlay(old(Region()), data)
    {
      if lockInit && !waitOk {
        return LOCK_FAILED;
      }
      var n := Min(|data|, len);
      Copy(data, n);
      return n % 0x1_0000_0000;
    }

    /** shm_write_or_skip; `acked` is the result of the wait for the acknowledge event. */
    method WriteOrSkip(data: seq<byte>, waitOk: bool, acked: bool) returns (code: nat)
      requires Valid()
      modifies mem
      ensures mem[..HEADER] == old(mem[..HEADER])
      ensures lockInit && !waitOk ==> code == LOCK_FAILED && Region() == old(Region())
      ensures !lockInit || waitOk ==>
        && Region() == Overlay(old(Region()), data)
        && code == if Failed(Written(|data|, len)) || acked then Written(|data|, len) else WRITE_TIMEOUT
      ensures len < LOCK_FAILED ==> (code == LOCK_FAILED <==> lockInit && !waitOk)
      ensures code == WRITE_TIMEOUT ==> Region() == Overlay(old(Region()), data)
    {
      code := Write(data, waitOk);
      if !(Failed(code) || acked) {
        code := WRITE_TIMEOUT;
      }
    }
  }
}
