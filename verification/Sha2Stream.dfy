/** Hashing a message piece by piece. */
module Sha2Stream {
  import F = Fips180
  import Sha2

  const WORD_32: nat := 0x1_0000_0000
  const WORD_64: nat := 0x1_0000_0000_0000_0000

  lemma {:induction false} BlocksAppend(s: seq<bv32>, m: seq<bv8>, t: seq<bv8>)
    requires |s| == 8 && |m| % 64 == 0
    ensures F.Blocks(s, m + t) == F.Blocks(F.Blocks(s, m), t)
    decreases |m|
  {
    hide F.Compress;
    if |m| == 0 {
      assert m + t == t;
    } else {
      assert (m + t)[..64] == m[..64] && (m + t)[64..] == m[64..] + t;
      BlocksAppend(F.Compress(s, m[..64]), m[64..], t);
    }
  }

  lemma BlocksStep(s: seq<bv32>, data: seq<bv8>, x: nat)
    requires |s| == 8 && x % 64 == 0 && x + 64 <= |data|
    ensures F.Blocks(s, data[..x + 64]) == F.Compress(F.Blocks(s, data[..x]), data[x..x + 64])
  {
    hide F.Compress;
    var block := data[x..x + 64];
    assert data[..x + 64] == data[..x] + block;
    BlocksAppend(s, data[..x], block);
    assert block[..64] == block && block[64..] == [];
  }

  lemma BlocksRest(s: seq<bv32>, data: seq<bv8>, x: nat)
    requires |s| == 8 && x % 64 == 0 && x <= |data| < x + 64
    ensures F.Blocks(s, data) == F.Blocks(s, data[..x])
  {
    hide F.Compress;
    assert data == data[..x] + data[x..];
    BlocksAppend(s, data[..x], data[x..]);
  }

  /** The hash of a message, by variant. */
  function Hash(truncated: bool, msg: seq<bv8>): seq<bv8> {
    if truncated then F.Sha224(msg) else F.Sha256(msg)
  }

  function HashLength(truncated: bool): nat {
    if truncated then 28 else 32
  }

  class Context {
    const truncated: bool
    const state: array<bv32>
    const buf: array<bv8>
    var count: nat
    /** The message so far. */
    ghost var msg: seq<bv8>

    ghost function Iv(): (s: seq<bv32>)
      ensures |s| == 8
    {
      if truncated then F.IV_224 else F.IV_256
    }

    ghost predicate Shape() {
      state.Length == 8 && buf.Length == 64
    }

    ghost predicate Valid()
      reads this, state, buf
    {
      && Shape()
      && count == |msg| % WORD_64
      && state[..] == F.Blocks(Iv(), msg)
      && buf[..|msg| % 64] == msg[|msg| - |msg| % 64..]
    }

    constructor (truncated: bool)
      ensures Shape() && this.truncated == truncated && fresh(state) && fresh(buf)
    {
      this.truncated := truncated;
      state, buf := new bv32[8](_ => 0), new bv8[64](_ => 0);
    }

    /** sha256_init, sha224_init */
    method Init()
      requires Shape()
      modifies this, state
      ensures Valid() && msg == []
    {
      var iv := if truncated then F.IV_224 else F.IV_256;
      forall i | 0 <= i < 8 {
        state[i] := iv[i];
      }
      count, msg := 0, [];
      assert state[..] == Iv();
    }

    /** memcpy into the partial block */
    method Fill(at: nat, data: seq<bv8>)
      requires Shape() && at + |data| <= 64
      modifies buf
      ensures buf[..at + |data|] == old(buf[..at]) + data
    {
      forall i | at <= i < at + |data| {
        buf[i] := data[i - at];
      }
    }

    lemma CountIsLength()
      requires Valid() && 8 * |msg| < WORD_64
      ensures Shape() && count % 64 == |msg| % 64 && 8 * count % WORD_64 == 8 * |msg|
    {
      hide F.Blocks;
      SmallMod(|msg|);
      SmallMod(8 * |msg|);
    }

    /** Append the padding and the length in bits. */
    method Pad()
      requires Valid() && 8 * |msg| < WORD_64
      modifies this, state, buf
      ensures Valid() && msg == old(msg) + F.Padding(|old(msg)|)
    {
      hide Valid, F.Length64, F.Padding, PADDING;
      CountIsLength();
      PaddingParts(|msg|);
      var bits := F.Length64(8 * count % WORD_64);
      var index := count % 64;
      var padLen := if index < 56 then 56 - index else 120 - index;
      Update(PADDING[..padLen]);
      Update(bits);
      assert msg == old(msg) + (PADDING[..padLen] + bits);
    }

    /** memset of the context */
    method Wipe()
      requires Shape()
      modifies this, state, buf
      ensures forall i :: 0 <= i < 8 ==> state[i] == 0
      ensures forall i :: 0 <= i < 64 ==> buf[i] == 0
      ensures count == 0
    {
      forall i | 0 <= i < 8 {
        state[i] := 0;
      }
      forall i | 0 <= i < 64 {
        buf[i] := 0;
      }
      count, msg := 0, [];
    }

    /** sha256_final */
    method Final() returns (out: seq<bv8>)
      requires Valid() && 8 * |msg| < WORD_64
      modifies this, state, buf
      ensures Shape() && |out| == 32
      ensures out == F.StateBytes(F.Blocks(Iv(), old(msg) + F.Padding(|old(msg)|)))
      ensures count == 0 && (forall i :: 0 <= i < 8 ==> state[i] == 0)
                         && (forall i :: 0 <= i < 64 ==> buf[i] == 0)
    {
      hide F.Compress, F.Blocks, F.Padding, F.StateBytes;
      Pad();
      out := F.StateBytes(state[..]);
      Wipe();
    }

    /** The digest of the variant: sha224_final keeps the first 28 bytes. */
    method FinalDigest() returns (out: seq<bv8>)
      requires Valid() && 8 * |msg| < WORD_64
      modifies this, state, buf
      ensures Shape() && out == Hash(truncated, old(msg))
    {
      hide F.Blocks, F.Padding, F.StateBytes;
      out := Final();
      if truncated {
        out := out[..28];
      }
    }

    /** The loop over complete blocks. done is an unsigned 32-bit number: it counts from the start of
        data and begins below zero, modulo 2^32, when the first block was started earlier. */
    method TransformBlocks(first: seq<bv8>, data: seq<bv8>, start: nat, ghost m: seq<bv8>, ghost x0: nat)
      returns (done: nat, ghost x: nat)
      requires Shape() && |data| < WORD_32 - 64 && x0 % 64 == 0 && x0 <= |m| < x0 + 64 <= |m + data|
      requires first == (m + data)[x0..x0 + 64]
      requires state[..] == F.Blocks(Iv(), (m + data)[..x0])
      requires start == if x0 == |m| then 0 else WORD_32 - (|m| - x0)
      modifies state
      ensures x % 64 == 0 && |m| <= x <= |m + data| < x + 64 && done == x - |m|
      ensures state[..] == F.Blocks(Iv(), (m + data)[..x])
    {
      hide F.Compress, F.Blocks;
      ghost var all := m + data;
      var block := first;
      done, x := start, x0;
      while true
        invariant x % 64 == 0 && x0 <= x && x + 64 <= |all|
        invariant block == all[x..x + 64] && state[..] == F.Blocks(Iv(), all[..x])
        invariant done == if x >= |m| then x - |m| else WORD_32 - (|m| - x)
        invariant x > x0 ==> x >= |m|
        decreases |all| - x
      {
        BlocksStep(Iv(), all, x);
        Sha2.Transform(state, block);
        x := x + 64;
        NextDone(done, x, |m|, x0, |data|);
        done := (done + 64) % WORD_32;
        if !((done + 63) % WORD_32 < |data|) {
          break;
        }
        block := data[done..done + 64];
        SliceBehind(m, data, done, done + 64);
      }
    }

    /** sha256_update */
    method Update(data: seq<bv8>)
      requires Valid() && |data| < WORD_32 - 64
      modifies this, state, buf
      ensures Valid() && msg == old(msg) + data
    {
      hide F.Compress, F.Blocks;
      ghost var m := msg;
      var partial := count % 64;
      ghost var x0 := |m| - partial;
      CountParts(|m|, |data|);
      StateOfPrefix(Iv(), m, data, x0);
      ghost var x;
      count := (count + |data|) % WORD_64;
      if partial + |data| > 63 {
        x := UpdateLong(data, partial, m);
      } else {
        x := x0;
        UpdateShort(data, partial, m);
      }
      BlocksRest(Iv(), m + data, x);
      PartOf(|m + data|, x);
      msg := m + data;
    }

    /** The case in which the data only extends the partial block. */
    method UpdateShort(data: seq<bv8>, partial: nat, ghost m: seq<bv8>)
      requires Shape() && partial + |data| <= 63 && partial <= |m|
      requires buf[..partial] == m[|m| - partial..]
      modifies buf
      ensures buf[..partial + |data|] == (m + data)[|m| - partial..]
    {
      Fill(partial, data);
    }

    /** The case in which the data completes a block. */
    method UpdateLong(data: seq<bv8>, partial: nat, ghost m: seq<bv8>) returns (ghost x: nat)
      requires Shape() && |data| < WORD_32 - 64 && partial < 64 <= partial + |data|
      requires partial <= |m| && (|m| - partial) % 64 == 0
      requires state[..] == F.Blocks(Iv(), (m + data)[..|m| - partial])
      requires buf[..partial] == m[|m| - partial..]
      modifies state, buf
      ensures x % 64 == 0 && x <= |m + data| < x + 64
      ensures state[..] == F.Blocks(Iv(), (m + data)[..x])
      ensures buf[..|m + data| - x] == (m + data)[x..]
    {
      hide F.Compress, F.Blocks;
      var done := 0;
      var first;
      if partial > 0 {
        done := WORD_32 - partial;
        FirstBlock(m, data, |m| - partial);
        Fill(partial, data[..(done + 64) % WORD_32]);
        first := buf[..64];
      } else {
        SliceBehind(m, data, 0, 64);
        first := data[0..64];
      }
      done, x := TransformBlocks(first, data, done, m, |m| - partial);
      SliceBehind(m, data, done, |data|);
      Fill(0, data[done..]);
      assert data[done..] == data[done..|data|];
      assert (m + data)[x..] == (m + data)[x..|m| + |data|];
    }
  }

  // The padding, as the program cuts it from a constant block.

  const PADDING: seq<bv8> := [0x80] + seq(63, _ => 0)

  lemma PaddingParts(len: nat)
    ensures var index := len % 64;
            var padLen := if index < 56 then 56 - index else 120 - index;
            |PADDING| == 64 && padLen <= 64 && PADDING[..padLen] + F.Length64(8 * len) == F.Padding(len)
  {
    hide F.Length64;
  }

  lemma NextDone(done: nat, x: nat, n: nat, x0: nat, len: nat)
    requires x0 <= n < x0 + 64 && len < WORD_32 - 64 && x0 + 64 <= x <= n + len && (x > x0 + 64 ==> x - 64 >= n)
    requires done == if x - 64 >= n then x - 64 - n else WORD_32 - (n - (x - 64))
    ensures (done + 64) % WORD_32 == x - n
    ensures (x - n + 63) % WORD_32 < len <==> x + 64 <= n + len
  {
  }

  lemma SmallMod(n: nat)
    requires n < WORD_64
    ensures n % WORD_64 == n
  {
  }

  lemma CountParts(n: nat, len: nat)
    ensures n % WORD_64 % 64 == n % 64 && (n - n % 64) % 64 == 0
    ensures (n % WORD_64 + len) % WORD_64 == (n + len) % WORD_64
  {
  }

  lemma PartOf(n: nat, x: nat)
    requires x % 64 == 0 && x <= n < x + 64
    ensures n % 64 == n - x
  {
  }

  lemma SliceBehind(m: seq<bv8>, data: seq<bv8>, i: nat, j: nat)
    requires i <= j <= |data|
    ensures (m + data)[|m| + i..|m| + j] == data[i..j]
  {
  }

  lemma StateOfPrefix(iv: seq<bv32>, m: seq<bv8>, data: seq<bv8>, x: nat)
    requires |iv| == 8 && x % 64 == 0 && x <= |m| < x + 64
    ensures F.Blocks(iv, (m + data)[..x]) == F.Blocks(iv, m)
  {
    hide F.Blocks;
    BlocksRest(iv, m, x);
    assert (m + data)[..x] == m[..x];
  }

  lemma FirstBlock(m: seq<bv8>, data: seq<bv8>, x: nat)
    requires x <= |m| < x + 64 <= |m| + |data|
    ensures (m + data)[x..x + 64] == m[x..] + data[..x + 64 - |m|]
  {
  }
}
