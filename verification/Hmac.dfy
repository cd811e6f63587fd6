/** HMAC over the SHA-2 contexts, against section 2 of RFC 2104. */
module Hmac {
  import F = Fips180
  import opened Sha2Stream

  const PAD_LENGTH: nat := 64

  function Xor8(a: bv8, b: bv8): bv8 { a ^ b }

  /** The key, extended with zeros to a block, xor a constant byte. */
  function KeyXor(key: seq<bv8>, c: bv8): (s: seq<bv8>)
    requires |key| <= PAD_LENGTH
    ensures |s| == PAD_LENGTH
  {
    seq(PAD_LENGTH, i requires 0 <= i < PAD_LENGTH => Xor8(c, if i < |key| then key[i] else 0))
  }

  /** The padded key is one block of the hash. */
  lemma PadIsOneBlock(key: seq<bv8>, c: bv8, iv: seq<bv32>)
    requires |key| <= PAD_LENGTH && |iv| == 8
    ensures |KeyXor(key, c)| == 64 && F.Blocks(iv, KeyXor(key, c)) == F.Compress(iv, KeyXor(key, c))
  {
    hide F.Compress, Xor8;
    var s := KeyXor(key, c);
    assert s[..64] == s && s[64..] == [];
  }

  /** H(K xor opad, H(K xor ipad, text)) for keys of at most one block. */
  function Mac(truncated: bool, key: seq<bv8>, text: seq<bv8>): (s: seq<bv8>)
    requires |key| <= PAD_LENGTH
  {
    Hash(truncated, KeyXor(key, 0x5c) + Hash(truncated, KeyXor(key, 0x36) + text))
  }

  class HmacContext {
    const d: Context
    const ipad: array<bv8>
    const opad: array<bv8>
    var key: seq<bv8>
    /** The text so far. */
    ghost var text: seq<bv8>

    ghost predicate Shape() {
      && d.Shape() && ipad.Length == opad.Length == PAD_LENGTH
      && ipad != opad && ipad != d.buf && opad != d.buf
    }

    /** Between Init and Final. */
    ghost predicate Valid()
      reads this, d, d.state, d.buf, ipad, opad
    {
      && Shape() && d.Valid() && |key| <= PAD_LENGTH
      && opad[..] == KeyXor(key, 0x5c)
      && d.msg == KeyXor(key, 0x36) + text
    }

    constructor (truncated: bool)
      ensures Shape() && d.truncated == truncated && key == []
    {
      d := new Context(truncated);
      ipad, opad := new bv8[PAD_LENGTH](_ => 0), new bv8[PAD_LENGTH](_ => 0);
      key := [];
    }

    /** digest_hmac_set_key, for keys of at most one block */
    method SetKey(k: seq<bv8>)
      requires Shape() && |k| <= PAD_LENGTH
      modifies this`key
      ensures key == k
    {
      key := k;
    }

    /** memset to c, then xor the key over it */
    method KeyPad(pad: array<bv8>, c: bv8)
      requires pad.Length == PAD_LENGTH && |key| <= PAD_LENGTH
      modifies pad
      ensures pad[..] == KeyXor(key, c)
    {
      hide Xor8;
      forall i | 0 <= i < PAD_LENGTH {
        pad[i] := c;
      }
      XorZero(c);
      var i := 0;
      while i < |key|
        invariant 0 <= i <= |key|
        invariant forall j :: 0 <= j < PAD_LENGTH ==> pad[j] == if j < i then Xor8(c, key[j]) else c
      {
        pad[i] := Xor8(pad[i], key[i]);
        i := i + 1;
      }
    }

    /** digest_hmac_init */
    method Init()
      requires Shape() && |key| <= PAD_LENGTH
      modifies this`text, d, d.state, d.buf, ipad, opad
      ensures Valid() && text == [] && key == old(key)
    {
      hide KeyXor, Context.Valid;
      KeyPad(ipad, 0x36);
      KeyPad(opad, 0x5c);
      d.Init();
      d.Update(ipad[..]);
      text := [];
      assert d.msg == KeyXor(key, 0x36);
    }

    /** digest_hmac_update */
    method Update(data: seq<bv8>)
      requires Valid() && |data| < WORD_32 - 64
      modifies this`text, d, d.state, d.buf
      ensures Valid() && text == old(text) + data && key == old(key)
    {
      hide KeyXor, Context.Valid;
      d.Update(data);
      assert d.msg == KeyXor(key, 0x36) + (text + data);
      text := text + data;
    }

    /** digest_hmac_final */
    method Final() returns (md: seq<bv8>)
      requires Valid() && 8 * (PAD_LENGTH + |text|) < WORD_64
      modifies this`text, d, d.state, d.buf
      ensures Shape() && md == Mac(d.truncated, key, old(text))
    {
      hide KeyXor, Hash, Context.Valid;
      ghost var outer := opad[..];
      DigestSize(d.truncated, d.msg);
      var tmp := d.FinalDigest();
      d.Init();
      d.Update(opad[..]);
      assert d.msg == outer;
      d.Update(tmp);
      md := d.FinalDigest();
      text := [];
    }
  }

  lemma XorZero(c: bv8)
    ensures Xor8(c, 0) == c
  {
  }

  lemma DigestSize(truncated: bool, msg: seq<bv8>)
    ensures |Hash(truncated, msg)| == HashLength(truncated)
  {
  }
}
