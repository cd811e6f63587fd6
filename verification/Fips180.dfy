/** SHA-256 and SHA-224 as FIPS 180-4 defines them. */
module Fips180 {
  import opened ByteBits

  /** ROTR, section 3.2. */
  function Rotr(x: bv32, n: nat): bv32
    requires n < 32
  {
    x.RotateRight(n)
  }

  /** Addition modulo 2^32, section 3.2. */
  function Add(x: bv32, y: bv32): bv32 { x + y }

  // Section 4.1.2.

  function Ch(x: bv32, y: bv32, z: bv32): bv32 { (x & y) ^ (!x & z) }

  function Maj(x: bv32, y: bv32, z: bv32): bv32 { (x & y) ^ (x & z) ^ (y & z) }

  function Sigma0(x: bv32): bv32 { Rotr(x, 2) ^ Rotr(x, 13) ^ Rotr(x, 22) }

  function Sigma1(x: bv32): bv32 { Rotr(x, 6) ^ Rotr(x, 11) ^ Rotr(x, 25) }

  function LowerSigma0(x: bv32): bv32 { Rotr(x, 7) ^ Rotr(x, 18) ^ (x >> 3) }

  function LowerSigma1(x: bv32): bv32 { Rotr(x, 17) ^ Rotr(x, 19) ^ (x >> 10) }

  /** The constants of section 4.2.2, eight to a row. */
  function KRow(row: nat): (k: seq<bv32>)
    requires row < 8
    ensures |k| == 8
  {
    match row
    case 0 => [
      0x428a2f98, 0x71374491, 0xb5c0fbcf, 0xe9b5dba5,
      0x3956c25b, 0x59f111f1, 0x923f82a4, 0xab1c5ed5]
    case 1 => [
      0xd807aa98, 0x12835b01, 0x243185be, 0x550c7dc3,
      0x72be5d74, 0x80deb1fe, 0x9bdc06a7, 0xc19bf174]
    case 2 => [
      0xe49b69c1, 0xefbe4786, 0x0fc19dc6, 0x240ca1cc,
      0x2de92c6f, 0x4a7484aa, 0x5cb0a9dc, 0x76f988da]
    case 3 => [
      0x983e5152, 0xa831c66d, 0xb00327c8, 0xbf597fc7,
      0xc6e00bf3, 0xd5a79147, 0x06ca6351, 0x14292967]
    case 4 => [
      0x27b70a85, 0x2e1b2138, 0x4d2c6dfc, 0x53380d13,
      0x650a7354, 0x766a0abb, 0x81c2c92e, 0x92722c85]
    case 5 => [
      0xa2bfe8a1, 0xa81a664b, 0xc24b8b70, 0xc76c51a3,
      0xd192e819, 0xd6990624, 0xf40e3585, 0x106aa070]
    case 6 => [
      0x19a4c116, 0x1e376c08, 0x2748774c, 0x34b0bcb5,
      0x391c0cb3, 0x4ed8aa4a, 0x5b9cca4f, 0x682e6ff3]
    case _ => [
      0x748f82ee, 0x78a5636f, 0x84c87814, 0x8cc70208,
      0x90befffa, 0xa4506ceb, 0xbef9a3f7, 0xc67178f2]
  }

  function K(t: nat): bv32
    requires t < 64
  {
    KRow(t / 8)[t % 8]
  }

  /** Section 5.3.3 and 5.3.2. */
  const IV_256: seq<bv32> := [
    0x6a09e667, 0xbb67ae85, 0x3c6ef372, 0xa54ff53a, 0x510e527f, 0x9b05688c, 0x1f83d9ab, 0x5be0cd19]

  const IV_224: seq<bv32> := [
    0xc1059ed8, 0x367cd507, 0x3070dd17, 0xf70e5939, 0xffc00b31, 0x68581511, 0x64f98fa7, 0xbefa4fa4]

  /** A big-endian word of a block. */
  function WordAt(block: seq<bv8>, i: nat): bv32
    requires 4 * i + 4 <= |block|
  {
    (block[4 * i] as bv32 << 24) | (block[4 * i + 1] as bv32 << 16)
    | (block[4 * i + 2] as bv32 << 8) | block[4 * i + 3] as bv32
  }

  /** The first n words of the message schedule, section 6.2.2 step 1. */
  function Schedule(block: seq<bv8>, n: nat): (w: seq<bv32>)
    requires |block| == 64
    ensures |w| == n
  {
    if n == 0 then []
    else
      var w := Schedule(block, n - 1);
      var t := n - 1;
      w + [if t < 16 then WordAt(block, t)
           else Add(Add(Add(LowerSigma1(w[t - 2]), w[t - 7]), LowerSigma0(w[t - 15])), w[t - 16])]
  }

  lemma ScheduleNext(block: seq<bv8>, t: nat)
    requires |block| == 64
    ensures var w := Schedule(block, t);
            Schedule(block, t + 1)
            == w + [if t < 16 then WordAt(block, t)
                    else Add(Add(Add(LowerSigma1(w[t - 2]), w[t - 7]), LowerSigma0(w[t - 15])), w[t - 16])]
  {
  }

  /** The working variables. */
  datatype Regs = Regs(a: bv32, b: bv32, c: bv32, d: bv32, e: bv32, f: bv32, g: bv32, h: bv32)

  /** Section 6.2.2 step 3, for one t. */
  function Round(r: Regs, k: bv32, w: bv32): Regs {
    var t1 := Add(Add(Add(Add(r.h, Sigma1(r.e)), Ch(r.e, r.f, r.g)), k), w);
    var t2 := Add(Sigma0(r.a), Maj(r.a, r.b, r.c));
    Regs(Add(t1, t2), r.a, r.b, r.c, Add(r.d, t1), r.e, r.f, r.g)
  }

  function Rounds(r: Regs, w: seq<bv32>, t: nat): Regs
    requires t <= |w| && t <= 64
    decreases t
  {
    if t == 0 then r else Round(Rounds(r, w, t - 1), K(t - 1), w[t - 1])
  }

  /** One block, section 6.2.2. */
  function Compress(s: seq<bv32>, block: seq<bv8>): (r: seq<bv32>)
    requires |s| == 8 && |block| == 64
    ensures |r| == 8
  {
    var x := Rounds(Regs(s[0], s[1], s[2], s[3], s[4], s[5], s[6], s[7]), Schedule(block, 64), 64);
    [Add(s[0], x.a), Add(s[1], x.b), Add(s[2], x.c), Add(s[3], x.d),
     Add(s[4], x.e), Add(s[5], x.f), Add(s[6], x.g), Add(s[7], x.h)]
  }

  /** All complete blocks of the data. */
  function Blocks(s: seq<bv32>, data: seq<bv8>): (r: seq<bv32>)
    requires |s| == 8
    ensures |r| == 8
    decreases |data|
  {
    if |data| < 64 then s else Blocks(Compress(s, data[..64]), data[64..])
  }

  /** A length as 64 bits, big-endian. */
  function Length64(n: nat): (s: seq<bv8>)
    ensures |s| == 8
  {
    seq(8, i requires 0 <= i < 8 => Digit256(n, 7 - i))
  }

  /** The byte of weight 256^i. */
  function Digit256(n: nat, i: nat): bv8
    decreases i
  {
    if i == 0 then ToByte(n % 256) else Digit256(n / 256, i - 1)
  }

  /** Zero bytes between the 0x80 byte and the length, section 5.1.1. */
  function PadZeros(len: nat): (k: nat)
    ensures (len + 1 + k) % 64 == 56 && k < 64
  {
    (119 - len % 64) % 64
  }

  /** Section 5.1.1. */
  function Padding(len: nat): (p: seq<bv8>)
    ensures (len + |p|) % 64 == 0
  {
    [0x80] + seq(PadZeros(len), _ => 0) + Length64(8 * len)
  }

  function WordBytes(w: bv32): (s: seq<bv8>)
    ensures |s| == 4
  {
    [(w >> 24) as bv8, ((w >> 16) & 0xff) as bv8, ((w >> 8) & 0xff) as bv8, (w & 0xff) as bv8]
  }

  // ----- Byte order -----

  /** The number that big-endian bytes stand for. */
  function Big(s: seq<bv8>): nat {
    if s == [] then 0 else 256 * Big(s[..|s| - 1]) + FromByte(s[|s| - 1])
  }

  function Pow256(k: nat): (n: nat)
    ensures n > 0
  {
    if k == 0 then 1 else 256 * Pow256(k - 1)
  }

  /** Digits from the highest to the lowest make up the number. */
  lemma {:induction false} BigOfDigits(n: nat, s: seq<bv8>)
    requires n < Pow256(|s|) && forall i :: 0 <= i < |s| ==> s[i] == Digit256(n, |s| - 1 - i)
    ensures Big(s) == n
    decreases |s|
  {
    hide Digit256, FromByte;
    if s != [] {
      var front := s[..|s| - 1];
      forall i | 0 <= i < |front|
        ensures front[i] == Digit256(n / 256, |front| - 1 - i)
      {
        NextDigit(n, |s| - 1 - i);
      }
      BelowPower(n, Pow256(|front|));
      BigOfDigits(n / 256, front);
      LastDigit(n);
    }
  }

  lemma NextDigit(n: nat, i: nat)
    requires i > 0
    ensures Digit256(n, i) == Digit256(n / 256, i - 1)
  {
  }

  lemma LastDigit(n: nat)
    ensures FromByte(Digit256(n, 0)) == n % 256
  {
    hide FromByte, ToByte;
    ByteRoundTrip(n % 256);
  }

  lemma BelowPower(n: nat, k: nat)
    requires n < 256 * k
    ensures n / 256 < k
  {
  }

  /** The length in the padding is big-endian. */
  lemma Length64IsBig(n: nat)
    requires n < 0x1_0000_0000_0000_0000
    ensures Big(Length64(n)) == n
  {
    assert Pow256(4) == 0x1_0000_0000;
    assert Pow256(8) == 256 * 256 * 256 * 256 * Pow256(4);
    BigOfDigits(n, Length64(n));
  }

  /** The same in 32-bit arithmetic. */
  function BigWord(s: seq<bv8>): bv32 {
    if s == [] then 0 else Append(BigWord(s[..|s| - 1]), s[|s| - 1])
  }

  function Append(x: bv32, b: bv8): bv32 { x * 256 + b as bv32 }

  /** The words of a digest are big-endian, ... */
  lemma WordBytesAreBig(w: bv32)
    ensures BigWord(WordBytes(w)) == w
  {
    var s := WordBytes(w);
    hide WordBytes, BigWord;
    BigOfFour(s[0], s[1], s[2], s[3]);
    assert s == [s[0], s[1], s[2], s[3]];
    BytesOfWord(w);
  }

  lemma BytesOfWord(w: bv32)
    ensures var s := WordBytes(w); Word4(s[0], s[1], s[2], s[3]) == w
  {
  }

  /** ... and so are the words of a block. */
  lemma WordAtIsBig(block: seq<bv8>, i: nat)
    requires 4 * i + 4 <= |block|
    ensures WordAt(block, i) == BigWord(block[4 * i..4 * i + 4])
  {
    hide BigWord;
    var s := block[4 * i..4 * i + 4];
    assert s == [block[4 * i], block[4 * i + 1], block[4 * i + 2], block[4 * i + 3]];
    BigOfFour(s[0], s[1], s[2], s[3]);
  }

  function Word4(a: bv8, b: bv8, c: bv8, d: bv8): bv32 {
    (a as bv32 << 24) | (b as bv32 << 16) | (c as bv32 << 8) | d as bv32
  }

  lemma BigOfFour(a: bv8, b: bv8, c: bv8, d: bv8)
    ensures BigWord([a, b, c, d]) == Word4(a, b, c, d)
  {
    hide Append, Word4;
    assert [a][..0] == [] && [a, b][..1] == [a] && [a, b, c][..2] == [a, b] && [a, b, c, d][..3] == [a, b, c];
    assert BigWord([a]) == Append(0, a);
    assert BigWord([a, b]) == Append(BigWord([a]), b);
    assert BigWord([a, b, c]) == Append(BigWord([a, b]), c);
    FourAppended(a, b, c, d);
  }

  lemma FourAppended(a: bv8, b: bv8, c: bv8, d: bv8)
    ensures Append(Append(Append(Append(0, a), b), c), d) == Word4(a, b, c, d)
  {
  }

  function StateBytes(s: seq<bv32>): (r: seq<bv8>)
    ensures |r| == 4 * |s|
  {
    if |s| == 0 then [] else StateBytes(s[..|s| - 1]) + WordBytes(s[|s| - 1])
  }

  /** A digest is the words of the state in order. */
  lemma {:induction false} StateBytesAt(s: seq<bv32>, i: nat)
    requires i < |s|
    ensures StateBytes(s)[4 * i..4 * i + 4] == WordBytes(s[i])
    decreases |s|
  {
    hide WordBytes;
    var front := s[..|s| - 1];
    if i < |front| {
      StateBytesAt(front, i);
      assert StateBytes(s)[4 * i..4 * i + 4] == StateBytes(front)[4 * i..4 * i + 4];
    }
  }

  /** SHA-256, section 6.2. */
  function Sha256(msg: seq<bv8>): (r: seq<bv8>)
    ensures |r| == 32
  {
    StateBytes(Blocks(IV_256, msg + Padding(|msg|)))
  }

  /** SHA-224, section 6.3: another initial value, and the first 28 bytes. */
  function Sha224(msg: seq<bv8>): (r: seq<bv8>)
    ensures |r| == 28
  {
    StateBytes(Blocks(IV_224, msg + Padding(|msg|)))[..28]
  }
}
