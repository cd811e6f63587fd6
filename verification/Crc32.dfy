/** CRC-32: the table-driven, unrolled loop refines the bitwise definition of RFC 1952, and the
    checksum detects every error burst of at most four bytes. */
module Crc32 {

  // Exclusive or and widening under names, so that a proof can hide their bits.

  function Xor(a: bv32, b: bv32): bv32 { a ^ b }

  function Wide(b: bv8): bv32 { b as bv32 }

  function Low(z: bv32): bv32 { z & 0xff }

  function High(z: bv32): bv32 { z & 0xffffff00 }

  function Up8(b: bv32): bv32 { b << 8 }

  function Down8(z: bv32): bv32 { z >> 8 }

  /** One bit of the division by the polynomial of section 8 of RFC 1952, reflected. */
  function Bit(c: bv32): bv32 {
    if c & 1 == 1 then 0xedb88320 ^ (c >> 1) else c >> 1
  }

  function Bits(c: bv32): bv32 {
    Bit(Bit(Bit(Bit(Bit(Bit(Bit(Bit(c))))))))
  }

  /** The register after the bytes of data, bit by bit. */
  function Divide(c: bv32, data: seq<bv8>): bv32
    decreases |data|
  {
    if |data| == 0 then c else Divide(Bits(Xor(c, Wide(data[0]))), data[1..])
  }

  const ONES: bv32 := 0xffffffff

  /** The checksum of RFC 1952, continued from an earlier checksum. */
  function Crc(crc: bv32, data: seq<bv8>): bv32 {
    Xor(Divide(Xor(crc, ONES), data), ONES)
  }

  // ----- The table, in rows of 16 -----

  function Row0(k: bv32): bv32 {
    match k
    case 0 => 0x00000000 case 1 => 0x77073096 case 2 => 0xee0e612c case 3 => 0x990951ba
    case 4 => 0x076dc419 case 5 => 0x706af48f case 6 => 0xe963a535 case 7 => 0x9e6495a3
    case 8 => 0x0edb8832 case 9 => 0x79dcb8a4 case 10 => 0xe0d5e91e case 11 => 0x97d2d988
    case 12 => 0x09b64c2b case 13 => 0x7eb17cbd case 14 => 0xe7b82d07 case _ => 0x90bf1d91
  }

  function Row1(k: bv32): bv32 {
    match k
    case 0 => 0x1db71064 case 1 => 0x6ab020f2 case 2 => 0xf3b97148 case 3 => 0x84be41de
    case 4 => 0x1adad47d case 5 => 0x6ddde4eb case 6 => 0xf4d4b551 case 7 => 0x83d385c7
    case 8 => 0x136c9856 case 9 => 0x646ba8c0 case 10 => 0xfd62f97a case 11 => 0x8a65c9ec
    case 12 => 0x14015c4f case 13 => 0x63066cd9 case 14 => 0xfa0f3d63 case _ => 0x8d080df5
  }

  function Row2(k: bv32): bv32 {
    match k
    case 0 => 0x3b6e20c8 case 1 => 0x4c69105e case 2 => 0xd56041e4 case 3 => 0xa2677172
    case 4 => 0x3c03e4d1 case 5 => 0x4b04d447 case 6 => 0xd20d85fd case 7 => 0xa50ab56b
    case 8 => 0x35b5a8fa case 9 => 0x42b2986c case 10 => 0xdbbbc9d6 case 11 => 0xacbcf940
    case 12 => 0x32d86ce3 case 13 => 0x45df5c75 case 14 => 0xdcd60dcf case _ => 0xabd13d59
  }

  function Row3(k: bv32): bv32 {
    match k
    case 0 => 0x26d930ac case 1 => 0x51de003a case 2 => 0xc8d75180 case 3 => 0xbfd06116
    case 4 => 0x21b4f4b5 case 5 => 0x56b3c423 case 6 => 0xcfba9599 case 7 => 0xb8bda50f
    case 8 => 0x2802b89e case 9 => 0x5f058808 case 10 => 0xc60cd9b2 case 11 => 0xb10be924
    case 12 => 0x2f6f7c87 case 13 => 0x58684c11 case 14 => 0xc1611dab case _ => 0xb6662d3d
  }

  function Row4(k: bv32): bv32 {
    match k
    case 0 => 0x76dc4190 case 1 => 0x01db7106 case 2 => 0x98d220bc case 3 => 0xefd5102a
    case 4 => 0x71b18589 case 5 => 0x06b6b51f case 6 => 0x9fbfe4a5 case 7 => 0xe8b8d433
    case 8 => 0x7807c9a2 case 9 => 0x0f00f934 case 10 => 0x9609a88e case 11 => 0xe10e9818
    case 12 => 0x7f6a0dbb case 13 => 0x086d3d2d case 14 => 0x91646c97 case _ => 0xe6635c01
  }

  function Row5(k: bv32): bv32 {
    match k
    case 0 => 0x6b6b51f4 case 1 => 0x1c6c6162 case 2 => 0x856530d8 case 3 => 0xf262004e
    case 4 => 0x6c0695ed case 5 => 0x1b01a57b case 6 => 0x8208f4c1 case 7 => 0xf50fc457
    case 8 => 0x65b0d9c6 case 9 => 0x12b7e950 case 10 => 0x8bbeb8ea case 11 => 0xfcb9887c
    case 12 => 0x62dd1ddf case 13 => 0x15da2d49 case 14 => 0x8cd37cf3 case _ => 0xfbd44c65
  }

  function Row6(k: bv32): bv32 {
    match k
    case 0 => 0x4db26158 case 1 => 0x3ab551ce case 2 => 0xa3bc0074 case 3 => 0xd4bb30e2
    case 4 => 0x4adfa541 case 5 => 0x3dd895d7 case 6 => 0xa4d1c46d case 7 => 0xd3d6f4fb
    case 8 => 0x4369e96a case 9 => 0x346ed9fc case 10 => 0xad678846 case 11 => 0xda60b8d0
    case 12 => 0x44042d73 case 13 => 0x33031de5 case 14 => 0xaa0a4c5f case _ => 0xdd0d7cc9
  }

  function Row7(k: bv32): bv32 {
    match k
    case 0 => 0x5005713c case 1 => 0x270241aa case 2 => 0xbe0b1010 case 3 => 0xc90c2086
    case 4 => 0x5768b525 case 5 => 0x206f85b3 case 6 => 0xb966d409 case 7 => 0xce61e49f
    case 8 => 0x5edef90e case 9 => 0x29d9c998 case 10 => 0xb0d09822 case 11 => 0xc7d7a8b4
    case 12 => 0x59b33d17 case 13 => 0x2eb40d81 case 14 => 0xb7bd5c3b case _ => 0xc0ba6cad
  }

  function Row8(k: bv32): bv32 {
    match k
    case 0 => 0xedb88320 case 1 => 0x9abfb3b6 case 2 => 0x03b6e20c case 3 => 0x74b1d29a
    case 4 => 0xead54739 case 5 => 0x9dd277af case 6 => 0x04db2615 case 7 => 0x73dc1683
    case 8 => 0xe3630b12 case 9 => 0x94643b84 case 10 => 0x0d6d6a3e case 11 => 0x7a6a5aa8
    case 12 => 0xe40ecf0b case 13 => 0x9309ff9d case 14 => 0x0a00ae27 case _ => 0x7d079eb1
  }

  function Row9(k: bv32): bv32 {
    match k
    case 0 => 0xf00f9344 case 1 => 0x8708a3d2 case 2 => 0x1e01f268 case 3 => 0x6906c2fe
    case 4 => 0xf762575d case 5 => 0x806567cb case 6 => 0x196c3671 case 7 => 0x6e6b06e7
    case 8 => 0xfed41b76 case 9 => 0x89d32be0 case 10 => 0x10da7a5a case 11 => 0x67dd4acc
    case 12 => 0xf9b9df6f case 13 => 0x8ebeeff9 case 14 => 0x17b7be43 case _ => 0x60b08ed5
  }

  function RowA(k: bv32): bv32 {
    match k
    case 0 => 0xd6d6a3e8 case 1 => 0xa1d1937e case 2 => 0x38d8c2c4 case 3 => 0x4fdff252
    case 4 => 0xd1bb67f1 case 5 => 0xa6bc5767 case 6 => 0x3fb506dd case 7 => 0x48b2364b
    case 8 => 0xd80d2bda case 9 => 0xaf0a1b4c case 10 => 0x36034af6 case 11 => 0x41047a60
    case 12 => 0xdf60efc3 case 13 => 0xa867df55 case 14 => 0x316e8eef case _ => 0x4669be79
  }

  function RowB(k: bv32): bv32 {
    match k
    case 0 => 0xcb61b38c case 1 => 0xbc66831a case 2 => 0x256fd2a0 case 3 => 0x5268e236
    case 4 => 0xcc0c7795 case 5 => 0xbb0b4703 case 6 => 0x220216b9 case 7 => 0x5505262f
    case 8 => 0xc5ba3bbe case 9 => 0xb2bd0b28 case 10 => 0x2bb45a92 case 11 => 0x5cb36a04
    case 12 => 0xc2d7ffa7 case 13 => 0xb5d0cf31 case 14 => 0x2cd99e8b case _ => 0x5bdeae1d
  }

  function RowC(k: bv32): bv32 {
    match k
    case 0 => 0x9b64c2b0 case 1 => 0xec63f226 case 2 => 0x756aa39c case 3 => 0x026d930a
    case 4 => 0x9c0906a9 case 5 => 0xeb0e363f case 6 => 0x72076785 case 7 => 0x05005713
    case 8 => 0x95bf4a82 case 9 => 0xe2b87a14 case 10 => 0x7bb12bae case 11 => 0x0cb61b38
    case 12 => 0x92d28e9b case 13 => 0xe5d5be0d case 14 => 0x7cdcefb7 case _ => 0x0bdbdf21
  }

  function RowD(k: bv32): bv32 {
    match k
    case 0 => 0x86d3d2d4 case 1 => 0xf1d4e242 case 2 => 0x68ddb3f8 case 3 => 0x1fda836e
    case 4 => 0x81be16cd case 5 => 0xf6b9265b case 6 => 0x6fb077e1 case 7 => 0x18b74777
    case 8 => 0x88085ae6 case 9 => 0xff0f6a70 case 10 => 0x66063bca case 11 => 0x11010b5c
    case 12 => 0x8f659eff case 13 => 0xf862ae69 case 14 => 0x616bffd3 case _ => 0x166ccf45
  }

  function RowE(k: bv32): bv32 {
    match k
    case 0 => 0xa00ae278 case 1 => 0xd70dd2ee case 2 => 0x4e048354 case 3 => 0x3903b3c2
    case 4 => 0xa7672661 case 5 => 0xd06016f7 case 6 => 0x4969474d case 7 => 0x3e6e77db
    case 8 => 0xaed16a4a case 9 => 0xd9d65adc case 10 => 0x40df0b66 case 11 => 0x37d83bf0
    case 12 => 0xa9bcae53 case 13 => 0xdebb9ec5 case 14 => 0x47b2cf7f case _ => 0x30b5ffe9
  }

  function RowF(k: bv32): bv32 {
    match k
    case 0 => 0xbdbdf21c case 1 => 0xcabac28a case 2 => 0x53b39330 case 3 => 0x24b4a3a6
    case 4 => 0xbad03605 case 5 => 0xcdd70693 case 6 => 0x54de5729 case 7 => 0x23d967bf
    case 8 => 0xb3667a2e case 9 => 0xc4614ab8 case 10 => 0x5d681b02 case 11 => 0x2a6f2b94
    case 12 => 0xb40bbe37 case 13 => 0xc30c8ea1 case 14 => 0x5a05df1b case _ => 0x2d02ef8d
  }

  function Lookup(i: bv32): bv32
    requires i < 256
  {
    var k := i & 15;
    match i >> 4
    case 0 => Row0(k) case 1 => Row1(k)
    case 2 => Row2(k) case 3 => Row3(k)
    case 4 => Row4(k) case 5 => Row5(k)
    case 6 => Row6(k) case 7 => Row7(k)
    case 8 => Row8(k) case 9 => Row9(k)
    case 10 => RowA(k) case 11 => RowB(k)
    case 12 => RowC(k) case 13 => RowD(k)
    case 14 => RowE(k) case _ => RowF(k)
  }

  // Every entry is eight steps of the division.

  lemma Row0IsBits(k: bv32)
    requires k < 16
    ensures Row0(k) == Bits(0x00 + k)
  {
  }

  lemma Row1IsBits(k: bv32)
    requires k < 16
    ensures Row1(k) == Bits(0x10 + k)
  {
  }

  lemma Row2IsBits(k: bv32)
    requires k < 16
    ensures Row2(k) == Bits(0x20 + k)
  {
  }

  lemma Row3LowIsBits(k: bv32)
    requires k < 8
    ensures Row3(k) == Bits(0x30 + k)
  {
  }

  lemma Row3HighIsBits(k: bv32)
    requires 8 <= k < 16
    ensures Row3(k) == Bits(0x30 + k)
  {
  }

  lemma Row3IsBits(k: bv32)
    requires k < 16
    ensures Row3(k) == Bits(0x30 + k)
  {
    hide Row3, Bits;
    if k < 8 {
      Row3LowIsBits(k);
    } else {
      Row3HighIsBits(k);
    }
  }

  lemma Row4LowIsBits(k: bv32)
    requires k < 8
    ensures Row4(k) == Bits(0x40 + k)
  {
  }

  lemma Row4HighIsBits(k: bv32)
    requires 8 <= k < 16
    ensures Row4(k) == Bits(0x40 + k)
  {
  }

  lemma Row4IsBits(k: bv32)
    requires k < 16
    ensures Row4(k) == Bits(0x40 + k)
  {
    hide Row4, Bits;
    if k < 8 {
      Row4LowIsBits(k);
    } else {
      Row4HighIsBits(k);
    }
  }

  lemma Row5LowIsBits(k: bv32)
    requires k < 8
    ensures Row5(k) == Bits(0x50 + k)
  {
  }

  lemma Row5HighIsBits(k: bv32)
    requires 8 <= k < 16
    ensures Row5(k) == Bits(0x50 + k)
  {
  }

  lemma Row5IsBits(k: bv32)
    requires k < 16
    ensures Row5(k) == Bits(0x50 + k)
  {
    hide Row5, Bits;
    if k < 8 {
      Row5LowIsBits(k);
    } else {
      Row5HighIsBits(k);
    }
  }

  lemma Row6IsBits(k: bv32)
    requires k < 16
    ensures Row6(k) == Bits(0x60 + k)
  {
  }

  lemma Row7LowIsBits(k: bv32)
    requires k < 8
    ensures Row7(k) == Bits(0x70 + k)
  {
  }

  lemma Row7HighIsBits(k: bv32)
    requires 8 <= k < 16
    ensures Row7(k) == Bits(0x70 + k)
  {
  }

  lemma Row7IsBits(k: bv32)
    requires k < 16
    ensures Row7(k) == Bits(0x70 + k)
  {
    hide Row7, Bits;
    if k < 8 {
      Row7LowIsBits(k);
    } else {
      Row7HighIsBits(k);
    }
  }

  lemma Row8IsBits(k: bv32)
    requires k < 16
    ensures Row8(k) == Bits(0x80 + k)
  {
  }

  lemma Row9IsBits(k: bv32)
    requires k < 16
    ensures Row9(k) == Bits(0x90 + k)
  {
  }

  lemma RowAIsBits(k: bv32)
    requires k < 16
    ensures RowA(k) == Bits(0xA0 + k)
  {
  }

  lemma RowBLowIsBits(k: bv32)
    requires k < 8
    ensures RowB(k) == Bits(0xB0 + k)
  {
  }

  lemma RowBHighIsBits(k: bv32)
    requires 8 <= k < 16
    ensures RowB(k) == Bits(0xB0 + k)
  {
  }

  lemma RowBIsBits(k: bv32)
    requires k < 16
    ensures RowB(k) == Bits(0xB0 + k)
  {
    hide RowB, Bits;
    if k < 8 {
      RowBLowIsBits(k);
    } else {
      RowBHighIsBits(k);
    }
  }

  lemma RowCIsBits(k: bv32)
    requires k < 16
    ensures RowC(k) == Bits(0xC0 + k)
  {
  }

  lemma RowDIsBits(k: bv32)
    requires k < 16
    ensures RowD(k) == Bits(0xD0 + k)
  {
  }

  lemma RowEIsBits(k: bv32)
    requires k < 16
    ensures RowE(k) == Bits(0xE0 + k)
  {
  }

  lemma RowFIsBits(k: bv32)
    requires k < 16
    ensures RowF(k) == Bits(0xF0 + k)
  {
  }

  lemma LookupIsBits(i: bv32)
    requires i < 256
    ensures Lookup(i) == Bits(i)
  {
    hide Bits, Row0, Row1, Row2, Row3, Row4, Row5, Row6, Row7;
    hide Row8, Row9, RowA, RowB, RowC, RowD, RowE, RowF;
    var k := i & 15;
    SplitNibbles(i);
    match i >> 4
    case 0 => Row0IsBits(k);
    case 1 => Row1IsBits(k);
    case 2 => Row2IsBits(k);
    case 3 => Row3IsBits(k);
    case 4 => Row4IsBits(k);
    case 5 => Row5IsBits(k);
    case 6 => Row6IsBits(k);
    case 7 => Row7IsBits(k);
    case 8 => Row8IsBits(k);
    case 9 => Row9IsBits(k);
    case 10 => RowAIsBits(k);
    case 11 => RowBIsBits(k);
    case 12 => RowCIsBits(k);
    case 13 => RowDIsBits(k);
    case 14 => RowEIsBits(k);
    case _ => RowFIsBits(k);
  }

  lemma SplitNibbles(i: bv32)
    requires i < 256
    ensures i & 15 < 16 && i >> 4 < 16 && i == ((i >> 4) << 4) + (i & 15)
  {
  }

  // ----- The division is linear over the field of two elements -----

  lemma BitLinear(x: bv32, y: bv32)
    ensures Bit(Xor(x, y)) == Xor(Bit(x), Bit(y))
  {
    ShiftXor(x, y);
    LowBitXor(x, y);
    XorShuffle(0xedb88320, x >> 1, y >> 1);
  }

  lemma ShiftXor(x: bv32, y: bv32)
    ensures (x ^ y) >> 1 == (x >> 1) ^ (y >> 1)
  {
  }

  lemma LowBitXor(x: bv32, y: bv32)
    ensures x & 1 in {0, 1} && y & 1 in {0, 1}
    ensures (x ^ y) & 1 == if x & 1 == y & 1 then 0 else 1
  {
  }

  lemma XorShuffle(p: bv32, a: bv32, b: bv32)
    ensures (p ^ a) ^ (p ^ b) == a ^ b
    ensures (p ^ a) ^ b == p ^ (a ^ b) == a ^ (p ^ b)
  {
  }

  lemma XorTwice(a: bv32, b: bv32)
    ensures Xor(Xor(a, b), b) == a && Xor(a, Xor(a, b)) == b
  {
  }

  lemma XorAssociative(a: bv32, b: bv32, c: bv32)
    ensures Xor(Xor(a, b), c) == Xor(a, Xor(b, c))
  {
  }

  lemma BitsLinear(x: bv32, y: bv32)
    ensures Bits(Xor(x, y)) == Xor(Bits(x), Bits(y))
  {
    hide Bit, Xor;
    var x1, y1 := Bit(x), Bit(y);
    var x2, y2 := Bit(x1), Bit(y1);
    var x3, y3 := Bit(x2), Bit(y2);
    var x4, y4 := Bit(x3), Bit(y3);
    var x5, y5 := Bit(x4), Bit(y4);
    var x6, y6 := Bit(x5), Bit(y5);
    var x7, y7 := Bit(x6), Bit(y6);
    BitLinear(x, y);
    BitLinear(x1, y1);
    BitLinear(x2, y2);
    BitLinear(x3, y3);
    BitLinear(x4, y4);
    BitLinear(x5, y5);
    BitLinear(x6, y6);
    BitLinear(x7, y7);
  }

  /** Eight steps only shift a register whose low byte is zero. */
  lemma BitsShift(w: bv32)
    requires Low(w) == 0
    ensures Bits(w) == Down8(w)
  {
    assert w & 1 == 0 && (w >> 1) & 1 == 0 && (w >> 2) & 1 == 0 && (w >> 3) & 1 == 0;
    assert (w >> 4) & 1 == 0 && (w >> 5) & 1 == 0 && (w >> 6) & 1 == 0 && (w >> 7) & 1 == 0;
  }

  // ----- The loops -----

  /** DO1: one byte through the table. */
  function Do1(c: bv32, b: bv8): bv32 {
    LowIsByte(Xor(c, Wide(b)));
    Xor(Lookup(Low(Xor(c, Wide(b)))), Down8(c))
  }

  lemma Do1IsBits(c: bv32, b: bv8)
    ensures Do1(c, b) == Bits(Xor(c, Wide(b)))
  {
    hide Bits, Lookup, Xor, Wide, Low, High, Down8;
    var z := Xor(c, Wide(b));
    SplitLowByte(c, b);
    LookupIsBits(Low(z));
    BitsLinear(Low(z), High(z));
    BitsShift(High(z));
  }

  lemma LowIsByte(z: bv32)
    ensures Low(z) < 256
  {
  }

  lemma SplitLowByte(c: bv32, b: bv8)
    ensures var z := Xor(c, Wide(b));
            && z == Xor(Low(z), High(z)) && Low(z) < 256
            && Low(High(z)) == 0 && Down8(High(z)) == Down8(c)
  {
    hide Xor, Wide, Low, High, Down8;
    SplitWord(Xor(c, Wide(b)));
    ByteBelowHigh(c, b);
  }

  lemma SplitWord(z: bv32)
    ensures z == Xor(Low(z), High(z)) && Low(z) < 256 && Low(High(z)) == 0
    ensures Down8(High(z)) == Down8(z)
  {
  }

  lemma ByteBelowHigh(c: bv32, b: bv8)
    ensures Down8(Xor(c, Wide(b))) == Down8(c)
  {
    assert (c ^ Wide(b)) >> 8 == (c >> 8) ^ (Wide(b) >> 8);
  }

  lemma {:induction false} DivideAppend(c: bv32, a: seq<bv8>, b: seq<bv8>)
    ensures Divide(c, a + b) == Divide(Divide(c, a), b)
    decreases |a|
  {
    hide Bits, Xor, Wide;
    if |a| == 0 {
      assert a + b == b;
    } else {
      assert (a + b)[1..] == a[1..] + b;
      DivideAppend(Bits(Xor(c, Wide(a[0]))), a[1..], b);
    }
  }

  lemma DivideNext(c: bv32, data: seq<bv8>, i: nat)
    requires i < |data|
    ensures Divide(c, data[..i + 1]) == Do1(Divide(c, data[..i]), data[i])
  {
    hide Bits, Xor, Wide, Do1;
    assert data[..i + 1] == data[..i] + [data[i]];
    DivideAppend(c, data[..i], [data[i]]);
    Do1IsBits(Divide(c, data[..i]), data[i]);
    assert [data[i]][1..] == [];
  }

  /** DO8: eight bytes through the table. */
  method Do8(ghost c0: bv32, crc: bv32, buf: seq<bv8>, i: nat) returns (r: bv32)
    requires i + 8 <= |buf| && crc == Divide(c0, buf[..i])
    ensures r == Divide(c0, buf[..i + 8])
  {
    hide Do1, Divide;
    r := crc;
    DivideNext(c0, buf, i);
    r := Do1(r, buf[i]);
    DivideNext(c0, buf, i + 1);
    r := Do1(r, buf[i + 1]);
    DivideNext(c0, buf, i + 2);
    r := Do1(r, buf[i + 2]);
    DivideNext(c0, buf, i + 3);
    r := Do1(r, buf[i + 3]);
    DivideNext(c0, buf, i + 4);
    r := Do1(r, buf[i + 4]);
    DivideNext(c0, buf, i + 5);
    r := Do1(r, buf[i + 5]);
    DivideNext(c0, buf, i + 6);
    r := Do1(r, buf[i + 6]);
    DivideNext(c0, buf, i + 7);
    r := Do1(r, buf[i + 7]);
  }

  /** The variant without complements. */
  method Crc32NoComp(crc: bv32, buf: seq<bv8>) returns (r: bv32)
    ensures r == Divide(crc, buf)
  {
    hide Do1, Bits, Xor, Wide;
    r := crc;
    var i: nat, len: nat := 0, |buf|;
    while len >= 8
      invariant i + len == |buf| && r == Divide(crc, buf[..i])
    {
      r := Do8(crc, r, buf, i);
      i, len := i + 8, len - 8;
    }
    while len > 0
      invariant i + len == |buf| && r == Divide(crc, buf[..i])
    {
      DivideNext(crc, buf, i);
      r := Do1(r, buf[i]);
      i, len := i + 1, len - 1;
    }
    assert buf[..i] == buf;
  }

  method Crc32(crc: bv32, buf: seq<bv8>) returns (r: bv32)
    ensures r == Crc(crc, buf)
  {
    hide Do1, Bits, Xor, Wide;
    r := Xor(crc, ONES);
    var i: nat, len: nat := 0, |buf|;
    while len >= 8
      invariant i + len == |buf| && r == Divide(Xor(crc, ONES), buf[..i])
    {
      r := Do8(Xor(crc, ONES), r, buf, i);
      i, len := i + 8, len - 8;
    }
    while len > 0
      invariant i + len == |buf| && r == Divide(Xor(crc, ONES), buf[..i])
    {
      DivideNext(Xor(crc, ONES), buf, i);
      r := Do1(r, buf[i]);
      i, len := i + 1, len - 1;
    }
    assert buf[..i] == buf;
    r := Xor(r, ONES);
  }

  /** A checksum can be continued over a second buffer. */
  lemma CrcChains(crc: bv32, a: seq<bv8>, b: seq<bv8>)
    ensures Crc(Crc(crc, a), b) == Crc(crc, a + b)
  {
    hide Xor, Divide;
    DivideAppend(Xor(crc, ONES), a, b);
    XorTwice(Divide(Xor(crc, ONES), a), ONES);
  }

  // ----- Burst errors -----

  lemma BitInjective(x: bv32, y: bv32)
    requires Bit(x) == Bit(y)
    ensures x == y
  {
  }

  lemma BitsInjective(x: bv32, y: bv32)
    requires Bits(x) == Bits(y)
    ensures x == y
  {
    hide Bit;
    var x1, y1 := Bit(x), Bit(y);
    var x2, y2 := Bit(x1), Bit(y1);
    var x3, y3 := Bit(x2), Bit(y2);
    var x4, y4 := Bit(x3), Bit(y3);
    var x5, y5 := Bit(x4), Bit(y4);
    var x6, y6 := Bit(x5), Bit(y5);
    var x7, y7 := Bit(x6), Bit(y6);
    BitInjective(x7, y7);
    BitInjective(x6, y6);
    BitInjective(x5, y5);
    BitInjective(x4, y4);
    BitInjective(x3, y3);
    BitInjective(x2, y2);
    BitInjective(x1, y1);
    BitInjective(x, y);
  }

  /** Equal data never merges two different registers. */
  lemma {:induction false} DivideInjective(c: bv32, d: bv32, data: seq<bv8>)
    requires Divide(c, data) == Divide(d, data)
    ensures c == d
    decreases |data|
  {
    hide Bits, Xor, Wide;
    if |data| > 0 {
      var b := Wide(data[0]);
      DivideInjective(Bits(Xor(c, b)), Bits(Xor(d, b)), data[1..]);
      BitsInjective(Xor(c, b), Xor(d, b));
      XorTwice(c, b);
      XorTwice(d, b);
    }
  }

  /** Four bytes as one word, the first lowest. */
  function Word(b0: bv8, b1: bv8, b2: bv8, b3: bv8): bv32 {
    Xor(Wide(b0), Up8(Xor(Wide(b1), Up8(Xor(Wide(b2), Up8(Wide(b3)))))))
  }

  /** A byte that enters after eight steps might as well have entered before, shifted up. */
  lemma Hoist(z: bv32, b: bv32)
    requires b < 0x1000000
    ensures Xor(Bits(z), b) == Bits(Xor(z, Up8(b)))
  {
    hide Bits, Xor, Low, Up8, Down8;
    BitsLinear(z, Up8(b));
    UpDown(b);
    BitsShift(Up8(b));
  }

  lemma UpDown(b: bv32)
    requires b < 0x1000000
    ensures Down8(Up8(b)) == b && Low(Up8(b)) == 0
  {
  }

  lemma WordParts(b1: bv8, b2: bv8, b3: bv8)
    ensures Wide(b3) < 0x1000000
    ensures Xor(Wide(b2), Up8(Wide(b3))) < 0x1000000
    ensures Xor(Wide(b1), Up8(Xor(Wide(b2), Up8(Wide(b3))))) < 0x1000000
  {
  }

  /** Four bytes enter the register as one word. */
  lemma DivideWord(c: bv32, b0: bv8, b1: bv8, b2: bv8, b3: bv8)
    ensures Divide(c, [b0, b1, b2, b3]) == Bits(Bits(Bits(Bits(Xor(c, Word(b0, b1, b2, b3))))))
  {
    hide Bits, Xor, Wide, Up8;
    var c1 := Bits(Xor(c, Wide(b0)));
    var c2 := Bits(Xor(c1, Wide(b1)));
    var c3 := Bits(Xor(c2, Wide(b2)));
    assert [b0, b1, b2, b3][1..] == [b1, b2, b3] && [b1, b2, b3][1..] == [b2, b3];
    assert [b2, b3][1..] == [b3] && [b3][1..] == [];
    assert Divide(c3, [b3]) == Bits(Xor(c3, Wide(b3)));
    assert Divide(c2, [b2, b3]) == Divide(c3, [b3]);
    assert Divide(c1, [b1, b2, b3]) == Divide(c2, [b2, b3]);
    var w3 := Wide(b3);
    var w2 := Xor(Wide(b2), Up8(w3));
    var w1 := Xor(Wide(b1), Up8(w2));
    WordParts(b1, b2, b3);
    Hoist(Xor(c2, Wide(b2)), w3);
    XorAssociative(c2, Wide(b2), Up8(w3));
    Hoist(Xor(c1, Wide(b1)), w2);
    XorAssociative(c1, Wide(b1), Up8(w2));
    Hoist(Xor(c, Wide(b0)), w1);
    XorAssociative(c, Wide(b0), Up8(w1));
  }

  lemma WordInjective(a0: bv8, a1: bv8, a2: bv8, a3: bv8, b0: bv8, b1: bv8, b2: bv8, b3: bv8)
    requires Word(a0, a1, a2, a3) == Word(b0, b1, b2, b3)
    ensures a0 == b0 && a1 == b1 && a2 == b2 && a3 == b3
  {
  }

  lemma FourBytesDetected(c: bv32, x: seq<bv8>, y: seq<bv8>)
    requires |x| == |y| == 4 && Divide(c, x) == Divide(c, y)
    ensures x == y
  {
    hide Bits, Word, Xor, Divide;
    assert x == [x[0], x[1], x[2], x[3]] && y == [y[0], y[1], y[2], y[3]];
    var v, w := Word(x[0], x[1], x[2], x[3]), Word(y[0], y[1], y[2], y[3]);
    DivideWord(c, x[0], x[1], x[2], x[3]);
    DivideWord(c, y[0], y[1], y[2], y[3]);
    var p, q := Xor(c, v), Xor(c, w);
    BitsInjective(Bits(Bits(Bits(p))), Bits(Bits(Bits(q))));
    BitsInjective(Bits(Bits(p)), Bits(Bits(q)));
    BitsInjective(Bits(p), Bits(q));
    BitsInjective(p, q);
    XorTwice(c, v);
    XorTwice(c, w);
    WordInjective(x[0], x[1], x[2], x[3], y[0], y[1], y[2], y[3]);
  }

  /** Data that differ only inside a window of at most four bytes never give one register. */
  lemma WindowDetected(c: bv32, x: seq<bv8>, y: seq<bv8>, rest: seq<bv8>)
    requires |x| == |y| <= 4 && Divide(c, x + rest) == Divide(c, y + rest)
    ensures x == y
  {
    hide Divide;
    DivideAppend(c, x, rest);
    DivideAppend(c, y, rest);
    DivideInjective(Divide(c, x), Divide(c, y), rest);
    var zeros: seq<bv8> := seq(4 - |x|, _ => 0);
    DivideAppend(c, x, zeros);
    DivideAppend(c, y, zeros);
    FourBytesDetected(c, x + zeros, y + zeros);
    assert x == (x + zeros)[..|x|] && y == (y + zeros)[..|x|];
  }

  /** Two buffers that differ, but only inside a window of at most four bytes, never have the same
      checksum. */
  lemma BurstDetected(crc: bv32, a: seq<bv8>, b: seq<bv8>, k: nat, n: nat)
    requires |a| == |b| && k + n <= |a| && n <= 4
    requires a[..k] == b[..k] && a[k + n..] == b[k + n..] && a != b
    ensures Crc(crc, a) != Crc(crc, b)
  {
    hide Xor, Divide;
    var c0 := Xor(crc, ONES);
    var x, y, rest := a[k..k + n], b[k..k + n], a[k + n..];
    assert a == a[..k] + (x + rest) && b == a[..k] + (y + rest);
    DivideAppend(c0, a[..k], x + rest);
    DivideAppend(c0, a[..k], y + rest);
    XorTwice(Divide(c0, a), ONES);
    XorTwice(Divide(c0, b), ONES);
    if Crc(crc, a) == Crc(crc, b) {
      WindowDetected(Divide(c0, a[..k]), x, y, rest);
    }
  }

  // ----- A checksum behind its data -----

  /** The bytes of a word, the lowest first. */
  function LowFirst(c: bv32): (s: seq<bv8>)
    ensures |s| == 4
  {
    [(c & 0xff) as bv8, ((c >> 8) & 0xff) as bv8, ((c >> 16) & 0xff) as bv8, (c >> 24) as bv8]
  }

  lemma WordOfBytes(c: bv32)
    ensures var s := LowFirst(c); Word(s[0], s[1], s[2], s[3]) == c
  {
  }

  /** The register behind data that end with their own checksum, whatever the data. */
  const RESIDUE: bv32 := Bits(Bits(Bits(Bits(ONES))))

  /** Four bytes are the checksum of what stands in front of them exactly when the division of all
      of it leaves the residue. */
  lemma ResidueIff(data: seq<bv8>, w: seq<bv8>)
    requires |w| == 4
    ensures w == LowFirst(Crc(0, data)) <==> Divide(Xor(0, ONES), data + w) == RESIDUE
  {
    hide Bits, Word, Xor, Divide, LowFirst;
    var r := Divide(Xor(0, ONES), data);
    var c := Crc(0, data);
    var own := LowFirst(c);
    DivideAppend(Xor(0, ONES), data, w);
    DivideAppend(Xor(0, ONES), data, own);
    assert own == [own[0], own[1], own[2], own[3]];
    DivideWord(r, own[0], own[1], own[2], own[3]);
    WordOfBytes(c);
    XorBack(r, ONES);
    if Divide(r, w) == RESIDUE {
      FourBytesDetected(r, w, own);
    }
  }

  lemma XorBack(a: bv32, b: bv32)
    ensures Xor(a, Xor(a, b)) == b
  {
  }

  /** A zero byte in front always changes the checksum. */
  lemma LeadingZeroDetected(data: seq<bv8>)
    ensures Crc(0, [0] + data) != Crc(0, data)
  {
    hide Divide, Xor;
    var c0 := Xor(0, ONES);
    DivideAppend(c0, [0], data);
    FirstZero();
    XorTwice(Divide(c0, [0] + data), ONES);
    XorTwice(Divide(c0, data), ONES);
    if Crc(0, [0] + data) == Crc(0, data) {
      DivideInjective(Divide(c0, [0]), c0, data);
    }
  }

  lemma FirstZero()
    ensures Divide(Xor(0, ONES), [0]) != Xor(0, ONES)
  {
    assert [0 as bv8][1..] == [];
    assert Divide(Xor(0, ONES), [0]) == Bits(Xor(Xor(0, ONES), Wide(0)));
  }

  /** The checksum of the digits 1 to 9, the check value by which this CRC is known. */
  lemma CheckValue()
    ensures Crc(0, [0x31, 0x32, 0x33, 0x34, 0x35, 0x36, 0x37, 0x38, 0x39]) == 0xcbf43926
  {
    var s: seq<bv8> := [0x31, 0x32, 0x33, 0x34, 0x35, 0x36, 0x37, 0x38, 0x39];
    assert s == [0x31, 0x32, 0x33, 0x34] + [0x35, 0x36, 0x37, 0x38] + [0x39];
    DivideAppend(ONES, [0x31, 0x32, 0x33, 0x34] + [0x35, 0x36, 0x37, 0x38], [0x39]);
    DivideAppend(ONES, [0x31, 0x32, 0x33, 0x34], [0x35, 0x36, 0x37, 0x38]);
    DivideWord(ONES, 0x31, 0x32, 0x33, 0x34);
    assert Divide(ONES, [0x31, 0x32, 0x33, 0x34]) == 0x641c1f5c;
    DivideWord(0x641c1f5c, 0x35, 0x36, 0x37, 0x38);
    assert Divide(0x641c1f5c, [0x35, 0x36, 0x37, 0x38]) == 0x651f2550;
    assert [0x39 as bv8][1..] == [];
    assert Divide(0x651f2550, [0x39]) == Bits(Xor(0x651f2550, Wide(0x39)));
  }
}
