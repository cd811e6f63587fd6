/** Bytes as bit vectors and as numbers, under names, so that a proof can hide the conversions. */
module ByteBits {

  function FromByte(b: bv8): nat { b as nat }

  function ToByte(n: nat): bv8
    requires n < 256
  {
    n as bv8
  }

  lemma BitsOfNumber(n: int)
    requires 0 <= n < 256
    ensures (n as bv8) as int == n
  {
    BitsByNibble(n, n / 16);
  }

  /** In sixteen cases, each of which fixes the four high bits. */
  lemma BitsByNibble(n: int, h: int)
    requires 0 <= h < 16 && 16 * h <= n < 16 * h + 16
    ensures (n as bv8) as int == n
  {
    match h
    case 0 =>
    case 1 =>
    case 2 =>
    case 3 =>
    case 4 =>
    case 5 =>
    case 6 =>
    case 7 =>
    case 8 =>
    case 9 =>
    case 10 =>
    case 11 =>
    case 12 =>
    case 13 =>
    case 14 =>
    case _ =>
  }

  lemma ByteRoundTrip(n: nat)
    requires n < 256
    ensures FromByte(ToByte(n)) == n
  {
    BitsOfNumber(n);
  }
}
