/** Where the constants of FIPS 180-4 come from: bits of square and cube roots of the first primes. */
module FipsConstants {
  import F = Fips180
  import Sha1

  /** The first primes, eight to a row. */
  const PRIMES: seq<seq<nat>> := [
    [2, 3, 5, 7, 11, 13, 17, 19],
    [23, 29, 31, 37, 41, 43, 47, 53],
    [59, 61, 67, 71, 73, 79, 83, 89],
    [97, 101, 103, 107, 109, 113, 127, 131],
    [137, 139, 149, 151, 157, 163, 167, 173],
    [179, 181, 191, 193, 197, 199, 211, 223],
    [227, 229, 233, 239, 241, 251, 257, 263],
    [269, 271, 277, 281, 283, 293, 307, 311]]

  /** x is the square root of p * scale, rounded down. */
  predicate IsRoot(x: nat, p: nat, scale: nat) {
    x * x <= p * scale < (x + 1) * (x + 1)
  }

  /** x is the cube root of p * 2^96, rounded down. */
  predicate IsCubeRoot(x: nat, p: nat) {
    x * x * x <= p * 0x1_0000_0000_0000_0000_0000_0000 < (x + 1) * (x + 1) * (x + 1)
  }

  /** w is the last word of that square root. */
  ghost predicate RootWord(w: bv32, p: nat, scale: nat) {
    exists n: nat :: IsRoot(n * 0x1_0000_0000 + w as nat, p, scale)
  }

  ghost predicate CubeRootWord(w: bv32, p: nat) {
    exists n: nat :: IsCubeRoot(n * 0x1_0000_0000 + w as nat, p)
  }

  /** Section 5.3.3: the first 32 bits of the fractional parts of the square roots. */
  lemma Iv256IsRoots()
    ensures forall i :: 0 <= i < 8 ==> RootWord(F.IV_256[i], PRIMES[0][i], 0x1_0000_0000_0000_0000)
  {
    assert IsRoot(1 * 0x1_0000_0000 + F.IV_256[0] as nat, PRIMES[0][0], 0x1_0000_0000_0000_0000);
    assert IsRoot(1 * 0x1_0000_0000 + F.IV_256[1] as nat, PRIMES[0][1], 0x1_0000_0000_0000_0000);
    assert IsRoot(2 * 0x1_0000_0000 + F.IV_256[2] as nat, PRIMES[0][2], 0x1_0000_0000_0000_0000);
    assert IsRoot(2 * 0x1_0000_0000 + F.IV_256[3] as nat, PRIMES[0][3], 0x1_0000_0000_0000_0000);
    assert IsRoot(3 * 0x1_0000_0000 + F.IV_256[4] as nat, PRIMES[0][4], 0x1_0000_0000_0000_0000);
    assert IsRoot(3 * 0x1_0000_0000 + F.IV_256[5] as nat, PRIMES[0][5], 0x1_0000_0000_0000_0000);
    assert IsRoot(4 * 0x1_0000_0000 + F.IV_256[6] as nat, PRIMES[0][6], 0x1_0000_0000_0000_0000);
    assert IsRoot(4 * 0x1_0000_0000 + F.IV_256[7] as nat, PRIMES[0][7], 0x1_0000_0000_0000_0000);
  }

  /** Section 5.3.2: the second 32 bits of those of the ninth to sixteenth prime. */
  lemma Iv224IsRoots()
    ensures forall i :: 0 <= i < 8 ==>
      RootWord(F.IV_224[i], PRIMES[1][i], 0x1_0000_0000_0000_0000_0000_0000_0000_0000)
  {
    assert IsRoot(0x4cbbb9d5d * 0x1_0000_0000 + F.IV_224[0] as nat, PRIMES[1][0],
                  0x1_0000_0000_0000_0000_0000_0000_0000_0000);
    assert IsRoot(0x5629a292a * 0x1_0000_0000 + F.IV_224[1] as nat, PRIMES[1][1],
                  0x1_0000_0000_0000_0000_0000_0000_0000_0000);
    assert IsRoot(0x59159015a * 0x1_0000_0000 + F.IV_224[2] as nat, PRIMES[1][2],
                  0x1_0000_0000_0000_0000_0000_0000_0000_0000);
    assert IsRoot(0x6152fecd8 * 0x1_0000_0000 + F.IV_224[3] as nat, PRIMES[1][3],
                  0x1_0000_0000_0000_0000_0000_0000_0000_0000);
    assert IsRoot(0x667332667 * 0x1_0000_0000 + F.IV_224[4] as nat, PRIMES[1][4],
                  0x1_0000_0000_0000_0000_0000_0000_0000_0000);
    assert IsRoot(0x68eb44a87 * 0x1_0000_0000 + F.IV_224[5] as nat, PRIMES[1][5],
                  0x1_0000_0000_0000_0000_0000_0000_0000_0000);
    assert IsRoot(0x6db0c2e0d * 0x1_0000_0000 + F.IV_224[6] as nat, PRIMES[1][6],
                  0x1_0000_0000_0000_0000_0000_0000_0000_0000);
    assert IsRoot(0x747b5481d * 0x1_0000_0000 + F.IV_224[7] as nat, PRIMES[1][7],
                  0x1_0000_0000_0000_0000_0000_0000_0000_0000);
  }

  /** Section 4.2.2: the first 32 bits of the fractional parts of the cube roots. */
  lemma KIsCubeRoots(t: nat)
    requires t < 64
    ensures CubeRootWord(F.K(t), PRIMES[t / 8][t % 8])
  {
    var row, i := t / 8, t % 8;
    match row {
      case 0 => RowIsCubeRoots0(i);
      case 1 => RowIsCubeRoots1(i);
      case 2 => RowIsCubeRoots2(i);
      case 3 => RowIsCubeRoots3(i);
      case 4 => RowIsCubeRoots4(i);
      case 5 => RowIsCubeRoots5(i);
      case 6 => RowIsCubeRoots6(i);
      case _ => RowIsCubeRoots7(i);
    }
  }

  lemma RowIsCubeRoots0(i: nat)
    requires i < 8
    ensures CubeRootWord(F.KRow(0)[i], PRIMES[0][i])
  {
    assert IsCubeRoot(1 * 0x1_0000_0000 + F.KRow(0)[0] as nat, PRIMES[0][0]);
    assert IsCubeRoot(1 * 0x1_0000_0000 + F.KRow(0)[1] as nat, PRIMES[0][1]);
    assert IsCubeRoot(1 * 0x1_0000_0000 + F.KRow(0)[2] as nat, PRIMES[0][2]);
    assert IsCubeRoot(1 * 0x1_0000_0000 + F.KRow(0)[3] as nat, PRIMES[0][3]);
    assert IsCubeRoot(2 * 0x1_0000_0000 + F.KRow(0)[4] as nat, PRIMES[0][4]);
    assert IsCubeRoot(2 * 0x1_0000_0000 + F.KRow(0)[5] as nat, PRIMES[0][5]);
    assert IsCubeRoot(2 * 0x1_0000_0000 + F.KRow(0)[6] as nat, PRIMES[0][6]);
    assert IsCubeRoot(2 * 0x1_0000_0000 + F.KRow(0)[7] as nat, PRIMES[0][7]);
  }

  lemma RowIsCubeRoots1(i: nat)
    requires i < 8
    ensures CubeRootWord(F.KRow(1)[i], PRIMES[1][i])
  {
    assert IsCubeRoot(2 * 0x1_0000_0000 + F.KRow(1)[0] as nat, PRIMES[1][0]);
    assert IsCubeRoot(3 * 0x1_0000_0000 + F.KRow(1)[1] as nat, PRIMES[1][1]);
    assert IsCubeRoot(3 * 0x1_0000_0000 + F.KRow(1)[2] as nat, PRIMES[1][2]);
    assert IsCubeRoot(3 * 0x1_0000_0000 + F.KRow(1)[3] as nat, PRIMES[1][3]);
    assert IsCubeRoot(3 * 0x1_0000_0000 + F.KRow(1)[4] as nat, PRIMES[1][4]);
    assert IsCubeRoot(3 * 0x1_0000_0000 + F.KRow(1)[5] as nat, PRIMES[1][5]);
    assert IsCubeRoot(3 * 0x1_0000_0000 + F.KRow(1)[6] as nat, PRIMES[1][6]);
    assert IsCubeRoot(3 * 0x1_0000_0000 + F.KRow(1)[7] as nat, PRIMES[1][7]);
  }

  lemma RowIsCubeRoots2(i: nat)
    requires i < 8
    ensures CubeRootWord(F.KRow(2)[i], PRIMES[2][i])
  {
    assert IsCubeRoot(3 * 0x1_0000_0000 + F.KRow(2)[0] as nat, PRIMES[2][0]);
    assert IsCubeRoot(3 * 0x1_0000_0000 + F.KRow(2)[1] as nat, PRIMES[2][1]);
    assert IsCubeRoot(4 * 0x1_0000_0000 + F.KRow(2)[2] as nat, PRIMES[2][2]);
    assert IsCubeRoot(4 * 0x1_0000_0000 + F.KRow(2)[3] as nat, PRIMES[2][3]);
    assert IsCubeRoot(4 * 0x1_0000_0000 + F.KRow(2)[4] as nat, PRIMES[2][4]);
    assert IsCubeRoot(4 * 0x1_0000_0000 + F.KRow(2)[5] as nat, PRIMES[2][5]);
    assert IsCubeRoot(4 * 0x1_0000_0000 + F.KRow(2)[6] as nat, PRIMES[2][6]);
    assert IsCubeRoot(4 * 0x1_0000_0000 + F.KRow(2)[7] as nat, PRIMES[2][7]);
  }

  lemma RowIsCubeRoots3(i: nat)
    requires i < 8
    ensures CubeRootWord(F.KRow(3)[i], PRIMES[3][i])
  {
    assert IsCubeRoot(4 * 0x1_0000_0000 + F.KRow(3)[0] as nat, PRIMES[3][0]);
    assert IsCubeRoot(4 * 0x1_0000_0000 + F.KRow(3)[1] as nat, PRIMES[3][1]);
    assert IsCubeRoot(4 * 0x1_0000_0000 + F.KRow(3)[2] as nat, PRIMES[3][2]);
    assert IsCubeRoot(4 * 0x1_0000_0000 + F.KRow(3)[3] as nat, PRIMES[3][3]);
    assert IsCubeRoot(4 * 0x1_0000_0000 + F.KRow(3)[4] as nat, PRIMES[3][4]);
    assert IsCubeRoot(4 * 0x1_0000_0000 + F.KRow(3)[5] as nat, PRIMES[3][5]);
    assert IsCubeRoot(5 * 0x1_0000_0000 + F.KRow(3)[6] as nat, PRIMES[3][6]);
    assert IsCubeRoot(5 * 0x1_0000_0000 + F.KRow(3)[7] as nat, PRIMES[3][7]);
  }

  lemma RowIsCubeRoots4(i: nat)
    requires i < 8
    ensures CubeRootWord(F.KRow(4)[i], PRIMES[4][i])
  {
    assert IsCubeRoot(5 * 0x1_0000_0000 + F.KRow(4)[0] as nat, PRIMES[4][0]);
    assert IsCubeRoot(5 * 0x1_0000_0000 + F.KRow(4)[1] as nat, PRIMES[4][1]);
    assert IsCubeRoot(5 * 0x1_0000_0000 + F.KRow(4)[2] as nat, PRIMES[4][2]);
    assert IsCubeRoot(5 * 0x1_0000_0000 + F.KRow(4)[3] as nat, PRIMES[4][3]);
    assert IsCubeRoot(5 * 0x1_0000_0000 + F.KRow(4)[4] as nat, PRIMES[4][4]);
    assert IsCubeRoot(5 * 0x1_0000_0000 + F.KRow(4)[5] as nat, PRIMES[4][5]);
    assert IsCubeRoot(5 * 0x1_0000_0000 + F.KRow(4)[6] as nat, PRIMES[4][6]);
    assert IsCubeRoot(5 * 0x1_0000_0000 + F.KRow(4)[7] as nat, PRIMES[4][7]);
  }

  lemma RowIsCubeRoots5(i: nat)
    requires i < 8
    ensures CubeRootWord(F.KRow(5)[i], PRIMES[5][i])
  {
    assert IsCubeRoot(5 * 0x1_0000_0000 + F.KRow(5)[0] as nat, PRIMES[5][0]);
    assert IsCubeRoot(5 * 0x1_0000_0000 + F.KRow(5)[1] as nat, PRIMES[5][1]);
    assert IsCubeRoot(5 * 0x1_0000_0000 + F.KRow(5)[2] as nat, PRIMES[5][2]);
    assert IsCubeRoot(5 * 0x1_0000_0000 + F.KRow(5)[3] as nat, PRIMES[5][3]);
    assert IsCubeRoot(5 * 0x1_0000_0000 + F.KRow(5)[4] as nat, PRIMES[5][4]);
    assert IsCubeRoot(5 * 0x1_0000_0000 + F.KRow(5)[5] as nat, PRIMES[5][5]);
    assert IsCubeRoot(5 * 0x1_0000_0000 + F.KRow(5)[6] as nat, PRIMES[5][6]);
    assert IsCubeRoot(6 * 0x1_0000_0000 + F.KRow(5)[7] as nat, PRIMES[5][7]);
  }

  lemma RowIsCubeRoots6(i: nat)
    requires i < 8
    ensures CubeRootWord(F.KRow(6)[i], PRIMES[6][i])
  {
    assert IsCubeRoot(6 * 0x1_0000_0000 + F.KRow(6)[0] as nat, PRIMES[6][0]);
    assert IsCubeRoot(6 * 0x1_0000_0000 + F.KRow(6)[1] as nat, PRIMES[6][1]);
    assert IsCubeRoot(6 * 0x1_0000_0000 + F.KRow(6)[2] as nat, PRIMES[6][2]);
    assert IsCubeRoot(6 * 0x1_0000_0000 + F.KRow(6)[3] as nat, PRIMES[6][3]);
    assert IsCubeRoot(6 * 0x1_0000_0000 + F.KRow(6)[4] as nat, PRIMES[6][4]);
    assert IsCubeRoot(6 * 0x1_0000_0000 + F.KRow(6)[5] as nat, PRIMES[6][5]);
    assert IsCubeRoot(6 * 0x1_0000_0000 + F.KRow(6)[6] as nat, PRIMES[6][6]);
    assert IsCubeRoot(6 * 0x1_0000_0000 + F.KRow(6)[7] as nat, PRIMES[6][7]);
  }

  lemma RowIsCubeRoots7(i: nat)
    requires i < 8
    ensures CubeRootWord(F.KRow(7)[i], PRIMES[7][i])
  {
    assert IsCubeRoot(6 * 0x1_0000_0000 + F.KRow(7)[0] as nat, PRIMES[7][0]);
    assert IsCubeRoot(6 * 0x1_0000_0000 + F.KRow(7)[1] as nat, PRIMES[7][1]);
    assert IsCubeRoot(6 * 0x1_0000_0000 + F.KRow(7)[2] as nat, PRIMES[7][2]);
    assert IsCubeRoot(6 * 0x1_0000_0000 + F.KRow(7)[3] as nat, PRIMES[7][3]);
    assert IsCubeRoot(6 * 0x1_0000_0000 + F.KRow(7)[4] as nat, PRIMES[7][4]);
    assert IsCubeRoot(6 * 0x1_0000_0000 + F.KRow(7)[5] as nat, PRIMES[7][5]);
    assert IsCubeRoot(6 * 0x1_0000_0000 + F.KRow(7)[6] as nat, PRIMES[7][6]);
    assert IsCubeRoot(6 * 0x1_0000_0000 + F.KRow(7)[7] as nat, PRIMES[7][7]);
  }

  /** Section 4.2.1: the SHA-1 constants are square roots, as words of 30 fractional bits. */
  lemma KtIsRoots(t: nat)
    requires t < 80
    ensures IsRoot(Sha1.Kt(t) as nat, if t < 20 then 2 else if t < 40 then 3 else if t < 60 then 5 else 10,
                   0x1000_0000_0000_0000)
  {
  }
}
