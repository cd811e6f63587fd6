/** Bytes, fixed-width integers as bytes, and results: vocabulary shared by all modules. */
module Bytes {

  type byte = b: int | 0 <= b < 256

  datatype Option<+T> = None | Some(value: T)

  /** An integer return code, as the source's negative errno values. */
  datatype Error = EINVAL | ENODATA | ENOENT | EIO | E2BIG | ENOSPC | EPERM | ESPIPE | EILSEQ | EOVERFLOW

  datatype Result<+T> = Ok(value: T) | Err(error: Error)

  const TWO_16: nat := 0x1_0000
  const TWO_32: nat := 0x1_0000_0000

  function Fill(n: nat, b: byte): (s: seq<byte>)
    ensures |s| == n
    ensures forall i :: 0 <= i < n ==> s[i] == b
  {
    seq(n, i => b)
  }

  function Zeros(n: nat): (s: seq<byte>)
    ensures |s| == n
  {
    Fill(n, 0)
  }

  /** Little-endian encodings; a host structure in memory has this layout. */
  function Le16(n: nat): (s: seq<byte>)
    ensures |s| == 2
  {
    [n % 256, n / 256 % 256]
  }

  function Le32(n: nat): (s: seq<byte>)
    ensures |s| == 4
  {
    [n % 256, n / 256 % 256, n / 256 / 256 % 256, n / 256 / 256 / 256 % 256]
  }

  function FromLe16(s: seq<byte>): (n: nat)
    requires |s| == 2
    ensures n < TWO_16
  {
    var lo: int, hi: int := s[0], s[1];
    lo + 256 * hi
  }

  function FromLe32(s: seq<byte>): (n: nat)
    requires |s| == 4
    ensures n < TWO_32
  {
    var b0: int, b1: int, b2: int, b3: int := s[0], s[1], s[2], s[3];
    b0 + 256 * (b1 + 256 * (b2 + 256 * b3))
  }

  lemma Le16RoundTrip(n: nat)
    ensures FromLe16(Le16(n)) == n % TWO_16
  {
  }

  lemma Le32RoundTrip(n: nat)
    requires n < TWO_32
    ensures FromLe32(Le32(n)) == n
  {
  }

  /** Big-endian encodings, as in the flattened device tree. */
  function Be32(n: nat): (s: seq<byte>)
    ensures |s| == 4
  {
    [n / 256 / 256 / 256 % 256, n / 256 / 256 % 256, n / 256 % 256, n % 256]
  }

  function FromBe32(s: seq<byte>): (n: nat)
    requires |s| == 4
    ensures n < TWO_32
  {
    var b0: int, b1: int, b2: int, b3: int := s[3], s[2], s[1], s[0];
    b0 + 256 * (b1 + 256 * (b2 + 256 * b3))
  }

  lemma Be32RoundTrip(n: nat)
    requires n < TWO_32
    ensures FromBe32(Be32(n)) == n
  {
  }

  /** x is a multiple of a (x % a == 0), in a form the verifier unfolds step by step. */
  predicate Multiple(x: nat, a: nat)
    requires a > 0
    decreases x
  {
    x == 0 || (x >= a && Multiple(x - a, a))
  }

  lemma {:induction false} MultipleIffMod(x: nat, a: nat)
    requires a > 0
    ensures Multiple(x, a) <==> x % a == 0
    decreases x
  {
    if x >= a {
      MultipleIffMod(x - a, a);
      DivMod(x - a, a);
      assert x == ((x - a) / a + 1) * a + (x - a) % a;
      DivModUnique(x, a, (x - a) / a + 1, (x - a) % a);
    } else {
      DivModUnique(x, a, 0, x);
    }
  }

  /** Multiples of a are closed under sum. */
  lemma {:induction false} MultipleSum(x: nat, y: nat, a: nat)
    requires a > 0 && Multiple(x, a) && Multiple(y, a)
    ensures Multiple(x + y, a)
    decreases x
  {
    if x > 0 {
      MultipleSum(x - a, y, a);
    }
  }

  /** Multiples of a are closed under difference. */
  lemma {:induction false} MultipleDifference(x: nat, y: nat, a: nat)
    requires a > 0 && Multiple(x, a) && Multiple(y, a) && y <= x
    ensures Multiple(x - y, a)
    decreases y
  {
    if y > 0 {
      MultipleDifference(x - a, y - a, a);
    }
  }

  /** ALIGN(n, a) and roundup(n, a): the least multiple of a that is not below n. */
  function RoundUp(n: nat, a: nat): (r: nat)
    requires a > 0
    ensures n <= r < n + a
    ensures Multiple(r, a)
    decreases n
  {
    if n == 0 then 0 else if n <= a then a else RoundUp(n - a, a) + a
  }

  /** RoundUp agrees with the division that the source's macro uses. */
  lemma {:induction false} RoundUpByDivision(n: nat, a: nat)
    requires a > 0
    ensures RoundUp(n, a) == (n + a - 1) / a * a
    decreases n
  {
    var x := n + a - 1;
    if n == 0 {
      DivModUnique(x, a, 0, a - 1);
    } else if n <= a {
      DivModUnique(x, a, 1, n - 1);
    } else {
      RoundUpByDivision(n - a, a);
      var q := (x - a) / a;
      DivMod(x - a, a);
      assert x == (q + 1) * a + (x - a) % a;
      DivModUnique(x, a, q + 1, (x - a) % a);
      assert RoundUp(n, a) == q * a + a == (q + 1) * a;
    }
  }

  lemma DivMod(x: nat, a: nat)
    requires a > 0
    ensures x == x / a * a + x % a
  {
  }

  lemma SmallMultiple(k: int, a: int)
    requires 0 < a && -a < k * a < a
    ensures k == 0
  {
  }

  /** The quotient and the remainder are determined by x == q * a + r. */
  lemma DivModUnique(x: nat, a: nat, q: int, r: nat)
    requires a > 0 && x == q * a + r && r < a
    ensures x / a == q && x % a == r
  {
    DivMod(x, a);
    assert (x / a - q) * a == r - x % a;
    SmallMultiple(x / a - q, a);
  }

  /** Bytes of s, then those of under where s has none. */
  function Overlay(s: seq<byte>, under: seq<byte>): (r: seq<byte>)
    ensures |r| == |under|
  {
    seq(|under|, i requires 0 <= i < |under| => if i < |s| then s[i] else under[i])
  }

  /** The bytes of d stand in s from offset at on. */
  predicate Holds(s: seq<byte>, at: nat, d: seq<byte>)
    requires at + |d| <= |s|
  {
    forall i :: 0 <= i < |d| ==> s[at + i] == d[i]
  }

  lemma HoldsSlice(s: seq<byte>, at: nat, d: seq<byte>, i: nat, j: nat)
    requires at + |d| <= |s| && Holds(s, at, d) && i <= j <= |d|
    ensures s[at + i..at + j] == d[i..j]
  {
  }

  lemma HoldsIffSlice(s: seq<byte>, at: nat, d: seq<byte>)
    requires at + |d| <= |s|
    ensures Holds(s, at, d) <==> s[at..at + |d|] == d
  {
    var t := s[at..at + |d|];
    forall i | 0 <= i < |d| && t == d
      ensures s[at + i] == d[i]
    {
      assert t[i] == s[at + i];
    }
  }

  lemma SliceOfSlice(s: seq<byte>, a: nat, b: nat, i: nat, j: nat)
    requires a <= b <= |s| && i <= j <= b - a
    ensures s[a..b][i..j] == s[a + i..a + j]
  {
    var l, r := s[a..b][i..j], s[a + i..a + j];
    forall k | 0 <= k < |l|
      ensures l[k] == r[k]
    {
    }
  }

  lemma PrefixSlice(p: seq<byte>, s: seq<byte>, i: nat, j: nat)
    requires p <= s && i <= j <= |p|
    ensures s[i..j] == p[i..j]
  {
    forall k | i <= k < j
      ensures s[k] == p[k]
    {
    }
  }
}
