/** SHA-256 and SHA-224 as the program computes them: unrolled rounds with renamed registers, and
    streaming with a partial block. */
module Sha2 {
  import F = Fips180

  // The round functions in the program's form.

  function Ch(x: bv32, y: bv32, z: bv32): bv32 { z ^ (x & (y ^ z)) }

  function Maj(x: bv32, y: bv32, z: bv32): bv32 { (x & y) | (z & (x | y)) }

  function E0(x: bv32): bv32 { F.Rotr(x, 2) ^ F.Rotr(x, 13) ^ F.Rotr(x, 22) }

  function E1(x: bv32): bv32 { F.Rotr(x, 6) ^ F.Rotr(x, 11) ^ F.Rotr(x, 25) }

  function S0(x: bv32): bv32 { F.Rotr(x, 7) ^ F.Rotr(x, 18) ^ (x >> 3) }

  function S1(x: bv32): bv32 { F.Rotr(x, 17) ^ F.Rotr(x, 19) ^ (x >> 10) }

  lemma ChIsFips(x: bv32, y: bv32, z: bv32)
    ensures Ch(x, y, z) == F.Ch(x, y, z)
  {
    hide Ch, F.Ch;
    ChDifference(x, y, z);
    NoDifference(Ch(x, y, z), F.Ch(x, y, z));
  }

  lemma ChDifference(x: bv32, y: bv32, z: bv32)
    ensures Ch(x, y, z) ^ F.Ch(x, y, z) == 0
  {
  }

  lemma MajIsFips(x: bv32, y: bv32, z: bv32)
    ensures Maj(x, y, z) == F.Maj(x, y, z)
  {
    hide Maj, F.Maj;
    MajDifference(x, y, z);
    NoDifference(Maj(x, y, z), F.Maj(x, y, z));
  }

  lemma MajDifference(x: bv32, y: bv32, z: bv32)
    ensures Maj(x, y, z) ^ F.Maj(x, y, z) == 0
  {
  }

  lemma NoDifference(p: bv32, q: bv32)
    requires p ^ q == 0
    ensures p == q
  {
  }

  lemma SigmasAreFips(x: bv32)
    ensures E0(x) == F.Sigma0(x) && E1(x) == F.Sigma1(x)
    ensures S0(x) == F.LowerSigma0(x) && S1(x) == F.LowerSigma1(x)
  {
    hide F.Rotr;
  }

  lemma OneRound(r0: F.Regs, w: seq<bv32>, t: nat)
    requires t < 64 && t < |w|
    ensures var r := F.Rounds(r0, w, t);
            var t1 := F.Add(F.Add(F.Add(F.Add(r.h, E1(r.e)), Ch(r.e, r.f, r.g)), F.K(t)), w[t]);
            var t2 := F.Add(E0(r.a), Maj(r.a, r.b, r.c));
            F.Rounds(r0, w, t + 1)
            == F.Regs(F.Add(t1, t2), r.a, r.b, r.c, F.Add(r.d, t1), r.e, r.f, r.g)
  {
    hide Ch, Maj, E0, E1, F.Ch, F.Maj, F.Sigma0, F.Sigma1, F.Add, F.K;
    var r := F.Rounds(r0, w, t);
    ChIsFips(r.e, r.f, r.g);
    MajIsFips(r.a, r.b, r.c);
    SigmasAreFips(r.e);
    SigmasAreFips(r.a);
  }

  lemma RowConstants(row: nat, k0: bv32, k1: bv32, k2: bv32, k3: bv32, k4: bv32, k5: bv32, k6: bv32, k7: bv32)
    requires row < 8 && F.KRow(row) == [k0, k1, k2, k3, k4, k5, k6, k7]
    ensures var t := 8 * row;
            && F.K(t) == k0 && F.K(t + 1) == k1 && F.K(t + 2) == k2 && F.K(t + 3) == k3
            && F.K(t + 4) == k4 && F.K(t + 5) == k5 && F.K(t + 6) == k6 && F.K(t + 7) == k7
  {
    hide F.KRow;
  }

  /** Eight rounds as written out: instead of moving the registers, each round renames them. */
  method EightRounds(ghost r0: F.Regs, a0: bv32, b0: bv32, c0: bv32, d0: bv32,
                   e0_: bv32, f0: bv32, g0: bv32, h0: bv32, w: seq<bv32>, row: nat,
                   k0: bv32, k1: bv32, k2: bv32, k3: bv32, k4: bv32, k5: bv32, k6: bv32, k7: bv32)
    returns (a: bv32, b: bv32, c: bv32, d: bv32, e: bv32, f: bv32, g: bv32, h: bv32)
    requires |w| == 64 && row < 8
    requires F.Regs(a0, b0, c0, d0, e0_, f0, g0, h0) == F.Rounds(r0, w, 8 * row)
    requires F.KRow(row) == [k0, k1, k2, k3, k4, k5, k6, k7]
    ensures F.Regs(a, b, c, d, e, f, g, h) == F.Rounds(r0, w, 8 * row + 8)
  {
    hide Ch, Maj, E0, E1, F.Rounds, F.Add, F.K, F.KRow;
    var t1, t2;
    var t := 8 * row;
    RowConstants(row, k0, k1, k2, k3, k4, k5, k6, k7);
    a, b, c, d, e, f, g, h := a0, b0, c0, d0, e0_, f0, g0, h0;
    t1 := F.Add(F.Add(F.Add(F.Add(h, E1(e)), Ch(e, f, g)), k0), w[t + 0]);
    t2 := F.Add(E0(a), Maj(a, b, c));
    d, h := F.Add(d, t1), F.Add(t1, t2);
    OneRound(r0, w, t + 0);
    assert F.Regs(h, a, b, c, d, e, f, g) == F.Rounds(r0, w, t + 1);
    t1 := F.Add(F.Add(F.Add(F.Add(g, E1(d)), Ch(d, e, f)), k1), w[t + 1]);
    t2 := F.Add(E0(h), Maj(h, a, b));
    c, g := F.Add(c, t1), F.Add(t1, t2);
    OneRound(r0, w, t + 1);
    assert F.Regs(g, h, a, b, c, d, e, f) == F.Rounds(r0, w, t + 2);
    t1 := F.Add(F.Add(F.Add(F.Add(f, E1(c)), Ch(c, d, e)), k2), w[t + 2]);
    t2 := F.Add(E0(g), Maj(g, h, a));
    b, f := F.Add(b, t1), F.Add(t1, t2);
    OneRound(r0, w, t + 2);
    assert F.Regs(f, g, h, a, b, c, d, e) == F.Rounds(r0, w, t + 3);
    t1 := F.Add(F.Add(F.Add(F.Add(e, E1(b)), Ch(b, c, d)), k3), w[t + 3]);
    t2 := F.Add(E0(f), Maj(f, g, h));
    a, e := F.Add(a, t1), F.Add(t1, t2);
    OneRound(r0, w, t + 3);
    assert F.Regs(e, f, g, h, a, b, c, d) == F.Rounds(r0, w, t + 4);
    t1 := F.Add(F.Add(F.Add(F.Add(d, E1(a)), Ch(a, b, c)), k4), w[t + 4]);
    t2 := F.Add(E0(e), Maj(e, f, g));
    h, d := F.Add(h, t1), F.Add(t1, t2);
    OneRound(r0, w, t + 4);
    assert F.Regs(d, e, f, g, h, a, b, c) == F.Rounds(r0, w, t + 5);
    t1 := F.Add(F.Add(F.Add(F.Add(c, E1(h)), Ch(h, a, b)), k5), w[t + 5]);
    t2 := F.Add(E0(d), Maj(d, e, f));
    g, c := F.Add(g, t1), F.Add(t1, t2);
    OneRound(r0, w, t + 5);
    assert F.Regs(c, d, e, f, g, h, a, b) == F.Rounds(r0, w, t + 6);
    t1 := F.Add(F.Add(F.Add(F.Add(b, E1(g)), Ch(g, h, a)), k6), w[t + 6]);
    t2 := F.Add(E0(c), Maj(c, d, e));
    f, b := F.Add(f, t1), F.Add(t1, t2);
    OneRound(r0, w, t + 6);
    assert F.Regs(b, c, d, e, f, g, h, a) == F.Rounds(r0, w, t + 7);
    t1 := F.Add(F.Add(F.Add(F.Add(a, E1(f)), Ch(f, g, h)), k7), w[t + 7]);
    t2 := F.Add(E0(b), Maj(b, c, d));
    e, a := F.Add(e, t1), F.Add(t1, t2);
    OneRound(r0, w, t + 7);
    assert F.Regs(a, b, c, d, e, f, g, h) == F.Rounds(r0, w, t + 8);
  }

  // The 64 rounds with their constants.

  method FirstHalf(ghost r0: F.Regs, a0: bv32, b0: bv32, c0: bv32, d0: bv32,
            e0_: bv32, f0: bv32, g0: bv32, h0: bv32, w: seq<bv32>)
    returns (a: bv32, b: bv32, c: bv32, d: bv32, e: bv32, f: bv32, g: bv32, h: bv32)
    requires |w| == 64 && F.Regs(a0, b0, c0, d0, e0_, f0, g0, h0) == F.Rounds(r0, w, 0)
    ensures F.Regs(a, b, c, d, e, f, g, h) == F.Rounds(r0, w, 32)
  {
    hide F.Rounds;
    a, b, c, d, e, f, g, h := a0, b0, c0, d0, e0_, f0, g0, h0;
    a, b, c, d, e, f, g, h := EightRounds(r0, a, b, c, d, e, f, g, h, w, 0,
      0x428a2f98, 0x71374491, 0xb5c0fbcf, 0xe9b5dba5,
      0x3956c25b, 0x59f111f1, 0x923f82a4, 0xab1c5ed5);
    a, b, c, d, e, f, g, h := EightRounds(r0, a, b, c, d, e, f, g, h, w, 1,
      0xd807aa98, 0x12835b01, 0x243185be, 0x550c7dc3,
      0x72be5d74, 0x80deb1fe, 0x9bdc06a7, 0xc19bf174);
    a, b, c, d, e, f, g, h := EightRounds(r0, a, b, c, d, e, f, g, h, w, 2,
      0xe49b69c1, 0xefbe4786, 0x0fc19dc6, 0x240ca1cc,
      0x2de92c6f, 0x4a7484aa, 0x5cb0a9dc, 0x76f988da);
    a, b, c, d, e, f, g, h := EightRounds(r0, a, b, c, d, e, f, g, h, w, 3,
      0x983e5152, 0xa831c66d, 0xb00327c8, 0xbf597fc7,
      0xc6e00bf3, 0xd5a79147, 0x06ca6351, 0x14292967);
  }

  method SecondHalf(ghost r0: F.Regs, a0: bv32, b0: bv32, c0: bv32, d0: bv32,
            e0_: bv32, f0: bv32, g0: bv32, h0: bv32, w: seq<bv32>)
    returns (a: bv32, b: bv32, c: bv32, d: bv32, e: bv32, f: bv32, g: bv32, h: bv32)
    requires |w| == 64 && F.Regs(a0, b0, c0, d0, e0_, f0, g0, h0) == F.Rounds(r0, w, 32)
    ensures F.Regs(a, b, c, d, e, f, g, h) == F.Rounds(r0, w, 64)
  {
    hide F.Rounds;
    a, b, c, d, e, f, g, h := a0, b0, c0, d0, e0_, f0, g0, h0;
    a, b, c, d, e, f, g, h := EightRounds(r0, a, b, c, d, e, f, g, h, w, 4,
      0x27b70a85, 0x2e1b2138, 0x4d2c6dfc, 0x53380d13,
      0x650a7354, 0x766a0abb, 0x81c2c92e, 0x92722c85);
    a, b, c, d, e, f, g, h := EightRounds(r0, a, b, c, d, e, f, g, h, w, 5,
      0xa2bfe8a1, 0xa81a664b, 0xc24b8b70, 0xc76c51a3,
      0xd192e819, 0xd6990624, 0xf40e3585, 0x106aa070);
    a, b, c, d, e, f, g, h := EightRounds(r0, a, b, c, d, e, f, g, h, w, 6,
      0x19a4c116, 0x1e376c08, 0x2748774c, 0x34b0bcb5,
      0x391c0cb3, 0x4ed8aa4a, 0x5b9cca4f, 0x682e6ff3);
    a, b, c, d, e, f, g, h := EightRounds(r0, a, b, c, d, e, f, g, h, w, 7,
      0x748f82ee, 0x78a5636f, 0x84c87814, 0x8cc70208,
      0x90befffa, 0xa4506ceb, 0xbef9a3f7, 0xc67178f2);
  }

  method AllRounds(s: seq<bv32>, input: seq<bv8>) returns (x: F.Regs)
    requires |s| == 8 && |input| == 64
    ensures x == F.Rounds(F.Regs(s[0], s[1], s[2], s[3], s[4], s[5], s[6], s[7]), F.Schedule(input, 64), 64)
  {
    hide F.Rounds, F.Schedule;
    var w := Expand(input);
    var a, b, c, d, e, f, g, h := s[0], s[1], s[2], s[3], s[4], s[5], s[6], s[7];
    ghost var r0 := F.Regs(a, b, c, d, e, f, g, h);
    NoRounds(r0, w);
    a, b, c, d, e, f, g, h := FirstHalf(r0, a, b, c, d, e, f, g, h, w);
    a, b, c, d, e, f, g, h := SecondHalf(r0, a, b, c, d, e, f, g, h, w);
    x := F.Regs(a, b, c, d, e, f, g, h);
  }

  /** sha256_transform */
  method Transform(state: array<bv32>, input: seq<bv8>)
    requires state.Length == 8 && |input| == 64
    modifies state
    ensures state[..] == F.Compress(old(state[..]), input)
  {
    hide F.Rounds, F.Schedule, F.Add;
    ghost var s := state[..];
    var x := AllRounds(state[..], input);
    state[0], state[1] := F.Add(state[0], x.a), F.Add(state[1], x.b);
    state[2], state[3] := F.Add(state[2], x.c), F.Add(state[3], x.d);
    state[4], state[5] := F.Add(state[4], x.e), F.Add(state[5], x.f);
    state[6], state[7] := F.Add(state[6], x.g), F.Add(state[7], x.h);
  }

  lemma NoRounds(r0: F.Regs, w: seq<bv32>)
    ensures F.Rounds(r0, w, 0) == r0
  {
  }

  /** LOAD_OP for the first 16 words, BLEND_OP for the others. */
  method Expand(input: seq<bv8>) returns (w: seq<bv32>)
    requires |input| == 64
    ensures w == F.Schedule(input, 64)
  {
    hide F.WordAt, F.Add, S0, S1, F.LowerSigma0, F.LowerSigma1, F.Schedule;
    var words := new bv32[64](_ => 0);
    var i := 0;
    ScheduleEmpty(input);
    while i < 16
      invariant 0 <= i <= 16 && words[..i] == F.Schedule(input, i)
    {
      F.ScheduleNext(input, i);
      words[i] := F.WordAt(input, i);
      i := i + 1;
      assert words[..i] == words[..i - 1] + [words[i - 1]];
    }
    while i < 64
      invariant 16 <= i <= 64 && words[..i] == F.Schedule(input, i)
    {
      F.ScheduleNext(input, i);
      assert forall j :: 0 <= j < i ==> words[j] == words[..i][j];
      SigmasAreFips(words[i - 2]);
      SigmasAreFips(words[i - 15]);
      words[i] := F.Add(F.Add(F.Add(S1(words[i - 2]), words[i - 7]), S0(words[i - 15])), words[i - 16]);
      i := i + 1;
      assert words[..i] == words[..i - 1] + [words[i - 1]];
    }
    w := words[..];
    assert words[..64] == words[..];
  }

  lemma ScheduleEmpty(input: seq<bv8>)
    requires |input| == 64
    ensures F.Schedule(input, 0) == []
  {
  }
}
