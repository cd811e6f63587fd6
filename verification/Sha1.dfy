/** The SHA-1 compression function: sixteen rolling words and renamed registers against the
    eighty-word schedule of section 6.1.2 of FIPS 180-4. */
module Sha1 {
  import F = Fips180

  // ----- FIPS 180-4 -----

  /** ROTL, section 3.2. */
  function Rotl(x: bv32, n: nat): bv32
    requires n < 32
  {
    x.RotateLeft(n)
  }

  function Parity(x: bv32, y: bv32, z: bv32): bv32 { x ^ y ^ z }

  /** Section 4.1.1. */
  function Ft(t: nat, x: bv32, y: bv32, z: bv32): bv32 {
    if t < 20 then F.Ch(x, y, z) else if t < 40 then Parity(x, y, z)
    else if t < 60 then F.Maj(x, y, z) else Parity(x, y, z)
  }

  /** Section 4.2.1. */
  function Kt(t: nat): bv32 {
    if t < 20 then 0x5a827999 else if t < 40 then 0x6ed9eba1
    else if t < 60 then 0x8f1bbcdc else 0xca62c1d6
  }

  function Sum5(a: bv32, b: bv32, c: bv32, d: bv32, e: bv32): bv32 { a + b + c + d + e }

  function Xor4(a: bv32, b: bv32, c: bv32, d: bv32): bv32 { a ^ b ^ c ^ d }

  /** Section 6.1.2 step 1: the first n words of the schedule. */
  function Schedule(block: seq<bv8>, n: nat): (w: seq<bv32>)
    requires |block| == 64
    ensures |w| == n
  {
    if n == 0 then [] else Schedule(block, n - 1) + [ScheduleWord(block, Schedule(block, n - 1))]
  }

  /** The word that follows the words w. */
  function ScheduleWord(block: seq<bv8>, w: seq<bv32>): bv32
    requires |block| == 64
  {
    var t := |w|;
    if t < 16 then F.WordAt(block, t) else Rotl(Xor4(w[t - 3], w[t - 8], w[t - 14], w[t - 16]), 1)
  }

  datatype Regs = Regs(a: bv32, b: bv32, c: bv32, d: bv32, e: bv32)

  /** Section 6.1.2 step 3. */
  function Round(r: Regs, t: nat, w: bv32): Regs {
    var temp := Sum5(Rotl(r.a, 5), Ft(t, r.b, r.c, r.d), r.e, Kt(t), w);
    Regs(temp, r.a, Rotl(r.b, 30), r.c, r.d)
  }

  function Rounds(r: Regs, w: seq<bv32>, t: nat): Regs
    requires t <= |w|
    decreases t
  {
    if t == 0 then r else Round(Rounds(r, w, t - 1), t - 1, w[t - 1])
  }

  function Compress(s: seq<bv32>, block: seq<bv8>): (r: seq<bv32>)
    requires |s| == 5 && |block| == 64
    ensures |r| == 5
  {
    var x := Rounds(Regs(s[0], s[1], s[2], s[3], s[4]), Schedule(block, 80), 80);
    [F.Add(s[0], x.a), F.Add(s[1], x.b), F.Add(s[2], x.c), F.Add(s[3], x.d), F.Add(s[4], x.e)]
  }

  // ----- The program's forms -----

  function Rol32(x: bv32, n: nat): bv32
    requires n < 32
  {
    Rotl(x, n)
  }

  function Ror32(x: bv32, n: nat): bv32
    requires n < 32
  {
    x.RotateRight(n)
  }

  function ChForm(b: bv32, c: bv32, d: bv32): bv32 { ((c ^ d) & b) ^ d }

  function MajForm(b: bv32, c: bv32, d: bv32): bv32 { F.Add(b & c, d & (b ^ c)) }

  function MajOr(b: bv32, c: bv32, d: bv32): bv32 { (b & c) | (d & (b ^ c)) }

  /** The function the macro of round t passes on. */
  function Fn(t: nat, b: bv32, c: bv32, d: bv32): bv32 {
    if t < 20 then ChForm(b, c, d) else if t < 40 then Parity(b, c, d)
    else if t < 60 then MajForm(b, c, d) else Parity(b, c, d)
  }

  lemma ChFormIsFips(b: bv32, c: bv32, d: bv32)
    ensures ChForm(b, c, d) == F.Ch(b, c, d)
  {
    hide ChForm, F.Ch;
    ChDifference(b, c, d);
    NoDifference(ChForm(b, c, d), F.Ch(b, c, d));
  }

  lemma ChDifference(b: bv32, c: bv32, d: bv32)
    ensures ChForm(b, c, d) ^ F.Ch(b, c, d) == 0
  {
  }

  lemma NoDifference(p: bv32, q: bv32)
    requires p ^ q == 0
    ensures p == q
  {
  }

  /** The two parts of the sum have no bit in common, so adding them is or-ing them. */
  lemma MajFormIsFips(b: bv32, c: bv32, d: bv32)
    ensures MajForm(b, c, d) == F.Maj(b, c, d)
  {
    hide F.Maj, MajForm, MajOr;
    MajFormIsOr(b, c, d);
    MajDifference(b, c, d);
    NoDifference(MajOr(b, c, d), F.Maj(b, c, d));
  }

  lemma MajFormIsOr(b: bv32, c: bv32, d: bv32)
    ensures MajForm(b, c, d) == MajOr(b, c, d)
  {
    hide F.Add;
    NoCommonBit(b, c, d);
    AddIsOr(b & c, d & (b ^ c));
  }

  lemma NoCommonBit(b: bv32, c: bv32, d: bv32)
    ensures (b & c) & (d & (b ^ c)) == 0
  {
  }

  lemma AddIsOr(p: bv32, q: bv32)
    requires p & q == 0
    ensures F.Add(p, q) == p | q
  {
  }

  lemma MajDifference(b: bv32, c: bv32, d: bv32)
    ensures MajOr(b, c, d) ^ F.Maj(b, c, d) == 0
  {
  }

  lemma FnIsFips(t: nat, b: bv32, c: bv32, d: bv32)
    ensures Fn(t, b, c, d) == Ft(t, b, c, d)
  {
    hide ChForm, MajForm, Parity, F.Ch, F.Maj;
    ChFormIsFips(b, c, d);
    MajFormIsFips(b, c, d);
  }

  lemma RorIsRol(b: bv32)
    ensures Ror32(b, 2) == Rotl(b, 30)
  {
    assert b.RotateRight(2) == (b >> 2) | (b << 30);
    assert b.RotateLeft(30) == (b << 30) | (b >> 2);
  }

  /** What SHA_ROUND adds to its register E. */
  function Added(e: bv32, temp: bv32, rotated: bv32, f: bv32, k: bv32): bv32 { e + (temp + rotated + f + k) }

  lemma SumOrder(rotated: bv32, f: bv32, e: bv32, k: bv32, word: bv32)
    ensures Added(e, word, rotated, f, k) == Sum5(rotated, f, e, k, word)
  {
  }

  /** The sixteen words hold the last sixteen words of the schedule, each at its number mod 16. */
  ghost predicate Rolling(w: seq<bv32>, data: seq<bv8>, t: nat)
    requires |data| == 64 && |w| == 16 && t <= 80
  {
    forall i :: 0 <= i < t && t <= i + 16 ==> w[i % 16] == Schedule(data, 80)[i]
  }

  lemma {:induction false} SchedulePrefix(data: seq<bv8>, t: nat, n: nat)
    requires |data| == 64 && t <= n
    ensures Schedule(data, n)[..t] == Schedule(data, t)
    decreases n - t
  {
    hide ScheduleWord;
    if t < n {
      SchedulePrefix(data, t, n - 1);
      assert Schedule(data, n)[..t] == Schedule(data, n - 1)[..t];
    }
  }

  lemma ScheduleAt(data: seq<bv8>, t: nat)
    requires |data| == 64 && t < 80
    ensures Schedule(data, 80)[t] == ScheduleWord(data, Schedule(data, 80)[..t])
  {
    hide ScheduleWord;
    SchedulePrefix(data, t + 1, 80);
    SchedulePrefix(data, t, 80);
    assert Schedule(data, 80)[t] == Schedule(data, 80)[..t + 1][t];
  }

  /** SHA_SRC and SHA_MIX: the input of round t. */
  method Input(t: nat, data: seq<bv8>, w: array<bv32>) returns (word: bv32)
    requires |data| == 64 && w.Length == 16 && t < 80 && Rolling(w[..], data, t)
    ensures word == Schedule(data, 80)[t]
  {
    hide Rotl, Xor4, Schedule, F.WordAt;
    ScheduleAt(data, t);
    ghost var s := Schedule(data, 80)[..t];
    if t < 16 {
      word := F.WordAt(data, t);
    } else {
      assert w[..][(t - 3) % 16] == s[t - 3] && w[..][(t - 8) % 16] == s[t - 8];
      assert w[..][(t - 14) % 16] == s[t - 14] && w[..][(t - 16) % 16] == s[t - 16];
      word := Rol32(Xor4(w[(t + 13) % 16], w[(t + 8) % 16], w[(t + 2) % 16], w[t % 16]), 1);
    }
  }

  /** Storing a word where the one sixteen rounds older was. */
  lemma RollingStep(w: seq<bv32>, data: seq<bv8>, t: nat)
    requires |data| == 64 && |w| == 16 && t < 80 && Rolling(w, data, t)
    ensures Rolling(w[t % 16 := Schedule(data, 80)[t]], data, t + 1)
  {
    hide Schedule;
  }

  /** SHA_ROUND: only two of the five registers change; the next round renames them. */
  method ShaRound(ghost r0: Regs, t: nat, data: seq<bv8>, w: array<bv32>,
                  a: bv32, b: bv32, c: bv32, d: bv32, e: bv32) returns (b': bv32, e': bv32)
    requires |data| == 64 && w.Length == 16 && t < 80 && Rolling(w[..], data, t)
    requires Regs(a, b, c, d, e) == Rounds(r0, Schedule(data, 80), t)
    modifies w
    ensures Rolling(w[..], data, t + 1)
    ensures Regs(e', a, b', c, d) == Rounds(r0, Schedule(data, 80), t + 1)
  {
    hide Rotl, Ror32, Schedule, Rolling, Fn, Ft, Kt, Sum5, Added;
    var temp := Input(t, data, w);
    RollingStep(w[..], data, t);
    ghost var before := w[..];
    w[t % 16] := temp;
    assert w[..] == before[t % 16 := temp];
    FnIsFips(t, b, c, d);
    RorIsRol(b);
    SumOrder(Rol32(a, 5), Fn(t, b, c, d), e, Kt(t), temp);
    e' := Added(e, temp, Rol32(a, 5), Fn(t, b, c, d), Kt(t));
    b' := Ror32(b, 2);
  }

  /** Five rounds bring every register back to its name. */
  method FiveRounds(ghost r0: Regs, t: nat, data: seq<bv8>, w: array<bv32>,
                    a0: bv32, b0: bv32, c0: bv32, d0: bv32, e0: bv32)
    returns (a: bv32, b: bv32, c: bv32, d: bv32, e: bv32)
    requires |data| == 64 && w.Length == 16 && t + 5 <= 80 && Rolling(w[..], data, t)
    requires Regs(a0, b0, c0, d0, e0) == Rounds(r0, Schedule(data, 80), t)
    modifies w
    ensures Rolling(w[..], data, t + 5)
    ensures Regs(a, b, c, d, e) == Rounds(r0, Schedule(data, 80), t + 5)
  {
    hide Schedule, Rounds, Rolling;
    a, b, c, d, e := a0, b0, c0, d0, e0;
    b, e := ShaRound(r0, t, data, w, a, b, c, d, e);
    a, d := ShaRound(r0, t + 1, data, w, e, a, b, c, d);
    e, c := ShaRound(r0, t + 2, data, w, d, e, a, b, c);
    d, b := ShaRound(r0, t + 3, data, w, c, d, e, a, b);
    c, a := ShaRound(r0, t + 4, data, w, b, c, d, e, a);
  }

  method EightyRounds(ghost r0: Regs, data: seq<bv8>, w: array<bv32>,
                      a0: bv32, b0: bv32, c0: bv32, d0: bv32, e0: bv32)
    returns (a: bv32, b: bv32, c: bv32, d: bv32, e: bv32)
    requires |data| == 64 && w.Length == 16
    requires Regs(a0, b0, c0, d0, e0) == r0
    modifies w
    ensures Regs(a, b, c, d, e) == Rounds(r0, Schedule(data, 80), 80)
  {
    hide Schedule, Rounds, Rolling;
    a, b, c, d, e := a0, b0, c0, d0, e0;
    Start(r0, data, w[..]);
    a, b, c, d, e := FiveRounds(r0, 0, data, w, a, b, c, d, e);
    a, b, c, d, e := FiveRounds(r0, 5, data, w, a, b, c, d, e);
    a, b, c, d, e := FiveRounds(r0, 10, data, w, a, b, c, d, e);
    a, b, c, d, e := FiveRounds(r0, 15, data, w, a, b, c, d, e);
    a, b, c, d, e := FiveRounds(r0, 20, data, w, a, b, c, d, e);
    a, b, c, d, e := FiveRounds(r0, 25, data, w, a, b, c, d, e);
    a, b, c, d, e := FiveRounds(r0, 30, data, w, a, b, c, d, e);
    a, b, c, d, e := FiveRounds(r0, 35, data, w, a, b, c, d, e);
    a, b, c, d, e := FiveRounds(r0, 40, data, w, a, b, c, d, e);
    a, b, c, d, e := FiveRounds(r0, 45, data, w, a, b, c, d, e);
    a, b, c, d, e := FiveRounds(r0, 50, data, w, a, b, c, d, e);
    a, b, c, d, e := FiveRounds(r0, 55, data, w, a, b, c, d, e);
    a, b, c, d, e := FiveRounds(r0, 60, data, w, a, b, c, d, e);
    a, b, c, d, e := FiveRounds(r0, 65, data, w, a, b, c, d, e);
    a, b, c, d, e := FiveRounds(r0, 70, data, w, a, b, c, d, e);
    a, b, c, d, e := FiveRounds(r0, 75, data, w, a, b, c, d, e);
  }

  lemma Start(r0: Regs, data: seq<bv8>, w: seq<bv32>)
    requires |data| == 64 && |w| == 16
    ensures Rolling(w, data, 0) && Rounds(r0, Schedule(data, 80), 0) == r0
  {
  }

  /** sha_transform */
  method Transform(digest: array<bv32>, data: seq<bv8>, workspace: array<bv32>)
    requires digest.Length == 5 && |data| == 64 && workspace.Length == 16 && digest != workspace
    modifies digest, workspace
    ensures digest[..] == Compress(old(digest[..]), data)
  {
    hide Schedule, Rounds, F.Add;
    var a, b, c, d, e := digest[0], digest[1], digest[2], digest[3], digest[4];
    a, b, c, d, e := EightyRounds(Regs(a, b, c, d, e), data, workspace, a, b, c, d, e);
    digest[0], digest[1], digest[2] := F.Add(digest[0], a), F.Add(digest[1], b), F.Add(digest[2], c);
    digest[3], digest[4] := F.Add(digest[3], d), F.Add(digest[4], e);
  }
}
