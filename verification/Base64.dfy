/** Decoding base64 text, against the encoder of section 4 of RFC 4648. */
module Base64 {
  import opened Bytes

  // ----- RFC 4648, section 4 -----

  const PAD: nat := 64

  /** Table 1 of the RFC, and the padding character. */
  function CodeOf(v: nat): (c: char)
    requires v <= PAD
    ensures ValueOf(c) == Some(v)
  {
    if v < 26 then 'A' + v as char
    else if v < 52 then 'a' + (v - 26) as char
    else if v < 62 then '0' + (v - 52) as char
    else if v == 62 then '+'
    else if v == 63 then '/'
    else '='
  }

  /** strchr on the table: the place of a character, if it is in the table. */
  function ValueOf(c: char): (v: Option<nat>)
    ensures v.Some? ==> v.value <= PAD
  {
    if 'A' <= c <= 'Z' then Some((c - 'A') as nat)
    else if 'a' <= c <= 'z' then Some((c - 'a') as nat + 26)
    else if '0' <= c <= '9' then Some((c - '0') as nat + 52)
    else if c == '+' then Some(62)
    else if c == '/' then Some(63)
    else if c == '=' then Some(PAD)
    else None
  }

  /** A character has a value exactly when it is in the table, and then the one it has there. */
  lemma ValueOfIff(c: char)
    ensures ValueOf(c).Some? ==> CodeOf(ValueOf(c).value) == c
    ensures ValueOf(c) == None <==> forall v: nat :: v <= PAD ==> CodeOf(v) != c
  {
    assert ValueOf(c).Some? ==> CodeOf(ValueOf(c).value) == c;
  }

  /** Four groups of six bits from 24 bits. */
  function Quantum(b0: byte, b1: byte, b2: byte): (v: seq<nat>)
    ensures |v| == 4 && forall i :: 0 <= i < 4 ==> v[i] < 64
  {
    var g: nat := b0 * 65536 + b1 * 256 + b2;
    [g / 262144, g / 4096 % 64, g / 64 % 64, g % 64]
  }

  function Encoded(b: seq<byte>): (v: seq<nat>)
    ensures forall i :: 0 <= i < |v| ==> v[i] <= PAD
  {
    if |b| == 0 then []
    else if |b| == 1 then Quantum(b[0], 0, 0)[..2] + [PAD, PAD]
    else if |b| == 2 then Quantum(b[0], b[1], 0)[..3] + [PAD]
    else Quantum(b[0], b[1], b[2]) + Encoded(b[3..])
  }

  function Text(v: seq<nat>): (s: string)
    requires forall i :: 0 <= i < |v| ==> v[i] <= PAD
    ensures |s| == |v|
  {
    seq(|v|, i requires 0 <= i < |v| => CodeOf(v[i]))
  }

  function Encode(b: seq<byte>): string {
    Text(Encoded(b))
  }

  // ----- What the decoder computes -----

  /** The characters the decoder looks at: those of the table before the terminator. */
  function Kept(src: string): string {
    if src == [] || src[0] == '\0' then []
    else (if ValueOf(src[0]).Some? then [src[0]] else []) + Kept(src[1..])
  }

  function Values(src: string): (v: seq<nat>)
    ensures forall i :: 0 <= i < |v| ==> v[i] <= PAD
  {
    if src == [] || src[0] == '\0' then []
    else (if ValueOf(src[0]).Some? then [ValueOf(src[0]).value] else []) + Values(src[1..])
  }

  /** How many of the next four values come before a padding value. */
  function Count(v: seq<nat>, max: nat): (n: nat)
    ensures n <= max && n <= |v|
    ensures forall i :: 0 <= i < n ==> v[i] != PAD
    ensures n < max && n < |v| ==> v[n] == PAD
  {
    if max == 0 || v == [] || v[0] == PAD then 0 else 1 + Count(v[1..], max - 1)
  }

  /** The one to three bytes of two to four values; the shifted parts share no bit. */
  function Joined(v: seq<nat>): (d: seq<byte>)
    requires |v| <= 4
    ensures |d| == if |v| > 1 then |v| - 1 else 0
  {
    (if |v| > 1 then [(v[0] * 4 + v[1] / 16) % 256] else [])
    + (if |v| > 2 then [(v[1] % 16 * 16 + v[2] / 4) % 256] else [])
    + (if |v| > 3 then [(v[2] % 4 * 64 + v[3]) % 256] else [])
  }

  /** A group that the end of the text cuts short is dropped. */
  function Decoded(n: int, v: seq<nat>): seq<byte>
    decreases |v|
  {
    var c := Count(v, 4);
    if n <= 0 || (c < 4 && c == |v|) then []
    else Joined(v[..c]) + Decoded(n - (c - 1), v[if c < 4 then c + 1 else 4..])
  }

  lemma {:induction false} ValuesLength(src: string)
    ensures |Values(src)| <= |src|
  {
    hide ValueOf;
    if src != [] && src[0] != '\0' {
      ValuesLength(src[1..]);
    }
  }

  /** There are never more bytes than characters, so a buffer as long as the text is enough. */
  lemma {:induction false} DecodedLength(n: int, v: seq<nat>)
    ensures |Decoded(n, v)| <= |v|
    decreases |v|
  {
    hide Joined, Count;
    var c: int := Count(v, 4);
    if n > 0 && !(c < 4 && c == |v|) {
      DecodedLength(n - (c - 1), v[if c < 4 then c + 1 else 4..]);
    }
  }

  lemma {:induction false} ValuesStep(src: string, i: nat)
    requires i < |src| && src[i] != '\0'
    ensures Values(src[i..]) == (if ValueOf(src[i]).Some? then [ValueOf(src[i]).value] else []) + Values(src[i + 1..])
  {
    assert src[i..][1..] == src[i + 1..];
  }

  lemma ValuesEnd(src: string, i: nat)
    requires i <= |src| && (i == |src| || src[i] == '\0')
    ensures Values(src[i..]) == []
  {
  }

  /** The next character of the table, or none before the end. */
  method NextValue(src: string, i: nat) returns (v: Option<nat>, j: nat)
    requires i <= |src|
    ensures i <= j <= |src|
    ensures v.None? ==> Values(src[i..]) == []
    ensures v.Some? ==> i < j && v.value <= PAD && Values(src[i..]) == [v.value] + Values(src[j..])
  {
    hide Values, ValueOf;
    j := i;
    v := None;
    while v.None?
      invariant i <= j <= |src|
      invariant v.None? ==> Values(src[i..]) == Values(src[j..])
      invariant v.Some? ==> i < j && v.value <= PAD && Values(src[i..]) == [v.value] + Values(src[j..])
      decreases |src| - j
    {
      if j == |src| || src[j] == '\0' {
        ValuesEnd(src, j);
        return;
      }
      ValuesStep(src, j);
      v := ValueOf(src[j]);
      j := j + 1;
    }
  }

  /** Up to four 6-bit values; a padding character ends the group early. */
  method FetchGroup(src: string, i: nat) returns (sixBit: seq<nat>, padded: bool, ended: bool, j: nat)
    requires i <= |src|
    ensures i <= j <= |src| && |sixBit| <= 4 && PAD !in sixBit
    ensures ended ==> |sixBit| < 4 && Values(src[i..]) == sixBit
    ensures !ended ==> i < j && padded == (|sixBit| < 4)
    ensures !ended ==> Values(src[i..]) == sixBit + (if padded then [PAD] else []) + Values(src[j..])
  {
    hide Values;
    sixBit, padded, ended, j := [], false, false, i;
    while |sixBit| < 4 && !padded
      invariant i <= j <= |src| && |sixBit| <= 4 && (|sixBit| > 0 || padded ==> i < j)
      invariant PAD !in sixBit && (padded ==> |sixBit| < 4)
      invariant Values(src[i..]) == sixBit + (if padded then [PAD] else []) + Values(src[j..])
      decreases 4 - |sixBit|, !padded
    {
      var ch;
      ch, j := NextValue(src, j);
      if ch.None? {
        ended := true;
        return;
      }
      Appended(sixBit, ch.value, Values(src[j..]));
      if ch.value == PAD {
        padded := true;
      } else {
        sixBit := sixBit + [ch.value];
      }
    }
  }

  lemma Appended(a: seq<nat>, x: nat, b: seq<nat>)
    ensures a + [] + ([x] + b) == a + [x] + b == (a + [x]) + [] + b
    ensures a + [] + [] == a
  {
  }

  /** decode_base64: dst_len grows when a padding character starts a group, and still the loop ends. */
  method DecodeBase64(dstLen: int, src: string) returns (dst: seq<byte>, length: int)
    ensures dst == Decoded(dstLen, Values(src)) && length == |dst| <= |src|
  {
    hide Values, Joined, Decoded;
    ValuesLength(src);
    DecodedLength(dstLen, Values(src));
    dst, length := [], 0;
    var left, at := dstLen, 0;
    assert src[0..] == src;
    while left > 0
      invariant 0 <= at <= |src| && length == |dst|
      invariant Decoded(dstLen, Values(src)) == dst + Decoded(left, Values(src[at..]))
      decreases |src| - at
    {
      ghost var v := Values(src[at..]);
      var sixBit, padded, ended;
      sixBit, padded, ended, at := FetchGroup(src, at);
      if ended {
        DecodedEnd(left, v);
        return;
      }
      DecodedStep(left, v, sixBit, padded, Values(src[at..]));
      dst := dst + Joined(sixBit);
      left := left - (|sixBit| - 1);
      if |sixBit| != 0 {
        length := length + |sixBit| - 1;
      }
    }
    DecodedFull(left, Values(src[at..]));
  }

  lemma DecodedFull(n: int, v: seq<nat>)
    requires n <= 0
    ensures Decoded(n, v) == []
  {
  }

  lemma DecodedEnd(n: int, v: seq<nat>)
    requires |v| < 4 && PAD !in v
    ensures Decoded(n, v) == []
  {
    CountOf(v, v, 4);
  }

  lemma DecodedStep(n: int, v: seq<nat>, front: seq<nat>, padded: bool, rest: seq<nat>)
    requires n > 0 && |front| <= 4 && PAD !in front && padded == (|front| < 4)
    requires v == front + (if padded then [PAD] else []) + rest
    ensures Decoded(n, v) == Joined(front) + Decoded(n - (|front| - 1), rest)
  {
    hide Joined, Decoded, Count;
    CountOf(v, front, 4);
    DecodedUnfolds(n, v, |front|);
    assert v[..|front|] == front;
    assert v[if padded then |front| + 1 else 4..] == rest;
  }

  lemma DecodedUnfolds(n: int, v: seq<nat>, c: nat)
    requires n > 0 && c == Count(v, 4) && !(c < 4 && c == |v|)
    ensures Decoded(n, v) == Joined(v[..c]) + Decoded(n - (c - 1), v[if c < 4 then c + 1 else 4..])
  {
    hide Joined, Count;
  }

  lemma {:induction false} CountOf(v: seq<nat>, front: seq<nat>, max: nat)
    requires front <= v && PAD !in front && |front| <= max
    requires |front| < max && |front| < |v| ==> v[|front|] == PAD
    ensures Count(v, max) == |front|
    decreases max
  {
    if front != [] {
      CountOf(v[1..], front[1..], max - 1);
    }
  }

  // ----- Decoding inverts encoding -----

  /** The table characters of src up to its terminator are s; any others may stand in between. */
  ghost predicate Spells(src: string, s: string) {
    Kept(src) == s
  }

  /** Characters outside the table, and everything from the terminator on, do not matter. */
  lemma {:induction false} ValuesOfKept(src: string, v: seq<nat>)
    requires (forall i :: 0 <= i < |v| ==> v[i] <= PAD) && Spells(src, Text(v))
    ensures Values(src) == v
  {
    if src != [] && src[0] != '\0' {
      if ValueOf(src[0]).Some? {
        assert Text(v)[0] == src[0] && ValueOf(CodeOf(v[0])) == Some(v[0]);
        assert Text(v)[1..] == Text(v[1..]);
        ValuesOfKept(src[1..], v[1..]);
      } else {
        ValuesOfKept(src[1..], v);
      }
    } else {
      assert |Text(v)| == 0;
    }
  }

  lemma QuantumParts(b0: byte, b1: byte, b2: byte)
    ensures Quantum(b0, b1, b2) == [b0 / 4, b0 % 4 * 16 + b1 / 16, b1 % 16 * 4 + b2 / 64, b2 % 64]
  {
    var g: nat := b0 * 65536 + b1 * 256 + b2;
    var q0: nat, r0: nat, h1: nat, l1: nat := b0 / 4, b0 % 4, b1 / 16, b1 % 16;
    var h2: nat, l2: nat := b2 / 64, b2 % 64;
    DivModUnique(g, 262144, q0, r0 * 65536 + b1 * 256 + b2);
    DivModUnique(g, 4096, b0 * 16 + h1, l1 * 256 + b2);
    DivModUnique(b0 * 16 + h1, 64, q0, r0 * 16 + h1);
    DivModUnique(g, 64, b0 * 1024 + b1 * 4 + h2, l2);
    DivModUnique(b0 * 1024 + b1 * 4 + h2, 64, b0 * 16 + h1, l1 * 4 + h2);
  }

  lemma JoinedParts(b0: byte, b1: byte, b2: byte)
    ensures var v := [b0 / 4, b0 % 4 * 16 + b1 / 16, b1 % 16 * 4 + b2 / 64, b2 % 64];
            Joined(v) == [b0, b1, b2] && Joined(v[..3]) == [b0, b1] && Joined(v[..2]) == [b0]
  {
    var s1: nat, s2: nat := b0 % 4 * 16 + b1 / 16, b1 % 16 * 4 + b2 / 64;
    DivModUnique(s1, 16, b0 % 4, b1 / 16);
    DivModUnique(s2, 4, b1 % 16, b2 / 64);
  }

  lemma WholeQuantum(b0: byte, b1: byte, b2: byte)
    ensures Joined(Quantum(b0, b1, b2)) == [b0, b1, b2]
  {
    hide Quantum, Joined;
    QuantumParts(b0, b1, b2);
    JoinedParts(b0, b1, b2);
  }

  lemma PartQuantum(b0: byte, b1: byte)
    ensures Joined(Quantum(b0, b1, 0)[..3]) == [b0, b1] && Joined(Quantum(b0, 0, 0)[..2]) == [b0]
  {
    hide Quantum, Joined;
    QuantumParts(b0, b1, 0);
    JoinedParts(b0, b1, 0);
    QuantumParts(b0, 0, 0);
    JoinedParts(b0, 0, 0);
  }

  function Min(a: int, b: int): int { if a < b then a else b }

  /** The decoder writes whole groups until dst_len bytes are reached. */
  lemma {:induction false} DecodesEncoded(n: nat, b: seq<byte>)
    ensures Decoded(n, Encoded(b)) == b[..Min(|b|, RoundUp(n, 3))]
    decreases |b|
  {
    hide Joined, Quantum, Decoded;
    var v := Encoded(b);
    if n == 0 || |b| == 0 {
      if n == 0 { DecodedFull(n, v); } else { DecodedEnd(n, v); }
    } else if |b| == 1 {
      var front := Quantum(b[0], 0, 0)[..2];
      PartQuantum(b[0], 0);
      DecodedStep(n, v, front, true, [PAD]);
      TrailingPad(n - 1);
      assert b[..1] == b;
    } else if |b| == 2 {
      var front := Quantum(b[0], b[1], 0)[..3];
      PartQuantum(b[0], b[1]);
      DecodedStep(n, v, front, true, []);
      if n > 2 { DecodedEnd(n - 2, []); } else { DecodedFull(n - 2, []); }
      assert b[..2] == b;
    } else {
      WholeQuantum(b[0], b[1], b[2]);
      DecodedStep(n, v, Quantum(b[0], b[1], b[2]), false, Encoded(b[3..]));
      if n > 3 {
        DecodesEncoded(n - 3, b[3..]);
      } else {
        DecodedFull(n - 3, Encoded(b[3..]));
      }
      var k := Min(|b|, RoundUp(n, 3));
      assert [b[0], b[1], b[2]] + b[3..][..k - 3] == b[..k];
    }
  }

  /** A group that starts with a padding character gives nothing and lets dst_len grow by one. */
  lemma TrailingPad(n: nat)
    ensures Decoded(n, [PAD]) == []
  {
    hide Joined;
    if n > 0 {
      DecodedStep(n, [PAD], [], true, []);
      DecodedEnd(n + 1, []);
    }
  }

  /** decode_base64 gives back the bytes of any text that spells their encoding, exactly when the
      size it is given, rounded up to whole groups, is enough. */
  lemma RoundTrip(n: nat, src: string, b: seq<byte>)
    requires Spells(src, Encode(b))
    ensures Decoded(n, Values(src)) == b <==> |b| <= RoundUp(n, 3)
  {
    ValuesOfKept(src, Encoded(b));
    DecodesEncoded(n, b);
  }

  /** The encoding without its padding characters. */
  function Unpadded(b: seq<byte>): seq<nat> {
    if |b| == 0 then []
    else if |b| == 1 then Quantum(b[0], 0, 0)[..2]
    else if |b| == 2 then Quantum(b[0], b[1], 0)[..3]
    else Quantum(b[0], b[1], b[2]) + Unpadded(b[3..])
  }

  /** Without padding the decoder drops a last group of fewer than three bytes. */
  lemma {:induction false} PaddingIsNeeded(n: nat, b: seq<byte>)
    requires |b| <= n
    ensures Decoded(n, Unpadded(b)) == b <==> Multiple(|b|, 3)
    ensures |Decoded(n, Unpadded(b))| <= |b|
    decreases |b|
  {
    hide Joined, Quantum, Decoded;
    if |b| < 3 {
      if n == 0 { DecodedFull(n, Unpadded(b)); } else { DecodedEnd(n, Unpadded(b)); }
    } else {
      var rest := b[3..];
      WholeQuantum(b[0], b[1], b[2]);
      DecodedStep(n, Unpadded(b), Quantum(b[0], b[1], b[2]), false, Unpadded(rest));
      PaddingIsNeeded(n - 3, rest);
      assert b == [b[0], b[1], b[2]] + rest;
      var d := Decoded(n - 3, Unpadded(rest));
      assert ([b[0], b[1], b[2]] + d)[3..] == d;
    }
  }

  // ----- When the output stays within dst_len -----

  /** All that the values give, without a limit. */
  function Unlimited(v: seq<nat>): seq<byte>
    decreases |v|
  {
    var c := Count(v, 4);
    if c < 4 && c == |v| then [] else Joined(v[..c]) + Unlimited(v[if c < 4 then c + 1 else 4..])
  }

  /** Some groups at the front give n bytes in all, and none of them starts with padding. */
  predicate Boundary(v: seq<nat>, n: int): (b: bool)
    ensures b ==> n >= 0
    decreases |v|
  {
    n == 0 ||
    var c := Count(v, 4);
    && n > 0 && 0 < c && !(c < 4 && c == |v|)
    && Boundary(v[if c < 4 then c + 1 else 4..], n - (c - 1))
  }

  lemma UnlimitedUnfolds(v: seq<nat>, c: nat)
    requires c == Count(v, 4) && !(c < 4 && c == |v|)
    ensures |Unlimited(v)| == (if c > 1 then c - 1 else 0) + |Unlimited(v[if c < 4 then c + 1 else 4..])|
    ensures forall n :: Boundary(v, n) <==>
      n == 0 || (n > 0 && 0 < c && Boundary(v[if c < 4 then c + 1 else 4..], n - (c - 1)))
  {
    hide Count;
  }

  lemma NothingLeft(v: seq<nat>)
    requires Count(v, 4) < 4 && Count(v, 4) == |v|
    ensures Unlimited(v) == [] && forall n :: Decoded(n, v) == []
  {
  }

  lemma ZeroIsBoundary(v: seq<nat>)
    ensures Boundary(v, 0)
  {
  }

  /** The loop with left bytes to go writes at most room bytes, of which it has seen none go to
      padding when left is room, exactly when all bytes fit or a group ends at that place. */
  lemma {:induction false} WithinRoom(left: int, room: int, v: seq<nat>)
    requires 0 <= room <= left
    ensures |Decoded(left, v)| <= room <==> |Unlimited(v)| <= room || (left == room && Boundary(v, room))
    decreases |v|
  {
    hide Joined, Count, Decoded, Unlimited, Boundary;
    var c: int := Count(v, 4);
    if c < 4 && c == |v| {
      NothingLeft(v);
    } else if left == 0 {
      DecodedFull(left, v);
      ZeroIsBoundary(v);
    } else {
      var rest := v[if c < 4 then c + 1 else 4..];
      var o := if c > 1 then c - 1 else 0;
      DecodedUnfolds(left, v, c);
      UnlimitedUnfolds(v, c);
      if o <= room {
        WithinRoom(left - (c - 1), room - o, rest);
        ZeroIsBoundary(rest);
      }
    }
  }

  /** decode_base64 stays within dst_len bytes exactly when all bytes fit, or when groups that do
      not start with padding end right there; otherwise it writes up to a whole group more. */
  lemma WithinIff(n: nat, v: seq<nat>)
    ensures |Decoded(n, v)| <= n <==> |Unlimited(v)| <= n || Boundary(v, n)
  {
    WithinRoom(n, n, v);
  }

  /** For an encoding that means: the bytes fit, or dst_len is a whole number of groups. */
  lemma EncodedWithinIff(n: nat, b: seq<byte>)
    ensures |Decoded(n, Encoded(b))| <= n <==> |b| <= n || Multiple(n, 3)
  {
    DecodesEncoded(n, b);
    RoundUpFixed(n);
  }

  lemma {:induction false} RoundUpFixed(n: nat)
    ensures RoundUp(n, 3) == n <==> Multiple(n, 3)
  {
    if n >= 3 {
      RoundUpFixed(n - 3);
    }
  }
}
