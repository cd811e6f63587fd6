/** The raw format: header, checksums, optional digest, and the variables' bytes. */
module RawFormat {
  import opened Bytes
  import opened Layout
  import ByteBits
  import Crc32

  const HEADER_SIZE: nat := 16

  /** The digest of a state with an algo property: its length and the keyed function. */
  datatype Algo = NoAlgo | Algo(length: nat, mac: seq<byte> -> seq<byte>)

  ghost predicate AlgoOk(algo: Algo) {
    algo.Algo? ==> forall s :: |algo.mac(s)| == algo.length
  }

  function DigestLength(algo: Algo): nat {
    if algo.Algo? then algo.length else 0
  }

  function ToBits(s: seq<byte>): (r: seq<bv8>)
    ensures |r| == |s|
  {
    seq(|s|, i requires 0 <= i < |s| => s[i] as bv8)
  }

  function FromBits(s: seq<bv8>): (r: seq<byte>)
    ensures |r| == |s|
  {
    seq(|s|, i requires 0 <= i < |s| => s[i] as int)
  }

  /** A word as a number: a little-endian host keeps its lowest byte first. */
  function Unsigned(c: bv32): (n: nat)
    ensures n < TWO_32
  {
    FromLe32(FromBits(Crc32.LowFirst(c)))
  }

  /** crc32(0, s, len). */
  function Checksum(s: seq<byte>): (n: nat)
    ensures n < TWO_32
  {
    Unsigned(Crc32.Crc(0, ToBits(s)))
  }

  // ----- Verifying -----

  function DataLength(buf: seq<byte>): (n: nat)
    requires HEADER_SIZE <= |buf|
    ensures n < TWO_16
  {
    FromLe16(buf[6..8])
  }

  /** The length of header and data if the buffer is valid. */
  function Verify(algo: Algo, magic: nat, buf: seq<byte>): (r: Option<nat>)
    ensures r.Some? ==> HEADER_SIZE <= r.value && r.value + DigestLength(algo) <= |buf|
  {
    if |buf| < HEADER_SIZE then None
    else if Checksum(buf[..12]) != FromLe32(buf[12..16]) then None
    else if magic != 0 && magic != FromLe32(buf[..4]) then None
    else
      var n := HEADER_SIZE + DataLength(buf);
      if n + DigestLength(algo) > |buf| then None
      else if Checksum(buf[HEADER_SIZE..n]) != FromLe32(buf[8..12]) then None
      else if algo.Algo? && algo.mac(buf[..n]) != buf[n..n + algo.length] then None
      else Some(n)
  }

  /** Without a digest the check depends on no byte behind the length it returns. */
  lemma VerifyPrefix(magic: nat, s: seq<byte>, t: seq<byte>)
    requires Verify(NoAlgo, magic, s).Some? && s[..Verify(NoAlgo, magic, s).value] <= t
    ensures Verify(NoAlgo, magic, t) == Verify(NoAlgo, magic, s)
  {
    hide Checksum, FromLe32, FromLe16;
    var n := Verify(NoAlgo, magic, s).value;
    assert forall i :: 0 <= i < n ==> t[i] == s[..n][i] == s[i];
    assert t[..4] == s[..4] && t[6..8] == s[6..8] && t[8..12] == s[8..12];
    assert t[..12] == s[..12] && t[12..16] == s[12..16];
    assert t[HEADER_SIZE..n] == s[HEADER_SIZE..n];
  }

  /** With a digest, the part of a valid buffer that verifying reports is itself not valid: the
      digest behind it is missing. It is valid exactly in states without a digest. */
  lemma ReportedPartVerifies(algo: Algo, magic: nat, buf: seq<byte>)
    requires Verify(algo, magic, buf).Some?
    ensures Verify(algo, magic, buf[..Verify(algo, magic, buf).value]).Some?
            <==> DigestLength(algo) == 0
  {
    hide Checksum, FromLe32, FromLe16;
    var n := Verify(algo, magic, buf).value;
    var s := buf[..n];
    assert s[..4] == buf[..4] && s[6..8] == buf[6..8] && s[8..12] == buf[8..12];
    assert s[..12] == buf[..12] && s[12..16] == buf[12..16];
    assert s[HEADER_SIZE..n] == buf[HEADER_SIZE..n] && s[..n] == buf[..n];
    if DigestLength(algo) == 0 {
      assert s[n..n] == buf[n..n];
    }
  }

  // ----- Damage -----

  /** t differs from s, if at all, only inside the n bytes from k on. */
  predicate Within(s: seq<byte>, t: seq<byte>, k: nat, n: nat) {
    |s| == |t| && k + n <= |s| && forall i :: 0 <= i < |s| && !(k <= i < k + n) ==> s[i] == t[i]
  }

  lemma BitsRoundTrip(s: seq<byte>)
    ensures FromBits(ToBits(s)) == s
  {
    forall i | 0 <= i < |s|
      ensures FromBits(ToBits(s))[i] == s[i]
    {
      ByteBits.BitsOfNumber(s[i]);
    }
  }

  lemma NumberRoundTrip(s: seq<byte>)
    requires |s| == 4
    ensures Le32(FromLe32(s)) == s
  {
    var b0: int, b1: int, b2: int, b3: int := s[0], s[1], s[2], s[3];
    var n := FromLe32(s);
    var n1, n2 := b1 + 256 * (b2 + 256 * b3), b2 + 256 * b3;
    DivModUnique(n, 256, n1, b0);
    DivModUnique(n1, 256, n2, b1);
    DivModUnique(n2, 256, b3, b2);
  }

  /** A stored word is the checksum of the data in front of it exactly when the division of both
      leaves the residue. */
  lemma StoredChecksumIff(s: seq<byte>)
    requires |s| == HEADER_SIZE
    ensures Checksum(s[..12]) == FromLe32(s[12..16])
            <==> Crc32.Divide(Crc32.Xor(0, Crc32.ONES), ToBits(s)) == Crc32.RESIDUE
  {
    hide FromLe32, Le32, Crc32.Divide, Crc32.Xor, Crc32.Crc, Crc32.LowFirst, Crc32.Bits, FromBits;
    var w, own := s[12..16], Crc32.LowFirst(Crc32.Crc(0, ToBits(s[..12])));
    assert ToBits(s) == ToBits(s[..12]) + ToBits(w);
    Crc32.ResidueIff(ToBits(s[..12]), ToBits(w));
    BitsRoundTrip(w);
    NumberRoundTrip(w);
    NumberRoundTrip(FromBits(own));
    OwnBits(own);
  }

  lemma OwnBits(s: seq<bv8>)
    ensures ToBits(FromBits(s)) == s
  {
  }

  /** Damage inside four consecutive bytes shows in the checksum. */
  lemma ChecksumDetects(s: seq<byte>, t: seq<byte>, k: nat, n: nat)
    requires Within(s, t, k, n) && n <= 4
    requires Crc32.Crc(0, ToBits(s)) == Crc32.Crc(0, ToBits(t))
    ensures s == t
  {
    hide Crc32.Crc, FromBits;
    var a, b := ToBits(s), ToBits(t);
    if s != t {
      assert a[..k] == b[..k] && a[k + n..] == b[k + n..];
      BitsRoundTrip(s);
      BitsRoundTrip(t);
      Crc32.BurstDetected(0, a, b, k, n);
    }
  }

  /** The part of the damage that lies inside a slice. */
  lemma WithinSlice(s: seq<byte>, t: seq<byte>, k: nat, n: nat, i: nat, j: nat) returns (k': nat, n': nat)
    requires Within(s, t, k, n) && i <= j <= |s|
    ensures n' <= n && Within(s[i..j], t[i..j], k', n')
  {
    var lo := if k < i then i else if k > j then j else k;
    var hi := if k + n < i then i else if k + n > j then j else k + n;
    k', n' := lo - i, hi - lo;
  }

  /** Damage of at most four consecutive bytes anywhere in a valid buffer: if it touches the header
      or the data, the buffer is refused, with or without a digest, and whatever the header now says. */
  lemma DamageRefused(algo: Algo, magic: nat, s: seq<byte>, t: seq<byte>, k: nat, n: nat)
    requires Verify(algo, magic, s).Some? && Within(s, t, k, n) && n <= 4
    requires t[..Verify(algo, magic, s).value] != s[..Verify(algo, magic, s).value]
    ensures Verify(algo, magic, t) == None
  {
    if Verify(algo, magic, t).Some? {
      UndamagedParts(algo, magic, s, t, k, n);
    }
  }

  lemma UndamagedParts(algo: Algo, magic: nat, s: seq<byte>, t: seq<byte>, k: nat, n: nat)
    requires Verify(algo, magic, s).Some? && Verify(algo, magic, t).Some? && Within(s, t, k, n) && n <= 4
    ensures t[..Verify(algo, magic, s).value] == s[..Verify(algo, magic, s).value]
  {
    hide Verify;
    SameHeader(algo, magic, s, t, k, n);
    SameData(algo, magic, s, t, k, n);
    var end := Verify(algo, magic, s).value;
    assert s[..end] == s[..16] + s[16..end] && t[..end] == t[..16] + t[16..end];
  }

  lemma SameHeader(algo: Algo, magic: nat, s: seq<byte>, t: seq<byte>, k: nat, n: nat)
    requires Verify(algo, magic, s).Some? && Verify(algo, magic, t).Some? && Within(s, t, k, n) && n <= 4
    ensures s[..16] == t[..16]
  {
    hide Checksum, FromLe32, FromLe16, Crc32.Divide, Crc32.Bits, ToBits;
    var a, b := s[0..16], t[0..16];
    assert a[..12] == s[..12] && a[12..16] == s[12..16] && b[..12] == t[..12] && b[12..16] == t[12..16];
    StoredChecksumIff(a);
    StoredChecksumIff(b);
    var k', n' := WithinSlice(s, t, k, n, 0, 16);
    ChecksumDetects(a, b, k', n');
  }

  lemma SameData(algo: Algo, magic: nat, s: seq<byte>, t: seq<byte>, k: nat, n: nat)
    requires Verify(algo, magic, s).Some? && Verify(algo, magic, t).Some? && Within(s, t, k, n) && n <= 4
    requires s[..16] == t[..16]
    ensures var end := Verify(algo, magic, s).value; s[16..end] == t[16..end]
  {
    hide FromLe32, FromLe16, Crc32.Crc, Crc32.LowFirst, ToBits, FromBits, Unsigned;
    var end := Verify(algo, magic, s).value;
    var a, b := s[16..end], t[16..end];
    assert forall i :: 0 <= i < 16 ==> s[i] == s[..16][i] == t[..16][i] == t[i];
    assert s[6..8] == t[6..8] && s[8..12] == t[8..12];
    var k', n' := WithinSlice(s, t, k, n, 16, end);
    UnsignedInjective(Crc32.Crc(0, ToBits(a)), Crc32.Crc(0, ToBits(b)));
    ChecksumDetects(a, b, k', n');
  }

  lemma UnsignedInjective(c: bv32, d: bv32)
    ensures Unsigned(c) == Unsigned(d) ==> c == d
  {
    hide FromLe32, Le32, Crc32.LowFirst, FromBits;
    var x, y := Crc32.LowFirst(c), Crc32.LowFirst(d);
    NumberRoundTrip(FromBits(x));
    NumberRoundTrip(FromBits(y));
    OwnBits(x);
    OwnBits(y);
    Crc32.WordOfBytes(c);
    Crc32.WordOfBytes(d);
  }

  /** Without a digest such damage is refused exactly when it touches header or data; elsewhere it
      changes nothing. */
  lemma DamageRefusedIff(magic: nat, s: seq<byte>, t: seq<byte>, k: nat, n: nat)
    requires Verify(NoAlgo, magic, s).Some? && Within(s, t, k, n) && n <= 4
    ensures var end := Verify(NoAlgo, magic, s).value;
            Verify(NoAlgo, magic, t) == if t[..end] != s[..end] then None else Some(end)
  {
    hide Verify;
    var end := Verify(NoAlgo, magic, s).value;
    if t[..end] != s[..end] {
      DamageRefused(NoAlgo, magic, s, t, k, n);
    } else {
      VerifyPrefix(magic, s, t);
    }
  }

  /** A buffer is valid for no other magic number than its own, and for 0, which asks for none. */
  lemma OtherMagicRefused(algo: Algo, magic: nat, other: nat, s: seq<byte>)
    requires Verify(algo, magic, s).Some?
    ensures Verify(algo, other, s) == if other == 0 || other == FromLe32(s[..4]) then Verify(algo, magic, s) else None
  {
  }

  /** Another digest behind the same header and data is refused. */
  lemma OtherDigestRefused(algo: Algo, magic: nat, s: seq<byte>, t: seq<byte>)
    requires algo.Algo? && Verify(algo, magic, s).Some? && |t| == |s|
    requires var end := Verify(algo, magic, s).value;
             t[..end] == s[..end] && t[end..end + algo.length] != s[end..end + algo.length]
    ensures Verify(algo, magic, t) == None
  {
    hide Checksum, FromLe32, FromLe16;
    var end := Verify(algo, magic, s).value;
    assert forall i :: 0 <= i < end ==> s[i] == s[..end][i] == t[..end][i] == t[i];
    assert s[6..8] == t[6..8];
  }

  // ----- Packing -----

  function Header(magic: nat, dataLen: nat, data: seq<byte>): (h: seq<byte>)
    ensures |h| == HEADER_SIZE
  {
    var h := Le32(magic) + [0, 0] + Le16(dataLen) + Le32(Checksum(data));
    h + Le32(Checksum(h))
  }

  predicate Inside(vars: seq<Variable>, n: nat) {
    forall i :: 0 <= i < |vars| ==> vars[i].start + vars[i].size <= n && |vars[i].raw| == vars[i].size
  }

  /** Copying the first k variables into the data area. */
  function Placed(vars: seq<Variable>, n: nat, k: nat): (d: seq<byte>)
    requires k <= |vars| && Inside(vars, n)
    ensures |d| == n
    decreases k
  {
    if k == 0 then Zeros(n)
    else
      var d := Placed(vars, n, k - 1);
      var v := vars[k - 1];
      d[..v.start] + v.raw + d[v.start + v.size..]
  }

  /** The end of the last variable of the list. */
  function DataSize(vars: seq<Variable>): nat
    requires |vars| > 0
  {
    vars[|vars| - 1].start + vars[|vars| - 1].size
  }

  /** A layout as the start of the program accepts it. */
  predicate LayoutOk(vars: seq<Variable>) {
    |vars| > 0 && AllInRange(vars) && NeighboursFollow(vars)
  }

  lemma LayoutInside(vars: seq<Variable>)
    requires LayoutOk(vars)
    ensures Inside(vars, DataSize(vars))
  {
    NeighboursSuffice(vars);
    forall i | 0 <= i < |vars|
      ensures vars[i].start + vars[i].size <= DataSize(vars) && |vars[i].raw| == vars[i].size
    {
      assert InRange(vars[i]);
    }
  }

  function PackedBytes(algo: Algo, magic: nat, vars: seq<Variable>): (s: seq<byte>)
    requires LayoutOk(vars)
    ensures HEADER_SIZE + DataSize(vars) <= |s|
  {
    LayoutInside(vars);
    var data := Placed(vars, DataSize(vars), |vars|);
    var body := Header(magic, DataSize(vars), data) + data;
    if algo.Algo? then body + algo.mac(body) else body
  }

  /** Every variable's bytes stand at its place, undisturbed by later ones. */
  lemma {:induction false} PlacedHolds(vars: seq<Variable>, n: nat, k: nat, i: nat)
    requires i < k <= |vars| && Inside(vars, n) && PairwiseDisjoint(vars)
    ensures Holds(Placed(vars, n, k), vars[i].start, vars[i].raw)
    decreases k
  {
    var v, w := vars[k - 1], vars[i];
    if i < k - 1 {
      assert Disjoint(w, v);
      PlacedHolds(vars, n, k - 1, i);
    }
  }

  /** Bytes that belong to no variable are zero. */
  lemma {:induction false} PlacedZero(vars: seq<Variable>, n: nat, k: nat, j: nat)
    requires k <= |vars| && Inside(vars, n) && j < n
    requires forall i :: 0 <= i < k ==> !(vars[i].start <= j < vars[i].start + vars[i].size)
    ensures Placed(vars, n, k)[j] == 0
    decreases k
  {
    if k > 0 {
      PlacedZero(vars, n, k - 1, j);
    }
  }

  lemma HeaderFields(magic: nat, dataLen: nat, data: seq<byte>, s: seq<byte>)
    requires magic < TWO_32 && Header(magic, dataLen, data) <= s
    ensures FromLe32(s[..4]) == magic && DataLength(s) == dataLen % TWO_16
    ensures FromLe32(s[8..12]) == Checksum(data)
    ensures Checksum(s[..12]) == FromLe32(s[12..16])
  {
    hide Le32, FromLe32, Le16, FromLe16, Checksum;
    var h := Le32(magic) + [0, 0] + Le16(dataLen) + Le32(Checksum(data));
    var g := Header(magic, dataLen, data);
    assert forall i :: 0 <= i < HEADER_SIZE ==> s[i] == g[i];
    assert s[..4] == Le32(magic);
    assert s[6..8] == Le16(dataLen);
    assert s[8..12] == Le32(Checksum(data));
    assert s[..12] == h;
    assert s[12..16] == Le32(Checksum(h));
    Le32RoundTrip(magic);
    Le16RoundTrip(dataLen);
    Le32RoundTrip(Checksum(data));
    Le32RoundTrip(Checksum(h));
  }

  /** What packing wrote, verifying accepts, even when the medium pads the buffer. */
  lemma PackedVerifies(algo: Algo, magic: nat, vars: seq<Variable>, s: seq<byte>)
    requires LayoutOk(vars) && AlgoOk(algo) && magic < TWO_32 && DataSize(vars) < TWO_16
    requires PackedBytes(algo, magic, vars) <= s
    ensures Verify(algo, magic, s) == Some(HEADER_SIZE + DataSize(vars))
  {
    hide Le32, FromLe32, Le16, FromLe16, Checksum, Header, Placed, DataLength;
    LayoutInside(vars);
    var size := DataSize(vars);
    var data := Placed(vars, size, |vars|);
    var h := Header(magic, size, data);
    var p := PackedBytes(algo, magic, vars);
    var n := HEADER_SIZE + size;
    assert h <= s by {
      assert h == p[..HEADER_SIZE] == s[..HEADER_SIZE];
    }
    HeaderFields(magic, size, data, s);
    assert forall i :: 0 <= i < |p| ==> s[i] == p[i];
    assert s[HEADER_SIZE..n] == data;
    assert s[..n] == h + data;
    if algo.Algo? {
      assert |algo.mac(h + data)| == algo.length;
      assert s[n..n + algo.length] == algo.mac(h + data);
    }
  }

  // ----- Unpacking -----

  function UnpackOne(v: Variable, buf: seq<byte>): (r: Variable)
    requires HEADER_SIZE + DataLengthOf(buf) <= |buf|
  {
    if v.start + v.size > DataLengthOf(buf) then v
    else v.(raw := buf[HEADER_SIZE + v.start..HEADER_SIZE + v.start + v.size])
  }

  function DataLengthOf(buf: seq<byte>): nat {
    if |buf| < HEADER_SIZE then 0 else DataLength(buf)
  }

  /** Copy every variable that ends within the data; the others keep their bytes and fail the call. */
  function Unpack(vars: seq<Variable>, buf: seq<byte>): (r: (seq<Variable>, Option<Error>))
    requires HEADER_SIZE + DataLengthOf(buf) <= |buf|
    ensures |r.0| == |vars|
  {
    (seq(|vars|, i requires 0 <= i < |vars| => UnpackOne(vars[i], buf)),
     if exists i :: 0 <= i < |vars| && vars[i].start + vars[i].size > DataLengthOf(buf)
     then Some(ENOSPC) else None)
  }

  /** The same variables up to their values. */
  predicate SameShape(a: seq<Variable>, b: seq<Variable>) {
    |a| == |b| && forall i :: 0 <= i < |a| ==>
      a[i].name == b[i].name && a[i].start == b[i].start && a[i].size == b[i].size
  }

  /** Unpacking a verified copy restores every variable exactly when the data length fits the
      16 bits the header has for it; otherwise the call fails. */
  lemma UnpackRestores(algo: Algo, magic: nat, vars: seq<Variable>, into: seq<Variable>, s: seq<byte>)
    requires LayoutOk(vars) && magic < TWO_32 && SameShape(vars, into)
    requires PackedBytes(algo, magic, vars) <= s
    requires HEADER_SIZE + DataLengthOf(s) <= |s|
    ensures DataSize(vars) < TWO_16 ==> Unpack(into, s) == (vars, None)
    ensures DataSize(vars) >= TWO_16 ==> Unpack(into, s).1 == Some(ENOSPC)
  {
    hide DataLengthOf, PackedBytes, Placed, Holds;
    PackedData(algo, magic, vars, s);
    var last := |vars| - 1;
    if DataSize(vars) < TWO_16 {
      forall i | 0 <= i < |vars|
        ensures UnpackOne(into[i], s) == vars[i]
      {
        NeighboursSuffice(vars);
        LayoutInside(vars);
        PlacedHolds(vars, DataSize(vars), |vars|, i);
        HoldsIffSlice(Placed(vars, DataSize(vars), |vars|), vars[i].start, vars[i].raw);
        SliceOfSlice(s, HEADER_SIZE, HEADER_SIZE + DataSize(vars), vars[i].start, vars[i].start + vars[i].size);
      }
      assert Unpack(into, s).0 == vars;
      assert forall i :: 0 <= i < |vars| ==> into[i].start + into[i].size <= DataSize(vars) by {
        LayoutInside(vars);
      }
    } else {
      assert into[last].start + into[last].size > DataLengthOf(s);
    }
  }

  /** A packed buffer starts with the header and the data of its variables. */
  lemma PackedParts(algo: Algo, magic: nat, vars: seq<Variable>, s: seq<byte>)
    requires LayoutOk(vars) && PackedBytes(algo, magic, vars) <= s
    ensures Inside(vars, DataSize(vars)) && HEADER_SIZE + DataSize(vars) <= |s|
    ensures var data := Placed(vars, DataSize(vars), |vars|);
            && s[HEADER_SIZE..HEADER_SIZE + DataSize(vars)] == data
            && Header(magic, DataSize(vars), data) <= s
  {
    hide Checksum, Header, Placed, AllInRange, NeighboursFollow;
    LayoutInside(vars);
    var size := DataSize(vars);
    var data := Placed(vars, size, |vars|);
    var h := Header(magic, size, data);
    var p := PackedBytes(algo, magic, vars);
    var digest := if algo.Algo? then algo.mac(h + data) else [];
    assert p == h + data + digest;
    TwoParts(h, data, digest, s);
  }

  lemma TwoParts(h: seq<byte>, d: seq<byte>, rest: seq<byte>, s: seq<byte>)
    requires h + d + rest <= s
    ensures h <= s && |h| + |d| <= |s| && s[|h|..|h| + |d|] == d
  {
    var p := h + d + rest;
    assert forall i :: 0 <= i < |p| ==> s[i] == p[i];
  }

  /** The data of a packed buffer, and the length its header tells. */
  lemma PackedData(algo: Algo, magic: nat, vars: seq<Variable>, s: seq<byte>)
    requires LayoutOk(vars) && magic < TWO_32 && PackedBytes(algo, magic, vars) <= s
    ensures Inside(vars, DataSize(vars)) && HEADER_SIZE + DataSize(vars) <= |s|
    ensures s[HEADER_SIZE..HEADER_SIZE + DataSize(vars)] == Placed(vars, DataSize(vars), |vars|)
    ensures DataLengthOf(s) == DataSize(vars) % TWO_16
  {
    hide Checksum, Header, Placed, DataLength, AllInRange, NeighboursFollow, PackedBytes, FromLe32, Inside;
    PackedParts(algo, magic, vars, s);
    HeaderFields(magic, DataSize(vars), Placed(vars, DataSize(vars), |vars|), s);
  }
}
