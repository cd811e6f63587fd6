/** The raw format on redundant storage: what a program that saves, restarts and loads relies on. */
module Persistence {
  import opened Bytes
  import opened Layout
  import opened C = CircularLog
  import opened B = Buckets
  import opened R = Register
  import opened Raw = RawFormat
  import opened Erase
  import Hmac
  import Sha2Stream

  /** format->verify of the raw format. */
  function RawVerifier(algo: Algo, magic: nat): Verifier {
    s => Verify(algo, magic, s)
  }

  lemma RawIsBounded(algo: Algo, magic: nat)
    ensures Bounded(RawVerifier(algo, magic))
  {
  }

  /** The raw format without a digest never looks behind the data, so padding does not matter. */
  lemma RawIsStable(magic: nat)
    ensures Stable(RawVerifier(NoAlgo, magic))
  {
    var verify := RawVerifier(NoAlgo, magic);
    forall s, t | verify(s).Some? && s[..verify(s).value] <= t
      ensures verify(t) == verify(s)
    {
      VerifyPrefix(magic, s, t);
    }
  }

  /** Storage in the raw format without a digest is an atomic register over every run. */
  lemma RawStorageIsAtomicRegister(bs: seq<Bucket>, ss: seq<Session>, magic: nat)
    requires 2 <= |bs| && AllValid(bs)
    requires var verify := RawVerifier(NoAlgo, magic);
             && (forall s :: s in ss ==> Sized(|bs|, s)) && AdmissibleRun(bs, ss, verify)
             && (Current(bs, verify).Some? ==> FitsAll(bs, |Current(bs, verify).value|))
    ensures var verify := RawVerifier(NoAlgo, magic);
            RegisterTrace({Current(bs, verify)}, Trace(bs, ss, verify))
  {
    hide AdmissibleRun, Trace, RegisterTrace, Current;
    RawIsStable(magic);
    StorageIsAtomicRegister(bs, ss, {Current(bs, RawVerifier(NoAlgo, magic))}, RawVerifier(NoAlgo, magic));
  }

  // ----- End to end -----

  lemma SavedView(b: Bucket, algo: Algo, magic: nat, vars: seq<Variable>)
    requires LayoutOk(vars) && AlgoOk(algo) && magic < TWO_32 && DataSize(vars) < TWO_16
    requires B.Valid(b) && Fits(b, |PackedBytes(algo, magic, vars)|)
    ensures View(WriteBucket(b, PackedBytes(algo, magic, vars), WriteOk).0, RawVerifier(algo, magic))
         == Some(PackedBytes(NoAlgo, magic, vars))
  {
    hide ReadBucket, WriteBucket, Remount, Delivered, Verify, PackedBytes, Fits, B.Valid;
    var p := PackedBytes(algo, magic, vars);
    ReadAfterWrite(b, p);
    PackedVerifies(algo, magic, vars, Delivered(b, p));
    PlainIsPrefix(algo, magic, vars);
    PrefixSlice(p, Delivered(b, p), 0, HEADER_SIZE + DataSize(vars));
  }

  /** With or without a digest, a packed buffer starts with the same header and data. */
  lemma PlainIsPrefix(algo: Algo, magic: nat, vars: seq<Variable>)
    requires LayoutOk(vars)
    ensures var n := HEADER_SIZE + DataSize(vars);
            PackedBytes(algo, magic, vars)[0..n] == PackedBytes(NoAlgo, magic, vars)
  {
  }

  /** Pack, save, restart, load, unpack: every variable has the value it was saved with, on direct
      and circular buckets, with and without a digest. */
  lemma SavedThenLoaded(bs: seq<Bucket>, sio: seq<WriteIo>, rio: seq<ReadIo>, lio: seq<WriteIo>,
                        algo: Algo, magic: nat, vars: seq<Variable>, into: seq<Variable>)
    requires 0 < |bs| == |sio| == |rio| == |lio| && AllValid(bs)
    requires forall j :: 0 <= j < |bs| ==> sio[j] == WriteOk
    requires LayoutOk(vars) && AlgoOk(algo) && magic < TWO_32 && DataSize(vars) < TWO_16
    requires SameShape(vars, into) && FitsAll(bs, |PackedBytes(algo, magic, vars)|)
    requires Readable(RemountAll(Save(bs, PackedBytes(algo, magic, vars), sio).0), rio)
    ensures var saved := Save(bs, PackedBytes(algo, magic, vars), sio);
            var l := Load(RemountAll(saved.0), rio, lio, RawVerifier(algo, magic)).1;
            && saved.1 == None
            && l == Ok(PackedBytes(NoAlgo, magic, vars))
            && HEADER_SIZE + DataLengthOf(l.value) <= |l.value|
            && Unpack(into, l.value) == (vars, None)
  {
    hide View, WriteBucket, B.Valid, Fits, Remount, PackedBytes, Unpack, DataLengthOf, Bounded;
    var p, v := PackedBytes(algo, magic, vars), RawVerifier(algo, magic);
    var saved := Save(bs, p, sio).0;
    forall j | 0 <= j < |bs|
      ensures View(saved[j], v) == Some(PackedBytes(NoAlgo, magic, vars))
      ensures WriteBucket(bs[j], p, sio[j]).1 == None
    {
      SavedView(bs[j], algo, magic, vars);
      ReadAfterWrite(bs[j], p);
    }
    ConsistentCurrent(saved, Some(PackedBytes(NoAlgo, magic, vars)), v);
    RemountKeepsValue(saved, v);
    RawIsBounded(algo, magic);
    LoadUses(RemountAll(saved), rio, v);
    LoadedUnpacks(magic, vars, into);
  }

  lemma LoadedUnpacks(magic: nat, vars: seq<Variable>, into: seq<Variable>)
    requires LayoutOk(vars) && magic < TWO_32 && DataSize(vars) < TWO_16 && SameShape(vars, into)
    ensures var p := PackedBytes(NoAlgo, magic, vars);
            && HEADER_SIZE + DataLengthOf(p) <= |p|
            && Unpack(into, p) == (vars, None)
  {
    hide Placed, Header;
    var p := PackedBytes(NoAlgo, magic, vars);
    PackedData(NoAlgo, magic, vars, p);
    UnpackRestores(NoAlgo, magic, vars, into, p);
  }

  // ----- Damage -----

  /** A copy in which up to four consecutive bytes of the stored buffer were damaged: a load
      skips it exactly when they belong to header or data, and otherwise sees no change. */
  lemma DamagedCopyIsSkipped(b: Bucket, d: Bucket, magic: nat, buf: seq<byte>, t: seq<byte>, k: nat, n: nat)
    requires B.Valid(b) && B.Valid(d)
    requires ReadBucket(Remount(b), ReadOk).1 == Ok(buf) && ReadBucket(Remount(d), ReadOk).1 == Ok(t)
    requires Within(buf, t, k, n) && n <= 4 && Verify(NoAlgo, magic, buf).Some?
    ensures var end := Verify(NoAlgo, magic, buf).value;
            View(d, RawVerifier(NoAlgo, magic)) == if t[..end] != buf[..end] then None
                                                   else View(b, RawVerifier(NoAlgo, magic))
  {
    hide ReadBucket, Remount, Verify, Within;
    DamageRefusedIff(magic, buf, t, k, n);
    RawIsBounded(NoAlgo, magic);
    assert |t| == |buf| by { SameLength(buf, t, k, n); }
  }

  lemma SameLength(s: seq<byte>, t: seq<byte>, k: nat, n: nat)
    requires Within(s, t, k, n)
    ensures |s| == |t|
  {
  }

  // ----- Digests and repair -----

  /** A direct bucket that a load repairs is valid afterwards exactly in states without a digest:
      the load passes on header and data, and the digest is lost. */
  lemma RepairKeepsValidity(b: Bucket, algo: Algo, magic: nat, buf: seq<byte>)
    requires B.Valid(b) && b.medium.Direct? && Verify(algo, magic, buf).Some?
    requires Fits(b, Verify(algo, magic, buf).value)
    ensures var payload := buf[..Verify(algo, magic, buf).value];
            View(WriteBucket(b, payload, WriteOk).0, RawVerifier(algo, magic)).Some?
            <==> DigestLength(algo) == 0
  {
    hide ReadBucket, WriteBucket, Remount, Verify;
    var payload := buf[..Verify(algo, magic, buf).value];
    ReadAfterWrite(b, payload);
    ReportedPartVerifies(algo, magic, buf);
    RawIsBounded(algo, magic);
  }

  // ----- Flash that tears -----

  /** A write of a one-page record whose page programs completely or not at all, and whose erase, if
      it stops half way, does no harm (HarmlessErase). */
  ghost predicate OnePage(b: Bucket, buf: seq<byte>, io: WriteIo, verify: Verifier)
    requires B.Valid(b)
  {
    b.medium.Circular? &&
    var c := b.medium.circ;
    && RecordLength(|buf|, c.page) == c.page
    && (match io
        case WriteFails(left) => io in {TornAfter(buf, c.page, 0), TornAfter(buf, c.page, c.page)}
        case EraseFails(left) => HarmlessErase(c.mem, Overlay(left, c.mem), c.page, verify)
        case _ => true)
  }

  /** Such a write leaves the old value, the new one or nothing. */
  lemma OnePageWriteIsClean(b: Bucket, buf: seq<byte>, io: WriteIo, verify: Verifier)
    requires B.Valid(b) && Stable(verify) && Packed(verify, buf) && OnePage(b, buf, io, verify)
    ensures CleanWrite(b, buf, io, verify)
  {
    hide C.Read, C.Mount, C.Write, Stable, TornAfter, Stored, HarmlessErase;
    var c := b.medium.circ;
    PageFits(c.mem, c.page);
    match io {
      case WriteOk =>
        ViewAfterWrite(b, buf, verify);
      case Refused =>
        ViewUnchanged(b, buf, ReadOk, verify);
      case EraseFails(left) =>
        if Wraps(c, c.page) {
          HarmlessEraseIsClean(b, buf, left, verify);
        } else {
          NoErase(c, buf, left);
          ViewAfterWrite(b, buf, verify);
        }
      case WriteFails(_) =>
        var k := if io == TornAfter(buf, c.page, 0) then 0 else c.page;
        OnePageTear(c, buf, k);
        CircularView(WriteBucket(b, buf, io).0, verify);
        CircularView(b, verify);
        AcceptedPrefix(verify, buf, Padded(buf, c.page));
    }
  }

  /** A write that only appends does not care what an erase would do. */
  lemma NoErase(c: Circ, buf: seq<byte>, left: seq<byte>)
    requires Disciplined(c) && !Wraps(c, RecordLength(|buf|, c.page))
    ensures C.Write(c, buf, EraseFails(left)) == C.Write(c, buf, WriteOk)
  {
  }

  /** A session on flash with one-page records: everything is readable, and power may be lost at any
      write of the repair pass or of the save, before or after its page was programmed, or in an
      erase that does no harm. */
  ghost predicate FlashSession(bs: seq<Bucket>, s: Session, verify: Verifier)
    requires AllValid(bs)
  {
    Sized(|bs|, s) &&
    var m := RemountAll(bs);
    var l := Loaded(bs, s, verify);
    && Readable(m, s.rio) && RepairCrash(m, s.rio, s.lio, s.lpos, verify)
    && (l.1.Ok? ==>
          forall j :: 0 <= j < |bs| ==> OnePage(Examine(m[j], s.rio[j], verify).bucket, l.1.value, s.lio[j], verify))
    && (s.save.Some? ==>
          && s.lpos > |bs|
          && Packed(verify, s.save.value.buf) && FitsAll(bs, |s.save.value.buf|)
          && (forall j :: 0 <= j < |bs| ==> OnePage(l.0[j], s.save.value.buf, s.save.value.sio[j], verify))
          && CrashAt(j => j, s.save.value.sio, s.save.value.spos))
  }

  lemma FlashIsAdmissible(bs: seq<Bucket>, s: Session, verify: Verifier)
    requires AllValid(bs) && Stable(verify) && FlashSession(bs, s, verify)
    ensures Admissible(bs, s, verify)
  {
    hide B.Valid, Stable, Packed, Examine, Refresh, CleanWrite, OnePage, Fits, Remount, RepairCrash, Readable;
    var m := RemountAll(bs);
    var l := Loaded(bs, s, verify);
    StableIsBounded(verify);
    if l.1.Ok? {
      LoadedIsPacked(m, s.rio, s.lio, verify);
      forall j | 0 <= j < |bs|
        ensures CleanWrite(Examine(m[j], s.rio[j], verify).bucket, l.1.value, s.lio[j], verify)
      {
        OnePageWriteIsClean(Examine(m[j], s.rio[j], verify).bucket, l.1.value, s.lio[j], verify);
      }
    }
    if s.save.Some? {
      var w := s.save.value;
      forall j | 0 <= j < |bs|
        ensures CleanWrite(l.0[j], w.buf, w.sio[j], verify)
      {
        OnePageWriteIsClean(l.0[j], w.buf, w.sio[j], verify);
      }
    }
  }

  lemma LoadedIsPacked(m: seq<Bucket>, rio: seq<ReadIo>, lio: seq<WriteIo>, verify: Verifier)
    requires AllValid(m) && |rio| == |lio| == |m| && Stable(verify)
    requires Load(m, rio, lio, verify).1.Ok?
    ensures Packed(verify, Load(m, rio, lio, verify).1.value)
  {
    hide B.Valid, ReadBucket, View, Refresh;
    StableIsBounded(verify);
    var slots := R.Slots(m, rio, verify);
    var u := FirstOk(slots, 0).value;
    ExamineView(m[u], rio[u], verify);
    AcceptedIsPacked(verify, slots[u].buf);
  }

  ghost predicate FlashRun(bs: seq<Bucket>, ss: seq<Session>, verify: Verifier)
    requires AllValid(bs)
    decreases |ss|
  {
    |ss| == 0 || (FlashSession(bs, ss[0], verify) && FlashRun(Play(bs, ss[0], verify), ss[1..], verify))
  }

  lemma {:induction false} FlashRunIsAdmissible(bs: seq<Bucket>, ss: seq<Session>, verify: Verifier)
    requires AllValid(bs) && Stable(verify) && FlashRun(bs, ss, verify)
    ensures AdmissibleRun(bs, ss, verify)
    decreases |ss|
  {
    hide B.Valid, Stable, Admissible;
    if |ss| > 0 {
      FlashIsAdmissible(bs, ss[0], verify);
      FlashRunIsAdmissible(Play(bs, ss[0], verify), ss[1..], verify);
    }
  }

  /** Flash with one-page records and atomic page programming is an atomic register over every run in
      which no erase stops where it would uncover an older record with another value; torn programming
      needs no assumption. */
  lemma FlashIsAtomicRegister(bs: seq<Bucket>, ss: seq<Session>, verify: Verifier)
    requires 2 <= |bs| && AllValid(bs) && Stable(verify) && FlashRun(bs, ss, verify)
    requires forall s :: s in ss ==> Sized(|bs|, s)
    requires Current(bs, verify).Some? ==> FitsAll(bs, |Current(bs, verify).value|)
    ensures RegisterTrace({Current(bs, verify)}, Trace(bs, ss, verify))
  {
    hide AdmissibleRun, FlashRun, Trace, RegisterTrace, Current, Stable, B.Valid;
    FlashRunIsAdmissible(bs, ss, verify);
    StorageIsAtomicRegister(bs, ss, {Current(bs, verify)}, verify);
  }

  lemma PageFits(mem: seq<byte>, page: nat)
    requires Geometry(mem, page)
    ensures page <= |mem|
  {
  }

  /** A block that was erased, then got the record of oldest and then that of newer. */
  function TwoRecords(c: Circ, oldest: seq<byte>, newer: seq<byte>): Circ
    requires Disciplined(c)
  {
    C.Write(C.Write(c, oldest, WriteOk).0, newer, WriteOk).0
  }

  ghost predicate WroteTwo(c: Circ, oldest: seq<byte>, newer: seq<byte>)
    requires Disciplined(c)
  {
    && Wraps(c, RecordLength(|oldest|, c.page)) && RecordLength(|oldest|, c.page) <= |c.mem|
    && RecordLength(|newer|, c.page) <= |c.mem|
    && !Wraps(C.Write(c, oldest, WriteOk).0, RecordLength(|newer|, c.page))
  }

  lemma OldestInFront(c: Circ, oldest: seq<byte>, newer: seq<byte>)
    requires Disciplined(c) && WroteTwo(c, oldest, newer)
    ensures var d := TwoRecords(c, oldest, newer); Disciplined(d) && oldest <= d.mem[..d.writeArea]
  {
    hide C.Write, Record, Blank;
    var c1, n := C.Write(c, oldest, WriteOk).0, RecordLength(|oldest|, c.page);
    var d := TwoRecords(c, oldest, newer);
    WritePlace(c, oldest);
    WriteAreaAfter(c, oldest);
    AppendKeepsPrefix(c1, newer);
    HoldsSlice(c1.mem, 0, Record(oldest, c.page), 0, |oldest|);
    RecordStart(oldest, c.page);
    PrefixSlice(oldest, oldest, 0, |oldest|);
    assert d.mem[..d.writeArea][..|oldest|] == d.mem[..c1.writeArea][..|oldest|] == c1.mem[..|oldest|];
  }

  lemma RecordStart(buf: seq<byte>, page: nat)
    requires page > 0
    ensures |buf| <= |Record(buf, page)| && Record(buf, page)[0..|buf|] == buf
  {
  }

  /** Records of several pages break the register: a block holds two records, and the save of a
      third one tears in the first bucket. The next load returns the oldest record, which is neither
      the value before the save nor the interrupted one. */
  lemma MultiPageTearReturnsOldest(bs: seq<Bucket>, c: Circ, oldest: seq<byte>, newer: seq<byte>, buf: seq<byte>,
                                   k: nat, sio: seq<WriteIo>, verify: Verifier)
    requires 0 < |bs| == |sio| && AllValid(bs) && Stable(verify)
    requires Packed(verify, oldest) && Packed(verify, newer) && oldest != newer && oldest != buf
    requires Disciplined(c) && WroteTwo(c, oldest, newer)
    requires bs[0].medium == Circular(TwoRecords(c, oldest, newer))
    requires var d := TwoRecords(c, oldest, newer);
             var n := RecordLength(|buf|, d.page);
             && n <= |d.mem| && !Wraps(d, n) && TearPoint(d, buf, k)
             && k <= n && sio[0] == TornAfter(buf, d.page, k)
    ensures Current(bs, verify) == Some(newer)
    ensures Current(Save(bs, buf, sio).0, verify) == Some(oldest)
    ensures Current(Save(bs, buf, sio).0, verify) !in {Current(bs, verify), Some(buf)}
  {
    hide C.Read, C.Mount, C.Write, Stable, TornAfter, Stored, TearPoint, View;
    var d := TwoRecords(c, oldest, newer);
    TornAtPlainPage(d, buf, k);
    OldestInFront(c, oldest, newer);
    var w := C.Write(d, buf, sio[0]).0;
    var s := w.mem[..d.writeArea + k];
    assert oldest <= s by {
      PrefixSlice(oldest, d.mem[..d.writeArea], 0, |oldest|);
      assert w.mem[..d.writeArea][..|oldest|] == s[..|oldest|];
    }
    AcceptedPrefix(verify, oldest, s);
    CircularView(Save(bs, buf, sio).0[0], verify);
    CurrentIs(Save(bs, buf, sio).0, 0, 0, verify);
    NewerIsCurrent(bs, c, oldest, newer, verify);
  }

  lemma NewerIsCurrent(bs: seq<Bucket>, c: Circ, oldest: seq<byte>, newer: seq<byte>, verify: Verifier)
    requires 0 < |bs| && AllValid(bs) && Stable(verify) && Packed(verify, newer)
    requires Disciplined(c) && WroteTwo(c, oldest, newer)
    requires bs[0].medium == Circular(TwoRecords(c, oldest, newer))
    ensures Current(bs, verify) == Some(newer)
  {
    hide C.Read, C.Mount, C.Write, Stable, Stored, View;
    var b := Bucket(Circular(C.Write(c, oldest, WriteOk).0), bs[0].needsRefresh);
    ViewAfterWrite(b, newer, verify);
    assert WriteBucket(b, newer, WriteOk).0 == bs[0];
    CurrentIs(bs, 0, 0, verify);
  }

  /** An erase that spares just one page of the block makes the next load return the record there,
      however old it is. */
  lemma InterruptedEraseReturns(bs: seq<Bucket>, f: nat, older: seq<byte>, buf: seq<byte>, sio: seq<WriteIo>,
                                verify: Verifier)
    requires 0 < |bs| == |sio| && AllValid(bs) && bs[0].medium.Circular? && Fits(bs[0], |buf|)
    requires var c := bs[0].medium.circ;
             && Wraps(c, RecordLength(|buf|, c.page))
             && Used(c.mem, c.page, f) && RecordPage(c.mem, c.page, f)
             && Accepted(verify, PageValue(c.mem, c.page, f)) == Some(older)
             && sio[0] == EraseFails(OnlyPage(c.mem, c.page, f))
    ensures var c := bs[0].medium.circ; PageWise(c.mem, OnlyPage(c.mem, c.page, f), c.page)
    ensures Current(Save(bs, buf, sio).0, verify) == Some(older)
  {
    hide C.Write, Stored, View, LogEnd, PageValue, RecordPage, Accepted;
    var c := bs[0].medium.circ;
    var m := OnlyPage(c.mem, c.page, f);
    assert Overlay(m, c.mem) == m;
    ErasedView(bs[0], buf, m, verify);
    OnlyPageLeft(c.mem, c.page, f);
    assert m[f - c.page..f] == c.mem[f - c.page..f];
    SamePage(c.mem, m, c.page, f);
    StoredInPage(m, c.page, f);
    CurrentIs(Save(bs, buf, sio).0, 0, 0, verify);
  }

  /** So one-page records break the register when an erase stops at the wrong place: a block is full,
      and the erase that the next save begins with spares its first record alone. The next load returns
      that record, which is neither the value before the save nor the interrupted one. */
  lemma InterruptedEraseReturnsOldest(bs: seq<Bucket>, c: Circ, oldest: seq<byte>, newer: seq<byte>, buf: seq<byte>,
                                      sio: seq<WriteIo>, verify: Verifier)
    requires 0 < |bs| == |sio| && AllValid(bs) && Stable(verify)
    requires Packed(verify, oldest) && Packed(verify, newer) && oldest != newer && oldest != buf
    requires Disciplined(c) && WroteTwo(c, oldest, newer) && RecordLength(|oldest|, c.page) == c.page
    requires RecordLength(|buf|, c.page) == c.page
    requires var d := TwoRecords(c, oldest, newer);
             && bs[0].medium == Circular(d) && Wraps(d, RecordLength(|buf|, d.page))
             && sio[0] == EraseFails(OnlyPage(d.mem, d.page, d.page))
    ensures var d := TwoRecords(c, oldest, newer); PageWise(d.mem, OnlyPage(d.mem, d.page, d.page), d.page)
    ensures Current(bs, verify) == Some(newer)
    ensures Current(Save(bs, buf, sio).0, verify) == Some(oldest)
    ensures Current(Save(bs, buf, sio).0, verify) !in {Current(bs, verify), Some(buf)}
  {
    hide C.Write, Stable, View, LogEnd, PageValue, RecordPage, PageWise;
    OldestPage(c, oldest, newer);
    AcceptedPrefix(verify, oldest, Padded(oldest, c.page));
    InterruptedEraseReturns(bs, c.page, oldest, buf, sio, verify);
    NewerIsCurrent(bs, c, oldest, newer, verify);
  }

  lemma OldestPage(c: Circ, oldest: seq<byte>, newer: seq<byte>)
    requires Disciplined(c) && WroteTwo(c, oldest, newer) && RecordLength(|oldest|, c.page) == c.page
    ensures var d := TwoRecords(c, oldest, newer);
            && d.page == c.page && Used(d.mem, d.page, d.page) && RecordPage(d.mem, d.page, d.page)
            && PageValue(d.mem, d.page, d.page) == Padded(oldest, c.page)
  {
    hide C.Write, Record, MetaMagic, MetaLength;
    var d := TwoRecords(c, oldest, newer);
    var c1, p := C.Write(c, oldest, WriteOk).0, c.page;
    var r := Record(oldest, p);
    WritePlace(c, oldest);
    WriteAreaAfter(c, oldest);
    AppendKeepsPrefix(c1, newer);
    assert d.mem[..p] == c1.mem[..p];
    assert Holds(d.mem, 0, r);
    RecordEnd(oldest, p);
    var i :| 0 <= i < p && r[i] != 0xFF;
    assert d.mem[0 + i] == r[i];
    RecordInBlock(d.mem, p, 0, oldest);
  }

  // ----- The digest of an authenticated state -----

  /** "hmac(sha256)" or "hmac(sha224)" with a key of at most one block. */
  function HmacAlgo(truncated: bool, key: seq<bv8>): Algo
    requires |key| <= Hmac.PAD_LENGTH
  {
    Algo.Algo(Sha2Stream.HashLength(truncated), s => FromBits(Hmac.Mac(truncated, key, ToBits(s))))
  }

  lemma HmacAlgoOk(truncated: bool, key: seq<bv8>)
    requires |key| <= Hmac.PAD_LENGTH
    ensures AlgoOk(HmacAlgo(truncated, key))
  {
  }
}
