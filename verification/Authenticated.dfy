/** States with a digest on redundant storage: what the repair pass of a load leaves of them. */
module Authenticated {
  import opened Bytes
  import opened C = CircularLog
  import opened B = Buckets
  import opened R = Register
  import opened Raw = RawFormat
  import opened Persistence

  /** A digest that is not all zeros cannot be taken for padding. */
  ghost predicate Telling(algo: Algo, v: seq<byte>) {
    algo.Algo? && AlgoOk(algo) && algo.length > 0 && algo.mac(v) != Zeros(algo.length)
  }

  /** Header and data without their digest do not verify, padded or not. */
  lemma BareFails(algo: Algo, magic: nat, s: seq<byte>, n: nat, padding: nat)
    requires Verify(algo, magic, s) == Some(n) && Telling(algo, s[..n])
    ensures Verify(algo, magic, s[..n] + Zeros(padding)) == None
  {
    hide Checksum, FromLe32, FromLe16, Fill;
    var v := s[..n];
    var t := v + Zeros(padding);
    if |t| >= n + algo.length {
      assert t[..n] == v;
      assert t[6..8] == s[6..8];
      assert t[n..n + algo.length] == Zeros(algo.length) by { ZerosSlice(padding, algo.length); }
    } else {
      assert t[6..8] == s[6..8];
    }
  }

  lemma ZerosSlice(n: nat, k: nat)
    requires k <= n
    ensures Zeros(n)[..k] == Zeros(k)
  {
  }

  /** A bucket written without the digest does not verify. */
  lemma RewrittenFails(b: Bucket, algo: Algo, magic: nat, s: seq<byte>)
    requires B.Valid(b) && Verify(algo, magic, s).Some? && Telling(algo, s[..Verify(algo, magic, s).value])
    requires Fits(b, Verify(algo, magic, s).value)
    ensures View(WriteBucket(b, s[..Verify(algo, magic, s).value], WriteOk).0, RawVerifier(algo, magic)) == None
  {
    hide ReadBucket, WriteBucket, Remount, Verify, Telling, RecordLength;
    var n := Verify(algo, magic, s).value;
    var v := s[..n];
    ReadAfterWrite(b, v);
    var d := Delivered(b, v);
    match b.medium {
      case Direct(_, _) =>
        BareFails(algo, magic, s, n, 0);
        assert v + Zeros(0) == d;
      case Circular(circ) =>
        BareFails(algo, magic, s, n, RecordLength(|v|, circ.page) - META_SIZE - |v|);
    }
  }

  /** What the repair of a load leaves in one bucket, when the payload lacks its digest. */
  lemma RepairOutcome(b: Bucket, io: ReadIo, algo: Algo, magic: nat, s: seq<byte>)
    requires B.Valid(b) && b == Remount(b) && (io == ReadOk || (io == ReadUnclean && b.medium.Circular?))
    requires Verify(algo, magic, s).Some? && Telling(algo, s[..Verify(algo, magic, s).value])
    requires Fits(b, Verify(algo, magic, s).value)
    ensures var v, verify := s[..Verify(algo, magic, s).value], RawVerifier(algo, magic);
            View(Refresh(Examine(b, io, verify), v, WriteOk), verify)
            == if View(b, verify) == Some(v) && io == ReadOk then Some(v) else None
  {
    hide View, WriteBucket, ReadBucket, Telling, Fits;
    var v, verify := s[..Verify(algo, magic, s).value], RawVerifier(algo, magic);
    var t := Examine(b, io, verify);
    RawIsBounded(algo, magic);
    ExamineFresh(b, io, verify);
    ExamineView(b, io, verify);
    ExamineFlag(b, io, verify);
    if !UpToDate(t, v) {
      FitsKept(b, io, v, WriteOk, verify, |v|);
      RewrittenFails(t.bucket, algo, magic, s);
      ViewIgnoresFlag(WriteBucket(t.bucket, v, WriteOk).0, verify);
    }
  }

  /** Bucket j has the value, with its digest, and reads clean. */
  ghost predicate Safe(bs: seq<Bucket>, rio: seq<ReadIo>, v: seq<byte>, verify: Verifier, j: nat)
    requires j < |bs| == |rio| && AllValid(bs)
  {
    View(bs[j], verify) == Some(v) && rio[j] == ReadOk
  }

  /** After a load whose rewrites all succeed, exactly those copies verify that had the value and
      read clean; all others have lost the digest. The value is lost exactly when there is none. */
  lemma AuthenticatedLoad(bs: seq<Bucket>, rio: seq<ReadIo>, wio: seq<WriteIo>, algo: Algo, magic: nat, v: seq<byte>)
    requires |bs| == |rio| == |wio| && AllValid(bs) && Fresh(bs) && Readable(bs, rio)
    requires forall j :: 0 <= j < |bs| ==> wio[j] == WriteOk
    requires Current(bs, RawVerifier(algo, magic)) == Some(v) && FitsAll(bs, |v|) && Telling(algo, v)
    ensures var verify := RawVerifier(algo, magic);
            var l := Load(bs, rio, wio, verify);
            && l.1 == Ok(v)
            && (forall j :: 0 <= j < |bs| ==>
                  View(l.0[j], verify) == if Safe(bs, rio, v, verify, j) then Some(v) else None)
            && Current(l.0, verify)
               == if exists j :: 0 <= j < |bs| && Safe(bs, rio, v, verify, j) then Some(v) else None
  {
    hide View, Examine, Refresh, B.Valid, Bounded, Remount, Fits, Verify, Telling;
    var verify := RawVerifier(algo, magic);
    RawIsBounded(algo, magic);
    LoadUses(bs, rio, verify);
    var slots := R.Slots(bs, rio, verify);
    var u := FirstOk(slots, 0).value;
    var after := Load(bs, rio, wio, verify).0;
    OkVerifies(bs[u], rio[u], algo, magic);
    forall j | 0 <= j < |bs|
      ensures View(after[j], verify) == if Safe(bs, rio, v, verify, j) then Some(v) else None
    {
      RepairOutcome(bs[j], rio[j], algo, magic, slots[u].buf);
    }
    if j :| 0 <= j < |bs| && Safe(bs, rio, v, verify, j) {
      CurrentIs(after, 0, j, verify);
    } else {
      CurrentNone(after, 0, verify);
    }
  }

  lemma OkVerifies(b: Bucket, io: ReadIo, algo: Algo, magic: nat)
    requires B.Valid(b)
    ensures var s := Examine(b, io, RawVerifier(algo, magic));
            s.ok ==> Verify(algo, magic, s.buf) == Some(s.len)
  {
    hide Verify, ReadBucket;
  }
}
