/** Loading from read-only storage. The flag keeps direct buckets as they are, because their file is
    opened for reading only; flash is opened for writing, and the repair pass does not ask. */
module ReadOnly {
  import opened Bytes
  import opened C = CircularLog
  import opened B = Buckets
  import opened R = Register

  /** The outcomes of writes when direct buckets refuse them. */
  function Granted(bs: seq<Bucket>, wio: seq<WriteIo>): (r: seq<WriteIo>)
    requires |wio| == |bs|
    ensures |r| == |bs|
  {
    seq(|bs|, j requires 0 <= j < |bs| => if bs[j].medium.Direct? then Refused else wio[j])
  }

  /** A load writes to a bucket exactly when its copy is not the value returned or the medium asked
      for a rewrite; whether the storage is read-only does not matter. */
  lemma RewrittenIff(bs: seq<Bucket>, rio: seq<ReadIo>, v: seq<byte>, verify: Verifier, j: nat)
    requires j < |bs| == |rio| && AllValid(bs) && Fresh(bs) && Readable(bs, rio) && Stable(verify)
    requires Current(bs, verify) == Some(v)
    ensures j in Rewritten(bs, rio, verify) <==> !(View(bs[j], verify) == Some(v) && rio[j] == ReadOk)
  {
    hide View, Examine, UpToDate, B.Valid, Bounded, Remount, Stable, Packed;
    StableIsBounded(verify);
    LoadUses(bs, rio, verify);
    var u := FirstOk(R.Slots(bs, rio, verify), 0).value;
    ViewIsPacked(bs[u], verify);
    UpToDateIff(bs[j], rio[j], v, verify);
  }

  lemma UpToDateIff(b: Bucket, io: ReadIo, v: seq<byte>, verify: Verifier)
    requires B.Valid(b) && b == Remount(b) && Stable(verify) && Packed(verify, v) && 0 < |v|
    requires io == ReadOk || (io == ReadUnclean && b.medium.Circular?)
    ensures UpToDate(Examine(b, io, verify), v) <==> View(b, verify) == Some(v) && io == ReadOk
  {
    hide View, ReadBucket, Stable, Bounded, Packed;
    StableIsBounded(verify);
    var s := Examine(b, io, verify);
    ExamineFresh(b, io, verify);
    ExamineFlag(b, io, verify);
    if UpToDate(s, v) {
      SkippedHoldsPayload(b, io, v, verify);
    }
  }

  /** A load from read-only storage writes nothing exactly when all copies agree and read clean. */
  lemma NothingRewrittenIff(bs: seq<Bucket>, rio: seq<ReadIo>, v: seq<byte>, verify: Verifier)
    requires |bs| == |rio| && AllValid(bs) && Fresh(bs) && Readable(bs, rio) && Stable(verify)
    requires Current(bs, verify) == Some(v)
    ensures Rewritten(bs, rio, verify) == {}
            <==> Consistent(bs, Some(v), verify) && forall j :: 0 <= j < |bs| ==> rio[j] == ReadOk
  {
    hide View, B.Valid, Stable, Rewritten, Current, Readable, Fresh;
    forall j: nat | j < |bs|
      ensures j in Rewritten(bs, rio, verify) <==> !(View(bs[j], verify) == Some(v) && rio[j] == ReadOk)
    {
      RewrittenIff(bs, rio, v, verify, j);
    }
    RewrittenInRange(bs, rio, verify);
  }

  lemma RewrittenInRange(bs: seq<Bucket>, rio: seq<ReadIo>, verify: Verifier)
    requires |bs| == |rio| && AllValid(bs)
    ensures forall j <- Rewritten(bs, rio, verify) :: j < |bs|
  {
  }

  /** What a load from read-only storage makes of each medium: a direct one stays, a circular one
      with the value returned stays if it reads clean, and any other circular one is changed. */
  lemma ReadOnlyLoadMedium(bs: seq<Bucket>, rio: seq<ReadIo>, wio: seq<WriteIo>, v: seq<byte>, verify: Verifier, j: nat)
    requires j < |bs| == |rio| == |wio| && AllValid(bs) && Fresh(bs) && Readable(bs, rio) && Stable(verify)
    requires Current(bs, verify) == Some(v) && FitsAll(bs, |v|) && wio[j] == WriteOk
    ensures var before, after := bs[j].medium, Load(bs, rio, Granted(bs, wio), verify).0[j].medium;
            && (before.Direct? ==> after.Direct? && after.stride == before.stride)
            && (before.Circular? ==> after.Circular?)
            && (before.Circular? && View(bs[j], verify) == Some(v) && rio[j] == ReadOk ==>
                  after.circ.mem == before.circ.mem)
            && (before.Circular? && View(bs[j], verify) != Some(v) ==> after.circ.mem != before.circ.mem)
  {
    hide View, Examine, Refresh, UpToDate, B.Valid, Bounded, Remount, Stable, Packed, Fits;
    StableIsBounded(verify);
    LoadUses(bs, rio, verify);
    var s := R.Slots(bs, rio, verify);
    var u := FirstOk(s, 0).value;
    ViewIsPacked(bs[u], verify);
    UpToDateIff(bs[j], rio[j], v, verify);
    if bs[j].medium.Direct? {
      RefusedRefresh(bs[j], rio[j], v, verify);
    } else {
      CircularRefresh(bs[j], rio[j], v, verify);
    }
  }

  lemma RefusedRefresh(b: Bucket, io: ReadIo, v: seq<byte>, verify: Verifier)
    requires B.Valid(b) && b.medium.Direct?
    ensures var r := Refresh(Examine(b, io, verify), v, Refused);
            r.medium.Direct? && r.medium.stride == b.medium.stride
  {
    hide DirectRead, UpToDate;
  }

  lemma CircularRefresh(b: Bucket, io: ReadIo, v: seq<byte>, verify: Verifier)
    requires B.Valid(b) && b == Remount(b) && b.medium.Circular? && Stable(verify) && Packed(verify, v) && 0 < |v|
    requires Fits(b, |v|)
    ensures var s := Examine(b, io, verify);
            var r := Refresh(s, v, WriteOk);
            && r.medium.Circular?
            && (UpToDate(s, v) ==> r.medium.circ.mem == b.medium.circ.mem)
            && (View(b, verify) != Some(v) ==> r.medium.circ.mem != b.medium.circ.mem)
  {
    hide View, Stable, Packed, C.Read, C.Write, C.Mount, UpToDate;
    var r := Refresh(Examine(b, io, verify), v, WriteOk);
    FitsKept(b, io, v, WriteOk, verify, |v|);
    RefreshOutcome(b, io, v, WriteOk, verify);
    if r.medium.circ.mem == b.medium.circ.mem {
      ViewByMedium(r, b, verify);
    }
  }

  /** Of two buckets on read-only storage a load writes to the second one and changes its flash. */
  ghost predicate SecondOverwritten(first: Bucket, second: Bucket, verify: Verifier)
    requires B.Valid(first) && B.Valid(second) && second.medium.Circular?
  {
    var bs := RemountAll([first, second]);
    var after := Load(bs, [ReadOk, ReadOk], Granted(bs, [WriteOk, WriteOk]), verify).0[1];
    && 1 in Rewritten(bs, [ReadOk, ReadOk], verify)
    && after.medium.Circular? && after.medium.circ.mem != second.medium.circ.mem
  }

  /** A second copy on flash that differs from the first is overwritten. */
  lemma StaleIsOverwritten(first: Bucket, second: Bucket, v: seq<byte>, verify: Verifier)
    requires B.Valid(first) && B.Valid(second) && second.medium.Circular? && Stable(verify)
    requires View(first, verify) == Some(v) != View(second, verify) && Fits(first, |v|) && Fits(second, |v|)
    ensures SecondOverwritten(first, second, verify)
  {
    hide View, Remount, B.Valid, Stable, Fits, Load, Rewritten;
    var two := [first, second];
    var bs := RemountAll(two);
    RemountKeepsValue(two, verify);
    CurrentIs(two, 0, 0, verify);
    ViewUnchanged(second, [], ReadOk, verify);
    RemountMedium(second);
    FitsAllKept(two, [ReadOk, ReadOk], [WriteOk, WriteOk], [], verify, |v|);
    RewrittenIff(bs, [ReadOk, ReadOk], v, verify, 1);
    ReadOnlyLoadMedium(bs, [ReadOk, ReadOk], [WriteOk, WriteOk], v, verify, 1);
  }

  /** A block after p was written to it. */
  function Written(c: Circ, p: seq<byte>): (b: Bucket)
    requires Disciplined(c)
    ensures B.Valid(b) && b.medium.Circular?
  {
    Bucket(Circular(C.Write(c, p, WriteOk).0), false)
  }

  /** Against the promise that a read-only state is not repaired: on any block, a copy that was
      written before the one in the first bucket is overwritten. */
  lemma StaleCopyIsRewritten(c: Circ, older: seq<byte>, newer: seq<byte>, verify: Verifier)
    requires Disciplined(c) && Stable(verify) && Packed(verify, older) && Packed(verify, newer) && older != newer
    requires RecordLength(|older|, c.page) <= |c.mem| && RecordLength(|newer|, c.page) <= |c.mem|
    ensures SecondOverwritten(Written(c, newer), Written(c, older), verify)
  {
    hide View, Stable, Packed, C.Write, Written, SecondOverwritten, Disciplined;
    WrittenBucket(c, newer, verify);
    WrittenBucket(c, older, verify);
    StaleIsOverwritten(Written(c, newer), Written(c, older), newer, verify);
  }

  lemma WrittenBucket(c: Circ, p: seq<byte>, verify: Verifier)
    requires Disciplined(c) && Stable(verify) && Packed(verify, p) && RecordLength(|p|, c.page) <= |c.mem|
    ensures View(Written(c, p), verify) == Some(p)
    ensures forall n: nat :: RecordLength(n, c.page) <= |c.mem| ==> Fits(Written(c, p), n)
  {
    hide View, Stable, Packed, C.Write;
    ViewAfterWrite(Bucket(Circular(c), false), p, verify);
  }

  lemma RemountMedium(b: Bucket)
    requires B.Valid(b) && b.medium.Circular?
    ensures Remount(b).medium.Circular? && Remount(b).medium.circ.mem == b.medium.circ.mem
  {
  }
}
