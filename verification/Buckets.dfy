/** One copy of the state: a direct stride or a circular eraseblock behind one interface. */
module Buckets {
  import opened Bytes
  import opened C = CircularLog

  const DIRECT_MAGIC: nat := 0x2354fdf3

  /** What is read from a stride, if its meta word is intact. */
  function DirectRead(stride: seq<byte>, io: ReadIo): (r: Result<seq<byte>>)
    requires META_SIZE <= |stride|
  {
    if io != ReadOk then Err(EIO)
    else if FromLe32(stride[..4]) != DIRECT_MAGIC then Err(EINVAL)
    else if FromLe32(stride[4..8]) > |stride| - META_SIZE then Err(EINVAL)
    else Ok(stride[8..8 + FromLe32(stride[4..8])])
  }

  predicate DirectForeign(stride: seq<byte>)
    requires META_SIZE <= |stride|
  {
    var magic := FromLe32(stride[..4]);
    magic != DIRECT_MAGIC && magic != TWO_32 - 1 && magic != 0
  }

  /** Meta word and payload, as a direct write puts them at the start of the stride. */
  function DirectImage(buf: seq<byte>): (s: seq<byte>)
    ensures |s| == META_SIZE + |buf|
  {
    Le32(DIRECT_MAGIC) + Le32(|buf|) + buf
  }

  function DirectWrite(stride: seq<byte>, buf: seq<byte>, io: WriteIo): (r: (seq<byte>, Option<Error>))
    requires META_SIZE <= |stride|
    ensures |r.0| == |stride|
  {
    var n := META_SIZE + |buf|;
    if io.Refused? then (stride, Some(EIO))
    else if n > |stride| then (stride, Some(EINVAL))
    else if io.WriteOk? then (DirectImage(buf) + stride[n..], None)
    else (Overlay(io.left, stride[..n]) + stride[n..], Some(EIO))
  }

  /** The medium of one bucket. */
  datatype Medium = Direct(stride: seq<byte>, wrongMagic: bool) | Circular(circ: Circ)

  datatype Bucket = Bucket(medium: Medium, needsRefresh: bool)

  predicate Valid(b: Bucket) {
    match b.medium
    case Direct(stride, _) => META_SIZE <= |stride| < TWO_32
    case Circular(circ) => Disciplined(circ)
  }

  /** Creating the bucket anew on the same medium, as every start of the program does. */
  function Remount(b: Bucket): (r: Bucket)
    requires Valid(b)
    ensures Valid(r)
  {
    match b.medium
    case Direct(stride, _) => Bucket(Direct(stride, false), false)
    case Circular(circ) => Bucket(Circular(Mount(circ.(wrongMagic := false))), false)
  }

  function ReadBucket(b: Bucket, io: ReadIo): (r: (Bucket, Result<seq<byte>>))
    requires Valid(b)
    ensures Valid(r.0) && r.0.needsRefresh == b.needsRefresh
  {
    match b.medium
    case Direct(stride, wrong) =>
      (b.(medium := Direct(stride, wrong || (io == ReadOk && DirectForeign(stride)))), DirectRead(stride, io))
    case Circular(circ) =>
      var r := C.Read(circ, io);
      (b.(medium := Circular(r.0)), r.1)
  }

  function WriteBucket(b: Bucket, buf: seq<byte>, io: WriteIo): (r: (Bucket, Option<Error>))
    requires Valid(b)
    ensures Valid(r.0) && r.0.needsRefresh == b.needsRefresh
  {
    match b.medium
    case Direct(stride, wrong) =>
      var r := DirectWrite(stride, buf, io);
      (b.(medium := Direct(r.0, wrong)), r.1)
    case Circular(circ) =>
      var r := C.Write(circ, buf, io);
      (b.(medium := Circular(r.0)), r.1)
  }

  /** Whether a payload of this length can be written. */
  predicate Fits(b: Bucket, len: nat)
    requires Valid(b)
  {
    match b.medium
    case Direct(stride, _) => META_SIZE + len <= |stride|
    case Circular(circ) => RecordLength(len, circ.page) <= |circ.mem|
  }

  /** A data format's check of a buffer: the length it actually uses, if the buffer is valid. */
  type Verifier = seq<byte> -> Option<nat>

  /** A check that never claims more bytes than there are. */
  ghost predicate Bounded(verify: Verifier) {
    forall s :: verify(s).Some? ==> verify(s).value <= |s|
  }

  lemma StableIsBounded(verify: Verifier)
    requires Stable(verify)
    ensures Bounded(verify)
  {
  }

  /** A check that looks at no byte behind the length it returns. */
  ghost predicate Stable(verify: Verifier) {
    && (forall s :: verify(s).Some? ==> 0 < verify(s).value <= |s|)
    && (forall s, t :: verify(s).Some? && s[..verify(s).value] <= t ==> verify(t) == verify(s))
  }

  function Accepted(verify: Verifier, s: seq<byte>): Option<seq<byte>> {
    match verify(s)
    case Some(n) => if n <= |s| then Some(s[..n]) else None
    case None => None
  }

  /** The state the bucket's medium holds: what a fresh start reads and verifies there. */
  function View(b: Bucket, verify: Verifier): Option<seq<byte>>
    requires Valid(b)
  {
    match ReadBucket(Remount(b), ReadOk).1
    case Ok(s) => Accepted(verify, s)
    case Err(_) => None
  }

  /** A buffer the format accepts as a whole. */
  predicate Packed(verify: Verifier, buf: seq<byte>) {
    verify(buf) == Some(|buf|)
  }

  lemma AcceptedPrefix(verify: Verifier, buf: seq<byte>, s: seq<byte>)
    requires Stable(verify) && Packed(verify, buf) && buf <= s
    ensures Accepted(verify, s) == Some(buf)
  {
    assert buf[..|buf|] == buf == s[..|buf|];
    assert verify(s) == verify(buf);
  }

  lemma AcceptedIsPacked(verify: Verifier, s: seq<byte>)
    requires Stable(verify) && Accepted(verify, s).Some?
    ensures Packed(verify, Accepted(verify, s).value)
    ensures 0 < |Accepted(verify, s).value| <= |s|
  {
    var v := s[..verify(s).value];
    assert v <= v;
  }

  lemma ViewIsPacked(b: Bucket, verify: Verifier)
    requires Valid(b) && Stable(verify) && View(b, verify).Some?
    ensures Packed(verify, View(b, verify).value) && 0 < |View(b, verify).value|
  {
    AcceptedIsPacked(verify, ReadBucket(Remount(b), ReadOk).1.value);
  }

  lemma DirectWriteRead(stride: seq<byte>, buf: seq<byte>)
    requires META_SIZE + |buf| <= |stride| < TWO_32
    ensures DirectRead(DirectWrite(stride, buf, WriteOk).0, ReadOk) == Ok(buf)
  {
    hide Le32, FromLe32;
    var s := DirectWrite(stride, buf, WriteOk).0;
    Le32RoundTrip(DIRECT_MAGIC);
    Le32RoundTrip(|buf|);
    assert s[..4] == Le32(DIRECT_MAGIC);
    assert s[4..8] == Le32(|buf|);
    assert s[8..8 + |buf|] == buf;
  }

  /** A payload as the bucket's medium gives it back: flash pads it to whole pages. */
  function Delivered(b: Bucket, buf: seq<byte>): (s: seq<byte>)
    requires Valid(b)
    ensures buf <= s
  {
    match b.medium
    case Direct(_, _) => buf
    case Circular(circ) => Padded(buf, circ.page)
  }

  lemma ReadAfterWrite(b: Bucket, buf: seq<byte>)
    requires Valid(b) && Fits(b, |buf|)
    ensures WriteBucket(b, buf, WriteOk).1 == None
    ensures ReadBucket(Remount(WriteBucket(b, buf, WriteOk).0), ReadOk).1 == Ok(Delivered(b, buf))
  {
    hide C.Read, C.Write, C.Mount, DirectRead, DirectImage, Le32, FromLe32, Padded;
    match b.medium
    case Direct(stride, _) =>
      DirectWriteRead(stride, buf);
    case Circular(circ) =>
      WriteThenMount(circ, buf);
      StoredIsRemountedRead(C.Write(circ, buf, WriteOk).0.(wrongMagic := false));
  }

  /** A complete write of a packed buffer is what every later start finds. */
  lemma ViewAfterWrite(b: Bucket, buf: seq<byte>, verify: Verifier)
    requires Valid(b) && Fits(b, |buf|) && Stable(verify) && Packed(verify, buf)
    ensures WriteBucket(b, buf, WriteOk).1 == None
    ensures View(WriteBucket(b, buf, WriteOk).0, verify) == Some(buf)
  {
    hide ReadBucket, WriteBucket, Remount, Delivered;
    ReadAfterWrite(b, buf);
    AcceptedPrefix(verify, buf, Delivered(b, buf));
  }

  /** Reading, remounting and refused writes leave what the medium holds. */
  lemma ViewUnchanged(b: Bucket, buf: seq<byte>, io: ReadIo, verify: Verifier)
    requires Valid(b)
    ensures View(ReadBucket(b, io).0, verify) == View(b, verify)
    ensures View(Remount(b), verify) == View(b, verify)
    ensures View(WriteBucket(b, buf, Refused).0, verify) == View(b, verify)
  {
    match b.medium
    case Direct(stride, _) =>
    case Circular(circ) =>
      RefusedKeepsMedium(circ, buf);
      ViewByMedium(b, ReadBucket(b, io).0, verify);
      ViewByMedium(b, Remount(b), verify);
      ViewByMedium(b, WriteBucket(b, buf, Refused).0, verify);
  }

  /** A report that the block should be rewritten comes with the data all the same. */
  lemma UncleanDelivers(b: Bucket)
    requires Valid(b) && b.medium.Circular?
    ensures ReadBucket(b, ReadUnclean) == ReadBucket(b, ReadOk)
  {
  }

  lemma RefusedKeepsMedium(c: Circ, buf: seq<byte>)
    requires Disciplined(c)
    ensures C.Write(c, buf, Refused).0.mem == c.mem
  {
    var n := RecordLength(|buf|, c.page);
    if n <= |c.mem| && !Wraps(c, n) {
      assert c.mem[..c.writeArea] + Fill(n, 0xFF) + c.mem[c.writeArea + n..] == c.mem;
    }
  }

  /** For a circular bucket the value is what the block's log ends with. */
  lemma CircularView(b: Bucket, verify: Verifier)
    requires Valid(b) && b.medium.Circular?
    ensures View(b, verify) == match Stored(b.medium.circ.mem, b.medium.circ.page)
                               case Ok(s) => Accepted(verify, s)
                               case Err(_) => None
  {
    hide C.Read, C.Mount;
    StoredIsRemountedRead(b.medium.circ.(wrongMagic := false));
  }

  lemma ViewByMedium(a: Bucket, b: Bucket, verify: Verifier)
    requires Valid(a) && Valid(b) && a.medium.Circular? && b.medium.Circular?
    requires a.medium.circ.mem == b.medium.circ.mem && a.medium.circ.page == b.medium.circ.page
    ensures View(a, verify) == View(b, verify)
  {
    hide C.Read, C.Mount;
    StoredIsRemountedRead(a.medium.circ.(wrongMagic := false));
    StoredIsRemountedRead(b.medium.circ.(wrongMagic := false));
  }

  // ----- Errors -----

  /** Why a read fails: the medium; on flash, an empty block or a length that points nowhere; in place,
      another magic word or a length behind the stride. */
  lemma ReadErrors(b: Bucket, io: ReadIo)
    requires Valid(b) && ReadBucket(b, io).1.Err?
    ensures var e := ReadBucket(b, io).1.error;
            match b.medium
            case Direct(_, _) => if io == ReadOk then e == EINVAL else e == EIO
            case Circular(c) =>
              if c.writeArea == 0 then e == ENODATA
              else if c.lastLen != 0 && (c.lastLen > c.writeArea || !Multiple(c.lastLen, c.page)) then e == EINVAL
              else e == EIO && io == ReadFails
  {
  }

  /** Why a write fails: too long a payload, or else the medium. */
  lemma WriteErrors(b: Bucket, buf: seq<byte>, io: WriteIo)
    requires Valid(b) && WriteBucket(b, buf, io).1.Some?
    ensures var e := WriteBucket(b, buf, io).1.value;
            if Fits(b, |buf|) then e == EIO && io != WriteOk
            else if b.medium.Circular? then e == E2BIG
            else e == if io.Refused? then EIO else EINVAL
  {
    hide Append, Record, Programmed, DirectImage;
  }

  // ----- Foreign content -----

  predicate WrongMagic(b: Bucket) {
    match b.medium
    case Direct(_, wrong) => wrong
    case Circular(circ) => circ.wrongMagic
  }

  /** Whether a start and a read of the bucket find content of someone else. */
  predicate LooksForeign(b: Bucket)
    requires Valid(b)
  {
    WrongMagic(ReadBucket(Remount(b), ReadOk).0)
  }

  /** Every magic word is foreign but the right one, all zeros and all ones. */
  lemma DirectForeignIff(b: Bucket, m: nat)
    requires Valid(b) && b.medium.Direct? && m < TWO_32 && Le32(m) <= b.medium.stride
    ensures LooksForeign(b) <==> m !in {DIRECT_MAGIC, 0, TWO_32 - 1}
  {
    hide Le32, FromLe32, DirectRead;
    var s := b.medium.stride;
    Le32RoundTrip(m);
    assert s[..4] == Le32(m);
  }

  /** On flash the magic word is that of the last page in use; a block without one is not foreign. */
  lemma CircularForeignIff(b: Bucket, e: nat)
    requires Valid(b) && b.medium.Circular? && IsLogEnd(b.medium.circ.mem, b.medium.circ.page, e)
    ensures LooksForeign(b) <==>
      e > 0 && MetaMagic(b.medium.circ.mem, e) !in {CIRCULAR_MAGIC, 0, TWO_32 - 1}
  {
    hide MetaMagic, MetaLength, LogEnd;
    var c := b.medium.circ;
    LogEndUnique(c.mem, c.page, e, LogEnd(c.mem, c.page));
    ReadKeepsFlag(Mount(c.(wrongMagic := false)));
  }

  lemma ReadKeepsFlag(m: Circ)
    requires Disciplined(m)
    ensures C.Read(m, ReadOk).0.wrongMagic == m.wrongMagic
  {
  }

  /** What the program wrote completely never looks foreign to it, and neither do erased or zeroed media. */
  lemma NeverForeign(b: Bucket, buf: seq<byte>)
    requires Valid(b) && Fits(b, |buf|)
    ensures !LooksForeign(WriteBucket(b, buf, WriteOk).0)
    ensures b.medium.Direct? ==>
      forall x: byte :: x in {0, 0xFF} ==> !LooksForeign(b.(medium := Direct(Fill(|b.medium.stride|, x), false)))
    ensures b.medium.Circular? ==>
      !LooksForeign(b.(medium := Circular(b.medium.circ.(mem := Fill(|b.medium.circ.mem|, 0xFF)))))
  {
    hide C.Read, C.Write, C.Mount, Le32, FromLe32, Record, LogEnd, LooksForeign;
    match b.medium {
      case Direct(stride, _) =>
        var s := WriteBucket(b, buf, WriteOk).0.medium.stride;
        assert s[..4] == Le32(DIRECT_MAGIC);
        DirectForeignIff(WriteBucket(b, buf, WriteOk).0, DIRECT_MAGIC);
        WordOfFill(|stride|, 0);
        WordOfFill(|stride|, 0xFF);
        DirectForeignIff(b.(medium := Direct(Fill(|stride|, 0), false)), 0);
        DirectForeignIff(b.(medium := Direct(Fill(|stride|, 0xFF), false)), TWO_32 - 1);
      case Circular(circ) =>
        CompleteIsNotForeign(b, buf);
        var blank := circ.(mem := Fill(|circ.mem|, 0xFF));
        assert IsLogEnd(blank.mem, blank.page, 0);
        CircularForeignIff(b.(medium := Circular(blank)), 0);
    }
  }

  lemma WordOfFill(n: nat, x: byte)
    requires n >= 4 && x in {0, 0xFF}
    ensures Le32(if x == 0 then 0 else TWO_32 - 1) <= Fill(n, x)
  {
  }

  lemma CompleteIsNotForeign(b: Bucket, buf: seq<byte>)
    requires Valid(b) && b.medium.Circular? && Fits(b, |buf|)
    ensures !LooksForeign(WriteBucket(b, buf, WriteOk).0)
  {
    hide C.Read, C.Write, C.Mount, Record, LogEnd, LooksForeign, MetaMagic, MetaLength, Holds;
    var c := b.medium.circ;
    var w := C.Write(c, buf, WriteOk).0;
    WriteThenMount(c, buf);
    WritePlace(c, buf);
    RecordInBlock(w.mem, c.page, w.writeArea - RecordLength(|buf|, c.page), buf);
    LogEndAfterWrite(c, buf);
    CircularForeignIff(WriteBucket(b, buf, WriteOk).0, w.writeArea);
  }

  lemma LogEndAfterWrite(c: Circ, buf: seq<byte>)
    requires Disciplined(c) && RecordLength(|buf|, c.page) <= |c.mem|
    ensures var w := C.Write(c, buf, WriteOk).0; IsLogEnd(w.mem, w.page, w.writeArea)
  {
    hide C.Write, C.Read, Record, LogEnd;
    WriteThenMount(c, buf);
    MountIsLogEnd(C.Write(c, buf, WriteOk).0);
  }

  lemma MountIsLogEnd(c: Circ)
    requires Geometry(c.mem, c.page)
    ensures IsLogEnd(c.mem, c.page, Mount(c).writeArea)
  {
    hide MetaMagic, MetaLength;
  }
}
