/** Redundant storage as a register: loading, repairing and saving over all buckets, and what
    whole runs with crashes make of it. */
module Register {
  import opened Bytes
  import opened C = CircularLog
  import opened B = Buckets

  // ----- The operations -----

  /** A bucket after the loading pass looked at it, with the buffer it delivered. */
  datatype Slot = Slot(bucket: Bucket, buf: seq<byte>, len: nat, ok: bool)

  /** Read one bucket and verify it; an unreadable bucket delivers no buffer. */
  function Examine(b: Bucket, io: ReadIo, verify: Verifier): (r: Slot)
    requires B.Valid(b)
    ensures B.Valid(r.bucket)
    ensures r.len <= |r.buf|
  {
    var (b', s) := ReadBucket(b, io);
    if s.Err? then Slot(b', [], 0, false)
    else
      var b'' := if io == ReadUnclean then b'.(needsRefresh := true) else b';
      match verify(s.value)
      case Some(n) => if n <= |s.value| then Slot(b'', s.value, n, true) else Slot(b'', s.value, |s.value|, false)
      case None => Slot(b'', s.value, |s.value|, false)
  }

  predicate UpToDate(s: Slot, payload: seq<byte>)
    requires s.len <= |s.buf|
  {
    !s.bucket.needsRefresh && s.len == |payload| && s.buf[..s.len] == payload
  }

  /** Rewrite a bucket that asked for it or that does not hold the payload in use. */
  function Refresh(s: Slot, payload: seq<byte>, io: WriteIo): (r: Bucket)
    requires B.Valid(s.bucket) && s.len <= |s.buf|
    ensures B.Valid(r)
  {
    if UpToDate(s, payload) then s.bucket
    else
      var (b, err) := WriteBucket(s.bucket, payload, io);
      if err == None then b.(needsRefresh := false) else b
  }

  /** Index of the first slot, from i on, that verified. */
  function FirstOk(slots: seq<Slot>, i: nat): (r: Option<nat>)
    requires i <= |slots|
    ensures r.Some? ==> i <= r.value < |slots| && slots[r.value].ok
    ensures r.Some? ==> forall j :: i <= j < r.value ==> !slots[j].ok
    ensures r.None? ==> forall j :: i <= j < |slots| ==> !slots[j].ok
    decreases |slots| - i
  {
    if i == |slots| then None else if slots[i].ok then Some(i) else FirstOk(slots, i + 1)
  }

  predicate AllValid(bs: seq<Bucket>) {
    forall j :: 0 <= j < |bs| ==> B.Valid(bs[j])
  }

  function Slots(bs: seq<Bucket>, rio: seq<ReadIo>, verify: Verifier): (r: seq<Slot>)
    requires AllValid(bs) && |rio| == |bs|
    ensures |r| == |bs|
    ensures forall j :: 0 <= j < |r| ==> r[j] == Examine(bs[j], rio[j], verify)
  {
    seq(|bs|, j requires 0 <= j < |bs| => Examine(bs[j], rio[j], verify))
  }

  /** Take the first bucket that verifies and bring all others in line with it. */
  function Load(bs: seq<Bucket>, rio: seq<ReadIo>, wio: seq<WriteIo>, verify: Verifier)
    : (r: (seq<Bucket>, Result<seq<byte>>))
    requires AllValid(bs) && |rio| == |wio| == |bs|
    ensures |r.0| == |bs| && AllValid(r.0)
  {
    var slots := Slots(bs, rio, verify);
    match FirstOk(slots, 0)
    case None => (seq(|bs|, j requires 0 <= j < |bs| => slots[j].bucket), Err(ENOENT))
    case Some(u) =>
      var payload := slots[u].buf[..slots[u].len];
      (seq(|bs|, j requires 0 <= j < |bs| => Refresh(slots[j], payload, wio[j])), Ok(payload))
  }

  /** The buckets that a load writes to. */
  ghost function Rewritten(bs: seq<Bucket>, rio: seq<ReadIo>, verify: Verifier): (w: set<nat>)
    requires AllValid(bs) && |rio| == |bs|
  {
    var slots := Slots(bs, rio, verify);
    match FirstOk(slots, 0)
    case None => {}
    case Some(u) => set j: nat | j < |bs| && !UpToDate(slots[j], slots[u].buf[..slots[u].len])
  }

  /** Write all buckets in order; one success is enough. */
  function Save(bs: seq<Bucket>, buf: seq<byte>, wio: seq<WriteIo>): (r: (seq<Bucket>, Option<Error>))
    requires AllValid(bs) && |wio| == |bs|
    ensures |r.0| == |bs| && AllValid(r.0)
  {
    (seq(|bs|, j requires 0 <= j < |bs| => WriteBucket(bs[j], buf, wio[j]).0),
     if exists j :: 0 <= j < |bs| && WriteBucket(bs[j], buf, wio[j]).1 == None then None else Some(EIO))
  }

  function RemountAll(bs: seq<Bucket>): (r: seq<Bucket>)
    requires AllValid(bs)
    ensures |r| == |bs| && AllValid(r)
  {
    seq(|bs|, j requires 0 <= j < |bs| => Remount(bs[j]))
  }

  // ----- The value of the register -----

  /** The payload of the first bucket, from i on, whose medium verifies. */
  function CurrentFrom(bs: seq<Bucket>, i: nat, verify: Verifier): Option<seq<byte>>
    requires AllValid(bs) && i <= |bs|
    decreases |bs| - i
  {
    if i == |bs| then None
    else if View(bs[i], verify).Some? then View(bs[i], verify)
    else CurrentFrom(bs, i + 1, verify)
  }

  function Current(bs: seq<Bucket>, verify: Verifier): Option<seq<byte>>
    requires AllValid(bs)
  {
    CurrentFrom(bs, 0, verify)
  }

  lemma {:induction false} CurrentIs(bs: seq<Bucket>, i: nat, u: nat, verify: Verifier)
    requires AllValid(bs) && i <= u < |bs|
    requires forall j :: i <= j < u ==> View(bs[j], verify) in {None, View(bs[u], verify)}
    requires View(bs[u], verify).Some?
    ensures CurrentFrom(bs, i, verify) == View(bs[u], verify)
    decreases u - i
  {
    hide View, B.Valid;
    if i < u {
      assert View(bs[i], verify) in {None, View(bs[u], verify)};
      CurrentIs(bs, i + 1, u, verify);
    }
  }

  lemma {:induction false} CurrentNone(bs: seq<Bucket>, i: nat, verify: Verifier)
    requires AllValid(bs) && i <= |bs|
    requires forall j :: i <= j < |bs| ==> View(bs[j], verify) == None
    ensures CurrentFrom(bs, i, verify) == None
    decreases |bs| - i
  {
    hide View, B.Valid;
    if i < |bs| {
      CurrentNone(bs, i + 1, verify);
    }
  }

  /** All buckets hold the same value. */
  ghost predicate Consistent(bs: seq<Bucket>, v: Option<seq<byte>>, verify: Verifier)
    requires AllValid(bs)
  {
    forall j :: 0 <= j < |bs| ==> View(bs[j], verify) == v
  }

  // ----- One bucket in the loading pass -----

  lemma ExamineView(b: Bucket, io: ReadIo, verify: Verifier)
    requires B.Valid(b) && Bounded(verify)
    ensures var s := Examine(b, io, verify);
            && View(s.bucket, verify) == View(b, verify)
            && (0 < |s.buf| ==> (s.ok <==> Accepted(verify, s.buf).Some?))
            && (s.ok ==> Accepted(verify, s.buf) == Some(s.buf[..s.len]))
            && (!s.ok ==> s.len == |s.buf|)
  {
    hide View, ReadBucket;
    ViewUnchanged(b, [], io, verify);
    var (b', r) := ReadBucket(b, io);
    ViewIgnoresFlag(b', verify);
  }

  lemma ViewIgnoresFlag(b: Bucket, verify: Verifier)
    requires B.Valid(b)
    ensures forall f :: View(b.(needsRefresh := f), verify) == View(b, verify)
  {
  }

  /** On a fresh start a readable bucket is accepted exactly when its medium verifies. */
  lemma ExamineFresh(b: Bucket, io: ReadIo, verify: Verifier)
    requires B.Valid(b) && b == Remount(b) && Bounded(verify)
    requires io == ReadOk || (io == ReadUnclean && b.medium.Circular?)
    ensures var s := Examine(b, io, verify);
            && (s.ok <==> View(b, verify).Some?)
            && (s.ok ==> View(b, verify) == Some(s.buf[..s.len]))
  {
    hide ReadBucket;
    if io == ReadUnclean {
      UncleanDelivers(b);
    }
  }

  /** On a fresh start the refresh flag is raised exactly by an unclean read. */
  lemma ExamineFlag(b: Bucket, io: ReadIo, verify: Verifier)
    requires B.Valid(b) && b == Remount(b)
    ensures var s := Examine(b, io, verify);
            s.bucket.needsRefresh <==> io == ReadUnclean && ReadBucket(b, io).1.Ok?
    ensures ReadBucket(b, io).1.Err? ==> Examine(b, io, verify).buf == []
  {
    hide C.Read, DirectRead;
  }

  /** A slot that the repair skips already holds the payload. */
  lemma SkippedHoldsPayload(b: Bucket, io: ReadIo, payload: seq<byte>, verify: Verifier)
    requires B.Valid(b) && b == Remount(b) && Stable(verify) && Packed(verify, payload) && 0 < |payload|
    requires UpToDate(Examine(b, io, verify), payload)
    ensures View(b, verify) == Some(payload)
  {
    hide View, ReadBucket, Remount, Examine;
    StableIsBounded(verify);
    UpToDateWasRead(b, io, payload, verify);
    FreshView(b, verify);
    AcceptedPrefix(verify, payload, Examine(b, ReadOk, verify).buf);
  }

  /** Only a clean read gives a slot that needs no rewrite. */
  lemma UpToDateWasRead(b: Bucket, io: ReadIo, payload: seq<byte>, verify: Verifier)
    requires B.Valid(b) && b == Remount(b) && 0 < |payload| && UpToDate(Examine(b, io, verify), payload)
    ensures io == ReadOk && payload <= Examine(b, ReadOk, verify).buf
  {
    hide C.Mount, FromLe32;
    ExamineFlag(b, io, verify);
  }

  lemma FreshView(b: Bucket, verify: Verifier)
    requires B.Valid(b) && b == Remount(b)
    ensures var s := Examine(b, ReadOk, verify);
            s.buf != [] ==> View(b, verify) == Accepted(verify, s.buf)
  {
    hide ReadBucket, Remount;
  }

  /** A crashed or failed write that leaves the old value, the new value or nothing. */
  ghost predicate CleanWrite(b: Bucket, buf: seq<byte>, io: WriteIo, verify: Verifier)
    requires B.Valid(b)
  {
    View(WriteBucket(b, buf, io).0, verify) in {None, View(b, verify), Some(buf)}
  }

  lemma RefreshOutcome(b: Bucket, rio: ReadIo, payload: seq<byte>, io: WriteIo, verify: Verifier)
    requires B.Valid(b) && b == Remount(b) && Stable(verify) && Packed(verify, payload) && 0 < |payload|
    requires Fits(Examine(b, rio, verify).bucket, |payload|)
    ensures var s := Examine(b, rio, verify);
            var after := View(Refresh(s, payload, io), verify);
            && (io == WriteOk ==> after == Some(payload))
            && (io == Refused ==> after == View(b, verify))
            && (CleanWrite(s.bucket, payload, io, verify) ==>
                  after in {None, View(b, verify), Some(payload)})
  {
    hide View, WriteBucket, ReadBucket;
    StableIsBounded(verify);
    var s := Examine(b, rio, verify);
    ExamineView(b, rio, verify);
    if UpToDate(s, payload) {
      SkippedHoldsPayload(b, rio, payload, verify);
    } else {
      ViewAfterWrite(s.bucket, payload, verify);
      ViewUnchanged(s.bucket, payload, ReadOk, verify);
      ViewIgnoresFlag(WriteBucket(s.bucket, payload, io).0, verify);
    }
  }

  // ----- Shape: what no operation changes -----

  predicate FitsAll(bs: seq<Bucket>, len: nat)
    requires AllValid(bs)
  {
    forall j :: 0 <= j < |bs| ==> Fits(bs[j], len)
  }

  lemma FitsKept(b: Bucket, rio: ReadIo, buf: seq<byte>, io: WriteIo, verify: Verifier, len: nat)
    requires B.Valid(b) && Fits(b, len)
    ensures Fits(Examine(b, rio, verify).bucket, len)
    ensures Fits(Refresh(Examine(b, rio, verify), buf, io), len)
    ensures Fits(WriteBucket(b, buf, io).0, len) && Fits(Remount(b), len)
  {
    hide C.Read, C.Mount, C.Write, DirectRead, DirectWrite;
  }

  lemma FitsAllKept(bs: seq<Bucket>, rio: seq<ReadIo>, wio: seq<WriteIo>, buf: seq<byte>, verify: Verifier, len: nat)
    requires AllValid(bs) && FitsAll(bs, len) && |rio| == |wio| == |bs|
    ensures FitsAll(Load(bs, rio, wio, verify).0, len)
    ensures FitsAll(Save(bs, buf, wio).0, len) && FitsAll(RemountAll(bs), len)
  {
    hide Fits, Examine, Refresh, WriteBucket, Remount, B.Valid;
    var slots := Slots(bs, rio, verify);
    var u := FirstOk(slots, 0);
    forall j | 0 <= j < |bs|
      ensures Fits(Load(bs, rio, wio, verify).0[j], len)
      ensures Fits(Save(bs, buf, wio).0[j], len) && Fits(RemountAll(bs)[j], len)
    {
      var payload := if u.Some? then slots[u.value].buf[..slots[u.value].len] else [];
      FitsKept(bs[j], rio[j], payload, wio[j], verify, len);
      FitsKept(bs[j], rio[j], buf, wio[j], verify, len);
    }
  }

  // ----- Crashes -----

  /** Power is lost during the write at position pos: those before it completed, those behind it
      never started. A position behind all writes stands for a pass that completed. */
  ghost predicate CrashAt(rank: nat -> nat, wio: seq<WriteIo>, pos: nat) {
    forall j :: 0 <= j < |wio| ==>
      && (rank(j) < pos ==> wio[j] == WriteOk)
      && (rank(j) > pos ==> wio[j] == Refused)
  }

  /** Position of bucket j in the repair order: the used bucket u comes last. */
  function RepairRank(u: nat, n: nat): nat -> nat {
    j => if j == u then n else j
  }

  /** The order of a save: the list of buckets from its head. */
  function SaveOrder(n: nat): (order: seq<nat>)
    ensures |order| == n && forall j :: 0 <= j < n ==> order[j] == j
  {
    seq(n, j => j)
  }

  /** The first i buckets without bucket u. */
  function Others(u: nat, i: nat): seq<nat> {
    if i == 0 then [] else Others(u, i - 1) + if i - 1 == u then [] else [i - 1]
  }

  /** The order of a repair: all other buckets, and then the one in use. */
  function RepairOrder(u: nat, n: nat): seq<nat> {
    Others(u, n) + [u]
  }

  /** The entries of a list that are in a set, in the order of the list. */
  ghost function Selected(order: seq<nat>, which: set<nat>): seq<nat> {
    if order == [] then [] else
      var last := order[|order| - 1];
      Selected(order[..|order| - 1], which) + if last in which then [last] else []
  }

  /** The writes of a load, in their order. */
  ghost function RepairWrites(bs: seq<Bucket>, rio: seq<ReadIo>, verify: Verifier): seq<nat>
    requires AllValid(bs) && |rio| == |bs|
  {
    match FirstOk(Slots(bs, rio, verify), 0)
    case None => []
    case Some(u) => Selected(RepairOrder(u, |bs|), Rewritten(bs, rio, verify))
  }

  lemma OthersNext(u: nat, i: nat)
    ensures Others(u, i + 1) == if i == u then Others(u, i) else Others(u, i) + [i]
  {
  }

  lemma NoOthers(u: nat)
    ensures Others(u, 0) == []
  {
  }

  lemma NothingSelected(which: set<nat>)
    ensures Selected([], which) == []
  {
  }

  lemma {:induction false} SelectedAppend(order: seq<nat>, j: nat, which: set<nat>)
    ensures Selected(order + [j], which) == Selected(order, which) + if j in which then [j] else []
  {
    assert (order + [j])[..|order|] == order;
  }

  lemma {:induction false} OthersAscend(u: nat, i: nat)
    ensures forall j: nat :: j in Others(u, i) <==> j < i && j != u
    ensures forall a, b :: 0 <= a < b < |Others(u, i)| ==> Others(u, i)[a] < Others(u, i)[b]
  {
    if i > 0 {
      OthersAscend(u, i - 1);
      var o := Others(u, i - 1);
      assert forall a :: 0 <= a < |o| ==> o[a] in o;
    }
  }

  /** Positions in the crash theorems are positions in the order of the repair: every bucket comes
      once, and those of lower rank come first. */
  lemma RepairOrderIsRank(u: nat, n: nat)
    requires u < n
    ensures forall j: nat :: j in RepairOrder(u, n) <==> j < n
    ensures Ascends(RepairOrder(u, n), RepairRank(u, n))
  {
    OthersAscend(u, n);
    var o := Others(u, n);
    assert forall a :: 0 <= a < |o| ==> o[a] in o;
  }

  /** The list goes up in rank. */
  ghost predicate Ascends(order: seq<nat>, rank: nat -> nat) {
    forall a, b :: 0 <= a < b < |order| ==> rank(order[a]) < rank(order[b])
  }

  lemma {:induction false} SelectedAscends(order: seq<nat>, which: set<nat>, rank: nat -> nat)
    ensures forall j: nat :: j in Selected(order, which) <==> j in order && j in which
    ensures Ascends(order, rank) ==> Ascends(Selected(order, which), rank)
    decreases |order|
  {
    if order != [] {
      var front, last := order[..|order| - 1], order[|order| - 1];
      SelectedAscends(front, which, rank);
      var s := Selected(front, which);
      assert order == front + [last];
      if Ascends(order, rank) {
        forall a | 0 <= a < |s|
          ensures rank(s[a]) < rank(last)
        {
          assert s[a] in s;
          assert s[a] in front;
        }
      }
    }
  }

  /** A load writes to the buckets that are out of date, each once, and in the order of the ranks. */
  lemma RepairWritesInOrder(bs: seq<Bucket>, rio: seq<ReadIo>, verify: Verifier)
    requires AllValid(bs) && |rio| == |bs|
    ensures forall j: nat :: j in RepairWrites(bs, rio, verify) <==> j in Rewritten(bs, rio, verify)
    ensures var u := FirstOk(Slots(bs, rio, verify), 0);
            u.Some? ==> Ascends(RepairWrites(bs, rio, verify), RepairRank(u.value, |bs|))
  {
    hide UpToDate, Examine, RepairOrder, Selected;
    var u := FirstOk(Slots(bs, rio, verify), 0);
    if u.Some? {
      RepairOrderIsRank(u.value, |bs|);
      SelectedAscends(RepairOrder(u.value, |bs|), Rewritten(bs, rio, verify), RepairRank(u.value, |bs|));
    }
  }

  ghost predicate Fresh(bs: seq<Bucket>)
    requires AllValid(bs)
  {
    forall j :: 0 <= j < |bs| ==> bs[j] == Remount(bs[j])
  }

  /** Reading succeeds everywhere; flash may report that a block should be rewritten. */
  ghost predicate Readable(bs: seq<Bucket>, rio: seq<ReadIo>)
    requires |rio| == |bs|
  {
    forall j :: 0 <= j < |bs| ==>
      rio[j] == ReadOk || (rio[j] == ReadUnclean && bs[j].medium.Circular?)
  }

  ghost predicate CleanRepair(bs: seq<Bucket>, rio: seq<ReadIo>, wio: seq<WriteIo>, payload: seq<byte>,
                              verify: Verifier)
    requires AllValid(bs) && |rio| == |wio| == |bs|
  {
    forall j :: 0 <= j < |bs| ==> CleanWrite(Examine(bs[j], rio[j], verify).bucket, payload, wio[j], verify)
  }

  /** Which bucket a load on readable fresh buckets uses: the one that carries the value. */
  lemma LoadUses(bs: seq<Bucket>, rio: seq<ReadIo>, verify: Verifier)
    requires |bs| == |rio| && AllValid(bs) && Fresh(bs) && Bounded(verify) && Readable(bs, rio)
    ensures var slots := Slots(bs, rio, verify);
            match FirstOk(slots, 0)
            case None => Current(bs, verify) == None && Consistent(bs, None, verify)
            case Some(u) =>
              && (forall j :: 0 <= j < u ==> View(bs[j], verify) == None)
              && Current(bs, verify) == View(bs[u], verify) == Some(slots[u].buf[..slots[u].len])
  {
    hide View, Examine, B.Valid, Bounded, Remount;
    var slots := Slots(bs, rio, verify);
    forall j | 0 <= j < |bs|
      ensures slots[j].ok <==> View(bs[j], verify).Some?
      ensures slots[j].ok ==> View(bs[j], verify) == Some(slots[j].buf[..slots[j].len])
    {
      ExamineFresh(bs[j], rio[j], verify);
    }
    var u := FirstOk(slots, 0);
    if u.Some? {
      CurrentIs(bs, 0, u.value, verify);
    } else {
      CurrentNone(bs, 0, verify);
    }
  }

  /** A load on fresh buckets finds the register's value; whether the repair completes or loses
      power at any point, the value stays; a completed repair makes all buckets agree on it. */
  lemma LoadKeepsValue(bs: seq<Bucket>, rio: seq<ReadIo>, wio: seq<WriteIo>, pos: nat, v: seq<byte>, verify: Verifier)
    requires 2 <= |bs| == |rio| == |wio| && AllValid(bs) && Fresh(bs) && Stable(verify) && Readable(bs, rio)
    requires Current(bs, verify) == Some(v) && FitsAll(bs, |v|)
    requires CleanRepair(bs, rio, wio, v, verify)
    requires RepairCrash(bs, rio, wio, pos, verify)
    ensures var l := Load(bs, rio, wio, verify);
            && l.1 == Ok(v)
            && Current(l.0, verify) == Some(v)
            && (pos > |bs| ==> Consistent(l.0, Some(v), verify))
  {
    hide View, Examine, Refresh, B.Valid, Fits, Packed, Stable, Bounded, CleanWrite, Remount;
    StableIsBounded(verify);
    LoadUses(bs, rio, verify);
    var u := FirstOk(Slots(bs, rio, verify), 0).value;
    var after := Load(bs, rio, wio, verify).0;
    ViewIsPacked(bs[u], verify);
    forall j | 0 <= j < |bs|
      ensures wio[j] == WriteOk ==> View(after[j], verify) == Some(v)
      ensures wio[j] == Refused ==> View(after[j], verify) == View(bs[j], verify)
      ensures View(after[j], verify) in {None, View(bs[j], verify), Some(v)}
    {
      FitsKept(bs[j], rio[j], v, wio[j], verify, |v|);
      RefreshOutcome(bs[j], rio[j], v, wio[j], verify);
    }
    if View(after[u], verify) == Some(v) {
      CurrentIs(after, 0, u, verify);
    } else {
      var k := if u == 0 then 1 else 0;
      assert View(after[k], verify) == Some(v);
      CurrentIs(after, 0, k, verify);
    }
  }

  /** The repair pass of this load is cut off at position pos of its order. */
  ghost predicate RepairCrash(bs: seq<Bucket>, rio: seq<ReadIo>, wio: seq<WriteIo>, pos: nat, verify: Verifier)
    requires AllValid(bs) && |rio| == |bs|
  {
    match FirstOk(Slots(bs, rio, verify), 0)
    case None => true
    case Some(u) => CrashAt(RepairRank(u, |bs|), wio, pos)
  }

  /** A load that finds no valid copy changes no medium. */
  lemma LoadFindsNothing(bs: seq<Bucket>, rio: seq<ReadIo>, wio: seq<WriteIo>, verify: Verifier)
    requires |bs| == |rio| == |wio| && AllValid(bs) && Fresh(bs) && Bounded(verify) && Readable(bs, rio)
    requires Current(bs, verify) == None
    ensures Load(bs, rio, wio, verify).1 == Err(ENOENT)
    ensures Consistent(Load(bs, rio, wio, verify).0, None, verify)
  {
    hide View, Examine, B.Valid, Bounded, Remount;
    LoadUses(bs, rio, verify);
    forall j | 0 <= j < |bs|
      ensures View(Load(bs, rio, wio, verify).0[j], verify) == None
    {
      ExamineView(bs[j], rio[j], verify);
    }
  }

  /** Whatever could not be read: after a successful load whose rewrites all succeed, every bucket
      verifies and holds the payload returned. */
  lemma LoadRestoresConsistency(bs: seq<Bucket>, rio: seq<ReadIo>, wio: seq<WriteIo>, verify: Verifier)
    requires |bs| == |rio| == |wio| && AllValid(bs) && Fresh(bs) && Stable(verify)
    requires forall j :: 0 <= j < |bs| ==> wio[j] == WriteOk
    requires Load(bs, rio, wio, verify).1.Ok?
    requires FitsAll(bs, |Load(bs, rio, wio, verify).1.value|)
    ensures Consistent(Load(bs, rio, wio, verify).0, Some(Load(bs, rio, wio, verify).1.value), verify)
  {
    hide View, Examine, Refresh, B.Valid, Fits, Packed, Stable, Bounded, Remount;
    StableIsBounded(verify);
    var slots := Slots(bs, rio, verify);
    var u := FirstOk(slots, 0).value;
    var v := Load(bs, rio, wio, verify).1.value;
    ExamineView(bs[u], rio[u], verify);
    AcceptedIsPacked(verify, slots[u].buf);
    forall j | 0 <= j < |bs|
      ensures View(Load(bs, rio, wio, verify).0[j], verify) == Some(v)
    {
      FitsKept(bs[j], rio[j], v, wio[j], verify, |v|);
      RefreshOutcome(bs[j], rio[j], v, wio[j], verify);
    }
  }

  /** Why reading must succeed: an interrupted save left the new value in the first bucket alone, and
      one load cannot read it, nor rewrite it. That load returns the old value, and once the bucket can
      be read again the next one returns the new value. */
  lemma UnreadableCopyComesBack(bs: seq<Bucket>, rio: seq<ReadIo>, wio: seq<WriteIo>, rio': seq<ReadIo>,
                                wio': seq<WriteIo>, old_: seq<byte>, new_: seq<byte>, verify: Verifier)
    requires 2 <= |bs| == |rio| == |wio| == |rio'| == |wio'| && AllValid(bs) && Fresh(bs) && Stable(verify)
    requires View(bs[0], verify) == Some(new_) && Fits(bs[0], |old_|)
    requires forall j :: 0 < j < |bs| ==> View(bs[j], verify) == Some(old_)
    requires rio[0] == ReadFails && wio[0] == Refused && forall j :: 0 < j < |bs| ==> rio[j] == ReadOk
    requires Readable(RemountAll(Load(bs, rio, wio, verify).0), rio')
    ensures var first := Load(bs, rio, wio, verify);
            var second := Load(RemountAll(first.0), rio', wio', verify);
            Current(bs, verify) == Some(new_) && first.1 == Ok(old_) && second.1 == Ok(new_)
  {
    hide View, Examine, Refresh, B.Valid, Fits, Packed, Stable, Bounded, Remount;
    StableIsBounded(verify);
    var slots := Slots(bs, rio, verify);
    UnreadableIsNotOk(bs[0], verify);
    forall j | 0 < j < |bs|
      ensures slots[j].ok && slots[j].buf[..slots[j].len] == old_
    {
      ExamineFresh(bs[j], rio[j], verify);
    }
    assert FirstOk(slots, 0) == Some(1);
    var first := Load(bs, rio, wio, verify).0;
    ViewIsPacked(bs[1], verify);
    FitsKept(bs[0], rio[0], [], WriteOk, verify, |old_|);
    RefreshOutcome(bs[0], rio[0], old_, wio[0], verify);
    CurrentIs(bs, 0, 0, verify);
    CurrentIs(first, 0, 0, verify);
    RemountKeepsValue(first, verify);
    LoadUses(RemountAll(first), rio', verify);
  }

  lemma UnreadableIsNotOk(b: Bucket, verify: Verifier)
    requires B.Valid(b)
    ensures !Examine(b, ReadFails, verify).ok
  {
  }

  // ----- Saving -----

  /** The medium takes a write of this many bytes: they fit, and neither an erase that is needed nor
      the step itself fails. */
  predicate Takes(b: Bucket, len: nat, io: WriteIo)
    requires B.Valid(b)
  {
    Fits(b, len) &&
    match io
    case WriteOk => true
    case EraseFails(_) => b.medium.Circular? && !Wraps(b.medium.circ, RecordLength(len, b.medium.circ.page))
    case _ => false
  }

  /** A bucket reports success exactly when its medium took the write, or never had to erase. */
  lemma WriteSucceedsIff(b: Bucket, buf: seq<byte>, io: WriteIo)
    requires B.Valid(b)
    ensures WriteBucket(b, buf, io).1 == None <==> Takes(b, |buf|, io)
  {
    hide Append, Record, Programmed, DirectImage;
  }

  /** A bucket goes on asking for a rewrite exactly until its medium takes one. */
  lemma RewriteIsAskedFor(s: Slot, payload: seq<byte>, io: WriteIo)
    requires B.Valid(s.bucket) && s.len <= |s.buf|
    ensures Refresh(s, payload, io).needsRefresh
            <==> s.bucket.needsRefresh && !Takes(s.bucket, |payload|, io)
  {
    hide WriteBucket, Takes;
    WriteSucceedsIff(s.bucket, payload, io);
  }

  /** A save fails, with EIO, exactly when no bucket took the write. */
  lemma SaveSucceedsIff(bs: seq<Bucket>, buf: seq<byte>, wio: seq<WriteIo>)
    requires AllValid(bs) && |wio| == |bs|
    ensures Save(bs, buf, wio).1 == None <==> exists j :: 0 <= j < |bs| && Takes(bs[j], |buf|, wio[j])
    ensures Save(bs, buf, wio).1 in {None, Some(EIO)}
    ensures (forall j :: 0 <= j < |bs| ==> !wio[j].EraseFails?) ==>
      (Save(bs, buf, wio).1 == None <==> exists j :: 0 <= j < |bs| && wio[j] == WriteOk && Fits(bs[j], |buf|))
  {
    hide WriteBucket, Fits, B.Valid, Wraps;
    forall j | 0 <= j < |bs|
      ensures WriteBucket(bs[j], buf, wio[j]).1 == None <==> Takes(bs[j], |buf|, wio[j])
      ensures wio[j] == WriteOk ==> (Takes(bs[j], |buf|, wio[j]) <==> Fits(bs[j], |buf|))
    {
      WriteSucceedsIff(bs[j], buf, wio[j]);
    }
  }

  ghost predicate CleanSave(bs: seq<Bucket>, buf: seq<byte>, wio: seq<WriteIo>, verify: Verifier)
    requires AllValid(bs) && |wio| == |bs|
  {
    forall j :: 0 <= j < |bs| ==> CleanWrite(bs[j], buf, wio[j], verify)
  }

  /** From consistent buckets, a save that loses power at any point leaves the old value or the
      new one; a completed save leaves the new one in every bucket. */
  lemma SaveIsAtomic(bs: seq<Bucket>, buf: seq<byte>, wio: seq<WriteIo>, pos: nat, old_: Option<seq<byte>>,
                     verify: Verifier)
    requires 2 <= |bs| == |wio| && AllValid(bs) && Stable(verify) && Packed(verify, buf) && FitsAll(bs, |buf|)
    requires Consistent(bs, old_, verify) && CleanSave(bs, buf, wio, verify)
    requires CrashAt(j => j, wio, pos)
    ensures var s := Save(bs, buf, wio);
            && Current(s.0, verify) in {old_, Some(buf)}
            && (pos > 0 ==> Current(s.0, verify) == Some(buf) && s.1 == None)
            && (pos >= |bs| ==> Consistent(s.0, Some(buf), verify))
  {
    hide View, WriteBucket, B.Valid, Fits, Packed, Stable;
    var after := Save(bs, buf, wio).0;
    forall j | 0 <= j < |bs|
      ensures wio[j] == WriteOk ==> View(after[j], verify) == Some(buf) && WriteBucket(bs[j], buf, wio[j]).1 == None
      ensures wio[j] == Refused ==> View(after[j], verify) == old_
      ensures View(after[j], verify) in {None, old_, Some(buf)}
    {
      ViewAfterWrite(bs[j], buf, verify);
      ViewUnchanged(bs[j], buf, ReadOk, verify);
    }
    if View(after[0], verify).Some? {
      CurrentIs(after, 0, 0, verify);
    } else if View(after[1], verify).Some? {
      CurrentIs(after, 0, 1, verify);
    } else {
      CurrentNone(after, 0, verify);
    }
  }

  /** When some writes fail without a crash, success of the save is not enough: the next load
      returns the new value exactly when no bucket before the first one written kept its copy. */
  lemma PartialSave(bs: seq<Bucket>, buf: seq<byte>, wio: seq<WriteIo>, k: nat, old_: seq<byte>, verify: Verifier)
    requires k < |bs| == |wio| && AllValid(bs) && Stable(verify) && Packed(verify, buf) && FitsAll(bs, |buf|)
    requires Consistent(bs, Some(old_), verify) && old_ != buf
    requires wio[k] == WriteOk
    requires forall j :: 0 <= j < k ==>
      wio[j] == Refused || View(WriteBucket(bs[j], buf, wio[j]).0, verify) == None
    ensures Save(bs, buf, wio).1 == None
    ensures Current(Save(bs, buf, wio).0, verify) == Some(buf)
            <==> forall j :: 0 <= j < k ==> wio[j] != Refused
  {
    hide View, WriteBucket, B.Valid, Fits, Packed, Stable;
    var after := Save(bs, buf, wio).0;
    ViewAfterWrite(bs[k], buf, verify);
    forall j | 0 <= j < |bs|
      ensures wio[j] == Refused ==> View(after[j], verify) == Some(old_)
    {
      ViewUnchanged(bs[j], buf, ReadOk, verify);
    }
    if forall j :: 0 <= j < k ==> wio[j] != Refused {
      CurrentIs(after, 0, k, verify);
    } else {
      var j :| 0 <= j < k && wio[j] == Refused;
      CurrentIs(after, 0, j, verify);
    }
  }

  /** A write that tears at its first byte: one in place has spoilt the magic number by then, one
      on flash that had to erase has left nothing. */
  function TornAtStart(b: Bucket): WriteIo {
    if b.medium.Direct? then WriteFails([0]) else WriteFails([])
  }

  /** Two buckets are needed: a single one that is overwritten loses the old value and the new. */
  lemma SingleBucketIsNotAtomic(b: Bucket, buf: seq<byte>, verify: Verifier)
    requires B.Valid(b) && Fits(b, |buf|)
    requires b.medium.Circular? ==> Wraps(b.medium.circ, RecordLength(|buf|, b.medium.circ.page))
    ensures View(WriteBucket(b, buf, TornAtStart(b)).0, verify) == None
    ensures Current(Save([b], buf, [TornAtStart(b)]).0, verify) == None
  {
    var w := WriteBucket(b, buf, TornAtStart(b)).0;
    match b.medium {
      case Direct(stride, _) =>
        SpoiltMagic(b, buf, verify);
      case Circular(circ) =>
        TornFromBlank(b, buf, verify);
    }
    CurrentNone(Save([b], buf, [TornAtStart(b)]).0, 0, verify);
  }

  lemma SpoiltMagic(b: Bucket, buf: seq<byte>, verify: Verifier)
    requires B.Valid(b) && Fits(b, |buf|) && b.medium.Direct?
    ensures View(WriteBucket(b, buf, TornAtStart(b)).0, verify) == None
  {
    var s := WriteBucket(b, buf, TornAtStart(b)).0.medium.stride;
    assert s[0] == 0;
    assert s[..4][0] == 0;
  }

  lemma TornFromBlank(b: Bucket, buf: seq<byte>, verify: Verifier)
    requires B.Valid(b) && Fits(b, |buf|) && b.medium.Circular?
    requires Wraps(b.medium.circ, RecordLength(|buf|, b.medium.circ.page))
    ensures View(WriteBucket(b, buf, TornAtStart(b)).0, verify) == None
  {
    hide C.Write, C.Read, C.Mount, Stored, Record, View;
    var c := b.medium.circ;
    assert Record(buf, c.page)[..0] == [];
    TornAfterErase(c, buf);
    CircularView(WriteBucket(b, buf, TornAtStart(b)).0, verify);
  }

  // ----- Whole runs -----

  /** One start of the program: mount, load, and then perhaps a save. Positions say where power
      was lost in the repair pass and in the save. */
  datatype Session = Session(rio: seq<ReadIo>, lio: seq<WriteIo>, lpos: nat, save: Option<Saving>)
  datatype Saving = Saving(buf: seq<byte>, sio: seq<WriteIo>, spos: nat)

  function Loaded(bs: seq<Bucket>, s: Session, verify: Verifier): (r: (seq<Bucket>, Result<seq<byte>>))
    requires AllValid(bs) && |s.rio| == |s.lio| == |bs|
    ensures |r.0| == |bs| && AllValid(r.0)
  {
    Load(RemountAll(bs), s.rio, s.lio, verify)
  }

  predicate Sized(n: nat, s: Session) {
    |s.rio| == |s.lio| == n && (s.save.Some? ==> |s.save.value.sio| == n)
  }

  function Play(bs: seq<Bucket>, s: Session, verify: Verifier): (r: seq<Bucket>)
    requires AllValid(bs) && Sized(|bs|, s)
    ensures |r| == |bs| && AllValid(r)
  {
    var l := Loaded(bs, s, verify).0;
    if s.save.Some? then Save(l, s.save.value.buf, s.save.value.sio).0 else l
  }

  /** What an observer notes of a session: the value loaded, and the value of a save with whether
      it completed. */
  datatype Note = Note(loaded: Option<seq<byte>>, saved: Option<(seq<byte>, bool)>)

  function Observe(bs: seq<Bucket>, s: Session, verify: Verifier): Note
    requires AllValid(bs) && Sized(|bs|, s)
  {
    Note(match Loaded(bs, s, verify).1 case Ok(v) => Some(v) case Err(_) => None,
         match s.save case Some(w) => Some((w.buf, w.spos >= |bs|)) case None => None)
  }

  function Trace(bs: seq<Bucket>, ss: seq<Session>, verify: Verifier): seq<Note>
    requires AllValid(bs) && forall s :: s in ss ==> Sized(|bs|, s)
    decreases |ss|
  {
    if |ss| == 0 then []
    else
      assert ss[0] in ss;
      assert forall s :: s in ss[1..] ==> s in ss;
      [Observe(bs, ss[0], verify)] + Trace(Play(bs, ss[0], verify), ss[1..], verify)
  }

  /** The atomic register: a load returns a possible value and settles it; a completed save makes
      its value the only one; an interrupted save leaves the loaded value and its own. */
  predicate RegisterTrace(possible: set<Option<seq<byte>>>, notes: seq<Note>)
    decreases |notes|
  {
    |notes| == 0 ||
    (var n := notes[0];
     n.loaded in possible &&
     RegisterTrace(match n.saved
                   case None => {n.loaded}
                   case Some((w, true)) => {Some(w)}
                   case Some((w, false)) => {n.loaded, Some(w)},
                   notes[1..]))
  }

  /** A session in which everything is readable (UnreadableCopyComesBack tells why), only power
      losses disturb writes, torn writes leave the old value, the new one or nothing, and a save
      follows a completed load. */
  ghost predicate Admissible(bs: seq<Bucket>, s: Session, verify: Verifier)
    requires AllValid(bs)
  {
    Sized(|bs|, s) &&
    var m := RemountAll(bs);
    var l := Loaded(bs, s, verify);
    && Readable(m, s.rio)
    && (l.1.Ok? ==> CleanRepair(m, s.rio, s.lio, l.1.value, verify))
    && RepairCrash(m, s.rio, s.lio, s.lpos, verify)
    && (s.save.Some? ==>
          && s.lpos > |bs|
          && Packed(verify, s.save.value.buf) && FitsAll(bs, |s.save.value.buf|)
          && CleanSave(l.0, s.save.value.buf, s.save.value.sio, verify)
          && CrashAt(j => j, s.save.value.sio, s.save.value.spos))
  }

  ghost predicate AdmissibleRun(bs: seq<Bucket>, ss: seq<Session>, verify: Verifier)
    requires AllValid(bs)
    decreases |ss|
  {
    |ss| == 0 || (Admissible(bs, ss[0], verify) && AdmissibleRun(Play(bs, ss[0], verify), ss[1..], verify))
  }

  lemma RemountKeepsValue(bs: seq<Bucket>, verify: Verifier)
    requires AllValid(bs)
    ensures Fresh(RemountAll(bs))
    ensures Current(RemountAll(bs), verify) == Current(bs, verify)
  {
    hide View, Remount, B.Valid;
    forall j | 0 <= j < |bs|
      ensures View(RemountAll(bs)[j], verify) == View(bs[j], verify)
      ensures Remount(RemountAll(bs)[j]) == RemountAll(bs)[j]
    {
      ViewUnchanged(bs[j], [], ReadOk, verify);
      RemountTwice(bs[j]);
    }
    SameCurrent(RemountAll(bs), bs, 0, verify);
  }

  lemma RemountTwice(b: Bucket)
    requires B.Valid(b)
    ensures Remount(Remount(b)) == Remount(b)
  {
  }

  lemma {:induction false} SameCurrent(a: seq<Bucket>, b: seq<Bucket>, i: nat, verify: Verifier)
    requires AllValid(a) && AllValid(b) && i <= |a| == |b|
    requires forall j :: i <= j < |a| ==> View(a[j], verify) == View(b[j], verify)
    ensures CurrentFrom(a, i, verify) == CurrentFrom(b, i, verify)
    decreases |a| - i
  {
    hide View, B.Valid;
    if i < |a| {
      SameCurrent(a, b, i + 1, verify);
    }
  }

  /** One session against the register: what it loads is the value before it; what it leaves is
      the loaded value, or one its save allows. */
  lemma SessionIsAtomic(bs: seq<Bucket>, s: Session, verify: Verifier)
    requires 2 <= |bs| && AllValid(bs) && Stable(verify) && Admissible(bs, s, verify)
    requires Current(bs, verify).Some? ==> FitsAll(bs, |Current(bs, verify).value|)
    ensures var note := Observe(bs, s, verify);
            var now := Current(Play(bs, s, verify), verify);
            && note.loaded == Current(bs, verify)
            && (note.saved == None ==> now == note.loaded)
            && (note.saved.Some? ==>
                  now == Some(note.saved.value.0) || (!note.saved.value.1 && now == note.loaded))
    ensures var now := Current(Play(bs, s, verify), verify);
            now.Some? ==> FitsAll(Play(bs, s, verify), |now.value|)
  {
    hide View, Remount, B.Valid, Fits, Load, Save, Current, Consistent, Stable, Bounded, Readable;
    hide CleanRepair, CleanSave;
    StableIsBounded(verify);
    var m := RemountAll(bs);
    var (l, r) := Loaded(bs, s, verify);
    var cur := Current(bs, verify);
    RemountKeepsValue(bs, verify);
    if cur.Some? {
      FitsAllKept(bs, s.rio, s.lio, [], verify, |cur.value|);
      LoadKeepsValueOrFails(m, s, cur.value, verify);
      FitsAllKept(m, s.rio, s.lio, [], verify, |cur.value|);
    } else {
      LoadFindsNothing(m, s.rio, s.lio, verify);
      ConsistentCurrent(l, None, verify);
    }
    if s.save.Some? {
      var w := s.save.value;
      FitsAllKept(bs, s.rio, s.lio, [], verify, |w.buf|);
      FitsAllKept(m, s.rio, s.lio, [], verify, |w.buf|);
      SaveIsAtomic(l, w.buf, w.sio, w.spos, cur, verify);
      FitsAllKept(l, s.rio, w.sio, w.buf, verify, |w.buf|);
      if cur.Some? {
        FitsAllKept(l, s.rio, w.sio, w.buf, verify, |cur.value|);
      }
    }
  }

  lemma LoadKeepsValueOrFails(m: seq<Bucket>, s: Session, v: seq<byte>, verify: Verifier)
    requires 2 <= |m| && AllValid(m) && Fresh(m) && Stable(verify)
    requires |s.rio| == |s.lio| == |m| && Readable(m, s.rio)
    requires Current(m, verify) == Some(v) && FitsAll(m, |v|)
    requires Load(m, s.rio, s.lio, verify).1.Ok? ==>
               CleanRepair(m, s.rio, s.lio, Load(m, s.rio, s.lio, verify).1.value, verify)
    requires RepairCrash(m, s.rio, s.lio, s.lpos, verify)
    ensures var l := Load(m, s.rio, s.lio, verify);
            && l.1 == Ok(v) && Current(l.0, verify) == Some(v)
            && (s.lpos > |m| ==> Consistent(l.0, Some(v), verify))
  {
    hide View, Examine, Refresh, B.Valid, Fits, Stable, Bounded, Remount, Consistent, CleanRepair, RepairCrash;
    StableIsBounded(verify);
    LoadUses(m, s.rio, verify);
    LoadKeepsValue(m, s.rio, s.lio, s.lpos, v, verify);
  }

  lemma ConsistentCurrent(bs: seq<Bucket>, v: Option<seq<byte>>, verify: Verifier)
    requires AllValid(bs) && |bs| > 0 && Consistent(bs, v, verify)
    ensures Current(bs, verify) == v
  {
    hide View, B.Valid;
    if v.Some? {
      CurrentIs(bs, 0, 0, verify);
    } else {
      CurrentNone(bs, 0, verify);
    }
  }

  /** With two buckets or more the storage is an atomic register over every run of sessions,
      whatever point of a repair pass or of a save loses power. */
  lemma {:induction false} StorageIsAtomicRegister(bs: seq<Bucket>, ss: seq<Session>,
                                                   possible: set<Option<seq<byte>>>, verify: Verifier)
    requires 2 <= |bs| && AllValid(bs) && Stable(verify)
    requires (forall s :: s in ss ==> Sized(|bs|, s)) && AdmissibleRun(bs, ss, verify)
    requires Current(bs, verify).Some? ==> FitsAll(bs, |Current(bs, verify).value|)
    requires Current(bs, verify) in possible
    ensures RegisterTrace(possible, Trace(bs, ss, verify))
    decreases |ss|
  {
    hide Current, Readable, CleanRepair, RepairCrash, CleanSave, FitsAll, Load, Save, B.Valid, Stable, Packed;
    if |ss| > 0 {
      assert ss[0] in ss && forall s :: s in ss[1..] ==> s in ss;
      var next := Play(bs, ss[0], verify);
      SessionIsAtomic(bs, ss[0], verify);
      var note := Observe(bs, ss[0], verify);
      var rest := match note.saved
                  case None => {note.loaded}
                  case Some((w, true)) => {Some(w)}
                  case Some((w, false)) => {note.loaded, Some(w)};
      StorageIsAtomicRegister(next, ss[1..], rest, verify);
      assert Trace(bs, ss, verify)[1..] == Trace(next, ss[1..], verify);
    }
  }

  /** A session in which everything is readable and power may be lost between two writes of the
      repair pass or of the save. */
  ghost predicate CutSession(bs: seq<Bucket>, s: Session, verify: Verifier)
    requires AllValid(bs)
  {
    && Sized(|bs|, s)
    && (forall j :: 0 <= j < |bs| ==> s.rio[j] == ReadOk)
    && (match FirstOk(Slots(RemountAll(bs), s.rio, verify), 0)
        case None => true
        case Some(u) => forall j :: 0 <= j < |bs| ==>
          s.lio[j] == if RepairRank(u, |bs|)(j) < s.lpos then WriteOk else Refused)
    && (s.save.Some? ==>
          && s.lpos > |bs|
          && Packed(verify, s.save.value.buf) && FitsAll(bs, |s.save.value.buf|)
          && forall j :: 0 <= j < |bs| ==>
               s.save.value.sio[j] == if j < s.save.value.spos then WriteOk else Refused)
  }

  lemma WholeWriteIsClean(b: Bucket, buf: seq<byte>, io: WriteIo, verify: Verifier)
    requires B.Valid(b) && Stable(verify) && Packed(verify, buf) && Fits(b, |buf|) && io in {WriteOk, Refused}
    ensures CleanWrite(b, buf, io, verify)
  {
    hide View, WriteBucket, B.Valid, Fits, Packed, Stable;
    ViewAfterWrite(b, buf, verify);
    ViewUnchanged(b, buf, ReadOk, verify);
  }

  /** Power cuts between writes are admissible: they need no assumption about torn data. */
  lemma CutIsAdmissible(bs: seq<Bucket>, s: Session, verify: Verifier)
    requires AllValid(bs) && Stable(verify) && CutSession(bs, s, verify)
    requires Current(bs, verify).Some? ==> FitsAll(bs, |Current(bs, verify).value|)
    ensures Admissible(bs, s, verify)
  {
    hide View, Remount, B.Valid, Fits, Current, Stable, Packed, CleanRepair, CleanSave, Load;
    if Loaded(bs, s, verify).1.Ok? {
      CutRepairIsClean(bs, s, verify);
    }
    if s.save.Some? {
      CutSaveIsClean(bs, s, verify);
    }
  }

  lemma CutRepairIsClean(bs: seq<Bucket>, s: Session, verify: Verifier)
    requires AllValid(bs) && Stable(verify) && CutSession(bs, s, verify)
    requires Current(bs, verify).Some? ==> FitsAll(bs, |Current(bs, verify).value|)
    requires Loaded(bs, s, verify).1.Ok?
    ensures CleanRepair(RemountAll(bs), s.rio, s.lio, Loaded(bs, s, verify).1.value, verify)
  {
    hide View, Remount, B.Valid, Fits, Current, Stable, Bounded, Packed, Examine, Refresh, CleanWrite;
    StableIsBounded(verify);
    var m, v := RemountAll(bs), Loaded(bs, s, verify).1.value;
    var u := FirstOk(Slots(m, s.rio, verify), 0).value;
    RemountKeepsValue(bs, verify);
    LoadUses(m, s.rio, verify);
    ViewIsPacked(m[u], verify);
    FitsAllKept(bs, s.rio, s.lio, [], verify, |v|);
    forall j | 0 <= j < |bs|
      ensures CleanWrite(Examine(m[j], s.rio[j], verify).bucket, v, s.lio[j], verify)
    {
      FitsKept(m[j], s.rio[j], [], WriteOk, verify, |v|);
      WholeWriteIsClean(Examine(m[j], s.rio[j], verify).bucket, v, s.lio[j], verify);
    }
  }

  lemma CutSaveIsClean(bs: seq<Bucket>, s: Session, verify: Verifier)
    requires AllValid(bs) && Stable(verify) && CutSession(bs, s, verify) && s.save.Some?
    ensures CleanSave(Loaded(bs, s, verify).0, s.save.value.buf, s.save.value.sio, verify)
  {
    hide View, Remount, B.Valid, Fits, Stable, Packed, Load, CleanWrite;
    var l, w := Loaded(bs, s, verify).0, s.save.value;
    FitsAllKept(bs, s.rio, s.lio, [], verify, |w.buf|);
    FitsAllKept(RemountAll(bs), s.rio, s.lio, [], verify, |w.buf|);
    forall j | 0 <= j < |bs|
      ensures CleanWrite(l[j], w.buf, w.sio[j], verify)
    {
      WholeWriteIsClean(l[j], w.buf, w.sio[j], verify);
    }
  }

  ghost predicate CutRun(bs: seq<Bucket>, ss: seq<Session>, verify: Verifier)
    requires AllValid(bs)
    decreases |ss|
  {
    |ss| == 0 || (CutSession(bs, ss[0], verify) && CutRun(Play(bs, ss[0], verify), ss[1..], verify))
  }

  /** So every run with power cuts between writes, in any number, is one of an atomic register. */
  lemma {:induction false} CutRunIsAdmissible(bs: seq<Bucket>, ss: seq<Session>, verify: Verifier)
    requires 2 <= |bs| && AllValid(bs) && Stable(verify) && CutRun(bs, ss, verify)
    requires Current(bs, verify).Some? ==> FitsAll(bs, |Current(bs, verify).value|)
    ensures AdmissibleRun(bs, ss, verify)
    decreases |ss|
  {
    hide Current, FitsAll, B.Valid, Stable, Admissible, CutSession, Observe;
    if |ss| > 0 {
      CutIsAdmissible(bs, ss[0], verify);
      CutIsSized(bs, ss[0], verify);
      SessionIsAtomic(bs, ss[0], verify);
      CutRunIsAdmissible(Play(bs, ss[0], verify), ss[1..], verify);
    }
  }

  lemma CutIsSized(bs: seq<Bucket>, s: Session, verify: Verifier)
    requires AllValid(bs) && CutSession(bs, s, verify)
    ensures Sized(|bs|, s)
  {
  }
}
