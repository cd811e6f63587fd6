/** The storage backend: its list of buckets, and the two passes over them. */
module StorageDriver {
  import opened Bytes
  import opened C = CircularLog
  import opened B = Buckets
  import opened BucketDrivers
  import R = Register

  /** One entry of the bucket list: a bucket of either kind, and the buffer last read from it. */
  class BucketEntry {
    const direct: DirectBucket?
    const circular: CircularBucket?
    var buf: seq<byte>
    var len: nat
    var needsRefresh: bool

    /** The objects this entry consists of. */
    ghost const Repr: set<object>

    ghost predicate Valid()
      reads this, Repr
      ensures Valid() ==> this in Repr
    {
      && this in Repr
      && (direct == null <==> circular != null)
      && (direct != null ==> direct in Repr && direct.medium in Repr && direct.Valid())
      && (circular != null ==> circular in Repr && circular.flash in Repr && circular.Valid())
    }

    ghost function State(): (b: Bucket)
      requires Valid()
      reads this, Repr
      ensures B.Valid(b)
    {
      if direct != null then Bucket(Direct(direct.State(), direct.wrongMagic), needsRefresh)
      else Bucket(Circular(circular.State()), needsRefresh)
    }

    constructor OnDirect(bucket: DirectBucket)
      requires bucket.Valid()
      ensures Valid() && direct == bucket && circular == null && Repr == {this, bucket, bucket.medium}
      ensures buf == [] && len == 0 && !needsRefresh
    {
      direct, circular := bucket, null;
      Repr := {this, bucket, bucket.medium};
      buf, len, needsRefresh := [], 0, false;
    }

    constructor OnCircular(bucket: CircularBucket)
      requires bucket.Valid()
      ensures Valid() && circular == bucket && direct == null && Repr == {this, bucket, bucket.flash}
      ensures buf == [] && len == 0 && !needsRefresh
    {
      direct, circular := null, bucket;
      Repr := {this, bucket, bucket.flash};
      buf, len, needsRefresh := [], 0, false;
    }

    predicate WrongMagic()
      requires Valid()
      reads this, Repr
    {
      if direct != null then direct.wrongMagic else circular.wrongMagic
    }

    /** bucket->read */
    method Read(io: ReadIo) returns (r: Result<seq<byte>>)
      requires Valid()
      modifies Repr
      ensures Valid() && (State(), r) == ReadBucket(old(State()), io)
      ensures buf == old(buf) && len == old(len)
    {
      if direct != null {
        r := direct.Read(io);
      } else {
        r := circular.Read(io);
      }
    }

    /** bucket->write */
    method Write(data: seq<byte>, io: WriteIo) returns (err: Option<Error>)
      requires Valid()
      modifies Repr
      ensures Valid() && (State(), err) == WriteBucket(old(State()), data, io)
      ensures AsSlot(false) == old(AsSlot(false)).(bucket := State())
    {
      if direct != null {
        err := direct.Write(data, io);
      } else {
        err := circular.Write(data, io);
      }
    }

    ghost function AsSlot(ok: bool): R.Slot
      requires Valid()
      reads this, Repr
    {
      R.Slot(State(), buf, len, ok)
    }

    lemma SlotIsState()
      requires Valid()
      ensures AsSlot(false).bucket == State()
    {
    }

    lemma SlotFlag(ok: bool)
      requires Valid()
      ensures AsSlot(ok).ok == ok && AsSlot(false) == AsSlot(ok).(ok := false)
    {
    }

    lemma SlotBuffer()
      requires Valid()
      ensures AsSlot(false).buf == buf && AsSlot(false).len == len
    {
    }

    /** Free the buffer. */
    method Release()
      requires Valid()
      modifies this
      ensures Valid() && AsSlot(false) == R.Slot(old(State()), [], 0, false)
    {
      buf, len := [], 0;
    }

    /** The body of the first pass: read, and verify what could be read. */
    method Examine(io: ReadIo, verify: Verifier) returns (ok: bool)
      requires Valid() && AsSlot(false).buf == [] && AsSlot(false).len == 0 && Bounded(verify)
      modifies Repr
      ensures Valid() && AsSlot(ok) == R.Examine(old(State()), io, verify)
    {
      var r := Read(io);
      if r.Err? {
        return false;
      }
      if io == ReadUnclean {
        needsRefresh := true;
      }
      buf, len := r.value, |r.value|;
      var used := verify(buf);
      if used.None? {
        return false;
      }
      len := used.value;
      return true;
    }

    /** bucket_refresh; wrote tells whether the bucket's write was called. */
    method Refresh(payload: seq<byte>, io: WriteIo) returns (ghost wrote: bool)
      requires Valid() && len <= |buf|
      modifies Repr
      ensures Valid() && State() == R.Refresh(old(AsSlot(false)), payload, io)
      ensures AsSlot(false) == old(AsSlot(false)).(bucket := State())
      ensures wrote <==> !R.UpToDate(old(AsSlot(false)), payload)
    {
      wrote := false;
      if !needsRefresh && len == |payload| && buf[..len] == payload {
        return;
      }
      var err := Write(payload, io);
      wrote := true;
      if err == None {
        needsRefresh := false;
      }
    }
  }

  lemma RefreshIgnoresFlag(s: R.Slot, payload: seq<byte>, io: WriteIo)
    requires B.Valid(s.bucket) && s.len <= |s.buf|
    ensures R.Refresh(s.(ok := false), payload, io) == R.Refresh(s, payload, io)
    ensures R.UpToDate(s.(ok := false), payload) <==> R.UpToDate(s, payload)
  {
  }

  class Storage {
    const buckets: seq<BucketEntry>
    var readonly: bool

    /** The objects of all buckets. */
    ghost const Repr: set<object>

    ghost predicate Valid()
      reads this, Repr
    {
      && this !in Repr
      && (forall i :: 0 <= i < |buckets| ==> buckets[i] in Repr && buckets[i].Repr <= Repr)
      && (forall i, j :: 0 <= i < j < |buckets| ==> buckets[i].Repr !! buckets[j].Repr)
      && (forall i :: 0 <= i < |buckets| ==> buckets[i].Valid())
    }

    /** All buckets with the buffers last read from them. */
    ghost function Slots(): (s: seq<R.Slot>)
      requires Valid()
      reads this, Repr
      ensures |s| == |buckets|
      ensures forall i :: 0 <= i < |s| ==> s[i] == buckets[i].AsSlot(false) && B.Valid(s[i].bucket)
    {
      seq(|buckets|, i requires 0 <= i < |buckets| && Valid() reads this, Repr => buckets[i].AsSlot(false))
    }

    ghost function States(): (s: seq<Bucket>)
      requires Valid()
      reads this, Repr
      ensures |s| == |buckets| && R.AllValid(s)
      ensures forall i :: 0 <= i < |s| ==> s[i] == Slots()[i].bucket
    {
      seq(|buckets|, i requires 0 <= i < |buckets| && Valid() reads this, Repr => Slots()[i].bucket)
    }

    /** No buffer is left from an earlier load. */
    ghost predicate NoBuffers()
      requires Valid()
      reads this, Repr
    {
      forall i :: 0 <= i < |buckets| ==> Slots()[i].buf == [] && Slots()[i].len == 0
    }

    constructor (buckets: seq<BucketEntry>, ghost repr: set<object>)
      requires forall i :: 0 <= i < |buckets| ==> buckets[i] in repr && buckets[i].Repr <= repr
      requires forall i, j :: 0 <= i < j < |buckets| ==> buckets[i].Repr !! buckets[j].Repr
      requires forall i :: 0 <= i < |buckets| ==> buckets[i].Valid()
      ensures Valid() && this.buckets == buckets && Repr == repr && !readonly
    {
      hide BucketEntry.Valid;
      this.buckets, this.readonly, this.Repr := buckets, false, repr;
    }

    ghost predicate WrongMagic(i: nat)
      requires Valid() && i < |buckets|
      reads this, Repr
    {
      buckets[i].WrongMagic()
    }

    /** Whether any bucket met foreign content. */
    method AnyWrongMagic() returns (any: bool)
      requires Valid()
      ensures any <==> exists i :: 0 <= i < |buckets| && WrongMagic(i)
    {
      any := false;
      var i := 0;
      while i < |buckets|
        invariant 0 <= i <= |buckets|
        invariant any <==> exists j :: 0 <= j < i && WrongMagic(j)
      {
        assert WrongMagic(i) <==> buckets[i].WrongMagic();
        if buckets[i].WrongMagic() {
          any := true;
        }
        i := i + 1;
      }
    }

    method WriteOne(i: nat, data: seq<byte>, io: WriteIo) returns (err: Option<Error>)
      requires Valid() && i < |buckets|
      modifies buckets[i].Repr
      ensures Valid()
      ensures var s := old(Slots())[i];
              && err == WriteBucket(s.bucket, data, io).1
              && Slots() == old(Slots())[i := s.(bucket := WriteBucket(s.bucket, data, io).0)]
    {
      hide BucketEntry.State, BucketEntry.AsSlot, BucketEntry.Valid, WriteBucket, B.Valid;
      ghost var slots := Slots();
      buckets[i].SlotIsState();
      err := buckets[i].Write(data, io);
      forall j | 0 <= j < |buckets| && j != i
        ensures buckets[j].Valid() && buckets[j].AsSlot(false) == slots[j]
      {
        assert j < i ==> buckets[j].Repr !! buckets[i].Repr;
        assert i < j ==> buckets[i].Repr !! buckets[j].Repr;
      }
    }

    method ExamineOne(i: nat, io: ReadIo, verify: Verifier) returns (ok: bool)
      requires Valid() && i < |buckets| && Bounded(verify)
      requires Slots()[i].buf == [] && Slots()[i].len == 0
      modifies buckets[i].Repr
      ensures Valid()
      ensures var s := R.Examine(old(Slots())[i].bucket, io, verify);
              ok == s.ok && Slots() == old(Slots())[i := s.(ok := false)]
    {
      hide BucketEntry.State, BucketEntry.AsSlot, BucketEntry.Valid, R.Examine, B.Valid, Bounded;
      ghost var slots := Slots();
      buckets[i].SlotIsState();
      ok := buckets[i].Examine(io, verify);
      buckets[i].SlotFlag(ok);
      forall j | 0 <= j < |buckets| && j != i
        ensures buckets[j].Valid() && buckets[j].AsSlot(false) == slots[j]
      {
        assert j < i ==> buckets[j].Repr !! buckets[i].Repr;
        assert i < j ==> buckets[i].Repr !! buckets[j].Repr;
      }
    }

    method RepairOne(i: nat, payload: seq<byte>, io: WriteIo) returns (ghost wrote: bool)
      requires Valid() && i < |buckets| && Slots()[i].len <= |Slots()[i].buf|
      modifies buckets[i].Repr
      ensures Valid()
      ensures Slots() == old(Slots())[i := R.Slot(R.Refresh(old(Slots())[i], payload, io), [], 0, false)]
      ensures wrote <==> !R.UpToDate(old(Slots())[i], payload)
    {
      hide BucketEntry.State, BucketEntry.AsSlot, BucketEntry.Valid, R.Refresh, R.UpToDate, B.Valid;
      ghost var slots := Slots();
      buckets[i].SlotIsState();
      buckets[i].SlotBuffer();
      wrote := buckets[i].Refresh(payload, io);
      buckets[i].Release();
      forall j | 0 <= j < |buckets| && j != i
        ensures buckets[j].Valid() && buckets[j].AsSlot(false) == slots[j]
      {
        assert j < i ==> buckets[j].Repr !! buckets[i].Repr;
        assert i < j ==> buckets[i].Repr !! buckets[j].Repr;
      }
    }

    /** state_storage_write; writes lists the buckets in the order they were written. */
    method Write(buf: seq<byte>, wio: seq<WriteIo>) returns (err: Option<Error>, ghost writes: seq<nat>)
      requires Valid() && |wio| == |buckets|
      modifies Repr
      ensures Valid() && (old(NoBuffers()) ==> NoBuffers())
      ensures readonly ==> err == None && States() == old(States())
      ensures !readonly ==> (States(), err) == R.Save(old(States()), buf, wio)
      ensures !readonly ==>
        err == if exists j :: 0 <= j < |wio| && R.Takes(old(States())[j], |buf|, wio[j]) then None else Some(EIO)
      ensures writes == if readonly then [] else R.SaveOrder(|buckets|)
    {
      hide BucketEntry.State, BucketEntry.AsSlot, BucketEntry.Valid, WriteBucket, B.Valid, R.Takes;
      writes := [];
      if readonly {
        return None, writes;
      }
      var written := 0;
      ghost var before := Slots();
      ghost var states := States();
      var i := 0;
      while i < |buckets|
        invariant 0 <= i <= |buckets| && Valid()
        invariant forall j :: 0 <= j < i ==>
          Slots()[j] == before[j].(bucket := WriteBucket(before[j].bucket, buf, wio[j]).0)
        invariant forall j :: i <= j < |buckets| ==> Slots()[j] == before[j]
        invariant written >= 0 && |writes| == i && forall j :: 0 <= j < i ==> writes[j] == j
        invariant written > 0 <==> exists j :: 0 <= j < i && WriteBucket(states[j], buf, wio[j]).1 == None
      {
        var r := WriteOne(i, buf, wio[i]);
        writes := writes + [i];
        if r == None {
          written := written + 1;
        }
        i := i + 1;
      }
      assert States() == R.Save(states, buf, wio).0;
      R.SaveSucceedsIff(states, buf, wio);
      err := if written >= 1 then None else Some(EIO);
    }

    /** state_storage_read; writes lists the buckets in the order they were written, read-only storage
        or not. */
    method Read(rio: seq<ReadIo>, wio: seq<WriteIo>, verify: Verifier)
      returns (r: Result<seq<byte>>, ghost writes: seq<nat>)
      requires Valid() && NoBuffers() && |rio| == |wio| == |buckets| && Bounded(verify)
      modifies Repr
      ensures Valid() && (r.Ok? ==> NoBuffers())
      ensures (States(), r) == R.Load(old(States()), rio, wio, verify)
      ensures writes == R.RepairWrites(old(States()), rio, verify)
    {
      hide BucketEntry.State, BucketEntry.AsSlot, BucketEntry.Valid, R.Examine, R.Refresh, R.UpToDate, B.Valid, Bounded;
      ghost var states := States();
      ghost var slots := R.Slots(states, rio, verify);
      ghost var before := Slots();
      var used: Option<nat> := None;
      var i := 0;
      while i < |buckets|
        invariant 0 <= i <= |buckets| && Valid()
        invariant forall j :: 0 <= j < i ==> Slots()[j] == slots[j].(ok := false)
        invariant forall j :: i <= j < |buckets| ==> Slots()[j] == before[j]
        invariant used.None? ==> forall j :: 0 <= j < i ==> !slots[j].ok
        invariant used.Some? ==> used.value < i && slots[used.value].ok
                                 && forall j :: 0 <= j < used.value ==> !slots[j].ok
      {
        var ok := ExamineOne(i, rio[i], verify);
        if ok && used.None? {
          used := Some(i);
        }
        i := i + 1;
      }
      assert used == R.FirstOk(slots, 0);
      if used.None? {
        assert States() == R.Load(states, rio, wio, verify).0;
        writes := [];
        return Err(ENOENT), writes;
      }
      var u := used.value;
      buckets[u].SlotBuffer();
      var payload := buckets[u].buf[..buckets[u].len];
      ghost var stale;
      stale, writes := RepairAll(u, payload, wio);
      forall j | 0 <= j < |buckets|
        ensures R.Refresh(slots[j].(ok := false), payload, wio[j]) == R.Refresh(slots[j], payload, wio[j])
        ensures R.UpToDate(slots[j].(ok := false), payload) <==> R.UpToDate(slots[j], payload)
      {
        RefreshIgnoresFlag(slots[j], payload, wio[j]);
      }
      assert States() == R.Load(states, rio, wio, verify).0;
      assert stale == R.Rewritten(states, rio, verify);
      r := Ok(payload);
    }

    /** The second pass: all other buckets first, the one in use last. Of these, the ones that are
        out of date are written, in this order. */
    method RepairAll(u: nat, payload: seq<byte>, wio: seq<WriteIo>)
      returns (ghost stale: set<nat>, ghost writes: seq<nat>)
      requires Valid() && u < |buckets| == |wio|
      requires forall j :: 0 <= j < |buckets| ==> Slots()[j].len <= |Slots()[j].buf|
      modifies Repr
      ensures Valid()
      ensures forall j :: 0 <= j < |buckets| ==>
        Slots()[j] == R.Slot(R.Refresh(old(Slots())[j], payload, wio[j]), [], 0, false)
      ensures forall j: nat :: j in stale <==> j < |buckets| && !R.UpToDate(old(Slots())[j], payload)
      ensures writes == R.Selected(R.RepairOrder(u, |buckets|), stale)
    {
      hide BucketEntry.State, BucketEntry.AsSlot, BucketEntry.Valid, R.Refresh, R.UpToDate, B.Valid;
      hide R.Selected, R.Others;
      ghost var before := Slots();
      stale := set j: nat | j < |buckets| && !R.UpToDate(before[j], payload);
      ghost var wrote;
      R.NothingSelected(stale);
      assert R.Others(u, 0) == [] by { R.NoOthers(u); }
      writes := [];
      var i := 0;
      while i < |buckets|
        invariant 0 <= i <= |buckets| && Valid()
        invariant forall j :: 0 <= j < i && j != u ==>
          Slots()[j] == R.Slot(R.Refresh(before[j], payload, wio[j]), [], 0, false)
        invariant forall j :: i <= j < |buckets| || j == u ==> Slots()[j] == before[j]
        invariant writes == R.Selected(R.Others(u, i), stale)
      {
        if i != u {
          wrote := RepairOne(i, payload, wio[i]);
          R.SelectedAppend(R.Others(u, i), i, stale);
          writes := if wrote then writes + [i] else writes;
        }
        R.OthersNext(u, i);
        i := i + 1;
      }
      wrote := RepairOne(u, payload, wio[u]);
      R.SelectedAppend(R.Others(u, i), u, stale);
      writes := if wrote then writes + [u] else writes;
    }
  }
}
