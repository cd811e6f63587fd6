/** A state: its variables in memory, packed into and restored from its storage. */
module StateDriver {
  import opened Bytes
  import opened Layout
  import opened C = CircularLog
  import B = Buckets
  import R = Register
  import opened Raw = RawFormat
  import opened Persistence
  import opened StorageDriver
  import Crc32

  class State {
    const magic: nat
    const algo: Algo
    const keepPrevContent: bool
    const storage: Storage
    var variables: seq<Variable>
    var dirty: bool

    ghost predicate Valid()
      reads this, storage, storage.Repr
    {
      && magic < TWO_32 && AlgoOk(algo)
      && this !in storage.Repr && storage.Valid() && storage.NoBuffers()
    }

    constructor (magic: nat, algo: Algo, keepPrevContent: bool, storage: Storage)
      requires magic < TWO_32 && AlgoOk(algo) && storage.Valid() && storage.NoBuffers()
      ensures Valid() && variables == [] && dirty
      ensures this.magic == magic && this.algo == algo && this.storage == storage
      ensures this.keepPrevContent == keepPrevContent
    {
      this.magic, this.algo, this.keepPrevContent, this.storage := magic, algo, keepPrevContent, storage;
      variables, dirty := [], true;
    }

    /** state_add_var */
    method AddVariable(v: Variable)
      requires Valid() && Sorted(variables)
      modifies this`variables
      ensures Valid() && Sorted(variables) && multiset(variables) == old(multiset(variables)) + multiset{v}
    {
      variables := AddSorted(variables, v);
    }

    /** Copy data into the buffer, as memcpy does. */
    static method Copy(buf: array<byte>, at: nat, data: seq<byte>)
      requires at + |data| <= buf.Length
      modifies buf
      ensures buf[..] == old(buf[..at]) + data + old(buf[at + |data|..])
    {
      forall i | at <= i < at + |data| {
        buf[i] := data[i - at];
      }
    }

    static method ComputeChecksum(data: seq<byte>) returns (n: nat)
      ensures n == Checksum(data)
    {
      var c := Crc32.Crc32(0, ToBits(data));
      n := Unsigned(c);
    }

    /** backend_format_raw_pack */
    method Pack() returns (buf: array<byte>)
      requires Valid() && LayoutOk(variables)
      ensures fresh(buf) && buf[..] == PackedBytes(algo, magic, variables)
    {
      hide Placed, Header, Storage.Valid, Storage.NoBuffers;
      var sv := variables[|variables| - 1];
      var size := sv.start + sv.size;
      LayoutInside(variables);
      var data := PlaceAll(size);
      var head := PackHeader(size, data);
      var body := head + data;
      buf := new byte[|body| + DigestLength(algo)](_ => 0);
      Copy(buf, 0, body);
      if algo.Algo? {
        assert |algo.mac(body)| == algo.length;
        Copy(buf, |body|, algo.mac(body));
      }
    }

    method PlaceAll(size: nat) returns (bytes: seq<byte>)
      requires Inside(variables, size)
      ensures bytes == Placed(variables, size, |variables|)
    {
      var data := new byte[size](_ => 0);
      ghost var vars := variables;
      var i := 0;
      while i < |variables|
        invariant 0 <= i <= |variables| && data[..] == Placed(vars, size, i)
      {
        Copy(data, variables[i].start, variables[i].raw);
        i := i + 1;
      }
      bytes := data[..];
    }

    method PackHeader(size: nat, data: seq<byte>) returns (head: seq<byte>)
      ensures head == Header(magic, size, data)
    {
      hide Checksum, Le32, Le16;
      var crc := ComputeChecksum(data);
      head := Le32(magic) + [0, 0] + Le16(size) + Le32(crc);
      var headCrc := ComputeChecksum(head);
      head := head + Le32(headCrc);
    }

    /** backend_format_raw_unpack */
    method UnpackInto(buf: seq<byte>) returns (err: Option<Error>)
      requires Valid() && HEADER_SIZE + DataLengthOf(buf) <= |buf|
      modifies this`variables
      ensures Valid() && (variables, err) == Unpack(old(variables), buf)
    {
      ghost var before := variables;
      var n := DataLengthOf(buf);
      err := None;
      var i := 0;
      while i < |variables|
        invariant 0 <= i <= |variables| == |before| && Valid()
        invariant forall j :: 0 <= j < i ==> variables[j] == UnpackOne(before[j], buf)
        invariant forall j :: i <= j < |before| ==> variables[j] == before[j]
        invariant err == if exists j :: 0 <= j < i && before[j].start + before[j].size > n
                         then Some(ENOSPC) else None
      {
        var v := variables[i];
        if v.start + v.size > n {
          err := Some(ENOSPC);
        } else {
          variables := variables[i := v.(raw := buf[HEADER_SIZE + v.start..HEADER_SIZE + v.start + v.size])];
        }
        i := i + 1;
      }
      assert variables == Unpack(before, buf).0;
    }

    /** Some bucket carries content of someone else. */
    ghost predicate Foreign()
      reads this, storage, storage.Repr
      requires Valid()
    {
      exists j :: 0 <= j < |storage.buckets| && storage.WrongMagic(j)
    }

    /** state_save */
    method Save(wio: seq<WriteIo>) returns (err: Option<Error>)
      requires Valid() && LayoutOk(variables) && |wio| == |storage.buckets|
      modifies this`dirty, storage.Repr
      ensures Valid() && variables == old(variables)
      ensures !old(dirty) ==> err == None && !dirty && storage.States() == old(storage.States())
      ensures old(dirty) && keepPrevContent && old(Foreign()) ==>
        err == Some(EPERM) && dirty && storage.States() == old(storage.States())
      ensures old(dirty) && !(keepPrevContent && old(Foreign())) && storage.readonly ==>
        err == None && !dirty && storage.States() == old(storage.States())
      ensures old(dirty) && !(keepPrevContent && old(Foreign())) && !storage.readonly ==>
        && (storage.States(), err) == R.Save(old(storage.States()), PackedBytes(algo, magic, variables), wio)
        && (dirty <==> err != None)
        && (dirty <==> forall j :: 0 <= j < |wio| ==>
              !R.Takes(old(storage.States())[j], |PackedBytes(algo, magic, variables)|, wio[j]))
    {
      hide PackedBytes, LayoutOk, Storage.States, Storage.Valid, Storage.NoBuffers, Storage.WrongMagic, R.Save, R.Takes;
      if !dirty {
        return None;
      }
      var buf := Pack();
      if keepPrevContent {
        var foreign := storage.AnyWrongMagic();
        assert forall j :: 0 <= j < |storage.buckets| ==> storage.WrongMagic(j) == old(storage.WrongMagic(j));
        if foreign {
          return Some(EPERM);
        }
      }
      ghost var writes;
      err, writes := storage.Write(buf[..], wio);
      if err == None {
        dirty := false;
      }
    }

    /** state_do_load */
    method Load(rio: seq<ReadIo>, wio: seq<WriteIo>) returns (err: Option<Error>)
      requires Valid() && |rio| == |wio| == |storage.buckets|
      modifies this, storage.Repr
      ensures storage.Valid() && (dirty <==> err != None)
      ensures var l := R.Load(old(storage.States()), rio, wio, RawVerifier(algo, magic));
              && storage.States() == l.0
              && (l.1.Err? ==> err == Some(l.1.error) && variables == old(variables))
              && (l.1.Ok? ==> HEADER_SIZE + DataLengthOf(l.1.value) <= |l.1.value|
                              && (variables, err) == Unpack(old(variables), l.1.value))
    {
      hide Unpack, DataLengthOf, R.Load, R.AllValid, Storage.States, Storage.Valid, Storage.NoBuffers;
      hide B.Bounded, RawVerifier, AlgoOk, R.RepairWrites, B.Valid, BucketEntry.Valid;
      RawIsBounded(algo, magic);
      LoadedIsComplete(storage.States(), rio, wio, algo, magic);
      var r, _ := storage.Read(rio, wio, RawVerifier(algo, magic));
      if r.Err? {
        err := Some(r.error);
      } else {
        err := UnpackInto(r.value);
      }
      dirty := err != None;
    }
  }

  /** What a load returns holds all the data its header announces. */
  lemma LoadedIsComplete(bs: seq<B.Bucket>, rio: seq<ReadIo>, wio: seq<WriteIo>, algo: Algo, magic: nat)
    requires R.AllValid(bs) && |rio| == |wio| == |bs|
    ensures var l := R.Load(bs, rio, wio, RawVerifier(algo, magic)).1;
            l.Ok? ==> HEADER_SIZE + DataLengthOf(l.value) <= |l.value|
  {
    hide B.Valid, B.ReadBucket, Checksum, FromLe32, FromLe16;
    var slots := R.Slots(bs, rio, RawVerifier(algo, magic));
    var u := R.FirstOk(slots, 0);
    if u.Some? {
      var s := slots[u.value];
      assert s.buf[..s.len][6..8] == s.buf[6..8];
    }
  }
}
