/** The dtb format on redundant storage. Its check keeps the tree of the buffer it looked at last,
    and unpacking takes that tree, not the buffer that the storage returns. */
module DtbStorage {
  import opened Bytes
  import opened C = CircularLog
  import opened B = Buckets
  import R = Register
  import opened FdtFormat
  import opened FdtRoundTrip
  import opened StateTree
  import opened StateCreate

  // ----- The format -----

  /** The buffer is as long as its header says. */
  predicate Complete(buf: seq<byte>) {
    |buf| >= HEADER_SIZE && Word(buf, 4) <= |buf|
  }

  /** state_backend_format_dtb_verify: the length in use. */
  function DtbVerify(buf: seq<byte>): Option<nat> {
    if Complete(buf) && Unflatten(buf).Ok? then Some(Word(buf, 4)) else None
  }

  /** format->root after the check of one more buffer. */
  function Kept(root: Option<Node>, buf: seq<byte>): Option<Node> {
    if !Complete(buf) then root
    else match Unflatten(buf) case Ok(t) => Some(t) case Err(_) => None
  }

  /** format->root after the loop over all buckets; what could not be read is not checked. */
  function RootAfter(got: seq<Result<seq<byte>>>): Option<Node> {
    if got == [] then None else
      var root := RootAfter(got[..|got| - 1]);
      match got[|got| - 1]
      case Ok(buf) => Kept(root, buf)
      case Err(_) => root
  }

  function Reads(bs: seq<Bucket>, rio: seq<ReadIo>): (r: seq<Result<seq<byte>>>)
    requires R.AllValid(bs) && |rio| == |bs|
    ensures |r| == |bs|
  {
    seq(|bs|, j requires 0 <= j < |bs| => ReadBucket(bs[j], rio[j]).1)
  }

  /** The tree that unpacking takes when bucket u is the one in use: format->root, or else that of
      the buffer it is given. */
  function Imported(got: seq<Result<seq<byte>>>, u: nat): Node
    requires u < |got| && got[u].Ok? && DtbVerify(got[u].value).Some?
  {
    match RootAfter(got)
    case Some(t) => t
    case None => Unflatten(got[u].value).value
  }

  /** The bucket in use was read and verified. */
  lemma UsedWasRead(bs: seq<Bucket>, rio: seq<ReadIo>, u: nat)
    requires R.AllValid(bs) && |rio| == |bs| && u < |bs| && R.Slots(bs, rio, DtbVerify)[u].ok
    ensures Reads(bs, rio)[u].Ok? && DtbVerify(Reads(bs, rio)[u].value).Some?
  {
    hide DtbVerify, ReadBucket;
  }

  /** state_do_load of a fresh program with the dtb format. */
  function DtbLoad(bs: seq<Bucket>, rio: seq<ReadIo>, wio: seq<WriteIo>, magic: nat, vars: seq<StateVar>)
    : (r: (seq<Bucket>, Result<seq<StateVar>>))
    requires R.AllValid(bs) && |rio| == |wio| == |bs|
    ensures R.AllValid(r.0) && |r.0| == |bs|
  {
    var l := R.Load(bs, rio, wio, DtbVerify);
    match R.FirstOk(R.Slots(bs, rio, DtbVerify), 0)
    case None => (l.0, Err(ENOENT))
    case Some(u) =>
      UsedWasRead(bs, rio, u);
      (l.0, StateFromNode(Imported(Reads(bs, rio), u), magic, vars))
  }

  /** When no copy verifies, the load imports nothing and fails like the storage, and else it fails or
      succeeds like the import of the tree. */
  lemma DtbLoadFails(bs: seq<Bucket>, rio: seq<ReadIo>, wio: seq<WriteIo>, magic: nat, vars: seq<StateVar>)
    requires R.AllValid(bs) && |rio| == |wio| == |bs|
    ensures R.Load(bs, rio, wio, DtbVerify).1.Err? ==> DtbLoad(bs, rio, wio, magic, vars).1 == Err(ENOENT)
    ensures DtbLoad(bs, rio, wio, magic, vars).0 == R.Load(bs, rio, wio, DtbVerify).0
  {
    hide StateFromNode, DtbVerify, ReadBucket;
  }

  /** The last buffer that is as long as its header says. */
  function LastComplete(got: seq<Result<seq<byte>>>): (k: Option<nat>)
    ensures k.Some? ==> k.value < |got| && got[k.value].Ok? && Complete(got[k.value].value)
    ensures forall j :: (if k.Some? then k.value + 1 else 0) <= j < |got| && got[j].Ok? ==> !Complete(got[j].value)
  {
    if got == [] then None else
      var last := |got| - 1;
      if got[last].Ok? && Complete(got[last].value) then Some(last) else LastComplete(got[..last])
  }

  /** format->root is what the last complete buffer gives. */
  lemma {:induction false} RootIsLastComplete(got: seq<Result<seq<byte>>>)
    ensures RootAfter(got) == match LastComplete(got)
                              case None => None
                              case Some(k) => Kept(None, got[k].value)
  {
    hide Unflatten, Complete;
    if got != [] {
      RootIsLastComplete(got[..|got| - 1]);
    }
  }

  /** Whatever the buckets hold: a load imports the tree of the buffer it returns exactly when the last
      complete buffer gives the same tree, or none at all. */
  lemma ImportsReturnedIff(bs: seq<Bucket>, rio: seq<ReadIo>, u: nat)
    requires R.AllValid(bs) && |rio| == |bs| && R.FirstOk(R.Slots(bs, rio, DtbVerify), 0) == Some(u)
    ensures Reads(bs, rio)[u].Ok? && DtbVerify(Reads(bs, rio)[u].value).Some?
    ensures var got := Reads(bs, rio);
            var k := LastComplete(got);
            && k.Some? && u <= k.value
            && (Imported(got, u) == Unflatten(got[u].value).value
                <==> (Unflatten(got[k.value].value).Ok? ==>
                        Unflatten(got[k.value].value) == Unflatten(got[u].value)))
  {
    hide Unflatten, ReadBucket;
    UsedWasRead(bs, rio, u);
    RootIsLastComplete(Reads(bs, rio));
  }

  /** A tree as it goes to storage. */
  ghost predicate Storable(n: Node) {
    NamesAreText(n) && Synced(n) == n && Encodable(n)
  }

  lemma FlatVerifies(n: Node, buf: seq<byte>)
    requires Storable(n) && Flat(n) <= buf
    ensures Complete(buf) && Unflatten(buf) == Ok(Unnamed(n)) && DtbVerify(buf) == Some(|Flat(n)|)
    ensures buf[..|Flat(n)|] == Flat(n)
  {
    hide Word, Unflatten, Synced, NamesAreText, HeaderBytes, At, Strings, NodeBytes;
    var tail := buf[|Flat(n)|..];
    assert buf == Flat(n) + tail;
    RoundTrip(n, tail);
    FlatParts(n, tail);
    HeaderWords(buf, |StructBytes(n)|, |Strings(n)|);
  }

  // ----- What a bucket holds -----

  /** Every buffer, as a whole. */
  function Whole(buf: seq<byte>): Option<nat> { Some(|buf|) }

  /** A fresh start reads p from the bucket, perhaps with padding. */
  ghost predicate Stores(b: Bucket, p: seq<byte>)
    requires B.Valid(b)
  {
    View(b, Whole).Some? && p <= View(b, Whole).value
  }

  lemma StoresWhenRead(b: Bucket, p: seq<byte>)
    requires B.Valid(b)
    ensures Stores(b, p) <==> ReadBucket(Remount(b), ReadOk).1.Ok? && p <= ReadBucket(Remount(b), ReadOk).1.value
  {
    hide ReadBucket, Remount;
    var r := ReadBucket(Remount(b), ReadOk).1;
    if r.Ok? {
      assert r.value[..|r.value|] == r.value;
    }
  }

  lemma StoresAfterWrite(b: Bucket, p: seq<byte>)
    requires B.Valid(b) && Fits(b, |p|)
    ensures WriteBucket(b, p, WriteOk).1 == None && Stores(WriteBucket(b, p, WriteOk).0, p)
  {
    hide ReadBucket, Remount, WriteBucket, View, Delivered, Stores;
    ReadAfterWrite(b, p);
    StoresWhenRead(WriteBucket(b, p, WriteOk).0, p);
  }

  /** Reads, restarts, refused writes and the refresh flag do not change it. */
  lemma StoresKept(b: Bucket, p: seq<byte>, q: seq<byte>, io: ReadIo, flag: bool)
    requires B.Valid(b) && Stores(b, p)
    ensures Stores(ReadBucket(b, io).0.(needsRefresh := flag), p)
    ensures Stores(Remount(b), p) && Stores(WriteBucket(b, q, Refused).0, p)
  {
    hide ReadBucket, Remount, WriteBucket, View;
    ViewUnchanged(b, q, io, Whole);
    R.ViewIgnoresFlag(ReadBucket(b, io).0, Whole);
  }

  /** The loading pass accepts a bucket that holds a tree, and the tree is what it finds. */
  lemma ExaminesTree(b: Bucket, io: ReadIo, n: Node)
    requires B.Valid(b) && b == Remount(b) && (io == ReadOk || (io == ReadUnclean && b.medium.Circular?))
    requires Storable(n) && Stores(b, Flat(n))
    ensures var s, r := R.Examine(b, io, DtbVerify), ReadBucket(b, io).1;
            && s.ok && s.buf[..s.len] == Flat(n) && Stores(s.bucket, Flat(n))
            && r.Ok? && r.value == s.buf && Flat(n) <= r.value
  {
    hide ReadBucket, Remount, View, Storable, Flat, DtbVerify, Stores;
    if io == ReadUnclean {
      UncleanDelivers(b);
    }
    StoresWhenRead(b, Flat(n));
    FlatVerifies(n, ReadBucket(b, io).1.value);
    StoresKept(b, Flat(n), [], io, true);
    StoresKept(b, Flat(n), [], io, b.needsRefresh);
    assert ReadBucket(b, io).0.(needsRefresh := b.needsRefresh) == ReadBucket(b, io).0;
  }

  /** Whatever a bucket held, a successful repair leaves the tree in it. */
  lemma RefreshStores(b: Bucket, io: ReadIo, u: Node)
    requires B.Valid(b) && b == Remount(b) && (io == ReadOk || (io == ReadUnclean && b.medium.Circular?))
    requires Storable(u) && Fits(b, |Flat(u)|)
    ensures Stores(R.Refresh(R.Examine(b, io, DtbVerify), Flat(u), WriteOk), Flat(u))
  {
    hide R.Examine, WriteBucket, Remount, Storable, Flat, Stores, B.Valid, View;
    var s := R.Examine(b, io, DtbVerify);
    if R.UpToDate(s, Flat(u)) {
      UpToDateStores(b, io, u);
    } else {
      R.FitsKept(b, io, [], WriteOk, DtbVerify, |Flat(u)|);
      StoresAfterWrite(s.bucket, Flat(u));
      var w := WriteBucket(s.bucket, Flat(u), WriteOk).0;
      FlagKeepsStores(w, Flat(u));
    }
  }

  lemma UpToDateStores(b: Bucket, io: ReadIo, u: Node)
    requires B.Valid(b) && b == Remount(b) && (io == ReadOk || (io == ReadUnclean && b.medium.Circular?))
    requires Storable(u) && R.UpToDate(R.Examine(b, io, DtbVerify), Flat(u))
    ensures Stores(R.Examine(b, io, DtbVerify).bucket, Flat(u))
  {
    hide ReadBucket, Remount, View, Storable, Stores, DtbVerify, StructBytes, Strings, HeaderBytes, B.Valid;
    if io == ReadUnclean {
      UncleanDelivers(b);
    }
    var s := R.Examine(b, io, DtbVerify);
    assert Flat(u) <= s.buf;
    StoresWhenRead(b, Flat(u));
    StoresKept(b, Flat(u), [], io, true);
    StoresKept(b, Flat(u), [], io, b.needsRefresh);
    assert ReadBucket(b, io).0.(needsRefresh := b.needsRefresh) == ReadBucket(b, io).0;
  }

  lemma FlagKeepsStores(b: Bucket, p: seq<byte>)
    requires B.Valid(b) && Stores(b, p)
    ensures Stores(b.(needsRefresh := false), p)
  {
    hide View;
    R.ViewIgnoresFlag(b, Whole);
  }

  // ----- Loading -----

  /** Bucket j holds the tree ns[j]. */
  ghost predicate Holding(bs: seq<Bucket>, ns: seq<Node>)
    requires R.AllValid(bs)
  {
    |bs| == |ns| && forall j :: 0 <= j < |bs| ==> Storable(ns[j]) && Stores(bs[j], Flat(ns[j]))
  }

  function Same(n: nat, t: Node): (ns: seq<Node>)
    ensures |ns| == n && forall j :: 0 <= j < n ==> ns[j] == t
  {
    seq(n, j => t)
  }

  /** The tree fits every bucket and every repair succeeds. */
  ghost predicate Repairing(bs: seq<Bucket>, wio: seq<WriteIo>, n: Node)
    requires R.AllValid(bs)
  {
    R.FitsAll(bs, |Flat(n)|) && forall j :: 0 <= j < |wio| ==> wio[j] == WriteOk
  }

  lemma {:induction false} RootIsLast(got: seq<Result<seq<byte>>>, ns: seq<Node>)
    requires 0 < |got| == |ns| && got[|got| - 1].Ok?
    requires Storable(ns[|ns| - 1]) && Flat(ns[|ns| - 1]) <= got[|got| - 1].value
    ensures RootAfter(got) == Some(Unnamed(ns[|ns| - 1]))
  {
    hide Storable, Flat, Unflatten, Complete;
    FlatVerifies(ns[|ns| - 1], got[|got| - 1].value);
  }

  /** When every bucket holds some tree, a load repairs all of them with the first bucket's tree
      and yet imports the last one's. */
  lemma LoadRepairsFirstImportsLast(bs: seq<Bucket>, rio: seq<ReadIo>, wio: seq<WriteIo>, ns: seq<Node>,
                                    magic: nat, vars: seq<StateVar>)
    requires R.AllValid(bs) && 0 < |bs| == |rio| == |wio| && R.Fresh(bs) && R.Readable(bs, rio)
    requires Holding(bs, ns)
    ensures var l := DtbLoad(bs, rio, wio, magic, vars);
            && l.1 == StateFromNode(Unnamed(ns[|ns| - 1]), magic, vars)
            && (Repairing(bs, wio, ns[0]) ==> Holding(l.0, Same(|bs|, ns[0])))
  {
    hide Storable, Stores, Flat, Unflatten, Complete, R.Examine, R.Refresh, ReadBucket, Remount, DtbVerify, RootAfter;
    hide B.Valid, Fits;
    var slots := R.Slots(bs, rio, DtbVerify);
    var got := Reads(bs, rio);
    forall j | 0 <= j < |bs|
      ensures slots[j].ok && slots[j].buf[..slots[j].len] == Flat(ns[j])
      ensures got[j].Ok? && Flat(ns[j]) <= got[j].value
      ensures Repairing(bs, wio, ns[0]) ==> Stores(R.Refresh(slots[j], Flat(ns[0]), wio[j]), Flat(ns[0]))
    {
      ExaminesTree(bs[j], rio[j], ns[j]);
      if Repairing(bs, wio, ns[0]) {
        RefreshStores(bs[j], rio[j], ns[0]);
      }
    }
    RootIsLast(got, ns);
    assert R.FirstOk(slots, 0) == Some(0);
  }

  lemma RestartHolds(bs: seq<Bucket>, ns: seq<Node>)
    requires R.AllValid(bs) && Holding(bs, ns)
    ensures R.Fresh(R.RemountAll(bs)) && Holding(R.RemountAll(bs), ns)
  {
    hide Stores, Storable, Flat, Remount, B.Valid;
    R.RemountKeepsValue(bs, DtbVerify);
    forall j | 0 <= j < |bs|
      ensures Stores(R.RemountAll(bs)[j], Flat(ns[j]))
    {
      StoresKept(bs[j], Flat(ns[j]), [], ReadOk, false);
    }
  }

  /** The buckets when the first k of the writes of a save complete and the others never start. */
  lemma SaveHolds(bs: seq<Bucket>, sio: seq<WriteIo>, k: nat, old_: Node, n: Node)
    requires R.AllValid(bs) && |sio| == |bs| && Storable(n) && R.FitsAll(bs, |Flat(n)|)
    requires k < |bs| ==> Holding(bs, Same(|bs|, old_))
    requires forall j :: 0 <= j < |sio| ==> sio[j] == if j < k then WriteOk else Refused
    ensures Holding(R.Save(bs, Flat(n), sio).0, Mixed(|bs|, k, n, old_))
  {
    hide Stores, Storable, Flat, WriteBucket, B.Valid, Fits;
    var ns := Mixed(|bs|, k, n, old_);
    forall j | 0 <= j < |bs|
      ensures Storable(ns[j]) && Stores(R.Save(bs, Flat(n), sio).0[j], Flat(ns[j]))
    {
      if j < k {
        StoresAfterWrite(bs[j], Flat(n));
      } else {
        assert Same(|bs|, old_)[j] == old_;
        StoresKept(bs[j], Flat(old_), Flat(n), ReadOk, false);
      }
    }
  }

  function Mixed(n: nat, k: nat, a: Node, b: Node): (ns: seq<Node>)
    ensures |ns| == n && forall j :: 0 <= j < n ==> ns[j] == if j < k then a else b
  {
    seq(n, j => if j < k then a else b)
  }

  /** Saved to all buckets, restarted and loaded: every variable the description reaches is back. */
  lemma DtbSavedThenLoaded(bs: seq<Bucket>, sio: seq<WriteIo>, rio: seq<ReadIo>, wio: seq<WriteIo>,
                           t: Node, magic: nat, from: seq<StateVar>, into: seq<StateVar>)
    requires R.AllValid(bs) && 0 < |bs| == |sio| == |rio| == |wio| && forall j :: 0 <= j < |sio| ==> sio[j] == WriteOk
    requires NamesAreText(t) && magic < TWO_32 && AllOk(from) && SameVars(from, into)
    requires DescribesAll(t.children, [], from) && StateToNode(t, magic, from).Ok?
    requires Encodable(StateToNode(t, magic, from).value)
    requires R.FitsAll(bs, |Flat(StateToNode(t, magic, from).value)|)
    requires R.Readable(R.RemountAll(R.Save(bs, Flat(StateToNode(t, magic, from).value), sio).0), rio)
    ensures var saved := R.Save(bs, Flat(StateToNode(t, magic, from).value), sio).0;
            DtbLoad(R.RemountAll(saved), rio, wio, magic, into).1
            == Ok(Restored(into, from, ReachedForest(t.children, [], from)))
  {
    hide Flat, NamesAreText, Synced, Encodable, B.Valid, Fits, StateToNode, StateFromNode, Restored, DtbLoad;
    var n := StateToNode(t, magic, from).value;
    StateNodeIsPlain(t, magic, from);
    var saved, ns := R.Save(bs, Flat(n), sio).0, Mixed(|bs|, |bs|, n, n);
    SaveHolds(bs, sio, |bs|, n, n);
    RestartHolds(saved, ns);
    LoadRepairsFirstImportsLast(R.RemountAll(saved), rio, wio, ns, magic, into);
    StateRoundTrip(t, magic, from, into, []);
  }

  /** A state created from a description with different dotted names: saved, restarted and loaded
      into any such state, every variable has the value it was saved with. */
  lemma CreatedSavedThenLoaded(bs: seq<Bucket>, sio: seq<WriteIo>, rio: seq<ReadIo>, wio: seq<WriteIo>,
                               t: Node, magic: nat, from: seq<StateVar>, into: seq<StateVar>)
    requires R.AllValid(bs) && 0 < |bs| == |sio| == |rio| == |wio| && forall j :: 0 <= j < |sio| ==> sio[j] == WriteOk
    requires CreatedFrom(t, magic, from) && CreatedFrom(t, magic, into) && NamesAreText(t)
    requires DistinctNames(TypedForest(t.children, []))
    requires StateToNode(t, magic, from).Ok? && Encodable(StateToNode(t, magic, from).value)
    requires R.FitsAll(bs, |Flat(StateToNode(t, magic, from).value)|)
    requires R.Readable(R.RemountAll(R.Save(bs, Flat(StateToNode(t, magic, from).value), sio).0), rio)
    ensures var saved := R.Save(bs, Flat(StateToNode(t, magic, from).value), sio).0;
            var r := DtbLoad(R.RemountAll(saved), rio, wio, magic, into).1;
            r.Ok? && |r.value| == |from| && forall i :: 0 <= i < |from| ==> r.value[i].value == from[i].value
  {
    hide Flat, NamesAreText, Encodable, B.Valid, Fits, StateToNode, DtbLoad, DistinctNames, TypedForest, CreateState;
    hide DescribesAll, ReachedForest, R.Save, R.RemountAll;
    CreatedTags(t, magic, from);
    CreatedIsDescribed(t, magic, from);
    ReachesAllIff(t, magic, from);
    DtbSavedThenLoaded(bs, sio, rio, wio, t, magic, from, into);
  }

  /** Power is lost after k writes of a save. The next load imports the last bucket's tree while it
      repairs every bucket to the first one's, so the load after it imports that one. The two loads
      agree exactly when the save had not begun or was complete, or the states do not differ. */
  lemma LoadsAfterInterruptedSave(bs: seq<Bucket>, k: nat, sio: seq<WriteIo>, old_: Node, new_: Node,
                                  rio: seq<ReadIo>, wio: seq<WriteIo>, rio': seq<ReadIo>, wio': seq<WriteIo>,
                                  magic: nat, vars: seq<StateVar>)
    requires R.AllValid(bs) && 0 < |bs| == |sio| == |rio| == |wio| == |rio'| == |wio'| && k <= |bs|
    requires forall j :: 0 <= j < |sio| ==> sio[j] == if j < k then WriteOk else Refused
    requires Storable(old_) && Storable(new_) && Holding(bs, Same(|bs|, old_))
    requires R.FitsAll(bs, |Flat(old_)|) && R.FitsAll(bs, |Flat(new_)|)
    requires var m := R.RemountAll(R.Save(bs, Flat(new_), sio).0);
             && R.Readable(m, rio) && (forall j :: 0 <= j < |wio| ==> wio[j] == WriteOk)
             && R.Readable(R.RemountAll(DtbLoad(m, rio, wio, magic, vars).0), rio')
    ensures var m := R.RemountAll(R.Save(bs, Flat(new_), sio).0);
            var first := DtbLoad(m, rio, wio, magic, vars);
            var second := DtbLoad(R.RemountAll(first.0), rio', wio', magic, vars);
            var o, n := StateFromNode(Unnamed(old_), magic, vars), StateFromNode(Unnamed(new_), magic, vars);
            && first.1 == (if k < |bs| then o else n)
            && second.1 == (if k > 0 then n else o)
            && (first.1 == second.1 <==> k == 0 || k == |bs| || o == n)
  {
    hide Flat, Storable, B.Valid, Fits, StateFromNode, DtbLoad, R.Save, R.RemountAll;
    var saved := R.Save(bs, Flat(new_), sio).0;
    var mixed := Mixed(|bs|, k, new_, old_);
    SaveHolds(bs, sio, k, old_, new_);
    RestartHolds(saved, mixed);
    var m := R.RemountAll(saved);
    SizesKept(bs, sio, Flat(new_), |Flat(new_)|);
    SizesKept(bs, sio, Flat(new_), |Flat(old_)|);
    assert Repairing(m, wio, mixed[0]);
    LoadRepairsFirstImportsLast(m, rio, wio, mixed, magic, vars);
    var first := DtbLoad(m, rio, wio, magic, vars).0;
    RestartHolds(first, Same(|bs|, mixed[0]));
    LoadRepairsFirstImportsLast(R.RemountAll(first), rio', wio', Same(|bs|, mixed[0]), magic, vars);
  }

  lemma SizesKept(bs: seq<Bucket>, sio: seq<WriteIo>, p: seq<byte>, len: nat)
    requires R.AllValid(bs) && R.FitsAll(bs, len) && |sio| == |bs|
    ensures R.FitsAll(R.RemountAll(R.Save(bs, p, sio).0), len)
  {
    hide B.Valid, Fits, Remount, WriteBucket;
    var rio := seq(|bs|, j => ReadOk);
    R.FitsAllKept(bs, rio, sio, p, Whole, len);
    R.FitsAllKept(R.Save(bs, p, sio).0, rio, sio, p, Whole, len);
  }

  // ----- A bucket that tears -----

  /** A fresh start finds no tree in the bucket. */
  ghost predicate Broken(b: Bucket)
    requires B.Valid(b)
  {
    View(b, DtbVerify) == None
  }

  lemma ExaminesBroken(b: Bucket, io: ReadIo)
    requires B.Valid(b) && b == Remount(b) && (io == ReadOk || (io == ReadUnclean && b.medium.Circular?)) && Broken(b)
    ensures !R.Examine(b, io, DtbVerify).ok
    ensures ReadBucket(b, io).1.Ok? ==> DtbVerify(ReadBucket(b, io).1.value) == None
  {
    hide ReadBucket, Remount, Unflatten;
    if io == ReadUnclean {
      UncleanDelivers(b);
    }
  }

  /** The buckets after a save whose write to bucket k tore. */
  ghost predicate TornAt(bs: seq<Bucket>, k: nat, old_: Node, new_: Node)
    requires R.AllValid(bs)
  {
    && k < |bs| && Broken(bs[k])
    && (forall j :: 0 <= j < k ==> Stores(bs[j], Flat(new_)))
    && (forall j :: k < j < |bs| ==> Stores(bs[j], Flat(old_)))
  }

  lemma TornSave(bs: seq<Bucket>, k: nat, sio: seq<WriteIo>, old_: Node, new_: Node)
    requires R.AllValid(bs) && k < |bs| == |sio| && Holding(bs, Same(|bs|, old_)) && R.FitsAll(bs, |Flat(new_)|)
    requires R.CrashAt(j => j, sio, k) && Broken(WriteBucket(bs[k], Flat(new_), sio[k]).0)
    ensures var m := R.RemountAll(R.Save(bs, Flat(new_), sio).0); R.Fresh(m) && TornAt(m, k, old_, new_)
  {
    hide Stores, Storable, Flat, WriteBucket, B.Valid, Fits, Remount, View, DtbVerify;
    var saved := R.Save(bs, Flat(new_), sio).0;
    var m := R.RemountAll(saved);
    R.RemountKeepsValue(saved, DtbVerify);
    ViewUnchanged(saved[k], [], ReadOk, DtbVerify);
    forall j | 0 <= j < |bs| && j != k
      ensures Stores(m[j], if j < k then Flat(new_) else Flat(old_))
    {
      if j < k {
        StoresAfterWrite(bs[j], Flat(new_));
        StoresKept(saved[j], Flat(new_), [], ReadOk, false);
      } else {
        assert Same(|bs|, old_)[j] == old_;
        StoresKept(bs[j], Flat(old_), Flat(new_), ReadOk, false);
        StoresKept(saved[j], Flat(old_), [], ReadOk, false);
      }
    }
  }

  /** The tree of the bucket in use, and the one imported, when bucket k is torn. */
  function UsedTree(k: nat, old_: Node, new_: Node): Node { if k > 0 then new_ else old_ }

  function ImportedTree(n: nat, k: nat, old_: Node, new_: Node): Node { if k + 1 == n then new_ else old_ }

  /** A load of torn buckets repairs them to the first whole tree. It imports the last whole one;
      that is the new one exactly when the torn bucket is the last. */
  lemma LoadOfTorn(m: seq<Bucket>, k: nat, old_: Node, new_: Node, rio: seq<ReadIo>, wio: seq<WriteIo>,
                   magic: nat, vars: seq<StateVar>)
    requires R.AllValid(m) && 2 <= |m| == |rio| == |wio| && R.Fresh(m) && R.Readable(m, rio)
    requires Storable(old_) && Storable(new_) && TornAt(m, k, old_, new_)
    ensures var l := DtbLoad(m, rio, wio, magic, vars);
            && l.1 == StateFromNode(Unnamed(ImportedTree(|m|, k, old_, new_)), magic, vars)
            && (Repairing(m, wio, UsedTree(k, old_, new_)) ==> Holding(l.0, Same(|m|, UsedTree(k, old_, new_))))
  {
    hide Storable, Stores, Flat, Unflatten, Complete, R.Examine, R.Refresh, ReadBucket, Remount, DtbVerify, RootAfter;
    hide B.Valid, Fits, Imported, Broken;
    var slots := R.Slots(m, rio, DtbVerify);
    var got := Reads(m, rio);
    var u, used := if k > 0 then 0 else 1, UsedTree(k, old_, new_);
    ExaminesBroken(m[k], rio[k]);
    forall j | 0 <= j < |m|
      ensures j != k ==> slots[j].ok && slots[j].buf[..slots[j].len] == Flat(if j < k then new_ else old_)
      ensures j != k ==> got[j].Ok? && Flat(if j < k then new_ else old_) <= got[j].value
      ensures Repairing(m, wio, used) ==> Stores(R.Refresh(slots[j], Flat(used), wio[j]), Flat(used))
    {
      if j != k {
        ExaminesTree(m[j], rio[j], if j < k then new_ else old_);
      }
      if Repairing(m, wio, used) {
        RefreshStores(m[j], rio[j], used);
      }
    }
    assert R.FirstOk(slots, 0) == Some(u);
    RootOfTorn(got, k, u, old_, new_);
  }

  lemma RootOfTorn(got: seq<Result<seq<byte>>>, k: nat, u: nat, old_: Node, new_: Node)
    requires 2 <= |got| && k < |got| && u == if k > 0 then 0 else 1
    requires Storable(old_) && Storable(new_)
    requires got[k].Ok? ==> DtbVerify(got[k].value) == None
    requires forall j :: 0 <= j < |got| && j != k ==>
      got[j].Ok? && Flat(if j < k then new_ else old_) <= got[j].value
    ensures got[u].Ok? && DtbVerify(got[u].value).Some?
    ensures Imported(got, u) == Unnamed(ImportedTree(|got|, k, old_, new_))
  {
    hide Storable, Flat, Unflatten, Complete, RootAfter;
    var last := |got| - 1;
    FlatVerifies(if u < k then new_ else old_, got[u].value);
    if k < last {
      RootIsLast(got, Mixed(|got|, k, new_, old_));
    } else {
      RootIsLast(got[..last], Mixed(last, k, new_, old_));
      RootOfLast(got);
    }
  }

  lemma RootOfLast(got: seq<Result<seq<byte>>>)
    requires got != []
    ensures var last := |got| - 1;
            RootAfter(got) == match got[last]
                              case Ok(buf) => Kept(RootAfter(got[..last]), buf)
                              case Err(_) => RootAfter(got[..last])
  {
  }

  /** Power is lost while bucket k is written, which leaves no tree there. The next load imports the
      new state exactly when k is the last bucket; the load after it agrees exactly when k is the
      first or the last one, or the states do not differ. */
  lemma LoadsAfterTornSave(bs: seq<Bucket>, k: nat, sio: seq<WriteIo>, old_: Node, new_: Node,
                           rio: seq<ReadIo>, wio: seq<WriteIo>, rio': seq<ReadIo>, wio': seq<WriteIo>,
                           magic: nat, vars: seq<StateVar>)
    requires R.AllValid(bs) && 2 <= |bs| == |sio| == |rio| == |wio| == |rio'| == |wio'| && k < |bs|
    requires Storable(old_) && Storable(new_) && Holding(bs, Same(|bs|, old_))
    requires R.FitsAll(bs, |Flat(old_)|) && R.FitsAll(bs, |Flat(new_)|)
    requires R.CrashAt(j => j, sio, k) && Broken(WriteBucket(bs[k], Flat(new_), sio[k]).0)
    requires var m := R.RemountAll(R.Save(bs, Flat(new_), sio).0);
             && R.Readable(m, rio) && (forall j :: 0 <= j < |wio| ==> wio[j] == WriteOk)
             && R.Readable(R.RemountAll(DtbLoad(m, rio, wio, magic, vars).0), rio')
    ensures var m := R.RemountAll(R.Save(bs, Flat(new_), sio).0);
            var first := DtbLoad(m, rio, wio, magic, vars);
            var second := DtbLoad(R.RemountAll(first.0), rio', wio', magic, vars);
            var o, n := StateFromNode(Unnamed(old_), magic, vars), StateFromNode(Unnamed(new_), magic, vars);
            && first.1 == (if k + 1 == |bs| then n else o)
            && second.1 == (if k > 0 then n else o)
            && (first.1 == second.1 <==> k == 0 || k + 1 == |bs| || o == n)
  {
    hide Flat, Storable, B.Valid, Fits, StateFromNode, DtbLoad, R.Save, R.RemountAll, TornAt, Broken;
    var used := UsedTree(k, old_, new_);
    TornSave(bs, k, sio, old_, new_);
    var m := R.RemountAll(R.Save(bs, Flat(new_), sio).0);
    SizesKept(bs, sio, Flat(new_), |Flat(used)|);
    LoadOfTorn(m, k, old_, new_, rio, wio, magic, vars);
    var first := DtbLoad(m, rio, wio, magic, vars).0;
    RestartHolds(first, Same(|bs|, used));
    LoadRepairsFirstImportsLast(R.RemountAll(first), rio', wio', Same(|bs|, used), magic, vars);
  }
}
