/** The log that a circular bucket keeps inside one eraseblock: its pure description. */
module CircularLog {
  import opened Bytes

  const CIRCULAR_MAGIC: nat := 0x14fa2d02
  const META_SIZE: nat := 8

  /** Outcome of reading the medium. */
  datatype ReadIo = ReadOk | ReadUnclean | ReadFails

  /** Outcome of one write request: complete; refused before the medium changed; an erase that
      stopped half way, leaving the bytes left; or a program step that stopped half way, leaving
      the bytes left in the addressed area. */
  datatype WriteIo = WriteOk | Refused | EraseFails(left: seq<byte>) | WriteFails(left: seq<byte>)

  /** One eraseblock with the fields of its bucket. */
  datatype Circ = Circ(mem: seq<byte>, page: nat, writeArea: nat, lastLen: nat, wrongMagic: bool)

  /** The bytes of an area are all erased. */
  predicate Blank(s: seq<byte>, from: nat, to: nat)
    requires from <= to <= |s|
  {
    forall i :: from <= i < to ==> s[i] == 0xFF
  }

  /** Geometry the constructor establishes: pages of at least 8 bytes tile the eraseblock. */
  predicate Geometry(mem: seq<byte>, page: nat) {
    META_SIZE <= page && 0 < |mem| < TWO_32 && Multiple(|mem|, page)
  }

  /** The flash discipline: everything from the write area on is erased, unless the write area
      is 0, in which case the next write erases the block first. */
  predicate Disciplined(c: Circ) {
    && Geometry(c.mem, c.page)
    && c.writeArea <= |c.mem| && Multiple(c.writeArea, c.page)
    && (c.writeArea > 0 ==> Blank(c.mem, c.writeArea, |c.mem|))
  }

  /** Where the last page that is not blank ends; 0 in a blank block. */
  predicate IsLogEnd(mem: seq<byte>, page: nat, e: nat)
    requires page > 0
  {
    && e <= |mem| && Multiple(e, page) && Blank(mem, e, |mem|)
    && (e > 0 ==> page <= e && !Blank(mem, e - page, e))
  }

  function LogEnd(mem: seq<byte>, page: nat): (e: nat)
    requires page > 0 && Multiple(|mem|, page)
    ensures IsLogEnd(mem, page, e)
  {
    if |mem| == 0 then 0
    else
      var k := |mem| - page;
      if !Blank(mem, k, |mem|) then |mem| else LogEnd(mem[..k], page)
  }

  lemma LogEndUnique(mem: seq<byte>, page: nat, e: nat, f: nat)
    requires page > 0 && IsLogEnd(mem, page, e) && IsLogEnd(mem, page, f)
    ensures e == f
  {
    LogEndNotBelow(mem, page, e, f);
    LogEndNotBelow(mem, page, f, e);
  }

  lemma LogEndNotBelow(mem: seq<byte>, page: nat, e: nat, f: nat)
    requires page > 0 && IsLogEnd(mem, page, e) && IsLogEnd(mem, page, f)
    ensures f <= e
  {
    if e < f {
      MultipleDifference(f, e, page);
    }
  }

  function MetaMagic(mem: seq<byte>, e: nat): nat
    requires META_SIZE <= e <= |mem|
  {
    FromLe32(mem[e - 8..e - 4])
  }

  function MetaLength(mem: seq<byte>, e: nat): nat
    requires META_SIZE <= e <= |mem|
  {
    FromLe32(mem[e - 4..e])
  }

  /** The state that mounting finds: it depends on the medium alone. */
  function Mount(c: Circ): (r: Circ)
    requires Geometry(c.mem, c.page)
    ensures Disciplined(r) && r.mem == c.mem && r.page == c.page
  {
    var e := LogEnd(c.mem, c.page);
    if e == 0 then c.(writeArea := 0, lastLen := 0)
    else if MetaMagic(c.mem, e) == CIRCULAR_MAGIC then
      c.(writeArea := e, lastLen := MetaLength(c.mem, e))
    else
      c.(writeArea := e, lastLen := 0,
         wrongMagic := c.wrongMagic || (MetaMagic(c.mem, e) != TWO_32 - 1 && MetaMagic(c.mem, e) != 0))
  }

  /** Reading the last record, or the whole written area when its end carries no meta word. */
  function Read(c: Circ, io: ReadIo): (r: (Circ, Result<seq<byte>>))
    requires Disciplined(c)
    ensures Disciplined(r.0) && r.0.mem == c.mem && r.0.page == c.page
  {
    if c.writeArea == 0 then (c, Err(ENODATA))
    else if c.lastLen == 0 then
      var n := if c.writeArea < |c.mem| - META_SIZE then c.writeArea else |c.mem| - META_SIZE;
      (c.(writeArea := 0), if io == ReadFails then Err(EIO) else Ok(c.mem[..n]))
    else if c.lastLen > c.writeArea || !Multiple(c.lastLen, c.page) then
      (c.(writeArea := 0), Err(EINVAL))
    else
      var from := c.writeArea - c.lastLen;
      (c, if io == ReadFails then Err(EIO) else Ok(c.mem[from..c.writeArea - META_SIZE]))
  }

  function RecordLength(len: nat, page: nat): (n: nat)
    requires page > 0
    ensures len + META_SIZE <= n < len + META_SIZE + page && Multiple(n, page)
  {
    RoundUp(len + META_SIZE, page)
  }

  /** The payload as reading returns it: zero-padded up to the meta word. */
  function Padded(buf: seq<byte>, page: nat): (s: seq<byte>)
    requires page > 0
    ensures buf <= s && |s| == RecordLength(|buf|, page) - META_SIZE
  {
    buf + Zeros(RecordLength(|buf|, page) - META_SIZE - |buf|)
  }

  function Record(buf: seq<byte>, page: nat): (s: seq<byte>)
    requires page > 0
    ensures |s| == RecordLength(|buf|, page)
  {
    Padded(buf, page) + Le32(CIRCULAR_MAGIC) + Le32(RecordLength(|buf|, page))
  }

  /** Programming flash: legal only on an erased area. */
  function Program(mem: seq<byte>, at: nat, data: seq<byte>): (r: seq<byte>)
    requires at + |data| <= |mem|
    requires Blank(mem, at, at + |data|)
    ensures |r| == |mem|
  {
    mem[..at] + data + mem[at + |data|..]
  }

  /** Whether a write of a record of length n starts by erasing the block. */
  predicate Wraps(c: Circ, n: nat) {
    c.writeArea + n >= |c.mem| || c.writeArea == 0
  }

  /** The bytes a program step leaves in the area addressed by a record of buf. */
  function Programmed(buf: seq<byte>, page: nat, io: WriteIo): (d: seq<byte>)
    requires page > 0
    ensures |d| == RecordLength(|buf|, page)
  {
    match io
    case WriteFails(left) => Overlay(left, Fill(RecordLength(|buf|, page), 0xFF))
    case Refused => Fill(RecordLength(|buf|, page), 0xFF)
    case _ => Record(buf, page)
  }

  /** Programming at the write area, which moves behind the bytes even when the step fails. */
  function Append(c: Circ, data: seq<byte>): (r: Circ)
    requires Disciplined(c) && Blank(c.mem, c.writeArea, |c.mem|)
    requires c.writeArea + |data| <= |c.mem| && Multiple(|data|, c.page)
    ensures Disciplined(r) && |r.mem| == |c.mem| && r.page == c.page
  {
    MultipleSum(c.writeArea, |data|, c.page);
    c.(mem := Program(c.mem, c.writeArea, data), writeArea := c.writeArea + |data|)
  }

  /** Appending a record, or erasing the block and starting over. */
  function Write(c: Circ, buf: seq<byte>, io: WriteIo): (r: (Circ, Option<Error>))
    requires Disciplined(c)
    ensures Disciplined(r.0) && |r.0.mem| == |c.mem| && r.0.page == c.page
  {
    var n := RecordLength(|buf|, c.page);
    if n > |c.mem| then (c, Some(E2BIG))
    else if Wraps(c, n) && io.Refused? then (c.(writeArea := 0), Some(EIO))
    else if Wraps(c, n) && io.EraseFails? then
      (c.(writeArea := 0, mem := Overlay(io.left, c.mem)), Some(EIO))
    else
      var open := if Wraps(c, n) then c.(writeArea := 0, mem := Fill(|c.mem|, 0xFF)) else c;
      (Append(open, Programmed(buf, c.page, io)),
       if io.WriteFails? || io.Refused? then Some(EIO) else None)
  }

  // ----- What a mount finds after a write -----

  /** The payload the medium holds: what a read returns after a remount. */
  function Stored(mem: seq<byte>, page: nat): Result<seq<byte>>
    requires Geometry(mem, page)
  {
    Read(Mount(Circ(mem, page, 0, 0, false)), ReadOk).1
  }

  lemma StoredIsRemountedRead(c: Circ)
    requires Geometry(c.mem, c.page)
    ensures Stored(c.mem, c.page) == Read(Mount(c), ReadOk).1
  {
    hide FromLe32, Blank, IsLogEnd;
  }

  /** What the last page of a log makes a read return: without a meta word, or with a length of 0, the
      log from its start; otherwise as many bytes as the meta word tells, without the meta word. */
  function LogValue(log: seq<byte>, size: nat, page: nat): Result<seq<byte>>
    requires META_SIZE <= page <= |log| <= size
  {
    var len := MetaLength(log, |log|);
    if MetaMagic(log, |log|) != CIRCULAR_MAGIC || len == 0 then
      Ok(log[..if |log| < size - META_SIZE then |log| else size - META_SIZE])
    else if len > |log| || !Multiple(len, page) then Err(EINVAL)
    else Ok(log[|log| - len..|log| - META_SIZE])
  }

  /** The value of a block is told by the last page that is not blank. */
  lemma StoredIsLogValue(mem: seq<byte>, page: nat, e: nat)
    requires Geometry(mem, page) && IsLogEnd(mem, page, e)
    ensures Stored(mem, page) == if e == 0 then Err(ENODATA) else LogValue(mem[..e], |mem|, page)
  {
    hide FromLe32, IsLogEnd, Blank, Multiple;
    LogEndUnique(mem, page, e, LogEnd(mem, page));
    if e > 0 {
      LogPlace(mem, page, e);
      var m := Mount(Circ(mem, page, 0, 0, false));
      var log := mem[..e];
      assert log[e - 8..e - 4] == mem[e - 8..e - 4] && log[e - 4..e] == mem[e - 4..e];
      assert m.writeArea == e;
      if m.lastLen == 0 {
        assert MetaMagic(log, e) != CIRCULAR_MAGIC || MetaLength(log, e) == 0;
        var n := if e < |mem| - META_SIZE then e else |mem| - META_SIZE;
        assert log[..n] == mem[..n];
      } else if m.lastLen <= e && Multiple(m.lastLen, page) {
        MultipleAtLeast(m.lastLen, page);
        assert log[e - m.lastLen..e - META_SIZE] == mem[e - m.lastLen..e - META_SIZE];
      }
    }
  }

  lemma MultipleAtLeast(x: nat, a: nat)
    requires a > 0 && x > 0 && Multiple(x, a)
    ensures x >= a
  {
  }

  lemma LogPlace(mem: seq<byte>, page: nat, e: nat)
    requires Geometry(mem, page) && IsLogEnd(mem, page, e) && e > 0
    ensures META_SIZE <= page <= e <= |mem|
  {
  }

  /** Bytes that a program step put at the end of the log are found there by the next mount. */
  lemma MountAfterProgram(mem: seq<byte>, page: nat, at: nat, data: seq<byte>)
    requires Geometry(mem, page) && Multiple(at, page)
    requires Multiple(|data|, page) && page <= |data| && at + |data| <= |mem|
    requires Holds(mem, at, data)
    requires Blank(mem, at + |data|, |mem|)
    requires !Blank(data, |data| - page, |data|)
    ensures LogEnd(mem, page) == at + |data|
  {
    var e := at + |data|;
    MultipleSum(at, |data|, page);
    var k :| |data| - page <= k < |data| && data[k] != 0xFF;
    assert mem[at + k] != 0xFF;
    assert IsLogEnd(mem, page, e);
    LogEndUnique(mem, page, e, LogEnd(mem, page));
  }

  /** The meta word and the payload of a record, seen in the block. */
  lemma RecordInBlock(mem: seq<byte>, page: nat, at: nat, buf: seq<byte>)
    requires META_SIZE <= page && RecordLength(|buf|, page) < TWO_32
    requires at + RecordLength(|buf|, page) <= |mem| && Holds(mem, at, Record(buf, page))
    ensures var e := at + RecordLength(|buf|, page);
            && MetaMagic(mem, e) == CIRCULAR_MAGIC
            && MetaLength(mem, e) == RecordLength(|buf|, page)
            && mem[at..e - META_SIZE] == Padded(buf, page)
  {
    hide Le32, FromLe32, Record, Padded;
    var r := Record(buf, page);
    RecordEnd(buf, page);
    HoldsSlice(mem, at, r, |r| - 8, |r| - 4);
    HoldsSlice(mem, at, r, |r| - 4, |r|);
    HoldsSlice(mem, at, r, 0, |r| - META_SIZE);
    assert r[|r| - 4..|r|] == r[|r| - 4..];
  }

  /** What a mount and a read make of a block whose log ends with the record of buf. */
  lemma MountOnRecord(c: Circ, at: nat, buf: seq<byte>)
    requires Geometry(c.mem, c.page) && Multiple(at, c.page)
    requires at + RecordLength(|buf|, c.page) <= |c.mem|
    requires Holds(c.mem, at, Record(buf, c.page))
    requires Blank(c.mem, at + RecordLength(|buf|, c.page), |c.mem|)
    ensures var m := Mount(c);
            && m.writeArea == at + RecordLength(|buf|, c.page)
            && m.lastLen == RecordLength(|buf|, c.page)
            && Read(m, ReadOk) == (m, Ok(Padded(buf, c.page)))
  {
    hide MetaMagic, MetaLength, Record, Padded, Read, LogEnd, IsLogEnd, Holds, Blank;
    var r := Record(buf, c.page);
    RecordEnd(buf, c.page);
    MountAfterProgram(c.mem, c.page, at, r);
    RecordInBlock(c.mem, c.page, at, buf);
    ReadLast(Mount(c));
  }

  lemma ReadLast(m: Circ)
    requires Disciplined(m) && 0 < m.lastLen <= m.writeArea && Multiple(m.lastLen, m.page)
    ensures Read(m, ReadOk) == (m, Ok(m.mem[m.writeArea - m.lastLen..m.writeArea - META_SIZE]))
  {
  }

  /** The end of a record is its meta word, so its last page is never blank. */
  lemma RecordEnd(buf: seq<byte>, page: nat)
    requires META_SIZE <= page && RecordLength(|buf|, page) < TWO_32
    ensures var r := Record(buf, page);
            && page <= |r|
            && !Blank(r, |r| - page, |r|)
            && FromLe32(r[|r| - 8..|r| - 4]) == CIRCULAR_MAGIC
            && FromLe32(r[|r| - 4..]) == |r|
            && r[..|r| - META_SIZE] == Padded(buf, page)
  {
    hide Le32, FromLe32;
    var r := Record(buf, page);
    assert r[|r| - 8..|r| - 4] == Le32(CIRCULAR_MAGIC);
    assert r[|r| - 4..] == Le32(|r|);
    Le32RoundTrip(CIRCULAR_MAGIC);
    Le32RoundTrip(|r|);
    assert r[|r| - 8] == Le32(CIRCULAR_MAGIC)[0];
    MagicByte();
  }

  lemma MagicByte()
    ensures Le32(CIRCULAR_MAGIC)[0] != 0xFF
  {
  }

  /** After a complete write, from any reachable state, a mount recovers exactly the end and the
      length of the new record, and a read returns its zero-padded payload. */
  lemma WriteThenMount(c: Circ, buf: seq<byte>)
    requires Disciplined(c) && RecordLength(|buf|, c.page) <= |c.mem|
    ensures var w := Write(c, buf, WriteOk);
            var m := Mount(w.0);
            && w.1 == None
            && m.writeArea == w.0.writeArea && m.lastLen == RecordLength(|buf|, c.page)
            && Read(m, ReadOk) == (m, Ok(Padded(buf, c.page)))
            && Stored(w.0.mem, c.page) == Ok(Padded(buf, c.page))
  {
    hide Le32, FromLe32, Record, Padded, Read;
    var w := Write(c, buf, WriteOk).0;
    var r := Record(buf, c.page);
    var at := if Wraps(c, |r|) then 0 else c.writeArea;
    assert Holds(w.mem, at, r);
    MountOnRecord(w, at, buf);
    StoredIsRemountedRead(w);
  }

  // ----- A whole run refines a one-cell store -----

  datatype Event = DoWrite(buf: seq<byte>, io: WriteIo) | DoRead(how: ReadIo) | DoMount

  function Step(c: Circ, e: Event): (r: Circ)
    requires Disciplined(c)
    ensures Disciplined(r) && |r.mem| == |c.mem| && r.page == c.page
  {
    match e
    case DoWrite(buf, io) => Write(c, buf, io).0
    case DoRead(how) => Read(c, how).0
    case DoMount => Mount(c)
  }

  /** Every state of every run, whatever fails or tears, obeys the flash discipline. */
  function Run(c: Circ, events: seq<Event>): (r: Circ)
    requires Disciplined(c)
    ensures Disciplined(r) && |r.mem| == |c.mem| && r.page == c.page
    decreases |events|
  {
    if |events| == 0 then c else Run(Step(c, events[0]), events[1..])
  }

  /** The one-cell store: the payload of the last write that fitted. */
  function Cell(cell: Result<seq<byte>>, size: nat, page: nat, events: seq<Event>): Result<seq<byte>>
    requires page > 0
    decreases |events|
  {
    if |events| == 0 then cell
    else
      var e := events[0];
      var next := if e.DoWrite? && RecordLength(|e.buf|, page) <= size
                  then Ok(Padded(e.buf, page)) else cell;
      Cell(next, size, page, events[1..])
  }

  lemma {:induction false} RunRefinesCell(c: Circ, events: seq<Event>)
    requires Disciplined(c)
    requires forall e :: e in events && e.DoWrite? ==> e.io == WriteOk
    ensures Stored(Run(c, events).mem, c.page)
         == Cell(Stored(c.mem, c.page), |c.mem|, c.page, events)
    decreases |events|
  {
    if events != [] {
      var e := events[0];
      assert e in events;
      if e.DoWrite? && RecordLength(|e.buf|, c.page) <= |c.mem| {
        WriteThenMount(c, e.buf);
      }
      assert forall x :: x in events[1..] ==> x in events;
      RunRefinesCell(Step(c, e), events[1..]);
    }
  }

  // ----- Reading back without a remount -----

  /** A write does not update the length of the last record, so reading back in the same session
      returns the new payload exactly when the stale length happens to be right. */
  lemma ReadBackInSession(c: Circ, buf: seq<byte>)
    requires Disciplined(c) && RecordLength(|buf|, c.page) <= |c.mem|
    ensures Read(Write(c, buf, WriteOk).0, ReadOk).1 == Ok(Padded(buf, c.page))
            <==> (c.lastLen == RecordLength(|buf|, c.page)
                  || (c.lastLen == 0 && RecordLength(|buf|, c.page) == |c.mem|))
  {
    hide MetaMagic, MetaLength, Record, Padded, Read, Write, Holds, Blank, Multiple, FromLe32, Le32;
    var n := RecordLength(|buf|, c.page);
    var w := Write(c, buf, WriteOk).0;
    var at := w.writeArea - n;
    WritePlace(c, buf);
    RecordInBlock(w.mem, c.page, at, buf);
    ReadSession(w, n);
  }

  /** The record stands right before the write area; the length of the last record is not touched. */
  lemma WritePlace(c: Circ, buf: seq<byte>)
    requires Disciplined(c) && RecordLength(|buf|, c.page) <= |c.mem|
    ensures var n := RecordLength(|buf|, c.page);
            var w := Write(c, buf, WriteOk).0;
            && n <= w.writeArea <= |w.mem| && w.lastLen == c.lastLen
            && Holds(w.mem, w.writeArea - n, Record(buf, c.page))
  {
    hide Record;
  }

  /** An appended record leaves what stands before it. */
  lemma AppendKeepsPrefix(c: Circ, buf: seq<byte>)
    requires Disciplined(c) && RecordLength(|buf|, c.page) <= |c.mem| && !Wraps(c, RecordLength(|buf|, c.page))
    ensures var w := Write(c, buf, WriteOk).0;
            w.writeArea == c.writeArea + RecordLength(|buf|, c.page) && w.mem[..c.writeArea] == c.mem[..c.writeArea]
  {
    hide Record;
  }

  lemma ReadSession(m: Circ, n: nat)
    requires Disciplined(m) && m.page <= n <= m.writeArea && Multiple(n, m.page)
    ensures Read(m, ReadOk).1 == Ok(m.mem[m.writeArea - n..m.writeArea - META_SIZE])
            <==> (m.lastLen == n || (m.lastLen == 0 && n == |m.mem|))
  {
    var r := Read(m, ReadOk).1;
    if m.lastLen == 0 && n == |m.mem| {
      assert m.writeArea == n;
    } else if m.lastLen != n && r.Ok? {
      assert |r.value| != n - META_SIZE;
    }
  }

  /** So a first write into an empty block is read back only when its record fills the block. */
  lemma FirstWriteReadBack(c: Circ, buf: seq<byte>)
    requires Geometry(c.mem, c.page) && Blank(c.mem, 0, |c.mem|) && RecordLength(|buf|, c.page) <= |c.mem|
    ensures Read(Mount(c), ReadOk).1 == Err(ENODATA)
    ensures Read(Write(Mount(c), buf, WriteOk).0, ReadOk).1 == Ok(Padded(buf, c.page))
            <==> RecordLength(|buf|, c.page) == |c.mem|
  {
    hide Read, Write, LogEnd, Padded;
    BlankMount(c);
    ReadBackInSession(Mount(c), buf);
  }

  lemma BlankMount(c: Circ)
    requires Geometry(c.mem, c.page) && Blank(c.mem, 0, |c.mem|)
    ensures Mount(c).writeArea == 0 && Mount(c).lastLen == 0 && Read(Mount(c), ReadOk).1 == Err(ENODATA)
  {
    LogEndUnique(c.mem, c.page, LogEnd(c.mem, c.page), 0);
  }

  /** After a read that finds no usable length the next write starts the block anew, whatever its
      length; any other read changes nothing. */
  lemma ReadResets(c: Circ, io: ReadIo)
    requires Disciplined(c) && c.writeArea > 0
    ensures var usable := 0 < c.lastLen <= c.writeArea && Multiple(c.lastLen, c.page);
            && (usable ==> Read(c, io).0 == c)
            && (!usable ==> forall n: nat :: Wraps(Read(c, io).0, n))
            && (forall n: nat :: c.writeArea + n < |c.mem| ==> !Wraps(c, n))
  {
  }

  // ----- Torn writes -----

  /** A program step that stopped after the first k bytes of the record. */
  function TornAfter(buf: seq<byte>, page: nat, k: nat): (io: WriteIo)
    requires page > 0 && k <= RecordLength(|buf|, page)
  {
    WriteFails(Record(buf, page)[..k])
  }

  /** A write that has to erase first and then fails at once leaves an empty block. */
  lemma TornAfterErase(c: Circ, buf: seq<byte>)
    requires Disciplined(c) && RecordLength(|buf|, c.page) <= |c.mem| && Wraps(c, RecordLength(|buf|, c.page))
    ensures Stored(Write(c, buf, TornAfter(buf, c.page, 0)).0.mem, c.page) == Err(ENODATA)
  {
    hide Record;
    var n := RecordLength(|buf|, c.page);
    var r := Record(buf, c.page);
    var w := Write(c, buf, TornAfter(buf, c.page, 0)).0;
    assert Overlay(r[..0], Fill(n, 0xFF)) == Fill(n, 0xFF);
    assert w.mem == Fill(|c.mem|, 0xFF);
    LogEndUnique(w.mem, c.page, LogEnd(w.mem, c.page), 0);
  }

  /** An appending write that fails at once leaves the block as it was. */
  lemma TornAtOnce(c: Circ, buf: seq<byte>)
    requires Disciplined(c) && RecordLength(|buf|, c.page) <= |c.mem| && !Wraps(c, RecordLength(|buf|, c.page))
    ensures Write(c, buf, TornAfter(buf, c.page, 0)).0.mem == c.mem
  {
    hide Record;
    var n := RecordLength(|buf|, c.page);
    assert Overlay(Record(buf, c.page)[..0], Fill(n, 0xFF)) == Fill(n, 0xFF);
  }

  /** With one-page records and atomic page programming, an interrupted write leaves the old
      payload, the new one or, when it had to erase first, an empty block. */
  lemma OnePageTear(c: Circ, buf: seq<byte>, k: nat)
    requires Disciplined(c) && RecordLength(|buf|, c.page) <= |c.mem|
    requires RecordLength(|buf|, c.page) == c.page && k in {0, c.page}
    ensures Stored(Write(c, buf, TornAfter(buf, c.page, k)).0.mem, c.page)
         == (if k == c.page then Ok(Padded(buf, c.page))
             else if Wraps(c, RecordLength(|buf|, c.page)) then Err(ENODATA)
             else Stored(c.mem, c.page))
  {
    hide Stored, Wraps, Write;
    if k == c.page {
      TornAtEnd(c, buf);
    } else if Wraps(c, c.page) {
      TornAfterErase(c, buf);
    } else {
      TornAtOnce(c, buf);
    }
  }

  /** Where a record goes. */
  function Target(c: Circ, n: nat): nat {
    if Wraps(c, n) then 0 else c.writeArea
  }

  /** The page of a record that ends at k is neither blank nor ends like a record. */
  predicate PlainPage(buf: seq<byte>, page: nat, k: nat)
    requires META_SIZE <= page
  {
    var r := Record(buf, page);
    page <= k < |r| && Multiple(k, page) && !Blank(r, k - page, k) && FromLe32(r[k - 8..k - 4]) != CIRCULAR_MAGIC
  }

  /** A place where a torn record is told from a complete one: behind a plain page and, should a
      page hold nothing but the meta word, not just before the meta word of the first record. */
  predicate TearPoint(c: Circ, buf: seq<byte>, k: nat)
    requires META_SIZE <= c.page
  {
    var n := RecordLength(|buf|, c.page);
    PlainPage(buf, c.page, k) && (c.page > META_SIZE || n != Target(c, n) + k + META_SIZE)
  }

  /** A record that tears at such a point hides the previous record: the next read starts at the
      beginning of the block and returns all of it, its oldest record first. */
  lemma TornAtPlainPage(c: Circ, buf: seq<byte>, k: nat)
    requires Disciplined(c) && RecordLength(|buf|, c.page) <= |c.mem| && TearPoint(c, buf, k)
    ensures var w := Write(c, buf, TornAfter(buf, c.page, k)).0;
            var at := Target(c, RecordLength(|buf|, c.page));
            && Mount(w).lastLen == 0 && Mount(w).writeArea == at + k
            && Stored(w.mem, c.page) == Ok(w.mem[..at + k]) && w.mem[..at] == c.mem[..at]
            && Stored(w.mem, c.page) != Ok(Padded(buf, c.page))
            && (!Wraps(c, RecordLength(|buf|, c.page)) ==> Stored(w.mem, c.page) != Stored(c.mem, c.page))
  {
    hide Le32, FromLe32, Record, Padded, Read, Write, Mount, PlainPage;
    var p, n := c.page, RecordLength(|buf|, c.page);
    var at := Target(c, n);
    PlainPlace(c, buf, k);
    var w := Write(c, buf, TornAfter(buf, p, k)).0;
    TornMount(c, buf, k);
    ReadWithoutMeta(Mount(w));
    StoredIsRemountedRead(w);
    StoredIsRemountedRead(c);
    ReadLength(Mount(c));
    if !Wraps(c, n) {
      LogEndBelow(c);
      assert |w.mem[..at + k]| == at + k > Mount(c).writeArea;
    }
  }

  /** The arithmetic of a tear point. */
  lemma PlainPlace(c: Circ, buf: seq<byte>, k: nat)
    requires Disciplined(c) && RecordLength(|buf|, c.page) <= |c.mem| && TearPoint(c, buf, k)
    ensures var n := RecordLength(|buf|, c.page);
            var at := Target(c, n);
            && Multiple(at, c.page) && 0 < at + k <= |c.mem| - c.page && at + n <= |c.mem|
            && 0 < k < n && Multiple(k, c.page) && n != at + k + META_SIZE
  {
    hide Le32, FromLe32, Record, Blank;
    var p, n := c.page, RecordLength(|buf|, c.page);
    var at := Target(c, n);
    MultipleDifference(n, k, p);
    assert n - k >= p;
    if n == at + k + META_SIZE {
      MultipleDifference(n - k, at, p);
    }
  }

  lemma LogEndBelow(c: Circ)
    requires Disciplined(c) && c.writeArea > 0
    ensures Mount(c).writeArea <= c.writeArea
  {
    var e := LogEnd(c.mem, c.page);
    if e > c.writeArea {
      MultipleDifference(e, c.writeArea, c.page);
    }
  }

  lemma TornMount(c: Circ, buf: seq<byte>, k: nat)
    requires Disciplined(c) && RecordLength(|buf|, c.page) <= |c.mem| && PlainPage(buf, c.page, k)
    ensures var w := Write(c, buf, TornAfter(buf, c.page, k)).0;
            var at := Target(c, RecordLength(|buf|, c.page));
            Mount(w).lastLen == 0 && Mount(w).writeArea == at + k && w.mem[..at] == c.mem[..at]
  {
    hide Le32, FromLe32, Record, Padded, IsLogEnd, LogEnd, Write, TornAfter, Blank, Holds;
    var p, n := c.page, RecordLength(|buf|, c.page);
    var at := Target(c, n);
    var d := Record(buf, p)[..k];
    var w := Write(c, buf, TornAfter(buf, p, k)).0;
    TornPlace(c, buf, k);
    PlainPageAlone(buf, p, k);
    MountAfterProgram(w.mem, p, at, d);
    HoldsSlice(w.mem, at, d, k - 8, k - 4);
  }

  /** The block after a write that stopped behind the first k bytes of its record. */
  lemma TornPlace(c: Circ, buf: seq<byte>, k: nat)
    requires Disciplined(c) && RecordLength(|buf|, c.page) <= |c.mem| && k <= RecordLength(|buf|, c.page)
    ensures var n := RecordLength(|buf|, c.page);
            var at := Target(c, n);
            var w := Write(c, buf, TornAfter(buf, c.page, k)).0;
            && at + n <= |w.mem| == |c.mem| && Multiple(at, c.page)
            && Holds(w.mem, at, Record(buf, c.page)[..k])
            && Blank(w.mem, at + k, |w.mem|) && w.mem[..at] == c.mem[..at]
  {
    hide Record;
  }

  lemma PlainPageAlone(buf: seq<byte>, page: nat, k: nat)
    requires META_SIZE <= page && PlainPage(buf, page, k)
    ensures var d := Record(buf, page)[..k];
            !Blank(d, k - page, k) && FromLe32(d[k - 8..k - 4]) != CIRCULAR_MAGIC
  {
    hide FromLe32, Record;
    var r := Record(buf, page);
    var i :| k - page <= i < k && r[i] != 0xFF;
    assert r[..k][i] == r[i];
    assert r[..k][k - 8..k - 4] == r[k - 8..k - 4];
  }

  lemma ReadWithoutMeta(m: Circ)
    requires Disciplined(m) && m.lastLen == 0 && 0 < m.writeArea <= |m.mem| - META_SIZE
    ensures Read(m, ReadOk).1 == Ok(m.mem[..m.writeArea])
  {
  }

  lemma ReadLength(m: Circ)
    requires Disciplined(m)
    ensures Read(m, ReadOk).1.Ok? ==> |Read(m, ReadOk).1.value| <= m.writeArea
  {
  }

  /** Crash atomicity of a write, for page-wise tears: the old payload or the new one. */
  ghost predicate CrashAtomic(c: Circ, buf: seq<byte>)
    requires Disciplined(c) && RecordLength(|buf|, c.page) <= |c.mem|
  {
    forall k: nat :: k <= RecordLength(|buf|, c.page) && Multiple(k, c.page) ==>
      Stored(Write(c, buf, TornAfter(buf, c.page, k)).0.mem, c.page)
      in {Stored(c.mem, c.page), Ok(Padded(buf, c.page))}
  }

  /** Nothing but the last page of the record differs from erased flash; always so for one page. */
  predicate BlankInside(buf: seq<byte>, page: nat)
    requires META_SIZE <= page
  {
    var n := RecordLength(|buf|, page);
    page <= n && Blank(Record(buf, page), 0, n - page)
  }

  /** The bytes between j and k of a record look like erased flash, so it does not matter whether
      they were programmed. */
  lemma OverlayBlank(r: seq<byte>, j: nat, k: nat, n: nat)
    requires j <= k <= |r| && k <= n && Blank(r, j, k)
    ensures Overlay(r[..k], Fill(n, 0xFF)) == Overlay(r[..j], Fill(n, 0xFF))
  {
    var s, t := Overlay(r[..k], Fill(n, 0xFF)), Overlay(r[..j], Fill(n, 0xFF));
    forall i | 0 <= i < n
      ensures s[i] == t[i]
    {
      assert i < j ==> r[..j][i] == r[..k][i];
      assert j <= i < k ==> r[..k][i] == r[i];
    }
  }

  /** Two failing program steps that leave the same bytes leave the same block. */
  lemma SameProgram(c: Circ, buf: seq<byte>, io: WriteIo, io': WriteIo)
    requires Disciplined(c) && RecordLength(|buf|, c.page) <= |c.mem| && io.WriteFails? && io'.WriteFails?
    requires Programmed(buf, c.page, io) == Programmed(buf, c.page, io')
    ensures Write(c, buf, io) == Write(c, buf, io')
  {
    hide Programmed, Append;
  }

  /** A page in front of the last one, ending at j, that can be told from erased flash. */
  predicate InnerPage(buf: seq<byte>, page: nat, j: nat)
    requires page > 0
  {
    var r := Record(buf, page);
    page <= j < |r| && Multiple(j, page) && !Blank(r, j - page, j)
  }

  /** The log that a tear behind the first j bytes of the record leaves. */
  function TornLog(c: Circ, buf: seq<byte>, j: nat): seq<byte>
    requires Disciplined(c) && RecordLength(|buf|, c.page) <= |c.mem| && j <= RecordLength(|buf|, c.page)
  {
    c.mem[..Target(c, RecordLength(|buf|, c.page))] + Record(buf, c.page)[..j]
  }

  /** Where the last page before k that is not blank ends, 0 if there is none. */
  function TornEnd(buf: seq<byte>, page: nat, k: nat): (j: nat)
    requires META_SIZE <= page && k < RecordLength(|buf|, page) && Multiple(k, page)
    ensures j <= k && Blank(Record(buf, page), j, k) && (j == 0 || InnerPage(buf, page, j))
  {
    var d := Record(buf, page)[..k];
    var j := LogEnd(d, page);
    assert forall i :: j <= i < k ==> d[i] == Record(buf, page)[i];
    assert j > 0 ==> !Blank(d, j - page, j) && forall i :: j - page <= i < j ==> d[i] == Record(buf, page)[i];
    j
  }

  /** What a start finds after a tear behind whole pages of a record: the last page that is not blank
      is taken for the end of a log, whatever its last 8 bytes say. */
  lemma TornReads(c: Circ, buf: seq<byte>, k: nat)
    requires Disciplined(c) && RecordLength(|buf|, c.page) <= |c.mem|
    requires k < RecordLength(|buf|, c.page) && Multiple(k, c.page)
    ensures var j := TornEnd(buf, c.page, k);
            var n := RecordLength(|buf|, c.page);
            && (j > 0 ==> c.page <= |TornLog(c, buf, j)| <= |c.mem|)
            && Stored(Write(c, buf, TornAfter(buf, c.page, k)).0.mem, c.page)
            == (if j > 0 then LogValue(TornLog(c, buf, j), |c.mem|, c.page)
                else if Wraps(c, n) then Err(ENODATA) else Stored(c.mem, c.page))
  {
    hide Record, Stored, Wraps, Write, LogValue, InnerPage, TornEnd;
    var p, n := c.page, RecordLength(|buf|, c.page);
    var j := TornEnd(buf, p, k);
    OverlayBlank(Record(buf, p), j, k, n);
    SameProgram(c, buf, TornAfter(buf, p, k), TornAfter(buf, p, j));
    if j > 0 {
      TornInside(c, buf, j);
    } else if Wraps(c, n) {
      TornAfterErase(c, buf);
    } else {
      TornAtOnce(c, buf);
    }
  }

  lemma TornInside(c: Circ, buf: seq<byte>, j: nat)
    requires Disciplined(c) && RecordLength(|buf|, c.page) <= |c.mem| && InnerPage(buf, c.page, j)
    ensures c.page <= |TornLog(c, buf, j)| <= |c.mem|
    ensures Stored(Write(c, buf, TornAfter(buf, c.page, j)).0.mem, c.page)
         == LogValue(TornLog(c, buf, j), |c.mem|, c.page)
  {
    hide FromLe32, Record, IsLogEnd, LogEnd, Write, TornAfter, Blank, Holds, LogValue, Stored;
    var p := c.page;
    var at := Target(c, RecordLength(|buf|, p));
    var d := Record(buf, p)[..j];
    var w := Write(c, buf, TornAfter(buf, p, j)).0;
    TornPlace(c, buf, j);
    InnerPageAlone(buf, p, j);
    MountAfterProgram(w.mem, p, at, d);
    HoldsIffSlice(w.mem, at, d);
    assert w.mem[..at + j] == TornLog(c, buf, j);
    StoredIsLogValue(w.mem, p, at + j);
  }

  lemma InnerPageAlone(buf: seq<byte>, page: nat, j: nat)
    requires page > 0 && InnerPage(buf, page, j)
    ensures !Blank(Record(buf, page)[..j], j - page, j)
  {
    hide Record;
    var r := Record(buf, page);
    var i :| j - page <= i < j && r[i] != 0xFF;
    assert r[..j][i] == r[i];
  }

  lemma NoInnerPage(buf: seq<byte>, page: nat, j: nat)
    requires META_SIZE <= page && BlankInside(buf, page)
    ensures !InnerPage(buf, page, j)
  {
    hide Record;
    if InnerPage(buf, page, j) {
      MultipleDifference(RecordLength(|buf|, page), j, page);
    }
  }

  /** A tear before the last page of such a record programs nothing that a start would see. */
  lemma TearBeforeLastPage(c: Circ, buf: seq<byte>, k: nat)
    requires Disciplined(c) && RecordLength(|buf|, c.page) <= |c.mem| && BlankInside(buf, c.page)
    requires k < RecordLength(|buf|, c.page) && Multiple(k, c.page)
    ensures Stored(Write(c, buf, TornAfter(buf, c.page, k)).0.mem, c.page)
         == if Wraps(c, RecordLength(|buf|, c.page)) then Err(ENODATA) else Stored(c.mem, c.page)
  {
    hide Stored, Wraps, Write, InnerPage, TornEnd, TornAfter, LogValue, BlankInside;
    TornReads(c, buf, k);
    NoInnerPage(buf, c.page, TornEnd(buf, c.page, k));
  }

  /** A write is crash-atomic exactly when it has nothing to lose by an erase, and whatever log an
      inner page of its record would end gives the old payload or the new one. */
  lemma CrashAtomicIff(c: Circ, buf: seq<byte>)
    requires Disciplined(c) && RecordLength(|buf|, c.page) <= |c.mem|
    ensures forall j :: InnerPage(buf, c.page, j) ==> c.page <= |TornLog(c, buf, j)| <= |c.mem|
    ensures CrashAtomic(c, buf) <==>
      && (Wraps(c, RecordLength(|buf|, c.page)) ==> Stored(c.mem, c.page) == Err(ENODATA))
      && (forall j :: InnerPage(buf, c.page, j) ==>
            LogValue(TornLog(c, buf, j), |c.mem|, c.page) in {Stored(c.mem, c.page), Ok(Padded(buf, c.page))})
  {
    hide Stored, Write, TornAfter, Wraps, LogValue, InnerPage, TornLog, TornEnd, Padded;
    var p, n := c.page, RecordLength(|buf|, c.page);
    PageIsMultiple(c);
    if Wraps(c, n) {
      TornAfterErase(c, buf);
    }
    forall j | InnerPage(buf, p, j)
      ensures j <= n && Multiple(j, p) && p <= |TornLog(c, buf, j)| <= |c.mem|
      ensures Stored(Write(c, buf, TornAfter(buf, p, j)).0.mem, p) == LogValue(TornLog(c, buf, j), |c.mem|, p)
    {
      InnerPagePlace(buf, p, j);
      TornInside(c, buf, j);
    }
    forall k: nat | k <= n && Multiple(k, p)
      ensures Stored(Write(c, buf, TornAfter(buf, p, k)).0.mem, p)
              == if k == n then Ok(Padded(buf, p))
                 else if TornEnd(buf, p, k) > 0 then LogValue(TornLog(c, buf, TornEnd(buf, p, k)), |c.mem|, p)
                 else if Wraps(c, n) then Err(ENODATA) else Stored(c.mem, p)
    {
      if k == n {
        TornAtEnd(c, buf);
      } else {
        TornReads(c, buf, k);
      }
    }
  }

  lemma InnerPagePlace(buf: seq<byte>, page: nat, j: nat)
    requires page > 0 && InnerPage(buf, page, j)
    ensures 0 < j < RecordLength(|buf|, page) && Multiple(j, page)
  {
  }

  /** Without a page that imitates the end of a record, only records that are blank up to their last
      page meet the condition. */
  lemma CrashAtomicUnlessImitated(c: Circ, buf: seq<byte>)
    requires Disciplined(c) && RecordLength(|buf|, c.page) <= |c.mem|
    requires BlankInside(buf, c.page) || exists k :: TearPoint(c, buf, k)
    ensures CrashAtomic(c, buf) <==>
      && BlankInside(buf, c.page)
      && (Wraps(c, RecordLength(|buf|, c.page)) ==> Stored(c.mem, c.page) == Err(ENODATA))
  {
    hide Stored, Write, TornAfter, Wraps, Blank, TearPoint, BlankInside, InnerPage, LogValue;
    var p, n := c.page, RecordLength(|buf|, c.page);
    if BlankInside(buf, p) {
      forall j | InnerPage(buf, p, j)
        ensures false
      {
        NoInnerPage(buf, p, j);
      }
      CrashAtomicIff(c, buf);
    } else {
      var k :| TearPoint(c, buf, k);
      TornAtPlainPage(c, buf, k);
      PlainPlace(c, buf, k);
      if Wraps(c, n) {
        TornAfterErase(c, buf);
        PageIsMultiple(c);
      }
      assert Stored(Write(c, buf, TornAfter(buf, p, k)).0.mem, p).Ok?;
    }
  }

  /** A step that reports failure behind the whole record has written it. */
  lemma TornAtEnd(c: Circ, buf: seq<byte>)
    requires Disciplined(c) && RecordLength(|buf|, c.page) <= |c.mem|
    ensures Stored(Write(c, buf, TornAfter(buf, c.page, RecordLength(|buf|, c.page))).0.mem, c.page)
         == Ok(Padded(buf, c.page))
  {
    hide Stored, Wraps, Record;
    var r, n := Record(buf, c.page), RecordLength(|buf|, c.page);
    assert r[..n] == r;
    assert Overlay(r, Fill(n, 0xFF)) == r;
    assert Write(c, buf, TornAfter(buf, c.page, n)).0 == Write(c, buf, WriteOk).0;
    WriteThenMount(c, buf);
  }

  /** One page is the case the program is made for: its record is always blank inside. */
  lemma OnePageIsBlankInside(buf: seq<byte>, page: nat)
    requires META_SIZE <= page && RecordLength(|buf|, page) == page
    ensures BlankInside(buf, page)
  {
  }

  lemma PageIsMultiple(c: Circ)
    requires Disciplined(c)
    ensures META_SIZE <= c.page && Multiple(0, c.page) && Multiple(c.page, c.page)
  {
  }

  // ----- Erase economy -----

  /** How many erases a series of complete writes causes. */
  function Erases(c: Circ, bufs: seq<seq<byte>>): nat
    requires Disciplined(c)
    decreases |bufs|
  {
    if |bufs| == 0 then 0
    else
      var n := RecordLength(|bufs[0]|, c.page);
      (if n <= |c.mem| && Wraps(c, n) then 1 else 0) + Erases(Write(c, bufs[0], WriteOk).0, bufs[1..])
  }

  /** Records of length n that one erase makes room for. */
  function PerErase(size: nat, n: nat): (k: nat)
    requires 0 < n <= size
    ensures k >= 1
  {
    if (size - 1) / n >= 1 then (size - 1) / n else 1
  }

  /** The least number of groups of k that hold m items. */
  function CeilDiv(m: nat, k: nat): nat
    requires k > 0
    decreases m
  {
    if m == 0 then 0 else if m <= k then 1 else 1 + CeilDiv(m - k, k)
  }

  lemma {:induction false} CeilDivByDivision(m: nat, k: nat)
    requires k > 0
    ensures CeilDiv(m, k) == (m + k - 1) / k
    decreases m
  {
    if m == 0 {
      DivModUnique(k - 1, k, 0, k - 1);
    } else if m <= k {
      DivModUnique(m + k - 1, k, 1, m - 1);
    } else {
      CeilDivByDivision(m - k, k);
      StepDiv(m + k - 1, k);
    }
  }

  /** Records of length n that still fit behind the write area. */
  function Slots(size: nat, n: nat, writeArea: nat): nat
    requires n > 0
    decreases size - writeArea
  {
    if writeArea == 0 || writeArea + n >= size then 0 else 1 + Slots(size, n, writeArea + n)
  }

  lemma {:induction false} SlotsByDivision(size: nat, n: nat, writeArea: nat)
    requires n > 0 && 0 < writeArea < size
    ensures Slots(size, n, writeArea) == (size - 1 - writeArea) / n
    decreases size - writeArea
  {
    var x := size - 1 - writeArea;
    if writeArea + n >= size {
      DivModUnique(x, n, 0, x);
    } else {
      SlotsByDivision(size, n, writeArea + n);
      StepDiv(x, n);
    }
  }

  lemma StepDiv(x: nat, n: nat)
    requires 0 < n <= x
    ensures (x - n) / n == x / n - 1
  {
    DivMod(x, n);
    DivModUnique(x - n, n, x / n - 1, x % n);
  }

  lemma SlotsAfterErase(size: nat, n: nat)
    requires 0 < n <= size
    ensures Slots(size, n, n) + 1 == PerErase(size, n)
  {
    if n <= size - 1 {
      SlotsByDivision(size, n, n);
      StepDiv(size - 1, n);
    } else {
      DivModUnique(size - 1, n, 0, size - 1);
    }
  }

  /** From any state, writes of one record length erase only when the slots are used up. */
  lemma {:induction false} ErasesFrom(c: Circ, bufs: seq<seq<byte>>, n: nat)
    requires Disciplined(c) && 0 < n <= |c.mem|
    requires forall b :: b in bufs ==> RecordLength(|b|, c.page) == n
    ensures Erases(c, bufs)
         == CeilDiv(Over(|bufs|, Slots(|c.mem|, n, c.writeArea)), PerErase(|c.mem|, n))
    decreases |bufs|
  {
    hide PerErase, Write, Disciplined;
    if |bufs| > 0 {
      assert bufs[0] in bufs;
      assert forall b :: b in bufs[1..] ==> b in bufs;
      WriteAreaAfter(c, bufs[0]);
      SlotsAfterErase(|c.mem|, n);
      ErasesFrom(Write(c, bufs[0], WriteOk).0, bufs[1..], n);
    }
  }

  function Over(m: nat, s: nat): nat {
    if m > s then m - s else 0
  }

  lemma WriteAreaAfter(c: Circ, buf: seq<byte>)
    requires Disciplined(c) && RecordLength(|buf|, c.page) <= |c.mem|
    ensures var n := RecordLength(|buf|, c.page);
            Write(c, buf, WriteOk).0.writeArea == n + if Wraps(c, n) then 0 else c.writeArea
  {
  }

  /** Starting on an empty block, writes of one record length n cause as few erases as the block
      allows: one for every floor((size - 1) / n) records, or for every record if none fits twice. */
  lemma {:induction false} EraseEconomy(c: Circ, bufs: seq<seq<byte>>, n: nat)
    requires Disciplined(c) && c.writeArea == 0 && 0 < n <= |c.mem|
    requires forall b :: b in bufs ==> RecordLength(|b|, c.page) == n
    ensures Erases(c, bufs)
         == (|bufs| + PerErase(|c.mem|, n) - 1) / PerErase(|c.mem|, n)
  {
    hide PerErase, Erases, Disciplined;
    ErasesFrom(c, bufs, n);
    CeilDivByDivision(|bufs|, PerErase(|c.mem|, n));
  }
}
