/** The buckets as the program drives them: objects over a medium that they change in place. */
module BucketDrivers {
  import opened Bytes
  import opened Buckets
  import opened C = CircularLog

  /** A circular bucket: one eraseblock, the write area and the length of the last record. */
  class CircularBucket {
    const flash: array<byte>
    const page: nat
    var writeArea: nat
    var lastLen: nat
    var wrongMagic: bool

    ghost function State(): Circ
      reads this, flash
    {
      Circ(flash[..], page, writeArea, lastLen, wrongMagic)
    }

    ghost predicate Valid()
      reads this, flash
    {
      Disciplined(State())
    }

    constructor (flash: array<byte>, writesize: nat)
      requires Geometry(flash[..], if writesize < 8 then 8 else writesize)
      ensures Valid() && this.flash == flash
      ensures page == if writesize < 8 then 8 else writesize
      ensures State() == Mount(Circ(flash[..], page, 0, 0, false))
    {
      this.flash := flash;
      this.page := if writesize < 8 then 8 else writesize;
      this.writeArea, this.lastLen, this.wrongMagic := 0, 0, false;
      new;
      Init();
    }

    /** mtd_buf_all_ff */
    static method AllFF(buf: seq<byte>, from: nat, len: nat) returns (all: bool)
      requires from + len <= |buf|
      ensures all <==> Blank(buf, from, from + len)
    {
      var i := from;
      while i < from + len
        invariant from <= i <= from + len && Blank(buf, from, i)
      {
        if buf[i] != 0xFF {
          return false;
        }
        i := i + 1;
      }
      return true;
    }

    /** Search the end of the written area backwards, page by page. */
    method Init()
      requires Geometry(flash[..], page)
      modifies this
      ensures Valid() && State() == Mount(old(State()))
    {
      hide MetaMagic, MetaLength, LogEnd;
      ghost var m := Mount(State());
      var buf := flash[..];
      var written, foreign := 0, false;
      var sub: int := |buf| - page;
      while sub >= 0
        invariant -(page as int) <= sub <= |buf| - page
        invariant Multiple(sub + page, page) && Blank(buf, sub + page, |buf|)
        invariant written == 0 && !foreign && wrongMagic == old(wrongMagic)
      {
        var blank := AllFF(buf, sub, page);
        if !blank {
          var end := sub + page;
          if MetaMagic(buf, end) != CIRCULAR_MAGIC {
            foreign := MetaMagic(buf, end) != TWO_32 - 1 && MetaMagic(buf, end) != 0;
          } else {
            written := MetaLength(buf, end);
          }
          assert IsLogEnd(buf, page, end);
          break;
        }
        sub := sub - page;
      }
      var e: nat := sub + page;
      assert IsLogEnd(buf, page, e);
      LogEndUnique(buf, page, e, LogEnd(buf, page));
      assert m.writeArea == e && m.lastLen == written;
      assert m.wrongMagic == (wrongMagic || foreign);
      writeArea, lastLen, wrongMagic := e, written, wrongMagic || foreign;
      assert State() == m;
    }

    method Read(io: ReadIo) returns (r: Result<seq<byte>>)
      requires Valid()
      modifies this
      ensures Valid() && (State(), r) == C.Read(old(State()), io)
    {
      var max := flash.Length;
      if writeArea == 0 {
        return Err(ENODATA);
      }
      var from, n;
      if lastLen == 0 {
        from, n := 0, if writeArea < max - META_SIZE then writeArea else max - META_SIZE;
        writeArea := 0;
      } else if lastLen > writeArea || !Multiple(lastLen, page) {
        writeArea := 0;
        return Err(EINVAL);
      } else {
        from, n := writeArea - lastLen, lastLen - META_SIZE;
      }
      if io == ReadFails {
        return Err(EIO);
      }
      r := Ok(flash[from..from + n]);
    }

    /** Program an erased area; a failing step leaves whatever io says. */
    method ProgramFlash(at: nat, data: seq<byte>)
      requires at + |data| <= flash.Length && Blank(flash[..], at, at + |data|)
      modifies flash
      ensures flash[..] == Program(old(flash[..]), at, data)
    {
      forall i | at <= i < at + |data| {
        flash[i] := data[i - at];
      }
    }

    /** Erase the block; a failing erase leaves whatever io says. */
    method EraseFlash(io: WriteIo) returns (ok: bool)
      modifies flash
      ensures ok <==> !io.Refused? && !io.EraseFails?
      ensures flash[..] == match io
                           case Refused => old(flash[..])
                           case EraseFails(left) => Overlay(left, old(flash[..]))
                           case _ => Fill(flash.Length, 0xFF)
    {
      if io.Refused? {
        return false;
      }
      if io.EraseFails? {
        forall i | 0 <= i < flash.Length && i < |io.left| {
          flash[i] := io.left[i];
        }
        return false;
      }
      forall i | 0 <= i < flash.Length {
        flash[i] := 0xFF;
      }
      return true;
    }

    method Write(buf: seq<byte>, io: WriteIo) returns (err: Option<Error>)
      requires Valid()
      modifies this, flash
      ensures Valid() && (State(), err) == C.Write(old(State()), buf, io)
    {
      hide RecordLength, Programmed, Record, Overlay, Fill, C.Append;
      var n := RecordLength(|buf|, page);
      if n > flash.Length {
        return Some(E2BIG);
      }
      if writeArea + n >= flash.Length {
        writeArea := 0;
      }
      if writeArea == 0 {
        var erased := EraseFlash(io);
        if !erased {
          return Some(EIO);
        }
      }
      Append(Programmed(buf, page, io));
      err := if io.WriteFails? || io.Refused? then Some(EIO) else None;
    }

    /** The write area moves before the program step, which may stop half way. */
    method Append(data: seq<byte>)
      requires Valid() && Blank(flash[..], writeArea, flash.Length)
      requires writeArea + |data| <= flash.Length && Multiple(|data|, page)
      modifies this, flash
      ensures Valid() && State() == C.Append(old(State()), data)
    {
      ghost var after := C.Append(State(), data);
      var offset := writeArea;
      writeArea := writeArea + |data|;
      ProgramFlash(offset, data);
      assert State() == after;
    }
  }

  /** A direct bucket: one stride that every write overwrites from its start. */
  class DirectBucket {
    const medium: array<byte>
    var wrongMagic: bool

    ghost function State(): seq<byte>
      reads this, medium
    {
      medium[..]
    }

    ghost predicate Valid() {
      META_SIZE <= medium.Length < TWO_32
    }

    constructor (medium: array<byte>)
      requires META_SIZE <= medium.Length < TWO_32
      ensures Valid() && this.medium == medium && !wrongMagic
    {
      this.medium := medium;
      this.wrongMagic := false;
    }

    method Read(io: ReadIo) returns (r: Result<seq<byte>>)
      requires Valid()
      modifies this
      ensures r == DirectRead(State(), io)
      ensures wrongMagic == (old(wrongMagic) || (io == ReadOk && DirectForeign(State())))
    {
      if io != ReadOk {
        return Err(EIO);
      }
      var s := medium[..];
      var magic, len := FromLe32(s[..4]), FromLe32(s[4..8]);
      if magic != DIRECT_MAGIC {
        if magic != TWO_32 - 1 && magic != 0 {
          wrongMagic := true;
        }
        return Err(EINVAL);
      }
      if len > medium.Length - META_SIZE {
        return Err(EINVAL);
      }
      r := Ok(s[8..8 + len]);
    }

    method Store(at: nat, data: seq<byte>)
      requires at + |data| <= medium.Length
      modifies medium
      ensures medium[..] == old(medium[..at]) + data + old(medium[at + |data|..])
    {
      forall i | at <= i < at + |data| {
        medium[i] := data[i - at];
      }
    }

    method Write(buf: seq<byte>, io: WriteIo) returns (err: Option<Error>)
      requires Valid()
      modifies medium
      ensures (State(), err) == DirectWrite(old(State()), buf, io)
    {
      hide Le32, Overlay;
      ghost var s := medium[..];
      var n := META_SIZE + |buf|;
      if io.Refused? {
        return Some(EIO);
      }
      if n > medium.Length {
        return Some(EINVAL);
      }
      if !io.WriteOk? {
        var torn := Overlay(io.left, medium[..n]);
        Store(0, torn);
        assert medium[..] == torn + s[n..] && s[..n] == old(medium[..n]);
        return Some(EIO);
      }
      Store(0, Le32(DIRECT_MAGIC) + Le32(|buf|));
      Store(META_SIZE, buf);
      assert medium[..] == DirectImage(buf) + s[n..];
      return None;
    }
  }
}
