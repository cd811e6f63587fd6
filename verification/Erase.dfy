/** Erases that stop half way, in blocks that hold records of one page: which of them keep what the
    block stands for, and when all of them do. */
module Erase {
  import opened Bytes
  import opened C = CircularLog
  import opened B = Buckets
  import opened R = Register

  /** A page ends here. */
  predicate PageEnd(mem: seq<byte>, page: nat, f: nat)
    requires page > 0
  {
    page <= f <= |mem| && Multiple(f, page)
  }

  /** The page that ends at f is a record of its own. */
  predicate RecordPage(mem: seq<byte>, page: nat, f: nat)
    requires META_SIZE <= page && PageEnd(mem, page, f)
  {
    MetaMagic(mem, f) == CIRCULAR_MAGIC && MetaLength(mem, f) == page
  }

  /** The padded payload of such a record. */
  function PageValue(mem: seq<byte>, page: nat, f: nat): seq<byte>
    requires META_SIZE <= page && PageEnd(mem, page, f)
  {
    mem[f - page..f - META_SIZE]
  }

  /** A page that was programmed. */
  predicate Used(mem: seq<byte>, page: nat, f: nat)
    requires page > 0
  {
    PageEnd(mem, page, f) && !Blank(mem, f - page, f)
  }

  /** Every page of the block is erased or a record of its own. */
  ghost predicate PagedLog(mem: seq<byte>, page: nat)
    requires META_SIZE <= page
  {
    forall f: nat :: Used(mem, page, f) ==> RecordPage(mem, page, f)
  }

  /** An erase that went page by page leaves each page as it was or erased. */
  ghost predicate PageWise(mem: seq<byte>, m: seq<byte>, page: nat)
    requires page > 0
  {
    |m| == |mem| && forall f: nat :: Used(m, page, f) ==> m[f - page..f] == mem[f - page..f]
  }

  // ----- What a block stands for -----

  /** The value a start finds in the block. */
  function BlockValue(mem: seq<byte>, page: nat, verify: Verifier): Option<seq<byte>>
    requires Geometry(mem, page)
  {
    match Stored(mem, page)
    case Ok(s) => Accepted(verify, s)
    case Err(_) => None
  }

  /** A block whose last page in use is a record of its own stands for that record. */
  lemma StoredInPage(mem: seq<byte>, page: nat, e: nat)
    requires Geometry(mem, page) && IsLogEnd(mem, page, e) && e > 0 && RecordPage(mem, page, e)
    ensures Stored(mem, page) == Ok(PageValue(mem, page, e))
  {
    hide FromLe32, Stored, IsLogEnd, Multiple, MetaMagic, MetaLength;
    StoredIsLogValue(mem, page, e);
    LogPlace(mem, page, e);
    PrefixMeta(mem, e);
    PageIsOnePage(page);
    assert mem[..e][e - page..e - META_SIZE] == mem[e - page..e - META_SIZE];
  }

  lemma PrefixMeta(mem: seq<byte>, e: nat)
    requires META_SIZE <= e <= |mem|
    ensures MetaMagic(mem[..e], e) == MetaMagic(mem, e) && MetaLength(mem[..e], e) == MetaLength(mem, e)
  {
    hide FromLe32;
    var log := mem[..e];
    assert log[e - 8..e - 4] == mem[e - 8..e - 4] && log[e - 4..e] == mem[e - 4..e];
  }

  lemma PageIsOnePage(page: nat)
    requires page > 0
    ensures Multiple(page, page)
  {
    assert Multiple(0, page);
  }

  /** What is left after such an erase: nothing, or the last record that it spared. */
  lemma InterruptedErase(mem: seq<byte>, m: seq<byte>, page: nat)
    requires Geometry(mem, page) && PagedLog(mem, page) && PageWise(mem, m, page)
    ensures Geometry(m, page)
    ensures var f := LogEnd(m, page);
            && (f > 0 ==> Used(mem, page, f))
            && Stored(m, page) == if f == 0 then Err(ENODATA) else Ok(PageValue(mem, page, f))
  {
    hide Stored, MetaMagic, MetaLength, LogEnd;
    var f := LogEnd(m, page);
    StoredIsLogValue(m, page, f);
    if f > 0 {
      assert Used(m, page, f);
      SamePage(mem, m, page, f);
      StoredInPage(m, page, f);
    }
  }

  lemma SamePage(mem: seq<byte>, m: seq<byte>, page: nat, f: nat)
    requires META_SIZE <= page && |m| == |mem| && Used(m, page, f) && m[f - page..f] == mem[f - page..f]
    ensures Used(mem, page, f) && (RecordPage(m, page, f) <==> RecordPage(mem, page, f))
    ensures PageValue(m, page, f) == PageValue(mem, page, f)
  {
    hide FromLe32, Multiple, Blank;
    SameSlice(mem, m, f - page, f, f - 8, f - 4);
    SameSlice(mem, m, f - page, f, f - 4, f);
    SameSlice(mem, m, f - page, f, f - page, f - META_SIZE);
    SameBlank(mem, m, f - page, f);
  }

  lemma SameSlice(s: seq<byte>, t: seq<byte>, a: nat, b: nat, i: nat, j: nat)
    requires a <= i <= j <= b <= |s| == |t| && s[a..b] == t[a..b]
    ensures s[i..j] == t[i..j]
  {
    SliceOfSlice(s, a, b, i - a, j - a);
    SliceOfSlice(t, a, b, i - a, j - a);
  }

  lemma SameBlank(s: seq<byte>, t: seq<byte>, a: nat, b: nat)
    requires a <= b <= |s| == |t| && s[a..b] == t[a..b]
    ensures Blank(s, a, b) <==> Blank(t, a, b)
  {
    forall i | a <= i < b
      ensures s[i] == t[i]
    {
      assert s[a..b][i - a] == t[a..b][i - a];
    }
  }

  /** Only the page that ends at f was spared. */
  function OnlyPage(mem: seq<byte>, page: nat, f: nat): (m: seq<byte>)
    requires page > 0 && PageEnd(mem, page, f)
    ensures |m| == |mem|
  {
    Fill(f - page, 0xFF) + mem[f - page..f] + Fill(|mem| - f, 0xFF)
  }

  lemma OnlyPageBytes(mem: seq<byte>, page: nat, f: nat)
    requires page > 0 && PageEnd(mem, page, f)
    ensures var m := OnlyPage(mem, page, f);
            Blank(m, 0, f - page) && m[f - page..f] == mem[f - page..f] && Blank(m, f, |m|)
  {
    hide Multiple;
  }

  lemma OnlyPageLeft(mem: seq<byte>, page: nat, f: nat)
    requires Geometry(mem, page) && Used(mem, page, f)
    ensures var m := OnlyPage(mem, page, f); PageWise(mem, m, page) && LogEnd(m, page) == f
  {
    hide LogEnd, OnlyPage, Multiple;
    var m := OnlyPage(mem, page, f);
    OnlyPageBytes(mem, page, f);
    SameBlank(mem, m, f - page, f);
    LogEndUnique(m, page, f, LogEnd(m, page));
    forall g: nat | Used(m, page, g)
      ensures g == f
    {
      PagesApart(page, f, g);
    }
  }

  /** Two pages are the same or do not touch. */
  lemma PagesApart(page: nat, f: nat, g: nat)
    requires page > 0 && Multiple(f, page) && Multiple(g, page)
    ensures f == g || f + page <= g || g + page <= f
  {
    if f <= g {
      MultipleDifference(g, f, page);
    } else {
      MultipleDifference(f, g, page);
    }
  }

  // ----- Which erases do no harm -----

  /** No page of the block would be accepted with another value than the block stands for. */
  ghost predicate NoOtherValue(mem: seq<byte>, page: nat, verify: Verifier)
    requires Geometry(mem, page)
  {
    forall f: nat :: Used(mem, page, f) ==>
      Accepted(verify, PageValue(mem, page, f)) in {None, BlockValue(mem, page, verify)}
  }

  /** When a write has to erase first and that may stop behind any set of pages, the old value, the
      new one or nothing is left exactly when no page of the block would be accepted with any other. */
  lemma EraseIsCleanIff(b: Bucket, buf: seq<byte>, verify: Verifier)
    requires B.Valid(b) && b.medium.Circular? && Fits(b, |buf|)
    requires var c := b.medium.circ; Wraps(c, RecordLength(|buf|, c.page)) && PagedLog(c.mem, c.page)
    ensures var c := b.medium.circ;
            (forall m :: PageWise(c.mem, m, c.page) ==> CleanWrite(b, buf, EraseFails(m), verify))
            <==> (forall f: nat :: Used(c.mem, c.page, f) ==>
                    Accepted(verify, PageValue(c.mem, c.page, f)) in {None, View(b, verify), Some(buf)})
  {
    hide LogEnd, View, WriteBucket, PagedLog, Accepted;
    var c := b.medium.circ;
    forall m | PageWise(c.mem, m, c.page)
      ensures var f := LogEnd(m, c.page);
              && (f > 0 ==> Used(c.mem, c.page, f))
              && View(WriteBucket(b, buf, EraseFails(m)).0, verify)
              == if f == 0 then None else Accepted(verify, PageValue(c.mem, c.page, f))
    {
      assert Overlay(m, c.mem) == m;
      ErasedView(b, buf, m, verify);
      InterruptedErase(c.mem, m, c.page);
    }
    forall f: nat | Used(c.mem, c.page, f)
      ensures PageWise(c.mem, OnlyPage(c.mem, c.page, f), c.page)
      ensures View(WriteBucket(b, buf, EraseFails(OnlyPage(c.mem, c.page, f))).0, verify)
           == Accepted(verify, PageValue(c.mem, c.page, f))
    {
      OnlyPageLeft(c.mem, c.page, f);
    }
    if forall m :: PageWise(c.mem, m, c.page) ==> CleanWrite(b, buf, EraseFails(m), verify) {
      forall f: nat | Used(c.mem, c.page, f)
        ensures Accepted(verify, PageValue(c.mem, c.page, f)) in {None, View(b, verify), Some(buf)}
      {
        assert CleanWrite(b, buf, EraseFails(OnlyPage(c.mem, c.page, f)), verify);
      }
    }
  }

  /** After an erase that failed a start finds what the block was left with. */
  lemma ErasedView(b: Bucket, buf: seq<byte>, left: seq<byte>, verify: Verifier)
    requires B.Valid(b) && b.medium.Circular? && Fits(b, |buf|)
    requires Wraps(b.medium.circ, RecordLength(|buf|, b.medium.circ.page))
    ensures var c := b.medium.circ;
            View(WriteBucket(b, buf, EraseFails(left)).0, verify) == BlockValue(Overlay(left, c.mem), c.page, verify)
  {
    hide Stored, View;
    CircularView(WriteBucket(b, buf, EraseFails(left)).0, verify);
  }

  /** In particular, a block whose log is one page long has nothing else to give back. */
  lemma OnePageLog(mem: seq<byte>, page: nat, verify: Verifier)
    requires Geometry(mem, page) && PagedLog(mem, page) && LogEnd(mem, page) == page
    ensures NoOtherValue(mem, page, verify)
  {
    hide LogEnd, Stored, PageValue, RecordPage;
    assert Used(mem, page, page);
    StoredInPage(mem, page, page);
    forall f: nat | Used(mem, page, f)
      ensures f == page
    {
      UsedBelowEnd(mem, page, f);
    }
  }

  lemma UsedBelowEnd(mem: seq<byte>, page: nat, f: nat)
    requires Geometry(mem, page) && Used(mem, page, f)
    ensures f <= LogEnd(mem, page)
  {
    var e := LogEnd(mem, page);
    if e < f {
      MultipleDifference(f, e, page);
    }
  }

  /** The erase left nothing, or the last record with nothing behind it. */
  predicate SparesNewest(mem: seq<byte>, m: seq<byte>, page: nat)
    requires Geometry(mem, page)
  {
    var e := LogEnd(mem, page);
    |m| == |mem| &&
    (Blank(m, 0, |m|)
     || (e > 0 && RecordPage(mem, page, e) && m[e - page..e] == mem[e - page..e] && Blank(m, e, |m|)))
  }

  lemma SparedNewest(mem: seq<byte>, m: seq<byte>, page: nat)
    requires Geometry(mem, page) && SparesNewest(mem, m, page)
    ensures Stored(m, page) in {Err(ENODATA), Stored(mem, page)}
  {
    hide Stored, LogEnd, RecordPage, PageValue;
    var e := LogEnd(mem, page);
    if Blank(m, 0, |m|) {
      assert IsLogEnd(m, page, 0);
      StoredIsLogValue(m, page, 0);
    } else {
      var i :| e - page <= i < e && mem[i] != 0xFF;
      assert m[e - page..e][i - (e - page)] == m[i];
      assert Used(m, page, e);
      SamePage(mem, m, page, e);
      StoredInPage(m, page, e);
      StoredInPage(mem, page, e);
    }
  }

  /** An erase that spares the last record or everything, or that went page by page over records
      none of which stands for another value. */
  ghost predicate HarmlessErase(mem: seq<byte>, m: seq<byte>, page: nat, verify: Verifier)
    requires Geometry(mem, page)
  {
    || SparesNewest(mem, m, page)
    || (PagedLog(mem, page) && PageWise(mem, m, page) && NoOtherValue(mem, page, verify))
  }

  lemma HarmlessEraseIsClean(b: Bucket, buf: seq<byte>, left: seq<byte>, verify: Verifier)
    requires B.Valid(b) && b.medium.Circular? && Fits(b, |buf|)
    requires Wraps(b.medium.circ, RecordLength(|buf|, b.medium.circ.page))
    requires var c := b.medium.circ; HarmlessErase(c.mem, Overlay(left, c.mem), c.page, verify)
    ensures CleanWrite(b, buf, EraseFails(left), verify)
  {
    hide Stored, View, WriteBucket, LogEnd, Accepted, PageValue;
    var c := b.medium.circ;
    var m := Overlay(left, c.mem);
    ErasedView(b, buf, left, verify);
    CircularView(b, verify);
    if SparesNewest(c.mem, m, c.page) {
      SparedNewest(c.mem, m, c.page);
    } else {
      InterruptedErase(c.mem, m, c.page);
    }
  }

  // ----- Blocks with records of one page -----

  /** The write of a one-page record, whose erase or program step may fail between two pages. */
  ghost predicate WholePages(c: Circ, buf: seq<byte>, io: WriteIo)
    requires META_SIZE <= c.page
  {
    && RecordLength(|buf|, c.page) == c.page
    && (io.EraseFails? ==> PageWise(c.mem, Overlay(io.left, c.mem), c.page))
    && (io.WriteFails? ==> io in {TornAfter(buf, c.page, 0), TornAfter(buf, c.page, c.page)})
  }

  /** Writes of one-page records keep a block to such records, whatever the page-wise failure. */
  lemma PagedLogKept(c: Circ, buf: seq<byte>, io: WriteIo)
    requires Disciplined(c) && WholePages(c, buf, io) && PagedLog(c.mem, c.page)
    ensures PagedLog(C.Write(c, buf, io).0.mem, c.page)
  {
    hide Record, MetaMagic, MetaLength, C.Write, RecordPage;
    var p, m := c.page, C.Write(c, buf, io).0.mem;
    forall f: nat | Used(m, p, f)
      ensures RecordPage(m, p, f)
    {
      if m != c.mem {
        PageAfterWrite(c, buf, io, f);
      }
    }
  }

  lemma OnePageWrite(c: Circ, buf: seq<byte>, io: WriteIo)
    requires Disciplined(c) && WholePages(c, buf, io)
    ensures var m := C.Write(c, buf, io).0.mem;
            var at := Target(c, c.page);
            || m == c.mem
            || (io.EraseFails? && m == Overlay(io.left, c.mem))
            || (&& at + c.page <= |m| && Multiple(at, c.page)
                && m[..at] == c.mem[..at] && Blank(m, at + c.page, |m|)
                && (Blank(m, at, at + c.page) || Holds(m, at, Record(buf, c.page))))
  {
    hide Record, Programmed, Multiple;
    ProgrammedPage(c, buf, io);
    PageIsMultiple(c);
  }

  lemma ProgrammedPage(c: Circ, buf: seq<byte>, io: WriteIo)
    requires Disciplined(c) && WholePages(c, buf, io)
    ensures Programmed(buf, c.page, io) in {Record(buf, c.page), Fill(c.page, 0xFF)}
  {
    hide Record;
    var r := Record(buf, c.page);
    assert r[..|r|] == r;
    assert Overlay(r, Fill(c.page, 0xFF)) == r;
    assert Overlay(r[..0], Fill(c.page, 0xFF)) == Fill(c.page, 0xFF);
  }

  lemma PageAfterWrite(c: Circ, buf: seq<byte>, io: WriteIo, f: nat)
    requires Disciplined(c) && WholePages(c, buf, io) && PagedLog(c.mem, c.page)
    requires Used(C.Write(c, buf, io).0.mem, c.page, f) && C.Write(c, buf, io).0.mem != c.mem
    ensures RecordPage(C.Write(c, buf, io).0.mem, c.page, f)
  {
    hide Record, MetaMagic, MetaLength, C.Write, Multiple, RecordLength;
    var p, m := c.page, C.Write(c, buf, io).0.mem;
    var at := Target(c, p);
    OnePageWrite(c, buf, io);
    if io.EraseFails? && m == Overlay(io.left, c.mem) {
      SamePage(c.mem, m, p, f);
    } else {
      PageIsMultiple(c);
      MultipleSum(at, p, p);
      PagesApart(p, f, at + p);
      if f == at + p {
        RecordInBlock(m, p, at, buf);
      } else {
        assert f <= at;
        assert m[f - p..f] == m[..at][f - p..f] == c.mem[f - p..f];
        SamePage(c.mem, m, p, f);
      }
    }
  }
}
