/** The printer with its two growing buffers and the parser's loop. */
module FdtDriver {
  import opened Bytes
  import opened FdtFormat
  import opened FdtRoundTrip

  const BUFSIZE: nat := 0x1_0000
  const NAME_MAX: nat := 1023

  ghost predicate ShortNames(t: Node) {
    && |t.name| <= NAME_MAX
    && (forall p <- t.properties :: |p.name| <= NAME_MAX)
    && (forall c <- t.children :: ShortNames(c))
  }

  /** The tree fits the first buffers: no call of EnsureSpace finds too little room. */
  ghost predicate FitsBuffers(t: Node) {
    OFF_STRUCT + |StructBytes(t)| + 1024 <= BUFSIZE && |Strings(t)| + 1024 <= BUFSIZE
  }

  /** struct fdt */
  class Fdt {
    var dt: array<byte>
    var dtNextOfs: nat
    var strings: array<byte>
    var strNextOfs: nat

    ghost predicate Valid()
      reads this
    {
      dt != strings && dtNextOfs <= dt.Length && strNextOfs <= strings.Length && Multiple(dtNextOfs, 4)
    }

    ghost function Dt(): seq<byte>
      reads this, dt
      requires Valid()
    {
      dt[..dtNextOfs]
    }

    ghost function Names(): seq<byte>
      reads this, strings
      requires Valid()
    {
      strings[..strNextOfs]
    }

    /** What is not written yet is zero; the copies without terminator and the paddings rely on it. */
    ghost predicate Clean()
      reads this, dt, strings
      requires Valid()
    {
      NamesClean() && forall i :: dtNextOfs <= i < dt.Length ==> dt[i] == 0
    }

    ghost predicate NamesClean()
      reads this, strings
      requires Valid()
    {
      forall i :: strNextOfs <= i < strings.Length ==> strings[i] == 0
    }

    constructor ()
      ensures Valid() && Clean() && fresh(dt) && fresh(strings)
      ensures dt.Length == strings.Length == BUFSIZE
      ensures Dt() == Zeros(OFF_STRUCT) && Names() == []
    {
      dt := new byte[BUFSIZE](_ => 0);
      strings := new byte[BUFSIZE](_ => 0);
      dtNextOfs, strNextOfs := OFF_STRUCT, 0;
      new;
      MultipleIffMod(OFF_STRUCT, 4);
      assert Dt() == Zeros(OFF_STRUCT);
    }

    /** realloc: the old bytes and then bytes of any value. */
    static method Realloc(buf: array<byte>, size: nat) returns (r: array<byte>)
      requires buf.Length <= size
      ensures fresh(r) && r.Length == size && r[..buf.Length] == buf[..]
    {
      r := new byte[size];
      forall i | 0 <= i < buf.Length {
        r[i] := buf[i];
      }
    }

    static method Copy(buf: array<byte>, at: nat, data: seq<byte>)
      requires at + |data| <= buf.Length
      modifies buf
      ensures forall i :: 0 <= i < buf.Length ==>
        buf[i] == if at <= i < at + |data| then data[i - at] else old(buf[i])
    {
      forall i | at <= i < at + |data| {
        buf[i] := data[i - at];
      }
    }

    /** fdt_ensure_space: a buffer with too little room is doubled once. */
    method EnsureSpace(size: nat)
      requires Valid()
      modifies this`dt, this`strings
      ensures Valid() && Dt() == old(Dt()) && Names() == old(Names())
      ensures old(strings.Length - strNextOfs >= 1024) ==> strings == old(strings)
      ensures old(dt.Length - dtNextOfs >= 1024 + size) ==> dt == old(dt)
      ensures old(strings.Length - strNextOfs < 1024) ==> fresh(strings) && strings.Length == 2 * old(strings.Length)
      ensures old(dt.Length - dtNextOfs < 1024 + size) ==> fresh(dt) && dt.Length == 2 * old(dt.Length)
    {
      if strings.Length - strNextOfs < 1024 {
        strings := Realloc(strings, strings.Length * 2);
        assert strings[..strNextOfs] == strings[..old(strings.Length)][..strNextOfs];
      }
      if dt.Length - dtNextOfs < 1024 + size {
        dt := Realloc(dt, dt.Length * 2);
        assert dt[..dtNextOfs] == dt[..old(dt.Length)][..dtNextOfs];
      }
    }

    /** lstrcpy: no terminator is written; a name too long is cut after 1024 bytes. */
    static method LstrCpy(dest: array<byte>, at: nat, src: seq<byte>) returns (r: Result<nat>)
      requires at + |src| <= dest.Length
      modifies dest
      ensures r == if |src| <= NAME_MAX then Ok(|src|) else Err(ENOSPC)
      ensures forall i :: 0 <= i < dest.Length ==>
        dest[i] == if at <= i < at + |src| && i <= at + NAME_MAX then src[i - at] else old(dest[i])
    {
      var len, maxlen := 0, NAME_MAX;
      while len < |src|
        invariant 0 <= len <= |src| && maxlen == NAME_MAX - len && len <= NAME_MAX
        invariant forall i :: 0 <= i < dest.Length ==>
          dest[i] == if at <= i < at + len then src[i - at] else old(dest[i])
      {
        dest[at + len] := src[len];
        len := len + 1;
        if maxlen == 0 {
          return Err(ENOSPC);
        }
        maxlen := maxlen - 1;
      }
      r := Ok(len);
    }

    /** dt_add_string */
    method AddString(name: seq<byte>) returns (nameOff: nat)
      requires Valid() && NamesClean() && |name| <= NAME_MAX
      requires strings.Length - strNextOfs >= 1024 && dt.Length - dtNextOfs >= 1024
      modifies this, strings
      ensures Valid() && NamesClean() && nameOff == old(strNextOfs)
      ensures dt == old(dt) && dtNextOfs == old(dtNextOfs) && strings == old(strings)
      ensures Names() == old(Names()) + name + [0]
    {
      EnsureSpace(0);
      assert dt == old(dt) && strings == old(strings);
      var len := LstrCpy(strings, strNextOfs, name);
      nameOff := strNextOfs;
      strNextOfs := strNextOfs + len.value + 1;
      assert strings[..strNextOfs] == old(Names()) + name + [0];
    }

    /** The tag and the name of a node. */
    method BeginNode(name: seq<byte>)
      requires Valid() && Clean() && Text(name) && |name| <= NAME_MAX
      requires dt.Length - dtNextOfs >= 1024 + |BeginBytes(name)| && strings.Length - strNextOfs >= 1024
      modifies this, dt
      ensures Valid() && Clean() && dt == old(dt) && strings == old(strings)
      ensures Dt() == old(Dt()) + BeginBytes(name)
      ensures strNextOfs == old(strNextOfs) && Names() == old(Names())
    {
      hide Be32, RoundUp, Multiple, Fill, Text;
      ghost var item := Be32(BEGIN_NODE) + name + [0];
      EnsureSpace(0);
      assert dt == old(dt) && strings == old(strings);
      Copy(dt, dtNextOfs, Be32(BEGIN_NODE));
      var len := LstrCpy(dt, dtNextOfs + 4, name);
      AppendPadded(old(dt[..]), dt[..], dtNextOfs, item);
      dtNextOfs := RoundUp(dtNextOfs + 4 + len.value + 1, 4);
    }

    /** The fields of a struct fdt_property. */
    static method StoreProperty(dt: array<byte>, fp: nat, p: Property, nameOff: nat)
      requires fp + 12 + |p.value| <= dt.Length
      modifies dt
      ensures var item := PropertyHead(p, nameOff) + p.value;
              forall i :: 0 <= i < dt.Length ==>
                dt[i] == if fp <= i < fp + |item| then item[i - fp] else old(dt[i])
    {
      hide Be32;
      Copy(dt, fp, Be32(PROP));
      Copy(dt, fp + 4, Be32(|p.value|));
      Copy(dt, fp + 8, Be32(nameOff));
      Copy(dt, fp + 12, p.value);
    }

    method PutProperty(p: Property)
      requires Valid() && Clean() && Text(p.name) && |p.name| <= NAME_MAX
      requires dt.Length - dtNextOfs >= 1024 + |PropertyBytes(p, strNextOfs)| && strings.Length - strNextOfs >= 1024
      modifies this, dt, strings
      ensures Valid() && Clean() && dt == old(dt) && strings == old(strings)
      ensures Dt() == old(Dt()) + PropertyBytes(p, old(strNextOfs))
      ensures Names() == old(Names()) + p.name + [0]
    {
      hide PropertyHead, RoundUp, Multiple, Fill, Text;
      ghost var item := PropertyHead(p, strNextOfs) + p.value;
      EnsureSpace(|p.value|);
      assert dt == old(dt) && strings == old(strings);
      var fp := dtNextOfs;
      var nameOff := AddString(p.name);
      StoreProperty(dt, fp, p, nameOff);
      AppendPadded(old(dt[..]), dt[..], fp, item);
      dtNextOfs := RoundUp(fp + 12 + |p.value|, 4);
    }

    /** The end tag of a node, or of the structure block. */
    method PutTag(tag: nat)
      requires Valid() && Clean() && dt.Length - dtNextOfs >= 4
      modifies this`dtNextOfs, dt
      ensures Valid() && Clean()
      ensures Dt() == old(Dt()) + Be32(tag) && Names() == old(Names())
    {
      hide Be32;
      Copy(dt, dtNextOfs, Be32(tag));
      AppendPadded(old(dt[..]), dt[..], dtNextOfs, Be32(tag));
      dtNextOfs := RoundUp(dtNextOfs + 4, 4);
    }

    /** Everything of t can be appended without growing a buffer. */
    ghost predicate Room(t: Node)
      reads this
      requires Valid()
    {
      && dtNextOfs + |NodeBytes(t, strNextOfs)| + 1024 <= dt.Length
      && strNextOfs + |Strings(t)| + 1024 <= strings.Length
    }

    /** __of_flatten_dtb */
    method FlattenNode(t: Node)
      requires Valid() && Clean() && NamesAreText(t) && ShortNames(t) && Room(t)
      modifies this, dt, strings
      ensures Valid() && Clean() && dt == old(dt) && strings == old(strings)
      ensures Dt() == old(Dt()) + NodeBytes(t, old(strNextOfs))
      ensures Names() == old(Names()) + Strings(t)
      decreases t, 1
    {
      hide Be32, BeginBytes, PropertiesBytes, ForestBytes, NameStrings, ForestStrings, Clean, NamesClean;
      BeginNode(t.name);
      FlattenProperties(t.properties);
      FlattenChildren(t);
      PutTag(END_NODE);
      EnsureSpace(0);
    }

    method FlattenProperties(ps: seq<Property>)
      requires Valid() && Clean() && (forall p <- ps :: Text(p.name) && |p.name| <= NAME_MAX)
      requires dtNextOfs + |PropertiesBytes(ps, strNextOfs)| + 1024 <= dt.Length
      requires strNextOfs + |NameStrings(ps)| + 1024 <= strings.Length
      modifies this, dt, strings
      ensures Valid() && Clean() && dt == old(dt) && strings == old(strings)
      ensures Dt() == old(Dt()) + PropertiesBytes(ps, old(strNextOfs))
      ensures Names() == old(Names()) + NameStrings(ps)
    {
      hide PropertyBytes, PropertiesBytes, NameStrings, Clean, NamesClean, Text;
      var i := 0;
      ghost var s := strNextOfs;
      ghost var was, names := Dt(), Names();
      NoProperties(ps[..0], s);
      while i < |ps|
        invariant 0 <= i <= |ps| && Valid() && Clean() && dt == old(dt) && strings == old(strings)
        invariant Dt() == was + PropertiesBytes(ps[..i], s)
        invariant Names() == names + NameStrings(ps[..i])
      {
        PropertiesPrefix(ps, s, i);
        Joined(was, PropertiesBytes(ps[..i], s), PropertyBytes(ps[i], strNextOfs));
        Joined(names, NameStrings(ps[..i]), ps[i].name);
        Joined(names, NameStrings(ps[..i]) + ps[i].name, [0]);
        PutProperty(ps[i]);
        i := i + 1;
      }
      assert ps[..i] == ps;
    }

    method FlattenChildren(t: Node)
      requires Valid() && Clean() && NamesAreText(t) && ShortNames(t)
      requires dtNextOfs + |ForestBytes(t.children, strNextOfs)| + 1024 <= dt.Length
      requires strNextOfs + |ForestStrings(t.children)| + 1024 <= strings.Length
      modifies this, dt, strings
      ensures Valid() && Clean() && dt == old(dt) && strings == old(strings)
      ensures Dt() == old(Dt()) + ForestBytes(t.children, old(strNextOfs))
      ensures Names() == old(Names()) + ForestStrings(t.children)
      decreases t, 0
    {
      hide NodeBytes, Strings, ForestBytes, ForestStrings, Clean, NamesClean, Text;
      var i := 0;
      ghost var s := strNextOfs;
      ghost var ts, was, names := t.children, Dt(), Names();
      NoNodes(ts[..0], s);
      while i < |t.children|
        invariant 0 <= i <= |ts| && Valid() && Clean() && dt == old(dt) && strings == old(strings)
        invariant Dt() == was + ForestBytes(ts[..i], s)
        invariant Names() == names + ForestStrings(ts[..i])
      {
        ForestPrefix(ts, s, i);
        Joined(was, ForestBytes(ts[..i], s), NodeBytes(ts[i], strNextOfs));
        Joined(names, ForestStrings(ts[..i]), Strings(ts[i]));
        FlattenNode(t.children[i]);
        i := i + 1;
      }
      assert ts[..i] == ts;
    }

    /** The strings block follows the structure block; the buffer becomes as large as needed. */
    method AppendStrings()
      requires Valid()
      modifies this`dt, dt
      ensures Valid() && dtNextOfs + strNextOfs <= dt.Length && (dt == old(dt) || fresh(dt))
      ensures dt[..dtNextOfs + strNextOfs] == old(Dt()) + old(Names())
    {
      hide Multiple;
      ghost var body := Dt();
      if dt.Length - dtNextOfs < strNextOfs {
        dt := Realloc(dt, dtNextOfs + strNextOfs);
        assert dt[..dtNextOfs] == dt[..old(dt.Length)][..dtNextOfs];
      }
      assert dt[..dtNextOfs] == body;
      Copy(dt, dtNextOfs, strings[..strNextOfs]);
      assert dt[..dtNextOfs] == body;
      assert dt[dtNextOfs..dtNextOfs + strNextOfs] == old(Names());
    }

    /** of_flatten_dtb after the tree: end tag, strings block, header. */
    method Finish() returns (blob: array<byte>)
      requires Valid() && Clean() && dtNextOfs + 4 <= dt.Length && dtNextOfs >= OFF_STRUCT
      modifies this`dtNextOfs, this`dt, dt
      ensures var a := old(Dt()) + Be32(END) + old(Names());
              |a| <= blob.Length && blob[..|a|]
                == HeaderBytes(old(dtNextOfs) + 4 - OFF_STRUCT, old(strNextOfs)) + a[HEADER_SIZE..]
    {
      hide Be32, NamesClean, HeaderBytes, Multiple;
      PutTag(END);
      var header := HeaderBytes(dtNextOfs - OFF_STRUCT, strNextOfs);
      AppendStrings();
      ghost var a := dt[..dtNextOfs + strNextOfs];
      Copy(dt, 0, header);
      blob := dt;
      assert blob[..|a|] == header + a[HEADER_SIZE..];
    }
  }

  /** of_flatten_dtb */
  method OfFlattenDtb(t: Node) returns (blob: array<byte>)
    requires NamesAreText(t) && ShortNames(t) && FitsBuffers(t)
    ensures |Flat(t)| <= blob.Length && blob[..|Flat(t)|] == Flat(t)
  {
    hide NodeBytes, Strings, NamesAreText, ShortNames, Be32, HeaderBytes;
    var fdt := new Fdt();
    assert 0 + |Strings(t)| == |Strings(t)|;
    fdt.FlattenNode(t);
    blob := fdt.Finish();
    ghost var a := Zeros(OFF_STRUCT) + NodeBytes(t, 0) + Be32(END) + ([] + Strings(t));
    assert a[HEADER_SIZE..] == Zeros(RESERVE_SIZE) + StructBytes(t) + Strings(t);
    assert Flat(t) == HeaderBytes(|StructBytes(t)|, |Strings(t)|) + a[HEADER_SIZE..];
  }

  /** of_unflatten_dtb: the position, the current node and the nodes above it change with each tag. */
  method OfUnflattenDtb(fdt: seq<byte>) returns (r: Result<Node>)
    ensures r == Unflatten(fdt)
  {
    if |fdt| < HEADER_SIZE || Word(fdt, 0) != FDT_MAGIC || Word(fdt, 20) != 17 {
      return Err(EINVAL);
    }
    var f := HeaderOf(fdt);
    if f.offStruct + f.sizeStruct > f.totalSize || f.offStrings + f.sizeStrings > f.totalSize {
      return Err(ESPIPE);
    }
    if f.totalSize > |fdt| {
      return Err(EINVAL);
    }
    r := ReadStruct(f, fdt);
  }

  /** The loop over the structure block. */
  method ReadStruct(f: Header, fdt: seq<byte>) returns (r: Result<Node>)
    requires Readable(f, fdt)
    ensures r == RunFrom(f, fdt, Start(f))
  {
    hide Word, CString, AddProperty, AddChild, Closed, RunFrom, RoundUp;
    var dtStruct, root, open: seq<Node> := f.offStruct, NewNode([]), [];
    while true
      invariant RunFrom(f, fdt, Machine(dtStruct, open, root)) == RunFrom(f, fdt, Start(f))
      invariant dtStruct <= f.Limit()
      decreases f.Limit() - dtStruct
    {
      RunUnfolds(f, fdt, Machine(dtStruct, open, root));
      if dtStruct + 4 > |fdt| {
        return Err(ESPIPE);
      }
      var tag, size, n := Word(fdt, dtStruct), 4, |open|;
      if tag == BEGIN_NODE {
        var name := CString(fdt, dtStruct + 4);
        open := if n == 0 then [root] else open + [NewNode(name)];
        size := 4 + |name| + 1;
      } else if tag == END_NODE {
        if n == 0 {
          return Err(EINVAL);
        } else if n == 1 {
          root, open := open[0], [];
        } else {
          open := open[..n - 2] + [AddChild(open[n - 2], open[n - 1])];
        }
      } else if tag == PROP {
        if dtStruct + 12 > |fdt| {
          return Err(ESPIPE);
        }
        var len, nameOff := Word(fdt, dtStruct + 4), Word(fdt, dtStruct + 8);
        if n == 0 {
          return Err(EINVAL);
        }
        if nameOff > f.sizeStrings || dtStruct + 12 + len > |fdt| {
          return Err(ESPIPE);
        }
        var p := Property(CString(fdt, f.offStrings + nameOff), fdt[dtStruct + 12..dtStruct + 12 + len]);
        open := open[n - 1 := AddProperty(open[n - 1], p)];
        size := 12 + len;
      } else if tag == END {
        return Ok(if n == 0 then root else Closed(open));
      } else if tag != NOP {
        return Err(EINVAL);
      }
      if RoundUp(dtStruct + size, 4) > f.Limit() {
        return Err(ESPIPE);
      }
      dtStruct := RoundUp(dtStruct + size, 4);
    }
  }

  /** The strings a tree already has keep their offsets while later nodes append theirs. */
  lemma {:induction false} PropertiesPrefix(ps: seq<Property>, s: nat, i: nat)
    requires i < |ps|
    ensures PropertiesBytes(ps[..i + 1], s)
         == PropertiesBytes(ps[..i], s) + PropertyBytes(ps[i], s + |NameStrings(ps[..i])|)
    ensures NameStrings(ps[..i + 1]) == NameStrings(ps[..i]) + ps[i].name + [0]
    ensures |PropertiesBytes(ps[..i + 1], s)| <= |PropertiesBytes(ps, s)|
    ensures |NameStrings(ps[..i + 1])| <= |NameStrings(ps)|
    decreases |ps|
  {
    hide PropertyBytes, PropertiesBytes, NameStrings;
    var front := ps[..|ps| - 1];
    LastProperty(ps, s);
    if i + 1 == |ps| {
      assert ps[..i + 1] == ps;
    } else {
      PropertiesPrefix(front, s, i);
      assert front[..i + 1] == ps[..i + 1] && front[..i] == ps[..i];
    }
  }

  lemma LastProperty(ps: seq<Property>, s: nat)
    requires ps != []
    ensures var front, p := ps[..|ps| - 1], ps[|ps| - 1];
            && PropertiesBytes(ps, s) == PropertiesBytes(front, s) + PropertyBytes(p, s + |NameStrings(front)|)
            && NameStrings(ps) == NameStrings(front) + p.name + [0]
  {
    hide PropertyBytes;
  }

  lemma {:induction false} ForestPrefix(ts: seq<Node>, s: nat, i: nat)
    requires i < |ts|
    ensures ForestBytes(ts[..i + 1], s)
         == ForestBytes(ts[..i], s) + NodeBytes(ts[i], s + |ForestStrings(ts[..i])|)
    ensures ForestStrings(ts[..i + 1]) == ForestStrings(ts[..i]) + Strings(ts[i])
    ensures |ForestBytes(ts[..i + 1], s)| <= |ForestBytes(ts, s)|
    ensures |ForestStrings(ts[..i + 1])| <= |ForestStrings(ts)|
    decreases |ts|
  {
    hide NodeBytes, Strings, ForestBytes, ForestStrings;
    var front := ts[..|ts| - 1];
    LastNode(ts, s);
    if i + 1 == |ts| {
      assert ts[..i + 1] == ts;
    } else {
      ForestPrefix(front, s, i);
      assert front[..i + 1] == ts[..i + 1] && front[..i] == ts[..i];
    }
  }

  lemma LastNode(ts: seq<Node>, s: nat)
    requires ts != []
    ensures var front, t := ts[..|ts| - 1], ts[|ts| - 1];
            && ForestBytes(ts, s) == ForestBytes(front, s) + NodeBytes(t, s + |ForestStrings(front)|)
            && ForestStrings(ts) == ForestStrings(front) + Strings(t)
  {
    hide NodeBytes, Strings;
  }

  lemma Joined(a: seq<byte>, b: seq<byte>, c: seq<byte>)
    ensures a + (b + c) == a + b + c
  {
  }

  lemma NoProperties(ps: seq<Property>, s: nat)
    requires ps == []
    ensures PropertiesBytes(ps, s) == NameStrings(ps) == []
  {
  }

  lemma NoNodes(ts: seq<Node>, s: nat)
    requires ts == []
    ensures ForestBytes(ts, s) == ForestStrings(ts) == []
  {
  }

  /** Bytes that hold an item in front of zeros hold it with its padding. */
  lemma AppendPadded(before: seq<byte>, after: seq<byte>, at: nat, item: seq<byte>)
    requires |before| == |after| && Multiple(at, 4) && at + |Pad4(item)| <= |after|
    requires forall i :: 0 <= i < at ==> after[i] == before[i]
    requires forall i :: at <= i < at + |item| ==> after[i] == item[i - at]
    requires forall i :: at + |item| <= i < |after| ==> after[i] == 0
    ensures RoundUp(at + |item|, 4) == at + |Pad4(item)| && Multiple(at + |Pad4(item)|, 4)
    ensures after[..at + |Pad4(item)|] == before[..at] + Pad4(item)
  {
    hide RoundUp;
    RoundUpSum(at, |item|);
    MultipleSum(at, |Pad4(item)|, 4);
  }
}
