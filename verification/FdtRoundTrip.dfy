/** Reading a flattened tree gives the tree back. */
module FdtRoundTrip {
  import opened Bytes
  import opened FdtFormat

  // ----- What the reader builds -----

  /** The phandle of the last phandle property; 0 without one. */
  function PhandleOf(ps: seq<Property>): nat {
    if ps == [] then 0
    else if IsPhandle(ps[|ps| - 1]) then FromBe32(ps[|ps| - 1].value)
    else PhandleOf(ps[..|ps| - 1])
  }

  /** t with every cached phandle equal to the phandle property. */
  function Synced(t: Node): Node {
    Node(t.name, PhandleOf(t.properties), t.properties, SyncedForest(t.children))
  }

  function SyncedForest(ts: seq<Node>): (r: seq<Node>)
    ensures |r| == |ts|
  {
    if ts == [] then [] else SyncedForest(ts[..|ts| - 1]) + [Synced(ts[|ts| - 1])]
  }

  /** The root of a parsed tree has no name. */
  function Unnamed(t: Node): Node { t.(name := []) }

  /** No name has a zero byte in it. */
  ghost predicate Text(s: seq<byte>) {
    forall i :: 0 <= i < |s| ==> s[i] != 0
  }

  ghost predicate NamesAreText(t: Node) {
    && Text(t.name)
    && (forall p <- t.properties :: Text(p.name))
    && (forall c <- t.children :: NamesAreText(c))
  }

  ghost predicate InSync(t: Node) {
    t.phandle == PhandleOf(t.properties) && (forall c <- t.children :: InSync(c))
  }

  lemma {:induction false} SyncedIsSame(t: Node)
    requires InSync(t)
    ensures Synced(t) == t
  {
    SyncedForestIsSame(t.children);
  }

  lemma {:induction false} SyncedForestIsSame(ts: seq<Node>)
    requires forall c <- ts :: InSync(c)
    ensures SyncedForest(ts) == ts
  {
    if ts != [] {
      SyncedForestIsSame(ts[..|ts| - 1]);
      SyncedIsSame(ts[|ts| - 1]);
    }
  }

  // ----- Bytes at a place of the blob -----

  ghost predicate At(blob: seq<byte>, at: nat, d: seq<byte>) {
    at + |d| <= |blob| && Holds(blob, at, d)
  }

  lemma AtParts(blob: seq<byte>, at: nat, a: seq<byte>, b: seq<byte>)
    ensures At(blob, at, a + b) <==> At(blob, at, a) && At(blob, at + |a|, b)
  {
    if At(blob, at, a) && At(blob, at + |a|, b) {
      forall i | 0 <= i < |a + b|
        ensures blob[at + i] == (a + b)[i]
      {
        if i >= |a| {
          assert blob[at + |a| + (i - |a|)] == b[i - |a|];
        }
      }
    }
    if At(blob, at, a + b) {
      forall i | 0 <= i < |b|
        ensures blob[at + |a| + i] == b[i]
      {
        assert blob[at + (|a| + i)] == (a + b)[|a| + i];
      }
      forall i | 0 <= i < |a|
        ensures blob[at + i] == a[i]
      {
        assert (a + b)[i] == a[i];
      }
    }
  }

  lemma AtPrefix(blob: seq<byte>, at: nat, a: seq<byte>, d: seq<byte>)
    requires At(blob, at, d) && a <= d
    ensures At(blob, at, a)
  {
    AtParts(blob, at, a, d[|a|..]);
    assert d == a + d[|a|..];
  }

  lemma AtWord(blob: seq<byte>, at: nat, n: nat)
    requires n < TWO_32 && At(blob, at, Be32(n))
    ensures Word(blob, at) == n
  {
    hide Be32, FromBe32;
    HoldsIffSlice(blob, at, Be32(n));
    Be32RoundTrip(n);
  }

  lemma {:induction false} AtText(blob: seq<byte>, at: nat, s: seq<byte>)
    requires Text(s) && At(blob, at, s + [0])
    ensures CString(blob, at) == s
    decreases |s|
  {
    assert blob[at + 0] == (s + [0])[0];
    if s != [] {
      assert s + [0] == [s[0]] + (s[1..] + [0]);
      AtParts(blob, at, [s[0]], s[1..] + [0]);
      AtText(blob, at + 1, s[1..]);
    }
  }

  lemma {:induction false} RoundUpSum(x: nat, y: nat)
    requires Multiple(x, 4)
    ensures RoundUp(x + y, 4) == x + RoundUp(y, 4)
    decreases x
  {
    if x > 0 {
      RoundUpSum(x - 4, y);
      if y == 0 { RoundUpOfMultiple(x); }
    }
  }

  lemma {:induction false} RoundUpOfMultiple(x: nat)
    requires Multiple(x, 4)
    ensures RoundUp(x, 4) == x
  {
    if x > 0 { RoundUpOfMultiple(x - 4); }
  }

  // ----- One step of the reader over one written item -----

  /** d stands at the reader's position, inside the structure block. */
  ghost predicate Ahead(h: Header, blob: seq<byte>, at: nat, d: seq<byte>) {
    Readable(h, blob) && Multiple(at, 4) && at + |d| <= h.Limit() && At(blob, at, d)
  }

  lemma AheadParts(h: Header, blob: seq<byte>, at: nat, a: seq<byte>, b: seq<byte>)
    requires Ahead(h, blob, at, a + b) && Multiple(|a|, 4)
    ensures Ahead(h, blob, at, a) && Ahead(h, blob, at + |a|, b)
  {
    AtParts(blob, at, a, b);
    MultipleSum(at, |a|, 4);
  }

  lemma StepBegin(h: Header, blob: seq<byte>, m: Machine, name: seq<byte>)
    requires Ahead(h, blob, m.at, BeginBytes(name)) && Text(name)
    ensures Step(h, blob, m) == Next(Machine(m.at + |BeginBytes(name)|,
      if m.open == [] then [m.root] else m.open + [NewNode(name)], m.root))
  {
    hide Be32, FromBe32, Word, RoundUp, CString;
    var d := Be32(BEGIN_NODE) + (name + [0]);
    assert d == Be32(BEGIN_NODE) + name + [0];
    AtPrefix(blob, m.at, d, BeginBytes(name));
    AtParts(blob, m.at, Be32(BEGIN_NODE), name + [0]);
    AtWord(blob, m.at, BEGIN_NODE);
    AtText(blob, m.at + 4, name);
    RoundUpSum(m.at, |d|);
  }

  lemma StepEnd(h: Header, blob: seq<byte>, m: Machine)
    requires Ahead(h, blob, m.at, Be32(END_NODE)) && m.open != []
    ensures var n := |m.open|;
            Step(h, blob, m) == Next(
              if n == 1 then Machine(m.at + 4, [], m.open[0])
              else Machine(m.at + 4, m.open[..n - 2] + [AddChild(m.open[n - 2], m.open[n - 1])], m.root))
  {
    hide Be32, FromBe32, Word;
    AtWord(blob, m.at, END_NODE);
    RoundUpSum(m.at, 4);
  }

  ghost predicate NamedAt(h: Header, blob: seq<byte>, name: seq<byte>, nameOff: nat) {
    nameOff <= h.sizeStrings && At(blob, h.offStrings + nameOff, name + [0]) && Text(name)
  }

  lemma StepProperty(h: Header, blob: seq<byte>, m: Machine, p: Property, nameOff: nat)
    requires Ahead(h, blob, m.at, PropertyBytes(p, nameOff)) && m.open != []
    requires NamedAt(h, blob, p.name, nameOff) && nameOff < TWO_32 && |p.value| < TWO_32
    ensures var last := |m.open| - 1;
            Step(h, blob, m) == Next(Machine(m.at + |PropertyBytes(p, nameOff)|,
              m.open[last := AddProperty(m.open[last], p)], m.root))
  {
    hide Be32, FromBe32, Word, RoundUp, CString, AddProperty;
    PropertyWords(blob, m.at, p, nameOff);
    AtText(blob, h.offStrings + nameOff, p.name);
    RoundUpSum(m.at, 12 + |p.value|);
    assert Property(p.name, p.value) == p;
  }

  lemma PropertyWords(blob: seq<byte>, at: nat, p: Property, nameOff: nat)
    requires At(blob, at, PropertyBytes(p, nameOff)) && nameOff < TWO_32 && |p.value| < TWO_32
    ensures at + 12 + |p.value| <= |blob| && Word(blob, at) == PROP
    ensures Word(blob, at + 4) == |p.value| && Word(blob, at + 8) == nameOff
    ensures blob[at + 12..at + 12 + |p.value|] == p.value
  {
    hide Be32, Word, RoundUp;
    AtPrefix(blob, at, PropertyHead(p, nameOff) + p.value, PropertyBytes(p, nameOff));
    AtParts(blob, at, PropertyHead(p, nameOff), p.value);
    AtParts(blob, at, Be32(PROP) + Be32(|p.value|), Be32(nameOff));
    AtParts(blob, at, Be32(PROP), Be32(|p.value|));
    AtWord(blob, at, PROP);
    AtWord(blob, at + 4, |p.value|);
    AtWord(blob, at + 8, nameOff);
    HoldsIffSlice(blob, at + 12, p.value);
  }

  lemma StepDone(h: Header, blob: seq<byte>, m: Machine)
    requires Readable(h, blob) && At(blob, m.at, Be32(END)) && m.open == []
    ensures RunFrom(h, blob, m) == Ok(m.root)
  {
    hide Be32, FromBe32, Word;
    AtWord(blob, m.at, END);
  }

  lemma RunUnfolds(h: Header, blob: seq<byte>, m: Machine)
    requires Readable(h, blob)
    ensures RunFrom(h, blob, m) ==
      match Step(h, blob, m)
      case Failed(e) => Err(e)
      case Done(t) => Ok(t)
      case Next(m') => RunFrom(h, blob, m')
  {
    hide Step;
  }

  lemma RunStep(h: Header, blob: seq<byte>, m: Machine)
    requires Readable(h, blob) && Step(h, blob, m).Next?
    ensures RunFrom(h, blob, m) == RunFrom(h, blob, Step(h, blob, m).machine)
  {
    hide Step;
    RunUnfolds(h, blob, m);
  }

  // ----- Runs of the reader over what the writer wrote -----

  /** The strings at offset s of the strings block. */
  ghost predicate StringsAt(h: Header, blob: seq<byte>, s: nat, d: seq<byte>) {
    s + |d| <= h.sizeStrings < TWO_32 && At(blob, h.offStrings + s, d)
  }

  lemma StringsParts(h: Header, blob: seq<byte>, s: nat, a: seq<byte>, b: seq<byte>)
    requires StringsAt(h, blob, s, a + b)
    ensures StringsAt(h, blob, s, a) && StringsAt(h, blob, s + |a|, b)
  {
    AtParts(blob, h.offStrings + s, a, b);
  }

  function AddProperties(n: Node, ps: seq<Property>): Node {
    if ps == [] then n else AddProperty(AddProperties(n, ps[..|ps| - 1]), ps[|ps| - 1])
  }

  function OnTop(m: Machine, size: nat, top: Node): Machine
    requires m.open != []
  {
    Machine(m.at + size, m.open[|m.open| - 1 := top], m.root)
  }

  function Top(m: Machine): Node
    requires m.open != []
  {
    m.open[|m.open| - 1]
  }

  lemma {:induction false} PropertiesAligned(ps: seq<Property>, s: nat)
    ensures Multiple(|PropertiesBytes(ps, s)|, 4)
  {
    hide PropertyHead, RoundUp, Be32, NameStrings;
    if ps != [] {
      var front := ps[..|ps| - 1];
      PropertiesAligned(front, s);
      MultipleSum(|PropertiesBytes(front, s)|, |PropertyBytes(ps[|ps| - 1], s + |NameStrings(front)|)|, 4);
    }
  }

  lemma {:induction false} NodeAligned(t: Node, s: nat)
    ensures Multiple(|NodeBytes(t, s)|, 4) && |NodeBytes(t, s)| > 0
  {
    hide RoundUp, Be32, NameStrings;
    var inner := s + |NameStrings(t.properties)|;
    PropertiesAligned(t.properties, s);
    ForestAligned(t.children, inner);
    var b, p, c := |BeginBytes(t.name)|, |PropertiesBytes(t.properties, s)|, |ForestBytes(t.children, inner)|;
    assert Multiple(4, 4);
    MultipleSum(b, p, 4);
    MultipleSum(b + p, c, 4);
    MultipleSum(b + p + c, 4, 4);
  }

  lemma {:induction false} ForestAligned(ts: seq<Node>, s: nat)
    ensures Multiple(|ForestBytes(ts, s)|, 4)
  {
    hide NodeBytes, ForestStrings;
    if ts != [] {
      var front := ts[..|ts| - 1];
      ForestAligned(front, s);
      NodeAligned(ts[|ts| - 1], s + |ForestStrings(front)|);
      MultipleSum(|ForestBytes(front, s)|, |NodeBytes(ts[|ts| - 1], s + |ForestStrings(front)|)|, 4);
    }
  }

  lemma {:induction false} ReadsProperties(h: Header, blob: seq<byte>, m: Machine, ps: seq<Property>, s: nat)
    requires Ahead(h, blob, m.at, PropertiesBytes(ps, s)) && StringsAt(h, blob, s, NameStrings(ps))
    requires m.open != [] && h.Limit() < TWO_32 && (forall p <- ps :: Text(p.name))
    ensures RunFrom(h, blob, m)
         == RunFrom(h, blob, OnTop(m, |PropertiesBytes(ps, s)|, AddProperties(Top(m), ps)))
    decreases |ps|
  {
    hide RunFrom, PropertyBytes, AddProperty, Ahead, StringsAt;
    if ps == [] {
      assert OnTop(m, 0, Top(m)) == m;
    } else {
      var front, p := ps[..|ps| - 1], ps[|ps| - 1];
      var nameOff := s + |NameStrings(front)|;
      PropertiesAligned(front, s);
      AheadParts(h, blob, m.at, PropertiesBytes(front, s), PropertyBytes(p, nameOff));
      assert NameStrings(ps) == NameStrings(front) + (p.name + [0]);
      StringsParts(h, blob, s, NameStrings(front), p.name + [0]);
      ReadsProperties(h, blob, m, front, s);
      var m' := OnTop(m, |PropertiesBytes(front, s)|, AddProperties(Top(m), front));
      ReadsProperty(h, blob, m', p, nameOff);
      assert OnTop(m', |PropertyBytes(p, nameOff)|, AddProperty(Top(m'), p))
          == OnTop(m, |PropertiesBytes(ps, s)|, AddProperties(Top(m), ps));
    }
  }

  lemma ReadsProperty(h: Header, blob: seq<byte>, m: Machine, p: Property, nameOff: nat)
    requires Ahead(h, blob, m.at, PropertyBytes(p, nameOff)) && StringsAt(h, blob, nameOff, p.name + [0])
    requires m.open != [] && h.Limit() < TWO_32 && Text(p.name)
    ensures RunFrom(h, blob, m) == RunFrom(h, blob, OnTop(m, |PropertyBytes(p, nameOff)|, AddProperty(Top(m), p)))
  {
    hide RunFrom, Step, AddProperty, At, PropertyHead;
    assert |p.value| <= |PropertyBytes(p, nameOff)|;
    StepProperty(h, blob, m, p, nameOff);
    RunStep(h, blob, m);
  }

  lemma {:induction false} ReadsForest(h: Header, blob: seq<byte>, m: Machine, ts: seq<Node>, s: nat)
    requires Ahead(h, blob, m.at, ForestBytes(ts, s)) && StringsAt(h, blob, s, ForestStrings(ts))
    requires m.open != [] && h.Limit() < TWO_32 && (forall c <- ts :: NamesAreText(c))
    ensures RunFrom(h, blob, m)
         == RunFrom(h, blob, OnTop(m, |ForestBytes(ts, s)|, Top(m).(children := Top(m).children + SyncedForest(ts))))
    decreases ts, 0
  {
    hide RunFrom, Ahead, StringsAt, NodeBytes, Strings, Synced, NamesAreText;
    if ts == [] {
      assert Top(m).children + [] == Top(m).children;
      assert OnTop(m, 0, Top(m)) == m;
    } else {
      var front, t := ts[..|ts| - 1], ts[|ts| - 1];
      var inner := s + |ForestStrings(front)|;
      ForestAligned(front, s);
      AheadParts(h, blob, m.at, ForestBytes(front, s), NodeBytes(t, inner));
      StringsParts(h, blob, s, ForestStrings(front), Strings(t));
      ReadsForest(h, blob, m, front, s);
      var top := Top(m);
      var m' := OnTop(m, |ForestBytes(front, s)|, top.(children := top.children + SyncedForest(front)));
      ReadsChild(h, blob, m', t, inner);
      assert AddChild(Top(m'), Synced(t)) == top.(children := top.children + SyncedForest(ts));
      assert OnTop(m', |NodeBytes(t, inner)|, AddChild(Top(m'), Synced(t)))
          == OnTop(m, |ForestBytes(ts, s)|, top.(children := top.children + SyncedForest(ts)));
    }
  }

  lemma {:induction false} AddPropertiesToNew(name: seq<byte>, ps: seq<Property>)
    ensures AddProperties(NewNode(name), ps) == Node(name, PhandleOf(ps), ps, [])
  {
    hide IsPhandle, FromBe32;
    if ps != [] {
      var front, p := ps[..|ps| - 1], ps[|ps| - 1];
      AddPropertiesToNew(name, front);
      assert ps == front + [p];
      assert AddProperties(NewNode(name), ps) == AddProperty(Node(name, PhandleOf(front), front, []), p);
    }
  }

  /** Between the tags of t: an empty open node gets the properties and the children of t. */
  lemma {:induction false} ReadsBody(h: Header, blob: seq<byte>, m: Machine, t: Node, s: nat)
    requires Ahead(h, blob, m.at, PropertiesBytes(t.properties, s)
                                  + ForestBytes(t.children, s + |NameStrings(t.properties)|))
    requires StringsAt(h, blob, s, Strings(t)) && h.Limit() < TWO_32 && NamesAreText(t)
    requires m.open != [] && Top(m) == NewNode(Top(m).name)
    ensures RunFrom(h, blob, m) == RunFrom(h, blob, OnTop(m,
              |PropertiesBytes(t.properties, s)| + |ForestBytes(t.children, s + |NameStrings(t.properties)|)|,
              Synced(t).(name := Top(m).name)))
    decreases t, 1
  {
    hide RunFrom, Ahead, StringsAt, PropertiesBytes, ForestBytes, NameStrings, ForestStrings, PhandleOf;
    hide AddProperties, SyncedForest, Text;
    var ps, ts, inner, name := t.properties, t.children, s + |NameStrings(t.properties)|, Top(m).name;
    PropertiesAligned(ps, s);
    AheadParts(h, blob, m.at, PropertiesBytes(ps, s), ForestBytes(ts, inner));
    StringsParts(h, blob, s, NameStrings(ps), ForestStrings(ts));
    ReadsProperties(h, blob, m, ps, s);
    AddPropertiesToNew(name, ps);
    var m' := OnTop(m, |PropertiesBytes(ps, s)|, Node(name, PhandleOf(ps), ps, []));
    ReadsForest(h, blob, m', ts, inner);
    assert [] + SyncedForest(ts) == SyncedForest(ts);
    assert OnTop(m', |ForestBytes(ts, inner)|, Synced(t).(name := name))
        == OnTop(m, |PropertiesBytes(ps, s)| + |ForestBytes(ts, inner)|, Synced(t).(name := name));
  }

  lemma NodeParts(h: Header, blob: seq<byte>, at: nat, t: Node, s: nat)
    requires Ahead(h, blob, at, NodeBytes(t, s))
    ensures var b, n := |BeginBytes(t.name)|, |NodeBytes(t, s)|;
            && Readable(h, blob) && Ahead(h, blob, at, BeginBytes(t.name))
            && Ahead(h, blob, at + b, PropertiesBytes(t.properties, s)
                                      + ForestBytes(t.children, s + |NameStrings(t.properties)|))
            && n >= 4 && Ahead(h, blob, at + n - 4, Be32(END_NODE))
  {
    hide BeginBytes, Be32, PropertiesBytes, ForestBytes, NameStrings, At;
    var inner := s + |NameStrings(t.properties)|;
    var b, p, f := BeginBytes(t.name), PropertiesBytes(t.properties, s), ForestBytes(t.children, inner);
    BeginAligned(t.name);
    PropertiesAligned(t.properties, s);
    ForestAligned(t.children, inner);
    MultipleSum(|p|, |f|, 4);
    assert NodeBytes(t, s) == b + ((p + f) + Be32(END_NODE));
    AheadParts(h, blob, at, b, (p + f) + Be32(END_NODE));
    AheadParts(h, blob, at + |b|, p + f, Be32(END_NODE));
  }

  lemma BeginAligned(name: seq<byte>)
    ensures Multiple(|BeginBytes(name)|, 4)
  {
    hide RoundUp, Be32;
  }

  /** From the start tag of t to its end tag: a new open node becomes t and joins its parent. */
  lemma {:induction false} ReadsChild(h: Header, blob: seq<byte>, m: Machine, t: Node, s: nat)
    requires Ahead(h, blob, m.at, NodeBytes(t, s)) && StringsAt(h, blob, s, Strings(t))
    requires m.open != [] && h.Limit() < TWO_32 && NamesAreText(t)
    ensures RunFrom(h, blob, m) == RunFrom(h, blob, OnTop(m, |NodeBytes(t, s)|, AddChild(Top(m), Synced(t))))
    decreases t, 2
  {
    hide RunFrom, Ahead, Step, BeginBytes, Be32, PropertiesBytes, ForestBytes, SyncedForest, PhandleOf;
    hide Strings, StringsAt, AddChild;
    NodeParts(h, blob, m.at, t, s);
    StepBegin(h, blob, m, t.name);
    RunStep(h, blob, m);
    var m1 := Machine(m.at + |BeginBytes(t.name)|, m.open + [NewNode(t.name)], m.root);
    ReadsBody(h, blob, m1, t, s);
    var m2 := Machine(m.at + |NodeBytes(t, s)| - 4, m.open + [Synced(t)], m.root);
    assert m2.open == m1.open[|m.open| := Synced(t)];
    assert m2.open[..|m.open| - 1] + [AddChild(Top(m), Synced(t))]
        == m.open[|m.open| - 1 := AddChild(Top(m), Synced(t))];
    StepEnd(h, blob, m2);
    RunStep(h, blob, m2);
  }

  // ----- The whole blob -----

  /** Everything of t is small enough for the 32-bit fields of the header. */
  ghost predicate Encodable(t: Node) {
    |Flat(t)| < TWO_32
  }

  function FlatHeader(t: Node): Header {
    var a, b := |StructBytes(t)|, |Strings(t)|;
    Header(OFF_STRUCT + a + b, OFF_STRUCT, a, OFF_STRUCT + a, b)
  }

  lemma HeaderWords(blob: seq<byte>, a: nat, b: nat)
    requires At(blob, 0, HeaderBytes(a, b)) && OFF_STRUCT + a + b < TWO_32
    ensures |blob| >= HEADER_SIZE && Word(blob, 0) == FDT_MAGIC && Word(blob, 20) == 17
    ensures HeaderOf(blob) == Header(OFF_STRUCT + a + b, OFF_STRUCT, a, OFF_STRUCT + a, b)
    ensures Word(blob, 16) == HEADER_SIZE && Word(blob, 24) == 16 && Word(blob, 28) == 0
  {
    hide Be32, Word, At;
    var w0, w1, w2 := Be32(FDT_MAGIC), Be32(OFF_STRUCT + a + b), Be32(OFF_STRUCT);
    var w3, w4, w5 := Be32(OFF_STRUCT + a), Be32(HEADER_SIZE), Be32(0x11);
    var w6, w7, w8, w9 := Be32(0x10), Be32(0), Be32(b), Be32(a);
    AtParts(blob, 0, w0 + w1 + w2 + w3 + w4 + w5 + w6 + w7 + w8, w9);
    AtParts(blob, 0, w0 + w1 + w2 + w3 + w4 + w5 + w6 + w7, w8);
    AtParts(blob, 0, w0 + w1 + w2 + w3 + w4 + w5 + w6, w7);
    AtParts(blob, 0, w0 + w1 + w2 + w3 + w4 + w5, w6);
    AtParts(blob, 0, w0 + w1 + w2 + w3 + w4, w5);
    AtParts(blob, 0, w0 + w1 + w2 + w3, w4);
    AtParts(blob, 0, w0 + w1 + w2, w3);
    AtParts(blob, 0, w0 + w1, w2);
    AtParts(blob, 0, w0, w1);
    AtWord(blob, 0, FDT_MAGIC);
    AtWord(blob, 4, OFF_STRUCT + a + b);
    AtWord(blob, 8, OFF_STRUCT);
    AtWord(blob, 12, OFF_STRUCT + a);
    AtWord(blob, 16, HEADER_SIZE);
    AtWord(blob, 20, 0x11);
    AtWord(blob, 24, 0x10);
    AtWord(blob, 28, 0);
    AtWord(blob, 32, b);
    AtWord(blob, 36, a);
    AtEnd(blob, 0, HeaderBytes(a, b));
  }

  lemma AtEnd(blob: seq<byte>, at: nat, d: seq<byte>)
    requires At(blob, at, d)
    ensures at + |d| <= |blob|
  {
  }

  lemma FlatParts(t: Node, tail: seq<byte>)
    ensures var blob, a := Flat(t) + tail, StructBytes(t);
            && At(blob, 0, HeaderBytes(|a|, |Strings(t)|))
            && At(blob, OFF_STRUCT, NodeBytes(t, 0)) && At(blob, OFF_STRUCT + |a| - 4, Be32(END))
            && At(blob, OFF_STRUCT + |a|, Strings(t))
  {
    hide HeaderBytes, Strings, NodeBytes, Be32, Zeros;
    var blob, head, a, b := Flat(t) + tail, HeaderBytes(|StructBytes(t)|, |Strings(t)|), StructBytes(t), Strings(t);
    assert Holds(blob, 0, blob);
    AtParts(blob, 0, head + Zeros(RESERVE_SIZE) + a + b, tail);
    AtParts(blob, 0, head + Zeros(RESERVE_SIZE) + a, b);
    AtParts(blob, 0, head + Zeros(RESERVE_SIZE), a);
    AtParts(blob, 0, head, Zeros(RESERVE_SIZE));
    AtParts(blob, OFF_STRUCT, NodeBytes(t, 0), Be32(END));
  }

  /** The header is that of section 5.2: magic number, the size of the blob, versions 17 and 16, boot
      processor 0, and where the blocks are. The memory reservation block has room for 16 entries and
      is all zeros, so its first entry ends it; structure and strings follow and end the blob. */
  lemma HeaderIsComplete(t: Node)
    requires Encodable(t)
    ensures var b := Flat(t);
            && Word(b, 0) == 0xd00dfeed && Word(b, 4) == |b| && Word(b, 20) == 17 && Word(b, 24) == 16
            && Word(b, 28) == 0
            && (var rsv, struct, strings := Word(b, 16), Word(b, 8), Word(b, 12);
                && rsv == 40 && struct == rsv + 16 * 16
                && struct + Word(b, 36) == strings && strings + Word(b, 32) == |b|
                && (forall i :: rsv <= i < struct ==> b[i] == 0)
                && b[struct..strings] == StructBytes(t) && b[strings..] == Strings(t))
  {
    hide Word, HeaderBytes, StructBytes, Strings, At, Flat, HeaderOf;
    FlatBlocks(t);
    FlatHeaderPart(t);
    HeaderWords(Flat(t), |StructBytes(t)|, |Strings(t)|);
    HeaderFieldsOf(Flat(t));
  }

  lemma HeaderFieldsOf(blob: seq<byte>)
    requires |blob| >= HEADER_SIZE
    ensures var h := HeaderOf(blob);
            && h.totalSize == Word(blob, 4) && h.offStruct == Word(blob, 8) && h.offStrings == Word(blob, 12)
            && h.sizeStrings == Word(blob, 32) && h.sizeStruct == Word(blob, 36)
  {
    hide Word;
  }

  lemma FlatBlocks(t: Node)
    ensures var b, n := Flat(t), |StructBytes(t)|;
            && |b| == OFF_STRUCT + n + |Strings(t)|
            && (forall i :: HEADER_SIZE <= i < OFF_STRUCT ==> b[i] == 0)
            && b[OFF_STRUCT..OFF_STRUCT + n] == StructBytes(t) && b[OFF_STRUCT + n..] == Strings(t)
  {
    hide HeaderBytes, StructBytes, Strings;
  }

  lemma FlatHeaderPart(t: Node)
    ensures At(Flat(t), 0, HeaderBytes(|StructBytes(t)|, |Strings(t)|))
  {
    hide HeaderBytes, StructBytes, Strings;
  }

  /** of_unflatten_dtb undoes of_flatten_dtb: names, values and the order of properties and children
      come back, the cached phandles are those of the phandle properties, and the root is unnamed. */
  lemma RoundTrip(t: Node, tail: seq<byte>)
    requires NamesAreText(t) && Encodable(t)
    ensures Unflatten(Flat(t) + tail) == Ok(Unnamed(Synced(t)))
  {
    hide At, HeaderOf, Word, NodeBytes, Strings, Be32, HeaderBytes, RunFrom, NamesAreText, Synced;
    var blob, h := Flat(t) + tail, FlatHeader(t);
    FlatParts(t, tail);
    HeaderWords(blob, |StructBytes(t)|, |Strings(t)|);
    ReadsRoot(h, blob, t);
  }

  lemma ReadsRoot(h: Header, blob: seq<byte>, t: Node)
    requires h == FlatHeader(t) && h.totalSize < TWO_32 && h.totalSize <= |blob| && NamesAreText(t)
    requires At(blob, OFF_STRUCT, NodeBytes(t, 0)) && At(blob, OFF_STRUCT + |StructBytes(t)| - 4, Be32(END))
    requires At(blob, h.offStrings, Strings(t))
    ensures RunFrom(h, blob, Start(h)) == Ok(Unnamed(Synced(t)))
  {
    hide RunFrom, At, NodeBytes, Be32, Strings, Synced;
    ReadsToEnd(h, blob, t);
    StepDone(h, blob, Machine(OFF_STRUCT + |NodeBytes(t, 0)|, [], Unnamed(Synced(t))));
  }

  /** After the end tag of the root the reader has the whole tree, whatever comes next. */
  lemma ReadsToEnd(h: Header, blob: seq<byte>, t: Node)
    requires h == FlatHeader(t) && h.totalSize < TWO_32 && h.totalSize <= |blob| && NamesAreText(t)
    requires At(blob, OFF_STRUCT, NodeBytes(t, 0)) && At(blob, h.offStrings, Strings(t))
    ensures Readable(h, blob)
    ensures RunFrom(h, blob, Start(h))
         == RunFrom(h, blob, Machine(OFF_STRUCT + |NodeBytes(t, 0)|, [], Unnamed(Synced(t))))
  {
    hide RunFrom, At, Step, BeginBytes, Be32, PropertiesBytes, ForestBytes, Strings, SyncedForest, PhandleOf;
    var m := Start(h);
    MultipleIffMod(OFF_STRUCT, 4);
    NodeParts(h, blob, m.at, t, 0);
    StepBegin(h, blob, m, t.name);
    RunStep(h, blob, m);
    var m1 := Machine(m.at + |BeginBytes(t.name)|, [m.root], m.root);
    ReadsBody(h, blob, m1, t, 0);
    var m2 := Machine(m.at + |NodeBytes(t, 0)| - 4, [Unnamed(Synced(t))], m.root);
    assert m2.open == [m.root][0 := Unnamed(Synced(t))];
    StepEnd(h, blob, m2);
    RunStep(h, blob, m2);
  }

  // ----- The bytes of a small tree -----

  /** A root with the property a = <5>, as section 5.4 lays it out: tags 1, 3, 2 and 9, lengths and
      offsets as big-endian words, names padded to words. */
  lemma SmallTree()
    ensures var t := Node([], 0, [Property([0x61], [0, 0, 0, 5])], []);
            && StructBytes(t) == [0, 0, 0, 1, 0, 0, 0, 0] + [0, 0, 0, 3, 0, 0, 0, 4, 0, 0, 0, 0, 0, 0, 0, 5]
                                 + [0, 0, 0, 2] + [0, 0, 0, 9]
            && Strings(t) == [0x61, 0]
  {
    hide BeginBytes, PropertyBytes, Be32, PropertiesBytes, NameStrings;
    var p := Property([0x61], [0, 0, 0, 5]);
    var begin: seq<byte>, prop: seq<byte> := BeginBytes([]), PropertyBytes(p, 0);
    OneProperty(p);
    SmallWord(END_NODE);
    SmallWord(END);
    SmallBegin();
    SmallProperty(p);
    assert begin + prop + [] == begin + prop;
    assert NameStrings([p]) + [] == NameStrings([p]);
  }

  lemma OneProperty(p: Property)
    ensures PropertiesBytes([p], 0) == PropertyBytes(p, 0) && NameStrings([p]) == p.name + [0]
  {
    hide PropertyBytes;
    assert [p][..0] == [];
    assert [] + PropertyBytes(p, 0) == PropertyBytes(p, 0) && [] + p.name + [0] == p.name + [0];
  }

  lemma SmallWord(n: byte)
    ensures Be32(n) == [0, 0, 0, n]
  {
  }

  lemma SmallBegin()
    ensures BeginBytes([]) == [0, 0, 0, 1, 0, 0, 0, 0]
  {
    hide Be32;
    SmallWord(BEGIN_NODE);
    assert RoundUp(5, 4) == 8;
  }

  lemma SmallProperty(p: Property)
    requires p.value == [0, 0, 0, 5]
    ensures PropertyBytes(p, 0) == [0, 0, 0, 3, 0, 0, 0, 4, 0, 0, 0, 0, 0, 0, 0, 5]
  {
    hide Be32;
    SmallWord(PROP);
    SmallWord(4);
    SmallWord(0);
    assert RoundUp(8, 4) == 8;
    assert RoundUp(16, 4) == 16;
  }

  // ----- What the writer does not write -----

  /** Any number of NOP words, which are 4, is passed over in front of any tag. */
  lemma {:induction false} NopsSkipped(h: Header, blob: seq<byte>, m: Machine, k: nat)
    requires Readable(h, blob) && Multiple(m.at, 4) && m.at + 4 * k <= h.Limit()
    requires forall i :: 0 <= i < k ==> Word(blob, m.at + 4 * i) == 4
    ensures RunFrom(h, blob, m) == RunFrom(h, blob, m.(at := m.at + 4 * k))
    decreases k
  {
    hide RunFrom, Word, Step;
    if k > 0 {
      assert Word(blob, m.at + 4 * 0) == NOP;
      NopWord(h, blob, m);
      var m' := m.(at := m.at + 4);
      forall i | 0 <= i < k - 1
        ensures Word(blob, m'.at + 4 * i) == NOP
      {
        assert Word(blob, m.at + 4 * (i + 1)) == NOP;
      }
      MultipleSum(m.at, 4, 4);
      NopsSkipped(h, blob, m', k - 1);
      assert m'.(at := m'.at + 4 * (k - 1)) == m.(at := m.at + 4 * k);
    }
  }

  lemma NopWord(h: Header, blob: seq<byte>, m: Machine)
    requires Readable(h, blob) && Multiple(m.at, 4) && m.at + 4 <= h.Limit() && Word(blob, m.at) == NOP
    ensures RunFrom(h, blob, m) == RunFrom(h, blob, m.(at := m.at + 4))
  {
    hide FromBe32, Word;
    RoundUpSum(m.at, 4);
  }

  /** What a header is refused for: magic number, version or size, or blocks that leave the blob. */
  lemma HeaderRefused(blob: seq<byte>)
    ensures |blob| < 40 || Word(blob, 0) != 0xd00dfeed || Word(blob, 20) != 17 ==> Unflatten(blob) == Err(EINVAL)
    ensures |blob| >= 40 && Word(blob, 0) == 0xd00dfeed && Word(blob, 20) == 17 ==>
      var total := Word(blob, 4);
      if Word(blob, 8) + Word(blob, 36) > total || Word(blob, 12) + Word(blob, 32) > total
      then Unflatten(blob) == Err(ESPIPE)
      else total > |blob| ==> Unflatten(blob) == Err(EINVAL)
  {
    hide Word, RunFrom;
  }

  /** An END tag while nodes are open gives the tree in which each of them is the last child of the one
      before. */
  lemma EarlyEnd(h: Header, blob: seq<byte>, m: Machine)
    requires Readable(h, blob) && At(blob, m.at, Be32(END)) && m.open != []
    ensures RunFrom(h, blob, m) == Ok(Chained(m.open))
  {
    hide Be32, FromBe32, Word;
    AtWord(blob, m.at, END);
    ClosedIsChained(m.open);
  }

  function Chained(open: seq<Node>): Node
    requires open != []
  {
    if |open| == 1 then open[0] else AddChild(open[0], Chained(open[1..]))
  }

  lemma {:induction false} ClosedIsChained(open: seq<Node>)
    requires open != []
    ensures Closed(open) == Chained(open)
    decreases |open|
  {
    var n := |open|;
    if n > 1 {
      var last := AddChild(open[n - 2], open[n - 1]);
      ClosedIsChained(open[..n - 2] + [last]);
      ChainEnd(open[..n - 2], open[n - 2], open[n - 1]);
      assert open[..n - 2] + [open[n - 2], open[n - 1]] == open;
    }
  }

  lemma {:induction false} ChainEnd(front: seq<Node>, p: Node, c: Node)
    ensures Chained(front + [AddChild(p, c)]) == Chained(front + [p, c])
    decreases |front|
  {
    hide AddChild;
    var a, b := front + [AddChild(p, c)], front + [p, c];
    if front == [] {
      assert b[1..] == [c];
    } else {
      assert a[1..] == front[1..] + [AddChild(p, c)] && b[1..] == front[1..] + [p, c];
      ChainEnd(front[1..], p, c);
    }
  }

  /** A word that is no tag ends the reader with EINVAL, and so does an end tag without an open node. */
  lemma BadTagRefused(h: Header, blob: seq<byte>, m: Machine)
    requires Readable(h, blob) && m.at + 4 <= h.Limit()
    requires Word(blob, m.at) !in {1, 2, 3, 4, 9} || (Word(blob, m.at) == 2 && m.open == [])
    ensures RunFrom(h, blob, m) == Err(EINVAL)
  {
    hide Word;
  }

  /** A tag that does not fit in the structure block ends it with ESPIPE, and so does a property whose
      name lies behind the strings. */
  lemma OverrunRefused(h: Header, blob: seq<byte>, m: Machine, p: Property, nameOff: nat)
    requires Readable(h, blob) && m.open != [] && At(blob, m.at, PropertyBytes(p, nameOff))
    requires nameOff < TWO_32 && |p.value| < TWO_32
    requires nameOff > h.sizeStrings || RoundUp(m.at + 12 + |p.value|, 4) > h.Limit()
    ensures RunFrom(h, blob, m) == Err(ESPIPE)
  {
    hide Word, CString, RoundUp;
    PropertyWords(blob, m.at, p, nameOff);
  }

  /** A written tree whose final word was replaced is refused unless it is a tag that may stand there. */
  lemma BadEndRefused(t: Node, blob: seq<byte>, w: nat)
    requires NamesAreText(t) && Encodable(t) && |blob| == |Flat(t)| && w < TWO_32
    requires var at := OFF_STRUCT + |NodeBytes(t, 0)|;
             && at + 4 <= |blob| && At(blob, at, Be32(w))
             && forall i :: 0 <= i < |blob| && !(at <= i < at + 4) ==> blob[i] == Flat(t)[i]
    requires w !in {1, 3, 4, 9}
    ensures Unflatten(blob) == Err(EINVAL)
  {
    hide At, HeaderOf, Word, NodeBytes, Strings, Be32, HeaderBytes, RunFrom, NamesAreText, Synced;
    var h := FlatHeader(t);
    PatchedParts(t, blob);
    HeaderWords(blob, |StructBytes(t)|, |Strings(t)|);
    ReadsToEnd(h, blob, t);
    AtWord(blob, OFF_STRUCT + |NodeBytes(t, 0)|, w);
    BadTagRefused(h, blob, Machine(OFF_STRUCT + |NodeBytes(t, 0)|, [], Unnamed(Synced(t))));
  }

  lemma PatchedParts(t: Node, blob: seq<byte>)
    requires |blob| == |Flat(t)|
    requires var at := OFF_STRUCT + |NodeBytes(t, 0)|;
             forall i :: 0 <= i < |blob| && !(at <= i < at + 4) ==> blob[i] == Flat(t)[i]
    ensures At(blob, 0, HeaderBytes(|StructBytes(t)|, |Strings(t)|)) && At(blob, OFF_STRUCT, NodeBytes(t, 0))
    ensures At(blob, OFF_STRUCT + |StructBytes(t)|, Strings(t))
  {
    hide HeaderBytes, Strings, NodeBytes, Be32, Zeros;
    FlatParts(t, []);
    assert Flat(t) + [] == Flat(t);
  }

  /** A tree whose phandles are in step with its properties and whose root is unnamed is restored
      exactly. */
  lemma ExactRoundTrip(t: Node, tail: seq<byte>)
    requires NamesAreText(t) && Encodable(t) && InSync(t) && t.name == []
    ensures Unflatten(Flat(t) + tail) == Ok(t)
  {
    RoundTrip(t, tail);
    SyncedIsSame(t);
  }

  /** What was read is restored exactly by another round. */
  lemma {:induction false} SyncedIsInSync(t: Node)
    ensures InSync(Synced(t))
  {
    SyncedForestIsInSync(t.children);
  }

  lemma {:induction false} SyncedForestIsInSync(ts: seq<Node>)
    ensures forall c <- SyncedForest(ts) :: InSync(c)
  {
    if ts != [] {
      SyncedForestIsInSync(ts[..|ts| - 1]);
      SyncedIsInSync(ts[|ts| - 1]);
    }
  }

  /** Flattening is injective up to what the reader drops. */
  lemma FlatIsInjective(t: Node, u: Node)
    requires NamesAreText(t) && Encodable(t) && NamesAreText(u) && Encodable(u) && Flat(t) == Flat(u)
    ensures Unnamed(Synced(t)) == Unnamed(Synced(u))
  {
    RoundTrip(t, []);
    RoundTrip(u, []);
  }
}
