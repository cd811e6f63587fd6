/** A state as a device tree: the variables written into a tree that has the shape of the state's
    description, and read back from such a tree. */
module StateTree {
  import opened Bytes
  import opened FdtFormat
  import opened FdtRoundTrip

  // "type", "reg", "default", "names", "value", "magic"
  const TYPE: seq<byte> := [0x74, 0x79, 0x70, 0x65]
  const REG: seq<byte> := [0x72, 0x65, 0x67]
  const DEFAULT: seq<byte> := [0x64, 0x65, 0x66, 0x61, 0x75, 0x6c, 0x74]
  const NAMES: seq<byte> := [0x6e, 0x61, 0x6d, 0x65, 0x73]
  const VALUE: seq<byte> := [0x76, 0x61, 0x6c, 0x75, 0x65]
  const MAGIC: seq<byte> := [0x6d, 0x61, 0x67, 0x69, 0x63]

  /** The bytes of a name. */
  function Ascii(s: string): seq<byte>
    requires forall i :: 0 <= i < |s| ==> (s[i] as int) < 128
  {
    seq(|s|, i requires 0 <= i < |s| => s[i] as int)
  }

  lemma PropertyNames()
    ensures TYPE == Ascii("type") && REG == Ascii("reg") && DEFAULT == Ascii("default")
    ensures NAMES == Ascii("names") && VALUE == Ascii("value") && MAGIC == Ascii("magic")
    ensures PHANDLE == Ascii("phandle")
  {
  }

  /** The variable types whose values the dtb format carries. */
  datatype Type = Uint8 | Uint32 | Enum32 | Mac

  /** "uint8", "uint32", "enum32", "mac" */
  function TypeName(ty: Type): (s: seq<byte>)
    ensures Text(s)
  {
    match ty
    case Uint8 => [0x75, 0x69, 0x6e, 0x74, 0x38]
    case Uint32 => [0x75, 0x69, 0x6e, 0x74, 0x33, 0x32]
    case Enum32 => [0x65, 0x6e, 0x75, 0x6d, 0x33, 0x32]
    case Mac => [0x6d, 0x61, 0x63]
  }

  lemma TypeNames()
    ensures TypeName(Uint8) == Ascii("uint8") && TypeName(Uint32) == Ascii("uint32")
    ensures TypeName(Enum32) == Ascii("enum32") && TypeName(Mac) == Ascii("mac")
  {
  }

  /** state_find_type_by_name */
  function FindType(name: seq<byte>): Option<Type> {
    if name == TypeName(Uint8) then Some(Uint8)
    else if name == TypeName(Uint32) then Some(Uint32)
    else if name == TypeName(Enum32) then Some(Enum32)
    else if name == TypeName(Mac) then Some(Mac)
    else None
  }

  lemma FindTypeName(ty: Type)
    ensures FindType(TypeName(ty)) == Some(ty)
  {
  }

  datatype Value = Number(n: nat) | Address(bytes: seq<byte>)

  /** enumNames are the value names of an enum32 variable. */
  datatype StateVar = StateVar(name: seq<byte>, ty: Type, start: nat, size: nat,
                               enumNames: seq<seq<byte>>, value: Value, preset: Value)

  ghost predicate ValueOk(ty: Type, v: Value) {
    if ty == Mac then v.Address? && |v.bytes| == 6 else v.Number? && v.n < TWO_32
  }

  ghost predicate VarOk(v: StateVar) {
    ValueOk(v.ty, v.value) && ValueOk(v.ty, v.preset) && v.start < TWO_32 && v.size < TWO_32
  }

  // ----- Properties -----

  /** of_find_property: the value of the first property of that name. */
  function Lookup(ps: seq<Property>, name: seq<byte>): Option<seq<byte>> {
    if ps == [] then None else if ps[0].name == name then Some(ps[0].value) else Lookup(ps[1..], name)
  }

  /** of_property_read_string */
  function ReadString(ps: seq<Property>, name: seq<byte>): Result<seq<byte>> {
    match Lookup(ps, name)
    case None => Err(EINVAL)
    case Some(v) => if 0 !in v then Err(EILSEQ) else Ok(CString(v, 0))
  }

  /** of_property_read_u32 */
  function ReadU32(ps: seq<Property>, name: seq<byte>): Result<nat> {
    match Lookup(ps, name)
    case None => Err(EINVAL)
    case Some(v) => if |v| < 4 then Err(EOVERFLOW) else Ok(FromBe32(v[..4]))
  }

  function ValueBytes(v: Value): seq<byte> {
    match v
    case Number(n) => Be32(n)
    case Address(b) => b
  }

  predicate IsZero(v: Value) {
    match v
    case Number(n) => n == 0
    case Address(b) => forall i :: 0 <= i < |b| ==> b[i] == 0
  }

  function NameList(names: seq<seq<byte>>): seq<byte> {
    if names == [] then [] else names[0] + [0] + NameList(names[1..])
  }

  /** The properties of a variable's node: type, reg and what the type's export writes. */
  function Exported(ty: Type, v: StateVar): seq<Property> {
    [Property(TYPE, TypeName(ty) + [0]), Property(REG, Be32(v.start) + Be32(v.size))]
    + (if IsZero(v.preset) then [] else [Property(DEFAULT, ValueBytes(v.preset))])
    + (if ty == Enum32 then [Property(NAMES, NameList(v.enumNames))] else [])
    + [Property(VALUE, ValueBytes(v.value))]
  }

  /** The type's import: the value, or else the default, from the properties. */
  function Import(ty: Type, v: StateVar, ps: seq<Property>): Result<StateVar> {
    var value, preset := Lookup(ps, VALUE), Lookup(ps, DEFAULT);
    match ty
    case Enum32 =>
      if (value.Some? && |value.value| != 4) || (preset.Some? && |preset.value| != 4) then Err(EINVAL)
      else
        var d := if preset.Some? then Number(FromBe32(preset.value)) else v.preset;
        Ok(v.(preset := d, value := if value.Some? then Number(FromBe32(value.value)) else d))
    case Mac =>
      var d := if preset.Some? && |preset.value| >= 6 then Address(preset.value[..6]) else v.preset;
      Ok(v.(preset := d, value := if value.Some? && |value.value| >= 6 then Address(value.value[..6]) else d))
    case _ =>
      var d := if preset.Some? && |preset.value| >= 4 then Number(FromBe32(preset.value[..4])) else v.preset;
      Ok(v.(preset := d, value := if value.Some? && |value.value| >= 4 then Number(FromBe32(value.value[..4])) else d))
  }

  // ----- Names -----

  /** The node name without a trailing "@<address>". */
  function ShortName(name: seq<byte>): seq<byte> {
    if name == [] || name[0] == 0x40 then [] else [name[0]] + ShortName(name[1..])
  }

  /** The dotted name of a node below the named parent. */
  function FullName(parent: seq<byte>, name: seq<byte>): seq<byte> {
    parent + (if parent == [] then [] else [0x2e]) + ShortName(name)
  }

  lemma {:induction false} ShortNameParts(name: seq<byte>)
    ensures ShortName(name) <= name && 0x40 !in ShortName(name)
    ensures |ShortName(name)| < |name| ==> name[|ShortName(name)|] == 0x40
  {
    if name != [] && name[0] != 0x40 {
      ShortNameParts(name[1..]);
      assert name == [name[0]] + name[1..];
    }
  }

  /** What stands behind the last dot. */
  function LastPart(s: seq<byte>): seq<byte> {
    if s == [] || s[|s| - 1] == 0x2e then [] else LastPart(s[..|s| - 1]) + [s[|s| - 1]]
  }

  lemma {:induction false} LastPartOf(front: seq<byte>, s: seq<byte>)
    requires 0x2e !in s && (front == [] || front[|front| - 1] == 0x2e)
    ensures LastPart(front + s) == s
    decreases |s|
  {
    var a := front + s;
    if s == [] {
      assert a == front;
    } else {
      assert a[..|a| - 1] == front + s[..|s| - 1];
      LastPartOf(front, s[..|s| - 1]);
    }
  }

  /** As long as short names hold no dot, a dotted name tells its node's short name and the dotted
      name of the parent. */
  lemma FullNameInjective(p: seq<byte>, n: seq<byte>, q: seq<byte>, m: seq<byte>)
    requires 0x2e !in ShortName(n) && 0x2e !in ShortName(m) && FullName(p, n) == FullName(q, m)
    ensures p == q && ShortName(n) == ShortName(m)
  {
    hide ShortName, LastPart;
    var s, t := ShortName(n), ShortName(m);
    var f, g := p + (if p == [] then [] else [0x2e]), q + (if q == [] then [] else [0x2e]);
    LastPartOf(f, s);
    LastPartOf(g, t);
    assert f == (f + s)[..|f|] && g == (g + t)[..|g|];
    assert p != [] ==> p == f[..|f| - 1];
    assert q != [] ==> q == g[..|g| - 1];
  }

  /** state_find_var: the first variable of that name. */
  function FindVar(vars: seq<StateVar>, name: seq<byte>): (i: nat)
    ensures i <= |vars| && (i < |vars| ==> vars[i].name == name)
    ensures forall j :: 0 <= j < i ==> vars[j].name != name
  {
    if vars == [] || vars[0].name == name then 0 else 1 + FindVar(vars[1..], name)
  }

  // ----- From the state to a tree and back -----

  /** state_convert_node_variable to a new tree: t describes the variable, or groups others. */
  function ToNode(t: Node, parent: seq<byte>, vars: seq<StateVar>): Result<Node> {
    var name := FullName(parent, t.name);
    match ToForest(t.children, name, vars)
    case Err(e) => Err(e)
    case Ok(children) =>
      match ReadString(t.properties, TYPE)
      case Err(e) => if e == EINVAL && t.children != [] then Ok(Node(t.name, 0, [], children)) else Err(e)
      case Ok(typeName) =>
        match FindType(typeName)
        case None => Err(ENOENT)
        case Some(ty) =>
          var i := FindVar(vars, name);
          Ok(Node(t.name, 0, if i < |vars| then Exported(ty, vars[i]) else [], children))
  }

  function ToForest(ts: seq<Node>, parent: seq<byte>, vars: seq<StateVar>): (r: Result<seq<Node>>)
    ensures r.Ok? ==> |r.value| == |ts|
  {
    if ts == [] then Ok([]) else
      match ToForest(ts[..|ts| - 1], parent, vars)
      case Err(e) => Err(e)
      case Ok(front) =>
        match ToNode(ts[|ts| - 1], parent, vars)
        case Err(e) => Err(e)
        case Ok(n) => Ok(front + [n])
  }

  /** state_to_node */
  function StateToNode(t: Node, magic: nat, vars: seq<StateVar>): Result<Node> {
    match ToForest(t.children, [], vars)
    case Err(e) => Err(e)
    case Ok(children) => Ok(Node(t.name, 0, [Property(MAGIC, Be32(magic))], children))
  }

  /** state_convert_node_variable from a tree into existing variables. */
  function FromNode(n: Node, parent: seq<byte>, vars: seq<StateVar>): (r: Result<seq<StateVar>>)
    ensures r.Ok? ==> |r.value| == |vars|
  {
    var name := FullName(parent, n.name);
    match FromForest(n.children, name, vars)
    case Err(e) => Err(e)
    case Ok(after) =>
      match ReadString(n.properties, TYPE)
      case Err(e) => if e == EINVAL && n.children != [] then Ok(after) else Err(e)
      case Ok(typeName) =>
        match FindType(typeName)
        case None => Err(ENOENT)
        case Some(ty) =>
          var i := FindVar(after, name);
          if i == |after| then Ok(after) else
            match Import(ty, after[i], n.properties)
            case Err(e) => Err(e)
            case Ok(v) => Ok(after[i := v])
  }

  function FromForest(ns: seq<Node>, parent: seq<byte>, vars: seq<StateVar>): (r: Result<seq<StateVar>>)
    ensures r.Ok? ==> |r.value| == |vars|
  {
    if ns == [] then Ok(vars) else
      match FromForest(ns[..|ns| - 1], parent, vars)
      case Err(e) => Err(e)
      case Ok(after) => FromNode(ns[|ns| - 1], parent, after)
  }

  /** state_from_node without creating variables; magic 0 accepts every tree. */
  function StateFromNode(n: Node, magic: nat, vars: seq<StateVar>): (r: Result<seq<StateVar>>)
    ensures r.Ok? ==> |r.value| == |vars|
  {
    match ReadU32(n.properties, MAGIC)
    case Err(e) => Err(e)
    case Ok(m) => if magic != 0 && magic != m then Err(EINVAL) else FromForest(n.children, [], vars)
  }

  // ----- Which variables a description reaches -----

  /** The variables, by place, that the typed nodes of the description name. */
  ghost function Reached(t: Node, parent: seq<byte>, vars: seq<StateVar>): set<nat> {
    var name := FullName(parent, t.name);
    ReachedForest(t.children, name, vars)
    + if ReadString(t.properties, TYPE).Ok? then {FindVar(vars, name)} else {}
  }

  ghost function ReachedForest(ts: seq<Node>, parent: seq<byte>, vars: seq<StateVar>): set<nat> {
    if ts == [] then {} else ReachedForest(ts[..|ts| - 1], parent, vars) + Reached(ts[|ts| - 1], parent, vars)
  }

  /** Every typed node of the description has its variable, of that type. */
  ghost predicate Describes(t: Node, parent: seq<byte>, vars: seq<StateVar>) {
    var name := FullName(parent, t.name);
    DescribesAll(t.children, name, vars)
    && var ty := ReadString(t.properties, TYPE);
       ty.Ok? ==> FindVar(vars, name) < |vars| && FindType(ty.value) == Some(vars[FindVar(vars, name)].ty)
  }

  ghost predicate DescribesAll(ts: seq<Node>, parent: seq<byte>, vars: seq<StateVar>) {
    ts != [] ==> DescribesAll(ts[..|ts| - 1], parent, vars) && Describes(ts[|ts| - 1], parent, vars)
  }

  /** Two lists of the same variables, with values of their own. */
  ghost predicate SameVars(a: seq<StateVar>, b: seq<StateVar>) {
    |a| == |b| && forall i :: 0 <= i < |a| ==> a[i].name == b[i].name && a[i].ty == b[i].ty
  }

  /** into with the values of from; a zero default is not written, so the old one stays. */
  function Merged(into: StateVar, from: StateVar): StateVar {
    into.(value := from.value, preset := if IsZero(from.preset) then into.preset else from.preset)
  }

  ghost function Restored(into: seq<StateVar>, from: seq<StateVar>, which: set<nat>): (r: seq<StateVar>)
    requires |into| == |from|
    ensures |r| == |into|
  {
    seq(|into|, i requires 0 <= i < |into| => if i in which then Merged(into[i], from[i]) else into[i])
  }

  // ----- What was written is what is read -----

  lemma {:induction false} LookupAt(ps: seq<Property>, name: seq<byte>, k: nat)
    requires k < |ps| && ps[k].name == name && forall j :: 0 <= j < k ==> ps[j].name != name
    ensures Lookup(ps, name) == Some(ps[k].value)
  {
    if k > 0 {
      LookupAt(ps[1..], name, k - 1);
    }
  }

  lemma {:induction false} LookupNone(ps: seq<Property>, name: seq<byte>)
    requires forall j :: 0 <= j < |ps| ==> ps[j].name != name
    ensures Lookup(ps, name) == None
  {
    if ps != [] {
      LookupNone(ps[1..], name);
    }
  }

  lemma PropertyNamesDiffer()
    ensures TYPE != REG && TYPE != DEFAULT && TYPE != NAMES && TYPE != VALUE
    ensures REG != DEFAULT && REG != VALUE && NAMES != DEFAULT && NAMES != VALUE && DEFAULT != VALUE
    ensures PHANDLE != TYPE && PHANDLE != REG && PHANDLE != DEFAULT && PHANDLE != NAMES && PHANDLE != VALUE
    ensures PHANDLE != MAGIC
  {
    assert TYPE[0] == 0x74 && REG[0] == 0x72 && DEFAULT[0] == 0x64 && NAMES[0] == 0x6e && VALUE[0] == 0x76;
    assert PHANDLE[0] == 0x70 && MAGIC[0] == 0x6d;
  }

  lemma ExportedLookups(ty: Type, v: StateVar)
    ensures Lookup(Exported(ty, v), TYPE) == Some(TypeName(ty) + [0])
    ensures Lookup(Exported(ty, v), VALUE) == Some(ValueBytes(v.value))
    ensures Lookup(Exported(ty, v), DEFAULT) == if IsZero(v.preset) then None else Some(ValueBytes(v.preset))
  {
    hide TypeName, ValueBytes, NameList, IsZero, Be32, Lookup;
    PropertyNamesDiffer();
    var ps := Exported(ty, v);
    LookupAt(ps, TYPE, 0);
    LookupAt(ps, VALUE, |ps| - 1);
    if IsZero(v.preset) {
      LookupNone(ps, DEFAULT);
    } else {
      LookupAt(ps, DEFAULT, 2);
    }
  }

  lemma Be32Value(n: nat)
    requires n < TWO_32
    ensures FromBe32(Be32(n)) == n && Be32(n)[..4] == Be32(n)
  {
    Be32RoundTrip(n);
  }

  /** Import undoes export, for every type. */
  lemma ImportExported(v: StateVar, into: StateVar)
    requires VarOk(v)
    ensures Import(v.ty, into, Exported(v.ty, v)) == Ok(Merged(into, v))
    ensures ReadString(Exported(v.ty, v), TYPE) == Ok(TypeName(v.ty))
  {
    hide Exported, Be32, FromBe32, TypeName, Lookup;
    ExportedLookups(v.ty, v);
    TypeNameRead(v.ty);
    if v.ty == Mac {
      assert v.value.bytes[..6] == v.value.bytes && v.preset.bytes[..6] == v.preset.bytes;
    } else {
      Be32Value(v.value.n);
      Be32Value(v.preset.n);
    }
  }

  lemma TypeNameRead(ty: Type)
    ensures 0 in TypeName(ty) + [0] && CString(TypeName(ty) + [0], 0) == TypeName(ty)
  {
    hide TypeName;
    var s := TypeName(ty) + [0];
    assert s[|s| - 1] == 0;
    AtText(s, 0, TypeName(ty));
  }

  lemma {:induction false} FindVarSame(a: seq<StateVar>, b: seq<StateVar>, name: seq<byte>)
    requires SameVars(a, b)
    ensures FindVar(a, name) == FindVar(b, name)
  {
    if a != [] && a[0].name != name {
      FindVarSame(a[1..], b[1..], name);
    }
  }

  lemma RestoredTwice(into: seq<StateVar>, from: seq<StateVar>, s: set<nat>, t: set<nat>)
    requires |into| == |from|
    ensures Restored(Restored(into, from, s), from, t) == Restored(into, from, s + t)
    ensures Restored(into, from, {}) == into
    ensures SameVars(from, into) ==> SameVars(from, Restored(into, from, s))
  {
  }

  lemma RestoreOne(into: seq<StateVar>, from: seq<StateVar>, i: nat)
    requires |into| == |from| && i < |into|
    ensures Restored(into, from, {i}) == into[i := Merged(into[i], from[i])]
  {
  }

  ghost predicate AllOk(vars: seq<StateVar>) {
    forall v <- vars :: VarOk(v)
  }

  /** The tree made from a described state restores exactly the variables the description reaches. */
  lemma {:induction false} NodeRestores(t: Node, parent: seq<byte>, from: seq<StateVar>, into: seq<StateVar>)
    requires Describes(t, parent, from) && SameVars(from, into) && AllOk(from) && ToNode(t, parent, from).Ok?
    ensures FromNode(ToNode(t, parent, from).value, parent, into)
         == Ok(Restored(into, from, Reached(t, parent, from)))
    decreases t, 1
  {
    hide Exported, Import, VarOk, Restored, FindType, ReadString, Merged, FullName;
    var name := FullName(parent, t.name);
    var below := ReachedForest(t.children, name, from);
    ForestRestores(t.children, name, from, into);
    RestoredTwice(into, from, below, {});
    var after := Restored(into, from, below);
    var ty := ReadString(t.properties, TYPE);
    if ty.Ok? {
      var i := FindVar(from, name);
      FindVarSame(from, after, name);
      ImportExported(from[i], after[i]);
      FindTypeName(from[i].ty);
      RestoredTwice(into, from, below, {i});
      RestoreOne(after, from, i);
    } else {
      NoProperties();
      assert below + {} == below;
    }
  }

  lemma NoProperties()
    ensures ReadString([], TYPE) == Err(EINVAL)
  {
  }

  lemma {:induction false} ForestRestores(ts: seq<Node>, parent: seq<byte>, from: seq<StateVar>, into: seq<StateVar>)
    requires DescribesAll(ts, parent, from) && SameVars(from, into) && AllOk(from) && ToForest(ts, parent, from).Ok?
    ensures FromForest(ToForest(ts, parent, from).value, parent, into)
         == Ok(Restored(into, from, ReachedForest(ts, parent, from)))
    decreases ts, 0
  {
    hide ToNode, FromNode, Restored, Describes, Reached;
    RestoredTwice(into, from, {}, {});
    if ts != [] {
      var front, t := ts[..|ts| - 1], ts[|ts| - 1];
      var s := ReachedForest(front, parent, from);
      ForestRestores(front, parent, from, into);
      RestoredTwice(into, from, s, Reached(t, parent, from));
      NodeRestores(t, parent, from, Restored(into, from, s));
      var ns, n := ToForest(front, parent, from).value, ToNode(t, parent, from).value;
      assert (ns + [n])[..|ns|] == ns;
    }
  }

  // ----- Through the flattened tree -----

  /** The tree of a state can be flattened and read back unchanged. */
  lemma {:induction false} NodeIsPlain(t: Node, parent: seq<byte>, vars: seq<StateVar>)
    requires NamesAreText(t) && ToNode(t, parent, vars).Ok?
    ensures var n := ToNode(t, parent, vars).value; NamesAreText(n) && InSync(n)
    decreases t, 1
  {
    hide ReadString, FindType, FullName, Exported, PhandleOf, Text;
    var name := FullName(parent, t.name);
    ForestIsPlain(t.children, name, vars);
    var n := ToNode(t, parent, vars).value;
    var i := FindVar(vars, name);
    NoPhandle([]);
    if ReadString(t.properties, TYPE).Ok? && i < |vars| {
      ExportedIsPlain(FindType(ReadString(t.properties, TYPE).value).value, vars[i]);
      NoPhandle(n.properties);
    }
  }

  lemma {:induction false} ForestIsPlain(ts: seq<Node>, parent: seq<byte>, vars: seq<StateVar>)
    requires (forall t <- ts :: NamesAreText(t)) && ToForest(ts, parent, vars).Ok?
    ensures forall n <- ToForest(ts, parent, vars).value :: NamesAreText(n) && InSync(n)
    decreases ts, 0
  {
    hide ToNode, NamesAreText, InSync;
    if ts != [] {
      ForestIsPlain(ts[..|ts| - 1], parent, vars);
      NodeIsPlain(ts[|ts| - 1], parent, vars);
    }
  }

  ghost predicate PlainNames(ps: seq<Property>) {
    forall p <- ps :: Text(p.name) && p.name != PHANDLE
  }

  lemma ExportedIsPlain(ty: Type, v: StateVar)
    ensures PlainNames(Exported(ty, v))
  {
    hide TypeName, ValueBytes, NameList, IsZero, Be32;
    PropertyNamesDiffer();
  }

  lemma {:induction false} NoPhandle(ps: seq<Property>)
    requires PlainNames(ps)
    ensures PhandleOf(ps) == 0 && forall p <- ps :: Text(p.name)
  {
    if ps != [] {
      NoPhandle(ps[..|ps| - 1]);
    }
  }

  lemma StateNodeIsPlain(t: Node, magic: nat, vars: seq<StateVar>)
    requires NamesAreText(t) && StateToNode(t, magic, vars).Ok?
    ensures var n := StateToNode(t, magic, vars).value; NamesAreText(n) && Synced(n) == n
  {
    hide NamesAreText, InSync, Synced, PhandleOf, ToForest, Be32;
    var n := StateToNode(t, magic, vars).value;
    assert forall c <- t.children :: NamesAreText(c) by { NamesBelow(t); }
    ForestIsPlain(t.children, [], vars);
    PropertyNamesDiffer();
    NoPhandle(n.properties);
    NamesBelow(t);
    PlainNode(n);
    SyncedIsSame(n);
  }

  lemma NamesBelow(t: Node)
    requires NamesAreText(t)
    ensures Text(t.name) && forall c <- t.children :: NamesAreText(c)
  {
  }

  lemma PlainNode(n: Node)
    requires Text(n.name) && (forall p <- n.properties :: Text(p.name)) && n.phandle == PhandleOf(n.properties)
    requires forall c <- n.children :: NamesAreText(c) && InSync(c)
    ensures NamesAreText(n) && InSync(n)
  {
  }

  /** Pack, unflatten, unpack: into any state with the same variables, every variable the
      description reaches gets the saved value, and no other changes. */
  lemma StateRoundTrip(t: Node, magic: nat, from: seq<StateVar>, into: seq<StateVar>, tail: seq<byte>)
    requires NamesAreText(t) && magic < TWO_32 && AllOk(from) && SameVars(from, into)
    requires DescribesAll(t.children, [], from) && StateToNode(t, magic, from).Ok?
    requires Encodable(StateToNode(t, magic, from).value)
    ensures var n := StateToNode(t, magic, from).value;
            && Unflatten(Flat(n) + tail) == Ok(Unnamed(n))
            && StateFromNode(Unnamed(n), magic, into)
               == Ok(Restored(into, from, ReachedForest(t.children, [], from)))
  {
    hide NamesAreText, Flat, Unflatten, Synced, Encodable, Restored, Be32, FromBe32, ToForest, FromForest;
    var n := StateToNode(t, magic, from).value;
    StateNodeIsPlain(t, magic, from);
    RoundTrip(n, tail);
    ForestRestores(t.children, [], from, into);
    LookupAt(n.properties, MAGIC, 0);
    Be32Value(magic);
  }

  /** A tree without a magic number, or with another one, is refused and imports nothing; 0 asks for none. */
  lemma OtherMagicRefused(n: Node, magic: nat, vars: seq<StateVar>)
    ensures Lookup(n.properties, MAGIC) == None ==> StateFromNode(n, magic, vars) == Err(EINVAL)
    ensures Lookup(n.properties, MAGIC).Some? && |Lookup(n.properties, MAGIC).value| < 4 ==>
      StateFromNode(n, magic, vars) == Err(EOVERFLOW)
    ensures forall m: nat :: m < TWO_32 && Lookup(n.properties, MAGIC) == Some(Be32(m)) ==>
      StateFromNode(n, magic, vars) == if magic == 0 || magic == m then StateFromNode(n, m, vars) else Err(EINVAL)
  {
    hide Lookup, Be32, FromBe32, FromForest;
    forall m: nat | m < TWO_32 && Lookup(n.properties, MAGIC) == Some(Be32(m))
      ensures ReadU32(n.properties, MAGIC) == Ok(m)
    {
      Be32Value(m);
    }
  }

  /** So the tree of a state with one magic number is not taken for that of another. */
  lemma SavedMagicRefused(t: Node, magic: nat, other: nat, from: seq<StateVar>, into: seq<StateVar>)
    requires magic < TWO_32 && StateToNode(t, magic, from).Ok? && other !in {0, magic}
    ensures StateFromNode(Unnamed(StateToNode(t, magic, from).value), other, into) == Err(EINVAL)
  {
    hide ToForest, FromForest, Be32;
    var n := StateToNode(t, magic, from).value;
    LookupAt(n.properties, MAGIC, 0);
    OtherMagicRefused(Unnamed(n), other, into);
  }

  /** Whatever state the tree is imported into, variable i gets the value it was saved with. */
  ghost predicate Restores(n: Node, magic: nat, from: seq<StateVar>, i: nat)
    requires i < |from|
  {
    forall into :: SameVars(from, into) ==>
      var r := StateFromNode(Unnamed(n), magic, into);
      r.Ok? && r.value[i].value == from[i].value
  }

  /** A variable survives saving and loading exactly when a typed node of the description reaches it. */
  lemma RestoredIffReached(t: Node, magic: nat, from: seq<StateVar>, i: nat)
    requires i < |from| && NamesAreText(t) && magic < TWO_32 && AllOk(from)
    requires DescribesAll(t.children, [], from) && StateToNode(t, magic, from).Ok?
    requires Encodable(StateToNode(t, magic, from).value)
    ensures Restores(StateToNode(t, magic, from).value, magic, from, i)
            <==> i in ReachedForest(t.children, [], from)
  {
    hide NamesAreText, Encodable, StateToNode, StateFromNode, DescribesAll, ReachedForest, VarOk;
    var n := StateToNode(t, magic, from).value;
    var which := ReachedForest(t.children, [], from);
    forall into | SameVars(from, into)
      ensures StateFromNode(Unnamed(n), magic, into) == Ok(Restored(into, from, which))
    {
      StateRoundTrip(t, magic, from, into, []);
    }
    if i !in which {
      var other := OtherValue(from, i);
      assert StateFromNode(Unnamed(n), magic, other).value[i].value != from[i].value;
    }
  }

  /** The same variables, with another value of the i-th. */
  function OtherValue(from: seq<StateVar>, i: nat): (r: seq<StateVar>)
    requires i < |from|
    ensures SameVars(from, r) && r[i].value != from[i].value
  {
    from[i := from[i].(value := match from[i].value case Number(n) => Number(n + 1) case Address(b) => Number(0))]
  }
}
