/** Creating a state from its description, and the dtb round trip of a created state. */
module StateCreate {
  import opened Bytes
  import opened FdtFormat
  import opened FdtRoundTrip
  import opened StateTree
  import Layout

  /** The size of a variable of this type. */
  function TypeSize(ty: Type): nat {
    match ty
    case Uint8 => 1
    case Mac => 6
    case _ => 4
  }

  function ZeroValue(ty: Type): Value {
    if ty == Mac then Address(Zeros(6)) else Number(0)
  }

  /** The strings of a property, each up to its terminator. */
  function Split(v: seq<byte>): seq<seq<byte>>
    decreases |v|
  {
    if v == [] then [] else
      var s := CString(v, 0);
      [s] + if |s| + 1 < |v| then Split(v[|s| + 1..]) else []
  }

  /** The type's create: an enum32 node lists its value names. */
  function EnumNames(ty: Type, ps: seq<Property>): Result<seq<seq<byte>>> {
    if ty != Enum32 then Ok([])
    else match Lookup(ps, NAMES)
      case None => Err(EINVAL)
      case Some(v) => if 0 !in v then Err(EINVAL) else Ok(Split(v))
  }

  /** The variable a typed node creates; its value is not imported yet. */
  function NewVar(ty: Type, name: seq<byte>, ps: seq<Property>): Result<StateVar> {
    match EnumNames(ty, ps)
    case Err(e) => Err(e)
    case Ok(names) =>
      match Lookup(ps, REG)
      case None => Err(EINVAL)
      case Some(reg) =>
        if |reg| < 8 || FromBe32(reg[4..8]) != TypeSize(ty) then Err(EOVERFLOW)
        else Ok(StateVar(name, ty, FromBe32(reg[..4]), TypeSize(ty), names, ZeroValue(ty), ZeroValue(ty)))
  }

  /** state_add_var: before the first variable that does not start below the new one. */
  function Insert(vars: seq<StateVar>, v: StateVar): seq<StateVar> {
    if vars == [] || vars[0].start >= v.start then [v] + vars else [vars[0]] + Insert(vars[1..], v)
  }

  /** state_convert_node_variable, creating variables. */
  function CreateNode(n: Node, parent: seq<byte>, vars: seq<StateVar>): Result<seq<StateVar>> {
    var name := FullName(parent, n.name);
    match CreateForest(n.children, name, vars)
    case Err(e) => Err(e)
    case Ok(after) =>
      match ReadString(n.properties, TYPE)
      case Err(e) => if e == EINVAL && n.children != [] then Ok(after) else Err(e)
      case Ok(typeName) =>
        match FindType(typeName)
        case None => Err(ENOENT)
        case Some(ty) =>
          match NewVar(ty, name, n.properties)
          case Err(e) => Err(e)
          case Ok(v) =>
            match Import(ty, v, n.properties)
            case Err(e) => Err(e)
            case Ok(w) => Ok(Insert(after, w))
  }

  function CreateForest(ns: seq<Node>, parent: seq<byte>, vars: seq<StateVar>): Result<seq<StateVar>> {
    if ns == [] then Ok(vars) else
      match CreateForest(ns[..|ns| - 1], parent, vars)
      case Err(e) => Err(e)
      case Ok(after) => CreateNode(ns[|ns| - 1], parent, after)
  }

  /** The places of the variables, as the overlap check sees them. */
  function Places(vars: seq<StateVar>): seq<Layout.Variable> {
    seq(|vars|, i requires 0 <= i < |vars| => Layout.Variable("", vars[i].start, vars[i].size, []))
  }

  /** state_from_node of a new state: its magic number and its variables. */
  function CreateState(t: Node): Result<(nat, seq<StateVar>)> {
    match ReadU32(t.properties, MAGIC)
    case Err(e) => Err(e)
    case Ok(magic) =>
      match CreateForest(t.children, [], [])
      case Err(e) => Err(e)
      case Ok(vars) => if Layout.NeighboursFollow(Places(vars)) then Ok((magic, vars)) else Err(EINVAL)
  }

  // ----- The names a description gives -----

  /** Name and type of a variable. */
  datatype Tag = Tag(name: seq<byte>, ty: Type)

  function Tags(vars: seq<StateVar>): (s: seq<Tag>)
    ensures |s| == |vars| && forall i :: 0 <= i < |s| ==> s[i] == Tag(vars[i].name, vars[i].ty)
  {
    seq(|vars|, i requires 0 <= i < |vars| => Tag(vars[i].name, vars[i].ty))
  }

  /** The typed nodes of a description, children first. */
  function TypedNodes(n: Node, parent: seq<byte>): seq<Tag> {
    var name := FullName(parent, n.name);
    TypedForest(n.children, name)
    + match ReadString(n.properties, TYPE)
      case Ok(typeName) => (match FindType(typeName) case Some(ty) => [Tag(name, ty)] case None => [])
      case Err(_) => []
  }

  function TypedForest(ns: seq<Node>, parent: seq<byte>): seq<Tag> {
    if ns == [] then [] else TypedForest(ns[..|ns| - 1], parent) + TypedNodes(ns[|ns| - 1], parent)
  }

  /** No two typed nodes have the same dotted name. */
  ghost predicate DistinctNames(s: seq<Tag>) {
    forall i, j :: 0 <= i < j < |s| ==> s[i].name != s[j].name
  }

  // ----- The order and the places of the variables -----

  ghost predicate Ascending(vars: seq<StateVar>) {
    forall i, j :: 0 <= i < j < |vars| ==> vars[i].start <= vars[j].start
  }

  /** A new variable goes behind all that start below it and in front of all others. */
  lemma {:induction false} InsertPlace(vars: seq<StateVar>, v: StateVar) returns (k: nat)
    requires Ascending(vars)
    ensures k <= |vars| && Insert(vars, v) == vars[..k] + [v] + vars[k..]
    ensures forall i :: 0 <= i < k ==> vars[i].start < v.start
    ensures forall i :: k <= i < |vars| ==> v.start <= vars[i].start
    decreases |vars|
  {
    if vars == [] || vars[0].start >= v.start {
      k := 0;
    } else {
      var rest := vars[1..];
      var l := InsertPlace(rest, v);
      k := l + 1;
      OneLonger(vars[0], rest, v, l);
      assert vars == [vars[0]] + rest;
      assert forall i :: 1 <= i < |vars| ==> vars[i] == rest[i - 1];
    }
  }

  lemma OneLonger(x: StateVar, rest: seq<StateVar>, v: StateVar, k: nat)
    requires k <= |rest|
    ensures [x] + (rest[..k] + [v] + rest[k..]) == ([x] + rest)[..k + 1] + [v] + ([x] + rest)[k + 1..]
  {
  }

  lemma InsertAscends(vars: seq<StateVar>, v: StateVar)
    requires Ascending(vars)
    ensures Ascending(Insert(vars, v))
  {
    hide Insert;
    var k := InsertPlace(vars, v);
    var r := Insert(vars, v);
    forall i, j | 0 <= i < j < |r|
      ensures r[i].start <= r[j].start
    {
      assert r[i] == if i < k then vars[i] else if i == k then v else vars[i - 1];
      assert r[j] == if j < k then vars[j] else if j == k then v else vars[j - 1];
    }
  }

  lemma {:induction false} InsertElements(vars: seq<StateVar>, v: StateVar)
    ensures forall w :: w in Insert(vars, v) <==> w == v || w in vars
    decreases |vars|
  {
    if vars != [] && vars[0].start < v.start {
      InsertElements(vars[1..], v);
      assert vars == [vars[0]] + vars[1..];
    }
  }

  /** Start below 2^32 and the size of the type. */
  ghost predicate WellPlaced(vars: seq<StateVar>) {
    forall v <- vars :: v.start < TWO_32 && v.size == TypeSize(v.ty)
  }

  lemma ImportPlaces(ty: Type, name: seq<byte>, ps: seq<Property>)
    requires NewVar(ty, name, ps).Ok? && Import(ty, NewVar(ty, name, ps).value, ps).Ok?
    ensures var w := Import(ty, NewVar(ty, name, ps).value, ps).value;
            w.start < TWO_32 && w.ty == ty && w.size == TypeSize(ty)
  {
    hide Lookup, CString, Split, FromBe32;
  }

  lemma {:induction false} NodeAscends(n: Node, parent: seq<byte>, vars: seq<StateVar>)
    requires Ascending(vars) && WellPlaced(vars) && CreateNode(n, parent, vars).Ok?
    ensures Ascending(CreateNode(n, parent, vars).value) && WellPlaced(CreateNode(n, parent, vars).value)
    decreases n, 1
  {
    hide ReadString, FindType, NewVar, Import, Insert, FullName, Ascending;
    var name := FullName(parent, n.name);
    ForestAscends(n.children, name, vars);
    var typeName := ReadString(n.properties, TYPE);
    if typeName.Ok? {
      var after, ty := CreateForest(n.children, name, vars).value, FindType(typeName.value).value;
      ImportPlaces(ty, name, n.properties);
      var w := Import(ty, NewVar(ty, name, n.properties).value, n.properties).value;
      InsertAscends(after, w);
      InsertElements(after, w);
    }
  }

  /** Creation keeps the variables in ascending order of their start. */
  lemma {:induction false} ForestAscends(ns: seq<Node>, parent: seq<byte>, vars: seq<StateVar>)
    requires Ascending(vars) && WellPlaced(vars) && CreateForest(ns, parent, vars).Ok?
    ensures Ascending(CreateForest(ns, parent, vars).value) && WellPlaced(CreateForest(ns, parent, vars).value)
    decreases ns, 0
  {
    hide CreateNode, Ascending, WellPlaced;
    if ns != [] {
      ForestAscends(ns[..|ns| - 1], parent, vars);
      NodeAscends(ns[|ns| - 1], parent, CreateForest(ns[..|ns| - 1], parent, vars).value);
    }
  }

  /** A description with a magic number and well-formed nodes is accepted, and the ends of its
      variables fit in 32 bits, exactly when the places are disjoint. The variables of a state come in
      the order of their places. */
  lemma CreateStateIff(t: Node)
    ensures ReadU32(t.properties, MAGIC).Ok? && CreateForest(t.children, [], []).Ok? ==>
      var places := Places(CreateForest(t.children, [], []).value);
      Layout.PairwiseDisjoint(places) <==> CreateState(t).Ok? && Layout.NoInnerWrap(places)
    ensures CreateState(t).Ok? ==>
      && ReadU32(t.properties, MAGIC).Ok?
      && CreateForest(t.children, [], []) == Ok(CreateState(t).value.1) && Ascending(CreateState(t).value.1)
  {
    hide CreateForest, ReadU32, Layout.PairwiseDisjoint, Layout.NeighboursFollow, Layout.NoInnerWrap;
    if CreateForest(t.children, [], []).Ok? {
      var vars := CreateForest(t.children, [], []).value;
      ForestAscends(t.children, [], []);
      assert forall i :: 0 <= i < |vars| ==> vars[i] in vars;
      Layout.CheckIsExact(Places(vars));
    }
  }

  // ----- What the value of a new variable is -----

  function ValueLength(ty: Type): nat { if ty == Mac then 6 else 4 }

  function ValueOf(ty: Type, s: seq<byte>): Value
    requires |s| == ValueLength(ty)
  {
    if ty == Mac then Address(s) else Number(FromBe32(s))
  }

  /** A value takes as many bytes in a tree as in the state's data, except that an uint8 takes a word. */
  lemma ValueLengths(ty: Type, v: Value)
    requires ValueOk(ty, v)
    ensures |ValueBytes(v)| == ValueLength(ty) == if ty == Uint8 then 4 * TypeSize(ty) else TypeSize(ty)
  {
  }

  /** Without a value of its own a new variable starts with its default, and without a default with
      zero; its place is what the reg property says. */
  lemma NewVarIsDescribed(ty: Type, name: seq<byte>, ps: seq<Property>, start: nat, size: nat)
    requires start < TWO_32 && size < TWO_32 && Lookup(ps, REG) == Some(Be32(start) + Be32(size))
    requires NewVar(ty, name, ps).Ok? && Import(ty, NewVar(ty, name, ps).value, ps).Ok?
    ensures var w := Import(ty, NewVar(ty, name, ps).value, ps).value;
            var preset, value := Lookup(ps, DEFAULT), Lookup(ps, VALUE);
            && w.start == start && w.size == size == TypeSize(ty)
            && (preset == None ==> w.preset == ZeroValue(ty))
            && (preset.Some? && |preset.value| == ValueLength(ty) ==> w.preset == ValueOf(ty, preset.value))
            && (value == None ==> w.value == w.preset)
            && (value.Some? && |value.value| == ValueLength(ty) ==> w.value == ValueOf(ty, value.value))
  {
    hide Lookup, CString, Split, FromBe32, Be32;
    var reg := Be32(start) + Be32(size);
    Be32RoundTrip(start);
    Be32RoundTrip(size);
    assert reg[..4] == Be32(start) && reg[4..8] == Be32(size);
    var preset, value := Lookup(ps, DEFAULT), Lookup(ps, VALUE);
    if preset.Some? && |preset.value| == ValueLength(ty) {
      assert preset.value[..ValueLength(ty)] == preset.value;
    }
    if value.Some? && |value.value| == ValueLength(ty) {
      assert value.value[..ValueLength(ty)] == value.value;
    }
  }

  /** No node of the description has a value property. */
  ghost predicate NoValues(ns: seq<Node>) {
    forall n <- ns :: Lookup(n.properties, VALUE) == None && NoValues(n.children)
  }

  ghost predicate AtDefaults(vars: seq<StateVar>) {
    forall v <- vars :: v.value == v.preset
  }

  lemma {:induction false} ForestAtDefaults(ns: seq<Node>, parent: seq<byte>, vars: seq<StateVar>)
    requires NoValues(ns) && AtDefaults(vars) && CreateForest(ns, parent, vars).Ok?
    ensures AtDefaults(CreateForest(ns, parent, vars).value)
    decreases ns
  {
    hide ReadString, FindType, NewVar, Import, Insert, FullName;
    if ns != [] {
      var front, n := ns[..|ns| - 1], ns[|ns| - 1];
      var before, name := CreateForest(front, parent, vars).value, FullName(parent, n.name);
      assert n in ns && forall c <- front :: c in ns;
      ForestAtDefaults(front, parent, vars);
      ForestAtDefaults(n.children, name, before);
      var typeName := ReadString(n.properties, TYPE);
      if typeName.Ok? {
        var ty := FindType(typeName.value).value;
        ImportWithoutValue(ty, name, n.properties);
        InsertElements(CreateForest(n.children, name, before).value,
                       Import(ty, NewVar(ty, name, n.properties).value, n.properties).value);
      }
    }
  }

  lemma ImportWithoutValue(ty: Type, name: seq<byte>, ps: seq<Property>)
    requires NewVar(ty, name, ps).Ok? && Import(ty, NewVar(ty, name, ps).value, ps).Ok?
    requires Lookup(ps, VALUE) == None
    ensures var w := Import(ty, NewVar(ty, name, ps).value, ps).value; w.value == w.preset
  {
    hide Lookup, CString, Split, FromBe32;
  }

  /** A state created from a description without values starts with all its defaults. */
  lemma StartsWithDefaults(t: Node)
    requires CreateState(t).Ok? && NoValues(t.children)
    ensures AtDefaults(CreateState(t).value.1)
  {
    hide CreateForest;
    ForestAtDefaults(t.children, [], []);
  }

  // ----- What creation establishes -----

  lemma TagsFirst(v: StateVar, vars: seq<StateVar>)
    ensures Tags([v] + vars) == [Tag(v.name, v.ty)] + Tags(vars)
  {
  }

  lemma {:induction false} InsertTags(vars: seq<StateVar>, v: StateVar)
    ensures multiset(Tags(Insert(vars, v))) == multiset(Tags(vars)) + multiset{Tag(v.name, v.ty)}
    decreases |vars|
  {
    hide Tags;
    if vars == [] || vars[0].start >= v.start {
      TagsFirst(v, vars);
    } else {
      InsertTags(vars[1..], v);
      TagsFirst(vars[0], Insert(vars[1..], v));
      TagsFirst(vars[0], vars[1..]);
      assert vars == [vars[0]] + vars[1..];
    }
  }

  lemma {:induction false} InsertOk(vars: seq<StateVar>, v: StateVar)
    requires AllOk(vars) && VarOk(v)
    ensures AllOk(Insert(vars, v))
    decreases |vars|
  {
    hide VarOk;
    if vars != [] && vars[0].start < v.start {
      InsertOk(vars[1..], v);
    }
  }

  lemma NewVarOk(ty: Type, name: seq<byte>, ps: seq<Property>)
    requires NewVar(ty, name, ps).Ok? && Import(ty, NewVar(ty, name, ps).value, ps).Ok?
    ensures var w := Import(ty, NewVar(ty, name, ps).value, ps).value;
            w.name == name && w.ty == ty && VarOk(w)
  {
    hide Lookup, FromBe32, CString, Split;
  }

  lemma VarCreates(ty: Type, name: seq<byte>, ps: seq<Property>, vars: seq<StateVar>)
    requires NewVar(ty, name, ps).Ok? && Import(ty, NewVar(ty, name, ps).value, ps).Ok?
    ensures var r := Insert(vars, Import(ty, NewVar(ty, name, ps).value, ps).value);
            && multiset(Tags(r)) == multiset(Tags(vars)) + multiset([Tag(name, ty)])
            && (AllOk(vars) ==> AllOk(r))
  {
    hide NewVar, Import, Insert, Tags, AllOk, VarOk;
    NewVarOk(ty, name, ps);
    var w := Import(ty, NewVar(ty, name, ps).value, ps).value;
    InsertTags(vars, w);
    if AllOk(vars) {
      InsertOk(vars, w);
    }
  }

  /** Creation adds one variable of the right type for every typed node, and all are well formed. */
  lemma {:induction false} NodeCreates(n: Node, parent: seq<byte>, vars: seq<StateVar>)
    requires CreateNode(n, parent, vars).Ok?
    ensures var r := CreateNode(n, parent, vars).value;
            && multiset(Tags(r)) == multiset(Tags(vars)) + multiset(TypedNodes(n, parent))
            && (AllOk(vars) ==> AllOk(r))
    decreases n, 1
  {
    hide ReadString, FindType, NewVar, Import, Insert, Tags, AllOk, FullName, CreateForest;
    var name := FullName(parent, n.name);
    ForestCreates(n.children, name, vars);
    var after := CreateForest(n.children, name, vars).value;
    var typeName := ReadString(n.properties, TYPE);
    if typeName.Ok? {
      VarCreates(FindType(typeName.value).value, name, n.properties, after);
    } else {
      assert TypedForest(n.children, name) + [] == TypedForest(n.children, name);
    }
  }

  lemma {:induction false} ForestCreates(ns: seq<Node>, parent: seq<byte>, vars: seq<StateVar>)
    requires CreateForest(ns, parent, vars).Ok?
    ensures var r := CreateForest(ns, parent, vars).value;
            && multiset(Tags(r)) == multiset(Tags(vars)) + multiset(TypedForest(ns, parent))
            && (AllOk(vars) ==> AllOk(r))
    decreases ns, 0
  {
    hide CreateNode, TypedNodes, Tags, AllOk;
    if ns != [] {
      var front, n := ns[..|ns| - 1], ns[|ns| - 1];
      ForestCreates(front, parent, vars);
      NodeCreates(n, parent, CreateForest(front, parent, vars).value);
    }
  }

  /** What was created from a description can be written into a tree of its shape. */
  lemma {:induction false} NodeConverts(n: Node, parent: seq<byte>, vars: seq<StateVar>, from: seq<StateVar>)
    requires CreateNode(n, parent, vars).Ok?
    ensures ToNode(n, parent, from).Ok?
    decreases n, 1
  {
    hide ReadString, FindType, NewVar, Import, Insert, Exported, FullName;
    ForestConverts(n.children, FullName(parent, n.name), vars, from);
  }

  lemma {:induction false} ForestConverts(ns: seq<Node>, parent: seq<byte>, vars: seq<StateVar>, from: seq<StateVar>)
    requires CreateForest(ns, parent, vars).Ok?
    ensures ToForest(ns, parent, from).Ok?
    decreases ns, 0
  {
    hide CreateNode, ToNode;
    if ns != [] {
      ForestConverts(ns[..|ns| - 1], parent, vars, from);
      NodeConverts(ns[|ns| - 1], parent, CreateForest(ns[..|ns| - 1], parent, vars).value, from);
    }
  }

  // ----- Which variables the description reaches -----

  /** One of the names is that of variable i and of none before it. */
  ghost predicate Finds(tags: seq<Tag>, vars: seq<StateVar>, i: nat) {
    exists g <- tags :: FindVar(vars, g.name) == i
  }

  /** A variable is reached when some typed node's name finds it first. */
  lemma {:induction false} NodeReaches(n: Node, parent: seq<byte>, vars: seq<StateVar>, i: nat)
    requires AllTyped(n.children, FullName(parent, n.name)) && TypeKnown(n)
    ensures i in Reached(n, parent, vars)
            <==> Finds(TypedNodes(n, parent), vars, i)
    decreases n, 1
  {
    hide FullName, FindType, ReadString, FindVar;
    ForestReaches(n.children, FullName(parent, n.name), vars, i);
  }

  /** The type of a typed node is one the dtb format knows. */
  ghost predicate TypeKnown(n: Node) {
    ReadString(n.properties, TYPE).Ok? ==> FindType(ReadString(n.properties, TYPE).value).Some?
  }

  ghost predicate AllTyped(ns: seq<Node>, parent: seq<byte>) {
    ns != [] ==>
      var n := ns[|ns| - 1];
      AllTyped(ns[..|ns| - 1], parent) && TypeKnown(n) && AllTyped(n.children, FullName(parent, n.name))
  }

  lemma {:induction false} ForestReaches(ns: seq<Node>, parent: seq<byte>, vars: seq<StateVar>, i: nat)
    requires AllTyped(ns, parent)
    ensures i in ReachedForest(ns, parent, vars)
            <==> Finds(TypedForest(ns, parent), vars, i)
    decreases ns, 0
  {
    hide Reached, TypedNodes, FindVar, TypeKnown;
    if ns != [] {
      ForestReaches(ns[..|ns| - 1], parent, vars, i);
      NodeReaches(ns[|ns| - 1], parent, vars, i);
      ReachedSum(TypedForest(ns[..|ns| - 1], parent), TypedNodes(ns[|ns| - 1], parent), vars, i);
    }
  }

  lemma ReachedSum(a: seq<Tag>, b: seq<Tag>, vars: seq<StateVar>, i: nat)
    ensures Finds(a + b, vars, i) <==> Finds(a, vars, i) || Finds(b, vars, i)
  {
    hide FindVar;
    assert forall g <- a :: g in a + b;
    assert forall g <- b :: g in a + b;
  }

  lemma {:induction false} CreatedIsTyped(ns: seq<Node>, parent: seq<byte>, vars: seq<StateVar>)
    requires CreateForest(ns, parent, vars).Ok?
    ensures AllTyped(ns, parent)
    decreases ns
  {
    hide FullName, ReadString, FindType, NewVar, Import, Insert;
    if ns != [] {
      var front, n := ns[..|ns| - 1], ns[|ns| - 1];
      CreatedIsTyped(front, parent, vars);
      CreatedIsTyped(n.children, FullName(parent, n.name), CreateForest(front, parent, vars).value);
    }
  }

  lemma {:induction false} CountTwo(s: seq<Tag>, i: nat, j: nat)
    requires i < j < |s| && s[i] == s[j]
    ensures multiset(s)[s[i]] >= 2
  {
    assert s == s[..j] + s[j..];
    assert s[i] in s[..j] && s[j] in s[j..];
    assert multiset(s) == multiset(s[..j]) + multiset(s[j..]);
  }

  lemma {:induction false} TwoIndices(s: seq<Tag>, x: Tag) returns (p: nat, q: nat)
    requires multiset(s)[x] >= 2
    ensures p < q < |s| && s[p] == s[q] == x
    decreases |s|
  {
    assert s == [s[0]] + s[1..];
    if s[0] == x {
      q :| 0 < q < |s| && s[q] == x;
      p := 0;
    } else {
      p, q := TwoIndices(s[1..], x);
      p, q := p + 1, q + 1;
    }
  }

  /** Whether the names differ does not depend on the order. */
  lemma DistinctReordered(a: seq<Tag>, b: seq<Tag>)
    requires multiset(a) == multiset(b) && DistinctNames(a)
    ensures DistinctNames(b)
  {
    forall i, j | 0 <= i < j < |b|
      ensures b[i].name != b[j].name
    {
      if b[i] == b[j] {
        CountTwo(b, i, j);
        var p, q := TwoIndices(a, b[i]);
      } else {
        assert b[i] in multiset(b) && b[j] in multiset(b);
        assert b[i] in a && b[j] in a;
      }
    }
  }

  /** With the tags of a description, in any order, all variables are found exactly when no two
      typed nodes have the same name. */
  lemma FindsAllIff(tags: seq<Tag>, vars: seq<StateVar>)
    requires multiset(Tags(vars)) == multiset(tags)
    ensures (forall i: nat :: i < |vars| ==> Finds(tags, vars, i)) <==> DistinctNames(tags)
  {
    if DistinctNames(tags) {
      DistinctReordered(tags, Tags(vars));
      forall i: nat | i < |vars|
        ensures Finds(tags, vars, i)
      {
        var g := Tags(vars)[i];
        assert g in multiset(Tags(vars));
        assert g in tags && FindVar(vars, g.name) == i;
      }
    }
    if forall i: nat :: i < |vars| ==> Finds(tags, vars, i) {
      forall i, j | 0 <= i < j < |Tags(vars)|
        ensures Tags(vars)[i].name != Tags(vars)[j].name
      {
        assert Finds(tags, vars, j);
      }
      DistinctReordered(Tags(vars), tags);
    }
  }

  // ----- The round trip of a created state -----

  ghost predicate Among(a: seq<Tag>, b: seq<Tag>) {
    forall g <- a :: g in b
  }

  /** With different names, every typed node finds its own variable. */
  lemma {:induction false} NodeDescribes(n: Node, parent: seq<byte>, vars: seq<StateVar>)
    requires TypeKnown(n) && AllTyped(n.children, FullName(parent, n.name))
    requires DistinctNames(Tags(vars)) && Among(TypedNodes(n, parent), Tags(vars))
    ensures Describes(n, parent, vars)
    decreases n, 1
  {
    hide FullName, ReadString, FindType, Tags;
    var name := FullName(parent, n.name);
    AmongParts(TypedForest(n.children, name), TypedNodes(n, parent)[|TypedForest(n.children, name)|..], Tags(vars));
    assert TypedNodes(n, parent)
        == TypedForest(n.children, name) + TypedNodes(n, parent)[|TypedForest(n.children, name)|..];
    ForestDescribes(n.children, name, vars);
    var typeName := ReadString(n.properties, TYPE);
    if typeName.Ok? {
      var g := Tag(name, FindType(typeName.value).value);
      assert g in TypedNodes(n, parent);
      FindsItsOwn(g, vars);
    }
  }

  lemma {:induction false} FindsItsOwn(g: Tag, vars: seq<StateVar>)
    requires DistinctNames(Tags(vars)) && g in Tags(vars)
    ensures FindVar(vars, g.name) < |vars| && vars[FindVar(vars, g.name)].ty == g.ty
  {
    var i :| 0 <= i < |vars| && Tags(vars)[i] == g;
    var j := FindVar(vars, g.name);
    assert j <= i;
    assert Tags(vars)[j].name == g.name;
  }

  lemma AmongParts(a: seq<Tag>, b: seq<Tag>, c: seq<Tag>)
    ensures Among(a + b, c) <==> Among(a, c) && Among(b, c)
  {
    assert forall g <- a :: g in a + b;
    assert forall g <- b :: g in a + b;
  }

  lemma {:induction false} ForestDescribes(ns: seq<Node>, parent: seq<byte>, vars: seq<StateVar>)
    requires AllTyped(ns, parent) && DistinctNames(Tags(vars)) && Among(TypedForest(ns, parent), Tags(vars))
    ensures DescribesAll(ns, parent, vars)
    decreases ns, 0
  {
    hide Describes, TypedNodes, TypeKnown, FullName, Tags, Among, DistinctNames;
    if ns != [] {
      AmongParts(TypedForest(ns[..|ns| - 1], parent), TypedNodes(ns[|ns| - 1], parent), Tags(vars));
      ForestDescribes(ns[..|ns| - 1], parent, vars);
      NodeDescribes(ns[|ns| - 1], parent, vars);
    }
  }

  /** A variable behind another one of its name is never imported. */
  lemma {:induction false} NodeLeaves(n: Node, parent: seq<byte>, vars: seq<StateVar>, j: nat)
    requires FromNode(n, parent, vars).Ok? && j < |vars| && FindVar(vars, vars[j].name) != j
    ensures var r := FromNode(n, parent, vars).value; SameVars(vars, r) && r[j] == vars[j]
    decreases n, 1
  {
    hide FullName, ReadString, FindType;
    var name := FullName(parent, n.name);
    ForestLeaves(n.children, name, vars, j);
    FindVarSame(vars, FromForest(n.children, name, vars).value, vars[j].name);
    ImportKeepsTag(n, FromForest(n.children, name, vars).value, name);
  }

  lemma ImportKeepsTag(n: Node, vars: seq<StateVar>, name: seq<byte>)
    ensures var i := FindVar(vars, name);
            i < |vars| ==> forall ty :: Import(ty, vars[i], n.properties).Ok? ==>
              var v := Import(ty, vars[i], n.properties).value; v.name == vars[i].name && v.ty == vars[i].ty
  {
    hide Lookup, FromBe32;
  }

  lemma {:induction false} ForestLeaves(ns: seq<Node>, parent: seq<byte>, vars: seq<StateVar>, j: nat)
    requires FromForest(ns, parent, vars).Ok? && j < |vars| && FindVar(vars, vars[j].name) != j
    ensures var r := FromForest(ns, parent, vars).value; SameVars(vars, r) && r[j] == vars[j]
    decreases ns, 0
  {
    hide FromNode;
    if ns != [] {
      var after := FromForest(ns[..|ns| - 1], parent, vars).value;
      ForestLeaves(ns[..|ns| - 1], parent, vars, j);
      FindVarSame(vars, after, vars[j].name);
      NodeLeaves(ns[|ns| - 1], parent, after, j);
    }
  }

  /** from is a state created from t, with any values. */
  ghost predicate CreatedFrom(t: Node, magic: nat, from: seq<StateVar>) {
    CreateState(t).Ok? && CreateState(t).value.0 == magic && SameVars(CreateState(t).value.1, from) && AllOk(from)
  }

  lemma CreatedTags(t: Node, magic: nat, from: seq<StateVar>)
    requires CreatedFrom(t, magic, from)
    ensures magic < TWO_32 && AllTyped(t.children, []) && StateToNode(t, magic, from).Ok?
    ensures multiset(Tags(from)) == multiset(TypedForest(t.children, []))
  {
    hide CreateForest, ToForest, TypedForest, AllTyped;
    var vars := CreateState(t).value.1;
    CreatedIsTyped(t.children, [], []);
    ForestCreates(t.children, [], []);
    ForestConverts(t.children, [], [], from);
    assert Tags([]) == [];
    assert Tags(from) == Tags(vars);
  }

  /** A new state has the variables it was created with, and is itself such a state. */
  lemma CreatedIsOk(t: Node)
    requires CreateState(t).Ok?
    ensures CreatedFrom(t, CreateState(t).value.0, CreateState(t).value.1)
  {
    hide CreateForest;
    ForestCreates(t.children, [], []);
  }

  /** A description with different dotted names describes every state created from it. */
  lemma CreatedIsDescribed(t: Node, magic: nat, from: seq<StateVar>)
    requires CreatedFrom(t, magic, from) && DistinctNames(TypedForest(t.children, []))
    ensures DescribesAll(t.children, [], from)
  {
    hide CreatedFrom, DistinctNames, Tags, TypedForest, AllTyped;
    CreatedTags(t, magic, from);
    DistinctReordered(TypedForest(t.children, []), Tags(from));
    assert Among(TypedForest(t.children, []), Tags(from)) by {
      forall g <- TypedForest(t.children, [])
        ensures g in Tags(from)
      {
        assert g in multiset(TypedForest(t.children, []));
        assert g in multiset(Tags(from));
      }
    }
    ForestDescribes(t.children, [], from);
  }

  ghost predicate ReachesAll(t: Node, vars: seq<StateVar>) {
    forall i: nat :: i < |vars| ==> i in ReachedForest(t.children, [], vars)
  }

  /** The description reaches all variables of the states created from it exactly when its dotted
      names differ. */
  lemma ReachesAllIff(t: Node, magic: nat, from: seq<StateVar>)
    requires CreatedFrom(t, magic, from)
    ensures ReachesAll(t, from) <==> DistinctNames(TypedForest(t.children, []))
  {
    hide CreatedFrom, DistinctNames, TypedForest, AllTyped, Finds, ReachedForest;
    CreatedTags(t, magic, from);
    var tags, which := TypedForest(t.children, []), ReachedForest(t.children, [], from);
    FindsAllIff(tags, from);
    forall i: nat | i < |from|
      ensures i in which <==> Finds(tags, from, i)
    {
      ForestReaches(t.children, [], from, i);
    }
    if DistinctNames(tags) {
      assert forall i: nat :: i < |from| ==> i in which;
    } else {
      var i: nat :| i < |from| && !Finds(tags, from, i);
      assert i !in which;
    }
  }

  /** Saving a state created from t and loading it into any other restores every variable exactly
      when no two typed nodes of the description have the same dotted name. */
  lemma AllRestoredIff(t: Node, magic: nat, from: seq<StateVar>)
    requires CreatedFrom(t, magic, from) && NamesAreText(t)
    requires StateToNode(t, magic, from).Ok? && Encodable(StateToNode(t, magic, from).value)
    ensures (forall i: nat :: i < |from| ==> Restores(StateToNode(t, magic, from).value, magic, from, i))
            <==> DistinctNames(TypedForest(t.children, []))
  {
    hide DistinctNames, TypedForest, AllTyped, ReachedForest, NamesAreText, Encodable, StateToNode, CreateState;
    hide DescribesAll, Restores;
    CreatedTags(t, magic, from);
    var n := StateToNode(t, magic, from).value;
    ReachesAllIff(t, magic, from);
    if DistinctNames(TypedForest(t.children, [])) {
      CreatedIsDescribed(t, magic, from);
      forall i: nat | i < |from|
        ensures Restores(n, magic, from, i)
      {
        RestoredIffReached(t, magic, from, i);
      }
    } else {
      var i: nat :| i < |from| && i !in ReachedForest(t.children, [], from);
      HiddenIsLost(t, magic, from, i);
    }
  }

  lemma HiddenIsLost(t: Node, magic: nat, from: seq<StateVar>, i: nat)
    requires CreatedFrom(t, magic, from) && StateToNode(t, magic, from).Ok?
    requires i < |from| && i !in ReachedForest(t.children, [], from)
    ensures !Restores(StateToNode(t, magic, from).value, magic, from, i)
  {
    hide CreatedFrom, ReachedForest, StateToNode, TypedForest, AllTyped, FromForest;
    CreatedTags(t, magic, from);
    ForestReaches(t.children, [], from, i);
    var g := Tags(from)[i];
    assert g in multiset(Tags(from));
    assert g in TypedForest(t.children, []);
    assert FindVar(from, from[i].name) != i;
    var n := StateToNode(t, magic, from).value;
    var other := OtherValue(from, i);
    FindVarSame(from, other, from[i].name);
    var r := StateFromNode(Unnamed(n), magic, other);
    if r.Ok? {
      ForestLeaves(n.children, [], other, i);
      assert r.value[i].value != from[i].value;
    }
  }

  // ----- When dotted names differ -----

  /** Siblings have different short names, which are not empty and hold no dot, at every level. */
  ghost predicate SiblingsDiffer(ns: seq<Node>) {
    && (forall n <- ns :: ShortName(n.name) != [] && 0x2e !in ShortName(n.name) && SiblingsDiffer(n.children))
    && (forall i, j :: 0 <= i < j < |ns| ==> ShortName(ns[i].name) != ShortName(ns[j].name))
  }

  /** The name is q or continues it behind a dot. */
  ghost predicate Under(a: seq<byte>, q: seq<byte>) {
    a == q || q + [0x2e] <= a
  }

  lemma {:induction false} NodeTagsUnder(n: Node, parent: seq<byte>)
    requires ShortName(n.name) != []
    ensures forall g <- TypedNodes(n, parent) :: Under(g.name, FullName(parent, n.name))
    decreases n, 1
  {
    hide ReadString, FindType, ShortName, TypedForest;
    var name := FullName(parent, n.name);
    ForestTagsBelow(n.children, name);
  }

  lemma {:induction false} ForestTagsBelow(ns: seq<Node>, parent: seq<byte>)
    requires parent != []
    ensures forall g <- TypedForest(ns, parent) :: parent + [0x2e] <= g.name
    decreases ns, 0
  {
    hide TypedNodes, ShortName;
    if ns != [] {
      var n := ns[|ns| - 1];
      ForestTagsBelow(ns[..|ns| - 1], parent);
      NodeTagsBelow(n, parent);
    }
  }

  lemma {:induction false} NodeTagsBelow(n: Node, parent: seq<byte>)
    requires parent != []
    ensures forall g <- TypedNodes(n, parent) :: parent + [0x2e] <= g.name
    decreases n, 1
  {
    hide ReadString, FindType, ShortName, TypedForest;
    var name := FullName(parent, n.name);
    ForestTagsBelow(n.children, name);
    forall g <- TypedNodes(n, parent)
      ensures parent + [0x2e] <= g.name
    {
      assert name <= g.name;
      assert g.name[..|parent| + 1] == name[..|parent| + 1] == parent + [0x2e];
    }
  }

  lemma {:induction false} ForestTagsUnder(ns: seq<Node>, parent: seq<byte>, g: Tag) returns (i: nat)
    requires g in TypedForest(ns, parent) && forall n <- ns :: ShortName(n.name) != []
    ensures i < |ns| && Under(g.name, FullName(parent, ns[i].name))
    decreases |ns|
  {
    hide TypedNodes, ShortName, FullName, Under;
    var front, n := ns[..|ns| - 1], ns[|ns| - 1];
    assert n in ns && forall c <- front :: c in ns;
    if g in TypedNodes(n, parent) {
      NodeTagsUnder(n, parent);
      i := |ns| - 1;
    } else {
      i := ForestTagsUnder(front, parent, g);
    }
  }

  /** No name is under two siblings. */
  lemma UnderOne(a: seq<byte>, parent: seq<byte>, n: seq<byte>, m: seq<byte>)
    requires 0x2e !in ShortName(n) && 0x2e !in ShortName(m)
    requires Under(a, FullName(parent, n)) && Under(a, FullName(parent, m))
    ensures ShortName(n) == ShortName(m)
  {
    hide ShortName;
    var front := parent + if parent == [] then [] else [0x2e];
    EndsAtDot(a, front, ShortName(n), ShortName(m));
    EndsAtDot(a, front, ShortName(m), ShortName(n));
    SameLength(a, front, ShortName(n), ShortName(m));
  }

  lemma SameLength(a: seq<byte>, front: seq<byte>, s: seq<byte>, t: seq<byte>)
    requires front + s <= a && front + t <= a && |s| == |t|
    ensures s == t
  {
    assert s == a[|front|..|front| + |s|] && t == a[|front|..|front| + |t|];
  }

  lemma EndsAtDot(a: seq<byte>, front: seq<byte>, s: seq<byte>, t: seq<byte>)
    requires Under(a, front + s) && Under(a, front + t)
    ensures front + s <= a && (|s| < |t| ==> 0x2e in t)
  {
    assert front + s <= a by {
      assert a == front + s || front + s <= front + s + [0x2e] <= a;
    }
    if |s| < |t| {
      assert a[|front + s|] == 0x2e;
      assert a[|front + s|] == (front + t)[|front + s|] == t[|s|];
    }
  }

  lemma {:induction false} NodeNamesDiffer(n: Node, parent: seq<byte>)
    requires ShortName(n.name) != [] && SiblingsDiffer(n.children)
    ensures DistinctNames(TypedNodes(n, parent))
    decreases n, 1
  {
    hide ReadString, FindType, ShortName, TypedForest, SiblingsDiffer;
    var name := FullName(parent, n.name);
    ForestNamesDiffer(n.children, name);
    ForestTagsBelow(n.children, name);
    var s := TypedForest(n.children, name);
    assert forall i :: 0 <= i < |s| ==> s[i] in s;
  }

  lemma {:induction false} ForestNamesDiffer(ns: seq<Node>, parent: seq<byte>)
    requires SiblingsDiffer(ns)
    ensures DistinctNames(TypedForest(ns, parent))
    decreases ns, 0
  {
    hide TypedNodes, ShortName, FullName, Under;
    if ns != [] {
      var front, n := ns[..|ns| - 1], ns[|ns| - 1];
      assert n in ns && forall c <- front :: c in ns;
      ForestNamesDiffer(front, parent);
      NodeNamesDiffer(n, parent);
      NodeTagsUnder(n, parent);
      var a, b := TypedForest(front, parent), TypedNodes(n, parent);
      forall i, j | 0 <= i < |a| && 0 <= j < |b|
        ensures a[i].name != b[j].name
      {
        assert a[i] in a && b[j] in b;
        var k := ForestTagsUnder(front, parent, a[i]);
        if a[i].name == b[j].name {
          UnderOne(a[i].name, parent, front[k].name, n.name);
        }
      }
    }
  }

  /** So in a description whose siblings have different short names without dots no variable is hidden. */
  lemma SiblingsDifferIsEnough(t: Node)
    requires SiblingsDiffer(t.children)
    ensures DistinctNames(TypedForest(t.children, []))
  {
    ForestNamesDiffer(t.children, []);
  }
}
