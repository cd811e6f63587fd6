/** The tree of a state as a description: creating a state from it gives the state back, with its
    places, types, value names, defaults and values. */
module StateRecreate {
  import opened Bytes
  import opened FdtFormat
  import opened FdtRoundTrip
  import opened StateTree
  import opened StateCreate
  import Layout

  /** The same variable up to its value and default. */
  ghost predicate SameParts(a: StateVar, b: StateVar) {
    && a.name == b.name && a.ty == b.ty && a.start == b.start && a.size == b.size && a.enumNames == b.enumNames
  }

  /** Each of the variables is in the state from, with its own parts. */
  ghost predicate Covers(vars: seq<StateVar>, from: seq<StateVar>) {
    forall v <- vars ::
      var i := FindVar(from, v.name);
      i < |from| && SameParts(v, from[i]) && VarOk(from[i])
  }

  function Latest(v: StateVar, from: seq<StateVar>): StateVar {
    var i := FindVar(from, v.name);
    if i < |from| then from[i] else v
  }

  /** The variables with the values they have in from. */
  function Updated(vars: seq<StateVar>, from: seq<StateVar>): (r: seq<StateVar>)
    ensures |r| == |vars| && forall i :: 0 <= i < |r| ==> r[i] == Latest(vars[i], from)
  {
    seq(|vars|, i requires 0 <= i < |vars| => Latest(vars[i], from))
  }

  // ----- One variable -----

  /** The value names that creation reads from a property. */
  ghost predicate NamesOk(ty: Type, names: seq<seq<byte>>) {
    if ty == Enum32 then names != [] && forall s <- names :: 0 !in s else names == []
  }

  lemma {:induction false} CStringIsText(v: seq<byte>, at: nat)
    requires at <= |v|
    ensures var s := CString(v, at); 0 !in s && at + |s| <= |v|
    decreases |v| - at
  {
    if at < |v| && v[at] != 0 {
      CStringIsText(v, at + 1);
    }
  }

  lemma {:induction false} SplitIsText(v: seq<byte>)
    ensures forall s <- Split(v) :: 0 !in s
    ensures v != [] ==> Split(v) != []
    decreases |v|
  {
    if v != [] {
      CStringIsText(v, 0);
      var s := CString(v, 0);
      if |s| + 1 < |v| {
        SplitIsText(v[|s| + 1..]);
      }
    }
  }

  /** Value names survive being listed in a property. */
  lemma {:induction false} SplitNameList(names: seq<seq<byte>>)
    requires names != [] && forall s <- names :: 0 !in s
    ensures 0 in NameList(names) && Split(NameList(names)) == names
    decreases |names|
  {
    var v, s, rest := NameList(names), names[0], NameList(names[1..]);
    assert v == s + [0] + rest;
    assert v[|s|] == 0;
    CStringUpToZero(v, 0, s);
    assert v[|s| + 1..] == rest;
    assert names == [s] + names[1..];
    if names[1..] != [] {
      SplitNameList(names[1..]);
    } else {
      assert rest == [];
    }
  }

  lemma {:induction false} CStringUpToZero(v: seq<byte>, at: nat, s: seq<byte>)
    requires 0 !in s && at + |s| < |v| && v[at + |s|] == 0 && v[at..at + |s|] == s
    ensures CString(v, at) == s
    decreases |s|
  {
    if s != [] {
      assert v[at] == v[at..at + |s|][0] == s[0];
      assert v[at + 1..at + |s|] == v[at..at + |s|][1..] == s[1..];
      CStringUpToZero(v, at + 1, s[1..]);
    }
  }

  lemma NewVarNames(ty: Type, name: seq<byte>, ps: seq<Property>)
    requires NewVar(ty, name, ps).Ok? && Import(ty, NewVar(ty, name, ps).value, ps).Ok?
    ensures var w := Import(ty, NewVar(ty, name, ps).value, ps).value;
            NamesOk(ty, w.enumNames) && w.ty == ty && w.name == name && w.size == TypeSize(ty)
  {
    hide Lookup, CString, Split, FromBe32;
    if ty == Enum32 {
      SplitIsText(Lookup(ps, NAMES).value);
    }
  }

  lemma ExportedParts(ty: Type, v: StateVar)
    ensures Lookup(Exported(ty, v), REG) == Some(Be32(v.start) + Be32(v.size))
    ensures Lookup(Exported(ty, v), NAMES) == if ty == Enum32 then Some(NameList(v.enumNames)) else None
  {
    hide TypeName, ValueBytes, NameList, IsZero, Be32, Lookup;
    PropertyNamesDiffer();
    NamesDiffer();
    var ps := Exported(ty, v);
    LookupAt(ps, REG, 1);
    if ty == Enum32 {
      LookupAt(ps, NAMES, if IsZero(v.preset) then 2 else 3);
    } else {
      LookupNone(ps, NAMES);
    }
  }

  lemma NamesDiffer()
    ensures REG != NAMES
  {
    assert REG[0] == 0x72 && NAMES[0] == 0x6e;
  }

  /** A variable exported to a node is what creation makes of that node. */
  lemma VarRecreated(f: StateVar)
    requires VarOk(f) && f.size == TypeSize(f.ty) && NamesOk(f.ty, f.enumNames)
    ensures var ps := Exported(f.ty, f);
            NewVar(f.ty, f.name, ps).Ok? && Import(f.ty, NewVar(f.ty, f.name, ps).value, ps) == Ok(f)
  {
    hide Exported, Be32, FromBe32, Lookup, NameList, Split, Import, CString;
    var ps := Exported(f.ty, f);
    ExportedParts(f.ty, f);
    Be32RoundTrip(f.start);
    Be32RoundTrip(f.size);
    var reg := Be32(f.start) + Be32(f.size);
    assert reg[..4] == Be32(f.start) && reg[4..8] == Be32(f.size);
    if f.ty == Enum32 {
      SplitNameList(f.enumNames);
    }
    var v := NewVar(f.ty, f.name, ps).value;
    ImportExported(f, v);
    ZeroIsUnique(f.ty, f.preset);
  }

  lemma ZeroIsUnique(ty: Type, v: Value)
    requires ValueOk(ty, v)
    ensures IsZero(v) ==> v == ZeroValue(ty)
  {
    if ty == Mac && IsZero(v) {
      assert v.bytes == Zeros(6);
    }
  }

  // ----- The whole tree -----

  ghost predicate SameStarts(vars: seq<StateVar>, from: seq<StateVar>) {
    forall v <- vars :: Latest(v, from).start == v.start
  }

  lemma CoversStarts(vars: seq<StateVar>, from: seq<StateVar>)
    requires Covers(vars, from)
    ensures SameStarts(vars, from)
  {
  }

  lemma UpdatedFirst(x: StateVar, rest: seq<StateVar>, from: seq<StateVar>)
    ensures Updated([x] + rest, from) == [Latest(x, from)] + Updated(rest, from)
  {
    hide Latest;
  }

  /** Inserting commutes with updating, since places do not change. */
  lemma {:induction false} UpdatedInsert(vars: seq<StateVar>, v: StateVar, from: seq<StateVar>)
    requires SameStarts(vars, from) && Latest(v, from).start == v.start
    ensures Insert(Updated(vars, from), Latest(v, from)) == Updated(Insert(vars, v), from)
    decreases |vars|
  {
    hide Latest, Updated;
    UpdatedFirst(v, vars, from);
    if vars != [] {
      var x, rest := vars[0], vars[1..];
      assert vars == [x] + rest;
      UpdatedFirst(x, rest, from);
      if x.start < v.start {
        UpdatedInsert(rest, v, from);
        assert ([Latest(x, from)] + Updated(rest, from))[1..] == Updated(rest, from);
        UpdatedFirst(x, Insert(rest, v), from);
      }
    } else {
      assert Updated([], from) == [];
    }
  }

  /** Creation only adds variables. */
  lemma {:induction false} ForestGrows(ns: seq<Node>, parent: seq<byte>, vars: seq<StateVar>)
    requires CreateForest(ns, parent, vars).Ok?
    ensures forall v <- vars :: v in CreateForest(ns, parent, vars).value
    decreases ns, 0
  {
    hide CreateNode;
    if ns != [] {
      ForestGrows(ns[..|ns| - 1], parent, vars);
      NodeGrows(ns[|ns| - 1], parent, CreateForest(ns[..|ns| - 1], parent, vars).value);
    }
  }

  lemma {:induction false} NodeGrows(n: Node, parent: seq<byte>, vars: seq<StateVar>)
    requires CreateNode(n, parent, vars).Ok?
    ensures forall v <- vars :: v in CreateNode(n, parent, vars).value
    decreases n, 1
  {
    hide ReadString, FindType, NewVar, Import, Insert, FullName, CreateForest;
    var name := FullName(parent, n.name);
    ForestGrows(n.children, name, vars);
    var typeName := ReadString(n.properties, TYPE);
    if typeName.Ok? {
      var ty := FindType(typeName.value).value;
      InsertElements(CreateForest(n.children, name, vars).value,
                     Import(ty, NewVar(ty, name, n.properties).value, n.properties).value);
    }
  }

  lemma {:induction false} NodeRecreated(n: Node, parent: seq<byte>, vars: seq<StateVar>, from: seq<StateVar>)
    requires CreateNode(n, parent, vars).Ok? && Covers(CreateNode(n, parent, vars).value, from)
    requires ToNode(n, parent, from).Ok?
    ensures CreateNode(ToNode(n, parent, from).value, parent, Updated(vars, from))
         == Ok(Updated(CreateNode(n, parent, vars).value, from))
    decreases n, 1
  {
    hide Exported, Import, NewVar, VarOk, FindType, ReadString, FullName, Insert, Updated, TypeName;
    var name := FullName(parent, n.name);
    var after := CreateForest(n.children, name, vars).value;
    var typeName := ReadString(n.properties, TYPE);
    if typeName.Ok? {
      var ty := FindType(typeName.value).value;
      var w := Import(ty, NewVar(ty, name, n.properties).value, n.properties).value;
      InsertElements(after, w);
      CoversStarts(after, from);
      ForestRecreated(n.children, name, vars, from);
      NewVarNames(ty, name, n.properties);
      var f := Latest(w, from);
      VarRecreated(f);
      TypeRead(f);
      UpdatedInsert(after, w, from);
    } else {
      ForestRecreated(n.children, name, vars, from);
      NoProperties();
    }
  }

  lemma TypeRead(f: StateVar)
    requires VarOk(f)
    ensures ReadString(Exported(f.ty, f), TYPE) == Ok(TypeName(f.ty)) && FindType(TypeName(f.ty)) == Some(f.ty)
  {
    hide Exported, ReadString, FindType, TypeName, Import;
    ImportExported(f, f);
    FindTypeName(f.ty);
  }

  lemma {:induction false} ForestRecreated(ns: seq<Node>, parent: seq<byte>, vars: seq<StateVar>, from: seq<StateVar>)
    requires CreateForest(ns, parent, vars).Ok? && Covers(CreateForest(ns, parent, vars).value, from)
    requires ToForest(ns, parent, from).Ok?
    ensures CreateForest(ToForest(ns, parent, from).value, parent, Updated(vars, from))
         == Ok(Updated(CreateForest(ns, parent, vars).value, from))
    decreases ns, 0
  {
    hide CreateNode, ToNode, Updated, FindVar, SameParts, VarOk;
    if ns != [] {
      var front, n := ns[..|ns| - 1], ns[|ns| - 1];
      var before := CreateForest(front, parent, vars).value;
      NodeGrows(n, parent, before);
      ForestRecreated(front, parent, vars, from);
      NodeRecreated(n, parent, before, from);
      var ms, m := ToForest(front, parent, from).value, ToNode(n, parent, from).value;
      assert (ms + [m])[..|ms|] == ms;
    }
  }

  /** from is a state created from t, with values and defaults of its own. */
  ghost predicate StateOf(t: Node, magic: nat, from: seq<StateVar>) {
    && CreatedFrom(t, magic, from)
    && forall i :: 0 <= i < |from| ==> SameParts(CreateState(t).value.1[i], from[i])
  }

  /** With different dotted names, the tree of a state is a description of just that state: creating
      a state from it gives every variable back, places, order, defaults and values included. */
  lemma RecreatedFromOwnTree(t: Node, magic: nat, from: seq<StateVar>)
    requires StateOf(t, magic, from) && DistinctNames(TypedForest(t.children, []))
    ensures StateToNode(t, magic, from).Ok?
    ensures CreateState(StateToNode(t, magic, from).value) == Ok((magic, from))
  {
    hide CreateForest, ToForest, TypedForest, Be32, FromBe32, Lookup, DistinctNames, VarOk;
    CreatedTags(t, magic, from);
    var n := StateToNode(t, magic, from).value;
    var vars := CreateState(t).value.1;
    DistinctReordered(TypedForest(t.children, []), Tags(from));
    EachFindsItself(vars, from);
    ForestRecreated(t.children, [], [], from);
    assert Updated([], from) == [];
    LookupAt(n.properties, MAGIC, 0);
    Be32Value(magic);
    assert Places(from) == Places(vars);
  }

  lemma EachFindsItself(vars: seq<StateVar>, from: seq<StateVar>)
    requires |vars| == |from| && AllOk(from) && DistinctNames(Tags(from))
    requires forall i :: 0 <= i < |from| ==> SameParts(vars[i], from[i])
    ensures Covers(vars, from) && Updated(vars, from) == from
  {
    hide VarOk;
    forall i | 0 <= i < |from|
      ensures FindVar(from, vars[i].name) == i
    {
      var j := FindVar(from, from[i].name);
      assert j <= i;
      assert Tags(from)[j].name == from[j].name && Tags(from)[i].name == from[i].name;
    }
  }

  /** So a stored tree alone is enough to build the state anew. */
  lemma RecreatedFromFlat(t: Node, magic: nat, from: seq<StateVar>, tail: seq<byte>)
    requires StateOf(t, magic, from) && DistinctNames(TypedForest(t.children, [])) && NamesAreText(t)
    requires StateToNode(t, magic, from).Ok? && Encodable(StateToNode(t, magic, from).value)
    ensures var r := Unflatten(Flat(StateToNode(t, magic, from).value) + tail);
            r.Ok? && CreateState(r.value) == Ok((magic, from))
  {
    hide NamesAreText, Flat, Unflatten, Synced, Encodable, TypedForest, CreateForest, ToForest, StateOf;
    RecreatedFromOwnTree(t, magic, from);
    var n := StateToNode(t, magic, from).value;
    StateNodeIsPlain(t, magic, from);
    RoundTrip(n, tail);
  }
}
