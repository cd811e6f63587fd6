/** Which descriptions are refused, and with which error: the first defect of a node, children first. */
module StateDefects {
  import opened Bytes
  import opened FdtFormat
  import opened StateTree
  import opened StateCreate

  /** What is wrong with a type property, for a node with or without children. */
  function TypeDefect(n: Node): Option<Error> {
    match Lookup(n.properties, TYPE)
    case None => if n.children == [] then Some(EINVAL) else None
    case Some(v) =>
      if 0 !in v then Some(EILSEQ)
      else if forall ty :: TypeName(ty) != CString(v, 0) then Some(ENOENT)
      else None
  }

  /** A property with a value of another length than four bytes. */
  predicate NotAWord(ps: seq<Property>, name: seq<byte>) {
    Lookup(ps, name).Some? && |Lookup(ps, name).value| != 4
  }

  /** What is wrong with the other properties of a node of this type: an enum32 needs terminated value
      names, and words for its value and default; every type needs a place of its size. */
  function VarDefect(ty: Type, ps: seq<Property>): Option<Error> {
    var names, reg := Lookup(ps, NAMES), Lookup(ps, REG);
    if ty == Enum32 && (names == None || 0 !in names.value) then Some(EINVAL)
    else if reg == None then Some(EINVAL)
    else if |reg.value| < 8 || reg.value[4..8] != Be32(TypeSize(ty)) then Some(EOVERFLOW)
    else if ty == Enum32 && (NotAWord(ps, VALUE) || NotAWord(ps, DEFAULT)) then Some(EINVAL)
    else None
  }

  /** The defect of a node itself. */
  function OwnDefect(n: Node): seq<Error> {
    match TypeDefect(n)
    case Some(e) => [e]
    case None =>
      match ReadString(n.properties, TYPE)
      case Err(_) => []
      case Ok(name) =>
        match FindType(name)
        case None => []
        case Some(ty) => (match VarDefect(ty, n.properties) case Some(e) => [e] case None => [])
  }

  /** All defects of a description, children before their parent. */
  function Defects(ns: seq<Node>): seq<Error> {
    if ns == [] then [] else
      var n := ns[|ns| - 1];
      Defects(ns[..|ns| - 1]) + Defects(n.children) + OwnDefect(n)
  }

  lemma TypeIsFound(name: seq<byte>)
    ensures FindType(name) == None <==> forall ty :: TypeName(ty) != name
    ensures FindType(name).Some? ==> TypeName(FindType(name).value) == name
  {
    assert FindType(name) == None ==> forall ty :: TypeName(ty) != name;
  }

  lemma WordIs(w: seq<byte>, n: nat)
    requires |w| == 4 && n < TWO_32
    ensures FromBe32(w) == n <==> w == Be32(n)
  {
    hide Be32;
    Be32RoundTrip(n);
    Be32Injective(w, Be32(n));
  }

  lemma Be32Injective(v: seq<byte>, w: seq<byte>)
    requires |v| == |w| == 4
    ensures FromBe32(v) == FromBe32(w) ==> v == w
  {
    var a0: int, a1: int, a2: int, a3: int := v[3], v[2], v[1], v[0];
    var b0: int, b1: int, b2: int, b3: int := w[3], w[2], w[1], w[0];
    assert FromBe32(v) == FromBe32(w) ==> a0 == b0 && a1 == b1 && a2 == b2 && a3 == b3;
  }

  lemma NewVarFails(ty: Type, name: seq<byte>, ps: seq<Property>)
    ensures var v := NewVar(ty, name, ps);
            var r := if v.Ok? then Import(ty, v.value, ps) else v;
            match VarDefect(ty, ps)
            case Some(e) => r == Err(e)
            case None => r.Ok?
  {
    hide Lookup, CString, Split, FromBe32, Be32;
    var reg := Lookup(ps, REG);
    if reg.Some? && |reg.value| >= 8 {
      WordIs(reg.value[4..8], TypeSize(ty));
    }
  }

  lemma {:induction false} NodeFails(n: Node, parent: seq<byte>, vars: seq<StateVar>)
    ensures var ds := Defects(n.children) + OwnDefect(n);
            if ds == [] then CreateNode(n, parent, vars).Ok? else CreateNode(n, parent, vars) == Err(ds[0])
    decreases n, 1
  {
    hide Lookup, NewVar, Import, Insert, FullName, VarDefect, FindType, TypeName;
    var name := FullName(parent, n.name);
    ForestFails(n.children, name, vars);
    var typeName := ReadString(n.properties, TYPE);
    if typeName.Ok? {
      TypeIsFound(typeName.value);
      if FindType(typeName.value).Some? {
        NewVarFails(FindType(typeName.value).value, name, n.properties);
      }
    }
  }

  /** Creation succeeds exactly when the description has no defect, and fails with the first one,
      wherever the nodes are and whatever was created before. */
  lemma {:induction false} ForestFails(ns: seq<Node>, parent: seq<byte>, vars: seq<StateVar>)
    ensures if Defects(ns) == [] then CreateForest(ns, parent, vars).Ok?
            else CreateForest(ns, parent, vars) == Err(Defects(ns)[0])
    decreases ns, 0
  {
    hide CreateNode, CreateForest, Defects, OwnDefect;
    if ns == [] {
      NoDefects(parent, vars);
    } else {
      var front, n := ns[..|ns| - 1], ns[|ns| - 1];
      LastDefects(ns);
      CreateLast(ns, parent, vars);
      ForestFails(front, parent, vars);
      if Defects(front) == [] {
        NodeFails(n, parent, CreateForest(front, parent, vars).value);
      }
    }
  }

  lemma NoDefects(parent: seq<byte>, vars: seq<StateVar>)
    ensures Defects([]) == [] && CreateForest([], parent, vars) == Ok(vars)
  {
  }

  lemma LastDefects(ns: seq<Node>)
    requires ns != []
    ensures var n, ds := ns[|ns| - 1], Defects(ns[..|ns| - 1]);
            Defects(ns) == ds + (Defects(n.children) + OwnDefect(n))
            && (ds == [] ==> Defects(ns) == Defects(n.children) + OwnDefect(n))
  {
    hide OwnDefect;
  }

  lemma CreateLast(ns: seq<Node>, parent: seq<byte>, vars: seq<StateVar>)
    requires ns != []
    ensures var front := CreateForest(ns[..|ns| - 1], parent, vars);
            CreateForest(ns, parent, vars) == match front
                                              case Err(e) => Err(e)
                                              case Ok(after) => CreateNode(ns[|ns| - 1], parent, after)
  {
    hide CreateNode;
  }

  /** What a state is refused for: its magic number, the first defect, or overlapping places. */
  lemma CreateFails(t: Node)
    ensures match ReadU32(t.properties, MAGIC)
            case Err(e) => CreateState(t) == Err(e)
            case Ok(_) =>
              if Defects(t.children) != [] then CreateState(t) == Err(Defects(t.children)[0])
              else CreateState(t).Ok? || CreateState(t) == Err(EINVAL)
  {
    hide CreateForest, ReadU32, Defects;
    ForestFails(t.children, [], []);
  }

  // ----- Conversions -----

  /** The defects that matter when a tree is made: those of the types. */
  function TypeDefects(ns: seq<Node>): seq<Error> {
    if ns == [] then [] else
      var n := ns[|ns| - 1];
      TypeDefects(ns[..|ns| - 1]) + TypeDefects(n.children)
      + match TypeDefect(n) case Some(e) => [e] case None => []
  }

  lemma {:induction false} ToNodeFails(n: Node, parent: seq<byte>, vars: seq<StateVar>)
    ensures var ds := TypeDefects(n.children) + match TypeDefect(n) case Some(e) => [e] case None => [];
            if ds == [] then ToNode(n, parent, vars).Ok? else ToNode(n, parent, vars) == Err(ds[0])
    decreases n, 1
  {
    hide Lookup, FullName, FindType, TypeName, Exported;
    ToForestFails(n.children, FullName(parent, n.name), vars);
    var typeName := ReadString(n.properties, TYPE);
    if typeName.Ok? {
      TypeIsFound(typeName.value);
    }
  }

  /** A description is made into a tree exactly when its types are in order. */
  lemma {:induction false} ToForestFails(ns: seq<Node>, parent: seq<byte>, vars: seq<StateVar>)
    ensures if TypeDefects(ns) == [] then ToForest(ns, parent, vars).Ok?
            else ToForest(ns, parent, vars) == Err(TypeDefects(ns)[0])
    decreases ns, 0
  {
    hide ToNode, TypeDefect;
    if ns != [] {
      var front, n := ns[..|ns| - 1], ns[|ns| - 1];
      ToForestFails(front, parent, vars);
      if TypeDefects(front) == [] {
        ToNodeFails(n, parent, vars);
      }
    }
  }

  /** What keeps a node from being imported: its type, or, when the state has its variable, an enum32
      whose value or default is not one word. */
  function ImportDefect(n: Node, name: seq<byte>, vars: seq<StateVar>): seq<Error> {
    match TypeDefect(n)
    case Some(e) => [e]
    case None =>
      if ReadString(n.properties, TYPE) == Ok(TypeName(Enum32)) && FindVar(vars, name) < |vars|
         && (NotAWord(n.properties, VALUE) || NotAWord(n.properties, DEFAULT))
      then [EINVAL] else []
  }

  function ImportDefects(ns: seq<Node>, parent: seq<byte>, vars: seq<StateVar>): seq<Error> {
    if ns == [] then [] else
      var n := ns[|ns| - 1];
      var name := FullName(parent, n.name);
      ImportDefects(ns[..|ns| - 1], parent, vars) + ImportDefects(n.children, name, vars) + ImportDefect(n, name, vars)
  }

  lemma ImportFails(ty: Type, v: StateVar, ps: seq<Property>)
    ensures var r := Import(ty, v, ps);
            if ty == Enum32 && (NotAWord(ps, VALUE) || NotAWord(ps, DEFAULT)) then r == Err(EINVAL)
            else r.Ok? && r.value.name == v.name && r.value.ty == v.ty
  {
    hide Lookup, FromBe32;
  }

  lemma TypeNameOf(name: seq<byte>, ty: Type)
    requires FindType(name) == Some(ty)
    ensures name == TypeName(Enum32) <==> ty == Enum32
  {
    hide FindType, TypeName;
    TypeIsFound(name);
    FindTypeName(Enum32);
  }

  lemma {:induction false} FromNodeFails(n: Node, parent: seq<byte>, vars: seq<StateVar>)
    ensures var name := FullName(parent, n.name);
            var ds := ImportDefects(n.children, name, vars) + ImportDefect(n, name, vars);
            var r := FromNode(n, parent, vars);
            if ds == [] then r.Ok? && SameVars(vars, r.value) else r == Err(ds[0])
    decreases n, 1
  {
    hide Lookup, FullName, FindType, TypeName, Import, FindVar, NotAWord;
    var name := FullName(parent, n.name);
    FromForestFails(n.children, name, vars);
    var typeName := ReadString(n.properties, TYPE);
    if ImportDefects(n.children, name, vars) == [] {
      var after := FromForest(n.children, name, vars).value;
      FindVarSame(vars, after, name);
      var i := FindVar(after, name);
      if typeName.Ok? {
        TypeIsFound(typeName.value);
        if FindType(typeName.value).Some? {
          TypeNameOf(typeName.value, FindType(typeName.value).value);
          if i < |after| {
            ImportFails(FindType(typeName.value).value, after[i], n.properties);
          }
        }
      }
    }
  }

  /** An import succeeds exactly when the tree has no such defect, and fails with the first one; it
      never changes which variables there are. */
  lemma {:induction false} FromForestFails(ns: seq<Node>, parent: seq<byte>, vars: seq<StateVar>)
    ensures var ds, r := ImportDefects(ns, parent, vars), FromForest(ns, parent, vars);
            if ds == [] then r.Ok? && SameVars(vars, r.value) else r == Err(ds[0])
    decreases ns, 0
  {
    hide FromNode, FromForest, ImportDefect, ImportDefects, FullName, SameVars;
    SameVarsSame(vars, vars, vars);
    if ns == [] {
      NothingToImport(parent, vars);
    } else {
      var front, n := ns[..|ns| - 1], ns[|ns| - 1];
      var name := FullName(parent, n.name);
      LastImportDefects(ns, parent, vars);
      FromLast(ns, parent, vars);
      FromForestFails(front, parent, vars);
      if ImportDefects(front, parent, vars) == [] {
        var after := FromForest(front, parent, vars).value;
        DefectsSame(n.children, name, vars, after);
        DefectSame(n, name, vars, after);
        FromNodeFails(n, parent, after);
        if FromNode(n, parent, after).Ok? {
          SameVarsSame(vars, after, FromNode(n, parent, after).value);
        }
      }
    }
  }

  lemma SameVarsSame(a: seq<StateVar>, b: seq<StateVar>, c: seq<StateVar>)
    ensures SameVars(a, a) && (SameVars(a, b) && SameVars(b, c) ==> SameVars(a, c))
  {
  }

  lemma NothingToImport(parent: seq<byte>, vars: seq<StateVar>)
    ensures ImportDefects([], parent, vars) == [] && FromForest([], parent, vars) == Ok(vars)
  {
  }

  lemma LastImportDefects(ns: seq<Node>, parent: seq<byte>, vars: seq<StateVar>)
    requires ns != []
    ensures var n, ds := ns[|ns| - 1], ImportDefects(ns[..|ns| - 1], parent, vars);
            var own := ImportDefects(n.children, FullName(parent, n.name), vars)
                       + ImportDefect(n, FullName(parent, n.name), vars);
            ImportDefects(ns, parent, vars) == ds + own && (ds == [] ==> ImportDefects(ns, parent, vars) == own)
  {
    hide ImportDefect, FullName;
  }

  lemma FromLast(ns: seq<Node>, parent: seq<byte>, vars: seq<StateVar>)
    requires ns != []
    ensures var front := FromForest(ns[..|ns| - 1], parent, vars);
            FromForest(ns, parent, vars) == match front
                                            case Err(e) => Err(e)
                                            case Ok(after) => FromNode(ns[|ns| - 1], parent, after)
  {
    hide FromNode;
  }

  lemma DefectSame(n: Node, name: seq<byte>, a: seq<StateVar>, b: seq<StateVar>)
    requires SameVars(a, b)
    ensures ImportDefect(n, name, a) == ImportDefect(n, name, b)
  {
    hide TypeDefect, ReadString, NotAWord, FindVar;
    FindVarSame(a, b, name);
  }

  lemma {:induction false} DefectsSame(ns: seq<Node>, parent: seq<byte>, a: seq<StateVar>, b: seq<StateVar>)
    requires SameVars(a, b)
    ensures ImportDefects(ns, parent, a) == ImportDefects(ns, parent, b)
    decreases ns
  {
    hide ImportDefect, FullName, SameVars;
    if ns != [] {
      var front, n := ns[..|ns| - 1], ns[|ns| - 1];
      var name := FullName(parent, n.name);
      DefectsSame(front, parent, a, b);
      DefectsSame(n.children, name, a, b);
      DefectSame(n, name, a, b);
    }
  }
}
