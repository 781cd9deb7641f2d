/**
 * Struct and module collection: `parse_struct`, the per-file filter,
 * `parse_module` (a flat list) and `parse_module_tree` (a tree mirroring module
 * nesting).
 */
module Collection {
  import opened Wrappers
  import opened Strings
  import opened Idl
  import opened Flattener

  /** The dictionary `parse_struct` returns: `name`, `full_path`, `arguments`, `members`. */
  datatype Datatype = Datatype(name: string, fullPath: string, arguments: seq<Entry>, members: seq<Member>)

  /**
   * What `parse_struct` returns for `s`: name, path and members copied, and the
   * arguments flattened from the members (`StructArgumentsPerLeaf`).
   */
  function StructDatatype(s: Struct): (d: Datatype)
    ensures d.name == s.name && d.fullPath == s.fullPath && d.members == s.members
  {
    Datatype(s.name, s.fullPath, MembersEntries(s.members, ""), s.members)
  }

  /** The arguments hold one entry per non-struct leaf of the members, depth first. */
  lemma StructArgumentsPerLeaf(s: Struct)
    ensures PerLeaf(StructDatatype(s).arguments, LeavesAll(s.members, ""))
  {
    MembersEntriesPerLeaf(s.members, "");
  }

  /** `parse_struct(s, filename)`: `args = args + parse_member(m_)` over the top-level members. */
  method ParseStruct(s: Struct, filename: string) returns (d: Datatype)
    ensures d == StructDatatype(s)
  {
    var args: seq<Entry> := [];
    for i := 0 to |s.members|
      invariant args == MembersEntries(s.members[..i], "")
    {
      assert s.members[..i + 1][..i] == s.members[..i];
      args := args + ParseMember(s.members[i], "");
    }
    assert s.members[..|s.members|] == s.members;
    d := Datatype(s.name, s.fullPath, args, s.members);
  }

  /** A struct without members has no arguments. */
  lemma EmptyStructHasNoArguments(s: Struct)
    requires s.members == []
    ensures StructDatatype(s).arguments == []
  {
  }

  /**
   * The test inside `filter_func`: a missing `filepath` is rejected; otherwise
   * the path is kept when the base name of `filename` occurs in it.
   */
  predicate PathMatches(filepath: Option<string>, filename: string)
    ensures PathMatches(filepath, filename) ==> filepath.Some? && |Basename(filename)| <= |filepath.value|
  {
    filepath.Some? && Find(filepath.value, Basename(filename)) >= 0
  }

  /** `filter_func` of `parse_module` and `parse_module_tree`. */
  predicate Accepts(s: Struct, filename: string)
    ensures Accepts(s, filename) ==> s.filepath.Some? && |Basename(filename)| <= |s.filepath.value|
  {
    PathMatches(s.filepath, filename)
  }

  /** The filter is a substring test on the declaring path, not an equality of names. */
  lemma PathMatchesIffSubstring(filepath: Option<string>, filename: string)
    ensures PathMatches(filepath, filename) <==> filepath.Some? && Occurs(filepath.value, Basename(filename))
  {
    if filepath.Some? {
      FindIffOccurs(filepath.value, Basename(filename));
    }
  }

  /**
   * Any declaring path that contains the base name of the processed file
   * matches, whatever surrounds it: the filter tests for a substring, not for
   * equal names or equal directories.
   */
  lemma ContainingPathMatches(prefix: string, filename: string, suffix: string)
    ensures PathMatches(Some(prefix + Basename(filename) + suffix), filename)
  {
    var name := Basename(filename);
    var path := prefix + name + suffix;
    assert OccursAt(path, name, |prefix|) by {
      assert path[|prefix|..|prefix| + |name|] == name;
    }
    FindIffOccurs(path, name);
  }

  /** `m.for_each_struct(parse_struct_local, filter=filter_func)`: the kept structs of `m`, parsed. */
  function ModuleDatatypes(m: Module, filename: string): (r: seq<Datatype>)
    ensures |r| <= |m.structs|
  {
    ForEachStruct(m.structs, StructDatatype, s => Accepts(s, filename))
  }

  /** The list `parse_module` accumulates: `datatypes = datatypes + ...` over `ms`. */
  function CollectAll(ms: seq<Module>, filename: string): seq<Datatype>
  {
    if ms == [] then []
    else CollectAll(ms[..|ms| - 1], filename) + ModuleDatatypes(ms[|ms| - 1], filename)
  }

  /** `parse_module(m, filename)`: the sub-modules' kept structs, then `m`'s own. */
  method ParseModule(m: Module, filename: string) returns (datatypes: seq<Datatype>)
    ensures datatypes == CollectAll(m.modules + [m], filename)
  {
    var ms := m.modules + [m];
    datatypes := [];
    for i := 0 to |ms|
      invariant datatypes == CollectAll(ms[..i], filename)
    {
      assert ms[..i + 1][..i] == ms[..i];
      datatypes := datatypes + ModuleDatatypes(ms[i], filename);
    }
    assert ms[..|ms|] == ms;
  }

  /** `d` is the parsed form of a struct that one of `ms` declares directly and the filter keeps. */
  ghost predicate FromKeptStruct(d: Datatype, ms: seq<Module>, filename: string)
  {
    exists k, s :: 0 <= k < |ms| && s in ms[k].structs && Accepts(s, filename) && d == StructDatatype(s)
  }

  /** What `for_each_struct` hands back for one module comes from one of its kept structs. */
  lemma VisitedIsKept(m: Module, filename: string, d: Datatype)
    requires d in ModuleDatatypes(m, filename)
    ensures exists s :: s in m.structs && Accepts(s, filename) && d == StructDatatype(s)
  {
    ForEachStructSound(m.structs, StructDatatype, t => Accepts(t, filename), d);
  }

  /** `for_each_struct` visits every kept struct of one module. */
  lemma KeptIsVisited(m: Module, filename: string, s: Struct)
    requires s in m.structs && Accepts(s, filename)
    ensures StructDatatype(s) in ModuleDatatypes(m, filename)
  {
    ForEachStructComplete(m.structs, StructDatatype, t => Accepts(t, filename), s);
  }

  /** `d` is among the datatypes one of `ms` contributes. */
  ghost predicate InSomeModule(d: Datatype, ms: seq<Module>, filename: string)
  {
    exists k :: 0 <= k < |ms| && d in ModuleDatatypes(ms[k], filename)
  }

  /** Everything collected from `ms` is contributed by one of them. */
  lemma {:induction false} CollectAllSound(ms: seq<Module>, filename: string, d: Datatype)
    requires d in CollectAll(ms, filename)
    ensures InSomeModule(d, ms, filename)
  {
    var init, last := ms[..|ms| - 1], ms[|ms| - 1];
    if d !in ModuleDatatypes(last, filename) {
      CollectAllSound(init, filename, d);
      var k :| 0 <= k < |init| && d in ModuleDatatypes(init[k], filename);
      assert ms[k] == init[k];
    }
  }

  /** Whatever one of `ms` contributes is collected. */
  lemma {:induction false} CollectAllComplete(ms: seq<Module>, filename: string, d: Datatype, k: nat)
    requires k < |ms| && d in ModuleDatatypes(ms[k], filename)
    ensures d in CollectAll(ms, filename)
  {
    var init := ms[..|ms| - 1];
    if k < |ms| - 1 {
      assert ms[k] == init[k];
      CollectAllComplete(init, filename, d, k);
    }
  }

  /** A module contributes exactly its kept structs, parsed. */
  lemma ContributedIffKept(d: Datatype, ms: seq<Module>, filename: string)
    ensures InSomeModule(d, ms, filename) <==> FromKeptStruct(d, ms, filename)
  {
    if InSomeModule(d, ms, filename) {
      var k :| 0 <= k < |ms| && d in ModuleDatatypes(ms[k], filename);
      VisitedIsKept(ms[k], filename, d);
    }
    if FromKeptStruct(d, ms, filename) {
      var k, s :| 0 <= k < |ms| && s in ms[k].structs && Accepts(s, filename) && d == StructDatatype(s);
      KeptIsVisited(ms[k], filename, s);
    }
  }

  /** The collected list holds exactly the parsed kept structs declared directly in `ms`. */
  lemma CollectAllExactly(ms: seq<Module>, filename: string)
    ensures forall d :: d in CollectAll(ms, filename) <==> FromKeptStruct(d, ms, filename)
  {
    forall d ensures d in CollectAll(ms, filename) <==> FromKeptStruct(d, ms, filename) {
      CollectsExactly(ms, filename, d);
    }
  }

  /** One datatype at a time: collected exactly when it is the parsed form of a kept struct of `ms`. */
  lemma CollectsExactly(ms: seq<Module>, filename: string, d: Datatype)
    ensures d in CollectAll(ms, filename) <==> FromKeptStruct(d, ms, filename)
  {
    ContributedIffKept(d, ms, filename);
    if d in CollectAll(ms, filename) {
      CollectAllSound(ms, filename, d);
    }
    if InSomeModule(d, ms, filename) {
      var k :| 0 <= k < |ms| && d in ModuleDatatypes(ms[k], filename);
      CollectAllComplete(ms, filename, d, k);
    }
  }

  /** A struct of `m` or of a direct sub-module of `m`, kept and parsed into `d`. */
  ghost predicate OneLevelKept(d: Datatype, m: Module, filename: string)
  {
    (exists s :: s in m.structs && Accepts(s, filename) && d == StructDatatype(s)) ||
    (exists k, s :: 0 <= k < |m.modules| && s in m.modules[k].structs && Accepts(s, filename) && d == StructDatatype(s))
  }

  /** The modules `parse_module` visits are `m` and its direct sub-modules. */
  lemma OneLevel(m: Module, filename: string, d: Datatype)
    ensures FromKeptStruct(d, m.modules + [m], filename) <==> OneLevelKept(d, m, filename)
  {
    if FromKeptStruct(d, m.modules + [m], filename) {
      OneLevelSound(m, filename, d);
    }
    if OneLevelKept(d, m, filename) {
      OneLevelComplete(m, filename, d);
    }
  }

  /** A struct kept from one of the visited modules belongs to `m` or to a direct sub-module. */
  lemma OneLevelSound(m: Module, filename: string, d: Datatype)
    requires FromKeptStruct(d, m.modules + [m], filename)
    ensures OneLevelKept(d, m, filename)
  {
    var ms := m.modules + [m];
    var k, s :| 0 <= k < |ms| && s in ms[k].structs && Accepts(s, filename) && d == StructDatatype(s);
    if k == |m.modules| {
      assert ms[k] == m;
    } else {
      assert ms[k] == m.modules[k];
    }
  }

  /** A kept struct of `m` or of a direct sub-module is among those of the visited modules. */
  lemma OneLevelComplete(m: Module, filename: string, d: Datatype)
    requires OneLevelKept(d, m, filename)
    ensures FromKeptStruct(d, m.modules + [m], filename)
  {
    var ms := m.modules + [m];
    if exists s :: s in m.structs && Accepts(s, filename) && d == StructDatatype(s) {
      var s :| s in m.structs && Accepts(s, filename) && d == StructDatatype(s);
      assert ms[|ms| - 1] == m;
    } else {
      var k, s :| 0 <= k < |m.modules| && s in m.modules[k].structs && Accepts(s, filename) && d == StructDatatype(s);
      assert ms[k] == m.modules[k];
    }
  }

  /**
   * `parse_module` looks one level deep: its result holds exactly the parsed
   * kept structs that `m` or one of its direct sub-modules declares, and each
   * of them was declared in a file whose path contains the base name of
   * `filename`.
   */
  lemma ParseModuleExactly(m: Module, filename: string)
    ensures forall d :: d in CollectAll(m.modules + [m], filename) <==> OneLevelKept(d, m, filename)
    ensures forall d :: d in CollectAll(m.modules + [m], filename) ==>
      exists s: Struct :: Accepts(s, filename) && d == StructDatatype(s)
  {
    var ms := m.modules + [m];
    forall d ensures d in CollectAll(ms, filename) <==> OneLevelKept(d, m, filename) {
      OneLevel(m, filename, d);
      CollectsExactly(ms, filename, d);
    }
    forall d | d in CollectAll(ms, filename)
      ensures exists s: Struct :: Accepts(s, filename) && d == StructDatatype(s)
    {
      CollectsExactly(ms, filename, d);
      var k, s :| 0 <= k < |ms| && s in ms[k].structs && Accepts(s, filename) && d == StructDatatype(s);
    }
  }

  /** The tree `parse_module_tree` returns: its `module` (here `mod`), `datatypes` and `children`. */
  datatype ModuleTree = ModuleTree(mod: Module, datatypes: seq<Datatype>, children: seq<ModuleTree>)

  /** The tree `parse_module_tree` builds for `m`: one child per sub-module, in order. */
  function TreeOf(m: Module, filename: string): ModuleTree
    decreases m, 1
  {
    ModuleTree(m, ModuleDatatypes(m, filename), SubTrees(m.modules, filename))
  }

  /** The subtrees `parse_module_tree` appends to `tree['children']`, one per module of `ms`. */
  function SubTrees(ms: seq<Module>, filename: string): (ts: seq<ModuleTree>)
    ensures |ts| == |ms|
    ensures forall i :: 0 <= i < |ms| ==> ts[i] == TreeOf(ms[i], filename)
    decreases ms, 0
  {
    if ms == [] then [] else SubTrees(ms[..|ms| - 1], filename) + [TreeOf(ms[|ms| - 1], filename)]
  }

  /** `parse_module_tree({}, m, filename)`: fill the node, then append one subtree per sub-module. */
  method ParseModuleTree(m: Module, filename: string) returns (tree: ModuleTree)
    ensures tree == TreeOf(m, filename)
    decreases m
  {
    var datatypes := ModuleDatatypes(m, filename);
    var children: seq<ModuleTree> := [];
    for i := 0 to |m.modules|
      invariant children == SubTrees(m.modules[..i], filename)
    {
      assert m.modules[..i + 1][..i] == m.modules[..i];
      var t := ParseModuleTree(m.modules[i], filename);
      children := children + [t];
    }
    assert m.modules[..|m.modules|] == m.modules;
    tree := ModuleTree(m, datatypes, children);
  }

  /**
   * `t` describes `m` for `filename`: it names `m`, holds exactly the parsed
   * kept structs `m` declares directly, and has one child describing each
   * sub-module, in order.
   */
  ghost predicate Describes(t: ModuleTree, m: Module, filename: string)
    decreases t
  {
    t.mod == m &&
    (forall d :: d in t.datatypes <==> exists s :: s in m.structs && Accepts(s, filename) && d == StructDatatype(s)) &&
    |t.children| == |m.modules| &&
    forall i :: 0 <= i < |t.children| ==> Describes(t.children[i], m.modules[i], filename)
  }

  /** The tree mirrors the module nesting, and every node holds exactly its own module's kept structs. */
  lemma {:induction false} TreeDescribesModule(m: Module, filename: string)
    ensures Describes(TreeOf(m, filename), m, filename)
    decreases m
  {
    var t := TreeOf(m, filename);
    forall d ensures d in t.datatypes <==> exists s :: s in m.structs && Accepts(s, filename) && d == StructDatatype(s) {
      if d in t.datatypes {
        VisitedIsKept(m, filename, d);
      }
      if exists s :: s in m.structs && Accepts(s, filename) && d == StructDatatype(s) {
        var s :| s in m.structs && Accepts(s, filename) && d == StructDatatype(s);
        KeptIsVisited(m, filename, s);
      }
    }
    forall i | 0 <= i < |t.children| ensures Describes(t.children[i], m.modules[i], filename) {
      TreeDescribesModule(m.modules[i], filename);
    }
  }

  /** The datatypes of a list of trees' roots, concatenated in order. */
  function RootDatatypes(ts: seq<ModuleTree>): seq<Datatype>
  {
    if ts == [] then [] else RootDatatypes(ts[..|ts| - 1]) + ts[|ts| - 1].datatypes
  }

  /**
   * The flat list of `parse_module` is the tree of `parse_module_tree` read one
   * level deep: the children's own datatypes in order, then the root's.
   */
  lemma ListIsTreeOneLevelDeep(m: Module, filename: string)
    ensures CollectAll(m.modules + [m], filename) ==
      RootDatatypes(TreeOf(m, filename).children) + TreeOf(m, filename).datatypes
  {
    var t := TreeOf(m, filename);
    CollectSubmodules(m.modules, t.children, filename);
    assert (m.modules + [m])[..|m.modules|] == m.modules;
  }

  /** Concatenating what each sub-module collects gives the roots' datatypes of their trees, in order. */
  lemma {:induction false} CollectSubmodules(ms: seq<Module>, ts: seq<ModuleTree>, filename: string)
    requires |ts| == |ms|
    requires forall i :: 0 <= i < |ms| ==> ts[i] == TreeOf(ms[i], filename)
    ensures CollectAll(ms, filename) == RootDatatypes(ts)
  {
    if ms != [] {
      CollectSubmodules(ms[..|ms| - 1], ts[..|ts| - 1], filename);
    }
  }

  /** A module declaring one kept struct and no sub-modules collects exactly that struct. */
  lemma SingleStructModule(s: Struct, filename: string)
    requires Accepts(s, filename)
    ensures CollectAll(Module("", [s], []).modules + [Module("", [s], [])], filename) == [StructDatatype(s)]
  {
    var m := Module("", [s], []);
    assert m.modules + [m] == [m] && [m][..0] == [];
    assert [s][1..] == [] && [s][0] == s;
    assert ModuleDatatypes(m, filename) == [StructDatatype(s)] + ForEachStruct([], StructDatatype, t => Accepts(t, filename));
    assert CollectAll([m], filename) == CollectAll([], filename) + ModuleDatatypes(m, filename);
  }

  /** `struct Foo { long a; string b; }`, declared in `Foo.idl` under directory `dir`. */
  function FooStruct(dir: string): Struct
  {
    Struct("Foo", "Foo", [LongMember("a"), Member("b", IdlType("string", Basic))], Some(dir + "/Foo.idl"))
  }

  /** `Foo` flattens to `a` as `int32_t` and `b` as a string. */
  lemma FooArguments(dir: string)
    ensures StructDatatype(FooStruct(dir)).arguments == [PrimitiveEntry("a", "int32_t"), StringEntry("b")]
  {
    var ms := FooStruct(dir).members;
    assert ms[..1] == [LongMember("a")] && ms[..1][..0] == [];
    assert MembersEntries(ms[..1], "") == [PrimitiveEntry("a", "int32_t")];
  }

  /**
   * The generator processes `os.path.join(os.getcwd(), idl_path)`; a struct
   * declared in that same file is kept.
   */
  lemma KeptByOwnFile(s: Struct, dir: string, name: string)
    requires s.filepath == Some(dir + "/" + name) && '/' !in name
    ensures Accepts(s, dir + "/" + name)
  {
    BasenameOfJoin(dir, name);
    ContainingPathMatches(dir + "/", dir + "/" + name, "");
    assert dir + "/" + name + "" == dir + "/" + name;
  }

  /**
   * Processing `dir/Foo.idl`, which declares `Foo` at top level, gives exactly
   * one datatype, with the arguments above.
   */
  lemma FooExample(dir: string)
    ensures CollectAll(Module("", [FooStruct(dir)], []).modules + [Module("", [FooStruct(dir)], [])], dir + "/Foo.idl") ==
      [Datatype("Foo", "Foo", [PrimitiveEntry("a", "int32_t"), StringEntry("b")], FooStruct(dir).members)]
  {
    assert '/' !in "Foo.idl";
    assert dir + "/" + "Foo.idl" == dir + "/Foo.idl";
    KeptByOwnFile(FooStruct(dir), dir, "Foo.idl");
    FooArguments(dir);
    SingleStructModule(FooStruct(dir), dir + "/Foo.idl");
  }
}
