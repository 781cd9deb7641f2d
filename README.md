# RTCDataTypeAdaptor project generator — a Dafny model of its data-model core

`RTCDataTypeAdaptor/project_generator.py` turns a parsed IDL file into a
project of generated sources. Before any template is rendered it builds a
backend-neutral data model from the parser's objects. This project models that
transformation and proves properties of it:

- **Type mapping** (`TypeMapper`): `type_dict`, the twelve IDL primitive names
  and their C fixed-width types, and `primitive_to_c`, which answers `'error'`
  for `string`/`wstring` and raises `KeyError` for any other name.
- **Member flattening** (`Flattener`): `parse_member` and
  `parse_struct_member`. Members of struct type are inlined with a dotted
  context. Every other member gives exactly one dictionary (`Entry`):
  primitive, string, wstring, sequence of primitive/string/wstring, or an
  `'error'` entry for anything else.
- **Struct and module collection** (`Collection`): `parse_struct`, the
  per-file `filter_func`, `parse_module` (a flat list, one level of
  sub-modules deep) and `parse_module_tree` (a tree mirroring module nesting).
- **Template naming** (`Templates`): a directory entry is rendered only if it
  ends in `.tpl`. Its output name is the base name with every `DATATYPE`
  replaced by the project identifier. Per-datatype templates get a render
  context without `include_idls`.
- **Include directories** (`IncludeDirs`): `update_include_dirs` turns `\`
  into `/`, then makes one pass turning `//` into `/`.

`Strings` models the parts of Python's `str` and `os.path` these rely on:
`find`, `replace`, `endswith` and `basename`. `Idl` holds the parser's objects
(`Member`, its type, `Struct`, `Module`, `for_each_struct`) as finite
datatypes. `Wrappers` holds `Option` and `Result`.

Functions model the pure code: `primitive_to_c`, `parse_member`, the filter
and the naming rule. Methods with loops model the code that accumulates into
`ret`, `args`, `datatypes` and `tree['children']`: `parse_struct_member`,
`parse_struct`, `parse_module`, `parse_module_tree`, `update_include_dirs`
and the per-directory file loop. Each such method is proved equal to a
function, and the lemmas are stated about that function.

Behaviour of the code worth noting:

- The type table has twelve names, `boolean` through `float`.
- `string` and `wstring` members are named by their bare member name. The
  context prefix is ignored (`project_generator.py:155`, `:159`).
- Unrecognised sequences and members give `{'type': 'error', 'name': m.name}`
  with the unqualified name (`:196`, `:200`).
- A sequence of `wstring` keeps its own `sequence<wstring>` entry. It is not
  turned into an `error` entry.
- The file filter is a substring test: `filepath.find(basename(filename)) >= 0`.
  It is not an equality of base names. The generator processes
  `os.path.join(base_dir, idl_path)` (`:36-44`), whose base name is `idl_path`
  when that has no directory part (`BasenameOfJoin`). So while `/work/a.idl`
  is processed, a struct from an included `/work/include/data.idl` is kept
  (`ContainingPathMatches`).
- The flat list of `parse_module` is the sub-modules' structs, then the
  module's own. It is one level deep, not a pre-order walk of the whole tree
  (`ListIsTreeOneLevelDeep`).
- There is no cycle detection. The model's types are finite datatypes, so a
  struct cannot contain itself.

## Model

| member | source | states |
|---|---|---|
| `TypeMapper.PrimitiveToC` | RTCDataTypeAdaptor/project_generator.py:116-135 | `string` and `wstring` give `'error'`; a table key gives one of the C fixed-width types, never `'error'`; every other name raises a `KeyError` naming it |
| `TypeMapper.PrimitiveToCTable` | RTCDataTypeAdaptor/project_generator.py:116-135 | the C type returned for each of the twelve primitive names |
| `TypeMapper.PrimitiveToCDomain` | RTCDataTypeAdaptor/project_generator.py:116-135 | the lookup succeeds on exactly fourteen listed names |
| `TypeMapper.TypeDictSize` | RTCDataTypeAdaptor/project_generator.py:116-129 | the table has twelve distinct names |
| `TypeMapper.UnsignedWidth` | RTCDataTypeAdaptor/project_generator.py:121-126 | `short`, `long`, `long long` and their `unsigned` forms are all primitive; the unsigned form maps to `u` + the signed form's C type |
| `Strings.Find` | RTCDataTypeAdaptor/project_generator.py:229 | `str.find`: -1 or an index at which the substring occurs, with room for it before the end |
| `Strings.FindLeftmost` | RTCDataTypeAdaptor/project_generator.py:229 | the index `find` returns has no earlier occurrence before it, and -1 means the substring occurs nowhere |
| `Strings.FindIffOccurs` | RTCDataTypeAdaptor/project_generator.py:229 | `find(...) >= 0` holds exactly when the substring occurs |
| `Strings.Replace` | RTCDataTypeAdaptor/project_generator.py:30 | `str.replace`: a replacement no longer than the pattern never lengthens the string, and one of equal length keeps its length |
| `Strings.ReplaceChars` | RTCDataTypeAdaptor/project_generator.py:30 | every character `replace` outputs comes from the input or the replacement |
| `Strings.ReplaceRemovesChar` | RTCDataTypeAdaptor/project_generator.py:30 | replacing a single character by text without it leaves none of that character |
| `Strings.ReplaceAtFind` | RTCDataTypeAdaptor/project_generator.py:102 | `str.replace` is leftmost and non-overlapping: the text before the first occurrence is kept, that occurrence becomes the replacement, and the rest is replaced from just past it |
| `Strings.ReplaceWithoutOccurrence` | RTCDataTypeAdaptor/project_generator.py:102 | where the pattern does not occur, `replace` returns the string unchanged |
| `Strings.Basename` | RTCDataTypeAdaptor/project_generator.py:228 | `os.path.basename`: a suffix of the path with no `/`, preceded by `/` when shorter than the path |
| `Strings.BasenameWithoutSlash` | RTCDataTypeAdaptor/project_generator.py:228 | a path without `/` is its own base name |
| `Strings.BasenameOfJoin` | RTCDataTypeAdaptor/project_generator.py:40 | the base name of `dir/name` is `name` when `name` has no `/` |
| `Strings.EndsWith` | RTCDataTypeAdaptor/project_generator.py:65 | `str.endswith`: holds exactly when the string is some prefix followed by the suffix |
| `Idl.ForEachStruct` | RTCDataTypeAdaptor/project_generator.py:233 | the parser's `for_each_struct`: no more results than structs |
| `Idl.ForEachStructSound` | RTCDataTypeAdaptor/project_generator.py:233 | every result of `for_each_struct` is `visit` of a struct the filter accepts |
| `Idl.ForEachStructComplete` | RTCDataTypeAdaptor/project_generator.py:233 | every struct the filter accepts has its `visit` result among the results |
| `Flattener.Entry.TypeName` | RTCDataTypeAdaptor/project_generator.py:150-200 | the `'type'` value: the C type for a primitive, `string`, `wstring`, `sequence<...>` for the three sequence kinds, `error` for an error entry |
| `Flattener.Entry.Fields` | RTCDataTypeAdaptor/project_generator.py:150-196 | the dictionary of each entry kind: `type` and `name` always; `inner_type` (`char`, `uint16_t`, the C inner type, `string`, `wstring`) exactly for string, wstring and sequence entries; `primitive_sequence` (`True` for a primitive sequence, `False` for string and wstring sequences) exactly for sequence entries; `inner_truetype`, the inner IDL name, only for primitive sequences; no other keys; a sequence's `type` is `sequence<` + its `inner_type` + `>` |
| `Flattener.QualifyParts` | RTCDataTypeAdaptor/project_generator.py:151 | a qualified name is `context.name` under a non-empty context and the bare name at top level (the rule at `:151` and `:162-171`) |
| `Flattener.ParseMember` | RTCDataTypeAdaptor/project_generator.py:145-201 | every member that does not reach the struct branch, including the error fallbacks, yields exactly one entry |
| `Flattener.ParseStructMember` | RTCDataTypeAdaptor/project_generator.py:138-143 | the loop returns the in-order concatenation of its members' flattenings in the given context for a struct type, and `None` otherwise |
| `Flattener.MembersEntriesAppend` | RTCDataTypeAdaptor/project_generator.py:138-143 | flattening a concatenation of member lists concatenates the flattenings |
| `Flattener.Leaves` | RTCDataTypeAdaptor/project_generator.py:161-166 | the depth-first walk that descends through struct members yields only members that do not reach the struct branch |
| `Flattener.ParseMemberPerLeaf` | RTCDataTypeAdaptor/project_generator.py:138-201 | the flattened list has one entry per non-struct leaf, in depth-first declaration order, and entry `i` is what leaf `i` yields parsed alone in its context |
| `Flattener.MembersEntriesPerLeaf` | RTCDataTypeAdaptor/project_generator.py:138-143 | the same for a member list |
| `Flattener.EmptyStructContributesNothing` | RTCDataTypeAdaptor/project_generator.py:161-166 | a struct member with no members contributes no entries |
| `Flattener.LeafContexts` | RTCDataTypeAdaptor/project_generator.py:161-166 | every leaf is flattened in a context equal to, or dot-extending, the starting context |
| `Flattener.EntryNames` | RTCDataTypeAdaptor/project_generator.py:151-201 | string, wstring and error entries carry the leaf's bare name; every other entry carries the leaf's context and name, dot-joined (bare name at top level) |
| `Flattener.QualifiedNamesExtendContext` | RTCDataTypeAdaptor/project_generator.py:151-171 | under a non-empty context, every entry other than string, wstring and error entries is named `context.` followed by more |
| `Flattener.LeafEntries` | RTCDataTypeAdaptor/project_generator.py:147-201 | per leaf: a primitive gives its qualified name and its `type_dict` entry; a string or wstring its bare name; a sequence of a primitive its qualified name, the inner `type_dict` entry and the inner IDL name; a sequence of strings its qualified name; a leaf of no recognised shape an error entry with its bare, unqualified name (`:193-200`) |
| `Flattener.ErrorEntriesMarkUnsupportedLeaves` | RTCDataTypeAdaptor/project_generator.py:167-201 | an entry has type `'error'` exactly when its leaf is neither primitive, string, wstring nor a sequence of those; a leaf gives a `sequence<wstring>` entry exactly when it reaches the `sequence<wstring>` branch, and that entry carries the leaf's qualified name |
| `Flattener.NestedStructExample` | RTCDataTypeAdaptor/project_generator.py:148-166 | member `pos { long x; long y; }` flattens to `pos.x`, `pos.y`, both `int32_t` |
| `Flattener.NestedStringKeepsBareName` | RTCDataTypeAdaptor/project_generator.py:153-156 | a string member `label` inside `pos` is named `label`, not `pos.label` |
| `Flattener.LongSequenceExample` | RTCDataTypeAdaptor/project_generator.py:173-180 | `sequence<long> samples` gives one entry `samples` with inner type `int32_t` |
| `Flattener.WStringSequenceExample` | RTCDataTypeAdaptor/project_generator.py:187-192 | `sequence<wstring> names` under `ctx` gives one `sequence<wstring>` entry named `ctx.names` |
| `Flattener.StructSequenceExample` | RTCDataTypeAdaptor/project_generator.py:193-196 | a sequence of structs under `ctx` gives one error entry named `items`, without the context |
| `Collection.StructDatatype` | RTCDataTypeAdaptor/project_generator.py:204-217 | name, full path and members copied unchanged |
| `Collection.StructArgumentsPerLeaf` | RTCDataTypeAdaptor/project_generator.py:204-217 | the arguments hold one entry per non-struct leaf of the members, depth first, flattened from the empty context |
| `Collection.ParseStruct` | RTCDataTypeAdaptor/project_generator.py:204-217 | the accumulating loop returns exactly `StructDatatype(s)` |
| `Collection.EmptyStructHasNoArguments` | RTCDataTypeAdaptor/project_generator.py:204-217 | a struct with no members has an empty argument list |
| `Collection.PathMatches` | RTCDataTypeAdaptor/project_generator.py:225-229 | a path matches only if it is present and at least as long as the processed file's base name |
| `Collection.Accepts` | RTCDataTypeAdaptor/project_generator.py:239-243 | a struct is kept only if it has a declaring path at least as long as the processed file's base name |
| `Collection.ModuleDatatypes` | RTCDataTypeAdaptor/project_generator.py:233 | `for_each_struct(parse_struct_local, filter=filter_func)`, as both `parse_module` and `parse_module_tree` (`:249`) call it: no more datatypes than the module declares structs |
| `Collection.PathMatchesIffSubstring` | RTCDataTypeAdaptor/project_generator.py:225-229 | the filter keeps a struct exactly when it has a `filepath` and the base name of `filename` is a substring of it |
| `Collection.ContainingPathMatches` | RTCDataTypeAdaptor/project_generator.py:225-229 | any path containing the processed file's base name matches, whatever surrounds it, for any processed path |
| `Collection.ParseModule` | RTCDataTypeAdaptor/project_generator.py:221-234 | the loop returns the concatenation, over the sub-modules and then the module itself, of each one's kept parsed structs |
| `Collection.VisitedIsKept` | RTCDataTypeAdaptor/project_generator.py:225-233 | each datatype one module contributes is the parsed form of one of its structs the filter keeps |
| `Collection.KeptIsVisited` | RTCDataTypeAdaptor/project_generator.py:225-233 | each struct of a module the filter keeps is contributed, parsed |
| `Collection.CollectAllSound` | RTCDataTypeAdaptor/project_generator.py:221-234 | every collected datatype is contributed by one of the listed modules |
| `Collection.CollectAllComplete` | RTCDataTypeAdaptor/project_generator.py:221-234 | whatever one of the listed modules contributes is collected |
| `Collection.ContributedIffKept` | RTCDataTypeAdaptor/project_generator.py:221-234 | contributed by one of the listed modules exactly when it is the parsed form of a kept struct one of them declares |
| `Collection.CollectsExactly` | RTCDataTypeAdaptor/project_generator.py:221-234 | a datatype is collected exactly when it is the parsed form of a kept struct one of the listed modules declares |
| `Collection.OneLevel` | RTCDataTypeAdaptor/project_generator.py:222-223 | the modules `parse_module` visits are the module and its direct sub-modules, no deeper |
| `Collection.CollectAllExactly` | RTCDataTypeAdaptor/project_generator.py:221-234 | the collected list holds exactly the parsed kept structs declared directly in the listed modules |
| `Collection.ParseModuleExactly` | RTCDataTypeAdaptor/project_generator.py:221-234 | `parse_module` holds exactly the parsed kept structs of the module and its direct sub-modules, and each came from a path containing the file's base name |
| `Collection.SubTrees` | RTCDataTypeAdaptor/project_generator.py:252-254 | one child tree per sub-module, child `i` built from sub-module `i` |
| `Collection.ParseModuleTree` | RTCDataTypeAdaptor/project_generator.py:237-256 | the recursive method with its child-appending loop returns exactly `TreeOf(m, filename)` |
| `Collection.TreeDescribesModule` | RTCDataTypeAdaptor/project_generator.py:237-256 | the tree mirrors module nesting child for child, and every node holds exactly the parsed kept structs its own module declares |
| `Collection.ListIsTreeOneLevelDeep` | RTCDataTypeAdaptor/project_generator.py:221-256 | the flat list equals the children's datatypes in order followed by the root's |
| `Collection.SingleStructModule` | RTCDataTypeAdaptor/project_generator.py:221-234 | a module declaring one kept struct and no sub-modules collects exactly that struct |
| `Collection.FooArguments` | RTCDataTypeAdaptor/project_generator.py:204-217 | `struct Foo { long a; string b; }` has arguments `a: int32_t`, `b: string` |
| `Collection.KeptByOwnFile` | RTCDataTypeAdaptor/project_generator.py:225-229 | a struct declared in `dir/name` is kept while `os.path.join(dir, name)` is processed, for any `dir` |
| `Collection.FooExample` | RTCDataTypeAdaptor/project_generator.py:221-234 | processing `dir/Foo.idl`, which declares `Foo` at top level, collects exactly one datatype with those arguments |
| `Templates.TemplateOutput` | RTCDataTypeAdaptor/project_generator.py:65-71 | a rendering exists exactly for entries ending in `.tpl`; its template is the entry without the suffix; it is per-datatype exactly when the base name contains `DATATYPE` |
| `Templates.OutputIsPlaceholderReplaced` | RTCDataTypeAdaptor/project_generator.py:84-102 | in both branches the output name is the base name with every `DATATYPE` replaced by the identifier |
| `Templates.IncludeIdlsOnlyPerProject` | RTCDataTypeAdaptor/project_generator.py:87-108 | `include_idls` is in the render context exactly for once-per-project templates; otherwise the two contexts have the same keys |
| `Templates.PerDatatypeExample` | RTCDataTypeAdaptor/project_generator.py:96-102 | `DATATYPE.h.tpl` renders per-datatype as `Foo.h` for project `Foo` |
| `Templates.RenderDirectory` | RTCDataTypeAdaptor/project_generator.py:64-71 | the loop over a directory's files returns the renderings of its `.tpl` entries, in order |
| `Templates.RenderingsFromTemplates` | RTCDataTypeAdaptor/project_generator.py:64-71 | a rendering is in the plan exactly when some entry of the directory produces it |
| `Templates.EachTemplateOnce` | RTCDataTypeAdaptor/project_generator.py:62-71 | with distinct entries, no template is rendered twice, whatever the number of datatypes |
| `IncludeDirs.Normalize` | RTCDataTypeAdaptor/project_generator.py:30 | a normalised directory contains no backslash and is no longer than the input |
| `IncludeDirs.UpdateIncludeDirs` | RTCDataTypeAdaptor/project_generator.py:27-31 | same length and order as the input, element `i` the normalised form of input `i` |
| `IncludeDirs.NormalizeKeepsCleanPath` | RTCDataTypeAdaptor/project_generator.py:30 | a directory already free of `\` and `//` is unchanged |
| `IncludeDirs.NormalizeKeepsBackslashFree` | RTCDataTypeAdaptor/project_generator.py:30 | on a directory without `\` only the `//` pass acts |
| `IncludeDirs.BackslashExample` | RTCDataTypeAdaptor/project_generator.py:30 | `a\b` becomes `a/b` |
| `IncludeDirs.SinglePassExample` | RTCDataTypeAdaptor/project_generator.py:30 | `///` becomes `//`: one pass does not collapse every run of slashes |

## Left out

- Rendering: Jinja2 template loading and `render` (lines 63, 73, 87, 103) belong to a foreign library. A render context is modelled only as its set of keys.
- Filesystem work in `parse_global_module` and `generate_directory` is not modelled: `os.walk`, `os.mkdir`, `os.chdir`, `os.path.isdir`, writing output files, and copying IDL files. The per-directory loop is modelled over the list of file names one directory holds. How output directories mirror the walked ones is not modelled.
- The backend check (lines 50-54) is not modelled. It raises `InvalidBackendException`, which the file never defines, and it runs after `generate_directory` has created directories.
- Command line and process state are not modelled: `parse_args`, `main`, and the globals `idlparser` and `include_dirs`.
- The IDL parser is not part of this model: `load`, `includes` and the building of the `idls`/`include_idls` lists. `for_each_struct` is taken to visit the structs a module declares directly, in order. `is_primitive(name, except_string=True)` is taken to agree with the keys of `type_dict`.
- Idl: member types are finite datatypes, so cyclic struct references cannot be expressed. The source has no cycle check either.
- IncludeDirs.Normalize: `os.path.expandvars` reads the environment and is treated as the identity, so "no longer than the input" is stated against the unexpanded directory.
- Collection.ParseModuleTree: the dictionary filled in place is modelled as a returned value. Both callers pass a fresh `{}`, so the in-place update and aliasing are not observable. The `module` key is the `mod` field.
- The debug branches for `TimedLong`/`TimeLong` (lines 207-212), the `verbose` prints and the `sys.stdout.write` error messages are output only and are not modelled.
- Strings.Basename: follows POSIX path rules, splitting only on `/`. On Windows `os.path.basename` also splits on `\` and after a drive colon, so there the file filter can keep a different set of structs.
- Strings.Replace: Python's `replace` with an empty pattern is not modelled. The generator never uses one.
