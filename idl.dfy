/**
 * The objects of the IDL parser that the generator consumes. The parser itself
 * (loading, include resolution) is not part of this model: its results are
 * taken as finite values, so a struct cannot contain itself.
 */
module Idl {
  import opened Wrappers

  /** A struct or sequence member: its declared name and its type. */
  datatype Member = Member(name: string, typ: IdlType)

  /** A member's type: the type's name, and what the parser knows of its shape. */
  datatype IdlType = IdlType(name: string, shape: Shape)

  /** `is_struct` with the struct's members, `is_sequence` with its inner type, or neither. */
  datatype Shape =
    | Basic
    | StructOf(members: seq<Member>)
    | SequenceOf(inner: IdlType)

  /** A struct as declared: `name`, `full_path`, `members`, and the `filepath` it was declared in, if known. */
  datatype Struct = Struct(name: string, fullPath: string, members: seq<Member>, filepath: Option<string>)

  /** A module: the structs it declares directly and its sub-modules (`modules`). */
  datatype Module = Module(name: string, structs: seq<Struct>, modules: seq<Module>)

  /**
   * `for_each_struct(visit, filter)` of the parser over the structs `ss` a module
   * declares directly: the results of `visit`, in declaration order, for the
   * structs `filter` accepts.
   */
  function ForEachStruct<R>(ss: seq<Struct>, visit: Struct -> R, filter: Struct -> bool): (r: seq<R>)
    ensures |r| <= |ss|
  {
    if ss == [] then []
    else
      var rest := ForEachStruct(ss[1..], visit, filter);
      if filter(ss[0]) then [visit(ss[0])] + rest else rest
  }

  /** Every result of `for_each_struct` is the visit of a struct the filter accepts. */
  lemma {:induction false} ForEachStructSound<R>(ss: seq<Struct>, visit: Struct -> R, filter: Struct -> bool, x: R)
    requires x in ForEachStruct(ss, visit, filter)
    ensures exists s :: s in ss && filter(s) && x == visit(s)
  {
    if x !in [visit(ss[0])] || !filter(ss[0]) {
      ForEachStructSound(ss[1..], visit, filter, x);
      var s :| s in ss[1..] && filter(s) && x == visit(s);
      assert s in ss;
    }
  }

  /** Every struct the filter accepts is visited. */
  lemma {:induction false} ForEachStructComplete<R>(ss: seq<Struct>, visit: Struct -> R, filter: Struct -> bool, s: Struct)
    requires s in ss && filter(s)
    ensures visit(s) in ForEachStruct(ss, visit, filter)
  {
    if s != ss[0] {
      assert s in ss[1..];
      ForEachStructComplete(ss[1..], visit, filter, s);
    }
  }
}
