/**
 * Member flattening: `parse_member` and `parse_struct_member`. A member becomes
 * a list of entries (the dictionaries the templates read); members of struct
 * type are inlined recursively with a dotted context, every other member gives
 * exactly one entry.
 */
module Flattener {
  import opened Wrappers
  import opened TypeMapper
  import opened Idl

  /** One dictionary of the flattened list, by the shape of member that produced it. */
  datatype Entry =
    | PrimitiveEntry(name: string, ctype: string)
    | StringEntry(name: string)
    | WStringEntry(name: string)
    | PrimitiveSequenceEntry(name: string, innerType: string, innerTrueType: string)
    | StringSequenceEntry(name: string)
    | WStringSequenceEntry(name: string)
    | ErrorEntry(name: string)
  {
    /** The dictionary's `'type'` value. */
    function TypeName(): (r: string)
      ensures PrimitiveEntry? ==> r == ctype
      ensures StringEntry? ==> r == "string"
      ensures WStringEntry? ==> r == "wstring"
      ensures PrimitiveSequenceEntry? || StringSequenceEntry? || WStringSequenceEntry? ==>
        |r| >= 10 && r[..9] == "sequence<" && r[|r| - 1] == '>'
      ensures ErrorEntry? ==> r == "error"
    {
      match this
      case PrimitiveEntry(_, ctype) => ctype
      case StringEntry(_) => "string"
      case WStringEntry(_) => "wstring"
      case PrimitiveSequenceEntry(_, inner, _) => "sequence<" + inner + ">"
      case StringSequenceEntry(_) => "sequence<string>"
      case WStringSequenceEntry(_) => "sequence<wstring>"
      case ErrorEntry(_) => "error"
    }

    /** The dictionary itself, key by key, as `parse_member` builds it. */
    function Fields(): (d: map<string, string>)
      ensures "type" in d && d["type"] == TypeName()
      ensures "name" in d && d["name"] == name
      ensures "inner_type" in d <==> !PrimitiveEntry? && !ErrorEntry?
      ensures "primitive_sequence" in d <==>
        PrimitiveSequenceEntry? || StringSequenceEntry? || WStringSequenceEntry?
      ensures "inner_truetype" in d <==> PrimitiveSequenceEntry?
      ensures d.Keys <= {"type", "name", "inner_type", "primitive_sequence", "inner_truetype"}
      ensures StringEntry? ==> d["inner_type"] == "char"
      ensures WStringEntry? ==> d["inner_type"] == "uint16_t"
      ensures PrimitiveSequenceEntry? ==>
        d["primitive_sequence"] == "True" && d["inner_type"] == innerType && d["inner_truetype"] == innerTrueType
      ensures StringSequenceEntry? ==> d["primitive_sequence"] == "False" && d["inner_type"] == "string"
      ensures WStringSequenceEntry? ==> d["primitive_sequence"] == "False" && d["inner_type"] == "wstring"
      ensures PrimitiveSequenceEntry? || StringSequenceEntry? || WStringSequenceEntry? ==>
        d["type"] == "sequence<" + d["inner_type"] + ">"
    {
      var base := map["type" := TypeName(), "name" := name];
      match this
      case PrimitiveEntry(_, _) => base
      case StringEntry(_) => base["inner_type" := "char"]
      case WStringEntry(_) => base["inner_type" := "uint16_t"]
      case PrimitiveSequenceEntry(_, inner, trueType) =>
        base["primitive_sequence" := "True"]["inner_type" := inner]["inner_truetype" := trueType]
      case StringSequenceEntry(_) => base["primitive_sequence" := "False"]["inner_type" := "string"]
      case WStringSequenceEntry(_) => base["primitive_sequence" := "False"]["inner_type" := "wstring"]
      case ErrorEntry(_) => base
    }
  }

  /** The name of member `name` inside `context`: dot-joined, or the bare name at top level. */
  function Qualify(context: string, name: string): string
  {
    if |context| > 0 then context + "." + name else name
  }

  /**
   * A qualified name ends with the member's own name; under a non-empty context
   * it is the context, one dot and the name, and at top level the name alone.
   */
  lemma QualifyParts(context: string, name: string)
    ensures var r := Qualify(context, name);
      |r| >= |name| && r[|r| - |name|..] == name &&
      (|context| > 0 ==> |r| == |context| + 1 + |name| && r[..|context| + 1] == context + ".") &&
      (|context| == 0 ==> r == name)
  {
  }

  /** `m` reaches the struct branch of `parse_member`: the three earlier tests fail and its type `is_struct`. */
  predicate IsStructRef(m: Member)
  {
    !IsPrimitive(m.typ.name) && m.typ.name != "string" && m.typ.name != "wstring" && m.typ.shape.StructOf?
  }

  /** `parse_member(m, context)`. */
  function ParseMember(m: Member, context: string): (r: seq<Entry>)
    ensures !IsStructRef(m) ==> |r| == 1
    decreases m, 1
  {
    if IsPrimitive(m.typ.name) then
      [PrimitiveEntry(Qualify(context, m.name), PrimitiveToC(m.typ.name).value)]
    else if m.typ.name == "string" then
      [StringEntry(m.name)]
    else if m.typ.name == "wstring" then
      [WStringEntry(m.name)]
    else if m.typ.shape.StructOf? then
      MembersEntries(m.typ.shape.members, Qualify(context, m.name))
    else if m.typ.shape.SequenceOf? then
      var name := Qualify(context, m.name);
      var inner := m.typ.shape.inner.name;
      if IsPrimitive(inner) then [PrimitiveSequenceEntry(name, PrimitiveToC(inner).value, inner)]
      else if inner == "string" then [StringSequenceEntry(name)]
      else if inner == "wstring" then [WStringSequenceEntry(name)]
      else [ErrorEntry(m.name)]
    else
      [ErrorEntry(m.name)]
  }

  /** The list `parse_struct_member` accumulates: `ret = ret + parse_member(m, context)` over `ms`. */
  function MembersEntries(ms: seq<Member>, context: string): seq<Entry>
    decreases ms, 0
  {
    if ms == [] then []
    else MembersEntries(ms[..|ms| - 1], context) + ParseMember(ms[|ms| - 1], context)
  }

  /** `parse_struct_member(member, context)`: `None` unless `member.is_struct`, else the accumulated list. */
  method ParseStructMember(member: IdlType, context: string) returns (ret: Option<seq<Entry>>)
    ensures member.shape.StructOf? ==> ret == Some(MembersEntries(member.shape.members, context))
    ensures !member.shape.StructOf? ==> ret == None
  {
    if !member.shape.StructOf? {
      return None;
    }
    var ms := member.shape.members;
    var acc: seq<Entry> := [];
    for i := 0 to |ms|
      invariant acc == MembersEntries(ms[..i], context)
    {
      assert ms[..i + 1][..i] == ms[..i];
      acc := acc + ParseMember(ms[i], context);
    }
    assert ms[..|ms|] == ms;
    return Some(acc);
  }

  /** Flattening a concatenation of members concatenates their flattenings. */
  lemma {:induction false} MembersEntriesAppend(a: seq<Member>, b: seq<Member>, context: string)
    ensures MembersEntries(a + b, context) == MembersEntries(a, context) + MembersEntries(b, context)
    decreases |b|
  {
    if b != [] {
      var b' := b[..|b| - 1];
      assert (a + b)[..|a + b| - 1] == a + b';
      assert (a + b)[|a + b| - 1] == b[|b| - 1];
      MembersEntriesAppend(a, b', context);
    } else {
      assert a + b == a;
    }
  }

  /** A non-struct member reached by the depth-first walk, with the context it is flattened in. */
  datatype Leaf = Leaf(context: string, member: Member)

  /**
   * The non-struct members under `m` in depth-first declaration order: `m`
   * itself unless it is a struct reference, else the leaves of its members
   * with the context extended by `m`'s name.
   */
  function Leaves(m: Member, context: string): (r: seq<Leaf>)
    ensures forall l :: l in r ==> !IsStructRef(l.member)
    decreases m, 1
  {
    if IsStructRef(m) then LeavesAll(m.typ.shape.members, Qualify(context, m.name))
    else [Leaf(context, m)]
  }

  /** The leaves of a member list, member by member. */
  function LeavesAll(ms: seq<Member>, context: string): (r: seq<Leaf>)
    ensures forall l :: l in r ==> !IsStructRef(l.member)
    decreases ms, 0
  {
    if ms == [] then [] else Leaves(ms[0], context) + LeavesAll(ms[1..], context)
  }

  /** Entry `i` of `r` is the single entry that leaf `i` of `ls` yields on its own. */
  predicate PerLeaf(r: seq<Entry>, ls: seq<Leaf>)
  {
    |r| == |ls| &&
    forall i :: 0 <= i < |r| ==> ParseMember(ls[i].member, ls[i].context) == [r[i]]
  }

  /** The per-leaf correspondence is preserved by concatenating both sides. */
  lemma PerLeafAppend(r1: seq<Entry>, l1: seq<Leaf>, r2: seq<Entry>, l2: seq<Leaf>)
    requires PerLeaf(r1, l1) && PerLeaf(r2, l2)
    ensures PerLeaf(r1 + r2, l1 + l2)
  {
    forall i | 0 <= i < |r1 + r2|
      ensures ParseMember((l1 + l2)[i].member, (l1 + l2)[i].context) == [(r1 + r2)[i]]
    {
      if i >= |r1| {
        assert (l1 + l2)[i] == l2[i - |r1|] && (r1 + r2)[i] == r2[i - |r1|];
      }
    }
  }

  /**
   * Flattening yields one entry per non-struct leaf, in depth-first declaration
   * order, and that entry is the one the leaf yields when parsed alone in its
   * context: struct members add nothing of their own.
   */
  lemma {:induction false} ParseMemberPerLeaf(m: Member, context: string)
    ensures PerLeaf(ParseMember(m, context), Leaves(m, context))
    decreases m, 1
  {
    if IsStructRef(m) {
      MembersEntriesPerLeaf(m.typ.shape.members, Qualify(context, m.name));
    }
  }

  /** The same, for a list of members. */
  lemma {:induction false} MembersEntriesPerLeaf(ms: seq<Member>, context: string)
    ensures PerLeaf(MembersEntries(ms, context), LeavesAll(ms, context))
    decreases ms, 0
  {
    if ms != [] {
      ParseMemberPerLeaf(ms[0], context);
      MembersEntriesPerLeaf(ms[1..], context);
      assert [ms[0]][..0] == [];
      assert MembersEntries([ms[0]], context) == ParseMember(ms[0], context);
      MembersEntriesAppend([ms[0]], ms[1..], context);
      assert [ms[0]] + ms[1..] == ms;
      PerLeafAppend(ParseMember(ms[0], context), Leaves(ms[0], context),
                    MembersEntries(ms[1..], context), LeavesAll(ms[1..], context));
    }
  }

  /** A struct reference without members contributes no entries. */
  lemma EmptyStructContributesNothing(m: Member, context: string)
    requires IsStructRef(m) && m.typ.shape.members == []
    ensures ParseMember(m, context) == []
  {
  }

  /** `c` is `context` or lies below it in the dotted hierarchy (everything lies below the empty context). */
  predicate Within(c: string, context: string)
  {
    |context| == 0 || c == context || context + "." <= c
  }

  /** Every leaf is flattened in a context that lies within the context the walk started from. */
  lemma {:induction false} LeafContexts(m: Member, context: string)
    ensures forall l :: l in Leaves(m, context) ==> Within(l.context, context)
    decreases m, 1
  {
    if IsStructRef(m) {
      var q := Qualify(context, m.name);
      LeafContextsAll(m.typ.shape.members, q);
      if |context| > 0 {
        forall l | l in Leaves(m, context) ensures context + "." <= l.context {
          assert (context + ".") <= q by { assert q == (context + ".") + m.name; }
          assert q <= l.context by {
            if l.context != q {
              assert q + "." <= l.context;
              assert (q + ".")[..|q|] == q;
            }
          }
        }
      }
    }
  }

  /** The same, for a list of members. */
  lemma {:induction false} LeafContextsAll(ms: seq<Member>, context: string)
    ensures forall l :: l in LeavesAll(ms, context) ==> Within(l.context, context)
    decreases ms, 0
  {
    if ms != [] {
      LeafContexts(ms[0], context);
      LeafContextsAll(ms[1..], context);
    }
  }

  /** Entries of these kinds carry the member's bare name whatever the context. */
  predicate HasBareName(e: Entry)
  {
    e.StringEntry? || e.WStringEntry? || e.ErrorEntry?
  }

  /**
   * Names: a string, wstring or unrecognised leaf keeps its bare declared name;
   * every other leaf is named by its context and its own name, dot-joined.
   */
  lemma EntryNames(m: Member, context: string)
    ensures var r, ls := ParseMember(m, context), Leaves(m, context);
      |r| == |ls| &&
      forall i :: 0 <= i < |r| ==>
        r[i].name == if HasBareName(r[i]) then ls[i].member.name else Qualify(ls[i].context, ls[i].member.name)
  {
    ParseMemberPerLeaf(m, context);
  }

  /**
   * Under a non-empty context, the name of every entry other than a string,
   * wstring or error entry starts with the context and a dot.
   */
  lemma QualifiedNamesExtendContext(m: Member, context: string)
    requires |context| > 0
    ensures forall e :: e in ParseMember(m, context) && !HasBareName(e) ==> context + "." <= e.name
  {
    var r, ls := ParseMember(m, context), Leaves(m, context);
    EntryNames(m, context);
    LeafContexts(m, context);
    forall e | e in r && !HasBareName(e) ensures context + "." <= e.name {
      var i :| 0 <= i < |r| && r[i] == e;
      var c := ls[i].context;
      assert ls[i] in ls;
      assert Within(c, context);
      assert e.name == c + "." + ls[i].member.name;
      if c != context {
        assert context + "." <= c;
        assert (c + "." + ls[i].member.name)[..|c|] == c;
      }
    }
  }

  /** The member shapes the generator recognises: primitives, strings, and sequences of those. */
  predicate Supported(m: Member)
  {
    IsPrimitive(m.typ.name) || m.typ.name == "string" || m.typ.name == "wstring" ||
    (m.typ.shape.SequenceOf? &&
      (IsPrimitive(m.typ.shape.inner.name) || m.typ.shape.inner.name == "string" || m.typ.shape.inner.name == "wstring"))
  }

  /** `m` reaches the sequence branch of `parse_member`: the three earlier tests fail and its type `is_sequence`. */
  predicate ReachesSequence(m: Member)
  {
    !IsPrimitive(m.typ.name) && m.typ.name != "string" && m.typ.name != "wstring" && m.typ.shape.SequenceOf?
  }

  /** `m` reaches the `sequence<wstring>` branch of `parse_member`. */
  predicate IsWStringSequence(m: Member)
  {
    ReachesSequence(m) && m.typ.shape.inner.name == "wstring"
  }

  /**
   * Unsupported shapes are marked, not dropped or coerced: an entry has type
   * `'error'` exactly when the leaf that produced it is of no recognised shape,
   * and exactly the leaves reaching the `sequence<wstring>` branch give a
   * `'sequence<wstring>'` entry, named with their context.
   */
  lemma ErrorEntriesMarkUnsupportedLeaves(m: Member, context: string)
    ensures var r, ls := ParseMember(m, context), Leaves(m, context);
      |r| == |ls| &&
      (forall i :: 0 <= i < |r| ==> (r[i].TypeName() == "error" <==> !Supported(ls[i].member))) &&
      (forall i :: 0 <= i < |r| ==>
        (r[i].WStringSequenceEntry? <==> IsWStringSequence(ls[i].member)) &&
        (IsWStringSequence(ls[i].member) ==>
          r[i] == WStringSequenceEntry(Qualify(ls[i].context, ls[i].member.name))))
  {
    var r, ls := ParseMember(m, context), Leaves(m, context);
    ParseMemberPerLeaf(m, context);
    forall i | 0 <= i < |r| ensures r[i].TypeName() == "error" <==> !Supported(ls[i].member) {
      assert ls[i] in ls;
      var n := ls[i].member;
      if IsPrimitive(n.typ.name) {
        assert PrimitiveToC(n.typ.name).value != "error";
      } else if n.typ.name != "string" && n.typ.name != "wstring" &&
                n.typ.shape.SequenceOf? && IsPrimitive(n.typ.shape.inner.name) {
        assert ParseMember(n, ls[i].context) == [r[i]];
        assert r[i].PrimitiveSequenceEntry?;
        assert |r[i].TypeName()| >= 10;
      }
    }
  }

  /**
   * What each leaf yields, branch by branch of `parse_member`: a primitive gives
   * its qualified name and its `type_dict` entry; a string or wstring gives its
   * bare name; a sequence of a primitive gives its qualified name, the inner
   * type's `type_dict` entry and the inner IDL name; a sequence of strings gives
   * its qualified name; a leaf of no recognised shape gives an error entry
   * named by its bare, unqualified name.
   */
  lemma LeafEntries(m: Member, context: string)
    ensures var r, ls := ParseMember(m, context), Leaves(m, context);
      |r| == |ls| &&
      (forall i :: 0 <= i < |r| && IsPrimitive(ls[i].member.typ.name) ==>
        r[i] == PrimitiveEntry(Qualify(ls[i].context, ls[i].member.name), TypeDict[ls[i].member.typ.name])) &&
      (forall i :: 0 <= i < |r| && ls[i].member.typ.name == "string" ==>
        r[i] == StringEntry(ls[i].member.name)) &&
      (forall i :: 0 <= i < |r| && ls[i].member.typ.name == "wstring" ==>
        r[i] == WStringEntry(ls[i].member.name)) &&
      (forall i :: 0 <= i < |r| && ReachesSequence(ls[i].member) && IsPrimitive(ls[i].member.typ.shape.inner.name) ==>
        r[i] == PrimitiveSequenceEntry(Qualify(ls[i].context, ls[i].member.name),
                                       TypeDict[ls[i].member.typ.shape.inner.name],
                                       ls[i].member.typ.shape.inner.name)) &&
      (forall i :: 0 <= i < |r| && ReachesSequence(ls[i].member) && ls[i].member.typ.shape.inner.name == "string" ==>
        r[i] == StringSequenceEntry(Qualify(ls[i].context, ls[i].member.name))) &&
      (forall i :: 0 <= i < |r| && !Supported(ls[i].member) ==> r[i] == ErrorEntry(ls[i].member.name))
  {
    ParseMemberPerLeaf(m, context);
  }

  /** A `long` member. */
  function LongMember(name: string): Member
  {
    Member(name, IdlType("long", Basic))
  }

  /** A nested struct `pos { long x; long y; }` flattens to `pos.x` then `pos.y`, both `int32_t`. */
  lemma NestedStructExample()
    ensures ParseMember(Member("pos", IdlType("Point", StructOf([LongMember("x"), LongMember("y")]))), "")
         == [PrimitiveEntry("pos.x", "int32_t"), PrimitiveEntry("pos.y", "int32_t")]
  {
    var ms := [LongMember("x"), LongMember("y")];
    assert ms[..1] == [LongMember("x")] && ms[..1][..0] == [];
    assert Qualify("pos", "x") == "pos.x" && Qualify("pos", "y") == "pos.y";
    assert MembersEntries(ms[..1], "pos") == [PrimitiveEntry("pos.x", "int32_t")];
  }

  /** A string member inside a nested struct keeps its bare name: `label`, not `pos.label`. */
  lemma NestedStringKeepsBareName()
    ensures ParseMember(Member("pos", IdlType("Point", StructOf([Member("label", IdlType("string", Basic))]))), "")
         == [StringEntry("label")]
  {
    assert [Member("label", IdlType("string", Basic))][..0] == [];
  }

  /** A `sequence<long>` member gives one primitive-sequence entry of `int32_t`. */
  lemma LongSequenceExample()
    ensures ParseMember(Member("samples", IdlType("sequence<long>", SequenceOf(IdlType("long", Basic)))), "")
         == [PrimitiveSequenceEntry("samples", "int32_t", "long")]
  {
  }

  /** A `sequence<wstring>` member keeps its own unsupported kind. */
  lemma WStringSequenceExample()
    ensures ParseMember(Member("names", IdlType("sequence<wstring>", SequenceOf(IdlType("wstring", Basic)))), "ctx")
         == [WStringSequenceEntry("ctx.names")]
  {
    assert Qualify("ctx", "names") == "ctx.names";
  }

  /** A sequence of structs is an error entry, named without its context. */
  lemma StructSequenceExample()
    ensures ParseMember(Member("items", IdlType("sequence<Point>", SequenceOf(IdlType("Point", StructOf([]))))), "ctx")
         == [ErrorEntry("items")]
  {
  }
}
