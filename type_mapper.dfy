/**
 * The fixed table from IDL primitive type names to C fixed-width type names
 * (`type_dict`) and the lookup `primitive_to_c` built on it.
 */
module TypeMapper {
  import opened Wrappers

  /** `type_dict`: the twelve IDL primitive names and the C type each maps to. */
  const TypeDict: map<string, string> := map[
    "boolean" := "uint8_t",
    "octet" := "uint8_t",
    "char" := "int8_t",
    "wchar" := "int16_t",
    "short" := "int16_t",
    "unsigned short" := "uint16_t",
    "long" := "int32_t",
    "unsigned long" := "uint32_t",
    "long long" := "int64_t",
    "unsigned long long" := "uint64_t",
    "double" := "double",
    "float" := "float"
  ]

  /** The C types the table can produce. */
  const CTypes: set<string> :=
    {"uint8_t", "int8_t", "int16_t", "uint16_t", "int32_t", "uint32_t", "int64_t", "uint64_t", "double", "float"}

  /**
   * The parser's `is_primitive(name, except_string=True)`. The parser is not part
   * of this model; the generator relies on it agreeing with the keys of
   * `type_dict`, and that agreement is taken here as the definition.
   */
  predicate IsPrimitive(name: string)
  {
    name in TypeDict
  }

  /**
   * `primitive_to_c(idltype)`: `'error'` for `string` and `wstring`, the table's
   * entry for a primitive name, and a `KeyError` for any other name.
   */
  function PrimitiveToC(idltype: string): (r: Result<string>)
    ensures r.Success? <==> IsPrimitive(idltype) || idltype == "string" || idltype == "wstring"
    ensures r.KeyError? ==> r.key == idltype
    ensures idltype == "string" || idltype == "wstring" ==> r == Success("error")
    ensures IsPrimitive(idltype) ==> r.value in CTypes && r.value != "error"
  {
    if idltype == "string" || idltype == "wstring" then Success("error")
    else if idltype in TypeDict then Success(TypeDict[idltype])
    else KeyError(idltype)
  }

  /** What `primitive_to_c` returns for each of the twelve primitive names. */
  lemma PrimitiveToCTable()
    ensures PrimitiveToC("boolean") == Success("uint8_t") && PrimitiveToC("octet") == Success("uint8_t")
    ensures PrimitiveToC("char") == Success("int8_t") && PrimitiveToC("wchar") == Success("int16_t")
    ensures PrimitiveToC("short") == Success("int16_t") && PrimitiveToC("unsigned short") == Success("uint16_t")
    ensures PrimitiveToC("long") == Success("int32_t") && PrimitiveToC("unsigned long") == Success("uint32_t")
    ensures PrimitiveToC("long long") == Success("int64_t") && PrimitiveToC("unsigned long long") == Success("uint64_t")
    ensures PrimitiveToC("double") == Success("double") && PrimitiveToC("float") == Success("float")
  {
  }

  /** The names `primitive_to_c` accepts: the twelve table keys, `string` and `wstring`. */
  const LookupDomain: set<string> :=
    {"boolean", "octet", "char", "wchar", "short", "unsigned short", "long",
     "unsigned long", "long long", "unsigned long long", "double", "float",
     "string", "wstring"}

  /** The lookup succeeds on exactly fourteen names and raises a `KeyError` on every other. */
  lemma PrimitiveToCDomain(idltype: string)
    ensures PrimitiveToC(idltype).Success? <==> idltype in LookupDomain
  {
  }

  /** The table has twelve distinct names. */
  lemma TypeDictSize()
    ensures |TypeDict| == 12
  {
  }

  /**
   * A signed IDL integer type maps to the signed C type of its width, and its
   * `unsigned` form to the unsigned C type of the same width.
   */
  lemma UnsignedWidth(name: string)
    requires name in {"short", "long", "long long"}
    ensures IsPrimitive(name) && IsPrimitive("unsigned " + name)
    ensures PrimitiveToC("unsigned " + name).value == "u" + PrimitiveToC(name).value
  {
    if name == "short" {
      assert "unsigned " + name == "unsigned short";
    } else if name == "long" {
      assert "unsigned " + name == "unsigned long";
    } else {
      assert "unsigned " + name == "unsigned long long";
    }
  }
}
