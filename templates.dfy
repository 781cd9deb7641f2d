/**
 * The template-file naming rule of `parse_global_module`: which files of a
 * backend's template directory are rendered, under which output name, and with
 * which render-context keys. Loading and rendering the templates, and writing
 * the files, are not part of this model.
 */
module Templates {
  import opened Wrappers
  import opened Strings

  /** The marker suffix of a template file. */
  const TemplateSuffix: string := ".tpl"

  /** The placeholder that makes a template per-datatype. */
  const Placeholder: string := "DATATYPE"

  /** The render-context keys of a once-per-project template. */
  const ProjectContext: set<string> := {"filename", "project", "idls", "include_idls", "datatypes", "module_tree"}

  /** The render-context keys of a per-datatype template: the same, without `include_idls`. */
  const DatatypeContext: set<string> := {"filename", "project", "idls", "datatypes", "module_tree"}

  /** One rendering: the template's base name, the output file name, and whether it is per-datatype. */
  datatype Rendering = Rendering(template: string, output: string, perDatatype: bool)
  {
    /** The keys of the context the template is rendered with. */
    function ContextKeys(): set<string>
    {
      if perDatatype then DatatypeContext else ProjectContext
    }
  }

  /**
   * The rendering of directory entry `f` for project `identifier`: none unless
   * `f` ends in `.tpl`; otherwise the base name is `f` without its last four
   * characters, kept as the output name when it holds no `DATATYPE`, and with
   * every `DATATYPE` replaced by `identifier` when it does.
   */
  function TemplateOutput(f: string, identifier: string): (r: Option<Rendering>)
    ensures r.Some? <==> EndsWith(f, TemplateSuffix)
    ensures r.Some? ==> r.value.template + TemplateSuffix == f
    ensures r.Some? ==> (r.value.perDatatype <==> Occurs(r.value.template, Placeholder))
  {
    if !EndsWith(f, TemplateSuffix) then None
    else
      var base := f[..|f| - 4];
      assert base + TemplateSuffix == f;
      FindIffOccurs(base, Placeholder);
      if Find(base, Placeholder) < 0 then Some(Rendering(base, base, false))
      else Some(Rendering(base, Replace(base, Placeholder, identifier), true))
  }

  /**
   * The output name is always the base name with every `DATATYPE` replaced by
   * the identifier: the placeholder test decides only the render context.
   */
  lemma OutputIsPlaceholderReplaced(f: string, identifier: string)
    requires EndsWith(f, TemplateSuffix)
    ensures var r := TemplateOutput(f, identifier).value;
      r.output == Replace(r.template, Placeholder, identifier)
  {
    var r := TemplateOutput(f, identifier).value;
    if !r.perDatatype {
      FindIffOccurs(r.template, Placeholder);
      ReplaceWithoutOccurrence(r.template, Placeholder, identifier);
    }
  }

  /** `include_idls` is bound exactly for once-per-project templates. */
  lemma IncludeIdlsOnlyPerProject(r: Rendering)
    ensures "include_idls" in r.ContextKeys() <==> !r.perDatatype
    ensures r.ContextKeys() - {"include_idls"} == DatatypeContext
  {
  }

  /** `DATATYPE.h.tpl` renders once, as `Foo.h` for project `Foo`. */
  lemma PerDatatypeExample()
    ensures TemplateOutput("DATATYPE.h.tpl", "Foo") == Some(Rendering("DATATYPE.h", "Foo.h", true))
  {
    var f, base := "DATATYPE.h.tpl", "DATATYPE.h";
    assert EndsWith(f, TemplateSuffix) && f[..|f| - 4] == base;
    assert OccursAt(base, Placeholder, 0) by { assert base[0..8] == Placeholder; }
    assert base[..8] == Placeholder;
    assert Find(base, Placeholder) >= 0;
    assert Replace(base[8..], Placeholder, "Foo") == ".h";
    assert Replace(base, Placeholder, "Foo") == "Foo.h";
  }

  /** The directory walk's plan for the entries `files`: `files` in order, `.tpl` ones only. */
  function Renderings(files: seq<string>, identifier: string): seq<Rendering>
  {
    if files == [] then []
    else
      var last := TemplateOutput(files[|files| - 1], identifier);
      Renderings(files[..|files| - 1], identifier) + (if last.Some? then [last.value] else [])
  }

  /** The loop of `parse_global_module` over the files of one template directory. */
  method RenderDirectory(files: seq<string>, identifier: string) returns (plan: seq<Rendering>)
    ensures plan == Renderings(files, identifier)
  {
    plan := [];
    for i := 0 to |files|
      invariant plan == Renderings(files[..i], identifier)
    {
      assert files[..i + 1][..i] == files[..i];
      var f := files[i];
      if !EndsWith(f, TemplateSuffix) {
        continue;
      }
      plan := plan + [TemplateOutput(f, identifier).value];
    }
    assert files[..|files|] == files;
  }

  /** Every rendering comes from a `.tpl` entry of the directory, and every `.tpl` entry gives one. */
  lemma {:induction false} RenderingsFromTemplates(files: seq<string>, identifier: string)
    ensures forall r :: r in Renderings(files, identifier) <==>
      exists f :: f in files && TemplateOutput(f, identifier) == Some(r)
  {
    if files != [] {
      var init, last := files[..|files| - 1], files[|files| - 1];
      RenderingsFromTemplates(init, identifier);
      assert files == init + [last];
    }
  }

  /** No template appears twice in `plan`. */
  predicate DistinctTemplates(plan: seq<Rendering>)
  {
    forall i, j :: 0 <= i < j < |plan| ==> plan[i].template != plan[j].template
  }

  /**
   * In a directory whose entries are distinct, each template is rendered exactly
   * once: the plan has one rendering per `.tpl` entry and no template twice,
   * however many datatypes the file declares.
   */
  lemma {:induction false} EachTemplateOnce(files: seq<string>, identifier: string)
    requires forall i, j :: 0 <= i < j < |files| ==> files[i] != files[j]
    ensures DistinctTemplates(Renderings(files, identifier))
  {
    if files != [] {
      var init, last := files[..|files| - 1], files[|files| - 1];
      EachTemplateOnce(init, identifier);
      RenderingsFromTemplates(init, identifier);
      var plan := Renderings(files, identifier);
      var before := Renderings(init, identifier);
      if TemplateOutput(last, identifier).Some? {
        var r := TemplateOutput(last, identifier).value;
        assert plan == before + [r];
        forall i | 0 <= i < |before| ensures before[i].template != r.template {
          assert before[i] in before;
          var f :| f in init && TemplateOutput(f, identifier) == Some(before[i]);
          var k :| 0 <= k < |init| && init[k] == f;
          assert files[k] == f;
        }
        forall i, j | 0 <= i < j < |plan| ensures plan[i].template != plan[j].template {
          if j == |before| {
            assert plan[i] == before[i] && plan[j] == r;
          } else {
            assert plan[i] == before[i] && plan[j] == before[j];
          }
        }
      } else {
        assert plan == before;
      }
    }
  }
}
