/** `genelisp`: collect the docutils catalog, then the Sphinx one, join them
    docutils first with no deduplication, and render the template. */
module GeneLisp {
  import opened Wrappers
  import opened Catalog
  import opened Lexicographic
  import opened SphinxInfo
  import opened DocutilsInfo
  import opened RenderLisp

  /** The catalog one run renders, or the error that aborts the run. */
  function BuildCatalog(doc: DocutilsRegistry, builtinDomains: seq<Domain>): Result<Catalog, Error>
  {
    match DocutilsDirectives(doc)
    case Err(e) => Err(e)
    case Ok(directives) =>
      match NormalizedRoles(doc)
      case Err(e) => Err(e)
      case Ok(roles) =>
        Ok(Catalog(directives + SphinxDirectives(builtinDomains), roles + SphinxRoles(builtinDomains)))
  }

  /** The rendered text lists the docutils directives before the Sphinx
      ones, the docutils roles before the Sphinx ones, and the docutils option
      tables before the Sphinx ones, dropping and merging nothing. */
  lemma RenderedCatalogOrder(doc: DocutilsRegistry, builtinDomains: seq<Domain>)
    requires BuildCatalog(doc, builtinDomains).Ok?
    ensures DocutilsDirectives(doc).Ok? && NormalizedRoles(doc).Ok?
    ensures var d1, d2 := DocutilsDirectives(doc).value, SphinxDirectives(builtinDomains);
            var r1, r2 := NormalizedRoles(doc).value, SphinxRoles(builtinDomains);
            Render(BuildCatalog(doc, builtinDomains).value)
              == DirectivesHead + Quoted(Names(d1), "::") + Quoted(Names(d2), "::")
               + RolesHead + Quoted(r1, ":") + Quoted(r2, ":") + RolesTail
               + PuthashForms(d1) + PuthashForms(d2)
  {
    var d1, d2 := DocutilsDirectives(doc).value, SphinxDirectives(builtinDomains);
    var r1, r2 := NormalizedRoles(doc).value, SphinxRoles(builtinDomains);
    RenderConcat(d1, d2, r1, r2);
  }

  /** One run: docutils first (an error there ends the run before Sphinx is
      consulted), then the Sphinx domains, then the template. */
  method Genelisp(doc: DocutilsRegistry, builtinDomains: seq<Domain>) returns (out: Result<string, Error>)
    ensures out == match BuildCatalog(doc, builtinDomains)
                   case Ok(c) => Ok(Render(c))
                   case Err(e) => Err(e)
  {
    var igdoc := new InfoGetterDocutils();
    var err := igdoc.GetInfo(doc);
    if err.Some? {
      return Err(err.value);
    }
    assert DocutilsDirectives(doc).Ok? && NormalizedRoles(doc).Ok?;
    assert igdoc.info.directives == DocutilsDirectives(doc).value;
    var sphinxDirectiveSpecs, sphinxRoleList := GetSphinxDomainDirectiveSpecsAndRoles(builtinDomains);
    out := Ok(Render(Catalog(igdoc.info.directives + sphinxDirectiveSpecs, igdoc.info.roles + sphinxRoleList)));
  }

  // ----- Worked examples -----

  /** A registry directive `note` with option `class`, resolved through
      the sub-module `admonitions`. */
  const NoteRegistry: DocutilsRegistry := DocutilsRegistry(
    [("note", ClassRef("admonitions", "Note"))],
    map["admonitions" := map["Note" := DirectiveClass(Some(["class"]))]],
    [], map[], map[], [], RoleFunction(0))

  /** `warning` without options in the standard domain. */
  const StdExample: Domain := Domain("std", [("warning", DirectiveClass(None))], [])

  /** `highlight` with option `lang` in domain `tip`. */
  const TipExample: Domain := Domain("tip", [("highlight", DirectiveClass(Some(["lang"])))], [])

  lemma NoteRegistryExample()
    ensures DocutilsDirectives(NoteRegistry) == Ok([DirectiveSpec("note", ["class"])])
    ensures NormalizedRoles(NoteRegistry) == Ok([])
  {
    var doc := NoteRegistry;
    assert FirstUnresolved(doc.subModules, doc.directiveRegistry) == 1;
    assert RegistryEntries(doc.subModules, doc.directiveRegistry) == [DirectiveSpec("note", ["class"])];
    assert Entries(doc.directives) == [];
    var spec := DirectiveSpec("note", ["class"]);
    assert RegistryEntries(doc.subModules, doc.directiveRegistry) + Entries(doc.directives) == [spec];
    assert DocutilsDirectives(doc) == Ok([spec]);
    assert ImplementedRoles(map[], RoleFunction(0)) == [];
  }

  // CandidatesText, NoteQuoted, WarningQuoted and TipQuoted are steps of
  // CandidatesExample: each literal fact is its own small proof, which keeps
  // every proof obligation of the example cheap for the solver.

  lemma CandidatesText()
    ensures "\"note::\" " + "\"warning::\" " + "\"tip:highlight::\" " == "\"note::\" \"warning::\" \"tip:highlight::\" "
  {
  }

  lemma NoteQuoted()
    ensures Quoted(["note"], "::") == "\"note::\" "
  {
  }

  lemma WarningQuoted()
    ensures Quoted(["warning"], "::") == "\"warning::\" "
  {
  }

  lemma TipQuoted()
    ensures Quoted(["tip:highlight"], "::") == "\"tip:highlight::\" "
  {
  }

  lemma CandidatesExample()
    ensures Quoted(["note", "warning", "tip:highlight"], "::") == "\"note::\" \"warning::\" \"tip:highlight::\" "
    ensures Quoted(["class"], ":") == "\"class:\" "
    ensures Quoted(["lang"], ":") == "\"lang:\" "
  {
    NoteQuoted();
    WarningQuoted();
    TipQuoted();
    CandidatesText();
    QuotedAppend(["note"], ["warning"], "::");
    assert ["note"] + ["warning"] == ["note", "warning"];
    QuotedAppend(["note", "warning"], ["tip:highlight"], "::");
    assert ["note", "warning"] + ["tip:highlight"] == ["note", "warning", "tip:highlight"];
  }

  lemma DomainsExample()
    ensures SphinxDirectives([StdExample, TipExample])
         == [DirectiveSpec("warning", []), DirectiveSpec("tip:highlight", ["lang"])]
    ensures SphinxRoles([StdExample, TipExample]) == []
  {
    assert [StdExample, TipExample][..1] == [StdExample];
    assert DomainDirectives(StdExample) == [DirectiveSpec("warning", [])];
    assert GeneName("tip", "highlight") == "tip:highlight";
    assert DomainDirectives(TipExample) == [DirectiveSpec("tip:highlight", ["lang"])];
    SphinxSingle(StdExample);
  }

  /** The registry directive, then the standard-domain one, then the
      prefixed one: `"note::" "warning::" "tip:highlight::" `, with option
      lists `"class:" `, empty, and `"lang:" `. */
  lemma ThreeDirectivesExample()
    ensures var specs := [DirectiveSpec("note", ["class"]), DirectiveSpec("warning", []),
                          DirectiveSpec("tip:highlight", ["lang"])];
            && BuildCatalog(NoteRegistry, [StdExample, TipExample]) == Ok(Catalog(specs, []))
            && Quoted(Names(specs), "::") == "\"note::\" \"warning::\" \"tip:highlight::\" "
            && Quoted(specs[0].option, ":") == "\"class:\" "
            && Quoted(specs[1].option, ":") == ""
            && Quoted(specs[2].option, ":") == "\"lang:\" "
  {
    NoteRegistryExample();
    DomainsExample();
    CandidatesExample();
    var specs := [DirectiveSpec("note", ["class"]), DirectiveSpec("warning", []),
                  DirectiveSpec("tip:highlight", ["lang"])];
    assert Names(specs) == ["note", "warning", "tip:highlight"];
    assert [DirectiveSpec("note", ["class"])] + [DirectiveSpec("warning", []), DirectiveSpec("tip:highlight", ["lang"])] == specs;
  }

  /** The locale alias `imagen` of `image` is offered beside it while
      `image` is implemented, and neither is offered once `image` is the
      unimplemented placeholder. */
  lemma ImagenAliasExample(handler: RoleFunction, unimplemented: RoleFunction)
    ensures var doc := DocutilsRegistry([], map[], [], map["image" := handler], map[],
                                        [("imagen", "image")], unimplemented);
            NormalizedRoles(doc) == if handler != unimplemented then Ok(["image", "imagen"]) else Ok([])
  {
    var doc := DocutilsRegistry([], map[], [], map["image" := handler], map[],
                                [("imagen", "image")], unimplemented);
    var merged := MergeRoleTables(doc.roles, doc.roleRegistry);
    assert merged == map["image" := handler];
    var table := merged["imagen" := handler];
    assert ApplyAliases(merged, doc.localeRoles) == ApplyAliases(table, []);
    var r := ImplementedRoles(table, unimplemented);
    if handler != unimplemented {
      assert "image" == "imagen"[..5];
      assert Below("image", "imagen");
      assert StrictlyIncreasing(["image", "imagen"]);
      SortedIsCanonical(r, ["image", "imagen"]);
    } else {
      assert (set name | name in table && table[name] != unimplemented) == {};
    }
  }
}
