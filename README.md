# auto-complete-rst source generator, modelled in Dafny

`genesource.py` builds the completion tables of the Emacs package
auto-complete-rst. It reads the reStructuredText directives and roles
that docutils and Sphinx know about and prints an Emacs Lisp file. That
file defines two candidate functions, one listing directive names
(`"name::"`) and one listing role names (`"name:"`). It also has one
`puthash` per directive, which records the directive's option keys
(`"key:"`).

This project models that generator:

- `catalog.dfy` (module `Catalog`): the shared records, and the base
  `InfoGetter` object whose `directives` and `roles` lists the
  subclasses fill.
- `sphinx.dfy` (module `SphinxInfo`):
  - the Sphinx domains;
  - the `genename` naming rule: bare names in the `std` domain,
    `domain:name` elsewhere;
  - the class `InfoGetterSphinx`;
  - `get_sphinx_domain_directive_specs_and_roles`.
- `docutils.dfy` (module `DocutilsInfo`):
  - the class `InfoGetterDocutils`;
  - the lazily resolved directive registry and the direct directive
    table;
  - the two role tables, merged, then extended with the English alias
    table, then filtered of unimplemented roles and sorted.
- `lexicographic.dfy` (module `Lexicographic`): Python 2 string
  ordering, and a sort of a finite set of names.
- `render.dfy` (module `RenderLisp`):
  - the template `TEMP_SOURCE`, rendered as the template engine does by
    default for names it can insert. The output starts with a newline,
    the `-%}` tag swallows one newline, the template's final newline is
    dropped, and nothing is escaped;
  - a reader of candidate lists in which only `"` is special, used to
    prove that the rendered lists can be read back.
- `genelisp.dfy` (module `GeneLisp`): the `genelisp` run. It collects
  the docutils catalog first, then the Sphinx one, concatenates them
  without deduplication and renders the result. It also holds worked
  examples.
- `wrappers.dfy` (module `Wrappers`): `Option` and `Result`.
- `text.dfy` (module `Text`): the search for a delimiter character. It is
  shared by the reading of `domain:name` and the reading of quoted
  literals.

How the Python maps onto Dafny:

- **Inheritance.** Python inheritance becomes composition. Each
  subclass holds a `const info: InfoGetter` and appends through
  `InfoGetter.AddDirective`.
- **Registries.** The toolchain's registries are passed in as values.
  A dictionary that the code iterates is a sequence in its iteration
  order. A dictionary that the code only looks up is a map.
- **Errors.** An `AttributeError` on a sub-module or class, or a
  `KeyError` on a canonical role name, aborts the run. The model
  returns it as an `Error` value. A Python exception leaves behind
  whatever was appended before it was raised, and so does the model:
  `InfoGetterDocutils.GetinfoDirectives` states which records are
  already in place when it fails.
- **Quotes in names.** The code performs no check on names and inserts
  each one verbatim; the model does the same.
  `RenderLisp.UnquoteQuoted` shows that the output reads back correctly
  through a reader that treats only `"` as special, when no name
  contains `"`. `RenderLisp.QuoteInNameCollides` shows how it goes
  wrong when one does.

## Model

| member | source | states |
|---|---|---|
| Catalog.InfoGetter.constructor | genesource.py:31-33 | a new info getter starts with no directives and no roles |
| Catalog.InfoGetter.AddDirective | genesource.py:35-39 | appends exactly one record: the given name, with the keys of the class's option spec in order, or no keys when the spec is absent; the role list is unchanged |
| Catalog.OptionKeys | genesource.py:38 | a record's option list is empty exactly when the class has no option spec or an empty one; otherwise it is the spec's keys, in order |
| SphinxInfo.GeneName | genesource.py:57-61 | definition of `genename`: the bare name in the `std` domain, `domain:name` in any other. `GeneNameSplit` and `GeneNameInjective` state its properties |
| SphinxInfo.GeneNameSplit | genesource.py:57-61 | a generated name reads back as the domain and the bare name it came from. Requires that the domain name has no `:`, and that a `std` name has none either |
| SphinxInfo.GeneNameInjective | genesource.py:57-61 | within one domain, two different bare names never give the same generated name |
| SphinxInfo.DomainNamingAgrees | genesource.py:57-64 | a directive and a role of one domain that share a bare name are emitted under the same name |
| SphinxInfo.SphinxDirectivesAppend | genesource.py:66-67 | the directive records of a list of domains are those of its first part followed by those of its second part |
| SphinxInfo.SphinxRolesAppend | genesource.py:66-67 | the same, for role names |
| SphinxInfo.SphinxDirectivesGrouped | genesource.py:62-67 | a domain's directive records form one contiguous block, after those of earlier domains and before those of later ones |
| SphinxInfo.SphinxRolesGrouped | genesource.py:64-67 | the same grouping, for role names |
| SphinxInfo.InfoGetterSphinx.constructor | genesource.py:48-50 | starts with no directives, no roles and no domains |
| SphinxInfo.InfoGetterSphinx.AddDomain | genesource.py:52-53 | appends the domain to the registered domains |
| SphinxInfo.InfoGetterSphinx.GetinfoDomain | genesource.py:55-64 | appends one record per directive of the domain, in table order, named by `genename`, then the domain's role names, named the same way |
| SphinxInfo.InfoGetterSphinx.GetInfo | genesource.py:66-67 | appends every registered domain's directives and roles, domain after domain in registration order |
| SphinxInfo.GetSphinxDomainDirectiveSpecsAndRoles | genesource.py:70-76 | returns exactly the directives and the roles of the built-in domains, in their order, starting from empty lists |
| DocutilsInfo.ResolveError | genesource.py:108 | a failed lookup reports the directive. It is a missing-module error exactly when the module is absent, and a missing-class error otherwise |
| DocutilsInfo.FirstUnresolved | genesource.py:106-109 | finds the first registry entry whose module or class is missing; every entry before it resolves |
| DocutilsInfo.DocutilsDirectives | genesource.py:102-112 | definition of what `_getinfo_directives` contributes when it completes, or the error it raises. `DocutilsDirectivesOrder` states its properties |
| DocutilsInfo.DocutilsDirectivesOrder | genesource.py:102-112 | collection succeeds exactly when every registry entry resolves. On success, the registry records come first: each one is its entry's name with the option keys of the class it resolves to, in registry order. The direct-table records follow in table order, nothing dropped. On failure, the error is that of the first unresolved entry |
| DocutilsInfo.InfoGetterDocutils.constructor | genesource.py:31-33 | starts with no directives and no roles (the class inherits the base initialiser) |
| DocutilsInfo.InfoGetterDocutils.GetinfoDirectives | genesource.py:102-112 | appends the registry records, then the direct-table records. On a failed lookup, it stops with that entry's error, and only the records before that entry are appended. Roles are unchanged |
| DocutilsInfo.MergeRoleTables | genesource.py:117-119 | the merged table holds the names of both tables; where both have a name, the role registry's handler wins |
| DocutilsInfo.ApplyAliases | genesource.py:120-121 | definition of the lazy third `update`: aliases are applied one after the other, each seeing the earlier ones, and a missing canonical name is an error. `ApplyAliasesFailsIff`, `ApplyAliasesFrame`, `ApplyAliasesHandlers` and `AliasSharesHandler` state its properties |
| DocutilsInfo.ApplyAliasesFailsIff | genesource.py:120-121 | alias registration fails exactly when an alias names a canonical role that is neither in the table nor added by an earlier alias |
| DocutilsInfo.ApplyAliasesFrame | genesource.py:120-121 | alias registration adds exactly the alias names, and every name that is not an alias keeps its handler |
| DocutilsInfo.ApplyAliasesHandlers | genesource.py:120-121 | alias registration introduces no handler that was not already in the table |
| DocutilsInfo.AliasSharesHandler | genesource.py:117-121 | each alias ends up with the handler its canonical role had in the merged table, and the canonical role keeps that handler |
| DocutilsInfo.ImplementedRoles | genesource.py:123-126 | the result is strictly ascending, and it holds a name exactly when the name is in the table and its handler is not the unimplemented placeholder |
| DocutilsInfo.NormalizedRoles | genesource.py:114-126 | definition of the role list `_getinfo_roles` assigns (merge, then aliases, then filter and sort), or the error it raises. `ImplementedRoles` and `AliasListedWithCanonical` state its properties |
| DocutilsInfo.AliasListedWithCanonical | genesource.py:114-126 | an alias is offered exactly when its canonical role is, and that happens exactly when the canonical handler is implemented |
| DocutilsInfo.InfoGetterDocutils.GetinfoRoles | genesource.py:114-126 | replaces the role list with the sorted implemented names of the merged and aliased table. On a missing canonical role, it reports that error and leaves the role list unchanged. Directives are unchanged |
| DocutilsInfo.InfoGetterDocutils.GetInfo | genesource.py:128-130 | collects directives, then roles. A directive error ends the call before the roles are touched, and leaves appended exactly the records of the registry entries before the failing one |
| Lexicographic.Below | genesource.py:124 | definition of the string order `sorted` uses: character by character, a proper prefix first. `BelowTransitive` and `BelowTotal` state its properties |
| Lexicographic.BelowTransitive | genesource.py:124 | the string order used by `sorted` is transitive |
| Lexicographic.BelowTotal | genesource.py:124 | any two different strings are ordered one way or the other |
| Lexicographic.SortedSet | genesource.py:124-126 | the sorted sequence of a set is strictly ascending, holds exactly the set's elements, and has one entry per element |
| Lexicographic.SortedIsCanonical | genesource.py:124-126 | two strictly ascending sequences with the same elements are equal, so the sorted output does not depend on the table's iteration order |
| RenderLisp.Quoted | genesource.py:152-155 | definition of a candidate-list loop: one `"<name><suffix>" ` literal per name, in order. `QuotedAppend` and `UnquoteQuoted` state its properties |
| RenderLisp.PuthashForms | genesource.py:157-161 | definition of the option-table loop: one `puthash` form per record, in order. `PuthashFormsAppend` states its properties |
| RenderLisp.Render | genesource.py:150-161 | definition of the rendered template: the directive candidates, the role candidates, then the option tables. `RenderConcat` states its properties |
| RenderLisp.QuotedAppend | genesource.py:152-159 | a candidate list rendered from concatenated names is the first part's literals followed by the second part's |
| RenderLisp.PuthashFormsAppend | genesource.py:157-161 | the same, for the `puthash` forms |
| RenderLisp.RenderConcat | genesource.py:150-161 | rendering a concatenated catalog keeps each part in place in all three regions: directive candidates, role candidates and option tables |
| RenderLisp.UnquoteQuoted | genesource.py:152-159 | a rendered candidate list, read by a reader in which only `"` is special, gives back exactly its names, in order, duplicates included, provided no name contains `"` |
| RenderLisp.QuoteInNameCollides | genesource.py:155 | the role `x:" "y` renders exactly like the two roles `x` and `y` |
| GeneLisp.BuildCatalog | genesource.py:136-147 | definition of the catalog one run renders: docutils directives then Sphinx ones, normalised docutils roles then Sphinx ones, or the first docutils error. `RenderedCatalogOrder` and `Genelisp` state its properties |
| GeneLisp.RenderedCatalogOrder | genesource.py:144-147 | the output lists docutils directives before Sphinx ones, docutils roles before Sphinx ones, and docutils option tables before Sphinx ones, merging nothing |
| GeneLisp.Genelisp | genesource.py:133-147 | a run ends with the first error of the docutils stage. Otherwise it returns the rendering of docutils-then-Sphinx directives and roles |
| GeneLisp.NoteRegistryExample | genesource.py:102-112 | a registry directive `note`, resolved through its sub-module, gives one record with option `class` |
| GeneLisp.CandidatesExample | genesource.py:152-159 | the names `note`, `warning`, `tip:highlight` render as `"note::" "warning::" "tip:highlight::" `, and the option `class` renders as `"class:" ` |
| GeneLisp.DomainsExample | genesource.py:55-64 | a `std` directive keeps its bare name, while a directive of domain `tip` is named `tip:highlight` with its option |
| GeneLisp.ThreeDirectivesExample | genesource.py:133-161 | a whole run on a small registry gives the catalog note, warning, tip:highlight, and the candidate and option texts |
| GeneLisp.ImagenAliasExample | genesource.py:114-126 | the alias `imagen` of `image` is listed beside `image` when `image` is implemented, and neither is listed otherwise |

## Left out

- `import_sphinx` and `get_sphinx_app` (lines 4-26) are not modelled. They are best-effort imports and object construction that register extra directives and roles as a side effect, and their failures are swallowed. The model takes the registries as they stand afterwards.
- The call to `get_directives_sub_modules` (lines 81-100) is not modelled. It imports modules reflectively. The model takes its result as the `subModules` map, from module name to class name to class.
- `main` and its argument parsing (lines 165-178) are not modelled.
- Output is not modelled. `Genelisp` returns the rendered text. The newline that `print` adds after it, and the exit status on an uncaught exception, are not modelled.
- The template engine is not modelled. `RenderLisp.Render` writes out the one template the program uses.
- The abstract `InfoGetter.getinfo` (lines 41-43) is not modelled. It only raises `NotImplementedError`.
- Python 2 dictionary iteration order is not modelled. Every iterated dictionary is given as a sequence in the order iteration would visit it.
- Role handlers are identified by a number (`RoleFunction`). The code only compares them for identity with `unimplemented_role`.
- `sorted` is modelled as code-point lexicographic order on names. Mixed `str` and `unicode` comparison in Python 2 is not modelled.
- A name containing `"` or a newline is not rejected, because the code does not reject it.
- Render: does not model the `UnicodeDecodeError` the template engine raises under Python 2 when a byte-string name holds a non-ASCII byte (line 144). The model renders every name as text.
- UnquoteQuoted: the reader it uses treats only `"` as special. The Emacs Lisp reader also treats `\` inside a string as an escape, so a name containing `\` does not read back as itself in Emacs. The lemma says nothing about that.
- AliasSharesHandler: stated only when alias names are distinct and no alias points at a name that is itself an alias of something else. With chained aliases, the lazy update can give an alias a handler that an earlier alias installed. `ApplyAliasesFrame` and `ApplyAliasesHandlers` hold without these conditions.
- AliasListedWithCanonical: stated under the same two conditions as `AliasSharesHandler`.
