/** The docutils side: the lazily resolved directive registry, the direct
    directive table, and the role tables with their English aliases. */
module DocutilsInfo {
  import opened Wrappers
  import opened Catalog
  import opened Lexicographic

  /** A `_directive_registry` value: the sub-module of
      `docutils.parsers.rst.directives` and the class name within it. */
  datatype ClassRef = ClassRef(modname: string, clsname: string)

  /** A role handler, known only by its identity (`genesource.py` compares
      handlers with `is`). */
  datatype RoleFunction = RoleFunction(id: nat)

  /** A snapshot of the docutils tables the catalog is read from.
      Dictionaries that are iterated are sequences in iteration order;
      dictionaries that are only looked up are maps. */
  datatype DocutilsRegistry = DocutilsRegistry(
    directiveRegistry: seq<(string, ClassRef)>,              // directives._directive_registry
    subModules: map<string, map<string, DirectiveClass>>,    // the imported sub-modules, by name, each by class name
    directives: seq<(string, DirectiveClass)>,               // directives._directives
    roles: map<string, RoleFunction>,                        // roles._roles
    roleRegistry: map<string, RoleFunction>,                 // roles._role_registry
    localeRoles: seq<(string, string)>,                      // languages.en.roles: alias to canonical name
    unimplemented: RoleFunction)                             // roles.unimplemented_role

  // ----- Directives -----

  /** `getattr(getattr(sub_modules, modname), clsname)` succeeds. */
  predicate Resolvable(modules: map<string, map<string, DirectiveClass>>, ref: ClassRef)
  {
    ref.modname in modules && ref.clsname in modules[ref.modname]
  }

  function Resolve(modules: map<string, map<string, DirectiveClass>>, ref: ClassRef): DirectiveClass
    requires Resolvable(modules, ref)
  {
    modules[ref.modname][ref.clsname]
  }

  /** The AttributeError a failed lookup raises: on the module first, then
      on the class. */
  function ResolveError(modules: map<string, map<string, DirectiveClass>>, entry: (string, ClassRef)): (e: Error)
    requires !Resolvable(modules, entry.1)
    ensures e.NoSuchModule? <==> entry.1.modname !in modules
    ensures (e.NoSuchModule? || e.NoSuchClass?) && e.directive == entry.0
  {
    var (dirname, ref) := entry;
    if ref.modname !in modules then NoSuchModule(dirname, ref.modname)
    else NoSuchClass(dirname, ref.modname, ref.clsname)
  }

  /** The position of the first registry entry that cannot be resolved, or
      the length of the registry when every entry can. */
  function FirstUnresolved(modules: map<string, map<string, DirectiveClass>>, entries: seq<(string, ClassRef)>): (k: nat)
    ensures k <= |entries|
    ensures forall i :: 0 <= i < k ==> Resolvable(modules, entries[i].1)
    ensures k < |entries| ==> !Resolvable(modules, entries[k].1)
  {
    if entries == [] || !Resolvable(modules, entries[0].1) then 0
    else 1 + FirstUnresolved(modules, entries[1..])
  }

  /** Registry entries that all resolve, each paired with its class. */
  function Resolved(modules: map<string, map<string, DirectiveClass>>, entries: seq<(string, ClassRef)>): seq<(string, DirectiveClass)>
    requires forall i :: 0 <= i < |entries| ==> Resolvable(modules, entries[i].1)
  {
    seq(|entries|, i requires 0 <= i < |entries| => (entries[i].0, Resolve(modules, entries[i].1)))
  }

  /** The records for registry entries that all resolve, in registry order. */
  function RegistryEntries(modules: map<string, map<string, DirectiveClass>>, entries: seq<(string, ClassRef)>): seq<DirectiveSpec>
    requires forall i :: 0 <= i < |entries| ==> Resolvable(modules, entries[i].1)
  {
    Entries(Resolved(modules, entries))
  }

  /** What `_getinfo_directives` contributes when it completes: the registry
      entries, then the direct table; or the error of the first entry that
      does not resolve. */
  function DocutilsDirectives(doc: DocutilsRegistry): Result<seq<DirectiveSpec>, Error>
  {
    var k := FirstUnresolved(doc.subModules, doc.directiveRegistry);
    if k < |doc.directiveRegistry| then Err(ResolveError(doc.subModules, doc.directiveRegistry[k]))
    else Ok(RegistryEntries(doc.subModules, doc.directiveRegistry) + Entries(doc.directives))
  }

  /** Every registry record precedes every direct-table record, each part in
      its table's order; the collection fails exactly when some registry
      entry does not resolve, and then with the error of the first one. */
  lemma DocutilsDirectivesOrder(doc: DocutilsRegistry)
    ensures DocutilsDirectives(doc).Ok? <==>
              forall i :: 0 <= i < |doc.directiveRegistry| ==> Resolvable(doc.subModules, doc.directiveRegistry[i].1)
    ensures DocutilsDirectives(doc).Ok? ==>
              var r, n := DocutilsDirectives(doc).value, |doc.directiveRegistry|;
              && |r| == n + |doc.directives|
              && (forall i :: 0 <= i < n ==>
                    && Resolvable(doc.subModules, doc.directiveRegistry[i].1)
                    && r[i] == DirectiveSpec(doc.directiveRegistry[i].0, OptionKeys(Resolve(doc.subModules, doc.directiveRegistry[i].1))))
              && (forall j :: 0 <= j < |doc.directives| ==>
                    r[n + j] == DirectiveSpec(doc.directives[j].0, OptionKeys(doc.directives[j].1)))
    ensures DocutilsDirectives(doc).Err? ==>
              exists k :: 0 <= k < |doc.directiveRegistry|
                && (forall i :: 0 <= i < k ==> Resolvable(doc.subModules, doc.directiveRegistry[i].1))
                && !Resolvable(doc.subModules, doc.directiveRegistry[k].1)
                && DocutilsDirectives(doc).error == ResolveError(doc.subModules, doc.directiveRegistry[k])
  {
    var k := FirstUnresolved(doc.subModules, doc.directiveRegistry);
    if k < |doc.directiveRegistry| {
      assert !Resolvable(doc.subModules, doc.directiveRegistry[k].1);
    }
  }

  // ----- Roles -----

  /** The two `update` calls: the newer table wins on a shared name. */
  function MergeRoleTables(older: map<string, RoleFunction>, newer: map<string, RoleFunction>): (m: map<string, RoleFunction>)
    ensures m.Keys == older.Keys + newer.Keys
    ensures forall name :: name in newer ==> m[name] == newer[name]
    ensures forall name :: name in older && name !in newer ==> m[name] == older[name]
  {
    older + newer
  }

  /** The third `update`, fed lazily by a generator: each alias takes the
      handler its canonical name has at that moment, so an alias may see an
      earlier alias; a canonical name not in the table is a KeyError. */
  function ApplyAliases(table: map<string, RoleFunction>, aliases: seq<(string, string)>): Result<map<string, RoleFunction>, Error>
    decreases |aliases|
  {
    if aliases == [] then Ok(table)
    else
      var (alias, canonical) := aliases[0];
      if canonical !in table then Err(NoSuchRole(alias, canonical))
      else ApplyAliases(table[alias := table[canonical]], aliases[1..])
  }

  /** The names the alias table adds. */
  ghost function AliasNames(aliases: seq<(string, string)>): set<string>
  {
    set i | 0 <= i < |aliases| :: aliases[i].0
  }

  /** When the i-th alias is applied, its canonical name is already known:
      it is in the merged table or an earlier alias added it. */
  ghost predicate CanonicalKnown(table: map<string, RoleFunction>, aliases: seq<(string, string)>, i: int)
    requires 0 <= i < |aliases|
  {
    aliases[i].1 in table || exists j :: 0 <= j < i && aliases[j].0 == aliases[i].1
  }

  /** Applying the aliases fails exactly when some alias names a canonical
      role that is not known by then; it is an error, never a skip. */
  lemma {:induction false} ApplyAliasesFailsIff(table: map<string, RoleFunction>, aliases: seq<(string, string)>)
    ensures ApplyAliases(table, aliases).Err? <==>
              exists i :: 0 <= i < |aliases| && !CanonicalKnown(table, aliases, i)
    decreases |aliases|
  {
    if aliases != [] {
      var (a, r) := aliases[0];
      if r in table {
        var t', rest := table[a := table[r]], aliases[1..];
        ApplyAliasesFailsIff(t', rest);
        forall i | 1 <= i < |aliases|
          ensures CanonicalKnown(table, aliases, i) <==> CanonicalKnown(t', rest, i - 1)
        {
          var x := aliases[i].1;
          assert rest[i - 1] == aliases[i];
          if CanonicalKnown(table, aliases, i) && x !in table {
            var j :| 0 <= j < i && aliases[j].0 == x;
            if j > 0 {
              assert rest[j - 1].0 == x;
            }
          }
          if CanonicalKnown(t', rest, i - 1) && x !in t' {
            var j :| 0 <= j < i - 1 && rest[j].0 == x;
            assert aliases[j + 1].0 == x;
          }
        }
        assert CanonicalKnown(table, aliases, 0);
        if exists i :: 0 <= i < |aliases| && !CanonicalKnown(table, aliases, i) {
          var i :| 0 <= i < |aliases| && !CanonicalKnown(table, aliases, i);
          assert !CanonicalKnown(t', rest, i - 1);
        }
        if exists i :: 0 <= i < |rest| && !CanonicalKnown(t', rest, i) {
          var i :| 0 <= i < |rest| && !CanonicalKnown(t', rest, i);
          assert !CanonicalKnown(table, aliases, i + 1);
        }
      } else {
        assert !CanonicalKnown(table, aliases, 0);
      }
    }
  }

  lemma AliasNamesCons(aliases: seq<(string, string)>)
    requires aliases != []
    ensures AliasNames(aliases) == {aliases[0].0} + AliasNames(aliases[1..])
  {
    var rest := aliases[1..];
    forall x | x in AliasNames(aliases)
      ensures x in {aliases[0].0} + AliasNames(rest)
    {
      var i :| 0 <= i < |aliases| && aliases[i].0 == x;
      if i > 0 {
        assert rest[i - 1].0 == x;
      }
    }
    forall x | x in AliasNames(rest)
      ensures x in AliasNames(aliases)
    {
      var i :| 0 <= i < |rest| && rest[i].0 == x;
      assert aliases[i + 1].0 == x;
    }
  }

  /** Applying the aliases adds exactly the alias names and leaves every
      other name's handler alone. */
  lemma {:induction false} ApplyAliasesFrame(table: map<string, RoleFunction>, aliases: seq<(string, string)>)
    requires ApplyAliases(table, aliases).Ok?
    ensures ApplyAliases(table, aliases).value.Keys == table.Keys + AliasNames(aliases)
    ensures forall name :: name in table && name !in AliasNames(aliases) ==>
              ApplyAliases(table, aliases).value[name] == table[name]
    decreases |aliases|
  {
    if aliases != [] {
      var (a, r) := aliases[0];
      ApplyAliasesFrame(table[a := table[r]], aliases[1..]);
      AliasNamesCons(aliases);
    }
  }

  /** Aliases introduce no handler that was not already in the table. */
  lemma {:induction false} ApplyAliasesHandlers(table: map<string, RoleFunction>, aliases: seq<(string, string)>)
    requires ApplyAliases(table, aliases).Ok?
    ensures ApplyAliases(table, aliases).value.Values <= table.Values
    decreases |aliases|
  {
    if aliases != [] {
      var (a, r) := aliases[0];
      var t' := table[a := table[r]];
      ApplyAliasesHandlers(t', aliases[1..]);
      assert t'.Values <= table.Values;
    }
  }

  /** Every alias name appears once in the locale table (it is a dictionary). */
  ghost predicate DistinctAliases(aliases: seq<(string, string)>)
  {
    forall i, j :: 0 <= i < j < |aliases| ==> aliases[i].0 != aliases[j].0
  }

  /** A canonical name is aliased, if at all, only to itself (as in
      `'image': 'image'`), so no alias is redirected through another. */
  ghost predicate CanonicalNamesFixed(aliases: seq<(string, string)>)
  {
    forall i, j :: 0 <= i < |aliases| && 0 <= j < |aliases| && aliases[j].0 == aliases[i].1 ==>
      aliases[j].1 == aliases[j].0
  }

  /** Each alias gets the same handler as its canonical role, which keeps
      the handler it had in the merged table. */
  lemma {:induction false} AliasSharesHandler(table: map<string, RoleFunction>, aliases: seq<(string, string)>)
    requires DistinctAliases(aliases) && CanonicalNamesFixed(aliases)
    requires ApplyAliases(table, aliases).Ok?
    ensures forall i :: 0 <= i < |aliases| ==>
              var m := ApplyAliases(table, aliases).value;
              && aliases[i].1 in table && aliases[i].0 in m && aliases[i].1 in m
              && m[aliases[i].0] == table[aliases[i].1]
              && m[aliases[i].1] == table[aliases[i].1]
    decreases |aliases|
  {
    if aliases != [] {
      var (a, r) := aliases[0];
      var t', rest := table[a := table[r]], aliases[1..];
      var m := ApplyAliases(table, aliases).value;
      assert m == ApplyAliases(t', rest).value;
      assert DistinctAliases(rest) && CanonicalNamesFixed(rest) by {
        forall i, j | 0 <= i < |rest| && 0 <= j < |rest| && rest[j].0 == rest[i].1
          ensures rest[j].1 == rest[j].0
        {
          assert aliases[j + 1].0 == aliases[i + 1].1;
        }
        forall i, j | 0 <= i < j < |rest|
          ensures rest[i].0 != rest[j].0
        {
          assert aliases[i + 1].0 != aliases[j + 1].0;
        }
      }
      AliasSharesHandler(t', rest);
      ApplyAliasesFrame(t', rest);
      assert a !in AliasNames(rest);
      // The first alias keeps the handler of its canonical name.
      assert m[a] == table[r];
      if r == a {
        assert m[r] == table[r];
      } else if r in AliasNames(rest) {
        var j :| 0 <= j < |rest| && rest[j].0 == r;
        assert aliases[j + 1].0 == aliases[0].1;
        assert rest[j].1 == r;
      } else {
        assert m[r] == t'[r];
      }
      // The later aliases: their canonical names have the same handler in t' as in table.
      forall i | 1 <= i < |aliases|
        ensures aliases[i].1 in table && m[aliases[i].0] == table[aliases[i].1] && m[aliases[i].1] == table[aliases[i].1]
      {
        var x := aliases[i].1;
        assert rest[i - 1] == aliases[i];
        if x == a {
          assert aliases[0].1 == aliases[0].0;
        }
      }
    }
  }

  /** `sorted(r for (r, f) in role_registry.iteritems() if f is not
      unimplemented)`: the implemented names, ascending, each once. */
  function ImplementedRoles(table: map<string, RoleFunction>, unimplemented: RoleFunction): (r: seq<string>)
    ensures StrictlyIncreasing(r)
    ensures forall name :: name in r <==> name in table && table[name] != unimplemented
  {
    SortedSet(set name | name in table && table[name] != unimplemented)
  }

  /** What `_getinfo_roles` assigns to `roles`, or the KeyError it raises. */
  function NormalizedRoles(doc: DocutilsRegistry): Result<seq<string>, Error>
  {
    match ApplyAliases(MergeRoleTables(doc.roles, doc.roleRegistry), doc.localeRoles)
    case Err(e) => Err(e)
    case Ok(table) => Ok(ImplementedRoles(table, doc.unimplemented))
  }

  /** An alias is offered exactly when its canonical role is, and that is
      exactly when the canonical role's handler is not the unimplemented
      placeholder. */
  lemma AliasListedWithCanonical(doc: DocutilsRegistry, i: nat)
    requires DistinctAliases(doc.localeRoles) && CanonicalNamesFixed(doc.localeRoles)
    requires i < |doc.localeRoles|
    requires NormalizedRoles(doc).Ok?
    ensures var (alias, canonical) := doc.localeRoles[i];
            var merged := MergeRoleTables(doc.roles, doc.roleRegistry);
            && canonical in merged
            && (alias in NormalizedRoles(doc).value <==> canonical in NormalizedRoles(doc).value)
            && (canonical in NormalizedRoles(doc).value <==> merged[canonical] != doc.unimplemented)
  {
    AliasSharesHandler(MergeRoleTables(doc.roles, doc.roleRegistry), doc.localeRoles);
  }

  /** `InfoGetterDocutils`: the shared directive and role lists, filled from
      a docutils snapshot. */
  class InfoGetterDocutils {
    const info: InfoGetter

    constructor ()
      ensures fresh(info)
      ensures info.directives == [] && info.roles == []
    {
      info := new InfoGetter();
    }

    /** Appends a record per registry entry, resolving each one, then a
        record per direct-table entry.  A failed resolution stops the work
        at that entry: the records of the entries before it stay appended. */
    method GetinfoDirectives(doc: DocutilsRegistry) returns (err: Option<Error>)
      modifies info
      ensures info.roles == old(info.roles)
      ensures var registry := doc.directiveRegistry;
              var k := FirstUnresolved(doc.subModules, registry);
              if k < |registry| then
                && err == Some(ResolveError(doc.subModules, registry[k]))
                && info.directives == old(info.directives) + RegistryEntries(doc.subModules, registry[..k])
              else
                && err == None
                && info.directives == old(info.directives) + RegistryEntries(doc.subModules, registry) + Entries(doc.directives)
    {
      var registry := doc.directiveRegistry;
      var i := 0;
      while i < |registry|
        invariant 0 <= i <= |registry|
        invariant forall j :: 0 <= j < i ==> Resolvable(doc.subModules, registry[j].1)
        invariant info.directives == old(info.directives) + RegistryEntries(doc.subModules, registry[..i])
        invariant info.roles == old(info.roles)
      {
        var (dirname, ref) := registry[i];
        if ref.modname !in doc.subModules {
          return Some(NoSuchModule(dirname, ref.modname));
        }
        var classes := doc.subModules[ref.modname];
        if ref.clsname !in classes {
          return Some(NoSuchClass(dirname, ref.modname, ref.clsname));
        }
        info.AddDirective(dirname, classes[ref.clsname]);
        assert RegistryEntries(doc.subModules, registry[..i + 1])
            == RegistryEntries(doc.subModules, registry[..i]) + [DirectiveSpec(dirname, OptionKeys(classes[ref.clsname]))];
        i := i + 1;
      }
      assert registry[..i] == registry;
      var direct := doc.directives;
      var j := 0;
      while j < |direct|
        invariant 0 <= j <= |direct|
        invariant info.directives == old(info.directives) + RegistryEntries(doc.subModules, registry) + Entries(direct)[..j]
        invariant info.roles == old(info.roles)
      {
        var (dirname, cls) := direct[j];
        info.AddDirective(dirname, cls);
        assert Entries(direct)[..j + 1] == Entries(direct)[..j] + [Entries(direct)[j]];
        j := j + 1;
      }
      assert Entries(direct)[..j] == Entries(direct);
      return None;
    }

    /** Merges the two role tables, registers the aliases, then replaces
        `roles` with the sorted implemented names.  On a KeyError `roles`
        is left as it was. */
    method GetinfoRoles(doc: DocutilsRegistry) returns (err: Option<Error>)
      modifies info
      ensures info.directives == old(info.directives)
      ensures NormalizedRoles(doc).Ok? ==> err == None && info.roles == NormalizedRoles(doc).value
      ensures NormalizedRoles(doc).Err? ==> err == Some(NormalizedRoles(doc).error) && info.roles == old(info.roles)
    {
      var registry: map<string, RoleFunction> := map[];
      registry := registry + doc.roles;
      registry := registry + doc.roleRegistry;
      assert registry == MergeRoleTables(doc.roles, doc.roleRegistry);
      var aliases := doc.localeRoles;
      var i := 0;
      while i < |aliases|
        invariant 0 <= i <= |aliases|
        invariant ApplyAliases(registry, aliases[i..]) == ApplyAliases(MergeRoleTables(doc.roles, doc.roleRegistry), aliases)
      {
        var (alias, canonical) := aliases[i];
        assert aliases[i..][0] == aliases[i] && aliases[i..][1..] == aliases[i + 1..];
        if canonical !in registry {
          return Some(NoSuchRole(alias, canonical));
        }
        registry := registry[alias := registry[canonical]];
        i := i + 1;
      }
      assert aliases[i..] == [];
      info.roles := ImplementedRoles(registry, doc.unimplemented);
      return None;
    }

    /** `getinfo`: the directives, then the roles; an error in the first
        step means the second never runs. */
    method GetInfo(doc: DocutilsRegistry) returns (err: Option<Error>)
      modifies info
      ensures DocutilsDirectives(doc).Err? ==>
                && err == Some(DocutilsDirectives(doc).error)
                && info.directives == old(info.directives)
                     + RegistryEntries(doc.subModules, doc.directiveRegistry[..FirstUnresolved(doc.subModules, doc.directiveRegistry)])
                && info.roles == old(info.roles)
      ensures DocutilsDirectives(doc).Ok? ==>
                && info.directives == old(info.directives) + DocutilsDirectives(doc).value
                && (NormalizedRoles(doc).Ok? ==> err == None && info.roles == NormalizedRoles(doc).value)
                && (NormalizedRoles(doc).Err? ==> err == Some(NormalizedRoles(doc).error) && info.roles == old(info.roles))
    {
      err := GetinfoDirectives(doc);
      if err.Some? {
        return;
      }
      err := GetinfoRoles(doc);
    }
  }
}
