/** The Sphinx side: domains contribute directives and roles, named bare in
    the standard domain and `domain:name` everywhere else. */
module SphinxInfo {
  import opened Catalog
  import opened Text

  /** The domain whose names are emitted without a prefix. */
  const StdDomain: string := "std"

  /** A Sphinx domain: its name, its directive table (name to class, in
      iteration order) and its role names. */
  datatype Domain = Domain(name: string, directives: seq<(string, DirectiveClass)>, roles: seq<string>)

  /** The `genename` of a domain: the identity in the standard domain,
      `domname:x` in any other. */
  function GeneName(domname: string, x: string): string
  {
    if domname == StdDomain then x else domname + ":" + x
  }

  /** How a consumer reads a completion name back: a name without ':'
      belongs to the standard domain, otherwise the text before the first
      ':' is the domain. */
  function SplitName(s: string): (string, string)
  {
    var i := IndexOf(s, ':');
    if i == |s| then (StdDomain, s) else (s[..i], s[i + 1..])
  }

  /** The prefixed form names its domain unambiguously: reading a name back
      gives the domain and the bare name it was built from, provided the
      domain name has no ':' and a standard-domain name has none either. */
  lemma GeneNameSplit(domname: string, x: string)
    requires ':' !in domname
    requires domname == StdDomain ==> ':' !in x
    ensures SplitName(GeneName(domname, x)) == (domname, x)
  {
    if domname == StdDomain {
      IndexOfAfter(x, [], ':');
      assert x + [] == x;
    } else {
      var s := domname + ":" + x;
      assert s == domname + (":" + x);
      IndexOfAfter(domname, ":" + x, ':');
      assert s[..|domname|] == domname;
      assert s[|domname| + 1..] == x;
    }
  }

  /** Within one domain, distinct bare names stay distinct. */
  lemma GeneNameInjective(domname: string, x: string, y: string)
    requires GeneName(domname, x) == GeneName(domname, y)
    ensures x == y
  {
    if domname != StdDomain {
      assert x == GeneName(domname, x)[|domname| + 1..];
      assert y == GeneName(domname, y)[|domname| + 1..];
    }
  }

  /** A domain's directive table with every name passed through `genename`. */
  function Renamed(d: Domain): seq<(string, DirectiveClass)>
  {
    seq(|d.directives|, i requires 0 <= i < |d.directives| => (GeneName(d.name, d.directives[i].0), d.directives[i].1))
  }

  /** The records `_getinfo_domain` appends for one domain. */
  function DomainDirectives(d: Domain): seq<DirectiveSpec>
  {
    Entries(Renamed(d))
  }

  /** The role names `_getinfo_domain` appends for one domain. */
  function DomainRoles(d: Domain): seq<string>
  {
    seq(|d.roles|, i requires 0 <= i < |d.roles| => GeneName(d.name, d.roles[i]))
  }

  /** A directive and a role of the same domain that share a bare name are
      emitted under the same name. */
  lemma DomainNamingAgrees(d: Domain, i: nat, j: nat)
    requires i < |d.directives| && j < |d.roles|
    requires d.directives[i].0 == d.roles[j]
    ensures DomainDirectives(d)[i].directive == DomainRoles(d)[j]
  {
  }

  /** The records of every domain, one domain after the other. */
  function SphinxDirectives(ds: seq<Domain>): seq<DirectiveSpec>
  {
    if ds == [] then [] else SphinxDirectives(ds[..|ds| - 1]) + DomainDirectives(ds[|ds| - 1])
  }

  /** The role names of every domain, one domain after the other. */
  function SphinxRoles(ds: seq<Domain>): seq<string>
  {
    if ds == [] then [] else SphinxRoles(ds[..|ds| - 1]) + DomainRoles(ds[|ds| - 1])
  }

  lemma SphinxDirectivesSnoc(ds: seq<Domain>, d: Domain)
    ensures SphinxDirectives(ds + [d]) == SphinxDirectives(ds) + DomainDirectives(d)
  {
    assert (ds + [d])[..|ds|] == ds;
  }

  lemma {:induction false} SphinxDirectivesAppend(a: seq<Domain>, b: seq<Domain>)
    ensures SphinxDirectives(a + b) == SphinxDirectives(a) + SphinxDirectives(b)
    decreases |b|
  {
    if b == [] {
      assert a + b == a;
    } else {
      var b', d := b[..|b| - 1], b[|b| - 1];
      assert b == b' + [d];
      assert a + b == (a + b') + [d];
      SphinxDirectivesAppend(a, b');
      SphinxDirectivesSnoc(a + b', d);
      SphinxDirectivesSnoc(b', d);
    }
  }

  lemma SphinxRolesSnoc(ds: seq<Domain>, d: Domain)
    ensures SphinxRoles(ds + [d]) == SphinxRoles(ds) + DomainRoles(d)
  {
    assert (ds + [d])[..|ds|] == ds;
  }

  lemma {:induction false} SphinxRolesAppend(a: seq<Domain>, b: seq<Domain>)
    ensures SphinxRoles(a + b) == SphinxRoles(a) + SphinxRoles(b)
    decreases |b|
  {
    if b == [] {
      assert a + b == a;
    } else {
      var b', d := b[..|b| - 1], b[|b| - 1];
      assert b == b' + [d];
      assert a + b == (a + b') + [d];
      SphinxRolesAppend(a, b');
      SphinxRolesSnoc(a + b', d);
      SphinxRolesSnoc(b', d);
    }
  }

  lemma SphinxSingle(d: Domain)
    ensures SphinxDirectives([d]) == DomainDirectives(d)
    ensures SphinxRoles([d]) == DomainRoles(d)
  {
    assert [d][..0] == [];
  }

  /** The output is grouped by domain, in domain order: a domain's records
      come after those of the domains registered before it and before those
      of the domains registered after it. */
  lemma SphinxDirectivesGrouped(before: seq<Domain>, d: Domain, after: seq<Domain>)
    ensures SphinxDirectives(before + [d] + after) == SphinxDirectives(before) + DomainDirectives(d) + SphinxDirectives(after)
  {
    SphinxDirectivesAppend(before + [d], after);
    SphinxDirectivesAppend(before, [d]);
    SphinxSingle(d);
  }

  /** The same grouping for role names. */
  lemma SphinxRolesGrouped(before: seq<Domain>, d: Domain, after: seq<Domain>)
    ensures SphinxRoles(before + [d] + after) == SphinxRoles(before) + DomainRoles(d) + SphinxRoles(after)
  {
    SphinxRolesAppend(before + [d], after);
    SphinxRolesAppend(before, [d]);
    SphinxSingle(d);
  }

  /** `InfoGetterSphinx`: the shared directive and role lists plus the
      domains registered so far. */
  class InfoGetterSphinx {
    const info: InfoGetter
    var domains: seq<Domain>

    constructor ()
      ensures fresh(info)
      ensures info.directives == [] && info.roles == [] && domains == []
    {
      info := new InfoGetter();
      domains := [];
    }

    method AddDomain(domain: Domain)
      modifies this
      ensures domains == old(domains) + [domain]
    {
      domains := domains + [domain];
    }

    /** Appends the domain's directive records and its role names, both
        named by the domain's `genename`. */
    method GetinfoDomain(domain: Domain)
      modifies info
      ensures info.directives == old(info.directives) + DomainDirectives(domain)
      ensures info.roles == old(info.roles) + DomainRoles(domain)
    {
      var domname := domain.name;
      var i := 0;
      while i < |domain.directives|
        invariant 0 <= i <= |domain.directives|
        invariant info.directives == old(info.directives) + DomainDirectives(domain)[..i]
        invariant info.roles == old(info.roles)
      {
        var (dirname, cls) := domain.directives[i];
        info.AddDirective(GeneName(domname, dirname), cls);
        assert DomainDirectives(domain)[..i + 1] == DomainDirectives(domain)[..i] + [DomainDirectives(domain)[i]];
        i := i + 1;
      }
      info.roles := info.roles + DomainRoles(domain);
    }

    /** Processes the registered domains in the order they were added. */
    method GetInfo()
      modifies info
      ensures info.directives == old(info.directives) + SphinxDirectives(domains)
      ensures info.roles == old(info.roles) + SphinxRoles(domains)
    {
      var i := 0;
      while i < |domains|
        invariant 0 <= i <= |domains|
        invariant info.directives == old(info.directives) + SphinxDirectives(domains[..i])
        invariant info.roles == old(info.roles) + SphinxRoles(domains[..i])
      {
        GetinfoDomain(domains[i]);
        assert domains[..i + 1][..i] == domains[..i];
        i := i + 1;
      }
      assert domains[..|domains|] == domains;
    }
  }

  /** `get_sphinx_domain_directive_specs_and_roles`: registers the built-in
      domains in order and collects their directives and roles. */
  method GetSphinxDomainDirectiveSpecsAndRoles(builtinDomains: seq<Domain>)
    returns (directives: seq<DirectiveSpec>, roles: seq<string>)
    ensures directives == SphinxDirectives(builtinDomains)
    ensures roles == SphinxRoles(builtinDomains)
  {
    var ig := new InfoGetterSphinx();
    var i := 0;
    while i < |builtinDomains|
      invariant 0 <= i <= |builtinDomains|
      invariant ig.domains == builtinDomains[..i]
      invariant ig.info.directives == [] && ig.info.roles == []
    {
      ig.AddDomain(builtinDomains[i]);
      assert builtinDomains[..i + 1] == builtinDomains[..i] + [builtinDomains[i]];
      i := i + 1;
    }
    assert builtinDomains[..|builtinDomains|] == builtinDomains;
    ig.GetInfo();
    directives, roles := ig.info.directives, ig.info.roles;
  }
}
