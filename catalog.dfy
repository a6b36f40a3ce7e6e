/** The catalog entries shared by both toolchains, and the base `InfoGetter`
    object that accumulates them. */
module Catalog {
  import opened Wrappers

  /** A directive class as the catalog sees it: its `option_spec`, which is
      either absent (None) or a dictionary given by its keys in iteration
      order.  The validators the dictionary maps to play no part. */
  datatype DirectiveClass = DirectiveClass(optionSpec: Option<seq<string>>)

  /** One `{'directive': ..., 'option': [...]}` record. */
  datatype DirectiveSpec = DirectiveSpec(directive: string, option: seq<string>)

  /** What the template is rendered from: `directive_specs` and `roles`. */
  datatype Catalog = Catalog(directives: seq<DirectiveSpec>, roles: seq<string>)

  /** The errors `genesource.py` raises while collecting the catalog. */
  datatype Error =
    | NoSuchModule(directive: string, modname: string)                  // AttributeError on the sub-module
    | NoSuchClass(directive: string, modname: string, clsname: string)  // AttributeError on the class
    | NoSuchRole(alias: string, canonical: string)                      // KeyError in the role table

  /** The option keys of a class: none when it declares no option spec or
      an empty one, otherwise the spec's keys in order. */
  function OptionKeys(cls: DirectiveClass): (keys: seq<string>)
    ensures keys == [] <==> cls.optionSpec == None || cls.optionSpec == Some([])
    ensures cls.optionSpec.Some? ==> keys == cls.optionSpec.value
  {
    match cls.optionSpec
    case None => []
    case Some(keys) => keys
  }

  /** The records of a directive-name-to-class table, in table order: one
      record per entry, its name and its class's option keys.  Every record
      in the catalog is built by this rule. */
  function Entries(table: seq<(string, DirectiveClass)>): seq<DirectiveSpec>
  {
    seq(|table|, i requires 0 <= i < |table| => DirectiveSpec(table[i].0, OptionKeys(table[i].1)))
  }

  /** The state every info getter shares: the directive records and the
      role names collected so far. */
  class InfoGetter {
    var directives: seq<DirectiveSpec>
    var roles: seq<string>

    constructor ()
      ensures directives == [] && roles == []
    {
      directives := [];
      roles := [];
    }

    /** Appends one record for `dirname`, listing the keys of the class's
        option spec; nothing else changes. */
    method AddDirective(dirname: string, cls: DirectiveClass)
      modifies this
      ensures directives == old(directives) + [DirectiveSpec(dirname, OptionKeys(cls))]
      ensures roles == old(roles)
    {
      directives := directives + [DirectiveSpec(dirname, OptionKeys(cls))];
    }
  }
}
