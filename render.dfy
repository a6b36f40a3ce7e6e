/** The Emacs Lisp template, written out as string building: two candidate
    functions and one `puthash` per directive.  Names are inserted as they
    are, without escaping. */
module RenderLisp {
  import opened Wrappers
  import opened Catalog
  import opened Text

  /** The text before the directive candidates (the template starts with a
      newline). */
  const DirectivesHead: string := "\n(defun auto-complete-rst-directives-candidates ()\n  '("

  /** The text between the directive candidates and the role candidates. */
  const RolesHead: string := "))\n\n(defun auto-complete-rst-roles-candidates ()\n  '("

  /** The text after the role candidates.  The template's final newline is
      dropped by the template engine, so the text ends here or with the last
      `puthash` form. */
  const RolesTail: string := "))\n\n"

  /** `{% for item in items %}"{{ item }}<suffix>" {% endfor %}` */
  function Quoted(items: seq<string>, suffix: string): string
  {
    if items == [] then "" else "\"" + items[0] + suffix + "\" " + Quoted(items[1..], suffix)
  }

  /** The directive names of a list of records. */
  function Names(specs: seq<DirectiveSpec>): seq<string>
  {
    seq(|specs|, i requires 0 <= i < |specs| => specs[i].directive)
  }

  lemma NamesAppend(a: seq<DirectiveSpec>, b: seq<DirectiveSpec>)
    ensures Names(a + b) == Names(a) + Names(b)
  {
  }

  /** The option-table statement of one directive. */
  function Puthash(spec: DirectiveSpec): string
  {
    "(puthash \"" + spec.directive + "\"\n         '(" + Quoted(spec.option, ":")
      + ")\n         auto-complete-rst-directive-options-map)\n"
  }

  /** One `puthash` per directive, in catalog order. */
  function PuthashForms(specs: seq<DirectiveSpec>): string
  {
    if specs == [] then "" else Puthash(specs[0]) + PuthashForms(specs[1..])
  }

  /** `TEMP_SOURCE` rendered with `directive_specs` and `roles`. */
  function Render(c: Catalog): string
  {
    DirectivesHead + Quoted(Names(c.directives), "::") + RolesHead + Quoted(c.roles, ":") + RolesTail
      + PuthashForms(c.directives)
  }

  lemma {:induction false} QuotedAppend(a: seq<string>, b: seq<string>, suffix: string)
    ensures Quoted(a + b, suffix) == Quoted(a, suffix) + Quoted(b, suffix)
    decreases |a|
  {
    if a == [] {
      assert a + b == b;
    } else {
      assert (a + b)[1..] == a[1..] + b;
      QuotedAppend(a[1..], b, suffix);
    }
  }

  lemma {:induction false} PuthashFormsAppend(a: seq<DirectiveSpec>, b: seq<DirectiveSpec>)
    ensures PuthashForms(a + b) == PuthashForms(a) + PuthashForms(b)
    decreases |a|
  {
    if a == [] {
      assert a + b == b;
    } else {
      assert (a + b)[1..] == a[1..] + b;
      PuthashFormsAppend(a[1..], b);
    }
  }

  /** Rendering keeps the catalog's order in every region and drops nothing:
      the rendering of a concatenated catalog lists the first part's names,
      then the second's, in each candidate list and in the option tables. */
  lemma RenderConcat(d1: seq<DirectiveSpec>, d2: seq<DirectiveSpec>, r1: seq<string>, r2: seq<string>)
    ensures Render(Catalog(d1 + d2, r1 + r2))
         == DirectivesHead + Quoted(Names(d1), "::") + Quoted(Names(d2), "::")
          + RolesHead + Quoted(r1, ":") + Quoted(r2, ":") + RolesTail
          + PuthashForms(d1) + PuthashForms(d2)
  {
    var n1, n2 := Quoted(Names(d1), "::"), Quoted(Names(d2), "::");
    var q1, q2 := Quoted(r1, ":"), Quoted(r2, ":");
    var p1, p2 := PuthashForms(d1), PuthashForms(d2);
    NamesAppend(d1, d2);
    QuotedAppend(Names(d1), Names(d2), "::");
    QuotedAppend(r1, r2, ":");
    PuthashFormsAppend(d1, d2);
    assert Render(Catalog(d1 + d2, r1 + r2))
        == DirectivesHead + (n1 + n2) + RolesHead + (q1 + q2) + RolesTail + (p1 + p2);
    Regroup(DirectivesHead, n1, n2, RolesHead, q1, q2, RolesTail, p1, p2);
  }

  /** Re-association of the nine pieces of a rendering.  Regroup and
      SeqAssoc are steps of RenderConcat, kept apart so that each proof
      obligation stays small. */
  lemma Regroup(h: string, n1: string, n2: string, rh: string, q1: string, q2: string,
                rt: string, p1: string, p2: string)
    ensures h + (n1 + n2) + rh + (q1 + q2) + rt + (p1 + p2) == h + n1 + n2 + rh + q1 + q2 + rt + p1 + p2
  {
    SeqAssoc(h, n1, n2);
    SeqAssoc(h + n1 + n2 + rh, q1, q2);
    SeqAssoc(h + n1 + n2 + rh + q1 + q2 + rt, p1, p2);
  }

  lemma SeqAssoc(x: string, a: string, b: string)
    ensures x + (a + b) == x + a + b
  {
  }

  // ----- Reading a candidate list back -----

  /** A reader of candidate lists in which only '"' is special: a run of
      `"<name><suffix>" ` literals, each name read up to the next '"'.  It
      does not process the backslash escapes of the Emacs Lisp reader. */
  function Unquote(s: string, suffix: string): Option<seq<string>>
    decreases |s|
  {
    if s == [] then Some([])
    else if s[0] != '"' then None
    else
      var body := s[1..];
      var close := IndexOf(body, '"');
      if close + 1 >= |body| || body[close + 1] != ' ' then None
      else
        var item := body[..close];
        if |item| < |suffix| || item[|item| - |suffix|..] != suffix then None
        else
          match Unquote(body[close + 2..], suffix)
          case None => None
          case Some(rest) => Some([item[..|item| - |suffix|]] + rest)
  }

  /** Reading one literal off the front of a list. */
  lemma UnquoteOne(x: string, suffix: string, tail: string)
    requires '"' !in x && '"' !in suffix
    ensures Unquote("\"" + x + suffix + "\" " + tail, suffix)
         == match Unquote(tail, suffix) case None => None case Some(rest) => Some([x] + rest)
  {
    var word := x + suffix;
    var s := "\"" + x + suffix + "\" " + tail;
    var body := word + ("\" " + tail);
    assert s[1..] == body;
    IndexOfAfter(word, "\" " + tail, '"');
    assert IndexOf(body, '"') == |word|;
    assert body[..|word|] == word;
    assert body[|word| + 1] == ' ';
    assert body[|word| + 2..] == tail;
    assert word[|word| - |suffix|..] == suffix;
    assert word[..|word| - |suffix|] == x;
  }

  /** A candidate list reads back through `Unquote` as exactly the names it
      was rendered from, in order, duplicates included, provided no name
      contains '"'. */
  lemma {:induction false} UnquoteQuoted(items: seq<string>, suffix: string)
    requires '"' !in suffix
    requires forall i :: 0 <= i < |items| ==> '"' !in items[i]
    ensures Unquote(Quoted(items, suffix), suffix) == Some(items)
    decreases |items|
  {
    if items != [] {
      UnquoteQuoted(items[1..], suffix);
      UnquoteOne(items[0], suffix, Quoted(items[1..], suffix));
      assert [items[0]] + items[1..] == items;
    }
  }

  /** Without that proviso the output is ambiguous: a role named
      `x:" "y` renders exactly like the two roles `x` and `y`. */
  lemma QuoteInNameCollides()
    ensures Quoted(["x:\" \"y"], ":") == Quoted(["x", "y"], ":")
  {
    assert Quoted(["y"], ":") == "\"y:\" ";
    assert Quoted(["x", "y"], ":") == "\"x:\" " + Quoted(["y"], ":");
  }
}
