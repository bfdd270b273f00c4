/** The actions of the XWiki extension grammar, run the way parboiled runs them: the node a rule
    pushes is created as soon as its identifier matches, parameters are appended to it one by
    one (addParameter) and text nodes are attached to it one by one (addAsChild). Each method runs
    one rule and is proved to produce what the corresponding pure rule function describes. */
module XWikiPegdownPluginActions {
  import opened PegdownChars
  import opened XWikiPegdownPlugin
  import opened SeqFacts

  /** A SuperscriptNode or SubscriptNode on the value stack, collecting its children. */
  class SuperNodeBuilder {
    var children: seq<Node>

    constructor ()
      ensures children == []
    {
      children := [];
    }

    /** addAsChild: the node on top of the value stack becomes the last child of this node. */
    method AddAsChild(n: Node)
      modifies this
      ensures children == old(children) + [n]
    {
      children := children + [n];
    }
  }

  /** A MacroNode on the value stack, collecting its parameters and its content. */
  class MacroNodeBuilder {
    const id: string
    const isInline: bool
    var parameters: seq<Parameter>
    var children: seq<Node>

    constructor (id: string, isInline: bool)
      ensures this.id == id && this.isInline == isInline
      ensures parameters == [] && children == []
    {
      this.id := id;
      this.isInline := isInline;
      parameters := [];
      children := [];
    }

    /** addParameter: appends one parameter, keeping the order of the source text. */
    method AddParameter(p: Parameter)
      modifies this
      ensures parameters == old(parameters) + [p] && children == old(children)
    {
      parameters := parameters + [p];
    }

    /** addAsChild: the node on top of the value stack becomes the last child of this node. */
    method AddAsChild(n: Node)
      modifies this
      ensures children == old(children) + [n] && parameters == old(parameters)
    {
      children := children + [n];
    }

    /** The AST node this builder currently stands for. */
    function ToNode(): Node
      reads this
    {
      Macro(id, isInline, parameters, children)
    }
  }

  // ---------------------------------------------------------------- parameters

  /** Reads as many parameters as match, each followed by the syntax's separator, adding each one
      to `node` as soon as it has matched. */
  method CollectParameters(s: seq<char>, i: nat, syntax: MacroSyntax, node: MacroNodeBuilder) returns (end: nat)
    requires i <= |s|
    modifies node
    ensures node.parameters == old(node.parameters) + Parameters(s, i, syntax).items
    ensures node.children == old(node.children)
    ensures end == Parameters(s, i, syntax).end
  {
    end := i;
    ghost var added: seq<Parameter> := [];
    AppendEmpty(Parameters(s, i, syntax).items);
    AppendEmpty(node.parameters);
    while true
      invariant i <= end <= |s|
      invariant node.parameters == old(node.parameters) + added
      invariant added + Parameters(s, end, syntax).items == Parameters(s, i, syntax).items
      invariant Parameters(s, end, syntax).end == Parameters(s, i, syntax).end
      invariant node.children == old(node.children)
      decreases |s| - end
    {
      var p := MacroParameter(s, end, syntax);
      if p.NoMatch? {
        ParametersStop(s, i, end, syntax, added);
        return;
      }
      var next := Separator(syntax, s, p.end);
      ParametersStep(s, i, end, syntax, added, p.value, next);
      AppendOne(old(node.parameters), added, p.value);
      node.AddParameter(p.value);
      added := added + [p.value];
      end := next;
    }
  }

  /** One iteration of the parameter loop: the parameter `p` matched at `j` moves from the rest to
      the parameters read so far, and the loop goes on at `next`. */
  lemma ParametersStep(s: seq<char>, i: nat, j: nat, syntax: MacroSyntax, added: seq<Parameter>, p: Parameter, next: nat)
    requires i <= j <= |s| && MacroParameter(s, j, syntax).Match?
    requires p == MacroParameter(s, j, syntax).value && next == Separator(syntax, s, MacroParameter(s, j, syntax).end)
    requires added + Parameters(s, j, syntax).items == Parameters(s, i, syntax).items
    requires Parameters(s, j, syntax).end == Parameters(s, i, syntax).end
    ensures j < next <= |s|
    ensures (added + [p]) + Parameters(s, next, syntax).items == Parameters(s, i, syntax).items
    ensures Parameters(s, next, syntax).end == Parameters(s, i, syntax).end
  {
    var rest := Parameters(s, next, syntax);
    assert Parameters(s, j, syntax) == Many([p] + rest.items, rest.end);
    Associative(added, [p], rest.items);
  }

  /** Where no parameter matches, the parameter loop ends: the parameters read so far are all of them. */
  lemma ParametersStop(s: seq<char>, i: nat, j: nat, syntax: MacroSyntax, added: seq<Parameter>)
    requires i <= j <= |s| && MacroParameter(s, j, syntax).NoMatch?
    requires added + Parameters(s, j, syntax).items == Parameters(s, i, syntax).items
    requires Parameters(s, j, syntax).end == Parameters(s, i, syntax).end
    ensures added == Parameters(s, i, syntax).items && j == Parameters(s, i, syntax).end
  {
    assert Parameters(s, j, syntax) == Many([], j);
    AppendEmpty(added);
  }

  // ---------------------------------------------------------------- superscript and subscript

  /** The content between two markers, attaching each content unit to a fresh
      formatting node as it is read. */
  method ScriptActions(s: seq<char>, i: nat, marker: char) returns (r: Parsed<seq<Node>>)
    requires i <= |s| && IsMarker(marker)
    ensures r == Script(s, i, marker)
  {
    if !(i < |s| && s[i] == marker) {
      return NoMatch;
    }
    var node := new SuperNodeBuilder();
    var j := i + 1;
    ghost var added: seq<Node> := [];
    AppendEmpty(ScriptUnits(s, j, marker).items);
    while UnitStartsAt(s, j, marker)
      invariant i + 1 <= j <= |s|
      invariant node.children == added
      invariant added + ScriptUnits(s, j, marker).items == ScriptUnits(s, i + 1, marker).items
      invariant ScriptUnits(s, j, marker).end == ScriptUnits(s, i + 1, marker).end
      decreases |s| - j
    {
      var w := UnitWidth(s, j);
      var unit := Text([s[j + w - 1]]);
      UnitStep(s, i + 1, j, w, marker, added, unit);
      node.AddAsChild(unit);
      added := added + [unit];
      j := j + w;
    }
    ScriptUnitsStop(s, i + 1, j, marker, added);
    ScriptIs(s, i, marker, node.children, j);
    if |node.children| > 0 && j < |s| && s[j] == marker {
      r := Match(node.children, j + 1);
    } else {
      r := NoMatch;
    }
  }

  /** One iteration of the content loop: the unit read at `j`, `w` characters wide, moves from the
      rest to the front. */
  lemma UnitStep(s: seq<char>, i: nat, j: nat, w: nat, marker: char, added: seq<Node>, unit: Node)
    requires i <= j < |s| && IsMarker(marker) && UnitStartsAt(s, j, marker)
    requires w == UnitWidth(s, j) && unit == Text([s[j + w - 1]])
    requires added + ScriptUnits(s, j, marker).items == ScriptUnits(s, i, marker).items
    requires ScriptUnits(s, j, marker).end == ScriptUnits(s, i, marker).end
    ensures (added + [unit]) + ScriptUnits(s, j + w, marker).items == ScriptUnits(s, i, marker).items
    ensures ScriptUnits(s, j + w, marker).end == ScriptUnits(s, i, marker).end
  {
    var rest := ScriptUnits(s, j + w, marker);
    assert ScriptUnits(s, j, marker) == Many([unit] + rest.items, rest.end);
    Associative(added, [unit], rest.items);
  }

  /** Where no unit starts, the content loop ends: the units read so far are all of them. */
  lemma ScriptUnitsStop(s: seq<char>, i: nat, j: nat, marker: char, added: seq<Node>)
    requires i <= j <= |s| && IsMarker(marker) && !UnitStartsAt(s, j, marker)
    requires added + ScriptUnits(s, j, marker).items == ScriptUnits(s, i, marker).items
    requires ScriptUnits(s, j, marker).end == ScriptUnits(s, i, marker).end
    ensures added == ScriptUnits(s, i, marker).items && j == ScriptUnits(s, i, marker).end
  {
    assert ScriptUnits(s, j, marker) == Many([], j);
    AppendEmpty(added);
  }

  /** Script once its content has been read: the closing marker decides. */
  lemma ScriptIs(s: seq<char>, i: nat, marker: char, children: seq<Node>, j: nat)
    requires i < |s| && s[i] == marker && IsMarker(marker)
    requires children == ScriptUnits(s, i + 1, marker).items && j == ScriptUnits(s, i + 1, marker).end
    ensures Script(s, i, marker) == if |children| > 0 && j < |s| && s[j] == marker then Match(children, j + 1) else NoMatch
  {
  }

  /** Superscript: pushes a SuperscriptNode and fills it. */
  method SuperscriptActions(s: seq<char>, i: nat) returns (r: Parsed<Node>)
    requires i <= |s|
    ensures r == SuperscriptRule(s, i)
  {
    var children := ScriptActions(s, i, '^');
    if children.NoMatch? {
      return NoMatch;
    }
    return Match(Superscript(children.value), children.end);
  }

  /** Subscript: pushes a SubscriptNode and fills it. */
  method SubscriptActions(s: seq<char>, i: nat) returns (r: Parsed<Node>)
    requires i <= |s|
    ensures r == SubscriptRule(s, i)
  {
    var children := ScriptActions(s, i, '~');
    if children.NoMatch? {
      return NoMatch;
    }
    return Match(Subscript(children.value), children.end);
  }

  /** XWikiMacro with its actions: the MacroNode is pushed once the identifier has matched, the
      parameters are added as they are read, and the content text node is attached before the
      close tag is looked for (a missing close tag makes the whole rule fail, so the node is dropped). */
  method XWikiMacroActions(s: seq<char>, i: nat) returns (r: Parsed<Node>)
    requires i <= |s|
    ensures r == XWikiMacro(s, i)
  {
    if !LiteralAt(s, i, "{{") {
      assert XWikiMacro(s, i) == NoMatch;
      return NoMatch;
    }
    var name := Identifier(s, i + 2);
    if name.NoMatch? {
      assert XWikiMacro(s, i) == NoMatch;
      return NoMatch;
    }
    var node := new MacroNodeBuilder(name.value, false);
    var e := CollectParameters(s, Spn1(s, name.end), XWikiSyntax, node);
    OpenTagIs(s, i);
    assert node.parameters == Parameters(s, Spn1(s, name.end), XWikiSyntax).items;
    if LiteralAt(s, e, "/}}") {
      assert XWikiMacro(s, i) == Match(node.ToNode(), e + 3);
      return Match(node.ToNode(), e + 3);
    }
    if !LiteralAt(s, e, "}}") {
      assert XWikiMacro(s, i) == NoMatch;
      return NoMatch;
    }
    var c := XWikiContentStart(s, e);
    ghost var o := XWikiOpenTag(s, i);
    assert o.end == e && o.value.id == node.id && o.value.parameters == node.parameters;
    var j := ContentActions(s, c, node.id);
    var content := Text(s[c..j]);
    node.AddAsChild(content);
    assert node.children == [content];
    var close := CloseTag(s, j, node.id);
    if close.NoMatch? {
      assert XWikiMacro(s, i) == NoMatch;
      return NoMatch;
    }
    assert XWikiMacro(s, i) == Match(node.ToNode(), close.end);
    return Match(node.ToNode(), close.end);
  }

  /** Advances over the content of an XWiki macro one character at a time, stopping where a close
      tag for `id` matches or at the end of the input. */
  method ContentActions(s: seq<char>, c: nat, id: string) returns (j: nat)
    requires c <= |s|
    ensures j == ContentEnd(s, c, id)
  {
    j := c;
    while j < |s| && CloseTag(s, j, id).NoMatch?
      invariant c <= j <= |s|
      invariant ContentEnd(s, j, id) == ContentEnd(s, c, id)
      decreases |s| - j
    {
      ContentEndStep(s, j, id);
      j := j + 1;
    }
    ContentEndStop(s, j, id);
  }

  lemma ContentEndStep(s: seq<char>, j: nat, id: string)
    requires j < |s| && CloseTag(s, j, id).NoMatch?
    ensures ContentEnd(s, j, id) == ContentEnd(s, j + 1, id)
  {
  }

  lemma ContentEndStop(s: seq<char>, j: nat, id: string)
    requires j <= |s| && (j == |s| || CloseTag(s, j, id).Match?)
    ensures ContentEnd(s, j, id) == j
  {
  }

  /** The open tag of an XWiki macro, and how the macro goes on from its end. */
  lemma OpenTagIs(s: seq<char>, i: nat)
    requires LiteralAt(s, i, "{{") && Identifier(s, i + 2).Match?
    ensures var name := Identifier(s, i + 2);
            var ps := Parameters(s, Spn1(s, name.end), XWikiSyntax);
            var o := XWikiOpenTag(s, i);
            o == Match(Head(name.value, ps.items), ps.end) &&
            XWikiMacro(s, i) ==
              if LiteralAt(s, o.end, "/}}") then Match(Macro(o.value.id, false, o.value.parameters, []), o.end + 3)
              else if LiteralAt(s, o.end, "}}") then
                var c := XWikiContentStart(s, o.end);
                var j := ContentEnd(s, c, o.value.id);
                var close := CloseTag(s, j, o.value.id);
                if close.NoMatch? then NoMatch
                else Match(Macro(o.value.id, false, o.value.parameters, [Text(s[c..j])]), close.end)
              else NoMatch
  {
  }
  // ---------------------------------------------------------------- Markdown-style macro, as written

  /** MarkdownMacro with its actions in the order the source gives them: the body's text node is
      attached to the MacroNode as soon as the body characters have been read, before the closing
      ')' is looked for. When that ')' is missing the Optional fails and the input position goes
      back to just after ']', but the attached child is not taken back. */
  function MarkdownMacroAsWritten(s: seq<char>, i: nat, isInline: bool): (r: Parsed<Node>)
    requires i <= |s|
    ensures r.Match? <==> MarkdownMacroHead(s, i).Match?
  {
    var h := MarkdownMacroHead(s, i);
    if h.NoMatch? then NoMatch
    else WithBody(s, h.end, Macro(h.value.id, isInline, h.value.parameters, []))
  }

  /** The optional body `'(' text ')'` read at `e` on behalf of `m`, as written: the text becomes
      the last child of `m` as soon as it is read; the match ends after ')' if there is one and
      stays at `e` otherwise. */
  function WithBody(s: seq<char>, e: nat, m: Node): (r: Parsed<Node>)
    requires e <= |s| && m.Macro?
    ensures r.Match? && r.value.Macro? && e <= r.end <= |s|
    ensures r.value.id == m.id && r.value.isInline == m.isInline && r.value.parameters == m.parameters
    ensures BodyText(s, e).NoMatch? ==> r == Match(m, e)
    ensures BodyText(s, e).Match? ==> r.value.children == m.children + [Text(BodyText(s, e).value)]
    ensures BodyText(s, e).Match? ==> (r.end == e <==> BodyText(s, e).end == |s|)
  {
    var body := BodyText(s, e);
    if body.NoMatch? then Match(m, e)
    else
      var n := m.(children := m.children + [Text(body.value)]);
      if body.end < |s| then Match(n, body.end + 1) else Match(n, e)
  }

  /** The rule with its actions, run step by step on a MacroNode. */
  method MarkdownMacroActions(s: seq<char>, i: nat, isInline: bool) returns (r: Parsed<Node>)
    requires i <= |s|
    ensures r == MarkdownMacroAsWritten(s, i, isInline)
  {
    if !LiteralAt(s, i, "#[") {
      return NoMatch;
    }
    var name := Identifier(s, i + 2);
    if name.NoMatch? {
      assert MarkdownMacroHead(s, i).NoMatch?;
      return NoMatch;
    }
    var node := new MacroNodeBuilder(name.value, isInline);
    var e := CollectParameters(s, Sp(s, name.end), MarkdownSyntax, node);
    AppendEmpty(Parameters(s, Sp(s, name.end), MarkdownSyntax).items);
    AsWrittenIs(s, i, isInline);
    if !(e < |s| && s[e] == ']') {
      return NoMatch;
    }
    ghost var m := node.ToNode();
    assert m == Macro(name.value, isInline, Parameters(s, Sp(s, name.end), MarkdownSyntax).items, []);
    r := AttachBody(s, e + 1, node, m);
  }

  /** The body part of the rule: reads the body text, attaches it to `node` at once, then looks
      for the closing ')'. */
  method AttachBody(s: seq<char>, e: nat, node: MacroNodeBuilder, ghost m: Node) returns (r: Parsed<Node>)
    requires e <= |s| && m == node.ToNode()
    modifies node
    ensures r == WithBody(s, e, m)
    ensures node.parameters == old(node.parameters)
  {
    var body := BodyText(s, e);
    if body.NoMatch? {
      return Match(node.ToNode(), e);
    }
    node.AddAsChild(Text(body.value));
    if body.end < |s| {
      // the closing ')' is there
      return Match(node.ToNode(), body.end + 1);
    }
    // the Optional fails: the position goes back to just after ']', the child stays
    return Match(node.ToNode(), e);
  }

  /** The rule as written in terms of the parts of its head. */
  lemma AsWrittenIs(s: seq<char>, i: nat, isInline: bool)
    requires LiteralAt(s, i, "#[") && Identifier(s, i + 2).Match?
    ensures var name := Identifier(s, i + 2);
            var ps := Parameters(s, Sp(s, name.end), MarkdownSyntax);
            MarkdownMacroAsWritten(s, i, isInline) ==
              if ps.end < |s| && s[ps.end] == ']' then WithBody(s, ps.end + 1, Macro(name.value, isInline, ps.items, []))
              else NoMatch
  {
    var name := Identifier(s, i + 2);
    var ps := Parameters(s, Sp(s, name.end), MarkdownSyntax);
    var h := MarkdownMacroHead(s, i);
    if ps.end < |s| && s[ps.end] == ']' {
      assert h == Match(Head(name.value, ps.items), ps.end + 1);
    } else {
      assert h.NoMatch?;
    }
  }

  /** The corrected body in terms of the body text: it needs the closing ')'. */
  lemma MacroBodyFromText(s: seq<char>, e: nat)
    requires e <= |s|
    ensures var t := BodyText(s, e);
            MacroBody(s, e) == if t.Match? && t.end < |s| then Match(t.value, t.end + 1) else NoMatch
  {
  }

  /** Whenever the body is closed by ')', or there is no body, the rule as written and the
      corrected rule agree. */
  lemma MarkdownMacroAsWrittenAgrees(s: seq<char>, i: nat, isInline: bool)
    requires i <= |s| && MarkdownMacroHead(s, i).Match?
    requires var b := BodyText(s, MarkdownMacroHead(s, i).end); b.NoMatch? || b.end < |s|
    ensures MarkdownMacroAsWritten(s, i, isInline) == MarkdownMacro(s, i, isInline)
  {
    var h := MarkdownMacroHead(s, i);
    MacroBodyFromText(s, h.end);
    var m := Macro(h.value.id, isInline, h.value.parameters, []);
    assert MarkdownMacroAsWritten(s, i, isInline) == WithBody(s, h.end, m);
    var b := MacroBody(s, h.end);
    assert MarkdownMacro(s, i, isInline) ==
      if b.NoMatch? then Match(m, h.end) else Match(m.(children := [Text(b.value)]), b.end);
    var t := BodyText(s, h.end);
    if t.Match? {
      AppendEmpty([Text(t.value)]);
      assert WithBody(s, h.end, m) == Match(m.(children := [Text(t.value)]), t.end + 1);
    }
  }

  /** They disagree exactly when a body is opened and never closed: the rule as written keeps the
      unclosed body as content although the matched input ends at ']'. */
  lemma MarkdownMacroAsWrittenDiffers(s: seq<char>, i: nat, isInline: bool)
    requires i <= |s| && MarkdownMacroHead(s, i).Match?
    requires var b := BodyText(s, MarkdownMacroHead(s, i).end); b.Match? && b.end == |s|
    ensures var h := MarkdownMacroHead(s, i);
            var b := BodyText(s, h.end);
            MarkdownMacroAsWritten(s, i, isInline) == Match(Macro(h.value.id, isInline, h.value.parameters, [Text(b.value)]), h.end) &&
            MarkdownMacro(s, i, isInline) == Match(Macro(h.value.id, isInline, h.value.parameters, []), h.end)
  {
    var h := MarkdownMacroHead(s, i);
    MacroBodyFromText(s, h.end);
    var m := Macro(h.value.id, isInline, h.value.parameters, []);
    assert MarkdownMacroAsWritten(s, i, isInline) == WithBody(s, h.end, m);
    assert MacroBody(s, h.end).NoMatch?;
    assert MarkdownMacro(s, i, isInline) == Match(m, h.end);
    var t := BodyText(s, h.end);
    AppendEmpty([Text(t.value)]);
    assert WithBody(s, h.end, m) == Match(m.(children := [Text(t.value)]), h.end);
  }

  /** A macro's body text lies inside the input the corrected rule consumed: it is the text
      between the '(' and the ')' that end the match. */
  lemma MarkdownMacroBodyConsumed(s: seq<char>, i: nat, isInline: bool)
    requires i <= |s| && MarkdownMacro(s, i, isInline).Match?
    requires MarkdownMacro(s, i, isInline).value.children != []
    ensures var r := MarkdownMacro(s, i, isInline);
            |r.value.children| == 1 && r.value.children[0].Text? &&
            var t := r.value.children[0].text;
            i + |t| + 2 <= r.end && s[r.end - |t| - 2..r.end] == ['('] + t + [')']
  {
    var r := MarkdownMacro(s, i, isInline);
    var h := MarkdownMacroHead(s, i);
    assert h.Match?;
    var b := MacroBody(s, h.end);
    assert b.Match? && r.value.children == [Text(b.value)] && r.end == b.end;
    MacroBodyBracketed(s, h.end);
  }

  /** A matched body is the text between its '(' and the ')' that ends it. */
  lemma MacroBodyBracketed(s: seq<char>, e: nat)
    requires e <= |s| && MacroBody(s, e).Match?
    ensures var b := MacroBody(s, e);
            e + |b.value| + 2 == b.end && s[b.end - |b.value| - 2..b.end] == ['('] + b.value + [')']
  {
    var b := MacroBody(s, e);
    Bracketed(s, e, b.end, '(', b.value, ')');
  }

  /** `#[m](abc`: the rule as written builds a macro whose content is "abc" while the match ends
      after `#[m]`, so "(abc" is read twice; the corrected rule gives the macro no content. */
  lemma UnclosedBodyExample()
    ensures MarkdownMacroAsWritten("#[m](abc", 0, true) == Match(Macro("m", true, [], [Text("abc")]), 4)
    ensures MarkdownMacro("#[m](abc", 0, true) == Match(Macro("m", true, [], []), 4)
  {
    var s := "#[m](abc";
    assert s[0..2] == "#[" && s[2..3] == "m" && s[5..8] == "abc";
    SpanIs(s, 2, 3, IsIdentifierChar);
    SpanIs(s, 3, 3, IsSpacechar);
    assert Identifier(s, 2) == Match("m", 3);
    assert Identifier(s, 3).NoMatch?;
    assert Parameters(s, 3, MarkdownSyntax) == Many([], 3);
    assert MarkdownMacroHead(s, 0) == Match(Head("m", []), 4);
    var b := BodyText(s, 4);
    assert b.end == 8 by {
      assert s[5] != ')' && s[6] != ')' && s[7] != ')';
    }
    assert b == Match("abc", 8);
    AppendEmpty([Text("abc")]);
    assert WithBody(s, 4, Macro("m", true, [], [])) == Match(Macro("m", true, [], [Text("abc")]), 4);
    assert ')' !in s[5..];
    assert MacroBody(s, 4).NoMatch?;
  }
}
