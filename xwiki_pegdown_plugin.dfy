/** The XWiki extension grammar for pegdown: superscript, subscript, the Markdown-style
    macro `#[id params](body)` and the XWiki-style macro `{{id params}}content{{/id}}`.

    Each parboiled rule is a total function of the input and a start position. It returns
    NoMatch, or Match(value, end) where `end` is the position after the consumed input and
    `value` is the AST fragment the rule's actions push. Backtracking is implicit: a rule that
    does not match has no effect. */
module XWikiPegdownPlugin {
  import opened PegdownChars
  import opened SeqFacts

  /** MacroParameterNode: a `name=value` pair. */
  datatype Parameter = Parameter(name: string, value: string)

  /** The AST fragments built by the extension rules (TextNode, SuperscriptNode, SubscriptNode,
      MacroNode). A MacroNode's children hold its content. */
  datatype Node =
    | Text(text: string)
    | Superscript(children: seq<Node>)
    | Subscript(children: seq<Node>)
    | Macro(id: string, isInline: bool, parameters: seq<Parameter>, children: seq<Node>)

  /** The outcome of applying a rule at a position. */
  datatype Parsed<T> = NoMatch | Match(value: T, end: nat)

  /** The outcome of a repetition that always succeeds, possibly having matched nothing. */
  datatype Many<T> = Many(items: seq<T>, end: nat)

  /** The part of a macro up to the end of its parameter list. */
  datatype Head = Head(id: string, parameters: seq<Parameter>)

  /** The spacing rule a macro syntax uses around `=` and after each parameter. */
  datatype MacroSyntax = MarkdownSyntax | XWikiSyntax

  // ---------------------------------------------------------------- identifiers

  predicate IsIdentifier(id: string)
  {
    |id| > 0 && forall k :: 0 <= k < |id| ==> IsIdentifierChar(id[k])
  }

  /** A macro id or parameter name: one or more letters, digits, hyphens or underscores. */
  function Identifier(s: seq<char>, i: nat): (r: Parsed<string>)
    requires i <= |s|
    ensures r.NoMatch? <==> i == |s| || !IsIdentifierChar(s[i])
    ensures r.Match? ==> i < r.end <= |s| && r.end == i + |r.value| && r.value == s[i..r.end] && IsIdentifier(r.value)
    ensures r.Match? ==> r.end == |s| || !IsIdentifierChar(s[r.end])
  {
    var j := Span(s, i, IsIdentifierChar);
    if j == i then NoMatch else Match(s[i..j], j)
  }

  // ---------------------------------------------------------------- superscript and subscript

  /** The two markers: '^' for superscript, '~' for subscript. */
  predicate IsMarker(c: char) { c == '^' || c == '~' }

  /** A content unit: a one-character text node holding neither the marker nor a line break. */
  predicate IsScriptUnit(n: Node, marker: char)
  {
    n.Text? && |n.text| == 1 && n.text[0] != marker && !IsNewlineChar(n.text[0])
  }

  /** The concatenated text of the text nodes in `ns`. */
  function TextOf(ns: seq<Node>): string
  {
    if ns == [] then [] else (if ns[0].Text? then ns[0].text else []) + TextOf(ns[1..])
  }

  /** How a content character is written: a blank or tab needs a backslash in front of it. */
  function EscapeChar(c: char): seq<char>
  {
    if IsSpacechar(c) then ['\\', c] else [c]
  }

  /** How superscript or subscript content is written between its markers. */
  function Escape(t: string): seq<char>
  {
    if t == [] then [] else EscapeChar(t[0]) + Escape(t[1..])
  }

  /** Where a content unit can start: anything but the marker, a blank or a line break
      (a backslash is itself a Nonspacechar, so the escape case is included). */
  predicate UnitStartsAt(s: seq<char>, j: nat, marker: char)
  {
    j < |s| && s[j] != marker && IsNonspacechar(s[j])
  }

  /** The content between two markers, read greedily one unit at a time: any character other than
      the marker that is not blank, or a backslash followed by a blank. Each unit becomes a text node
      holding only the matched character (the backslash of an escape is dropped). */
  function ScriptUnits(s: seq<char>, i: nat, marker: char): (r: Many<Node>)
    requires i <= |s| && IsMarker(marker)
    ensures i <= r.end <= |s|
    ensures forall k :: 0 <= k < |r.items| ==> IsScriptUnit(r.items[k], marker)
    ensures !UnitStartsAt(s, r.end, marker)
    ensures r.items == [] <==> !UnitStartsAt(s, i, marker)
    decreases |s| - i
  {
    if i < |s| && s[i] != marker then
      if s[i] == '\\' && i + 1 < |s| && IsSpacechar(s[i + 1]) then
        var rest := ScriptUnits(s, i + 2, marker);
        Many([Text([s[i + 1]])] + rest.items, rest.end)
      else if IsNonspacechar(s[i]) then
        var rest := ScriptUnits(s, i + 1, marker);
        Many([Text([s[i]])] + rest.items, rest.end)
      else
        Many([], i)
    else
      Many([], i)
  }

  lemma EscapeCons(c: char, t: string)
    ensures Escape([c] + t) == EscapeChar(c) + Escape(t)
  {
    assert ([c] + t)[1..] == t;
  }

  lemma TextOfCons(c: char, ns: seq<Node>)
    ensures TextOf([Text([c])] + ns) == [c] + TextOf(ns)
  {
    assert ([Text([c])] + ns)[1..] == ns;
  }

  /** How many input characters the content unit at `j` takes: two for an escaped blank, else one.
      The unit's text is the last of them. */
  function UnitWidth(s: seq<char>, j: nat): (w: nat)
    requires j < |s|
    ensures 1 <= w <= 2 && j + w <= |s|
    ensures w == 2 <==> s[j] == '\\' && j + 1 < |s| && IsSpacechar(s[j + 1])
  {
    if s[j] == '\\' && j + 1 < |s| && IsSpacechar(s[j + 1]) then 2 else 1
  }

  /** One unit of the content: where a unit starts, ScriptUnits reads a `w`-character unit and goes on. */
  lemma ScriptUnitsCons(s: seq<char>, i: nat, marker: char)
    requires i <= |s| && IsMarker(marker) && UnitStartsAt(s, i, marker)
    ensures var w := UnitWidth(s, i);
            var rest := ScriptUnits(s, i + w, marker);
            ScriptUnits(s, i, marker) == Many([Text([s[i + w - 1]])] + rest.items, rest.end)
  {
  }

  /** Writing the content units back out, with an escaping backslash in front of each blank,
      gives back exactly the input they were parsed from. */
  lemma {:induction false} ScriptUnitsReprint(s: seq<char>, i: nat, marker: char)
    requires i <= |s| && IsMarker(marker)
    ensures Escape(TextOf(ScriptUnits(s, i, marker).items)) == s[i..ScriptUnits(s, i, marker).end]
    decreases |s| - i
  {
    if UnitStartsAt(s, i, marker) {
      var w := UnitWidth(s, i);
      ScriptUnitsReprint(s, i + w, marker);
      ScriptUnitsCons(s, i, marker);
      ReprintStep(s, i, w, marker);
    } else {
      assert ScriptUnits(s, i, marker) == Many([], i);
    }
  }

  /** One step of ScriptUnitsReprint: a unit of `w` input characters followed by the rest. */
  lemma ReprintStep(s: seq<char>, i: nat, w: nat, marker: char)
    requires i <= |s| && IsMarker(marker) && UnitStartsAt(s, i, marker) && w == UnitWidth(s, i)
    requires var rest := ScriptUnits(s, i + w, marker);
             ScriptUnits(s, i, marker) == Many([Text([s[i + w - 1]])] + rest.items, rest.end)
    requires Escape(TextOf(ScriptUnits(s, i + w, marker).items)) == s[i + w..ScriptUnits(s, i + w, marker).end]
    ensures Escape(TextOf(ScriptUnits(s, i, marker).items)) == s[i..ScriptUnits(s, i, marker).end]
  {
    var c := s[i + w - 1];
    var rest := ScriptUnits(s, i + w, marker);
    assert EscapeChar(c) == s[i..i + w];
    TextOfCons(c, rest.items);
    EscapeCons(c, TextOf(rest.items));
    SliceConcat(s, i, i + w, rest.end);
  }

  /** A marker, the content units, then the marker again: the children of the formatting node. */
  function Script(s: seq<char>, i: nat, marker: char): (r: Parsed<seq<Node>>)
    requires i <= |s| && IsMarker(marker)
    ensures r.Match? ==> i + 3 <= r.end <= |s| && s[i] == marker && s[r.end - 1] == marker
    ensures r.Match? ==> |r.value| > 0 && forall k :: 0 <= k < |r.value| ==> IsScriptUnit(r.value[k], marker)
    ensures i + 1 < |s| && s[i] == marker && !UnitStartsAt(s, i + 1, marker) ==> r.NoMatch?
    ensures r.Match? ==> r.value == ScriptUnits(s, i + 1, marker).items && r.end == ScriptUnits(s, i + 1, marker).end + 1
    ensures i < |s| && s[i] == marker ==>
              var u := ScriptUnits(s, i + 1, marker);
              (r.Match? <==> |u.items| > 0 && u.end < |s| && s[u.end] == marker)
  {
    if i < |s| && s[i] == marker then
      var u := ScriptUnits(s, i + 1, marker);
      if |u.items| > 0 && u.end < |s| && s[u.end] == marker then Match(u.items, u.end + 1) else NoMatch
    else
      NoMatch
  }

  /** Superscript: `^content^`. */
  function SuperscriptRule(s: seq<char>, i: nat): (r: Parsed<Node>)
    requires i <= |s|
    ensures r.Match? <==> Script(s, i, '^').Match?
    ensures r.Match? ==> r.value == Superscript(Script(s, i, '^').value) && r.end == Script(s, i, '^').end
  {
    var r := Script(s, i, '^');
    if r.NoMatch? then NoMatch else Match(Superscript(r.value), r.end)
  }

  /** Subscript: `~content~`. */
  function SubscriptRule(s: seq<char>, i: nat): (r: Parsed<Node>)
    requires i <= |s|
    ensures r.Match? <==> Script(s, i, '~').Match?
    ensures r.Match? ==> r.value == Subscript(Script(s, i, '~').value) && r.end == Script(s, i, '~').end
  {
    var r := Script(s, i, '~');
    if r.NoMatch? then NoMatch else Match(Subscript(r.value), r.end)
  }

  // ---------------------------------------------------------------- macro parameters

  lemma {:induction false} NotInSuffix(s: seq<char>, i: nat, c: char)
    requires i <= |s|
    requires forall k :: i <= k < |s| ==> s[k] != c
    ensures c !in s[i..]
    decreases |s| - i
  {
    if i < |s| {
      NotInSuffix(s, i + 1, c);
      assert s[i..] == [s[i]] + s[i + 1..];
    }
  }

  /** A value between two quote marks of the same kind; it may hold anything except that mark. */
  function QuotedValue(s: seq<char>, i: nat, mark: char): (r: Parsed<string>)
    requires i <= |s|
    ensures r.Match? ==> i + 2 <= r.end <= |s| && s[i] == mark && s[r.end - 1] == mark
    ensures r.Match? ==> r.value == s[i + 1..r.end - 1] && mark !in r.value
    ensures r.NoMatch? <==> i == |s| || s[i] != mark || mark !in s[i + 1..]
  {
    if i < |s| && s[i] == mark then
      var j := Span(s, i + 1, c => c != mark);
      if j < |s| then
        assert s[i + 1..][j - (i + 1)] == mark;
        Match(s[i + 1..j], j + 1)
      else
        NotInSuffix(s, i + 1, mark);
        NoMatch
    else
      NoMatch
  }

  /** A character that may appear in an unquoted value at position `k`: not ']', not '/',
      not the start of "}}", and not a blank or line break. */
  predicate UnquotedCharAt(s: seq<char>, k: nat)
  {
    k < |s| && s[k] != ']' && !LiteralAt(s, k, "}}") && s[k] != '/' && IsNonspacechar(s[k])
  }

  function UnquotedEnd(s: seq<char>, i: nat): (j: nat)
    requires i <= |s|
    ensures i <= j <= |s|
    ensures forall k :: i <= k < j ==> UnquotedCharAt(s, k)
    ensures !UnquotedCharAt(s, j)
    decreases |s| - i
  {
    if UnquotedCharAt(s, i) then UnquotedEnd(s, i + 1) else i
  }

  /** An unquoted value: one or more non-blank characters, stopping at ']', '/' or "}}". */
  function UnquotedValue(s: seq<char>, i: nat): (r: Parsed<string>)
    requires i <= |s|
    ensures r.NoMatch? <==> !UnquotedCharAt(s, i)
    ensures r.Match? ==> i < r.end <= |s| && r.value == s[i..r.end]
    ensures r.Match? ==> (forall k :: i <= k < r.end ==> UnquotedCharAt(s, k)) && !UnquotedCharAt(s, r.end)
  {
    var j := UnquotedEnd(s, i);
    if j == i then NoMatch else Match(s[i..j], j)
  }

  /** A parameter value: double-quoted, else single-quoted, else unquoted, in that order of preference. */
  function ParameterValue(s: seq<char>, i: nat): (r: Parsed<string>)
    requires i <= |s|
    ensures r.Match? ==> i < r.end <= |s|
    ensures QuotedValue(s, i, '"').Match? ==> r == QuotedValue(s, i, '"')
    ensures QuotedValue(s, i, '"').NoMatch? && QuotedValue(s, i, '\'').Match? ==> r == QuotedValue(s, i, '\'')
    ensures QuotedValue(s, i, '"').NoMatch? && QuotedValue(s, i, '\'').NoMatch? ==> r == UnquotedValue(s, i)
  {
    var dq := QuotedValue(s, i, '"');
    if dq.Match? then dq
    else
      var sq := QuotedValue(s, i, '\'');
      if sq.Match? then sq else UnquotedValue(s, i)
  }

  /** The spacing allowed around `=`: nothing for the Markdown syntax, Spn1 for the XWiki syntax. */
  function AroundEquals(syntax: MacroSyntax, s: seq<char>, i: nat): (j: nat)
    requires i <= |s|
    ensures i <= j <= |s|
  {
    match syntax
    case MarkdownSyntax => i
    case XWikiSyntax => Spn1(s, i)
  }

  /** The spacing after each parameter: Sp for the Markdown syntax, Spn1 for the XWiki syntax. */
  function Separator(syntax: MacroSyntax, s: seq<char>, i: nat): (j: nat)
    requires i <= |s|
    ensures i <= j <= |s|
  {
    match syntax
    case MarkdownSyntax => Sp(s, i)
    case XWikiSyntax => Spn1(s, i)
  }

  /** A parameter: a name, '=' with the syntax's spacing on both sides, then a value. */
  function MacroParameter(s: seq<char>, i: nat, syntax: MacroSyntax): (r: Parsed<Parameter>)
    requires i <= |s|
    ensures r.Match? ==> i < r.end <= |s|
    ensures r.Match? ==> Identifier(s, i).Match? && r.value.name == Identifier(s, i).value
    ensures r.Match? ==> var k := AroundEquals(syntax, s, Identifier(s, i).end);
              k < |s| && s[k] == '=' && ParameterValue(s, AroundEquals(syntax, s, k + 1)) == Match(r.value.value, r.end)
    ensures Identifier(s, i).NoMatch? ==> r.NoMatch?
    ensures Identifier(s, i).Match? ==>
              var k := AroundEquals(syntax, s, Identifier(s, i).end);
              k < |s| && s[k] == '=' && ParameterValue(s, AroundEquals(syntax, s, k + 1)).Match? ==>
                var v := ParameterValue(s, AroundEquals(syntax, s, k + 1));
                r == Match(Parameter(Identifier(s, i).value, v.value), v.end)
  {
    var name := Identifier(s, i);
    if name.NoMatch? then NoMatch
    else
      var k := AroundEquals(syntax, s, name.end);
      if k < |s| && s[k] == '=' then
        var value := ParameterValue(s, AroundEquals(syntax, s, k + 1));
        if value.NoMatch? then NoMatch else Match(Parameter(name.value, value.value), value.end)
      else
        NoMatch
  }

  /** As many parameters as match, each followed by the syntax's separator spacing; they are kept
      in source order. */
  function Parameters(s: seq<char>, i: nat, syntax: MacroSyntax): (r: Many<Parameter>)
    requires i <= |s|
    ensures i <= r.end <= |s|
    ensures r.items == [] <==> MacroParameter(s, i, syntax).NoMatch?
    ensures r.items != [] ==> r.items[0] == MacroParameter(s, i, syntax).value
    ensures forall k :: 0 <= k < |r.items| ==> IsIdentifier(r.items[k].name)
    ensures MacroParameter(s, r.end, syntax).NoMatch?
    decreases |s| - i
  {
    var p := MacroParameter(s, i, syntax);
    if p.NoMatch? then Many([], i)
    else
      var rest := Parameters(s, Separator(syntax, s, p.end), syntax);
      Many([p.value] + rest.items, rest.end)
  }

  /** Every parameter is kept, in source order: a parameter matched at `i` is followed by the
      parameters read after the syntax's separator, and the list ends where theirs ends. */
  lemma ParametersCons(s: seq<char>, i: nat, syntax: MacroSyntax)
    requires i <= |s| && MacroParameter(s, i, syntax).Match?
    ensures var p := MacroParameter(s, i, syntax);
            var rest := Parameters(s, Separator(syntax, s, p.end), syntax);
            Parameters(s, i, syntax) == Many([p.value] + rest.items, rest.end)
  {
  }

  // ---------------------------------------------------------------- Markdown-style macro

  /** The head of a Markdown-style macro: "#[", the id, blanks, the parameters, then ']'. */
  function MarkdownMacroHead(s: seq<char>, i: nat): (r: Parsed<Head>)
    requires i <= |s|
    ensures r.Match? ==> i + 4 <= r.end <= |s| && LiteralAt(s, i, "#[") && s[r.end - 1] == ']'
    ensures r.Match? ==> i + 2 <= |s| && Identifier(s, i + 2).Match? && r.value.id == Identifier(s, i + 2).value
    ensures r.Match? ==> var ps := Parameters(s, Sp(s, Identifier(s, i + 2).end), MarkdownSyntax);
              ps.items == r.value.parameters && ps.end + 1 == r.end
    ensures !LiteralAt(s, i, "#[") ==> r.NoMatch?
    ensures LiteralAt(s, i, "#[") && Identifier(s, i + 2).Match? ==>
              var ps := Parameters(s, Sp(s, Identifier(s, i + 2).end), MarkdownSyntax);
              ps.end < |s| && s[ps.end] == ']' ==> r == Match(Head(Identifier(s, i + 2).value, ps.items), ps.end + 1)
  {
    if LiteralAt(s, i, "#[") then
      var name := Identifier(s, i + 2);
      if name.NoMatch? then NoMatch
      else
        var ps := Parameters(s, Sp(s, name.end), MarkdownSyntax);
        if ps.end < |s| && s[ps.end] == ']' then Match(Head(name.value, ps.items), ps.end + 1) else NoMatch
    else
      NoMatch
  }

  /** After '(', the body text: one or more characters up to the first ')' or the end of the
      input. `end` is where the closing ')' is expected. */
  function BodyText(s: seq<char>, i: nat): (r: Parsed<string>)
    requires i <= |s|
    ensures r.Match? ==> i + 2 <= r.end <= |s| && s[i] == '(' && r.value == s[i + 1..r.end] && |r.value| > 0
    ensures r.Match? ==> (forall k :: i + 1 <= k < r.end ==> s[k] != ')') && (r.end == |s| || s[r.end] == ')')
    ensures r.NoMatch? <==> !(i + 1 < |s| && s[i] == '(' && s[i + 1] != ')')
  {
    if i + 1 < |s| && s[i] == '(' && s[i + 1] != ')' then
      var j := Span(s, i + 1, c => c != ')');
      Match(s[i + 1..j], j)
    else
      NoMatch
  }

  /** The optional body of a Markdown-style macro, without the option: '(', one or more characters
      up to the first ')', and that ')' must be there. */
  function MacroBody(s: seq<char>, i: nat): (r: Parsed<string>)
    requires i <= |s|
    ensures r.Match? ==> i + 3 <= r.end <= |s| && s[i] == '(' && s[r.end - 1] == ')'
    ensures r.Match? ==> r.value == s[i + 1..r.end - 1] && |r.value| > 0 && ')' !in r.value
    ensures r.Match? <==> i + 1 < |s| && s[i] == '(' && s[i + 1] != ')' && ')' in s[i + 1..]
  {
    var t := BodyText(s, i);
    if t.Match? && t.end < |s| then
      assert s[i + 1..][t.end - (i + 1)] == ')';
      assert forall k :: 0 <= k < |t.value| ==> t.value[k] == s[i + 1 + k];
      Match(t.value, t.end + 1)
    else if t.Match? then
      NotInSuffix(s, i + 1, ')');
      NoMatch
    else
      NoMatch
  }

  /** MarkdownMacro(isInline): `#[id params]` with an optional `(body)` kept as one text child. */
  function MarkdownMacro(s: seq<char>, i: nat, isInline: bool): (r: Parsed<Node>)
    requires i <= |s|
    ensures r.Match? <==> MarkdownMacroHead(s, i).Match?
    ensures r.Match? ==> r.value.Macro? && r.value.isInline == isInline
    ensures r.Match? ==> var h := MarkdownMacroHead(s, i);
              r.value.id == h.value.id && r.value.parameters == h.value.parameters
    ensures r.Match? && r.value.children == [] ==> r.end == MarkdownMacroHead(s, i).end && MacroBody(s, r.end).NoMatch?
    ensures r.Match? && r.value.children != [] ==>
              var b := MacroBody(s, MarkdownMacroHead(s, i).end);
              b.Match? && r.value.children == [Text(b.value)] && r.end == b.end
  {
    var h := MarkdownMacroHead(s, i);
    if h.NoMatch? then NoMatch
    else
      var body := MacroBody(s, h.end);
      if body.NoMatch? then Match(Macro(h.value.id, isInline, h.value.parameters, []), h.end)
      else Match(Macro(h.value.id, isInline, h.value.parameters, [Text(body.value)]), body.end)
  }

  // ---------------------------------------------------------------- XWiki-style macro

  /** The open tag of an XWiki macro up to its closing braces: "{{", the id, optional spacing, then
      the parameters, each followed by optional spacing. */
  function XWikiOpenTag(s: seq<char>, i: nat): (r: Parsed<Head>)
    requires i <= |s|
    ensures r.Match? ==> i + 3 <= r.end <= |s| && LiteralAt(s, i, "{{")
    ensures r.Match? ==> i + 2 <= |s| && Identifier(s, i + 2).Match? && r.value.id == Identifier(s, i + 2).value
    ensures r.Match? ==> var ps := Parameters(s, Spn1(s, Identifier(s, i + 2).end), XWikiSyntax);
              ps.items == r.value.parameters && ps.end == r.end
    ensures r.NoMatch? <==> !LiteralAt(s, i, "{{") || (i + 2 <= |s| && Identifier(s, i + 2).NoMatch?)
  {
    if LiteralAt(s, i, "{{") then
      var name := Identifier(s, i + 2);
      if name.NoMatch? then NoMatch
      else
        var ps := Parameters(s, Spn1(s, name.end), XWikiSyntax);
        Match(Head(name.value, ps.items), ps.end)
    else
      NoMatch
  }

  /** The close tag of an XWiki macro: "{{/", an identifier equal to `id`, optional spacing, "}}". */
  function CloseTag(s: seq<char>, i: nat, id: string): (r: Parsed<()>)
    requires i <= |s|
    ensures r.Match? ==> LiteralAt(s, i, "{{/") && Identifier(s, i + 3) == Match(id, i + 3 + |id|)
    ensures r.Match? ==> var k := Spn1(s, i + 3 + |id|); LiteralAt(s, k, "}}") && r.end == k + 2
    ensures r.Match? ==> i + 5 + |id| <= r.end <= |s|
    ensures r.Match? <==> LiteralAt(s, i, "{{/") && Identifier(s, i + 3) == Match(id, i + 3 + |id|) &&
                          LiteralAt(s, Spn1(s, i + 3 + |id|), "}}")
  {
    if LiteralAt(s, i, "{{/") then
      var name := Identifier(s, i + 3);
      if name.Match? && name.value == id then
        var k := Spn1(s, name.end);
        if LiteralAt(s, k, "}}") then Match((), k + 2) else NoMatch
      else
        NoMatch
    else
      NoMatch
  }

  /** The content of an XWiki macro runs to the first position where a close tag for `id` matches,
      or to the end of the input. */
  function ContentEnd(s: seq<char>, i: nat, id: string): (j: nat)
    requires i <= |s|
    ensures i <= j <= |s|
    ensures forall k :: i <= k < j ==> CloseTag(s, k, id).NoMatch?
    ensures j < |s| ==> CloseTag(s, j, id).Match?
    decreases |s| - i
  {
    if i < |s| && CloseTag(s, i, id).NoMatch? then ContentEnd(s, i + 1, id) else i
  }

  /** Where the content of a non-self-closing XWiki macro starts: after "}}" and one optional Newline. */
  function XWikiContentStart(s: seq<char>, e: nat): (c: nat)
    requires e + 2 <= |s|
    ensures e + 2 <= c <= |s| && c <= e + 4
    ensures c == e + 2 <==> (e + 2 == |s| || !IsNewlineChar(s[e + 2]))
    ensures forall k :: e + 2 <= k < c ==> IsNewlineChar(s[k])
    ensures c == e + 4 ==> s[e + 2..c] == "\r\n"
  {
    OptionalNewline(s, e + 2)
  }

  /** XWikiMacro: `{{id params /}}` without content, or `{{id params}}content{{/id}}` where the
      content, kept verbatim as one text child, ends at the first close tag naming the same id. */
  function XWikiMacro(s: seq<char>, i: nat): (r: Parsed<Node>)
    requires i <= |s|
    ensures r.Match? ==> XWikiOpenTag(s, i).Match?
    ensures r.Match? ==> var h := XWikiOpenTag(s, i).value;
              r.value.Macro? && r.value.id == h.id && !r.value.isInline && r.value.parameters == h.parameters
    ensures r.Match? && r.value.children == [] ==>
              var e := XWikiOpenTag(s, i).end; LiteralAt(s, e, "/}}") && r.end == e + 3
    ensures r.Match? && r.value.children != [] ==>
              var o := XWikiOpenTag(s, i);
              !LiteralAt(s, o.end, "/}}") && LiteralAt(s, o.end, "}}") &&
              |r.value.children| == 1 && r.value.children[0].Text? &&
              var c := XWikiContentStart(s, o.end);
              var j := ContentEnd(s, c, o.value.id);
              r.value.children[0].text == s[c..j] &&
              CloseTag(s, j, o.value.id) == Match((), r.end) &&
              (forall k :: c <= k < j ==> CloseTag(s, k, o.value.id).NoMatch?)
    ensures XWikiOpenTag(s, i).Match? && LiteralAt(s, XWikiOpenTag(s, i).end, "/}}") ==> r.Match?
    ensures XWikiOpenTag(s, i).Match? && !LiteralAt(s, XWikiOpenTag(s, i).end, "/}}") &&
            LiteralAt(s, XWikiOpenTag(s, i).end, "}}") ==>
              var o := XWikiOpenTag(s, i);
              var j := ContentEnd(s, XWikiContentStart(s, o.end), o.value.id);
              (r.Match? <==> CloseTag(s, j, o.value.id).Match?)
  {
    var o := XWikiOpenTag(s, i);
    if o.NoMatch? then NoMatch
    else if LiteralAt(s, o.end, "/}}") then
      Match(Macro(o.value.id, false, o.value.parameters, []), o.end + 3)
    else if LiteralAt(s, o.end, "}}") then
      var c := XWikiContentStart(s, o.end);
      var j := ContentEnd(s, c, o.value.id);
      var close := CloseTag(s, j, o.value.id);
      if close.NoMatch? then NoMatch
      else Match(Macro(o.value.id, false, o.value.parameters, [Text(s[c..j])]), close.end)
    else
      NoMatch
  }

  /** Without a close tag for the same id anywhere after the open tag, the XWiki macro does not match. */
  lemma XWikiMacroNeedsCloseTag(s: seq<char>, i: nat)
    requires i <= |s| && XWikiOpenTag(s, i).Match?
    requires var e := XWikiOpenTag(s, i).end; !LiteralAt(s, e, "/}}") && LiteralAt(s, e, "}}")
    requires var o := XWikiOpenTag(s, i);
             forall k :: XWikiContentStart(s, o.end) <= k <= |s| ==> CloseTag(s, k, o.value.id).NoMatch?
    ensures XWikiMacro(s, i).NoMatch?
  {
  }

  /** A close tag for the same id anywhere after the open tag makes the XWiki macro match, with
      content ending no later than that close tag. */
  lemma XWikiMacroClosedBy(s: seq<char>, i: nat, k: nat)
    requires i <= |s| && XWikiOpenTag(s, i).Match?
    requires var e := XWikiOpenTag(s, i).end; !LiteralAt(s, e, "/}}") && LiteralAt(s, e, "}}")
    requires var o := XWikiOpenTag(s, i);
             XWikiContentStart(s, o.end) <= k <= |s| && CloseTag(s, k, o.value.id).Match?
    ensures var o := XWikiOpenTag(s, i);
            var c := XWikiContentStart(s, o.end);
            var j := ContentEnd(s, c, o.value.id);
            j <= k && XWikiMacro(s, i).Match? && XWikiMacro(s, i).value.children == [Text(s[c..j])]
  {
    var o := XWikiOpenTag(s, i);
    var c := XWikiContentStart(s, o.end);
    var j := ContentEnd(s, c, o.value.id);
    assert j <= k < |s|;
    assert CloseTag(s, j, o.value.id).Match?;
    assert XWikiMacro(s, i) == Match(Macro(o.value.id, false, o.value.parameters, [Text(s[c..j])]), CloseTag(s, j, o.value.id).end);
  }

  // ---------------------------------------------------------------- plugin rule lists

  /** blockPluginRules: XWikiMacro first, then the block Markdown macro. */
  function BlockPluginRule(s: seq<char>, i: nat): (r: Parsed<Node>)
    requires i <= |s|
    ensures r.Match? ==> r.value.Macro? && !r.value.isInline
    ensures XWikiMacro(s, i).Match? ==> r == XWikiMacro(s, i)
    ensures XWikiMacro(s, i).NoMatch? ==> r == MarkdownMacro(s, i, false)
  {
    var x := XWikiMacro(s, i);
    if x.Match? then x else MarkdownMacro(s, i, false)
  }

  /** inlinePluginRules: Superscript, then Subscript, then the inline Markdown macro. */
  function InlinePluginRule(s: seq<char>, i: nat): (r: Parsed<Node>)
    requires i <= |s|
  {
    var sup := SuperscriptRule(s, i);
    if sup.Match? then sup
    else
      var sub := SubscriptRule(s, i);
      if sub.Match? then sub else MarkdownMacro(s, i, true)
  }

  /** A Markdown macro match starts with '#'. */
  lemma MarkdownMacroStart(s: seq<char>, i: nat, isInline: bool)
    requires i <= |s| && MarkdownMacro(s, i, isInline).Match?
    ensures i < |s| && s[i] == '#'
  {
    assert LiteralAt(s, i, "#[");
    assert s[i] == s[i..i + 2][0];
  }

  /** An XWiki macro match starts with '{'. */
  lemma XWikiMacroStart(s: seq<char>, i: nat)
    requires i <= |s| && XWikiMacro(s, i).Match?
    ensures i < |s| && s[i] == '{'
  {
    assert LiteralAt(s, i, "{{");
    assert s[i] == s[i..i + 2][0];
  }

  /** The inline alternatives start with different characters ('^', '~', '#'), so at most one
      of them can match at a position and their order decides nothing. */
  lemma InlinePluginRuleChoice(s: seq<char>, i: nat)
    requires i <= |s|
    ensures InlinePluginRule(s, i) ==
              if i < |s| && s[i] == '^' then SuperscriptRule(s, i)
              else if i < |s| && s[i] == '~' then SubscriptRule(s, i)
              else MarkdownMacro(s, i, true)
  {
    if MarkdownMacro(s, i, true).Match? {
      MarkdownMacroStart(s, i, true);
    }
  }

  /** The kind of an inline match is determined by its first character. */
  lemma InlinePluginRuleKind(s: seq<char>, i: nat)
    requires i <= |s| && InlinePluginRule(s, i).Match?
    ensures i < |s|
    ensures InlinePluginRule(s, i).value.Superscript? <==> s[i] == '^'
    ensures InlinePluginRule(s, i).value.Subscript? <==> s[i] == '~'
    ensures InlinePluginRule(s, i).value.Macro? <==> s[i] == '#'
  {
    if MarkdownMacro(s, i, true).Match? {
      MarkdownMacroStart(s, i, true);
    }
  }

  /** The two block alternatives start with "{{" and "#[", so they never both match. */
  lemma BlockPluginRulesExclusive(s: seq<char>, i: nat)
    requires i <= |s|
    ensures !(XWikiMacro(s, i).Match? && MarkdownMacro(s, i, false).Match?)
  {
    if XWikiMacro(s, i).Match? && MarkdownMacro(s, i, false).Match? {
      XWikiMacroStart(s, i);
      MarkdownMacroStart(s, i, false);
    }
  }
}
