/** Worked inputs for the XWiki extension rules: what each rule gives on a few small documents. */
module XWikiPegdownExamples {
  import opened PegdownChars
  import opened XWikiPegdownPlugin

  /** `a^b^c`: the superscript starting at 1 holds one text node, "b", and ends before "c". */
  lemma SuperscriptExample()
    ensures SuperscriptRule("a^b^c", 1) == Match(Superscript([Text("b")]), 4)
  {
    var s := "a^b^c";
    assert ScriptUnits(s, 3, '^') == Many([], 3);
    assert ScriptUnits(s, 2, '^') == Many([Text("b")], 3);
  }

  /** `^a\ b^`: an escaped blank becomes a text node holding only the blank. */
  lemma EscapedBlankExample()
    ensures SuperscriptRule("^a\\ b^", 0) == Match(Superscript([Text("a"), Text(" "), Text("b")]), 6)
  {
    var s := "^a\\ b^";
    assert ScriptUnits(s, 5, '^') == Many([], 5);
    assert ScriptUnits(s, 4, '^') == Many([Text("b")], 5);
    assert ScriptUnits(s, 2, '^') == Many([Text(" "), Text("b")], 5);
    assert ScriptUnits(s, 1, '^') == Many([Text("a"), Text(" "), Text("b")], 5);
  }

  /** The identifier at `i` is `id`, ending at `j`, when those are its characters and the next
      one cannot continue it. */
  lemma IdentifierIs(s: seq<char>, i: nat, j: nat, id: string)
    requires i < j <= |s| && s[i..j] == id
    requires forall k :: i <= k < j ==> IsIdentifierChar(s[k])
    requires j == |s| || !IsIdentifierChar(s[j])
    ensures Identifier(s, i) == Match(id, j)
  {
    SpanIs(s, i, j, IsIdentifierChar);
  }

  lemma {:induction false} UnquotedEndIs(s: seq<char>, i: nat, j: nat)
    requires i <= j <= |s|
    requires forall k :: i <= k < j ==> UnquotedCharAt(s, k)
    requires !UnquotedCharAt(s, j)
    ensures UnquotedEnd(s, i) == j
    decreases j - i
  {
    if i < j {
      UnquotedEndIs(s, i + 1, j);
    }
  }

  /** A value that does not start with a quote is read unquoted, up to the first character an
      unquoted value cannot hold. */
  lemma UnquotedIs(s: seq<char>, i: nat, j: nat, v: string)
    requires i < j <= |s| && s[i..j] == v && s[i] != '"' && s[i] != '\''
    requires forall k :: i <= k < j ==> UnquotedCharAt(s, k)
    requires !UnquotedCharAt(s, j)
    ensures ParameterValue(s, i) == Match(v, j)
  {
    UnquotedEndIs(s, i, j);
  }

  const MacroDoc: string := "#[id p1=v1]"

  lemma MacroDocName()
    ensures Identifier(MacroDoc, 5) == Match("p1", 7)
  {
    var s := MacroDoc;
    assert s[5..7] == "p1";
    IdentifierIs(s, 5, 7, "p1");
  }

  lemma MacroDocValue()
    ensures ParameterValue(MacroDoc, 8) == Match("v1", 10)
  {
    var s := MacroDoc;
    assert s[8..10] == "v1" && UnquotedCharAt(s, 8) && UnquotedCharAt(s, 9);
    UnquotedIs(s, 8, 10, "v1");
  }

  lemma MacroDocParameter()
    ensures MacroParameter(MacroDoc, 5, MarkdownSyntax) == Match(Parameter("p1", "v1"), 10)
  {
    MacroDocName();
    MacroDocValue();
  }

  lemma MacroDocParameters()
    ensures Parameters(MacroDoc, 5, MarkdownSyntax) == Many([Parameter("p1", "v1")], 10)
  {
    var s := MacroDoc;
    MacroDocParameter();
    assert Sp(s, 10) == 10 by { SpanIs(s, 10, 10, IsSpacechar); }
    assert Parameters(s, 10, MarkdownSyntax) == Many([], 10);
  }

  /** `#[id p1=v1]`: an inline macro with one parameter and no body. */
  lemma MarkdownMacroExample()
    ensures MarkdownMacro(MacroDoc, 0, true) == Match(Macro("id", true, [Parameter("p1", "v1")], []), 11)
  {
    var s := MacroDoc;
    assert s[0..2] == "#[";
    IdentifierIs(s, 2, 4, "id");
    SpOneBlank(s, 4);
    MacroDocParameters();
    assert MarkdownMacroHead(s, 0) == Match(Head("id", [Parameter("p1", "v1")]), 11);
  }

  /** A parameter followed, after the separator, by a list holding one more parameter gives a
      list of those two, in that order. */
  lemma ParametersTwo(s: seq<char>, i: nat, syntax: MacroSyntax, a: Parameter, b: Parameter, e: nat)
    requires i <= |s| && MacroParameter(s, i, syntax).Match? && MacroParameter(s, i, syntax).value == a
    requires Parameters(s, Separator(syntax, s, MacroParameter(s, i, syntax).end), syntax) == Many([b], e)
    ensures Parameters(s, i, syntax) == Many([a, b], e)
  {
    ParametersCons(s, i, syntax);
    PairIs(MacroParameter(s, i, syntax).value, Parameters(s, Separator(syntax, s, MacroParameter(s, i, syntax).end), syntax).items, a, b);
  }

  lemma PairIs<T>(x: T, ys: seq<T>, a: T, b: T)
    requires x == a && ys == [b]
    ensures [x] + ys == [a, b]
  {
  }

  const TwoParameterDoc: string := "#[id a=1 b=\"x y\"]"

  lemma TwoParameterDocFirst()
    ensures MacroParameter(TwoParameterDoc, 5, MarkdownSyntax) == Match(Parameter("a", "1"), 8)
  {
    var s := TwoParameterDoc;
    assert s[5..6] == "a" && s[7..8] == "1" && s[7..9] == "1 ";
    assert UnquotedCharAt(s, 7);
    IdentifierIs(s, 5, 6, "a");
    UnquotedIs(s, 7, 8, "1");
  }

  /** The double-quoted value at 11 is `x y`: the blank inside the quotes belongs to it. */
  lemma TwoParameterDocQuoted()
    ensures QuotedValue(TwoParameterDoc, 11, '"') == Match("x y", 16)
  {
    var s := TwoParameterDoc;
    assert s[12..15] == "x y" && s[15] == '"';
    assert '"' in s[12..] by { assert s[12..][3] == '"'; }
  }

  lemma TwoParameterDocSecond()
    ensures MacroParameter(TwoParameterDoc, 9, MarkdownSyntax) == Match(Parameter("b", "x y"), 16)
  {
    var s := TwoParameterDoc;
    assert s[9..10] == "b";
    IdentifierIs(s, 9, 10, "b");
    TwoParameterDocQuoted();
  }

  lemma TwoParameterDocRest()
    ensures Parameters(TwoParameterDoc, 9, MarkdownSyntax) == Many([Parameter("b", "x y")], 16)
  {
    var s := TwoParameterDoc;
    assert Identifier(s, 16).NoMatch? by { assert !IsIdentifierChar(s[16]); }
    assert Separator(MarkdownSyntax, s, 16) == 16 by { SpanIs(s, 16, 16, IsSpacechar); }
    TwoParameterDocSecond();
    assert Parameters(s, 16, MarkdownSyntax) == Many([], 16);
  }

  /** Both parameters are kept, in source order, the blank after the first one being the
      separator. */
  lemma TwoParameterDocParameters()
    ensures Parameters(TwoParameterDoc, 5, MarkdownSyntax) == Many([Parameter("a", "1"), Parameter("b", "x y")], 16)
  {
    var s := TwoParameterDoc;
    assert Separator(MarkdownSyntax, s, 8) == 9 by { SpOneBlank(s, 8); }
    TwoParameterDocFirst();
    TwoParameterDocRest();
  }

  lemma TwoParameterDocName()
    ensures LiteralAt(TwoParameterDoc, 0, "#[") && Identifier(TwoParameterDoc, 2) == Match("id", 4)
    ensures Sp(TwoParameterDoc, 4) == 5
  {
    var s := TwoParameterDoc;
    assert s[0..2] == "#[" && s[2..4] == "id";
    IdentifierIs(s, 2, 4, "id");
    SpOneBlank(s, 4);
  }

  lemma TwoParameterDocHead()
    ensures MarkdownMacroHead(TwoParameterDoc, 0) == Match(Head("id", [Parameter("a", "1"), Parameter("b", "x y")]), 17)
  {
    assert TwoParameterDoc[16] == ']';
    TwoParameterDocName();
    TwoParameterDocParameters();
  }

  /** `#[id a=1 b="x y"]`: an inline macro with two parameters, the second one quoted, and no body. */
  lemma TwoParameterExample()
    ensures MarkdownMacro(TwoParameterDoc, 0, true) ==
            Match(Macro("id", true, [Parameter("a", "1"), Parameter("b", "x y")], []), 17)
  {
    TwoParameterDocHead();
  }

  const SelfClosingDoc: string := "{{id p1=v1 /}}"

  lemma SelfClosingDocName()
    ensures Identifier(SelfClosingDoc, 5) == Match("p1", 7)
  {
    var s := SelfClosingDoc;
    assert s[5..7] == "p1";
    IdentifierIs(s, 5, 7, "p1");
  }

  lemma SelfClosingDocValue()
    ensures ParameterValue(SelfClosingDoc, 8) == Match("v1", 10)
  {
    var s := SelfClosingDoc;
    assert s[8..10] == "v1" && UnquotedCharAt(s, 8) && UnquotedCharAt(s, 9);
    UnquotedIs(s, 8, 10, "v1");
  }

  lemma SelfClosingDocParameter()
    ensures MacroParameter(SelfClosingDoc, 5, XWikiSyntax) == Match(Parameter("p1", "v1"), 10)
  {
    var s := SelfClosingDoc;
    assert AroundEquals(XWikiSyntax, s, 7) == 7 by { Spn1AtNonspace(s, 7); }
    assert AroundEquals(XWikiSyntax, s, 8) == 8 by { Spn1AtNonspace(s, 8); }
    SelfClosingDocName();
    SelfClosingDocValue();
  }

  lemma SelfClosingDocParameters()
    ensures Parameters(SelfClosingDoc, 5, XWikiSyntax) == Many([Parameter("p1", "v1")], 11)
  {
    var s := SelfClosingDoc;
    assert Identifier(s, 11).NoMatch? by { assert !IsIdentifierChar(s[11]); }
    assert Separator(XWikiSyntax, s, 10) == 11 by { Spn1OneBlank(s, 10); }
    SelfClosingDocParameter();
    assert Parameters(s, 11, XWikiSyntax) == Many([], 11);
  }

  lemma SelfClosingDocOpenTag()
    ensures XWikiOpenTag(SelfClosingDoc, 0) == Match(Head("id", [Parameter("p1", "v1")]), 11)
  {
    var s := SelfClosingDoc;
    assert s[0..2] == "{{";
    IdentifierIs(s, 2, 4, "id");
    Spn1OneBlank(s, 4);
    SelfClosingDocParameters();
  }

  /** `{{id p1=v1 /}}`: a self-closing XWiki macro with one parameter and no content. */
  lemma SelfClosingExample()
    ensures XWikiMacro(SelfClosingDoc, 0) == Match(Macro("id", false, [Parameter("p1", "v1")], []), 14)
  {
    var s := SelfClosingDoc;
    assert LiteralAt(s, 11, "/}}") by { assert s[11..14] == "/}}"; }
    SelfClosingDocOpenTag();
  }

  const MultiLineDoc: string := "{{id a=1\n b=2/}}"

  /** In the XWiki syntax the spacing after a parameter may hold one line break. */
  lemma MultiLineDocSeparator()
    ensures Separator(XWikiSyntax, MultiLineDoc, 8) == 10
  {
    var s := MultiLineDoc;
    assert s[8] == '\n' && s[9] == ' ' && s[10] == 'b';
    SpanIs(s, 8, 8, IsSpacechar);
    assert OptionalNewline(s, 8) == 9;
    SpOneBlank(s, 9);
  }

  lemma MultiLineDocValues()
    ensures ParameterValue(MultiLineDoc, 7) == Match("1", 8)
    ensures ParameterValue(MultiLineDoc, 12) == Match("2", 13)
  {
    var s := MultiLineDoc;
    assert s[7..8] == "1" && s[7..9] == "1\n" && s[12..13] == "2" && s[12..14] == "2/";
    assert UnquotedCharAt(s, 7) && UnquotedCharAt(s, 12);
    UnquotedIs(s, 7, 8, "1");
    UnquotedIs(s, 12, 13, "2");
  }

  lemma MultiLineDocNames()
    ensures Identifier(MultiLineDoc, 5) == Match("a", 6)
    ensures Identifier(MultiLineDoc, 10) == Match("b", 11)
  {
    var s := MultiLineDoc;
    assert s[5..6] == "a" && s[10..11] == "b";
    IdentifierIs(s, 5, 6, "a");
    IdentifierIs(s, 10, 11, "b");
  }

  /** No spacing around either `=`. */
  lemma MultiLineDocSpacing()
    ensures AroundEquals(XWikiSyntax, MultiLineDoc, 6) == 6 && AroundEquals(XWikiSyntax, MultiLineDoc, 7) == 7
    ensures AroundEquals(XWikiSyntax, MultiLineDoc, 11) == 11 && AroundEquals(XWikiSyntax, MultiLineDoc, 12) == 12
  {
    var s := MultiLineDoc;
    assert s[6] == '=' && s[7] == '1' && s[11] == '=' && s[12] == '2';
    Spn1AtNonspace(s, 6);
    Spn1AtNonspace(s, 7);
    Spn1AtNonspace(s, 11);
    Spn1AtNonspace(s, 12);
  }

  lemma MultiLineDocFirst()
    ensures MacroParameter(MultiLineDoc, 5, XWikiSyntax) == Match(Parameter("a", "1"), 8)
  {
    MultiLineDocSpacing();
    MultiLineDocNames();
    MultiLineDocValues();
  }

  lemma MultiLineDocSecond()
    ensures MacroParameter(MultiLineDoc, 10, XWikiSyntax) == Match(Parameter("b", "2"), 13)
  {
    MultiLineDocSpacing();
    MultiLineDocNames();
    MultiLineDocValues();
  }

  lemma MultiLineDocRest()
    ensures Parameters(MultiLineDoc, 10, XWikiSyntax) == Many([Parameter("b", "2")], 13)
  {
    var s := MultiLineDoc;
    assert Identifier(s, 13).NoMatch? by { assert !IsIdentifierChar(s[13]); }
    assert Separator(XWikiSyntax, s, 13) == 13 by { Spn1AtNonspace(s, 13); }
    MultiLineDocSecond();
    assert Parameters(s, 13, XWikiSyntax) == Many([], 13);
  }

  lemma MultiLineDocParameters()
    ensures Parameters(MultiLineDoc, 5, XWikiSyntax) == Many([Parameter("a", "1"), Parameter("b", "2")], 13)
  {
    MultiLineDocSeparator();
    MultiLineDocFirst();
    MultiLineDocRest();
    ParametersTwo(MultiLineDoc, 5, XWikiSyntax, Parameter("a", "1"), Parameter("b", "2"), 13);
  }

  lemma MultiLineDocOpenTag()
    ensures XWikiOpenTag(MultiLineDoc, 0) == Match(Head("id", [Parameter("a", "1"), Parameter("b", "2")]), 13)
  {
    var s := MultiLineDoc;
    assert s[0..2] == "{{" && s[2..4] == "id";
    IdentifierIs(s, 2, 4, "id");
    Spn1OneBlank(s, 4);
    MultiLineDocParameters();
  }

  /** `{{id a=1` line break ` b=2/}}`: a self-closing XWiki macro whose two parameters, in source
      order, are separated by a line break and a blank. */
  lemma MultiLineExample()
    ensures XWikiMacro(MultiLineDoc, 0) == Match(Macro("id", false, [Parameter("a", "1"), Parameter("b", "2")], []), 16)
  {
    var s := MultiLineDoc;
    assert LiteralAt(s, 13, "/}}") by { assert s[13..16] == "/}}"; }
    MultiLineDocOpenTag();
  }

  /** A close tag must name the open tag's id in full: `{{/idx}}` does not close `id`. */
  lemma CloseTagExactIdExample()
    ensures CloseTag("{{/id}}", 0, "id") == Match((), 7)
    ensures CloseTag("{{/idx}}", 0, "id").NoMatch?
  {
    var s := "{{/id}}";
    assert s[0..3] == "{{/" && s[5..7] == "}}";
    IdentifierIs(s, 3, 5, "id");
    Spn1AtNonspace(s, 5);
    var x := "{{/idx}}";
    assert x[0..3] == "{{/";
    IdentifierIs(x, 3, 6, "idx");
  }

  /** The content reaches exactly the position `j` where the first close tag for `id` starts. */
  lemma {:induction false} ContentEndIs(s: seq<char>, i: nat, j: nat, id: string)
    requires i <= j <= |s|
    requires forall k :: i <= k < j ==> CloseTag(s, k, id).NoMatch?
    requires j == |s| || CloseTag(s, j, id).Match?
    ensures ContentEnd(s, i, id) == j
    decreases j - i
  {
    if i < j {
      ContentEndIs(s, i + 1, j, id);
    }
  }

  const NestedDoc: string := "{{a}}{{b}}x{{/b}}{{/a}}"

  /** Before position 17 no close tag for `a` starts; the one for `b` at 11 names another id. */
  lemma NestedDocNoCloseBefore(k: nat)
    requires 5 <= k < 17
    ensures CloseTag(NestedDoc, k, "a").NoMatch?
  {
    var s := NestedDoc;
    if k == 11 {
      assert Identifier(s, 14) == Match("b", 15) by { IdentifierIs(s, 14, 15, "b"); }
    } else {
      assert s[k + 2] != '/' by {
        if k < 11 {
          assert s[7..13] == "b}}x{{" && s[k + 2] == s[7..13][k - 5];
        } else {
          assert s[14..19] == "b}}{{" && s[k + 2] == s[14..19][k - 12];
        }
      }
      assert !LiteralAt(s, k, "{{/") by { assert s[k..k + 3][2] == s[k + 2]; }
    }
  }

  lemma NestedDocCloseTag()
    ensures CloseTag(NestedDoc, 17, "a") == Match((), 23)
  {
    var s := NestedDoc;
    assert s[17..20] == "{{/" && s[21..23] == "}}";
    IdentifierIs(s, 20, 21, "a");
    Spn1AtNonspace(s, 21);
  }

  lemma NestedDocOpenTag()
    ensures XWikiOpenTag(NestedDoc, 0) == Match(Head("a", []), 3)
  {
    var s := NestedDoc;
    assert s[0..2] == "{{";
    IdentifierIs(s, 2, 3, "a");
    Spn1AtNonspace(s, 3);
    assert Parameters(s, 3, XWikiSyntax) == Many([], 3);
  }

  /** The open tag ends in "}}" with no line break after it, so the content starts at 5. */
  lemma NestedDocOpenTagEnd()
    ensures !LiteralAt(NestedDoc, 3, "/}}") && LiteralAt(NestedDoc, 3, "}}")
    ensures XWikiContentStart(NestedDoc, 3) == 5
  {
    var s := NestedDoc;
    assert s[3] == '}' && s[4] == '}' && s[5] == '{';
    assert s[3..6][0] == s[3];
    assert s[3..5] == "}}";
  }

  lemma NestedDocContentEnd()
    ensures ContentEnd(NestedDoc, 5, "a") == 17
  {
    forall k | 5 <= k < 17
      ensures CloseTag(NestedDoc, k, "a").NoMatch?
    {
      NestedDocNoCloseBefore(k);
    }
    NestedDocCloseTag();
    ContentEndIs(NestedDoc, 5, 17, "a");
  }

  /** An XWiki macro whose open tag ends in "}}" and whose content is followed by its close tag
      matches, its one text child being that content. */
  lemma XWikiMacroWithContent(s: seq<char>, i: nat)
    requires i <= |s| && XWikiOpenTag(s, i).Match?
    requires var e := XWikiOpenTag(s, i).end; !LiteralAt(s, e, "/}}") && LiteralAt(s, e, "}}")
    requires var o := XWikiOpenTag(s, i);
             CloseTag(s, ContentEnd(s, XWikiContentStart(s, o.end), o.value.id), o.value.id).Match?
    ensures var o := XWikiOpenTag(s, i);
            var c := XWikiContentStart(s, o.end);
            var j := ContentEnd(s, c, o.value.id);
            XWikiMacro(s, i) == Match(Macro(o.value.id, false, o.value.parameters, [Text(s[c..j])]), CloseTag(s, j, o.value.id).end)
  {
  }

  /** `{{a}}{{b}}x{{/b}}{{/a}}`: the close tag of the inner macro does not close the outer one, so
      the outer macro's content is the whole inner macro, kept as raw text. */
  lemma NestedMacroExample()
    ensures XWikiMacro(NestedDoc, 0) == Match(Macro("a", false, [], [Text("{{b}}x{{/b}}")]), 23)
  {
    var s := NestedDoc;
    assert s[5..17] == "{{b}}x{{/b}}";
    NestedDocOpenTagEnd();
    NestedDocOpenTag();
    NestedDocContentEnd();
    NestedDocCloseTag();
    XWikiMacroWithContent(s, 0);
  }
}
