# XWiki Markdown: extension grammar and link/image visitor

This project models two parts of the XWiki Markdown rendering modules and proves properties of them.

**The XWiki extension grammar for pegdown** is the parboiled parser plugin of the Markdown 1.1 syntax. It adds these rules to pegdown:
- superscript `^text^` and subscript `~text~`, where `\ ` escapes a blank;
- the Markdown-style macro `#[id params](body)`;
- the XWiki-style macro `{{id params /}}` or `{{id params}}content{{/id}}`;
- macro parameters `name=value`, whose value is double-quoted, single-quoted or unquoted;
- the lists of block and inline rules handed to pegdown.

Every rule is a total function in module `XWikiPegdownPlugin`. It takes the input and a start position and returns `NoMatch`, or `Match(value, end)`, where `value` is the AST fragment the rule pushes. Module `XWikiPegdownPluginActions` runs the rules' actions the way parboiled runs them:
- a `MacroNode` is created as soon as its identifier matches;
- `addParameter` appends parameters to it one by one;
- `addAsChild` attaches text nodes one by one;
- superscript and subscript content is collected in a loop.

Each of those methods is proved to produce exactly what a pure function describes. For the superscript, subscript and XWiki macro rules, and for the parameter loop, that function is the pure rule itself. For the Markdown macro it is `MarkdownMacroAsWritten`, which keeps the body child the source attaches before the closing `)` is known to be there. `MarkdownMacroAsWrittenAgrees` and `MarkdownMacroAsWrittenDiffers` relate it to the corrected pure rule `MarkdownMacro` (see Findings). Module `PegdownChars` holds the few pegdown host rules the extension uses (`Sp`, `Spn1`, `Newline`, `Spacechar`, `Nonspacechar`, `Alphanumeric`), as character classes.

**The link and image visitor** is the pegdown visitor of the Markdown 1.0 syntax. It turns pegdown's link and image nodes into rendering-listener events:
- autolinks, mail links and wiki links become links;
- explicit links and images become links and images with a small parameter map;
- reference definitions are stored in a map from label to definition;
- reference links and reference images are looked up in that map.

Module `LinkAndImage` describes one visit as a pure function. It takes the definitions known so far and a node, and returns the definitions known afterwards plus the emitted events. Module `LinkAndImageVisitor` is the visitor as an object: a `references` map field updated in place, and the listener recorded as the sequence of events sent to it. Each of its visit methods is proved to match the pure description. Module `LinkAndImageLaws` proves the resolution rules about that description.

The visitor's collaborators are parameters of the model, grouped in `Collaborators`:
- the link and image `ResourceReferenceParser`s, as functions from string to reference;
- the `URILabelGenerator` components, as a map from scheme to generator, where a missing scheme is the lookup failure;
- the superclass's `extractText`.

## Model

| member | source | states |
|---|---|---|
| XWikiPegdownPlugin.Identifier | xwiki-rendering-syntax-markdown11/src/main/java/org/xwiki/rendering/internal/parser/markdown11/XWikiPegdownPluginParser.java:309-315 | fails exactly at the end of the input or at a character that is not alphanumeric, `-` or `_`; on a match the value is the consumed text, is non-empty and is made of identifier characters only, and the next character is not an identifier character |
| XWikiPegdownPlugin.ScriptUnits | xwiki-rendering-syntax-markdown11/src/main/java/org/xwiki/rendering/internal/parser/markdown11/XWikiPegdownPluginParser.java:117-129 | every unit is a one-character text node holding neither the marker nor a line break; no further unit starts where the repetition stops; no unit at all iff none starts at the start position |
| XWikiPegdownPlugin.UnitWidth | xwiki-rendering-syntax-markdown11/src/main/java/org/xwiki/rendering/internal/parser/markdown11/XWikiPegdownPluginParser.java:121-127 | a unit takes two input characters exactly when it is a backslash followed by a blank or tab, and one otherwise |
| XWikiPegdownPlugin.ScriptUnitsCons | xwiki-rendering-syntax-markdown11/src/main/java/org/xwiki/rendering/internal/parser/markdown11/XWikiPegdownPluginParser.java:119-128 | where a unit starts, its text node holds the last character it consumed (the blank of an escape, with the backslash dropped) and the repetition goes on after it |
| XWikiPegdownPlugin.ScriptUnitsReprint | xwiki-rendering-syntax-markdown11/src/main/java/org/xwiki/rendering/internal/parser/markdown11/XWikiPegdownPluginParser.java:117-129 | round trip: the units' text, written back with a backslash in front of each blank, is exactly the input they were read from |
| XWikiPegdownPlugin.Script | xwiki-rendering-syntax-markdown11/src/main/java/org/xwiki/rendering/internal/parser/markdown11/XWikiPegdownPluginParser.java:79-106 | a match starts and ends with the marker and holds at least one content unit, each one a one-character text node without the marker or a line break; conversely, at a marker the rule matches exactly when at least one content unit follows and the marker comes right after the last one, and then its children are those units and it ends just after that marker |
| XWikiPegdownPlugin.SuperscriptRule | xwiki-rendering-syntax-markdown11/src/main/java/org/xwiki/rendering/internal/parser/markdown11/XWikiPegdownPluginParser.java:79-89 | matches exactly when the `^` content rule does, giving a SuperscriptNode with those children and that end |
| XWikiPegdownPlugin.SubscriptRule | xwiki-rendering-syntax-markdown11/src/main/java/org/xwiki/rendering/internal/parser/markdown11/XWikiPegdownPluginParser.java:96-106 | matches exactly when the `~` content rule does, giving a SubscriptNode with those children and that end |
| XWikiPegdownPlugin.QuotedValue | xwiki-rendering-syntax-markdown11/src/main/java/org/xwiki/rendering/internal/parser/markdown11/XWikiPegdownPluginParser.java:274-284 | the value is every character between the opening mark and the next identical mark, may be empty and never contains the mark; fails iff there is no opening mark or no closing one after it |
| XWikiPegdownPlugin.UnquotedValue | xwiki-rendering-syntax-markdown11/src/main/java/org/xwiki/rendering/internal/parser/markdown11/XWikiPegdownPluginParser.java:294-304 | one or more non-space characters, none of them `]`, `/` or the start of `}}`; fails iff the first character is not allowed; stops at the first character that is not allowed |
| XWikiPegdownPlugin.UnquotedEnd | xwiki-rendering-syntax-markdown11/src/main/java/org/xwiki/rendering/internal/parser/markdown11/XWikiPegdownPluginParser.java:297-301 | every character before the end is allowed in an unquoted value, and the character at the end is not |
| XWikiPegdownPlugin.ParameterValue | xwiki-rendering-syntax-markdown11/src/main/java/org/xwiki/rendering/internal/parser/markdown11/XWikiPegdownPluginParser.java:257-260 | ordered choice: the double-quoted value if it matches, else the single-quoted one, else the unquoted one |
| XWikiPegdownPlugin.MacroParameter | xwiki-rendering-syntax-markdown11/src/main/java/org/xwiki/rendering/internal/parser/markdown11/XWikiPegdownPluginParser.java:248-262 | a match names the identifier at its start, has `=` after the syntax's spacing, and takes its value from ParameterValue after the spacing again; no identifier, no parameter; conversely, whenever an identifier, `=` after the spacing and a value after the spacing are all there, the rule matches with that name and value and ends where the value ends |
| XWikiPegdownPlugin.Parameters | xwiki-rendering-syntax-markdown11/src/main/java/org/xwiki/rendering/internal/parser/markdown11/XWikiPegdownPluginParser.java:152-155 | no parameters iff none matches at the start; when one does, it is the first item; every name is an identifier; the list ends inside the input, where no further parameter matches |
| XWikiPegdownPlugin.ParametersCons | xwiki-rendering-syntax-markdown11/src/main/java/org/xwiki/rendering/internal/parser/markdown11/XWikiPegdownPluginParser.java:152-155 | every parameter is kept, in source order: when one matches at the start, the list is that parameter followed by the list read after the syntax's separator (Sp for the Markdown syntax, Spn1 for the XWiki syntax, lines 184-188), ending where that list ends |
| XWikiPegdownPlugin.MarkdownMacroHead | xwiki-rendering-syntax-markdown11/src/main/java/org/xwiki/rendering/internal/parser/markdown11/XWikiPegdownPluginParser.java:148-156 | a match starts with `#[`, takes its id from the identifier after it and its parameters from the parameter list after `Sp`, and ends just after the `]` that follows the last parameter; conversely, whenever `#[`, an identifier and a `]` right after the parameter list are all there, the head matches with that id and those parameters |
| XWikiPegdownPlugin.BodyText | xwiki-rendering-syntax-markdown11/src/main/java/org/xwiki/rendering/internal/parser/markdown11/XWikiPegdownPluginParser.java:158-162 | after `(`, one or more characters up to the first `)` or the end of the input, with no `)` among them; fails iff there is no `(` or the `(` is followed at once by `)` or by the end of the input |
| XWikiPegdownPlugin.MacroBody | xwiki-rendering-syntax-markdown11/src/main/java/org/xwiki/rendering/internal/parser/markdown11/XWikiPegdownPluginParser.java:157-164 | the body is the non-empty text between `(` and the first `)`, and matches iff such a `)` exists; an empty `()` is not a body |
| XWikiPegdownPlugin.MarkdownMacro | xwiki-rendering-syntax-markdown11/src/main/java/org/xwiki/rendering/internal/parser/markdown11/XWikiPegdownPluginParser.java:146-166 | matches iff the head does; gives a MacroNode with the head's id and parameters and the requested inline flag; with no body it ends after `]`; with a body it has that body as its only text child and ends after the `)`. This is the corrected behaviour of the Findings row, not the rule as written, which is `XWikiPegdownPluginActions.MarkdownMacroAsWritten` |
| XWikiPegdownPlugin.XWikiOpenTag | xwiki-rendering-syntax-markdown11/src/main/java/org/xwiki/rendering/internal/parser/markdown11/XWikiPegdownPluginParser.java:181-188 | `{{`, then the identifier as the id, then the parameter list with Spn1 spacing; fails iff `{{` or the identifier is missing |
| XWikiPegdownPlugin.CloseTag | xwiki-rendering-syntax-markdown11/src/main/java/org/xwiki/rendering/internal/parser/markdown11/XWikiPegdownPluginParser.java:227-236 | the close tag matches exactly when there is `{{/`, then an identifier equal to the open tag's id in full, then Spn1 spacing and `}}`; a match ends just after that `}}` |
| XWikiPegdownPlugin.ContentEnd | xwiki-rendering-syntax-markdown11/src/main/java/org/xwiki/rendering/internal/parser/markdown11/XWikiPegdownPluginParser.java:207-217 | the content runs to the first position where a close tag for the id matches: no close tag matches before it, and one matches at it unless it is the end of the input |
| XWikiPegdownPlugin.XWikiMacro | xwiki-rendering-syntax-markdown11/src/main/java/org/xwiki/rendering/internal/parser/markdown11/XWikiPegdownPluginParser.java:176-199 | a block MacroNode with the open tag's id and parameters; with no child it is the self-closing `/}}` form; otherwise `}}` is followed by one optional newline, the raw text up to the first close tag naming the same id is the single text child, and the match ends after that close tag; conversely, an open tag followed by `/}}` always matches, and an open tag followed by `}}` matches exactly when a close tag for its id is found where the content stops |
| XWikiPegdownPlugin.XWikiContentStart | xwiki-rendering-syntax-markdown11/src/main/java/org/xwiki/rendering/internal/parser/markdown11/XWikiPegdownPluginParser.java:192-193 | the content starts just after `}}` unless a line break starts there; then it skips that one line break only: every skipped character is a line break, at most two are skipped, and two only for `\r\n` |
| XWikiPegdownPlugin.XWikiMacroClosedBy | xwiki-rendering-syntax-markdown11/src/main/java/org/xwiki/rendering/internal/parser/markdown11/XWikiPegdownPluginParser.java:189-197 | a close tag for the open tag's id anywhere after the content start makes the macro match, with its content ending no later than that close tag |
| XWikiPegdownPlugin.XWikiMacroNeedsCloseTag | xwiki-rendering-syntax-markdown11/src/main/java/org/xwiki/rendering/internal/parser/markdown11/XWikiPegdownPluginParser.java:189-197 | an open tag ending in `}}` with no close tag for the same id anywhere after it makes the macro fail |
| XWikiPegdownPlugin.BlockPluginRule | xwiki-rendering-syntax-markdown11/src/main/java/org/xwiki/rendering/internal/parser/markdown11/XWikiPegdownPluginParser.java:59-63 | the XWiki macro is tried first, then the block Markdown macro; any match is a non-inline MacroNode. The Markdown alternative is the corrected `MarkdownMacro`; the source's list holds the rule as written (see Findings) |
| XWikiPegdownPlugin.MarkdownMacroStart | xwiki-rendering-syntax-markdown11/src/main/java/org/xwiki/rendering/internal/parser/markdown11/XWikiPegdownPluginParser.java:149 | a Markdown macro match starts with `#` |
| XWikiPegdownPlugin.XWikiMacroStart | xwiki-rendering-syntax-markdown11/src/main/java/org/xwiki/rendering/internal/parser/markdown11/XWikiPegdownPluginParser.java:181 | an XWiki macro match starts with `{` |
| XWikiPegdownPlugin.InlinePluginRuleChoice | xwiki-rendering-syntax-markdown11/src/main/java/org/xwiki/rendering/internal/parser/markdown11/XWikiPegdownPluginParser.java:65-69 | the inline rules (superscript, then subscript, then the inline Markdown macro) amount to a choice by the first character: `^` superscript, `~` subscript, anything else the macro |
| XWikiPegdownPlugin.InlinePluginRuleKind | xwiki-rendering-syntax-markdown11/src/main/java/org/xwiki/rendering/internal/parser/markdown11/XWikiPegdownPluginParser.java:65-69 | an inline match is a SuperscriptNode iff it starts with `^`, a SubscriptNode iff it starts with `~`, and a MacroNode iff it starts with `#` |
| XWikiPegdownPlugin.BlockPluginRulesExclusive | xwiki-rendering-syntax-markdown11/src/main/java/org/xwiki/rendering/internal/parser/markdown11/XWikiPegdownPluginParser.java:59-63 | the two block alternatives never both match at one position, so their order decides nothing |
| XWikiPegdownExamples.SuperscriptExample | xwiki-rendering-syntax-markdown11/src/main/java/org/xwiki/rendering/internal/parser/markdown11/XWikiPegdownPluginParser.java:79-89 | on `a^b^c` the superscript starting at the first `^` has the single text child `b` and ends before `c` |
| XWikiPegdownExamples.EscapedBlankExample | xwiki-rendering-syntax-markdown11/src/main/java/org/xwiki/rendering/internal/parser/markdown11/XWikiPegdownPluginParser.java:117-129 | on `^a\ b^` the escaped blank becomes a text child holding only the blank, between `a` and `b` |
| XWikiPegdownExamples.IdentifierIs | xwiki-rendering-syntax-markdown11/src/main/java/org/xwiki/rendering/internal/parser/markdown11/XWikiPegdownPluginParser.java:309-315 | the identifier at a position is exactly the run of identifier characters there when the next character cannot continue it |
| XWikiPegdownExamples.UnquotedIs | xwiki-rendering-syntax-markdown11/src/main/java/org/xwiki/rendering/internal/parser/markdown11/XWikiPegdownPluginParser.java:257-260 | a value not starting with a quote is read unquoted, up to the first character an unquoted value cannot hold |
| XWikiPegdownExamples.MarkdownMacroExample | xwiki-rendering-syntax-markdown11/src/main/java/org/xwiki/rendering/internal/parser/markdown11/XWikiPegdownPluginParser.java:146-166 | `#[id p1=v1]` is an inline macro `id` with the one parameter `p1` = `v1`, no child, ending after `]` |
| XWikiPegdownExamples.ParametersTwo | xwiki-rendering-syntax-markdown11/src/main/java/org/xwiki/rendering/internal/parser/markdown11/XWikiPegdownPluginParser.java:152-155 | a parameter followed, after the separator, by a one-parameter list gives the list of both, in source order |
| XWikiPegdownExamples.TwoParameterExample | xwiki-rendering-syntax-markdown11/src/main/java/org/xwiki/rendering/internal/parser/markdown11/XWikiPegdownPluginParser.java:146-166 | `#[id a=1 b="x y"]` is an inline macro `id` with the parameters `a` = `1` and `b` = `x y`, in that order, no child, ending after `]`; the blank inside the quotes belongs to the value |
| XWikiPegdownExamples.MultiLineExample | xwiki-rendering-syntax-markdown11/src/main/java/org/xwiki/rendering/internal/parser/markdown11/XWikiPegdownPluginParser.java:176-199 | `{{id a=1` line break ` b=2/}}` is a self-closing macro `id` with the parameters `a` = `1` and `b` = `2`, in that order: the XWiki spacing between parameters may hold a line break |
| XWikiPegdownExamples.SelfClosingExample | xwiki-rendering-syntax-markdown11/src/main/java/org/xwiki/rendering/internal/parser/markdown11/XWikiPegdownPluginParser.java:176-199 | `{{id p1=v1 /}}` is a self-closing macro `id` with the one parameter `p1` = `v1` and no child, ending at the end of the input |
| XWikiPegdownExamples.CloseTagExactIdExample | xwiki-rendering-syntax-markdown11/src/main/java/org/xwiki/rendering/internal/parser/markdown11/XWikiPegdownPluginParser.java:227-236 | `{{/id}}` closes `id`, while `{{/idx}}` does not: the id must match in full |
| XWikiPegdownExamples.ContentEndIs | xwiki-rendering-syntax-markdown11/src/main/java/org/xwiki/rendering/internal/parser/markdown11/XWikiPegdownPluginParser.java:207-217 | the content ends at the first position where a close tag for the id matches, or at the end of the input |
| XWikiPegdownExamples.XWikiMacroWithContent | xwiki-rendering-syntax-markdown11/src/main/java/org/xwiki/rendering/internal/parser/markdown11/XWikiPegdownPluginParser.java:189-197 | when a close tag follows the content, the macro is the open tag's id and parameters with the content as its one text child, ending after the close tag |
| XWikiPegdownExamples.NestedMacroExample | xwiki-rendering-syntax-markdown11/src/main/java/org/xwiki/rendering/internal/parser/markdown11/XWikiPegdownPluginParser.java:176-236 | in `{{a}}{{b}}x{{/b}}{{/a}}` the inner close tag does not close `a`, so macro `a` holds the raw text `{{b}}x{{/b}}` as its one child and ends at the end of the input |
| XWikiPegdownPluginActions.SuperNodeBuilder.AddAsChild | xwiki-rendering-syntax-markdown11/src/main/java/org/xwiki/rendering/internal/parser/markdown11/XWikiPegdownPluginParser.java:124-126 | addAsChild appends the node as the last child |
| XWikiPegdownPluginActions.MacroNodeBuilder.constructor | xwiki-rendering-syntax-markdown11/src/main/java/org/xwiki/rendering/internal/parser/markdown11/XWikiPegdownPluginParser.java:150 | a new MacroNode has the matched id, the inline flag, no parameters and no children |
| XWikiPegdownPluginActions.MacroNodeBuilder.AddParameter | xwiki-rendering-syntax-markdown11/src/main/java/org/xwiki/rendering/internal/parser/markdown11/XWikiPegdownPluginParser.java:261 | addParameter appends one parameter and leaves the children alone |
| XWikiPegdownPluginActions.MacroNodeBuilder.AddAsChild | xwiki-rendering-syntax-markdown11/src/main/java/org/xwiki/rendering/internal/parser/markdown11/XWikiPegdownPluginParser.java:162 | addAsChild appends one child and leaves the parameters alone |
| XWikiPegdownPluginActions.CollectParameters | xwiki-rendering-syntax-markdown11/src/main/java/org/xwiki/rendering/internal/parser/markdown11/XWikiPegdownPluginParser.java:248-262 | the loop running addParameter on the macro node appends exactly the parameters that Parameters reads, in source order, and stops where Parameters stops |
| XWikiPegdownPluginActions.ScriptActions | xwiki-rendering-syntax-markdown11/src/main/java/org/xwiki/rendering/internal/parser/markdown11/XWikiPegdownPluginParser.java:83-88 | marker, the content loop attaching one text node per unit, marker: the result is exactly Script's |
| XWikiPegdownPluginActions.SuperscriptActions | xwiki-rendering-syntax-markdown11/src/main/java/org/xwiki/rendering/internal/parser/markdown11/XWikiPegdownPluginParser.java:79-89 | the superscript rule with its actions gives exactly SuperscriptRule's result |
| XWikiPegdownPluginActions.SubscriptActions | xwiki-rendering-syntax-markdown11/src/main/java/org/xwiki/rendering/internal/parser/markdown11/XWikiPegdownPluginParser.java:96-106 | the subscript rule with its actions gives exactly SubscriptRule's result |
| XWikiPegdownPluginActions.XWikiMacroActions | xwiki-rendering-syntax-markdown11/src/main/java/org/xwiki/rendering/internal/parser/markdown11/XWikiPegdownPluginParser.java:176-199 | the XWiki macro rule with its actions, which push the node, add the parameters and attach the content before the close tag is looked for, gives exactly XWikiMacro's result |
| XWikiPegdownPluginActions.ContentActions | xwiki-rendering-syntax-markdown11/src/main/java/org/xwiki/rendering/internal/parser/markdown11/XWikiPegdownPluginParser.java:207-217 | the character-by-character content loop stops exactly at ContentEnd |
| XWikiPegdownPluginActions.MarkdownMacroAsWritten | xwiki-rendering-syntax-markdown11/src/main/java/org/xwiki/rendering/internal/parser/markdown11/XWikiPegdownPluginParser.java:146-166 | the Markdown macro with its actions in source order matches iff the head does |
| XWikiPegdownPluginActions.WithBody | xwiki-rendering-syntax-markdown11/src/main/java/org/xwiki/rendering/internal/parser/markdown11/XWikiPegdownPluginParser.java:157-164 | the Optional body as written: the id, flag and parameters stay; with no body text nothing changes; with body text the text child is attached whether or not `)` follows, and the match stays just after `]` exactly when the input ends before `)` |
| XWikiPegdownPluginActions.MarkdownMacroActions | xwiki-rendering-syntax-markdown11/src/main/java/org/xwiki/rendering/internal/parser/markdown11/XWikiPegdownPluginParser.java:146-166 | the Markdown macro rule run with its actions (push, addParameter, addAsChild) gives exactly MarkdownMacroAsWritten's result |
| XWikiPegdownPluginActions.AttachBody | xwiki-rendering-syntax-markdown11/src/main/java/org/xwiki/rendering/internal/parser/markdown11/XWikiPegdownPluginParser.java:157-164 | the Optional body run on the macro node gives exactly WithBody's result and leaves the parameters alone |
| XWikiPegdownPluginActions.MarkdownMacroAsWrittenAgrees | xwiki-rendering-syntax-markdown11/src/main/java/org/xwiki/rendering/internal/parser/markdown11/XWikiPegdownPluginParser.java:146-166 | when there is no body text, or when a `)` closes it, the macro as written equals the corrected MarkdownMacro |
| XWikiPegdownPluginActions.MarkdownMacroAsWrittenDiffers | xwiki-rendering-syntax-markdown11/src/main/java/org/xwiki/rendering/internal/parser/markdown11/XWikiPegdownPluginParser.java:157-164 | when the body text runs to the end of the input with no `)`, the rule as written keeps the text child while its match ends after `]`, and the corrected rule has no child |
| XWikiPegdownPluginActions.MarkdownMacroBodyConsumed | xwiki-rendering-syntax-markdown11/src/main/java/org/xwiki/rendering/internal/parser/markdown11/XWikiPegdownPluginParser.java:157-164 | the corrected rule's text child is the input just before its end, between `(` and `)`, so the content lies inside what the macro consumed |
| XWikiPegdownPluginActions.MacroBodyBracketed | xwiki-rendering-syntax-markdown11/src/main/java/org/xwiki/rendering/internal/parser/markdown11/XWikiPegdownPluginParser.java:157-164 | a matched body is the text between the `(` at its start and the `)` at its end |
| XWikiPegdownPluginActions.UnclosedBodyExample | xwiki-rendering-syntax-markdown11/src/main/java/org/xwiki/rendering/internal/parser/markdown11/XWikiPegdownPluginParser.java:157-164 | on `#[m](abc`, the rule as written gives macro `m` with text child `abc` but ends at position 4; the corrected rule gives `m` with no child, also ending at 4 |
| LinkAndImage.AddTitle | xwiki-rendering-syntax-markdown10/src/main/java/org/xwiki/rendering/internal/parser/markdown/AbstractLinkAndImagePegdownVisitor.java:159-164 | `title` is present iff it was before or the title is non-empty, and then holds the title; an empty title changes nothing; every other key and value is kept |
| LinkAndImage.ComputeAlt | xwiki-rendering-syntax-markdown10/src/main/java/org/xwiki/rendering/internal/parser/markdown/AbstractLinkAndImagePegdownVisitor.java:126-137 | the label of the scheme's generator when one is registered, else the raw reference string |
| LinkAndImage.ImageParameters | xwiki-rendering-syntax-markdown10/src/main/java/org/xwiki/rendering/internal/parser/markdown/AbstractLinkAndImagePegdownVisitor.java:106-117 | keys only among `alt` and `title`; `alt` iff the extracted alt is non-empty and differs from the computed alt, holding it; `title` iff the title is non-empty, holding it |
| LinkAndImage.LinkKey | xwiki-rendering-syntax-markdown10/src/main/java/org/xwiki/rendering/internal/parser/markdown/AbstractLinkAndImagePegdownVisitor.java:208-213 | a reference link without a reference key is looked up under its own text, and one with a reference key under the key's text |
| LinkAndImage.UnresolvedTail | xwiki-rendering-syntax-markdown10/src/main/java/org/xwiki/rendering/internal/parser/markdown/AbstractLinkAndImagePegdownVisitor.java:229-239 | what an unresolved reference link writes after its children is text events only; it starts and ends with `]`; it is `]` alone iff there is no separator; with a separator it is `]`, the separator, `[`, the key when there is a reference key, and `]` |
| LinkAndImage.VisitNode | xwiki-rendering-syntax-markdown10/src/main/java/org/xwiki/rendering/internal/parser/markdown/AbstractLinkAndImagePegdownVisitor.java:176-201 | no definition is ever forgotten; a reference definition emits nothing and stores its definition under its extracted text; a reference image changes no definition and emits nothing iff its key is undefined |
| LinkAndImage.VisitChildren | xwiki-rendering-syntax-markdown10/src/main/java/org/xwiki/rendering/internal/parser/markdown/AbstractLinkAndImagePegdownVisitor.java:92 | visiting children never forgets a definition |
| LinkAndImageLaws.UnclosedAppend | xwiki-rendering-syntax-markdown10/src/main/java/org/xwiki/rendering/internal/parser/markdown/AbstractLinkAndImagePegdownVisitor.java:148-150 | reading the link nesting of two event runs in a row is reading the first, then the second from where it left off |
| LinkAndImageLaws.UnclosedUnder | xwiki-rendering-syntax-markdown10/src/main/java/org/xwiki/rendering/internal/parser/markdown/AbstractLinkAndImagePegdownVisitor.java:148-150 | links already open outside do not change how a well-behaved event run nests |
| LinkAndImageLaws.WellNestedConcat | xwiki-rendering-syntax-markdown10/src/main/java/org/xwiki/rendering/internal/parser/markdown/AbstractLinkAndImagePegdownVisitor.java:148-150 | two well-nested event runs concatenate to a well-nested run |
| LinkAndImageLaws.WellNestedEnclosed | xwiki-rendering-syntax-markdown10/src/main/java/org/xwiki/rendering/internal/parser/markdown/AbstractLinkAndImagePegdownVisitor.java:225-227 | well-nested events between a beginLink and the matching endLink are well nested |
| LinkAndImageLaws.NoLinkUnclosed | xwiki-rendering-syntax-markdown10/src/main/java/org/xwiki/rendering/internal/parser/markdown/AbstractLinkAndImagePegdownVisitor.java:199 | events with no beginLink or endLink leave the open links as they are |
| LinkAndImageLaws.VisitNodeWellNested | xwiki-rendering-syntax-markdown10/src/main/java/org/xwiki/rendering/internal/parser/markdown/AbstractLinkAndImagePegdownVisitor.java:95-249 | every node's events are well nested: each endLink closes the latest open beginLink with the same reference, free-standing flag and parameters, and none is left open |
| LinkAndImageLaws.VisitChildrenWellNested | xwiki-rendering-syntax-markdown10/src/main/java/org/xwiki/rendering/internal/parser/markdown/AbstractLinkAndImagePegdownVisitor.java:149 | the events of any sequence of children are well nested |
| LinkAndImageLaws.VisitChildrenAppend | xwiki-rendering-syntax-markdown10/src/main/java/org/xwiki/rendering/internal/parser/markdown/AbstractLinkAndImagePegdownVisitor.java:92 | visiting two runs of children in a row is visiting the first, then the second with the definitions the first left |
| LinkAndImageLaws.LastDefinitionWins | xwiki-rendering-syntax-markdown10/src/main/java/org/xwiki/rendering/internal/parser/markdown/AbstractLinkAndImagePegdownVisitor.java:176-181 | after any children followed by a reference definition, the label maps to that last definition's url and title, whatever definitions came before, and the definition adds no event |
| LinkAndImageLaws.UseBeforeDefinition | xwiki-rendering-syntax-markdown10/src/main/java/org/xwiki/rendering/internal/parser/markdown/AbstractLinkAndImagePegdownVisitor.java:204-241 | a reference link visited before its definition is not resolved: its first event is the literal `[`, and the label is defined only afterwards |
| LinkAndImageLaws.DefinitionBeforeUse | xwiki-rendering-syntax-markdown10/src/main/java/org/xwiki/rendering/internal/parser/markdown/AbstractLinkAndImagePegdownVisitor.java:215-227 | a reference link visited after its definition starts with beginLink to the parsed definition url, with `title` iff the definition's title is non-empty, and ends with the matching endLink |
| LinkAndImageLaws.PlainTextAppend | xwiki-rendering-syntax-markdown10/src/main/java/org/xwiki/rendering/internal/parser/markdown/AbstractLinkAndImagePegdownVisitor.java:229-238 | the plain text of two event runs in a row is the two texts in a row |
| LinkAndImageLaws.TextChildren | xwiki-rendering-syntax-markdown10/src/main/java/org/xwiki/rendering/internal/parser/markdown/AbstractLinkAndImagePegdownVisitor.java:230 | plain-text children define nothing, and their events read back as their text |
| LinkAndImageLaws.UnresolvedRefLinkReprint | xwiki-rendering-syntax-markdown10/src/main/java/org/xwiki/rendering/internal/parser/markdown/AbstractLinkAndImagePegdownVisitor.java:228-240 | an unresolved reference link with plain-text children is written back as the literal text `[` children `]`, then, when there is a separator, the separator, `[`, the key only when the link has a reference key, and `]` |
| LinkAndImageLaws.UnresolvedTailText | xwiki-rendering-syntax-markdown10/src/main/java/org/xwiki/rendering/internal/parser/markdown/AbstractLinkAndImagePegdownVisitor.java:231-239 | the literal text after the children of an unresolved reference link, by whether it has a separator and a reference key |
| LinkAndImageLaws.SimpleLinkEvents | xwiki-rendering-syntax-markdown10/src/main/java/org/xwiki/rendering/internal/parser/markdown/AbstractLinkAndImagePegdownVisitor.java:95-100 | an autolink, mail link or wiki link emits exactly beginLink then endLink, with the same reference and empty parameters; the reference is parsed from the text, prefixed with `mailto:` for a mail link (lines 167-173); only a wiki link (lines 244-249) is not free-standing; no definition changes |
| LinkAndImageLaws.ExpLinkEvents | xwiki-rendering-syntax-markdown10/src/main/java/org/xwiki/rendering/internal/parser/markdown/AbstractLinkAndImagePegdownVisitor.java:140-151 | an explicit link encloses its children's events between a beginLink and an endLink that are not free-standing, have the same reference, and have `title` iff the title is non-empty, holding the link's title |
| LinkAndImageLaws.ExpImageEvents | xwiki-rendering-syntax-markdown10/src/main/java/org/xwiki/rendering/internal/parser/markdown/AbstractLinkAndImagePegdownVisitor.java:103-120 | an explicit image emits exactly one onImage, not free-standing, of the parsed url, and changes no definition; its only possible parameters are `alt`, present iff the extracted alt text is non-empty and differs from the computed alt, and `title`, present iff the title is non-empty, each holding that text |
| LinkAndImageLaws.RefImageEvents | xwiki-rendering-syntax-markdown10/src/main/java/org/xwiki/rendering/internal/parser/markdown/AbstractLinkAndImagePegdownVisitor.java:184-201 | a reference image with a defined key emits exactly one onImage, not free-standing, of the parsed definition url, whose only possible parameter is `title`, present iff the definition's title is non-empty; an undefined key emits nothing; no definition changes |
| LinkAndImageLaws.RefLinkResolvedEvents | xwiki-rendering-syntax-markdown10/src/main/java/org/xwiki/rendering/internal/parser/markdown/AbstractLinkAndImagePegdownVisitor.java:215-227 | a reference link with a defined key encloses exactly its children's events between a beginLink and the matching endLink, not free-standing, to the parsed definition url, with `title` iff the definition's title is non-empty, holding that title |
| LinkAndImageVisitor.Visitor.constructor | xwiki-rendering-syntax-markdown10/src/main/java/org/xwiki/rendering/internal/parser/markdown/AbstractLinkAndImagePegdownVisitor.java:92 | a new visitor knows no definitions and has emitted nothing |
| LinkAndImageVisitor.Visitor.Emit | xwiki-rendering-syntax-markdown10/src/main/java/org/xwiki/rendering/internal/parser/markdown/AbstractLinkAndImagePegdownVisitor.java:98-99 | one listener call is appended to the events; the definitions stay |
| LinkAndImageVisitor.Visitor.Visit | xwiki-rendering-syntax-markdown10/src/main/java/org/xwiki/rendering/internal/parser/markdown/AbstractLinkAndImagePegdownVisitor.java:94-249 | dispatching a node by kind updates the map and the events exactly as VisitNode describes |
| LinkAndImageVisitor.Visitor.VisitText | xwiki-rendering-syntax-markdown10/src/main/java/org/xwiki/rendering/internal/parser/markdown/AbstractLinkAndImagePegdownVisitor.java:230 | a text node is written out as one text event, exactly as VisitNode describes, and no definition changes |
| LinkAndImageVisitor.Visitor.VisitAutoLink | xwiki-rendering-syntax-markdown10/src/main/java/org/xwiki/rendering/internal/parser/markdown/AbstractLinkAndImagePegdownVisitor.java:95-100 | new state and events exactly as VisitNode describes |
| LinkAndImageVisitor.Visitor.VisitMailLink | xwiki-rendering-syntax-markdown10/src/main/java/org/xwiki/rendering/internal/parser/markdown/AbstractLinkAndImagePegdownVisitor.java:167-173 | new state and events exactly as VisitNode describes |
| LinkAndImageVisitor.Visitor.VisitWikiLink | xwiki-rendering-syntax-markdown10/src/main/java/org/xwiki/rendering/internal/parser/markdown/AbstractLinkAndImagePegdownVisitor.java:244-249 | new state and events exactly as VisitNode describes |
| LinkAndImageVisitor.Visitor.VisitExpLink | xwiki-rendering-syntax-markdown10/src/main/java/org/xwiki/rendering/internal/parser/markdown/AbstractLinkAndImagePegdownVisitor.java:140-151 | new state and events exactly as VisitNode describes |
| LinkAndImageVisitor.Visitor.VisitExpImage | xwiki-rendering-syntax-markdown10/src/main/java/org/xwiki/rendering/internal/parser/markdown/AbstractLinkAndImagePegdownVisitor.java:103-120 | new state and events exactly as VisitNode describes |
| LinkAndImageVisitor.Visitor.VisitReference | xwiki-rendering-syntax-markdown10/src/main/java/org/xwiki/rendering/internal/parser/markdown/AbstractLinkAndImagePegdownVisitor.java:176-181 | the map is updated in place exactly as VisitNode describes, and nothing is emitted |
| LinkAndImageVisitor.Visitor.VisitRefImage | xwiki-rendering-syntax-markdown10/src/main/java/org/xwiki/rendering/internal/parser/markdown/AbstractLinkAndImagePegdownVisitor.java:184-201 | new state and events exactly as VisitNode describes |
| LinkAndImageVisitor.Visitor.VisitRefLink | xwiki-rendering-syntax-markdown10/src/main/java/org/xwiki/rendering/internal/parser/markdown/AbstractLinkAndImagePegdownVisitor.java:204-241 | new state and events exactly as VisitNode describes, whichever of the key, separator and resolution cases applies |
| LinkAndImageVisitor.Visitor.VisitChildren | xwiki-rendering-syntax-markdown10/src/main/java/org/xwiki/rendering/internal/parser/markdown/AbstractLinkAndImagePegdownVisitor.java:149 | visiting the children one by one in a loop updates the map and the events exactly as the pure VisitChildren describes |
| LinkAndImageVisitor.RefLinkIs | xwiki-rendering-syntax-markdown10/src/main/java/org/xwiki/rendering/internal/parser/markdown/AbstractLinkAndImagePegdownVisitor.java:208-240 | a reference link is looked up under its key; when the key is defined it is a titled link enclosing the children, else `[`, the children and the literal tail |

## Left out

- The parboiled runtime is not modelled: rule-object caching (`@Cached`), the parse runner and the 1000 ms parse timeout. Rules are total functions over the whole input.
- The host pegdown grammar is reduced to ASCII character classes. Alphanumeric is `[A-Za-z0-9]`, a space char is a blank or a tab, and a newline is `\n`, `\r\n` or `\r`. pegdown's own definitions are not part of this model.
- pegdown's `addAsChild` appends a text node's text to the parent's last child when that child is also a text node. So in pegdown, `^abc^` has one child `abc`. The model keeps one text node per content unit, and `^abc^` has three children `a`, `b`, `c`. The text is the same either way: `ScriptUnitsReprint` shows that the children's text, joined, gives back the content. The macro rules attach at most one text child, so merging does not affect them. `Var.set` and `MacroParameterNode.setValue` are modelled by building the parameter value once it is known.
- Failed alternatives leave no trace in the pure rules. The only action whose effect outlives a failure is the Markdown macro's body child, and it is modelled explicitly (see Findings).
- The listener is the sequence of events it receives. Rendering is not modelled.
- The link and image reference parsers, the component-manager lookup of label generators, and `extractText` are parameters of the model. Their behaviour is not known here. A failed generator lookup is a scheme missing from the map.
- The superclass of the visitor is not part of this model. Text and every node kind the visitor does not handle appear as `TextNode`, which yields one text event. The superclass's `visitChildren` appears as the loop `Visitor.VisitChildren`, and its `visit(String)` as a text event.
- Absent (null) titles are modelled as the empty string. For both, `isNotEmpty` is false.
- A reference image whose reference key is null is not modelled: what `extractText(null)` does belongs to the superclass. Such a node always has a key in the model.
- Forward references: the visitor fills its map as it visits. A reference link or image resolves only against definitions visited before it (`UseBeforeDefinition`, `DefinitionBeforeUse`). Whether a definition placed later in the document still resolves depends on the order in which the superclass visits the document, which is not part of this model.
- DefaultXHTMLImageTypeRenderer is not part of this model. It only returns the reference string and holds no logic of its own.
- XWikiPegdownPlugin.BlockPluginRule: its Markdown alternative is the corrected `MarkdownMacro`, while the source's list holds the Markdown macro as written. The two differ only on a body with no closing `)` (Findings).
- XWikiPegdownPlugin.InlinePluginRule: its Markdown alternative is the corrected `MarkdownMacro` too, for the same reason. It has no contract of its own. What it does is stated by `InlinePluginRuleChoice` and `InlinePluginRuleKind`.

## Findings

| source | as written | input that shows it | evidently intended | confidence | as-written member | corrected member |
|---|---|---|---|---|---|---|
| xwiki-rendering-syntax-markdown11/src/main/java/org/xwiki/rendering/internal/parser/markdown11/XWikiPegdownPluginParser.java:157-164 | Inside the Optional body, the body text node is attached to the MacroNode with addAsChild before the closing `)` is matched. When the input ends without a `)`, the Optional fails and the position goes back to just after `]`, but the child stays attached. The macro then holds content it did not consume, and that text is read again after the macro. | `#[m](abc` | An unclosed body is not consumed and gives the macro no content: macro `m` with no child, match ending at 4 | medium, not executed; it depends on addAsChild changing the parent node in place while parboiled only restores its value stack | XWikiPegdownPluginActions.UnclosedBodyExample | XWikiPegdownPluginActions.MarkdownMacroBodyConsumed |
