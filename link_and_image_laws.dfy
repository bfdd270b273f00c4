/** Properties of the link and image visit: links are always closed in the order they were opened,
    definitions take effect for what follows them only, the last definition of a label wins, and
    an unresolved reference link is written back as the Markdown text it came from. */
module LinkAndImageLaws {
  import opened LinkAndImage
  import opened SeqFacts

  // ---------------------------------------------------------------- well-nested events

  /** `e` ends the link that `b` began: same reference, same free-standing flag, same parameters. */
  predicate Closes(b: Event, e: Event)
  {
    b.BeginLink? && e.EndLink? && b.reference == e.reference && b.freeStanding == e.freeStanding &&
    b.parameters == e.parameters
  }

  /** Reads the events from left to right, keeping the links still open, innermost first; None when
      an end event does not close the innermost open link. */
  function Unclosed(es: seq<Event>, open: seq<Event>): Option<seq<Event>>
    decreases |es|
  {
    if es == [] then Some(open)
    else if es[0].BeginLink? then Unclosed(es[1..], [es[0]] + open)
    else if es[0].EndLink? then (if open != [] && Closes(open[0], es[0]) then Unclosed(es[1..], open[1..]) else None)
    else Unclosed(es[1..], open)
  }

  /** Every link that is begun is ended, by a matching end event, innermost first. */
  predicate WellNested(es: seq<Event>)
  {
    Unclosed(es, []) == Some([])
  }

  lemma {:induction false} UnclosedAppend(a: seq<Event>, b: seq<Event>, open: seq<Event>)
    ensures Unclosed(a + b, open) == if Unclosed(a, open).None? then None else Unclosed(b, Unclosed(a, open).value)
    decreases |a|
  {
    if a == [] {
      assert a + b == b;
    } else {
      assert (a + b)[0] == a[0] && (a + b)[1..] == a[1..] + b;
      if a[0].BeginLink? {
        UnclosedAppend(a[1..], b, [a[0]] + open);
      } else if a[0].EndLink? {
        if open != [] && Closes(open[0], a[0]) {
          UnclosedAppend(a[1..], b, open[1..]);
        }
      } else {
        UnclosedAppend(a[1..], b, open);
      }
    }
  }

  /** Links that are already open further out do not change how `a` is read. */
  lemma {:induction false} UnclosedUnder(a: seq<Event>, open: seq<Event>, outer: seq<Event>)
    requires Unclosed(a, open).Some?
    ensures Unclosed(a, open + outer) == Some(Unclosed(a, open).value + outer)
    decreases |a|
  {
    if a != [] {
      if a[0].BeginLink? {
        Associative([a[0]], open, outer);
        UnclosedUnder(a[1..], [a[0]] + open, outer);
      } else if a[0].EndLink? {
        assert (open + outer)[0] == open[0] && (open + outer)[1..] == open[1..] + outer;
        UnclosedUnder(a[1..], open[1..], outer);
      } else {
        UnclosedUnder(a[1..], open, outer);
      }
    }
  }

  lemma WellNestedConcat(a: seq<Event>, b: seq<Event>)
    requires WellNested(a) && WellNested(b)
    ensures WellNested(a + b)
  {
    UnclosedAppend(a, b, []);
  }

  lemma WellNestedEnclosed(reference: ResourceReference, freeStanding: bool, parameters: Parameters, inner: seq<Event>)
    requires WellNested(inner)
    ensures WellNested(Enclosed(reference, freeStanding, parameters, inner))
  {
    var b := BeginLink(reference, freeStanding, parameters);
    var e := EndLink(reference, freeStanding, parameters);
    var es := Enclosed(reference, freeStanding, parameters, inner);
    assert es[0] == b && es[1..] == inner + [e];
    AppendEmpty([b]);
    UnclosedAppend(inner, [e], [b]);
    UnclosedUnder(inner, [], [b]);
    assert [e][1..] == [];
    assert Unclosed([e], [b]) == Some([]);
  }

  /** Events that neither begin nor end a link leave the open links as they are. */
  lemma {:induction false} NoLinkUnclosed(es: seq<Event>, open: seq<Event>)
    requires forall k :: 0 <= k < |es| ==> !es[k].BeginLink? && !es[k].EndLink?
    ensures Unclosed(es, open) == Some(open)
    decreases |es|
  {
    if es != [] {
      NoLinkUnclosed(es[1..], open);
    }
  }

  /** The events of any visit are well nested. */
  lemma {:induction false} VisitNodeWellNested(env: Collaborators, refs: References, n: Node)
    ensures WellNested(VisitNode(env, refs, n).emitted)
    decreases n
  {
    var r := VisitNode(env, refs, n);
    if n.AutoLinkNode? || n.MailLinkNode? || n.WikiLinkNode? {
      WellNestedEnclosed(r.emitted[0].reference, r.emitted[0].freeStanding, map[], []);
    } else if n.ExpLinkNode? {
      var inner := VisitChildren(env, refs, n.children);
      VisitChildrenWellNested(env, refs, n.children);
      WellNestedEnclosed(env.parseLink(n.url), false, AddTitle(map[], n.title), inner.emitted);
    } else if n.RefLinkNode? {
      var inner := VisitChildren(env, refs, n.children);
      VisitChildrenWellNested(env, refs, n.children);
      var key := LinkKey(env, n);
      if key in refs {
        WellNestedEnclosed(env.parseLink(refs[key].url), false, AddTitle(map[], refs[key].title), inner.emitted);
      } else {
        NoLinkUnclosed([OnText(LinkOpen)], []);
        NoLinkUnclosed(UnresolvedTail(env, n), []);
        WellNestedConcat([OnText(LinkOpen)], inner.emitted);
        WellNestedConcat([OnText(LinkOpen)] + inner.emitted, UnresolvedTail(env, n));
      }
    } else {
      NoLinkUnclosed(r.emitted, []);
    }
  }

  lemma {:induction false} VisitChildrenWellNested(env: Collaborators, refs: References, cs: seq<Node>)
    ensures WellNested(VisitChildren(env, refs, cs).emitted)
    decreases cs
  {
    if cs != [] {
      var first := VisitNode(env, refs, cs[0]);
      VisitNodeWellNested(env, refs, cs[0]);
      VisitChildrenWellNested(env, first.references, cs[1..]);
      WellNestedConcat(first.emitted, VisitChildren(env, first.references, cs[1..]).emitted);
    }
  }

  // ---------------------------------------------------------------- definitions

  /** Visiting `a` and then `b` is visiting `b` with the definitions `a` left behind. */
  lemma {:induction false} VisitChildrenAppend(env: Collaborators, refs: References, a: seq<Node>, b: seq<Node>)
    ensures var x := VisitChildren(env, refs, a);
            var y := VisitChildren(env, x.references, b);
            VisitChildren(env, refs, a + b) == Outcome(y.references, x.emitted + y.emitted)
    decreases |a|
  {
    if a == [] {
      assert a + b == b;
    } else {
      assert (a + b)[0] == a[0] && (a + b)[1..] == a[1..] + b;
      var first := VisitNode(env, refs, a[0]);
      VisitChildrenAppend(env, first.references, a[1..], b);
      var x := VisitChildren(env, first.references, a[1..]);
      var y := VisitChildren(env, x.references, b);
      Associative(first.emitted, x.emitted, y.emitted);
    }
  }

  /** Whatever came before, the last definition of a label is the one stored, and defining emits
      nothing. */
  lemma LastDefinitionWins(env: Collaborators, refs: References, cs: seq<Node>, d: Node)
    requires d.ReferenceNode?
    ensures var before := VisitChildren(env, refs, cs);
            var after := VisitChildren(env, refs, cs + [d]);
            after.references == before.references[env.extractText(d) := Definition(d.url, d.title)] &&
            after.emitted == before.emitted
  {
    VisitChildrenAppend(env, refs, cs, [d]);
    var before := VisitChildren(env, refs, cs);
    assert VisitChildren(env, before.references, [d]) ==
      Outcome(before.references[env.extractText(d) := Definition(d.url, d.title)], []);
    AppendEmpty(before.emitted);
  }

  /** Visiting a single child is visiting that node. */
  lemma VisitSingle(env: Collaborators, refs: References, n: Node)
    ensures VisitChildren(env, refs, [n]) == VisitNode(env, refs, n)
  {
    assert [n][0] == n && [n][1..] == [];
    AppendEmpty(VisitNode(env, refs, n).emitted);
  }

  /** Visiting two children in a row. */
  lemma VisitPair(env: Collaborators, refs: References, a: Node, b: Node)
    ensures var x := VisitNode(env, refs, a);
            var y := VisitNode(env, x.references, b);
            VisitChildren(env, refs, [a, b]) == Outcome(y.references, x.emitted + y.emitted)
  {
    assert [a, b] == [a] + [b];
    VisitChildrenAppend(env, refs, [a], [b]);
    VisitSingle(env, refs, a);
    VisitSingle(env, VisitNode(env, refs, a).references, b);
  }

  /** A reference link visited before the definition of its key is not resolved by that later
      definition: it is written back as literal text, although the key is defined afterwards. */
  lemma UseBeforeDefinition(env: Collaborators, refs: References, link: Node, d: Node)
    requires link.RefLinkNode? && d.ReferenceNode?
    requires LinkKey(env, link) == env.extractText(d) && LinkKey(env, link) !in refs
    ensures var r := VisitChildren(env, refs, [link, d]);
            r.emitted != [] && r.emitted[0] == OnText(LinkOpen) && LinkKey(env, link) in r.references
  {
    VisitPair(env, refs, link, d);
  }

  /** A reference link visited after the definition of its key becomes a link to the defined URL,
      with the definition's title as its only possible parameter. */
  lemma DefinitionBeforeUse(env: Collaborators, refs: References, d: Node, link: Node)
    requires link.RefLinkNode? && d.ReferenceNode?
    requires LinkKey(env, link) == env.extractText(d)
    ensures var r := VisitChildren(env, refs, [d, link]);
            var p := AddTitle(map[], d.title);
            |r.emitted| >= 2 && r.emitted[0] == BeginLink(env.parseLink(d.url), false, p) &&
            r.emitted[|r.emitted| - 1] == EndLink(env.parseLink(d.url), false, p)
  {
    VisitPair(env, refs, d, link);
  }

  // ---------------------------------------------------------------- literal text

  /** The plain text carried by a sequence of events. */
  function PlainText(es: seq<Event>): string
    decreases |es|
  {
    if es == [] then "" else (if es[0].OnText? then es[0].text else "") + PlainText(es[1..])
  }

  /** The text of a sequence of text nodes. */
  function NodesText(cs: seq<Node>): string
    requires forall k :: 0 <= k < |cs| ==> cs[k].TextNode?
    decreases |cs|
  {
    if cs == [] then "" else cs[0].text + NodesText(cs[1..])
  }

  lemma {:induction false} PlainTextAppend(a: seq<Event>, b: seq<Event>)
    ensures PlainText(a + b) == PlainText(a) + PlainText(b)
    decreases |a|
  {
    if a == [] {
      assert a + b == b;
    } else {
      assert (a + b)[0] == a[0] && (a + b)[1..] == a[1..] + b;
      PlainTextAppend(a[1..], b);
      var h := if a[0].OnText? then a[0].text else "";
      Associative(h, PlainText(a[1..]), PlainText(b));
    }
  }

  /** Text children are written out as their text and define nothing. */
  lemma {:induction false} TextChildren(env: Collaborators, refs: References, cs: seq<Node>)
    requires forall k :: 0 <= k < |cs| ==> cs[k].TextNode?
    ensures VisitChildren(env, refs, cs).references == refs
    ensures PlainText(VisitChildren(env, refs, cs).emitted) == NodesText(cs)
    decreases |cs|
  {
    if cs != [] {
      TextChildren(env, refs, cs[1..]);
      var rest := VisitChildren(env, refs, cs[1..]);
      PlainTextAppend([OnText(cs[0].text)], rest.emitted);
    }
  }

  /** An unresolved reference link whose content is plain text is written back as the Markdown it
      was read from: "[text]", followed, when there was a separator, by the separator and "[key]",
      with the key left out when the link had no reference key of its own. */
  lemma UnresolvedRefLinkReprint(env: Collaborators, refs: References, n: Node)
    requires n.RefLinkNode? && LinkKey(env, n) !in refs
    requires forall k :: 0 <= k < |n.children| ==> n.children[k].TextNode?
    ensures var r := VisitNode(env, refs, n);
            r.references == refs &&
            PlainText(r.emitted) ==
              LinkOpen + NodesText(n.children) + LinkClose +
              if n.separatorSpace.None? then ""
              else n.separatorSpace.value + LinkOpen + (if n.referenceKey.Some? then LinkKey(env, n) else "") + LinkClose
  {
    var inner := VisitChildren(env, refs, n.children);
    TextChildren(env, refs, n.children);
    PlainTextAppend([OnText(LinkOpen)], inner.emitted);
    PlainTextAppend([OnText(LinkOpen)] + inner.emitted, UnresolvedTail(env, n));
    UnresolvedTailText(env, n);
  }

  /** The text after the children of an unresolved reference link. */
  lemma UnresolvedTailText(env: Collaborators, n: Node)
    requires n.RefLinkNode?
    ensures PlainText(UnresolvedTail(env, n)) ==
              LinkClose +
              if n.separatorSpace.None? then ""
              else n.separatorSpace.value + LinkOpen + (if n.referenceKey.Some? then LinkKey(env, n) else "") + LinkClose
  {
    if n.separatorSpace.Some? {
      var k: seq<Event> := if n.referenceKey.Some? then [OnText(LinkKey(env, n))] else [];
      var mid := [OnText(n.separatorSpace.value), OnText(LinkOpen)] + k;
      PlainTextAppend([OnText(LinkClose)], mid + [OnText(LinkClose)]);
      PlainTextAppend(mid, [OnText(LinkClose)]);
      PlainTextAppend([OnText(n.separatorSpace.value), OnText(LinkOpen)], k);
      assert UnresolvedTail(env, n) == [OnText(LinkClose)] + (mid + [OnText(LinkClose)]);
    }
  }

  // ---------------------------------------------------------------- single nodes

  /** Autolinks, mail links and wiki links emit exactly a begin and the matching end of one link,
      with no parameters and no content; only wiki links are not free-standing, and a mail link's
      reference is parsed from its address behind "mailto:". */
  lemma SimpleLinkEvents(env: Collaborators, refs: References, n: Node)
    requires n.AutoLinkNode? || n.MailLinkNode? || n.WikiLinkNode?
    ensures var r := VisitNode(env, refs, n);
            r.references == refs && |r.emitted| == 2 && Closes(r.emitted[0], r.emitted[1]) &&
            r.emitted[0].parameters == map[] && (r.emitted[0].freeStanding <==> !n.WikiLinkNode?) &&
            r.emitted[0].reference == env.parseLink(if n.MailLinkNode? then MailtoPrefix + n.text else n.text)
  {
  }

  /** An explicit link encloses exactly the events of its children, with a title parameter, holding
      the link's title, exactly when that title is non-empty. */
  lemma ExpLinkEvents(env: Collaborators, refs: References, n: Node)
    requires n.ExpLinkNode?
    ensures var r := VisitNode(env, refs, n);
            var inner := VisitChildren(env, refs, n.children);
            |r.emitted| == |inner.emitted| + 2 && r.emitted[1..|r.emitted| - 1] == inner.emitted &&
            Closes(r.emitted[0], r.emitted[|r.emitted| - 1]) && !r.emitted[0].freeStanding &&
            r.emitted[0].reference == env.parseLink(n.url) &&
            r.emitted[0].parameters.Keys <= {TitleAttribute} &&
            (TitleAttribute in r.emitted[0].parameters <==> n.title != "") &&
            (TitleAttribute in r.emitted[0].parameters ==> r.emitted[0].parameters[TitleAttribute] == n.title)
  {
    var inner := VisitChildren(env, refs, n.children);
    var r := VisitNode(env, refs, n);
    assert r.emitted[1..|r.emitted| - 1] == inner.emitted;
  }

  /** An explicit image emits one image event, never free-standing, of the parsed url. Its only
      possible parameters are "alt", present exactly when the extracted alt text is non-empty and
      differs from the generated label, and "title", present exactly when the title is non-empty;
      each holds that text. No definition changes. */
  lemma ExpImageEvents(env: Collaborators, refs: References, n: Node)
    requires n.ExpImageNode?
    ensures var r := VisitNode(env, refs, n);
            var reference := env.parseImage(n.url);
            var alt := env.extractText(n);
            r.references == refs &&
            r.emitted == [OnImage(reference, false, ImageParameters(env, reference, alt, n.title))] &&
            var p := r.emitted[0].parameters;
            p.Keys <= {AltAttribute, TitleAttribute} &&
            (AltAttribute in p <==> alt != "" && alt != ComputeAlt(env, reference)) &&
            (AltAttribute in p ==> p[AltAttribute] == alt) &&
            (TitleAttribute in p <==> n.title != "") &&
            (TitleAttribute in p ==> p[TitleAttribute] == n.title)
  {
  }

  /** A reference image whose key is defined emits one image event, never free-standing, of the
      defined URL, with a title parameter exactly when the definition has a non-empty title; an
      undefined key emits nothing. No definition changes either way. */
  lemma RefImageEvents(env: Collaborators, refs: References, n: Node)
    requires n.RefImageNode?
    ensures var r := VisitNode(env, refs, n);
            var key := env.extractText(n.imageKey);
            r.references == refs &&
            (key !in refs ==> r.emitted == []) &&
            (key in refs ==>
               |r.emitted| == 1 && r.emitted[0].OnImage? && !r.emitted[0].freeStanding &&
               r.emitted[0].reference == env.parseImage(refs[key].url) &&
               r.emitted[0].parameters.Keys <= {TitleAttribute} &&
               (TitleAttribute in r.emitted[0].parameters <==> refs[key].title != "") &&
               (TitleAttribute in r.emitted[0].parameters ==> r.emitted[0].parameters[TitleAttribute] == refs[key].title))
  {
  }

  /** A reference link whose key is defined encloses exactly the events of its children in a link,
      not free-standing, to the defined URL, with a title parameter, holding the definition's title,
      exactly when that title is non-empty. */
  lemma RefLinkResolvedEvents(env: Collaborators, refs: References, n: Node)
    requires n.RefLinkNode? && LinkKey(env, n) in refs
    ensures var r := VisitNode(env, refs, n);
            var inner := VisitChildren(env, refs, n.children);
            var d := refs[LinkKey(env, n)];
            r.references == inner.references &&
            |r.emitted| == |inner.emitted| + 2 && r.emitted[1..|r.emitted| - 1] == inner.emitted &&
            Closes(r.emitted[0], r.emitted[|r.emitted| - 1]) && !r.emitted[0].freeStanding &&
            r.emitted[0].reference == env.parseLink(d.url) &&
            r.emitted[0].parameters.Keys <= {TitleAttribute} &&
            (TitleAttribute in r.emitted[0].parameters <==> d.title != "") &&
            (TitleAttribute in r.emitted[0].parameters ==> r.emitted[0].parameters[TitleAttribute] == d.title)
  {
    var inner := VisitChildren(env, refs, n.children);
    var r := VisitNode(env, refs, n);
    assert r.emitted[1..|r.emitted| - 1] == inner.emitted;
  }
}
