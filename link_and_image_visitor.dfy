/** The link and image visitor as the object it is: a map of reference definitions that visiting
    ReferenceNodes fills in place, and the listener, recorded as the list of events it has been
    sent. Each visit method is proved to do what VisitNode describes. */
module LinkAndImageVisitor {
  import opened LinkAndImage
  import opened SeqFacts

  class Visitor {
    const env: Collaborators
    /** Reference definitions seen so far, by label. */
    var references: References
    /** Everything sent to the listener so far, in order. */
    var events: seq<Event>

    constructor (env: Collaborators)
      ensures this.env == env && references == map[] && events == []
    {
      this.env := env;
      references := map[];
      events := [];
    }

    /** A call on the listener. */
    method Emit(e: Event)
      modifies this
      ensures events == old(events) + [e] && references == old(references)
    {
      events := events + [e];
    }

    /** Dispatches to the visit method for the node's kind. */
    method Visit(n: Node)
      modifies this
      ensures references == VisitNode(env, old(references), n).references
      ensures events == old(events) + VisitNode(env, old(references), n).emitted
      decreases n, 1
    {
      if n.TextNode? {
        VisitText(n);
      } else if n.AutoLinkNode? {
        VisitAutoLink(n);
      } else if n.MailLinkNode? {
        VisitMailLink(n);
      } else if n.WikiLinkNode? {
        VisitWikiLink(n);
      } else if n.ExpLinkNode? {
        VisitExpLink(n);
      } else if n.ExpImageNode? {
        VisitExpImage(n);
      } else if n.ReferenceNode? {
        VisitReference(n);
      } else if n.RefLinkNode? {
        VisitRefLink(n);
      } else {
        VisitRefImage(n);
      }
    }

    /** A node the base visitor handles, written out as its text. */
    method VisitText(n: Node)
      requires n.TextNode?
      modifies this
      ensures references == VisitNode(env, old(references), n).references
      ensures events == old(events) + VisitNode(env, old(references), n).emitted
    {
      Emit(OnText(n.text));
    }

    /** An autolink is a free-standing link to the parsed text with no parameters. */
    method VisitAutoLink(n: Node)
      requires n.AutoLinkNode?
      modifies this
      ensures references == VisitNode(env, old(references), n).references
      ensures events == old(events) + VisitNode(env, old(references), n).emitted
    {
      var reference := env.parseLink(n.text);
      Emit(BeginLink(reference, true, map[]));
      Emit(EndLink(reference, true, map[]));
    }

    /** A mail link is a free-standing link to "mailto:" followed by the address. */
    method VisitMailLink(n: Node)
      requires n.MailLinkNode?
      modifies this
      ensures references == VisitNode(env, old(references), n).references
      ensures events == old(events) + VisitNode(env, old(references), n).emitted
    {
      var reference := env.parseLink(MailtoPrefix + n.text);
      Emit(BeginLink(reference, true, map[]));
      Emit(EndLink(reference, true, map[]));
    }

    /** A wiki link is a link to the parsed text that is not free-standing. */
    method VisitWikiLink(n: Node)
      requires n.WikiLinkNode?
      modifies this
      ensures references == VisitNode(env, old(references), n).references
      ensures events == old(events) + VisitNode(env, old(references), n).emitted
    {
      var reference := env.parseLink(n.text);
      Emit(BeginLink(reference, false, map[]));
      Emit(EndLink(reference, false, map[]));
    }

    /** An explicit link encloses its children's events; its title, if any, is its parameter. */
    method VisitExpLink(n: Node)
      requires n.ExpLinkNode?
      modifies this
      ensures references == VisitNode(env, old(references), n).references
      ensures events == old(events) + VisitNode(env, old(references), n).emitted
      decreases n, 0
    {
      var reference := env.parseLink(n.url);
      var parameters: Parameters := map[];
      parameters := AddTitle(parameters, n.title);
      Emit(BeginLink(reference, false, parameters));
      ghost var before := events;
      ghost var inner := LinkAndImage.VisitChildren(env, references, n.children).emitted;
      VisitChildren(n.children);
      Emit(EndLink(reference, false, parameters));
      EnclosedAfter(old(events), reference, false, parameters, before, inner, events);
    }

    /** An explicit image: an "alt" parameter only when the alt text says more than the generated
        label would, then the optional title. */
    method VisitExpImage(n: Node)
      requires n.ExpImageNode?
      modifies this
      ensures references == VisitNode(env, old(references), n).references
      ensures events == old(events) + VisitNode(env, old(references), n).emitted
    {
      var reference := env.parseImage(n.url);
      var parameters: Parameters := map[];
      var computedAlt := ComputeAlt(env, reference);
      var extractedAlt := env.extractText(n);
      if extractedAlt != "" && extractedAlt != computedAlt {
        parameters := parameters[AltAttribute := extractedAlt];
      }
      parameters := AddTitle(parameters, n.title);
      Emit(OnImage(reference, false, parameters));
    }

    /** A reference definition is stored under its text, replacing any earlier one; nothing is
        emitted. */
    method VisitReference(n: Node)
      requires n.ReferenceNode?
      modifies this
      ensures references == VisitNode(env, old(references), n).references
      ensures events == old(events) + VisitNode(env, old(references), n).emitted
    {
      references := references[env.extractText(n) := Definition(n.url, n.title)];
      AppendEmpty(events);
    }

    /** A reference image becomes an image of the defined URL when its key is defined, and emits
        nothing otherwise. */
    method VisitRefImage(n: Node)
      requires n.RefImageNode?
      modifies this
      ensures references == VisitNode(env, old(references), n).references
      ensures events == old(events) + VisitNode(env, old(references), n).emitted
    {
      var key := env.extractText(n.imageKey);
      if key in references {
        var d := references[key];
        var reference := env.parseImage(d.url);
        var parameters: Parameters := map[];
        if d.title != "" {
          parameters := map[TitleAttribute := d.title];
        }
        Emit(OnImage(reference, false, parameters));
      } else {
        AppendEmpty(events);
      }
    }

    /** A reference link becomes a link to the defined URL when its key is defined; otherwise it is
        written back as literal text. The key is looked up before the children are visited. */
    method VisitRefLink(n: Node)
      requires n.RefLinkNode?
      modifies this
      ensures references == VisitNode(env, old(references), n).references
      ensures events == old(events) + VisitNode(env, old(references), n).emitted
      decreases n, 0
    {
      RefLinkIs(env, references, n);
      var key: string;
      if n.referenceKey.None? {
        key := env.extractText(n);
      } else {
        key := env.extractText(n.referenceKey.value);
      }
      if key in references {
        var d := references[key];
        var reference := env.parseLink(d.url);
        var parameters: Parameters := map[];
        if d.title != "" {
          parameters := map[TitleAttribute := d.title];
        }
        Emit(BeginLink(reference, false, parameters));
        ghost var before := events;
        ghost var inner := LinkAndImage.VisitChildren(env, references, n.children).emitted;
        VisitChildren(n.children);
        Emit(EndLink(reference, false, parameters));
        EnclosedAfter(old(events), reference, false, parameters, before, inner, events);
      } else {
        Emit(OnText(LinkOpen));
        ghost var before := events;
        ghost var inner := LinkAndImage.VisitChildren(env, references, n.children).emitted;
        VisitChildren(n.children);
        ghost var afterChildren := events;
        Emit(OnText(LinkClose));
        ghost var tail: seq<Event> := [OnText(LinkClose)];
        if n.separatorSpace.Some? {
          ghost var separated := events;
          Emit(OnText(n.separatorSpace.value));
          Emit(OnText(LinkOpen));
          ghost var keyText: seq<Event> := [];
          if n.referenceKey.Some? {
            Emit(OnText(key));
            keyText := [OnText(key)];
          }
          Emit(OnText(LinkClose));
          SeparatorAfter(separated, n.separatorSpace.value, keyText, events);
          tail := tail + ([OnText(n.separatorSpace.value), OnText(LinkOpen)] + keyText + [OnText(LinkClose)]);
          Associative(afterChildren, [OnText(LinkClose)], [OnText(n.separatorSpace.value), OnText(LinkOpen)] + keyText + [OnText(LinkClose)]);
        }
        assert tail == UnresolvedTail(env, n);
        LiteralAfter(old(events), before, inner, afterChildren, tail, events);
      }
    }

    /** visitChildren: visits the children in order. */
    method VisitChildren(cs: seq<Node>)
      modifies this
      ensures references == LinkAndImage.VisitChildren(env, old(references), cs).references
      ensures events == old(events) + LinkAndImage.VisitChildren(env, old(references), cs).emitted
      decreases cs, 2
    {
      var k := 0;
      AppendEmpty(events);
      while k < |cs|
        invariant 0 <= k <= |cs|
        invariant LinkAndImage.VisitChildren(env, references, cs[k..]).references ==
                  LinkAndImage.VisitChildren(env, old(references), cs).references
        invariant events + LinkAndImage.VisitChildren(env, references, cs[k..]).emitted ==
                  old(events) + LinkAndImage.VisitChildren(env, old(references), cs).emitted
        decreases |cs| - k
      {
        ChildrenStep(env, references, cs, k);
        ghost var rest := LinkAndImage.VisitChildren(env, VisitNode(env, references, cs[k]).references, cs[k + 1..]);
        ghost var previous := events;
        ghost var first := VisitNode(env, references, cs[k]).emitted;
        Visit(cs[k]);
        Associative(previous, first, rest.emitted);
        k := k + 1;
      }
      assert cs[k..] == [];
      AppendEmpty(events);
    }
  }

  /** How a reference link is visited, by whether its key is defined. */
  lemma RefLinkIs(env: Collaborators, refs: References, n: Node)
    requires n.RefLinkNode?
    ensures var key := LinkKey(env, n);
            var inner := LinkAndImage.VisitChildren(env, refs, n.children);
            VisitNode(env, refs, n) ==
              if key in refs then
                Outcome(inner.references, Enclosed(env.parseLink(refs[key].url), false, AddTitle(map[], refs[key].title), inner.emitted))
              else Outcome(inner.references, [OnText(LinkOpen)] + inner.emitted + UnresolvedTail(env, n))
  {
  }

  /** Visiting the children from the k-th on: the k-th child, then the rest. */
  lemma ChildrenStep(env: Collaborators, refs: References, cs: seq<Node>, k: nat)
    requires k < |cs|
    ensures var first := VisitNode(env, refs, cs[k]);
            var rest := LinkAndImage.VisitChildren(env, first.references, cs[k + 1..]);
            LinkAndImage.VisitChildren(env, refs, cs[k..]) == Outcome(rest.references, first.emitted + rest.emitted)
  {
    assert cs[k..][0] == cs[k] && cs[k..][1..] == cs[k + 1..];
  }

  /** The events after an enclosed link: begin, the children's events, end. */
  lemma EnclosedAfter(start: seq<Event>, reference: ResourceReference, freeStanding: bool, parameters: Parameters,
                      before: seq<Event>, inner: seq<Event>, after: seq<Event>)
    requires before == start + [BeginLink(reference, freeStanding, parameters)]
    requires after == before + inner + [EndLink(reference, freeStanding, parameters)]
    ensures after == start + Enclosed(reference, freeStanding, parameters, inner)
  {
  }

  /** The events after the separator part of an unresolved reference link. */
  lemma SeparatorAfter(start: seq<Event>, separator: string, keyText: seq<Event>, after: seq<Event>)
    requires after == start + [OnText(separator)] + [OnText(LinkOpen)] + keyText + [OnText(LinkClose)]
    ensures after == start + ([OnText(separator), OnText(LinkOpen)] + keyText + [OnText(LinkClose)])
  {
  }

  /** The events after an unresolved reference link: "[", the children's events, the tail. */
  lemma LiteralAfter(start: seq<Event>, before: seq<Event>, inner: seq<Event>, afterChildren: seq<Event>,
                     tail: seq<Event>, after: seq<Event>)
    requires before == start + [OnText(LinkOpen)]
    requires afterChildren == before + inner
    requires after == afterChildren + tail
    ensures after == start + ([OnText(LinkOpen)] + inner + tail)
  {
  }
}
