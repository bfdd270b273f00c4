/** How the link and image visitor of the Markdown 1.0 parser turns pegdown's link and image nodes
    into rendering-listener events: a pure description in which the visitor's state (the map of
    reference definitions) is threaded through the visit and the emitted events are returned. The
    class in module LinkAndImageVisitor runs the same visit step by step. */
module LinkAndImage {

  datatype Option<T> = None | Some(value: T)

  /** A parsed resource reference: the scheme of its type and the raw reference string. */
  datatype ResourceReference = ResourceReference(scheme: string, reference: string)

  /** The attribute map handed to the listener. */
  type Parameters = map<string, string>

  /** The pegdown nodes the visitor handles. A TextNode stands for any other node, whose events the
      base visitor produces; here it yields a single text event. */
  datatype Node =
    | TextNode(text: string)
    | AutoLinkNode(text: string)
    | MailLinkNode(text: string)
    | WikiLinkNode(text: string)
    | ExpLinkNode(url: string, title: string, children: seq<Node>)
    | ExpImageNode(url: string, title: string, children: seq<Node>)
    | ReferenceNode(url: string, title: string, children: seq<Node>)
    | RefLinkNode(referenceKey: Option<Node>, separatorSpace: Option<string>, children: seq<Node>)
    | RefImageNode(imageKey: Node, children: seq<Node>)

  /** The listener calls the visitor makes, in order. OnText is a piece of plain text. */
  datatype Event =
    | BeginLink(reference: ResourceReference, freeStanding: bool, parameters: Parameters)
    | EndLink(reference: ResourceReference, freeStanding: bool, parameters: Parameters)
    | OnImage(reference: ResourceReference, freeStanding: bool, parameters: Parameters)
    | OnText(text: string)

  /** What a stored reference definition keeps of its ReferenceNode; an absent title is "". */
  datatype Definition = Definition(url: string, title: string)

  type References = map<string, Definition>

  /** The components the visitor calls but does not define: the link and image reference parsers,
      the label generators registered per scheme (a missing entry is a failed component lookup) and
      the base visitor's text extraction. */
  datatype Collaborators = Collaborators(
    parseLink: string -> ResourceReference,
    parseImage: string -> ResourceReference,
    labelGenerators: map<string, ResourceReference -> string>,
    extractText: Node -> string)

  /** The result of visiting: the definitions known afterwards and the events emitted. */
  datatype Outcome = Outcome(references: References, emitted: seq<Event>)

  const TitleAttribute := "title"
  const AltAttribute := "alt"
  const LinkOpen := "["
  const LinkClose := "]"
  const MailtoPrefix := "mailto:"

  // ---------------------------------------------------------------- attributes

  /** addTitle: the title becomes the "title" parameter only when it is non-empty; nothing else
      in the map changes. */
  function AddTitle(parameters: Parameters, title: string): (r: Parameters)
    ensures TitleAttribute in r <==> TitleAttribute in parameters || title != ""
    ensures title != "" ==> r[TitleAttribute] == title
    ensures title == "" ==> r == parameters
    ensures forall k :: k != TitleAttribute ==> (k in r <==> k in parameters)
    ensures forall k :: k in parameters && k != TitleAttribute ==> r[k] == parameters[k]
  {
    if title != "" then parameters[TitleAttribute := title] else parameters
  }

  /** computeAltAttributeValue: the label the scheme's label generator gives the reference, or the
      raw reference when no generator is registered for that scheme. */
  function ComputeAlt(env: Collaborators, reference: ResourceReference): (alt: string)
    ensures reference.scheme !in env.labelGenerators ==> alt == reference.reference
    ensures reference.scheme in env.labelGenerators ==> alt == env.labelGenerators[reference.scheme](reference)
  {
    if reference.scheme in env.labelGenerators then env.labelGenerators[reference.scheme](reference)
    else reference.reference
  }

  /** The parameters of an explicit image: "alt" only when the extracted alt text is non-empty and is
      not the label that would be generated anyway, "title" only when the title is non-empty, and
      no other key. */
  function ImageParameters(env: Collaborators, reference: ResourceReference, alt: string, title: string): (r: Parameters)
    ensures r.Keys <= {AltAttribute, TitleAttribute}
    ensures AltAttribute in r <==> alt != "" && alt != ComputeAlt(env, reference)
    ensures AltAttribute in r ==> r[AltAttribute] == alt
    ensures TitleAttribute in r <==> title != ""
    ensures TitleAttribute in r ==> r[TitleAttribute] == title
  {
    var p: Parameters := if alt != "" && alt != ComputeAlt(env, reference) then map[AltAttribute := alt] else map[];
    AddTitle(p, title)
  }

  // ---------------------------------------------------------------- the visit

  /** The key a reference link is looked up under: its reference key's text, or the link's own
      text when it has no reference key. */
  function LinkKey(env: Collaborators, n: Node): (key: string)
    requires n.RefLinkNode?
    ensures n.referenceKey.None? ==> key == env.extractText(n)
    ensures n.referenceKey.Some? ==> key == env.extractText(n.referenceKey.value)
  {
    if n.referenceKey.None? then env.extractText(n) else env.extractText(n.referenceKey.value)
  }

  /** The literal text an unresolved reference link is written back as after its children:
      "]", then, when there is a separator, the separator, "[", the key if the link has a
      reference key, and "]". */
  function UnresolvedTail(env: Collaborators, n: Node): (tail: seq<Event>)
    requires n.RefLinkNode?
    ensures |tail| >= 1 && tail[0] == OnText(LinkClose) && tail[|tail| - 1] == OnText(LinkClose)
    ensures forall k :: 0 <= k < |tail| ==> tail[k].OnText?
    ensures |tail| == 1 <==> n.separatorSpace.None?
    ensures n.separatorSpace.Some? ==>
              |tail| == (if n.referenceKey.Some? then 5 else 4) &&
              tail[1] == OnText(n.separatorSpace.value) && tail[2] == OnText(LinkOpen) &&
              (n.referenceKey.Some? ==> tail[3] == OnText(LinkKey(env, n)))
  {
    [OnText(LinkClose)] +
    if n.separatorSpace.None? then []
    else
      [OnText(n.separatorSpace.value), OnText(LinkOpen)] +
      (if n.referenceKey.Some? then [OnText(LinkKey(env, n))] else []) +
      [OnText(LinkClose)]
  }

  /** A link whose begin and end events enclose `inner`. */
  function Enclosed(reference: ResourceReference, freeStanding: bool, parameters: Parameters, inner: seq<Event>): seq<Event>
  {
    [BeginLink(reference, freeStanding, parameters)] + inner + [EndLink(reference, freeStanding, parameters)]
  }

  /** Visiting one node with the definitions `refs` known so far. */
  function VisitNode(env: Collaborators, refs: References, n: Node): (r: Outcome)
    ensures refs.Keys <= r.references.Keys
    ensures n.ReferenceNode? ==> r == Outcome(refs[env.extractText(n) := Definition(n.url, n.title)], [])
    ensures n.RefImageNode? ==> r.references == refs && (r.emitted == [] <==> env.extractText(n.imageKey) !in refs)
    decreases n
  {
    if n.TextNode? then Outcome(refs, [OnText(n.text)])
    else if n.AutoLinkNode? then Outcome(refs, Enclosed(env.parseLink(n.text), true, map[], []))
    else if n.MailLinkNode? then Outcome(refs, Enclosed(env.parseLink(MailtoPrefix + n.text), true, map[], []))
    else if n.WikiLinkNode? then Outcome(refs, Enclosed(env.parseLink(n.text), false, map[], []))
    else if n.ExpLinkNode? then
      var inner := VisitChildren(env, refs, n.children);
      Outcome(inner.references, Enclosed(env.parseLink(n.url), false, AddTitle(map[], n.title), inner.emitted))
    else if n.ExpImageNode? then
      var reference := env.parseImage(n.url);
      Outcome(refs, [OnImage(reference, false, ImageParameters(env, reference, env.extractText(n), n.title))])
    else if n.ReferenceNode? then Outcome(refs[env.extractText(n) := Definition(n.url, n.title)], [])
    else if n.RefLinkNode? then
      var key := LinkKey(env, n);
      var inner := VisitChildren(env, refs, n.children);
      if key in refs then
        var d := refs[key];
        Outcome(inner.references, Enclosed(env.parseLink(d.url), false, AddTitle(map[], d.title), inner.emitted))
      else
        Outcome(inner.references, [OnText(LinkOpen)] + inner.emitted + UnresolvedTail(env, n))
    else
      var key := env.extractText(n.imageKey);
      if key in refs then
        var d := refs[key];
        Outcome(refs, [OnImage(env.parseImage(d.url), false, AddTitle(map[], d.title))])
      else Outcome(refs, [])
  }

  /** Visiting children in order, each seeing the definitions made by the ones before it. */
  function VisitChildren(env: Collaborators, refs: References, cs: seq<Node>): (r: Outcome)
    ensures refs.Keys <= r.references.Keys
    decreases cs
  {
    if cs == [] then Outcome(refs, [])
    else
      var first := VisitNode(env, refs, cs[0]);
      var rest := VisitChildren(env, first.references, cs[1..]);
      Outcome(rest.references, first.emitted + rest.emitted)
  }
}
