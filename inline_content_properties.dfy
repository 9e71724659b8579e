/** Properties of `processInlineContent` and `extractFacets` (src/lib/markdown-parser.ts). */
module InlineContentProperties {
  import opened Wrappers
  import opened Utf8
  import opened Patterns
  import opened BlobUri
  import opened Leaflet
  import opened RichText
  import opened InlineContent
  import Mdast

  // ------------------------------------------------------------- plaintext

  /** What each inline node contributes to the plaintext, defined on the tree alone:
      text and inline code values, a link's direct text children, the content of strong
      and emphasis, a newline per break, nothing for anything else. */
  function PlainOf(node: Mdast.Inline): string
    decreases Mdast.Size(node), 1
  {
    match node
    case Text(value) => value
    case Link(_, children) => LinkText(children)
    case Strong(children) => PlainSeq(children)
    case Emphasis(children) => PlainSeq(children)
    case InlineCode(value) => value
    case Break => "\n"
    case Image(_, _) => ""
    case OtherInline => ""
  }

  function PlainSeq(nodes: seq<Mdast.Inline>): string
    decreases Mdast.SizeSeq(nodes), 2
  {
    if nodes == [] then "" else PlainOf(nodes[0]) + PlainSeq(nodes[1..])
  }

  lemma {:induction false} StepPlain(acc: Acc, node: Mdast.Inline, authorDid: string,
                                     decodeUriComponent: string -> string)
    ensures StepInline(acc, node, authorDid, decodeUriComponent).plaintext == acc.plaintext + PlainOf(node)
    decreases Mdast.Size(node), 1
  {
    match node
    case Strong(children) => ProcessPlain(children, authorDid, decodeUriComponent);
    case Emphasis(children) => ProcessPlain(children, authorDid, decodeUriComponent);
    case _ =>
  }

  lemma {:induction false} FromPlain(acc: Acc, nodes: seq<Mdast.Inline>, authorDid: string,
                                     decodeUriComponent: string -> string)
    ensures InlineFrom(acc, nodes, authorDid, decodeUriComponent).plaintext == acc.plaintext + PlainSeq(nodes)
    decreases Mdast.SizeSeq(nodes), 2
  {
    if nodes != [] {
      var next := StepInline(acc, nodes[0], authorDid, decodeUriComponent);
      StepPlain(acc, nodes[0], authorDid, decodeUriComponent);
      FromPlain(next, nodes[1..], authorDid, decodeUriComponent);
      assert acc.plaintext + PlainOf(nodes[0]) + PlainSeq(nodes[1..]) == acc.plaintext + PlainSeq(nodes);
    }
  }

  /** The plaintext is the in-order concatenation of what each node contributes. */
  lemma {:induction false} ProcessPlain(nodes: seq<Mdast.Inline>, authorDid: string,
                                        decodeUriComponent: string -> string)
    ensures ProcessInline(nodes, authorDid, decodeUriComponent).plaintext == PlainSeq(nodes)
    decreases Mdast.SizeSeq(nodes), 3
  {
    FromPlain(Acc("", []), nodes, authorDid, decodeUriComponent);
  }

  // ------------------------------------------------------------- byte bounds

  lemma FacetsWithinWeaken(facets: seq<Facet>, n: nat, n': nat)
    requires FacetsWithin(facets, n) && n <= n'
    ensures FacetsWithin(facets, n')
  {
  }

  lemma FacetsWithinAppend(a: seq<Facet>, b: seq<Facet>, n: nat)
    requires FacetsWithin(a, n) && FacetsWithin(b, n)
    ensures FacetsWithin(a + b, n)
  {
    assert forall k :: |a| <= k < |a + b| ==> (a + b)[k] == b[k - |a|];
  }

  lemma SpanFacetBounds(t: string, m: Match, baseOffset: nat, feature: Feature)
    requires WellFormed(m, t)
    ensures var f := SpanFacet(t, m, baseOffset, feature);
            baseOffset <= f.byteStart <= f.byteEnd <= baseOffset + ByteLen(t)
  {
    BytePositionMonotone(t, m.start, m.end);
    BytePositionAtEnd(t, |t|);
    BytePositionMonotone(t, m.end, |t|);
  }

  /** Every facet lies in the byte range [lo, hi]. */
  predicate AllIn(facets: seq<Facet>, lo: nat, hi: nat) {
    forall k :: 0 <= k < |facets| ==> lo <= facets[k].byteStart <= facets[k].byteEnd <= hi
  }

  lemma AllInCons(f: Facet, rest: seq<Facet>, lo: nat, hi: nat)
    requires lo <= f.byteStart <= f.byteEnd <= hi && AllIn(rest, lo, hi)
    ensures AllIn([f] + rest, lo, hi)
  {
    assert forall k :: 1 <= k < |[f] + rest| ==> ([f] + rest)[k] == rest[k - 1];
  }

  lemma AllInAppend(a: seq<Facet>, b: seq<Facet>, lo: nat, hi: nat)
    requires AllIn(a, lo, hi) && AllIn(b, lo, hi)
    ensures AllIn(a + b, lo, hi)
  {
    assert forall k :: |a| <= k < |a + b| ==> (a + b)[k] == b[k - |a|];
  }

  /** Every facet of one `exec` loop of `extractFacets` lies in
      [baseOffset, baseOffset + utf8Len(t)], and there is one per match. */
  lemma {:induction false} SpanFacetsBounds(p: Pattern, t: string, from: nat, baseOffset: nat, feature: Feature)
    requires from <= |t|
    ensures |SpanFacets(p, t, from, baseOffset, feature)| == |AllMatches(p, t, from)|
    ensures AllIn(SpanFacets(p, t, from, baseOffset, feature), baseOffset, baseOffset + ByteLen(t))
    decreases |t| - from
  {
    if NextMatch(p, t, from).Some? {
      var m := NextMatch(p, t, from).value;
      SpanFacetsUnfold(p, t, from, baseOffset, feature);
      AllMatchesUnfold(p, t, from);
      SpanFacetsBounds(p, t, m.end, baseOffset, feature);
      SpanFacetBounds(t, m, baseOffset, feature);
      AllInCons(SpanFacet(t, m, baseOffset, feature), SpanFacets(p, t, m.end, baseOffset, feature),
                baseOffset, baseOffset + ByteLen(t));
    }
  }

  /** The facets `extractFacets` returns for a text node lie in
      [baseOffset, baseOffset + utf8Len(value)], one per match of the three loops. */
  lemma TextFacetsBounds(t: string, baseOffset: nat)
    ensures AllIn(TextFacets(t, baseOffset), baseOffset, baseOffset + ByteLen(t))
    ensures |TextFacets(t, baseOffset)| == |AllMatches(LazyBoldSyntax, t, 0)| + |AllMatches(StarOrUnderscore, t, 0)|
                                           + |AllMatches(CodeSyntax, t, 0)|
  {
    var b := SpanFacets(LazyBoldSyntax, t, 0, baseOffset, Bold);
    var i := SpanFacets(StarOrUnderscore, t, 0, baseOffset, Italic);
    var c := SpanFacets(CodeSyntax, t, 0, baseOffset, Code);
    SpanFacetsBounds(LazyBoldSyntax, t, 0, baseOffset, Bold);
    SpanFacetsBounds(StarOrUnderscore, t, 0, baseOffset, Italic);
    SpanFacetsBounds(CodeSyntax, t, 0, baseOffset, Code);
    AllInAppend(b, i, baseOffset, baseOffset + ByteLen(t));
    AllInAppend(b + i, c, baseOffset, baseOffset + ByteLen(t));
  }

  /** The state of `processInlineContent` keeps every facet inside the bytes of the
      plaintext built so far. */
  predicate Within(acc: Acc) {
    FacetsWithin(acc.facets, ByteLen(acc.plaintext))
  }

  lemma {:induction false} StepWithin(acc: Acc, node: Mdast.Inline, authorDid: string,
                                      decodeUriComponent: string -> string)
    requires Within(acc)
    ensures Within(StepInline(acc, node, authorDid, decodeUriComponent))
    decreases Mdast.Size(node), 1
  {
    var next := StepInline(acc, node, authorDid, decodeUriComponent);
    var n := ByteLen(acc.plaintext);
    match node
    case Text(value) =>
      TextWithin(acc, value);
    case Link(_, children) =>
      ByteLenAppend(acc.plaintext, LinkText(children));
      FacetsWithinWeaken(acc.facets, n, ByteLen(next.plaintext));
    case Strong(children) =>
      NestedWithin(acc, children, Bold, authorDid, decodeUriComponent);
    case Emphasis(children) =>
      NestedWithin(acc, children, Italic, authorDid, decodeUriComponent);
    case InlineCode(value) =>
      ByteLenAppend(acc.plaintext, value);
      FacetsWithinWeaken(acc.facets, n, ByteLen(next.plaintext));
    case Break =>
      ByteLenAppend(acc.plaintext, "\n");
      FacetsWithinWeaken(acc.facets, n, ByteLen(next.plaintext));
    case Image(_, _) =>
    case OtherInline =>
  }

  /** A text node: its regex facets lie inside the bytes it appends. */
  lemma TextWithin(acc: Acc, value: string)
    requires Within(acc)
    ensures Within(Acc(acc.plaintext + value, acc.facets + TextFacets(value, ByteLen(acc.plaintext))))
  {
    var n := ByteLen(acc.plaintext);
    var n' := ByteLen(acc.plaintext + value);
    ByteLenAppend(acc.plaintext, value);
    TextFacetsBounds(value, n);
    FacetsWithinWeaken(acc.facets, n, n');
    FacetsWithinAppend(acc.facets, TextFacets(value, n), n');
  }

  /** A strong or emphasis node: its own facet spans the appended bytes, and the facets
      of its content, not rebased, lie inside the content's bytes, hence inside the
      whole plaintext. */
  lemma {:induction false} NestedWithin(acc: Acc, children: seq<Mdast.Inline>, feature: Feature,
                                        authorDid: string, decodeUriComponent: string -> string)
    requires Within(acc)
    ensures var inner := ProcessInline(children, authorDid, decodeUriComponent);
            var plaintext := acc.plaintext + inner.plaintext;
            FacetsWithin(acc.facets + [Facet(ByteLen(acc.plaintext), ByteLen(plaintext), [feature])]
                         + inner.facets.GetOr([]), ByteLen(plaintext))
    decreases Mdast.SizeSeq(children), 4
  {
    var inner := ProcessInline(children, authorDid, decodeUriComponent);
    var plaintext := acc.plaintext + inner.plaintext;
    ProcessWithin(children, authorDid, decodeUriComponent);
    ByteLenAppend(acc.plaintext, inner.plaintext);
    FacetsWithinWeaken(acc.facets, ByteLen(acc.plaintext), ByteLen(plaintext));
    FacetsWithinWeaken(inner.facets.GetOr([]), ByteLen(inner.plaintext), ByteLen(plaintext));
    FacetsWithinAppend(acc.facets, [Facet(ByteLen(acc.plaintext), ByteLen(plaintext), [feature])], ByteLen(plaintext));
    FacetsWithinAppend(acc.facets + [Facet(ByteLen(acc.plaintext), ByteLen(plaintext), [feature])],
                       inner.facets.GetOr([]), ByteLen(plaintext));
  }

  lemma {:induction false} FromWithin(acc: Acc, nodes: seq<Mdast.Inline>, authorDid: string,
                                      decodeUriComponent: string -> string)
    requires Within(acc)
    ensures Within(InlineFrom(acc, nodes, authorDid, decodeUriComponent))
    decreases Mdast.SizeSeq(nodes), 2
  {
    if nodes != [] {
      StepWithin(acc, nodes[0], authorDid, decodeUriComponent);
      FromWithin(StepInline(acc, nodes[0], authorDid, decodeUriComponent), nodes[1..],
                 authorDid, decodeUriComponent);
    }
  }

  /** Every facet `processInlineContent` returns satisfies
      0 <= byteStart <= byteEnd <= utf8Len(plaintext), nested and regex facets included. */
  lemma {:induction false} ProcessWithin(nodes: seq<Mdast.Inline>, authorDid: string,
                                         decodeUriComponent: string -> string)
    ensures var r := ProcessInline(nodes, authorDid, decodeUriComponent);
            OptFacetsWithin(r.facets, ByteLen(r.plaintext))
    decreases Mdast.SizeSeq(nodes), 3
  {
    FromWithin(Acc("", []), nodes, authorDid, decodeUriComponent);
  }

  // ------------------------------------------------------------- which nodes yield facets

  /** A node that makes `processInlineContent` push at least one facet: a link, strong,
      emphasis or inline code node, or a text node with bold, italic or code markup. */
  predicate Yields(node: Mdast.Inline) {
    match node
    case Text(value) =>
      AllMatches(LazyBoldSyntax, value, 0) != [] || AllMatches(StarOrUnderscore, value, 0) != []
      || AllMatches(CodeSyntax, value, 0) != []
    case Link(_, _) => true
    case Strong(_) => true
    case Emphasis(_) => true
    case InlineCode(_) => true
    case Break => false
    case Image(_, _) => false
    case OtherInline => false
  }

  lemma StepGrows(acc: Acc, node: Mdast.Inline, authorDid: string, decodeUriComponent: string -> string)
    ensures var next := StepInline(acc, node, authorDid, decodeUriComponent);
            |next.facets| >= |acc.facets| && (|next.facets| > |acc.facets| <==> Yields(node))
  {
    if node.Text? {
      TextFacetsBounds(node.value, ByteLen(acc.plaintext));
    }
  }

  lemma {:induction false} FromGrows(acc: Acc, nodes: seq<Mdast.Inline>, authorDid: string,
                                     decodeUriComponent: string -> string)
    ensures var r := InlineFrom(acc, nodes, authorDid, decodeUriComponent);
            |r.facets| >= |acc.facets|
            && (|r.facets| == |acc.facets| <==> forall k :: 0 <= k < |nodes| ==> !Yields(nodes[k]))
    decreases |nodes|
  {
    if nodes != [] {
      var next := StepInline(acc, nodes[0], authorDid, decodeUriComponent);
      StepGrows(acc, nodes[0], authorDid, decodeUriComponent);
      FromGrows(next, nodes[1..], authorDid, decodeUriComponent);
      assert forall k :: 1 <= k < |nodes| ==> nodes[k] == nodes[1..][k - 1];
    }
  }

  /** `facets` is undefined exactly when no node produced a facet. */
  lemma ProcessFacetsAbsent(nodes: seq<Mdast.Inline>, authorDid: string, decodeUriComponent: string -> string)
    ensures ProcessInline(nodes, authorDid, decodeUriComponent).facets.None?
            <==> forall k :: 0 <= k < |nodes| ==> !Yields(nodes[k])
  {
    FromGrows(Acc("", []), nodes, authorDid, decodeUriComponent);
  }

  // ------------------------------------------------------------- one facet per marked node

  /** The feature of the facet a link, strong, emphasis or inline code node yields. */
  function FeatureOf(node: Mdast.Inline, authorDid: string, decodeUriComponent: string -> string): Feature
    requires node.Link? || node.Strong? || node.Emphasis? || node.InlineCode?
  {
    match node
    case Link(url, _) => Link(ConvertBlobUrlToAtUri(url, authorDid, decodeUriComponent))
    case Strong(_) => Bold
    case Emphasis(_) => Italic
    case InlineCode(_) => Code
  }

  /** A link, strong, emphasis or inline code node appends its text and pushes one
      facet, right after the facets already there, spanning exactly the appended bytes. */
  lemma MarkedNodeFacet(acc: Acc, node: Mdast.Inline, authorDid: string, decodeUriComponent: string -> string)
    requires node.Link? || node.Strong? || node.Emphasis? || node.InlineCode?
    ensures var next := StepInline(acc, node, authorDid, decodeUriComponent);
            var start := ByteLen(acc.plaintext);
            && next.plaintext == acc.plaintext + PlainOf(node)
            && |next.facets| > |acc.facets|
            && next.facets[..|acc.facets|] == acc.facets
            && next.facets[|acc.facets|]
               == Facet(start, start + ByteLen(PlainOf(node)), [FeatureOf(node, authorDid, decodeUriComponent)])
  {
    StepPlain(acc, node, authorDid, decodeUriComponent);
    ByteLenAppend(acc.plaintext, PlainOf(node));
  }
}
