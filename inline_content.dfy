/** Inline content of the AST converter (src/lib/markdown-parser.ts): `extractFacets`,
    which finds bold, italic and code markup left inside a text node by regular
    expression, and `processInlineContent`, which flattens phrasing nodes into one
    plaintext and a list of facets. */
module InlineContent {
  import opened Wrappers
  import opened Utf8
  import opened Patterns
  import opened BlobUri
  import opened Leaflet
  import opened RichText
  import Mdast

  /** The facet `extractFacets` records for one match: the whole match, markers
      included, in bytes of the text node, shifted by `baseOffset`. */
  function SpanFacet(t: string, m: Match, baseOffset: nat, feature: Feature): Facet
    requires WellFormed(m, t)
  {
    Facet(BytePosition(t, m.start) + baseOffset, BytePosition(t, m.end) + baseOffset, [feature])
  }

  /** The facets one `exec` loop of `extractFacets` pushes, from position `from`. */
  function SpanFacets(p: Pattern, t: string, from: nat, baseOffset: nat, feature: Feature): seq<Facet>
    requires from <= |t|
    decreases |t| - from
  {
    match NextMatch(p, t, from)
    case None => []
    case Some(m) => [SpanFacet(t, m, baseOffset, feature)] + SpanFacets(p, t, m.end, baseOffset, feature)
  }

  /** `extractFacets(node, context, baseOffset)`: bold (`**x**`, lazy), then italic
      (`*x*` or `_x_`), then code facets, each group in match order. */
  function TextFacets(t: string, baseOffset: nat): seq<Facet>
  {
    SpanFacets(LazyBoldSyntax, t, 0, baseOffset, Bold)
    + SpanFacets(StarOrUnderscore, t, 0, baseOffset, Italic)
    + SpanFacets(CodeSyntax, t, 0, baseOffset, Code)
  }

  /** The text of a link: its direct text children only, concatenated. */
  function LinkText(children: seq<Mdast.Inline>): string
  {
    if children == [] then ""
    else (if children[0].Text? then children[0].value else "") + LinkText(children[1..])
  }

  /** The local state of `processInlineContent`: `plaintext` and `facets`. */
  datatype Acc = Acc(plaintext: string, facets: seq<Facet>)

  /** One iteration of the loop of `processInlineContent`. */
  function StepInline(acc: Acc, node: Mdast.Inline, authorDid: string,
                      decodeUriComponent: string -> string): Acc
    decreases Mdast.Size(node), 1
  {
    var start := ByteLen(acc.plaintext);
    match node
    case Text(value) =>
      Acc(acc.plaintext + value, acc.facets + TextFacets(value, start))
    case Link(url, children) =>
      var plaintext := acc.plaintext + LinkText(children);
      var uri := ConvertBlobUrlToAtUri(url, authorDid, decodeUriComponent);
      Acc(plaintext, acc.facets + [Facet(start, ByteLen(plaintext), [Link(uri)])])
    case Strong(children) =>
      var inner := ProcessInline(children, authorDid, decodeUriComponent);
      var plaintext := acc.plaintext + inner.plaintext;
      Acc(plaintext, acc.facets + [Facet(start, ByteLen(plaintext), [Bold])] + inner.facets.GetOr([]))
    case Emphasis(children) =>
      var inner := ProcessInline(children, authorDid, decodeUriComponent);
      var plaintext := acc.plaintext + inner.plaintext;
      Acc(plaintext, acc.facets + [Facet(start, ByteLen(plaintext), [Italic])] + inner.facets.GetOr([]))
    case InlineCode(value) =>
      var plaintext := acc.plaintext + value;
      Acc(plaintext, acc.facets + [Facet(start, ByteLen(plaintext), [Code])])
    case Break =>
      Acc(acc.plaintext + "\n", acc.facets)
    case Image(_, _) => acc
    case OtherInline => acc
  }

  /** The loop of `processInlineContent` over `nodes`, from state `acc`. */
  function InlineFrom(acc: Acc, nodes: seq<Mdast.Inline>, authorDid: string,
                      decodeUriComponent: string -> string): Acc
    decreases Mdast.SizeSeq(nodes), 2
  {
    if nodes == [] then acc
    else InlineFrom(StepInline(acc, nodes[0], authorDid, decodeUriComponent), nodes[1..],
                    authorDid, decodeUriComponent)
  }

  /** `processInlineContent(nodes, context)`: facets present only when there are some. */
  function ProcessInline(nodes: seq<Mdast.Inline>, authorDid: string,
                         decodeUriComponent: string -> string): RichText
    decreases Mdast.SizeSeq(nodes), 3
  {
    var acc := InlineFrom(Acc("", []), nodes, authorDid, decodeUriComponent);
    RichText(acc.plaintext, NonEmpty(acc.facets))
  }

  // ---------------------------------------------------------------- the methods

  /** One `while ((match = re.exec(text)) !== null)` loop of `extractFacets`. */
  method CollectSpanFacets(p: Pattern, t: string, baseOffset: nat, feature: Feature)
    returns (facets: seq<Facet>)
    ensures facets == SpanFacets(p, t, 0, baseOffset, feature)
  {
    facets := [];
    var lastIndex := 0;
    while true
      invariant lastIndex <= |t|
      invariant SpanFacets(p, t, 0, baseOffset, feature) == facets + SpanFacets(p, t, lastIndex, baseOffset, feature)
      decreases |t| - lastIndex
    {
      var found := NextMatch(p, t, lastIndex);
      if found.None? {
        SpanFacetsDone(p, t, lastIndex, baseOffset, feature);
        break;
      }
      var m := found.value;
      var start := BytePosition(t, m.start) + baseOffset;
      var end := BytePosition(t, m.end) + baseOffset;
      SpanFacetsStep(p, t, lastIndex, baseOffset, feature, facets, m);
      var facet := Facet(start, end, [feature]);
      assert facet == SpanFacet(t, m, baseOffset, feature);
      facets := facets + [facet];
      lastIndex := m.end;
    }
  }

  lemma SpanFacetsDone(p: Pattern, t: string, from: nat, baseOffset: nat, feature: Feature)
    requires from <= |t| && NextMatch(p, t, from).None?
    ensures SpanFacets(p, t, from, baseOffset, feature) == []
  {
  }

  lemma SpanFacetsUnfold(p: Pattern, t: string, from: nat, baseOffset: nat, feature: Feature)
    requires from <= |t| && NextMatch(p, t, from).Some?
    ensures var m := NextMatch(p, t, from).value;
            SpanFacets(p, t, from, baseOffset, feature)
            == [SpanFacet(t, m, baseOffset, feature)] + SpanFacets(p, t, m.end, baseOffset, feature)
  {
  }

  lemma SpanFacetsStep(p: Pattern, t: string, from: nat, baseOffset: nat, feature: Feature, done: seq<Facet>,
                       m: Match)
    requires from <= |t| && NextMatch(p, t, from) == Some(m)
    requires SpanFacets(p, t, 0, baseOffset, feature) == done + SpanFacets(p, t, from, baseOffset, feature)
    ensures m.end <= |t|
    ensures SpanFacets(p, t, 0, baseOffset, feature)
            == (done + [SpanFacet(t, m, baseOffset, feature)])
               + SpanFacets(p, t, m.end, baseOffset, feature)
  {
    SpanFacetsUnfold(p, t, from, baseOffset, feature);
    AppendAssoc(done, [SpanFacet(t, m, baseOffset, feature)], SpanFacets(p, t, m.end, baseOffset, feature));
  }

  /** `extractFacets(node, context, baseOffset)`. */
  method ExtractFacets(text: string, baseOffset: nat) returns (facets: seq<Facet>)
    ensures facets == TextFacets(text, baseOffset)
  {
    var bold := CollectSpanFacets(LazyBoldSyntax, text, baseOffset, Bold);
    var italic := CollectSpanFacets(StarOrUnderscore, text, baseOffset, Italic);
    var code := CollectSpanFacets(CodeSyntax, text, baseOffset, Code);
    facets := bold + italic + code;
  }

  lemma SizeSeqElement(nodes: seq<Mdast.Inline>, i: nat)
    requires i < |nodes|
    ensures Mdast.Size(nodes[i]) <= Mdast.SizeSeq(nodes)
    ensures Mdast.SizeSeq(nodes[i + 1..]) < Mdast.SizeSeq(nodes[i..])
  {
    if i > 0 {
      SizeSeqElement(nodes[1..], i - 1);
      assert nodes[1..][i - 1] == nodes[i];
      assert nodes[1..][i - 1..] == nodes[i..];
      assert nodes[1..][i..] == nodes[i + 1..];
    } else {
      assert nodes[0..] == nodes;
    }
  }

  lemma InlineFromUnfold(acc: Acc, nodes: seq<Mdast.Inline>, i: nat, authorDid: string,
                         decodeUriComponent: string -> string)
    requires i < |nodes|
    ensures InlineFrom(acc, nodes[i..], authorDid, decodeUriComponent)
            == InlineFrom(StepInline(acc, nodes[i], authorDid, decodeUriComponent), nodes[i + 1..],
                          authorDid, decodeUriComponent)
  {
    assert nodes[i..][1..] == nodes[i + 1..];
  }

  /** `processInlineContent(nodes, context)`. */
  method ProcessInlineContent(nodes: seq<Mdast.Inline>, authorDid: string, decodeUriComponent: string -> string)
    returns (r: RichText)
    ensures r == ProcessInline(nodes, authorDid, decodeUriComponent)
    decreases Mdast.SizeSeq(nodes)
  {
    var plaintext := "";
    var facets: seq<Facet> := [];
    for i := 0 to |nodes|
      invariant InlineFrom(Acc(plaintext, facets), nodes[i..], authorDid, decodeUriComponent)
                == InlineFrom(Acc("", []), nodes, authorDid, decodeUriComponent)
    {
      var node := nodes[i];
      ghost var before := Acc(plaintext, facets);
      InlineFromUnfold(before, nodes, i, authorDid, decodeUriComponent);
      SizeSeqElement(nodes, i);
      match node {
        case Text(value) =>
          var textFacets := ExtractFacets(value, BytePosition(plaintext, |plaintext|));
          BytePositionAtEnd(plaintext, |plaintext|);
          facets := facets + textFacets;
          plaintext := plaintext + value;
        case Link(url, children) =>
          var linkText := LinkText(children);
          var start := BytePosition(plaintext, |plaintext|);
          BytePositionAtEnd(plaintext, |plaintext|);
          plaintext := plaintext + linkText;
          var end := BytePosition(plaintext, |plaintext|);
          BytePositionAtEnd(plaintext, |plaintext|);
          var uri := ConvertBlobUrlToAtUri(url, authorDid, decodeUriComponent);
          facets := facets + [Facet(start, end, [Link(uri)])];
        case Strong(children) =>
          var start := BytePosition(plaintext, |plaintext|);
          BytePositionAtEnd(plaintext, |plaintext|);
          var strongContent := ProcessInlineContent(children, authorDid, decodeUriComponent);
          plaintext := plaintext + strongContent.plaintext;
          var end := BytePosition(plaintext, |plaintext|);
          BytePositionAtEnd(plaintext, |plaintext|);
          facets := facets + [Facet(start, end, [Bold])];
          if strongContent.facets.Some? {
            facets := facets + strongContent.facets.value;
          }
        case Emphasis(children) =>
          var start := BytePosition(plaintext, |plaintext|);
          BytePositionAtEnd(plaintext, |plaintext|);
          var emContent := ProcessInlineContent(children, authorDid, decodeUriComponent);
          plaintext := plaintext + emContent.plaintext;
          var end := BytePosition(plaintext, |plaintext|);
          BytePositionAtEnd(plaintext, |plaintext|);
          facets := facets + [Facet(start, end, [Italic])];
          if emContent.facets.Some? {
            facets := facets + emContent.facets.value;
          }
        case InlineCode(value) =>
          var start := BytePosition(plaintext, |plaintext|);
          BytePositionAtEnd(plaintext, |plaintext|);
          plaintext := plaintext + value;
          var end := BytePosition(plaintext, |plaintext|);
          BytePositionAtEnd(plaintext, |plaintext|);
          facets := facets + [Facet(start, end, [Code])];
        case Break =>
          plaintext := plaintext + "\n";
        case Image(_, _) =>
        case OtherInline =>
      }
      assert Acc(plaintext, facets) == StepInline(before, node, authorDid, decodeUriComponent);
    }
    assert nodes[|nodes|..] == [];
    r := RichText(plaintext, if |facets| > 0 then Some(facets) else None);
  }
}
