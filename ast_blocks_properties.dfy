/** What the block mapping of the AST converter promises: the block each node type
    becomes, the text of blockquotes and list items in terms of their paragraphs, the
    order of the walk, and the byte bounds of every facet it emits. */
module AstBlocksProperties {
  import opened Wrappers
  import opened Utf8
  import opened JsString
  import opened BlobUri
  import opened Leaflet
  import opened RichText
  import opened InlineContent
  import opened InlineContentProperties
  import opened AstBlocks
  import Mdast

  // ------------------------------------------------------------- one node, one block

  /** A heading becomes a header block of level `depth` whose text is the heading's
      plaintext; its facets are absent exactly when no phrasing node yields one. */
  lemma HeadingBlock(depth: nat, inlines: seq<Mdast.Inline>, authorDid: string,
                     decodeUriComponent: string -> string)
    ensures var r := Convert(Mdast.Heading(depth, inlines), authorDid, decodeUriComponent);
            && r.OneBlock? && r.block.HeaderBlock?
            && r.block.level == depth
            && r.block.plaintext == PlainSeq(inlines)
            && (r.block.facets.None? <==> forall k :: 0 <= k < |inlines| ==> !Yields(inlines[k]))
  {
    ProcessPlain(inlines, authorDid, decodeUriComponent);
    ProcessFacetsAbsent(inlines, authorDid, decodeUriComponent);
  }

  /** A code node keeps its text as written; the language is set only when `lang` is a
      non-empty string, and is then `lang` itself. */
  lemma CodeNodeBlock(value: string, lang: Option<string>, authorDid: string,
                      decodeUriComponent: string -> string)
    ensures var r := Convert(Mdast.Code(value, lang), authorDid, decodeUriComponent);
            && r.OneBlock? && r.block.CodeBlock?
            && r.block.plaintext == value
            && (r.block.language.Some? <==> lang.Some? && lang.value != "")
            && (r.block.language.Some? ==> r.block.language == lang)
  {
  }

  /** A thematic break is a horizontal rule; a list item outside a list and every other
      block node give nothing. */
  lemma OtherNodeBlocks(node: Mdast.Node, authorDid: string, decodeUriComponent: string -> string)
    ensures node.ThematicBreak? ==> Convert(node, authorDid, decodeUriComponent) == OneBlock(HorizontalRuleBlock)
    ensures node.ListItem? || node.OtherBlock? ==> Emitted(Convert(node, authorDid, decodeUriComponent)) == []
  {
  }

  /** A paragraph whose only child is an image: the text `[Image: <alt>]` (or
      `[Image: Image]` without a usable alt) under one link facet covering all of it. */
  lemma ImageParagraphBlock(url: string, alt: Option<string>, authorDid: string,
                            decodeUriComponent: string -> string)
    ensures var r := Convert(Mdast.Paragraph([Mdast.Image(url, alt)]), authorDid, decodeUriComponent);
            var text := "[Image: " + (if alt.Some? && alt.value != "" then alt.value else "Image") + "]";
            var uri := ConvertBlobUrlToAtUri(url, authorDid, decodeUriComponent);
            r == OneBlock(TextBlock(text, Some([Facet(0, ByteLen(text), [Link(uri)])])))
  {
    var text := ImageText(alt);
    BytePositionAtEnd(text, |text|);
  }

  /** Every other paragraph is a text block of its plaintext, even an empty one. */
  lemma ParagraphBlock(inlines: seq<Mdast.Inline>, authorDid: string, decodeUriComponent: string -> string)
    requires !(|inlines| == 1 && inlines[0].Image?)
    ensures var r := Convert(Mdast.Paragraph(inlines), authorDid, decodeUriComponent);
            && r.OneBlock? && r.block.TextBlock?
            && r.block.plaintext == PlainSeq(inlines)
            && (r.block.facets.None? <==> forall k :: 0 <= k < |inlines| ==> !Yields(inlines[k]))
  {
    ProcessPlain(inlines, authorDid, decodeUriComponent);
    ProcessFacetsAbsent(inlines, authorDid, decodeUriComponent);
  }

  // ------------------------------------------------------------- blockquotes and lists

  /** The plaintexts of the paragraph children, in order; other children have none. */
  function ParagraphTexts(children: seq<Mdast.Node>): seq<string>
  {
    if children == [] then []
    else (if children[0].Paragraph? then [PlainSeq(children[0].inlines)] else []) + ParagraphTexts(children[1..])
  }

  /** The facets of the paragraph children, each list as its paragraph computed it. */
  function ParagraphFacets(children: seq<Mdast.Node>, authorDid: string, decodeUriComponent: string -> string)
    : seq<Facet>
  {
    if children == [] then []
    else
      (if children[0].Paragraph? then ProcessInline(children[0].inlines, authorDid, decodeUriComponent).facets.GetOr([])
       else [])
      + ParagraphFacets(children[1..], authorDid, decodeUriComponent)
  }

  function DropLeadingEmpty(texts: seq<string>): (r: seq<string>)
    ensures r == [] || r[0] != ""
  {
    if texts == [] || texts[0] != "" then texts else DropLeadingEmpty(texts[1..])
  }

  function Concat(texts: seq<string>): string
  {
    if texts == [] then "" else texts[0] + Concat(texts[1..])
  }

  lemma JoinHead(a: string, rest: seq<string>, sep: char)
    ensures Join([a] + rest, sep) == if rest == [] then a else a + [sep] + Join(rest, sep)
  {
    assert ([a] + rest)[1..] == rest;
  }

  /** After some text, every further paragraph is added after a newline. */
  lemma {:induction false} QuoteFromNonEmpty(g: Gathered, children: seq<Mdast.Node>, authorDid: string,
                                             decodeUriComponent: string -> string)
    requires g.text != ""
    ensures QuoteFrom(g, children, authorDid, decodeUriComponent).text == Join([g.text] + ParagraphTexts(children), '\n')
    decreases |children|
  {
    if children == [] {
      JoinHead(g.text, [], '\n');
    } else if children[0].Paragraph? {
      var rest := ParagraphTexts(children[1..]);
      var c := ProcessInline(children[0].inlines, authorDid, decodeUriComponent).plaintext;
      ProcessPlain(children[0].inlines, authorDid, decodeUriComponent);
      var next := Gathered(g.text + "\n" + c,
                           g.facets + ProcessInline(children[0].inlines, authorDid, decodeUriComponent).facets.GetOr([]));
      QuoteFromNonEmpty(next, children[1..], authorDid, decodeUriComponent);
      assert ParagraphTexts(children) == [c] + rest;
      JoinHead(g.text, [c] + rest, '\n');
      JoinHead(c, rest, '\n');
      JoinHead(next.text, rest, '\n');
      assert [g.text] + ParagraphTexts(children) == [g.text] + ([c] + rest);
    } else {
      QuoteFromNonEmpty(g, children[1..], authorDid, decodeUriComponent);
      assert ParagraphTexts(children) == ParagraphTexts(children[1..]);
    }
  }

  /** From nothing, leading empty paragraphs add nothing; then the texts are joined. */
  lemma {:induction false} QuoteFromEmpty(g: Gathered, children: seq<Mdast.Node>, authorDid: string,
                                          decodeUriComponent: string -> string)
    requires g.text == ""
    ensures QuoteFrom(g, children, authorDid, decodeUriComponent).text
            == Join(DropLeadingEmpty(ParagraphTexts(children)), '\n')
    decreases |children|
  {
    if children == [] {
    } else if children[0].Paragraph? {
      var rest := ParagraphTexts(children[1..]);
      var c := ProcessInline(children[0].inlines, authorDid, decodeUriComponent).plaintext;
      ProcessPlain(children[0].inlines, authorDid, decodeUriComponent);
      var next := Gathered(c, g.facets + ProcessInline(children[0].inlines, authorDid, decodeUriComponent).facets.GetOr([]));
      assert g.text + "" + c == c;
      assert ParagraphTexts(children) == [c] + rest;
      if c == "" {
        QuoteFromEmpty(next, children[1..], authorDid, decodeUriComponent);
      } else {
        QuoteFromNonEmpty(next, children[1..], authorDid, decodeUriComponent);
      }
    } else {
      QuoteFromEmpty(g, children[1..], authorDid, decodeUriComponent);
      assert ParagraphTexts(children) == ParagraphTexts(children[1..]);
    }
  }

  /** The facets gathered are those of each paragraph in turn, none shifted. */
  lemma {:induction false} GatheredQuoteFacets(g: Gathered, children: seq<Mdast.Node>, authorDid: string,
                                               decodeUriComponent: string -> string)
    ensures QuoteFrom(g, children, authorDid, decodeUriComponent).facets
            == g.facets + ParagraphFacets(children, authorDid, decodeUriComponent)
    decreases |children|
  {
    if children != [] {
      var rest := ParagraphFacets(children[1..], authorDid, decodeUriComponent);
      if children[0].Paragraph? {
        var content := ProcessInline(children[0].inlines, authorDid, decodeUriComponent);
        var text := g.text + (if g.text != "" then "\n" else "") + content.plaintext;
        GatheredQuoteFacets(Gathered(text, g.facets + content.facets.GetOr([])), children[1..],
                            authorDid, decodeUriComponent);
        AppendAssoc(g.facets, content.facets.GetOr([]), rest);
      } else {
        GatheredQuoteFacets(g, children[1..], authorDid, decodeUriComponent);
        assert ParagraphFacets(children, authorDid, decodeUriComponent) == [] + rest;
      }
    }
  }

  /** A blockquote is one block: its paragraphs' plaintexts joined by newlines (empty
      ones before the first text add nothing), under its paragraphs' facets in order. */
  lemma BlockquoteBlock(children: seq<Mdast.Node>, authorDid: string, decodeUriComponent: string -> string)
    ensures var r := Convert(Mdast.Blockquote(children), authorDid, decodeUriComponent);
            && r.OneBlock? && r.block.BlockquoteBlock?
            && r.block.plaintext == Join(DropLeadingEmpty(ParagraphTexts(children)), '\n')
            && r.block.facets == NonEmpty(ParagraphFacets(children, authorDid, decodeUriComponent))
  {
    QuoteFromEmpty(Gathered("", []), children, authorDid, decodeUriComponent);
    GatheredQuoteFacets(Gathered("", []), children, authorDid, decodeUriComponent);
    assert [] + ParagraphFacets(children, authorDid, decodeUriComponent)
           == ParagraphFacets(children, authorDid, decodeUriComponent);
  }

  /** A list item's text: the prefix, then its paragraphs' plaintexts back to back; its
      facets: its paragraphs' facets in order. */
  lemma {:induction false} ItemFromGathers(g: Gathered, children: seq<Mdast.Node>, authorDid: string,
                                           decodeUriComponent: string -> string)
    ensures ItemFrom(g, children, authorDid, decodeUriComponent)
            == Gathered(g.text + Concat(ParagraphTexts(children)),
                        g.facets + ParagraphFacets(children, authorDid, decodeUriComponent))
    decreases |children|
  {
    if children == [] {
      assert g.text + "" == g.text && g.facets + [] == g.facets;
    } else {
      var c := if children[0].Paragraph? then ProcessInline(children[0].inlines, authorDid, decodeUriComponent).plaintext
               else "";
      var own := if children[0].Paragraph?
                 then ProcessInline(children[0].inlines, authorDid, decodeUriComponent).facets.GetOr([]) else [];
      if children[0].Paragraph? {
        ProcessPlain(children[0].inlines, authorDid, decodeUriComponent);
        assert Concat(ParagraphTexts(children)) == c + Concat(ParagraphTexts(children[1..]));
      } else {
        assert ParagraphTexts(children) == ParagraphTexts(children[1..]);
        assert g.text + c == g.text && g.facets + own == g.facets;
      }
      ItemFromGathers(Gathered(g.text + c, g.facets + own), children[1..], authorDid, decodeUriComponent);
      AppendAssoc(g.text, c, Concat(ParagraphTexts(children[1..])));
      AppendAssoc(g.facets, own, ParagraphFacets(children[1..], authorDid, decodeUriComponent));
    }
  }

  /** The children of each list item of a list, in order; other children are dropped. */
  function ItemChildren(items: seq<Mdast.Node>): seq<seq<Mdast.Node>>
  {
    if items == [] then []
    else (if items[0].ListItem? then [items[0].children] else []) + ItemChildren(items[1..])
  }

  /** `b` is the text block of a list item with these children: the prefix and the
      children's paragraph plaintexts, under their facets (absent when there are none). */
  predicate ItemBlockOf(prefix: string, b: Block, children: seq<Mdast.Node>, authorDid: string,
                        decodeUriComponent: string -> string)
  {
    b == TextBlock(prefix + Concat(ParagraphTexts(children)),
                   NonEmpty(ParagraphFacets(children, authorDid, decodeUriComponent)))
  }

  /** A list gives one text block per list item, in order: the prefix and the item's
      paragraphs' plaintexts, under the item's paragraphs' facets. */
  lemma {:induction false} ListItemBlocks(prefix: string, items: seq<Mdast.Node>, authorDid: string,
                                          decodeUriComponent: string -> string)
    ensures var bs := ListBlocks(prefix, items, authorDid, decodeUriComponent);
            var cs := ItemChildren(items);
            && |bs| == |cs|
            && forall k :: 0 <= k < |bs| ==> ItemBlockOf(prefix, bs[k], cs[k], authorDid, decodeUriComponent)
    decreases |items|
  {
    if items != [] {
      ListItemBlocks(prefix, items[1..], authorDid, decodeUriComponent);
      if items[0].ListItem? {
        ItemFromGathers(Gathered(prefix, []), items[0].children, authorDid, decodeUriComponent);
        var facets := ParagraphFacets(items[0].children, authorDid, decodeUriComponent);
        assert [] + facets == facets;
        var bs, cs := ListBlocks(prefix, items, authorDid, decodeUriComponent), ItemChildren(items);
        var bs', cs' := ListBlocks(prefix, items[1..], authorDid, decodeUriComponent), ItemChildren(items[1..]);
        var b := ItemBlock(prefix, items[0].children, authorDid, decodeUriComponent);
        assert bs == [b] + bs' && cs == [items[0].children] + cs';
        assert ItemBlockOf(prefix, b, items[0].children, authorDid, decodeUriComponent);
        ItemBlocksCons(prefix, b, bs', items[0].children, cs', authorDid, decodeUriComponent);
      }
    }
  }

  /** The item-by-item description survives putting one more item in front. */
  lemma ItemBlocksCons(prefix: string, b: Block, bs: seq<Block>, c: seq<Mdast.Node>, cs: seq<seq<Mdast.Node>>,
                       authorDid: string, decodeUriComponent: string -> string)
    requires |bs| == |cs|
    requires forall k :: 0 <= k < |bs| ==> ItemBlockOf(prefix, bs[k], cs[k], authorDid, decodeUriComponent)
    requires ItemBlockOf(prefix, b, c, authorDid, decodeUriComponent)
    ensures forall k :: 0 <= k < |bs| + 1 ==>
              ItemBlockOf(prefix, ([b] + bs)[k], ([c] + cs)[k], authorDid, decodeUriComponent)
  {
    forall k | 0 <= k < |bs| + 1
      ensures ItemBlockOf(prefix, ([b] + bs)[k], ([c] + cs)[k], authorDid, decodeUriComponent)
    {
      if k > 0 {
        assert ([b] + bs)[k] == bs[k - 1] && ([c] + cs)[k] == cs[k - 1];
      }
    }
  }

  /** The item prefix: for an ordered list the decimal digits of its start (1 when the
      start is missing or 0) then ". "; otherwise the bullet. */
  lemma ListPrefixDigits(ordered: bool, start: Option<nat>)
    ensures var p := ListPrefix(ordered, start);
            ordered ==> && |p| >= 3 && p[|p| - 2..] == ". "
                        && (forall k :: 0 <= k < |p| - 2 ==> '0' <= p[k] <= '9')
                        && DecimalValue(p[..|p| - 2]) == (if start.Some? && start.value != 0 then start.value else 1)
    ensures !ordered ==> ListPrefix(ordered, start) == Bullet
  {
    if ordered {
      var digits := NatToString(if start.Some? && start.value != 0 then start.value else 1);
      assert ListPrefix(ordered, start)[..|digits|] == digits;
    }
  }

  // ------------------------------------------------------------- the walk

  /** Each top-level node contributes its blocks in place: walking a tree is walking its
      first node, then the rest. */
  lemma WalkCons(node: Mdast.Node, rest: seq<Mdast.Node>, authorDid: string, decodeUriComponent: string -> string)
    ensures Walk([node] + rest, authorDid, decodeUriComponent)
            == Emitted(Convert(node, authorDid, decodeUriComponent)) + Walk(rest, authorDid, decodeUriComponent)
  {
    assert ([node] + rest)[1..] == rest;
  }

  /** Without any node that yields a block the result is the raw markdown as one text
      block with no facets. */
  lemma FallbackBlock(tree: seq<Mdast.Node>, markdown: string, authorDid: string,
                      decodeUriComponent: string -> string)
    requires forall k :: 0 <= k < |tree| ==> tree[k].ListItem? || tree[k].OtherBlock?
    ensures AstMarkdownToBlocks(tree, markdown, authorDid, decodeUriComponent) == [TextBlock(markdown, None)]
  {
    NoBlocksWalk(tree, authorDid, decodeUriComponent);
  }

  lemma {:induction false} NoBlocksWalk(tree: seq<Mdast.Node>, authorDid: string, decodeUriComponent: string -> string)
    requires forall k :: 0 <= k < |tree| ==> tree[k].ListItem? || tree[k].OtherBlock?
    ensures Walk(tree, authorDid, decodeUriComponent) == []
    decreases |tree|
  {
    if tree != [] {
      assert forall k :: 0 <= k < |tree[1..]| ==> tree[1..][k] == tree[k + 1];
      NoBlocksWalk(tree[1..], authorDid, decodeUriComponent);
    }
  }

  // ------------------------------------------------------------- byte bounds

  predicate AllWithin(blocks: seq<Block>) {
    forall k :: 0 <= k < |blocks| ==> BlockFacetsWithin(blocks[k])
  }

  lemma AllWithinAppend(a: seq<Block>, b: seq<Block>)
    requires AllWithin(a) && AllWithin(b)
    ensures AllWithin(a + b)
  {
    assert forall k :: |a| <= k < |a + b| ==> (a + b)[k] == b[k - |a|];
  }

  predicate GatheredWithin(g: Gathered) {
    FacetsWithin(g.facets, ByteLen(g.text))
  }

  /** Adding a paragraph after `prefix` bytes keeps every gathered facet inside the text. */
  lemma AddParagraphWithin(g: Gathered, sep: string, content: RichText)
    requires GatheredWithin(g) && OptFacetsWithin(content.facets, ByteLen(content.plaintext))
    ensures GatheredWithin(Gathered(g.text + sep + content.plaintext, g.facets + content.facets.GetOr([])))
  {
    var text := g.text + sep + content.plaintext;
    ByteLenAppend(g.text + sep, content.plaintext);
    ByteLenAppend(g.text, sep);
    FacetsWithinWeaken(g.facets, ByteLen(g.text), ByteLen(text));
    FacetsWithinWeaken(content.facets.GetOr([]), ByteLen(content.plaintext), ByteLen(text));
    FacetsWithinAppend(g.facets, content.facets.GetOr([]), ByteLen(text));
  }

  lemma {:induction false} QuoteFromWithin(g: Gathered, children: seq<Mdast.Node>, authorDid: string,
                                           decodeUriComponent: string -> string)
    requires GatheredWithin(g)
    ensures GatheredWithin(QuoteFrom(g, children, authorDid, decodeUriComponent))
    decreases |children|
  {
    if children != [] {
      if children[0].Paragraph? {
        var content := ProcessInline(children[0].inlines, authorDid, decodeUriComponent);
        ProcessWithin(children[0].inlines, authorDid, decodeUriComponent);
        AddParagraphWithin(g, if g.text != "" then "\n" else "", content);
        QuoteFromWithin(Gathered(g.text + (if g.text != "" then "\n" else "") + content.plaintext,
                                 g.facets + content.facets.GetOr([])),
                        children[1..], authorDid, decodeUriComponent);
      } else {
        QuoteFromWithin(g, children[1..], authorDid, decodeUriComponent);
      }
    }
  }

  lemma {:induction false} ItemFromWithin(g: Gathered, children: seq<Mdast.Node>, authorDid: string,
                                          decodeUriComponent: string -> string)
    requires GatheredWithin(g)
    ensures GatheredWithin(ItemFrom(g, children, authorDid, decodeUriComponent))
    decreases |children|
  {
    if children != [] {
      if children[0].Paragraph? {
        var content := ProcessInline(children[0].inlines, authorDid, decodeUriComponent);
        ProcessWithin(children[0].inlines, authorDid, decodeUriComponent);
        AddParagraphWithin(g, "", content);
        assert g.text + "" + content.plaintext == g.text + content.plaintext;
        ItemFromWithin(Gathered(g.text + content.plaintext, g.facets + content.facets.GetOr([])),
                       children[1..], authorDid, decodeUriComponent);
      } else {
        ItemFromWithin(g, children[1..], authorDid, decodeUriComponent);
      }
    }
  }

  lemma {:induction false} ListBlocksWithin(prefix: string, items: seq<Mdast.Node>, authorDid: string,
                                            decodeUriComponent: string -> string)
    ensures AllWithin(ListBlocks(prefix, items, authorDid, decodeUriComponent))
    decreases |items|
  {
    if items != [] {
      ListBlocksWithin(prefix, items[1..], authorDid, decodeUriComponent);
      if items[0].ListItem? {
        ItemFromWithin(Gathered(prefix, []), items[0].children, authorDid, decodeUriComponent);
        var b := ItemBlock(prefix, items[0].children, authorDid, decodeUriComponent);
        assert AllWithin([b]);
        AllWithinAppend([b], ListBlocks(prefix, items[1..], authorDid, decodeUriComponent));
      } else {
        assert [] + ListBlocks(prefix, items[1..], authorDid, decodeUriComponent)
               == ListBlocks(prefix, items[1..], authorDid, decodeUriComponent);
      }
    }
  }

  lemma ConvertWithin(node: Mdast.Node, authorDid: string, decodeUriComponent: string -> string)
    ensures AllWithin(Emitted(Convert(node, authorDid, decodeUriComponent)))
  {
    match node
    case Heading(_, inlines) => ProcessWithin(inlines, authorDid, decodeUriComponent);
    case Paragraph(inlines) =>
      if ImageOnly(inlines) {
        var text := ImageText(inlines[0].alt);
        BytePositionAtEnd(text, |text|);
      } else {
        ProcessWithin(inlines, authorDid, decodeUriComponent);
      }
    case Blockquote(children) =>
      QuoteFromWithin(Gathered("", []), children, authorDid, decodeUriComponent);
    case List(ordered, start, children) =>
      ListBlocksWithin(ListPrefix(ordered, start), children, authorDid, decodeUriComponent);
    case _ =>
  }

  lemma {:induction false} WalkWithin(tree: seq<Mdast.Node>, authorDid: string, decodeUriComponent: string -> string)
    ensures AllWithin(Walk(tree, authorDid, decodeUriComponent))
    decreases |tree|
  {
    if tree != [] {
      ConvertWithin(tree[0], authorDid, decodeUriComponent);
      WalkWithin(tree[1..], authorDid, decodeUriComponent);
      AllWithinAppend(Emitted(Convert(tree[0], authorDid, decodeUriComponent)), Walk(tree[1..], authorDid, decodeUriComponent));
    }
  }

  /** Every facet of every block the AST converter returns lies within the UTF-8 bytes of
      that block's plaintext. */
  lemma AstBlocksWithin(tree: seq<Mdast.Node>, markdown: string, authorDid: string,
                        decodeUriComponent: string -> string)
    ensures var blocks := AstMarkdownToBlocks(tree, markdown, authorDid, decodeUriComponent);
            forall k :: 0 <= k < |blocks| ==> BlockFacetsWithin(blocks[k])
  {
    WalkWithin(tree, authorDid, decodeUriComponent);
  }
}
