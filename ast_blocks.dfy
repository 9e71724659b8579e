/** Block mapping of the AST converter (src/lib/markdown-parser.ts): `nodeToBlock` and the
    top-level walk of `parseMarkdownToBlocks`, with its fallback. The syntax tree is the
    input; the `{ block }` wrapper object around each block is left implicit. */
module AstBlocks {
  import opened Wrappers
  import opened Utf8
  import opened JsString
  import opened BlobUri
  import opened Leaflet
  import opened RichText
  import opened InlineContent
  import Mdast

  /** What `nodeToBlock` returns: `null`, one block, or an array of blocks. */
  datatype Converted = NoBlock | OneBlock(block: Block) | ManyBlocks(blocks: seq<Block>)

  /** The bullet literal of the list case as the source file spells it: the UTF-8 bytes
      of U+2022 read back as Windows-1252, that is U+00E2 U+20AC U+00A2, then a space. */
  const Bullet: string := "\U{00E2}\U{20AC}\U{00A2} "

  /** `[Image: ${imgNode.alt || 'Image'}]`. */
  function ImageText(alt: Option<string>): string
  {
    "[Image: " + (if Truthy(alt) then alt.value else "Image") + "]"
  }

  /** A paragraph holding one image: a text block with one link facet over the whole text. */
  function ImageBlock(url: string, alt: Option<string>, authorDid: string,
                      decodeUriComponent: string -> string): Block
  {
    var text := ImageText(alt);
    var uri := ConvertBlobUrlToAtUri(url, authorDid, decodeUriComponent);
    TextBlock(text, Some([Facet(0, BytePosition(text, |text|), [Link(uri)])]))
  }

  predicate ImageOnly(inlines: seq<Mdast.Inline>) {
    |inlines| == 1 && inlines[0].Image?
  }

  /** The text and facets gathered from the paragraph children of a blockquote or a list
      item (`allText`/`text` and `allFacets`). */
  datatype Gathered = Gathered(text: string, facets: seq<Facet>)

  /** The blockquote loop from state `g`: each paragraph is appended, after a newline
      when text was gathered already; other children are skipped. */
  function QuoteFrom(g: Gathered, children: seq<Mdast.Node>, authorDid: string,
                     decodeUriComponent: string -> string): Gathered
    decreases |children|
  {
    if children == [] then g
    else
      var next :=
        if children[0].Paragraph? then
          var content := ProcessInline(children[0].inlines, authorDid, decodeUriComponent);
          Gathered(g.text + (if g.text != "" then "\n" else "") + content.plaintext,
                   g.facets + content.facets.GetOr([]))
        else g;
      QuoteFrom(next, children[1..], authorDid, decodeUriComponent)
  }

  function QuoteBlock(children: seq<Mdast.Node>, authorDid: string, decodeUriComponent: string -> string): Block
  {
    var g := QuoteFrom(Gathered("", []), children, authorDid, decodeUriComponent);
    BlockquoteBlock(g.text, NonEmpty(g.facets))
  }

  /** The loop over a list item's children from state `g`: paragraphs are appended with
      no separator; nested lists and other children are dropped. */
  function ItemFrom(g: Gathered, children: seq<Mdast.Node>, authorDid: string,
                    decodeUriComponent: string -> string): Gathered
    decreases |children|
  {
    if children == [] then g
    else
      var next :=
        if children[0].Paragraph? then
          var content := ProcessInline(children[0].inlines, authorDid, decodeUriComponent);
          Gathered(g.text + content.plaintext, g.facets + content.facets.GetOr([]))
        else g;
      ItemFrom(next, children[1..], authorDid, decodeUriComponent)
  }

  /** `listNode.ordered ? `${listNode.start || 1}. ` : '<bullet>'`. */
  function ListPrefix(ordered: bool, start: Option<nat>): string
  {
    if ordered then NatToString(if start.Some? && start.value != 0 then start.value else 1) + ". "
    else Bullet
  }

  function ItemBlock(prefix: string, children: seq<Mdast.Node>, authorDid: string,
                     decodeUriComponent: string -> string): Block
  {
    var g := ItemFrom(Gathered(prefix, []), children, authorDid, decodeUriComponent);
    TextBlock(g.text, NonEmpty(g.facets))
  }

  /** The list loop: one text block per `listItem` child, in order. */
  function ListBlocks(prefix: string, items: seq<Mdast.Node>, authorDid: string,
                      decodeUriComponent: string -> string): seq<Block>
  {
    if items == [] then []
    else
      (if items[0].ListItem? then [ItemBlock(prefix, items[0].children, authorDid, decodeUriComponent)] else [])
      + ListBlocks(prefix, items[1..], authorDid, decodeUriComponent)
  }

  /** `nodeToBlock(node, context)`. */
  function Convert(node: Mdast.Node, authorDid: string, decodeUriComponent: string -> string): Converted
  {
    match node
    case Heading(depth, inlines) =>
      var content := ProcessInline(inlines, authorDid, decodeUriComponent);
      OneBlock(HeaderBlock(depth, content.plaintext, content.facets))
    case Paragraph(inlines) =>
      if ImageOnly(inlines) then
        OneBlock(ImageBlock(inlines[0].url, inlines[0].alt, authorDid, decodeUriComponent))
      else
        var content := ProcessInline(inlines, authorDid, decodeUriComponent);
        OneBlock(TextBlock(content.plaintext, content.facets))
    case Blockquote(children) => OneBlock(QuoteBlock(children, authorDid, decodeUriComponent))
    case Code(value, lang) => OneBlock(CodeBlock(value, if Truthy(lang) then lang else None))
    case ThematicBreak => OneBlock(HorizontalRuleBlock)
    case List(ordered, start, children) =>
      ManyBlocks(ListBlocks(ListPrefix(ordered, start), children, authorDid, decodeUriComponent))
    case ListItem(_) => NoBlock
    case OtherBlock => NoBlock
  }

  /** The blocks the walk pushes for one result: none for `null`, every element of an array. */
  function Emitted(r: Converted): seq<Block>
  {
    match r
    case NoBlock => []
    case OneBlock(b) => [b]
    case ManyBlocks(bs) => bs
  }

  /** The walk over the root's children. */
  function Walk(tree: seq<Mdast.Node>, authorDid: string, decodeUriComponent: string -> string): seq<Block>
  {
    if tree == [] then []
    else Emitted(Convert(tree[0], authorDid, decodeUriComponent)) + Walk(tree[1..], authorDid, decodeUriComponent)
  }

  /** `parseMarkdownToBlocks(markdown, authorDid)` of the AST converter, given the tree
      `remark` parses `markdown` into. */
  function AstMarkdownToBlocks(tree: seq<Mdast.Node>, markdown: string, authorDid: string,
                               decodeUriComponent: string -> string): (blocks: seq<Block>)
    ensures |blocks| >= 1
    ensures Walk(tree, authorDid, decodeUriComponent) != [] ==> blocks == Walk(tree, authorDid, decodeUriComponent)
    ensures Walk(tree, authorDid, decodeUriComponent) == [] ==> blocks == [TextBlock(markdown, None)]
  {
    var blocks := Walk(tree, authorDid, decodeUriComponent);
    if blocks == [] then [TextBlock(markdown, None)] else blocks
  }

  // ---------------------------------------------------------------- the methods

  lemma QuoteFromUnfold(g: Gathered, children: seq<Mdast.Node>, i: nat, authorDid: string,
                        decodeUriComponent: string -> string)
    requires i < |children|
    ensures QuoteFrom(g, children[i..], authorDid, decodeUriComponent)
            == QuoteFrom(if children[i].Paragraph? then
                           var content := ProcessInline(children[i].inlines, authorDid, decodeUriComponent);
                           Gathered(g.text + (if g.text != "" then "\n" else "") + content.plaintext,
                                    g.facets + content.facets.GetOr([]))
                         else g,
                         children[i + 1..], authorDid, decodeUriComponent)
  {
    assert children[i..][1..] == children[i + 1..];
  }

  /** The blockquote case of `nodeToBlock`. */
  method GatherQuote(children: seq<Mdast.Node>, authorDid: string, decodeUriComponent: string -> string)
    returns (block: Block)
    ensures block == QuoteBlock(children, authorDid, decodeUriComponent)
  {
    var allText := "";
    var allFacets: seq<Facet> := [];
    for i := 0 to |children|
      invariant QuoteFrom(Gathered(allText, allFacets), children[i..], authorDid, decodeUriComponent)
                == QuoteFrom(Gathered("", []), children, authorDid, decodeUriComponent)
    {
      QuoteFromUnfold(Gathered(allText, allFacets), children, i, authorDid, decodeUriComponent);
      var child := children[i];
      if child.Paragraph? {
        var content := ProcessInlineContent(child.inlines, authorDid, decodeUriComponent);
        allText := allText + (if allText != "" then "\n" else "") + content.plaintext;
        if content.facets.Some? {
          allFacets := allFacets + content.facets.value;
        } else {
          assert allFacets + content.facets.GetOr([]) == allFacets;
        }
      }
    }
    assert children[|children|..] == [];
    block := BlockquoteBlock(allText, if |allFacets| > 0 then Some(allFacets) else None);
  }

  lemma ItemFromUnfold(g: Gathered, children: seq<Mdast.Node>, i: nat, authorDid: string,
                       decodeUriComponent: string -> string)
    requires i < |children|
    ensures ItemFrom(g, children[i..], authorDid, decodeUriComponent)
            == ItemFrom(if children[i].Paragraph? then
                          var content := ProcessInline(children[i].inlines, authorDid, decodeUriComponent);
                          Gathered(g.text + content.plaintext, g.facets + content.facets.GetOr([]))
                        else g,
                        children[i + 1..], authorDid, decodeUriComponent)
  {
    assert children[i..][1..] == children[i + 1..];
  }

  /** The body of the list loop for one `listItem`. */
  method GatherItem(prefix: string, children: seq<Mdast.Node>, authorDid: string,
                    decodeUriComponent: string -> string)
    returns (block: Block)
    ensures block == ItemBlock(prefix, children, authorDid, decodeUriComponent)
  {
    var text := prefix;
    var allFacets: seq<Facet> := [];
    for i := 0 to |children|
      invariant ItemFrom(Gathered(text, allFacets), children[i..], authorDid, decodeUriComponent)
                == ItemFrom(Gathered(prefix, []), children, authorDid, decodeUriComponent)
    {
      ItemFromUnfold(Gathered(text, allFacets), children, i, authorDid, decodeUriComponent);
      var child := children[i];
      if child.Paragraph? {
        var content := ProcessInlineContent(child.inlines, authorDid, decodeUriComponent);
        text := text + content.plaintext;
        if content.facets.Some? {
          allFacets := allFacets + content.facets.value;
        } else {
          assert allFacets + content.facets.GetOr([]) == allFacets;
        }
      }
    }
    assert children[|children|..] == [];
    block := TextBlock(text, if |allFacets| > 0 then Some(allFacets) else None);
  }

  lemma ListBlocksSplit(prefix: string, items: seq<Mdast.Node>, i: nat, authorDid: string,
                        decodeUriComponent: string -> string)
    requires i < |items|
    ensures ListBlocks(prefix, items[..i + 1], authorDid, decodeUriComponent)
            == ListBlocks(prefix, items[..i], authorDid, decodeUriComponent)
               + (if items[i].ListItem? then [ItemBlock(prefix, items[i].children, authorDid, decodeUriComponent)]
                  else [])
  {
    ListBlocksAppend(prefix, items[..i], [items[i]], authorDid, decodeUriComponent);
    assert items[..i + 1] == items[..i] + [items[i]];
  }

  lemma {:induction false} ListBlocksAppend(prefix: string, a: seq<Mdast.Node>, b: seq<Mdast.Node>,
                                            authorDid: string, decodeUriComponent: string -> string)
    ensures ListBlocks(prefix, a + b, authorDid, decodeUriComponent)
            == ListBlocks(prefix, a, authorDid, decodeUriComponent) + ListBlocks(prefix, b, authorDid, decodeUriComponent)
  {
    if a == [] {
      assert a + b == b;
    } else {
      assert (a + b)[1..] == a[1..] + b;
      ListBlocksAppend(prefix, a[1..], b, authorDid, decodeUriComponent);
    }
  }

  /** The list case of `nodeToBlock`. */
  method ListToBlocks(ordered: bool, start: Option<nat>, items: seq<Mdast.Node>, authorDid: string,
                      decodeUriComponent: string -> string)
    returns (blocks: seq<Block>)
    ensures blocks == ListBlocks(ListPrefix(ordered, start), items, authorDid, decodeUriComponent)
  {
    blocks := [];
    for i := 0 to |items|
      invariant blocks == ListBlocks(ListPrefix(ordered, start), items[..i], authorDid, decodeUriComponent)
    {
      ListBlocksSplit(ListPrefix(ordered, start), items, i, authorDid, decodeUriComponent);
      var item := items[i];
      if item.ListItem? {
        var text := if ordered then NatToString(if start.Some? && start.value != 0 then start.value else 1) + ". "
                    else Bullet;
        var block := GatherItem(text, item.children, authorDid, decodeUriComponent);
        blocks := blocks + [block];
      }
    }
    assert items[..|items|] == items;
  }

  /** `nodeToBlock(node, context)`. */
  method NodeToBlock(node: Mdast.Node, authorDid: string, decodeUriComponent: string -> string)
    returns (r: Converted)
    ensures r == Convert(node, authorDid, decodeUriComponent)
  {
    match node {
      case Heading(depth, inlines) =>
        var content := ProcessInlineContent(inlines, authorDid, decodeUriComponent);
        r := OneBlock(HeaderBlock(depth, content.plaintext, content.facets));
      case Paragraph(inlines) =>
        if |inlines| == 1 && inlines[0].Image? {
          var uri := ConvertBlobUrlToAtUri(inlines[0].url, authorDid, decodeUriComponent);
          var imageText := ImageText(inlines[0].alt);
          var end := BytePosition(imageText, |imageText|);
          r := OneBlock(TextBlock(imageText, Some([Facet(0, end, [Link(uri)])])));
        } else {
          var content := ProcessInlineContent(inlines, authorDid, decodeUriComponent);
          r := OneBlock(TextBlock(content.plaintext, content.facets));
        }
      case Blockquote(children) =>
        var block := GatherQuote(children, authorDid, decodeUriComponent);
        r := OneBlock(block);
      case Code(value, lang) =>
        r := OneBlock(CodeBlock(value, if Truthy(lang) then lang else None));
      case ThematicBreak =>
        r := OneBlock(HorizontalRuleBlock);
      case List(ordered, start, children) =>
        var blocks := ListToBlocks(ordered, start, children, authorDid, decodeUriComponent);
        r := ManyBlocks(blocks);
      case ListItem(_) =>
        r := NoBlock;
      case OtherBlock =>
        r := NoBlock;
    }
  }

  lemma {:induction false} WalkAppend(a: seq<Mdast.Node>, b: seq<Mdast.Node>, authorDid: string,
                                      decodeUriComponent: string -> string)
    ensures Walk(a + b, authorDid, decodeUriComponent)
            == Walk(a, authorDid, decodeUriComponent) + Walk(b, authorDid, decodeUriComponent)
  {
    if a == [] {
      assert a + b == b;
    } else {
      assert (a + b)[1..] == a[1..] + b;
      WalkAppend(a[1..], b, authorDid, decodeUriComponent);
      AppendAssoc(Emitted(Convert(a[0], authorDid, decodeUriComponent)),
                  Walk(a[1..], authorDid, decodeUriComponent), Walk(b, authorDid, decodeUriComponent));
    }
  }

  /** `parseMarkdownToBlocks(markdown, authorDid)`: the walk, then the fallback. */
  method ParseMarkdownToBlocks(tree: seq<Mdast.Node>, markdown: string, authorDid: string,
                               decodeUriComponent: string -> string)
    returns (blocks: seq<Block>)
    ensures blocks == AstMarkdownToBlocks(tree, markdown, authorDid, decodeUriComponent)
  {
    blocks := [];
    for i := 0 to |tree|
      invariant blocks == Walk(tree[..i], authorDid, decodeUriComponent)
    {
      var converted := NodeToBlock(tree[i], authorDid, decodeUriComponent);
      WalkAppend(tree[..i], [tree[i]], authorDid, decodeUriComponent);
      assert tree[..i + 1] == tree[..i] + [tree[i]];
      assert Walk([tree[i]], authorDid, decodeUriComponent) == Emitted(converted) + Walk([], authorDid, decodeUriComponent);
      match converted {
        case NoBlock =>
        case OneBlock(b) =>
          blocks := blocks + [b];
        case ManyBlocks(bs) =>
          blocks := blocks + bs;
      }
    }
    assert tree[..|tree|] == tree;
    if |blocks| == 0 {
      blocks := blocks + [TextBlock(markdown, None)];
    }
  }
}
