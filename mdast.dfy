/** The part of the mdast syntax tree (the tree `remark-parse` builds) that the AST
    converter of src/lib/markdown-parser.ts reads. The parser itself is not modelled:
    the tree is the converter's input. */
module Mdast {
  import opened Wrappers

  /** Phrasing content. `OtherInline` stands for every node type the converter ignores
      (html, delete, footnote references, ...). */
  datatype Inline =
    | Text(value: string)
    | Link(url: string, children: seq<Inline>)
    | Strong(children: seq<Inline>)
    | Emphasis(children: seq<Inline>)
    | InlineCode(value: string)
    | Break
    | Image(url: string, alt: Option<string>)
    | OtherInline

  /** Flow content. `OtherBlock` stands for html, tables, definitions and the other
      node types `nodeToBlock` maps to `null`. */
  datatype Node =
    | Heading(depth: nat, inlines: seq<Inline>)
    | Paragraph(inlines: seq<Inline>)
    | Blockquote(children: seq<Node>)
    | Code(value: string, lang: Option<string>)
    | ThematicBreak
    | List(ordered: bool, start: Option<nat>, children: seq<Node>)
    | ListItem(children: seq<Node>)
    | OtherBlock

  /** The number of nodes in an inline tree, the measure its recursive walks decrease. */
  function Size(node: Inline): nat
  {
    match node
    case Link(_, children) => 1 + SizeSeq(children)
    case Strong(children) => 1 + SizeSeq(children)
    case Emphasis(children) => 1 + SizeSeq(children)
    case _ => 1
  }

  function SizeSeq(nodes: seq<Inline>): nat
  {
    if nodes == [] then 0 else Size(nodes[0]) + SizeSeq(nodes[1..])
  }
}
