/** The Leaflet record shapes of src/lib/types.ts that the converters build. The `$type`
    tag of each block is its constructor: `pub.leaflet.blocks.text`, `.header`,
    `.blockquote`, `.code` and `.horizontalRule`; facet features are
    `pub.leaflet.richtext.facet#bold`, `#italic`, `#code` and `#link`. */
module Leaflet {
  import opened Wrappers
  import opened Utf8

  datatype Feature = Bold | Italic | Code | Link(uri: string)

  /** A facet: byte offsets into the UTF-8 encoding of its block's plaintext. */
  datatype Facet = Facet(byteStart: nat, byteEnd: nat, features: seq<Feature>)

  datatype Block =
    | TextBlock(plaintext: string, facets: Option<seq<Facet>>)
    | HeaderBlock(level: int, plaintext: string, facets: Option<seq<Facet>>)
    | BlockquoteBlock(plaintext: string, facets: Option<seq<Facet>>)
    | CodeBlock(plaintext: string, language: Option<string>)
    | HorizontalRuleBlock

  /** `pub.leaflet.pages.linearDocument`. */
  datatype Page = LinearDocument(blocks: seq<Block>)

  /** `pub.leaflet.document`. */
  datatype Document = Document(
    title: string,
    description: Option<string>,
    author: string,
    publication: string,
    publishedAt: Option<string>,
    pages: seq<Page>)

  /** 0 <= byteStart <= byteEnd <= n for every facet. */
  predicate FacetsWithin(facets: seq<Facet>, n: nat) {
    forall k :: 0 <= k < |facets| ==> facets[k].byteStart <= facets[k].byteEnd <= n
  }

  predicate OptFacetsWithin(facets: Option<seq<Facet>>, n: nat) {
    facets.Some? ==> FacetsWithin(facets.value, n)
  }

  /** Every facet of a block lies inside the UTF-8 bytes of the block's plaintext. */
  predicate BlockFacetsWithin(b: Block) {
    match b
    case TextBlock(p, fs) => OptFacetsWithin(fs, ByteLen(p))
    case HeaderBlock(_, p, fs) => OptFacetsWithin(fs, ByteLen(p))
    case BlockquoteBlock(p, fs) => OptFacetsWithin(fs, ByteLen(p))
    case CodeBlock(_, _) => true
    case HorizontalRuleBlock => true
  }

  predicate SortedByStart(facets: seq<Facet>) {
    forall j, k :: 0 <= j < k < |facets| ==> facets[j].byteStart <= facets[k].byteStart
  }

  /** A facet list present only when non-empty, as `facets.length > 0 ? facets : undefined`. */
  function NonEmpty(facets: seq<Facet>): (r: Option<seq<Facet>>)
    ensures r.Some? <==> facets != []
    ensures r.Some? ==> r.value == facets
  {
    if |facets| > 0 then Some(facets) else None
  }
}
