/** `parseRichText` (identical in src/lib/convert.ts and script.js): regular-expression
    extraction of link, bold, italic and code facets from one block of Markdown text. */
module RichText {
  import opened Wrappers
  import opened JsString
  import opened Utf8
  import opened Patterns
  import opened BlobUri
  import opened Leaflet

  datatype RichText = RichText(plaintext: string, facets: Option<seq<Facet>>)

  /** One entry of `linkReplacements`: the match's span in the original text, the link
      text and the converted target. */
  datatype LinkReplacement = LinkReplacement(start: nat, end: nat, text: string, uri: string)

  /** The replacements recorded by the link `exec` loop from position `from`. */
  function LinkReplacements(text: string, from: nat, authorDid: string,
                            decodeUriComponent: string -> string): seq<LinkReplacement>
    requires from <= |text|
    decreases |text| - from
  {
    match NextMatch(LinkSyntax, text, from)
    case None => []
    case Some(m) =>
      [LinkReplacement(m.start, m.end, Group1(text, m),
                       ConvertBlobUrlToAtUri(Group2(text, m), authorDid, decodeUriComponent))]
      + LinkReplacements(text, m.end, authorDid, decodeUriComponent)
  }

  /** The link facet the reverse loop records for `rep` against the current plaintext. */
  function LinkFacet(plaintext: string, rep: LinkReplacement): Facet
  {
    var byteStart := ByteLen(Substring(plaintext, 0, rep.start));
    Facet(byteStart, byteStart + ByteLen(rep.text), [Link(rep.uri)])
  }

  /** `plaintext.substring(0, start) + text + plaintext.substring(end)`. */
  function ApplyReplacement(plaintext: string, rep: LinkReplacement): string
  {
    Substring(plaintext, 0, rep.start) + rep.text + SubstringFrom(plaintext, rep.end)
  }

  datatype Rewrite = Rewrite(plaintext: string, facets: seq<Facet>)

  /** The reverse loop over `reps`: the last replacement is applied first. */
  function RewriteLinks(plaintext: string, reps: seq<LinkReplacement>): (r: Rewrite)
    ensures |r.facets| == |reps|
    decreases |reps|
  {
    if reps == [] then Rewrite(plaintext, [])
    else
      var rep := reps[|reps| - 1];
      var rest := RewriteLinks(ApplyReplacement(plaintext, rep), reps[..|reps| - 1]);
      Rewrite(rest.plaintext, [LinkFacet(plaintext, rep)] + rest.facets)
  }

  /** The facet a bold, italic or code match yields: its start is the byte length of the
      text before the match (markers included); its width is that of group 1. */
  function MarkupFacet(t: string, m: Match, feature: Feature): Facet
    requires WellFormed(m, t)
  {
    var start := ByteLen(Substring(t, 0, m.start));
    Facet(start, start + ByteLen(Group1(t, m)), [feature])
  }

  /** The facets one markup `exec` loop pushes, from position `from`. */
  function MarkupFacets(p: Pattern, t: string, from: nat, feature: Feature): seq<Facet>
    requires from <= |t|
    decreases |t| - from
  {
    match NextMatch(p, t, from)
    case None => []
    case Some(m) => [MarkupFacet(t, m, feature)] + MarkupFacets(p, t, m.end, feature)
  }

  /** Insert after every facet that starts no later: a stable insertion. */
  function InsertByStart(sorted: seq<Facet>, f: Facet): (r: seq<Facet>)
    ensures multiset(r) == multiset(sorted) + multiset{f}
  {
    if sorted == [] || sorted[|sorted| - 1].byteStart <= f.byteStart then
      sorted + [f]
    else
      var init := sorted[..|sorted| - 1];
      assert sorted == init + [sorted[|sorted| - 1]];
      InsertByStart(init, f) + [sorted[|sorted| - 1]]
  }

  lemma {:induction false} InsertKeepsSorted(sorted: seq<Facet>, f: Facet)
    requires SortedByStart(sorted)
    ensures SortedByStart(InsertByStart(sorted, f))
    decreases |sorted|
  {
    if sorted == [] || sorted[|sorted| - 1].byteStart <= f.byteStart {
    } else {
      var init, last := sorted[..|sorted| - 1], sorted[|sorted| - 1];
      assert sorted == init + [last];
      InsertKeepsSorted(init, f);
      var r' := InsertByStart(init, f);
      assert multiset(r') == multiset(init) + multiset{f};
      forall j | 0 <= j < |r'| ensures r'[j].byteStart <= last.byteStart {
        assert r'[j] in multiset(r');
        if r'[j] != f {
          assert r'[j] in multiset(init);
          var k :| 0 <= k < |init| && init[k] == r'[j];
          assert sorted[k] == init[k];
        }
      }
      assert InsertByStart(sorted, f) == r' + [last];
    }
  }

  /** `allFacets.sort((a, b) => a.index.byteStart - b.index.byteStart)`: a stable sort
      (required of `Array.prototype.sort` since ECMAScript 2019). */
  function SortByStart(facets: seq<Facet>): (r: seq<Facet>)
    ensures multiset(r) == multiset(facets)
    ensures SortedByStart(r)
  {
    if facets == [] then []
    else
      var init := facets[..|facets| - 1];
      assert facets == init + [facets[|facets| - 1]];
      InsertKeepsSorted(SortByStart(init), facets[|facets| - 1]);
      InsertByStart(SortByStart(init), facets[|facets| - 1])
  }

  /** The facets before sorting: link facets (last link first), then bold, italic and
      code facets measured on the link-rewritten text. */
  function UnsortedFacets(linked: Rewrite): seq<Facet>
  {
    linked.facets
    + MarkupFacets(BoldSyntax, linked.plaintext, 0, Bold)
    + MarkupFacets(ItalicSyntax, linked.plaintext, 0, Italic)
    + MarkupFacets(CodeSyntax, linked.plaintext, 0, Code)
  }

  /** The value `parseRichText(text, authorDid)` returns. */
  function RichTextOf(text: string, authorDid: string, decodeUriComponent: string -> string): RichText
  {
    var linked := RewriteLinks(text, LinkReplacements(text, 0, authorDid, decodeUriComponent));
    var allFacets := SortByStart(UnsortedFacets(linked));
    var p1 := ReplaceWithGroup1(BoldSyntax, linked.plaintext, 0);
    var p2 := ReplaceWithGroup1(ItalicSyntax, p1, 0);
    var p3 := ReplaceWithGroup1(CodeSyntax, p2, 0);
    RichText(p3, NonEmpty(allFacets))
  }

  /** One markup `exec` loop: each match pushes its facet. */
  method CollectMarkupFacets(p: Pattern, t: string, feature: Feature) returns (facets: seq<Facet>)
    ensures facets == MarkupFacets(p, t, 0, feature)
  {
    facets := [];
    var lastIndex := 0;
    while true
      invariant lastIndex <= |t|
      invariant MarkupFacets(p, t, 0, feature) == facets + MarkupFacets(p, t, lastIndex, feature)
      decreases |t| - lastIndex
    {
      var found := NextMatch(p, t, lastIndex);
      if found.None? {
        break;
      }
      var m := found.value;
      var start := ByteLen(Substring(t, 0, m.start));
      var end := start + ByteLen(Group1(t, m));
      MarkupFacetsStep(p, t, lastIndex, feature, facets);
      assert Facet(start, end, [feature]) == MarkupFacet(t, m, feature);
      facets := facets + [Facet(start, end, [feature])];
      lastIndex := m.end;
    }
  }

  lemma MarkupFacetsStep(p: Pattern, t: string, from: nat, feature: Feature, done: seq<Facet>)
    requires from <= |t| && NextMatch(p, t, from).Some?
    requires MarkupFacets(p, t, 0, feature) == done + MarkupFacets(p, t, from, feature)
    ensures var m := NextMatch(p, t, from).value;
            MarkupFacets(p, t, 0, feature)
            == (done + [MarkupFacet(t, m, feature)]) + MarkupFacets(p, t, m.end, feature)
  {
    var m := NextMatch(p, t, from).value;
    MarkupFacetsUnfold(p, t, from, feature);
    AppendAssoc(done, [MarkupFacet(t, m, feature)], MarkupFacets(p, t, m.end, feature));
  }

  lemma MarkupFacetsUnfold(p: Pattern, t: string, from: nat, feature: Feature)
    requires from <= |t| && NextMatch(p, t, from).Some?
    ensures var m := NextMatch(p, t, from).value;
            MarkupFacets(p, t, from, feature) == [MarkupFacet(t, m, feature)] + MarkupFacets(p, t, m.end, feature)
  {
  }

  lemma AppendAssoc<T>(a: seq<T>, b: seq<T>, c: seq<T>)
    ensures a + (b + c) == (a + b) + c
  {
  }

  /** The replacement the link loop records for match `m`. */
  function ReplacementOf(text: string, m: Match, authorDid: string,
                         decodeUriComponent: string -> string): LinkReplacement
    requires WellFormed(m, text)
  {
    LinkReplacement(m.start, m.end, Group1(text, m),
                    ConvertBlobUrlToAtUri(Group2(text, m), authorDid, decodeUriComponent))
  }

  lemma LinkReplacementsUnfold(text: string, from: nat, authorDid: string,
                               decodeUriComponent: string -> string)
    requires from <= |text| && NextMatch(LinkSyntax, text, from).Some?
    ensures var m := NextMatch(LinkSyntax, text, from).value;
            LinkReplacements(text, from, authorDid, decodeUriComponent)
            == [ReplacementOf(text, m, authorDid, decodeUriComponent)]
               + LinkReplacements(text, m.end, authorDid, decodeUriComponent)
  {
  }

  lemma LinkReplacementsStep(text: string, from: nat, authorDid: string,
                             decodeUriComponent: string -> string, done: seq<LinkReplacement>)
    requires from <= |text| && NextMatch(LinkSyntax, text, from).Some?
    requires LinkReplacements(text, 0, authorDid, decodeUriComponent)
             == done + LinkReplacements(text, from, authorDid, decodeUriComponent)
    ensures var m := NextMatch(LinkSyntax, text, from).value;
            LinkReplacements(text, 0, authorDid, decodeUriComponent)
            == (done + [ReplacementOf(text, m, authorDid, decodeUriComponent)])
               + LinkReplacements(text, m.end, authorDid, decodeUriComponent)
  {
    var m := NextMatch(LinkSyntax, text, from).value;
    LinkReplacementsUnfold(text, from, authorDid, decodeUriComponent);
    AppendAssoc(done, [ReplacementOf(text, m, authorDid, decodeUriComponent)],
                LinkReplacements(text, m.end, authorDid, decodeUriComponent));
  }

  lemma RewriteLinksUnfold(plaintext: string, reps: seq<LinkReplacement>, i: nat)
    requires i < |reps|
    ensures var next := ApplyReplacement(plaintext, reps[i]);
            RewriteLinks(plaintext, reps[..i + 1])
            == Rewrite(RewriteLinks(next, reps[..i]).plaintext,
                       [LinkFacet(plaintext, reps[i])] + RewriteLinks(next, reps[..i]).facets)
  {
    assert reps[..i + 1][..i] == reps[..i];
  }

  lemma RewriteLinksStep(text: string, reps: seq<LinkReplacement>, i: nat,
                         plaintext: string, facets: seq<Facet>)
    requires i < |reps|
    requires RewriteLinks(text, reps)
             == Rewrite(RewriteLinks(plaintext, reps[..i + 1]).plaintext,
                        facets + RewriteLinks(plaintext, reps[..i + 1]).facets)
    ensures var next := ApplyReplacement(plaintext, reps[i]);
            RewriteLinks(text, reps)
            == Rewrite(RewriteLinks(next, reps[..i]).plaintext,
                       (facets + [LinkFacet(plaintext, reps[i])]) + RewriteLinks(next, reps[..i]).facets)
  {
    var next := ApplyReplacement(plaintext, reps[i]);
    RewriteLinksUnfold(plaintext, reps, i);
    AppendAssoc(facets, [LinkFacet(plaintext, reps[i])], RewriteLinks(next, reps[..i]).facets);
  }

  /** The link `exec` loop: every `[text](url)` match, its link text and converted target. */
  method CollectLinkReplacements(text: string, authorDid: string, decodeUriComponent: string -> string)
    returns (linkReplacements: seq<LinkReplacement>)
    ensures linkReplacements == LinkReplacements(text, 0, authorDid, decodeUriComponent)
  {
    linkReplacements := [];
    var lastIndex := 0;
    while true
      invariant lastIndex <= |text|
      invariant LinkReplacements(text, 0, authorDid, decodeUriComponent)
                == linkReplacements + LinkReplacements(text, lastIndex, authorDid, decodeUriComponent)
      decreases |text| - lastIndex
    {
      var found := NextMatch(LinkSyntax, text, lastIndex);
      if found.None? {
        break;
      }
      var m := found.value;
      var linkText := Group1(text, m);
      var convertedUri := ConvertBlobUrlToAtUri(Group2(text, m), authorDid, decodeUriComponent);
      LinkReplacementsStep(text, lastIndex, authorDid, decodeUriComponent, linkReplacements);
      assert LinkReplacement(m.start, m.end, linkText, convertedUri)
             == ReplacementOf(text, m, authorDid, decodeUriComponent);
      linkReplacements := linkReplacements + [LinkReplacement(m.start, m.end, linkText, convertedUri)];
      lastIndex := m.end;
    }
  }

  /** The reverse loop: each replacement, last first, records its link facet and splices
      the link text into the plaintext. */
  method ApplyLinkReplacements(text: string, linkReplacements: seq<LinkReplacement>)
    returns (plaintext: string, facets: seq<Facet>)
    ensures Rewrite(plaintext, facets) == RewriteLinks(text, linkReplacements)
  {
    plaintext := text;
    facets := [];
    var i: int := |linkReplacements| - 1;
    assert linkReplacements[..i + 1] == linkReplacements;
    while i >= 0
      invariant -1 <= i < |linkReplacements|
      invariant RewriteLinks(text, linkReplacements)
                == Rewrite(RewriteLinks(plaintext, linkReplacements[..i + 1]).plaintext,
                           facets + RewriteLinks(plaintext, linkReplacements[..i + 1]).facets)
    {
      var rep := linkReplacements[i];
      var byteStart := ByteLen(Substring(plaintext, 0, rep.start));
      var byteEnd := byteStart + ByteLen(rep.text);
      RewriteLinksStep(text, linkReplacements, i, plaintext, facets);
      assert Facet(byteStart, byteEnd, [Link(rep.uri)]) == LinkFacet(plaintext, rep);
      facets := facets + [Facet(byteStart, byteEnd, [Link(rep.uri)])];
      plaintext := Substring(plaintext, 0, rep.start) + rep.text + SubstringFrom(plaintext, rep.end);
      i := i - 1;
    }
    assert linkReplacements[..i + 1] == [];
  }

  /** `parseRichText(text, authorDid)`. */
  method ParseRichText(text: string, authorDid: string, decodeUriComponent: string -> string)
    returns (r: RichText)
    ensures r == RichTextOf(text, authorDid, decodeUriComponent)
  {
    var linkReplacements := CollectLinkReplacements(text, authorDid, decodeUriComponent);
    var plaintext, facets := ApplyLinkReplacements(text, linkReplacements);
    var boldFacets := CollectMarkupFacets(BoldSyntax, plaintext, Bold);
    var italicFacets := CollectMarkupFacets(ItalicSyntax, plaintext, Italic);
    var codeFacets := CollectMarkupFacets(CodeSyntax, plaintext, Code);
    var allFacets := SortByStart(facets + boldFacets + italicFacets + codeFacets);
    plaintext := ReplaceWithGroup1(BoldSyntax, plaintext, 0);
    plaintext := ReplaceWithGroup1(ItalicSyntax, plaintext, 0);
    plaintext := ReplaceWithGroup1(CodeSyntax, plaintext, 0);
    r := RichText(plaintext, NonEmpty(allFacets));
  }
}
