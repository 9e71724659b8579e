/** What `parseRichText` computes, stated without its loops: the plaintext is the text
    with every link, bold, italic and code span replaced by its group, and the facets are
    the link facets measured on the ORIGINAL text plus one facet per markup match,
    sorted by start. */
module RichTextProperties {
  import opened Wrappers
  import opened JsString
  import opened Utf8
  import opened Patterns
  import opened BlobUri
  import opened Leaflet
  import opened RichText

  /** The replacements lie in order, without overlap, between `from` and `bound`. */
  predicate InOrder(reps: seq<LinkReplacement>, from: nat, bound: nat)
    decreases |reps|
  {
    if reps == [] then from <= bound
    else from <= reps[0].start <= reps[0].end <= bound && InOrder(reps[1..], reps[0].end, bound)
  }

  /** `s` from `from` with each replacement's span swapped for its link text, left to right. */
  function Splice(s: string, reps: seq<LinkReplacement>, from: nat): string
    requires InOrder(reps, from, |s|)
    decreases |reps|
  {
    if reps == [] then s[from..]
    else s[from..reps[0].start] + reps[0].text + Splice(s, reps[1..], reps[0].end)
  }

  lemma {:induction false} InOrderWithin(reps: seq<LinkReplacement>, from: nat, bound: nat)
    requires InOrder(reps, from, bound)
    ensures from <= bound
    ensures forall k :: 0 <= k < |reps| ==> from <= reps[k].start <= reps[k].end <= bound
    decreases |reps|
  {
    if reps != [] {
      InOrderWithin(reps[1..], reps[0].end, bound);
      forall k | 0 < k < |reps| ensures from <= reps[k].start <= reps[k].end <= bound {
        assert reps[k] == reps[1..][k - 1];
      }
    }
  }

  lemma {:induction false} InOrderWeaken(reps: seq<LinkReplacement>, from: nat, bound: nat, bound': nat)
    requires InOrder(reps, from, bound) && bound <= bound'
    ensures InOrder(reps, from, bound')
    decreases |reps|
  {
    if reps != [] {
      InOrderWeaken(reps[1..], reps[0].end, bound, bound');
    }
  }

  /** The last replacement splits off: the others end before it starts. */
  lemma {:induction false} InOrderLast(reps: seq<LinkReplacement>, from: nat, bound: nat)
    requires reps != [] && InOrder(reps, from, bound)
    ensures var last := reps[|reps| - 1];
            InOrder(reps[..|reps| - 1], from, last.start) && last.start <= last.end <= bound
    decreases |reps|
  {
    if |reps| > 1 {
      InOrderLast(reps[1..], reps[0].end, bound);
      assert reps[1..][..|reps| - 2] == reps[..|reps| - 1][1..];
    }
  }

  /** Appending a replacement after the others keeps the order. */
  lemma {:induction false} InOrderAppend(init: seq<LinkReplacement>, last: LinkReplacement, from: nat, bound: nat)
    requires InOrder(init, from, last.start) && last.start <= last.end <= bound
    ensures InOrder(init + [last], from, bound)
    decreases |init|
  {
    if init == [] {
      assert init + [last] == [last];
      assert [last][1..] == [];
    } else {
      InOrderAppend(init[1..], last, init[0].end, bound);
      assert (init + [last])[1..] == init[1..] + [last];
    }
  }

  /** Splicing a text is splicing its prefix up to `b` and keeping the rest. */
  lemma {:induction false} SplicePrefix(s: string, reps: seq<LinkReplacement>, from: nat, b: nat)
    requires InOrder(reps, from, b) && b <= |s|
    ensures InOrder(reps, from, |s|)
    ensures Splice(s, reps, from) == Splice(s[..b], reps, from) + s[b..]
    decreases |reps|
  {
    InOrderWeaken(reps, from, b, |s|);
    InOrderWithin(reps, from, b);
    if reps == [] {
      assert s[from..] == s[..b][from..] + s[b..];
    } else {
      SplicePrefix(s, reps[1..], reps[0].end, b);
      assert s[from..reps[0].start] == s[..b][from..reps[0].start];
    }
  }

  /** Splicing with a last replacement: everything before it, its text, the rest after it. */
  lemma {:induction false} SpliceLast(s: string, init: seq<LinkReplacement>, last: LinkReplacement, from: nat)
    requires InOrder(init, from, last.start) && last.start <= last.end <= |s|
    ensures InOrder(init + [last], from, |s|)
    ensures Splice(s, init + [last], from) == Splice(s[..last.start], init, from) + last.text + s[last.end..]
    decreases |init|
  {
    InOrderAppend(init, last, from, |s|);
    InOrderWithin(init, from, last.start);
    if init == [] {
      assert init + [last] == [last];
      assert [last][1..] == [];
      assert s[..last.start][from..] == s[from..last.start];
    } else {
      var head, tail, p := init[0], init[1..], s[..last.start];
      SpliceLast(s, tail, last, head.end);
      var all := init + [last];
      assert all[0] == head && all[1..] == tail + [last];
      assert Splice(s, all, from) == s[from..head.start] + head.text + Splice(s, tail + [last], head.end);
      assert Splice(p, init, from) == p[from..head.start] + head.text + Splice(p, tail, head.end);
      assert from <= head.start <= last.start;
      SliceOfPrefix(s, from, head.start, last.start);
      AppendAssoc(p[from..head.start] + head.text, Splice(p, tail, head.end) + last.text, s[last.end..]);
      AppendAssoc(p[from..head.start] + head.text, Splice(p, tail, head.end), last.text);
    }
  }

  lemma SliceOfPrefix(s: string, a: nat, b: nat, n: nat)
    requires a <= b <= n <= |s|
    ensures s[..n][a..b] == s[a..b]
  {
  }

  /** One step of the reverse loop on in-range positions. */
  lemma ApplyInRange(s: string, rep: LinkReplacement)
    requires rep.start <= rep.end <= |s|
    ensures ApplyReplacement(s, rep) == s[..rep.start] + rep.text + s[rep.end..]
    ensures ApplyReplacement(s, rep)[..rep.start] == s[..rep.start]
  {
  }

  /** Splicing from the last replacement backwards, as the reverse loop does, gives the
      same text as splicing left to right. */
  lemma {:induction false} RewriteIsSplice(s: string, reps: seq<LinkReplacement>)
    requires InOrder(reps, 0, |s|)
    ensures RewriteLinks(s, reps).plaintext == Splice(s, reps, 0)
    decreases |reps|
  {
    if reps == [] {
    } else {
      var init, last := reps[..|reps| - 1], reps[|reps| - 1];
      assert reps == init + [last];
      InOrderLast(reps, 0, |s|);
      ApplyInRange(s, last);
      var s' := ApplyReplacement(s, last);
      SplicePrefix(s', init, 0, last.start);
      RewriteIsSplice(s', init);
      SpliceLast(s, init, last, 0);
      assert s'[last.start..] == last.text + s[last.end..];
    }
  }

  /** Every facet the reverse loop records is measured on the original text: an earlier
      link's span is never touched before the facet of that link is computed. */
  lemma {:induction false} RewriteFacetsOnOriginal(s: string, reps: seq<LinkReplacement>)
    requires InOrder(reps, 0, |s|)
    ensures forall j :: 0 <= j < |reps| ==>
              RewriteLinks(s, reps).facets[j] == LinkFacet(s, reps[|reps| - 1 - j])
    decreases |reps|
  {
    if reps != [] {
      var init, last := reps[..|reps| - 1], reps[|reps| - 1];
      InOrderLast(reps, 0, |s|);
      ApplyInRange(s, last);
      var s' := ApplyReplacement(s, last);
      SplicePrefix(s', init, 0, last.start);
      RewriteFacetsOnOriginal(s', init);
      InOrderWithin(init, 0, last.start);
      RewriteLinksUnfold(s, reps, |reps| - 1);
      assert reps[..|reps|] == reps;
      assert reps == init + [last];
      LinkFacetsShift(s, s', init, last, RewriteLinks(s', init).facets, RewriteLinks(s, reps).facets);
    }
  }

  /** The facets of the earlier links, measured on the text after the last link was
      replaced, are their facets on the original text. */
  lemma LinkFacetsShift(s: string, s': string, init: seq<LinkReplacement>, last: LinkReplacement,
                        rest: seq<Facet>, facets: seq<Facet>)
    requires last.start <= |s| && last.start <= |s'| && s'[..last.start] == s[..last.start]
    requires forall k :: 0 <= k < |init| ==> init[k].start <= last.start
    requires |rest| == |init|
    requires forall j :: 0 <= j < |init| ==> rest[j] == LinkFacet(s', init[|init| - 1 - j])
    requires facets == [LinkFacet(s, last)] + rest
    ensures forall j :: 0 <= j < |init| + 1 ==> facets[j] == LinkFacet(s, (init + [last])[|init| - j])
  {
    forall j | 0 <= j < |init| + 1
      ensures facets[j] == LinkFacet(s, (init + [last])[|init| - j])
    {
      if j > 0 {
        var idx := |init| - j;
        assert (init + [last])[idx] == init[idx];
        assert facets[j] == rest[j - 1] == LinkFacet(s', init[idx]);
        LinkFacetOnPrefix(s, s', init[idx], last.start);
      }
    }
  }

  /** A link facet depends only on the text before the link. */
  lemma LinkFacetOnPrefix(s: string, s': string, rep: LinkReplacement, bound: nat)
    requires rep.start <= bound <= |s| && bound <= |s'| && s'[..bound] == s[..bound]
    ensures LinkFacet(s', rep) == LinkFacet(s, rep)
  {
    assert s'[..rep.start] == s'[..bound][..rep.start];
    assert s[..rep.start] == s[..bound][..rep.start];
  }

  /** The link loop records its matches in order, and splicing them is the global replace. */
  lemma {:induction false} LinkReplacementsSplice(text: string, from: nat, authorDid: string,
                                                  decodeUriComponent: string -> string)
    requires from <= |text|
    ensures InOrder(LinkReplacements(text, from, authorDid, decodeUriComponent), from, |text|)
    ensures Splice(text, LinkReplacements(text, from, authorDid, decodeUriComponent), from)
            == ReplaceWithGroup1(LinkSyntax, text, from)
    decreases |text| - from
  {
    match NextMatch(LinkSyntax, text, from)
    case None =>
    case Some(m) =>
      LinkReplacementsUnfold(text, from, authorDid, decodeUriComponent);
      LinkReplacementsSplice(text, m.end, authorDid, decodeUriComponent);
      var reps := LinkReplacements(text, from, authorDid, decodeUriComponent);
      assert reps[1..] == LinkReplacements(text, m.end, authorDid, decodeUriComponent);
  }

  /** The markup loop yields one facet per match of the global search, in order. */
  /** `fs` holds the facet of each match of `ms`, in order. */
  predicate FacetPerMatch(t: string, ms: seq<Match>, fs: seq<Facet>, feature: Feature) {
    |fs| == |ms| && forall k :: 0 <= k < |ms| ==> WellFormed(ms[k], t) && fs[k] == MarkupFacet(t, ms[k], feature)
  }

  lemma FacetPerMatchCons(t: string, m: Match, ms: seq<Match>, fs: seq<Facet>, feature: Feature)
    requires WellFormed(m, t) && FacetPerMatch(t, ms, fs, feature)
    ensures FacetPerMatch(t, [m] + ms, [MarkupFacet(t, m, feature)] + fs, feature)
  {
    var ms', fs' := [m] + ms, [MarkupFacet(t, m, feature)] + fs;
    forall k | 0 <= k < |ms'| ensures WellFormed(ms'[k], t) && fs'[k] == MarkupFacet(t, ms'[k], feature) {
      if k > 0 {
        assert ms'[k] == ms[k - 1] && fs'[k] == fs[k - 1];
      }
    }
  }

  lemma {:induction false} MarkupFacetsPerMatch(p: Pattern, t: string, from: nat, feature: Feature)
    requires from <= |t|
    ensures FacetPerMatch(t, AllMatches(p, t, from), MarkupFacets(p, t, from, feature), feature)
    decreases |t| - from
  {
    match NextMatch(p, t, from)
    case None =>
    case Some(m) =>
      MarkupFacetsUnfold(p, t, from, feature);
      MarkupFacetsPerMatch(p, t, m.end, feature);
      AllMatchesUnfold(p, t, from);
      FacetPerMatchCons(t, m, AllMatches(p, t, m.end), MarkupFacets(p, t, m.end, feature), feature);
  }

  lemma SubstringPrefix(t: string, k: nat)
    ensures ByteLen(Substring(t, 0, k)) == BytePosition(t, k)
  {
  }

  /** A link facet measured on the original text: from the link's byte position, as wide
      as the link text in UTF-8. */
  function OriginalLinkFacet(text: string, rep: LinkReplacement): Facet
  {
    Facet(BytePosition(text, rep.start), BytePosition(text, rep.start) + ByteLen(rep.text), [Link(rep.uri)])
  }

  /** A markup facet measured on the text it was found in: from the match's byte position,
      as wide as its content in UTF-8. */
  function MatchFacet(t: string, m: Match, feature: Feature): Facet
    requires WellFormed(m, t)
  {
    Facet(BytePosition(t, m.start), BytePosition(t, m.start) + ByteLen(Group1(t, m)), [feature])
  }

  /** `f` is the facet of some match of `p` in `t`. */
  predicate IsMarkupFacetOf(p: Pattern, t: string, feature: Feature, f: Facet)
  {
    var ms := AllMatches(p, t, 0);
    exists k :: 0 <= k < |ms| && f == MatchFacet(t, ms[k], feature)
  }

  /** The facet list as a sequence, empty when absent. */
  function FacetList(facets: Option<seq<Facet>>): seq<Facet>
  {
    if facets.Some? then facets.value else []
  }

  /** The plaintext is the text with every link replaced by its text, then every bold,
      italic and code span by its content. */
  lemma RichTextPlaintext(text: string, authorDid: string, decodeUriComponent: string -> string)
    ensures RichTextOf(text, authorDid, decodeUriComponent).plaintext
            == ReplaceWithGroup1(CodeSyntax,
                 ReplaceWithGroup1(ItalicSyntax,
                   ReplaceWithGroup1(BoldSyntax,
                     ReplaceWithGroup1(LinkSyntax, text, 0), 0), 0), 0)
  {
    LinkReplacementsSplice(text, 0, authorDid, decodeUriComponent);
    RewriteIsSplice(text, LinkReplacements(text, 0, authorDid, decodeUriComponent));
  }

  /** The link facets the reverse loop records are the original-text link facets. */
  lemma LinkFacetMembers(text: string, reps: seq<LinkReplacement>, f: Facet)
    requires InOrder(reps, 0, |text|)
    ensures f in RewriteLinks(text, reps).facets
            <==> exists k :: 0 <= k < |reps| && f == OriginalLinkFacet(text, reps[k])
  {
    RewriteFacetsOnOriginal(text, reps);
    var fs := RewriteLinks(text, reps).facets;
    forall j | 0 <= j < |fs| ensures fs[j] == OriginalLinkFacet(text, reps[|reps| - 1 - j]) {
      SubstringPrefix(text, reps[|reps| - 1 - j].start);
    }
    if f in fs {
      var j :| 0 <= j < |fs| && fs[j] == f;
      assert f == OriginalLinkFacet(text, reps[|reps| - 1 - j]);
    }
    if exists k :: 0 <= k < |reps| && f == OriginalLinkFacet(text, reps[k]) {
      var k :| 0 <= k < |reps| && f == OriginalLinkFacet(text, reps[k]);
      assert fs[|reps| - 1 - k] == f;
    }
  }

  /** The unsorted facets: link facets on the original text, then markup facets on the
      link-replaced text. */
  lemma UnsortedFacetsMembers(text: string, authorDid: string, decodeUriComponent: string -> string, f: Facet)
    ensures var reps := LinkReplacements(text, 0, authorDid, decodeUriComponent);
            var linked := ReplaceWithGroup1(LinkSyntax, text, 0);
            f in UnsortedFacets(RewriteLinks(text, reps))
            <==> (exists k :: 0 <= k < |reps| && f == OriginalLinkFacet(text, reps[k]))
                 || IsMarkupFacetOf(BoldSyntax, linked, Bold, f)
                 || IsMarkupFacetOf(ItalicSyntax, linked, Italic, f)
                 || IsMarkupFacetOf(CodeSyntax, linked, Code, f)
  {
    var reps := LinkReplacements(text, 0, authorDid, decodeUriComponent);
    var linked := ReplaceWithGroup1(LinkSyntax, text, 0);
    LinkReplacementsSplice(text, 0, authorDid, decodeUriComponent);
    RewriteIsSplice(text, reps);
    LinkFacetMembers(text, reps, f);
    MarkupMembers(BoldSyntax, linked, Bold, f);
    MarkupMembers(ItalicSyntax, linked, Italic, f);
    MarkupMembers(CodeSyntax, linked, Code, f);
  }

  lemma MarkupFacetsAreMatchFacets(p: Pattern, t: string, feature: Feature)
    ensures |MarkupFacets(p, t, 0, feature)| == |AllMatches(p, t, 0)|
    ensures forall k :: 0 <= k < |AllMatches(p, t, 0)| ==>
              MarkupFacets(p, t, 0, feature)[k] == MatchFacet(t, AllMatches(p, t, 0)[k], feature)
  {
    MarkupFacetsPerMatch(p, t, 0, feature);
    var ms, fs := AllMatches(p, t, 0), MarkupFacets(p, t, 0, feature);
    forall k | 0 <= k < |ms| ensures fs[k] == MatchFacet(t, ms[k], feature) {
      SubstringPrefix(t, ms[k].start);
    }
  }

  lemma MarkupMembers(p: Pattern, t: string, feature: Feature, f: Facet)
    ensures f in MarkupFacets(p, t, 0, feature) <==> IsMarkupFacetOf(p, t, feature, f)
  {
    if f in MarkupFacets(p, t, 0, feature) {
      MarkupMemberIsMatchFacet(p, t, feature, f);
    }
    if IsMarkupFacetOf(p, t, feature, f) {
      MatchFacetIsMember(p, t, feature, f);
    }
  }

  lemma MarkupMemberIsMatchFacet(p: Pattern, t: string, feature: Feature, f: Facet)
    requires f in MarkupFacets(p, t, 0, feature)
    ensures IsMarkupFacetOf(p, t, feature, f)
  {
    MarkupFacetsAreMatchFacets(p, t, feature);
    var ms, fs := AllMatches(p, t, 0), MarkupFacets(p, t, 0, feature);
    var k :| 0 <= k < |fs| && fs[k] == f;
    assert f == MatchFacet(t, ms[k], feature);
  }

  lemma MatchFacetIsMember(p: Pattern, t: string, feature: Feature, f: Facet)
    requires IsMarkupFacetOf(p, t, feature, f)
    ensures f in MarkupFacets(p, t, 0, feature)
  {
    MarkupFacetsAreMatchFacets(p, t, feature);
    var ms, fs := AllMatches(p, t, 0), MarkupFacets(p, t, 0, feature);
    var k :| 0 <= k < |ms| && f == MatchFacet(t, ms[k], feature);
    assert fs[k] == f;
  }

  /** `parseRichText`'s facets: exactly the link facets, measured on the original text,
      and one facet per bold, italic and code match in the link-replaced text. */
  lemma RichTextFacets(text: string, authorDid: string, decodeUriComponent: string -> string, f: Facet)
    ensures var reps := LinkReplacements(text, 0, authorDid, decodeUriComponent);
            var linked := ReplaceWithGroup1(LinkSyntax, text, 0);
            f in FacetList(RichTextOf(text, authorDid, decodeUriComponent).facets)
            <==> (exists k :: 0 <= k < |reps| && f == OriginalLinkFacet(text, reps[k]))
                 || IsMarkupFacetOf(BoldSyntax, linked, Bold, f)
                 || IsMarkupFacetOf(ItalicSyntax, linked, Italic, f)
                 || IsMarkupFacetOf(CodeSyntax, linked, Code, f)
  {
    var reps := LinkReplacements(text, 0, authorDid, decodeUriComponent);
    var unsorted := UnsortedFacets(RewriteLinks(text, reps));
    UnsortedFacetsMembers(text, authorDid, decodeUriComponent, f);
    assert f in SortByStart(unsorted) <==> f in multiset(SortByStart(unsorted));
    assert f in unsorted <==> f in multiset(unsorted);
  }

  /** The facets are sorted by start, and present exactly when some link or markup matched. */
  lemma RichTextFacetsShape(text: string, authorDid: string, decodeUriComponent: string -> string)
    ensures var r := RichTextOf(text, authorDid, decodeUriComponent);
            r.facets.Some? ==> SortedByStart(r.facets.value)
    ensures var r := RichTextOf(text, authorDid, decodeUriComponent);
            var linked := ReplaceWithGroup1(LinkSyntax, text, 0);
            r.facets.None?
            <==> LinkReplacements(text, 0, authorDid, decodeUriComponent) == []
                 && AllMatches(BoldSyntax, linked, 0) == []
                 && AllMatches(ItalicSyntax, linked, 0) == []
                 && AllMatches(CodeSyntax, linked, 0) == []
  {
    var reps := LinkReplacements(text, 0, authorDid, decodeUriComponent);
    var linked := ReplaceWithGroup1(LinkSyntax, text, 0);
    LinkReplacementsSplice(text, 0, authorDid, decodeUriComponent);
    RewriteIsSplice(text, reps);
    MarkupFacetsPerMatch(BoldSyntax, linked, 0, Bold);
    MarkupFacetsPerMatch(ItalicSyntax, linked, 0, Italic);
    MarkupFacetsPerMatch(CodeSyntax, linked, 0, Code);
    var unsorted := UnsortedFacets(RewriteLinks(text, reps));
    assert |SortByStart(unsorted)| == |unsorted| by {
      assert |multiset(SortByStart(unsorted))| == |multiset(unsorted)|;
    }
  }

  /** A text with no `[`, `*` or backquote comes back unchanged and without facets. */
  lemma NoMarkupUnchanged(text: string, authorDid: string, decodeUriComponent: string -> string)
    requires '[' !in text && '*' !in text && '`' !in text
    ensures RichTextOf(text, authorDid, decodeUriComponent) == RichText(text, None)
  {
    NoMarkerNoMatch(LinkSyntax, text);
    NoMarkerNoMatch(BoldSyntax, text);
    NoMarkerNoMatch(ItalicSyntax, text);
    NoMarkerNoMatch(CodeSyntax, text);
    assert LinkReplacements(text, 0, authorDid, decodeUriComponent) == [];
  }
}
