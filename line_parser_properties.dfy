/** Properties of the line-by-line converter in both revisions. */
module LineParserProperties {
  import opened Wrappers
  import opened JsString
  import opened Patterns
  import opened Leaflet
  import opened RichText
  import opened LineParser

  /** `createBlock`'s defaults: header level 1, code language 'javascript', a horizontal
      rule without text, and a text block for any type it does not name. */
  lemma CreateBlockDefaults(content: string, options: Options)
    ensures options.level.None? ==> CreateBlock(HeaderType, content, options).level == 1
    ensures options.language.None? ==> CreateBlock(CodeType, content, options).language == Some("javascript")
    ensures CreateBlock(HorizontalRuleType, content, options) == HorizontalRuleBlock
    ensures forall blockType ::
              (blockType != HeaderType && blockType != BlockquoteType && blockType != CodeType
               && blockType != HorizontalRuleType)
              ==> CreateBlock(blockType, content, options) == TextBlock(content, options.facets)
  {
  }

  /** The types `blockType` can hold: the branch for any other type is never taken. */
  predicate InlineType(blockType: string) {
    blockType == TextType || blockType == BlockquoteType || blockType == CodeType
  }

  lemma StepKeepsInlineType(rev: Revision, s: State, line: string, authorDid: string,
                            decodeUriComponent: string -> string)
    requires InlineType(s.blockType)
    ensures InlineType(Step(rev, s, line, authorDid, decodeUriComponent).blockType)
  {
  }

  lemma {:induction false} RunKeepsInlineType(rev: Revision, s: State, lines: seq<string>, authorDid: string,
                                              decodeUriComponent: string -> string)
    requires InlineType(s.blockType)
    ensures InlineType(RunFrom(rev, s, lines, authorDid, decodeUriComponent).blockType)
    decreases |lines|
  {
    if lines != [] {
      StepKeepsInlineType(rev, s, lines[0], authorDid, decodeUriComponent);
      RunKeepsInlineType(rev, Step(rev, s, lines[0], authorDid, decodeUriComponent), lines[1..],
                         authorDid, decodeUriComponent);
    }
  }

  /** Empty content is one line that is blank: no block, so the fallback text block. */
  lemma EmptyContent(rev: Revision, authorDid: string, decodeUriComponent: string -> string)
    ensures MarkdownToBlocks(rev, "", authorDid, decodeUriComponent) == [TextBlock("", None)]
  {
    assert Split("", '\n') == [""];
    assert NextMatch(ImageSyntax, "", 0).None? by {
      assert MatchAt(ImageSyntax, "", 0).None?;
    }
  }

  /** `HashCount` is the length of the leading run of '#'. */
  lemma HashCountIsLeadingRun(line: string)
    ensures HashCount(line) <= |line|
    ensures forall k :: 0 <= k < HashCount(line) ==> line[k] == '#'
    ensures HashCount(line) < |line| ==> line[HashCount(line)] != '#'
    ensures StartsWith(line, "#") ==> HashCount(line) >= 1
  {
    if StartsWith(line, "#") {
      assert line[0] == "#"[0];
    }
  }

  /** A '#' line's header block has the number of leading '#' as its level. */
  lemma HeaderLevel(line: string, authorDid: string, decodeUriComponent: string -> string)
    requires StartsWith(line, "#")
    ensures HeaderOf(line, authorDid, decodeUriComponent).HeaderBlock?
    ensures HeaderOf(line, authorDid, decodeUriComponent).level == HashCount(line) >= 1
  {
    HashCountIsLeadingRun(line);
  }

  /** The header blocks of a list, in order. */
  function Headers(blocks: seq<Block>): seq<Block>
  {
    if blocks == [] then []
    else Headers(blocks[..|blocks| - 1])
         + (if blocks[|blocks| - 1].HeaderBlock? then [blocks[|blocks| - 1]] else [])
  }

  lemma {:induction false} HeadersAppend(a: seq<Block>, b: seq<Block>)
    ensures Headers(a + b) == Headers(a) + Headers(b)
    decreases |b|
  {
    if b == [] {
      assert a + b == a;
    } else {
      assert (a + b)[..|a + b| - 1] == a + b[..|b| - 1];
      HeadersAppend(a, b[..|b| - 1]);
    }
  }

  /** The header blocks the '#' lines of `lines` become, in order. */
  function HashLineHeaders(lines: seq<string>, authorDid: string, decodeUriComponent: string -> string): seq<Block>
  {
    if lines == [] then []
    else (if StartsWith(lines[0], "#") then [HeaderOf(lines[0], authorDid, decodeUriComponent)] else [])
         + HashLineHeaders(lines[1..], authorDid, decodeUriComponent)
  }

  lemma PendingIsNoHeader(s: State, authorDid: string, decodeUriComponent: string -> string)
    requires InlineType(s.blockType)
    ensures Headers(Flushed(s, authorDid, decodeUriComponent).blocks) == Headers(s.blocks)
    ensures Headers(Finished(s, authorDid, decodeUriComponent).blocks) == Headers(s.blocks)
  {
    if Trim(s.currentBlock) != "" {
      HeadersAppend(s.blocks, [PendingBlock(s, authorDid, decodeUriComponent)]);
      assert Headers([PendingBlock(s, authorDid, decodeUriComponent)]) == [];
    }
  }

  /** One line adds a header block exactly when it starts with '#'. */
  lemma StepHeaders(rev: Revision, s: State, line: string, authorDid: string,
                    decodeUriComponent: string -> string)
    requires InlineType(s.blockType)
    ensures Headers(Step(rev, s, line, authorDid, decodeUriComponent).blocks)
            == Headers(s.blocks)
               + (if StartsWith(line, "#") then [HeaderOf(line, authorDid, decodeUriComponent)] else [])
  {
    PendingIsNoHeader(s, authorDid, decodeUriComponent);
    if StartsWith(line, "#") {
      HashLineHeader(rev, s, line, authorDid, decodeUriComponent);
    } else if IsRuleLine(line) {
      RuleLineNoHeader(rev, s, line, authorDid, decodeUriComponent);
    } else if StartsWith(line, "```") {
      FenceLineNoHeader(rev, s, line, authorDid, decodeUriComponent);
    } else if StartsWith(line, ">") {
      QuoteLineNoHeader(rev, s, line, authorDid, decodeUriComponent);
    } else if NextMatch(ImageSyntax, line, 0).Some? {
      ImageLineNoHeader(rev, s, line, authorDid, decodeUriComponent);
    } else {
      TextLineNoHeader(rev, s, line, authorDid, decodeUriComponent);
    }
  }

  lemma HashLineHeader(rev: Revision, s: State, line: string, authorDid: string,
                       decodeUriComponent: string -> string)
    requires InlineType(s.blockType) && StartsWith(line, "#")
    ensures Headers(Step(rev, s, line, authorDid, decodeUriComponent).blocks)
            == Headers(s.blocks) + [HeaderOf(line, authorDid, decodeUriComponent)]
  {
    var f := Flushed(s, authorDid, decodeUriComponent);
    PendingIsNoHeader(s, authorDid, decodeUriComponent);
    HeaderLevel(line, authorDid, decodeUriComponent);
    HeadersAppend(f.blocks, [HeaderOf(line, authorDid, decodeUriComponent)]);
  }

  lemma RuleLineNoHeader(rev: Revision, s: State, line: string, authorDid: string,
                         decodeUriComponent: string -> string)
    requires InlineType(s.blockType) && !StartsWith(line, "#") && IsRuleLine(line)
    ensures Headers(Step(rev, s, line, authorDid, decodeUriComponent).blocks) == Headers(s.blocks)
  {
    var base := if rev == Library then Finished(s, authorDid, decodeUriComponent)
                else Flushed(s, authorDid, decodeUriComponent);
    assert Step(rev, s, line, authorDid, decodeUriComponent).blocks == base.blocks + [HorizontalRuleBlock];
    PendingIsNoHeader(s, authorDid, decodeUriComponent);
    HeadersAppend(base.blocks, [HorizontalRuleBlock]);
  }

  lemma FenceLineNoHeader(rev: Revision, s: State, line: string, authorDid: string,
                          decodeUriComponent: string -> string)
    requires InlineType(s.blockType) && !StartsWith(line, "#") && !IsRuleLine(line) && StartsWith(line, "```")
    ensures Headers(Step(rev, s, line, authorDid, decodeUriComponent).blocks) == Headers(s.blocks)
  {
    PendingIsNoHeader(s, authorDid, decodeUriComponent);
    HeadersAppend(s.blocks, [CreateBlock(CodeType, s.currentBlock, Options(None, None, Some("javascript")))]);
  }

  lemma QuoteLineNoHeader(rev: Revision, s: State, line: string, authorDid: string,
                          decodeUriComponent: string -> string)
    requires InlineType(s.blockType) && !StartsWith(line, "#") && !IsRuleLine(line)
             && !StartsWith(line, "```") && StartsWith(line, ">")
    ensures Headers(Step(rev, s, line, authorDid, decodeUriComponent).blocks) == Headers(s.blocks)
  {
    var g := Finished(s, authorDid, decodeUriComponent);
    PendingIsNoHeader(s, authorDid, decodeUriComponent);
    PendingIsNoHeader(State(g.blocks, QuoteText(line) + "\n", BlockquoteType), authorDid, decodeUriComponent);
  }

  lemma ImageLineNoHeader(rev: Revision, s: State, line: string, authorDid: string,
                          decodeUriComponent: string -> string)
    requires InlineType(s.blockType) && !StartsWith(line, "#") && !IsRuleLine(line)
             && !StartsWith(line, "```") && !StartsWith(line, ">") && NextMatch(ImageSyntax, line, 0).Some?
    ensures Headers(Step(rev, s, line, authorDid, decodeUriComponent).blocks) == Headers(s.blocks)
  {
    var f := Flushed(s, authorDid, decodeUriComponent);
    var m := NextMatch(ImageSyntax, line, 0).value;
    var rt := RichTextOf(ImageLabel(line, m, authorDid, decodeUriComponent), authorDid, decodeUriComponent);
    var b := CreateBlock(TextType, rt.plaintext, Options(None, rt.facets, None));
    assert Step(rev, s, line, authorDid, decodeUriComponent).blocks == f.blocks + [b];
    PendingIsNoHeader(s, authorDid, decodeUriComponent);
    NoHeaderAppended(f.blocks, b);
  }

  /** Appending a block that is not a header adds no header. */
  lemma NoHeaderAppended(blocks: seq<Block>, b: Block)
    requires !b.HeaderBlock?
    ensures Headers(blocks + [b]) == Headers(blocks)
  {
    assert (blocks + [b])[..|blocks + [b]| - 1] == blocks;
  }

  lemma TextLineNoHeader(rev: Revision, s: State, line: string, authorDid: string,
                         decodeUriComponent: string -> string)
    requires InlineType(s.blockType) && !StartsWith(line, "#") && !IsRuleLine(line)
             && !StartsWith(line, "```") && !StartsWith(line, ">") && NextMatch(ImageSyntax, line, 0).None?
    ensures Headers(Step(rev, s, line, authorDid, decodeUriComponent).blocks) == Headers(s.blocks)
  {
    if Trim(line) == "" {
      assert Step(rev, s, line, authorDid, decodeUriComponent) == Finished(s, authorDid, decodeUriComponent);
      PendingIsNoHeader(s, authorDid, decodeUriComponent);
    } else {
      assert Step(rev, s, line, authorDid, decodeUriComponent).blocks == s.blocks;
    }
  }

  lemma {:induction false} RunHeaders(rev: Revision, s: State, lines: seq<string>, authorDid: string,
                                      decodeUriComponent: string -> string)
    requires InlineType(s.blockType)
    ensures Headers(RunFrom(rev, s, lines, authorDid, decodeUriComponent).blocks)
            == Headers(s.blocks) + HashLineHeaders(lines, authorDid, decodeUriComponent)
    decreases |lines|
  {
    if lines != [] {
      var s' := Step(rev, s, lines[0], authorDid, decodeUriComponent);
      var head := if StartsWith(lines[0], "#") then [HeaderOf(lines[0], authorDid, decodeUriComponent)] else [];
      var rest := HashLineHeaders(lines[1..], authorDid, decodeUriComponent);
      StepHeaders(rev, s, lines[0], authorDid, decodeUriComponent);
      StepKeepsInlineType(rev, s, lines[0], authorDid, decodeUriComponent);
      RunHeaders(rev, s', lines[1..], authorDid, decodeUriComponent);
      assert RunFrom(rev, s, lines, authorDid, decodeUriComponent)
             == RunFrom(rev, s', lines[1..], authorDid, decodeUriComponent);
      assert HashLineHeaders(lines, authorDid, decodeUriComponent) == head + rest;
      AppendAssoc(Headers(s.blocks), head, rest);
    }
  }

  /** Every line that starts with '#' yields exactly one header block, in order, and no
      other line yields one. */
  lemma HeadersFromHashLines(rev: Revision, content: string, authorDid: string,
                             decodeUriComponent: string -> string)
    ensures Headers(MarkdownToBlocks(rev, content, authorDid, decodeUriComponent))
            == HashLineHeaders(Split(content, '\n'), authorDid, decodeUriComponent)
  {
    var lines := Split(content, '\n');
    var s := RunFrom(rev, Start, lines, authorDid, decodeUriComponent);
    RunHeaders(rev, Start, lines, authorDid, decodeUriComponent);
    RunKeepsInlineType(rev, Start, lines, authorDid, decodeUriComponent);
    PendingIsNoHeader(s, authorDid, decodeUriComponent);
    var done := if rev == Library then Finished(s, authorDid, decodeUriComponent)
                else Flushed(s, authorDid, decodeUriComponent);
    if done.blocks == [] {
      assert Headers([CreateBlock(TextType, content, NoOptions)]) == [];
    }
  }

  lemma {:induction false} RunFromAppend(rev: Revision, s: State, a: seq<string>, b: seq<string>,
                                         authorDid: string, decodeUriComponent: string -> string)
    ensures RunFrom(rev, s, a + b, authorDid, decodeUriComponent)
            == RunFrom(rev, RunFrom(rev, s, a, authorDid, decodeUriComponent), b, authorDid, decodeUriComponent)
    decreases |a|
  {
    if a == [] {
      assert a + b == b;
    } else {
      assert (a + b)[1..] == a[1..] + b;
      RunFromAppend(rev, Step(rev, s, a[0], authorDid, decodeUriComponent), a[1..], b,
                    authorDid, decodeUriComponent);
    }
  }

  lemma BlankWithNewline(x: string)
    ensures IsBlank(x + "\n") <==> IsBlank(x)
    ensures Trim(x + "\n") == "" <==> IsBlank(x)
  {
    TrimEmptyIffBlank(x + "\n");
    if IsBlank(x) {
      assert forall k :: 0 <= k < |x + "\n"| ==> IsSpace((x + "\n")[k]) by {
        forall k | 0 <= k < |x + "\n"| ensures IsSpace((x + "\n")[k]) {
          if k < |x| {
            assert (x + "\n")[k] == x[k];
          }
        }
      }
    } else {
      var k :| 0 <= k < |x| && !IsSpace(x[k]);
      assert (x + "\n")[k] == x[k];
    }
  }

  /** The first character a line rule looks at. */
  lemma LeadingChar(line: string)
    ensures StartsWith(line, "#") ==> line[0] == '#'
    ensures StartsWith(line, ">") ==> line[0] == '>'
    ensures StartsWith(line, "```") ==> line[0] == '`'
    ensures IsRuleLine(line) ==> IsRuleChar(line[0])
  {
    if StartsWith(line, "#") {
      assert line[..1][0] == line[0];
    }
    if StartsWith(line, ">") {
      assert line[..1][0] == line[0];
    }
    if StartsWith(line, "```") {
      assert line[..3][0] == line[0];
    }
  }

  /** A line that starts with '>' is not a header, rule or fence line. */
  lemma QuoteLineIsNoOtherRule(line: string)
    requires StartsWith(line, ">")
    ensures !StartsWith(line, "#") && !IsRuleLine(line) && !StartsWith(line, "```")
  {
    LeadingChar(line);
  }

  /** src/lib/convert.ts: a '>' line with text after the marker becomes a blockquote block
      of its own, after the pending block, and the state returns to empty 'text'. */
  lemma LibraryQuoteLine(s: State, line: string, authorDid: string, decodeUriComponent: string -> string)
    requires StartsWith(line, ">") && !IsBlank(QuoteText(line))
    ensures var rt := RichTextOf(Trim(QuoteText(line) + "\n"), authorDid, decodeUriComponent);
            Step(Library, s, line, authorDid, decodeUriComponent)
            == State(Finished(s, authorDid, decodeUriComponent).blocks + [BlockquoteBlock(rt.plaintext, rt.facets)],
                     "", TextType)
  {
    QuoteLineIsNoOtherRule(line);
    BlankWithNewline(QuoteText(line));
  }

  /** src/lib/convert.ts: a '>' line with nothing after the marker leaves a pending
      blockquote holding that white space, which the following lines join. */
  lemma LibraryBlankQuoteLine(s: State, line: string, authorDid: string, decodeUriComponent: string -> string)
    requires StartsWith(line, ">") && IsBlank(QuoteText(line))
    ensures Step(Library, s, line, authorDid, decodeUriComponent)
            == State(Finished(s, authorDid, decodeUriComponent).blocks, QuoteText(line) + "\n", BlockquoteType)
  {
    QuoteLineIsNoOtherRule(line);
    BlankWithNewline(QuoteText(line));
  }

  /** The blockquote block src/lib/convert.ts makes of one non-blank '>' line. */
  function QuoteBlock(line: string, authorDid: string, decodeUriComponent: string -> string): Block
    requires StartsWith(line, ">")
  {
    var rt := RichTextOf(Trim(QuoteText(line) + "\n"), authorDid, decodeUriComponent);
    BlockquoteBlock(rt.plaintext, rt.facets)
  }

  /** The blockquote blocks a run of non-blank '>' lines becomes in src/lib/convert.ts. */
  function QuoteBlocks(quotes: seq<string>, authorDid: string, decodeUriComponent: string -> string): seq<Block>
    requires forall k :: 0 <= k < |quotes| ==> StartsWith(quotes[k], ">")
  {
    if quotes == [] then []
    else [QuoteBlock(quotes[0], authorDid, decodeUriComponent)] + QuoteBlocks(quotes[1..], authorDid, decodeUriComponent)
  }

  lemma LibraryQuoteRunHead(s: State, quotes: seq<string>, authorDid: string,
                             decodeUriComponent: string -> string)
    requires quotes != []
    requires StartsWith(quotes[0], ">") && !IsBlank(QuoteText(quotes[0]))
    ensures RunFrom(Library, s, quotes, authorDid, decodeUriComponent)
            == RunFrom(Library, State(Finished(s, authorDid, decodeUriComponent).blocks
                                      + [QuoteBlock(quotes[0], authorDid, decodeUriComponent)], "", TextType),
                       quotes[1..], authorDid, decodeUriComponent)
  {
    LibraryQuoteLine(s, quotes[0], authorDid, decodeUriComponent);
    RunFromUnfold(Library, s, quotes, 0, authorDid, decodeUriComponent);
    assert quotes[0..] == quotes;
  }

  /** Every line starts with '>' and has text after it. */
  predicate NonBlankQuotes(quotes: seq<string>) {
    forall k :: 0 <= k < |quotes| ==> StartsWith(quotes[k], ">") && !IsBlank(QuoteText(quotes[k]))
  }

  lemma {:induction false} QuoteRunFromEmpty(blocks: seq<Block>, quotes: seq<string>, authorDid: string,
                                             decodeUriComponent: string -> string)
    requires NonBlankQuotes(quotes)
    ensures RunFrom(Library, State(blocks, "", TextType), quotes, authorDid, decodeUriComponent)
            == State(blocks + QuoteBlocks(quotes, authorDid, decodeUriComponent), "", TextType)
    decreases |quotes|
  {
    if quotes != [] {
      var s := State(blocks, "", TextType);
      assert Trim("") == "";
      assert Finished(s, authorDid, decodeUriComponent) == s;
      var first := QuoteBlock(quotes[0], authorDid, decodeUriComponent);
      LibraryQuoteRunHead(s, quotes, authorDid, decodeUriComponent);
      NonBlankQuotesTail(quotes);
      QuoteRunFromEmpty(blocks + [first], quotes[1..], authorDid, decodeUriComponent);
      var rest := QuoteBlocks(quotes[1..], authorDid, decodeUriComponent);
      assert QuoteBlocks(quotes, authorDid, decodeUriComponent) == [first] + rest;
      AppendAssoc(blocks, [first], rest);
    }
  }

  /** src/lib/convert.ts: consecutive non-blank '>' lines give one blockquote block each. */
  lemma LibraryQuoteRun(s: State, quotes: seq<string>, authorDid: string, decodeUriComponent: string -> string)
    requires quotes != [] && NonBlankQuotes(quotes)
    ensures RunFrom(Library, s, quotes, authorDid, decodeUriComponent)
            == State(Finished(s, authorDid, decodeUriComponent).blocks
                     + QuoteBlocks(quotes, authorDid, decodeUriComponent), "", TextType)
  {
    var blocks := Finished(s, authorDid, decodeUriComponent).blocks;
    var first := QuoteBlock(quotes[0], authorDid, decodeUriComponent);
    LibraryQuoteRunHead(s, quotes, authorDid, decodeUriComponent);
    NonBlankQuotesTail(quotes);
    QuoteRunFromEmpty(blocks + [first], quotes[1..], authorDid, decodeUriComponent);
    var rest := QuoteBlocks(quotes[1..], authorDid, decodeUriComponent);
    assert QuoteBlocks(quotes, authorDid, decodeUriComponent) == [first] + rest;
    AppendAssoc(blocks, [first], rest);
  }

  lemma NonBlankQuotesTail(quotes: seq<string>)
    requires quotes != [] && NonBlankQuotes(quotes)
    ensures NonBlankQuotes(quotes[1..])
  {
    forall k | 0 <= k < |quotes| - 1 ensures quotes[1..][k] == quotes[k + 1] { }
  }

  /** The text a run of '>' lines contributes in script.js: each line without its marker
      and leading white space, followed by a newline. */
  function QuoteLines(quotes: seq<string>): string
    requires forall k :: 0 <= k < |quotes| ==> StartsWith(quotes[k], ">")
  {
    if quotes == [] then "" else QuoteText(quotes[0]) + "\n" + QuoteLines(quotes[1..])
  }

  /** script.js: a '>' line after other content flushes it and opens a pending blockquote. */
  lemma ScriptQuoteOpens(s: State, line: string, authorDid: string, decodeUriComponent: string -> string)
    requires StartsWith(line, ">") && s.blockType != BlockquoteType
    ensures var f := Flushed(s, authorDid, decodeUriComponent);
            Step(Script, s, line, authorDid, decodeUriComponent)
            == State(f.blocks, f.currentBlock + QuoteText(line) + "\n", BlockquoteType)
  {
    QuoteLineIsNoOtherRule(line);
  }

  /** script.js: a '>' line inside a pending blockquote extends it. */
  lemma ScriptQuoteStep(s: State, line: string, authorDid: string, decodeUriComponent: string -> string)
    requires s.blockType == BlockquoteType && StartsWith(line, ">")
    ensures Step(Script, s, line, authorDid, decodeUriComponent)
            == State(s.blocks, s.currentBlock + (QuoteText(line) + "\n"), BlockquoteType)
  {
    QuoteLineIsNoOtherRule(line);
    AppendAssoc(s.currentBlock, QuoteText(line), "\n");
  }

  /** script.js: consecutive '>' lines accumulate into the one pending blockquote. */
  lemma {:induction false} ScriptQuoteRun(s: State, quotes: seq<string>, authorDid: string,
                                          decodeUriComponent: string -> string)
    requires s.blockType == BlockquoteType
    requires forall k :: 0 <= k < |quotes| ==> StartsWith(quotes[k], ">")
    ensures RunFrom(Script, s, quotes, authorDid, decodeUriComponent)
            == State(s.blocks, s.currentBlock + QuoteLines(quotes), BlockquoteType)
    decreases |quotes|
  {
    if quotes != [] {
      var head := QuoteText(quotes[0]) + "\n";
      ScriptQuoteStep(s, quotes[0], authorDid, decodeUriComponent);
      var s' := State(s.blocks, s.currentBlock + head, BlockquoteType);
      assert forall k :: 0 <= k < |quotes[1..]| ==> quotes[1..][k] == quotes[k + 1];
      ScriptQuoteRun(s', quotes[1..], authorDid, decodeUriComponent);
      assert RunFrom(Script, s, quotes, authorDid, decodeUriComponent)
             == RunFrom(Script, s', quotes[1..], authorDid, decodeUriComponent);
      assert QuoteLines(quotes) == head + QuoteLines(quotes[1..]);
      AppendAssoc(s.currentBlock, head, QuoteLines(quotes[1..]));
    }
  }

  /** A line no rule claims: it is appended to the pending block as it is. */
  predicate PlainLine(line: string) {
    !StartsWith(line, "#") && !IsRuleLine(line) && !StartsWith(line, "```") && !StartsWith(line, ">")
    && NextMatch(ImageSyntax, line, 0).None? && Trim(line) != ""
  }

  /** Lines each followed by a newline. */
  function JoinedLines(lines: seq<string>): string
  {
    if lines == [] then "" else lines[0] + "\n" + JoinedLines(lines[1..])
  }

  /** Inside a code block, a line no rule claims is appended as it is. */
  lemma CodeBodyStep(rev: Revision, s: State, line: string, authorDid: string,
                     decodeUriComponent: string -> string)
    requires s.blockType == CodeType && PlainLine(line)
    ensures Step(rev, s, line, authorDid, decodeUriComponent) == State(s.blocks, s.currentBlock + (line + "\n"), CodeType)
  {
    AppendAssoc(s.currentBlock, line, "\n");
  }

  lemma {:induction false} CodeBodyRun(rev: Revision, s: State, body: seq<string>, authorDid: string,
                                       decodeUriComponent: string -> string)
    requires s.blockType == CodeType
    requires forall k :: 0 <= k < |body| ==> PlainLine(body[k])
    ensures RunFrom(rev, s, body, authorDid, decodeUriComponent)
            == State(s.blocks, s.currentBlock + JoinedLines(body), CodeType)
    decreases |body|
  {
    if body != [] {
      var head := body[0] + "\n";
      CodeBodyStep(rev, s, body[0], authorDid, decodeUriComponent);
      var s' := State(s.blocks, s.currentBlock + head, CodeType);
      assert forall k :: 0 <= k < |body[1..]| ==> body[1..][k] == body[k + 1];
      CodeBodyRun(rev, s', body[1..], authorDid, decodeUriComponent);
      assert RunFrom(rev, s, body, authorDid, decodeUriComponent)
             == RunFrom(rev, s', body[1..], authorDid, decodeUriComponent);
      assert JoinedLines(body) == head + JoinedLines(body[1..]);
      AppendAssoc(s.currentBlock, head, JoinedLines(body[1..]));
    }
  }

  /** An opening fence, plain lines and a closing fence: the pending text is flushed first,
      then one code block holds the lines as written, each followed by a newline, with
      language 'javascript'. script.js keeps a blank pending text in front of them;
      src/lib/convert.ts drops it. */
  lemma CodeFence(rev: Revision, s: State, open: string, body: seq<string>, close: string,
                  authorDid: string, decodeUriComponent: string -> string)
    requires s.blockType != CodeType
    requires StartsWith(open, "```") && StartsWith(close, "```")
    requires forall k :: 0 <= k < |body| ==> PlainLine(body[k])
    ensures var f := Flushed(s, authorDid, decodeUriComponent);
            RunFrom(rev, s, [open] + body + [close], authorDid, decodeUriComponent)
            == State(f.blocks + [CodeBlock((if rev == Library then "" else f.currentBlock) + JoinedLines(body),
                                           Some("javascript"))], "", TextType)
  {
    FenceLineIsNoOtherRule(open);
    FenceLineIsNoOtherRule(close);
    var f := Flushed(s, authorDid, decodeUriComponent);
    var s1 := Step(rev, s, open, authorDid, decodeUriComponent);
    assert s1 == State(f.blocks, if rev == Library then "" else f.currentBlock, CodeType);
    RunFromAppend(rev, s, [open], body + [close], authorDid, decodeUriComponent);
    assert [open] + body + [close] == [open] + (body + [close]);
    RunFromAppend(rev, s1, body, [close], authorDid, decodeUriComponent);
    CodeBodyRun(rev, s1, body, authorDid, decodeUriComponent);
    assert RunFrom(rev, s, [open], authorDid, decodeUriComponent) == s1;
  }

  lemma FenceLineIsNoOtherRule(line: string)
    requires StartsWith(line, "```")
    ensures !StartsWith(line, "#") && !IsRuleLine(line)
  {
    LeadingChar(line);
  }

  /** A rule line flushes the pending text (src/lib/convert.ts via `finishCurrent`, which
      also returns to 'text'; script.js keeping `blockType`) and adds a horizontal rule. */
  lemma RuleLine(rev: Revision, s: State, line: string, authorDid: string, decodeUriComponent: string -> string)
    requires IsRuleLine(line)
    ensures var base := if rev == Library then Finished(s, authorDid, decodeUriComponent)
                        else Flushed(s, authorDid, decodeUriComponent);
            Step(rev, s, line, authorDid, decodeUriComponent)
            == State(base.blocks + [HorizontalRuleBlock], base.currentBlock, base.blockType)
  {
    LeadingChar(line);
  }
}
