/** The line-by-line Markdown converter `parseMarkdownToBlocks` with `createBlock`, in its
    two revisions: src/lib/convert.ts (with the `finishCurrent` closure) and script.js. */
module LineParser {
  import opened Wrappers
  import opened JsString
  import opened Patterns
  import opened BlobUri
  import opened Leaflet
  import opened RichText

  /** Which copy of the converter: `Library` is src/lib/convert.ts, `Script` is script.js.
      They differ in blockquote handling and in when `blockType` returns to 'text'. */
  datatype Revision = Library | Script

  const TextType: string := "text"
  const HeaderType: string := "header"
  const BlockquoteType: string := "blockquote"
  const CodeType: string := "code"
  const HorizontalRuleType: string := "horizontalRule"

  /** `createBlock`'s `options` argument: each field may be absent. */
  datatype Options = Options(level: Option<int>, facets: Option<seq<Facet>>, language: Option<string>)

  const NoOptions: Options := Options(None, None, None)

  /** `createBlock(type, content, authorDid, options)`; the author is not used. `||` falls
      back on absent, 0 and "" alike. */
  function CreateBlock(blockType: string, content: string, options: Options): Block
  {
    if blockType == HeaderType then
      HeaderBlock(if options.level.Some? && options.level.value != 0 then options.level.value else 1,
                  content, options.facets)
    else if blockType == BlockquoteType then BlockquoteBlock(content, options.facets)
    else if blockType == CodeType then
      CodeBlock(content, Some(if options.language.Some? && options.language.value != ""
                              then options.language.value else "javascript"))
    else if blockType == HorizontalRuleType then HorizontalRuleBlock
    else TextBlock(content, options.facets)
  }

  /** The loop's local state. */
  datatype State = State(blocks: seq<Block>, currentBlock: string, blockType: string)

  const Start: State := State([], "", TextType)

  /** The block the pending text becomes: its trimmed text through `parseRichText`. */
  function PendingBlock(s: State, authorDid: string, decodeUriComponent: string -> string): Block
  {
    var rt := RichTextOf(Trim(s.currentBlock), authorDid, decodeUriComponent);
    CreateBlock(s.blockType, rt.plaintext, Options(None, rt.facets, None))
  }

  /** The inline `if (currentBlock.trim()) { ...push...; currentBlock = '' }`: `blockType` kept. */
  function Flushed(s: State, authorDid: string, decodeUriComponent: string -> string): State
  {
    if Trim(s.currentBlock) == "" then s
    else State(s.blocks + [PendingBlock(s, authorDid, decodeUriComponent)], "", s.blockType)
  }

  /** `finishCurrent()` of src/lib/convert.ts, and script.js's blank-line branch: as
      `Flushed`, and `blockType` back to 'text' -- but only when something was pushed. */
  function Finished(s: State, authorDid: string, decodeUriComponent: string -> string): State
  {
    if Trim(s.currentBlock) == "" then s
    else State(s.blocks + [PendingBlock(s, authorDid, decodeUriComponent)], "", TextType)
  }

  predicate IsRuleChar(c: char) {
    c == '-' || c == '*' || c == '_'
  }

  // `/^[-*_]{3,}$/`: the whole line, three or more of '-', '*', '_'.
  predicate IsRuleLine(line: string) {
    |line| >= 3 && forall k :: 0 <= k < |line| ==> IsRuleChar(line[k])
  }

  /** `line.match(/^#+/)[0].length`. */
  function HashCount(line: string): nat
  {
    RunEnd(line, 0, c => c == '#')
  }

  // `line.replace(/^#+\s*/, '')`: the '#' run and the white space after it removed.
  function HeadingText(line: string): string
  {
    line[SkipSpace(line, HashCount(line))..]
  }

  // `line.replace(/^>\s*/, '')` on a line that starts with '>'.
  function QuoteText(line: string): string
    requires StartsWith(line, ">")
  {
    line[SkipSpace(line, 1)..]
  }

  /** The text an image line becomes: `[Image: ${alt || 'Image'}] (${convertedSrc})`. */
  function ImageLabel(line: string, m: Match, authorDid: string, decodeUriComponent: string -> string): string
    requires WellFormed(m, line)
  {
    var alt := Group1(line, m);
    "[Image: " + (if alt == "" then "Image" else alt) + "] ("
    + ConvertBlobUrlToAtUri(Group2(line, m), authorDid, decodeUriComponent) + ")"
  }

  /** The header block a '#' line becomes. */
  function HeaderOf(line: string, authorDid: string, decodeUriComponent: string -> string): Block
  {
    var rt := RichTextOf(HeadingText(line), authorDid, decodeUriComponent);
    CreateBlock(HeaderType, rt.plaintext, Options(Some(HashCount(line)), rt.facets, None))
  }

  /** One iteration of the loop over lines. */
  function Step(rev: Revision, s: State, line: string, authorDid: string,
                decodeUriComponent: string -> string): State
  {
    if StartsWith(line, "#") then
      var s1 := Flushed(s, authorDid, decodeUriComponent);
      State(s1.blocks + [HeaderOf(line, authorDid, decodeUriComponent)], s1.currentBlock, s1.blockType)
    else if IsRuleLine(line) then
      var s1 := if rev == Library then Finished(s, authorDid, decodeUriComponent)
                else Flushed(s, authorDid, decodeUriComponent);
      State(s1.blocks + [CreateBlock(HorizontalRuleType, "", NoOptions)], s1.currentBlock, s1.blockType)
    else if StartsWith(line, "```") then
      if s.blockType == CodeType then
        State(s.blocks + [CreateBlock(CodeType, s.currentBlock, Options(None, None, Some("javascript")))],
              "", TextType)
      else
        var s1 := Flushed(s, authorDid, decodeUriComponent);
        State(s1.blocks, if rev == Library then "" else s1.currentBlock, CodeType)
    else if StartsWith(line, ">") then
      if rev == Library then
        var s1 := Finished(s, authorDid, decodeUriComponent);
        Finished(State(s1.blocks, QuoteText(line) + "\n", BlockquoteType), authorDid, decodeUriComponent)
      else
        var s1 := if s.blockType != BlockquoteType
                  then var f := Flushed(s, authorDid, decodeUriComponent); State(f.blocks, f.currentBlock, BlockquoteType)
                  else s;
        State(s1.blocks, s1.currentBlock + QuoteText(line) + "\n", s1.blockType)
    else if NextMatch(ImageSyntax, line, 0).Some? then
      var m := NextMatch(ImageSyntax, line, 0).value;
      var s1 := Flushed(s, authorDid, decodeUriComponent);
      var rt := RichTextOf(ImageLabel(line, m, authorDid, decodeUriComponent), authorDid, decodeUriComponent);
      State(s1.blocks + [CreateBlock(TextType, rt.plaintext, Options(None, rt.facets, None))],
            s1.currentBlock, TextType)
    else if Trim(line) == "" then
      Finished(s, authorDid, decodeUriComponent)
    else
      var s1 := if s.blockType != TextType && s.blockType != BlockquoteType && s.blockType != CodeType
                then (if rev == Library then var f := Finished(s, authorDid, decodeUriComponent);
                                             State(f.blocks, f.currentBlock, TextType)
                      else State(s.blocks, s.currentBlock, TextType))
                else s;
      State(s1.blocks, s1.currentBlock + line + "\n", s1.blockType)
  }

  /** The loop over `lines`, from state `s`. */
  function RunFrom(rev: Revision, s: State, lines: seq<string>, authorDid: string,
                   decodeUriComponent: string -> string): State
    decreases |lines|
  {
    if lines == [] then s
    else RunFrom(rev, Step(rev, s, lines[0], authorDid, decodeUriComponent), lines[1..],
                 authorDid, decodeUriComponent)
  }

  /** `parseMarkdownToBlocks(content, authorDid)`: the loop, the final flush, and the
      fallback to one text block holding the raw content. */
  function MarkdownToBlocks(rev: Revision, content: string, authorDid: string,
                            decodeUriComponent: string -> string): (blocks: seq<Block>)
    ensures |blocks| >= 1
  {
    var s := RunFrom(rev, Start, Split(content, '\n'), authorDid, decodeUriComponent);
    var done := if rev == Library then Finished(s, authorDid, decodeUriComponent)
                else Flushed(s, authorDid, decodeUriComponent);
    if done.blocks == [] then [CreateBlock(TextType, content, NoOptions)] else done.blocks
  }

  lemma RunFromUnfold(rev: Revision, s: State, lines: seq<string>, i: nat, authorDid: string,
                      decodeUriComponent: string -> string)
    requires i < |lines|
    ensures RunFrom(rev, s, lines[i..], authorDid, decodeUriComponent)
            == RunFrom(rev, Step(rev, s, lines[i], authorDid, decodeUriComponent), lines[i + 1..],
                       authorDid, decodeUriComponent)
  {
    assert lines[i..][1..] == lines[i + 1..];
  }

  /** The repeated `if (currentBlock.trim()) { ...; blocks.push(createBlock(blockType, ...));
      currentBlock = ''; }`. */
  method FlushPending(blocks: seq<Block>, currentBlock: string, blockType: string,
                      authorDid: string, decodeUriComponent: string -> string)
    returns (blocks': seq<Block>, currentBlock': string)
    ensures State(blocks', currentBlock', blockType)
            == Flushed(State(blocks, currentBlock, blockType), authorDid, decodeUriComponent)
  {
    blocks', currentBlock' := blocks, currentBlock;
    if Trim(currentBlock) != "" {
      var rt := ParseRichText(Trim(currentBlock), authorDid, decodeUriComponent);
      blocks' := blocks + [CreateBlock(blockType, rt.plaintext, Options(None, rt.facets, None))];
      currentBlock' := "";
    }
  }

  /** `finishCurrent()`: flush, and back to 'text' when something was flushed. */
  method FinishCurrent(blocks: seq<Block>, currentBlock: string, blockType: string,
                       authorDid: string, decodeUriComponent: string -> string)
    returns (blocks': seq<Block>, currentBlock': string, blockType': string)
    ensures State(blocks', currentBlock', blockType')
            == Finished(State(blocks, currentBlock, blockType), authorDid, decodeUriComponent)
  {
    blocks', currentBlock', blockType' := blocks, currentBlock, blockType;
    if Trim(currentBlock) == "" {
      return;
    }
    var rt := ParseRichText(Trim(currentBlock), authorDid, decodeUriComponent);
    blocks' := blocks + [CreateBlock(blockType, rt.plaintext, Options(None, rt.facets, None))];
    currentBlock' := "";
    blockType' := TextType;
  }

  /** `parseMarkdownToBlocks(content, authorDid)`. */
  method ParseMarkdownToBlocks(rev: Revision, content: string, authorDid: string,
                               decodeUriComponent: string -> string)
    returns (result: seq<Block>)
    ensures result == MarkdownToBlocks(rev, content, authorDid, decodeUriComponent)
  {
    var blocks: seq<Block> := [];
    var lines := Split(content, '\n');
    var currentBlock := "";
    var blockType := TextType;
    for i := 0 to |lines|
      invariant RunFrom(rev, State(blocks, currentBlock, blockType), lines[i..], authorDid, decodeUriComponent)
                == RunFrom(rev, Start, lines, authorDid, decodeUriComponent)
    {
      var line := lines[i];
      ghost var before := State(blocks, currentBlock, blockType);
      if StartsWith(line, "#") {
        blocks, currentBlock := FlushPending(blocks, currentBlock, blockType, authorDid, decodeUriComponent);
        var level := HashCount(line);
        var text := HeadingText(line);
        var rt := ParseRichText(text, authorDid, decodeUriComponent);
        blocks := blocks + [CreateBlock(HeaderType, rt.plaintext, Options(Some(level), rt.facets, None))];
      } else if IsRuleLine(line) {
        if rev == Library {
          blocks, currentBlock, blockType := FinishCurrent(blocks, currentBlock, blockType, authorDid, decodeUriComponent);
        } else {
          blocks, currentBlock := FlushPending(blocks, currentBlock, blockType, authorDid, decodeUriComponent);
        }
        blocks := blocks + [CreateBlock(HorizontalRuleType, "", NoOptions)];
      } else if StartsWith(line, "```") {
        if blockType == CodeType {
          blocks := blocks + [CreateBlock(CodeType, currentBlock, Options(None, None, Some("javascript")))];
          currentBlock := "";
          blockType := TextType;
        } else {
          blocks, currentBlock := FlushPending(blocks, currentBlock, blockType, authorDid, decodeUriComponent);
          blockType := CodeType;
          if rev == Library {
            currentBlock := "";
          }
        }
      } else if StartsWith(line, ">") {
        if rev == Library {
          blocks, currentBlock, blockType := FinishCurrent(blocks, currentBlock, blockType, authorDid, decodeUriComponent);
          blockType := BlockquoteType;
          currentBlock := QuoteText(line) + "\n";
          blocks, currentBlock, blockType := FinishCurrent(blocks, currentBlock, blockType, authorDid, decodeUriComponent);
        } else {
          if blockType != BlockquoteType {
            blocks, currentBlock := FlushPending(blocks, currentBlock, blockType, authorDid, decodeUriComponent);
            blockType := BlockquoteType;
          }
          currentBlock := currentBlock + QuoteText(line) + "\n";
        }
      } else {
        var imgMatch := NextMatch(ImageSyntax, line, 0);
        if imgMatch.Some? {
          blocks, currentBlock := FlushPending(blocks, currentBlock, blockType, authorDid, decodeUriComponent);
          var alt := Group1(line, imgMatch.value);
          var convertedSrc := ConvertBlobUrlToAtUri(Group2(line, imgMatch.value), authorDid, decodeUriComponent);
          var rt := ParseRichText("[Image: " + (if alt == "" then "Image" else alt) + "] (" + convertedSrc + ")",
                                  authorDid, decodeUriComponent);
          blocks := blocks + [CreateBlock(TextType, rt.plaintext, Options(None, rt.facets, None))];
          blockType := TextType;
        } else if Trim(line) == "" {
          blocks, currentBlock, blockType := FinishCurrent(blocks, currentBlock, blockType, authorDid, decodeUriComponent);
        } else {
          if blockType != TextType && blockType != BlockquoteType && blockType != CodeType {
            if rev == Library {
              blocks, currentBlock, blockType := FinishCurrent(blocks, currentBlock, blockType, authorDid, decodeUriComponent);
            }
            blockType := TextType;
          }
          currentBlock := currentBlock + line + "\n";
        }
      }
      assert State(blocks, currentBlock, blockType) == Step(rev, before, line, authorDid, decodeUriComponent);
      RunFromUnfold(rev, before, lines, i, authorDid, decodeUriComponent);
    }

    ghost var last := State(blocks, currentBlock, blockType);
    assert last == RunFrom(rev, Start, lines, authorDid, decodeUriComponent) by {
      assert lines[|lines|..] == [];
    }
    if rev == Library {
      blocks, currentBlock, blockType := FinishCurrent(blocks, currentBlock, blockType, authorDid, decodeUriComponent);
    } else {
      blocks, currentBlock := FlushPending(blocks, currentBlock, blockType, authorDid, decodeUriComponent);
    }
    result := if |blocks| > 0 then blocks else [CreateBlock(TextType, content, NoOptions)];
  }
}
