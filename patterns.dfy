/** Hand-written scanners for the fixed regular expressions of the converters, and the
    JavaScript matching loops built on them: `exec` from a position (leftmost match),
    the `while ((m = re.exec(s)) !== null)` sequence of a global expression, and
    `s.replace(globalRe, '$1')`.

    Each scanner decides a match at one position with the expression's own backtracking
    outcome: a greedy run `[^x]+` followed by `x` can only succeed at the end of the run,
    so the scanners take the maximal run and test what follows it. */
module Patterns {
  import opened Wrappers
  import opened JsString

  /** One match: the whole match is t[start..end]; capture group 1 is t[g1Start..g1End]
      and group 2 is t[g2Start..g2End] (a group the expression lacks is empty). */
  datatype Match = Match(start: nat, end: nat, g1Start: nat, g1End: nat, g2Start: nat, g2End: nat)

  predicate WellFormed(m: Match, t: string) {
    m.start < m.end <= |t|
    && m.start <= m.g1Start <= m.g1End <= m.end
    && m.start <= m.g2Start <= m.g2End <= m.end
  }

  function Group1(t: string, m: Match): string
    requires WellFormed(m, t)
  {
    t[m.g1Start..m.g1End]
  }

  function Group2(t: string, m: Match): string
    requires WellFormed(m, t)
  {
    t[m.g2Start..m.g2End]
  }

  /** The regular expressions of the converters. */
  datatype Pattern =
    | LinkSyntax           // /\[([^\]]+)\]\(([^)]+)\)/
    | BoldSyntax           // /\*\*([^*]+)\*\*/
    | ItalicSyntax         // /(?<!\*)\*([^*]+)\*(?!\*)/
    | CodeSyntax           // /`([^`]+)`/
    | LazyBoldSyntax       // /\*\*(.+?)\*\*/
    | StarOrUnderscore     // /(?<!\*)\*([^*]+)\*(?!\*)|_([^_]+)_/
    | ImageSyntax          // /!\[([^\]]*)\]\(([^)]+)\)/
    | GetBlobUrl           // /xrpc\/com\.atproto\.sync\.getBlob\?did=([^&]+)&cid=([^&\s]+)/
    | CidReference         // /(bafk[a-z0-9]+|bafyb[a-z0-9]+)/

  /** End of the maximal run of characters of a class starting at `i`. */
  function RunEnd(t: string, i: nat, inClass: char -> bool): (j: nat)
    requires i <= |t|
    ensures i <= j <= |t|
    ensures forall k :: i <= k < j ==> inClass(t[k])
    ensures j < |t| ==> !inClass(t[j])
    decreases |t| - i
  {
    if i == |t| || !inClass(t[i]) then i else RunEnd(t, i + 1, inClass)
  }

  /** `\[([^\]]+)\]\(([^)]+)\)` at position i. */
  function LinkAt(t: string, i: nat): (r: Option<Match>)
    requires i <= |t|
    ensures r.Some? ==> r.value.start == i && WellFormed(r.value, t)
  {
    if i < |t| && t[i] == '[' then
      var j := RunEnd(t, i + 1, c => c != ']');
      if i + 1 < j && j + 1 < |t| && t[j + 1] == '(' then
        var k := RunEnd(t, j + 2, c => c != ')');
        if j + 2 < k < |t| then Some(Match(i, k + 1, i + 1, j, j + 2, k)) else None
      else None
    else None
  }

  /** `\*\*([^*]+)\*\*` at position i. */
  function BoldAt(t: string, i: nat): (r: Option<Match>)
    requires i <= |t|
    ensures r.Some? ==> r.value.start == i && WellFormed(r.value, t)
  {
    if i + 1 < |t| && t[i] == '*' && t[i + 1] == '*' then
      var j := RunEnd(t, i + 2, c => c != '*');
      if i + 2 < j && j + 1 < |t| && t[j + 1] == '*' then Some(Match(i, j + 2, i + 2, j, i, i))
      else None
    else None
  }

  /** `(?<!\*)\*([^*]+)\*(?!\*)` at position i: the look-behind sees the whole string. */
  function ItalicAt(t: string, i: nat): (r: Option<Match>)
    requires i <= |t|
    ensures r.Some? ==> r.value.start == i && WellFormed(r.value, t)
  {
    if i < |t| && t[i] == '*' && (i == 0 || t[i - 1] != '*') then
      var j := RunEnd(t, i + 1, c => c != '*');
      if i + 1 < j < |t| && (j + 1 == |t| || t[j + 1] != '*') then Some(Match(i, j + 1, i + 1, j, i, i))
      else None
    else None
  }

  /** `` `([^`]+)` `` at position i. */
  function CodeAt(t: string, i: nat): (r: Option<Match>)
    requires i <= |t|
    ensures r.Some? ==> r.value.start == i && WellFormed(r.value, t)
  {
    if i < |t| && t[i] == '`' then
      var j := RunEnd(t, i + 1, c => c != '`');
      if i + 1 < j < |t| then Some(Match(i, j + 1, i + 1, j, i, i)) else None
    else None
  }

  /** The lazy `.+?` of `\*\*(.+?)\*\*`: the group has reached t[..j] (non-empty, no line
      terminator); stop at the first `**`, else grow by one non-terminator character. */
  function LazyClose(t: string, j: nat): (r: Option<nat>)
    requires j <= |t|
    ensures r.Some? ==> j <= r.value && r.value + 1 < |t|
    decreases |t| - j
  {
    if j + 1 < |t| && t[j] == '*' && t[j + 1] == '*' then Some(j)
    else if j < |t| && !IsLineTerminator(t[j]) then LazyClose(t, j + 1)
    else None
  }

  /** `\*\*(.+?)\*\*` at position i. */
  function LazyBoldAt(t: string, i: nat): (r: Option<Match>)
    requires i <= |t|
    ensures r.Some? ==> r.value.start == i && WellFormed(r.value, t)
  {
    if i + 2 < |t| && t[i] == '*' && t[i + 1] == '*' && !IsLineTerminator(t[i + 2]) then
      match LazyClose(t, i + 3)
      case Some(j) => Some(Match(i, j + 2, i + 2, j, i, i))
      case None => None
    else None
  }

  /** `(?<!\*)\*([^*]+)\*(?!\*)|_([^_]+)_` at position i: the first alternative first. */
  function StarOrUnderscoreAt(t: string, i: nat): (r: Option<Match>)
    requires i <= |t|
    ensures r.Some? ==> r.value.start == i && WellFormed(r.value, t)
  {
    match ItalicAt(t, i)
    case Some(m) => Some(m)
    case None =>
      if i < |t| && t[i] == '_' then
        var j := RunEnd(t, i + 1, c => c != '_');
        if i + 1 < j < |t| then Some(Match(i, j + 1, i, i, i + 1, j)) else None
      else None
  }

  /** `!\[([^\]]*)\]\(([^)]+)\)` at position i: the alt text may be empty. */
  function ImageAt(t: string, i: nat): (r: Option<Match>)
    requires i <= |t|
    ensures r.Some? ==> r.value.start == i && WellFormed(r.value, t)
  {
    if i + 1 < |t| && t[i] == '!' && t[i + 1] == '[' then
      var j := RunEnd(t, i + 2, c => c != ']');
      if j + 1 < |t| && t[j + 1] == '(' then
        var k := RunEnd(t, j + 2, c => c != ')');
        if j + 2 < k < |t| then Some(Match(i, k + 1, i + 2, j, j + 2, k)) else None
      else None
    else None
  }

  const GetBlobPrefix: string := "xrpc/com.atproto.sync.getBlob?did="
  const CidSeparator: string := "&cid="

  /** `xrpc\/com\.atproto\.sync\.getBlob\?did=([^&]+)&cid=([^&\s]+)` at position i. */
  function GetBlobAt(t: string, i: nat): (r: Option<Match>)
    requires i <= |t|
    ensures r.Some? ==> r.value.start == i && WellFormed(r.value, t)
  {
    if OccursAt(t, i, GetBlobPrefix) then
      var j := i + |GetBlobPrefix|;
      var k := RunEnd(t, j, c => c != '&');
      if j < k && OccursAt(t, k, CidSeparator) then
        var m := k + |CidSeparator|;
        var e := RunEnd(t, m, c => c != '&' && !IsSpace(c));
        if m < e then Some(Match(i, e, j, k, m, e)) else None
      else None
    else None
  }

  predicate IsCidChar(c: char) {
    ('a' <= c <= 'z') || ('0' <= c <= '9')
  }

  /** `(bafk[a-z0-9]+|bafyb[a-z0-9]+)` at position i: group 1 is the whole match. */
  function CidAt(t: string, i: nat): (r: Option<Match>)
    requires i <= |t|
    ensures r.Some? ==> r.value.start == i && WellFormed(r.value, t)
  {
    if OccursAt(t, i, "bafk") && RunEnd(t, i + 4, IsCidChar) > i + 4 then
      var e := RunEnd(t, i + 4, IsCidChar);
      Some(Match(i, e, i, e, i, i))
    else if OccursAt(t, i, "bafyb") && RunEnd(t, i + 5, IsCidChar) > i + 5 then
      var e := RunEnd(t, i + 5, IsCidChar);
      Some(Match(i, e, i, e, i, i))
    else None
  }

  /** Whether, and how, pattern `p` matches starting exactly at position i. */
  function MatchAt(p: Pattern, t: string, i: nat): (r: Option<Match>)
    requires i <= |t|
    ensures r.Some? ==> r.value.start == i && WellFormed(r.value, t)
  {
    match p
    case LinkSyntax => LinkAt(t, i)
    case BoldSyntax => BoldAt(t, i)
    case ItalicSyntax => ItalicAt(t, i)
    case CodeSyntax => CodeAt(t, i)
    case LazyBoldSyntax => LazyBoldAt(t, i)
    case StarOrUnderscore => StarOrUnderscoreAt(t, i)
    case ImageSyntax => ImageAt(t, i)
    case GetBlobUrl => GetBlobAt(t, i)
    case CidReference => CidAt(t, i)
  }

  /** `re.exec(t)` with `re.lastIndex == from`: the leftmost match at or after `from`. */
  function NextMatch(p: Pattern, t: string, from: nat): (r: Option<Match>)
    requires from <= |t|
    ensures r.Some? ==> from <= r.value.start && WellFormed(r.value, t)
    decreases |t| - from
  {
    match MatchAt(p, t, from)
    case Some(m) => Some(m)
    case None => if from == |t| then None else NextMatch(p, t, from + 1)
  }

  /** `exec` finds the leftmost position where the pattern matches, and that match. */
  lemma {:induction false} NextMatchLeftmost(p: Pattern, t: string, from: nat)
    requires from <= |t|
    ensures var r := NextMatch(p, t, from);
            r.Some? ==> MatchAt(p, t, r.value.start) == r
    ensures var r := NextMatch(p, t, from);
            forall k :: from <= k <= |t| && (r.None? || k < r.value.start) ==> MatchAt(p, t, k).None?
    decreases |t| - from
  {
    if MatchAt(p, t, from).None? && from < |t| {
      NextMatchLeftmost(p, t, from + 1);
    }
  }

  /** A match at i with none between `from` and i is what `exec` from `from` returns. */
  lemma LeftmostMatch(p: Pattern, t: string, from: nat, i: nat)
    requires from <= i <= |t| && MatchAt(p, t, i).Some?
    requires forall k :: from <= k < i ==> MatchAt(p, t, k).None?
    ensures NextMatch(p, t, from) == MatchAt(p, t, i)
  {
    NextMatchLeftmost(p, t, from);
  }

  /** The matches a global expression's `exec` loop visits from `from`: each search
      resumes where the previous match ended. */
  function AllMatches(p: Pattern, t: string, from: nat): (ms: seq<Match>)
    requires from <= |t|
    ensures forall k :: 0 <= k < |ms| ==> WellFormed(ms[k], t) && from <= ms[k].start
    ensures forall k :: 0 <= k < |ms| - 1 ==> ms[k].end <= ms[k + 1].start
    decreases |t| - from
  {
    match NextMatch(p, t, from)
    case None => []
    case Some(m) => [m] + AllMatches(p, t, m.end)
  }

  lemma AllMatchesUnfold(p: Pattern, t: string, from: nat)
    requires from <= |t| && NextMatch(p, t, from).Some?
    ensures var m := NextMatch(p, t, from).value;
            AllMatches(p, t, from) == [m] + AllMatches(p, t, m.end)
  {
  }

  /** `t.replace(globalRe, '$1')` from position `from`: every match the global search
      visits is replaced by its first group. */
  function ReplaceWithGroup1(p: Pattern, t: string, from: nat): (r: string)
    requires from <= |t|
    ensures |r| <= |t| - from
    ensures AllMatches(p, t, from) == [] ==> r == t[from..]
    decreases |t| - from
  {
    match NextMatch(p, t, from)
    case None => t[from..]
    case Some(m) => t[from..m.start] + Group1(t, m) + ReplaceWithGroup1(p, t, m.end)
  }

  /** The character every match of `p` begins with, when there is one. */
  function Marker(p: Pattern): Option<char>
  {
    match p
    case LinkSyntax => Some('[')
    case BoldSyntax => Some('*')
    case ItalicSyntax => Some('*')
    case CodeSyntax => Some('`')
    case LazyBoldSyntax => Some('*')
    case StarOrUnderscore => None
    case ImageSyntax => Some('!')
    case GetBlobUrl => Some('x')
    case CidReference => Some('b')
  }

  lemma MatchStartsWithMarker(p: Pattern, t: string, i: nat)
    requires i <= |t| && MatchAt(p, t, i).Some? && Marker(p).Some?
    ensures i < |t| && t[i] == Marker(p).value && Marker(p).value in t
  {
    match p
    case GetBlobUrl =>
      assert t[i..i + |GetBlobPrefix|][0] == 'x';
    case CidReference =>
      if OccursAt(t, i, "bafk") {
        assert t[i..i + 4][0] == 'b';
      } else {
        assert t[i..i + 5][0] == 'b';
      }
    case _ =>
  }

  /** A text without the marker of `p` has no match of `p`: the global search finds
      nothing and the replacement leaves the text as it is. */
  lemma NoMarkerNoMatch(p: Pattern, t: string)
    requires Marker(p).Some? && Marker(p).value !in t
    ensures NextMatch(p, t, 0).None?
    ensures AllMatches(p, t, 0) == []
    ensures ReplaceWithGroup1(p, t, 0) == t
  {
    if NextMatch(p, t, 0).Some? {
      var m := NextMatch(p, t, 0).value;
      NextMatchLeftmost(p, t, 0);
      MatchStartsWithMarker(p, t, m.start);
    }
  }
}
