/** Declarative readings of the converters' regular expressions, and proofs that the
    scanners of module Patterns find exactly the matches these describe (both ways). */
module PatternSpecs {
  import opened Wrappers
  import opened JsString
  import opened Patterns

  predicate NoneOf(t: string, lo: nat, hi: nat, c: char)
    requires lo <= hi <= |t|
  {
    forall k :: lo <= k < hi ==> t[k] != c
  }

  /** A run ends at j exactly when everything before is in the class and t[j] is not. */
  lemma {:induction false} RunEndExact(t: string, i: nat, j: nat, inClass: char -> bool)
    requires i <= j <= |t|
    requires forall k :: i <= k < j ==> inClass(t[k])
    requires j == |t| || !inClass(t[j])
    ensures RunEnd(t, i, inClass) == j
    decreases j - i
  {
    if i < j {
      RunEndExact(t, i + 1, j, inClass);
    }
  }

  /** `[`, link text (non-empty, no `]`), `](`, target (non-empty, no `)`), `)`. */
  predicate IsLinkMatch(t: string, m: Match) {
    m.g1Start == m.start + 1 && m.g1Start < m.g1End && m.g2Start == m.g1End + 2
    && m.g2Start < m.g2End && m.end == m.g2End + 1 && m.end <= |t|
    && t[m.start] == '[' && t[m.g1End] == ']' && t[m.g1End + 1] == '(' && t[m.g2End] == ')'
    && NoneOf(t, m.g1Start, m.g1End, ']') && NoneOf(t, m.g2Start, m.g2End, ')')
  }

  lemma LinkAtIff(t: string, i: nat, m: Match)
    requires i <= |t|
    ensures LinkAt(t, i) == Some(m) <==> m.start == i && IsLinkMatch(t, m)
  {
    if m.start == i && IsLinkMatch(t, m) {
      RunEndExact(t, i + 1, m.g1End, c => c != ']');
      RunEndExact(t, m.g1End + 2, m.g2End, c => c != ')');
    }
  }

  /** `**`, a non-empty run without `*`, `**`. */
  predicate IsBoldMatch(t: string, m: Match) {
    m.g1Start == m.start + 2 && m.g1Start < m.g1End && m.end == m.g1End + 2 && m.end <= |t|
    && m.g2Start == m.g2End == m.start
    && t[m.start] == '*' && t[m.start + 1] == '*' && t[m.g1End] == '*' && t[m.g1End + 1] == '*'
    && NoneOf(t, m.g1Start, m.g1End, '*')
  }

  lemma BoldAtIff(t: string, i: nat, m: Match)
    requires i <= |t|
    ensures BoldAt(t, i) == Some(m) <==> m.start == i && IsBoldMatch(t, m)
  {
    if m.start == i && IsBoldMatch(t, m) {
      RunEndExact(t, i + 2, m.g1End, c => c != '*');
    }
  }

  /** `*` not preceded by `*`, a non-empty run without `*`, `*` not followed by `*`. */
  predicate IsItalicMatch(t: string, m: Match) {
    m.g1Start == m.start + 1 && m.g1Start < m.g1End && m.end == m.g1End + 1 && m.end <= |t|
    && m.g2Start == m.g2End == m.start
    && t[m.start] == '*' && t[m.g1End] == '*' && NoneOf(t, m.g1Start, m.g1End, '*')
    && (m.start == 0 || t[m.start - 1] != '*') && (m.end == |t| || t[m.end] != '*')
  }

  lemma ItalicAtIff(t: string, i: nat, m: Match)
    requires i <= |t|
    ensures ItalicAt(t, i) == Some(m) <==> m.start == i && IsItalicMatch(t, m)
  {
    if m.start == i && IsItalicMatch(t, m) {
      RunEndExact(t, i + 1, m.g1End, c => c != '*');
    }
  }

  /** A backquote, a non-empty run without backquotes, a backquote. */
  predicate IsCodeMatch(t: string, m: Match) {
    m.g1Start == m.start + 1 && m.g1Start < m.g1End && m.end == m.g1End + 1 && m.end <= |t|
    && m.g2Start == m.g2End == m.start
    && t[m.start] == '`' && t[m.g1End] == '`' && NoneOf(t, m.g1Start, m.g1End, '`')
  }

  lemma CodeAtIff(t: string, i: nat, m: Match)
    requires i <= |t|
    ensures CodeAt(t, i) == Some(m) <==> m.start == i && IsCodeMatch(t, m)
  {
    if m.start == i && IsCodeMatch(t, m) {
      RunEndExact(t, i + 1, m.g1End, c => c != '`');
    }
  }

  /** `![`, alt text (possibly empty, no `]`), `](`, source (non-empty, no `)`), `)`. */
  predicate IsImageMatch(t: string, m: Match) {
    m.g1Start == m.start + 2 && m.g1Start <= m.g1End && m.g2Start == m.g1End + 2
    && m.g2Start < m.g2End && m.end == m.g2End + 1 && m.end <= |t|
    && t[m.start] == '!' && t[m.start + 1] == '[' && t[m.g1End] == ']' && t[m.g1End + 1] == '('
    && t[m.g2End] == ')'
    && NoneOf(t, m.g1Start, m.g1End, ']') && NoneOf(t, m.g2Start, m.g2End, ')')
  }

  lemma ImageAtIff(t: string, i: nat, m: Match)
    requires i <= |t|
    ensures ImageAt(t, i) == Some(m) <==> m.start == i && IsImageMatch(t, m)
  {
    if m.start == i && IsImageMatch(t, m) {
      RunEndExact(t, i + 2, m.g1End, c => c != ']');
      RunEndExact(t, m.g1End + 2, m.g2End, c => c != ')');
    }
  }

  predicate CidStop(t: string, e: nat)
    requires e <= |t|
  {
    e == |t| || t[e] == '&' || IsSpace(t[e])
  }

  /** The getBlob path and `did=`, the DID (non-empty, no `&`), `&cid=`, and the CID, the
      longest non-empty run without `&` or white space. */
  predicate IsGetBlobMatch(t: string, m: Match) {
    m.g1Start == m.start + |GetBlobPrefix| && m.g1Start < m.g1End
    && m.g2Start == m.g1End + |CidSeparator| && m.g2Start < m.g2End && m.end == m.g2End
    && m.end <= |t|
    && OccursAt(t, m.start, GetBlobPrefix) && OccursAt(t, m.g1End, CidSeparator)
    && NoneOf(t, m.g1Start, m.g1End, '&')
    && (forall k :: m.g2Start <= k < m.g2End ==> t[k] != '&' && !IsSpace(t[k]))
    && CidStop(t, m.end)
  }

  lemma GetBlobAtIff(t: string, i: nat, m: Match)
    requires i <= |t|
    ensures GetBlobAt(t, i) == Some(m) <==> m.start == i && IsGetBlobMatch(t, m)
  {
    if m.start == i && IsGetBlobMatch(t, m) {
      assert t[m.g1End] == CidSeparator[0];
      RunEndExact(t, m.g1Start, m.g1End, c => c != '&');
      RunEndExact(t, m.g2Start, m.g2End, c => c != '&' && !IsSpace(c));
    }
  }

  /** `bafk` or `bafyb`, then the longest non-empty run of `[a-z0-9]`; group 1 is all. */
  predicate IsCidMatch(t: string, m: Match) {
    m.g1Start == m.start && m.g1End == m.end && m.g2Start == m.g2End == m.start && m.end <= |t|
    && ((OccursAt(t, m.start, "bafk") && m.start + 4 < m.end)
        || (OccursAt(t, m.start, "bafyb") && m.start + 5 < m.end))
    && (forall k :: m.start + 4 <= k < m.end ==> IsCidChar(t[k]))
    && (m.end == |t| || !IsCidChar(t[m.end]))
  }

  lemma CidAtIff(t: string, i: nat, m: Match)
    requires i <= |t|
    ensures CidAt(t, i) == Some(m) <==> m.start == i && IsCidMatch(t, m)
  {
    if m.start == i && IsCidMatch(t, m) {
      if OccursAt(t, i, "bafk") {
        RunEndExact(t, i + 4, m.end, IsCidChar);
      } else {
        assert t[i + 4] == 'b';
        RunEndExact(t, i + 5, m.end, IsCidChar);
      }
    } else if CidAt(t, i).Some? {
      var e := CidAt(t, i).value.end;
      if OccursAt(t, i, "bafk") && RunEnd(t, i + 4, IsCidChar) > i + 4 {
      } else {
        assert t[i + 4] == 'b';
      }
    }
  }
}
