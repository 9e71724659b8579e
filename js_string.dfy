/** The JavaScript string built-ins the converters rely on, over code-point strings:
    `trim`, the `\s` class, `startsWith`, `includes`, `split('\n')`, `padStart` and
    number-to-decimal formatting. */
module JsString {
  import opened Wrappers

  /** JavaScript truthiness of an optional string: present and not empty. */
  predicate Truthy(o: Option<string>) {
    o.Some? && o.value != ""
  }

  /** ECMAScript WhiteSpace and LineTerminator code points: what `trim` removes and
      what the regular-expression class `\s` matches. */
  predicate IsSpace(c: char) {
    c == '\t' || c == '\n' || c == '\U{000B}' || c == '\U{000C}' || c == '\r' || c == ' '
    || c == '\U{00A0}' || c == '\U{1680}' || ('\U{2000}' <= c <= '\U{200A}')
    || c == '\U{2028}' || c == '\U{2029}' || c == '\U{202F}' || c == '\U{205F}'
    || c == '\U{3000}' || c == '\U{FEFF}'
  }

  /** What the regular-expression `.` does not match (no `s` flag). */
  predicate IsLineTerminator(c: char) {
    c == '\n' || c == '\r' || c == '\U{2028}' || c == '\U{2029}'
  }

  predicate IsBlank(s: string) {
    forall k :: 0 <= k < |s| ==> IsSpace(s[k])
  }

  /** Index of the first character that is not white space (or |s|). */
  function SkipSpace(s: string, i: nat): (j: nat)
    requires i <= |s|
    ensures i <= j <= |s|
    ensures forall k :: i <= k < j ==> IsSpace(s[k])
    ensures j < |s| ==> !IsSpace(s[j])
    decreases |s| - i
  {
    if i == |s| || !IsSpace(s[i]) then i else SkipSpace(s, i + 1)
  }

  /** One past the last character that is not white space (or 0). */
  function TrailingStart(s: string, j: nat): (e: nat)
    requires j <= |s|
    ensures e <= j
    ensures forall k :: e <= k < j ==> IsSpace(s[k])
    ensures e > 0 ==> !IsSpace(s[e - 1])
  {
    if j == 0 || !IsSpace(s[j - 1]) then j else TrailingStart(s, j - 1)
  }

  /** `s.trim()`. */
  function Trim(s: string): (r: string)
  {
    var b := SkipSpace(s, 0);
    var e := TrailingStart(s, |s|);
    if b < e then s[b..e] else ""
  }

  /** `s.trim()` removes only white space from both ends, and leaves none there. */
  lemma TrimShape(s: string)
    ensures exists b, e :: (0 <= b <= e <= |s| && Trim(s) == s[b..e]
                             && IsBlank(s[..b]) && IsBlank(s[e..]))
    ensures Trim(s) != [] ==> !IsSpace(Trim(s)[0]) && !IsSpace(Trim(s)[|Trim(s)| - 1])
  {
    var b := SkipSpace(s, 0);
    var e := TrailingStart(s, |s|);
    assert b < |s| ==> b < e;
    if b < e {
      assert Trim(s) == s[b..e];
      assert IsBlank(s[..b]) && IsBlank(s[e..]);
    } else {
      assert Trim(s) == s[|s|..|s|];
      assert IsBlank(s[..|s|]);
    }
  }

  /** A string trims to "" exactly when it is all white space; this is the source's
      `!s.trim()` test. */
  lemma TrimEmptyIffBlank(s: string)
    ensures Trim(s) == "" <==> IsBlank(s)
  {
    var b := SkipSpace(s, 0);
    var e := TrailingStart(s, |s|);
    if IsBlank(s) {
      assert b == |s|;
    } else {
      var k :| 0 <= k < |s| && !IsSpace(s[k]);
      assert b <= k < e;
    }
  }

  /** JavaScript's `a < b` on strings: lexicographic, a proper prefix first. */
  predicate LexLess(a: string, b: string) {
    if a == [] then b != []
    else if b == [] then false
    else if a[0] != b[0] then a[0] < b[0]
    else LexLess(a[1..], b[1..])
  }

  /** `s.substring(start, end)`: both positions clamped to the string, swapped if reversed. */
  function Substring(s: string, start: nat, end: nat): string
  {
    var a := if start <= |s| then start else |s|;
    var b := if end <= |s| then end else |s|;
    if a <= b then s[a..b] else s[b..a]
  }

  /** `s.substring(start)`. */
  function SubstringFrom(s: string, start: nat): string
  {
    Substring(s, start, |s|)
  }

  predicate StartsWith(s: string, prefix: string) {
    |prefix| <= |s| && s[..|prefix|] == prefix
  }

  /** `s.includes(part)`. */
  predicate Contains(s: string, part: string) {
    exists i :: 0 <= i <= |s| - |part| && OccursAt(s, i, part)
  }

  predicate OccursAt(s: string, i: nat, part: string) {
    i + |part| <= |s| && s[i..i + |part|] == part
  }

  /** Position of the first `sep` at or after `i`, or |s|. */
  function NextSep(s: string, i: nat, sep: char): (j: nat)
    requires i <= |s|
    ensures i <= j <= |s|
    ensures sep !in s[i..j]
    ensures j < |s| ==> s[j] == sep
    decreases |s| - i
  {
    if i == |s| || s[i] == sep then i else NextSep(s, i + 1, sep)
  }

  /** `s.split(sep)` for a one-character separator, from position `i`. */
  function SplitFrom(s: string, i: nat, sep: char): (pieces: seq<string>)
    requires i <= |s|
    ensures |pieces| >= 1
    ensures forall k :: 0 <= k < |pieces| ==> sep !in pieces[k]
    decreases |s| - i
  {
    var j := NextSep(s, i, sep);
    if j == |s| then [s[i..]] else [s[i..j]] + SplitFrom(s, j + 1, sep)
  }

  function Split(s: string, sep: char): seq<string>
  {
    SplitFrom(s, 0, sep)
  }

  /** Joining pieces back with the separator, the inverse of `Split`. */
  function Join(pieces: seq<string>, sep: char): string
  {
    if pieces == [] then ""
    else if |pieces| == 1 then pieces[0]
    else pieces[0] + [sep] + Join(pieces[1..], sep)
  }

  lemma {:induction false} JoinSplitFrom(s: string, i: nat, sep: char)
    requires i <= |s|
    ensures Join(SplitFrom(s, i, sep), sep) == s[i..]
    decreases |s| - i
  {
    var j := NextSep(s, i, sep);
    if j < |s| {
      var rest := SplitFrom(s, j + 1, sep);
      assert SplitFrom(s, i, sep) == [s[i..j]] + rest;
      assert ([s[i..j]] + rest)[1..] == rest;
      JoinSplitFrom(s, j + 1, sep);
      assert s[i..] == s[i..j] + [sep] + s[j + 1..];
    }
  }

  /** `split` loses nothing: re-joining the pieces gives the input back. */
  lemma JoinSplit(s: string, sep: char)
    ensures Join(Split(s, sep), sep) == s
  {
    JoinSplitFrom(s, 0, sep);
  }

  /** `s.padStart(width, fill)`. */
  function PadStart(s: string, width: nat, fill: char): (r: string)
    ensures |r| == if |s| < width then width else |s|
    ensures r == Repeat(fill, |r| - |s|) + s
  {
    if |s| < width then Repeat(fill, width - |s|) + s else s
  }

  function Repeat(c: char, n: nat): (r: string)
    ensures |r| == n
    ensures forall k :: 0 <= k < n ==> r[k] == c
  {
    if n == 0 then "" else [c] + Repeat(c, n - 1)
  }

  function DigitChar(d: nat): char
    requires d < 10
  {
    "0123456789"[d]
  }

  /** `${n}` for a non-negative integer: its decimal digits, most significant first. */
  function NatToString(n: nat): (r: string)
    ensures |r| >= 1
    ensures forall k :: 0 <= k < |r| ==> '0' <= r[k] <= '9'
    ensures DecimalValue(r) == n
  {
    if n < 10 then [DigitChar(n)] else NatToString(n / 10) + [DigitChar(n % 10)]
  }

  function DecimalValue(s: string): nat
    requires forall k :: 0 <= k < |s| ==> '0' <= s[k] <= '9'
  {
    if s == [] then 0 else DecimalValue(s[..|s| - 1]) * 10 + (s[|s| - 1] as int - '0' as int)
  }
}
