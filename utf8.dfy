/** UTF-8 byte lengths of code-point strings (RFC 3629, section 3), the measure behind
    every facet offset: `new TextEncoder().encode(s).length`. */
module Utf8 {

  /** Number of bytes RFC 3629 (section 3) uses to encode one code point. */
  function CharLen(c: char): (n: nat)
    ensures 1 <= n <= 4
    ensures n == 1 <==> c as int < 0x80
  {
    if c as int < 0x80 then 1
    else if c as int < 0x800 then 2
    else if c as int < 0x1_0000 then 3
    else 4
  }

  /** Byte length of the UTF-8 encoding of `s`. */
  function ByteLen(s: string): (n: nat)
    ensures |s| <= n <= 4 * |s|
  {
    if s == [] then 0 else CharLen(s[0]) + ByteLen(s[1..])
  }

  lemma {:induction false} ByteLenAppend(a: string, b: string)
    ensures ByteLen(a + b) == ByteLen(a) + ByteLen(b)
  {
    if a == [] {
      assert a + b == b;
    } else {
      assert (a + b)[1..] == a[1..] + b;
      ByteLenAppend(a[1..], b);
    }
  }

  /** `getBytePosition(text, charPosition)`: the byte length of the first `charPosition`
      characters; `substring` clamps a position past the end to the end. */
  function BytePosition(text: string, charPosition: nat): nat
  {
    ByteLen(text[..if charPosition <= |text| then charPosition else |text|])
  }

  lemma BytePositionMonotone(text: string, j: nat, k: nat)
    requires j <= k
    ensures BytePosition(text, j) <= BytePosition(text, k)
  {
    var j' := if j <= |text| then j else |text|;
    var k' := if k <= |text| then k else |text|;
    assert text[..k'] == text[..j'] + text[j'..k'];
    ByteLenAppend(text[..j'], text[j'..k']);
  }

  lemma BytePositionAtEnd(text: string, k: nat)
    requires |text| <= k
    ensures BytePosition(text, k) == ByteLen(text)
  {
    assert text[..|text|] == text;
  }

  /** Strictly more characters mean strictly more bytes. */
  lemma BytePositionStrict(text: string, j: nat, k: nat)
    requires j < k <= |text|
    ensures BytePosition(text, j) < BytePosition(text, k)
  {
    assert text[..k] == text[..j] + text[j..k];
    ByteLenAppend(text[..j], text[j..k]);
  }

  /** The byte span of the slice `text[j..k]` sits inside the byte length of `text`. */
  lemma ByteLenSlice(text: string, j: nat, k: nat)
    requires j <= k <= |text|
    ensures BytePosition(text, k) == BytePosition(text, j) + ByteLen(text[j..k])
    ensures BytePosition(text, k) <= ByteLen(text)
  {
    assert text[..k] == text[..j] + text[j..k];
    ByteLenAppend(text[..j], text[j..k]);
    assert text == text[..k] + text[k..];
    ByteLenAppend(text[..k], text[k..]);
  }
}
