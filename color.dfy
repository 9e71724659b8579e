/** `hexToRgb`: `/^#?([a-f\d]{2})([a-f\d]{2})([a-f\d]{2})$/i` and `parseInt(pair, 16)`. */
module Color {
  import opened Wrappers

  datatype Rgb = Rgb(r: nat, g: nat, b: nat)

  /** `[a-f\d]` under the `i` flag: `\d` is ASCII 0-9 only, and case folding adds A-F. */
  predicate IsHexDigit(c: char) {
    ('0' <= c <= '9') || ('a' <= c <= 'f') || ('A' <= c <= 'F')
  }

  predicate AllHex(s: string) {
    forall k :: 0 <= k < |s| ==> IsHexDigit(s[k])
  }

  function HexValue(c: char): (v: nat)
    requires IsHexDigit(c)
    ensures v < 16
  {
    if c <= '9' then c as int - '0' as int
    else if c <= 'F' then c as int - 'A' as int + 10
    else c as int - 'a' as int + 10
  }

  /** `parseInt(pair, 16)` of two hex digits. */
  function PairValue(s: string, i: nat): (v: nat)
    requires i + 1 < |s| && IsHexDigit(s[i]) && IsHexDigit(s[i + 1])
    ensures v <= 255
  {
    16 * HexValue(s[i]) + HexValue(s[i + 1])
  }

  /** `$` without the `m` flag anchors at the very end, so the digits are the whole rest. */
  function HexToRgb(hex: string): (r: Option<Rgb>)
  {
    var digits := if |hex| > 0 && hex[0] == '#' then hex[1..] else hex;
    if |digits| == 6 && AllHex(digits) then
      Some(Rgb(PairValue(digits, 0), PairValue(digits, 2), PairValue(digits, 4)))
    else None
  }

  /** A colour is parsed exactly when the input is an optional '#' and six hex digits of
      either case; the channels are then the three two-digit pairs, each at most 255. */
  lemma HexToRgbAccepts(hex: string)
    ensures HexToRgb(hex).Some? <==>
      (|hex| == 6 && AllHex(hex)) || (|hex| == 7 && hex[0] == '#' && AllHex(hex[1..]))
    ensures HexToRgb(hex).Some? ==>
      var o := |hex| - 6;
      var c := HexToRgb(hex).value;
      c.r == 16 * HexValue(hex[o]) + HexValue(hex[o + 1]) && c.r <= 255
      && c.g == 16 * HexValue(hex[o + 2]) + HexValue(hex[o + 3]) && c.g <= 255
      && c.b == 16 * HexValue(hex[o + 4]) + HexValue(hex[o + 5]) && c.b <= 255
  {
    if |hex| == 6 && AllHex(hex) {
      assert hex[0] != '#';
    }
  }

  /** The '#' is optional: with and without it the same colour (or none) results. */
  lemma HashIsOptional(s: string)
    requires s == [] || s[0] != '#'
    ensures HexToRgb("#" + s) == HexToRgb(s)
  {
    assert ("#" + s)[1..] == s;
  }

  /** Lower-case hex digit of a value below 16. */
  function HexChar(v: nat): (c: char)
    requires v < 16
    ensures IsHexDigit(c) && HexValue(c) == v
  {
    "0123456789abcdef"[v]
  }

  /** Six-digit lower-case form of a colour, the inverse of `HexToRgb`. */
  function ToHex(c: Rgb): (s: string)
    requires c.r <= 255 && c.g <= 255 && c.b <= 255
    ensures |s| == 6 && AllHex(s)
  {
    [HexChar(c.r / 16), HexChar(c.r % 16), HexChar(c.g / 16), HexChar(c.g % 16),
     HexChar(c.b / 16), HexChar(c.b % 16)]
  }

  /** Every colour with channels in 0..255 survives formatting and parsing, with or
      without the leading '#'. */
  lemma HexToRgbRoundTrip(c: Rgb)
    requires c.r <= 255 && c.g <= 255 && c.b <= 255
    ensures HexToRgb(ToHex(c)) == Some(c)
    ensures HexToRgb("#" + ToHex(c)) == Some(c)
  {
    var s := ToHex(c);
    ChannelRoundTrip(c.r);
    ChannelRoundTrip(c.g);
    ChannelRoundTrip(c.b);
    assert s[0] != '#';
    assert PairValue(s, 0) == c.r && PairValue(s, 2) == c.g && PairValue(s, 4) == c.b;
    HashIsOptional(s);
  }

  /** One channel: its two digits read back as the channel. */
  lemma ChannelRoundTrip(v: nat)
    requires v <= 255
    ensures 16 * HexValue(HexChar(v / 16)) + HexValue(HexChar(v % 16)) == v
  {
  }
}
