/** Timestamp identifiers: `toBase32Sortable` and `generateTID`. The wall clock and the
    random clock identifier are parameters. */
module Tid {
  import opened JsString

  /** BASE32_SORTABLE: digit d is Alphabet[d]; the characters ascend in code-point order. */
  const Alphabet: string := "234567abcdefghijklmnopqrstuvwxyz"
  const TidWidth: nat := 13

  function Pow32(k: nat): (p: nat)
    ensures p >= 1
  {
    if k == 0 then 1 else 32 * Pow32(k - 1)
  }

  /** The base-32 digits of n, most significant first, without padding ("" for 0). */
  function Digits(n: nat): (s: string)
    decreases n
  {
    if n == 0 then "" else Digits(n / 32) + [Alphabet[n % 32]]
  }

  /** The value `toBase32Sortable(n)` returns. */
  function Encode(n: nat): string
  {
    if n == 0 then "2222222222222" else PadStart(Digits(n), TidWidth, '2')
  }

  /** `toBase32Sortable`: the source's digit loop. */
  method ToBase32Sortable(num: nat) returns (s: string)
    ensures s == Encode(num)
  {
    if num == 0 {
      return "2222222222222";
    }
    var result := "";
    var n := num;
    while n > 0
      invariant Digits(num) == Digits(n) + result
      decreases n
    {
      result := [Alphabet[n % 32]] + result;
      n := n / 32;
    }
    s := PadStart(result, TidWidth, '2');
  }

  /** `(microseconds << 10n) | BigInt(clockId)`: the clock identifier fills the ten low
      bits, which the shift left at zero, so the bitwise or adds it. */
  function TidValue(nowMs: nat, clockId: nat): nat
    requires clockId < 1024
  {
    nowMs * 1000 * 1024 + clockId
  }

  /** `generateTID` with `Date.now()` and `generateClockId()` passed in. */
  method GenerateTid(nowMs: nat, clockId: nat) returns (tid: string)
    requires clockId < 1024
    ensures tid == Encode(TidValue(nowMs, clockId))
  {
    var nowMicroseconds := nowMs * 1000;
    var tidValue := nowMicroseconds * 1024 + clockId;
    tid := ToBase32Sortable(tidValue);
  }

  // ----- decoding and its properties -----

  predicate IsDigitChar(c: char) {
    ('2' <= c <= '7') || ('a' <= c <= 'z')
  }

  predicate InAlphabet(s: string) {
    forall k :: 0 <= k < |s| ==> IsDigitChar(s[k])
  }

  /** Digit d of the alphabet: '2'..'7' are 0..5 and 'a'..'z' are 6..31. */
  lemma AlphabetAt(d: nat)
    requires d < 32
    ensures Alphabet[d] == if d < 6 then ('2' as int + d) as char else ('a' as int + d - 6) as char
  {
  }

  /** Position of a digit character in the alphabet. */
  function DigitValue(c: char): (d: nat)
    requires IsDigitChar(c)
    ensures d < 32
  {
    if c <= '7' then c as int - '2' as int else c as int - 'a' as int + 6
  }

  lemma DigitValueInverse(c: char)
    requires IsDigitChar(c)
    ensures Alphabet[DigitValue(c)] == c
  {
    AlphabetAt(DigitValue(c));
  }

  /** The number a string of digits denotes, most significant first. */
  function Decode(s: string): nat
    requires InAlphabet(s)
  {
    if s == [] then 0 else Decode(s[..|s| - 1]) * 32 + DigitValue(s[|s| - 1])
  }

  /** The alphabet ascends, so comparing digit characters compares digit values. */
  lemma DigitOrder(c: char, e: char)
    requires IsDigitChar(c) && IsDigitChar(e)
    ensures c < e <==> DigitValue(c) < DigitValue(e)
  {
  }

  lemma {:induction false} DigitsDecode(n: nat)
    ensures InAlphabet(Digits(n)) && Decode(Digits(n)) == n
    decreases n
  {
    if n > 0 {
      DigitsDecode(n / 32);
      var s := Digits(n);
      AlphabetAt(n % 32);
      assert s[..|s| - 1] == Digits(n / 32);
      assert s[|s| - 1] == Alphabet[n % 32];
    }
  }

  /** The unpadded digit string has at most k digits exactly when n < 32^k. */
  lemma {:induction false} DigitsLength(n: nat, k: nat)
    ensures |Digits(n)| <= k <==> n < Pow32(k)
    decreases n
  {
    if n > 0 && k > 0 {
      DigitsLength(n / 32, k - 1);
    }
  }

  lemma {:induction false} DecodeAppend(a: string, b: string)
    requires InAlphabet(a) && InAlphabet(b)
    ensures InAlphabet(a + b)
    ensures Decode(a + b) == Decode(a) * Pow32(|b|) + Decode(b)
    decreases |b|
  {
    assert InAlphabet(a + b);
    if b == [] {
      assert a + b == a;
    } else {
      var b' := b[..|b| - 1];
      var last := DigitValue(b[|b| - 1]);
      assert (a + b)[..|a + b| - 1] == a + b';
      assert (a + b)[|a + b| - 1] == b[|b| - 1];
      DecodeAppend(a, b');
      ShiftDigit(Decode(a), Pow32(|b'|), Decode(b'), last);
    }
  }

  lemma ShiftDigit(x: int, p: int, y: int, last: int)
    ensures (x * p + y) * 32 + last == x * (p * 32) + (y * 32 + last)
  {
  }

  lemma {:induction false} DecodeZeros(n: nat)
    ensures InAlphabet(Repeat('2', n)) && Decode(Repeat('2', n)) == 0
  {
    if n > 0 {
      assert Repeat('2', n)[..n - 1] == Repeat('2', n - 1);
      DecodeZeros(n - 1);
      AlphabetAt(0);
    }
  }

  /** Decoding inverts `toBase32Sortable` for every natural number: padding adds only
      zero digits. */
  lemma DecodeEncode(n: nat)
    ensures InAlphabet(Encode(n)) && Decode(Encode(n)) == n
  {
    if n > 0 {
      var d := Digits(n);
      DigitsDecode(n);
      var pad := Repeat('2', |PadStart(d, TidWidth, '2')| - |d|);
      DecodeZeros(|pad|);
      assert Encode(n) == pad + d;
      DecodeAppend(pad, d);
    } else {
      ZeroIsPadding();
      DecodeZeros(TidWidth);
    }
  }

  /** The literal the source returns for 0 is the all-zero-digit padding. */
  lemma ZeroIsPadding()
    ensures Encode(0) == Repeat('2', TidWidth)
  {
    var z := Repeat('2', TidWidth);
    assert |z| == 13;
    assert forall k :: 0 <= k < 13 ==> z[k] == '2';
  }

  /** Below 32^13 the identifier has exactly 13 characters, all from the alphabet. */
  lemma EncodeLength(n: nat)
    requires n < Pow32(TidWidth)
    ensures |Encode(n)| == TidWidth && InAlphabet(Encode(n))
  {
    DigitsLength(n, TidWidth);
    DecodeEncode(n);
  }

  lemma {:induction false} DecodeBound(s: string)
    requires InAlphabet(s)
    ensures Decode(s) < Pow32(|s|)
    decreases |s|
  {
    if s != [] {
      var s' := s[..|s| - 1];
      DecodeBound(s');
      var d := DigitValue(s[|s| - 1]);
      assert Decode(s) <= (Pow32(|s'|) - 1) * 32 + 31;
    }
  }

  /** Decoding a string by its first digit. */
  lemma DecodeFirst(s: string)
    requires InAlphabet(s) && s != []
    ensures Decode(s) == DigitValue(s[0]) * Pow32(|s| - 1) + Decode(s[1..])
  {
    var head, tail := [s[0]], s[1..];
    DecodeAppend(head, tail);
    assert head + tail == s;
    var x := Decode(head);
    assert x == DigitValue(s[0]) by {
      assert head[..0] == [];
    }
    calc {
      Decode(s);
      Decode(head + tail);
      x * Pow32(|tail|) + Decode(tail);
    }
  }

  lemma MulAtLeast(d: int, m: int)
    requires d >= 0 && m >= 1
    ensures d * m >= d
  {
    var e := m - 1;
    assert d * m == d * e + d;
  }

  lemma LeadingDigitDominates(da: nat, db: nat, p: nat, ra: nat, rb: nat)
    requires da < db && ra < p
    ensures da * p + ra < db * p + rb
  {
    var g := db - da;
    assert db * p == da * p + g * p;
    MulAtLeast(p, g);
    assert g * p == p * g;
  }

  /** For digit strings of one length, string order is numeric order. */
  lemma {:induction false} DecodeOrder(a: string, b: string)
    requires InAlphabet(a) && InAlphabet(b) && |a| == |b|
    ensures LexLess(a, b) <==> Decode(a) < Decode(b)
    decreases |a|
  {
    if a != [] {
      DecodeFirst(a);
      DecodeFirst(b);
      var p := Pow32(|a| - 1);
      DecodeBound(a[1..]);
      DecodeBound(b[1..]);
      var da, db := DigitValue(a[0]), DigitValue(b[0]);
      DigitOrder(a[0], b[0]);
      if a[0] == b[0] {
        DecodeOrder(a[1..], b[1..]);
      } else if da < db {
        LeadingDigitDominates(da, db, p, Decode(a[1..]), Decode(b[1..]));
      } else {
        LeadingDigitDominates(db, da, p, Decode(b[1..]), Decode(a[1..]));
      }
    }
  }

  /** Identifiers below 32^13 sort as their values: `a < b` exactly when
      `toBase32Sortable(a) < toBase32Sortable(b)` as strings. */
  lemma EncodeOrder(a: nat, b: nat)
    requires a < Pow32(TidWidth) && b < Pow32(TidWidth)
    ensures a < b <==> LexLess(Encode(a), Encode(b))
  {
    EncodeLength(a);
    EncodeLength(b);
    DecodeEncode(a);
    DecodeEncode(b);
    DecodeOrder(Encode(a), Encode(b));
  }

  lemma DivUnique(n: int, d: int, q: int, r: int)
    requires d > 0 && n == d * q + r && 0 <= r < d
    ensures n / d == q && n % d == r
  {
    var q', r' := n / d, n % d;
    assert n == d * q' + r';
    if q' < q {
      var g := q - q';
      assert d * q == d * q' + d * g;
      MulAtLeast(d, g);
      assert false;
    } else if q' > q {
      var g := q' - q;
      assert d * q' == d * q + d * g;
      MulAtLeast(d, g);
      assert false;
    }
  }

  /** The clock identifier is the ten low bits of the identifier's value and the
      microsecond timestamp is the rest. */
  lemma TidBits(nowMs: nat, clockId: nat)
    requires clockId < 1024
    ensures TidValue(nowMs, clockId) % 1024 == clockId
    ensures TidValue(nowMs, clockId) / 1024 == nowMs * 1000
  {
    DivUnique(TidValue(nowMs, clockId), 1024, nowMs * 1000, clockId);
  }

  /** A strictly later millisecond gives a strictly greater identifier, whatever the
      two clock identifiers; within one millisecond the clock identifiers decide. */
  lemma TidOrder(ms1: nat, clock1: nat, ms2: nat, clock2: nat)
    requires clock1 < 1024 && clock2 < 1024
    requires TidValue(ms1, clock1) < Pow32(TidWidth) && TidValue(ms2, clock2) < Pow32(TidWidth)
    ensures ms1 < ms2 ==> LexLess(Encode(TidValue(ms1, clock1)), Encode(TidValue(ms2, clock2)))
    ensures ms1 == ms2 ==> (clock1 < clock2 <==> LexLess(Encode(TidValue(ms1, clock1)), Encode(TidValue(ms2, clock2))))
  {
    EncodeOrder(TidValue(ms1, clock1), TidValue(ms2, clock2));
    if ms1 < ms2 {
      LeadingDigitDominates(ms1 * 1000, ms2 * 1000, 1024, clock1, clock2);
    }
  }

  lemma DivDiv(n: nat, p: nat)
    requires p > 0
    ensures n / 32 / p == n / (32 * p)
  {
    var q, r := n / 32, n % 32;
    var q2, r2 := q / p, q % p;
    assert n == (32 * p) * q2 + (32 * r2 + r);
    DivUnique(n, 32 * p, q2, 32 * r2 + r);
  }

  /** Digit k from the right of the unpadded digits is the k-th base-32 digit of n. */
  lemma {:induction false} DigitsAt(n: nat, k: nat)
    requires k < |Digits(n)|
    ensures Digits(n)[|Digits(n)| - 1 - k] == Alphabet[n / Pow32(k) % 32]
    decreases n
  {
    var s := Digits(n);
    assert s == Digits(n / 32) + [Alphabet[n % 32]];
    if k > 0 {
      DigitsAt(n / 32, k - 1);
      DivDiv(n, Pow32(k - 1));
    }
  }

  /** `toBase32Sortable` writes the digits of n most significant first, each digit d as
      BASE32_SORTABLE[d], and pads on the left with the zero digit '2'. */
  lemma EncodeDigitAt(n: nat, k: nat)
    requires n < Pow32(TidWidth) && k < TidWidth
    ensures |Encode(n)| == TidWidth
    ensures Encode(n)[TidWidth - 1 - k] == Alphabet[n / Pow32(k) % 32]
  {
    EncodeLength(n);
    var d := Digits(n);
    if n > 0 && k < |d| {
      DigitsAt(n, k);
      SignificantDigitAt(n, k);
    } else {
      PaddingDigitAt(n, k);
    }
  }

  /** Right of the padding, the identifier is the significant digits. */
  lemma SignificantDigitAt(n: nat, k: nat)
    requires 0 < n < Pow32(TidWidth) && k < |Digits(n)|
    ensures |Encode(n)| == TidWidth && |Digits(n)| <= TidWidth
    ensures Encode(n)[TidWidth - 1 - k] == Digits(n)[|Digits(n)| - 1 - k]
  {
    DigitsLength(n, TidWidth);
    var d := Digits(n);
    var e := PadStart(d, TidWidth, '2');
    assert Encode(n) == e && |e| == TidWidth;
    var pad := Repeat('2', TidWidth - |d|);
    assert e == pad + d;
    ConcatRight(pad, d, TidWidth - 1 - k);
  }

  lemma ConcatRight(a: string, b: string, i: nat)
    requires |a| <= i < |a| + |b|
    ensures (a + b)[i] == b[i - |a|]
  {
  }

  /** Positions left of the significant digits hold the zero digit. */
  lemma PaddingDigitAt(n: nat, k: nat)
    requires n < Pow32(TidWidth) && k < TidWidth
    requires n == 0 || k >= |Digits(n)|
    ensures |Encode(n)| == TidWidth
    ensures Encode(n)[TidWidth - 1 - k] == Alphabet[n / Pow32(k) % 32]
  {
    EncodeLength(n);
    DigitsLength(n, k);
    DivUnique(n, Pow32(k), 0, n);
    AlphabetAt(0);
    if n == 0 {
      ZeroIsPadding();
    } else {
      var d := Digits(n);
      assert Encode(n) == Repeat('2', TidWidth - |d|) + d;
    }
  }
}
