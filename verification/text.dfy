/** Character-level helpers shared by the client views and the seeding code:
    decimal rendering of integers (what JavaScript's string conversion and
    `toFixed` produce for integers), ASCII lower-casing, substring search
    (`String.prototype.includes`) and lower-case hexadecimal encoding
    (`Buffer.toString("hex")`). */
module Text {
  import opened Wrappers

  // ---------------------------------------------------------------- decimal

  predicate IsDigit(c: char) { '0' <= c <= '9' }

  predicate AllDigits(s: string) { forall i :: 0 <= i < |s| ==> IsDigit(s[i]) }

  function DigitChar(d: nat): (c: char)
    requires d < 10
    ensures IsDigit(c) && (c as int) - ('0' as int) == d
  {
    "0123456789"[d]
  }

  /** Decimal digits of `n`, most significant first, without leading zeros. */
  function NatToString(n: nat): (s: string)
    ensures |s| >= 1 && AllDigits(s)
    ensures s[0] == '0' ==> n == 0
    decreases n
  {
    if n < 10 then [DigitChar(n)] else NatToString(n / 10) + [DigitChar(n % 10)]
  }

  /** The number a string of decimal digits denotes. */
  function DigitsValue(s: string): nat
    requires AllDigits(s)
  {
    if s == [] then 0 else DigitsValue(s[..|s| - 1]) * 10 + ((s[|s| - 1] as int) - ('0' as int))
  }

  /** Reading back the digits of a number gives the number. */
  lemma {:induction false} NatToStringRoundTrip(n: nat)
    ensures DigitsValue(NatToString(n)) == n
  {
    if n >= 10 {
      var s := NatToString(n / 10);
      var t := s + [DigitChar(n % 10)];
      assert t[..|t| - 1] == s;
      NatToStringRoundTrip(n / 10);
    }
  }

  /** `String(i)` for an integer: a minus sign, then the digits of |i|. */
  function IntToString(i: int): (s: string)
    ensures i < 0 ==> s == "-" + NatToString(-i)
    ensures i >= 0 ==> s == NatToString(i) && IsDigit(s[0])
  {
    if i < 0 then "-" + NatToString(-i) else NatToString(i)
  }

  // ------------------------------------------------------------- lower case

  /** ASCII part of `toLowerCase`: 'A'..'Z' become 'a'..'z', the rest is kept. */
  function LowerChar(c: char): char
  {
    if 'A' <= c <= 'Z' then (c as int + 32) as char else c
  }

  function Lower(s: string): (r: string)
    ensures |r| == |s|
    ensures forall i :: 0 <= i < |s| ==> r[i] == LowerChar(s[i])
  {
    if s == [] then [] else [LowerChar(s[0])] + Lower(s[1..])
  }

  /** Lower-casing twice is lower-casing once. */
  lemma LowerIdempotent(s: string)
    ensures Lower(Lower(s)) == Lower(s)
  {
    assert forall i :: 0 <= i < |s| ==> Lower(Lower(s))[i] == Lower(s)[i];
  }

  // -------------------------------------------------------------- substring

  predicate OccursAt(hay: string, needle: string, k: nat)
  {
    k + |needle| <= |hay| && hay[k..k + |needle|] == needle
  }

  /** `hay.includes(needle)`. */
  predicate Contains(hay: string, needle: string)
  {
    exists k: nat :: k <= |hay| && OccursAt(hay, needle, k)
  }

  /** Every string includes the empty string. */
  lemma ContainsEmpty(hay: string)
    ensures Contains(hay, "")
  {
    assert OccursAt(hay, "", 0);
  }

  // -------------------------------------------------------------------- hex

  newtype byte = b: int | 0 <= b < 256

  predicate IsHexDigit(c: char) { '0' <= c <= '9' || 'a' <= c <= 'f' }

  function HexDigit(d: nat): (c: char)
    requires d < 16
    ensures IsHexDigit(c)
  {
    "0123456789abcdef"[d]
  }

  function HexValue(c: char): (d: nat)
    requires IsHexDigit(c)
    ensures d < 16
  {
    if c <= '9' then (c as int) - ('0' as int) else (c as int) - ('a' as int) + 10
  }

  /** Two lower-case hex digits per byte, high nibble first. */
  function Hex(bs: seq<byte>): (s: string)
    ensures |s| == 2 * |bs|
    ensures forall i :: 0 <= i < |s| ==> IsHexDigit(s[i])
  {
    seq(2 * |bs|, i requires 0 <= i < 2 * |bs| => HexDigit(Nibble(bs[i / 2], i % 2)))
  }

  /** The high (0) or low (1) half of a byte. */
  function Nibble(b: byte, half: nat): (d: nat)
    requires half < 2
    ensures d < 16
  {
    if half == 0 then b as int / 16 else b as int % 16
  }

  /** Inverse of `Hex` on strings of even length made of hex digits. */
  function UnHex(s: string): seq<byte>
    requires |s| % 2 == 0
    requires forall i :: 0 <= i < |s| ==> IsHexDigit(s[i])
  {
    if s == [] then [] else [(HexValue(s[0]) * 16 + HexValue(s[1])) as byte] + UnHex(s[2..])
  }

  lemma HexDigitValue(d: nat)
    requires d < 16
    ensures HexValue(HexDigit(d)) == d
  {
  }

  /** Decoding the hex text of some bytes gives the bytes back. */
  lemma {:induction false} HexRoundTrip(bs: seq<byte>)
    ensures UnHex(Hex(bs)) == bs
  {
    if bs != [] {
      EvenDouble(|bs|);
      EvenDouble(|bs| - 1);
      HexHead(bs);
      HexTail(bs);
      HexRoundTrip(bs[1..]);
      UnHexStep(Hex(bs), Hex(bs[1..]), bs[0], bs[1..]);
      assert [bs[0]] + bs[1..] == bs;
    }
  }

  lemma EvenDouble(n: nat)
    ensures (2 * n) % 2 == 0
  {
  }

  /** Decoding reads the first two digits as one byte and decodes the rest. */
  lemma UnHexStep(s: string, t: string, b: byte, rest: seq<byte>)
    requires |s| >= 2 && |s| % 2 == 0 && forall i :: 0 <= i < |s| ==> IsHexDigit(s[i])
    requires |t| % 2 == 0 && forall i :: 0 <= i < |t| ==> IsHexDigit(t[i])
    requires s[2..] == t && UnHex(t) == rest
    requires HexValue(s[0]) * 16 + HexValue(s[1]) == b as int
    ensures UnHex(s) == [b] + rest
  {
  }

  /** The first two digits decode to the first byte. */
  lemma HexHead(bs: seq<byte>)
    requires bs != []
    ensures HexValue(Hex(bs)[0]) * 16 + HexValue(Hex(bs)[1]) == bs[0] as int
  {
    var h := Hex(bs);
    assert h[0] == HexDigit(Nibble(bs[0], 0)) && h[1] == HexDigit(Nibble(bs[0], 1));
    HexDigitValue(Nibble(bs[0], 0));
    HexDigitValue(Nibble(bs[0], 1));
  }

  /** Dropping the first byte drops its two digits. */
  lemma HexTail(bs: seq<byte>)
    requires bs != []
    ensures Hex(bs)[2..] == Hex(bs[1..])
  {
    var h, t := Hex(bs), Hex(bs[1..]);
    forall i | 0 <= i < |t|
      ensures h[i + 2] == t[i]
    {
      assert (i + 2) / 2 == i / 2 + 1 && (i + 2) % 2 == i % 2;
      assert bs[(i + 2) / 2] == bs[1..][i / 2];
    }
  }

  // ------------------------------------------------------------ toFixed(1)

  /** The tenths count `toFixed(1)` picks for the magnitude m / den: the n
      for which n / 10 is closest to m / den, the larger one on a tie. */
  function Tenths(m: nat, den: int): nat
    requires den > 0
  {
    (20 * m + den) / (2 * den)
  }

  /** Twice `den` times ten times the gap between k / 10 and m / den. */
  function Gap(k: nat, m: nat, den: int): nat
  {
    if k * (2 * den) >= 20 * m then k * (2 * den) - 20 * m else 20 * m - k * (2 * den)
  }

  lemma MulLe(a: int, b: int, c: nat)
    requires a <= b
    ensures a * c <= b * c
  {
    assert b * c - a * c == (b - a) * c;
  }

  lemma MulLt(a: int, b: int, c: int)
    requires c > 0 && a * c < b * c
    ensures a < b
  {
  }

  /** The quotient `Tenths` computes, multiplied back, brackets 20 m + den. */
  lemma TenthsBracket(m: nat, den: int)
    requires den > 0
    ensures Tenths(m, den) * (2 * den) <= 20 * m + den < Tenths(m, den) * (2 * den) + 2 * den
  {
  }

  /** No tenth is closer to m / den than the one `Tenths` picks, and a tenth
      just as close is a smaller one. */
  lemma TenthsNearest(m: nat, den: int, k: nat)
    requires den > 0
    ensures Gap(Tenths(m, den), m, den) <= Gap(k, m, den)
    ensures Gap(Tenths(m, den), m, den) == Gap(k, m, den) ==> k <= Tenths(m, den)
  {
    var n, d := Tenths(m, den), 2 * den;
    TenthsBracket(m, den);
    if k > n {
      MulLe(n + 1, k, d);
      assert (n + 1) * d == n * d + d;
    } else if k < n {
      MulLe(k + 1, n, d);
      assert (k + 1) * d == k * d + d;
    }
  }

  /** A whole number has no tenths to round. */
  lemma TenthsOfWhole(m: nat)
    ensures Tenths(m, 1) == 10 * m
  {
  }

  /** `x.toFixed(1)` for x = num / den: a minus sign when x is negative (so a
      small negative x gives "-0.0"), the whole part, a dot, one digit. */
  function ToFixed1(num: int, den: int): string
    requires den > 0
  {
    var n := Tenths(if num < 0 then -num else num, den);
    (if num < 0 then "-" else "") + NatToString(n / 10) + "." + [DigitChar(n % 10)]
  }

  /** `toFixed(1)` of a whole number: its digits and ".0". */
  lemma ToFixed1Whole(i: int)
    ensures ToFixed1(i, 1) == (if i < 0 then "-" else "") + NatToString(if i < 0 then -i else i) + ".0"
  {
    var m := if i < 0 then -i else i;
    TenthsOfWhole(m);
    assert (10 * m) / 10 == m && (10 * m) % 10 == 0;
    assert [DigitChar(0)] == "0";
  }

  /** A reading of `toFixed(1)` text: its sign and its number of tenths. */
  datatype Fixed = Fixed(negative: bool, tenths: nat)

  /** Reads an optional minus sign, decimal digits, a dot and one digit. */
  function ParseFixed1(s: string): Option<Fixed>
  {
    if |s| < 3 || s[|s| - 2] != '.' || !IsDigit(s[|s| - 1]) then None
    else
      var negative := s[0] == '-';
      var whole := if negative then s[1..|s| - 2] else s[..|s| - 2];
      if whole == [] || !AllDigits(whole) then None
      else Some(Fixed(negative, DigitsValue(whole) * 10 + ((s[|s| - 1] as int) - ('0' as int))))
  }

  /** An optional minus sign, digits, a dot and a digit read back as the
      sign and the number the digits make, in tenths. */
  lemma ParseParts(negative: bool, whole: string, d: char)
    requires whole != [] && AllDigits(whole) && IsDigit(d)
    ensures ParseFixed1((if negative then "-" else "") + whole + "." + [d])
            == Some(Fixed(negative, DigitsValue(whole) * 10 + ((d as int) - ('0' as int))))
  {
    if negative {
      ParseSigned(whole, d);
    } else {
      assert "" + whole + "." + [d] == whole + "." + [d];
      ParseUnsigned(whole, d);
    }
  }

  /** What `ParseFixed1` reads from a text, given its parts. */
  lemma ParseOf(s: string, negative: bool, whole: string, d: char)
    requires |s| >= 3 && s[|s| - 2] == '.' && s[|s| - 1] == d && IsDigit(d)
    requires s[0] == '-' <==> negative
    requires (if negative then s[1..|s| - 2] else s[..|s| - 2]) == whole
    requires whole != [] && AllDigits(whole)
    ensures ParseFixed1(s) == Some(Fixed(negative, DigitsValue(whole) * 10 + ((d as int) - ('0' as int))))
  {
  }

  lemma ParseUnsigned(whole: string, d: char)
    requires whole != [] && AllDigits(whole) && IsDigit(d)
    ensures ParseFixed1(whole + "." + [d]) == Some(Fixed(false, DigitsValue(whole) * 10 + ((d as int) - ('0' as int))))
  {
    var s := whole + "." + [d];
    assert s[0] == whole[0] && IsDigit(s[0]);
    assert s[..|s| - 2] == whole;
    ParseOf(s, false, whole, d);
  }

  lemma ParseSigned(whole: string, d: char)
    requires whole != [] && AllDigits(whole) && IsDigit(d)
    ensures ParseFixed1("-" + whole + "." + [d]) == Some(Fixed(true, DigitsValue(whole) * 10 + ((d as int) - ('0' as int))))
  {
    var s := "-" + whole + "." + [d];
    assert s[1..|s| - 2] == whole;
    ParseOf(s, true, whole, d);
  }

  /** A sign, the whole tenths, a dot and the last tenth read back as the
      sign and the tenths. */
  lemma FixedTextReads(negative: bool, n: nat)
    ensures ParseFixed1((if negative then "-" else "") + NatToString(n / 10) + "." + [DigitChar(n % 10)])
            == Some(Fixed(negative, n))
  {
    DigitsReadBack(negative, n / 10, n % 10, n);
  }

  lemma DigitsReadBack(negative: bool, q: nat, r: nat, n: nat)
    requires r < 10 && n == q * 10 + r
    ensures ParseFixed1((if negative then "-" else "") + NatToString(q) + "." + [DigitChar(r)])
            == Some(Fixed(negative, n))
  {
    ParseParts(negative, NatToString(q), DigitChar(r));
    NatToStringRoundTrip(q);
  }

  /** A whole number's digits followed by ".0" read back as that many tens
      of tenths. */
  lemma WholeReads(m: nat)
    ensures ParseFixed1(NatToString(m) + ".0") == Some(Fixed(false, 10 * m))
  {
    var digits := NatToString(m);
    ParseUnsigned(digits, '0');
    NatToStringRoundTrip(m);
    var value := DigitsValue(digits) * 10 + (('0' as int) - ('0' as int));
    assert value == 10 * m;
    assert digits + ".0" == digits + "." + ['0'];
  }

  /** Reading the text `toFixed(1)` produces gives back the sign of x and the
      nearest tenth of |x| (see `TenthsNearest`). */
  lemma ToFixed1Reads(num: int, den: int)
    requires den > 0
    ensures ParseFixed1(ToFixed1(num, den)) == Some(Fixed(num < 0, Tenths(if num < 0 then -num else num, den)))
  {
    FixedTextReads(num < 0, Tenths(if num < 0 then -num else num, den));
  }

  /** An average of values in [lo, hi] with lo >= 0 shows a tenths count in
      [10 lo, 10 hi]. */
  lemma TenthsWithin(m: nat, den: int, lo: nat, hi: nat)
    requires den > 0 && lo * den <= m <= hi * den
    ensures 10 * lo <= Tenths(m, den) <= 10 * hi
  {
    TenthsAbove(m, den, lo);
    TenthsBelow(m, den, hi);
  }

  lemma TenthsAbove(m: nat, den: int, lo: nat)
    requires den > 0 && lo * den <= m
    ensures 10 * lo <= Tenths(m, den)
  {
    var n, d := Tenths(m, den), 2 * den;
    TenthsBracket(m, den);
    assert 10 * lo * d == 20 * (lo * den);
    assert (n + 1) * d == n * d + d;
    MulLt(10 * lo, n + 1, d);
  }

  lemma TenthsBelow(m: nat, den: int, hi: nat)
    requires den > 0 && m <= hi * den
    ensures Tenths(m, den) <= 10 * hi
  {
    var n, d := Tenths(m, den), 2 * den;
    TenthsBracket(m, den);
    assert (10 * hi + 1) * d == 20 * (hi * den) + d;
    MulLt(n, 10 * hi + 1, d);
  }
}
