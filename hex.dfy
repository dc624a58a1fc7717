/**
 * Hexadecimal text as Node.js produces it: `Number.prototype.toString(16)` for
 * the clock value in identifiers, and `Buffer.prototype.toString('hex')` for the
 * random salt and the derived key. Both use lower-case digits.
 */
module Hex {

  type byte = x: int | 0 <= x < 256

  const Digits: string := "0123456789abcdef"

  predicate IsLowerHexDigit(c: char) {
    ('0' <= c <= '9') || ('a' <= c <= 'f')
  }

  function Digit(d: nat): (c: char)
    requires d < 16
    ensures IsLowerHexDigit(c)
  {
    Digits[d]
  }

  function DigitValue(c: char): (d: nat)
    requires IsLowerHexDigit(c)
    ensures d < 16 && Digit(d) == c
  {
    if c <= '9' then c as int - '0' as int else c as int - 'a' as int + 10
  }

  /** `n.toString(16)`: the shortest lower-case hexadecimal numeral of `n`, never padded. */
  function ToHex(n: nat): (s: string)
    ensures |s| >= 1
    ensures forall i :: 0 <= i < |s| ==> IsLowerHexDigit(s[i])
    decreases n
  {
    if n < 16 then [Digit(n)] else ToHex(n / 16) + [Digit(n % 16)]
  }

  /** The value of a lower-case hexadecimal numeral: the partner of `ToHex`. */
  function FromHex(s: string): nat
    requires forall i :: 0 <= i < |s| ==> IsLowerHexDigit(s[i])
  {
    if s == [] then 0 else FromHex(s[..|s| - 1]) * 16 + DigitValue(s[|s| - 1])
  }

  lemma DigitInjective(d: nat, e: nat)
    requires d < 16 && e < 16 && Digit(d) == Digit(e)
    ensures d == e
  {
  }

  /** Reading back the numeral of `n` gives `n`. */
  lemma {:induction false} FromHexToHex(n: nat)
    ensures FromHex(ToHex(n)) == n
  {
    var s := ToHex(n);
    if n < 16 {
      assert s[..0] == [];
      DigitInjective(DigitValue(Digit(n)), n);
    } else {
      FromHexToHex(n / 16);
      assert s[..|s| - 1] == ToHex(n / 16);
      DigitInjective(DigitValue(Digit(n % 16)), n % 16);
    }
  }

  function Pow16(k: nat): (p: nat)
    ensures p >= 1
  {
    if k == 0 then 1 else 16 * Pow16(k - 1)
  }

  lemma {:induction false} Pow16Monotone(j: nat, k: nat)
    requires j <= k
    ensures Pow16(j) <= Pow16(k)
  {
    if j < k {
      Pow16Monotone(j, k - 1);
    }
  }

  /** The numeral of `n` has `L` digits exactly when `16^(L-1) <= n < 16^L` (or `L == 1` and `n < 16`). */
  lemma {:induction false} ToHexLength(n: nat)
    ensures n < Pow16(|ToHex(n)|)
    ensures |ToHex(n)| > 1 ==> Pow16(|ToHex(n)| - 1) <= n
  {
    if n >= 16 {
      ToHexLength(n / 16);
    }
  }

  /** Eleven hexadecimal digits exactly for the values from 16^10 up to, not including, 16^11. */
  lemma {:induction false} ElevenDigits(n: nat)
    ensures |ToHex(n)| == 11 <==> Pow16(10) <= n < Pow16(11)
  {
    var len := |ToHex(n)|;
    ToHexLength(n);
    if Pow16(10) <= n < Pow16(11) {
      if len <= 10 {
        Pow16Monotone(len, 10);
      }
      if len >= 12 {
        Pow16Monotone(11, len - 1);
      }
    }
  }

  /** `Buffer.from(bs).toString('hex')`: two lower-case digits per byte, high nibble first. */
  function EncodeBytes(bs: seq<byte>): (s: string)
    ensures |s| == 2 * |bs|
    ensures forall i :: 0 <= i < |s| ==> IsLowerHexDigit(s[i])
  {
    if bs == [] then [] else [Digit(bs[0] / 16), Digit(bs[0] % 16)] + EncodeBytes(bs[1..])
  }

  /** The bytes a hex string spells: the partner of `EncodeBytes`. */
  function DecodeBytes(s: string): seq<byte>
    requires |s| % 2 == 0
    requires forall i :: 0 <= i < |s| ==> IsLowerHexDigit(s[i])
  {
    if s == [] then [] else [DigitValue(s[0]) * 16 + DigitValue(s[1])] + DecodeBytes(s[2..])
  }

  /** Decoding the hex text of a byte string gives the byte string back. */
  lemma {:induction false} DecodeEncodeBytes(bs: seq<byte>)
    ensures DecodeBytes(EncodeBytes(bs)) == bs
  {
    if bs != [] {
      var s := EncodeBytes(bs);
      DecodeEncodeBytes(bs[1..]);
      assert s[2..] == EncodeBytes(bs[1..]);
      DigitInjective(DigitValue(s[0]), bs[0] / 16);
      DigitInjective(DigitValue(s[1]), bs[0] % 16);
      assert [bs[0]] + bs[1..] == bs;
    }
  }

  /** Distinct byte strings have distinct hex text. */
  lemma EncodeBytesInjective(a: seq<byte>, b: seq<byte>)
    ensures EncodeBytes(a) == EncodeBytes(b) <==> a == b
  {
    if EncodeBytes(a) == EncodeBytes(b) {
      DecodeEncodeBytes(a);
      DecodeEncodeBytes(b);
    }
  }
}
