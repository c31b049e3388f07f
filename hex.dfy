/**
 * `MainActivity.byte2hex`: renders a byte array as upper-case hexadecimal text,
 * two digits per byte.
 */
module Hex {
  import opened Java

  /** `b & 0xFF`: the unsigned value of a Java byte, the one value in 0..255 congruent to it. */
  function Unsigned(b: JByte): (u: nat)
    ensures u < 256
    ensures (u - b as int) % 256 == 0
  {
    if b < 0 then b as int + 256 else b as int
  }

  /** The cast `(byte) u`: the Java byte whose unsigned value is `u`. */
  function Signed(u: nat): (b: JByte)
    requires u < 256
    ensures Unsigned(b) == u
  {
    if u < 128 then u as JByte else (u - 256) as JByte
  }

  lemma SignedUnsigned(b: JByte)
    ensures Signed(Unsigned(b)) == b
  {
  }

  /** The lower-case digit `Integer.toHexString` writes for `d`. */
  function LowerDigit(d: nat): char
    requires d < 16
  {
    if d < 10 then ('0' as int + d) as char else ('a' as int + d - 10) as char
  }

  /** The upper-case digit for `d`. */
  function UpperDigit(d: nat): char
    requires d < 16
  {
    if d < 10 then ('0' as int + d) as char else ('A' as int + d - 10) as char
  }

  predicate IsLowerHexDigit(c: char) {
    '0' <= c <= '9' || 'a' <= c <= 'f'
  }

  predicate IsUpperHexDigit(c: char) {
    '0' <= c <= '9' || 'A' <= c <= 'F'
  }

  /** The value of a lower-case hex digit (0 for any other character). */
  function LowerValue(c: char): nat {
    if '0' <= c <= '9' then c as int - '0' as int
    else if 'a' <= c <= 'f' then c as int - 'a' as int + 10
    else 0
  }

  /** The number a string of lower-case hex digits denotes, most significant digit first. */
  function LowerHexValue(s: string): nat {
    if s == [] then 0 else 16 * LowerHexValue(s[..|s| - 1]) + LowerValue(s[|s| - 1])
  }

  /**
   * `Integer.toHexString(n)` for a non-negative `n`: the lower-case hex digits of `n`,
   * without leading zeros ("0" for zero).
   */
  function ToHexString(n: nat): (s: string)
    ensures |s| >= 1
    ensures forall k :: 0 <= k < |s| ==> IsLowerHexDigit(s[k])
    ensures LowerHexValue(s) == n
    ensures s[0] == '0' <==> n == 0
    ensures |s| == 1 <==> n < 16
    decreases n
  {
    if n < 16 then [LowerDigit(n)]
    else
      var t := ToHexString(n / 16);
      assert (t + [LowerDigit(n % 16)])[..|t|] == t;
      t + [LowerDigit(n % 16)]
  }

  /** `Character.toUpperCase` restricted to ASCII: a-z become A-Z, every other character is kept. */
  function UpperAscii(c: char): char {
    if 'a' <= c <= 'z' then (c as int - 32) as char else c
  }

  /**
   * `String.toUpperCase()` on ASCII text. On hex text it keeps each digit's value:
   * a lower-case hex digit becomes the upper-case digit of the same value.
   */
  function ToUpper(s: string): (r: string)
    ensures |r| == |s|
    ensures forall i :: 0 <= i < |s| && IsLowerHexDigit(s[i]) ==>
      IsUpperHexDigit(r[i]) && HexDigitValue(r[i]) == LowerValue(s[i])
  {
    seq(|s|, i requires 0 <= i < |s| => UpperAscii(s[i]))
  }

  /** Upper-casing a concatenation upper-cases each part. */
  lemma ToUpperAppend(a: string, b: string)
    ensures ToUpper(a + b) == ToUpper(a) + ToUpper(b)
  {
  }

  /** The two upper-case digits of the unsigned value of `b`, high nibble first. */
  function HexPair(b: JByte): string {
    [UpperDigit(Unsigned(b) / 16), UpperDigit(Unsigned(b) % 16)]
  }

  /** What `byte2hex` promises: the hex pairs of the bytes, in order. */
  function Hex(bs: Bytes): string {
    if bs == [] then "" else Hex(bs[..|bs| - 1]) + HexPair(bs[|bs| - 1])
  }

  /** One loop step of `byte2hex`: `toHexString(u)`, zero-padded to two digits, upper-cased. */
  lemma PaddedDigits(b: JByte)
    ensures var s := ToHexString(Unsigned(b));
      (|s| == 1 ==> ToUpper("0" + s) == HexPair(b)) &&
      (|s| != 1 ==> ToUpper(s) == HexPair(b))
  {
    var u := Unsigned(b);
    if u >= 16 {
      assert ToHexString(u) == [LowerDigit(u / 16), LowerDigit(u % 16)];
    }
  }

  /**
   * `byte2hex(b)`: for each byte, `Integer.toHexString(b[i] & 0xFF)`, with a "0" in front
   * when that is a single digit, appended to an accumulator; the accumulator is upper-cased
   * at the end.
   */
  method Byte2Hex(b: Bytes) returns (s: string)
    ensures s == Hex(b)
  {
    var hs := "";
    for i := 0 to |b|
      invariant ToUpper(hs) == Hex(b[..i])
    {
      var stmp := ToHexString(Unsigned(b[i]));
      PaddedDigits(b[i]);
      ghost var step := if |stmp| == 1 then "0" + stmp else stmp;
      ToUpperAppend(hs, step);
      if |stmp| == 1 {
        hs := hs + ("0" + stmp);
      } else {
        hs := hs + stmp;
      }
      assert b[..i + 1][..i] == b[..i];
    }
    assert b[..|b|] == b;
    s := ToUpper(hs);
  }

  lemma {:induction false} HexLength(bs: Bytes)
    ensures |Hex(bs)| == 2 * |bs|
  {
    if bs != [] {
      HexLength(bs[..|bs| - 1]);
    }
  }

  /** Characters 2i and 2i+1 of the rendering are the two digits of byte i. */
  lemma {:induction false} HexAt(bs: Bytes, i: nat)
    requires i < |bs|
    ensures |Hex(bs)| == 2 * |bs|
    ensures Hex(bs)[2 * i] == UpperDigit(Unsigned(bs[i]) / 16)
    ensures Hex(bs)[2 * i + 1] == UpperDigit(Unsigned(bs[i]) % 16)
  {
    HexLength(bs);
    var init := bs[..|bs| - 1];
    HexLength(init);
    if i < |bs| - 1 {
      HexAt(init, i);
    }
  }

  /** Only the characters 0-9 and A-F occur in the rendering. */
  lemma HexAlphabet(bs: Bytes)
    ensures forall k :: 0 <= k < |Hex(bs)| ==> IsUpperHexDigit(Hex(bs)[k])
  {
    HexLength(bs);
    forall k | 0 <= k < |Hex(bs)|
      ensures IsUpperHexDigit(Hex(bs)[k])
    {
      HexAt(bs, k / 2);
    }
  }

  /** The value of an upper-case hex digit. */
  function HexDigitValue(c: char): (v: nat)
    requires IsUpperHexDigit(c)
    ensures v < 16
  {
    if c <= '9' then c as int - '0' as int else c as int - 'A' as int + 10
  }

  lemma HexDigitValueOf(d: nat)
    requires d < 16
    ensures IsUpperHexDigit(UpperDigit(d)) && HexDigitValue(UpperDigit(d)) == d
  {
  }

  /** Reads upper-case hex text back into bytes, two digits per byte; `None` for any other text. */
  function Unhex(s: string): (r: Option<Bytes>)
    ensures r.Some? ==> 2 * |r.value| == |s|
  {
    if |s| % 2 == 0 && forall k :: 0 <= k < |s| ==> IsUpperHexDigit(s[k]) then
      Some(seq(|s| / 2, i requires 0 <= i < |s| / 2 =>
        Signed(16 * HexDigitValue(s[2 * i]) + HexDigitValue(s[2 * i + 1]))))
    else None
  }

  /** A byte is recovered from its two digits. */
  lemma ByteFromDigits(b: JByte)
    ensures Signed(16 * (Unsigned(b) / 16) + Unsigned(b) % 16) == b
  {
    var u := Unsigned(b);
    assert 16 * (u / 16) + u % 16 == u;
    SignedUnsigned(b);
  }

  /** Text holding the two digits of each byte, in order, decodes to those bytes. */
  lemma UnhexDigits(h: string, bs: Bytes)
    requires |h| == 2 * |bs|
    requires forall i :: 0 <= i < |bs| ==>
      h[2 * i] == UpperDigit(Unsigned(bs[i]) / 16) && h[2 * i + 1] == UpperDigit(Unsigned(bs[i]) % 16)
    ensures Unhex(h) == Some(bs)
  {
    forall k | 0 <= k < |h|
      ensures IsUpperHexDigit(h[k])
    {
      var i := k / 2;
      assert k == 2 * i || k == 2 * i + 1;
      HexDigitValueOf(Unsigned(bs[i]) / 16);
      HexDigitValueOf(Unsigned(bs[i]) % 16);
    }
    var decoded := seq(|h| / 2, i requires 0 <= i < |h| / 2 =>
      Signed(16 * HexDigitValue(h[2 * i]) + HexDigitValue(h[2 * i + 1])));
    assert Unhex(h) == Some(decoded);
    forall i | 0 <= i < |bs|
      ensures decoded[i] == bs[i]
    {
      var u := Unsigned(bs[i]);
      HexDigitValueOf(u / 16);
      HexDigitValueOf(u % 16);
      ByteFromDigits(bs[i]);
    }
    assert decoded == bs;
  }

  /** Every rendering decodes back to the bytes it came from. */
  lemma UnhexHex(bs: Bytes)
    ensures Unhex(Hex(bs)) == Some(bs)
  {
    HexLength(bs);
    forall i | 0 <= i < |bs|
      ensures Hex(bs)[2 * i] == UpperDigit(Unsigned(bs[i]) / 16)
      ensures Hex(bs)[2 * i + 1] == UpperDigit(Unsigned(bs[i]) % 16)
    {
      HexAt(bs, i);
    }
    UnhexDigits(Hex(bs), bs);
  }

  /** Distinct byte arrays render to distinct strings. */
  lemma HexInjective(a: Bytes, b: Bytes)
    requires Hex(a) == Hex(b)
    ensures a == b
  {
    UnhexHex(a);
    UnhexHex(b);
  }
}
