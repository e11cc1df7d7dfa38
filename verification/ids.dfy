/** 128-bit identifiers and their canonical text form, as `java.util.UUID`
    prints them: 32 lower-case hex digits grouped 8-4-4-4-12. */
module Ids {

  /** 2^128 = 16^32: one hex digit per four bits, 32 of them. */
  const UuidBound: int := 0x1_0000_0000_0000_0000_0000_0000_0000_0000

  newtype Uuid = x: int | 0 <= x < UuidBound

  function Pow16(n: nat): (p: nat)
    ensures p >= 1
  {
    if n == 0 then 1 else 16 * Pow16(n - 1)
  }

  lemma {:induction false} Pow16Add(m: nat, n: nat)
    ensures Pow16(m + n) == Pow16(m) * Pow16(n)
  {
    if n > 0 {
      Pow16Add(m, n - 1);
    }
  }

  lemma Pow16Of32()
    ensures Pow16(32) == UuidBound
  {
    assert Pow16(8) == 0x1_0000_0000;
    Pow16Add(8, 8);
    Pow16Add(16, 16);
  }

  const HexAlphabet: string := "0123456789abcdef"

  predicate IsHexDigit(c: char) {
    c in HexAlphabet
  }

  function DigitValue(c: char): (d: nat)
    requires IsHexDigit(c)
    ensures d < 16 && HexAlphabet[d] == c
  {
    if '0' <= c <= '9' then (c - '0') as nat else (c - 'a') as nat + 10
  }

  /** The `n` lowest hex digits of `x`, most significant first. */
  function Hex(x: nat, n: nat): (s: string)
    requires x < Pow16(n)
    ensures |s| == n
    ensures forall i :: 0 <= i < |s| ==> IsHexDigit(s[i])
  {
    if n == 0 then []
    else Hex(x / 16, n - 1) + [HexAlphabet[x % 16]]
  }

  /** Reads a string of hex digits back as a number. */
  function ParseHex(s: string): nat
    requires forall i :: 0 <= i < |s| ==> IsHexDigit(s[i])
  {
    if s == [] then 0 else ParseHex(s[..|s| - 1]) * 16 + DigitValue(s[|s| - 1])
  }

  lemma {:induction false} ParseHexOfHex(x: nat, n: nat)
    requires x < Pow16(n)
    ensures ParseHex(Hex(x, n)) == x
  {
    if n > 0 {
      var h := Hex(x, n);
      assert h[..|h| - 1] == Hex(x / 16, n - 1);
      ParseHexOfHex(x / 16, n - 1);
      assert DigitValue(h[|h| - 1]) == x % 16;
    }
  }

  /** `UUID.toString()`. */
  function UuidText(u: Uuid): (s: string)
    ensures |s| == 36
    ensures s[8] == '-' && s[13] == '-' && s[18] == '-' && s[23] == '-'
  {
    Pow16Of32();
    var h := Hex(u as nat, 32);
    var s := h[..8] + "-" + h[8..12] + "-" + h[12..16] + "-" + h[16..20] + "-" + h[20..];
    assert |h[..8]| == 8 && |h[8..12]| == 4 && |h[12..16]| == 4 && |h[16..20]| == 4 && |h[20..]| == 12;
    assert s[8] == '-' && s[13] == '-' && s[18] == '-' && s[23] == '-';
    s
  }

  /** The 32 digits of a canonical text, dashes removed. */
  function DigitsOf(s: string): string
    requires |s| == 36
  {
    s[..8] + s[9..13] + s[14..18] + s[19..23] + s[24..]
  }

  lemma DigitsOfText(u: Uuid)
    ensures u as nat < Pow16(32) && DigitsOf(UuidText(u)) == Hex(u as nat, 32)
  {
    Pow16Of32();
    var h := Hex(u as nat, 32);
    var s := UuidText(u);
    assert s[..8] == h[..8];
    assert s[9..13] == h[8..12];
    assert s[14..18] == h[12..16];
    assert s[19..23] == h[16..20];
    assert s[24..] == h[20..];
    assert h == h[..8] + h[8..12] + h[12..16] + h[16..20] + h[20..];
  }

  /** Distinct identifiers print differently, so a read model that renders
      ids as text loses nothing. */
  lemma UuidTextInjective(a: Uuid, b: Uuid)
    ensures UuidText(a) == UuidText(b) <==> a == b
  {
    Pow16Of32();
    if UuidText(a) == UuidText(b) {
      DigitsOfText(a);
      DigitsOfText(b);
      ParseHexOfHex(a as nat, 32);
      ParseHexOfHex(b as nat, 32);
    }
  }
}
