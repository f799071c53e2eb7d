/** QByteArray::toHex and QByteArray::fromHex, the hex text coding of the
    ASCII transmission mode. */
module Hex {
  import opened Bytes

  /** '0'..'9', 'A'..'F' and 'a'..'f'. */
  predicate IsHexDigit(ch: Byte) {
    0x30 <= ch <= 0x39 || 0x41 <= ch <= 0x46 || 0x61 <= ch <= 0x66
  }

  /** The digits toHex emits: '0'..'9' and lower-case 'a'..'f'. */
  predicate IsLowerHexDigit(ch: Byte) {
    0x30 <= ch <= 0x39 || 0x61 <= ch <= 0x66
  }

  /** The lower-case hex digit of a nibble. */
  function HexDigit(n: int): (ch: Byte)
    requires 0 <= n < 16
    ensures IsLowerHexDigit(ch)
  {
    if n < 10 then 0x30 + n else 0x57 + n
  }

  /** The value of a hex digit of either case. */
  function DigitValue(ch: Byte): (n: Byte)
    requires IsHexDigit(ch)
    ensures n < 16
  {
    if ch <= 0x39 then ch - 0x30
    else if ch <= 0x46 then ch - 0x37
    else ch - 0x57
  }

  lemma DigitValueOfHexDigit(n: int)
    requires 0 <= n < 16
    ensures DigitValue(HexDigit(n)) == n
  {
  }

  /** toHex: two lower-case digits per byte, high nibble first. */
  function ToHex(s: seq<Byte>): (h: seq<Byte>)
    ensures |h| == 2 * |s|
    ensures forall i :: 0 <= i < |h| ==> IsLowerHexDigit(h[i])
  {
    if s == [] then []
    else [HexDigit(s[0] / 16), HexDigit(s[0] % 16)] + ToHex(s[1..])
  }

  /** The values of the hex digits of `s`, in order; any other character is
      skipped. */
  function Nibbles(s: seq<Byte>): (ns: seq<Byte>)
    ensures |ns| <= |s|
    ensures forall i :: 0 <= i < |ns| ==> ns[i] < 16
  {
    if s == [] then []
    else if IsHexDigit(s[0]) then [DigitValue(s[0])] + Nibbles(s[1..])
    else Nibbles(s[1..])
  }

  /** Packs nibbles two by two, high nibble first. */
  function PackNibbles(ns: seq<Byte>): (r: seq<Byte>)
    requires |ns| % 2 == 0
    requires forall i :: 0 <= i < |ns| ==> ns[i] < 16
    ensures 2 * |r| == |ns|
  {
    if ns == [] then []
    else [ns[0] * 16 + ns[1]] + PackNibbles(ns[2..])
  }

  /** fromHex: invalid characters are skipped, and an odd count of digits
      makes the first digit a byte of its own (its low nibble). */
  function FromHex(s: seq<Byte>): (r: seq<Byte>)
    ensures 2 * |r| <= |s| + 1
  {
    var ns := Nibbles(s);
    var padded := if |ns| % 2 == 1 then [0] + ns else ns;
    assert forall i :: 0 <= i < |padded| ==> padded[i] < 16;
    PackNibbles(padded)
  }

  /** The digits of ToHex(s) are the nibbles of the bytes of s, high first. */
  function SplitNibbles(s: seq<Byte>): (ns: seq<Byte>)
    ensures |ns| == 2 * |s|
    ensures forall i :: 0 <= i < |ns| ==> ns[i] < 16
  {
    if s == [] then [] else [s[0] / 16, s[0] % 16] + SplitNibbles(s[1..])
  }

  lemma {:induction false} NibblesOfToHex(s: seq<Byte>)
    ensures Nibbles(ToHex(s)) == SplitNibbles(s)
  {
    if s != [] {
      var hi, lo := HexDigit(s[0] / 16), HexDigit(s[0] % 16);
      var rest := ToHex(s[1..]);
      assert ToHex(s) == [hi, lo] + rest;
      assert ([hi, lo] + rest)[1..] == [lo] + rest;
      assert ([lo] + rest)[1..] == rest;
      DigitValueOfHexDigit(s[0] / 16);
      DigitValueOfHexDigit(s[0] % 16);
      NibblesOfToHex(s[1..]);
    }
  }

  lemma {:induction false} PackSplitNibbles(s: seq<Byte>)
    ensures PackNibbles(SplitNibbles(s)) == s
  {
    if s != [] {
      var ns := SplitNibbles(s);
      assert ns[2..] == SplitNibbles(s[1..]);
      PackSplitNibbles(s[1..]);
      assert (s[0] / 16) * 16 + s[0] % 16 == s[0];
    }
  }

  /** fromHex undoes toHex. */
  lemma FromHexToHex(s: seq<Byte>)
    ensures FromHex(ToHex(s)) == s
  {
    NibblesOfToHex(s);
    PackSplitNibbles(s);
  }

  /** fromHex of a well-formed lower-case hex text with an even count of
      digits decodes consecutive digit pairs, and toHex writes the text
      back. */
  lemma {:induction false} ToHexFromHex(h: seq<Byte>)
    requires |h| % 2 == 0
    requires forall i :: 0 <= i < |h| ==> IsLowerHexDigit(h[i])
    ensures |FromHex(h)| * 2 == |h|
    ensures ToHex(FromHex(h)) == h
  {
    NibblesOfLowerHex(h);
    var ns := Nibbles(h);
    PackedToHex(h, ns);
  }

  lemma {:induction false} NibblesOfLowerHex(h: seq<Byte>)
    requires forall i :: 0 <= i < |h| ==> IsLowerHexDigit(h[i])
    ensures |Nibbles(h)| == |h|
    ensures forall i :: 0 <= i < |h| ==> HexDigit(Nibbles(h)[i]) == h[i]
  {
    if h != [] {
      NibblesOfLowerHex(h[1..]);
      assert Nibbles(h) == [DigitValue(h[0])] + Nibbles(h[1..]);
    }
  }

  lemma {:induction false} PackedToHex(h: seq<Byte>, ns: seq<Byte>)
    requires |h| % 2 == 0 && |ns| == |h|
    requires forall i :: 0 <= i < |ns| ==> ns[i] < 16 && HexDigit(ns[i]) == h[i]
    ensures ToHex(PackNibbles(ns)) == h
  {
    if h != [] {
      var b := ns[0] * 16 + ns[1];
      assert b / 16 == ns[0] && b % 16 == ns[1];
      PackedToHex(h[2..], ns[2..]);
      assert h == [h[0], h[1]] + h[2..];
    }
  }
}
