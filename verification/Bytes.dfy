/** Bytes and the byte values that the HTTP grammar names. */
module Bytes {
  type Byte = b: int | 0 <= b < 256

  const HT: Byte := 9
  const LF: Byte := 10
  const CR: Byte := 13
  const SP: Byte := 32
  const COLON: Byte := 58
  const DEL: Byte := 127

  /** `x` stands in `s` at position `i`. */
  predicate At(s: seq<Byte>, i: nat, x: seq<Byte>)
  {
    i + |x| <= |s| && s[i..i + |x|] == x
  }

  lemma AtJoin(s: seq<Byte>, i: nat, x: seq<Byte>, y: seq<Byte>)
    ensures At(s, i, x + y) <==> At(s, i, x) && At(s, i + |x|, y)
  {
    if i + |x| + |y| <= |s| {
      var w := s[i..i + |x| + |y|];
      assert w[..|x|] == s[i..i + |x|] && w[|x|..] == s[i + |x|..i + |x| + |y|];
      assert (x + y)[..|x|] == x && (x + y)[|x|..] == y;
      if At(s, i, x) && At(s, i + |x|, y) {
        assert w == w[..|x|] + w[|x|..];
      }
    }
  }

  lemma AtByte(s: seq<Byte>, i: nat, x: seq<Byte>, k: nat)
    requires At(s, i, x) && k < |x|
    ensures s[i + k] == x[k]
  {
    assert s[i..i + |x|][k] == s[i + k];
  }

  // ----- hexadecimal digits -----

  const HEX_LOWER: seq<Byte> := [0x30, 0x31, 0x32, 0x33, 0x34, 0x35, 0x36, 0x37, 0x38, 0x39, 0x61, 0x62, 0x63, 0x64, 0x65, 0x66]
  const HEX_UPPER: seq<Byte> := [0x30, 0x31, 0x32, 0x33, 0x34, 0x35, 0x36, 0x37, 0x38, 0x39, 0x41, 0x42, 0x43, 0x44, 0x45, 0x46]

  /** `c` is the digit of value `v` in one of the two tables. */
  predicate IsHex(c: Byte, v: int)
  {
    0 <= v < 16 && (c == HEX_LOWER[v] || c == HEX_UPPER[v])
  }

  predicate NoHex(c: Byte)
  {
    forall v :: 0 <= v < 16 ==> !IsHex(c, v)
  }

  /** `text` is a number of value `n` written with hexadecimal digits of either case. */
  predicate HexText(text: seq<Byte>, n: nat)
  {
    if text == [] then n == 0
    else IsHex(text[|text| - 1], n % 16) && HexText(text[..|text| - 1], n / 16)
  }
}
