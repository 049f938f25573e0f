/** The UTF-8 codec (RFC 3629). Bit masks and shifts are written as division and remainder. */
module Utf8 {
  import opened Wrappers
  import opened Bytes

  /** Unicode scalar values: the code points that have an encoding. */
  predicate Scalar(cp: int)
  {
    0 <= cp <= 0x10FFFF && !(0xD800 <= cp <= 0xDFFF)
  }

  predicate Continuation(u: Byte) { 0x80 <= u <= 0xBF }

  function Encode(cp: int): (r: Option<seq<Byte>>)
    ensures r.Some? <==> 0 <= cp <= 0x10FFFF
    ensures r.Some? ==> 1 <= |r.value| <= 4
  {
    if cp < 0 then None
    else if cp < 0x80 then Some([cp])
    else if cp < 0x800 then Some([0xC0 + cp / 0x40, 0x80 + cp % 0x40])
    else if cp < 0x10000 then Some([0xE0 + cp / 0x1000, 0x80 + cp / 0x40 % 0x40, 0x80 + cp % 0x40])
    else if cp <= 0x10FFFF then
      Some([0xF0 + cp / 0x40000, 0x80 + cp / 0x1000 % 0x40, 0x80 + cp / 0x40 % 0x40, 0x80 + cp % 0x40])
    else None
  }

  /** The length that a first byte announces, 0 if it cannot be one. */
  function CheckFirst(u: Byte): (n: nat)
    ensures n <= 4
  {
    if u < 0x80 then 1
    else if u <= 0xBF then 0
    else if u == 0xC0 || u == 0xC1 then 0
    else if u <= 0xDF then 2
    else if u <= 0xEF then 3
    else if u <= 0xF4 then 4
    else 0
  }

  /** The payload bits of a first byte. */
  function FirstBits(u: Byte, size: nat): nat
  {
    if size == 2 then u % 0x20 else if size == 3 then u % 0x10 else u % 0x8
  }

  /** `value` continued by the bytes of `s` from `i` up to `end`. */
  function Continued(value: nat, s: seq<Byte>, i: nat, end: nat): Option<nat>
    requires i <= end <= |s|
    decreases end - i
  {
    if i == end then Some(value)
    else if !Continuation(s[i]) then None
    else Continued(value * 0x40 + s[i] % 0x40, s, i + 1, end)
  }

  /** The code point in the `size` bytes at `i`: in range, no surrogate and not overlong. */
  function CheckFull(s: seq<Byte>, i: nat, size: nat): Option<nat>
    requires 0 < size && i + size <= |s|
  {
    if size < 2 || size > 4 then None else
      match Continued(FirstBits(s[i], size), s, i + 1, i + size)
      case None => None
      case Some(value) =>
        if value > 0x10FFFF || 0xD800 <= value <= 0xDFFF
           || (size == 2 && value < 0x80) || (size == 3 && value < 0x800) || (size == 4 && value < 0x10000)
        then None
        else Some(value)
  }

  /** The code point at `i` and the position behind it. */
  function Iterate(s: seq<Byte>, i: nat): (r: Option<(nat, nat)>)
    requires i < |s|
    ensures r.Some? ==> i < r.value.1 <= |s|
  {
    var count := CheckFirst(s[i]);
    if count == 0 then None
    else if count == 1 then Some((s[i], i + 1))
    else if count > |s| - i then None
    else match CheckFull(s, i, count)
         case None => None
         case Some(cp) => Some((cp, i + count))
  }

  /** Well-formed UTF-8 from `i` to the end. */
  predicate CheckFrom(s: seq<Byte>, i: nat)
    requires i <= |s|
    decreases |s| - i
  {
    i == |s| || (Iterate(s, i).Some? && CheckFrom(s, Iterate(s, i).value.1))
  }

  // ----- the table of section 3 of RFC 3629 -----

  /** `x` is one to four bytes by the range of `cp`: a lead byte that tells the length, and six bits in each other byte,
      high bits first. */
  predicate Tabled(cp: int, x: seq<Byte>)
  {
    || (|x| == 1 && 0 <= cp <= 0x7F && x[0] == cp)
    || (|x| == 2 && 0x80 <= cp <= 0x7FF && 0xC0 <= x[0] <= 0xDF && 0x80 <= x[1] <= 0xBF
        && cp == Join([x[0] as int - 0xC0, x[1] as int - 0x80]))
    || (|x| == 3 && 0x800 <= cp <= 0xFFFF && 0xE0 <= x[0] <= 0xEF && 0x80 <= x[1] <= 0xBF && 0x80 <= x[2] <= 0xBF
        && cp == Join([x[0] as int - 0xE0, x[1] as int - 0x80, x[2] as int - 0x80]))
    || (|x| == 4 && 0x10000 <= cp <= 0x10FFFF && 0xF0 <= x[0] <= 0xF7 && 0x80 <= x[1] <= 0xBF && 0x80 <= x[2] <= 0xBF
        && 0x80 <= x[3] <= 0xBF
        && cp == Join([x[0] as int - 0xF0, x[1] as int - 0x80, x[2] as int - 0x80, x[3] as int - 0x80]))
  }

  /** Six bits at a time. */
  function Join(d: seq<int>): int
  {
    if d == [] then 0 else Join(d[..|d| - 1]) * 0x40 + d[|d| - 1]
  }

  lemma JoinLast(d: seq<int>, n: nat)
    requires d != [] && 0 <= d[|d| - 1] < 0x40
    ensures Join(d) == n <==> Join(d[..|d| - 1]) == n / 0x40 && d[|d| - 1] == n % 0x40
  {
  }

  lemma Join1(a: int)
    ensures Join([a]) == a
  {
    assert [a][..0] == [];
  }

  lemma Join2(a: int, b: int, n: nat)
    requires 0 <= b < 0x40
    ensures Join([a, b]) == n <==> a == n / 0x40 && b == n % 0x40
  {
    hide Join;
    JoinLast([a, b], n);
    assert [a, b][..1] == [a];
    Join1(a);
  }

  lemma Join3(a: int, b: int, c: int, n: nat)
    requires 0 <= b < 0x40 && 0 <= c < 0x40
    ensures Join([a, b, c]) == n <==> a == n / 0x1000 && b == n / 0x40 % 0x40 && c == n % 0x40
  {
    hide Join;
    JoinLast([a, b, c], n);
    assert [a, b, c][..2] == [a, b];
    Join2(a, b, n / 0x40);
  }

  lemma Join4(a: int, b: int, c: int, d: int, n: nat)
    requires 0 <= b < 0x40 && 0 <= c < 0x40 && 0 <= d < 0x40
    ensures Join([a, b, c, d]) == n
       <==> a == n / 0x40000 && b == n / 0x1000 % 0x40 && c == n / 0x40 % 0x40 && d == n % 0x40
  {
    hide Join;
    JoinLast([a, b, c, d], n);
    assert [a, b, c, d][..3] == [a, b, c];
    Join3(a, b, c, n / 0x40);
  }

  /** The encoder writes exactly what the table says. */
  lemma EncodeTable(cp: int, x: seq<Byte>)
    ensures Encode(cp) == Some(x) <==> Tabled(cp, x)
  {
    hide Join;
    if 0 <= cp <= 0x10FFFF && |x| == |Encode(cp).value| {
      var e := Encode(cp).value;
      assert e == x <==> forall k :: 0 <= k < |x| ==> e[k] == x[k];
      if |x| == 2 && 0x80 <= x[1] <= 0xBF {
        Join2(x[0] as int - 0xC0, x[1] as int - 0x80, cp);
      } else if |x| == 3 && 0x80 <= x[1] <= 0xBF && 0x80 <= x[2] <= 0xBF {
        Join3(x[0] as int - 0xE0, x[1] as int - 0x80, x[2] as int - 0x80, cp);
      } else if |x| == 4 && 0x80 <= x[1] <= 0xBF && 0x80 <= x[2] <= 0xBF && 0x80 <= x[3] <= 0xBF {
        Join4(x[0] as int - 0xF0, x[1] as int - 0x80, x[2] as int - 0x80, x[3] as int - 0x80, cp);
      }
    }
  }

  // ----- encoding and decoding are inverse -----

  /** The payload bits of a continuation byte. */
  function Low(u: Byte): nat { u % 0x40 }

  lemma Continued1(value: nat, s: seq<Byte>, i: nat)
    requires i < |s|
    ensures Continued(value, s, i, i + 1) == if Continuation(s[i]) then Some(value * 0x40 + Low(s[i])) else None
  {
  }

  lemma Continued2(value: nat, s: seq<Byte>, i: nat)
    requires i + 1 < |s|
    ensures Continued(value, s, i, i + 2) ==
      if Continuation(s[i]) && Continuation(s[i + 1]) then Some((value * 0x40 + Low(s[i])) * 0x40 + Low(s[i + 1])) else None
  {
    Continued1(value * 0x40 + Low(s[i]), s, i + 1);
  }

  lemma Continued3(value: nat, s: seq<Byte>, i: nat)
    requires i + 2 < |s|
    ensures Continued(value, s, i, i + 3) ==
      if Continuation(s[i]) && Continuation(s[i + 1]) && Continuation(s[i + 2])
      then Some(((value * 0x40 + Low(s[i])) * 0x40 + Low(s[i + 1])) * 0x40 + Low(s[i + 2])) else None
  {
    Continued2(value * 0x40 + Low(s[i]), s, i + 1);
  }

  lemma LowOf(x: nat)
    requires x < 0x40
    ensures Continuation(0x80 + x) && Low(0x80 + x) == x
  {
  }

  lemma LowBack(u: Byte)
    requires Continuation(u)
    ensures u == 0x80 + Low(u) && Low(u) < 0x40
  {
  }

  lemma Digits2(a: nat, x: nat)
    requires x < 0x40
    ensures (a * 0x40 + x) / 0x40 == a && (a * 0x40 + x) % 0x40 == x
  {
  }

  lemma Digits3(a: nat, x: nat, y: nat)
    requires x < 0x40 && y < 0x40
    ensures var cp := (a * 0x40 + x) * 0x40 + y; cp / 0x1000 == a && cp / 0x40 % 0x40 == x && cp % 0x40 == y
  {
    Digits2(a * 0x40 + x, y);
    Digits2(a, x);
  }

  lemma Digits4(a: nat, x: nat, y: nat, z: nat)
    requires x < 0x40 && y < 0x40 && z < 0x40
    ensures var cp := ((a * 0x40 + x) * 0x40 + y) * 0x40 + z;
      cp / 0x40000 == a && cp / 0x1000 % 0x40 == x && cp / 0x40 % 0x40 == y && cp % 0x40 == z
  {
    var cp := ((a * 0x40 + x) * 0x40 + y) * 0x40 + z;
    Digits2((a * 0x40 + x) * 0x40 + y, z);
    Digits3(a, x, y);
    var q := cp / 0x40;
    assert cp / 0x1000 == q / 0x40;
    assert q / 0x40 == a * 0x40 + x;
    Digits2(a, x);
    assert cp / 0x40000 == q / 0x40 / 0x40;
  }

  /** A two-byte sequence with payloads `a` and `x`. */
  lemma Iterate2(s: seq<Byte>, i: nat, a: nat, x: nat)
    requires i + 1 < |s| && a < 0x20 && x < 0x40 && s[i] == 0xC0 + a && s[i + 1] == 0x80 + x && a * 0x40 + x >= 0x80
    ensures Iterate(s, i) == Some((a * 0x40 + x, i + 2))
  {
    hide Continued;
    LowOf(x);
    Continued1(FirstBits(s[i], 2), s, i + 1);
  }

  lemma Iterate3(s: seq<Byte>, i: nat, a: nat, x: nat, y: nat)
    requires i + 2 < |s| && a < 0x10 && x < 0x40 && y < 0x40
    requires s[i] == 0xE0 + a && s[i + 1] == 0x80 + x && s[i + 2] == 0x80 + y
    requires var cp := (a * 0x40 + x) * 0x40 + y; Scalar(cp) && cp >= 0x800
    ensures Iterate(s, i) == Some(((a * 0x40 + x) * 0x40 + y, i + 3))
  {
    hide Continued;
    LowOf(x);
    LowOf(y);
    Continued2(FirstBits(s[i], 3), s, i + 1);
  }

  lemma Iterate4(s: seq<Byte>, i: nat, a: nat, x: nat, y: nat, z: nat)
    requires i + 3 < |s| && a < 0x8 && x < 0x40 && y < 0x40 && z < 0x40
    requires s[i] == 0xF0 + a && s[i + 1] == 0x80 + x && s[i + 2] == 0x80 + y && s[i + 3] == 0x80 + z
    requires 0x10000 <= ((a * 0x40 + x) * 0x40 + y) * 0x40 + z <= 0x10FFFF
    ensures Iterate(s, i) == Some((((a * 0x40 + x) * 0x40 + y) * 0x40 + z, i + 4))
  {
    hide Continued;
    LowOf(x);
    LowOf(y);
    LowOf(z);
    Continued3(FirstBits(s[i], 4), s, i + 1);
  }

  lemma DivMod(n: nat)
    ensures n == n / 0x40 * 0x40 + n % 0x40
  {
  }

  lemma Halves(n: nat)
    ensures n / 0x1000 == n / 0x40 / 0x40 && n / 0x40000 == n / 0x40 / 0x40 / 0x40
  {
  }

  /** Decoding what was encoded, wherever it stands. */
  lemma DecodeEncoded(s: seq<Byte>, i: nat, cp: int)
    requires Scalar(cp) && At(s, i, Encode(cp).value)
    ensures i < |s| && Iterate(s, i) == Some((cp, i + |Encode(cp).value|))
  {
    hide Iterate;
    var e := Encode(cp).value;
    AtByte(s, i, e, 0);
    if cp < 0x80 {
      IterateAscii(s, i);
    } else {
      AtByte(s, i, e, 1);
      DivMod(cp);
      DivMod(cp / 0x40);
      DivMod(cp / 0x40 / 0x40);
      Halves(cp);
      if cp < 0x800 {
        Iterate2(s, i, cp / 0x40, cp % 0x40);
      } else if cp < 0x10000 {
        AtByte(s, i, e, 2);
        Iterate3(s, i, cp / 0x1000, cp / 0x40 % 0x40, cp % 0x40);
      } else {
        AtByte(s, i, e, 2);
        AtByte(s, i, e, 3);
        Iterate4(s, i, cp / 0x40000, cp / 0x1000 % 0x40, cp / 0x40 % 0x40, cp % 0x40);
      }
    }
  }

  lemma IterateAscii(s: seq<Byte>, i: nat)
    requires i < |s| && s[i] < 0x80
    ensures Iterate(s, i) == Some((s[i] as nat, i + 1))
  {
  }

  lemma Decoded2(s: seq<Byte>, i: nat)
    requires i < |s| && Iterate(s, i).Some? && CheckFirst(s[i]) == 2
    ensures Scalar(Iterate(s, i).value.0) && Encode(Iterate(s, i).value.0) == Some(s[i..Iterate(s, i).value.1])
  {
    hide Continued;
    Continued1(FirstBits(s[i], 2), s, i + 1);
    LowBack(s[i + 1]);
    Digits2(FirstBits(s[i], 2), Low(s[i + 1]));
    assert s[i..i + 2] == [s[i], s[i + 1]];
  }

  lemma Decoded3(s: seq<Byte>, i: nat)
    requires i < |s| && Iterate(s, i).Some? && CheckFirst(s[i]) == 3
    ensures Scalar(Iterate(s, i).value.0) && Encode(Iterate(s, i).value.0) == Some(s[i..Iterate(s, i).value.1])
  {
    hide Continued;
    Continued2(FirstBits(s[i], 3), s, i + 1);
    LowBack(s[i + 1]);
    LowBack(s[i + 2]);
    Digits3(FirstBits(s[i], 3), Low(s[i + 1]), Low(s[i + 2]));
    assert s[i..i + 3] == [s[i], s[i + 1], s[i + 2]];
  }

  lemma Decoded4(s: seq<Byte>, i: nat)
    requires i < |s| && Iterate(s, i).Some? && CheckFirst(s[i]) == 4
    ensures Scalar(Iterate(s, i).value.0) && Encode(Iterate(s, i).value.0) == Some(s[i..Iterate(s, i).value.1])
  {
    hide Continued;
    Continued3(FirstBits(s[i], 4), s, i + 1);
    LowBack(s[i + 1]);
    LowBack(s[i + 2]);
    LowBack(s[i + 3]);
    Digits4(FirstBits(s[i], 4), Low(s[i + 1]), Low(s[i + 2]), Low(s[i + 3]));
    assert s[i..i + 4] == [s[i], s[i + 1], s[i + 2], s[i + 3]];
  }

  /** Whatever decodes is the encoding of the code point it decodes to; no other bytes decode to it. */
  lemma EncodeDecoded(s: seq<Byte>, i: nat)
    requires i < |s| && Iterate(s, i).Some?
    ensures Scalar(Iterate(s, i).value.0)
    ensures Encode(Iterate(s, i).value.0) == Some(s[i..Iterate(s, i).value.1])
  {
    hide CheckFull;
    hide Encode;
    var count := CheckFirst(s[i]);
    if count == 2 {
      Decoded2(s, i);
    } else if count == 3 {
      Decoded3(s, i);
    } else if count == 4 {
      Decoded4(s, i);
    } else {
      DecodedAscii(s, i);
    }
  }

  lemma DecodedAscii(s: seq<Byte>, i: nat)
    requires i < |s| && s[i] < 0x80
    ensures Encode(s[i]) == Some(s[i..i + 1])
  {
    assert s[i..i + 1] == [s[i]];
  }

  predicate Scalars(cps: seq<int>)
  {
    forall k :: 0 <= k < |cps| ==> Scalar(cps[k])
  }

  function EncodeAll(cps: seq<int>): seq<Byte>
    requires Scalars(cps)
  {
    if cps == [] then [] else Encode(cps[0]).value + EncodeAll(cps[1..])
  }

  lemma {:induction false} DecodeAll(s: seq<Byte>, i: nat) returns (cps: seq<int>)
    requires i <= |s| && CheckFrom(s, i)
    ensures Scalars(cps) && EncodeAll(cps) == s[i..]
    decreases |s| - i
  {
    hide Iterate;
    if i == |s| {
      cps := [];
    } else {
      EncodeDecoded(s, i);
      var (cp, n) := Iterate(s, i).value;
      var rest := DecodeAll(s, n);
      cps := [cp] + rest;
      assert cps[1..] == rest;
      assert s[i..] == s[i..n] + s[n..];
    }
  }

  lemma {:induction false} EncodedChecks(cps: seq<int>, s: seq<Byte>, i: nat)
    requires Scalars(cps) && i <= |s| && EncodeAll(cps) == s[i..]
    ensures CheckFrom(s, i)
    decreases |cps|
  {
    hide Iterate;
    hide Encode;
    if cps == [] {
      assert |s[i..]| == 0;
    } else {
      var e := Encode(cps[0]).value;
      var n := i + |e|;
      assert s[i..][..|e|] == e && s[i..][|e|..] == EncodeAll(cps[1..]);
      assert s[i..n] == s[i..][..|e|] && s[n..] == s[i..][|e|..];
      DecodeEncoded(s, i, cps[0]);
      EncodedChecks(cps[1..], s, n);
    }
  }

  /** `utf8_check_string` accepts exactly the concatenated encodings of scalar values. */
  lemma CheckExactly(s: seq<Byte>)
    ensures CheckFrom(s, 0) <==> exists cps :: Scalars(cps) && EncodeAll(cps) == s
  {
    assert s[0..] == s;
    if CheckFrom(s, 0) {
      var cps := DecodeAll(s, 0);
    }
    if cps :| Scalars(cps) && EncodeAll(cps) == s {
      EncodedChecks(cps, s, 0);
    }
  }

  // ----- the loops -----

  method CheckFullLoop(buffer: seq<Byte>, i: nat, size: nat) returns (r: Option<nat>)
    requires 0 < size && i + size <= |buffer|
    ensures r == CheckFull(buffer, i, size)
  {
    var value: nat;
    if size == 2 {
      value := buffer[i] % 0x20;
    } else if size == 3 {
      value := buffer[i] % 0x10;
    } else if size == 4 {
      value := buffer[i] % 0x8;
    } else {
      return None;
    }
    var k := 1;
    while k < size
      invariant 1 <= k <= size
      invariant Continued(value, buffer, i + k, i + size) == Continued(FirstBits(buffer[i], size), buffer, i + 1, i + size)
    {
      var u := buffer[i + k];
      if u < 0x80 || u > 0xBF {
        return None;
      }
      value := value * 0x40 + u % 0x40;
      k := k + 1;
    }
    if value > 0x10FFFF {
      return None;
    } else if 0xD800 <= value <= 0xDFFF {
      return None;
    } else if (size == 2 && value < 0x80) || (size == 3 && value < 0x800) || (size == 4 && value < 0x10000) {
      return None;
    }
    return Some(value);
  }

  method CheckString(s: seq<Byte>) returns (ok: bool)
    ensures ok <==> CheckFrom(s, 0)
  {
    hide CheckFull;
    var i := 0;
    while i < |s|
      invariant 0 <= i <= |s| && (CheckFrom(s, i) <==> CheckFrom(s, 0))
    {
      var count := CheckFirst(s[i]);
      if count == 0 {
        return false;
      } else if count > 1 {
        if count > |s| - i {
          return false;
        }
        var full := CheckFullLoop(s, i, count);
        if full.None? {
          return false;
        }
        i := i + (count - 1);
      }
      i := i + 1;
    }
    return true;
  }
}
