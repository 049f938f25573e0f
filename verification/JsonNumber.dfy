/** JSON integers: 64-bit numbers as decimal text. */
module JsonNumber {
  import opened Wrappers
  import opened Bytes
  import opened Utf8

  const MINUS: Byte := 0x2D
  const ZERO: Byte := 0x30

  predicate Digit(c: Byte) { 0x30 <= c <= 0x39 }

  predicate Int64(n: int) { -0x8000_0000_0000_0000 <= n <= 0x7FFF_FFFF_FFFF_FFFF }

  /** A byte that makes a real out of a number. */
  predicate RealMark(c: Byte) { c == 0x2E || c == 0x45 || c == 0x65 }

  // ----- writing -----

  function Digits(n: nat): (r: seq<Byte>)
    ensures r != []
  {
    (if n < 10 then [] else Digits(n / 10)) + [0x30 + n % 10]
  }

  function NumberText(n: int): seq<Byte>
  {
    if n < 0 then [MINUS] + Digits(-n) else Digits(n)
  }

  // ----- reading -----

  function DigitsEnd(u: seq<Byte>, i: nat): (e: nat)
    requires i <= |u|
    ensures i <= e <= |u|
    decreases |u| - i
  {
    if i < |u| && Digit(u[i]) then DigitsEnd(u, i + 1) else i
  }

  function Value(s: seq<Byte>): nat
  {
    if s == [] then 0 else Value(s[..|s| - 1]) * 10 + if Digit(s[|s| - 1]) then s[|s| - 1] - 0x30 else 0
  }

  /** The end of the integer part that starts at `i`: no leading zeros, at least one digit. */
  function IntegerEnd(u: seq<Byte>, i: nat): (e: Option<nat>)
    requires i < |u|
    ensures e.Some? ==> i < e.value <= |u|
  {
    var j := if u[i] == MINUS then i + 1 else i;
    if j == |u| then None
    else if u[j] == ZERO then (if j + 1 < |u| && Digit(u[j + 1]) then None else Some(j + 1))
    else if Digit(u[j]) then Some(DigitsEnd(u, j + 1))
    else None
  }

  /** `strtoll` on the text from `i` to `e`. */
  function Signed(u: seq<Byte>, i: nat, e: nat): int
    requires i < e <= |u|
  {
    if u[i] == MINUS then 0 - Value(u[i + 1..e]) else Value(u[i..e])
  }

  // ----- round trip -----

  predicate AllDigits(s: seq<Byte>)
  {
    forall k :: 0 <= k < |s| ==> Digit(s[k])
  }

  lemma {:induction false} DigitsAre(n: nat)
    ensures AllDigits(Digits(n)) && Value(Digits(n)) == n
    ensures n > 0 ==> Digits(n)[0] != ZERO
    ensures n == 0 ==> Digits(n) == [ZERO]
  {
    if n >= 10 {
      DigitsAre(n / 10);
      var d := Digits(n / 10);
      assert Digits(n) == d + [0x30 + n % 10];
      assert Digits(n)[..|Digits(n)| - 1] == d;
    } else {
      assert Digits(n) == [0x30 + n % 10];
      assert Digits(n)[..0] == [];
    }
  }

  lemma {:induction false} DigitsRead(u: seq<Byte>, i: nat, s: seq<Byte>)
    requires At(u, i, s) && AllDigits(s) && (i + |s| < |u| ==> !Digit(u[i + |s|]))
    ensures DigitsEnd(u, i) == i + |s|
    decreases |s|
  {
    if s != [] {
      AtByte(u, i, s, 0);
      assert s == [s[0]] + s[1..];
      AtJoin(u, i, [s[0]], s[1..]);
      DigitsRead(u, i + 1, s[1..]);
    }
  }

  lemma NatReads(u: seq<Byte>, i: nat, n: nat)
    requires At(u, i, Digits(n)) && (i + |Digits(n)| < |u| ==> !Digit(u[i + |Digits(n)|]))
    ensures i < |u| && u[i] != MINUS && Digit(u[i])
    ensures IntegerEnd(u, i) == Some(i + |Digits(n)|)
    ensures Value(u[i..i + |Digits(n)|]) == n
  {
    hide Digits;
    hide Value;
    var d := Digits(n);
    DigitsAre(n);
    AtByte(u, i, d, 0);
    assert d == [d[0]] + d[1..];
    AtJoin(u, i, [d[0]], d[1..]);
    if n > 0 {
      DigitsRead(u, i + 1, d[1..]);
    }
  }

  lemma MinusEnd(u: seq<Byte>, i: nat)
    requires i + 1 < |u| && u[i] == MINUS && u[i + 1] != MINUS
    ensures IntegerEnd(u, i) == IntegerEnd(u, i + 1)
  {
  }

  lemma SignedMinus(u: seq<Byte>, i: nat, e: nat)
    requires i + 1 < e <= |u| && u[i] == MINUS
    ensures Signed(u, i, e) == 0 - Value(u[i + 1..e])
  {
  }

  lemma SignedPlain(u: seq<Byte>, i: nat, e: nat)
    requires i < e <= |u| && u[i] != MINUS
    ensures Signed(u, i, e) == Value(u[i..e])
  {
  }

  /** A printed integer is read back, whatever follows that is no digit. */
  lemma NumberReads(u: seq<Byte>, i: nat, n: int)
    requires At(u, i, NumberText(n)) && (i + |NumberText(n)| < |u| ==> !Digit(u[i + |NumberText(n)|]))
    ensures i < |u| && (u[i] == MINUS || Digit(u[i])) && NumberText(n) != []
    ensures IntegerEnd(u, i) == Some(i + |NumberText(n)|)
    ensures Signed(u, i, i + |NumberText(n)|) == n
  {
    hide Digits;
    hide Value;
    hide IntegerEnd;
    hide Signed;
    hide At;
    if n < 0 {
      AtJoin(u, i, [MINUS], Digits(-n));
      AtByte(u, i, [MINUS], 0);
      NatReads(u, i + 1, -n);
      MinusEnd(u, i);
      SignedMinus(u, i, i + 1 + |Digits(-n)|);
    } else {
      NatReads(u, i, n);
      SignedPlain(u, i, i + |Digits(n)|);
    }
  }
}
