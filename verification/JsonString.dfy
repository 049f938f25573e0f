/** JSON strings (section 7 of RFC 8259): what the printer writes and what the lexer reads. */
module JsonString {
  import opened Wrappers
  import opened Bytes
  import opened Utf8

  const QUOTE: Byte := 0x22
  const SLASH: Byte := 0x2F
  const BACKSLASH: Byte := 0x5C
  const LOWER_U: Byte := 0x75

  /** The two flags that add escapes. */
  datatype Escapes = Escapes(slash: bool, ascii: bool)

  // ----- writing -----

  predicate MustEscape(cp: int, f: Escapes)
  {
    cp == 0x5C || cp == 0x22 || cp < 0x20 || (f.slash && cp == 0x2F) || (f.ascii && cp > 0x7F)
  }

  function HexDigit(n: nat): Byte
    requires n < 16
  {
    if n < 10 then 0x30 + n else 0x37 + n
  }

  /** `\uXXXX` */
  function UnicodeEscape(n: nat): (r: seq<Byte>)
    requires n < 0x10000
    ensures |r| == 6
  {
    [BACKSLASH, LOWER_U, HexDigit(n / 0x1000), HexDigit(n / 0x100 % 16), HexDigit(n / 0x10 % 16), HexDigit(n % 16)]
  }

  /** The letter that stands for a character in a two-character escape. */
  function Shorthand(cp: int): Option<Byte>
  {
    if cp == 0x5C then Some(0x5C)
    else if cp == 0x22 then Some(0x22)
    else if cp == 0x08 then Some(0x62)
    else if cp == 0x0C then Some(0x66)
    else if cp == 0x0A then Some(0x6E)
    else if cp == 0x0D then Some(0x72)
    else if cp == 0x09 then Some(0x74)
    else if cp == 0x2F then Some(0x2F)
    else None
  }

  function EscapeText(cp: nat): seq<Byte>
    requires cp <= 0x10FFFF
  {
    match Shorthand(cp)
    case Some(c) => [BACKSLASH, c]
    case None =>
      if cp < 0x10000 then UnicodeEscape(cp)
      else UnicodeEscape(0xD800 + (cp - 0x10000) / 0x400) + UnicodeEscape(0xDC00 + (cp - 0x10000) % 0x400)
  }

  /** The end of the run of characters that are copied as they are; `None` if the text is not UTF-8. */
  function RunEnd(s: seq<Byte>, i: nat, f: Escapes): (r: Option<nat>)
    requires i <= |s|
    ensures r.Some? ==> i <= r.value <= |s|
    ensures r.Some? && r.value < |s| ==> Iterate(s, r.value).Some? && MustEscape(Iterate(s, r.value).value.0, f)
    decreases |s| - i
  {
    if i == |s| then Some(i)
    else match Iterate(s, i)
         case None => None
         case Some((cp, n)) => if MustEscape(cp, f) then Some(i) else RunEnd(s, n, f)
  }

  lemma IterateRange(s: seq<Byte>, i: nat)
    requires i < |s| && Iterate(s, i).Some?
    ensures Iterate(s, i).value.0 <= 0x10FFFF
  {
    EncodeDecoded(s, i);
  }

  /** What is written for the text from `i` on, and whether all of it was. */
  function Body(s: seq<Byte>, i: nat, f: Escapes): (seq<Byte>, bool)
    requires i <= |s|
    decreases |s| - i
  {
    match RunEnd(s, i, f)
    case None => ([], false)
    case Some(p) =>
      if p == |s| then (s[i..], true)
      else
        var (cp, n) := Iterate(s, p).value;
        IterateRange(s, p);
        var rest := Body(s, n, f);
        (s[i..p] + EscapeText(cp) + rest.0, rest.1)
  }

  /** `dump_string`: the output, and false if the text is not UTF-8. */
  function DumpString(s: seq<Byte>, f: Escapes): (seq<Byte>, bool)
  {
    var body := Body(s, 0, f);
    ([QUOTE] + body.0 + (if body.1 then [QUOTE] else []), body.1)
  }

  // ----- reading -----

  predicate HexChar(c: Byte)
  {
    0x30 <= c <= 0x39 || 0x41 <= c <= 0x46 || 0x61 <= c <= 0x66
  }

  function HexValue(c: Byte): nat
  {
    if 0x30 <= c <= 0x39 then c - 0x30
    else if 0x61 <= c <= 0x7A then c - 0x57
    else if 0x41 <= c <= 0x5A then c - 0x37
    else 0
  }

  predicate FourHex(u: seq<Byte>, i: nat)
  {
    i + 4 <= |u| && HexChar(u[i]) && HexChar(u[i + 1]) && HexChar(u[i + 2]) && HexChar(u[i + 3])
  }

  /** `decode_unicode_escape`, on four hexadecimal digits. */
  function HexNumber(u: seq<Byte>, i: nat): nat
    requires i + 4 <= |u|
  {
    ((HexValue(u[i]) * 16 + HexValue(u[i + 1])) * 16 + HexValue(u[i + 2])) * 16 + HexValue(u[i + 3])
  }

  /** The letters that may follow a backslash, apart from `u`. */
  predicate EscapeLetter(c: Byte)
  {
    c == QUOTE || c == BACKSLASH || c == SLASH || c == 0x62 || c == 0x66 || c == 0x6E || c == 0x72 || c == 0x74
  }

  /** The closing quote of a string whose text starts at `i`. */
  function ScanEnd(u: seq<Byte>, i: nat): (r: Option<nat>)
    requires i <= |u|
    ensures r.Some? ==> i <= r.value < |u|
    decreases |u| - i
  {
    if i == |u| then None
    else if u[i] == QUOTE then Some(i)
    else if u[i] < 0x20 then None
    else if u[i] == BACKSLASH then
      if i + 1 == |u| then None
      else if u[i + 1] == LOWER_U then (if FourHex(u, i + 2) then ScanEnd(u, i + 6) else None)
      else if EscapeLetter(u[i + 1]) then ScanEnd(u, i + 2)
      else None
    else ScanEnd(u, i + 1)
  }

  function Unshorthand(c: Byte): Byte
  {
    if c == 0x62 then 0x08
    else if c == 0x66 then 0x0C
    else if c == 0x6E then 0x0A
    else if c == 0x72 then 0x0D
    else if c == 0x74 then 0x09
    else c
  }

  function Prepend(x: seq<Byte>, r: Option<seq<Byte>>): Option<seq<Byte>>
  {
    match r case None => None case Some(t) => Some(x + t)
  }

  /** The value of a `\u` escape at `i`, a surrogate pair taken together, and the position behind it. */
  function Unicode(u: seq<Byte>, i: nat, end: nat): (r: Option<(nat, nat)>)
    requires end <= |u|
    ensures r.Some? ==> i < r.value.1 <= end && 0 <= r.value.0 <= 0x10FFFF
  {
    if i + 6 > end || !FourHex(u, i + 2) then None else
      var v := HexNumber(u, i + 2);
      if 0xD800 <= v <= 0xDBFF then
        if i + 12 <= end && u[i + 6] == BACKSLASH && u[i + 7] == LOWER_U && FourHex(u, i + 8) then
          var v2 := HexNumber(u, i + 8);
          if 0xDC00 <= v2 <= 0xDFFF then Some(((v - 0xD800) * 0x400 + (v2 - 0xDC00) + 0x10000, i + 12)) else None
        else None
      else if 0xDC00 <= v <= 0xDFFF then None
      else Some((v, i + 6))
  }

  /** The bytes that the text from `i` to `end` stands for. */
  function Unescape(u: seq<Byte>, i: nat, end: nat): Option<seq<Byte>>
    requires i <= end <= |u|
    decreases end - i
  {
    if i == end then Some([])
    else if u[i] == BACKSLASH then
      if i + 1 == end then None
      else if u[i + 1] == LOWER_U then
        match Unicode(u, i, end)
        case None => None
        case Some((v, n)) => Prepend(Encode(v).value, Unescape(u, n, end))
      else Prepend([Unshorthand(u[i + 1])], Unescape(u, i + 2, end))
    else Prepend([u[i]], Unescape(u, i + 1, end))
  }

  /** `lex_scan_string`, from behind the opening quote: the bytes and the position behind the string. */
  function LexString(u: seq<Byte>, i: nat): (r: Option<(seq<Byte>, nat)>)
    requires i <= |u|
    ensures r.Some? ==> i < r.value.1 <= |u|
  {
    match ScanEnd(u, i)
    case None => None
    case Some(e) => match Unescape(u, i, e) case None => None case Some(t) => Some((t, e + 1))
  }

  // ----- one character -----

  lemma HexBack(n: nat)
    requires n < 16
    ensures HexChar(HexDigit(n)) && HexValue(HexDigit(n)) == n
  {
  }

  lemma HexSplit(n: nat)
    requires n < 0x10000
    ensures ((n / 0x1000 * 16 + n / 0x100 % 16) * 16 + n / 0x10 % 16) * 16 + n % 16 == n
  {
  }

  /** The digits of a `\u` escape give its number back. */
  lemma UnicodeBack(u: seq<Byte>, i: nat, n: nat)
    requires n < 0x10000 && At(u, i, UnicodeEscape(n))
    ensures i + 6 <= |u| && u[i] == BACKSLASH && u[i + 1] == LOWER_U && FourHex(u, i + 2) && HexNumber(u, i + 2) == n
  {
    hide HexDigit;
    hide HexValue;
    hide HexChar;
    var x := UnicodeEscape(n);
    AtByte(u, i, x, 0);
    AtByte(u, i, x, 1);
    AtByte(u, i, x, 2);
    AtByte(u, i, x, 3);
    AtByte(u, i, x, 4);
    AtByte(u, i, x, 5);
    HexBack(n / 0x1000);
    HexBack(n / 0x100 % 16);
    HexBack(n / 0x10 % 16);
    HexBack(n % 16);
    HexSplit(n);
  }

  /** `x` stands at `i`, is passed by the scan, and stands for the bytes `y`. */
  ghost predicate Reads(u: seq<Byte>, i: nat, x: seq<Byte>, y: seq<Byte>)
  {
    && i + |x| <= |u| && ScanEnd(u, i) == ScanEnd(u, i + |x|)
    && forall end {:trigger Unescape(u, i, end)} :: i + |x| <= end <= |u| ==>
         Unescape(u, i, end) == Prepend(y, Unescape(u, i + |x|, end))
  }

  lemma ReadShorthand(u: seq<Byte>, i: nat, cp: nat, c: Byte)
    requires Shorthand(cp) == Some(c) && At(u, i, [BACKSLASH, c])
    ensures Reads(u, i, [BACKSLASH, c], [cp])
  {
    AtByte(u, i, [BACKSLASH, c], 0);
    AtByte(u, i, [BACKSLASH, c], 1);
  }

  lemma ReadUnicode(u: seq<Byte>, i: nat, cp: nat)
    requires cp < 0x10000 && Scalar(cp) && At(u, i, UnicodeEscape(cp))
    ensures Reads(u, i, UnicodeEscape(cp), Encode(cp).value)
  {
    hide HexNumber;
    hide FourHex;
    hide Encode;
    UnicodeBack(u, i, cp);
    forall end | i + 6 <= end <= |u|
      ensures Unescape(u, i, end) == Prepend(Encode(cp).value, Unescape(u, i + 6, end))
    {
      assert Unicode(u, i, end) == Some((cp, i + 6));
    }
  }

  lemma SurrogateSplit(cp: nat)
    requires 0x10000 <= cp <= 0x10FFFF
    ensures var v, w := 0xD800 + (cp - 0x10000) / 0x400, 0xDC00 + (cp - 0x10000) % 0x400;
      0xD800 <= v <= 0xDBFF && 0xDC00 <= w <= 0xDFFF && (v - 0xD800) * 0x400 + (w - 0xDC00) + 0x10000 == cp
  {
  }

  lemma ScanTwice(u: seq<Byte>, i: nat)
    requires i + 12 <= |u| && u[i] == BACKSLASH && u[i + 1] == LOWER_U && FourHex(u, i + 2)
    requires u[i + 6] == BACKSLASH && u[i + 7] == LOWER_U && FourHex(u, i + 8)
    ensures ScanEnd(u, i) == ScanEnd(u, i + 12)
  {
    hide FourHex;
    assert ScanEnd(u, i) == ScanEnd(u, i + 6);
  }

  /** A surrogate pair is read back as one character. */
  lemma ReadPair(u: seq<Byte>, i: nat, cp: nat)
    requires 0x10000 <= cp <= 0x10FFFF && At(u, i, EscapeText(cp))
    ensures Reads(u, i, EscapeText(cp), Encode(cp).value)
  {
    hide HexNumber;
    hide FourHex;
    hide Encode;
    hide UnicodeEscape;
    var v, w := 0xD800 + (cp - 0x10000) / 0x400, 0xDC00 + (cp - 0x10000) % 0x400;
    AtJoin(u, i, UnicodeEscape(v), UnicodeEscape(w));
    UnicodeBack(u, i, v);
    UnicodeBack(u, i + 6, w);
    SurrogateSplit(cp);
    ScanTwice(u, i);
    forall end | i + 12 <= end <= |u|
      ensures Unescape(u, i, end) == Prepend(Encode(cp).value, Unescape(u, i + 12, end))
    {
      assert Unicode(u, i, end) == Some((cp, i + 12));
    }
  }

  predicate Plain(c: Byte) { c != QUOTE && c != BACKSLASH && c >= 0x20 }

  lemma PrependJoin(x: seq<Byte>, y: seq<Byte>, r: Option<seq<Byte>>)
    ensures Prepend(x, Prepend(y, r)) == Prepend(x + y, r)
  {
    if r.Some? {
      assert x + (y + r.value) == (x + y) + r.value;
    }
  }

  /** Bytes without a special meaning are copied. */
  lemma {:induction false} ReadPlain(u: seq<Byte>, i: nat, x: seq<Byte>)
    requires At(u, i, x) && forall k :: 0 <= k < |x| ==> Plain(x[k])
    ensures Reads(u, i, x, x)
    decreases |x|
  {
    if x == [] {
      forall end | i <= end <= |u| ensures Unescape(u, i, end) == Prepend([], Unescape(u, i, end)) {
        if Unescape(u, i, end).Some? {
          assert [] + Unescape(u, i, end).value == Unescape(u, i, end).value;
        }
      }
    } else {
      AtByte(u, i, x, 0);
      assert x == [x[0]] + x[1..];
      AtJoin(u, i, [x[0]], x[1..]);
      ReadPlain(u, i + 1, x[1..]);
      forall end | i + |x| <= end <= |u| ensures Unescape(u, i, end) == Prepend(x, Unescape(u, i + |x|, end)) {
        PrependJoin([x[0]], x[1..], Unescape(u, i + |x|, end));
      }
    }
  }

  lemma {:induction false} ReadTwo(u: seq<Byte>, i: nat, x: seq<Byte>, x': seq<Byte>, y: seq<Byte>, y': seq<Byte>)
    requires Reads(u, i, x, y) && Reads(u, i + |x|, x', y')
    ensures Reads(u, i, x + x', y + y')
  {
    hide Unescape;
    hide ScanEnd;
    forall end | i + |x| + |x'| <= end <= |u|
      ensures Unescape(u, i, end) == Prepend(y + y', Unescape(u, i + |x| + |x'|, end))
    {
      PrependJoin(y, y', Unescape(u, i + |x| + |x'|, end));
    }
  }

  /** An escaped character is read back as its encoding. */
  lemma ReadEscape(u: seq<Byte>, i: nat, cp: nat)
    requires Scalar(cp) && At(u, i, EscapeText(cp))
    ensures Reads(u, i, EscapeText(cp), Encode(cp).value)
  {
    hide Reads;
    hide At;
    if Shorthand(cp).Some? {
      ReadShorthand(u, i, cp, Shorthand(cp).value);
    } else if cp < 0x10000 {
      ReadUnicode(u, i, cp);
    } else {
      ReadPair(u, i, cp);
    }
  }

  // ----- a whole string -----

  lemma PlainBytes(s: seq<Byte>, i: nat, f: Escapes)
    requires i < |s| && Iterate(s, i).Some? && !MustEscape(Iterate(s, i).value.0, f)
    ensures forall k :: i <= k < Iterate(s, i).value.1 ==> Plain(s[k])
  {
    EncodeDecoded(s, i);
    var (cp, n) := Iterate(s, i).value;
    forall k | i <= k < n ensures Plain(s[k]) {
      assert s[k] == s[i..n][k - i];
    }
  }

  lemma {:induction false} RunPlain(s: seq<Byte>, i: nat, f: Escapes)
    requires i <= |s| && RunEnd(s, i, f).Some?
    ensures forall k :: i <= k < RunEnd(s, i, f).value ==> Plain(s[k])
    decreases |s| - i
  {
    hide Iterate;
    if i < |s| && !MustEscape(Iterate(s, i).value.0, f) {
      PlainBytes(s, i, f);
      RunPlain(s, Iterate(s, i).value.1, f);
    }
  }

  lemma {:induction false} RunValid(s: seq<Byte>, i: nat, f: Escapes)
    requires i <= |s|
    ensures RunEnd(s, i, f).Some? ==> (CheckFrom(s, i) <==> CheckFrom(s, RunEnd(s, i, f).value))
    ensures RunEnd(s, i, f).None? ==> !CheckFrom(s, i)
    decreases |s| - i
  {
    hide Iterate;
    if i < |s| && Iterate(s, i).Some? && !MustEscape(Iterate(s, i).value.0, f) {
      RunValid(s, Iterate(s, i).value.1, f);
    }
  }

  /** Printing succeeds exactly on UTF-8. */
  lemma {:induction false} BodyValid(s: seq<Byte>, i: nat, f: Escapes)
    requires i <= |s|
    ensures Body(s, i, f).1 <==> CheckFrom(s, i)
    decreases |s| - i
  {
    hide Iterate;
    RunValid(s, i, f);
    if RunEnd(s, i, f).Some? && RunEnd(s, i, f).value < |s| {
      BodyValid(s, Iterate(s, RunEnd(s, i, f).value).value.1, f);
    }
  }

  /** What was written for the text from `i` on is read back as that text. */
  lemma {:induction false} BodyReads(s: seq<Byte>, i: nat, f: Escapes, u: seq<Byte>, k: nat)
    requires i <= |s| && CheckFrom(s, i) && At(u, k, Body(s, i, f).0)
    ensures Reads(u, k, Body(s, i, f).0, s[i..])
    decreases |s| - i
  {
    hide Iterate;
    hide Reads;
    hide At;
    hide RunEnd;
    hide EscapeText;
    RunValid(s, i, f);
    RunPlain(s, i, f);
    var p := RunEnd(s, i, f).value;
    if p == |s| {
      ReadPlain(u, k, s[i..]);
    } else {
      var (cp, n) := Iterate(s, p).value;
      EncodeDecoded(s, p);
      var run, esc, rest := s[i..p], EscapeText(cp), Body(s, n, f).0;
      assert Body(s, i, f).0 == run + esc + rest;
      AtJoin(u, k, run + esc, rest);
      AtJoin(u, k, run, esc);
      ReadPlain(u, k, run);
      ReadEscape(u, k + |run|, cp);
      ReadTwo(u, k, run, esc, run, Encode(cp).value);
      BodyReads(s, n, f, u, k + |run + esc|);
      ReadTwo(u, k, run + esc, rest, run + Encode(cp).value, s[n..]);
      ThreeParts(s, i, p, n);
    }
  }

  lemma ThreeParts(s: seq<Byte>, i: nat, p: nat, n: nat)
    requires i <= p <= n <= |s|
    ensures s[i..p] + s[p..n] + s[n..] == s[i..]
  {
  }

  lemma ReadEnd(u: seq<Byte>, i: nat, x: seq<Byte>, y: seq<Byte>)
    requires Reads(u, i, x, y) && i + |x| < |u| && u[i + |x|] == QUOTE
    ensures LexString(u, i) == Some((y, i + |x| + 1))
  {
    var e := i + |x|;
    assert ScanEnd(u, e) == Some(e);
    assert Unescape(u, e, e) == Some([]);
    assert Unescape(u, i, e) == Prepend(y, Unescape(u, e, e));
    assert y + [] == y;
  }

  /** String round trip: whatever the flags, printing succeeds on UTF-8, and reading what was printed, in
      any surroundings, gives the same bytes and stops behind the closing quote. */
  lemma StringRoundTrip(s: seq<Byte>, f: Escapes, u: seq<Byte>, i: nat)
    requires CheckFrom(s, 0) && At(u, i, DumpString(s, f).0)
    ensures DumpString(s, f).1
    ensures i < |u| && u[i] == QUOTE && LexString(u, i + 1) == Some((s, i + |DumpString(s, f).0|))
  {
    hide Body;
    hide LexString;
    hide At;
    BodyValid(s, 0, f);
    var body := Body(s, 0, f).0;
    assert DumpString(s, f).0 == [QUOTE] + body + [QUOTE];
    AtJoin(u, i, [QUOTE] + body, [QUOTE]);
    AtJoin(u, i, [QUOTE], body);
    AtByte(u, i, [QUOTE], 0);
    AtByte(u, i + 1 + |body|, [QUOTE], 0);
    AtInside(u, i + 1 + |body|, [QUOTE]);
    BodyReads(s, 0, f, u, i + 1);
    assert s[0..] == s;
    ReadEnd(u, i + 1, body, s);
  }

  lemma AtInside(u: seq<Byte>, i: nat, x: seq<Byte>)
    requires At(u, i, x)
    ensures i + |x| <= |u|
  {
  }
}
