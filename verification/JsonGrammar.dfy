/** JSON strings against a grammar of their own (section 7 of RFC 8259): the lexer reads exactly the string literals,
    and the printer writes exactly one text for each character. */
module JsonGrammar {
  import opened Wrappers
  import opened Bytes
  import opened Utf8
  import opened JsonString

  // ----- digits -----

  lemma SixteenCases(v: int)
    requires 0 <= v < 16
    ensures v == 0 || v == 1 || v == 2 || v == 3 || v == 4 || v == 5 || v == 6 || v == 7 || v == 8 || v == 9 || v == 10
         || v == 11 || v == 12 || v == 13 || v == 14 || v == 15
  {
  }

  /** The lexer's digits and their values are those of the tables. */
  lemma DigitTable(c: Byte)
    ensures HexChar(c) ==> IsHex(c, HexValue(c))
    ensures forall v :: IsHex(c, v) ==> HexChar(c) && HexValue(c) == v
  {
    forall v | IsHex(c, v) ensures HexChar(c) && HexValue(c) == v {
      SixteenCases(v);
    }
    if HexChar(c) {
      SixteenCases(HexValue(c));
    }
  }

  /** Four digits write a number. */
  predicate Hex4(x: seq<Byte>, n: nat)
  {
    && |x| == 4 && n < 0x10000
    && IsHex(x[0], n / 0x1000) && IsHex(x[1], n / 0x100 % 16) && IsHex(x[2], n / 0x10 % 16) && IsHex(x[3], n % 16)
  }

  lemma FourDigits(a: nat, b: nat, c: nat, d: nat)
    requires a < 16 && b < 16 && c < 16 && d < 16
    ensures var n := ((a * 16 + b) * 16 + c) * 16 + d;
      n < 0x10000 && n / 0x1000 == a && n / 0x100 % 16 == b && n / 0x10 % 16 == c && n % 16 == d
  {
    var n := ((a * 16 + b) * 16 + c) * 16 + d;
    assert n / 0x10 == (a * 16 + b) * 16 + c;
    assert n / 0x100 == a * 16 + b;
    assert n / 0x1000 == a;
  }

  /** The lexer's reading of four bytes. */
  lemma HexNumberIs(u: seq<Byte>, i: nat, x: seq<Byte>)
    requires At(u, i, x) && |x| == 4
    ensures FourHex(u, i) ==> Hex4(x, HexNumber(u, i))
    ensures forall n :: Hex4(x, n) ==> FourHex(u, i) && HexNumber(u, i) == n
  {
    hide HexChar;
    hide HexValue;
    hide IsHex;
    AtByte(u, i, x, 0);
    AtByte(u, i, x, 1);
    AtByte(u, i, x, 2);
    AtByte(u, i, x, 3);
    DigitTable(x[0]);
    DigitTable(x[1]);
    DigitTable(x[2]);
    DigitTable(x[3]);
    if FourHex(u, i) {
      HexSmall(x[0]);
      HexSmall(x[1]);
      HexSmall(x[2]);
      HexSmall(x[3]);
      FourDigits(HexValue(x[0]), HexValue(x[1]), HexValue(x[2]), HexValue(x[3]));
    }
    forall n | Hex4(x, n) ensures FourHex(u, i) && HexNumber(u, i) == n {
      HexSplit(n);
    }
  }

  lemma HexSmall(c: Byte)
    requires HexChar(c)
    ensures HexValue(c) < 16
  {
  }

  // ----- string literals -----

  /** One element of a string literal. */
  datatype Element =
    | Raw(c: Byte)
    | Short(letter: Byte, value: Byte)
    | Uni(x: seq<Byte>, n: nat)
    | Pair(x: seq<Byte>, n: nat, y: seq<Byte>, m: nat)

  /** The two-character escapes: the letter and what it stands for. */
  predicate ShortEscape(letter: Byte, value: Byte)
  {
    || (letter == 0x22 && value == 0x22) || (letter == 0x5C && value == 0x5C) || (letter == 0x2F && value == 0x2F)
    || (letter == 0x62 && value == 0x08) || (letter == 0x66 && value == 0x0C) || (letter == 0x6E && value == 0x0A)
    || (letter == 0x72 && value == 0x0D) || (letter == 0x74 && value == 0x09)
  }

  predicate ElementMade(e: Element)
  {
    match e
    case Raw(c) => c >= 0x20 && c != 0x22 && c != 0x5C
    case Short(letter, value) => ShortEscape(letter, value)
    case Uni(x, n) => Hex4(x, n) && !(0xD800 <= n <= 0xDFFF)
    case Pair(x, n, y, m) => Hex4(x, n) && 0xD800 <= n <= 0xDBFF && Hex4(y, m) && 0xDC00 <= m <= 0xDFFF
  }

  predicate Made(es: seq<Element>)
  {
    forall k :: 0 <= k < |es| ==> ElementMade(es[k])
  }

  function ElementText(e: Element): seq<Byte>
  {
    match e
    case Raw(c) => [c]
    case Short(letter, _) => [0x5C, letter]
    case Uni(x, _) => [0x5C, 0x75] + x
    case Pair(x, _, y, _) => [0x5C, 0x75] + x + [0x5C, 0x75] + y
  }

  function ElementBytes(e: Element): seq<Byte>
    requires ElementMade(e)
  {
    match e
    case Raw(c) => [c]
    case Short(_, value) => [value]
    case Uni(_, n) => Encode(n).value
    case Pair(_, n, _, m) => Encode(0x10000 + (n - 0xD800) * 0x400 + (m - 0xDC00)).value
  }

  function Text(es: seq<Element>): seq<Byte>
  {
    if es == [] then [] else ElementText(es[0]) + Text(es[1..])
  }

  function Denoted(es: seq<Element>): seq<Byte>
    requires Made(es)
  {
    if es == [] then [] else ElementBytes(es[0]) + Denoted(es[1..])
  }

  // ----- literals are read -----

  lemma UniAt(u: seq<Byte>, i: nat, x: seq<Byte>, n: nat)
    requires Hex4(x, n) && At(u, i, [0x5C, 0x75] + x)
    ensures i + 6 <= |u| && u[i] == BACKSLASH && u[i + 1] == LOWER_U && FourHex(u, i + 2) && HexNumber(u, i + 2) == n
  {
    hide FourHex;
    hide HexNumber;
    AtJoin(u, i, [0x5C, 0x75], x);
    AtByte(u, i, [0x5C, 0x75], 0);
    AtByte(u, i, [0x5C, 0x75], 1);
    HexNumberIs(u, i + 2, x);
  }

  lemma ElementReads(u: seq<Byte>, i: nat, e: Element)
    requires ElementMade(e) && At(u, i, ElementText(e))
    ensures Reads(u, i, ElementText(e), ElementBytes(e))
  {
    hide Reads;
    match e
    case Raw(c) => ReadPlain(u, i, [c]);
    case Short(letter, value) => ShortReads(u, i, letter, value);
    case Uni(x, n) => UniReads(u, i, x, n);
    case Pair(x, n, y, m) => PairReads(u, i, x, n, y, m);
  }

  lemma ShortReads(u: seq<Byte>, i: nat, letter: Byte, value: Byte)
    requires ShortEscape(letter, value) && At(u, i, [0x5C, letter])
    ensures Reads(u, i, [0x5C, letter], [value])
  {
    AtByte(u, i, [0x5C, letter], 0);
    AtByte(u, i, [0x5C, letter], 1);
  }

  lemma UniReads(u: seq<Byte>, i: nat, x: seq<Byte>, n: nat)
    requires Hex4(x, n) && !(0xD800 <= n <= 0xDFFF) && At(u, i, [0x5C, 0x75] + x)
    ensures Reads(u, i, [0x5C, 0x75] + x, Encode(n).value)
  {
    hide HexNumber;
    hide FourHex;
    hide Encode;
    UniAt(u, i, x, n);
    forall end | i + 6 <= end <= |u|
      ensures Unescape(u, i, end) == Prepend(Encode(n).value, Unescape(u, i + 6, end))
    {
      assert Unicode(u, i, end) == Some((n, i + 6));
    }
  }

  lemma PairReads(u: seq<Byte>, i: nat, x: seq<Byte>, n: nat, y: seq<Byte>, m: nat)
    requires Hex4(x, n) && 0xD800 <= n <= 0xDBFF && Hex4(y, m) && 0xDC00 <= m <= 0xDFFF
    requires At(u, i, [0x5C, 0x75] + x + [0x5C, 0x75] + y)
    ensures Reads(u, i, [0x5C, 0x75] + x + [0x5C, 0x75] + y, Encode(0x10000 + (n - 0xD800) * 0x400 + (m - 0xDC00)).value)
  {
    hide HexNumber;
    hide FourHex;
    hide Encode;
    var a, b := [0x5C, 0x75] + x, [0x5C, 0x75] + y;
    assert a + b == [0x5C, 0x75] + x + [0x5C, 0x75] + y;
    AtJoin(u, i, a, b);
    UniAt(u, i, x, n);
    UniAt(u, i + 6, y, m);
    ScanTwice(u, i);
    var v := 0x10000 + (n - 0xD800) * 0x400 + (m - 0xDC00);
    forall end | i + 12 <= end <= |u|
      ensures Unescape(u, i, end) == Prepend(Encode(v).value, Unescape(u, i + 12, end))
    {
      assert Unicode(u, i, end) == Some((v, i + 12));
    }
  }

  lemma {:induction false} LiteralReads(u: seq<Byte>, i: nat, es: seq<Element>)
    requires Made(es) && At(u, i, Text(es))
    ensures Reads(u, i, Text(es), Denoted(es))
    decreases |es|
  {
    hide Reads;
    hide ElementText;
    hide ElementBytes;
    hide ElementMade;
    if es == [] {
      ReadPlain(u, i, []);
    } else {
      AtJoin(u, i, ElementText(es[0]), Text(es[1..]));
      ElementReads(u, i, es[0]);
      LiteralReads(u, i + |ElementText(es[0])|, es[1..]);
      ReadTwo(u, i, ElementText(es[0]), Text(es[1..]), ElementBytes(es[0]), Denoted(es[1..]));
    }
  }

  // ----- whatever is read is a literal -----

  /** The element at `i`, when the scan and the second pass succeed from there. */
  lemma ElementAt(u: seq<Byte>, i: nat, end: nat) returns (e: Element)
    requires i < end <= |u| && ScanEnd(u, i) == Some(end) && Unescape(u, i, end).Some?
    ensures ElementMade(e) && At(u, i, ElementText(e)) && i + |ElementText(e)| <= end && ElementText(e) != []
  {
    hide HexNumber;
    if u[i] != BACKSLASH {
      e := Raw(u[i]);
    } else if u[i + 1] != LOWER_U {
      e := Short(u[i + 1], Unshorthand(u[i + 1]));
      assert u[i..i + 2] == [u[i], u[i + 1]];
    } else {
      e := UnicodeElement(u, i, end);
    }
  }

  lemma UnicodeElement(u: seq<Byte>, i: nat, end: nat) returns (e: Element)
    requires i + 1 < |u| && u[i] == BACKSLASH && u[i + 1] == LOWER_U && end <= |u| && Unicode(u, i, end).Some?
    ensures ElementMade(e) && At(u, i, ElementText(e)) && i + |ElementText(e)| <= end && ElementText(e) != []
  {
    hide HexNumber;
    hide At;
    hide Hex4;
    hide FourHex;
    var x, n := u[i + 2..i + 6], HexNumber(u, i + 2);
    EscapeSlice(u, i);
    HexNumberIs(u, i + 2, x);
    if 0xD800 <= n <= 0xDBFF {
      var y, m := u[i + 8..i + 12], HexNumber(u, i + 8);
      EscapeSlice(u, i + 6);
      HexNumberIs(u, i + 8, y);
      e := Pair(x, n, y, m);
      AtJoin(u, i, [0x5C, 0x75] + x, [0x5C, 0x75] + y);
      assert ElementText(e) == [0x5C, 0x75] + x + ([0x5C, 0x75] + y);
    } else {
      e := Uni(x, n);
    }
  }

  lemma EscapeSlice(u: seq<Byte>, i: nat)
    requires i + 6 <= |u| && u[i] == 0x5C && u[i + 1] == 0x75
    ensures At(u, i, [0x5C, 0x75] + u[i + 2..i + 6]) && At(u, i + 2, u[i + 2..i + 6])
  {
    assert u[i..i + 6] == [0x5C, 0x75] + u[i + 2..i + 6];
  }

  lemma {:induction false} LiteralAt(u: seq<Byte>, i: nat, end: nat) returns (es: seq<Element>)
    requires i <= end < |u| && ScanEnd(u, i) == Some(end) && Unescape(u, i, end).Some?
    ensures Made(es) && At(u, i, Text(es)) && i + |Text(es)| == end
    decreases end - i
  {
    hide ElementMade;
    hide ElementText;
    if i == end {
      es := [];
    } else {
      var e := ElementAt(u, i, end);
      ElementReads(u, i, e);
      var k := i + |ElementText(e)|;
      var rest := LiteralAt(u, k, end);
      es := [e] + rest;
      assert es[1..] == rest;
      AtJoin(u, i, ElementText(e), Text(rest));
    }
  }

  /** A literal that denotes `y` stands at `i`, with its closing quote before `n`. */
  ghost predicate Literal(u: seq<Byte>, i: nat, y: seq<Byte>, n: nat)
  {
    exists es :: Made(es) && At(u, i, Text(es) + [QUOTE]) && n == i + |Text(es)| + 1 && Denoted(es) == y
  }

  /** The lexer reads a string exactly when a literal stands there, and as what it denotes. */
  lemma LexExactly(u: seq<Byte>, i: nat, y: seq<Byte>, n: nat)
    requires i <= |u|
    ensures LexString(u, i) == Some((y, n)) <==> Literal(u, i, y, n)
  {
    hide ScanEnd;
    hide Unescape;
    hide Text;
    hide Denoted;
    hide Made;
    if LexString(u, i) == Some((y, n)) {
      LiteralFound(u, i, y, n);
    }
    if Literal(u, i, y, n) {
      var es :| Made(es) && At(u, i, Text(es) + [QUOTE]) && n == i + |Text(es)| + 1 && Denoted(es) == y;
      AtJoin(u, i, Text(es), [QUOTE]);
      AtByte(u, i + |Text(es)|, [QUOTE], 0);
      LiteralReads(u, i, es);
      ReadEnd(u, i, Text(es), y);
    }
  }

  lemma LiteralFound(u: seq<Byte>, i: nat, y: seq<Byte>, n: nat)
    requires i <= |u| && LexString(u, i) == Some((y, n))
    ensures Literal(u, i, y, n)
  {
    hide Unescape;
    hide Text;
    hide Denoted;
    hide Made;
    hide At;
    var end := n - 1;
    QuoteEnd(u, i);
    var es := LiteralAt(u, i, end);
    AtQuote(u, end);
    AtJoin(u, i, Text(es), [QUOTE]);
    LiteralReads(u, i, es);
    ReadEnd(u, i, Text(es), Denoted(es));
  }

  lemma AtQuote(u: seq<Byte>, end: nat)
    requires end < |u| && u[end] == QUOTE
    ensures At(u, end, [QUOTE])
  {
  }

  lemma {:induction false} QuoteEnd(u: seq<Byte>, i: nat)
    requires i <= |u| && ScanEnd(u, i).Some?
    ensures u[ScanEnd(u, i).value] == QUOTE
    decreases |u| - i
  {
    if u[i] == QUOTE {
    } else if u[i] != BACKSLASH {
      QuoteEnd(u, i + 1);
    } else if u[i + 1] == LOWER_U {
      QuoteEnd(u, i + 6);
    } else {
      QuoteEnd(u, i + 2);
    }
  }

  // ----- printing -----

  /** `\\uXXXX` with upper-case digits. */
  function Escape4(n: nat): seq<Byte>
    requires n < 0x10000
  {
    [0x5C, 0x75, HEX_UPPER[n / 0x1000], HEX_UPPER[n / 0x100 % 16], HEX_UPPER[n / 0x10 % 16], HEX_UPPER[n % 16]]
  }

  /** The text that is written for one character. */
  function CharText(cp: nat, f: Escapes): seq<Byte>
    requires Scalar(cp)
  {
    if cp == 0x22 then [0x5C, 0x22]
    else if cp == 0x5C then [0x5C, 0x5C]
    else if cp == 0x08 then [0x5C, 0x62]
    else if cp == 0x0C then [0x5C, 0x66]
    else if cp == 0x0A then [0x5C, 0x6E]
    else if cp == 0x0D then [0x5C, 0x72]
    else if cp == 0x09 then [0x5C, 0x74]
    else if cp == 0x2F then (if f.slash then [0x5C, 0x2F] else [0x2F])
    else if cp >= 0x20 && !(f.ascii && cp >= 0x80) then Encode(cp).value
    else if cp < 0x10000 then Escape4(cp)
    else Escape4(0xD800 + (cp - 0x10000) / 0x400) + Escape4(0xDC00 + (cp - 0x10000) % 0x400)
  }

  function CharTexts(cps: seq<int>, f: Escapes): seq<Byte>
    requires Scalars(cps)
  {
    if cps == [] then [] else CharText(cps[0], f) + CharTexts(cps[1..], f)
  }

  lemma UpperDigit(v: nat)
    requires v < 16
    ensures HexDigit(v) == HEX_UPPER[v]
  {
    SixteenCases(v);
  }

  lemma EscapeIs(n: nat)
    requires n < 0x10000
    ensures UnicodeEscape(n) == Escape4(n)
  {
    hide HexDigit;
    UpperDigit(n / 0x1000);
    UpperDigit(n / 0x100 % 16);
    UpperDigit(n / 0x10 % 16);
    UpperDigit(n % 16);
  }

  lemma CharTextIs(cp: nat, f: Escapes)
    requires Scalar(cp)
    ensures CharText(cp, f) == if MustEscape(cp, f) then EscapeText(cp) else Encode(cp).value
  {
    hide UnicodeEscape;
    hide Escape4;
    if cp < 0x10000 {
      EscapeIs(cp);
    } else {
      EscapeIs(0xD800 + (cp - 0x10000) / 0x400);
      EscapeIs(0xDC00 + (cp - 0x10000) % 0x400);
    }
  }

  /** The text from `i` on is written character by character. */
  lemma BodyStep(s: seq<Byte>, i: nat, f: Escapes)
    requires i < |s| && CheckFrom(s, i)
    ensures var (cp, n) := Iterate(s, i).value;
      Scalar(cp) && Body(s, i, f).0 == CharText(cp, f) + Body(s, n, f).0
  {
    hide Iterate;
    hide CharText;
    var (cp, n) := Iterate(s, i).value;
    EncodeDecoded(s, i);
    CharTextIs(cp, f);
    if MustEscape(cp, f) {
      assert s[i..i] + EscapeText(cp) == EscapeText(cp);
    } else {
      RunValid(s, n, f);
      var p := RunEnd(s, n, f).value;
      assert RunEnd(s, i, f) == RunEnd(s, n, f);
      RunJoin(s, i, n, p, f);
    }
  }

  lemma RunJoin(s: seq<Byte>, i: nat, n: nat, p: nat, f: Escapes)
    requires i <= n <= p <= |s| && RunEnd(s, i, f) == RunEnd(s, n, f) == Some(p)
    ensures Body(s, i, f).0 == s[i..n] + Body(s, n, f).0
  {
    hide Iterate;
    hide RunEnd;
    hide EscapeText;
    assert s[i..n] + s[n..p] == s[i..p];
    if p < |s| {
      var (cp, m) := Iterate(s, p).value;
      IterateRange(s, p);
      var rest := Body(s, m, f).0;
      assert s[i..p] + EscapeText(cp) + rest == s[i..n] + (s[n..p] + EscapeText(cp) + rest);
    } else {
      assert s[i..p] == s[i..] && s[n..p] == s[n..];
    }
  }

  lemma {:induction false} BodyExactly(cps: seq<int>, s: seq<Byte>, i: nat, f: Escapes)
    requires Scalars(cps) && i <= |s| && s[i..] == EncodeAll(cps)
    ensures CheckFrom(s, i) && Body(s, i, f).0 == CharTexts(cps, f)
    decreases |cps|
  {
    hide Iterate;
    hide CharText;
    hide Encode;
    EncodedChecks(cps, s, i);
    if cps == [] {
      assert |s[i..]| == 0;
      assert RunEnd(s, i, f) == Some(i);
    } else {
      var e := Encode(cps[0]).value;
      var n := i + |e|;
      assert s[i..][..|e|] == e && s[i..][|e|..] == EncodeAll(cps[1..]);
      assert s[i..n] == s[i..][..|e|] && s[n..] == s[i..][|e|..];
      assert e != [];
      DecodeEncoded(s, i, cps[0]);
      BodyStep(s, i, f);
      BodyExactly(cps[1..], s, n, f);
    }
  }

  /** The printer's text of a string: for every flag, exactly the texts of its characters between quotes. */
  lemma DumpExactly(cps: seq<int>, f: Escapes)
    requires Scalars(cps)
    ensures DumpString(EncodeAll(cps), f) == ([QUOTE] + CharTexts(cps, f) + [QUOTE], true)
  {
    hide Body;
    hide CharTexts;
    var s := EncodeAll(cps);
    assert s[0..] == s;
    BodyExactly(cps, s, 0, f);
    BodyValid(s, 0, f);
  }

  // ----- what the flags do -----

  lemma UpperRange(v: nat)
    requires v < 16
    ensures 0x30 <= HEX_UPPER[v] <= 0x46
  {
    SixteenCases(v);
  }

  lemma EscapeBytes(n: nat)
    requires n < 0x10000
    ensures forall k :: 0 <= k < |Escape4(n)| ==> 0x30 <= Escape4(n)[k] < 0x80
  {
    UpperRange(n / 0x1000);
    UpperRange(n / 0x100 % 16);
    UpperRange(n / 0x10 % 16);
    UpperRange(n % 16);
  }

  lemma HighBytes(cp: nat)
    requires 0x80 <= cp <= 0x10FFFF
    ensures forall k :: 0 <= k < |Encode(cp).value| ==> Encode(cp).value[k] >= 0x80
  {
  }

  lemma CharAscii(cp: nat, f: Escapes)
    requires Scalar(cp) && f.ascii
    ensures forall k :: 0 <= k < |CharText(cp, f)| ==> CharText(cp, f)[k] < 0x80
  {
    hide Escape4;
    if cp < 0x10000 {
      EscapeBytes(cp);
    } else {
      EscapeBytes(0xD800 + (cp - 0x10000) / 0x400);
      EscapeBytes(0xDC00 + (cp - 0x10000) % 0x400);
    }
  }

  /** With the ASCII flag only ASCII is written. */
  lemma {:induction false} AsciiOnly(cps: seq<int>, f: Escapes)
    requires Scalars(cps) && f.ascii
    ensures forall k :: 0 <= k < |CharTexts(cps, f)| ==> CharTexts(cps, f)[k] < 0x80
    decreases |cps|
  {
    hide CharText;
    if cps != [] {
      CharAscii(cps[0], f);
      AsciiOnly(cps[1..], f);
    }
  }

  /** Every slash stands behind a backslash of the same character. */
  predicate SlashesEscaped(x: seq<Byte>)
  {
    forall k :: 0 <= k < |x| && x[k] == 0x2F ==> k > 0 && x[k - 1] == 0x5C
  }

  lemma CharSlash(cp: nat, f: Escapes)
    requires Scalar(cp) && f.slash
    ensures SlashesEscaped(CharText(cp, f))
  {
    hide Escape4;
    if cp < 0x10000 {
      EscapeBytes(cp);
    } else {
      EscapeBytes(0xD800 + (cp - 0x10000) / 0x400);
      EscapeBytes(0xDC00 + (cp - 0x10000) % 0x400);
    }
    if cp >= 0x80 {
      hide Encode;
      HighBytes(cp);
    }
  }

  /** With the slash flag every slash is escaped. */
  lemma {:induction false} SlashOnly(cps: seq<int>, f: Escapes)
    requires Scalars(cps) && f.slash
    ensures SlashesEscaped(CharTexts(cps, f))
    decreases |cps|
  {
    hide CharText;
    if cps != [] {
      CharSlash(cps[0], f);
      SlashOnly(cps[1..], f);
      var a, b := CharText(cps[0], f), CharTexts(cps[1..], f);
      forall k | 0 <= k < |a + b| && (a + b)[k] == 0x2F ensures k > 0 && (a + b)[k - 1] == 0x5C {
        if k < |a| {
          assert a[k] == 0x2F;
        } else {
          assert b[k - |a|] == 0x2F;
        }
      }
    }
  }

  /** Characters that need no escape are copied. */
  lemma {:induction false} OthersCopied(cps: seq<int>, f: Escapes)
    requires Scalars(cps)
    requires forall k :: 0 <= k < |cps| ==> cps[k] >= 0x20 && cps[k] != 0x22 && cps[k] != 0x5C
    requires forall k :: 0 <= k < |cps| ==> (f.slash ==> cps[k] != 0x2F) && (f.ascii ==> cps[k] < 0x80)
    ensures CharTexts(cps, f) == EncodeAll(cps)
    decreases |cps|
  {
    if cps != [] {
      OthersCopied(cps[1..], f);
    }
  }
}
