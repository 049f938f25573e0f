/** The request parser accepts exactly the serialised requests, and reads back what was written. */
module HttpGrammar {
  import opened Wrappers
  import opened Bytes
  import opened HttpRequest

  // ----- bytes -----

  /** The characters of a token, one by one as section 3.2.6 of RFC 7230 lists them. */
  predicate TokenListed(c: int)
  {
    c in {
      0x21, 0x23, 0x24, 0x25, 0x26, 0x27, 0x2A, 0x2B, 0x2D, 0x2E, 0x5E, 0x5F, 0x60, 0x7C, 0x7E,
      0x30, 0x31, 0x32, 0x33, 0x34, 0x35, 0x36, 0x37, 0x38, 0x39,
      0x41, 0x42, 0x43, 0x44, 0x45, 0x46, 0x47, 0x48, 0x49, 0x4A, 0x4B, 0x4C, 0x4D,
      0x4E, 0x4F, 0x50, 0x51, 0x52, 0x53, 0x54, 0x55, 0x56, 0x57, 0x58, 0x59, 0x5A,
      0x61, 0x62, 0x63, 0x64, 0x65, 0x66, 0x67, 0x68, 0x69, 0x6A, 0x6B, 0x6C, 0x6D,
      0x6E, 0x6F, 0x70, 0x71, 0x72, 0x73, 0x74, 0x75, 0x76, 0x77, 0x78, 0x79, 0x7A}
  }

  lemma TokenTable(c: Byte)
    ensures TokenChar(c) <==> TokenListed(c)
  {
  }

  // ----- serialised requests -----

  datatype Eol = CrLf | BareLf

  function EolBytes(e: Eol): seq<Byte>
  {
    if e == CrLf then [0x0D, 0x0A] else [0x0A]
  }

  /** A header as it stands on the wire: a field, or a line that continues the one before. */
  datatype WireHeader =
    | Field(name: seq<Byte>, blanks: seq<Byte>, value: seq<Byte>, eol: Eol)
    | Fold(text: seq<Byte>, eol: Eol)

  datatype WireRequest = WireRequest(
    lead: Option<Eol>, method_: seq<Byte>, path: seq<Byte>, digits: seq<Byte>, eol: Eol,
    headers: seq<WireHeader>, last: Eol)

  predicate Token(x: seq<Byte>)
  {
    forall k :: 0 <= k < |x| ==> 0x21 <= x[k] <= 0x7E || x[k] >= 0x80
  }

  predicate Text(x: seq<Byte>)
  {
    forall k :: 0 <= k < |x| ==> x[k] == 0x09 || 0x20 <= x[k] <= 0x7E || x[k] >= 0x80
  }

  predicate Digits(x: seq<Byte>)
  {
    forall k :: 0 <= k < |x| ==> 0x30 <= x[k] <= 0x39
  }

  predicate Name(x: seq<Byte>)
  {
    forall k :: 0 <= k < |x| ==> TokenChar(x[k])
  }

  predicate Blanks(x: seq<Byte>)
  {
    forall k :: 0 <= k < |x| ==> x[k] == 0x20 || x[k] == 0x09
  }

  predicate ValidHeader(h: WireHeader, first: bool)
  {
    match h
    case Field(name, blanks, value, _) =>
      name != [] && Name(name) && Blanks(blanks) && Text(value) && (value != [] ==> value[0] != 0x20 && value[0] != 0x09)
    case Fold(text, _) => !first && text != [] && (text[0] == 0x20 || text[0] == 0x09) && Text(text)
  }

  predicate ValidHeaders(hs: seq<WireHeader>, first: bool)
  {
    hs != [] ==> ValidHeader(hs[0], first) && ValidHeaders(hs[1..], false)
  }

  predicate Valid(w: WireRequest)
  {
    Token(w.method_) && Token(w.path) && w.digits != [] && Digits(w.digits) && ValidHeaders(w.headers, true)
  }

  function HeaderBytes(h: WireHeader): seq<Byte>
  {
    match h
    case Field(name, blanks, value, eol) => name + [0x3A] + blanks + value + EolBytes(eol)
    case Fold(text, eol) => text + EolBytes(eol)
  }

  function HeadersBytes(hs: seq<WireHeader>): seq<Byte>
  {
    if hs == [] then [] else HeaderBytes(hs[0]) + HeadersBytes(hs[1..])
  }

  function LeadBytes(lead: Option<Eol>): seq<Byte>
  {
    match lead case None => [] case Some(e) => EolBytes(e)
  }

  /** `HTTP/1.` */
  const VERSION: seq<Byte> := [0x48, 0x54, 0x54, 0x50, 0x2F, 0x31, 0x2E]

  function LineBytes(w: WireRequest): seq<Byte>
  {
    w.method_ + [0x20] + w.path + [0x20] + VERSION + w.digits + EolBytes(w.eol)
  }

  function RequestBytes(w: WireRequest): seq<Byte>
  {
    LeadBytes(w.lead) + LineBytes(w) + HeadersBytes(w.headers) + EolBytes(w.last)
  }

  function HeaderMeaning(h: WireHeader): Header
  {
    match h
    case Field(name, _, value, _) => Header(Some(name), value)
    case Fold(text, _) => Header(None, text)
  }

  function HeadersMeaning(hs: seq<WireHeader>): seq<Header>
  {
    if hs == [] then [] else [HeaderMeaning(hs[0])] + HeadersMeaning(hs[1..])
  }

  function Meaning(w: WireRequest): Request
  {
    Request(w.method_, w.path, Decimal(w.digits), HeadersMeaning(w.headers))
  }

  // ----- scanners: `At` gives the answer -----

  lemma AtTail(s: seq<Byte>, i: nat, x: seq<Byte>)
    requires x != []
    ensures At(s, i, x) <==> i < |s| && s[i] == x[0] && At(s, i + 1, x[1..])
  {
    AtJoin(s, i, [x[0]], x[1..]);
    assert x == [x[0]] + x[1..];
  }

  lemma AtSlice(s: seq<Byte>, i: nat, j: nat)
    requires i <= j <= |s|
    ensures At(s, i, s[i..j])
  {
  }

  lemma AtIs(s: seq<Byte>, i: nat, x: seq<Byte>)
    requires At(s, i, x)
    ensures i + |x| <= |s| && s[i..i + |x|] == x
  {
  }

  lemma {:induction false} TokenReads(s: seq<Byte>, i: nat, x: seq<Byte>)
    requires At(s, i, x) && Token(x) && i + |x| < |s| && s[i + |x|] == SP
    ensures TokenEnd(s, i) == Ok(i + |x|)
    decreases |x|
  {
    if x != [] {
      AtTail(s, i, x);
      TokenReads(s, i + 1, x[1..]);
    }
  }

  lemma {:induction false} TokenWritten(s: seq<Byte>, i: nat)
    requires i <= |s| && TokenEnd(s, i).Ok?
    ensures s[TokenEnd(s, i).value] == SP && Token(s[i..TokenEnd(s, i).value])
    decreases |s| - i
  {
    if s[i] != SP {
      TokenWritten(s, i + 1);
      assert s[i..TokenEnd(s, i).value] == [s[i]] + s[i + 1..TokenEnd(s, i).value];
    }
  }

  lemma {:induction false} TextReads(s: seq<Byte>, i: nat, x: seq<Byte>)
    requires At(s, i, x) && Text(x) && i + |x| < |s| && LineControl(s[i + |x|])
    ensures TextEnd(s, i) == Ok(i + |x|)
    decreases |x|
  {
    if x != [] {
      AtTail(s, i, x);
      TextReads(s, i + 1, x[1..]);
    }
  }

  lemma {:induction false} TextWritten(s: seq<Byte>, i: nat)
    requires i <= |s| && TextEnd(s, i).Ok?
    ensures Text(s[i..TextEnd(s, i).value]) && LineControl(s[TextEnd(s, i).value])
    decreases |s| - i
  {
    if !LineControl(s[i]) {
      TextWritten(s, i + 1);
      assert s[i..TextEnd(s, i).value] == [s[i]] + s[i + 1..TextEnd(s, i).value];
    }
  }

  lemma {:induction false} DigitsRead(s: seq<Byte>, i: nat, x: seq<Byte>)
    requires At(s, i, x) && Digits(x) && i + |x| < |s| && !Digit(s[i + |x|])
    ensures DigitsEnd(s, i) == Ok(i + |x|)
    decreases |x|
  {
    if x != [] {
      AtTail(s, i, x);
      DigitsRead(s, i + 1, x[1..]);
    }
  }

  lemma {:induction false} DigitsWritten(s: seq<Byte>, i: nat)
    requires i <= |s| && DigitsEnd(s, i).Ok?
    ensures Digits(s[i..DigitsEnd(s, i).value]) && !Digit(s[DigitsEnd(s, i).value])
    decreases |s| - i
  {
    if Digit(s[i]) {
      DigitsWritten(s, i + 1);
      assert s[i..DigitsEnd(s, i).value] == [s[i]] + s[i + 1..DigitsEnd(s, i).value];
    }
  }

  lemma {:induction false} NameReads(s: seq<Byte>, i: nat, x: seq<Byte>)
    requires At(s, i, x) && Name(x) && i + |x| < |s| && s[i + |x|] == COLON
    ensures NameEnd(s, i) == Ok(i + |x|)
    decreases |x|
  {
    if x != [] {
      AtTail(s, i, x);
      NameReads(s, i + 1, x[1..]);
    }
  }

  lemma {:induction false} NameWritten(s: seq<Byte>, i: nat)
    requires i <= |s| && NameEnd(s, i).Ok?
    ensures Name(s[i..NameEnd(s, i).value]) && s[NameEnd(s, i).value] == COLON
    decreases |s| - i
  {
    if s[i] != COLON {
      NameWritten(s, i + 1);
      assert s[i..NameEnd(s, i).value] == [s[i]] + s[i + 1..NameEnd(s, i).value];
    }
  }

  lemma {:induction false} BlanksRead(s: seq<Byte>, i: nat, x: seq<Byte>)
    requires At(s, i, x) && Blanks(x) && i + |x| < |s| && !Blank(s[i + |x|])
    ensures SkipBlank(s, i) == Ok(i + |x|)
    decreases |x|
  {
    if x != [] {
      AtTail(s, i, x);
      BlanksRead(s, i + 1, x[1..]);
    }
  }

  lemma {:induction false} BlanksWritten(s: seq<Byte>, i: nat)
    requires i <= |s| && SkipBlank(s, i).Ok?
    ensures Blanks(s[i..SkipBlank(s, i).value]) && !Blank(s[SkipBlank(s, i).value])
    decreases |s| - i
  {
    if Blank(s[i]) {
      BlanksWritten(s, i + 1);
      assert s[i..SkipBlank(s, i).value] == [s[i]] + s[i + 1..SkipBlank(s, i).value];
    }
  }

  lemma {:induction false} LiteralReads(s: seq<Byte>, i: nat, lit: seq<Byte>)
    requires i <= |s|
    ensures Expect(s, i, lit).Ok? <==> At(s, i, lit)
    ensures At(s, i, lit) ==> Expect(s, i, lit) == Ok(i + |lit|)
    decreases |lit|
  {
    if lit != [] {
      AtTail(s, i, lit);
      if i < |s| {
        LiteralReads(s, i + 1, lit[1..]);
      }
    }
  }

  lemma EolReads(s: seq<Byte>, i: nat, e: Eol)
    requires At(s, i, EolBytes(e))
    ensures i < |s| && (s[i] == CR || s[i] == LF) && EndLine(s, i) == Ok(i + |EolBytes(e)|)
  {
    AtByte(s, i, EolBytes(e), 0);
    if e == CrLf {
      AtByte(s, i, EolBytes(e), 1);
    }
  }

  function EolOf(c: Byte): Eol
  {
    if c == CR then CrLf else BareLf
  }

  lemma EolWritten(s: seq<Byte>, i: nat)
    requires i < |s| && EndLine(s, i).Ok?
    ensures s[i] == CR || s[i] == LF
    ensures At(s, i, EolBytes(EolOf(s[i]))) && EndLine(s, i).value == i + |EolBytes(EolOf(s[i]))|
  {
  }

  // ----- reading what was written -----

  lemma LineReads(s: seq<Byte>, i: nat, x: seq<Byte>, e: Eol)
    requires At(s, i, x) && Text(x) && At(s, i + |x|, EolBytes(e))
    ensures Line(s, i) == Ok((i + |x|, i + |x| + |EolBytes(e)|))
  {
    EolReads(s, i + |x|, e);
    TextReads(s, i, x);
  }

  lemma FieldFrom(s: seq<Byte>, i: nat, first: bool, c: nat, j: nat, e: nat, n: nat)
    requires i < c < j <= e < n <= |s| && TokenChar(s[i])
    requires NameEnd(s, i) == Ok(c) && SkipBlank(s, c + 1) == Ok(j) && Line(s, j) == Ok((e, n))
    ensures HeaderLine(s, i, first) == Ok((Header(Some(s[i..c]), s[j..e]), n))
  {
    hide NameEnd;
    hide SkipBlank;
    hide Line;
  }

  lemma NotBlankAt(s: seq<Byte>, j: nat, value: seq<Byte>, eol: Eol)
    requires At(s, j, value) && At(s, j + |value|, EolBytes(eol)) && (value != [] ==> value[0] != 0x20 && value[0] != 0x09)
    ensures j < |s| && !Blank(s[j])
  {
    EolReads(s, j + |value|, eol);
    if value != [] {
      AtByte(s, j, value, 0);
    }
  }

  lemma FieldReads(s: seq<Byte>, i: nat, name: seq<Byte>, blanks: seq<Byte>, value: seq<Byte>, eol: Eol, first: bool)
    requires At(s, i, name + [COLON] + blanks + value + EolBytes(eol))
    requires name != [] && Name(name) && Blanks(blanks) && Text(value) && (value != [] ==> value[0] != 0x20 && value[0] != 0x09)
    ensures i < |s| && TokenChar(s[i])
    ensures HeaderLine(s, i, first)
         == Ok((Header(Some(name), value), i + |name + [COLON] + blanks + value + EolBytes(eol)|))
  {
    hide *;
    AtField(s, i, name, blanks, value, eol);
    var c := i + |name|;
    var j := c + 1 + |blanks|;
    AtIs(s, i, name);
    AtIs(s, j, value);
    AtByte(s, i, name, 0);
    assert TokenChar(s[i]) by { NameFirst(name); }
    NameReads(s, i, name);
    NotBlankAt(s, j, value, eol);
    BlanksRead(s, c + 1, blanks);
    LineReads(s, j, value, eol);
    FieldFrom(s, i, first, c, j, j + |value|, j + |value| + |EolBytes(eol)|);
  }

  lemma NameFirst(name: seq<Byte>)
    requires name != [] && Name(name)
    ensures TokenChar(name[0])
  {
  }

  lemma FoldReads(s: seq<Byte>, i: nat, h: WireHeader, first: bool)
    requires At(s, i, HeaderBytes(h)) && ValidHeader(h, first) && h.Fold?
    ensures i < |s| && Blank(s[i])
    ensures HeaderLine(s, i, first) == Ok((HeaderMeaning(h), i + |HeaderBytes(h)|))
  {
    hide At;
    hide Line;
    hide EolBytes;
    hide Text;
    AtJoin(s, i, h.text, EolBytes(h.eol));
    AtByte(s, i, h.text, 0);
    LineReads(s, i, h.text, h.eol);
    AtIs(s, i, h.text);
  }

  lemma HeaderReads(s: seq<Byte>, i: nat, h: WireHeader, first: bool)
    requires At(s, i, HeaderBytes(h)) && ValidHeader(h, first)
    ensures i < |s| && s[i] != CR && s[i] != LF
    ensures HeaderLine(s, i, first) == Ok((HeaderMeaning(h), i + |HeaderBytes(h)|))
  {
    hide HeaderLine;
    if h.Field? {
      FieldReads(s, i, h.name, h.blanks, h.value, h.eol, first);
    } else {
      FoldReads(s, i, h, first);
    }
  }

  lemma AtField(s: seq<Byte>, i: nat, name: seq<Byte>, blanks: seq<Byte>, value: seq<Byte>, eol: Eol)
    ensures At(s, i, name + [COLON] + blanks + value + EolBytes(eol)) <==>
      At(s, i, name) && i + |name| < |s| && s[i + |name|] == COLON && At(s, i + |name| + 1, blanks)
      && At(s, i + |name| + 1 + |blanks|, value) && At(s, i + |name| + 1 + |blanks| + |value|, EolBytes(eol))
  {
    AtJoin(s, i, name + [COLON] + blanks + value, EolBytes(eol));
    AtJoin(s, i, name + [COLON] + blanks, value);
    AtJoin(s, i, name + [COLON], blanks);
    AtJoin(s, i, name, [COLON]);
    AtTail(s, i + |name|, [COLON]);
  }

  lemma {:induction false} HeadersRead(s: seq<Byte>, i: nat, hs: seq<WireHeader>, last: Eol, k: nat, max: nat)
    requires At(s, i, HeadersBytes(hs)) && At(s, i + |HeadersBytes(hs)|, EolBytes(last))
    requires ValidHeaders(hs, k == 0) && k + |hs| <= max
    ensures Headers(s, i, k, max) == Ok((HeadersMeaning(hs), i + |HeadersBytes(hs)| + |EolBytes(last)|))
    decreases |hs|
  {
    hide HeaderLine;
    hide HeaderBytes;
    hide EndLine;
    hide At;
    hide EolBytes;
    hide ValidHeader;
    hide HeaderMeaning;
    if hs == [] {
      EolReads(s, i, last);
    } else {
      AtJoin(s, i, HeaderBytes(hs[0]), HeadersBytes(hs[1..]));
      HeaderReads(s, i, hs[0], k == 0);
      HeadersRead(s, i + |HeaderBytes(hs[0])|, hs[1..], last, k + 1, max);
    }
  }

  lemma AtLine(s: seq<Byte>, i: nat, w: WireRequest, m: nat, p: nat, d: nat)
    requires m == i + |w.method_| && p == m + 1 + |w.path| && d == p + 1 + |HTTP1|
    ensures At(s, i, LineBytes(w)) <==>
      At(s, i, w.method_) && m < |s| && s[m] == SP && At(s, m + 1, w.path) && p < |s| && s[p] == SP
      && At(s, p + 1, HTTP1) && At(s, d, w.digits) && At(s, d + |w.digits|, EolBytes(w.eol))
  {
    hide At;
    AtJoin(s, i, w.method_ + [SP] + w.path + [SP] + HTTP1 + w.digits, EolBytes(w.eol));
    AtJoin(s, i, w.method_ + [SP] + w.path + [SP] + HTTP1, w.digits);
    AtJoin(s, i, w.method_ + [SP] + w.path + [SP], HTTP1);
    AtJoin(s, i, w.method_ + [SP] + w.path, [SP]);
    AtJoin(s, i, w.method_ + [SP], w.path);
    AtJoin(s, i, w.method_, [SP]);
    AtOne(s, m, SP);
    AtOne(s, p, SP);
  }

  lemma AtOne(s: seq<Byte>, i: nat, c: Byte)
    ensures At(s, i, [c]) <==> i < |s| && s[i] == c
  {
    AtTail(s, i, [c]);
  }

  lemma FirstDigit(x: seq<Byte>)
    requires x != [] && Digits(x)
    ensures Digit(x[0])
  {
  }

  lemma VersionReads(s: seq<Byte>, i: nat, digits: seq<Byte>, eol: Eol)
    requires At(s, i, HTTP1) && digits != [] && Digits(digits)
    requires At(s, i + |HTTP1|, digits) && At(s, i + |HTTP1| + |digits|, EolBytes(eol))
    ensures Version(s, i) == Ok((Decimal(digits), i + |HTTP1| + |digits|))
  {
    hide At;
    hide Expect;
    hide DigitsEnd;
    hide Decimal;
    hide EndLine;
    hide EolBytes;
    hide Digits;
    FirstDigit(digits);
    AtIs(s, i + |HTTP1|, digits);
    LiteralReads(s, i, HTTP1);
    EolReads(s, i + |HTTP1| + |digits|, eol);
    AtByte(s, i + |HTTP1|, digits, 0);
    DigitsRead(s, i + |HTTP1|, digits);
  }

  lemma RequestLineReads(s: seq<Byte>, i: nat, w: WireRequest)
    requires At(s, i, LineBytes(w)) && Valid(w)
    ensures RequestLine(s, i) == Ok((Request(w.method_, w.path, Decimal(w.digits), []), i + |LineBytes(w)|))
  {
    hide *;
    var m := i + |w.method_|;
    var p := m + 1 + |w.path|;
    var d := p + 1 + |HTTP1|;
    AtLine(s, i, w, m, p, d);
    LineLength(w);
    ValidParts(w);
    TokenReads(s, i, w.method_);
    TokenReads(s, m + 1, w.path);
    VersionReads(s, p + 1, w.digits, w.eol);
    EolReads(s, d + |w.digits|, w.eol);
    AtIs(s, i, w.method_);
    AtIs(s, m + 1, w.path);
    LineFrom(s, i, m, p, Decimal(w.digits), d + |w.digits|, d + |w.digits| + |EolBytes(w.eol)|);
  }

  lemma LineFrom(s: seq<Byte>, i: nat, m: nat, p: nat, minor: nat, v: nat, n: nat)
    requires i <= m < p < |s| && TokenEnd(s, i) == Ok(m) && TokenEnd(s, m + 1) == Ok(p)
    requires Version(s, p + 1) == Ok((minor, v)) && EndLine(s, v) == Ok(n)
    ensures RequestLine(s, i) == Ok((Request(s[i..m], s[m + 1..p], minor, []), n))
  {
    hide TokenEnd;
    hide Version;
    hide EndLine;
  }

  lemma LineLength(w: WireRequest)
    ensures |LineBytes(w)| == |w.method_| + |w.path| + |w.digits| + |HTTP1| + 2 + |EolBytes(w.eol)|
  {
  }

  lemma ValidParts(w: WireRequest)
    requires Valid(w)
    ensures Token(w.method_) && Token(w.path) && w.digits != [] && Digits(w.digits)
  {
  }

  lemma LineStart(s: seq<Byte>, i: nat, w: WireRequest)
    requires At(s, i, LineBytes(w)) && Valid(w)
    ensures i < |s| && s[i] != CR && s[i] != LF
  {
    AtLine(s, i, w, i + |w.method_|, i + |w.method_| + 1 + |w.path|, i + |w.method_| + 2 + |w.path| + |HTTP1|);
    if w.method_ != [] {
      AtByte(s, i, w.method_, 0);
    }
  }

  lemma AtRequest(s: seq<Byte>, w: WireRequest, i: nat, j: nat)
    requires i == |LeadBytes(w.lead)| && j == i + |LineBytes(w)|
    ensures At(s, 0, RequestBytes(w)) <==>
      At(s, 0, LeadBytes(w.lead)) && At(s, i, LineBytes(w)) && At(s, j, HeadersBytes(w.headers))
      && At(s, j + |HeadersBytes(w.headers)|, EolBytes(w.last))
  {
    hide At;
    hide LineBytes;
    hide HeadersBytes;
    AtJoin(s, 0, LeadBytes(w.lead) + LineBytes(w) + HeadersBytes(w.headers), EolBytes(w.last));
    AtJoin(s, 0, LeadBytes(w.lead) + LineBytes(w), HeadersBytes(w.headers));
    AtJoin(s, 0, LeadBytes(w.lead), LineBytes(w));
  }

  /** A buffer that starts with a serialised request parses to that request and its length. */
  lemma RequestReads(s: seq<Byte>, w: WireRequest, max: nat)
    requires At(s, 0, RequestBytes(w)) && Valid(w) && |w.headers| <= max
    ensures ParseRequest(s, max) == Ok((Meaning(w), |RequestBytes(w)|))
  {
    hide At;
    hide RequestLine;
    hide Headers;
    hide LineBytes;
    hide HeadersBytes;
    hide HeadersMeaning;
    hide ValidHeaders;
    hide EndLine;
    var i := |LeadBytes(w.lead)|;
    var j := i + |LineBytes(w)|;
    AtRequest(s, w, i, j);
    LineStart(s, i, w);
    if w.lead.Some? {
      EolReads(s, 0, w.lead.value);
    }
    RequestLineReads(s, i, w);
    HeadersRead(s, j, w.headers, w.last, 0, max);
  }

  /** Round trip: a serialised request followed by any bytes parses to exactly its method, path,
      version and headers and consumes exactly its length. */
  lemma RoundTrip(w: WireRequest, rest: seq<Byte>, max: nat)
    requires Valid(w) && |w.headers| <= max
    ensures ParseRequest(RequestBytes(w) + rest, max) == Ok((Meaning(w), |RequestBytes(w)|))
  {
    assert At(RequestBytes(w) + rest, 0, RequestBytes(w));
    RequestReads(RequestBytes(w) + rest, w, max);
  }

  // ----- whatever parses was written so -----

  lemma FoldWritten(s: seq<Byte>, i: nat) returns (h: WireHeader)
    requires i < |s| && Blank(s[i]) && Line(s, i).Ok?
    ensures ValidHeader(h, false) && At(s, i, HeaderBytes(h)) && h.Fold?
    ensures Line(s, i) == Ok((i + |h.text|, i + |HeaderBytes(h)|)) && h.text == s[i..i + |h.text|]
  {
    hide TextEnd;
    hide EndLine;
    hide At;
    var e := TextEnd(s, i).value;
    TextWritten(s, i);
    EolWritten(s, e);
    h := Fold(s[i..e], EolOf(s[e]));
    AtSlice(s, i, e);
    AtJoin(s, i, s[i..e], EolBytes(EolOf(s[e])));
  }

  lemma FieldWritten(s: seq<Byte>, i: nat, c: nat, j: nat, e: nat, n: nat) returns (h: WireHeader)
    requires i < c < j < |s| && NameEnd(s, i) == Ok(c) && SkipBlank(s, c + 1) == Ok(j)
    requires Line(s, j) == Ok((e, n)) && j <= e < n <= |s|
    ensures h.Field? && ValidHeader(h, true) && ValidHeader(h, false) && At(s, i, HeaderBytes(h))
    ensures h.name == s[i..c] && h.value == s[j..e] && i + |HeaderBytes(h)| == n
  {
    hide TextEnd;
    hide NameEnd;
    hide SkipBlank;
    hide EndLine;
    hide At;
    hide Name;
    hide Blanks;
    hide Text;
    NameWritten(s, i);
    BlanksWritten(s, c + 1);
    TextWritten(s, j);
    EolWritten(s, e);
    h := Field(s[i..c], s[c + 1..j], s[j..e], EolOf(s[e]));
    AtSlice(s, i, c);
    AtSlice(s, c + 1, j);
    AtSlice(s, j, e);
    AtField(s, i, s[i..c], s[c + 1..j], s[j..e], EolOf(s[e]));
    assert j < e ==> s[j..e][0] == s[j];
  }

  lemma HeaderWritten(s: seq<Byte>, i: nat, first: bool) returns (h: WireHeader)
    requires i < |s| && HeaderLine(s, i, first).Ok?
    ensures ValidHeader(h, first) && At(s, i, HeaderBytes(h))
    ensures HeaderLine(s, i, first) == Ok((HeaderMeaning(h), i + |HeaderBytes(h)|))
  {
    hide Line;
    hide NameEnd;
    hide SkipBlank;
    hide At;
    hide HeaderBytes;
    if !first && Blank(s[i]) {
      h := FoldWritten(s, i);
    } else {
      var c := NameEnd(s, i).value;
      var j := SkipBlank(s, c + 1).value;
      var (e, n) := Line(s, j).value;
      h := FieldWritten(s, i, c, j, e, n);
    }
  }

  lemma HeadersCons(h: WireHeader, t: seq<WireHeader>, first: bool)
    ensures HeadersBytes([h] + t) == HeaderBytes(h) + HeadersBytes(t)
    ensures HeadersMeaning([h] + t) == [HeaderMeaning(h)] + HeadersMeaning(t)
    ensures ValidHeaders([h] + t, first) <==> ValidHeader(h, first) && ValidHeaders(t, false)
  {
    assert ([h] + t)[1..] == t;
  }

  lemma HeadersNil(s: seq<Byte>, i: nat)
    requires i <= |s|
    ensures HeadersBytes([]) == [] && HeadersMeaning([]) == [] && At(s, i, []) && forall b :: ValidHeaders([], b)
  {
  }

  lemma {:induction false} HeadersWritten(s: seq<Byte>, i: nat, k: nat, max: nat) returns (hs: seq<WireHeader>, last: Eol)
    requires i <= |s| && Headers(s, i, k, max).Ok? && k <= max
    ensures ValidHeaders(hs, k == 0) && k + |hs| <= max
    ensures At(s, i, HeadersBytes(hs)) && At(s, i + |HeadersBytes(hs)|, EolBytes(last))
    ensures Headers(s, i, k, max) == Ok((HeadersMeaning(hs), i + |HeadersBytes(hs)| + |EolBytes(last)|))
    decreases |s| - i
  {
    hide HeaderLine;
    hide HeaderBytes;
    hide EndLine;
    hide ValidHeader;
    hide At;
    hide HeadersMeaning;
    hide HeadersBytes;
    hide ValidHeaders;
    HeadersNil(s, i);
    if s[i] == CR || s[i] == LF {
      EolWritten(s, i);
      hs, last := [], EolOf(s[i]);
    } else {
      var h := HeaderWritten(s, i, k == 0);
      var j := i + |HeaderBytes(h)|;
      var t;
      t, last := HeadersWritten(s, j, k + 1, max);
      hs := [h] + t;
      HeadersCons(h, t, k == 0);
      AtJoin(s, i, HeaderBytes(h), HeadersBytes(t));
    }
  }

  lemma RequestLineWritten(s: seq<Byte>, i: nat, lead: Option<Eol>, hs: seq<WireHeader>, last: Eol) returns (w: WireRequest)
    requires i <= |s| && RequestLine(s, i).Ok? && ValidHeaders(hs, true)
    ensures Valid(w) && At(s, i, LineBytes(w)) && w.lead == lead && w.headers == hs && w.last == last
    ensures RequestLine(s, i) == Ok((Request(w.method_, w.path, Decimal(w.digits), []), i + |LineBytes(w)|))
  {
    hide TokenEnd;
    hide Expect;
    hide DigitsEnd;
    hide EndLine;
    hide ValidHeaders;
    hide Decimal;
    hide At;
    hide Token;
    hide Digits;
    var m := TokenEnd(s, i).value;
    var p := TokenEnd(s, m + 1).value;
    var d := p + 1 + |HTTP1|;
    var v := Version(s, p + 1).value.1;
    TokenWritten(s, i);
    TokenWritten(s, m + 1);
    LiteralReads(s, p + 1, HTTP1);
    DigitsWritten(s, d);
    EolWritten(s, v);
    w := WireRequest(lead, s[i..m], s[m + 1..p], s[d..v], EolOf(s[v]), hs, last);
    AtSlice(s, i, m);
    AtSlice(s, m + 1, p);
    AtSlice(s, d, v);
    AtLine(s, i, w, m, p, d);
  }

  lemma RequestWritten(s: seq<Byte>, max: nat) returns (w: WireRequest)
    requires ParseRequest(s, max).Ok?
    ensures Valid(w) && |w.headers| <= max && At(s, 0, RequestBytes(w))
    ensures ParseRequest(s, max) == Ok((Meaning(w), |RequestBytes(w)|))
  {
    hide RequestLine;
    hide Headers;
    hide LineBytes;
    hide HeadersBytes;
    hide HeadersMeaning;
    hide ValidHeaders;
    hide EndLine;
    hide At;
    var i := if s[0] == CR || s[0] == LF then EndLine(s, 0).value else 0;
    var lead := if s[0] == CR || s[0] == LF then Some(EolOf(s[0])) else None;
    if s[0] == CR || s[0] == LF {
      EolWritten(s, 0);
    }
    assert At(s, 0, LeadBytes(lead)) by { AtEmpty(s); }
    var j := RequestLine(s, i).value.1;
    var hs, last := HeadersWritten(s, j, 0, max);
    w := RequestLineWritten(s, i, lead, hs, last);
    AtRequest(s, w, i, j);
  }

  lemma AtEmpty(s: seq<Byte>)
    ensures At(s, 0, [])
  {
  }

  /** `req` is written at the start of `s` in `n` bytes and with at most `max` headers. */
  ghost predicate Written(s: seq<Byte>, max: nat, req: Request, n: nat)
  {
    exists w :: Valid(w) && |w.headers| <= max && At(s, 0, RequestBytes(w)) && Meaning(w) == req && |RequestBytes(w)| == n
  }

  /** The parser succeeds exactly on the buffers that start with a serialised request, and the
      serialisation determines the request and its length. */
  lemma ParseExact(s: seq<Byte>, max: nat, req: Request, n: nat)
    ensures ParseRequest(s, max) == Ok((req, n)) <==> Written(s, max, req, n)
  {
    hide ParseRequest;
    hide Meaning;
    hide RequestBytes;
    hide Valid;
    hide At;
    if ParseRequest(s, max) == Ok((req, n)) {
      var w := RequestWritten(s, max);
      assert Written(s, max, req, n);
    }
    if Written(s, max, req, n) {
      var w :| Valid(w) && |w.headers| <= max && At(s, 0, RequestBytes(w)) && Meaning(w) == req && |RequestBytes(w)| == n;
      RequestReads(s, w, max);
    }
  }
}
