/** The HTTP request parser (section 3 of RFC 7230) as functions of a buffer and a position. */
module HttpRequest {
  import opened Wrappers
  import opened Bytes

  /** A parser's answer: success, malformed input (-1), or input that ends too early (-2). */
  datatype Res<+T> = Ok(value: T) | Bad | Part

  datatype Header = Header(name: Option<seq<Byte>>, value: seq<Byte>)

  datatype Request = Request(method_: seq<Byte>, path: seq<Byte>, minor: nat, headers: seq<Header>)

  // ----- byte classes -----

  /** 0x20 to 0x7e, as the unsigned comparison in the code computes it. */
  predicate Printable(c: Byte) { 0x20 <= c < 0x7f }

  /** Bytes that end a request-line token or make it malformed. */
  predicate Control(c: Byte) { c < 0x20 || c == DEL }

  /** Bytes that end a header value. */
  predicate LineControl(c: Byte) { (c < 0x20 && c != HT) || c == DEL }

  predicate Blank(c: Byte) { c == SP || c == HT }

  predicate Digit(c: Byte) { 0x30 <= c <= 0x39 }

  /** The bytes that the token table marks: letters, digits and the other token characters of
      section 3.2.6 of RFC 7230. */
  predicate TokenChar(c: Byte)
  {
    || Digit(c) || 0x41 <= c <= 0x5a || 0x61 <= c <= 0x7a
    || c == 0x21 || 0x23 <= c <= 0x27 || c == 0x2a || c == 0x2b || c == 0x2d || c == 0x2e
    || c == 0x5e || c == 0x5f || c == 0x60 || c == 0x7c || c == 0x7e
  }

  // ----- scanners -----

  /** The space that ends a token. */
  function TokenEnd(s: seq<Byte>, i: nat): (r: Res<nat>)
    requires i <= |s|
    ensures r.Ok? ==> i <= r.value < |s|
    decreases |s| - i
  {
    if i == |s| then Part
    else if s[i] == SP then Ok(i)
    else if Control(s[i]) then Bad
    else TokenEnd(s, i + 1)
  }

  /** The first byte that cannot belong to a header value. */
  function TextEnd(s: seq<Byte>, i: nat): (r: Res<nat>)
    requires i <= |s|
    ensures r.Ok? ==> i <= r.value < |s|
    decreases |s| - i
  {
    if i == |s| then Part else if LineControl(s[i]) then Ok(i) else TextEnd(s, i + 1)
  }

  /** A line end, CR LF or a bare LF: the position behind it. */
  function EndLine(s: seq<Byte>, i: nat): (r: Res<nat>)
    requires i < |s|
    ensures r.Ok? ==> i < r.value <= |s|
  {
    if s[i] == CR then
      if i + 1 == |s| then Part else if s[i + 1] == LF then Ok(i + 2) else Bad
    else if s[i] == LF then Ok(i + 1)
    else Bad
  }

  /** `get_token_to_eol`: the end of the text and the position behind the line end. */
  function Line(s: seq<Byte>, i: nat): (r: Res<(nat, nat)>)
    requires i <= |s|
    ensures r.Ok? ==> i <= r.value.0 < r.value.1 <= |s|
  {
    match TextEnd(s, i)
    case Ok(e) => (match EndLine(s, e) case Ok(n) => Ok((e, n)) case Bad => Bad case Part => Part)
    case Bad => Bad
    case Part => Part
  }

  function DigitsEnd(s: seq<Byte>, i: nat): (r: Res<nat>)
    requires i <= |s|
    ensures r.Ok? ==> i <= r.value < |s|
    decreases |s| - i
  {
    if i == |s| then Part else if Digit(s[i]) then DigitsEnd(s, i + 1) else Ok(i)
  }

  function Decimal(s: seq<Byte>): nat
  {
    if s == [] then 0 else Decimal(s[..|s| - 1]) * 10 + if Digit(s[|s| - 1]) then s[|s| - 1] - 0x30 else 0
  }

  const HTTP1: seq<Byte> := [0x48, 0x54, 0x54, 0x50, 0x2f, 0x31, 0x2e]

  /** The literal `lit`, byte by byte. */
  function Expect(s: seq<Byte>, i: nat, lit: seq<Byte>): (r: Res<nat>)
    requires i <= |s|
    ensures r.Ok? ==> r.value == i + |lit| <= |s|
    decreases |lit|
  {
    if lit == [] then Ok(i)
    else if i == |s| then Part
    else if s[i] != lit[0] then Bad
    else Expect(s, i + 1, lit[1..])
  }

  /** `HTTP/1.` and the minor version: its value and the position behind it. */
  function Version(s: seq<Byte>, i: nat): (r: Res<(nat, nat)>)
    requires i <= |s|
    ensures r.Ok? ==> i < r.value.1 < |s|
  {
    match Expect(s, i, HTTP1)
    case Bad => Bad
    case Part => Part
    case Ok(j) =>
      if j == |s| then Part
      else if !Digit(s[j]) then Bad
      else match DigitsEnd(s, j)
           case Ok(e) => Ok((Decimal(s[j..e]), e))
           case _ => Part
  }

  /** The colon that ends a header name. */
  function NameEnd(s: seq<Byte>, i: nat): (r: Res<nat>)
    requires i <= |s|
    ensures r.Ok? ==> i <= r.value < |s|
    decreases |s| - i
  {
    if i == |s| then Part
    else if s[i] == COLON then Ok(i)
    else if !TokenChar(s[i]) then Bad
    else NameEnd(s, i + 1)
  }

  function SkipBlank(s: seq<Byte>, i: nat): (r: Res<nat>)
    requires i <= |s|
    ensures r.Ok? ==> i <= r.value < |s|
    decreases |s| - i
  {
    if i == |s| then Part else if Blank(s[i]) then SkipBlank(s, i + 1) else Ok(i)
  }

  /** One header line: a name and a value, or the continuation of the line before when it starts
      with a blank and is not the first. */
  function HeaderLine(s: seq<Byte>, i: nat, first: bool): (r: Res<(Header, nat)>)
    requires i < |s|
    ensures r.Ok? ==> i < r.value.1 <= |s|
  {
    if !first && Blank(s[i]) then
      match Line(s, i)
      case Ok((e, n)) => Ok((Header(None, s[i..e]), n))
      case Bad => Bad
      case Part => Part
    else
      match NameEnd(s, i)
      case Bad => Bad
      case Part => Part
      case Ok(c) =>
        if c == i then Bad else
          match SkipBlank(s, c + 1)
          case Ok(j) =>
            (match Line(s, j)
             case Ok((e, n)) => Ok((Header(Some(s[i..c]), s[j..e]), n))
             case Bad => Bad
             case Part => Part)
          case _ => Part
  }

  /** Headers up to and including the empty line. */
  function Headers(s: seq<Byte>, i: nat, k: nat, max: nat): (r: Res<(seq<Header>, nat)>)
    requires i <= |s|
    ensures r.Ok? ==> i < r.value.1 <= |s|
    decreases |s| - i
  {
    if i == |s| then Part
    else if s[i] == CR || s[i] == LF then
      match EndLine(s, i)
      case Ok(n) => Ok(([], n))
      case Bad => Bad
      case Part => Part
    else if k == max then Bad
    else
      match HeaderLine(s, i, k == 0)
      case Bad => Bad
      case Part => Part
      case Ok((h, j)) =>
        match Headers(s, j, k + 1, max)
        case Ok((hs, n)) => Ok(([h] + hs, n))
        case Bad => Bad
        case Part => Part
  }

  /** Two tokens, the version and a line end. */
  function RequestLine(s: seq<Byte>, i: nat): (r: Res<(Request, nat)>)
    requires i <= |s|
    ensures r.Ok? ==> i < r.value.1 <= |s|
  {
    match TokenEnd(s, i)
    case Bad => Bad
    case Part => Part
    case Ok(m) =>
      match TokenEnd(s, m + 1)
      case Bad => Bad
      case Part => Part
      case Ok(p) =>
        match Version(s, p + 1)
        case Bad => Bad
        case Part => Part
        case Ok((minor, v)) =>
          match EndLine(s, v)
          case Bad => Bad
          case Part => Part
          case Ok(n) => Ok((Request(s[i..m], s[m + 1..p], minor, []), n))
  }

  /** `parse_request`: one empty line may come first. */
  function ParseRequest(s: seq<Byte>, max: nat): (r: Res<(Request, nat)>)
    ensures r.Ok? ==> 0 < r.value.1 <= |s|
  {
    if s == [] then Part else
      match (if s[0] == CR || s[0] == LF then EndLine(s, 0) else Ok(0))
      case Bad => Bad
      case Part => Part
      case Ok(i) =>
        match RequestLine(s, i)
        case Bad => Bad
        case Part => Part
        case Ok((req, j)) =>
          match Headers(s, j, 0, max)
          case Bad => Bad
          case Part => Part
          case Ok((hs, n)) => Ok((req.(headers := hs), n))
  }

  // ----- the resume check -----

  /** Two line ends in a row, the first of which may have been counted before. */
  function Complete(s: seq<Byte>, i: nat, count: nat): (r: Res<nat>)
    requires i <= |s|
    ensures r.Ok? ==> i < r.value <= |s|
    decreases |s| - i
  {
    if i == |s| then Part
    else if s[i] == CR || s[i] == LF then
      match EndLine(s, i)
      case Ok(n) => if count + 1 == 2 then Ok(n) else Complete(s, n, count + 1)
      case Bad => Bad
      case Part => Part
    else Complete(s, i + 1, 0)
  }

  /** `phr_parse_request` called again with more input: first look for the end of the request from
      three bytes before the old end. */
  function Resume(s: seq<Byte>, lastLen: nat, max: nat): Res<(Request, nat)>
    requires lastLen <= |s|
  {
    if lastLen == 0 then ParseRequest(s, max) else
      match Complete(s, if lastLen < 3 then 0 else lastLen - 3, 0)
      case Ok(_) => ParseRequest(s, max)
      case Bad => Bad
      case Part => Part
  }
}
