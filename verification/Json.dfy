/** JSON documents (RFC 8259): the printer, the lexer and the recursive-descent parser as functions. */
module Json {
  import opened Wrappers
  import opened Bytes
  import opened Utf8
  import opened JsonString
  import opened JsonNumber
  import OM = OrderedMap

  const COMMA: Byte := 0x2C
  const LBRACKET: Byte := 0x5B
  const RBRACKET: Byte := 0x5D
  const LBRACE: Byte := 0x7B
  const RBRACE: Byte := 0x7D

  const TRUE_TEXT: seq<Byte> := [0x74, 0x72, 0x75, 0x65]
  const FALSE_TEXT: seq<Byte> := [0x66, 0x61, 0x6C, 0x73, 0x65]
  const NULL_TEXT: seq<Byte> := [0x6E, 0x75, 0x6C, 0x6C]

  const MAX_DEPTH := 2048

  /** Values without the real numbers. Object members are in insertion order. */
  datatype Json =
    | Null
    | Bool(b: bool)
    | Int(n: int)
    | Str(s: seq<Byte>)
    | Arr(items: seq<Json>)
    | Obj(members: seq<(seq<Byte>, Json)>)

  // ----- the printer -----

  datatype Style = Style(indent: nat, compact: bool, escapes: Escapes)

  function Spaces(n: nat): (r: seq<Byte>)
    ensures |r| == n && forall k :: 0 <= k < n ==> r[k] == SP
  {
    if n == 0 then [] else [SP] + Spaces(n - 1)
  }

  /** `dump_indent` */
  function Indent(f: Style, depth: nat, space: bool): seq<Byte>
  {
    if f.indent > 0 then [LF] + Spaces(depth * f.indent)
    else if space && !f.compact then [SP]
    else []
  }

  /** What stands behind the k-th of `n` elements. */
  function After(f: Style, depth: nat, k: nat, n: nat): seq<Byte>
  {
    if k + 1 < n then [COMMA] + Indent(f, depth + 1, true) else Indent(f, depth, false)
  }

  function Separator(f: Style): seq<Byte>
  {
    if f.compact then [COLON] else [COLON, SP]
  }

  /** `do_dump`; `None` is failure. */
  function Dump(j: Json, f: Style, depth: nat): Option<seq<Byte>>
    decreases j
  {
    match j
    case Null => Some(NULL_TEXT)
    case Bool(b) => Some(if b then TRUE_TEXT else FALSE_TEXT)
    case Int(n) => Some(NumberText(n))
    case Str(s) =>
      var out := DumpString(s, f.escapes);
      if out.1 then Some(out.0) else None
    case Arr(items) =>
      if items == [] then Some([LBRACKET, RBRACKET]) else
        (match DumpItems(j, 0, f, depth)
         case None => None
         case Some(t) => Some([LBRACKET] + Indent(f, depth + 1, false) + t + [RBRACKET]))
    case Obj(members) =>
      if members == [] then Some([LBRACE, RBRACE]) else
        (match DumpMembers(j, 0, f, depth)
         case None => None
         case Some(t) => Some([LBRACE] + Indent(f, depth + 1, false) + t + [RBRACE]))
  }

  /** The array elements from the k-th on. */
  function DumpItems(j: Json, k: nat, f: Style, depth: nat): Option<seq<Byte>>
    requires j.Arr? && k <= |j.items|
    decreases j, |j.items| - k
  {
    if k == |j.items| then Some([]) else
      match Dump(j.items[k], f, depth + 1)
      case None => None
      case Some(t) =>
        match DumpItems(j, k + 1, f, depth)
        case None => None
        case Some(rest) => Some(t + After(f, depth, k, |j.items|) + rest)
  }

  /** The object members from the k-th on; the outcome of writing a key is not looked at. */
  function DumpMembers(j: Json, k: nat, f: Style, depth: nat): Option<seq<Byte>>
    requires j.Obj? && k <= |j.members|
    decreases j, |j.members| - k
  {
    if k == |j.members| then Some([]) else
      match Dump(j.members[k].1, f, depth + 1)
      case None => None
      case Some(t) =>
        match DumpMembers(j, k + 1, f, depth)
        case None => None
        case Some(rest) =>
          Some(DumpString(j.members[k].0, f.escapes).0 + Separator(f) + t + After(f, depth, k, |j.members|) + rest)
  }

  // ----- the lexer -----

  datatype Token =
    | Punct(c: Byte)
    | StrTok(s: seq<Byte>)
    | IntTok(n: int)
    | RealTok
    | TrueTok
    | FalseTok
    | NullTok
    | EofTok
    | InvalidTok

  predicate Space(c: Byte) { c == SP || c == HT || c == LF || c == CR }

  predicate PunctChar(c: Byte)
  {
    c == LBRACE || c == RBRACE || c == LBRACKET || c == RBRACKET || c == COLON || c == COMMA
  }

  predicate Alpha(c: Byte) { 0x41 <= c <= 0x5A || 0x61 <= c <= 0x7A }

  function SkipSpace(u: seq<Byte>, i: nat): (r: nat)
    requires i <= |u|
    ensures i <= r <= |u| && (r < |u| ==> !Space(u[r]))
    decreases |u| - i
  {
    if i < |u| && Space(u[i]) then SkipSpace(u, i + 1) else i
  }

  function AlphaEnd(u: seq<Byte>, i: nat): (r: nat)
    requires i <= |u|
    ensures i <= r <= |u|
    decreases |u| - i
  {
    if i < |u| && Alpha(u[i]) then AlphaEnd(u, i + 1) else i
  }

  /** What the input is: its readable bytes, and whether they end because the next ones are no UTF-8. */
  datatype Input = Input(u: seq<Byte>, bad: bool)

  function LexNumber(u: seq<Byte>, i: nat): (r: (Token, nat))
    requires i < |u|
    ensures i <= r.1 <= |u| && (r.1 == i ==> r.0.InvalidTok?)
  {
    match IntegerEnd(u, i)
    case None => (InvalidTok, i)
    case Some(e) =>
      if e < |u| && RealMark(u[e]) then (RealTok, e)
      else if Int64(Signed(u, i, e)) then (IntTok(Signed(u, i, e)), e)
      else (InvalidTok, e)
  }

  function Keyword(word: seq<Byte>): Token
  {
    if word == TRUE_TEXT then TrueTok
    else if word == FALSE_TEXT then FalseTok
    else if word == NULL_TEXT then NullTok
    else InvalidTok
  }

  /** `lex_scan`: the next token and the position behind it. Behind an invalid token nothing is read. */
  function Lex(t: Input, i: nat): (r: (Token, nat))
    requires i <= |t.u|
    ensures i <= r.1 <= |t.u| && (r.1 == i ==> r.0.EofTok? || r.0.InvalidTok?)
  {
    var u, k := t.u, SkipSpace(t.u, i);
    if k == |u| then (if t.bad then InvalidTok else EofTok, k)
    else if PunctChar(u[k]) then (Punct(u[k]), k + 1)
    else if u[k] == QUOTE then
      match LexString(u, k + 1)
      case None => (InvalidTok, k)
      case Some((s, n)) => (StrTok(s), n)
    else if Digit(u[k]) || u[k] == MINUS then LexNumber(u, k)
    else if Alpha(u[k]) then
      var e := AlphaEnd(u, k + 1);
      (Keyword(u[k..e]), e)
    else (InvalidTok, k)
  }

  // ----- the parser -----

  datatype Options = Options(rejectDuplicates: bool, allowNul: bool, decodeAny: bool, checkEof: bool)

  datatype Res<+T> = Ok(value: T, next: nat) | Bad

  predicate HasNul(s: seq<Byte>) { 0 in s }

  /** `parse_value` on a token that ends at `i`; `room` levels of nesting are left. */
  function ParseValue(t: Input, tok: Token, i: nat, room: nat, o: Options): (r: Res<Json>)
    requires i <= |t.u|
    ensures r.Ok? ==> i <= r.next <= |t.u|
    decreases |t.u| - i, room, 0
  {
    if room == 0 then Bad else
      match tok
      case StrTok(s) => if !o.allowNul && HasNul(s) then Bad else Ok(Str(s), i)
      case IntTok(n) => Ok(Int(n), i)
      case TrueTok => Ok(Bool(true), i)
      case FalseTok => Ok(Bool(false), i)
      case NullTok => Ok(Null, i)
      case Punct(c) =>
        if c == LBRACE then ParseObject(t, i, room - 1, o)
        else if c == LBRACKET then ParseArray(t, i, room - 1, o)
        else Bad
      case _ => Bad
  }

  function ParseArray(t: Input, i: nat, room: nat, o: Options): (r: Res<Json>)
    requires i <= |t.u|
    ensures r.Ok? ==> i <= r.next <= |t.u|
    decreases |t.u| - i, room, 2
  {
    var (tok, k) := Lex(t, i);
    if tok == Punct(RBRACKET) then Ok(Arr([]), k) else
      match ParseItems(t, tok, k, room, o)
      case Bad => Bad
      case Ok(items, n) => Ok(Arr(items), n)
  }

  /** The elements from the one that starts with `tok`, and the closing bracket. */
  function ParseItems(t: Input, tok: Token, i: nat, room: nat, o: Options): (r: Res<seq<Json>>)
    requires i <= |t.u|
    ensures r.Ok? ==> i <= r.next <= |t.u|
    decreases |t.u| - i, room, 1
  {
    match ParseValue(t, tok, i, room, o)
    case Bad => Bad
    case Ok(j, k) =>
      var (sep, k1) := Lex(t, k);
      if sep == Punct(COMMA) then
        var (tok', k2) := Lex(t, k1);
        match ParseItems(t, tok', k2, room, o)
        case Bad => Bad
        case Ok(rest, n) => Ok([j] + rest, n)
      else if sep == Punct(RBRACKET) then Ok([j], k1)
      else Bad
  }

  function ParseObject(t: Input, i: nat, room: nat, o: Options): (r: Res<Json>)
    requires i <= |t.u|
    ensures r.Ok? ==> i <= r.next <= |t.u|
    decreases |t.u| - i, room, 2
  {
    var (tok, k) := Lex(t, i);
    if tok == Punct(RBRACE) then Ok(Obj([]), k) else
      match ParseMembers(t, tok, k, [], room, o)
      case Bad => Bad
      case Ok(members, n) => Ok(Obj(members), n)
  }

  /** The members from the one that starts with `tok`, added to those before, and the closing brace. */
  function ParseMembers(t: Input, tok: Token, i: nat, before: seq<(seq<Byte>, Json)>, room: nat, o: Options)
    : (r: Res<seq<(seq<Byte>, Json)>>)
    requires i <= |t.u|
    ensures r.Ok? ==> i <= r.next <= |t.u|
    decreases |t.u| - i, room, 1
  {
    if !tok.StrTok? || HasNul(tok.s) || (o.rejectDuplicates && OM.Look(before, tok.s).Some?) then Bad else
      var (colon, k) := Lex(t, i);
      if colon != Punct(COLON) then Bad else
        var (first, k1) := Lex(t, k);
        match ParseValue(t, first, k1, room, o)
        case Bad => Bad
        case Ok(j, k2) =>
          var members := OM.Put(before, tok.s, j);
          var (sep, k3) := Lex(t, k2);
          if sep == Punct(COMMA) then
            var (tok', k4) := Lex(t, k3);
            ParseMembers(t, tok', k4, members, room, o)
          else if sep == Punct(RBRACE) then Ok(members, k3)
          else Bad
  }

  /** `parse_json` */
  function Parse(t: Input, o: Options): Res<Json>
  {
    var (tok, i) := Lex(t, 0);
    if !o.decodeAny && tok != Punct(LBRACKET) && tok != Punct(LBRACE) then Bad else
      match ParseValue(t, tok, i, MAX_DEPTH, o)
      case Bad => Bad
      case Ok(j, n) => if o.checkEof && Lex(t, n).0 != EofTok then Bad else Ok(j, n)
  }
}
