/** JSON documents against a grammar of their own (RFC 8259 without fractions and exponents): the parser accepts exactly
    the texts of the grammar that keep the limits, as what they mean, and the printer lays every text out by one rule. */
module JsonSyntax {
  import opened Wrappers
  import opened Bytes
  import opened Utf8
  import opened JsonString
  import opened JsonNumber
  import opened Json
  import R = JsonRoundTrip
  import G = JsonGrammar
  import OM = OrderedMap

  // ----- the grammar -----

  /** A value as it is written; `a`, `b`, `c` and `gap` are white space. */
  datatype Syntax =
    | NullWord
    | TrueWord
    | FalseWord
    | Number(minus: bool, digits: seq<Byte>, n: nat)
    | Quoted(es: seq<G.Element>, s: seq<Byte>)
    | NoItems(gap: seq<Byte>)
    | Array(items: Items)
    | NoMembers(gap: seq<Byte>)
    | Object(members: Members)

  datatype Items =
    | LastItem(a: seq<Byte>, v: Syntax, b: seq<Byte>)
    | Item(a: seq<Byte>, v: Syntax, b: seq<Byte>, rest: Items)

  datatype Key = Key(a: seq<Byte>, es: seq<G.Element>, s: seq<Byte>, b: seq<Byte>, c: seq<Byte>)

  datatype Members =
    | LastMember(key: Key, v: Syntax, b: seq<Byte>)
    | Member(key: Key, v: Syntax, b: seq<Byte>, rest: Members)

  /** Space, tab, line feed and carriage return. */
  predicate WhiteByte(c: Byte) { c == 0x20 || c == 0x09 || c == 0x0A || c == 0x0D }

  predicate White(x: seq<Byte>)
  {
    forall k :: 0 <= k < |x| ==> WhiteByte(x[k])
  }

  function QuotedText(es: seq<G.Element>): seq<Byte>
  {
    [0x22] + (G.Text(es) + [0x22])
  }

  function ValueText(v: Syntax): seq<Byte>
  {
    match v
    case NullWord => [0x6E, 0x75, 0x6C, 0x6C]
    case TrueWord => [0x74, 0x72, 0x75, 0x65]
    case FalseWord => [0x66, 0x61, 0x6C, 0x73, 0x65]
    case Number(minus, digits, _) => if minus then [0x2D] + digits else digits
    case Quoted(es, _) => QuotedText(es)
    case NoItems(gap) => [0x5B] + (gap + [0x5D])
    case Array(items) => [0x5B] + ItemsText(items)
    case NoMembers(gap) => [0x7B] + (gap + [0x7D])
    case Object(members) => [0x7B] + MembersText(members)
  }

  function ItemsText(x: Items): seq<Byte>
  {
    x.a + (ValueText(x.v) + (x.b + if x.LastItem? then [0x5D] else [0x2C] + ItemsText(x.rest)))
  }

  function KeyText(k: Key): seq<Byte>
  {
    k.a + (QuotedText(k.es) + (k.b + ([0x3A] + k.c)))
  }

  function MembersText(x: Members): seq<Byte>
  {
    KeyText(x.key) + (ValueText(x.v) + (x.b + if x.LastMember? then [0x7D] else [0x2C] + MembersText(x.rest)))
  }

  /** Decimal digits of value `n`. */
  predicate DecimalText(x: seq<Byte>, n: nat)
  {
    if x == [] then n == 0 else x[|x| - 1] == 0x30 + n % 10 && DecimalText(x[..|x| - 1], n / 10)
  }

  predicate NumberMade(minus: bool, digits: seq<Byte>, n: nat)
  {
    && digits != [] && DecimalText(digits, n) && (|digits| > 1 ==> digits[0] != 0x30)
    && n <= if minus then 0x8000_0000_0000_0000 else 0x7FFF_FFFF_FFFF_FFFF
  }

  predicate StringMade(es: seq<G.Element>, s: seq<Byte>)
  {
    G.Made(es) && G.Denoted(es) == s
  }

  predicate KeyMade(k: Key)
  {
    White(k.a) && White(k.b) && White(k.c) && StringMade(k.es, k.s) && 0 !in k.s
  }

  /** The value is written by the rules, has at most `room` levels, and keeps the options. */
  predicate ValueMade(v: Syntax, room: nat, o: Options)
  {
    room > 0 &&
    match v
    case Number(minus, digits, n) => NumberMade(minus, digits, n)
    case Quoted(es, s) => StringMade(es, s) && (o.allowNul || 0 !in s)
    case NoItems(gap) => White(gap)
    case Array(items) => ItemsMade(items, room - 1, o)
    case NoMembers(gap) => White(gap)
    case Object(members) => MembersMade(members, {}, room - 1, o)
    case _ => true
  }

  predicate ItemsMade(x: Items, room: nat, o: Options)
  {
    White(x.a) && ValueMade(x.v, room, o) && White(x.b) && (x.Item? ==> ItemsMade(x.rest, room, o))
  }

  /** `seen` are the keys of the members before. */
  predicate MembersMade(x: Members, seen: set<seq<Byte>>, room: nat, o: Options)
  {
    && KeyMade(x.key) && !(o.rejectDuplicates && x.key.s in seen) && ValueMade(x.v, room, o) && White(x.b)
    && (x.Member? ==> MembersMade(x.rest, seen + {x.key.s}, room, o))
  }

  /** What the text means: of members with the same key the last one counts, at the place of the first. */
  function Meaning(v: Syntax): Json
  {
    match v
    case NullWord => Null
    case TrueWord => Bool(true)
    case FalseWord => Bool(false)
    case Number(minus, _, n) => Int(if minus then 0 - n else n)
    case Quoted(_, s) => Str(s)
    case NoItems(_) => Arr([])
    case Array(items) => Arr(ItemsMeaning(items))
    case NoMembers(_) => Obj([])
    case Object(members) => Obj(MembersMeaning(members, []))
  }

  function ItemsMeaning(x: Items): seq<Json>
  {
    [Meaning(x.v)] + if x.Item? then ItemsMeaning(x.rest) else []
  }

  function MembersMeaning(x: Members, before: seq<(seq<Byte>, Json)>): seq<(seq<Byte>, Json)>
  {
    var ms := OM.Put(before, x.key.s, Meaning(x.v));
    if x.Member? then MembersMeaning(x.rest, ms) else ms
  }

  /** What may follow: a number or a word does not go on. */
  predicate Stops(v: Syntax, u: seq<Byte>, e: nat)
  {
    e < |u| ==>
      && (v.Number? ==> !(0x30 <= u[e] <= 0x39) && u[e] != 0x2E && u[e] != 0x45 && u[e] != 0x65)
      && (v.NullWord? || v.TrueWord? || v.FalseWord? ==> !(0x41 <= u[e] <= 0x5A) && !(0x61 <= u[e] <= 0x7A))
  }

  // ----- numbers -----

  lemma LastDigit(x: seq<Byte>)
    requires x != []
    ensures AllDigits(x) <==> AllDigits(x[..|x| - 1]) && Digit(x[|x| - 1])
  {
    var p := x[..|x| - 1];
    assert forall k :: 0 <= k < |p| ==> p[k] == x[k];
  }

  lemma {:induction false} DecimalWritten(x: seq<Byte>)
    requires AllDigits(x)
    ensures DecimalText(x, Value(x))
    decreases |x|
  {
    if x != [] {
      LastDigit(x);
      var p, d := x[..|x| - 1], x[|x| - 1] - 0x30;
      DecimalWritten(p);
      assert Value(x) == Value(p) * 10 + d;
    }
  }

  lemma {:induction false} DecimalRead(x: seq<Byte>, n: nat)
    requires DecimalText(x, n)
    ensures AllDigits(x) && Value(x) == n
    decreases |x|
  {
    if x != [] {
      LastDigit(x);
      DecimalRead(x[..|x| - 1], n / 10);
      assert Digit(x[|x| - 1]) && x[|x| - 1] - 0x30 == n % 10;
    }
  }

  lemma NumberEnd(u: seq<Byte>, j: nat, digits: seq<Byte>)
    requires At(u, j, digits) && digits != [] && AllDigits(digits) && (|digits| > 1 ==> digits[0] != 0x30)
    requires j + |digits| < |u| ==> !Digit(u[j + |digits|])
    ensures j < |u| && u[j] != MINUS && Digit(u[j]) && IntegerEnd(u, j) == Some(j + |digits|)
  {
    AtByte(u, j, digits, 0);
    assert digits == [digits[0]] + digits[1..];
    AtJoin(u, j, [digits[0]], digits[1..]);
    if digits[0] != ZERO {
      DigitsRead(u, j + 1, digits[1..]);
    }
  }

  lemma NumberRead(t: Input, i: nat, v: Syntax)
    requires v.Number? && NumberMade(v.minus, v.digits, v.n) && At(t.u, i, ValueText(v)) && Stops(v, t.u, i + |ValueText(v)|)
    ensures i <= |t.u| && Lex(t, i) == (IntTok(if v.minus then 0 - v.n else v.n), i + |ValueText(v)|)
  {
    hide Value;
    hide IntegerEnd;
    hide Signed;
    hide DecimalText;
    hide LexString;
    hide Keyword;
    var u, e := t.u, i + |ValueText(v)|;
    DecimalRead(v.digits, v.n);
    if v.minus {
      AtJoin(u, i, [0x2D], v.digits);
      AtByte(u, i, [0x2D], 0);
      NumberEnd(u, i + 1, v.digits);
      MinusEnd(u, i);
      SignedMinus(u, i, e);
    } else {
      NumberEnd(u, i, v.digits);
      SignedPlain(u, i, e);
    }
    assert SkipSpace(u, i) == i;
  }

  lemma {:induction false} DigitsStop(u: seq<Byte>, i: nat)
    requires i <= |u|
    ensures AllDigits(u[i..DigitsEnd(u, i)]) && (DigitsEnd(u, i) < |u| ==> !Digit(u[DigitsEnd(u, i)]))
    decreases |u| - i
  {
    if i < |u| && Digit(u[i]) {
      DigitsStop(u, i + 1);
      var e := DigitsEnd(u, i);
      assert u[i..e] == [u[i]] + u[i + 1..e];
    }
  }

  lemma IntegerStop(u: seq<Byte>, i: nat)
    requires i < |u| && IntegerEnd(u, i).Some?
    ensures var e, j := IntegerEnd(u, i).value, if u[i] == MINUS then i + 1 else i;
      && j < e && AllDigits(u[j..e]) && (e < |u| ==> !Digit(u[e]))
      && (e > j + 1 ==> u[j] != 0x30)
  {
    var j := if u[i] == MINUS then i + 1 else i;
    var e := IntegerEnd(u, i).value;
    if u[j] != ZERO {
      DigitsStop(u, j + 1);
      assert u[j..e] == [u[j]] + u[j + 1..e];
    }
  }

  lemma NumberFound(t: Input, k: nat, e: nat, n: int) returns (v: Syntax)
    requires k < |t.u| && LexNumber(t.u, k) == (IntTok(n), e)
    ensures v.Number? && NumberMade(v.minus, v.digits, v.n) && Meaning(v) == Int(n)
    ensures At(t.u, k, ValueText(v)) && e == k + |ValueText(v)| && Stops(v, t.u, e)
  {
    hide Value;
    hide IntegerEnd;
    hide DecimalText;
    var u := t.u;
    var j := if u[k] == MINUS then k + 1 else k;
    IntegerStop(u, k);
    DecimalWritten(u[j..e]);
    v := Number(u[k] == MINUS, u[j..e], Value(u[j..e]));
    assert u[j..e][0] == u[j];
    if u[k] == MINUS {
      assert u[k..e] == [0x2D] + u[j..e];
    }
  }

  // ----- words -----

  lemma {:induction false} AlphaRead(u: seq<Byte>, i: nat, x: seq<Byte>)
    requires At(u, i, x) && (forall k :: 0 <= k < |x| ==> Alpha(x[k])) && (i + |x| < |u| ==> !Alpha(u[i + |x|]))
    ensures i + |x| <= |u| && AlphaEnd(u, i) == i + |x|
    decreases |x|
  {
    if x != [] {
      AtByte(u, i, x, 0);
      assert x == [x[0]] + x[1..];
      AtJoin(u, i, [x[0]], x[1..]);
      AlphaRead(u, i + 1, x[1..]);
    }
  }

  lemma WordRead(t: Input, i: nat, x: seq<Byte>)
    requires At(t.u, i, x) && x != [] && (forall k :: 0 <= k < |x| ==> Alpha(x[k]))
    requires i + |x| < |t.u| ==> !Alpha(t.u[i + |x|])
    ensures i <= |t.u| && Lex(t, i) == (Keyword(x), i + |x|)
  {
    hide Keyword;
    AtByte(t.u, i, x, 0);
    AlphaRead(t.u, i, x);
    assert SkipSpace(t.u, i) == i;
    assert AlphaEnd(t.u, i) == AlphaEnd(t.u, i + 1);
  }

  lemma {:induction false} AlphaStop(u: seq<Byte>, i: nat)
    requires i <= |u|
    ensures AlphaEnd(u, i) < |u| ==> !Alpha(u[AlphaEnd(u, i)])
    decreases |u| - i
  {
    if i < |u| && Alpha(u[i]) {
      AlphaStop(u, i + 1);
    }
  }

  // ----- tokens -----

  lemma WhiteRead(t: Input, i: nat, x: seq<Byte>)
    requires At(t.u, i, x) && White(x)
    ensures i + |x| <= |t.u| && Lex(t, i) == Lex(t, i + |x|)
  {
    hide Lex;
    R.LexSkips(t, i, x);
  }

  lemma PunctRead(t: Input, i: nat, x: seq<Byte>, c: Byte)
    requires At(t.u, i, x + [c]) && White(x) && PunctChar(c)
    ensures i <= |t.u| && Lex(t, i) == (Punct(c), i + |x| + 1)
  {
    hide Lex;
    AtJoin(t.u, i, x, [c]);
    WhiteRead(t, i, x);
    AtByte(t.u, i + |x|, [c], 0);
    R.LexPunct(t, i + |x|);
  }

  lemma StringRead(t: Input, i: nat, es: seq<G.Element>, s: seq<Byte>)
    requires At(t.u, i, QuotedText(es)) && StringMade(es, s)
    ensures i <= |t.u| && Lex(t, i) == (StrTok(s), i + |QuotedText(es)|)
  {
    hide LexString;
    hide G.Made;
    hide G.Denoted;
    hide G.Text;
    AtJoin(t.u, i, [0x22], G.Text(es) + [0x22]);
    AtByte(t.u, i, [0x22], 0);
    assert G.Literal(t.u, i + 1, s, i + |QuotedText(es)|);
    G.LexExactly(t.u, i + 1, s, i + |QuotedText(es)|);
    assert SkipSpace(t.u, i) == i;
  }

  lemma {:induction false} SpaceStop(u: seq<Byte>, i: nat)
    requires i <= |u|
    ensures White(u[i..SkipSpace(u, i)])
    decreases |u| - i
  {
    var k := SkipSpace(u, i);
    if i < |u| && Space(u[i]) {
      SpaceStop(u, i + 1);
      assert u[i..k] == [u[i]] + u[i + 1..k];
    }
  }

  lemma PunctFound(t: Input, i: nat, c: Byte, n: nat) returns (x: seq<Byte>)
    requires i <= |t.u| && Lex(t, i) == (Punct(c), n)
    ensures White(x) && At(t.u, i, x + [c]) && n == i + |x| + 1
  {
    var k := SkipSpace(t.u, i);
    SpaceStop(t.u, i);
    x := t.u[i..k];
    assert t.u[i..k + 1] == x + [c];
  }

  lemma StringToken(t: Input, i: nat)
    requires i <= |t.u| && Lex(t, i).0.StrTok?
    ensures var (tok, n), k := Lex(t, i), SkipSpace(t.u, i);
      k < |t.u| && t.u[k] == QUOTE && LexString(t.u, k + 1) == Some((tok.s, n))
  {
    hide LexString;
    hide IntegerEnd;
  }

  lemma SliceAt(u: seq<Byte>, i: nat, k: nat)
    requires i <= k <= |u|
    ensures At(u, i, u[i..k])
  {
  }

  lemma StringFound(t: Input, i: nat, s: seq<Byte>, n: nat) returns (x: seq<Byte>, es: seq<G.Element>)
    requires i <= |t.u| && Lex(t, i) == (StrTok(s), n)
    ensures White(x) && StringMade(es, s) && At(t.u, i, x + QuotedText(es)) && n == i + |x + QuotedText(es)|
  {
    hide Lex;
    hide At;
    hide LexString;
    hide G.Made;
    hide G.Denoted;
    hide G.Text;
    var u, k := t.u, SkipSpace(t.u, i);
    SpaceStop(u, i);
    StringToken(t, i);
    x := u[i..k];
    SliceAt(u, i, k);
    G.LexExactly(u, k + 1, s, n);
    es :| G.Made(es) && At(u, k + 1, G.Text(es) + [QUOTE]) && n == k + 1 + |G.Text(es)| + 1 && G.Denoted(es) == s;
    G.AtQuote(u, k);
    AtJoin(u, k, [0x22], G.Text(es) + [0x22]);
    AtJoin(u, i, x, QuotedText(es));
  }

  // ----- texts of the grammar are parsed -----

  /** The parser reads the value that stands at `i` up to `n` as `j`. */
  ghost predicate Parsed(t: Input, i: nat, j: Json, n: nat, room: nat, o: Options)
  {
    i <= |t.u| && var (tok, k) := Lex(t, i);
    tok != Punct(RBRACKET) && ParseValue(t, tok, k, room, o) == Ok(j, n)
  }

  ghost predicate ParsedItems(t: Input, i: nat, js: seq<Json>, n: nat, room: nat, o: Options)
  {
    i <= |t.u| && var (tok, k) := Lex(t, i);
    tok != Punct(RBRACKET) && ParseItems(t, tok, k, room, o) == Ok(js, n)
  }

  ghost predicate ParsedMembers(t: Input, i: nat, before: seq<(seq<Byte>, Json)>, ms: seq<(seq<Byte>, Json)>, n: nat,
                                room: nat, o: Options)
  {
    i <= |t.u| && var (tok, k) := Lex(t, i);
    tok != Punct(RBRACE) && ParseMembers(t, tok, k, before, room, o) == Ok(ms, n)
  }

  /** The members so far and their keys. */
  ghost predicate Seen(ms: seq<(seq<Byte>, Json)>, seen: set<seq<Byte>>)
  {
    OM.Unique(ms) && forall key :: key in seen <==> OM.Look(ms, key).Some?
  }

  lemma SeenPut(ms: seq<(seq<Byte>, Json)>, seen: set<seq<Byte>>, key: seq<Byte>, j: Json)
    requires Seen(ms, seen)
    ensures Seen(OM.Put(ms, key, j), seen + {key})
  {
    hide OM.Put;
    hide OM.Look;
    hide OM.Unique;
    OM.PutUnique(ms, key, j);
    forall key' ensures key' in seen + {key} <==> OM.Look(OM.Put(ms, key, j), key').Some? {
      OM.LookPut(ms, key, j, key');
    }
  }

  /** Behind a value there is white space and a comma or a closing bracket. */
  lemma StopsBefore(v: Syntax, u: seq<Byte>, e: nat, b: seq<Byte>, c: Byte)
    requires White(b) && At(u, e, b + [c]) && (c == 0x2C || c == 0x5D || c == 0x7D)
    ensures Stops(v, u, e)
  {
    AtByte(u, e, b + [c], 0);
  }

  /** A first part, a value, white space and one byte. */
  lemma Parts(u: seq<Byte>, i: nat, a: seq<Byte>, x: seq<Byte>, b: seq<Byte>, c: Byte, y: seq<Byte>)
    ensures At(u, i, a + (x + (b + ([c] + y))))
       <==> At(u, i, a) && At(u, i + |a|, x) && At(u, i + |a| + |x|, b + [c]) && At(u, i + |a| + |x| + |b| + 1, y)
  {
    hide At;
    AtJoin(u, i, a, x + (b + ([c] + y)));
    AtJoin(u, i + |a|, x, b + ([c] + y));
    assert b + ([c] + y) == (b + [c]) + y;
    AtJoin(u, i + |a| + |x|, b + [c], y);
  }

  function ItemsAfter(x: Items): seq<Byte>
  {
    if x.LastItem? then [] else ItemsText(x.rest)
  }

  lemma ItemsParts(x: Items)
    ensures ItemsText(x) == x.a + (ValueText(x.v) + (x.b + ([if x.LastItem? then 0x5D else 0x2C] + ItemsAfter(x))))
  {
    hide ValueText;
    assert [0x5D as Byte] + [] == [0x5D];
  }

  function MembersAfter(x: Members): seq<Byte>
  {
    if x.LastMember? then [] else MembersText(x.rest)
  }

  lemma MembersParts(x: Members)
    ensures MembersText(x) ==
      KeyText(x.key) + (ValueText(x.v) + (x.b + ([if x.LastMember? then 0x7D else 0x2C] + MembersAfter(x))))
  {
    hide ValueText;
    hide KeyText;
    assert [0x7D as Byte] + [] == [0x7D];
  }

  lemma ScalarParsed(t: Input, i: nat, v: Syntax, room: nat, o: Options)
    requires ValueMade(v, room, o) && At(t.u, i, ValueText(v)) && Stops(v, t.u, i + |ValueText(v)|)
    requires v.NullWord? || v.TrueWord? || v.FalseWord? || v.Number? || v.Quoted?
    ensures Parsed(t, i, Meaning(v), i + |ValueText(v)|, room, o)
  {
    hide Lex;
    hide NumberMade;
    hide StringMade;
    hide QuotedText;
    match v
    case Number(_, _, _) => NumberRead(t, i, v);
    case Quoted(es, s) => StringRead(t, i, es, s);
    case _ => WordRead(t, i, ValueText(v));
  }

  lemma EmptyParsed(t: Input, i: nat, v: Syntax, room: nat, o: Options)
    requires ValueMade(v, room, o) && At(t.u, i, ValueText(v)) && (v.NoItems? || v.NoMembers?)
    ensures Parsed(t, i, Meaning(v), i + |ValueText(v)|, room, o)
  {
    hide Lex;
    hide At;
    hide ParseItems;
    hide ParseMembers;
    var c, d := if v.NoItems? then LBRACKET else LBRACE, if v.NoItems? then RBRACKET else RBRACE;
    AtJoin(t.u, i, [c], v.gap + [d]);
    assert [] + [c] == [c];
    PunctRead(t, i, [], c);
    PunctRead(t, i + 1, v.gap, d);
    if v.NoItems? {
      assert ParseArray(t, i + 1, room - 1, o) == Ok(Arr([]), i + |ValueText(v)|);
    } else {
      assert ParseObject(t, i + 1, room - 1, o) == Ok(Obj([]), i + |ValueText(v)|);
    }
  }

  lemma {:induction false} ValueParsed(t: Input, i: nat, v: Syntax, room: nat, o: Options)
    requires ValueMade(v, room, o) && At(t.u, i, ValueText(v)) && Stops(v, t.u, i + |ValueText(v)|)
    ensures Parsed(t, i, Meaning(v), i + |ValueText(v)|, room, o)
    decreases v, 1
  {
    hide *;
    match v
    case NoItems(_) => EmptyParsed(t, i, v, room, o);
    case NoMembers(_) => EmptyParsed(t, i, v, room, o);
    case Array(items) => ArrayParsed(t, i, v, room, o);
    case Object(members) => ObjectParsed(t, i, v, room, o);
    case _ => ScalarParsed(t, i, v, room, o);
  }

  lemma {:induction false} ArrayParsed(t: Input, i: nat, v: Syntax, room: nat, o: Options)
    requires ValueMade(v, room, o) && v.Array? && At(t.u, i, ValueText(v))
    ensures Parsed(t, i, Meaning(v), i + |ValueText(v)|, room, o)
    decreases v, 0
  {
    hide At;
    hide Parsed;
    hide ParsedItems;
    hide ItemsText;
    hide ItemsMade;
    hide ItemsMeaning;
    AtJoin(t.u, i, [LBRACKET], ItemsText(v.items));
    ItemsParsed(t, i + 1, v.items, room - 1, o);
    ArrayAround(t, i, ItemsMeaning(v.items), i + |ValueText(v)|, room, o);
  }

  lemma {:induction false} ObjectParsed(t: Input, i: nat, v: Syntax, room: nat, o: Options)
    requires ValueMade(v, room, o) && v.Object? && At(t.u, i, ValueText(v))
    ensures Parsed(t, i, Meaning(v), i + |ValueText(v)|, room, o)
    decreases v, 0
  {
    hide At;
    hide Parsed;
    hide ParsedMembers;
    hide MembersText;
    hide MembersMade;
    hide MembersMeaning;
    AtJoin(t.u, i, [LBRACE], MembersText(v.members));
    NothingSeen();
    MembersParsed(t, i + 1, v.members, [], {}, room - 1, o);
    ObjectAround(t, i, MembersMeaning(v.members, []), i + |ValueText(v)|, room, o);
  }

  lemma ArrayAround(t: Input, i: nat, js: seq<Json>, n: nat, room: nat, o: Options)
    requires room > 0 && At(t.u, i, [LBRACKET]) && ParsedItems(t, i + 1, js, n, room - 1, o)
    ensures Parsed(t, i, Arr(js), n, room, o)
  {
    hide Lex;
    hide At;
    hide ParseItems;
    assert [] + [LBRACKET] == [LBRACKET];
    PunctRead(t, i, [], LBRACKET);
    assert ParseArray(t, i + 1, room - 1, o) == Ok(Arr(js), n);
  }

  lemma ObjectAround(t: Input, i: nat, ms: seq<(seq<Byte>, Json)>, n: nat, room: nat, o: Options)
    requires room > 0 && At(t.u, i, [LBRACE]) && ParsedMembers(t, i + 1, [], ms, n, room - 1, o)
    ensures Parsed(t, i, Obj(ms), n, room, o)
  {
    hide Lex;
    hide At;
    hide ParseMembers;
    assert [] + [LBRACE] == [LBRACE];
    PunctRead(t, i, [], LBRACE);
    assert ParseObject(t, i + 1, room - 1, o) == Ok(Obj(ms), n);
  }

  lemma NothingSeen()
    ensures Seen([], {})
  {
  }

  lemma {:induction false} ItemsParsed(t: Input, i: nat, x: Items, room: nat, o: Options)
    requires ItemsMade(x, room, o) && At(t.u, i, ItemsText(x))
    ensures ParsedItems(t, i, ItemsMeaning(x), i + |ItemsText(x)|, room, o)
    decreases x
  {
    hide Lex;
    hide At;
    hide ParseValue;
    hide ValueMade;
    hide ItemsText;
    hide ValueText;
    ItemsParts(x);
    var c: Byte := if x.LastItem? then 0x5D else 0x2C;
    Parts(t.u, i, x.a, ValueText(x.v), x.b, c, ItemsAfter(x));
    var s := i + |x.a|;
    var e := s + |ValueText(x.v)|;
    WhiteRead(t, i, x.a);
    StopsBefore(x.v, t.u, e, x.b, c);
    ValueParsed(t, s, x.v, room, o);
    PunctRead(t, e, x.b, c);
    if x.Item? {
      ItemsParsed(t, e + |x.b| + 1, x.rest, room, o);
    } else {
      assert [Meaning(x.v)] + [] == [Meaning(x.v)];
    }
  }

  lemma KeyParsed(t: Input, i: nat, k: Key)
    requires KeyMade(k) && At(t.u, i, KeyText(k))
    ensures i + |KeyText(k)| <= |t.u| && R.ReadsKey(t, i, k.s, i + |KeyText(k)|)
  {
    hide Lex;
    hide At;
    hide QuotedText;
    hide StringMade;
    Parts(t.u, i, k.a, QuotedText(k.es), k.b, 0x3A, k.c);
    WhiteRead(t, i, k.a);
    StringRead(t, i + |k.a|, k.es, k.s);
    var e := i + |k.a| + |QuotedText(k.es)|;
    PunctRead(t, e, k.b, COLON);
    WhiteRead(t, e + |k.b| + 1, k.c);
  }

  lemma {:induction false} MembersParsed(t: Input, i: nat, x: Members, before: seq<(seq<Byte>, Json)>, seen: set<seq<Byte>>,
                                         room: nat, o: Options)
    requires MembersMade(x, seen, room, o) && At(t.u, i, MembersText(x)) && Seen(before, seen)
    ensures ParsedMembers(t, i, before, MembersMeaning(x, before), i + |MembersText(x)|, room, o)
    decreases x
  {
    hide Lex;
    hide At;
    hide ParseValue;
    hide ValueMade;
    hide MembersText;
    hide ValueText;
    hide KeyText;
    hide OM.Put;
    hide OM.Look;
    hide OM.Unique;
    MembersParts(x);
    var c: Byte := if x.LastMember? then 0x7D else 0x2C;
    Parts(t.u, i, KeyText(x.key), ValueText(x.v), x.b, c, MembersAfter(x));
    var s := i + |KeyText(x.key)|;
    var e := s + |ValueText(x.v)|;
    KeyParsed(t, i, x.key);
    StopsBefore(x.v, t.u, e, x.b, c);
    ValueParsed(t, s, x.v, room, o);
    PunctRead(t, e, x.b, c);
    SeenPut(before, seen, x.key.s, Meaning(x.v));
    if x.Member? {
      MembersParsed(t, e + |x.b| + 1, x.rest, OM.Put(before, x.key.s, Meaning(x.v)), seen + {x.key.s}, room, o);
    }
  }

  // ----- what is parsed is a text of the grammar -----

  lemma WordFound(t: Input, k: nat, e: nat, tok: Token) returns (v: Syntax)
    requires k < e <= |t.u| && e == AlphaEnd(t.u, k + 1) && Keyword(t.u[k..e]) == tok && !tok.InvalidTok?
    ensures v.NullWord? || v.TrueWord? || v.FalseWord?
    ensures At(t.u, k, ValueText(v)) && e == k + |ValueText(v)| && Stops(v, t.u, e)
    ensures tok == if v.NullWord? then NullTok else if v.TrueWord? then TrueTok else FalseTok
  {
    v := if tok == NullTok then NullWord else if tok == TrueTok then TrueWord else FalseWord;
    AlphaStop(t.u, k + 1);
    assert t.u[k..e] == ValueText(v);
  }

  /** Where integers and words come from. */
  lemma TokenKind(t: Input, i: nat)
    requires i <= |t.u|
    ensures var (tok, n), k := Lex(t, i), SkipSpace(t.u, i);
      && (tok.IntTok? ==> k < |t.u| && LexNumber(t.u, k) == (tok, n))
      && (tok.TrueTok? || tok.FalseTok? || tok.NullTok? ==>
           k < n && n == AlphaEnd(t.u, k + 1) && Keyword(t.u[k..n]) == tok)
  {
    hide LexString;
    hide IntegerEnd;
  }

  lemma ScalarFound(t: Input, i: nat, tok: Token, n: nat, j: Json, room: nat, o: Options) returns (a: seq<Byte>, v: Syntax)
    requires i <= |t.u| && Lex(t, i) == (tok, n) && !tok.Punct? && ParseValue(t, tok, n, room, o) == Ok(j, n)
    ensures White(a) && ValueMade(v, room, o) && At(t.u, i, a + ValueText(v)) && n == i + |a + ValueText(v)|
    ensures Meaning(v) == j && Stops(v, t.u, n)
  {
    hide Lex;
    hide Keyword;
    hide LexNumber;
    hide StringMade;
    hide QuotedText;
    hide NumberMade;
    hide At;
    if tok.StrTok? {
      var es;
      a, es := StringFound(t, i, tok.s, n);
      v := Quoted(es, tok.s);
    } else {
      var k := SkipSpace(t.u, i);
      SpaceStop(t.u, i);
      a := t.u[i..k];
      SliceAt(t.u, i, k);
      TokenKind(t, i);
      if tok.IntTok? {
        v := NumberFound(t, k, n, tok.n);
      } else {
        v := WordFound(t, k, n, tok);
      }
      AtJoin(t.u, i, a, ValueText(v));
    }
  }

  /** What the parser has read as `j` up to `n` is a value of the grammar behind white space. */
  ghost predicate ValueAt(t: Input, i: nat, a: seq<Byte>, v: Syntax, j: Json, n: nat, room: nat, o: Options)
  {
    && White(a) && ValueMade(v, room, o) && At(t.u, i, a + ValueText(v)) && n == i + |a + ValueText(v)|
    && Meaning(v) == j && Stops(v, t.u, n)
  }

  lemma {:induction false} ValueFound(t: Input, i: nat, j: Json, n: nat, room: nat, o: Options) returns (a: seq<Byte>, v: Syntax)
    requires i <= |t.u| && ParseValue(t, Lex(t, i).0, Lex(t, i).1, room, o) == Ok(j, n)
    ensures ValueAt(t, i, a, v, j, n, room, o)
    decreases |t.u| - i, 1
  {
    hide Lex;
    hide At;
    hide ParseArray;
    hide ParseObject;
    hide ValueText;
    hide Meaning;
    hide ValueMade;
    hide Stops;
    var (tok, k) := Lex(t, i);
    if tok == Punct(LBRACKET) {
      a := PunctFound(t, i, LBRACKET, k);
      v := ArrayFound(t, i, a, j, n, room, o);
    } else if tok == Punct(LBRACE) {
      a := PunctFound(t, i, LBRACE, k);
      v := ObjectFound(t, i, a, j, n, room, o);
    } else {
      a, v := ScalarFound(t, i, tok, k, j, room, o);
    }
  }

  lemma JoinOpen(u: seq<Byte>, i: nat, a: seq<Byte>, c: Byte, y: seq<Byte>)
    requires At(u, i, a + [c]) && At(u, i + |a| + 1, y)
    ensures At(u, i, a + ([c] + y))
  {
    hide At;
    AtJoin(u, i, a + [c], y);
    assert a + [c] + y == a + ([c] + y);
  }

  lemma {:induction false} ArrayFound(t: Input, i: nat, a: seq<Byte>, j: Json, n: nat, room: nat, o: Options) returns (v: Syntax)
    requires i + |a| < |t.u| && White(a) && At(t.u, i, a + [LBRACKET])
    requires room > 0 && ParseArray(t, i + |a| + 1, room - 1, o) == Ok(j, n)
    ensures ValueAt(t, i, a, v, j, n, room, o)
    decreases |t.u| - i, 0
  {
    hide Lex;
    hide At;
    hide ParseItems;
    hide ItemsText;
    hide ItemsMade;
    hide ItemsMeaning;
    hide White;
    var s := i + |a| + 1;
    var (tok, k) := Lex(t, s);
    if tok == Punct(RBRACKET) {
      var gap := PunctFound(t, s, RBRACKET, k);
      v := NoItems(gap);
      JoinOpen(t.u, i, a, LBRACKET, gap + [RBRACKET]);
    } else {
      var items := ItemsFound(t, s, j.items, n, room - 1, o);
      v := Array(items);
      JoinOpen(t.u, i, a, LBRACKET, ItemsText(items));
    }
  }

  lemma {:induction false} ItemsFound(t: Input, i: nat, js: seq<Json>, n: nat, room: nat, o: Options) returns (x: Items)
    requires i <= |t.u| && ParseItems(t, Lex(t, i).0, Lex(t, i).1, room, o) == Ok(js, n)
    ensures ItemsMade(x, room, o) && At(t.u, i, ItemsText(x)) && n == i + |ItemsText(x)| && ItemsMeaning(x) == js
    decreases |t.u| - i, 2
  {
    hide Lex;
    hide At;
    hide ParseValue;
    hide ItemsText;
    hide ValueText;
    hide ValueMade;
    hide Meaning;
    hide White;
    hide Stops;
    var (tok, k) := Lex(t, i);
    var r := ParseValue(t, tok, k, room, o);
    var a, v := ValueFound(t, i, r.value, r.next, room, o);
    AtJoin(t.u, i, a, ValueText(v));
    var (sep, k1) := Lex(t, r.next);
    var b := PunctFound(t, r.next, sep.c, k1);
    if sep == Punct(COMMA) {
      var q := ParseItems(t, Lex(t, k1).0, Lex(t, k1).1, room, o);
      var rest := ItemsFound(t, k1, q.value, q.next, room, o);
      x := Item(a, v, b, rest);
    } else {
      x := LastItem(a, v, b);
      AtEmpty(t.u, k1);
    }
    ItemsParts(x);
    Parts(t.u, i, a, ValueText(v), b, sep.c, ItemsAfter(x));
  }

  lemma AtEmpty(u: seq<Byte>, k: nat)
    requires k <= |u|
    ensures At(u, k, [])
  {
  }

  lemma {:induction false} ObjectFound(t: Input, i: nat, a: seq<Byte>, j: Json, n: nat, room: nat, o: Options) returns (v: Syntax)
    requires i + |a| < |t.u| && White(a) && At(t.u, i, a + [LBRACE])
    requires room > 0 && ParseObject(t, i + |a| + 1, room - 1, o) == Ok(j, n)
    ensures ValueAt(t, i, a, v, j, n, room, o)
    decreases |t.u| - i, 0
  {
    hide Lex;
    hide At;
    hide ParseMembers;
    hide MembersText;
    hide MembersMade;
    hide MembersMeaning;
    hide White;
    var s := i + |a| + 1;
    var (tok, k) := Lex(t, s);
    if tok == Punct(RBRACE) {
      var gap := PunctFound(t, s, RBRACE, k);
      v := NoMembers(gap);
      JoinOpen(t.u, i, a, LBRACE, gap + [RBRACE]);
    } else {
      NothingSeen();
      var members := MembersFound(t, s, [], {}, j.members, n, room - 1, o);
      v := Object(members);
      JoinOpen(t.u, i, a, LBRACE, MembersText(members));
    }
  }

  /** A key, a colon and white space. */
  lemma KeyFound(t: Input, i: nat, s: seq<Byte>, k: nat, k1: nat, c: seq<Byte>) returns (key: Key)
    requires i <= k <= |t.u| && Lex(t, i) == (StrTok(s), k) && Lex(t, k) == (Punct(COLON), k1)
    requires !HasNul(s) && White(c) && At(t.u, k1, c)
    ensures KeyMade(key) && key.s == s && At(t.u, i, KeyText(key)) && k1 + |c| == i + |KeyText(key)|
  {
    hide Lex;
    hide At;
    hide QuotedText;
    hide StringMade;
    hide White;
    var a, es := StringFound(t, i, s, k);
    AtJoin(t.u, i, a, QuotedText(es));
    var b := PunctFound(t, k, COLON, k1);
    key := Key(a, es, s, b, c);
    Parts(t.u, i, a, QuotedText(es), b, COLON, c);
  }

  lemma {:induction false} MembersFound(t: Input, i: nat, before: seq<(seq<Byte>, Json)>, seen: set<seq<Byte>>,
                                        ms: seq<(seq<Byte>, Json)>, n: nat, room: nat, o: Options) returns (x: Members)
    requires i <= |t.u| && ParseMembers(t, Lex(t, i).0, Lex(t, i).1, before, room, o) == Ok(ms, n) && Seen(before, seen)
    ensures MembersMade(x, seen, room, o) && At(t.u, i, MembersText(x)) && n == i + |MembersText(x)|
    ensures MembersMeaning(x, before) == ms
    decreases |t.u| - i, 2
  {
    hide Lex;
    hide At;
    hide ParseValue;
    hide MembersText;
    hide KeyText;
    hide KeyMade;
    hide ValueText;
    hide ValueMade;
    hide Meaning;
    hide White;
    hide Stops;
    hide HasNul;
    hide OM.Put;
    hide OM.Look;
    hide OM.Unique;
    var (tok, k) := Lex(t, i);
    var (colon, k1) := Lex(t, k);
    var (first, k2) := Lex(t, k1);
    var r := ParseValue(t, first, k2, room, o);
    var c, v := ValueFound(t, k1, r.value, r.next, room, o);
    AtJoin(t.u, k1, c, ValueText(v));
    var key := KeyFound(t, i, tok.s, k, k1, c);
    var (sep, k3) := Lex(t, r.next);
    var b := PunctFound(t, r.next, sep.c, k3);
    if sep == Punct(COMMA) {
      var next := OM.Put(before, tok.s, r.value);
      SeenPut(before, seen, tok.s, r.value);
      var q := ParseMembers(t, Lex(t, k3).0, Lex(t, k3).1, next, room, o);
      var rest := MembersFound(t, k3, next, seen + {tok.s}, q.value, q.next, room, o);
      x := Member(key, v, b, rest);
    } else {
      x := LastMember(key, v, b);
      AtEmpty(t.u, k3);
    }
    MembersParts(x);
    Parts(t.u, i, KeyText(key), ValueText(v), b, sep.c, MembersAfter(x));
  }

  // ----- documents -----

  /** The document starts with white space and a value that means `j` and ends at `n`; it is an array or an object unless
      any value will do, and only white space is behind it if that is asked for. */
  ghost predicate Document(t: Input, j: Json, n: nat, o: Options)
  {
    && (exists a, v :: ValueAt(t, 0, a, v, j, n, MAX_DEPTH, o))
    && (o.decodeAny || j.Arr? || j.Obj?)
    && (o.checkEof ==> n <= |t.u| && White(t.u[n..]) && !t.bad)
  }

  lemma EndExactly(t: Input, n: nat)
    requires n <= |t.u|
    ensures Lex(t, n).0 == EofTok <==> White(t.u[n..]) && !t.bad
  {
    hide LexString;
    var k := SkipSpace(t.u, n);
    SpaceStop(t.u, n);
    if k < |t.u| {
      assert !WhiteByte(t.u[n..][k - n]);
    } else {
      assert t.u[n..k] == t.u[n..];
    }
  }

  /** The first token of a document tells arrays and objects from the rest. */
  lemma TopToken(t: Input, a: seq<Byte>, v: Syntax, j: Json, n: nat, room: nat, o: Options)
    requires ValueAt(t, 0, a, v, j, n, room, o) && (j.Arr? || j.Obj?)
    ensures Lex(t, 0).0 == Punct(LBRACKET) || Lex(t, 0).0 == Punct(LBRACE)
  {
    hide Lex;
    hide ItemsText;
    hide MembersText;
    var c := if j.Arr? then LBRACKET else LBRACE;
    var x := ValueText(v);
    assert x == [c] + x[1..];
    AtJoin(t.u, 0, a, x);
    AtJoin(t.u, |a|, [c], x[1..]);
    AtJoin(t.u, 0, a, [c]);
    PunctRead(t, 0, a, c);
  }

  lemma KindFound(t: Input, tok: Token, i: nat, j: Json, n: nat, o: Options)
    requires i <= |t.u| && ParseValue(t, tok, i, MAX_DEPTH, o) == Ok(j, n) && (tok == Punct(LBRACKET) || tok == Punct(LBRACE))
    ensures j.Arr? || j.Obj?
  {
  }

  lemma DocumentParsed(t: Input, a: seq<Byte>, v: Syntax, j: Json, n: nat, o: Options)
    requires ValueAt(t, 0, a, v, j, n, MAX_DEPTH, o)
    ensures n <= |t.u| && ParseValue(t, Lex(t, 0).0, Lex(t, 0).1, MAX_DEPTH, o) == Ok(j, n)
    ensures j.Arr? || j.Obj? ==> Lex(t, 0).0 == Punct(LBRACKET) || Lex(t, 0).0 == Punct(LBRACE)
  {
    hide Lex;
    hide ValueText;
    hide ValueMade;
    hide Stops;
    hide White;
    hide ParseValue;
    if j.Arr? || j.Obj? {
      TopToken(t, a, v, j, n, MAX_DEPTH, o);
    }
    AtJoin(t.u, 0, a, ValueText(v));
    WhiteRead(t, 0, a);
    ValueParsed(t, |a|, v, MAX_DEPTH, o);
  }

  /** The parser, exactly: it accepts a document as `j` up to `n` if and only if the grammar does. */
  lemma ParseExactly(t: Input, o: Options, j: Json, n: nat)
    ensures Parse(t, o) == Ok(j, n) <==> Document(t, j, n, o)
  {
    hide Lex;
    hide ParseValue;
    hide ValueAt;
    hide White;
    if Parse(t, o) == Ok(j, n) {
      var a, v := ValueFound(t, 0, j, n, MAX_DEPTH, o);
      if !o.decodeAny {
        KindFound(t, Lex(t, 0).0, Lex(t, 0).1, j, n, o);
      }
      EndExactly(t, n);
    }
    if Document(t, j, n, o) {
      var a, v :| ValueAt(t, 0, a, v, j, n, MAX_DEPTH, o);
      DocumentParsed(t, a, v, j, n, o);
      EndExactly(t, n);
    }
  }
}
