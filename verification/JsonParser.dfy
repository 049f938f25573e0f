/** The recursive-descent parser over the lexer's mutable state. Objects are collected in hash tables. */
module JsonParser {
  import opened Wrappers
  import opened Bytes
  import opened Json
  import opened JsonStream
  import opened JsonLexer
  import OM = OrderedMap
  import HashTable

  // ----- what the loops have read and what is left -----

  function JoinItems(before: seq<Json>, r: Res<seq<Json>>): Res<seq<Json>>
  {
    match r case Bad => Bad case Ok(rest, n) => Ok(before + rest, n)
  }

  function ArrayOf(r: Res<seq<Json>>): Res<Json>
  {
    match r case Bad => Bad case Ok(items, n) => Ok(Arr(items), n)
  }

  function ObjectOf(r: Res<seq<(seq<Byte>, Json)>>): Res<Json>
  {
    match r case Bad => Bad case Ok(members, n) => Ok(Obj(members), n)
  }

  /** `r` is the answer of the specification, and on success the lexer stands where it says. */
  ghost predicate Answers(r: Option<Json>, position: nat, spec: Res<Json>)
  {
    match spec
    case Bad => r == None
    case Ok(j, n) => r == Some(j) && position == n
  }

  /** A token that no value starts with, wherever it ends. */
  lemma NoValue(t: Input, tok: Token, i: nat, room: nat, o: Options, before: seq<(seq<Byte>, Json)>)
    requires i <= |t.u| && (tok.InvalidTok? || tok.EofTok?)
    ensures ParseValue(t, tok, i, room, o) == Bad && ParseItems(t, tok, i, room, o) == Bad
    ensures ParseMembers(t, tok, i, before, room, o) == Bad
  {
  }

  lemma ItemsStep(t: Input, tok: Token, i: nat, room: nat, o: Options, before: seq<Json>)
    requires i <= |t.u|
    ensures match ParseValue(t, tok, i, room, o)
            case Bad => ParseItems(t, tok, i, room, o) == Bad
            case Ok(j, k) =>
              var (sep, k1) := Lex(t, k);
              if sep == Punct(COMMA) then
                (var (tok', k2) := Lex(t, k1);
                 JoinItems(before, ParseItems(t, tok, i, room, o)) == JoinItems(before + [j], ParseItems(t, tok', k2, room, o)))
              else if sep == Punct(RBRACKET) then JoinItems(before, ParseItems(t, tok, i, room, o)) == Ok(before + [j], k1)
              else ParseItems(t, tok, i, room, o) == Bad
  {
    hide Lex;
    hide ParseValue;
    var r := ParseValue(t, tok, i, room, o);
    if r.Ok? {
      var (sep, k1) := Lex(t, r.next);
      if sep == Punct(COMMA) {
        var (tok', k2) := Lex(t, k1);
        var rest := ParseItems(t, tok', k2, room, o);
        if rest.Ok? {
          assert before + ([r.value] + rest.value) == before + [r.value] + rest.value;
        }
      }
    }
  }

  lemma JoinNothing(r: Res<seq<Json>>)
    ensures JoinItems([], r) == r
  {
    if r.Ok? {
      assert [] + r.value == r.value;
    }
  }

  // ----- the parser -----

  class Parser {
    const lex: Lexer
    const hashOf: seq<Byte> -> nat
    const options: Options

    constructor (data: seq<Byte>, hashOf: seq<Byte> -> nat, options: Options)
      ensures lex.Valid() && fresh(lex) && fresh(lex.stream) && lex.stream.position == 0 && lex.stream.data == data
      ensures this.options == options
    {
      this.lex := new Lexer(data);
      this.hashOf, this.options := hashOf, options;
    }

    ghost function Room(): int
      reads lex
    {
      MAX_DEPTH - lex.depth
    }

    method ParseArrayText() returns (r: Option<Json>)
      requires lex.Valid() && lex.depth <= MAX_DEPTH && lex.stream.position <= |lex.Text().u|
      modifies lex, lex.stream
      ensures lex.Valid() && old(lex.stream.position) <= lex.stream.position <= |lex.Text().u|
      ensures Answers(r, lex.stream.position,
        ParseArray(old(lex.Text()), old(lex.stream.position), old(Room()), options))
      ensures r.Some? ==> lex.depth == old(lex.depth)
      decreases |lex.Text().u| - lex.stream.position, Room(), 2
    {
      hide Lex;
      hide ParseItems;
      hide ParseValue;
      hide Stream.Valid;
      hide Readable;
      ghost var t, room, depth := lex.Text(), Room(), lex.depth;
      ghost var start := lex.stream.position;
      ghost var spec := ParseArray(t, start, room, options);
      lex.Scan();
      if lex.token == Punct(RBRACKET) {
        return Some(Arr([]));
      }
      NoValueIf(t, lex.token, lex.stream.position, Lex(t, start).1, room, options);
      var items := [];
      JoinNothing(ParseItems(t, lex.token, lex.stream.position, room, options));
      while lex.token != EofTok
        invariant lex.Valid() && lex.Text() == t && lex.depth == depth && start <= lex.stream.position <= |t.u|
        invariant spec == ArrayOf(JoinItems(items, ParseItems(t, lex.token, lex.stream.position, room, options)))
        decreases |t.u| - lex.stream.position
      {
        ghost var at := lex.stream.position;
        ItemsStep(t, lex.token, at, room, options, items);
        var elem := ParseValueText();
        if elem.None? {
          return None;
        }
        items := items + [elem.value];
        ghost var sepAt := lex.stream.position;
        lex.Scan();
        if lex.token != Punct(COMMA) {
          if lex.token != Punct(RBRACKET) {
            return None;
          }
          return Some(Arr(items));
        }
        ghost var next := lex.stream.position;
        lex.Scan();
        NoValueIf(t, lex.token, lex.stream.position, Lex(t, next).1, room, options);
      }
      NoValue(t, lex.token, lex.stream.position, room, options, []);
      return None;
    }

    /** One member, added to the table; false on failure. */
    method ParseMember(table: HashTable.Table<seq<Byte>, Json>) returns (ok: bool)
      requires lex.Valid() && lex.depth <= MAX_DEPTH && lex.stream.position <= |lex.Text().u| && table.Valid()
      modifies lex, lex.stream, table
      ensures lex.Valid() && old(lex.stream.position) <= lex.stream.position <= |lex.Text().u| && table.Valid()
      ensures match OneMember(old(lex.Text()), old(lex.token), old(lex.stream.position), old(table.Entries()), old(Room()), options)
              case Bad => !ok
              case Ok(members, n) => ok && table.Entries() == members && lex.stream.position == n && lex.depth == old(lex.depth)
      decreases |lex.Text().u| - lex.stream.position, Room(), 1
    {
      hide Lex;
      hide ParseValue;
      hide ParseItems;
      hide Stream.Valid;
      hide Readable;
      hide HashTable.Table.Valid;
      hide HashTable.Table.Entries;
      hide OM.Put;
      hide OM.Look;
      hide HasNul;
      ghost var t, room := lex.Text(), Room();
      if !lex.token.StrTok? {
        return false;
      }
      var key := lex.token.s;
      if HasNul(key) {
        return false;
      }
      if options.rejectDuplicates {
        var known := table.Get(key);
        if known.Some? {
          return false;
        }
      }
      lex.Scan();
      if lex.token != Punct(COLON) {
        return false;
      }
      ghost var valueAt := lex.stream.position;
      lex.Scan();
      NoValueIf(t, lex.token, lex.stream.position, Lex(t, valueAt).1, room, options);
      var value := ParseValueText();
      if value.None? {
        return false;
      }
      table.Set(key, value.value);
      return true;
    }

    method ParseObjectText() returns (r: Option<Json>)
      requires lex.Valid() && lex.depth <= MAX_DEPTH && lex.stream.position <= |lex.Text().u|
      modifies lex, lex.stream
      ensures lex.Valid() && old(lex.stream.position) <= lex.stream.position <= |lex.Text().u|
      ensures Answers(r, lex.stream.position,
        ParseObject(old(lex.Text()), old(lex.stream.position), old(Room()), options))
      ensures r.Some? ==> lex.depth == old(lex.depth)
      decreases |lex.Text().u| - lex.stream.position, Room(), 2
    {
      hide Lex;
      hide ParseMembers;
      hide OneMember;
      hide Stream.Valid;
      hide Readable;
      hide HashTable.Table.Valid;
      hide HashTable.Table.Entries;
      ghost var t, room, depth := lex.Text(), Room(), lex.depth;
      ghost var start := lex.stream.position;
      ghost var spec := ParseObject(t, start, room, options);
      var table := new HashTable.Table<seq<Byte>, Json>(hashOf);
      lex.Scan();
      if lex.token == Punct(RBRACE) {
        var none := table.Walk();
        return Some(Obj(none));
      }
      NoMembersIf(t, lex.token, lex.stream.position, Lex(t, start).1, table.Entries(), room, options);
      while true
        invariant lex.Valid() && lex.Text() == t && lex.depth == depth && start <= lex.stream.position <= |t.u|
        invariant fresh(table) && table.Valid()
        invariant spec == ObjectOf(ParseMembers(t, lex.token, lex.stream.position, table.Entries(), room, options))
        decreases |t.u| - lex.stream.position
      {
        MembersStep(t, lex.token, lex.stream.position, table.Entries(), room, options);
        var ok := ParseMember(table);
        if !ok {
          return None;
        }
        lex.Scan();
        if lex.token != Punct(COMMA) {
          if lex.token != Punct(RBRACE) {
            return None;
          }
          var members := table.Walk();
          return Some(Obj(members));
        }
        ghost var next := lex.stream.position;
        lex.Scan();
        NoMembersIf(t, lex.token, lex.stream.position, Lex(t, next).1, table.Entries(), room, options);
      }
      assert false;
    }

    method ParseValueText() returns (r: Option<Json>)
      requires lex.Valid() && lex.depth <= MAX_DEPTH && lex.stream.position <= |lex.Text().u|
      modifies lex, lex.stream
      ensures lex.Valid() && old(lex.stream.position) <= lex.stream.position <= |lex.Text().u|
      ensures Answers(r, lex.stream.position,
        ParseValue(old(lex.Text()), old(lex.token), old(lex.stream.position), old(Room()), options))
      ensures r.Some? ==> lex.depth == old(lex.depth)
      decreases |lex.Text().u| - lex.stream.position, Room(), 0
    {
      hide Lex;
      hide ParseArray;
      hide ParseObject;
      hide Stream.Valid;
      hide Readable;
      lex.depth := lex.depth + 1;
      if lex.depth > MAX_DEPTH {
        return None;
      }
      match lex.token {
        case StrTok(s) =>
          if !options.allowNul && HasNul(s) {
            return None;
          }
          r := Some(Str(s));
        case IntTok(n) => r := Some(Int(n));
        case TrueTok => r := Some(Bool(true));
        case FalseTok => r := Some(Bool(false));
        case NullTok => r := Some(Null);
        case Punct(c) =>
          if c == LBRACE {
            r := ParseObjectText();
          } else if c == LBRACKET {
            r := ParseArrayText();
          } else {
            return None;
          }
        case _ => return None;
      }
      if r.None? {
        return None;
      }
      lex.depth := lex.depth - 1;
    }

    /** `parse_json` */
    method ParseText() returns (r: Option<Json>)
      requires lex.Valid() && lex.stream.position == 0
      modifies lex, lex.stream
      ensures r == match Parse(old(lex.Text()), options) case Bad => None case Ok(j, _) => Some(j)
    {
      hide Lex;
      hide ParseValue;
      hide Stream.Valid;
      hide Readable;
      lex.depth := 0;
      ghost var t := lex.Text();
      lex.Scan();
      if !options.decodeAny {
        if lex.token != Punct(LBRACKET) && lex.token != Punct(LBRACE) {
          return None;
        }
      }
      NoValueIf(t, lex.token, lex.stream.position, Lex(t, 0).1, MAX_DEPTH, options);
      r := ParseValueText();
      if r.None? {
        return None;
      }
      if options.checkEof {
        lex.Scan();
        if lex.token != EofTok {
          return None;
        }
      }
    }
  }

  /** The position behind an invalid token does not matter. */
  lemma NoValueIf(t: Input, tok: Token, i: nat, i': nat, room: nat, o: Options)
    requires i <= |t.u| && i' <= |t.u| && (!tok.InvalidTok? ==> i == i')
    ensures ParseValue(t, tok, i, room, o) == ParseValue(t, tok, i', room, o)
    ensures ParseItems(t, tok, i, room, o) == ParseItems(t, tok, i', room, o)
  {
    if tok.InvalidTok? {
      NoValue(t, tok, i, room, o, []);
      NoValue(t, tok, i', room, o, []);
    }
  }

  lemma NoMembersIf(t: Input, tok: Token, i: nat, i': nat, before: seq<(seq<Byte>, Json)>, room: nat, o: Options)
    requires i <= |t.u| && i' <= |t.u| && (!tok.InvalidTok? ==> i == i')
    ensures ParseMembers(t, tok, i, before, room, o) == ParseMembers(t, tok, i', before, room, o)
  {
    if tok.InvalidTok? {
      NoValue(t, tok, i, room, o, before);
      NoValue(t, tok, i', room, o, before);
    }
  }

  /** One member: the members afterwards and the position behind its value. */
  function OneMember(t: Input, tok: Token, i: nat, before: seq<(seq<Byte>, Json)>, room: nat, o: Options)
    : (r: Res<seq<(seq<Byte>, Json)>>)
    requires i <= |t.u|
    ensures r.Ok? ==> i <= r.next <= |t.u|
  {
    if !tok.StrTok? || HasNul(tok.s) || (o.rejectDuplicates && OM.Look(before, tok.s).Some?) then Bad else
      var (colon, k) := Lex(t, i);
      if colon != Punct(COLON) then Bad else
        var (first, k1) := Lex(t, k);
        match ParseValue(t, first, k1, room, o)
        case Bad => Bad
        case Ok(j, k2) => Ok(OM.Put(before, tok.s, j), k2)
  }

  lemma MembersStep(t: Input, tok: Token, i: nat, before: seq<(seq<Byte>, Json)>, room: nat, o: Options)
    requires i <= |t.u|
    ensures ParseMembers(t, tok, i, before, room, o) ==
      match OneMember(t, tok, i, before, room, o)
      case Bad => Bad
      case Ok(members, k2) =>
        var (sep, k3) := Lex(t, k2);
        if sep == Punct(COMMA) then
          (var (tok', k4) := Lex(t, k3);
           ParseMembers(t, tok', k4, members, room, o))
        else if sep == Punct(RBRACE) then Ok(members, k3)
        else Bad
  {
    hide Lex;
    hide ParseValue;
    hide OM.Put;
    hide OM.Look;
  }
}
