/** Parsing what was printed gives the printed tree back. */
module JsonRoundTrip {
  import opened Wrappers
  import opened Bytes
  import opened Utf8
  import opened JsonString
  import opened JsonNumber
  import opened Json
  import OM = OrderedMap

  /** Trees that the library can hold: 64-bit integers, UTF-8 strings, and object keys that are UTF-8
      without NUL and occur once. */
  ghost predicate WellFormed(j: Json)
  {
    match j
    case Int(n) => Int64(n)
    case Str(s) => CheckFrom(s, 0)
    case Arr(items) => forall k :: 0 <= k < |items| ==> WellFormed(items[k])
    case Obj(members) =>
      && OM.Unique(members)
      && (forall k :: 0 <= k < |members| ==> CheckFrom(members[k].0, 0) && !HasNul(members[k].0))
      && (forall k :: 0 <= k < |members| ==> WellFormed(members[k].1))
    case _ => true
  }

  /** No more than `room` levels, and no NUL in a string unless it is allowed. */
  ghost predicate Fits(j: Json, room: nat, o: Options)
  {
    room > 0 &&
    match j
    case Str(s) => o.allowNul || !HasNul(s)
    case Arr(items) => forall k :: 0 <= k < |items| ==> Fits(items[k], room - 1, o)
    case Obj(members) => forall k :: 0 <= k < |members| ==> Fits(members[k].1, room - 1, o)
    case _ => true
  }

  ghost predicate ItemsFit(items: seq<Json>, k: nat, room: nat, o: Options)
  {
    forall q :: k <= q < |items| ==> Fits(items[q], room, o)
  }

  ghost predicate MembersFit(members: seq<(seq<Byte>, Json)>, k: nat, room: nat, o: Options)
  {
    forall q :: k <= q < |members| ==> Fits(members[q].1, room, o)
  }

  // ----- printing succeeds -----

  lemma {:induction false} DumpSucceeds(j: Json, f: Style, depth: nat)
    requires WellFormed(j)
    ensures Dump(j, f, depth).Some?
    decreases j
  {
    match j
    case Str(s) => BodyValid(s, 0, f.escapes);
    case Arr(items) => ItemsSucceed(j, 0, f, depth);
    case Obj(members) => MembersSucceed(j, 0, f, depth);
    case _ =>
  }

  lemma {:induction false} ItemsSucceed(j: Json, k: nat, f: Style, depth: nat)
    requires WellFormed(j) && j.Arr? && k <= |j.items|
    ensures DumpItems(j, k, f, depth).Some?
    decreases j, |j.items| - k
  {
    if k < |j.items| {
      DumpSucceeds(j.items[k], f, depth + 1);
      ItemsSucceed(j, k + 1, f, depth);
    }
  }

  lemma {:induction false} MembersSucceed(j: Json, k: nat, f: Style, depth: nat)
    requires WellFormed(j) && j.Obj? && k <= |j.members|
    ensures DumpMembers(j, k, f, depth).Some?
    decreases j, |j.members| - k
  {
    if k < |j.members| {
      DumpSucceeds(j.members[k].1, f, depth + 1);
      MembersSucceed(j, k + 1, f, depth);
    }
  }

  // ----- single tokens -----

  lemma {:induction false} SkipSpaces(u: seq<Byte>, i: nat, x: seq<Byte>)
    requires At(u, i, x) && forall k :: 0 <= k < |x| ==> Space(x[k])
    ensures i + |x| <= |u| && SkipSpace(u, i) == SkipSpace(u, i + |x|)
    decreases |x|
  {
    if x != [] {
      AtByte(u, i, x, 0);
      assert x == [x[0]] + x[1..];
      AtJoin(u, i, [x[0]], x[1..]);
      SkipSpaces(u, i + 1, x[1..]);
    }
  }

  lemma LexSkips(t: Input, i: nat, x: seq<Byte>)
    requires At(t.u, i, x) && forall k :: 0 <= k < |x| ==> Space(x[k])
    ensures i + |x| <= |t.u| && Lex(t, i) == Lex(t, i + |x|)
  {
    SkipSpaces(t.u, i, x);
  }

  lemma LexIndent(t: Input, i: nat, f: Style, depth: nat, space: bool)
    requires At(t.u, i, Indent(f, depth, space))
    ensures i + |Indent(f, depth, space)| <= |t.u| && Lex(t, i) == Lex(t, i + |Indent(f, depth, space)|)
  {
    hide Lex;
    var x := Indent(f, depth, space);
    assert forall k :: 0 <= k < |x| ==> Space(x[k]);
    LexSkips(t, i, x);
  }

  lemma LexPunct(t: Input, i: nat)
    requires i < |t.u| && PunctChar(t.u[i])
    ensures Lex(t, i) == (Punct(t.u[i]), i + 1)
  {
  }

  /** The bytes that follow a printed value. */
  predicate Delim(u: seq<Byte>, k: nat)
  {
    k <= |u| && (k < |u| ==> u[k] == COMMA || u[k] == RBRACKET || u[k] == RBRACE || u[k] == LF || u[k] == SP)
  }

  lemma LexInt(t: Input, i: nat, n: int)
    requires At(t.u, i, NumberText(n)) && Delim(t.u, i + |NumberText(n)|) && Int64(n)
    ensures Lex(t, i) == (IntTok(n), i + |NumberText(n)|)
  {
    hide NumberText;
    hide IntegerEnd;
    hide Signed;
    NumberReads(t.u, i, n);
  }

  lemma {:induction false} AlphaReads(u: seq<Byte>, i: nat, x: seq<Byte>)
    requires At(u, i, x) && (forall k :: 0 <= k < |x| ==> Alpha(x[k])) && (i + |x| < |u| ==> !Alpha(u[i + |x|]))
    ensures AlphaEnd(u, i) == i + |x|
    decreases |x|
  {
    if x != [] {
      AtByte(u, i, x, 0);
      assert x == [x[0]] + x[1..];
      AtJoin(u, i, [x[0]], x[1..]);
      AlphaReads(u, i + 1, x[1..]);
    }
  }

  lemma LexWord(t: Input, i: nat, x: seq<Byte>)
    requires At(t.u, i, x) && x != [] && (forall k :: 0 <= k < |x| ==> Alpha(x[k])) && Delim(t.u, i + |x|)
    ensures Lex(t, i) == (Keyword(x), i + |x|)
  {
    AtByte(t.u, i, x, 0);
    AlphaReads(t.u, i, x);
    assert t.u[i..i + |x|] == x;
  }

  lemma LexStr(t: Input, i: nat, s: seq<Byte>, f: Escapes)
    requires CheckFrom(s, 0) && At(t.u, i, DumpString(s, f).0)
    ensures Lex(t, i) == (StrTok(s), i + |DumpString(s, f).0|)
  {
    hide DumpString;
    hide LexString;
    StringRoundTrip(s, f, t.u, i);
  }

  // ----- separators -----

  /** Behind an element that is not the last: a comma, and the next token is the next element's. */
  lemma AfterComma(t: Input, i: nat, f: Style, depth: nat, k: nat, n: nat)
    requires k + 1 < n && At(t.u, i, After(f, depth, k, n))
    ensures Delim(t.u, i) && Lex(t, i) == (Punct(COMMA), i + 1)
    ensures i + |After(f, depth, k, n)| <= |t.u| && Lex(t, i + 1) == Lex(t, i + |After(f, depth, k, n)|)
  {
    hide Lex;
    hide Indent;
    AtJoin(t.u, i, [COMMA], Indent(f, depth + 1, true));
    AtByte(t.u, i, [COMMA], 0);
    LexPunct(t, i);
    LexIndent(t, i + 1, f, depth + 1, true);
  }

  /** Behind the last element: the closing bracket or brace. */
  lemma AfterLast(t: Input, i: nat, f: Style, depth: nat, k: nat, n: nat, c: Byte)
    requires k + 1 == n && At(t.u, i, After(f, depth, k, n) + [c]) && (c == RBRACKET || c == RBRACE)
    ensures Delim(t.u, i) && i + |After(f, depth, k, n)| + 1 <= |t.u|
    ensures Lex(t, i) == (Punct(c), i + |After(f, depth, k, n)| + 1)
  {
    hide Lex;
    var x := After(f, depth, k, n);
    AtJoin(t.u, i, x, [c]);
    AtByte(t.u, i + |x|, [c], 0);
    LexIndent(t, i, f, depth, false);
    LexPunct(t, i + |x|);
    AtByte(t.u, i, x + [c], 0);
  }

  // ----- values -----

  /** The answer for tree `j`: the tree itself and the position behind its text, or failure if it does
      not fit. */
  ghost function Answer(j: Json, next: nat, room: nat, o: Options): Res<Json>
  {
    if Fits(j, room, o) then Ok(j, next) else Bad
  }

  ghost predicate ReadsValue(t: Input, i: nat, j: Json, next: nat, room: nat, o: Options)
    requires i <= |t.u|
  {
    var (tok, k) := Lex(t, i);
    tok != Punct(RBRACKET) && tok != Punct(RBRACE) && ParseValue(t, tok, k, room, o) == Answer(j, next, room, o)
  }

  lemma {:induction false} ValueReads(t: Input, i: nat, j: Json, f: Style, depth: nat, room: nat, o: Options)
    requires WellFormed(j) && Dump(j, f, depth).Some? && At(t.u, i, Dump(j, f, depth).value)
    requires Delim(t.u, i + |Dump(j, f, depth).value|)
    ensures ReadsValue(t, i, j, i + |Dump(j, f, depth).value|, room, o)
    decreases j
  {
    hide *;
    if j.Arr? {
      ArrayReads(t, i, j, f, depth, room, o);
    } else if j.Obj? {
      ObjectReads(t, i, j, f, depth, room, o);
    } else {
      LeafReads(t, i, j, f, depth, room, o);
    }
  }

  lemma LeafReads(t: Input, i: nat, j: Json, f: Style, depth: nat, room: nat, o: Options)
    requires WellFormed(j) && Dump(j, f, depth).Some? && At(t.u, i, Dump(j, f, depth).value)
    requires Delim(t.u, i + |Dump(j, f, depth).value|) && !j.Arr? && !j.Obj?
    ensures ReadsValue(t, i, j, i + |Dump(j, f, depth).value|, room, o)
  {
    hide Lex;
    hide At;
    hide NumberText;
    hide DumpString;
    hide Delim;
    match j
    case Null => LexWord(t, i, NULL_TEXT);
    case Bool(b) => LexWord(t, i, if b then TRUE_TEXT else FALSE_TEXT);
    case Int(n) => LexInt(t, i, n);
    case Str(s) => LexStr(t, i, s, f.escapes);
  }

  // ----- arrays -----

  lemma NoText(j: Json, f: Style, depth: nat)
    requires (j.Arr? && j.items == []) || (j.Obj? && j.members == [])
    ensures Dump(j, f, depth) == Some(if j.Arr? then [LBRACKET, RBRACKET] else [LBRACE, RBRACE])
    ensures j == if j.Arr? then Arr([]) else Obj([])
  {
  }

  lemma OpenPunct(t: Input, i: nat)
    requires i < |t.u| && (t.u[i] == LBRACKET || t.u[i] == LBRACE)
    ensures Lex(t, i) == (Punct(t.u[i]), i + 1)
  {
  }

  /** The tokens around the elements. */
  lemma ArrayFrom(t: Input, i: nat, items: seq<Json>, s: nat, next: nat, room: nat, o: Options)
    requires i < |t.u| && s <= |t.u| && Lex(t, i) == (Punct(LBRACKET), i + 1) && Lex(t, i + 1) == Lex(t, s)
    requires room > 0 ==> ReadsItems(t, s, items, 0, next, room - 1, o)
    ensures ReadsValue(t, i, Arr(items), next, room, o)
  {
    hide Lex;
    hide ParseItems;
    assert items[0..] == items && items[..0] == [];
    if room > 0 {
      assert ParseValue(t, Punct(LBRACKET), i + 1, room, o) == ParseArray(t, i + 1, room - 1, o);
      assert Fits(Arr(items), room, o) <==> ItemsFit(items, 0, room - 1, o);
    }
  }

  lemma EmptyArray(t: Input, i: nat, room: nat, o: Options)
    requires At(t.u, i, [LBRACKET, RBRACKET])
    ensures i <= |t.u| && ReadsValue(t, i, Arr([]), i + 2, room, o)
  {
    hide Lex;
    hide ParseItems;
    AtByte(t.u, i, [LBRACKET, RBRACKET], 0);
    AtByte(t.u, i, [LBRACKET, RBRACKET], 1);
    LexPunct(t, i);
    LexPunct(t, i + 1);
    if room > 0 {
      assert ParseValue(t, Punct(LBRACKET), i + 1, room, o) == ParseArray(t, i + 1, room - 1, o);
      assert Fits(Arr([]), room, o);
    }
  }

  lemma ArrayText(j: Json, f: Style, depth: nat)
    requires j.Arr? && j.items != [] && Dump(j, f, depth).Some?
    ensures DumpItems(j, 0, f, depth).Some?
    ensures Dump(j, f, depth).value == [LBRACKET] + Indent(f, depth + 1, false) + (DumpItems(j, 0, f, depth).value + [RBRACKET])
  {
    hide Indent;
    hide DumpItems;
  }

  lemma {:induction false} ArrayReads(t: Input, i: nat, j: Json, f: Style, depth: nat, room: nat, o: Options)
    requires WellFormed(j) && j.Arr? && Dump(j, f, depth).Some? && At(t.u, i, Dump(j, f, depth).value)
    ensures i <= |t.u| && ReadsValue(t, i, j, i + |Dump(j, f, depth).value|, room, o)
    decreases j, |j.items| + 1
  {
    hide *;
    if j.items == [] {
      EmptyArray(t, i, room, o) by { NoText(j, f, depth); }
      NoText(j, f, depth);
    } else {
      ArrayText(j, f, depth);
      var ind, text := Indent(f, depth + 1, false), DumpItems(j, 0, f, depth).value;
      AtJoin(t.u, i, [LBRACKET] + ind, text + [RBRACKET]);
      AtJoin(t.u, i, [LBRACKET], ind);
      AtByte(t.u, i, [LBRACKET], 0);
      AtInside(t.u, i, [LBRACKET]);
      OpenPunct(t, i);
      LexIndent(t, i + 1, f, depth + 1, false);
      if room > 0 {
        ItemsRead(t, i + 1 + |ind|, j, 0, f, depth, room - 1, o);
      }
      ArrayFrom(t, i, j.items, i + 1 + |ind|, i + |Dump(j, f, depth).value|, room, o);
    }
  }

  ghost predicate ReadsItems(t: Input, i: nat, items: seq<Json>, k: nat, next: nat, room: nat, o: Options)
    requires i <= |t.u| && k <= |items|
  {
    var (tok, m) := Lex(t, i);
    tok != Punct(RBRACKET)
    && ParseItems(t, tok, m, room, o) == if ItemsFit(items, k, room, o) then Ok(items[k..], next) else Bad
  }

  lemma {:induction false} ItemsRead(t: Input, i: nat, j: Json, k: nat, f: Style, depth: nat, room: nat, o: Options)
    requires WellFormed(j) && j.Arr? && k < |j.items| && DumpItems(j, k, f, depth).Some?
    requires At(t.u, i, DumpItems(j, k, f, depth).value + [RBRACKET])
    ensures i <= |t.u| && ReadsItems(t, i, j.items, k, i + |DumpItems(j, k, f, depth).value| + 1, room, o)
    decreases j, |j.items| - k
  {
    hide *;
    ItemWellFormed(j, k);
    ItemsText(j, k, f, depth);
    var n := |j.items|;
    var text, sep, rest := Dump(j.items[k], f, depth + 1).value, After(f, depth, k, n), DumpItems(j, k + 1, f, depth).value;
    AtThree(t.u, i, text, sep, rest, RBRACKET);
    var e := i + |text|;
    if k + 1 < n {
      AfterComma(t, e, f, depth, k, n);
      ValueReads(t, i, j.items[k], f, depth + 1, room, o);
      ItemsRead(t, e + |sep|, j, k + 1, f, depth, room, o);
      MoreItems(t, i, j.items, k, e, e + |sep|, e + |sep| + |rest| + 1, room, o);
    } else {
      assert rest == [];
      AfterLast(t, e, f, depth, k, n, RBRACKET) by { assert sep + rest + [RBRACKET] == sep + [RBRACKET]; }
      ValueReads(t, i, j.items[k], f, depth + 1, room, o);
      LastItem(t, i, j.items, k, e, e + |sep| + 1, room, o);
    }
  }

  lemma ItemWellFormed(j: Json, k: nat)
    requires WellFormed(j) && j.Arr? && k < |j.items|
    ensures WellFormed(j.items[k])
  {
  }

  lemma MemberWellFormed(j: Json, k: nat)
    requires WellFormed(j) && j.Obj? && k < |j.members|
    ensures OM.Unique(j.members) && CheckFrom(j.members[k].0, 0) && !HasNul(j.members[k].0)
    ensures WellFormed(j.members[k].1)
  {
    hide OM.Unique;
  }

  lemma ItemsText(j: Json, k: nat, f: Style, depth: nat)
    requires j.Arr? && k < |j.items| && DumpItems(j, k, f, depth).Some?
    ensures Dump(j.items[k], f, depth + 1).Some? && DumpItems(j, k + 1, f, depth).Some?
    ensures DumpItems(j, k, f, depth).value ==
      Dump(j.items[k], f, depth + 1).value + After(f, depth, k, |j.items|) + DumpItems(j, k + 1, f, depth).value
    ensures k + 1 == |j.items| ==> DumpItems(j, k + 1, f, depth).value == []
  {
  }

  lemma AtThree(u: seq<Byte>, i: nat, x: seq<Byte>, y: seq<Byte>, z: seq<Byte>, c: Byte)
    requires At(u, i, x + y + z + [c])
    ensures i + |x| + |y| + |z| + 1 <= |u|
    ensures At(u, i, x) && At(u, i + |x|, y) && At(u, i + |x|, y + z + [c]) && At(u, i + |x| + |y|, z + [c])
  {
    assert x + y + z + [c] == x + (y + z + [c]);
    assert y + z + [c] == y + (z + [c]);
    AtJoin(u, i, x, y + z + [c]);
    AtJoin(u, i + |x|, y, z + [c]);
  }

  lemma MoreItems(t: Input, i: nat, items: seq<Json>, k: nat, e: nat, e': nat, next: nat, room: nat, o: Options)
    requires i <= |t.u| && e < |t.u| && e' <= |t.u| && k + 1 < |items|
    requires ReadsValue(t, i, items[k], e, room, o) && Lex(t, e) == (Punct(COMMA), e + 1) && Lex(t, e + 1) == Lex(t, e')
    requires ReadsItems(t, e', items, k + 1, next, room, o)
    ensures ReadsItems(t, i, items, k, next, room, o)
  {
    hide Lex;
    hide Fits;
    hide ParseValue;
    assert items[k..] == [items[k]] + items[k + 1..];
    FitsFrom(items, k, room, o);
  }

  lemma FitsFrom(items: seq<Json>, k: nat, room: nat, o: Options)
    requires k < |items|
    ensures ItemsFit(items, k, room, o) <==> Fits(items[k], room, o) && ItemsFit(items, k + 1, room, o)
  {
    hide Fits;
  }

  lemma LastItem(t: Input, i: nat, items: seq<Json>, k: nat, e: nat, next: nat, room: nat, o: Options)
    requires i <= |t.u| && e <= |t.u| && k + 1 == |items|
    requires ReadsValue(t, i, items[k], e, room, o) && Lex(t, e) == (Punct(RBRACKET), next)
    ensures ReadsItems(t, i, items, k, next, room, o)
  {
    hide Lex;
    hide Fits;
    hide ParseValue;
    assert items[k..] == [items[k]];
    FitsFrom(items, k, room, o);
  }

  // ----- objects -----

  /** The tokens around the members. */
  lemma ObjectFrom(t: Input, i: nat, members: seq<(seq<Byte>, Json)>, s: nat, next: nat, room: nat, o: Options)
    requires i < |t.u| && s <= |t.u| && Lex(t, i) == (Punct(LBRACE), i + 1) && Lex(t, i + 1) == Lex(t, s)
    requires room > 0 ==> ReadsMembers(t, s, members, 0, next, room - 1, o)
    ensures ReadsValue(t, i, Obj(members), next, room, o)
  {
    hide Lex;
    hide ParseMembers;
    assert members[0..] == members && members[..0] == [];
    if room > 0 {
      assert ParseValue(t, Punct(LBRACE), i + 1, room, o) == ParseObject(t, i + 1, room - 1, o);
      assert Fits(Obj(members), room, o) <==> MembersFit(members, 0, room - 1, o);
    }
  }

  lemma EmptyObject(t: Input, i: nat, room: nat, o: Options)
    requires At(t.u, i, [LBRACE, RBRACE])
    ensures i <= |t.u| && ReadsValue(t, i, Obj([]), i + 2, room, o)
  {
    hide Lex;
    hide ParseMembers;
    AtByte(t.u, i, [LBRACE, RBRACE], 0);
    AtByte(t.u, i, [LBRACE, RBRACE], 1);
    LexPunct(t, i);
    LexPunct(t, i + 1);
    if room > 0 {
      assert ParseValue(t, Punct(LBRACE), i + 1, room, o) == ParseObject(t, i + 1, room - 1, o);
      assert Fits(Obj([]), room, o);
    }
  }

  lemma ObjectText(j: Json, f: Style, depth: nat)
    requires j.Obj? && j.members != [] && Dump(j, f, depth).Some?
    ensures DumpMembers(j, 0, f, depth).Some?
    ensures Dump(j, f, depth).value == [LBRACE] + Indent(f, depth + 1, false) + (DumpMembers(j, 0, f, depth).value + [RBRACE])
  {
    hide Indent;
    hide DumpMembers;
  }

  lemma {:induction false} ObjectReads(t: Input, i: nat, j: Json, f: Style, depth: nat, room: nat, o: Options)
    requires WellFormed(j) && j.Obj? && Dump(j, f, depth).Some? && At(t.u, i, Dump(j, f, depth).value)
    ensures i <= |t.u| && ReadsValue(t, i, j, i + |Dump(j, f, depth).value|, room, o)
    decreases j, |j.members| + 1
  {
    hide *;
    if j.members == [] {
      EmptyObject(t, i, room, o) by { NoText(j, f, depth); }
      NoText(j, f, depth);
    } else {
      ObjectText(j, f, depth);
      var ind, text := Indent(f, depth + 1, false), DumpMembers(j, 0, f, depth).value;
      AtJoin(t.u, i, [LBRACE] + ind, text + [RBRACE]);
      AtJoin(t.u, i, [LBRACE], ind);
      AtByte(t.u, i, [LBRACE], 0);
      AtInside(t.u, i, [LBRACE]);
      OpenPunct(t, i);
      LexIndent(t, i + 1, f, depth + 1, false);
      if room > 0 {
        MembersRead(t, i + 1 + |ind|, j, 0, f, depth, room - 1, o);
      }
      ObjectFrom(t, i, j.members, i + 1 + |ind|, i + |Dump(j, f, depth).value|, room, o);
    }
  }

  ghost predicate ReadsMembers(t: Input, i: nat, members: seq<(seq<Byte>, Json)>, k: nat, next: nat, room: nat, o: Options)
    requires i <= |t.u| && k <= |members|
  {
    var (tok, m) := Lex(t, i);
    tok != Punct(RBRACE)
    && ParseMembers(t, tok, m, members[..k], room, o) == if MembersFit(members, k, room, o) then Ok(members, next) else Bad
  }

  /** A key and its separator: the tokens before the value. */
  ghost predicate ReadsKey(t: Input, i: nat, key: seq<Byte>, v: nat)
    requires i <= |t.u| && v <= |t.u|
  {
    var (tok, m) := Lex(t, i);
    var (colon, m') := Lex(t, m);
    tok == StrTok(key) && colon == Punct(COLON) && Lex(t, m') == Lex(t, v)
  }

  lemma KeyReads(t: Input, i: nat, key: seq<Byte>, f: Style)
    requires CheckFrom(key, 0) && At(t.u, i, DumpString(key, f.escapes).0 + Separator(f))
    ensures i + |DumpString(key, f.escapes).0 + Separator(f)| <= |t.u|
    ensures ReadsKey(t, i, key, i + |DumpString(key, f.escapes).0 + Separator(f)|)
  {
    hide Lex;
    hide DumpString;
    var text, sep := DumpString(key, f.escapes).0, Separator(f);
    AtJoin(t.u, i, text, sep);
    LexStr(t, i, key, f.escapes);
    var m := i + |text|;
    AtByte(t.u, m, sep, 0);
    LexPunct(t, m);
    if !f.compact {
      AtByte(t.u, m, sep, 1);
      LexSkips(t, m + 1, [SP]);
    }
  }

  lemma {:induction false} MembersRead(t: Input, i: nat, j: Json, k: nat, f: Style, depth: nat, room: nat, o: Options)
    requires WellFormed(j) && j.Obj? && k < |j.members| && DumpMembers(j, k, f, depth).Some?
    requires At(t.u, i, DumpMembers(j, k, f, depth).value + [RBRACE])
    ensures i <= |t.u| && ReadsMembers(t, i, j.members, k, i + |DumpMembers(j, k, f, depth).value| + 1, room, o)
    decreases j, |j.members| - k
  {
    hide *;
    MemberWellFormed(j, k);
    MembersText(j, k, f, depth);
    var n := |j.members|;
    var key := DumpString(j.members[k].0, f.escapes).0 + Separator(f);
    var text, sep := Dump(j.members[k].1, f, depth + 1).value, After(f, depth, k, n);
    var rest := DumpMembers(j, k + 1, f, depth).value;
    AtThree(t.u, i, key + text, sep, rest, RBRACE);
    AtJoin(t.u, i, key, text);
    var v := i + |key|;
    var e := v + |text|;
    KeyReads(t, i, j.members[k].0, f);
    if k + 1 < n {
      AfterComma(t, e, f, depth, k, n);
      ValueReads(t, v, j.members[k].1, f, depth + 1, room, o);
      MembersRead(t, e + |sep|, j, k + 1, f, depth, room, o);
      MoreMembers(t, i, j.members, k, v, e, e + |sep|, e + |sep| + |rest| + 1, room, o);
    } else {
      assert rest == [];
      AfterLast(t, e, f, depth, k, n, RBRACE) by { assert sep + rest + [RBRACE] == sep + [RBRACE]; }
      ValueReads(t, v, j.members[k].1, f, depth + 1, room, o);
      LastMember(t, i, j.members, k, v, e, e + |sep| + 1, room, o);
    }
  }

  lemma MembersText(j: Json, k: nat, f: Style, depth: nat)
    requires j.Obj? && k < |j.members| && DumpMembers(j, k, f, depth).Some?
    ensures Dump(j.members[k].1, f, depth + 1).Some? && DumpMembers(j, k + 1, f, depth).Some?
    ensures DumpMembers(j, k, f, depth).value ==
      DumpString(j.members[k].0, f.escapes).0 + Separator(f) + Dump(j.members[k].1, f, depth + 1).value
      + After(f, depth, k, |j.members|) + DumpMembers(j, k + 1, f, depth).value
    ensures k + 1 == |j.members| ==> DumpMembers(j, k + 1, f, depth).value == []
  {
  }

  /** A key that has not occurred is added at the end. */
  lemma FreshKey(members: seq<(seq<Byte>, Json)>, k: nat)
    requires OM.Unique(members) && k < |members|
    ensures OM.Look(members[..k], members[k].0).None?
    ensures OM.Put(members[..k], members[k].0, members[k].1) == members[..k + 1]
  {
    var before := members[..k];
    forall q | 0 <= q < |before| ensures before[q].0 != members[k].0 {
      assert before[q] == members[q];
    }
    OM.NoIndex(before, members[k].0);
  }

  lemma MembersFrom(members: seq<(seq<Byte>, Json)>, k: nat, room: nat, o: Options)
    requires k < |members|
    ensures MembersFit(members, k, room, o) <==> Fits(members[k].1, room, o) && MembersFit(members, k + 1, room, o)
  {
    hide Fits;
  }

  lemma MoreMembers(t: Input, i: nat, members: seq<(seq<Byte>, Json)>, k: nat, v: nat, e: nat, e': nat, next: nat,
                    room: nat, o: Options)
    requires i <= |t.u| && v <= |t.u| && e < |t.u| && e' <= |t.u| && k + 1 < |members|
    requires OM.Unique(members) && !HasNul(members[k].0) && ReadsKey(t, i, members[k].0, v)
    requires ReadsValue(t, v, members[k].1, e, room, o)
    requires Lex(t, e) == (Punct(COMMA), e + 1) && Lex(t, e + 1) == Lex(t, e')
    requires ReadsMembers(t, e', members, k + 1, next, room, o)
    ensures ReadsMembers(t, i, members, k, next, room, o)
  {
    hide Lex;
    hide Fits;
    hide ParseValue;
    hide MembersFit;
    hide HasNul;
    hide OM.Look;
    hide OM.Put;
    FreshKey(members, k);
    MembersFrom(members, k, room, o);
  }

  lemma LastMember(t: Input, i: nat, members: seq<(seq<Byte>, Json)>, k: nat, v: nat, e: nat, next: nat,
                   room: nat, o: Options)
    requires i <= |t.u| && v <= |t.u| && e <= |t.u| && k + 1 == |members|
    requires OM.Unique(members) && !HasNul(members[k].0) && ReadsKey(t, i, members[k].0, v)
    requires ReadsValue(t, v, members[k].1, e, room, o) && Lex(t, e) == (Punct(RBRACE), next)
    ensures ReadsMembers(t, i, members, k, next, room, o)
  {
    hide Lex;
    hide Fits;
    hide ParseValue;
    hide HasNul;
    hide OM.Look;
    hide OM.Put;
    FreshKey(members, k);
    assert members[..k + 1] == members;
    MembersFrom(members, k, room, o);
  }

  // ----- whole documents -----

  lemma TopToken(j: Json, f: Style, u: seq<Byte>)
    requires Dump(j, f, 0).Some? && u == Dump(j, f, 0).value && (j.Arr? || j.Obj?)
    ensures |u| > 0 && u[0] == if j.Arr? then LBRACKET else LBRACE
  {
  }

  /** Document round trip, exactly: parsing the printed form of any well-formed array or object, in every
      style, gives the same tree with the same order of keys if it is nested at most 2048 deep and has
      no NULs, and fails otherwise. */
  lemma DocumentRoundTrip(j: Json, f: Style, o: Options)
    requires WellFormed(j) && (j.Arr? || j.Obj? || o.decodeAny)
    ensures Dump(j, f, 0).Some?
    ensures var u := Dump(j, f, 0).value;
      Parse(Input(u, false), o) == if Fits(j, MAX_DEPTH, o) then Ok(j, |u|) else Bad
  {
    hide Lex;
    hide ParseValue;
    hide Dump;
    hide Fits;
    DumpSucceeds(j, f, 0);
    var u := Dump(j, f, 0).value;
    var t := Input(u, false);
    assert At(u, 0, u);
    ValueReads(t, 0, j, f, 0, MAX_DEPTH, o);
    if j.Arr? || j.Obj? {
      TopToken(j, f, u);
      LexPunct(t, 0);
    }
    LexEnd(t);
  }

  lemma LexEnd(t: Input)
    requires !t.bad
    ensures Lex(t, |t.u|) == (EofTok, |t.u|)
  {
  }

  // ----- what fits -----

  /** The number of levels; a scalar is one. */
  ghost function Depth(j: Json): (d: nat)
    ensures d > 0
  {
    match j
    case Arr(items) => 1 + DepthItems(j, |items|)
    case Obj(members) => 1 + DepthMembers(j, |members|)
    case _ => 1
  }

  ghost function Max(a: nat, b: nat): nat { if a < b then b else a }

  ghost function DepthItems(j: Json, k: nat): nat
    requires j.Arr? && k <= |j.items|
    decreases j, k
  {
    if k == 0 then 0 else Max(DepthItems(j, k - 1), Depth(j.items[k - 1]))
  }

  ghost function DepthMembers(j: Json, k: nat): nat
    requires j.Obj? && k <= |j.members|
    decreases j, k
  {
    if k == 0 then 0 else Max(DepthMembers(j, k - 1), Depth(j.members[k - 1].1))
  }

  ghost predicate NulFree(j: Json)
  {
    match j
    case Str(s) => !HasNul(s)
    case Arr(items) => forall k :: 0 <= k < |items| ==> NulFree(items[k])
    case Obj(members) => forall k :: 0 <= k < |members| ==> NulFree(members[k].1)
    case _ => true
  }

  /** Fitting is a matter of the depth and of the NULs. */
  lemma {:induction false} FitsExactly(j: Json, room: nat, o: Options)
    ensures Fits(j, room, o) <==> Depth(j) <= room && (o.allowNul || NulFree(j))
    decreases j
  {
    if j.Arr? && room > 0 {
      forall k | 0 <= k < |j.items|
        ensures Fits(j.items[k], room - 1, o) <==> Depth(j.items[k]) <= room - 1 && (o.allowNul || NulFree(j.items[k]))
      {
        FitsExactly(j.items[k], room - 1, o);
      }
      ItemsDepth(j, |j.items|, room - 1);
    } else if j.Obj? && room > 0 {
      forall k | 0 <= k < |j.members|
        ensures Fits(j.members[k].1, room - 1, o)
           <==> Depth(j.members[k].1) <= room - 1 && (o.allowNul || NulFree(j.members[k].1))
      {
        FitsExactly(j.members[k].1, room - 1, o);
      }
      MembersDepth(j, |j.members|, room - 1);
    }
  }

  lemma {:induction false} ItemsDepth(j: Json, n: nat, room: nat)
    requires j.Arr? && n <= |j.items|
    ensures DepthItems(j, n) <= room <==> forall k :: 0 <= k < n ==> Depth(j.items[k]) <= room
    decreases n
  {
    if n > 0 {
      ItemsDepth(j, n - 1, room);
    }
  }

  lemma {:induction false} MembersDepth(j: Json, n: nat, room: nat)
    requires j.Obj? && n <= |j.members|
    ensures DepthMembers(j, n) <= room <==> forall k :: 0 <= k < n ==> Depth(j.members[k].1) <= room
    decreases n
  {
    if n > 0 {
      MembersDepth(j, n - 1, room);
    }
  }
}
