/** What the parser accepts is a well-formed tree, so loading, printing and loading again changes nothing. */
module JsonLoaded {
  import opened Wrappers
  import opened Bytes
  import opened Utf8
  import opened JsonString
  import opened JsonNumber
  import opened Json
  import opened JsonStream
  import opened JsonRoundTrip
  import opened JsonReadable
  import G = JsonGrammar
  import OM = OrderedMap

  // ----- the readable input is UTF-8 -----

  lemma IteratePrefix(s: seq<Byte>, i: nat, e: nat)
    requires i < |s| && Iterate(s, i).Some? && Iterate(s, i).value.1 <= e <= |s|
    ensures Iterate(s[..e], i) == Iterate(s, i)
  {
    var (cp, n) := Iterate(s, i).value;
    EncodeDecoded(s, i);
    assert s[..e][i..n] == s[i..n];
    DecodeEncoded(s[..e], i, cp);
  }

  lemma {:induction false} ReadableChecks(s: seq<Byte>, i: nat)
    requires i <= |s|
    ensures CheckFrom(s[..ReadableEnd(s, i).0], i)
    decreases |s| - i
  {
    hide Iterate;
    if i < |s| && s[i] != 0 && Iterate(s, i).Some? {
      var n := Iterate(s, i).value.1;
      ReadableChecks(s, n);
      IteratePrefix(s, i, ReadableEnd(s, i).0);
    }
  }

  // ----- ASCII steps -----

  lemma AsciiStep(u: seq<Byte>, i: nat)
    requires i < |u| && CheckFrom(u, i) && u[i] < 0x80
    ensures CheckFrom(u, i + 1)
  {
    hide CheckFull;
  }

  lemma {:induction false} AsciiSteps(u: seq<Byte>, i: nat, j: nat)
    requires i <= j <= |u| && CheckFrom(u, i) && forall k :: i <= k < j ==> u[k] < 0x80
    ensures CheckFrom(u, j)
    decreases j - i
  {
    hide CheckFrom;
    if i < j {
      AsciiStep(u, i);
      AsciiSteps(u, i + 1, j);
    }
  }

  lemma {:induction false} SpaceRun(u: seq<Byte>, i: nat)
    requires i <= |u|
    ensures forall k :: i <= k < SkipSpace(u, i) ==> u[k] < 0x80
    decreases |u| - i
  {
    if i < |u| && Space(u[i]) {
      SpaceRun(u, i + 1);
    }
  }

  lemma {:induction false} AlphaRun(u: seq<Byte>, i: nat)
    requires i <= |u|
    ensures forall k :: i <= k < AlphaEnd(u, i) ==> u[k] < 0x80
    decreases |u| - i
  {
    if i < |u| && Alpha(u[i]) {
      AlphaRun(u, i + 1);
    }
  }

  lemma {:induction false} DigitRun(u: seq<Byte>, i: nat)
    requires i <= |u|
    ensures forall k :: i <= k < DigitsEnd(u, i) ==> u[k] < 0x80
    decreases |u| - i
  {
    if i < |u| && Digit(u[i]) {
      DigitRun(u, i + 1);
    }
  }

  lemma IntegerRun(u: seq<Byte>, i: nat)
    requires i < |u| && IntegerEnd(u, i).Some?
    ensures forall k :: i <= k < IntegerEnd(u, i).value ==> u[k] < 0x80
  {
    var j := if u[i] == MINUS then i + 1 else i;
    if u[j] != ZERO {
      DigitRun(u, j + 1);
    }
  }

  // ----- strings -----

  /** A character of several bytes: none of them is special. */
  lemma WideReads(u: seq<Byte>, i: nat)
    requires i < |u| && Iterate(u, i).Some? && u[i] >= 0x80
    ensures var n := Iterate(u, i).value.1; Reads(u, i, u[i..n], u[i..n]) && CheckFrom(u[i..n], 0)
  {
    hide Reads;
    hide ScanEnd;
    hide Unescape;
    var f := Escapes(false, false);
    var (cp, n) := Iterate(u, i).value;
    EncodeDecoded(u, i);
    assert u[i] == u[i..n][0];
    assert !MustEscape(cp, f);
    PlainBytes(u, i, f);
    CharClean(u, i, f);
    ReadPlain(u, i, u[i..n]);
  }

  /** The values of a Unicode escape are encodable, and it is ASCII. */
  lemma UnicodeScalar(u: seq<Byte>, i: nat, end: nat)
    requires end <= |u| && i + 1 < |u| && u[i] == BACKSLASH && u[i + 1] == LOWER_U && Unicode(u, i, end).Some?
    ensures var (v, n) := Unicode(u, i, end).value;
      Scalar(v) && forall k :: i <= k < n ==> u[k] < 0x80
  {
    hide HexNumber;
  }

  lemma UnicodeScan(u: seq<Byte>, i: nat, end: nat)
    requires i + 1 < |u| && u[i] == BACKSLASH && u[i + 1] == LOWER_U
    requires ScanEnd(u, i) == Some(end) && Unicode(u, i, end).Some?
    ensures ScanEnd(u, Unicode(u, i, end).value.1) == Some(end)
  {
    hide HexNumber;
    assert ScanEnd(u, i + 6) == Some(end);
  }

  lemma EncodedChecksOne(cp: int)
    requires Scalar(cp)
    ensures CheckFrom(Encode(cp).value, 0)
  {
    var e := Encode(cp).value;
    assert e[0..] == e && [cp][1..] == [];
    assert EncodeAll([cp]) == e + EncodeAll([]);
    EncodedChecks([cp], e, 0);
  }

  /** What is put in front and what follows are UTF-8. */
  lemma PrependChecks(x: seq<Byte>, r: Option<seq<Byte>>, t: seq<Byte>)
    requires Prepend(x, r) == Some(t) && CheckFrom(x, 0) && (r.Some? ==> CheckFrom(r.value, 0))
    ensures CheckFrom(t, 0)
  {
    CheckJoin(x, r.value);
  }

  lemma {:induction false} TextLoaded(u: seq<Byte>, i: nat, e: nat)
    requires i <= |u| && CheckFrom(u, i) && ScanEnd(u, i) == Some(e) && Unescape(u, i, e).Some?
    ensures CheckFrom(u, e) && CheckFrom(Unescape(u, i, e).value, 0)
    decreases |u| - i
  {
    hide CheckFrom;
    hide Iterate;
    if u[i] == QUOTE {
      AsciiChecks([], 0);
    } else if u[i] >= 0x80 {
      WideLoaded(u, i, e);
    } else if u[i] != BACKSLASH {
      AsciiStep(u, i);
      TextLoaded(u, i + 1, e);
      AsciiChecks([u[i]], 0);
      PrependChecks([u[i]], Unescape(u, i + 1, e), Unescape(u, i, e).value);
    } else if u[i + 1] != LOWER_U {
      AsciiSteps(u, i, i + 2);
      TextLoaded(u, i + 2, e);
      AsciiChecks([Unshorthand(u[i + 1])], 0);
      PrependChecks([Unshorthand(u[i + 1])], Unescape(u, i + 2, e), Unescape(u, i, e).value);
    } else {
      var (v, n) := Unicode(u, i, e).value;
      UnicodeScalar(u, i, e);
      UnicodeScan(u, i, e);
      AsciiSteps(u, i, n);
      TextLoaded(u, n, e);
      EncodedChecksOne(v);
      PrependChecks(Encode(v).value, Unescape(u, n, e), Unescape(u, i, e).value);
    }
  }

  lemma {:induction false} WideLoaded(u: seq<Byte>, i: nat, e: nat)
    requires i < |u| && CheckFrom(u, i) && ScanEnd(u, i) == Some(e) && Unescape(u, i, e).Some? && u[i] >= 0x80
    ensures CheckFrom(u, e) && CheckFrom(Unescape(u, i, e).value, 0)
    decreases |u| - i, 0
  {
    hide Iterate;
    hide ScanEnd;
    hide Unescape;
    var n := Iterate(u, i).value.1;
    WideReads(u, i);
    assert |u[i..n]| == n - i;
    TextLoaded(u, n, e);
    PrependChecks(u[i..n], Unescape(u, n, e), Unescape(u, i, e).value);
  }

  lemma StringLoaded(u: seq<Byte>, i: nat)
    requires i <= |u| && CheckFrom(u, i) && LexString(u, i).Some?
    ensures CheckFrom(LexString(u, i).value.0, 0) && CheckFrom(u, LexString(u, i).value.1)
  {
    hide CheckFrom;
    var e := ScanEnd(u, i).value;
    TextLoaded(u, i, e);
    G.QuoteEnd(u, i);
    AsciiStep(u, e);
  }

  // ----- tokens -----

  /** What holds of the tokens of a UTF-8 text. */
  predicate Sound(tok: Token)
  {
    (tok.StrTok? ==> CheckFrom(tok.s, 0)) && (tok.IntTok? ==> Int64(tok.n))
  }

  /** The token is sound, and unless it is invalid the text behind it starts with a character. */
  predicate Leads(t: Input, tok: Token, k: nat)
  {
    Sound(tok) && k <= |t.u| && (!tok.InvalidTok? ==> CheckFrom(t.u, k))
  }

  lemma LexLoaded(t: Input, i: nat)
    requires i <= |t.u| && CheckFrom(t.u, i)
    ensures Leads(t, Lex(t, i).0, Lex(t, i).1)
  {
    hide CheckFrom;
    hide LexString;
    var u, k := t.u, SkipSpace(t.u, i);
    SpaceRun(u, i);
    AsciiSteps(u, i, k);
    if k < |u| {
      if PunctChar(u[k]) {
        AsciiStep(u, k);
      } else if u[k] == QUOTE {
        AsciiStep(u, k);
        if LexString(u, k + 1).Some? {
          StringLoaded(u, k + 1);
        }
      } else if Digit(u[k]) || u[k] == MINUS {
        if IntegerEnd(u, k).Some? {
          IntegerRun(u, k);
          AsciiSteps(u, k, IntegerEnd(u, k).value);
        }
      } else if Alpha(u[k]) {
        AlphaRun(u, k + 1);
        AsciiSteps(u, k, AlphaEnd(u, k + 1));
      }
    }
  }

  // ----- values -----

  /** A tree the library can hold that fits, and the text behind it starts with a character. */
  ghost predicate Held(t: Input, r: Res<Json>, room: nat, o: Options)
  {
    r.Ok? ==> r.next <= |t.u| && CheckFrom(t.u, r.next) && WellFormed(r.value) && Fits(r.value, room, o)
  }

  lemma {:induction false} ValueLoaded(t: Input, tok: Token, i: nat, room: nat, o: Options)
    requires Leads(t, tok, i)
    ensures Held(t, ParseValue(t, tok, i, room, o), room, o)
    decreases |t.u| - i, room, 0
  {
    hide CheckFrom;
    if room > 0 && tok == Punct(LBRACKET) {
      ArrayLoaded(t, i, room - 1, o);
    } else if room > 0 && tok == Punct(LBRACE) {
      ObjectLoaded(t, i, room - 1, o);
    }
  }

  ghost predicate HeldItems(t: Input, r: Res<seq<Json>>, room: nat, o: Options)
  {
    r.Ok? ==> r.next <= |t.u| && CheckFrom(t.u, r.next) && forall k :: 0 <= k < |r.value| ==> WellFormed(r.value[k]) && Fits(r.value[k], room, o)
  }

  lemma {:induction false} ArrayLoaded(t: Input, i: nat, room: nat, o: Options)
    requires i <= |t.u| && CheckFrom(t.u, i)
    ensures Held(t, ParseArray(t, i, room, o), room + 1, o)
    decreases |t.u| - i, room, 2
  {
    hide CheckFrom;
    hide Lex;
    hide ParseItems;
    var (tok, k) := Lex(t, i);
    LexLoaded(t, i);
    if tok != Punct(RBRACKET) {
      ItemsLoaded(t, tok, k, room, o);
    }
  }

  lemma {:induction false} ItemsLoaded(t: Input, tok: Token, i: nat, room: nat, o: Options)
    requires Leads(t, tok, i)
    ensures HeldItems(t, ParseItems(t, tok, i, room, o), room, o)
    decreases |t.u| - i, room, 1
  {
    hide CheckFrom;
    hide Lex;
    hide ParseValue;
    hide WellFormed;
    hide Fits;
    ValueLoaded(t, tok, i, room, o);
    var r := ParseValue(t, tok, i, room, o);
    if r.Ok? {
      var (sep, k1) := Lex(t, r.next);
      LexLoaded(t, r.next);
      if sep == Punct(COMMA) {
        var (tok', k2) := Lex(t, k1);
        LexLoaded(t, k1);
        ItemsLoaded(t, tok', k2, room, o);
      }
    }
  }

  /** Members that an object can hold. */
  ghost predicate GoodMembers(ms: seq<(seq<Byte>, Json)>, room: nat, o: Options)
  {
    && OM.Unique(ms)
    && (forall k :: 0 <= k < |ms| ==> CheckFrom(ms[k].0, 0) && !HasNul(ms[k].0))
    && (forall k :: 0 <= k < |ms| ==> WellFormed(ms[k].1))
    && (forall k :: 0 <= k < |ms| ==> Fits(ms[k].1, room, o))
  }

  lemma PutGood(ms: seq<(seq<Byte>, Json)>, key: seq<Byte>, j: Json, room: nat, o: Options)
    requires GoodMembers(ms, room, o) && CheckFrom(key, 0) && !HasNul(key) && WellFormed(j) && Fits(j, room, o)
    ensures GoodMembers(OM.Put(ms, key, j), room, o)
  {
    hide CheckFrom;
    hide HasNul;
    hide WellFormed;
    hide Fits;
    hide OM.Unique;
    OM.PutUnique(ms, key, j);
  }

  lemma {:induction false} ObjectLoaded(t: Input, i: nat, room: nat, o: Options)
    requires i <= |t.u| && CheckFrom(t.u, i)
    ensures Held(t, ParseObject(t, i, room, o), room + 1, o)
    decreases |t.u| - i, room, 2
  {
    hide CheckFrom;
    hide Lex;
    hide ParseMembers;
    var (tok, k) := Lex(t, i);
    LexLoaded(t, i);
    if tok != Punct(RBRACE) {
      MembersLoaded(t, tok, k, [], room, o);
    }
  }

  ghost predicate HeldMembers(t: Input, r: Res<seq<(seq<Byte>, Json)>>, room: nat, o: Options)
  {
    r.Ok? ==> r.next <= |t.u| && CheckFrom(t.u, r.next) && GoodMembers(r.value, room, o)
  }

  lemma {:induction false} MembersLoaded(t: Input, tok: Token, i: nat, before: seq<(seq<Byte>, Json)>, room: nat, o: Options)
    requires Leads(t, tok, i) && GoodMembers(before, room, o)
    ensures HeldMembers(t, ParseMembers(t, tok, i, before, room, o), room, o)
    decreases |t.u| - i, room, 1
  {
    hide CheckFrom;
    hide Lex;
    hide ParseValue;
    hide WellFormed;
    hide Fits;
    hide GoodMembers;
    hide HasNul;
    hide OM.Put;
    hide OM.Look;
    if tok.StrTok? && !HasNul(tok.s) {
      var (colon, k) := Lex(t, i);
      LexLoaded(t, i);
      if colon == Punct(COLON) {
        var (first, k1) := Lex(t, k);
        LexLoaded(t, k);
        ValueLoaded(t, first, k1, room, o);
        var r := ParseValue(t, first, k1, room, o);
        if r.Ok? {
          PutGood(before, tok.s, r.value, room, o);
          var (sep, k3) := Lex(t, r.next);
          LexLoaded(t, r.next);
          if sep == Punct(COMMA) {
            var (tok', k4) := Lex(t, k3);
            LexLoaded(t, k3);
            MembersLoaded(t, tok', k4, OM.Put(before, tok.s, r.value), room, o);
          }
        }
      }
    }
  }

  // ----- documents -----

  /** Every document that loads gives a tree the library can print again. */
  lemma LoadedWellFormed(s: seq<Byte>, o: Options)
    requires Parse(Readable(s), o).Ok?
    ensures var j := Parse(Readable(s), o).value;
      WellFormed(j) && Fits(j, MAX_DEPTH, o) && (j.Arr? || j.Obj? || o.decodeAny)
  {
    hide CheckFrom;
    hide Lex;
    hide WellFormed;
    hide Fits;
    var t := Readable(s);
    ReadableChecks(s, 0);
    LexLoaded(t, 0);
    var (tok, i) := Lex(t, 0);
    ValueLoaded(t, tok, i, MAX_DEPTH, o);
    TopKind(t, tok, i, MAX_DEPTH, o);
  }

  lemma TopKind(t: Input, tok: Token, i: nat, room: nat, o: Options)
    requires i <= |t.u| && ParseValue(t, tok, i, room, o).Ok? && (tok == Punct(LBRACKET) || tok == Punct(LBRACE) || o.decodeAny)
    ensures var j := ParseValue(t, tok, i, room, o).value; j.Arr? || j.Obj? || o.decodeAny
  {
  }

  /** Load, print and load again: for every text that loads, in every style, the second tree is the first. */
  lemma LoadDumpLoad(s: seq<Byte>, f: Style, o: Options)
    requires Parse(Readable(s), o).Ok?
    ensures var j := Parse(Readable(s), o).value;
      Dump(j, f, 0).Some? && Parse(Readable(Dump(j, f, 0).value), o) == Ok(j, |Dump(j, f, 0).value|)
  {
    hide Parse;
    hide Dump;
    var j := Parse(Readable(s), o).value;
    LoadedWellFormed(s, o);
    FitsExactly(j, MAX_DEPTH, o);
    LoadDumped(j, f, o);
  }
}
