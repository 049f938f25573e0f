/** Printed documents are UTF-8 texts without NUL, so the stream delivers all of them to the parser. */
module JsonReadable {
  import opened Wrappers
  import opened Bytes
  import opened Utf8
  import opened JsonString
  import opened JsonNumber
  import opened Json
  import opened JsonStream
  import opened JsonRoundTrip

  /** UTF-8 without NUL. */
  predicate Clean(x: seq<Byte>)
  {
    CheckFrom(x, 0) && 0 !in x
  }

  lemma {:induction false} EncodeJoin(a: seq<int>, b: seq<int>)
    requires Scalars(a) && Scalars(b)
    ensures Scalars(a + b) && EncodeAll(a + b) == EncodeAll(a) + EncodeAll(b)
    decreases |a|
  {
    hide Encode;
    if a == [] {
      assert a + b == b;
    } else {
      EncodeJoin(a[1..], b);
      assert (a + b)[1..] == a[1..] + b;
    }
  }

  lemma CheckJoin(x: seq<Byte>, y: seq<Byte>)
    requires CheckFrom(x, 0) && CheckFrom(y, 0)
    ensures CheckFrom(x + y, 0)
  {
    hide CheckFrom;
    var a := DecodeAll(x, 0);
    var b := DecodeAll(y, 0);
    EncodeJoin(a, b);
    assert x[0..] == x && y[0..] == y && (x + y)[0..] == x + y;
    EncodedChecks(a + b, x + y, 0);
  }

  lemma CleanJoin(x: seq<Byte>, y: seq<Byte>)
    requires Clean(x) && Clean(y)
    ensures Clean(x + y)
  {
    hide CheckFrom;
    CheckJoin(x, y);
  }

  lemma {:induction false} AsciiChecks(x: seq<Byte>, i: nat)
    requires i <= |x| && forall k :: 0 <= k < |x| ==> x[k] < 0x80
    ensures CheckFrom(x, i)
    decreases |x| - i
  {
    hide Iterate;
    if i < |x| {
      IterateAscii(x, i);
      AsciiChecks(x, i + 1);
    }
  }

  lemma CleanAscii(x: seq<Byte>)
    requires forall k :: 0 <= k < |x| ==> 0 < x[k] < 0x80
    ensures Clean(x)
  {
    AsciiChecks(x, 0);
  }

  // ----- strings -----

  lemma EscapeClean(cp: nat)
    requires cp <= 0x10FFFF
    ensures Clean(EscapeText(cp))
  {
    hide Clean;
    var x := EscapeText(cp);
    CleanAscii(x);
  }

  lemma CharClean(s: seq<Byte>, i: nat, f: Escapes)
    requires i < |s| && Iterate(s, i).Some? && !MustEscape(Iterate(s, i).value.0, f)
    ensures Clean(s[i..Iterate(s, i).value.1])
  {
    var (cp, n) := Iterate(s, i).value;
    EncodeDecoded(s, i);
    PlainBytes(s, i, f);
    assert EncodeAll([cp]) == Encode(cp).value + EncodeAll([]) by { assert [cp][1..] == []; }
    assert s[i..n][0..] == s[i..n];
    EncodedChecks([cp], s[i..n], 0);
  }

  lemma {:induction false} RunClean(s: seq<Byte>, i: nat, f: Escapes)
    requires i <= |s| && RunEnd(s, i, f).Some?
    ensures Clean(s[i..RunEnd(s, i, f).value])
    decreases |s| - i
  {
    hide Iterate;
    hide Clean;
    var p := RunEnd(s, i, f).value;
    if p == i {
      CleanAscii(s[i..p]);
    } else {
      var n := Iterate(s, i).value.1;
      CharClean(s, i, f);
      RunClean(s, n, f);
      CleanJoin(s[i..n], s[n..p]);
      assert s[i..n] + s[n..p] == s[i..p];
    }
  }

  lemma {:induction false} BodyClean(s: seq<Byte>, i: nat, f: Escapes)
    requires i <= |s| && CheckFrom(s, i)
    ensures Clean(Body(s, i, f).0)
    decreases |s| - i
  {
    hide Iterate;
    hide Clean;
    hide RunEnd;
    hide EscapeText;
    RunValid(s, i, f);
    RunClean(s, i, f);
    var p := RunEnd(s, i, f).value;
    if p < |s| {
      var (cp, n) := Iterate(s, p).value;
      IterateRange(s, p);
      EscapeClean(cp);
      BodyClean(s, n, f);
      CleanJoin(s[i..p], EscapeText(cp));
      CleanJoin(s[i..p] + EscapeText(cp), Body(s, n, f).0);
    } else {
      assert s[i..p] == s[i..];
    }
  }

  lemma StringClean(s: seq<Byte>, f: Escapes)
    requires CheckFrom(s, 0)
    ensures Clean(DumpString(s, f).0)
  {
    hide Clean;
    hide Body;
    BodyValid(s, 0, f);
    BodyClean(s, 0, f);
    CleanAscii([QUOTE]);
    CleanJoin([QUOTE], Body(s, 0, f).0);
    CleanJoin([QUOTE] + Body(s, 0, f).0, [QUOTE]);
  }

  // ----- documents -----

  lemma NumberClean(n: int)
    ensures Clean(NumberText(n))
  {
    hide Clean;
    hide Digits;
    DigitsAre(if n < 0 then -n else n);
    CleanAscii(NumberText(n));
  }

  lemma LayoutClean(f: Style, depth: nat, space: bool)
    ensures Clean(Indent(f, depth, space)) && Clean(Separator(f))
  {
    hide Clean;
    CleanAscii(Indent(f, depth, space));
    CleanAscii(Separator(f));
  }

  lemma AfterClean(f: Style, depth: nat, k: nat, n: nat)
    ensures Clean(After(f, depth, k, n))
  {
    hide Clean;
    hide Indent;
    LayoutClean(f, depth, false);
    LayoutClean(f, depth + 1, true);
    CleanAscii([COMMA]);
    CleanJoin([COMMA], Indent(f, depth + 1, true));
  }

  lemma {:induction false} DumpClean(j: Json, f: Style, depth: nat)
    requires WellFormed(j) && Dump(j, f, depth).Some?
    ensures Clean(Dump(j, f, depth).value)
    decreases j
  {
    hide Clean;
    hide NumberText;
    hide DumpString;
    hide Indent;
    match j
    case Null => CleanAscii(NULL_TEXT);
    case Bool(b) => CleanAscii(if b then TRUE_TEXT else FALSE_TEXT);
    case Int(n) => NumberClean(n);
    case Str(s) => StringClean(s, f.escapes);
    case Arr(items) =>
      if items == [] {
        CleanAscii([LBRACKET, RBRACKET]);
      } else {
        ItemsClean(j, 0, f, depth);
        Enclosed(LBRACKET, f, depth, DumpItems(j, 0, f, depth).value, RBRACKET);
      }
    case Obj(members) =>
      if members == [] {
        CleanAscii([LBRACE, RBRACE]);
      } else {
        MembersClean(j, 0, f, depth);
        Enclosed(LBRACE, f, depth, DumpMembers(j, 0, f, depth).value, RBRACE);
      }
  }

  lemma Enclosed(open: Byte, f: Style, depth: nat, x: seq<Byte>, close: Byte)
    requires Clean(x) && 0 < open < 0x80 && 0 < close < 0x80
    ensures Clean([open] + Indent(f, depth + 1, false) + x + [close])
  {
    hide Clean;
    hide Indent;
    var ind := Indent(f, depth + 1, false);
    LayoutClean(f, depth + 1, false);
    CleanAscii([open]);
    CleanAscii([close]);
    CleanJoin([open], ind);
    CleanJoin([open] + ind, x);
    CleanJoin([open] + ind + x, [close]);
  }

  lemma {:induction false} ItemsClean(j: Json, k: nat, f: Style, depth: nat)
    requires WellFormed(j) && j.Arr? && k <= |j.items| && DumpItems(j, k, f, depth).Some?
    ensures Clean(DumpItems(j, k, f, depth).value)
    decreases j, |j.items| - k
  {
    hide Clean;
    hide After;
    if k == |j.items| {
      CleanAscii([]);
    } else {
      ItemsText(j, k, f, depth);
      DumpClean(j.items[k], f, depth + 1);
      ItemsClean(j, k + 1, f, depth);
      AfterClean(f, depth, k, |j.items|);
      var text, sep := Dump(j.items[k], f, depth + 1).value, After(f, depth, k, |j.items|);
      CleanJoin(text, sep);
      CleanJoin(text + sep, DumpItems(j, k + 1, f, depth).value);
    }
  }

  lemma {:induction false} MembersClean(j: Json, k: nat, f: Style, depth: nat)
    requires WellFormed(j) && j.Obj? && k <= |j.members| && DumpMembers(j, k, f, depth).Some?
    ensures Clean(DumpMembers(j, k, f, depth).value)
    decreases j, |j.members| - k
  {
    hide Clean;
    hide After;
    hide DumpString;
    hide Separator;
    if k == |j.members| {
      CleanAscii([]);
    } else {
      MembersText(j, k, f, depth);
      MemberWellFormed(j, k);
      StringClean(j.members[k].0, f.escapes);
      DumpClean(j.members[k].1, f, depth + 1);
      MembersClean(j, k + 1, f, depth);
      AfterClean(f, depth, k, |j.members|);
      LayoutClean(f, depth, false);
      var key, text := DumpString(j.members[k].0, f.escapes).0, Dump(j.members[k].1, f, depth + 1).value;
      var sep := After(f, depth, k, |j.members|);
      CleanJoin(key, Separator(f));
      CleanJoin(key + Separator(f), text);
      CleanJoin(key + Separator(f) + text, sep);
      CleanJoin(key + Separator(f) + text + sep, DumpMembers(j, k + 1, f, depth).value);
    }
  }

  /** From bytes to bytes: what the stream delivers of a printed document is all of it, and loading it gives
      the tree back exactly if it is at most 2048 levels deep and, unless NULs are allowed, has none. */
  lemma LoadDumped(j: Json, f: Style, o: Options)
    requires WellFormed(j) && (j.Arr? || j.Obj? || o.decodeAny)
    ensures Dump(j, f, 0).Some?
    ensures var u := Dump(j, f, 0).value;
      Parse(Readable(u), o) == if Depth(j) <= MAX_DEPTH && (o.allowNul || NulFree(j)) then Ok(j, |u|) else Bad
  {
    hide Parse;
    hide Dump;
    hide CheckFrom;
    DocumentRoundTrip(j, f, o);
    FitsExactly(j, MAX_DEPTH, o);
    var u := Dump(j, f, 0).value;
    DumpClean(j, f, 0);
    AllReadable(u, 0);
    assert u[..|u|] == u;
  }
}
