/** The lexer: its loops over the stream and over the text it has saved. */
module JsonLexer {
  import opened Wrappers
  import opened Bytes
  import opened Utf8
  import opened JsonString
  import opened JsonNumber
  import opened Json
  import opened JsonStream

  // ----- the saved text of a string -----

  /** `decode_unicode_escape`: four digits behind a `u` at `p`. */
  method DecodeUnicodeEscape(x: seq<Byte>, p: nat) returns (value: nat)
    requires FourHex(x, p + 1)
    ensures value == HexNumber(x, p + 1)
  {
    value := 0;
    var i := 1;
    while i <= 4
      invariant 1 <= i <= 5
      invariant i == 1 ==> value == 0
      invariant i == 2 ==> value == HexValue(x[p + 1])
      invariant i == 3 ==> value == HexValue(x[p + 1]) * 16 + HexValue(x[p + 2])
      invariant i == 4 ==> value == (HexValue(x[p + 1]) * 16 + HexValue(x[p + 2])) * 16 + HexValue(x[p + 3])
      invariant i == 5 ==> value == HexNumber(x, p + 1)
    {
      value := value * 16 + HexValue(x[p + i]);
      i := i + 1;
    }
  }

  /** The scan has passed a `\u` escape at `p` only with its four digits. */
  lemma ScanUnicode(x: seq<Byte>, p: nat, end: nat)
    requires p < |x| && ScanEnd(x, p) == Some(end) && x[p] == BACKSLASH && p + 1 < |x| && x[p + 1] == LOWER_U
    ensures FourHex(x, p + 2) && p + 6 <= end < |x| && ScanEnd(x, p + 6) == Some(end)
  {
  }

  /** A `\u` escape or a pair of them, as the second pass reads it. */
  method UnicodeAt(x: seq<Byte>, i: nat, ghost end: nat) returns (r: Option<(nat, nat)>)
    requires i + 1 < |x| && ScanEnd(x, i) == Some(end) && x[i] == BACKSLASH && x[i + 1] == LOWER_U
    requires end < |x| && x[end] == QUOTE
    ensures r == Unicode(x, i, end)
    ensures r.Some? ==> r.value.1 <= end && ScanEnd(x, r.value.1) == Some(end)
  {
    hide ScanEnd;
    hide FourHex;
    ScanUnicode(x, i, end);
    var value := DecodeUnicodeEscape(x, i + 1);
    var p := i + 6;
    if 0xD800 <= value <= 0xDBFF {
      if x[p] == BACKSLASH && x[p + 1] == LOWER_U {
        ScanUnicode(x, p, end);
        var value2 := DecodeUnicodeEscape(x, p + 1);
        p := p + 6;
        if 0xDC00 <= value2 <= 0xDFFF {
          value := (value - 0xD800) * 0x400 + (value2 - 0xDC00) + 0x10000;
        } else {
          return None;
        }
      } else {
        return None;
      }
    } else if 0xDC00 <= value <= 0xDFFF {
      return None;
    }
    return Some((value, p));
  }

  lemma ScanLetter(x: seq<Byte>, p: nat, end: nat)
    requires p < |x| && ScanEnd(x, p) == Some(end) && x[p] == BACKSLASH && (p + 1 == |x| || x[p + 1] != LOWER_U)
    ensures p + 2 <= end && ScanEnd(x, p + 2) == Some(end) && EscapeLetter(x[p + 1])
  {
  }

  lemma ScanOther(x: seq<Byte>, p: nat, end: nat)
    requires p < |x| && ScanEnd(x, p) == Some(end) && x[p] != BACKSLASH && x[p] != QUOTE
    ensures p + 1 <= end && ScanEnd(x, p + 1) == Some(end)
  {
  }

  lemma ScanQuote(x: seq<Byte>, p: nat, end: nat)
    requires p <= |x| && ScanEnd(x, p) == Some(end)
    ensures p <= end < |x| && x[end] == QUOTE && (x[p] == QUOTE ==> p == end)
    decreases |x| - p
  {
  }

  lemma PrependNothing(r: Option<seq<Byte>>)
    ensures Prepend([], r) == r
  {
    if r.Some? {
      assert [] + r.value == r.value;
    }
  }

  lemma UnescapeStep(x: seq<Byte>, p: nat, end: nat, out: seq<Byte>)
    requires p < end < |x|
    ensures x[p] != BACKSLASH ==> Prepend(out, Unescape(x, p, end)) == Prepend(out + [x[p]], Unescape(x, p + 1, end))
    ensures x[p] == BACKSLASH && x[p + 1] != LOWER_U && p + 2 <= end ==>
      Prepend(out, Unescape(x, p, end)) == Prepend(out + [Unshorthand(x[p + 1])], Unescape(x, p + 2, end))
    ensures x[p] == BACKSLASH && x[p + 1] == LOWER_U && p + 2 <= end ==>
      match Unicode(x, p, end)
      case None => Unescape(x, p, end) == None
      case Some((v, n)) => Prepend(out, Unescape(x, p, end)) == Prepend(out + Encode(v).value, Unescape(x, n, end))
  {
    hide Unicode;
    hide Encode;
    if x[p] != BACKSLASH {
      PrependJoin(out, [x[p]], Unescape(x, p + 1, end));
    } else if p + 2 <= end {
      if x[p + 1] != LOWER_U {
        PrependJoin(out, [Unshorthand(x[p + 1])], Unescape(x, p + 2, end));
      } else if Unicode(x, p, end).Some? {
        var (v, n) := Unicode(x, p, end).value;
        PrependJoin(out, Encode(v).value, Unescape(x, n, end));
      }
    }
  }

  /** The second pass: the saved text, quotes included, to the bytes it stands for. */
  method UnescapeText(x: seq<Byte>) returns (r: Option<seq<Byte>>)
    requires |x| >= 2 && ScanEnd(x, 1) == Some(|x| - 1)
    ensures r == Unescape(x, 1, |x| - 1)
  {
    hide ScanEnd;
    hide Unescape;
    hide Unicode;
    hide Encode;
    var p, out := 1, [];
    ghost var end := |x| - 1;
    ScanQuote(x, 1, end);
    PrependNothing(Unescape(x, 1, end));
    while x[p] != QUOTE
      invariant 1 <= p <= end && ScanEnd(x, p) == Some(end)
      invariant Prepend(out, Unescape(x, p, end)) == Unescape(x, 1, end)
      decreases end - p
    {
      UnescapeStep(x, p, end, out);
      if x[p] == BACKSLASH {
        if x[p + 1] == LOWER_U {
          ScanUnicode(x, p, end);
          var v := UnicodeAt(x, p, end);
          if v.None? {
            return None;
          }
          out := out + Encode(v.value.0).value;
          p := v.value.1;
        } else {
          ScanLetter(x, p, end);
          out := out + [Unshorthand(x[p + 1])];
          p := p + 2;
        }
      } else {
        ScanOther(x, p, end);
        out := out + [x[p]];
        p := p + 1;
      }
    }
    ScanQuote(x, p, end);
    assert Unescape(x, end, end) == Some([]) by { UnescapeNothing(x, end); }
    assert out + [] == out;
    return Some(out);
  }

  lemma UnescapeNothing(x: seq<Byte>, end: nat)
    requires end <= |x|
    ensures Unescape(x, end, end) == Some([])
  {
  }

  // ----- the saved text is a part of the input -----

  lemma {:induction false} ScanShift(u: seq<Byte>, x: seq<Byte>, k: nat, p: nat, e: nat)
    requires k + |x| <= |u| && u[k..k + |x|] == x && p <= |x| && ScanEnd(u, k + p) == Some(e) && e + 1 == k + |x|
    ensures ScanEnd(x, p) == Some(|x| - 1)
    decreases |x| - p
  {
    ScanQuote(u, k + p, e);
    assert forall q :: 0 <= q < |x| ==> x[q] == u[k + q];
    if u[k + p] == QUOTE {
    } else if u[k + p] == BACKSLASH {
      if u[k + p + 1] == LOWER_U {
        ScanUnicode(u, k + p, e);
        ScanShift(u, x, k, p + 6, e);
      } else {
        ScanLetter(u, k + p, e);
        ScanShift(u, x, k, p + 2, e);
      }
    } else {
      ScanOther(u, k + p, e);
      ScanShift(u, x, k, p + 1, e);
    }
  }

  lemma UnicodeShift(u: seq<Byte>, x: seq<Byte>, k: nat, p: nat, end: nat)
    requires k + |x| <= |u| && u[k..k + |x|] == x && p <= end <= |x|
    ensures Unicode(x, p, end) ==
      match Unicode(u, k + p, k + end) case None => None case Some((v, n)) => Some((v, n - k))
  {
    hide HexValue;
    hide HexChar;
    assert forall q :: 0 <= q < |x| ==> x[q] == u[k + q];
    if p + 6 <= end {
      assert FourHex(x, p + 2) <==> FourHex(u, k + p + 2);
      assert HexNumber(x, p + 2) == HexNumber(u, k + p + 2);
    }
    if p + 12 <= end {
      assert FourHex(x, p + 8) <==> FourHex(u, k + p + 8);
      assert HexNumber(x, p + 8) == HexNumber(u, k + p + 8);
    }
  }

  lemma {:induction false} UnescapeShift(u: seq<Byte>, x: seq<Byte>, k: nat, p: nat, end: nat)
    requires k + |x| <= |u| && u[k..k + |x|] == x && p <= end <= |x|
    ensures Unescape(x, p, end) == Unescape(u, k + p, k + end)
    decreases end - p
  {
    hide Unicode;
    hide Encode;
    if p < end {
      assert forall q :: 0 <= q < |x| ==> x[q] == u[k + q];
      if x[p] != BACKSLASH {
        UnescapeShift(u, x, k, p + 1, end);
      } else if p + 1 < end && x[p + 1] != LOWER_U {
        UnescapeShift(u, x, k, p + 2, end);
      } else if p + 1 < end {
        UnicodeShift(u, x, k, p, end);
        if Unicode(x, p, end).Some? {
          UnescapeShift(u, x, k, Unicode(x, p, end).value.1, end);
        }
      }
    }
  }

  // ----- the lexer -----

  /** `c` is the item at `q`, and the stream stands behind it. */
  predicate Current(t: Input, c: Item, q: nat, position: nat)
  {
    q <= |t.u| && c == ItemAt(t, q) && position == if c.Char? then q + 1 else q
  }

  class Lexer {
    const stream: Stream
    var saved: seq<Byte>
    var token: Token
    var depth: nat

    ghost function Text(): Input
      reads stream
    {
      Readable(stream.data)
    }

    ghost predicate Valid()
      reads stream
    {
      stream.Valid()
    }

    /** The saved text is what was read from `k` on. */
    ghost predicate Saved(k: nat)
      reads this`saved, stream
      requires Valid()
    {
      k <= stream.position && saved == Text().u[k..stream.position]
    }

    constructor (data: seq<Byte>)
      ensures Valid() && fresh(stream) && stream.position == 0 && depth == 0 && stream.data == data
    {
      stream := new Stream(data);
      saved, token, depth := [], InvalidTok, 0;
    }

    method GetSave(ghost k: nat) returns (c: Item)
      requires Valid() && Saved(k)
      modifies stream, this`saved
      ensures Valid() && Saved(k) && Current(Text(), c, old(stream.position), stream.position)
      ensures c.Char? ==> stream.pushable
    {
      hide ReadableEnd;
      c := stream.Get();
      if c.Char? {
        saved := saved + [c.c];
      }
    }

    method UngetUnsave(c: Item, ghost k: nat)
      requires Valid() && Saved(k) && (c.Char? ==> stream.pushable && k < stream.position && c.c == Text().u[stream.position - 1])
      modifies stream, this`saved
      ensures Valid() && Saved(k) && stream.position == if c.Char? then old(stream.position) - 1 else old(stream.position)
    {
      hide ReadableEnd;
      if c.Char? {
        stream.Unget(c);
        saved := saved[..|saved| - 1];
      }
    }

    /** The first pass over a string: up to the closing quote. */
    method ScanToQuote(ghost k: nat) returns (ok: bool)
      requires Valid() && Saved(k) && stream.position == k + 1
      modifies stream, this`saved
      ensures Valid() && stream.position >= old(stream.position)
      ensures ok <==> ScanEnd(Text().u, k + 1).Some?
      ensures ok ==> Saved(k) && stream.position == ScanEnd(Text().u, k + 1).value + 1
    {
      hide ScanEnd;
      hide Readable;
      hide Saved;
      hide FourHex;
      hide Stream.Valid;
      ghost var t := Text();
      var c := GetSave(k);
      ghost var q := k + 1;
      while c != Char(QUOTE)
        invariant Valid() && Saved(k) && k < q && Current(t, c, q, stream.position) && (c.Char? ==> stream.pushable)
        invariant ScanEnd(t.u, q) == ScanEnd(t.u, k + 1)
        decreases |t.u| - q
      {
        ScanFacts(t.u, q);
        if !c.Char? {
          return false;
        } else if c.c < 0x20 {
          UngetUnsave(c, k);
          return false;
        } else if c.c == BACKSLASH {
          c := GetSave(k);
          if c == Char(LOWER_U) {
            var hex;
            hex, c := ScanHex(k, q + 2);
            if !hex {
              return false;
            }
            q := q + 6;
          } else if c.Char? && EscapeLetter(c.c) {
            c := GetSave(k);
            q := q + 2;
          } else {
            return false;
          }
        } else {
          c := GetSave(k);
          q := q + 1;
        }
      }
      ScanFacts(t.u, q);
      return true;
    }

    /** Four hexadecimal digits, and the item behind them. */
    method ScanHex(ghost k: nat, ghost q: nat) returns (ok: bool, c: Item)
      requires Valid() && Saved(k) && stream.position == q <= |Text().u|
      modifies stream, this`saved
      ensures Valid() && stream.position >= old(stream.position)
      ensures ok <==> FourHex(Text().u, q)
      ensures ok ==> Saved(k) && Current(Text(), c, q + 4, stream.position) && (c.Char? ==> stream.pushable)
    {
      hide Readable;
      hide Saved;
      hide Stream.Valid;
      hide HexChar;
      ghost var t := Text();
      c := GetSave(k);
      var i := 0;
      while i < 4
        invariant 0 <= i <= 4 && Valid() && Saved(k) && Current(t, c, q + i, stream.position)
        invariant (c.Char? ==> stream.pushable) && stream.position >= q
        invariant i >= 1 ==> HexChar(t.u[q])
        invariant i >= 2 ==> HexChar(t.u[q + 1])
        invariant i >= 3 ==> HexChar(t.u[q + 2])
        invariant i >= 4 ==> HexChar(t.u[q + 3])
      {
        if !c.Char? || !HexChar(c.c) {
          return false, c;
        }
        c := GetSave(k);
        i := i + 1;
      }
      return true, c;
    }

    /** `lex_scan_string`, with the opening quote saved. */
    method ScanString(ghost k: nat)
      requires Valid() && Saved(k) && stream.position == k + 1 && Text().u[k] == QUOTE
      modifies stream, this
      ensures Valid() && stream.position >= old(stream.position) && depth == old(depth)
      ensures match LexString(Text().u, k + 1)
              case None => token == InvalidTok
              case Some((s, n)) => token == StrTok(s) && stream.position == n
    {
      hide ScanEnd;
      hide Unescape;
      hide Readable;
      token := InvalidTok;
      var ok := ScanToQuote(k);
      if !ok {
        return;
      }
      ghost var u := Text().u;
      ghost var e := ScanEnd(u, k + 1).value;
      ScanShift(u, saved, k, 1, e);
      UnescapeShift(u, saved, k, 1, |saved| - 1);
      var r := UnescapeText(saved);
      if r.Some? {
        token := StrTok(r.value);
      }
    }

    /** Digits up to the first other item, which is returned. */
    method ScanDigits(first: Item, ghost k: nat, ghost q: nat) returns (c: Item)
      requires Valid() && Saved(k) && Current(Text(), first, q, stream.position) && (first.Char? ==> stream.pushable) && k <= q
      modifies stream, this`saved
      ensures Valid() && Saved(k) && q <= |Text().u| && Current(Text(), c, DigitsEnd(Text().u, q), stream.position)
      ensures c.Char? ==> stream.pushable
      ensures stream.position >= old(stream.position)
    {
      hide Readable;
      hide Saved;
      c := first;
      ghost var t := Text();
      ghost var p := q;
      while c.Char? && Digit(c.c)
        invariant Valid() && Saved(k) && k <= q <= p && Current(t, c, p, stream.position) && (c.Char? ==> stream.pushable)
        invariant DigitsEnd(t.u, p) == DigitsEnd(t.u, q) && stream.position >= old(stream.position)
        decreases |t.u| - p
      {
        c := GetSave(k);
        p := p + 1;
      }
    }

    /** The integer part of a number, and the item behind it. */
    method ScanInteger(first: Byte, ghost k: nat) returns (ok: bool, c: Item)
      requires Valid() && Saved(k) && stream.position == k + 1 && Text().u[k] == first && stream.pushable
      requires first == MINUS || Digit(first)
      modifies stream, this`saved
      ensures Valid() && stream.position > k
      ensures ok <==> IntegerEnd(Text().u, k).Some?
      ensures ok ==> Saved(k) && Current(Text(), c, IntegerEnd(Text().u, k).value, stream.position) && (c.Char? ==> stream.pushable)
    {
      hide Readable;
      hide Saved;
      hide DigitsEnd;
      hide Stream.Valid;
      ghost var j := k;
      c := Char(first);
      if first == MINUS {
        c := GetSave(k);
        j := k + 1;
      }
      if c == Char(ZERO) {
        c := GetSave(k);
        if c.Char? && Digit(c.c) {
          UngetUnsave(c, k);
          return false, c;
        }
      } else if c.Char? && Digit(c.c) {
        c := GetSave(k);
        c := ScanDigits(c, k, j + 1);
      } else {
        UngetUnsave(c, k);
        return false, c;
      }
      return true, c;
    }

    /** `lex_scan_number`, the integers. */
    method ScanNumber(first: Byte, ghost k: nat)
      requires Valid() && Saved(k) && stream.position == k + 1 && Text().u[k] == first && stream.pushable
      requires first == MINUS || Digit(first)
      modifies stream, this
      ensures Valid() && stream.position >= k && depth == old(depth)
      ensures token == LexNumber(Text().u, k).0
      ensures token != InvalidTok ==> stream.position == LexNumber(Text().u, k).1
    {
      hide Readable;
      hide Saved;
      hide IntegerEnd;
      hide Signed;
      hide Stream.Valid;
      ghost var u := Text().u;
      token := InvalidTok;
      var ok, c := ScanInteger(first, k);
      if !ok {
        return;
      }
      UngetUnsave(c, k);
      if c.Char? && RealMark(c.c) {
        token := RealTok;
        return;
      }
      SavedNumber(u, k, IntegerEnd(u, k).value, saved) by { SavedIs(k); }
      var n := Number(saved);
      if Int64(n) {
        token := IntTok(n);
      }
    }

    lemma SavedIs(k: nat)
      requires Valid() && Saved(k)
      ensures k <= stream.position <= |Text().u| && saved == Text().u[k..stream.position]
    {
    }

    /** The first item that is no white space. */
    method SkipWhite() returns (c: Item)
      requires Valid()
      modifies stream
      ensures Valid() && old(stream.position) <= |Text().u|
      ensures Current(Text(), c, SkipSpace(Text().u, old(stream.position)), stream.position) && (c.Char? ==> stream.pushable)
    {
      hide Readable;
      ghost var t := Text();
      ghost var i := stream.position;
      ghost var k := i;
      c := stream.Get();
      while c.Char? && Space(c.c)
        invariant Valid() && i <= k && Current(t, c, k, stream.position) && (c.Char? ==> stream.pushable)
        invariant SkipSpace(t.u, k) == SkipSpace(t.u, i)
        decreases |t.u| - k
      {
        c := stream.Get();
        k := k + 1;
      }
    }

    /** `lex_scan` */
    method Scan()
      requires Valid()
      modifies stream, this
      ensures Valid() && old(stream.position) <= stream.position <= |Text().u| && depth == old(depth)
      ensures token == Lex(Text(), old(stream.position)).0
      ensures token != InvalidTok ==> stream.position == Lex(Text(), old(stream.position)).1
    {
      hide Readable;
      hide LexString;
      hide LexNumber;
      hide Keyword;
      hide SkipSpace;
      hide AlphaEnd;
      ghost var t := Text();
      ghost var k := SkipSpace(t.u, stream.position);
      var c := SkipWhite();
      if !c.Char? {
        token := if c == Eof then EofTok else InvalidTok;
        return;
      }
      saved := [c.c];
      assert t.u[k..k + 1] == [c.c];
      assert Saved(k);
      if PunctChar(c.c) {
        token := Punct(c.c);
      } else if c.c == QUOTE {
        ScanString(k);
      } else if Digit(c.c) || c.c == MINUS {
        ScanNumber(c.c, k);
      } else if Alpha(c.c) {
        ScanWord(k);
      } else {
        token := InvalidTok;
      }
    }

    /** A whole identifier. */
    method ScanWord(ghost k: nat)
      requires Valid() && Saved(k) && stream.position == k + 1
      modifies stream, this
      ensures Valid() && stream.position == AlphaEnd(Text().u, k + 1) && depth == old(depth)
      ensures token == Keyword(Text().u[k..AlphaEnd(Text().u, k + 1)])
    {
      hide Readable;
      hide Saved;
      hide Keyword;
      ghost var t := Text();
      ghost var q := k + 1;
      var c := GetSave(k);
      while c.Char? && Alpha(c.c)
        invariant Valid() && Saved(k) && k < q && Current(t, c, q, stream.position) && (c.Char? ==> stream.pushable)
        invariant AlphaEnd(t.u, q) == AlphaEnd(t.u, k + 1) && depth == old(depth)
        decreases |t.u| - q
      {
        c := GetSave(k);
        q := q + 1;
      }
      UngetUnsave(c, k);
      SavedIs(k);
      token := Keyword(saved);
    }
  }

  lemma ScanFacts(u: seq<Byte>, q: nat)
    requires q <= |u|
    ensures q == |u| ==> ScanEnd(u, q) == None
    ensures q < |u| && u[q] == QUOTE ==> ScanEnd(u, q) == Some(q)
    ensures q < |u| && u[q] < 0x20 ==> ScanEnd(u, q) == None
    ensures q < |u| && u[q] == BACKSLASH ==>
      ScanEnd(u, q) == if q + 1 == |u| then None
                       else if u[q + 1] == LOWER_U then (if FourHex(u, q + 2) then ScanEnd(u, q + 6) else None)
                       else if EscapeLetter(u[q + 1]) then ScanEnd(u, q + 2) else None
    ensures q < |u| && u[q] != QUOTE && u[q] >= 0x20 && u[q] != BACKSLASH ==> ScanEnd(u, q) == ScanEnd(u, q + 1)
  {
  }

  /** The value of a number's text. */
  method Number(x: seq<Byte>) returns (n: int)
    requires x != []
    ensures n == Signed(x, 0, |x|)
  {
    hide Value;
    var i := if x[0] == MINUS then 1 else 0;
    ghost var start := i;
    var v: nat := 0;
    assert v == Value(x[start..i]) by { ValueNone(x[start..i]); }
    while i < |x|
      invariant start <= i <= |x| && v == Value(x[start..i])
    {
      ValueStep(x, start, i);
      v := v * 10 + if Digit(x[i]) then x[i] - 0x30 else 0;
      i := i + 1;
    }
    return if x[0] == MINUS then 0 - v else v;
  }

  lemma ValueNone(x: seq<Byte>)
    requires x == []
    ensures Value(x) == 0
  {
  }

  lemma ValueStep(x: seq<Byte>, i: nat, j: nat)
    requires i <= j < |x|
    ensures Value(x[i..j + 1]) == Value(x[i..j]) * 10 + if Digit(x[j]) then x[j] - 0x30 else 0
  {
    assert x[i..j + 1][..j - i] == x[i..j];
  }

  lemma SavedNumber(u: seq<Byte>, k: nat, e: nat, x: seq<Byte>)
    requires k < e <= |u| && x == u[k..e]
    ensures x != [] && Signed(x, 0, |x|) == Signed(u, k, e)
  {
    assert x[1..|x|] == u[k + 1..e] && x[0..|x|] == u[k..e];
  }
}
