/** The resumed parse gives the answer of a one-shot parse. */
module HttpResume {
  import opened Bytes
  import opened HttpRequest

  // ----- a successful parse only depends on what it consumes -----

  predicate Agree(s: seq<Byte>, u: seq<Byte>, n: nat)
  {
    n <= |s| && n <= |u| && s[..n] == u[..n]
  }

  lemma AgreeAt(s: seq<Byte>, u: seq<Byte>, n: nat, i: nat)
    requires Agree(s, u, n) && i < n
    ensures s[i] == u[i]
  {
    assert s[..n][i] == u[..n][i];
  }

  lemma AgreeSlice(s: seq<Byte>, u: seq<Byte>, n: nat, i: nat, j: nat)
    requires Agree(s, u, n) && i <= j <= n
    ensures s[i..j] == u[i..j]
  {
    assert s[i..j] == s[..n][i..j] && u[i..j] == u[..n][i..j];
  }

  lemma AgreeLess(s: seq<Byte>, u: seq<Byte>, n: nat, m: nat)
    requires Agree(s, u, n) && m <= n
    ensures Agree(s, u, m)
  {
    AgreeSlice(s, u, n, 0, m);
  }

  lemma {:induction false} TokenEndStable(s: seq<Byte>, u: seq<Byte>, i: nat, n: nat)
    requires Agree(s, u, n) && i <= |s| && TokenEnd(s, i).Ok? && TokenEnd(s, i).value < n
    ensures TokenEnd(u, i) == TokenEnd(s, i)
    decreases |s| - i
  {
    AgreeAt(s, u, n, i);
    if s[i] != SP {
      TokenEndStable(s, u, i + 1, n);
    }
  }

  lemma {:induction false} TextEndStable(s: seq<Byte>, u: seq<Byte>, i: nat, n: nat)
    requires Agree(s, u, n) && i <= |s| && TextEnd(s, i).Ok? && TextEnd(s, i).value < n
    ensures TextEnd(u, i) == TextEnd(s, i)
    decreases |s| - i
  {
    AgreeAt(s, u, n, i);
    if !LineControl(s[i]) {
      TextEndStable(s, u, i + 1, n);
    }
  }

  lemma {:induction false} DigitsEndStable(s: seq<Byte>, u: seq<Byte>, i: nat, n: nat)
    requires Agree(s, u, n) && i <= |s| && DigitsEnd(s, i).Ok? && DigitsEnd(s, i).value < n
    ensures DigitsEnd(u, i) == DigitsEnd(s, i)
    decreases |s| - i
  {
    AgreeAt(s, u, n, i);
    if Digit(s[i]) {
      DigitsEndStable(s, u, i + 1, n);
    }
  }

  lemma {:induction false} NameEndStable(s: seq<Byte>, u: seq<Byte>, i: nat, n: nat)
    requires Agree(s, u, n) && i <= |s| && NameEnd(s, i).Ok? && NameEnd(s, i).value < n
    ensures NameEnd(u, i) == NameEnd(s, i)
    decreases |s| - i
  {
    AgreeAt(s, u, n, i);
    if s[i] != COLON {
      NameEndStable(s, u, i + 1, n);
    }
  }

  lemma {:induction false} SkipBlankStable(s: seq<Byte>, u: seq<Byte>, i: nat, n: nat)
    requires Agree(s, u, n) && i <= |s| && SkipBlank(s, i).Ok? && SkipBlank(s, i).value < n
    ensures SkipBlank(u, i) == SkipBlank(s, i)
    decreases |s| - i
  {
    AgreeAt(s, u, n, i);
    if Blank(s[i]) {
      SkipBlankStable(s, u, i + 1, n);
    }
  }

  lemma {:induction false} ExpectStable(s: seq<Byte>, u: seq<Byte>, i: nat, lit: seq<Byte>, n: nat)
    requires Agree(s, u, n) && i <= |s| && Expect(s, i, lit).Ok? && i + |lit| <= n
    ensures Expect(u, i, lit) == Expect(s, i, lit)
    decreases |lit|
  {
    if lit != [] {
      AgreeAt(s, u, n, i);
      ExpectStable(s, u, i + 1, lit[1..], n);
    }
  }

  lemma EndLineStable(s: seq<Byte>, u: seq<Byte>, i: nat, n: nat)
    requires Agree(s, u, n) && i < |s| && EndLine(s, i).Ok? && EndLine(s, i).value <= n
    ensures EndLine(u, i) == EndLine(s, i)
  {
    AgreeAt(s, u, n, i);
    if s[i] == CR {
      AgreeAt(s, u, n, i + 1);
    }
  }

  lemma LineStable(s: seq<Byte>, u: seq<Byte>, i: nat, n: nat)
    requires Agree(s, u, n) && i <= |s| && Line(s, i).Ok? && Line(s, i).value.1 <= n
    ensures Line(u, i) == Line(s, i)
  {
    TextEndStable(s, u, i, n);
    EndLineStable(s, u, TextEnd(s, i).value, n);
  }

  lemma VersionStable(s: seq<Byte>, u: seq<Byte>, i: nat, n: nat)
    requires Agree(s, u, n) && i <= |s| && Version(s, i).Ok? && Version(s, i).value.1 < n
    ensures Version(u, i) == Version(s, i)
  {
    var j := i + |HTTP1|;
    assert Expect(s, i, HTTP1).Ok?;
    var e := DigitsEnd(s, j).value;
    ExpectStable(s, u, i, HTTP1, n);
    AgreeAt(s, u, n, j);
    DigitsEndStable(s, u, j, n);
    AgreeSlice(s, u, n, j, e);
  }

  lemma HeaderLineStable(s: seq<Byte>, u: seq<Byte>, i: nat, first: bool, n: nat)
    requires Agree(s, u, n) && i < |s| && HeaderLine(s, i, first).Ok? && HeaderLine(s, i, first).value.1 <= n
    ensures HeaderLine(u, i, first) == HeaderLine(s, i, first)
  {
    AgreeAt(s, u, n, i);
    if !first && Blank(s[i]) {
      LineStable(s, u, i, n);
      AgreeSlice(s, u, n, i, Line(s, i).value.0);
    } else {
      var c := NameEnd(s, i).value;
      var j := SkipBlank(s, c + 1).value;
      NameEndStable(s, u, i, n);
      SkipBlankStable(s, u, c + 1, n);
      LineStable(s, u, j, n);
      AgreeSlice(s, u, n, i, c);
      AgreeSlice(s, u, n, j, Line(s, j).value.0);
    }
  }

  lemma {:induction false} HeadersStable(s: seq<Byte>, u: seq<Byte>, i: nat, k: nat, max: nat, n: nat)
    requires Agree(s, u, n) && i <= |s| && Headers(s, i, k, max).Ok? && Headers(s, i, k, max).value.1 <= n
    ensures Headers(u, i, k, max) == Headers(s, i, k, max)
    decreases |s| - i
  {
    AgreeAt(s, u, n, i);
    if s[i] == CR || s[i] == LF {
      EndLineStable(s, u, i, n);
    } else {
      var j := HeaderLine(s, i, k == 0).value.1;
      HeaderLineStable(s, u, i, k == 0, n);
      HeadersStable(s, u, j, k + 1, max, n);
    }
  }

  lemma RequestLineStable(s: seq<Byte>, u: seq<Byte>, i: nat, n: nat)
    requires Agree(s, u, n) && i <= |s| && RequestLine(s, i).Ok? && RequestLine(s, i).value.1 <= n
    ensures RequestLine(u, i) == RequestLine(s, i)
  {
    hide TokenEnd;
    hide Version;
    hide EndLine;
    hide Agree;
    var m := TokenEnd(s, i).value;
    var p := TokenEnd(s, m + 1).value;
    var v := Version(s, p + 1).value.1;
    TokenEndStable(s, u, i, n);
    TokenEndStable(s, u, m + 1, n);
    VersionStable(s, u, p + 1, n);
    EndLineStable(s, u, v, n);
    AgreeSlice(s, u, n, i, m);
    AgreeSlice(s, u, n, m + 1, p);
  }

  /** A request that parses in one buffer parses to the same in every buffer with the same bytes up
      to its end. */
  lemma ParseStable(s: seq<Byte>, u: seq<Byte>, max: nat)
    requires ParseRequest(s, max).Ok? && Agree(s, u, ParseRequest(s, max).value.1)
    ensures ParseRequest(u, max) == ParseRequest(s, max)
  {
    hide RequestLine;
    hide Headers;
    var n := ParseRequest(s, max).value.1;
    AgreeAt(s, u, n, 0);
    var i := if s[0] == CR || s[0] == LF then EndLine(s, 0).value else 0;
    if s[0] == CR || s[0] == LF {
      EndLineStable(s, u, 0, n);
    }
    RequestLineStable(s, u, i, n);
    HeadersStable(s, u, RequestLine(s, i).value.1, 0, max, n);
  }

  // ----- carriage returns in what has been parsed -----

  /** Between `i` and `n` every CR is followed by an LF, also before `n`. */
  predicate PairedTo(s: seq<Byte>, i: nat, n: nat)
    requires n <= |s|
  {
    forall k :: i <= k < n && s[k] == CR ==> k + 1 < n && s[k + 1] == LF
  }

  /** From `i` on every CR is followed by an LF or ends the input. */
  predicate Paired(s: seq<Byte>, i: nat)
  {
    forall k :: i <= k && k + 1 < |s| && s[k] == CR ==> s[k + 1] == LF
  }

  /** What a parser's answer says about the CRs it has seen. */
  predicate Clean(s: seq<Byte>, i: nat, r: Res<nat>)
  {
    (r.Ok? ==> r.value <= |s| && PairedTo(s, i, r.value)) && (r.Part? ==> Paired(s, i))
  }

  lemma {:induction false} TokenClean(s: seq<Byte>, i: nat)
    requires i <= |s|
    ensures Clean(s, i, TokenEnd(s, i))
    decreases |s| - i
  {
    if i < |s| && s[i] != SP && !Control(s[i]) {
      TokenClean(s, i + 1);
    }
  }

  lemma {:induction false} TextClean(s: seq<Byte>, i: nat)
    requires i <= |s|
    ensures Clean(s, i, TextEnd(s, i))
    decreases |s| - i
  {
    if i < |s| && !LineControl(s[i]) {
      TextClean(s, i + 1);
    }
  }

  lemma {:induction false} DigitsClean(s: seq<Byte>, i: nat)
    requires i <= |s|
    ensures Clean(s, i, DigitsEnd(s, i))
    decreases |s| - i
  {
    if i < |s| && Digit(s[i]) {
      DigitsClean(s, i + 1);
    }
  }

  lemma {:induction false} NameClean(s: seq<Byte>, i: nat)
    requires i <= |s|
    ensures Clean(s, i, NameEnd(s, i))
    decreases |s| - i
  {
    if i < |s| && s[i] != COLON && TokenChar(s[i]) {
      NameClean(s, i + 1);
    }
  }

  lemma {:induction false} BlankClean(s: seq<Byte>, i: nat)
    requires i <= |s|
    ensures Clean(s, i, SkipBlank(s, i))
    decreases |s| - i
  {
    if i < |s| && Blank(s[i]) {
      BlankClean(s, i + 1);
    }
  }

  lemma {:induction false} ExpectClean(s: seq<Byte>, i: nat, lit: seq<Byte>)
    requires i <= |s| && CR !in lit
    ensures Clean(s, i, Expect(s, i, lit))
    decreases |lit|
  {
    if lit != [] && i < |s| && s[i] == lit[0] {
      ExpectClean(s, i + 1, lit[1..]);
    }
  }

  lemma EndLineClean(s: seq<Byte>, i: nat)
    requires i < |s|
    ensures Clean(s, i, EndLine(s, i))
  {
  }

  function Second<T>(r: Res<(T, nat)>): Res<nat>
  {
    match r case Ok(v) => Ok(v.1) case Bad => Bad case Part => Part
  }

  /** What was seen before `j` and what is seen from there on. */
  lemma CleanThen(s: seq<Byte>, i: nat, j: nat, r: Res<nat>)
    requires i <= j <= |s| && PairedTo(s, i, j) && Clean(s, j, r) && (r.Ok? ==> j <= r.value)
    ensures Clean(s, i, r)
  {
  }

  lemma LineClean(s: seq<Byte>, i: nat)
    requires i <= |s|
    ensures Clean(s, i, Second(Line(s, i)))
  {
    TextClean(s, i);
    if TextEnd(s, i).Ok? {
      EndLineClean(s, TextEnd(s, i).value);
    }
  }

  lemma VersionClean(s: seq<Byte>, i: nat)
    requires i <= |s|
    ensures Clean(s, i, Second(Version(s, i)))
  {
    hide Expect;
    hide DigitsEnd;
    ExpectClean(s, i, HTTP1);
    if Expect(s, i, HTTP1).Ok? {
      var j := i + |HTTP1|;
      DigitsClean(s, j);
      CleanThen(s, i, j, DigitsEnd(s, j));
      if j == |s| {
        CleanThen(s, i, j, Part);
      } else if DigitsEnd(s, j).Bad? {
        DigitsNotBad(s, j);
      }
    }
  }

  lemma {:induction false} DigitsNotBad(s: seq<Byte>, i: nat)
    requires i <= |s|
    ensures !DigitsEnd(s, i).Bad?
    decreases |s| - i
  {
    if i < |s| && Digit(s[i]) {
      DigitsNotBad(s, i + 1);
    }
  }

  lemma {:induction false} BlankNotBad(s: seq<Byte>, i: nat)
    requires i <= |s|
    ensures !SkipBlank(s, i).Bad?
    decreases |s| - i
  {
    if i < |s| && Blank(s[i]) {
      BlankNotBad(s, i + 1);
    }
  }

  lemma HeaderLineClean(s: seq<Byte>, i: nat, first: bool)
    requires i < |s|
    ensures Clean(s, i, Second(HeaderLine(s, i, first)))
  {
    hide NameEnd;
    hide SkipBlank;
    hide Line;
    if !first && Blank(s[i]) {
      LineClean(s, i);
    } else {
      NameClean(s, i);
      if NameEnd(s, i).Ok? {
        var c := NameEnd(s, i).value;
        NameStop(s, i);
        BlankClean(s, c + 1);
        BlankNotBad(s, c + 1);
        assert PairedTo(s, i, c + 1);
        CleanThen(s, i, c + 1, SkipBlank(s, c + 1));
        if SkipBlank(s, c + 1).Ok? {
          var j := SkipBlank(s, c + 1).value;
          LineClean(s, j);
          CleanThen(s, i, j, Second(Line(s, j)));
        }
      }
    }
  }

  lemma {:induction false} NameStop(s: seq<Byte>, i: nat)
    requires i <= |s|
    ensures NameEnd(s, i).Ok? ==> s[NameEnd(s, i).value] == COLON
    decreases |s| - i
  {
    if i < |s| && s[i] != COLON && TokenChar(s[i]) {
      NameStop(s, i + 1);
    }
  }

  lemma {:induction false} TokenStop(s: seq<Byte>, i: nat)
    requires i <= |s|
    ensures TokenEnd(s, i).Ok? ==> s[TokenEnd(s, i).value] == SP
    decreases |s| - i
  {
    if i < |s| && s[i] != SP && !Control(s[i]) {
      TokenStop(s, i + 1);
    }
  }

  lemma {:induction false} HeadersClean(s: seq<Byte>, i: nat, k: nat, max: nat)
    requires i <= |s|
    ensures Clean(s, i, Second(Headers(s, i, k, max)))
    decreases |s| - i
  {
    hide HeaderLine;
    if i == |s| {
    } else if s[i] == CR || s[i] == LF {
      EndLineClean(s, i);
    } else if k != max {
      HeaderLineClean(s, i, k == 0);
      if HeaderLine(s, i, k == 0).Ok? {
        HeadersClean(s, HeaderLine(s, i, k == 0).value.1, k + 1, max);
      }
    }
  }

  lemma RequestLineClean(s: seq<Byte>, i: nat)
    requires i <= |s|
    ensures Clean(s, i, Second(RequestLine(s, i)))
  {
    hide TokenEnd;
    hide Version;
    hide EndLine;
    TokenClean(s, i);
    if TokenEnd(s, i).Ok? {
      var m := TokenEnd(s, i).value;
      TokenStop(s, i);
      TokenClean(s, m + 1);
      if TokenEnd(s, m + 1).Ok? {
        var p := TokenEnd(s, m + 1).value;
        TokenStop(s, m + 1);
        VersionClean(s, p + 1);
        if Version(s, p + 1).Ok? {
          EndLineClean(s, Version(s, p + 1).value.1);
        }
      }
    }
  }

  lemma ParseClean(s: seq<Byte>, max: nat)
    ensures Clean(s, 0, Second(ParseRequest(s, max)))
  {
    hide RequestLine;
    hide Headers;
    if s != [] {
      var first := if s[0] == CR || s[0] == LF then EndLine(s, 0) else Ok(0);
      EndLineClean(s, 0);
      if first.Ok? {
        RequestLineClean(s, first.value);
        if RequestLine(s, first.value).Ok? {
          HeadersClean(s, RequestLine(s, first.value).value.1, 0, max);
        }
      }
    }
  }

  // ----- a parsed request ends with two line ends -----

  predicate IsEol(s: seq<Byte>, i: nat, j: nat)
  {
    i < |s| && (s[i] == CR || s[i] == LF) && EndLine(s, i) == Ok(j)
  }

  ghost predicate EndsTwice(s: seq<Byte>, n: nat)
  {
    exists q, r :: IsEol(s, q, r) && IsEol(s, r, n)
  }

  lemma LineEol(s: seq<Byte>, i: nat)
    requires i <= |s|
    ensures Line(s, i).Ok? ==> IsEol(s, Line(s, i).value.0, Line(s, i).value.1)
  {
  }

  lemma HeaderLineEol(s: seq<Byte>, i: nat, first: bool)
    requires i < |s| && HeaderLine(s, i, first).Ok?
    ensures exists q :: IsEol(s, q, HeaderLine(s, i, first).value.1)
  {
    if !first && Blank(s[i]) {
      LineEol(s, i);
    } else {
      LineEol(s, SkipBlank(s, NameEnd(s, i).value + 1).value);
    }
  }

  lemma {:induction false} HeadersEnd(s: seq<Byte>, q: nat, i: nat, k: nat, max: nat)
    requires i <= |s| && IsEol(s, q, i) && Headers(s, i, k, max).Ok?
    ensures EndsTwice(s, Headers(s, i, k, max).value.1)
    decreases |s| - i
  {
    hide HeaderLine;
    if s[i] == CR || s[i] == LF {
      assert IsEol(s, i, Headers(s, i, k, max).value.1);
    } else {
      HeaderLineEol(s, i, k == 0);
      var j := HeaderLine(s, i, k == 0).value.1;
      var p :| IsEol(s, p, j);
      HeadersEnd(s, p, j, k + 1, max);
    }
  }

  lemma ParseEnd(s: seq<Byte>, max: nat)
    requires ParseRequest(s, max).Ok?
    ensures EndsTwice(s, ParseRequest(s, max).value.1)
  {
    hide Headers;
    hide TokenEnd;
    hide Version;
    var i := if s[0] == CR || s[0] == LF then EndLine(s, 0).value else 0;
    var m := TokenEnd(s, i).value;
    var v := Version(s, TokenEnd(s, m + 1).value + 1).value.1;
    var j := RequestLine(s, i).value.1;
    assert IsEol(s, v, j);
    HeadersEnd(s, v, j, 0, max);
  }

  // ----- the resume check finds that end -----

  /** Behind a first line end the second one is found. */
  lemma CompleteSecond(s: seq<Byte>, r: nat, n: nat, count: nat)
    requires IsEol(s, r, n) && count == 1
    ensures Complete(s, r, count).Ok?
  {
  }

  lemma {:induction false} CompleteFinds(s: seq<Byte>, i: nat, count: nat, q: nat, r: nat, n: nat)
    requires i <= q && IsEol(s, q, r) && IsEol(s, r, n) && PairedTo(s, 0, n) && count <= 1 && n <= |s|
    ensures Complete(s, i, count).Ok?
    decreases |s| - i
  {
    if i == q {
      if count == 0 {
        CompleteSecond(s, r, n, 1);
      }
    } else if s[i] == CR || s[i] == LF {
      var j := EndLine(s, i).value;
      if count == 0 {
        if j <= q {
          CompleteFinds(s, j, 1, q, r, n);
        } else {
          assert j == r;
          CompleteSecond(s, r, n, 1);
        }
      }
    } else {
      CompleteFinds(s, i + 1, 0, q, r, n);
    }
  }

  lemma {:induction false} CompleteBad(s: seq<Byte>, i: nat, count: nat)
    requires i <= |s| && Complete(s, i, count).Bad?
    ensures !Paired(s, i)
    decreases |s| - i
  {
    if s[i] == CR || s[i] == LF {
      if EndLine(s, i).Ok? {
        CompleteBad(s, EndLine(s, i).value, count + 1);
      } else {
        assert s[i] == CR && s[i + 1] != LF;
      }
    } else {
      CompleteBad(s, i + 1, 0);
    }
  }

  /** Called again with more input, where the first `lastLen` bytes did not hold a whole request, the
      parser succeeds exactly when a one-shot parse does and with the same request and length, it
      reports malformed input only when the one-shot parse does, and it waits whenever the one-shot
      parse waits. */
  lemma ResumeSound(s: seq<Byte>, lastLen: nat, max: nat)
    requires lastLen <= |s| && !ParseRequest(s[..lastLen], max).Ok?
    ensures forall v :: Resume(s, lastLen, max) == Ok(v) <==> ParseRequest(s, max) == Ok(v)
    ensures Resume(s, lastLen, max).Bad? ==> ParseRequest(s, max).Bad?
    ensures ParseRequest(s, max).Part? ==> Resume(s, lastLen, max).Part?
  {
    hide ParseRequest;
    hide Complete;
    var start := if lastLen < 3 then 0 else lastLen - 3;
    ParseClean(s, max);
    if ParseRequest(s, max).Ok? {
      var n := ParseRequest(s, max).value.1;
      if n <= lastLen {
        assert s[..lastLen][..n] == s[..n];
        ParseStable(s, s[..lastLen], max);
      }
      ParseEnd(s, max);
      var q, r :| IsEol(s, q, r) && IsEol(s, r, n);
      CompleteFinds(s, start, 0, q, r, n);
    } else if Complete(s, start, 0).Bad? {
      CompleteBad(s, start, 0);
    }
  }
}
