/** The request parser asks for more input exactly when more input can complete a request, and reports malformed input
    exactly when none can. */
module HttpExtend {
  import opened Bytes
  import opened HttpRequest
  import opened HttpResume
  import opened HttpFeed

  lemma Extended(s: seq<Byte>, t: seq<Byte>)
    ensures Agree(s, s + t, |s|)
  {
    assert (s + t)[..|s|] == s && s[..|s|] == s;
  }

  // ----- scanners that run into the end -----

  lemma {:induction false} TokenExtends(s: seq<Byte>, i: nat, t: seq<Byte>)
    requires i <= |s| && TokenEnd(s, i).Part? && t != [] && t[0] == SP
    ensures TokenEnd(s + t, i) == Ok(|s|)
    decreases |s| - i
  {
    if i < |s| {
      assert (s + t)[i] == s[i];
      TokenExtends(s, i + 1, t);
    }
  }

  lemma {:induction false} TextExtends(s: seq<Byte>, i: nat, t: seq<Byte>)
    requires i <= |s| && TextEnd(s, i).Part? && t != [] && t[0] == LF
    ensures TextEnd(s + t, i) == Ok(|s|)
    decreases |s| - i
  {
    if i < |s| {
      assert (s + t)[i] == s[i];
      TextExtends(s, i + 1, t);
    }
  }

  lemma {:induction false} DigitsExtend(s: seq<Byte>, i: nat, t: seq<Byte>)
    requires i <= |s| && DigitsEnd(s, i).Part? && t != [] && t[0] == LF
    ensures DigitsEnd(s + t, i) == Ok(|s|)
    decreases |s| - i
  {
    if i < |s| {
      assert (s + t)[i] == s[i];
      DigitsExtend(s, i + 1, t);
    }
  }

  lemma {:induction false} NameExtends(s: seq<Byte>, i: nat, t: seq<Byte>)
    requires i <= |s| && NameEnd(s, i).Part? && t != [] && t[0] == COLON
    ensures NameEnd(s + t, i) == Ok(|s|)
    decreases |s| - i
  {
    if i < |s| {
      assert (s + t)[i] == s[i];
      NameExtends(s, i + 1, t);
    }
  }

  lemma {:induction false} BlanksExtend(s: seq<Byte>, i: nat, t: seq<Byte>)
    requires i <= |s| && SkipBlank(s, i).Part? && t != [] && t[0] == LF
    ensures SkipBlank(s + t, i) == Ok(|s|)
    decreases |s| - i
  {
    if i < |s| {
      assert (s + t)[i] == s[i];
      BlanksExtend(s, i + 1, t);
    }
  }

  lemma {:induction false} LiteralExtends(s: seq<Byte>, i: nat, lit: seq<Byte>, t: seq<Byte>)
    requires i <= |s| && Expect(s, i, lit).Part? && |s| - i <= |lit| && lit[|s| - i..] <= t
    ensures Expect(s + t, i, lit) == Ok(i + |lit|)
    decreases |lit|
  {
    if i < |s| {
      assert (s + t)[i] == s[i];
      assert lit[1..][|s| - (i + 1)..] == lit[|s| - i..];
      LiteralExtends(s, i + 1, lit[1..], t);
    } else {
      LiteralHere(s, t, lit);
    }
  }

  lemma {:induction false} LiteralHere(s: seq<Byte>, t: seq<Byte>, lit: seq<Byte>)
    requires lit <= t
    ensures Expect(s + t, |s|, lit) == Ok(|s| + |lit|)
    decreases |lit|
  {
    if lit != [] {
      assert (s + t)[|s|] == t[0] == lit[0];
      assert s + t == (s + [t[0]]) + t[1..];
      LiteralHere(s + [t[0]], t[1..], lit[1..]);
    }
  }

  lemma {:induction false} LiteralLength(s: seq<Byte>, i: nat, lit: seq<Byte>)
    requires i <= |s| && Expect(s, i, lit).Part?
    ensures |s| - i < |lit|
    decreases |lit|
  {
    if i < |s| {
      LiteralLength(s, i + 1, lit[1..]);
    }
  }

  lemma EolExtends(s: seq<Byte>, i: nat)
    requires i < |s| && EndLine(s, i).Part?
    ensures i + 1 == |s| && EndLine(s + [LF], i) == Ok(|s| + 1)
  {
    assert (s + [LF])[i] == s[i] && (s + [LF])[i + 1] == LF;
  }

  lemma EolHere(s: seq<Byte>, t: seq<Byte>)
    requires t != [] && t[0] == LF
    ensures EndLine(s + t, |s|) == Ok(|s| + 1)
  {
    assert (s + t)[|s|] == LF;
  }

  // ----- lines -----

  lemma LineExtends(s: seq<Byte>, i: nat)
    requires i <= |s| && Line(s, i).Part?
    ensures Line(s + [LF], i).Ok? && Line(s + [LF], i).value.1 == |s| + 1
  {
    hide TextEnd;
    TextNotBad(s, i);
    if TextEnd(s, i).Part? {
      TextExtends(s, i, [LF]);
      EolHere(s, [LF]);
    } else {
      Extended(s, [LF]);
      TextEndStable(s, s + [LF], i, |s|);
      EolExtends(s, TextEnd(s, i).value);
    }
  }

  /** An empty value, from the colon on. */
  lemma EmptyValue(u: seq<Byte>, j: nat)
    requires j + 1 == |u| && u[j] == LF
    ensures SkipBlank(u, j) == Ok(j) && Line(u, j) == Ok((j, j + 1))
  {
  }

  lemma HeaderLineExtends(s: seq<Byte>, i: nat, first: bool) returns (t: seq<Byte>)
    requires i < |s| && HeaderLine(s, i, first).Part?
    ensures HeaderLine(s + t, i, first).Ok? && HeaderLine(s + t, i, first).value.1 == |s + t|
  {
    hide Line;
    hide NameEnd;
    hide SkipBlank;
    t := if !(!first && Blank(s[i])) && NameEnd(s, i).Part? then [COLON, LF] else [LF];
    var u := s + t;
    assert u[i] == s[i];
    Extended(s, t);
    if !first && Blank(s[i]) {
      LineExtends(s, i);
    } else if NameEnd(s, i).Part? {
      NameExtends(s, i, t);
      assert u[|s| + 1] == LF;
      EmptyValue(u, |s| + 1);
    } else {
      NameEndStable(s, u, i, |s|);
      var c := NameEnd(s, i).value;
      BlankNotBad(s, c + 1);
      if SkipBlank(s, c + 1).Part? {
        BlanksExtend(s, c + 1, t);
        assert u[|s|] == LF;
        EmptyValue(u, |s|);
      } else {
        SkipBlankStable(s, u, c + 1, |s|);
        LineExtends(s, SkipBlank(s, c + 1).value);
      }
    }
  }

  lemma HeadersEndHere(s: seq<Byte>, k: nat, max: nat)
    ensures Headers(s + [LF], |s|, k, max).Ok?
  {
    assert (s + [LF])[|s|] == LF;
  }

  lemma {:induction false} HeadersExtend(s: seq<Byte>, i: nat, k: nat, max: nat) returns (t: seq<Byte>)
    requires i <= |s| && Headers(s, i, k, max).Part?
    ensures Headers(s + t, i, k, max).Ok?
    decreases |s| - i
  {
    hide HeaderLine;
    if i == |s| {
      t := [LF];
      HeadersEndHere(s, k, max);
    } else if s[i] == CR || s[i] == LF {
      t := [LF];
      EolExtends(s, i);
      assert (s + t)[i] == s[i];
    } else if HeaderLine(s, i, k == 0).Part? {
      var t1 := HeaderLineExtends(s, i, k == 0);
      var u := s + t1;
      t := t1 + [LF];
      assert s + t == u + [LF] && (s + t)[i] == s[i];
      Extended(u, [LF]);
      HeaderLineStable(u, u + [LF], i, k == 0, |u|);
      HeadersEndHere(u, k + 1, max);
    } else {
      var j := HeaderLine(s, i, k == 0).value.1;
      t := HeadersExtend(s, j, k + 1, max);
      Extended(s, t);
      assert (s + t)[i] == s[i];
      HeaderLineStable(s, s + t, i, k == 0, |s|);
    }
  }

  // ----- the request line -----

  /** The version and its line end, from where it is cut off. */
  lemma VersionExtends(s: seq<Byte>, i: nat) returns (t: seq<Byte>)
    requires i <= |s| && Version(s, i).Part?
    ensures Version(s + t, i).Ok? && EndLine(s + t, Version(s + t, i).value.1) == Ok(|s + t|)
  {
    if Expect(s, i, HTTP1).Part? {
      t := LiteralCut(s, i);
    } else {
      t := DigitsCut(s, i);
    }
  }

  lemma LiteralCut(s: seq<Byte>, i: nat) returns (t: seq<Byte>)
    requires i <= |s| && Expect(s, i, HTTP1).Part?
    ensures Version(s + t, i).Ok? && EndLine(s + t, Version(s + t, i).value.1) == Ok(|s + t|)
  {
    hide Expect;
    hide DigitsEnd;
    hide Decimal;
    hide EndLine;
    LiteralLength(s, i, HTTP1);
    var rest := HTTP1[|s| - i..];
    t := rest + [0x30, LF];
    LiteralExtends(s, i, HTTP1, t);
    var u, j := s + t, i + |HTTP1|;
    assert j + 2 == |u|;
    assert u == (s + rest) + [0x30, LF];
    assert u[j] == 0x30 && u[j + 1] == LF;
    ZeroLine(u, j);
  }

  lemma DigitsCut(s: seq<Byte>, i: nat) returns (t: seq<Byte>)
    requires i <= |s| && Expect(s, i, HTTP1).Ok? && Version(s, i).Part?
    ensures Version(s + t, i).Ok? && EndLine(s + t, Version(s + t, i).value.1) == Ok(|s + t|)
  {
    hide Expect;
    hide DigitsEnd;
    hide Decimal;
    hide EndLine;
    var j := i + |HTTP1|;
    t := if j == |s| then [0x30, LF] else [LF];
    Extended(s, t);
    ExpectStable(s, s + t, i, HTTP1, |s|);
    if j == |s| {
      assert (s + t)[j] == 0x30 && (s + t)[j + 1] == LF;
      ZeroLine(s + t, j);
    } else {
      DigitsNotBad(s, j);
      DigitsExtend(s, j, t);
      EolHere(s, t);
      assert (s + t)[j] == s[j];
    }
  }

  lemma ZeroLine(u: seq<Byte>, j: nat)
    requires j + 2 == |u| && u[j] == 0x30 && u[j + 1] == LF
    ensures DigitsEnd(u, j) == Ok(j + 1) && EndLine(u, j + 1) == Ok(j + 2)
  {
    assert DigitsEnd(u, j + 1) == Ok(j + 1);
  }

  /** From the end of the path on. */
  lemma PathEnd(s: seq<Byte>, i: nat, m: nat, p: nat) returns (t: seq<Byte>)
    requires i <= m < p < |s| && TokenEnd(s, i) == Ok(m) && TokenEnd(s, m + 1) == Ok(p) && Version(s, p + 1).Part?
    ensures RequestLine(s + t, i).Ok? && RequestLine(s + t, i).value.1 == |s + t|
  {
    hide TokenEnd;
    hide Version;
    hide EndLine;
    t := VersionExtends(s, p + 1);
    Extended(s, t);
    TokenEndStable(s, s + t, i, |s|);
    TokenEndStable(s, s + t, m + 1, |s|);
  }

  lemma EmptyVersion(s: seq<Byte>)
    ensures Version(s, |s|).Part?
  {
  }

  lemma RequestLineExtends(s: seq<Byte>, i: nat) returns (t: seq<Byte>)
    requires i <= |s| && RequestLine(s, i).Part?
    ensures RequestLine(s + t, i).Ok? && RequestLine(s + t, i).value.1 == |s + t|
  {
    hide TokenEnd;
    hide Version;
    hide EndLine;
    if TokenEnd(s, i).Part? {
      TokenExtends(s, i, [SP, SP]);
      var u := s + [SP, SP];
      SpaceHere(u, |s| + 1);
      EmptyVersion(u);
      var t1 := PathEnd(u, i, |s|, |s| + 1);
      t := [SP, SP] + t1;
      assert s + t == u + t1;
    } else {
      var m := TokenEnd(s, i).value;
      if TokenEnd(s, m + 1).Part? {
        var u := s + [SP];
        Extended(s, [SP]);
        TokenEndStable(s, u, i, |s|);
        TokenExtends(s, m + 1, [SP]);
        EmptyVersion(u);
        var t1 := PathEnd(u, i, m, |s|);
        t := [SP] + t1;
        assert s + t == u + t1;
      } else {
        var p := TokenEnd(s, m + 1).value;
        if Version(s, p + 1).Part? {
          t := PathEnd(s, i, m, p);
        } else {
          var v := Version(s, p + 1).value.1;
          t := [LF];
          Extended(s, t);
          TokenEndStable(s, s + t, i, |s|);
          TokenEndStable(s, s + t, m + 1, |s|);
          VersionStable(s, s + t, p + 1, |s|);
          EolExtends(s, v);
        }
      }
    }
  }

  lemma SpaceHere(u: seq<Byte>, i: nat)
    requires i < |u| && u[i] == SP
    ensures TokenEnd(u, i) == Ok(i)
  {
  }

  // ----- requests -----

  lemma EmptyRequestLine(s: seq<Byte>)
    ensures RequestLine(s, |s|).Part?
  {
  }

  /** The request from behind an optional empty line. */
  lemma RequestExtends(s: seq<Byte>, i: nat, max: nat) returns (t: seq<Byte>)
    requires i <= |s| && (RequestLine(s, i).Part? || (RequestLine(s, i).Ok? && Headers(s, RequestLine(s, i).value.1, 0, max).Part?))
    ensures RequestLine(s + t, i).Ok? && Headers(s + t, RequestLine(s + t, i).value.1, 0, max).Ok?
  {
    hide RequestLine;
    hide Headers;
    if RequestLine(s, i).Part? {
      var t1 := RequestLineExtends(s, i);
      var u := s + t1;
      t := t1 + [LF];
      assert s + t == u + [LF];
      Extended(u, [LF]);
      RequestLineStable(u, u + [LF], i, |u|);
      HeadersEndHere(u, 0, max);
    } else {
      t := HeadersExtend(s, RequestLine(s, i).value.1, 0, max);
      Extended(s, t);
      RequestLineStable(s, s + t, i, |s|);
    }
  }

  /** Input that is waited for can always be completed. */
  lemma PartExtends(s: seq<Byte>, max: nat) returns (t: seq<Byte>)
    requires ParseRequest(s, max).Part?
    ensures ParseRequest(s + t, max).Ok?
  {
    hide RequestLine;
    hide Headers;
    if s == [] {
      t := StartRequest(max);
      assert s + t == t;
    } else if s[0] == CR || s[0] == LF {
      if EndLine(s, 0).Part? {
        EolExtends(s, 0);
        var u := s + [LF];
        EmptyRequestLine(u);
        var t1 := RequestExtends(u, |u|, max);
        t := [LF] + t1;
        assert s + t == u + t1 && (s + t)[0] == s[0];
        Extended(u, t1);
        EndLineStable(u, u + t1, 0, |u|);
      } else {
        t := RequestExtends(s, EndLine(s, 0).value, max);
        Extended(s, t);
        EndLineStable(s, s + t, 0, |s|);
        assert (s + t)[0] == s[0];
      }
    } else {
      t := RequestExtends(s, 0, max);
      assert (s + t)[0] == s[0];
    }
  }

  lemma StartRequest(max: nat) returns (t: seq<Byte>)
    ensures ParseRequest(t, max).Ok?
  {
    hide RequestLine;
    hide Headers;
    var s: seq<Byte> := [SP];
    SpaceLine(s);
    var t1 := RequestExtends(s, 0, max);
    t := s + t1;
    assert t[0] == SP;
  }

  lemma SpaceLine(s: seq<Byte>)
    requires s == [SP]
    ensures RequestLine(s, 0).Part?
  {
    assert TokenEnd(s, 0) == Ok(0) && TokenEnd(s, 1).Part?;
  }

  /** The verdicts, exactly: malformed means that no further input completes a request, and asking for more means that
      some does and what is there does not. */
  lemma VerdictExactly(s: seq<Byte>, max: nat)
    ensures ParseRequest(s, max).Bad? <==> forall t :: !ParseRequest(s + t, max).Ok?
    ensures ParseRequest(s, max).Part? <==> !ParseRequest(s, max).Ok? && exists t :: ParseRequest(s + t, max).Ok?
  {
    hide ParseRequest;
    assert s + [] == s;
    match ParseRequest(s, max)
    case Part =>
      var t := PartExtends(s, max);
      assert ParseRequest(s + t, max).Ok?;
    case Ok(_) =>
      assert ParseRequest(s + [], max).Ok?;
    case Bad =>
      forall t ensures !ParseRequest(s + t, max).Ok? {
        assert (s + t)[..|s|] == s;
        ParseDecided(s, s + t, max);
      }
  }
}
