/** A request that arrives in pieces: the calls made on the growing buffer give the answer that one
    call on the whole buffer gives. */
module HttpFeed {
  import opened Bytes
  import opened HttpRequest
  import opened HttpResume

  // ----- malformed input stays malformed -----

  lemma {:induction false} TokenBad(s: seq<Byte>, u: seq<Byte>, i: nat)
    requires Agree(s, u, |s|) && i <= |s| && TokenEnd(s, i).Bad?
    ensures TokenEnd(u, i).Bad?
    decreases |s| - i
  {
    AgreeAt(s, u, |s|, i);
    if !Control(s[i]) {
      TokenBad(s, u, i + 1);
    }
  }

  lemma {:induction false} NameBad(s: seq<Byte>, u: seq<Byte>, i: nat)
    requires Agree(s, u, |s|) && i <= |s| && NameEnd(s, i).Bad?
    ensures NameEnd(u, i).Bad?
    decreases |s| - i
  {
    AgreeAt(s, u, |s|, i);
    if TokenChar(s[i]) {
      NameBad(s, u, i + 1);
    }
  }

  lemma {:induction false} TextNotBad(s: seq<Byte>, i: nat)
    requires i <= |s|
    ensures !TextEnd(s, i).Bad?
    decreases |s| - i
  {
    if i < |s| && !LineControl(s[i]) {
      TextNotBad(s, i + 1);
    }
  }

  lemma {:induction false} ExpectBad(s: seq<Byte>, u: seq<Byte>, i: nat, lit: seq<Byte>)
    requires Agree(s, u, |s|) && i <= |s| && Expect(s, i, lit).Bad?
    ensures Expect(u, i, lit).Bad?
    decreases |lit|
  {
    AgreeAt(s, u, |s|, i);
    if s[i] == lit[0] {
      ExpectBad(s, u, i + 1, lit[1..]);
    }
  }

  lemma EndLineBad(s: seq<Byte>, u: seq<Byte>, i: nat)
    requires Agree(s, u, |s|) && i < |s| && EndLine(s, i).Bad?
    ensures EndLine(u, i).Bad?
  {
    AgreeAt(s, u, |s|, i);
    if s[i] == CR {
      AgreeAt(s, u, |s|, i + 1);
    }
  }

  lemma LineBad(s: seq<Byte>, u: seq<Byte>, i: nat)
    requires Agree(s, u, |s|) && i <= |s| && Line(s, i).Bad?
    ensures Line(u, i).Bad?
  {
    TextNotBad(s, i);
    TextEndStable(s, u, i, |s|);
    EndLineBad(s, u, TextEnd(s, i).value);
  }

  lemma VersionBad(s: seq<Byte>, u: seq<Byte>, i: nat)
    requires Agree(s, u, |s|) && i <= |s| && Version(s, i).Bad?
    ensures Version(u, i).Bad?
  {
    hide Expect;
    if Expect(s, i, HTTP1).Bad? {
      ExpectBad(s, u, i, HTTP1);
    } else {
      ExpectStable(s, u, i, HTTP1, |s|);
      AgreeAt(s, u, |s|, i + |HTTP1|);
    }
  }

  lemma HeaderLineBad(s: seq<Byte>, u: seq<Byte>, i: nat, first: bool)
    requires Agree(s, u, |s|) && i < |s| && HeaderLine(s, i, first).Bad?
    ensures HeaderLine(u, i, first).Bad?
  {
    hide Line;
    hide NameEnd;
    hide SkipBlank;
    AgreeAt(s, u, |s|, i);
    if !first && Blank(s[i]) {
      LineBad(s, u, i);
    } else if NameEnd(s, i).Bad? {
      NameBad(s, u, i);
    } else {
      NameEndStable(s, u, i, |s|);
      var c := NameEnd(s, i).value;
      if c != i {
        SkipBlankStable(s, u, c + 1, |s|);
        LineBad(s, u, SkipBlank(s, c + 1).value);
      }
    }
  }

  lemma {:induction false} HeadersBad(s: seq<Byte>, u: seq<Byte>, i: nat, k: nat, max: nat)
    requires Agree(s, u, |s|) && i <= |s| && Headers(s, i, k, max).Bad?
    ensures Headers(u, i, k, max).Bad?
    decreases |s| - i
  {
    hide HeaderLine;
    AgreeAt(s, u, |s|, i);
    if s[i] == CR || s[i] == LF {
      EndLineBad(s, u, i);
    } else if k != max {
      if HeaderLine(s, i, k == 0).Bad? {
        HeaderLineBad(s, u, i, k == 0);
      } else {
        HeaderLineStable(s, u, i, k == 0, |s|);
        HeadersBad(s, u, HeaderLine(s, i, k == 0).value.1, k + 1, max);
      }
    }
  }

  lemma RequestLineBad(s: seq<Byte>, u: seq<Byte>, i: nat)
    requires Agree(s, u, |s|) && i <= |s| && RequestLine(s, i).Bad?
    ensures RequestLine(u, i).Bad?
  {
    hide TokenEnd;
    hide Version;
    hide EndLine;
    hide Agree;
    if TokenEnd(s, i).Bad? {
      TokenBad(s, u, i);
    } else {
      TokenEndStable(s, u, i, |s|);
      var m := TokenEnd(s, i).value;
      if TokenEnd(s, m + 1).Bad? {
        TokenBad(s, u, m + 1);
      } else {
        TokenEndStable(s, u, m + 1, |s|);
        var p := TokenEnd(s, m + 1).value;
        if Version(s, p + 1).Bad? {
          VersionBad(s, u, p + 1);
        } else {
          VersionStable(s, u, p + 1, |s|);
          EndLineBad(s, u, Version(s, p + 1).value.1);
        }
      }
    }
  }

  /** An answer other than "more input" holds for every longer buffer as well. */
  lemma ParseDecided(s: seq<Byte>, u: seq<Byte>, max: nat)
    requires |s| <= |u| && u[..|s|] == s && !ParseRequest(s, max).Part?
    ensures ParseRequest(u, max) == ParseRequest(s, max)
  {
    assert s[..|s|] == s;
    if ParseRequest(s, max).Ok? {
      AgreeLess(s, u, |s|, ParseRequest(s, max).value.1);
      ParseStable(s, u, max);
    } else {
      ParseBad(s, u, max);
    }
  }

  lemma ParseBad(s: seq<Byte>, u: seq<Byte>, max: nat)
    requires Agree(s, u, |s|) && ParseRequest(s, max).Bad?
    ensures ParseRequest(u, max).Bad?
  {
    hide RequestLine;
    hide Headers;
    hide EndLine;
    AgreeAt(s, u, |s|, 0);
    if (s[0] == CR || s[0] == LF) && EndLine(s, 0).Bad? {
      EndLineBad(s, u, 0);
    } else {
      var i := if s[0] == CR || s[0] == LF then EndLine(s, 0).value else 0;
      if s[0] == CR || s[0] == LF {
        EndLineStable(s, u, 0, |s|);
      }
      if RequestLine(s, i).Bad? {
        RequestLineBad(s, u, i);
      } else {
        RequestLineStable(s, u, i, |s|);
        HeadersBad(s, u, RequestLine(s, i).value.1, 0, max);
      }
    }
  }

  // ----- a run of calls -----

  /** The lengths at which the caller tries grow, and the last is the whole buffer. */
  predicate Growing(cuts: seq<nat>, last: nat, len: nat)
  {
    if cuts == [] then last == len else last <= cuts[0] <= len && Growing(cuts[1..], cuts[0], len)
  }

  /** The caller's loop: parse what has arrived, and wait for more as long as the answer is -2. */
  function Feed(s: seq<Byte>, cuts: seq<nat>, last: nat, max: nat): Res<(Request, nat)>
    requires last <= |s| && Growing(cuts, last, |s|)
    decreases |cuts|
  {
    if cuts == [] then Part else
      match Resume(s[..cuts[0]], last, max)
      case Part => Feed(s, cuts[1..], cuts[0], max)
      case r => r
  }

  /** However the buffer is cut, the run of calls delivers a request exactly when one call on the whole
      buffer does, and the same one; it reports malformed input only if that call does, and it is
      still waiting whenever that call waits. */
  lemma {:induction false} FeedSound(s: seq<Byte>, cuts: seq<nat>, last: nat, max: nat)
    requires last <= |s| && Growing(cuts, last, |s|) && !ParseRequest(s[..last], max).Ok?
    ensures forall v :: Feed(s, cuts, last, max) == Ok(v) <==> ParseRequest(s, max) == Ok(v)
    ensures Feed(s, cuts, last, max).Bad? ==> ParseRequest(s, max).Bad?
    ensures ParseRequest(s, max).Part? ==> Feed(s, cuts, last, max).Part?
    decreases |cuts|
  {
    hide ParseRequest;
    hide Resume;
    if cuts == [] {
      assert s[..last] == s;
    } else {
      var u := s[..cuts[0]];
      assert u[..last] == s[..last];
      ResumeSound(u, last, max);
      if Resume(u, last, max).Part? {
        FeedSound(s, cuts[1..], cuts[0], max);
      } else {
        ParseDecided(u, s, max);
      }
    }
  }
}
