/** The cursor loops of the request parser. Positions stand for the C pointers, the header array is
    the caller's and is filled in place. */
module HttpParser {
  import opened Wrappers
  import opened Bytes
  import opened HttpRequest

  method AdvanceToken(s: seq<Byte>, start: nat) returns (r: Res<nat>)
    requires start <= |s|
    ensures r == TokenEnd(s, start)
  {
    if start == |s| {
      return Part;
    }
    var i := start;
    while true
      invariant start <= i < |s| && TokenEnd(s, i) == TokenEnd(s, start)
      decreases |s| - i
    {
      if s[i] == SP {
        return Ok(i);
      } else if !Printable(s[i]) {
        if s[i] < 0x20 || s[i] == DEL {
          return Bad;
        }
      }
      i := i + 1;
      if i == |s| {
        return Part;
      }
    }
    assert false;
  }

  /** One byte of the scan: `i` may be passed because the value does not end there. */
  lemma TextStep(s: seq<Byte>, i: nat)
    requires i < |s| && !LineControl(s[i])
    ensures TextEnd(s, i) == TextEnd(s, i + 1)
  {
  }

  lemma TextStop(s: seq<Byte>, i: nat)
    requires i < |s| && LineControl(s[i])
    ensures TextEnd(s, i) == Ok(i)
  {
  }

  /** Up to eight printable bytes from `i` on: the position of the first other byte, or `i + 8`. */
  method EightBytes(s: seq<Byte>, i: nat) returns (j: nat)
    requires i + 8 <= |s|
    ensures i <= j <= i + 8 && TextEnd(s, i) == TextEnd(s, j)
    ensures j < i + 8 ==> !Printable(s[j])
  {
    hide TextEnd;
    j := i;
    if !Printable(s[j]) { return; }
    TextStep(s, j);
    j := j + 1;
    if !Printable(s[j]) { return; }
    TextStep(s, j);
    j := j + 1;
    if !Printable(s[j]) { return; }
    TextStep(s, j);
    j := j + 1;
    if !Printable(s[j]) { return; }
    TextStep(s, j);
    j := j + 1;
    if !Printable(s[j]) { return; }
    TextStep(s, j);
    j := j + 1;
    if !Printable(s[j]) { return; }
    TextStep(s, j);
    j := j + 1;
    if !Printable(s[j]) { return; }
    TextStep(s, j);
    j := j + 1;
    if !Printable(s[j]) { return; }
    TextStep(s, j);
    j := j + 1;
  }

  /** The scan for the byte that ends a header value: eight bytes at a time while eight are left, then
      byte by byte. */
  method FindControl(s: seq<Byte>, start: nat) returns (r: Res<nat>)
    requires start <= |s|
    ensures r == TextEnd(s, start)
  {
    hide TextEnd;
    var i := start;
    while |s| - i >= 8
      invariant start <= i <= |s| && TextEnd(s, i) == TextEnd(s, start)
    {
      var j := EightBytes(s, i);
      if j < i + 8 {
        if (s[j] < 0x20 && s[j] != HT) || s[j] == DEL {
          TextStop(s, j);
          return Ok(j);
        }
        TextStep(s, j);
        j := j + 1;
      }
      i := j;
    }
    while i < |s|
      invariant start <= i <= |s| && TextEnd(s, i) == TextEnd(s, start)
    {
      if !Printable(s[i]) {
        if (s[i] < 0x20 && s[i] != HT) || s[i] == DEL {
          TextStop(s, i);
          return Ok(i);
        }
      }
      TextStep(s, i);
      i := i + 1;
    }
    TextOut(s);
    return Part;
  }

  lemma TextOut(s: seq<Byte>)
    ensures TextEnd(s, |s|).Part?
  {
  }

  /** The value's end and the position behind the line end. */
  method TokenToEol(s: seq<Byte>, start: nat) returns (r: Res<(nat, nat)>)
    requires start <= |s|
    ensures r == Line(s, start)
  {
    hide TextEnd;
    var end := FindControl(s, start);
    if !end.Ok? {
      return if end.Bad? then Bad else Part;
    }
    var i := end.value;
    if s[i] == CR {
      i := i + 1;
      if i == |s| {
        return Part;
      }
      if s[i] != LF {
        return Bad;
      }
      i := i + 1;
      return Ok((i - 2, i));
    } else if s[i] == LF {
      return Ok((i, i + 1));
    } else {
      return Bad;
    }
  }

  method IsComplete(s: seq<Byte>, lastLen: nat) returns (r: Res<nat>)
    requires lastLen <= |s|
    ensures r == Complete(s, if lastLen < 3 then 0 else lastLen - 3, 0)
  {
    var i := if lastLen < 3 then 0 else lastLen - 3;
    ghost var start := i;
    var count := 0;
    while i < |s|
      invariant i <= |s| && count < 2 && Complete(s, i, count) == Complete(s, start, 0)
      decreases |s| - i
    {
      if s[i] == CR {
        i := i + 1;
        if i == |s| {
          return Part;
        }
        if s[i] != LF {
          return Bad;
        }
        i := i + 1;
        count := count + 1;
      } else if s[i] == LF {
        i := i + 1;
        count := count + 1;
      } else {
        i := i + 1;
        count := 0;
      }
      if count == 2 {
        return Ok(i);
      }
    }
    return Part;
  }

  lemma DecimalStep(s: seq<Byte>, i: nat, j: nat)
    requires i <= j < |s| && Digit(s[j])
    ensures Decimal(s[i..j + 1]) == Decimal(s[i..j]) * 10 + (s[j] - 0x30)
  {
    assert s[i..j + 1][..j - i] == s[i..j];
  }

  /** At least one digit: the value and the first byte behind the digits. */
  function Minor(s: seq<Byte>, i: nat): Res<(nat, nat)>
    requires i <= |s|
  {
    if i == |s| then Part
    else if !Digit(s[i]) then Bad
    else match DigitsEnd(s, i)
         case Ok(e) => Ok((Decimal(s[i..e]), e))
         case _ => Part
  }

  /** The minor version. */
  method ParseInt(s: seq<Byte>, start: nat) returns (r: Res<(nat, nat)>)
    requires start <= |s|
    ensures r == Minor(s, start)
  {
    hide Decimal;
    if start == |s| {
      return Part;
    }
    if !Digit(s[start]) {
      return Bad;
    }
    var i: nat, v: nat := start, 0;
    assert Decimal(s[start..start]) == 0 by { DecimalEmpty(s[start..start]); }
    while i < |s|
      invariant start <= i <= |s| && v == Decimal(s[start..i]) && DigitsEnd(s, i) == DigitsEnd(s, start)
    {
      if !Digit(s[i]) {
        return Ok((v, i));
      }
      DecimalStep(s, start, i);
      v := v * 10 + (s[i] - 0x30);
      i := i + 1;
    }
    return Part;
  }

  lemma DecimalEmpty(x: seq<Byte>)
    requires x == []
    ensures Decimal(x) == 0
  {
  }

  method ParseVersion(s: seq<Byte>, start: nat) returns (r: Res<(nat, nat)>)
    requires start <= |s|
    ensures r == Version(s, start)
  {
    hide DigitsEnd;
    hide Decimal;
    var k := 0;
    while k < |HTTP1|
      invariant 0 <= k <= |HTTP1| && start + k <= |s|
      invariant Expect(s, start, HTTP1) == Expect(s, start + k, HTTP1[k..])
    {
      if start + k == |s| {
        return Part;
      }
      if s[start + k] != HTTP1[k] {
        return Bad;
      }
      assert HTTP1[k..][1..] == HTTP1[k + 1..];
      k := k + 1;
    }
    r := ParseInt(s, start + k);
  }

  /** The colon behind a header name. */
  method ParseName(s: seq<Byte>, start: nat) returns (r: Res<nat>)
    requires start <= |s|
    ensures r == NameEnd(s, start)
  {
    var i := start;
    while i < |s|
      invariant start <= i <= |s| && NameEnd(s, i) == NameEnd(s, start)
    {
      if s[i] == COLON {
        return Ok(i);
      } else if !TokenChar(s[i]) {
        return Bad;
      }
      i := i + 1;
    }
    return Part;
  }

  method SkipBlanks(s: seq<Byte>, start: nat) returns (r: Res<nat>)
    requires start <= |s|
    ensures r == SkipBlank(s, start)
  {
    var i := start;
    while i < |s|
      invariant start <= i <= |s| && SkipBlank(s, i) == SkipBlank(s, start)
    {
      if !(s[i] == SP || s[i] == HT) {
        return Ok(i);
      }
      i := i + 1;
    }
    return Part;
  }

  method ParseHeaderLine(s: seq<Byte>, i: nat, first: bool) returns (r: Res<(Header, nat)>)
    requires i < |s|
    ensures r == HeaderLine(s, i, first)
  {
    hide Line;
    hide NameEnd;
    hide SkipBlank;
    var j, name := i, None;
    if first || !(s[i] == SP || s[i] == HT) {
      var end := ParseName(s, i);
      if !end.Ok? {
        return if end.Bad? then Bad else Part;
      }
      if end.value == i {
        return Bad;
      }
      name := Some(s[i..end.value]);
      var skip := SkipBlanks(s, end.value + 1);
      if !skip.Ok? {
        return Part;
      }
      j := skip.value;
    }
    var line := TokenToEol(s, j);
    match line
    case Ok((e, n)) => return Ok((Header(name, s[j..e]), n));
    case Bad => return Bad;
    case Part => return Part;
  }

  /** What the loop has read and what is left give the whole answer. */
  function Prepend(hs: seq<Header>, r: Res<(seq<Header>, nat)>): Res<(seq<Header>, nat)>
  {
    match r
    case Ok((t, n)) => Ok((hs + t, n))
    case Bad => Bad
    case Part => Part
  }

  lemma HeadersStep(s: seq<Byte>, i: nat, k: nat, max: nat, done: seq<Header>)
    requires i < |s| && s[i] != CR && s[i] != LF && k != max
    ensures HeaderLine(s, i, k == 0).Bad? ==> Headers(s, i, k, max) == Bad
    ensures HeaderLine(s, i, k == 0).Part? ==> Headers(s, i, k, max) == Part
    ensures forall h, j :: HeaderLine(s, i, k == 0) == Ok((h, j)) ==>
      Prepend(done, Headers(s, i, k, max)) == Prepend(done + [h], Headers(s, j, k + 1, max))
  {
    hide HeaderLine;
    match HeaderLine(s, i, k == 0)
    case Bad =>
    case Part =>
    case Ok((h, j)) =>
      match Headers(s, j, k + 1, max)
      case Bad =>
      case Part =>
      case Ok((t, n)) => assert done + ([h] + t) == (done + [h]) + t;
  }

  lemma HeadersStop(s: seq<Byte>, i: nat, k: nat, max: nat, done: seq<Header>)
    requires i <= |s|
    ensures i == |s| ==> Headers(s, i, k, max) == Part
    ensures i < |s| && (s[i] == CR || s[i] == LF) ==>
      Prepend(done, Headers(s, i, k, max)) ==
        match EndLine(s, i) case Ok(n) => Ok((done, n)) case Bad => Bad case Part => Part
    ensures i < |s| && s[i] != CR && s[i] != LF && k == max ==> Headers(s, i, k, max) == Bad
  {
    assert done + [] == done;
  }

  lemma PrependNothing(r: Res<(seq<Header>, nat)>)
    ensures Prepend([], r) == r
  {
    if r.Ok? {
      assert [] + r.value.0 == r.value.0;
    }
  }

  /** The header lines that are read before the end of the headers, the limit or a failure is met. */
  function HeadersRead(s: seq<Byte>, i: nat, k: nat, max: nat): seq<Header>
    requires i <= |s|
    decreases |s| - i
  {
    if i == |s| || s[i] == CR || s[i] == LF || k == max then []
    else match HeaderLine(s, i, k == 0)
         case Ok((h, j)) => [h] + HeadersRead(s, j, k + 1, max)
         case _ => []
  }

  /** When the headers parse, these are all of them. */
  lemma {:induction false} HeadersReadAll(s: seq<Byte>, i: nat, k: nat, max: nat)
    requires i <= |s| && Headers(s, i, k, max).Ok?
    ensures Headers(s, i, k, max).value.0 == HeadersRead(s, i, k, max)
    decreases |s| - i
  {
    hide HeaderLine;
    if s[i] != CR && s[i] != LF {
      HeadersReadAll(s, HeaderLine(s, i, k == 0).value.1, k + 1, max);
    }
  }

  lemma HeadersReadStep(s: seq<Byte>, i: nat, k: nat, max: nat, done: seq<Header>)
    requires i <= |s|
    ensures i < |s| && s[i] != CR && s[i] != LF && k != max && HeaderLine(s, i, k == 0).Ok? ==>
      var (h, j) := HeaderLine(s, i, k == 0).value;
      done + HeadersRead(s, i, k, max) == done + [h] + HeadersRead(s, j, k + 1, max)
    ensures !(i < |s| && s[i] != CR && s[i] != LF && k != max && HeaderLine(s, i, k == 0).Ok?) ==>
      done + HeadersRead(s, i, k, max) == done
  {
    hide HeaderLine;
    if i < |s| && s[i] != CR && s[i] != LF && k != max && HeaderLine(s, i, k == 0).Ok? {
      var (h, j) := HeaderLine(s, i, k == 0).value;
      assert done + ([h] + HeadersRead(s, j, k + 1, max)) == done + [h] + HeadersRead(s, j, k + 1, max);
    }
  }

  /** Fills the caller's header slots. The length of the array is the limit on headers. The slots
      below `count` hold the header lines that were read, also when the call fails; above `count`
      nothing is written, and a successful call does not write slot `count` either. */
  method ParseHeaders(s: seq<Byte>, start: nat, headers: array<Header>) returns (r: Res<nat>, count: nat)
    requires start <= |s|
    modifies headers
    ensures count <= headers.Length && headers[..count] == HeadersRead(s, start, 0, headers.Length)
    ensures forall k :: count < k < headers.Length ==> headers[k] == old(headers[k])
    ensures r.Ok? && count < headers.Length ==> headers[count] == old(headers[count])
    ensures match r
            case Ok(n) => Headers(s, start, 0, headers.Length) == Ok((headers[..count], n))
            case Bad => Headers(s, start, 0, headers.Length) == Bad
            case Part => Headers(s, start, 0, headers.Length) == Part
  {
    hide Headers;
    hide HeadersRead;
    hide HeaderLine;
    var i, max := start, headers.Length;
    count := 0;
    assert headers[..0] + HeadersRead(s, start, 0, max) == HeadersRead(s, start, 0, max);
    PrependNothing(Headers(s, start, 0, max));
    while true
      invariant start <= i <= |s| && count <= max
      invariant Prepend(headers[..count], Headers(s, i, count, max)) == Headers(s, start, 0, max)
      invariant headers[..count] + HeadersRead(s, i, count, max) == HeadersRead(s, start, 0, max)
      invariant forall k :: count <= k < max ==> headers[k] == old(headers[k])
      decreases |s| - i
    {
      HeadersStop(s, i, count, max, headers[..count]);
      HeadersReadStep(s, i, count, max, headers[..count]);
      if i == |s| {
        return Part, count;
      }
      if s[i] == CR {
        i := i + 1;
        if i == |s| {
          return Part, count;
        }
        if s[i] != LF {
          return Bad, count;
        }
        return Ok(i + 1), count;
      } else if s[i] == LF {
        return Ok(i + 1), count;
      }
      if count == max {
        return Bad, count;
      }
      HeadersStep(s, i, count, max, headers[..count]);
      var line := ParseHeaderLine(s, i, count == 0);
      if !line.Ok? {
        return if line.Bad? then Bad else Part, count;
      }
      ghost var done := headers[..count];
      headers[count] := line.value.0;
      i := line.value.1;
      count := count + 1;
      assert headers[..count] == done + [line.value.0];
    }
    assert false;
  }

  method ParseRequestLine(s: seq<Byte>, start: nat) returns (r: Res<(Request, nat)>)
    requires start <= |s|
    ensures r == RequestLine(s, start)
  {
    hide TokenEnd;
    hide Version;
    var m := AdvanceToken(s, start);
    if !m.Ok? {
      return if m.Bad? then Bad else Part;
    }
    var p := AdvanceToken(s, m.value + 1);
    if !p.Ok? {
      return if p.Bad? then Bad else Part;
    }
    var v := ParseVersion(s, p.value + 1);
    if !v.Ok? {
      return if v.Bad? then Bad else Part;
    }
    var i := v.value.1;
    if s[i] == CR {
      i := i + 1;
      if i == |s| {
        return Part;
      }
      if s[i] != LF {
        return Bad;
      }
      i := i + 1;
    } else if s[i] == LF {
      i := i + 1;
    } else {
      return Bad;
    }
    return Ok((Request(s[start..m.value], s[m.value + 1..p.value], v.value.0, []), i));
  }

  /** `phr_parse_request`: the answer of `Resume`, with the headers in the caller's slots. */
  method Parse(s: seq<Byte>, headers: array<Header>, lastLen: nat) returns (r: Res<(Request, nat)>)
    requires lastLen <= |s|
    modifies headers
    ensures r == Resume(s, lastLen, headers.Length)
    ensures r.Ok? ==> |r.value.0.headers| <= headers.Length && headers[..|r.value.0.headers|] == r.value.0.headers
  {
    hide Complete;
    hide RequestLine;
    hide Headers;
    if lastLen != 0 {
      var whole := IsComplete(s, lastLen);
      if !whole.Ok? {
        return if whole.Bad? then Bad else Part;
      }
    }
    if |s| == 0 {
      return Part;
    }
    var i := 0;
    if s[i] == CR {
      i := i + 1;
      if i == |s| {
        return Part;
      }
      if s[i] != LF {
        return Bad;
      }
      i := i + 1;
    } else if s[i] == LF {
      i := i + 1;
    }
    var line := ParseRequestLine(s, i);
    if !line.Ok? {
      return if line.Bad? then Bad else Part;
    }
    var end, count := ParseHeaders(s, line.value.1, headers);
    if !end.Ok? {
      return if end.Bad? then Bad else Part;
    }
    return Ok((line.value.0.(headers := headers[..count]), end.value));
  }
}
