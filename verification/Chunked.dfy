/** The resumable chunked-transfer decoder (section 4.1 of RFC 7230) as a machine that takes one
    byte at a time. This is the specification of the in-place decoder in ChunkedDecoder.dfy. */
module Chunked {
  import opened Bytes

  const WORD: nat := 0x1_0000_0000_0000_0000
  const MAX_HEX: nat := 16

  datatype State = InSize | InExt | InData | InCrlf | InTrailerHead | InTrailerMiddle

  datatype Decoder = Decoder(left: nat, hexCount: nat, state: State, trailer: bool)

  /** `More`: the byte is consumed, possibly as output. `Finish`: consumed, and the body is
      complete. `Refuse`: malformed input, the byte is not consumed. */
  datatype Step = More(d: Decoder, out: seq<Byte>) | Finish(d: Decoder) | Refuse(d: Decoder)

  datatype Verdict = Incomplete | Complete | Malformed

  datatype Outcome = Outcome(d: Decoder, out: seq<Byte>, consumed: nat, verdict: Verdict)

  /** The value of a hexadecimal digit, or -1. */
  function Hex(b: Byte): (v: int)
    ensures -1 <= v < 16
  {
    if '0' as int <= b <= '9' as int then b - '0' as int
    else if 'A' as int <= b <= 'F' as int then b - 'A' as int + 10
    else if 'a' as int <= b <= 'f' as int then b - 'a' as int + 10
    else -1
  }

  /** A chunk without data left is at its end, even before the next byte is seen. */
  function Norm(d: Decoder): Decoder
  {
    if d.state == InData && d.left == 0 then d.(state := InCrlf) else d
  }

  function ExtByte(d: Decoder, b: Byte): Step
  {
    if b != LF then More(d.(state := InExt), [])
    else if d.left != 0 then More(d.(state := InData), [])
    else if d.trailer then More(d.(state := InTrailerHead), [])
    else Finish(d.(state := InExt))
  }

  function CrlfByte(d: Decoder, b: Byte): Step
  {
    if b == CR then More(d, []) else if b == LF then More(d.(state := InSize), []) else Refuse(d)
  }

  function StepByte(e: Decoder, b: Byte): Step
  {
    var d := Norm(e);
    match d.state
    case InSize =>
      var v := Hex(b);
      if v == -1 then
        if d.hexCount == 0 then Refuse(d) else ExtByte(d.(hexCount := 0), b)
      else if d.hexCount == MAX_HEX then Refuse(d)
      else More(d.(left := (d.left * 16 + v) % WORD, hexCount := d.hexCount + 1), [])
    case InExt => ExtByte(d, b)
    case InData => More(Norm(d.(left := d.left - 1)), [b])
    case InCrlf => CrlfByte(d, b)
    case InTrailerHead =>
      if b == CR then More(d, []) else if b == LF then Finish(d) else More(d.(state := InTrailerMiddle), [])
    case InTrailerMiddle => More(if b == LF then d.(state := InTrailerHead) else d, [])
  }

  function Append(out: seq<Byte>, k: nat, r: Outcome): Outcome
  {
    Outcome(r.d, out + r.out, k + r.consumed, r.verdict)
  }

  /** Decode a buffer. */
  function Run(d: Decoder, s: seq<Byte>): (r: Outcome)
    ensures r.consumed <= |s| && (r.verdict == Incomplete ==> r.consumed == |s|)
    ensures |r.out| <= r.consumed
    decreases |s|
  {
    if s == [] then Outcome(Norm(d), [], 0, Incomplete)
    else
      match StepByte(d, s[0])
      case More(e, out) => Append(out, 1, Run(e, s[1..]))
      case Finish(e) => Outcome(e, [], 1, Complete)
      case Refuse(e) => Outcome(e, [], 0, Malformed)
  }

  lemma AppendTwice(o1: seq<Byte>, k1: nat, o2: seq<Byte>, k2: nat, r: Outcome)
    ensures Append(o1, k1, Append(o2, k2, r)) == Append(o1 + o2, k1 + k2, r)
  {
    assert o1 + (o2 + r.out) == (o1 + o2) + r.out;
  }

  lemma {:induction false} NormIdle(d: Decoder, s: seq<Byte>)
    ensures Run(Norm(d), s) == Run(d, s)
  {
  }

  /** A body cut into two buffers anywhere decodes as it does in one: if decoding the first part
      leaves the decoder waiting, decoding the second part from there gives together the same
      output, state, verdict and number of bytes used as decoding both at once; and otherwise the
      second part does not matter. */
  lemma {:induction false} SplitInvariant(d: Decoder, a: seq<Byte>, b: seq<Byte>)
    ensures var r := Run(d, a);
            Run(d, a + b) == if r.verdict == Incomplete then Append(r.out, |a|, Run(r.d, b)) else r
    decreases |a|
  {
    if a == [] {
      assert a + b == b && [] + Run(d, b).out == Run(d, b).out;
      NormIdle(d, b);
    } else {
      assert (a + b)[0] == a[0] && (a + b)[1..] == a[1..] + b;
      match StepByte(d, a[0]) {
        case More(e, out) =>
          SplitInvariant(e, a[1..], b);
          var q := Run(e, a[1..]);
          AppendTwice(out, 1, q.out, |a| - 1, Run(q.d, b));
        case Finish(_) =>
        case Refuse(_) =>
      }
    }
  }

  // ----- the size never overflows -----

  function Pow16(k: nat): (r: nat)
    ensures r >= 1
  {
    if k == 0 then 1 else 16 * Pow16(k - 1)
  }

  /** What holds of a decoder that started from a zeroed one. */
  predicate Reachable(d: Decoder)
  {
    && d.left < WORD && d.hexCount <= MAX_HEX
    && (d.state == InSize ==> d.left < Pow16(d.hexCount))
    && (d.state != InSize ==> d.hexCount == 0)
    && (d.state == InData ==> d.left > 0)
    && (d.state == InCrlf || d.state == InTrailerHead || d.state == InTrailerMiddle ==> d.left == 0)
  }

  lemma Pow16Values()
    ensures Pow16(16) == WORD
  {
    assert Pow16(4) == 0x1_0000;
    assert Pow16(8) == 0x1_0000 * 0x1_0000;
    assert Pow16(12) == 0x1_0000 * 0x1_0000 * 0x1_0000;
  }

  lemma {:induction false} Pow16Grows(i: nat, j: nat)
    requires i <= j
    ensures Pow16(i) <= Pow16(j)
  {
    if i < j {
      Pow16Grows(i, j - 1);
    }
  }

  /** Reading a digit never wraps the size around. */
  lemma DigitReachable(d: Decoder, b: Byte)
    requires Reachable(d) && d.state == InSize && Hex(b) >= 0 && d.hexCount < MAX_HEX
    ensures d.left * 16 + Hex(b) < WORD
    ensures StepByte(d, b).d == d.(left := d.left * 16 + Hex(b), hexCount := d.hexCount + 1) && Reachable(StepByte(d, b).d)
  {
    DigitFits(d.left, d.hexCount);
    var n := d.left * 16 + Hex(b);
    assert n % WORD == n;
  }

  /** A step keeps the decoder reachable. */
  lemma StepReachable(d: Decoder, b: Byte)
    requires Reachable(d)
    ensures Reachable(StepByte(d, b).d)
  {
    if d.state == InSize && Hex(b) >= 0 && d.hexCount < MAX_HEX {
      DigitReachable(d, b);
    } else if d.state == InCrlf {
      assert Pow16(0) == 1;
    }
  }

  lemma DigitFits(left: nat, k: nat)
    requires left < Pow16(k) && k < MAX_HEX
    ensures left * 16 + 15 < Pow16(k + 1) <= WORD
  {
    Pow16Values();
    Pow16Grows(k + 1, MAX_HEX);
  }

  lemma {:induction false} RunReachable(d: Decoder, s: seq<Byte>)
    requires Reachable(d)
    ensures Reachable(Run(d, s).d)
    decreases |s|
  {
    if s != [] {
      StepReachable(d, s[0]);
      if StepByte(d, s[0]).More? {
        RunReachable(StepByte(d, s[0]).d, s[1..]);
      }
    }
  }

  // ----- valid encodings -----

  /** One chunk: its size in hexadecimal, the rest of that line without CR LF, and its data. */
  datatype Chunk = Chunk(digits: seq<Byte>, ext: seq<Byte>, data: seq<Byte>)

  function SizeOf(digits: seq<Byte>): nat
  {
    if digits == [] then 0 else
      var v := Hex(digits[|digits| - 1]);
      SizeOf(digits[..|digits| - 1]) * 16 + if v < 0 then 0 else v
  }

  predicate Digits(s: seq<Byte>)
  {
    |s| > 0 && forall i :: 0 <= i < |s| ==> Hex(s[i]) >= 0
  }

  predicate NoLF(s: seq<Byte>)
  {
    forall i :: 0 <= i < |s| ==> s[i] != LF
  }

  /** The size line: digits, then an extension that does not go on with a digit. */
  predicate LineOk(digits: seq<Byte>, ext: seq<Byte>)
  {
    Digits(digits) && NoLF(ext) && (ext != [] ==> Hex(ext[0]) < 0)
  }

  predicate ChunkOk(c: Chunk)
  {
    LineOk(c.digits, c.ext) && |c.data| > 0 && SizeOf(c.digits) == |c.data|
  }

  function SizeLine(digits: seq<Byte>, ext: seq<Byte>): seq<Byte>
  {
    digits + ext + [CR, LF]
  }

  function EncodeChunk(c: Chunk): seq<Byte>
  {
    SizeLine(c.digits, c.ext) + c.data + [CR, LF]
  }

  function EncodeChunks(cs: seq<Chunk>): seq<Byte>
  {
    if cs == [] then [] else EncodeChunk(cs[0]) + EncodeChunks(cs[1..])
  }

  function DataOf(cs: seq<Chunk>): seq<Byte>
  {
    if cs == [] then [] else cs[0].data + DataOf(cs[1..])
  }

  predicate ChunksOk(cs: seq<Chunk>)
  {
    forall i :: 0 <= i < |cs| ==> ChunkOk(cs[i])
  }

  /** Trailer lines: not empty, no line break inside. */
  predicate TrailersOk(ts: seq<seq<Byte>>)
  {
    forall i :: 0 <= i < |ts| ==> |ts[i]| > 0 && NoLF(ts[i]) && ts[i][0] != CR
  }

  function EncodeTrailers(ts: seq<seq<Byte>>): seq<Byte>
  {
    if ts == [] then [CR, LF] else ts[0] + [CR, LF] + EncodeTrailers(ts[1..])
  }

  function Start(trailer: bool): Decoder { Decoder(0, 0, InSize, trailer) }

  /** Decoding `s` from `d` uses it up, puts out `out` and leaves the decoder at `e`. */
  predicate Moves(d: Decoder, s: seq<Byte>, out: seq<Byte>, e: Decoder)
  {
    Run(d, s) == Outcome(e, out, |s|, Incomplete)
  }

  lemma MovesOn(d: Decoder, s: seq<Byte>, out: seq<Byte>, e: Decoder, t: seq<Byte>)
    requires Moves(d, s, out, e)
    ensures Run(d, s + t) == Append(out, |s|, Run(e, t))
  {
    SplitInvariant(d, s, t);
  }

  lemma MovesThen(d: Decoder, s: seq<Byte>, out: seq<Byte>, e: Decoder, t: seq<Byte>, out': seq<Byte>, f: Decoder)
    requires Moves(d, s, out, e) && Moves(e, t, out', f)
    ensures Moves(d, s + t, out + out', f)
  {
    MovesOn(d, s, out, e, t);
  }

  lemma {:induction false} SizeBound(digits: seq<Byte>)
    ensures SizeOf(digits) < Pow16(|digits|)
    decreases |digits|
  {
    if digits != [] {
      SizeBound(digits[..|digits| - 1]);
    }
  }

  /** Up to sixteen digits are read as a number. */
  lemma {:induction false} ReadDigits(digits: seq<Byte>, trailer: bool)
    requires (forall i :: 0 <= i < |digits| ==> Hex(digits[i]) >= 0) && |digits| <= MAX_HEX
    ensures Moves(Start(trailer), digits, [], Decoder(SizeOf(digits), |digits|, InSize, trailer))
    decreases |digits|
  {
    if digits != [] {
      var k := |digits| - 1;
      var init := digits[..k];
      ReadDigits(init, trailer);
      var d := Decoder(SizeOf(init), k, InSize, trailer);
      var e := Decoder(SizeOf(digits), |digits|, InSize, trailer);
      SizeBound(init);
      DigitFits(SizeOf(init), k);
      DigitStep(d, digits[k], e);
      MovesThen(Start(trailer), init, [], d, [digits[k]], [], e);
      assert init + [digits[k]] == digits;
    }
  }

  lemma DigitStep(d: Decoder, b: Byte, e: Decoder)
    requires d.state == InSize && Hex(b) >= 0 && d.hexCount < MAX_HEX && d.left * 16 + Hex(b) < WORD
    requires e == d.(left := d.left * 16 + Hex(b), hexCount := d.hexCount + 1)
    ensures Moves(d, [b], [], e)
  {
    assert [b][1..] == [] && (d.left * 16 + Hex(b)) % WORD == d.left * 16 + Hex(b);
  }

  /** A seventeenth digit is refused. */
  lemma TooManyDigits(digits: seq<Byte>, rest: seq<Byte>, trailer: bool)
    requires Digits(digits) && |digits| > MAX_HEX
    ensures Run(Start(trailer), digits + rest).verdict == Malformed
  {
    var a := digits[..MAX_HEX];
    ReadDigits(a, trailer);
    var b := digits[MAX_HEX..] + rest;
    assert digits + rest == a + b && b[0] == digits[MAX_HEX];
    MovesOn(Start(trailer), a, [], Decoder(SizeOf(a), MAX_HEX, InSize, trailer), b);
  }

  lemma {:induction false} SkipExt(d: Decoder, s: seq<Byte>)
    requires d.state == InExt && NoLF(s)
    ensures Moves(d, s, [], d)
    decreases |s|
  {
    if s != [] {
      SkipExt(d, s[1..]);
    }
  }

  /** The rest of a size line. */
  lemma ReadExt(n: nat, k: nat, ext: seq<Byte>, trailer: bool)
    requires k > 0 && NoLF(ext) && (ext != [] ==> Hex(ext[0]) < 0)
    ensures Moves(Decoder(n, k, InSize, trailer), ext + [CR], [], Decoder(n, 0, InExt, trailer))
  {
    var s := ext + [CR];
    var d := Decoder(n, k, InSize, trailer);
    var e := Decoder(n, 0, InExt, trailer);
    assert Hex(s[0]) < 0 && s[0] != LF;
    assert NoLF(s[1..]);
    SkipExt(e, s[1..]);
    assert StepByte(d, s[0]) == More(e, []);
  }

  lemma {:induction false} ReadData(data: seq<Byte>, trailer: bool)
    requires data != []
    ensures Moves(Decoder(|data|, 0, InData, trailer), data, data, Decoder(0, 0, InCrlf, trailer))
    decreases |data|
  {
    if |data| > 1 {
      ReadData(data[1..], trailer);
    } else {
      assert data[1..] == [];
    }
    assert [data[0]] + data[1..] == data;
  }

  lemma OneByte(d: Decoder, b: Byte, e: Decoder)
    requires StepByte(d, b) == More(e, []) && Norm(e) == e
    ensures Moves(d, [b], [], e)
  {
    assert [b][1..] == [];
  }

  lemma EndChunk(trailer: bool)
    ensures Moves(Decoder(0, 0, InCrlf, trailer), [CR, LF], [], Start(trailer))
  {
    var d := Decoder(0, 0, InCrlf, trailer);
    OneByte(d, CR, d);
    OneByte(d, LF, Start(trailer));
    MovesThen(d, [CR], [], d, [LF], [], Start(trailer));
    assert [CR] + [LF] == [CR, LF];
  }

  /** A size line up to its line feed. */
  lemma ReadSizeLine(digits: seq<Byte>, ext: seq<Byte>, trailer: bool)
    requires LineOk(digits, ext) && |digits| <= MAX_HEX
    ensures Moves(Start(trailer), digits + (ext + [CR]), [], Decoder(SizeOf(digits), 0, InExt, trailer))
  {
    ReadDigits(digits, trailer);
    ReadExt(SizeOf(digits), |digits|, ext, trailer);
    MovesThen(Start(trailer), digits, [], Decoder(SizeOf(digits), |digits|, InSize, trailer),
              ext + [CR], [], Decoder(SizeOf(digits), 0, InExt, trailer));
  }

  lemma ReadChunk(c: Chunk, trailer: bool)
    requires ChunkOk(c) && |c.digits| <= MAX_HEX
    ensures Moves(Start(trailer), EncodeChunk(c), c.data, Start(trailer))
  {
    var n := |c.data|;
    var inExt := Decoder(n, 0, InExt, trailer);
    var inData := Decoder(n, 0, InData, trailer);
    var inCrlf := Decoder(0, 0, InCrlf, trailer);
    var line := c.digits + (c.ext + [CR]);
    ReadSizeLine(c.digits, c.ext, trailer);
    OneByte(inExt, LF, inData);
    MovesThen(Start(trailer), line, [], inExt, [LF], [], inData);
    ReadData(c.data, trailer);
    MovesThen(Start(trailer), line + [LF], [], inData, c.data, c.data, inCrlf);
    EndChunk(trailer);
    MovesThen(Start(trailer), line + [LF] + c.data, [] + c.data, inCrlf, [CR, LF], [], Start(trailer));
    assert line + [LF] + c.data + [CR, LF] == EncodeChunk(c);
    assert [] + c.data + [] == c.data;
  }

  lemma {:induction false} ReadChunks(cs: seq<Chunk>, trailer: bool)
    requires ChunksOk(cs) && forall i :: 0 <= i < |cs| ==> |cs[i].digits| <= MAX_HEX
    ensures Moves(Start(trailer), EncodeChunks(cs), DataOf(cs), Start(trailer))
  {
    if cs != [] {
      ReadChunk(cs[0], trailer);
      ReadChunks(cs[1..], trailer);
      MovesThen(Start(trailer), EncodeChunk(cs[0]), cs[0].data, Start(trailer),
                EncodeChunks(cs[1..]), DataOf(cs[1..]), Start(trailer));
    }
  }

  lemma {:induction false} SkipLine(d: Decoder, s: seq<Byte>)
    requires d.state == InTrailerMiddle && NoLF(s)
    ensures Moves(d, s, [], d)
    decreases |s|
  {
    if s != [] {
      SkipLine(d, s[1..]);
    }
  }

  lemma ReadTrailer(t: seq<Byte>)
    requires |t| > 0 && NoLF(t) && t[0] != CR
    ensures var head := Decoder(0, 0, InTrailerHead, true); Moves(head, t + [CR, LF], [], head)
  {
    var head := Decoder(0, 0, InTrailerHead, true);
    var middle := head.(state := InTrailerMiddle);
    OneByte(head, t[0], middle);
    assert NoLF(t[1..] + [CR]);
    SkipLine(middle, t[1..] + [CR]);
    MovesThen(head, [t[0]], [], middle, t[1..] + [CR], [], middle);
    OneByte(middle, LF, head);
    var line := [t[0]] + (t[1..] + [CR]);
    MovesThen(head, line, [], middle, [LF], [], head);
    assert line + [LF] == t + [CR, LF];
  }

  lemma {:induction false} ReadTrailers(ts: seq<seq<Byte>>, rest: seq<Byte>)
    requires TrailersOk(ts)
    ensures var head := Decoder(0, 0, InTrailerHead, true);
            Run(head, EncodeTrailers(ts) + rest) == Outcome(head, [], |EncodeTrailers(ts)|, Complete)
  {
    var head := Decoder(0, 0, InTrailerHead, true);
    if ts == [] {
      OneByte(head, CR, head);
      assert [CR, LF] + rest == [CR] + ([LF] + rest);
      MovesOn(head, [CR], [], head, [LF] + rest);
    } else {
      ReadTrailer(ts[0]);
      ReadTrailers(ts[1..], rest);
      MovesOn(head, ts[0] + [CR, LF], [], head, EncodeTrailers(ts[1..]) + rest);
      assert EncodeTrailers(ts) + rest == (ts[0] + [CR, LF]) + (EncodeTrailers(ts[1..]) + rest);
    }
  }

  /** Everything up to and including the line of the last chunk. */
  function EncodeBody(cs: seq<Chunk>, zeros: seq<Byte>, ext: seq<Byte>): seq<Byte>
  {
    EncodeChunks(cs) + SizeLine(zeros, ext)
  }

  function Message(cs: seq<Chunk>, zeros: seq<Byte>, ext: seq<Byte>, ts: seq<seq<Byte>>, trailer: bool): seq<Byte>
  {
    EncodeBody(cs, zeros, ext) + if trailer then EncodeTrailers(ts) else []
  }

  predicate MessageOk(cs: seq<Chunk>, zeros: seq<Byte>, ext: seq<Byte>, ts: seq<seq<Byte>>)
  {
    ChunksOk(cs) && LineOk(zeros, ext) && SizeOf(zeros) == 0 && TrailersOk(ts)
  }

  predicate SizesFit(cs: seq<Chunk>, zeros: seq<Byte>)
  {
    |zeros| <= MAX_HEX && forall i :: 0 <= i < |cs| ==> |cs[i].digits| <= MAX_HEX
  }

  /** Decoding a valid body followed by anything yields exactly the chunk data, stops exactly at
      the end of the body and leaves the rest. */
  lemma RoundTrip(cs: seq<Chunk>, zeros: seq<Byte>, ext: seq<Byte>, ts: seq<seq<Byte>>, trailer: bool, rest: seq<Byte>)
    requires MessageOk(cs, zeros, ext, ts) && SizesFit(cs, zeros)
    ensures var m := Message(cs, zeros, ext, ts, trailer);
            var r := Run(Start(trailer), m + rest);
            r.verdict == Complete && r.out == DataOf(cs) && r.consumed == |m|
  {
    var front := EncodeChunks(cs) + (zeros + (ext + [CR]));
    var tail := (if trailer then EncodeTrailers(ts) else []) + rest;
    MessageParts(cs, zeros, ext, ts, trailer, rest);
    ReadFront(cs, zeros, ext, trailer);
    MovesOn(Start(trailer), front, DataOf(cs), Decoder(0, 0, InExt, trailer), [LF] + tail);
    ReadEnd(ts, trailer, rest);
    assert DataOf(cs) + [] == DataOf(cs);
  }

  lemma MessageParts(cs: seq<Chunk>, zeros: seq<Byte>, ext: seq<Byte>, ts: seq<seq<Byte>>, trailer: bool, rest: seq<Byte>)
    ensures var end := if trailer then EncodeTrailers(ts) else [];
            var front := EncodeChunks(cs) + (zeros + (ext + [CR]));
            && Message(cs, zeros, ext, ts, trailer) + rest == front + ([LF] + (end + rest))
            && |Message(cs, zeros, ext, ts, trailer)| == |front| + 1 + |end|
  {
  }

  /** All chunks and the size line of the last one, up to its line feed. */
  lemma ReadFront(cs: seq<Chunk>, zeros: seq<Byte>, ext: seq<Byte>, trailer: bool)
    requires ChunksOk(cs) && LineOk(zeros, ext) && SizeOf(zeros) == 0 && SizesFit(cs, zeros)
    ensures Moves(Start(trailer), EncodeChunks(cs) + (zeros + (ext + [CR])), DataOf(cs), Decoder(0, 0, InExt, trailer))
  {
    ReadChunks(cs, trailer);
    ReadSizeLine(zeros, ext, trailer);
    MovesThen(Start(trailer), EncodeChunks(cs), DataOf(cs), Start(trailer), zeros + (ext + [CR]), [], Decoder(0, 0, InExt, trailer));
    assert DataOf(cs) + [] == DataOf(cs);
  }

  /** From the line feed of the last size line to the end of the body. */
  lemma ReadEnd(ts: seq<seq<Byte>>, trailer: bool, rest: seq<Byte>)
    requires TrailersOk(ts)
    ensures var end := if trailer then EncodeTrailers(ts) else [];
            var r := Run(Decoder(0, 0, InExt, trailer), [LF] + (end + rest));
            r.verdict == Complete && r.out == [] && r.consumed == 1 + |end|
  {
    var inExt := Decoder(0, 0, InExt, trailer);
    if trailer {
      var head := Decoder(0, 0, InTrailerHead, true);
      OneByte(inExt, LF, head);
      MovesOn(inExt, [LF], [], head, EncodeTrailers(ts) + rest);
      ReadTrailers(ts, rest);
    } else {
      assert ([LF] + ([] + rest))[0] == LF;
    }
  }

  /** A valid body is decoded exactly when no chunk size has more than sixteen digits: section 4.1
      of RFC 7230 does not bound their number, the decoder does. */
  lemma {:induction false} RoundTripExactly(cs: seq<Chunk>, zeros: seq<Byte>, ext: seq<Byte>, ts: seq<seq<Byte>>, trailer: bool, rest: seq<Byte>)
    requires MessageOk(cs, zeros, ext, ts)
    ensures var r := Run(Start(trailer), Message(cs, zeros, ext, ts, trailer) + rest);
            (if SizesFit(cs, zeros) then r.verdict == Complete else r.verdict == Malformed)
    decreases |cs|
  {
    if SizesFit(cs, zeros) {
      RoundTrip(cs, zeros, ext, ts, trailer, rest);
    } else if cs == [] {
      LastTooLong(zeros, ext, ts, trailer, rest);
    } else if |cs[0].digits| > MAX_HEX {
      FirstTooLong(cs, Message(cs[1..], zeros, ext, ts, trailer) + rest, trailer);
      ChunkOff(cs, zeros, ext, ts, trailer, rest);
    } else {
      ReadChunk(cs[0], trailer);
      ChunkOff(cs, zeros, ext, ts, trailer, rest);
      MovesOn(Start(trailer), EncodeChunk(cs[0]), cs[0].data, Start(trailer), Message(cs[1..], zeros, ext, ts, trailer) + rest);
      RoundTripExactly(cs[1..], zeros, ext, ts, trailer, rest);
      assert forall i :: 1 <= i < |cs| ==> cs[i] == cs[1..][i - 1];
    }
  }

  lemma ChunkOff(cs: seq<Chunk>, zeros: seq<Byte>, ext: seq<Byte>, ts: seq<seq<Byte>>, trailer: bool, rest: seq<Byte>)
    requires cs != []
    ensures Message(cs, zeros, ext, ts, trailer) + rest == EncodeChunk(cs[0]) + (Message(cs[1..], zeros, ext, ts, trailer) + rest)
  {
  }

  lemma FirstTooLong(cs: seq<Chunk>, m: seq<Byte>, trailer: bool)
    requires cs != [] && ChunkOk(cs[0]) && |cs[0].digits| > MAX_HEX
    ensures Run(Start(trailer), EncodeChunk(cs[0]) + m).verdict == Malformed
  {
    var tail := cs[0].ext + [CR, LF] + cs[0].data + [CR, LF] + m;
    assert EncodeChunk(cs[0]) + m == cs[0].digits + tail;
    TooManyDigits(cs[0].digits, tail, trailer);
  }

  lemma LastTooLong(zeros: seq<Byte>, ext: seq<Byte>, ts: seq<seq<Byte>>, trailer: bool, rest: seq<Byte>)
    requires Digits(zeros) && |zeros| > MAX_HEX
    ensures Run(Start(trailer), Message([], zeros, ext, ts, trailer) + rest).verdict == Malformed
  {
    var tail := ext + [CR, LF] + (if trailer then EncodeTrailers(ts) else []) + rest;
    assert Message([], zeros, ext, ts, trailer) + rest == zeros + tail;
    TooManyDigits(zeros, tail, trailer);
  }
}
