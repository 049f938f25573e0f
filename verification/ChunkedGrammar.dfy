/** The decoder accepts exactly the chunked bodies, reads their sizes as hexadecimal numbers, and gives up exactly
    on what cannot become a body. */
module ChunkedGrammar {
  import opened Bytes
  import opened Chunked

  // ----- digits -----

  /** The digit values, against the tables. */
  lemma HexTable(b: Byte)
    ensures Hex(b) >= 0 ==> IsHex(b, Hex(b))
    ensures forall v :: IsHex(b, v) ==> Hex(b) == v
    ensures Hex(b) == -1 <==> NoHex(b)
  {
    forall v | IsHex(b, v) ensures Hex(b) == v {
      assert v == 0 || v == 1 || v == 2 || v == 3 || v == 4 || v == 5 || v == 6 || v == 7 || v == 8 || v == 9 || v == 10
          || v == 11 || v == 12 || v == 13 || v == 14 || v == 15;
    }
    if Hex(b) >= 0 {
      HexInTable(b, Hex(b));
    }
  }

  lemma HexInTable(b: Byte, v: int)
    requires v == Hex(b) >= 0
    ensures IsHex(b, v)
  {
    assert v == 0 || v == 1 || v == 2 || v == 3 || v == 4 || v == 5 || v == 6 || v == 7 || v == 8 || v == 9 || v == 10
        || v == 11 || v == 12 || v == 13 || v == 14 || v == 15;
  }

  /** A size line's digits are read as the number they write. */
  lemma {:induction false} SizeIsNumber(text: seq<Byte>, n: nat)
    ensures HexText(text, n) <==> (forall i :: 0 <= i < |text| ==> Hex(text[i]) >= 0) && SizeOf(text) == n
    decreases |text|
  {
    hide Hex;
    if text != [] {
      var k := |text| - 1;
      HexTable(text[k]);
      SizeIsNumber(text[..k], n / 16);
      assert forall i :: 0 <= i < k ==> text[..k][i] == text[i];
    }
  }

  /** The number `n` in lower-case digits. */
  function Print16(n: nat): (r: seq<Byte>)
    ensures r != []
  {
    (if n < 16 then [] else Print16(n / 16)) + [HEX_LOWER[n % 16]]
  }

  lemma {:induction false} PrintIsNumber(n: nat)
    ensures HexText(Print16(n), n)
    decreases n
  {
    var r := Print16(n);
    assert IsHex(r[|r| - 1], n % 16);
    if n < 16 {
      assert r[..|r| - 1] == [];
    } else {
      PrintIsNumber(n / 16);
      assert r[..|r| - 1] == Print16(n / 16);
    }
  }

  lemma {:induction false} PrintLength(n: nat, k: nat)
    requires n < Pow16(k) && k > 0
    ensures |Print16(n)| <= k
    decreases n
  {
    if n >= 16 {
      assert k > 1 && n / 16 < Pow16(k - 1);
      PrintLength(n / 16, k - 1);
    }
  }

  // ----- chunked bodies -----

  /** A trailer line: carriage returns, then text. */
  datatype Line = Line(crs: nat, text: seq<Byte>)

  /** A body: chunks, and the last one with the trailer. */
  datatype Wire =
    | Last(size: seq<Byte>, ext: seq<Byte>, lines: seq<Line>, crs: nat)
    | Piece(size: seq<Byte>, ext: seq<Byte>, data: seq<Byte>, crs: nat, rest: Wire)

  function Crs(k: nat): (r: seq<Byte>)
    ensures |r| == k && forall i :: 0 <= i < k ==> r[i] == CR
  {
    if k == 0 then [] else [CR] + Crs(k - 1)
  }

  predicate LineMade(l: Line)
  {
    l.text != [] && l.text[0] != CR && NoLF(l.text)
  }

  predicate LinesMade(ls: seq<Line>)
  {
    forall i :: 0 <= i < |ls| ==> LineMade(ls[i])
  }

  /** Between one and sixteen digits, and an extension that does not go on with one. */
  predicate SizeMade(size: seq<Byte>, ext: seq<Byte>, n: nat)
  {
    0 < |size| <= MAX_HEX && HexText(size, n) && NoLF(ext) && (ext != [] ==> NoHex(ext[0]))
  }

  predicate WireMade(w: Wire)
  {
    match w
    case Last(size, ext, lines, _) => SizeMade(size, ext, 0) && LinesMade(lines)
    case Piece(size, ext, data, _, rest) => data != [] && SizeMade(size, ext, |data|) && WireMade(rest)
  }

  function LinesBytes(ls: seq<Line>): seq<Byte>
  {
    if ls == [] then [] else Crs(ls[0].crs) + ls[0].text + [LF] + LinesBytes(ls[1..])
  }

  function EndBytes(lines: seq<Line>, crs: nat, trailer: bool): seq<Byte>
  {
    if trailer then LinesBytes(lines) + Crs(crs) + [LF] else []
  }

  function WireBytes(w: Wire, trailer: bool): seq<Byte>
  {
    match w
    case Last(size, ext, lines, crs) => size + ext + [LF] + EndBytes(lines, crs, trailer)
    case Piece(size, ext, data, crs, rest) => size + ext + [LF] + data + Crs(crs) + [LF] + WireBytes(rest, trailer)
  }

  function WireData(w: Wire): seq<Byte>
  {
    match w
    case Last(_, _, _, _) => []
    case Piece(_, _, data, _, rest) => data + WireData(rest)
  }

  // ----- reading -----

  const HEAD := Decoder(0, 0, InTrailerHead, true)

  lemma AppendEmpty(j: nat, k: nat, r: Outcome)
    ensures Append([], j, Append([], k, r)) == Append([], j + k, r)
  {
  }

  /** A size line with its line feed. */
  lemma SizeRead(size: seq<Byte>, ext: seq<Byte>, n: nat, t: seq<Byte>, trailer: bool)
    requires SizeMade(size, ext, n)
    ensures var k := |size| + |ext| + 1;
            var s := size + ext + [LF] + t;
            && (n != 0 ==> Run(Start(trailer), s) == Append([], k, Run(Decoder(n, 0, InData, trailer), t)))
            && (n == 0 && trailer ==> Run(Start(trailer), s) == Append([], k, Run(HEAD, t)))
            && (n == 0 && !trailer ==> Run(Start(trailer), s) == Outcome(Decoder(0, 0, InExt, false), [], k, Complete))
  {
    hide Run;
    SizeIsNumber(size, n);
    ReadDigits(size, trailer);
    var s := size + ext + [LF] + t;
    var d := Decoder(n, |size|, InSize, trailer);
    var tail := ext + [LF] + t;
    assert s == size + tail;
    MovesOn(Start(trailer), size, [], d, tail);
    LineRead(d, ext, t);
    AppendEmpty(|size|, |ext| + 1, Run(Decoder(n, 0, InData, trailer), t));
    AppendEmpty(|size|, |ext| + 1, Run(HEAD, t));
  }

  /** From behind the digits. */
  lemma LineRead(d: Decoder, ext: seq<Byte>, t: seq<Byte>)
    requires d.state == InSize && d.hexCount > 0 && NoLF(ext) && (ext != [] ==> NoHex(ext[0]))
    ensures var k := |ext| + 1;
            var s := ext + [LF] + t;
            && (d.left != 0 ==> Run(d, s) == Append([], k, Run(d.(state := InData, hexCount := 0), t)))
            && (d.left == 0 && d.trailer ==> Run(d, s) == Append([], k, Run(HEAD, t)))
            && (d.left == 0 && !d.trailer ==> Run(d, s) == Outcome(d.(state := InExt, hexCount := 0), [], k, Complete))
  {
    var e := d.(state := InExt, hexCount := 0);
    var s := ext + [LF] + t;
    if ext == [] {
      assert s[0] == LF && s[1..] == t;
      HexTable(LF);
    } else {
      HexTable(ext[0]);
      assert s[0] == ext[0] && s[1..] == ext[1..] + [LF] + t;
      assert StepByte(d, s[0]) == More(e, []);
      SkipExt(e, ext[1..]);
      assert ext[1..] + [LF] + t == ext[1..] + ([LF] + t);
      MovesOn(e, ext[1..], [], e, [LF] + t);
      ExtEnd(e, t);
      AppendEmpty(1, |ext| - 1, Run(e, [LF] + t));
      AppendEmpty(|ext|, 1, Run(e.(state := InData), t));
      AppendEmpty(|ext|, 1, Run(HEAD, t));
    }
  }

  lemma ExtEnd(e: Decoder, t: seq<Byte>)
    requires e.state == InExt
    ensures e.left != 0 ==> Run(e, [LF] + t) == Append([], 1, Run(e.(state := InData), t))
    ensures e.left == 0 && e.trailer ==> Run(e, [LF] + t) == Append([], 1, Run(e.(state := InTrailerHead), t))
    ensures e.left == 0 && !e.trailer ==> Run(e, [LF] + t) == Outcome(e, [], 1, Complete)
  {
    assert ([LF] + t)[0] == LF && ([LF] + t)[1..] == t;
  }

  lemma {:induction false} CrsRead(d: Decoder, k: nat)
    requires d.state == InCrlf || d.state == InTrailerHead
    ensures Moves(d, Crs(k), [], d)
  {
    if k > 0 {
      CrsRead(d, k - 1);
      assert Crs(k)[0] == CR && Crs(k)[1..] == Crs(k - 1);
    }
  }

  /** Data with the line end behind it, from where the next size line starts. */
  lemma DataRead(data: seq<Byte>, crs: nat, t: seq<Byte>, trailer: bool)
    requires data != []
    ensures Run(Decoder(|data|, 0, InData, trailer), data + Crs(crs) + [LF] + t)
         == Append(data, |data| + crs + 1, Run(Start(trailer), t))
  {
    hide Run;
    var inCrlf := Decoder(0, 0, InCrlf, trailer);
    ReadData(data, trailer);
    CrsRead(inCrlf, crs);
    MovesThen(Decoder(|data|, 0, InData, trailer), data, data, inCrlf, Crs(crs), [], inCrlf);
    OneByte(inCrlf, LF, Start(trailer));
    MovesThen(Decoder(|data|, 0, InData, trailer), data + Crs(crs), data + [], inCrlf, [LF], [], Start(trailer));
    assert data + [] + [] == data;
    MovesOn(Decoder(|data|, 0, InData, trailer), data + Crs(crs) + [LF], data, Start(trailer), t);
  }

  lemma LineSkipped(l: Line, t: seq<Byte>)
    requires LineMade(l)
    ensures Run(HEAD, Crs(l.crs) + l.text + [LF] + t) == Append([], l.crs + |l.text| + 1, Run(HEAD, t))
  {
    hide Run;
    var middle := HEAD.(state := InTrailerMiddle);
    CrsRead(HEAD, l.crs);
    OneByte(HEAD, l.text[0], middle);
    MovesThen(HEAD, Crs(l.crs), [], HEAD, [l.text[0]], [], middle);
    SkipLine(middle, l.text[1..]);
    MovesThen(HEAD, Crs(l.crs) + [l.text[0]], [], middle, l.text[1..], [], middle);
    OneByte(middle, LF, HEAD);
    MovesThen(HEAD, Crs(l.crs) + [l.text[0]] + l.text[1..], [], middle, [LF], [], HEAD);
    assert Crs(l.crs) + [l.text[0]] + l.text[1..] + [LF] == Crs(l.crs) + l.text + [LF];
    MovesOn(HEAD, Crs(l.crs) + l.text + [LF], [], HEAD, t);
  }

  lemma EndSkipped(crs: nat, t: seq<Byte>)
    ensures Run(HEAD, Crs(crs) + [LF] + t) == Outcome(HEAD, [], crs + 1, Complete)
  {
    CrsRead(HEAD, crs);
    assert Crs(crs) + [LF] + t == Crs(crs) + ([LF] + t);
    MovesOn(HEAD, Crs(crs), [], HEAD, [LF] + t);
    assert ([LF] + t)[0] == LF;
  }

  lemma {:induction false} LinesSkipped(lines: seq<Line>, crs: nat, t: seq<Byte>)
    requires LinesMade(lines)
    ensures Run(HEAD, EndBytes(lines, crs, true) + t) == Outcome(HEAD, [], |EndBytes(lines, crs, true)|, Complete)
    decreases |lines|
  {
    hide Run;
    hide Crs;
    if lines == [] {
      EndSkipped(crs, t);
      NoLines(crs, t);
    } else {
      var l, tail := lines[0], EndBytes(lines[1..], crs, true) + t;
      LineFirst(l, lines[1..], crs, t);
      assert [l] + lines[1..] == lines;
      LineSkipped(l, tail);
      LinesSkipped(lines[1..], crs, t);
    }
  }

  /** A body, followed by anything, is decoded to its data and its length. */
  lemma {:induction false} WireReads(w: Wire, trailer: bool, t: seq<Byte>)
    requires WireMade(w)
    ensures var r := Run(Start(trailer), WireBytes(w, trailer) + t);
            r.verdict == Complete && r.out == WireData(w) && r.consumed == |WireBytes(w, trailer)|
    decreases w
  {
    hide Run;
    match w
    case Last(size, ext, lines, crs) =>
      var end := EndBytes(lines, crs, trailer);
      assert WireBytes(w, trailer) + t == size + ext + [LF] + (end + t);
      SizeRead(size, ext, 0, end + t, trailer);
      if trailer {
        LinesSkipped(lines, crs, t);
      }
    case Piece(size, ext, data, crs, rest) =>
      var tail := WireBytes(rest, trailer) + t;
      assert WireBytes(w, trailer) + t == size + ext + [LF] + (data + Crs(crs) + [LF] + tail);
      SizeRead(size, ext, |data|, data + Crs(crs) + [LF] + tail, trailer);
      DataRead(data, crs, tail, trailer);
      WireReads(rest, trailer, t);
  }

  // ----- whatever is accepted is a body -----

  lemma {:induction false} HexPrefix(s: seq<Byte>) returns (k: nat)
    ensures k <= |s| && (forall i :: 0 <= i < k ==> Hex(s[i]) >= 0) && (k < |s| ==> Hex(s[k]) < 0)
  {
    if s == [] || Hex(s[0]) < 0 {
      k := 0;
    } else {
      k := HexPrefix(s[1..]);
      k := k + 1;
    }
  }

  lemma {:induction false} FirstLF(s: seq<Byte>) returns (k: nat)
    ensures k <= |s| && NoLF(s[..k]) && (k < |s| ==> s[k] == LF)
  {
    if s == [] || s[0] == LF {
      k := 0;
    } else {
      k := FirstLF(s[1..]);
      k := k + 1;
      assert s[..k] == [s[0]] + s[1..][..k - 1];
    }
  }

  lemma {:induction false} CrPrefix(s: seq<Byte>) returns (k: nat)
    ensures k <= |s| && s[..k] == Crs(k) && (k < |s| ==> s[k] != CR)
  {
    if s == [] || s[0] != CR {
      k := 0;
    } else {
      k := CrPrefix(s[1..]);
      k := k + 1;
      assert s[..k] == [s[0]] + s[1..][..k - 1];
    }
  }

  /** Digits without a line feed behind them leave the decoder waiting, and without a digit or with too many it refuses. */
  lemma SizeNeeded(s: seq<Byte>, trailer: bool) returns (size: seq<Byte>, ext: seq<Byte>, t: seq<Byte>)
    requires Run(Start(trailer), s).verdict == Complete
    ensures s == size + ext + [LF] + t && SizeMade(size, ext, SizeOf(size))
  {
    hide Run;
    hide Hex;
    hide SizeOf;
    hide NoLF;
    var k := DigitsNeeded(s, trailer);
    size := s[..k];
    var tail := s[k..];
    CutAt(s, k);
    ReadDigits(size, trailer);
    var d := Decoder(SizeOf(size), k, InSize, trailer);
    MovesOn(Start(trailer), size, [], d, tail);
    var j := FirstLF(tail);
    ext := tail[..j];
    CutAt(tail, j);
    if j == |tail| {
      assert ext == tail;
      ExtWaits(d, ext);
    }
    t := tail[j + 1..];
    CutOne(tail, j, LF);
    Regroup(size, ext, [LF], t);
    SizeIsNumber(size, SizeOf(size));
    if ext != [] {
      HexTable(ext[0]);
    }
  }

  lemma DigitsNeeded(s: seq<Byte>, trailer: bool) returns (k: nat)
    requires Run(Start(trailer), s).verdict == Complete
    ensures 0 < k <= MAX_HEX && k <= |s| && (forall i :: 0 <= i < k ==> Hex(s[..k][i]) >= 0)
    ensures k < |s| ==> Hex(s[k..][0]) < 0
  {
    hide Run;
    hide Hex;
    k := HexPrefix(s);
    CutAt(s, k);
    if k > MAX_HEX {
      TooManyDigits(s[..k], s[k..], trailer);
    } else if k == 0 {
      NoDigit(s, trailer);
    }
  }

  lemma NoDigit(s: seq<Byte>, trailer: bool)
    requires s == [] || Hex(s[0]) < 0
    ensures Run(Start(trailer), s).verdict != Complete
  {
  }

  lemma ExtWaits(d: Decoder, ext: seq<Byte>)
    requires d.state == InSize && d.hexCount > 0 && NoLF(ext) && (ext != [] ==> Hex(ext[0]) < 0)
    ensures Run(d, ext).verdict == Incomplete
  {
    if ext != [] {
      var e := d.(state := InExt, hexCount := 0);
      assert StepByte(d, ext[0]) == More(e, []);
      SkipExt(e, ext[1..]);
    }
  }

  lemma CutAt(s: seq<Byte>, k: nat)
    requires k <= |s|
    ensures s == s[..k] + s[k..]
  {
  }

  lemma CutOne(s: seq<Byte>, k: nat, b: Byte)
    requires k < |s| && s[k] == b
    ensures s == s[..k] + [b] + s[k + 1..] && s[k..][0] == b && s[k..] != []
  {
  }

  lemma SomeInput(d: Decoder, s: seq<Byte>)
    requires Run(d, s).verdict == Complete
    ensures s != []
  {
  }

  /** Data must be there in full and be followed by a line end. */
  lemma DataNeeded(n: nat, s: seq<Byte>, trailer: bool) returns (crs: nat, t: seq<Byte>)
    requires n > 0 && Run(Decoder(n, 0, InData, trailer), s).verdict == Complete
    ensures n <= |s| && s == s[..n] + Crs(crs) + [LF] + t
  {
    hide Run;
    hide Crs;
    var d := Decoder(n, 0, InData, trailer);
    if |s| < n {
      DataWaits(n, s, trailer);
    }
    var data, tail := s[..n], s[n..];
    CutAt(s, n);
    ReadData(data, trailer);
    var inCrlf := Decoder(0, 0, InCrlf, trailer);
    MovesOn(d, data, data, inCrlf, tail);
    crs := CrPrefix(tail);
    CrsRead(inCrlf, crs);
    CutAt(tail, crs);
    MovesOn(inCrlf, Crs(crs), [], inCrlf, tail[crs..]);
    LineEndNeeded(inCrlf, tail[crs..]);
    t := tail[crs + 1..];
    CutOne(tail, crs, LF);
    Regroup(data, Crs(crs), [LF], t);
  }

  lemma Regroup(a: seq<Byte>, b: seq<Byte>, c: seq<Byte>, d: seq<Byte>)
    ensures a + (b + c + d) == a + b + c + d
  {
  }

  lemma LineEndNeeded(d: Decoder, s: seq<Byte>)
    requires d.state == InCrlf && Run(d, s).verdict == Complete && (s != [] ==> s[0] != CR)
    ensures s != [] && s[0] == LF
  {
  }

  lemma {:induction false} DataWaits(n: nat, s: seq<Byte>, trailer: bool)
    requires |s| < n
    ensures Run(Decoder(n, 0, InData, trailer), s).verdict == Incomplete
    decreases |s|
  {
    if s != [] {
      DataWaits(n - 1, s[1..], trailer);
    }
  }

  lemma LineFirst(l: Line, lines: seq<Line>, crs: nat, t: seq<Byte>)
    ensures Crs(l.crs) + l.text + [LF] + (EndBytes(lines, crs, true) + t) == EndBytes([l] + lines, crs, true) + t
  {
    hide Crs;
    assert ([l] + lines)[1..] == lines;
    assert LinesBytes([l] + lines) == Crs(l.crs) + l.text + [LF] + LinesBytes(lines);
  }

  /** The trailer is lines, and a line end of its own. */
  lemma {:induction false} TrailerNeeded(s: seq<Byte>) returns (lines: seq<Line>, crs: nat, t: seq<Byte>)
    requires Run(HEAD, s).verdict == Complete
    ensures LinesMade(lines) && s == EndBytes(lines, crs, true) + t
    decreases |s|
  {
    hide Run;
    hide Crs;
    hide NoLF;
    var k := CrPrefix(s);
    CrsRead(HEAD, k);
    var tail := s[k..];
    CutAt(s, k);
    MovesOn(HEAD, Crs(k), [], HEAD, tail);
    SomeInput(HEAD, tail);
    if tail[0] == LF {
      lines, crs, t := [], k, tail[1..];
      CutOne(s, k, LF);
      NoLines(k, t);
    } else {
      var j := LineNeeded(tail);
      var l, more := Line(k, tail[..j]), tail[j + 1..];
      CutOne(tail, j, LF);
      Regroup(Crs(k), l.text, [LF], more);
      LineSkipped(l, more);
      var ls;
      ls, crs, t := TrailerNeeded(more);
      LineFirst(l, ls, crs, t);
      lines := [l] + ls;
    }
  }

  lemma NoLines(crs: nat, t: seq<Byte>)
    ensures Crs(crs) + [LF] + t == EndBytes([], crs, true) + t
  {
    assert LinesBytes([]) + Crs(crs) == Crs(crs);
  }

  lemma LineNeeded(s: seq<Byte>) returns (j: nat)
    requires s != [] && s[0] != CR && s[0] != LF && Run(HEAD, s).verdict == Complete
    ensures 0 < j < |s| && s[j] == LF && NoLF(s[..j])
  {
    j := FirstLF(s);
    if j == |s| {
      assert s[..j] == s;
      var middle := HEAD.(state := InTrailerMiddle);
      assert StepByte(HEAD, s[0]) == More(middle, []);
      SkipLine(middle, s[1..]);
    }
  }

  lemma {:induction false} WireNeeded(s: seq<Byte>, trailer: bool) returns (w: Wire, t: seq<Byte>)
    requires Run(Start(trailer), s).verdict == Complete
    ensures WireMade(w) && s == WireBytes(w, trailer) + t
    decreases |s|
  {
    hide Run;
    hide Crs;
    hide SizeOf;
    hide SizeMade;
    hide EndBytes;
    var size, ext, tail := SizeNeeded(s, trailer);
    var n := SizeOf(size);
    SizeRead(size, ext, n, tail, trailer);
    if n == 0 {
      var lines: seq<Line>, crs := [], 0;
      t := tail;
      if trailer {
        lines, crs, t := TrailerNeeded(tail);
      } else {
        NoTrailer(tail);
      }
      w := Last(size, ext, lines, crs);
      Regroup2(size + ext + [LF], EndBytes(lines, crs, trailer), t);
    } else {
      var crs, more := DataNeeded(n, tail, trailer);
      var data := tail[..n];
      DataRead(data, crs, more, trailer);
      var rest;
      rest, t := WireNeeded(more, trailer);
      w := Piece(size, ext, data, crs, rest);
      PieceBytes(size, ext, data, crs, rest, trailer, t);
    }
  }

  lemma NoTrailer(t: seq<Byte>)
    ensures EndBytes([], 0, false) + t == t
  {
  }

  lemma Regroup2(a: seq<Byte>, b: seq<Byte>, c: seq<Byte>)
    ensures a + (b + c) == a + b + c
  {
  }

  lemma PieceBytes(size: seq<Byte>, ext: seq<Byte>, data: seq<Byte>, crs: nat, rest: Wire, trailer: bool, t: seq<Byte>)
    ensures size + ext + [LF] + (data + Crs(crs) + [LF] + (WireBytes(rest, trailer) + t))
         == WireBytes(Piece(size, ext, data, crs, rest), trailer) + t
  {
    hide Crs;
    var w := WireBytes(rest, trailer);
    assert size + ext + [LF] + (data + Crs(crs) + [LF] + (w + t)) == size + ext + [LF] + data + Crs(crs) + [LF] + w + t;
  }

  /** `s` starts with a body of this data and length. */
  ghost predicate StartsWithBody(s: seq<Byte>, trailer: bool, out: seq<Byte>, n: nat)
  {
    exists w, t :: WireMade(w) && s == WireBytes(w, trailer) + t && WireData(w) == out && |WireBytes(w, trailer)| == n
  }

  /** The decoder is done exactly when the input starts with a chunked body, and then has put out its data and used
      its length. */
  lemma CompleteExactly(s: seq<Byte>, trailer: bool, out: seq<Byte>, n: nat)
    ensures (var r := Run(Start(trailer), s); r.verdict == Complete && r.out == out && r.consumed == n)
       <==> StartsWithBody(s, trailer, out, n)
  {
    hide Run;
    hide WireMade;
    hide WireBytes;
    var r := Run(Start(trailer), s);
    if r.verdict == Complete && r.out == out && r.consumed == n {
      var w, t := WireNeeded(s, trailer);
      WireReads(w, trailer, t);
      assert StartsWithBody(s, trailer, out, n);
    }
    if StartsWithBody(s, trailer, out, n) {
      var w, t :| WireMade(w) && s == WireBytes(w, trailer) + t && WireData(w) == out && |WireBytes(w, trailer)| == n;
      WireReads(w, trailer, t);
    }
  }

  // ----- waiting and refusing -----

  /** The end of a body without trailer lines. */
  function Closing(trailer: bool): seq<Byte>
  {
    [0x30, LF] + if trailer then [LF] else []
  }

  lemma ClosingReads(trailer: bool)
    ensures Run(Start(trailer), Closing(trailer)).verdict == Complete
  {
    var w := Last([0x30], [], [], 0);
    ZeroSize();
    WireReads(w, trailer, []);
    EmptyEnd(trailer);
    assert Closing(trailer) + [] == Closing(trailer);
  }

  function Filler(n: nat): (r: seq<Byte>)
    ensures |r| == n
  {
    if n == 0 then [] else [SP] + Filler(n - 1)
  }

  lemma DataFinish(n: nat, trailer: bool)
    requires n > 0
    ensures Run(Decoder(n, 0, InData, trailer), Filler(n) + [LF] + Closing(trailer)).verdict == Complete
  {
    hide Run;
    DataRead(Filler(n), 0, Closing(trailer), trailer);
    assert Filler(n) + Crs(0) + [LF] + Closing(trailer) == Filler(n) + [LF] + Closing(trailer);
    ClosingReads(trailer);
  }

  /** From behind a size line. */
  lemma LineFinish(d: Decoder) returns (t: seq<Byte>)
    requires Reachable(d) && (d.state == InExt || (d.state == InSize && d.hexCount > 0))
    ensures Run(d, t).verdict == Complete
  {
    hide Run;
    var rest := if d.left != 0 then Filler(d.left) + [LF] + Closing(d.trailer) else [LF];
    t := [LF] + rest;
    if d.left != 0 {
      DataFinish(d.left, d.trailer);
    } else {
      EndSkipped(0, []);
      assert Crs(0) + [LF] + [] == [LF];
    }
    if d.state == InSize {
      LineRead(d, [], rest);
      assert [] + [LF] + rest == t;
    } else {
      ExtEnd(d, rest);
    }
  }

  /** Every state the decoder can reach without refusing can still be brought to an end. */
  lemma CanFinish(d: Decoder) returns (t: seq<Byte>)
    requires Reachable(d)
    ensures Run(d, t).verdict == Complete
  {
    hide Run;
    if d.state == InSize && d.hexCount == 0 {
      t := Closing(d.trailer);
      ClosingReads(d.trailer);
      assert d == Start(d.trailer);
    } else if d.state == InSize || d.state == InExt {
      t := LineFinish(d);
    } else if d.state == InData {
      t := Filler(d.left) + [LF] + Closing(d.trailer);
      DataFinish(d.left, d.trailer);
    } else if d.state == InCrlf {
      t := [LF] + Closing(d.trailer);
      OneByte(d, LF, Start(d.trailer));
      MovesOn(d, [LF], [], Start(d.trailer), Closing(d.trailer));
      ClosingReads(d.trailer);
    } else {
      t := TrailerFinish(d);
    }
  }

  lemma TrailerFinish(d: Decoder) returns (t: seq<Byte>)
    requires Reachable(d) && (d.state == InTrailerHead || d.state == InTrailerMiddle)
    ensures Run(d, t).verdict == Complete
  {
    var head := d.(state := InTrailerHead);
    assert Run(head, [LF]).verdict == Complete;
    if d.state == InTrailerHead {
      t := [LF];
    } else {
      t := [LF, LF];
      assert t[1..] == [LF];
    }
  }

  /** The decoder waits exactly while what it has seen is the start of a body and not a whole one, and refuses exactly
      what no further input can make a body. */
  lemma VerdictExactly(s: seq<Byte>, trailer: bool)
    ensures Run(Start(trailer), s).verdict == Malformed
       <==> forall t :: Run(Start(trailer), s + t).verdict != Complete
  {
    hide Run;
    var r := Run(Start(trailer), s);
    assert s + [] == s;
    if r.verdict == Incomplete {
      StartReachable(trailer);
      RunReachable(Start(trailer), s);
      var t := CanFinish(r.d);
      SplitInvariant(Start(trailer), s, t);
      assert Run(Start(trailer), s + t).verdict == Complete;
    } else if r.verdict == Malformed {
      forall t ensures Run(Start(trailer), s + t).verdict != Complete {
        SplitInvariant(Start(trailer), s, t);
      }
    } else {
      assert Run(Start(trailer), s + []).verdict == Complete;
    }
  }

  lemma StartReachable(trailer: bool)
    ensures Reachable(Start(trailer))
  {
  }

  // ----- bodies with printed sizes -----

  /** The body that a sender writes for the pieces `ds`. */
  function Printed(ds: seq<seq<Byte>>, trailer: bool): seq<Byte>
  {
    if ds == [] then Closing(trailer)
    else Print16(|ds[0]|) + [CR, LF] + ds[0] + [CR, LF] + Printed(ds[1..], trailer)
  }

  function Joined(ds: seq<seq<Byte>>): seq<Byte>
  {
    if ds == [] then [] else ds[0] + Joined(ds[1..])
  }

  function PrintedWire(ds: seq<seq<Byte>>): Wire
  {
    if ds == [] then Last([0x30], [], [], 0)
    else Piece(Print16(|ds[0]|), [CR], ds[0], 1, PrintedWire(ds[1..]))
  }

  lemma PrintedSize(n: nat)
    requires 0 < n < WORD
    ensures SizeMade(Print16(n), [CR], n)
  {
    PrintIsNumber(n);
    Pow16Values();
    PrintLength(n, 16);
    HexTable(CR);
  }

  lemma ZeroSize()
    ensures SizeMade([0x30], [], 0)
  {
    PrintIsNumber(0);
    assert Print16(0) == [0x30];
  }

  lemma {:induction false} PrintedIsWire(ds: seq<seq<Byte>>, trailer: bool)
    requires forall i :: 0 <= i < |ds| ==> 0 < |ds[i]| < WORD
    ensures WireMade(PrintedWire(ds)) && WireBytes(PrintedWire(ds), trailer) == Printed(ds, trailer)
    ensures WireData(PrintedWire(ds)) == Joined(ds)
  {
    hide SizeMade;
    hide Print16;
    if ds == [] {
      ZeroSize();
      EmptyEnd(trailer);
    } else {
      PrintedIsWire(ds[1..], trailer);
      PrintedSize(|ds[0]|);
      OneCr(Print16(|ds[0]|), ds[0], Printed(ds[1..], trailer));
    }
  }

  lemma EmptyEnd(trailer: bool)
    ensures WireBytes(Last([0x30], [], [], 0), trailer) == Closing(trailer)
  {
  }

  lemma OneCr(size: seq<Byte>, data: seq<Byte>, rest: seq<Byte>)
    ensures size + [CR] + [LF] + data + Crs(1) + [LF] + rest == size + [CR, LF] + data + [CR, LF] + rest
  {
    assert Crs(1) == [CR];
  }

  /** Round trip with sizes as a sender prints them: any pieces, followed by any bytes, come back joined. */
  lemma PrintedRoundTrip(ds: seq<seq<Byte>>, trailer: bool, rest: seq<Byte>)
    requires forall i :: 0 <= i < |ds| ==> 0 < |ds[i]| < WORD
    ensures var r := Run(Start(trailer), Printed(ds, trailer) + rest);
            r.verdict == Complete && r.out == Joined(ds) && r.consumed == |Printed(ds, trailer)|
  {
    PrintedIsWire(ds, trailer);
    WireReads(PrintedWire(ds), trailer, rest);
  }
}
