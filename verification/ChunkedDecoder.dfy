/** `phr_decode_chunked`: the decoder working in place on its buffer. It does what the
    byte-at-a-time machine does. */
module ChunkedDecoder {
  import opened Bytes
  import opened Chunked

  /** A buffer after `memmove` has copied `n` bytes from `src` to `dst`. */
  function Copied(b: seq<Byte>, dst: nat, src: nat, n: nat): (r: seq<Byte>)
    requires dst <= src && src + n <= |b|
    ensures |r| == |b| && forall k :: 0 <= k < |b| ==> r[k] == if dst <= k < dst + n then b[k - dst + src] else b[k]
  {
    b[..dst] + b[src..src + n] + b[dst + n..]
  }

  /** `memmove` of `n` bytes down to a lower or equal position. */
  method MoveDown(buf: array<Byte>, dst: nat, src: nat, n: nat)
    requires dst <= src && src + n <= buf.Length
    modifies buf
    ensures buf[..] == Copied(old(buf[..]), dst, src, n)
  {
    ghost var b := buf[..];
    var i := 0;
    while i < n
      invariant 0 <= i <= n
      invariant forall k :: dst <= k < dst + i ==> buf[k] == b[k - dst + src]
      invariant forall k :: 0 <= k < buf.Length && !(dst <= k < dst + i) ==> buf[k] == b[k]
    {
      buf[dst + i] := buf[src + i];
      i := i + 1;
    }
    assert buf[..] == Copied(b, dst, src, n);
  }

  /** After `src` bytes of `input` the machine that started at `d0` stands at `d` and has put out
      `out`. */
  ghost predicate Reached(d0: Decoder, input: seq<Byte>, d: Decoder, out: seq<Byte>, src: nat)
  {
    src <= |input| && |out| <= src && Run(d0, input) == Append(out, src, Run(d, input[src..]))
  }

  lemma ReachStart(d0: Decoder, input: seq<Byte>)
    ensures Reached(d0, input, d0, [], 0)
  {
    assert input[0..] == input && [] + Run(d0, input).out == Run(d0, input).out;
  }

  lemma ReachMore(d0: Decoder, input: seq<Byte>, d: Decoder, out: seq<Byte>, src: nat, e: Decoder)
    requires Reached(d0, input, d, out, src) && src < |input| && StepByte(d, input[src]) == More(e, [])
    ensures Reached(d0, input, e, out, src + 1)
  {
    assert input[src..][1..] == input[src + 1..];
    AppendTwice(out, src, [], 1, Run(e, input[src + 1..]));
    assert out + [] == out;
  }

  /** A run of data bytes at once. */
  lemma {:induction false} ReadSome(d: Decoder, data: seq<Byte>)
    requires d.state == InData && |data| <= d.left
    ensures Moves(d, data, data, Norm(d.(left := d.left - |data|)))
    decreases |data|
  {
    if data != [] {
      var e := d.(left := d.left - 1);
      ReadSome(e, data[1..]);
      NormIdle(e, data[1..]);
      assert [data[0]] + data[1..] == data;
    }
  }

  lemma ReachData(d0: Decoder, input: seq<Byte>, d: Decoder, out: seq<Byte>, src: nat, k: nat)
    requires Reached(d0, input, d, out, src) && d.state == InData && k <= d.left && src + k <= |input|
    ensures Reached(d0, input, Norm(d.(left := d.left - k)), out + input[src..src + k], src + k)
  {
    var e := Norm(d.(left := d.left - k));
    var data := input[src..src + k];
    ReadSome(d, data);
    assert input[src..] == data + input[src + k..];
    MovesOn(d, data, data, e, input[src + k..]);
    AppendTwice(out, src, data, k, Run(e, input[src + k..]));
  }

  /** All data that is there has been taken: the buffer is used up, or the chunk is. */
  lemma DataStop(d0: Decoder, input: seq<Byte>, d: Decoder, out: seq<Byte>, src: nat, k: nat)
    requires Reached(d0, input, d, out, src) && d.state == InData && k == (if |input| - src < d.left then |input| - src else d.left)
    ensures var data := input[src..src + k];
            if |input| - src < d.left then Settled(d0, input, d.(left := d.left - k), out + data, src + k, Incomplete)
            else Reached(d0, input, d.(left := 0, state := InCrlf), out + data, src + k)
  {
    ReachData(d0, input, d, out, src, k);
    if |input| - src < d.left {
      SettleEnd(d0, input, d.(left := d.left - k), out + input[src..src + k]);
    }
  }

  /** The line feed of a size line decides what comes next. */
  lemma ExtStop(d0: Decoder, input: seq<Byte>, d: Decoder, out: seq<Byte>, src: nat)
    requires Reached(d0, input, d, out, src) && d.state == InExt && src < |input| && input[src] == LF
    ensures if d.left == 0 && !d.trailer then Settled(d0, input, d, out, src + 1, Complete)
            else Reached(d0, input, d.(state := if d.left == 0 then InTrailerHead else InData), out, src + 1)
  {
    if d.left == 0 && !d.trailer {
      SettleStep(d0, input, d, out, src);
    } else {
      ReachMore(d0, input, d, out, src, d.(state := if d.left == 0 then InTrailerHead else InData));
    }
  }

  /** The result is settled: the machine stops at `src` with this verdict. */
  ghost predicate Settled(d0: Decoder, input: seq<Byte>, d: Decoder, out: seq<Byte>, src: nat, verdict: Verdict)
  {
    Run(d0, input) == Outcome(d, out, src, verdict)
  }

  lemma SettleEnd(d0: Decoder, input: seq<Byte>, d: Decoder, out: seq<Byte>)
    requires Reached(d0, input, d, out, |input|) && Norm(d) == d
    ensures Settled(d0, input, d, out, |input|, Incomplete)
  {
    assert input[|input|..] == [] && out + [] == out;
  }

  lemma SettleStep(d0: Decoder, input: seq<Byte>, d: Decoder, out: seq<Byte>, src: nat)
    requires Reached(d0, input, d, out, src) && src < |input| && !StepByte(d, input[src]).More?
    ensures var s := StepByte(d, input[src]);
            if s.Finish? then Settled(d0, input, s.d, out, src + 1, Complete) else Settled(d0, input, s.d, out, src, Malformed)
  {
    assert input[src..][0] == input[src] && out + [] == out;
  }

  /** What ends a scan: the buffer is used up, the input is wrong, the body is complete, or the next
      state takes over. */
  datatype Stop = Out | Bad | Done | Next

  ghost predicate StopOk(d0: Decoder, input: seq<Byte>, d: Decoder, out: seq<Byte>, src: nat, stop: Stop)
  {
    match stop
    case Out => src == |input| && Settled(d0, input, d, out, src, Incomplete)
    case Bad => Settled(d0, input, d, out, src, Malformed)
    case Done => Settled(d0, input, d, out, src, Complete)
    case Next => Reached(d0, input, d, out, src)
  }

  class Machine {
    var left: nat
    var hexCount: nat
    var state: State
    var trailer: bool

    ghost function Value(): Decoder
      reads this
    {
      Decoder(left, hexCount, state, trailer)
    }

    constructor (consumeTrailer: bool)
      ensures Value() == Start(consumeTrailer)
    {
      left, hexCount, state, trailer := 0, 0, InSize, consumeTrailer;
    }

    /** Digits of a chunk size. */
    method ScanSize(buf: array<Byte>, from: nat, bufsz: nat, ghost d0: Decoder, ghost input: seq<Byte>, ghost out: seq<Byte>)
      returns (src: nat, stop: Stop)
      requires state == InSize && from <= bufsz == |input| <= buf.Length && forall k :: from <= k < bufsz ==> buf[k] == input[k]
      requires Reached(d0, input, Value(), out, from)
      modifies this
      ensures from <= src <= bufsz && StopOk(d0, input, Value(), out, src, stop)
      ensures stop == Next ==> state == InExt
    {
      hide Run;
      hide Copied;
      src := from;
      while true
        invariant from <= src <= bufsz && state == InSize && Reached(d0, input, Value(), out, src)
        decreases bufsz - src
      {
        if src == bufsz {
          SettleEnd(d0, input, Value(), out);
          return src, Out;
        }
        var v := Hex(buf[src]);
        if v == -1 {
          if hexCount == 0 {
            SettleStep(d0, input, Value(), out, src);
            return src, Bad;
          }
          break;
        }
        if hexCount == MAX_HEX {
          SettleStep(d0, input, Value(), out, src);
          return src, Bad;
        }
        ghost var d := Value();
        left := (left * 16 + v) % WORD;
        hexCount := hexCount + 1;
        ReachMore(d0, input, d, out, src, Value());
        src := src + 1;
      }
      ghost var d := Value();
      hexCount := 0;
      state := InExt;
      ReachExt(d0, input, d, out, src);
      stop := Next;
    }

    /** The rest of a size line, through its line feed. */
    method ScanExt(buf: array<Byte>, from: nat, bufsz: nat, ghost d0: Decoder, ghost input: seq<Byte>, ghost out: seq<Byte>)
      returns (src: nat, stop: Stop)
      requires state == InExt && from <= bufsz == |input| <= buf.Length && forall k :: from <= k < bufsz ==> buf[k] == input[k]
      requires Reached(d0, input, Value(), out, from)
      modifies this
      ensures from <= src <= bufsz && StopOk(d0, input, Value(), out, src, stop)
      ensures stop == Next ==> src > from
    {
      hide Run;
      hide Copied;
      src := from;
      while src < bufsz && buf[src] != LF
        invariant from <= src <= bufsz && state == InExt && Reached(d0, input, Value(), out, src)
      {
        ReachMore(d0, input, Value(), out, src, Value());
        src := src + 1;
      }
      if src == bufsz {
        SettleEnd(d0, input, Value(), out);
        return src, Out;
      }
      ExtStop(d0, input, Value(), out, src);
      if left == 0 {
        if !trailer {
          return src + 1, Done;
        }
        state := InTrailerHead;
      } else {
        state := InData;
      }
      return src + 1, Next;
    }

    /** The line end behind chunk data. */
    method ScanCrlf(buf: array<Byte>, from: nat, bufsz: nat, ghost d0: Decoder, ghost input: seq<Byte>, ghost out: seq<Byte>)
      returns (src: nat, stop: Stop)
      requires state == InCrlf && from <= bufsz == |input| <= buf.Length && forall k :: from <= k < bufsz ==> buf[k] == input[k]
      requires Reached(d0, input, Value(), out, from)
      modifies this
      ensures from <= src <= bufsz && StopOk(d0, input, Value(), out, src, stop)
      ensures stop == Next ==> src > from
    {
      hide Run;
      hide Copied;
      src := from;
      while src < bufsz && buf[src] == CR
        invariant from <= src <= bufsz && state == InCrlf && Reached(d0, input, Value(), out, src)
      {
        ReachMore(d0, input, Value(), out, src, Value());
        src := src + 1;
      }
      if src == bufsz {
        SettleEnd(d0, input, Value(), out);
        return src, Out;
      }
      if buf[src] != LF {
        SettleStep(d0, input, Value(), out, src);
        return src, Bad;
      }
      ghost var d := Value();
      state := InSize;
      ReachMore(d0, input, d, out, src, Value());
      return src + 1, Next;
    }

    /** The first byte of a trailer line, or the empty line that ends the body. */
    method ScanHead(buf: array<Byte>, from: nat, bufsz: nat, ghost d0: Decoder, ghost input: seq<Byte>, ghost out: seq<Byte>)
      returns (src: nat, stop: Stop)
      requires state == InTrailerHead && from <= bufsz == |input| <= buf.Length && forall k :: from <= k < bufsz ==> buf[k] == input[k]
      requires Reached(d0, input, Value(), out, from)
      modifies this
      ensures from <= src <= bufsz && StopOk(d0, input, Value(), out, src, stop)
      ensures stop == Next ==> src > from
    {
      hide Run;
      hide Copied;
      src := from;
      while src < bufsz && buf[src] == CR
        invariant from <= src <= bufsz && state == InTrailerHead && Reached(d0, input, Value(), out, src)
      {
        ReachMore(d0, input, Value(), out, src, Value());
        src := src + 1;
      }
      if src == bufsz {
        SettleEnd(d0, input, Value(), out);
        return src, Out;
      }
      if buf[src] == LF {
        SettleStep(d0, input, Value(), out, src);
        return src + 1, Done;
      }
      ghost var d := Value();
      state := InTrailerMiddle;
      ReachMore(d0, input, d, out, src, Value());
      return src + 1, Next;
    }

    /** The rest of a trailer line. */
    method ScanMiddle(buf: array<Byte>, from: nat, bufsz: nat, ghost d0: Decoder, ghost input: seq<Byte>, ghost out: seq<Byte>)
      returns (src: nat, stop: Stop)
      requires state == InTrailerMiddle && from <= bufsz == |input| <= buf.Length && forall k :: from <= k < bufsz ==> buf[k] == input[k]
      requires Reached(d0, input, Value(), out, from)
      modifies this
      ensures from <= src <= bufsz && StopOk(d0, input, Value(), out, src, stop)
      ensures stop == Next ==> src > from
    {
      hide Run;
      hide Copied;
      src := from;
      while src < bufsz && buf[src] != LF
        invariant from <= src <= bufsz && state == InTrailerMiddle && Reached(d0, input, Value(), out, src)
      {
        ReachMore(d0, input, Value(), out, src, Value());
        src := src + 1;
      }
      if src == bufsz {
        SettleEnd(d0, input, Value(), out);
        return src, Out;
      }
      ghost var d := Value();
      state := InTrailerHead;
      ReachMore(d0, input, d, out, src, Value());
      return src + 1, Next;
    }

    /** Every state but the data state only moves the read position. */
    method Scan(buf: array<Byte>, from: nat, bufsz: nat, ghost d0: Decoder, ghost input: seq<Byte>, ghost out: seq<Byte>)
      returns (src: nat, stop: Stop)
      requires state != InData && from <= bufsz == |input| <= buf.Length && forall k :: from <= k < bufsz ==> buf[k] == input[k]
      requires Reached(d0, input, Value(), out, from)
      modifies this
      ensures from <= src <= bufsz && StopOk(d0, input, Value(), out, src, stop)
      ensures stop == Next ==> src > from || (old(state) == InSize && state == InExt)
    {
      hide Run;
      hide Copied;
      match state {
        case InSize => src, stop := ScanSize(buf, from, bufsz, d0, input, out);
        case InExt => src, stop := ScanExt(buf, from, bufsz, d0, input, out);
        case InCrlf => src, stop := ScanCrlf(buf, from, bufsz, d0, input, out);
        case InTrailerHead => src, stop := ScanHead(buf, from, bufsz, d0, input, out);
        case InTrailerMiddle => src, stop := ScanMiddle(buf, from, bufsz, d0, input, out);
      }
    }

    /** Count off the data of the chunk that is in the buffer. */
    method TakeData(from: nat, bufsz: nat, ghost d0: Decoder, ghost input: seq<Byte>, ghost out: seq<Byte>)
      returns (src: nat, stop: Stop)
      requires state == InData && from <= bufsz == |input| && Reached(d0, input, Value(), out, from)
      modifies this
      ensures from <= src <= bufsz && StopOk(d0, input, Value(), out + input[from..src], src, stop)
      ensures stop == Out || (stop == Next && state == InCrlf)
    {
      hide Run;
      hide Copied;
      var avail := bufsz - from;
      DataStop(d0, input, Value(), out, from, if avail < left then avail else left);
      if avail < left {
        src := from + avail;
        left := left - avail;
        stop := Out;
      } else {
        src := from + left;
        left := 0;
        state := InCrlf;
        stop := Next;
      }
    }

    /** Decode `bufsz` bytes in place: the first `size` bytes of the buffer become the decoded data,
        the undecoded rest follows them, and the result is -2, -1 or the number of bytes left. */
    method Decode(buf: array<Byte>, bufsz: nat) returns (ret: int, size: nat)
      requires bufsz <= buf.Length
      modifies this, buf
      ensures var input := old(buf[..bufsz]);
              var r := Run(old(Value()), input);
              && Value() == r.d
              && size == |r.out| && size + (bufsz - r.consumed) <= bufsz
              && buf[..size] == r.out
              && buf[size..size + (bufsz - r.consumed)] == input[r.consumed..]
              && buf[bufsz..] == old(buf[bufsz..])
              && ret == (match r.verdict case Incomplete => -2 case Malformed => -1 case Complete => bufsz - r.consumed)
    {
      hide Run;
      hide Copied;
      ghost var b0 := buf[..];
      assert b0[..bufsz] == buf[..bufsz] && b0[bufsz..] == buf[bufsz..];
      var src, dst, stop;
      ghost var out;
      src, dst, stop, out := DecodeLoop(buf, bufsz);
      ret := match stop case Out => -2 case Bad => -1 case _ => bufsz - src;
      LayoutEnd(buf[..], b0, out, dst, src, bufsz);
      MoveDown(buf, dst, src, bufsz - src);
      size := dst;
      assert buf[..][..size] == buf[..size] && buf[..][bufsz..] == buf[bufsz..];
      assert buf[..][size..size + (bufsz - src)] == buf[size..size + (bufsz - src)];
    }

    /** The state loop: reads ahead at `src`, writes behind at `dst`. */
    method DecodeLoop(buf: array<Byte>, bufsz: nat) returns (src: nat, dst: nat, stop: Stop, ghost out: seq<Byte>)
      requires bufsz <= buf.Length
      modifies this, buf
      ensures stop != Next && StopOk(old(Value()), old(buf[..])[..bufsz], Value(), out, src, stop)
      ensures Layout(buf[..], old(buf[..]), out, dst, src, bufsz)
    {
      hide Run;
      hide Copied;
      ghost var b0 := buf[..];
      ghost var input := b0[..bufsz];
      ghost var d0 := Value();
      out := [];
      src, dst, stop := 0, 0, Next;
      ReachStart(d0, input);
      while stop == Next
        invariant StopOk(d0, input, Value(), out, src, stop)
        invariant Layout(buf[..], b0, out, dst, src, bufsz)
        decreases if stop == Next then 1 else 0, bufsz - src, if state == InSize || state == InData then 1 else 0
      {
        var from := src;
        if state == InData {
          src, stop := TakeData(from, bufsz, d0, input, out);
          PrefixSlice(b0, bufsz, from, src);
          LayoutCopied(buf[..], b0, out, dst, from, src, bufsz);
          MoveDown(buf, dst, from, src - from);
          out := out + b0[from..src];
          dst := dst + (src - from);
        } else {
          src, stop := Scan(buf, from, bufsz, d0, input, out);
        }
      }
    }
  }

  /** The buffer while it is decoded: what has been put out, a gap, what has not been read, and what
      lies behind the input and stays as it was in `b0`. */
  ghost predicate Layout(b: seq<Byte>, b0: seq<Byte>, out: seq<Byte>, dst: nat, src: nat, bufsz: nat)
  {
    && dst == |out| <= src <= bufsz <= |b| == |b0|
    && (forall k :: 0 <= k < dst ==> b[k] == out[k])
    && (forall k :: src <= k < |b| ==> b[k] == b0[k])
  }

  lemma LayoutCopied(b: seq<Byte>, b0: seq<Byte>, out: seq<Byte>, dst: nat, from: nat, src: nat, bufsz: nat)
    requires Layout(b, b0, out, dst, from, bufsz) && from <= src <= bufsz
    ensures Layout(Copied(b, dst, from, src - from), b0, out + b0[from..src], dst + (src - from), src, bufsz)
  {
    var c := Copied(b, dst, from, src - from);
    var o := out + b0[from..src];
    forall k | 0 <= k < |o| ensures c[k] == o[k] {
      if k >= dst {
        assert o[k] == b0[k - dst + from];
      }
    }
  }

  lemma PrefixSlice(b: seq<Byte>, n: nat, from: nat, src: nat)
    requires from <= src <= n <= |b|
    ensures b[..n][from..src] == b[from..src]
  {
    forall k | 0 <= k < src - from ensures b[..n][from..src][k] == b[from..src][k] {
    }
  }

  lemma LayoutEnd(b: seq<Byte>, b0: seq<Byte>, out: seq<Byte>, dst: nat, src: nat, bufsz: nat)
    requires Layout(b, b0, out, dst, src, bufsz)
    ensures var c := Copied(b, dst, src, bufsz - src);
            c[..dst] == out && c[dst..dst + (bufsz - src)] == b0[..bufsz][src..] && c[bufsz..] == b0[bufsz..]
  {
  }

  /** Behind the digits the same byte is looked at again as part of the extension. */
  lemma ReachExt(d0: Decoder, input: seq<Byte>, d: Decoder, out: seq<Byte>, src: nat)
    requires Reached(d0, input, d, out, src) && src < |input| && d.state == InSize && d.hexCount > 0 && Hex(input[src]) == -1
    ensures Reached(d0, input, d.(hexCount := 0, state := InExt), out, src)
  {
    assert input[src..][0] == input[src];
    var e := d.(hexCount := 0, state := InExt);
    assert StepByte(d, input[src]) == StepByte(e, input[src]);
  }
}
