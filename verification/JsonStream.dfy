/** The byte stream under the lexer: it delivers a NUL-terminated text byte by byte, checks that it is
    UTF-8 on the way, and can take one byte back. */
module JsonStream {
  import opened Wrappers
  import opened Bytes
  import opened Utf8
  import opened Json

  // ----- what a text delivers -----

  /** The end of what can be read, and whether it is the end because the next bytes are no UTF-8. */
  function ReadableEnd(s: seq<Byte>, i: nat): (r: (nat, bool))
    requires i <= |s|
    ensures i <= r.0 <= |s|
    decreases |s| - i
  {
    if i == |s| || s[i] == 0 then (i, false)
    else match Iterate(s, i)
         case None => (i, true)
         case Some((_, n)) => ReadableEnd(s, n)
  }

  function Readable(s: seq<Byte>): Input
  {
    var (e, bad) := ReadableEnd(s, 0);
    Input(s[..e], bad)
  }

  /** The line at position `k`, counted from 1. */
  function LineAt(u: seq<Byte>, k: nat): nat
    requires k <= |u|
  {
    if k == 0 then 1 else LineAt(u, k - 1) + if u[k - 1] == LF then 1 else 0
  }

  /** The column at position `k`: characters, not bytes, since the last line feed. */
  function ColumnAt(u: seq<Byte>, k: nat): nat
    requires k <= |u|
  {
    if k == 0 then 0
    else if u[k - 1] == LF then 0
    else ColumnAt(u, k - 1) + if CheckFirst(u[k - 1]) != 0 then 1 else 0
  }

  /** All of a UTF-8 text without NUL can be read. */
  lemma {:induction false} AllReadable(s: seq<Byte>, i: nat)
    requires i <= |s| && CheckFrom(s, i) && 0 !in s
    ensures ReadableEnd(s, i) == (|s|, false)
    decreases |s| - i
  {
    hide Iterate;
    if i < |s| {
      AllReadable(s, Iterate(s, i).value.1);
    }
  }

  // ----- the stream -----

  datatype Condition = Fine | AtEof | Broken

  /** A byte, or the end of the input, or a decoding error. */
  datatype Item = Char(c: Byte) | Eof | Error

  function ItemAt(t: Input, k: nat): Item
    requires k <= |t.u|
  {
    if k < |t.u| then Char(t.u[k]) else if t.bad then Error else Eof
  }

  /** The buffer holds the bytes that were taken from the source last. */
  predicate Buffered(data: seq<Byte>, source: nat, buffer: seq<Byte>)
  {
    |buffer| <= source <= |data| && buffer == data[source - |buffer|..source]
  }

  class Stream {
    const data: seq<Byte>
    var source: nat
    var buffer: seq<Byte>
    var bufferPos: nat
    var state: Condition
    var position: nat
    var line: int
    var column: int
    var lastColumn: int
    ghost var pushable: bool

    ghost predicate Valid()
      reads this
    {
      var t := Readable(data);
      && position <= |t.u|
      && (match state
          case Fine =>
            && Buffered(data, source, buffer) && ReadableEnd(data, source) == ReadableEnd(data, 0)
            && bufferPos <= |buffer| && position + |buffer| == source + bufferPos
          case AtEof => position == |t.u| && !t.bad
          case Broken => position == |t.u| && t.bad)
      && line == LineAt(t.u, position) && column == ColumnAt(t.u, position)
      && (pushable ==>
            position > 0 && bufferPos > 0 && state == Fine
            && (t.u[position - 1] == LF ==> lastColumn == ColumnAt(t.u, position - 1)))
    }

    constructor (data: seq<Byte>)
      ensures Valid() && position == 0 && this.data == data
    {
      this.data := data;
      source, buffer, bufferPos, state := 0, [], 0, Fine;
      position, line, column, lastColumn := 0, 1, 0, 0;
      pushable := false;
    }

    /** Reads the next character, one or more bytes, into the buffer; false if there is none. */
    method Refill() returns (ok: bool)
      requires Valid() && state == Fine && bufferPos == |buffer|
      modifies this`source, this`buffer, this`bufferPos, this`state, this`pushable
      ensures Valid() && !pushable
      ensures ok ==> state == Fine && bufferPos == 0 < |buffer| && position < |Readable(data).u|
      ensures !ok ==> state != Fine
    {
      hide Iterate;
      hide LineAt;
      hide ColumnAt;
      hide ReadableEnd;
      hide Buffered;
      hide Readable;
      hide CheckFull;
      assert source <= |data| by { BufferedLast(data, source, buffer); }
      ReadableStep(data, source);
      pushable := false;
      if source == |data| || data[source] == 0 {
        state := AtEof;
        return false;
      }
      var c := data[source];
      var count := CheckFirst(c);
      if c >= 0x80 && (count == 0 || count > |data| - source) {
        NotDecoded(data, source);
        state := Broken;
        return false;
      }
      if c >= 0x80 {
        var full := CheckFullLoop(data, source, count);
        DecodedBy(data, source, count);
        if full.None? {
          state := Broken;
          return false;
        }
      } else {
        IterateAscii(data, source);
      }
      buffer := data[source..source + count];
      source, bufferPos := source + count, 0;
      BufferedNew(data, source - count, count);
      return true;
    }

    /** `stream_get` */
    method Get() returns (r: Item)
      requires Valid()
      modifies this
      ensures Valid() && r == ItemAt(Readable(data), old(position))
      ensures r.Char? ==> position == old(position) + 1 && pushable
      ensures !r.Char? ==> position == old(position)
    {
      hide LineAt;
      hide ColumnAt;
      hide Iterate;
      hide Buffered;
      if state != Fine {
        return if state == AtEof then Eof else Error;
      }
      if bufferPos == |buffer| {
        var ok := Refill();
        if !ok {
          return if state == AtEof then Eof else Error;
        }
      }
      ghost var u := Readable(data).u;
      BufferedByte();
      var c := buffer[bufferPos];
      bufferPos, position := bufferPos + 1, position + 1;
      Advance(u, position);
      if c == LF {
        line, lastColumn, column := line + 1, column, 0;
      } else if CheckFirst(c) != 0 {
        column := column + 1;
      }
      pushable := true;
      assert u[position - 1] == c;
      assert line == LineAt(u, position);
      assert column == ColumnAt(u, position);
      assert c == LF ==> lastColumn == ColumnAt(u, position - 1);
      return Char(c);
    }

    /** The next byte of the buffer is the next byte of the input. */
    lemma BufferedByte()
      requires Valid() && state == Fine && bufferPos < |buffer|
      ensures position < |Readable(data).u| && Readable(data).u[position] == buffer[bufferPos]
    {
      hide LineAt;
      hide ColumnAt;
      var e := ReadableEnd(data, 0).0;
      assert source <= e;
    }

    /** `stream_unget`: takes back the byte that was read last. */
    method Unget(r: Item)
      requires Valid() && (r.Char? ==> pushable && r.c == Readable(data).u[position - 1])
      modifies this
      ensures Valid() && position == if r.Char? then old(position) - 1 else old(position)
      ensures r.Char? ==> ItemAt(Readable(data), position) == r && state == Fine
    {
      hide LineAt;
      hide ColumnAt;
      hide Readable;
      hide Buffered;
      if !r.Char? {
        return;
      }
      ghost var u := Readable(data).u;
      Advance(u, position);
      if r.c == LF {
        line, column := line - 1, lastColumn;
      } else if CheckFirst(r.c) != 0 {
        column := column - 1;
      }
      position, bufferPos := position - 1, bufferPos - 1;
      pushable := false;
    }
  }

  lemma BufferedLast(data: seq<Byte>, source: nat, buffer: seq<Byte>)
    requires Buffered(data, source, buffer)
    ensures source <= |data|
  {
  }

  lemma BufferedNew(data: seq<Byte>, source: nat, count: nat)
    requires source + count <= |data|
    ensures Buffered(data, source + count, data[source..source + count])
  {
  }

  /** What is left to read from `i` on, by the next character. */
  lemma ReadableStep(s: seq<Byte>, i: nat)
    requires i <= |s| && ReadableEnd(s, i) == ReadableEnd(s, 0)
    ensures i == |s| || s[i] == 0 ==> i == |Readable(s).u| && !Readable(s).bad
    ensures i < |s| && s[i] != 0 && Iterate(s, i).None? ==> i == |Readable(s).u| && Readable(s).bad
    ensures i < |s| && s[i] != 0 && Iterate(s, i).Some? ==>
      ReadableEnd(s, Iterate(s, i).value.1) == ReadableEnd(s, 0) && i < |Readable(s).u|
  {
    hide Iterate;
  }

  lemma Advance(u: seq<Byte>, k: nat)
    requires 0 < k <= |u|
    ensures LineAt(u, k) == LineAt(u, k - 1) + if u[k - 1] == LF then 1 else 0
    ensures ColumnAt(u, k) == if u[k - 1] == LF then 0 else ColumnAt(u, k - 1) + if CheckFirst(u[k - 1]) != 0 then 1 else 0
  {
  }

  lemma NotDecoded(s: seq<Byte>, i: nat)
    requires i < |s| && s[i] >= 0x80 && (CheckFirst(s[i]) == 0 || CheckFirst(s[i]) > |s| - i)
    ensures Iterate(s, i).None?
  {
  }

  lemma DecodedBy(s: seq<Byte>, i: nat, count: nat)
    requires i < |s| && s[i] >= 0x80 && count == CheckFirst(s[i]) > 0 && count <= |s| - i
    ensures CheckFull(s, i, count).Some? <==> Iterate(s, i).Some?
    ensures Iterate(s, i).Some? ==> Iterate(s, i).value.1 == i + count
  {
  }
}
