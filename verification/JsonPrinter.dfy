/** The printer: it writes through a callback, here a sink that keeps what it is given. */
module JsonPrinter {
  import opened Wrappers
  import opened Bytes
  import opened Utf8
  import opened JsonString
  import opened JsonNumber
  import opened Json

  class Sink {
    var out: seq<Byte>

    constructor ()
      ensures out == []
    {
      out := [];
    }

    method Write(x: seq<Byte>)
      modifies this
      ensures out == old(out) + x
    {
      out := out + x;
    }
  }

  const WHITESPACE := 32

  lemma {:induction false} SpacesJoin(a: nat, b: nat)
    ensures Spaces(a) + Spaces(b) == Spaces(a + b)
  {
    if a > 0 {
      SpacesJoin(a - 1, b);
      assert Spaces(a) + Spaces(b) == [SP] + (Spaces(a - 1) + Spaces(b));
    } else {
      assert Spaces(0) + Spaces(b) == Spaces(b);
    }
  }

  /** `dump_indent`: at most 32 spaces at a time. */
  method DumpIndent(sink: Sink, f: Style, depth: nat, space: bool)
    modifies sink
    ensures sink.out == old(sink.out) + Indent(f, depth, space)
  {
    hide Spaces;
    if f.indent > 0 {
      var left := depth * f.indent;
      ghost var all := left;
      sink.Write([LF]);
      ghost var base := sink.out;
      assert base + Spaces(0) == base by { NoSpaces(); }
      while left > 0
        invariant 0 <= left <= all && sink.out == base + Spaces(all - left)
      {
        var now := if left < WHITESPACE then left else WHITESPACE;
        SpacesJoin(all - left, now);
        assert base + Spaces(all - left) + Spaces(now) == base + (Spaces(all - left) + Spaces(now));
        sink.Write(Spaces(now));
        left := left - now;
      }
      assert old(sink.out) + [LF] + Spaces(all) == old(sink.out) + ([LF] + Spaces(all));
    } else if space && !f.compact {
      sink.Write([SP]);
    } else {
      assert old(sink.out) + [] == old(sink.out);
    }
  }

  lemma NoSpaces()
    ensures Spaces(0) == []
  {
  }

  // ----- strings -----

  /** What stands in the output when the text before `i` is done. */
  ghost predicate Written(s: seq<Byte>, f: Escapes, done: seq<Byte>, i: nat)
  {
    i <= |s| && Body(s, 0, f) == (done + Body(s, i, f).0, Body(s, i, f).1)
  }

  lemma WrittenStart(s: seq<Byte>, f: Escapes)
    ensures Written(s, f, [], 0)
  {
    assert [] + Body(s, 0, f).0 == Body(s, 0, f).0;
  }

  lemma WrittenStep(s: seq<Byte>, f: Escapes, done: seq<Byte>, i: nat, p: nat)
    requires Written(s, f, done, i) && RunEnd(s, i, f) == Some(p) && p < |s|
    ensures var (cp, n) := Iterate(s, p).value;
      cp <= 0x10FFFF && Written(s, f, done + s[i..p] + EscapeText(cp), n)
  {
    hide EscapeText;
    hide Iterate;
    hide RunEnd;
    var (cp, n) := Iterate(s, p).value;
    IterateRange(s, p);
    var rest := Body(s, n, f).0;
    assert done + (s[i..p] + EscapeText(cp) + rest) == done + s[i..p] + EscapeText(cp) + rest;
  }

  lemma WrittenEnd(s: seq<Byte>, f: Escapes, done: seq<Byte>, i: nat)
    requires Written(s, f, done, i)
    ensures RunEnd(s, i, f) == Some(|s|) ==> Body(s, 0, f) == (done + s[i..], true)
    ensures RunEnd(s, i, f).None? ==> Body(s, 0, f) == (done, false)
  {
    if RunEnd(s, i, f).None? {
      assert done + [] == done;
    }
  }

  /** The run of characters that need no escape: its end, and what was seen there. */
  method ScanRun(s: seq<Byte>, i: nat, f: Escapes) returns (p: Option<nat>)
    requires i <= |s|
    ensures p == RunEnd(s, i, f)
  {
    hide Iterate;
    var pos := i;
    while pos < |s|
      invariant i <= pos <= |s| && RunEnd(s, pos, f) == RunEnd(s, i, f)
    {
      var next := Iterate(s, pos);
      if next.None? {
        return None;
      }
      var cp := next.value.0;
      if cp == 0x5C || cp == 0x22 || cp < 0x20 {
        return Some(pos);
      }
      if f.slash && cp == 0x2F {
        return Some(pos);
      }
      if f.ascii && cp > 0x7F {
        return Some(pos);
      }
      pos := next.value.1;
    }
    return Some(pos);
  }

  /** `dump_string`; false if the text is not UTF-8. */
  method WriteString(sink: Sink, s: seq<Byte>, f: Escapes) returns (ok: bool)
    modifies sink
    ensures sink.out == old(sink.out) + DumpString(s, f).0 && ok == DumpString(s, f).1
  {
    hide Body;
    hide RunEnd;
    hide Iterate;
    hide EscapeText;
    hide Written;
    sink.Write([QUOTE]);
    ghost var base := sink.out;
    var str: nat := 0;
    ghost var done: seq<Byte> := [];
    WrittenStart(s, f);
    while true
      invariant str <= |s| && Written(s, f, done, str) && sink.out == base + done
      decreases |s| - str
    {
      var end := ScanRun(s, str, f);
      WrittenEnd(s, f, done, str);
      if end.None? {
        assert base + done == old(sink.out) + ([QUOTE] + done + []);
        return false;
      }
      var pos := end.value;
      if pos != str {
        sink.Write(s[str..pos]);
      }
      assert sink.out == base + (done + s[str..pos]);
      if pos == |s| {
        assert s[str..pos] == s[str..];
        done := done + s[str..pos];
        break;
      }
      WrittenStep(s, f, done, str, pos);
      var (cp, n) := Iterate(s, pos).value;
      sink.Write(EscapeText(cp));
      done := done + s[str..pos] + EscapeText(cp);
      str := n;
    }
    sink.Write([QUOTE]);
    assert base + done + [QUOTE] == old(sink.out) + ([QUOTE] + done + [QUOTE]);
    return true;
  }

  // ----- values -----

  /** All that is written for a value, also when it fails half way, and whether it succeeds. */
  function Wrote(j: Json, f: Style, depth: nat): (seq<Byte>, bool)
    decreases j
  {
    match j
    case Null => (NULL_TEXT, true)
    case Bool(b) => (if b then TRUE_TEXT else FALSE_TEXT, true)
    case Int(n) => (NumberText(n), true)
    case Str(s) => DumpString(s, f.escapes)
    case Arr(items) =>
      if items == [] then ([LBRACKET, RBRACKET], true) else
        var t := WroteItems(j, 0, f, depth);
        ([LBRACKET] + Indent(f, depth + 1, false) + t.0 + (if t.1 then [RBRACKET] else []), t.1)
    case Obj(members) =>
      if members == [] then ([LBRACE, RBRACE], true) else
        var t := WroteMembers(j, 0, f, depth);
        ([LBRACE] + Indent(f, depth + 1, false) + t.0 + (if t.1 then [RBRACE] else []), t.1)
  }

  function WroteItems(j: Json, k: nat, f: Style, depth: nat): (seq<Byte>, bool)
    requires j.Arr? && k <= |j.items|
    decreases j, |j.items| - k
  {
    if k == |j.items| then ([], true) else
      var t := Wrote(j.items[k], f, depth + 1);
      if !t.1 then t else
        var rest := WroteItems(j, k + 1, f, depth);
        (t.0 + After(f, depth, k, |j.items|) + rest.0, rest.1)
  }

  function WroteMembers(j: Json, k: nat, f: Style, depth: nat): (seq<Byte>, bool)
    requires j.Obj? && k <= |j.members|
    decreases j, |j.members| - k
  {
    if k == |j.members| then ([], true) else
      var key := DumpString(j.members[k].0, f.escapes).0 + Separator(f);
      var t := Wrote(j.members[k].1, f, depth + 1);
      if !t.1 then (key + t.0, false) else
        var rest := WroteMembers(j, k + 1, f, depth);
        (key + t.0 + After(f, depth, k, |j.members|) + rest.0, rest.1)
  }

  /** Success is success of the specification, and then exactly its text is written. */
  lemma {:induction false} WroteDump(j: Json, f: Style, depth: nat)
    ensures Wrote(j, f, depth).1 <==> Dump(j, f, depth).Some?
    ensures Dump(j, f, depth).Some? ==> Wrote(j, f, depth).0 == Dump(j, f, depth).value
    decreases j
  {
    hide Indent;
    hide DumpString;
    if j.Arr? && j.items != [] {
      WroteItemsDump(j, 0, f, depth);
    } else if j.Obj? && j.members != [] {
      WroteMembersDump(j, 0, f, depth);
    }
  }

  lemma {:induction false} WroteItemsDump(j: Json, k: nat, f: Style, depth: nat)
    requires j.Arr? && k <= |j.items|
    ensures WroteItems(j, k, f, depth).1 <==> DumpItems(j, k, f, depth).Some?
    ensures DumpItems(j, k, f, depth).Some? ==> WroteItems(j, k, f, depth).0 == DumpItems(j, k, f, depth).value
    decreases j, |j.items| - k
  {
    hide After;
    if k < |j.items| {
      WroteDump(j.items[k], f, depth + 1);
      WroteItemsDump(j, k + 1, f, depth);
    }
  }

  lemma {:induction false} WroteMembersDump(j: Json, k: nat, f: Style, depth: nat)
    requires j.Obj? && k <= |j.members|
    ensures WroteMembers(j, k, f, depth).1 <==> DumpMembers(j, k, f, depth).Some?
    ensures DumpMembers(j, k, f, depth).Some? ==> WroteMembers(j, k, f, depth).0 == DumpMembers(j, k, f, depth).value
    decreases j, |j.members| - k
  {
    hide After;
    hide DumpString;
    hide Separator;
    if k < |j.members| {
      WroteDump(j.members[k].1, f, depth + 1);
      WroteMembersDump(j, k + 1, f, depth);
    }
  }

  /** What is written for the elements from 0 on is `done` and then what is written from the k-th on. */
  ghost predicate ItemsWritten(j: Json, f: Style, depth: nat, done: seq<Byte>, k: nat)
  {
    j.Arr? && k <= |j.items| && WroteItems(j, 0, f, depth) == (done + WroteItems(j, k, f, depth).0, WroteItems(j, k, f, depth).1)
  }

  lemma ItemsStart(j: Json, f: Style, depth: nat)
    requires j.Arr?
    ensures ItemsWritten(j, f, depth, [], 0)
  {
    hide WroteItems;
    assert [] + WroteItems(j, 0, f, depth).0 == WroteItems(j, 0, f, depth).0;
  }

  lemma ItemsNext(j: Json, f: Style, depth: nat, done: seq<Byte>, k: nat)
    requires ItemsWritten(j, f, depth, done, k) && k < |j.items|
    ensures var t := Wrote(j.items[k], f, depth + 1);
      if t.1 then ItemsWritten(j, f, depth, done + t.0 + After(f, depth, k, |j.items|), k + 1)
      else WroteItems(j, 0, f, depth) == (done + t.0, false)
  {
    hide Wrote;
    hide After;
    var t, sep := Wrote(j.items[k], f, depth + 1), After(f, depth, k, |j.items|);
    var rest := WroteItems(j, k + 1, f, depth).0;
    assert done + (t.0 + sep + rest) == done + t.0 + sep + rest;
  }

  lemma ItemsEnd(j: Json, f: Style, depth: nat, done: seq<Byte>)
    requires j.Arr? && ItemsWritten(j, f, depth, done, |j.items|)
    ensures WroteItems(j, 0, f, depth) == (done, true)
  {
    assert done + [] == done;
  }

  ghost predicate MembersWritten(j: Json, f: Style, depth: nat, done: seq<Byte>, k: nat)
  {
    j.Obj? && k <= |j.members|
    && WroteMembers(j, 0, f, depth) == (done + WroteMembers(j, k, f, depth).0, WroteMembers(j, k, f, depth).1)
  }

  lemma MembersStart(j: Json, f: Style, depth: nat)
    requires j.Obj?
    ensures MembersWritten(j, f, depth, [], 0)
  {
    hide WroteMembers;
    assert [] + WroteMembers(j, 0, f, depth).0 == WroteMembers(j, 0, f, depth).0;
  }

  lemma MembersNext(j: Json, f: Style, depth: nat, done: seq<Byte>, k: nat)
    requires MembersWritten(j, f, depth, done, k) && k < |j.members|
    ensures var t := Wrote(j.members[k].1, f, depth + 1);
      var key := DumpString(j.members[k].0, f.escapes).0 + Separator(f);
      if t.1 then MembersWritten(j, f, depth, done + key + t.0 + After(f, depth, k, |j.members|), k + 1)
      else WroteMembers(j, 0, f, depth) == (done + key + t.0, false)
  {
    hide Wrote;
    hide After;
    hide DumpString;
    hide Separator;
    var t, sep := Wrote(j.members[k].1, f, depth + 1), After(f, depth, k, |j.members|);
    var key := DumpString(j.members[k].0, f.escapes).0 + Separator(f);
    var rest := WroteMembers(j, k + 1, f, depth).0;
    assert done + (key + t.0 + sep + rest) == done + key + t.0 + sep + rest;
    assert done + (key + t.0) == done + key + t.0;
  }

  lemma MembersEnd(j: Json, f: Style, depth: nat, done: seq<Byte>)
    requires j.Obj? && MembersWritten(j, f, depth, done, |j.members|)
    ensures WroteMembers(j, 0, f, depth) == (done, true)
  {
    assert done + [] == done;
  }

  method WriteAfter(sink: Sink, f: Style, depth: nat, k: nat, n: nat)
    modifies sink
    ensures sink.out == old(sink.out) + After(f, depth, k, n)
  {
    hide Indent;
    if k + 1 < n {
      sink.Write([COMMA]);
      DumpIndent(sink, f, depth + 1, true);
      assert old(sink.out) + [COMMA] + Indent(f, depth + 1, true) == old(sink.out) + ([COMMA] + Indent(f, depth + 1, true));
    } else {
      DumpIndent(sink, f, depth, false);
    }
  }

  lemma Enclose(before: seq<Byte>, open: seq<Byte>, ind: seq<Byte>, text: seq<Byte>, close: seq<Byte>)
    ensures before + open + ind + text + close == before + (open + ind + text + close)
    ensures before + open + ind + text == before + (open + ind + text + [])
  {
  }

  method WriteArray(sink: Sink, j: Json, f: Style, depth: nat) returns (ok: bool)
    requires j.Arr?
    modifies sink
    ensures sink.out == old(sink.out) + Wrote(j, f, depth).0 && ok == Wrote(j, f, depth).1
    decreases j, 1
  {
    hide Indent;
    hide After;
    hide WroteItems;
    hide ItemsWritten;
    var n := |j.items|;
    sink.Write([LBRACKET]);
    if n == 0 {
      sink.Write([RBRACKET]);
      assert old(sink.out) + [LBRACKET] + [RBRACKET] == old(sink.out) + [LBRACKET, RBRACKET];
      return true;
    }
    DumpIndent(sink, f, depth + 1, false);
    ghost var base := sink.out;
    ghost var done: seq<Byte> := [];
    ItemsStart(j, f, depth);
    var i := 0;
    while i < n
      invariant 0 <= i <= n && sink.out == base + done && ItemsWritten(j, f, depth, done, i)
    {
      ItemsNext(j, f, depth, done, i);
      ghost var text := Wrote(j.items[i], f, depth + 1).0;
      var good := DoDump(sink, j.items[i], f, depth + 1);
      assert sink.out == base + (done + text);
      if !good {
        Enclose(old(sink.out), [LBRACKET], Indent(f, depth + 1, false), done + text, []);
        return false;
      }
      WriteAfter(sink, f, depth, i, n);
      done := done + text + After(f, depth, i, n);
      assert sink.out == base + done;
      i := i + 1;
    }
    sink.Write([RBRACKET]);
    ItemsEnd(j, f, depth, done);
    Enclose(old(sink.out), [LBRACKET], Indent(f, depth + 1, false), done, [RBRACKET]);
    return true;
  }

  method WriteObject(sink: Sink, j: Json, f: Style, depth: nat) returns (ok: bool)
    requires j.Obj?
    modifies sink
    ensures sink.out == old(sink.out) + Wrote(j, f, depth).0 && ok == Wrote(j, f, depth).1
    decreases j, 1
  {
    hide Indent;
    hide After;
    hide WroteMembers;
    hide MembersWritten;
    hide DumpString;
    hide Separator;
    var n := |j.members|;
    var separator := Separator(f);
    sink.Write([LBRACE]);
    if n == 0 {
      sink.Write([RBRACE]);
      assert old(sink.out) + [LBRACE] + [RBRACE] == old(sink.out) + [LBRACE, RBRACE];
      return true;
    }
    DumpIndent(sink, f, depth + 1, false);
    ghost var base := sink.out;
    ghost var done: seq<Byte> := [];
    MembersStart(j, f, depth);
    var i := 0;
    while i < n
      invariant 0 <= i <= n && sink.out == base + done && MembersWritten(j, f, depth, done, i)
    {
      MembersNext(j, f, depth, done, i);
      var written := WriteString(sink, j.members[i].0, f.escapes);
      sink.Write(separator);
      ghost var key := DumpString(j.members[i].0, f.escapes).0 + separator;
      ghost var text := Wrote(j.members[i].1, f, depth + 1).0;
      assert sink.out == base + (done + key);
      var good := DoDump(sink, j.members[i].1, f, depth + 1);
      assert sink.out == base + (done + key + text);
      if !good {
        Enclose(old(sink.out), [LBRACE], Indent(f, depth + 1, false), done + key + text, []);
        return false;
      }
      WriteAfter(sink, f, depth, i, n);
      done := done + key + text + After(f, depth, i, n);
      assert sink.out == base + done;
      i := i + 1;
    }
    sink.Write([RBRACE]);
    MembersEnd(j, f, depth, done);
    Enclose(old(sink.out), [LBRACE], Indent(f, depth + 1, false), done, [RBRACE]);
    return true;
  }

  /** `do_dump`: what is written, and whether it succeeds. */
  method DoDump(sink: Sink, j: Json, f: Style, depth: nat) returns (ok: bool)
    modifies sink
    ensures sink.out == old(sink.out) + Wrote(j, f, depth).0 && ok == Wrote(j, f, depth).1
    decreases j, 2
  {
    hide DumpString;
    hide WroteItems;
    hide WroteMembers;
    match j {
      case Null => sink.Write(NULL_TEXT); return true;
      case Bool(b) => sink.Write(if b then TRUE_TEXT else FALSE_TEXT); return true;
      case Int(n) => sink.Write(NumberText(n)); return true;
      case Str(s) => ok := WriteString(sink, s, f.escapes);
      case Arr(_) => ok := WriteArray(sink, j, f, depth);
      case Obj(_) => ok := WriteObject(sink, j, f, depth);
    }
  }
}
