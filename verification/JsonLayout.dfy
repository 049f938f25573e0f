/** How a printed document is laid out, said of the grammar: which white space stands where. */
module JsonLayout {
  import opened Wrappers
  import opened Bytes
  import opened Utf8
  import opened JsonString
  import opened JsonNumber
  import opened Json
  import opened JsonSyntax
  import R = JsonRoundTrip
  import G = JsonGrammar
  import OM = OrderedMap

  /** With an indentation, a line feed and `indent` spaces for each level; without one, a space where `space` says so
      unless the style is compact. */
  predicate Gap(x: seq<Byte>, f: Style, level: nat, space: bool)
  {
    if f.indent > 0 then |x| == 1 + f.indent * level && x[0] == 0x0A && forall k :: 1 <= k < |x| ==> x[k] == 0x20
    else if space && !f.compact then x == [0x20]
    else x == []
  }

  /** The text between the quotes is what is written for the characters of `s`. */
  ghost predicate PrintedString(es: seq<G.Element>, s: seq<Byte>, f: Style)
  {
    StringMade(es, s) && exists cps :: Scalars(cps) && s == EncodeAll(cps) && G.Text(es) == G.CharTexts(cps, f.escapes)
  }

  /** A value on level `level` is laid out in style `f`. */
  ghost predicate Laid(v: Syntax, f: Style, level: nat)
  {
    match v
    case Number(minus, digits, n) => NumberMade(minus, digits, n) && (minus ==> n > 0)
    case Quoted(es, s) => PrintedString(es, s, f)
    case NoItems(gap) => gap == []
    case Array(items) => LaidItems(items, true, f, level)
    case NoMembers(gap) => gap == []
    case Object(members) => LaidMembers(members, true, f, level)
    case _ => true
  }

  ghost predicate LaidItems(x: Items, first: bool, f: Style, level: nat)
  {
    && Gap(x.a, f, level + 1, !first) && Laid(x.v, f, level + 1)
    && if x.LastItem? then Gap(x.b, f, level, false) else x.b == [] && LaidItems(x.rest, false, f, level)
  }

  /** Nothing before the colon, and a space behind it unless the style is compact. */
  ghost predicate LaidKey(k: Key, first: bool, f: Style, level: nat)
  {
    Gap(k.a, f, level + 1, !first) && PrintedString(k.es, k.s, f) && k.b == [] && k.c == if f.compact then [] else [0x20]
  }

  ghost predicate LaidMembers(x: Members, first: bool, f: Style, level: nat)
  {
    && LaidKey(x.key, first, f, level) && Laid(x.v, f, level + 1)
    && if x.LastMember? then Gap(x.b, f, level, false) else x.b == [] && LaidMembers(x.rest, false, f, level)
  }

  lemma IndentGap(f: Style, level: nat, space: bool)
    ensures Gap(Indent(f, level, space), f, level, space)
  {
    assert level * f.indent == f.indent * level;
  }

  lemma StringLaid(s: seq<Byte>, f: Style) returns (es: seq<G.Element>)
    requires CheckFrom(s, 0)
    ensures PrintedString(es, s, f) && DumpString(s, f.escapes) == (QuotedText(es), true)
  {
    hide CheckFrom;
    hide LexString;
    hide G.Made;
    hide G.Denoted;
    hide G.Text;
    hide G.CharTexts;
    hide DumpString;
    hide EncodeAll;
    hide At;
    var u := DumpString(s, f.escapes).0;
    WholeAt(u);
    StringRoundTrip(s, f.escapes, u, 0);
    G.LexExactly(u, 1, s, |u|);
    es :| G.Made(es) && At(u, 1, G.Text(es) + [QUOTE]) && |u| == 1 + |G.Text(es)| + 1 && G.Denoted(es) == s;
    CheckExactly(s);
    var cps :| Scalars(cps) && s == EncodeAll(cps);
    G.DumpExactly(cps, f.escapes);
    var x := G.CharTexts(cps, f.escapes);
    SameInside(u, G.Text(es), x);
    assert [QUOTE] + x + [QUOTE] == [QUOTE] + (x + [QUOTE]);
  }

  lemma WholeAt(u: seq<Byte>)
    ensures At(u, 0, u)
  {
  }

  lemma SameInside(u: seq<Byte>, x: seq<Byte>, y: seq<Byte>)
    requires At(u, 1, x + [QUOTE]) && |u| == 1 + |x| + 1 && u == [QUOTE] + y + [QUOTE]
    ensures x == y
  {
    assert |x| == |y|;
    forall k | 0 <= k < |x| ensures x[k] == y[k] {
      AtByte(u, 1, x + [QUOTE], k);
    }
  }

  lemma NumberLaid(n: int) returns (v: Syntax)
    requires Int64(n)
    ensures v.Number? && Meaning(v) == Int(n) && NumberText(n) == ValueText(v)
    ensures NumberMade(v.minus, v.digits, v.n) && (v.minus ==> v.n > 0)
  {
    hide Digits;
    hide DecimalText;
    var m := if n < 0 then -n else n;
    DigitsAre(m);
    DecimalWritten(Digits(m));
    v := Number(n < 0, Digits(m), m);
  }

  /** The layout of every printed value: the text is one of the grammar that means the value, and its white space is
      that of the style. */
  lemma {:induction false} LayoutExactly(j: Json, f: Style, level: nat) returns (v: Syntax)
    requires R.WellFormed(j)
    ensures Dump(j, f, level) == Some(ValueText(v)) && Meaning(v) == j && Laid(v, f, level)
    decreases j
  {
    hide DumpString;
    hide NumberText;
    hide CheckFrom;
    hide Indent;
    hide Gap;
    match j
    case Null => v := NullWord;
    case Bool(b) => v := if b then TrueWord else FalseWord;
    case Int(n) => v := NumberLaid(n);
    case Str(s) =>
      var es := StringLaid(s, f);
      v := Quoted(es, s);
    case Arr(items) => v := ArrayLaid(j, f, level);
    case Obj(members) => v := ObjectLaid(j, f, level);
  }

  lemma {:induction false} ArrayLaid(j: Json, f: Style, level: nat) returns (v: Syntax)
    requires R.WellFormed(j) && j.Arr?
    ensures Dump(j, f, level) == Some(ValueText(v)) && Meaning(v) == j && Laid(v, f, level)
    decreases j, |j.items| + 1
  {
    hide Indent;
    hide Gap;
    hide R.WellFormed;
    hide DumpItems;
    hide ItemsText;
    hide ItemsMeaning;
    hide LaidItems;
    if j.items == [] {
      v := NoItems([]);
      assert ValueText(v) == [LBRACKET, RBRACKET];
    } else {
      var a := Indent(f, level + 1, false);
      IndentGap(f, level + 1, false);
      var x := ItemsLaid(j, 0, a, true, f, level);
      v := Array(x);
      var t := DumpItems(j, 0, f, level).value;
      assert [LBRACKET] + a + t + [RBRACKET] == [0x5B] + (a + (t + [0x5D]));
      assert j.items[0..] == j.items;
    }
  }

  lemma {:induction false} ItemsLaid(j: Json, k: nat, a: seq<Byte>, first: bool, f: Style, level: nat) returns (x: Items)
    requires R.WellFormed(j) && j.Arr? && k < |j.items| && Gap(a, f, level + 1, !first)
    ensures DumpItems(j, k, f, level).Some? && ItemsText(x) == a + (DumpItems(j, k, f, level).value + [0x5D])
    ensures ItemsMeaning(x) == j.items[k..] && LaidItems(x, first, f, level)
    decreases j, |j.items| - k
  {
    hide Indent;
    hide Gap;
    hide R.WellFormed;
    hide Dump;
    hide ValueText;
    hide Meaning;
    hide Laid;
    R.ItemWellFormed(j, k);
    R.ItemsSucceed(j, k, f, level);
    R.ItemsText(j, k, f, level);
    var v := LayoutExactly(j.items[k], f, level + 1);
    assert j.items[k..] == [j.items[k]] + j.items[k + 1..];
    if k + 1 < |j.items| {
      var next := Indent(f, level + 1, true);
      IndentGap(f, level + 1, true);
      var rest := ItemsLaid(j, k + 1, next, false, f, level);
      x := Item(a, v, [], rest);
      MoreJoin(a, ValueText(v), next, DumpItems(j, k + 1, f, level).value, 0x5D);
    } else {
      var b := Indent(f, level, false);
      IndentGap(f, level, false);
      x := LastItem(a, v, b);
      LastJoin(a, ValueText(v), b, 0x5D);
    }
  }

  lemma MoreJoin(a: seq<Byte>, v: seq<Byte>, next: seq<Byte>, rest: seq<Byte>, c: Byte)
    ensures a + (v + ([] + ([0x2C] + (next + (rest + [c]))))) == a + ((v + ([COMMA] + next) + rest) + [c])
  {
  }

  lemma LastJoin(a: seq<Byte>, v: seq<Byte>, b: seq<Byte>, c: Byte)
    ensures a + (v + (b + [c])) == a + ((v + b + []) + [c])
  {
  }

  lemma {:induction false} ObjectLaid(j: Json, f: Style, level: nat) returns (v: Syntax)
    requires R.WellFormed(j) && j.Obj?
    ensures Dump(j, f, level) == Some(ValueText(v)) && Meaning(v) == j && Laid(v, f, level)
    decreases j, |j.members| + 1
  {
    hide Indent;
    hide Gap;
    hide R.WellFormed;
    hide DumpMembers;
    hide MembersText;
    hide MembersMeaning;
    hide LaidMembers;
    if j.members == [] {
      v := NoMembers([]);
      assert ValueText(v) == [LBRACE, RBRACE];
    } else {
      var a := Indent(f, level + 1, false);
      IndentGap(f, level + 1, false);
      var x := MembersLaid(j, 0, a, true, f, level);
      v := Object(x);
      var t := DumpMembers(j, 0, f, level).value;
      assert [LBRACE] + a + t + [RBRACE] == [0x7B] + (a + (t + [0x7D]));
      assert j.members[..0] == [];
    }
  }

  lemma KeyLaid(s: seq<Byte>, a: seq<Byte>, first: bool, f: Style, level: nat) returns (k: Key)
    requires CheckFrom(s, 0) && Gap(a, f, level + 1, !first)
    ensures k.s == s && LaidKey(k, first, f, level) && KeyText(k) == a + (DumpString(s, f.escapes).0 + Separator(f))
  {
    hide Gap;
    hide PrintedString;
    hide DumpString;
    hide QuotedText;
    hide CheckFrom;
    var es := StringLaid(s, f);
    k := Key(a, es, s, [], if f.compact then [] else [0x20]);
    assert k.b + ([0x3A] + k.c) == Separator(f);
  }

  lemma {:induction false} MembersLaid(j: Json, k: nat, a: seq<Byte>, first: bool, f: Style, level: nat) returns (x: Members)
    requires R.WellFormed(j) && j.Obj? && k < |j.members| && Gap(a, f, level + 1, !first)
    ensures DumpMembers(j, k, f, level).Some? && MembersText(x) == a + (DumpMembers(j, k, f, level).value + [0x7D])
    ensures MembersMeaning(x, j.members[..k]) == j.members && LaidMembers(x, first, f, level)
    decreases j, |j.members| - k
  {
    hide Indent;
    hide Gap;
    hide R.WellFormed;
    hide Dump;
    hide ValueText;
    hide KeyText;
    hide LaidKey;
    hide Meaning;
    hide Laid;
    hide CheckFrom;
    hide HasNul;
    hide OM.Unique;
    hide OM.Put;
    hide DumpString;
    R.MemberWellFormed(j, k);
    R.MembersSucceed(j, k, f, level);
    R.MembersText(j, k, f, level);
    R.FreshKey(j.members, k);
    var key := KeyLaid(j.members[k].0, a, first, f, level);
    var v := LayoutExactly(j.members[k].1, f, level + 1);
    var s := DumpString(j.members[k].0, f.escapes).0 + Separator(f);
    if k + 1 < |j.members| {
      var next := Indent(f, level + 1, true);
      IndentGap(f, level + 1, true);
      var rest := MembersLaid(j, k + 1, next, false, f, level);
      x := Member(key, v, [], rest);
      MoreJoin(a + s, ValueText(v), next, DumpMembers(j, k + 1, f, level).value, 0x7D);
      KeyFirst(a, s, ValueText(v), [COMMA] + next, DumpMembers(j, k + 1, f, level).value, 0x7D);
    } else {
      var b := Indent(f, level, false);
      IndentGap(f, level, false);
      x := LastMember(key, v, b);
      LastJoin(a + s, ValueText(v), b, 0x7D);
      KeyFirst(a, s, ValueText(v), b, [], 0x7D);
      assert j.members[..k + 1] == j.members;
    }
  }

  lemma KeyFirst(a: seq<Byte>, s: seq<Byte>, v: seq<Byte>, sep: seq<Byte>, rest: seq<Byte>, c: Byte)
    ensures (a + s) + ((v + sep + rest) + [c]) == a + ((s + v + sep + rest) + [c])
  {
  }
}
