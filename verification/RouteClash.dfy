/** Which patterns can be registered, said about the patterns alone: a pattern must be well made, new, and
    must not clash with a registered one. */
module RouteClash {
  import opened Wrappers
  import opened RouteTree
  import opened RouteFind

  // ----- well-made patterns -----

  /** The wildcard at `k` has a name up to the end of its segment; a catch-all also stands right behind a
      slash and ends the pattern. */
  predicate GoodWild(p: string, k: nat)
    requires k < |p|
  {
    var e := SegmentEnd(p, k + 1);
    && k + 2 <= e && Plain(p[k + 1..e])
    && (p[k] == '*' ==> e == |p| && k > 0 && p[k - 1] == '/')
  }

  predicate Good(p: string)
  {
    forall k :: 0 <= k < |p| && Wildcard(p[k]) ==> GoodWild(p, k)
  }

  lemma SegmentShift(x: string, p: string, k: nat)
    requires k <= |p|
    ensures SegmentEnd(x + p, |x| + k) == |x| + SegmentEnd(p, k)
  {
    var e := SegmentEnd(p, k);
    forall j | |x| + k <= j < |x| + e ensures (x + p)[j] != '/' {
      assert (x + p)[j] == p[j - |x|];
    }
    SegmentEndIs(x + p, |x| + k, |x| + e);
  }

  lemma GoodWildShift(x: string, p: string, k: nat)
    requires k < |p| && (p[k] == '*' ==> k > 0)
    ensures GoodWild(x + p, |x| + k) <==> GoodWild(p, k)
  {
    SegmentShift(x, p, k + 1);
    var e := SegmentEnd(p, k + 1);
    assert (x + p)[|x| + k + 1..|x| + e] == p[k + 1..e];
  }

  /** The rest of a well-made pattern is well made, unless it starts with the star itself. */
  lemma GoodSuffix(x: string, p: string)
    requires Good(x + p) && (p != "" ==> p[0] != '*')
    ensures Good(p)
  {
    forall k | 0 <= k < |p| && Wildcard(p[k]) ensures GoodWild(p, k) {
      assert (x + p)[|x| + k] == p[k];
      GoodWildShift(x, p, k);
    }
  }

  /** A star that does not stand behind a slash. */
  lemma BadStar(x: string, p: string)
    requires p != "" && p[0] == '*' && (x == "" || x[|x| - 1] != '/')
    ensures !Good(x + p)
  {
    assert (x + p)[|x|] == '*';
    assert x != "" ==> (x + p)[|x| - 1] == x[|x| - 1];
    assert !GoodWild(x + p, |x|);
  }

  lemma GoodPlain(p: string)
    requires Plain(p)
    ensures Good(p)
  {
  }

  /** From the first wildcard on: its own segment, and what follows. */
  lemma GoodFirst(p: string, i: nat, e: nat)
    requires i < |p| && Wildcard(p[i]) && Plain(p[..i]) && e == SegmentEnd(p, i + 1)
    ensures Good(p) <==> GoodWild(p, i) && Good(p[e..])
  {
    hide GoodWild;
    hide Plain;
    var x, y := p[..e], p[e..];
    assert p == x + y;
    if Good(p) {
      GoodSuffix(x, y);
    }
    if GoodWild(p, i) && Good(y) {
      forall k | 0 <= k < |p| && Wildcard(p[k]) ensures GoodWild(p, k) {
        OnlyWild(p, i, e, k);
        if k != i {
          assert y[k - e] == p[k];
          GoodWildShift(x, y, k - e);
        }
      }
    }
  }

  /** A wildcard of the pattern is the first one or stands behind its segment. */
  lemma OnlyWild(p: string, i: nat, e: nat, k: nat)
    requires i < |p| && Wildcard(p[i]) && Plain(p[..i]) && e == SegmentEnd(p, i + 1) && GoodWild(p, i)
    requires k < |p| && Wildcard(p[k])
    ensures k == i || k > e
  {
    assert forall j :: 0 <= j < i ==> p[j] == p[..i][j];
    assert forall j :: i < j < e ==> p[j] == p[i + 1..e][j - i - 1];
  }

  // ----- clashing patterns -----

  predicate Ends(p: string, m: nat)
    requires m <= |p|
  {
    m == |p| || p[m] == '/'
  }

  /** The last segment of `s` holds a wildcard. */
  predicate WildSegment(s: string)
  {
    exists k :: 0 <= k < |s| && Wildcard(s[k]) && NoSlash(s, k)
  }

  predicate NoSlash(s: string, k: int)
  {
    forall j :: 0 <= k <= j < |s| ==> s[j] != '/'
  }

  /** The patterns part at `m`, and there one goes on with a wildcard and the other with something else, or
      one ends where the other has its catch-all, or they part inside a wildcard's name. */
  predicate ClashAt(p: string, q: string, m: nat)
  {
    && m <= |p| && m <= |q| && p[..m] == q[..m] && (m < |p| && m < |q| ==> p[m] != q[m])
    && (|| (m < |p| && m < |q| && (Wildcard(p[m]) || Wildcard(q[m])))
        || (m == |q| && m < |p| && p[m] == '*')
        || (m == |p| && m < |q| && q[m] == '*')
        || (WildSegment(p[..m]) && !(Ends(p, m) && Ends(q, m))))
  }

  ghost predicate Clash(p: string, q: string)
  {
    exists m :: ClashAt(p, q, m)
  }

  lemma WildSegmentUp(x: string, s: string)
    requires WildSegment(s)
    ensures WildSegment(x + s)
  {
    var k :| 0 <= k < |s| && Wildcard(s[k]) && NoSlash(s, k);
    assert Wildcard((x + s)[|x| + k]);
    forall j | |x| + k <= j < |x + s| ensures (x + s)[j] != '/' {
      assert (x + s)[j] == s[j - |x|];
    }
    assert NoSlash(x + s, |x| + k);
  }

  /** Patterns that clash also clash behind the same prefix. */
  lemma ClashUp(x: string, p: string, q: string)
    requires Clash(p, q)
    ensures Clash(x + p, x + q)
  {
    var m: nat :| ClashAt(p, q, m);
    assert (x + p)[..|x| + m] == x + p[..m] && (x + q)[..|x| + m] == x + q[..m];
    if WildSegment(p[..m]) {
      WildSegmentUp(x, p[..m]);
    }
    assert ClashAt(x + p, x + q, |x| + m);
  }

  /** And the other way round, when a wildcard in the prefix is closed by a slash. */
  lemma ClashDown(x: string, p: string, q: string, m: nat)
    requires ClashAt(x + p, x + q, |x| + m) && m <= |p| && m <= |q|
    requires !Plain(x) ==> p != "" && p[0] == '/' && q != "" && q[0] == '/'
    ensures ClashAt(p, q, m)
  {
    assert (x + p)[..|x| + m] == x + p[..m] && (x + q)[..|x| + m] == x + q[..m];
    assert p[..m] == (x + p[..m])[|x|..] && q[..m] == (x + q[..m])[|x|..];
    var s := x + p[..m];
    if WildSegment(s) {
      var k :| 0 <= k < |s| && Wildcard(s[k]) && NoSlash(s, k);
      if k < |x| {
        assert !Plain(x);
        assert m > 0 ==> s[|x|] == '/';
      } else {
        assert Wildcard(p[..m][k - |x|]);
        forall j | k - |x| <= j < m ensures p[..m][j] != '/' {
          assert s[j + |x|] == p[..m][j];
        }
        assert NoSlash(p[..m], k - |x|);
        assert WildSegment(p[..m]);
      }
    }
  }

  // ----- registered patterns never clash -----

  lemma PartBelow(x: string, p: string, q: string, m: nat)
    requires m < |x|
    ensures !ClashAt(x + p, x + q, m)
  {
    assert forall j :: 0 <= j < |x| ==> (x + p)[j] == (x + q)[j];
  }

  lemma WildClosed(t: Node, rest: string, h: Handler)
    requires WellFormed(t) && ChildRoute(t, rest, h)
    ensures rest != "" && (!Plain(t.path) ==> rest[0] == '/')
  {
    RestStart(t, rest, h);
  }

  lemma {:induction false} NoClash(t: Node, p: string, g: Handler, q: string, h: Handler)
    requires WellFormed(t) && HasRoute(t, p, g) && HasRoute(t, q, h) && p != q
    ensures !Clash(p, q)
    decreases t
  {
    var x := t.path;
    var p', q' := p[|x|..], q[|x|..];
    assert p == x + p' && q == x + q';
    forall m: nat ensures !ClashAt(p, q, m) {
      if m < |x| {
        PartBelow(x, p', q', m);
      } else if p' == "" || q' == "" {
        OneEnds(t, p', g, q', h, m);
      } else {
        BothGoOn(t, p', g, q', h, m);
      }
    }
  }

  lemma OneEnds(t: Node, p: string, g: Handler, q: string, h: Handler, m: nat)
    requires WellFormed(t) && HasRoute(t, t.path + p, g) && HasRoute(t, t.path + q, h) && p != q && (p == "" || q == "")
    requires |t.path| <= m
    ensures !ClashAt(t.path + p, t.path + q, m)
  {
    var x := t.path;
    assert (x + p)[|x|..] == p && (x + q)[|x|..] == q;
    if p == "" {
      WildClosed(t, q, h);
      RestStart(t, q, h);
    } else {
      WildClosed(t, p, g);
      RestStart(t, p, g);
    }
    if m == |x| {
      assert (x + p)[..m] == x;
    }
  }

  lemma {:induction false} BothGoOn(t: Node, p: string, g: Handler, q: string, h: Handler, m: nat)
    requires WellFormed(t) && HasRoute(t, t.path + p, g) && HasRoute(t, t.path + q, h) && p != q && p != "" && q != ""
    requires |t.path| <= m
    ensures !ClashAt(t.path + p, t.path + q, m)
    decreases t, 0
  {
    hide *;
    var x := t.path;
    var i := ChildOf(t, p, g);
    var j := ChildOf(t, q, h);
    WildClosed(t, p, g);
    WildClosed(t, q, h);
    ChildOk(t, i);
    if i == j {
      NoClash(t.children[i], p, g, q, h);
      NotClashing(p, q, m - |x|);
    } else {
      Siblings(t, i, p, g, j, q, h);
    }
    if ClashAt(x + p, x + q, m) {
      ClashBounds(x + p, x + q, m);
      ClashDown(x, p, q, m - |x|);
    }
  }

  lemma ChildOf(t: Node, rest: string, h: Handler) returns (i: nat)
    requires HasRoute(t, t.path + rest, h) && rest != ""
    ensures i < |t.children| && HasRoute(t.children[i], rest, h) && ChildRoute(t, rest, h)
  {
    assert (t.path + rest)[|t.path|..] == rest;
    i :| 0 <= i < |t.children| && HasRoute(t.children[i], rest, h);
  }

  lemma NotClashing(p: string, q: string, m: nat)
    requires !Clash(p, q)
    ensures !ClashAt(p, q, m)
  {
  }

  lemma ClashStart(p: string, q: string, m: nat)
    requires ClashAt(p, q, m) && p != "" && q != ""
    ensures p[0] == q[0] || Wildcard(p[0]) || Wildcard(q[0])
  {
    if m > 0 {
      assert p[..m][0] == q[..m][0];
    } else {
      assert p[..0] == "";
    }
  }

  lemma ClashBounds(p: string, q: string, m: nat)
    requires ClashAt(p, q, m)
    ensures m <= |p| && m <= |q|
  {
  }

  lemma Siblings(t: Node, i: nat, p: string, g: Handler, j: nat, q: string, h: Handler)
    requires WellFormed(t) && i < |t.children| && j < |t.children| && i != j
    requires HasRoute(t.children[i], p, g) && HasRoute(t.children[j], q, h)
    ensures forall m :: !ClashAt(p, q, m)
  {
    ChildOk(t, i);
    ChildOk(t, j);
    assert BranchOk(t);
    RouteStart(t.children[i], p, g, t.indices[i]);
    RouteStart(t.children[j], q, h, t.indices[j]);
    assert p[0] != q[0];
    hide ClashAt;
    forall m: nat ensures !ClashAt(p, q, m) {
      if ClashAt(p, q, m) {
        ClashStart(p, q, m);
      }
    }
  }

  // ----- every node leads to a route -----

  /** Every node is or leads to a route, and a catch-all is one itself. */
  predicate Populated(t: Node)
  {
    && (t.handler.Some? || (|t.children| > 0 && !(t.typ == CatchAll && !t.wild)))
    && forall i :: 0 <= i < |t.children| ==> Populated(t.children[i])
  }

  lemma {:induction false} SomeRoute(t: Node) returns (p: string, h: Handler)
    requires Populated(t)
    ensures HasRoute(t, p, h)
    decreases t
  {
    if t.handler.Some? {
      p, h := t.path, t.handler.value;
    } else {
      var rest;
      rest, h := SomeRoute(t.children[0]);
      p := t.path + rest;
      assert p[|t.path|..] == rest;
      assert ChildRoute(t, rest, h);
    }
  }

  // ----- patterns that go on behind a catch-all -----

  /** The last segment is a catch-all. */
  predicate CatchAllEnd(c: string)
  {
    exists k :: 0 < k < |c| && c[k] == '*' && c[k - 1] == '/' && NoSlash(c, k)
  }

  /** The path goes on behind `c` with a slash and a well-made rest. */
  predicate GoesOn(c: string, path: string)
  {
    |c| < |path| && path[..|c|] == c && path[|c|] == '/' && Good(path[|c|..])
  }

  /** The path goes on behind a registered catch-all. */
  ghost predicate Passes(t: Node, path: string)
  {
    exists c, h :: HasRoute(t, c, h) && CatchAllEnd(c) && GoesOn(c, path)
  }

  ghost predicate Acceptable(t: Node, path: string)
  {
    Good(path) || Passes(t, path)
  }

  lemma CatchAllEndUp(x: string, c: string)
    requires CatchAllEnd(c)
    ensures CatchAllEnd(x + c)
  {
    var k :| 0 < k < |c| && c[k] == '*' && c[k - 1] == '/' && NoSlash(c, k);
    var y := x + c;
    assert y[|x| + k] == '*' && y[|x| + k - 1] == '/';
    forall j | |x| + k <= j < |y| ensures y[j] != '/' {
      assert y[j] == c[j - |x|];
    }
    assert NoSlash(y, |x| + k);
  }

  /** The catch-all lies behind the prefix if the prefix closes its own with a slash and the rest does not start
      with the star. */
  lemma CatchAllEndDown(x: string, c: string)
    requires CatchAllEnd(x + c) && c != "" && c[0] != '*' && (!Plain(x) ==> c[0] == '/')
    ensures CatchAllEnd(c)
  {
    var y := x + c;
    var k :| 0 < k < |y| && y[k] == '*' && y[k - 1] == '/' && NoSlash(y, k);
    assert y[|x|] == c[0];
    assert k < |x| ==> Wildcard(x[k]);
    assert k > |x|;
    assert c[k - |x|] == '*' && c[k - |x| - 1] == '/';
    forall j | k - |x| <= j < |c| ensures c[j] != '/' {
      assert y[j + |x|] == c[j];
    }
    assert NoSlash(c, k - |x|);
  }

  lemma GoesOnUp(x: string, c: string, path: string)
    ensures GoesOn(x + c, x + path) <==> GoesOn(c, path)
  {
    if |c| < |path| {
      assert (x + path)[|x + c|..] == path[|c|..] && (x + path)[|x + c|] == path[|c|];
      assert (x + path)[..|x + c|] == x + path[..|c|];
      assert (x + path[..|c|])[|x|..] == path[..|c|] && (x + c)[|x|..] == c;
    }
  }

  lemma GoodPrepend(x: string, rest: string)
    requires Good(rest) && Plain(x)
    ensures Good(x + rest)
  {
    forall k | 0 <= k < |x + rest| && Wildcard((x + rest)[k]) ensures GoodWild(x + rest, k) {
      assert k >= |x| && (x + rest)[k] == rest[k - |x|];
      assert GoodWild(rest, k - |x|);
      GoodWildShift(x, rest, k - |x|);
    }
  }

  lemma GoodParam(w: string, rest: string)
    requires |w| >= 2 && w[0] == ':' && NameOk(w[1..]) && Good(rest) && (rest != "" ==> rest[0] == '/')
    ensures Good(w + rest)
  {
    var p := w + rest;
    assert forall k :: 1 <= k < |w| ==> p[k] == w[1..][k - 1];
    SegmentEndIs(p, 1, |w|);
    assert p[1..|w|] == w[1..] && p[|w|..] == rest && p[..0] == "";
    GoodFirst(p, 0, |w|);
  }

  lemma CatchAllText(w: string)
    requires |w| >= 3 && CatchAllAt(w) && NameOk(w[2..])
    ensures CatchAllEnd(w) && Good(w)
  {
    assert forall k :: 2 <= k < |w| ==> w[k] == w[2..][k - 2];
    assert NoSlash(w, 1);
    SegmentEndIs(w, 2, |w|);
    assert w[2..|w|] == w[2..] && w[|w|..] == "" && Plain(w[..1]);
    GoodFirst(w, 1, |w|);
  }

  /** A well-made rest below a node is acceptable for the whole tree. */
  lemma AcceptHere(t: Node, rest: string)
    requires WellFormed(t) && Populated(t) && Good(rest) && rest != ""
    requires t.typ == Param || (t.typ == CatchAll && !t.wild) ==> rest[0] == '/'
    ensures Acceptable(t, t.path + rest)
  {
    if t.typ == Param {
      GoodParam(t.path, rest);
    } else if t.typ == CatchAll && !t.wild {
      CatchAllText(t.path);
      assert (t.path + rest)[|t.path|..] == rest && (t.path + rest)[..|t.path|] == t.path;
      assert HasRoute(t, t.path, t.handler.value);
      assert GoesOn(t.path, t.path + rest);
    } else {
      GoodPrepend(t.path, rest);
    }
  }

  /** A node's own path is well made. */
  lemma AcceptOwn(t: Node)
    requires WellFormed(t)
    ensures Good(t.path) && Acceptable(t, t.path)
  {
    if t.typ == Param {
      GoodParam(t.path, "");
      assert t.path + "" == t.path;
    } else if t.typ == CatchAll && !t.wild {
      CatchAllText(t.path);
    }
  }

  lemma AcceptUp(t: Node, i: nat, rest: string)
    requires WellFormed(t) && Populated(t) && i < |t.children| && Acceptable(t.children[i], rest) && rest != ""
    requires t.typ == Param || (t.typ == CatchAll && !t.wild) ==> rest[0] == '/'
    ensures Acceptable(t, t.path + rest)
  {
    if Good(rest) {
      AcceptHere(t, rest);
    } else {
      var c, h :| HasRoute(t.children[i], c, h) && CatchAllEnd(c) && GoesOn(c, rest);
      CatchAllEndUp(t.path, c);
      GoesOnUp(t.path, c, rest);
      assert (t.path + c)[|t.path|..] == c;
      assert HasRoute(t, t.path + c, h);
    }
  }

  /** The registered catch-all that the path passes, seen from the node. */
  lemma PassBelow(t: Node, rest: string, c: string, h: Handler)
    requires WellFormed(t) && rest != "" && HasRoute(t, c, h) && CatchAllEnd(c) && GoesOn(c, t.path + rest)
    ensures c == t.path ==> Good(rest) && rest[0] == '/'
    ensures c != t.path ==>
      var c' := c[|t.path|..];
      c == t.path + c' && ChildRoute(t, c', h) && c' != "" && c'[0] == rest[0] && CatchAllEnd(c') && GoesOn(c', rest)
  {
    var x := t.path;
    if c == x {
      assert (x + rest)[|x|..] == rest;
    } else {
      var c' := c[|x|..];
      assert c == x + c';
      RestStart(t, c', h);
      WildClosed(t, c', h);
      CatchAllEndDown(x, c');
      GoesOnUp(x, c', rest);
      assert rest[..|c'|][0] == rest[0];
    }
  }

  /** What is acceptable for the tree is acceptable below the child that the path leads to. */
  lemma AcceptDown(t: Node, i: nat, rest: string)
    requires WellFormed(t) && i < |t.children| && rest != "" && rest[0] != '*' && Acceptable(t, t.path + rest)
    requires |t.children| == 1 || (!t.wild && t.typ != Param && i < |t.indices| && t.indices[i] == rest[0])
    ensures Acceptable(t.children[i], rest)
  {
    if Good(t.path + rest) {
      GoodSuffix(t.path, rest);
    } else {
      var c, h :| HasRoute(t, c, h) && CatchAllEnd(c) && GoesOn(c, t.path + rest);
      PassBelow(t, rest, c, h);
      if c != t.path {
        var c' := c[|t.path|..];
        var j :| 0 <= j < |t.children| && HasRoute(t.children[j], c', h);
        if |t.children| > 1 {
          assert BranchOk(t);
          RouteStart(t.children[j], c', h, t.indices[j]);
          assert j == i;
        }
        assert HasRoute(t.children[i], c', h);
      }
    }
  }

  /** Where no child goes on like the path, only a well-made rest is acceptable. */
  lemma AcceptBeside(t: Node, rest: string)
    requires WellFormed(t) && !t.wild && rest != "" && rest[0] !in t.indices && (t.typ == Param ==> t.children == [])
    requires Acceptable(t, t.path + rest) && rest[0] != '*'
    ensures Good(rest)
  {
    if Good(t.path + rest) {
      GoodSuffix(t.path, rest);
    } else {
      var c, h :| HasRoute(t, c, h) && CatchAllEnd(c) && GoesOn(c, t.path + rest);
      PassBelow(t, rest, c, h);
      if c != t.path {
        RestStart(t, c[|t.path|..], h);
      }
    }
  }

  /** A pattern that goes on behind a catch-all matches no path. */
  lemma {:induction false} NoMatchBehind(pat: string, k: nat, path: string)
    requires k + 1 < |pat| && pat[k] == '/' && pat[k + 1] == '*' && SegmentEnd(pat, k + 2) < |pat|
    ensures Match(pat, path).None?
    decreases |pat|
  {
    var s := SegmentEnd(pat, k + 2);
    if pat[0] == ':' {
      var e := SegmentEnd(pat, 1);
      assert e <= k;
      SegmentShift(pat[..e], pat[e..], k - e + 2);
      assert pat[..e] + pat[e..] == pat;
      if path != "" {
        NoMatchBehind(pat[e..], k - e, path[SegmentEnd(path, 0)..]);
      }
    } else if CatchAllAt(pat) {
      assert SegmentEnd(pat, 2) < |pat| by {
        if k > 0 {
          assert pat[k] == '/' && k >= 2;
        }
      }
    } else if path != "" && path[0] == pat[0] {
      SegmentShift(pat[..1], pat[1..], k - 1 + 2);
      assert pat[..1] + pat[1..] == pat;
      NoMatchBehind(pat[1..], k - 1, path[1..]);
    }
  }

  /** A pattern that is only acceptable because it goes on behind a catch-all matches nothing. */
  lemma PassedMatchesNothing(c: string, path: string, p: string)
    requires CatchAllEnd(c) && GoesOn(c, path)
    ensures Match(path, p).None?
  {
    var k :| 0 < k < |c| && c[k] == '*' && c[k - 1] == '/' && NoSlash(c, k);
    assert path[k] == path[..|c|][k] && path[k - 1] == path[..|c|][k - 1];
    assert SegmentEnd(path, k + 1) <= |c|;
    NoMatchBehind(path, k - 1, p);
  }

  // ----- refusal -----

  /** No route of the tree has this pattern. */
  ghost predicate New(t: Node, path: string)
  {
    forall g :: !HasRoute(t, path, g)
  }

  /** A registered pattern clashes with this one. */
  ghost predicate Clashes(t: Node, path: string)
  {
    exists q, g :: HasRoute(t, q, g) && Clash(path, q)
  }

  ghost predicate Refused(t: Node, path: string)
  {
    !New(t, path) || Clashes(t, path) || !Acceptable(t, path)
  }

  /** A refusal below is a refusal here. */
  lemma RefusedUp(t: Node, i: nat, rest: string)
    requires WellFormed(t) && i < |t.children| && Refused(t.children[i], rest) && rest != "" && rest[0] != '*'
    requires |t.children| == 1 || (!t.wild && t.typ != Param && i < |t.indices| && t.indices[i] == rest[0])
    ensures Refused(t, t.path + rest)
  {
    hide Acceptable;
    hide Clash;
    var path := t.path + rest;
    assert path[|t.path|..] == rest;
    if !New(t.children[i], rest) {
      var g :| HasRoute(t.children[i], rest, g);
      assert HasRoute(t, path, g);
    } else if Clashes(t.children[i], rest) {
      var q, g :| HasRoute(t.children[i], q, g) && Clash(rest, q);
      ClashUp(t.path, rest, q);
      assert (t.path + q)[|t.path|..] == q;
      assert HasRoute(t, t.path + q, g);
    } else if Acceptable(t, path) {
      AcceptDown(t, i, rest);
    }
  }

  /** Next to existing children no wildcard can start. */
  lemma WildNextToChildren(t: Node, rest: string)
    requires WellFormed(t) && Populated(t) && |t.children| > 0 && !t.wild && t.typ != Param
    requires rest != "" && Wildcard(rest[0])
    ensures Clashes(t, t.path + rest)
  {
    var q, h := SomeRoute(t.children[0]);
    assert ChildRoute(t, q, h);
    RestStart(t, q, h);
    assert BranchOk(t);
    var x := t.path;
    assert (x + q)[|x|..] == q;
    assert (x + rest)[..|x|] == x && (x + q)[..|x|] == x;
    assert ClashAt(x + rest, x + q, |x|);
    assert HasRoute(t, x + q, h);
  }

  /** A catch-all cannot start where another pattern ends with a slash, nor without a slash. */
  lemma StarAtEnd(t: Node, rest: string)
    requires WellFormed(t) && Populated(t) && t.children == [] && rest != "" && rest[0] == '*'
    ensures Refused(t, t.path + rest)
  {
    var x := t.path;
    if x != "" && x[|x| - 1] == '/' {
      assert (x + rest)[..|x|] == x && x[..|x|] == x;
      assert ClashAt(x + rest, x, |x|);
      assert HasRoute(t, x, t.handler.value);
    } else {
      BadStar(x, rest);
      forall c, h | HasRoute(t, c, h) && CatchAllEnd(c) ensures !GoesOn(c, x + rest) {
        LeafRoute(t, c, h);
        assert (x + rest)[|x|] == '*';
      }
    }
  }

  lemma LeafRoute(t: Node, c: string, h: Handler)
    requires t.children == [] && HasRoute(t, c, h)
    ensures c == t.path
  {
    assert !ChildRoute(t, c[|t.path|..], h);
  }

  /** Under a wildcard the path goes on with something else than that wildcard. */
  lemma OtherWild(t: Node, rest: string)
    requires WellFormed(t) && Populated(t) && t.wild && |t.children| == 1 && rest != ""
    requires var w := t.children[0].path; !(w <= rest && (|w| >= |rest| || rest[|w|] == '/'))
    requires t.typ == CatchAll ==> rest[0] == '/'
    ensures Clashes(t, t.path + rest)
  {
    WildChildOk(t);
    var w := t.children[0];
    var q, h := SomeRoute(w);
    var x := t.path;
    assert HasRoute(t, x + q, h) by {
      assert (x + q)[|x|..] == q;
      assert ChildRoute(t, q, h);
    }
    assert Clash(rest, q) by { NameClash(w, rest, q, h); }
    ClashUp(x, rest, q);
  }

  lemma FirstDifference(p: string, q: string) returns (m: nat)
    ensures m <= |p| && m <= |q| && p[..m] == q[..m] && (m < |p| && m < |q| ==> p[m] != q[m])
  {
    m := 0;
    while m < |p| && m < |q| && p[m] == q[m]
      invariant m <= |p| && m <= |q| && p[..m] == q[..m]
    {
      m := m + 1;
    }
  }

  lemma NameClash(w: Node, rest: string, q: string, h: Handler)
    requires WellFormed(w) && (w.typ == Param || (w.typ == CatchAll && !w.wild)) && HasRoute(w, q, h)
    requires rest != "" && !(w.path <= rest && (|w.path| >= |rest| || rest[|w.path|] == '/'))
    requires w.typ == CatchAll ==> rest[0] == '/'
    ensures Clash(rest, q)
  {
    var tail := q[|w.path|..];
    assert q == w.path + tail;
    WildTail(w, tail, h);
    var m := FirstDifference(rest, q);
    var k := if w.typ == Param then 0 else 1;
    assert Wildcard(w.path[k]);
    assert k == 1 ==> rest[0] == q[0];
    if m <= k {
      assert ClashAt(rest, q, m);
    } else {
      InsideName(w, rest, q, m, k);
      assert ClashAt(rest, q, m);
    }
  }

  lemma PastName(w: string, rest: string, q: string, m: nat)
    requires |w| < m <= |rest| && m <= |q| && rest[..m] == q[..m] && w <= q
    ensures w <= rest && rest[|w|] == q[|w|]
  {
    assert rest[|w|] == rest[..m][|w|] && q[|w|] == q[..m][|w|];
    assert w == q[..m][..|w|] && rest[..|w|] == rest[..m][..|w|];
  }

  lemma InsideName(w: Node, rest: string, q: string, m: nat, k: nat)
    requires WellFormed(w) && (w.typ == Param || (w.typ == CatchAll && !w.wild)) && k == (if w.typ == Param then 0 else 1)
    requires w.path <= q && (|q| > |w.path| ==> q[|w.path|] == '/')
    requires k < m <= |rest| && m <= |q| && rest[..m] == q[..m] && (m < |rest| && m < |q| ==> rest[m] != q[m])
    requires !(w.path <= rest && (|w.path| >= |rest| || rest[|w.path|] == '/'))
    ensures m <= |w.path| && WildSegment(rest[..m]) && !(Ends(rest, m) && Ends(q, m))
  {
    assert forall j :: 0 <= j < |w.path| ==> q[j] == w.path[j];
    assert forall j :: 0 <= j < m ==> rest[j] == rest[..m][j] && q[j] == q[..m][j];
    if m > |w.path| {
      PastName(w.path, rest, q, m);
    }
    assert Wildcard(rest[..m][k]);
    forall j | k <= j < m ensures rest[..m][j] != '/' {
      assert j > k ==> w.path[k + 1..][j - k - 1] == w.path[j];
    }
    assert NoSlash(rest[..m], k);
    if m == |w.path| {
      assert w.path == rest[..m];
    } else {
      assert w.path[k + 1..][m - k - 1] == w.path[m];
    }
  }
}
