/** Adding routes to the tree: splitting nodes, inserting wildcard chains, reordering children. */
module RouteAdd {
  import opened Wrappers
  import opened RouteTree
  import opened RouteFind
  import opened RouteClash

  // ----- what an addition does to the registered routes -----

  /** `u` has the routes of `t` and the pattern `pat` with handler `h`. */
  ghost predicate Adds(t: Node, u: Node, pat: string, h: Handler)
  {
    forall p, g :: HasRoute(u, p, g) <==> HasRoute(t, p, g) || (p == pat && g == h)
  }

  ghost predicate Only(t: Node, pat: string, h: Handler)
  {
    forall p, g :: HasRoute(t, p, g) <==> p == pat && g == h
  }

  ghost predicate SameRoutes(t: Node, u: Node)
  {
    forall p, g :: HasRoute(t, p, g) <==> HasRoute(u, p, g)
  }

  /** The sequence with element `pos` moved forward to `np`. */
  function Moved<T>(s: seq<T>, pos: nat, np: nat): (r: seq<T>)
    requires np <= pos < |s|
    ensures |r| == |s| && r[np] == s[pos]
    ensures forall j :: np < j <= pos ==> r[j] == s[j - 1]
    ensures forall j :: 0 <= j < np || pos < j < |s| ==> r[j] == s[j]
  {
    s[..np] + [s[pos]] + s[np..pos] + s[pos + 1..]
  }

  /** One child moves forward and gets more routes. */
  lemma AddsMoved(t: Node, u: Node, pos: nat, np: nat, q: string, h: Handler)
    requires np <= pos < |t.children| && t.path == u.path && t.handler == u.handler
    requires |u.children| == |t.children| && u.children == Moved(t.children[pos := u.children[np]], pos, np)
    requires Adds(t.children[pos], u.children[np], q, h)
    ensures Adds(t, u, t.path + q, h)
  {
    forall p, g ensures HasRoute(u, p, g) <==> HasRoute(t, p, g) || (p == t.path + q && g == h) {
      if p == t.path + q {
        assert p[|t.path|..] == q;
      }
      if t.path <= p {
        var rest := p[|t.path|..];
        assert p == t.path + rest;
        AddsMovedAt(t, u, pos, np, q, h, rest, g);
      }
    }
  }

  lemma AddsMovedAt(t: Node, u: Node, pos: nat, np: nat, q: string, h: Handler, rest: string, g: Handler)
    requires np <= pos < |t.children| == |u.children|
    requires u.children == Moved(t.children[pos := u.children[np]], pos, np)
    requires Adds(t.children[pos], u.children[np], q, h)
    ensures ChildRoute(u, rest, g) <==> ChildRoute(t, rest, g) || (rest == q && g == h)
  {
    assert HasRoute(u.children[np], rest, g) <==> HasRoute(t.children[pos], rest, g) || (rest == q && g == h);
    if ChildRoute(u, rest, g) {
      var j :| 0 <= j < |u.children| && HasRoute(u.children[j], rest, g);
      assert j != np ==> u.children[j] == t.children[if np < j <= pos then j - 1 else j];
    }
    if ChildRoute(t, rest, g) {
      MovedForth(t, u, pos, np, rest, g);
    }
  }

  lemma MovedForth(t: Node, u: Node, pos: nat, np: nat, rest: string, g: Handler)
    requires np <= pos < |t.children| == |u.children|
    requires u.children == Moved(t.children[pos := u.children[np]], pos, np)
    requires HasRoute(t.children[pos], rest, g) ==> HasRoute(u.children[np], rest, g)
    requires ChildRoute(t, rest, g)
    ensures ChildRoute(u, rest, g)
  {
    var i :| 0 <= i < |t.children| && HasRoute(t.children[i], rest, g);
    var j := if i == pos then np else if np <= i < pos then i + 1 else i;
    assert HasRoute(u.children[j], rest, g);
  }

  /** A new child with a single route. */
  lemma AddsByChild(t: Node, u: Node, i: nat, q: string, h: Handler)
    requires t.path == u.path && t.handler == u.handler && i < |u.children|
    requires u.children[..i] + u.children[i + 1..] == t.children && Only(u.children[i], q, h)
    ensures Adds(t, u, t.path + q, h)
  {
    forall p, g ensures HasRoute(u, p, g) <==> HasRoute(t, p, g) || (p == t.path + q && g == h) {
      if p == t.path + q {
        assert p[|t.path|..] == q;
        if g == h {
          assert HasRoute(u.children[i], q, h);
        }
      }
      if t.path <= p {
        var rest := p[|t.path|..];
        assert p == t.path + rest;
        if ChildRoute(u, rest, g) {
          var j :| 0 <= j < |u.children| && HasRoute(u.children[j], rest, g);
          if j != i {
            assert t.children[if j < i then j else j - 1] == u.children[j];
          }
        }
        if ChildRoute(t, rest, g) {
          var j :| 0 <= j < |t.children| && HasRoute(t.children[j], rest, g);
          assert u.children[if j < i then j else j + 1] == t.children[j];
        }
      }
    }
  }

  lemma OnlyLeaf(t: Node, h: Handler)
    requires t.children == [] && t.handler == Some(h)
    ensures Only(t, t.path, h)
  {
    forall p, g ensures HasRoute(t, p, g) <==> p == t.path && g == h {
    }
  }

  lemma OnlyAbove(t: Node, q: string, h: Handler)
    requires t.handler == None && |t.children| == 1 && Only(t.children[0], q, h)
    ensures Only(t, t.path + q, h)
  {
    forall p, g ensures HasRoute(t, p, g) <==> p == t.path + q && g == h {
      if p == t.path + q {
        assert p[|t.path|..] == q;
        if g == h {
          assert HasRoute(t.children[0], q, h);
        }
      }
      if t.path <= p {
        var rest := p[|t.path|..];
        assert p == t.path + rest;
        assert ChildRoute(t, rest, g) <==> HasRoute(t.children[0], rest, g);
      }
    }
  }

  lemma NoRoutes(t: Node)
    requires t.handler == None && t.children == []
    ensures forall p, g :: !HasRoute(t, p, g)
  {
  }

  // ----- counting wildcards -----

  function CountWild(s: string): nat
  {
    if s == "" then 0 else (if Wildcard(s[0]) then 1 else 0) + CountWild(s[1..])
  }

  lemma {:induction false} CountAppend(s: string, t: string)
    ensures CountWild(s + t) == CountWild(s) + CountWild(t)
  {
    if s == "" {
      assert s + t == t;
    } else {
      assert (s + t)[1..] == s[1..] + t;
      CountAppend(s[1..], t);
    }
  }

  lemma {:induction false} CountPlain(s: string)
    ensures CountWild(s) == 0 <==> Plain(s)
  {
    if s != "" {
      CountPlain(s[1..]);
      if Plain(s[1..]) && !Wildcard(s[0]) {
        forall k | 0 <= k < |s| ensures !Wildcard(s[k]) {
          assert k > 0 ==> s[k] == s[1..][k - 1];
        }
      }
      if Plain(s) {
        forall k | 0 <= k < |s| - 1 ensures !Wildcard(s[1..][k]) {
          assert s[1..][k] == s[k + 1];
        }
      }
    }
  }

  /** `pgrest_count_params` */
  method CountParams(path: string) returns (n: nat)
    ensures n == if CountWild(path) < 255 then CountWild(path) else 255
  {
    n := 0;
    var i := 0;
    assert path[..0] == "" && path[0..] == path;
    while i < |path|
      invariant 0 <= i <= |path| && n + CountWild(path[i..]) == CountWild(path)
    {
      assert path[i..][1..] == path[i + 1..];
      if Wildcard(path[i]) {
        n := n + 1;
      }
      i := i + 1;
    }
    if n >= 255 {
      n := 255;
    }
  }

  // ----- child_priority -----

  /** Count the use of child `pos` and move it, with its index byte, in front of the children with
      a lower priority. */
  method ChildPriority(children: seq<Node>, indices: string, pos: nat) returns (kids: seq<Node>, index: string, np: nat)
    requires pos < |children| == |indices|
    ensures np <= pos
    ensures kids == Moved(children[pos := children[pos].(priority := children[pos].priority + 1)], pos, np)
    ensures index == Moved(indices, pos, np)
    ensures forall k :: np < k <= pos ==> kids[k].priority < kids[np].priority
    ensures np > 0 ==> kids[np - 1].priority >= kids[np].priority
  {
    var bumped := children[pos].(priority := children[pos].priority + 1);
    kids := children[pos := bumped];
    np := pos;
    while np > 0 && kids[np - 1].priority < bumped.priority
      invariant np <= pos && |kids| == |children| && kids[np] == bumped
      invariant forall j :: np < j <= pos ==> kids[j] == children[j - 1] && kids[j].priority < bumped.priority
      invariant forall j :: 0 <= j < np || pos < j < |children| ==> kids[j] == children[j]
    {
      kids := kids[np - 1 := kids[np]][np := kids[np - 1]];
      np := np - 1;
    }
    assert kids == Moved(children[pos := bumped], pos, np);
    index := MoveIndex(indices, pos, np);
  }

  method MoveIndex(indices: string, pos: nat, np: nat) returns (index: string)
    requires np <= pos < |indices|
    ensures index == Moved(indices, pos, np)
  {
    index := indices;
    var p := pos;
    while p > np
      invariant np <= p <= pos && |index| == |indices|
      invariant forall j :: p < j <= pos ==> index[j] == indices[j - 1]
      invariant forall j :: 0 <= j <= p || pos < j < |indices| ==> index[j] == indices[j]
    {
      index := index[p := index[p - 1]];
      p := p - 1;
    }
    index := index[np := indices[pos]];
    assert index == Moved(indices, pos, np);
  }

  // ----- child_insert -----

  /** Where child_insert starts: a new node, or a node without children that the rest of the path
      leaves through a wildcard. */
  predicate Insertable(node: Node, path: string)
  {
    && WellFormed(node) && IsStatic(node) && !node.wild && path != ""
    && ((node.path == "" && node.handler == None && node.children == []) || Wildcard(path[0]))
  }

  /** The end of the wildcard name that starts behind position `i`; fails on a second wildcard in
      the same segment. */
  method ScanName(path: string, i: nat) returns (ok: bool, end: nat)
    requires i < |path|
    ensures i < end <= |path|
    ensures ok ==> end == SegmentEnd(path, i + 1) && Plain(path[i + 1..end])
    ensures !ok ==> !GoodWild(path, i)
  {
    end := i + 1;
    while end < |path| && path[end] != '/'
      invariant i < end <= |path|
      invariant forall k :: i < k < end ==> path[k] != '/' && !Wildcard(path[k])
    {
      if Wildcard(path[end]) {
        assert path[i + 1..SegmentEnd(path, i + 1)][end - i - 1] == path[end];
        return false, end;
      }
      end := end + 1;
    }
    SegmentEndIs(path, i + 1, end);
    ok := true;
  }

  method ScanWildcard(path: string) returns (i: nat)
    requires CountWild(path) > 0
    ensures i < |path| && Wildcard(path[i]) && Plain(path[..i])
  {
    CountPlain(path);
    i := 0;
    while !Wildcard(path[i])
      invariant i < |path| && forall k :: 0 <= k < i ==> !Wildcard(path[k])
      decreases |path| - i
    {
      if i + 1 == |path| {
        assert Plain(path);
      }
      i := i + 1;
    }
  }

  function NewNode(priority: int): Node
  {
    Node("", false, Static, "", [], None, priority)
  }

  /** The parameter node for `:name` with an optional continuation. */
  function ParamNode(text: string, below: seq<Node>, handler: Option<Handler>): Node
  {
    Node(text, false, Param, "", below, handler, 1)
  }

  /** The two nodes of a catch-all. */
  function CatchNodes(text: string, h: Handler): Node
  {
    Node("", true, CatchAll, "", [Node(text, false, CatchAll, "", [], Some(h), 1)], None, 1)
  }

  lemma ParamNodeOk(text: string, below: seq<Node>, handler: Option<Handler>)
    requires |text| >= 2 && text[0] == ':' && NameOk(text[1..]) && |below| <= 1
    requires |below| == 1 ==> below[0].typ == Static && FirstOk(below[0], '/') && WellFormed(below[0])
    ensures WellFormed(ParamNode(text, below, handler))
  {
  }

  lemma CatchNodesOk(text: string, h: Handler)
    requires |text| >= 3 && CatchAllAt(text) && NameOk(text[2..])
    ensures WellFormed(CatchNodes(text, h)) && Only(CatchNodes(text, h), text, h)
  {
    var t := CatchNodes(text, h);
    assert BranchOk(t.children[0]);
    OnlyLeaf(t.children[0], h);
    OnlyAbove(t, text, h);
    assert "" + text == text;
  }

  /** Hang a wildcard child below a node without children. */
  lemma HangWild(node: Node, prefix: string, w: Node, rest: string, h: Handler)
    requires WellFormed(node) && IsStatic(node) && !node.wild && node.children == [] && Plain(prefix)
    requires prefix != node.path ==> node.handler == None
    requires w.typ == Param && WellFormed(w) && Only(w, rest, h)
    ensures var r := node.(path := prefix, wild := true, children := [w]);
            WellFormed(r) && forall p, g :: HasRoute(r, p, g) <==> HasRoute(node, p, g) || (p == prefix + rest && g == h)
  {
    assert BranchOk(node);
    var r := node.(path := prefix, wild := true, children := [w]);
    if prefix == node.path {
      assert r.children[..0] + r.children[1..] == [];
      AddsByChild(node, r, 0, rest, h);
    } else {
      NoRoutes(node);
      OnlyAbove(r, rest, h);
    }
  }

  lemma HangCatchAll(node: Node, prefix: string, w: Node, rest: string, h: Handler)
    requires IsStatic(node) && !node.wild && node.children == [] && node.handler == None && Plain(prefix)
    requires IsCatchHead(w) && WellFormed(w) && Only(w, rest, h)
    ensures var r := node.(path := prefix, indices := "/", children := [w]);
            WellFormed(r) && Only(r, prefix + rest, h)
  {
    var r := node.(path := prefix, indices := "/", children := [w]);
    assert FirstOk(w, '/');
    assert BranchOk(r);
    OnlyAbove(r, rest, h);
  }

  /** The rest of the path below a node: a static leaf, a chain of parameters, or a catch-all. It
      fails on a second wildcard in a segment, an unnamed wildcard, a wildcard next to existing
      children, and a catch-all that is not last or has no slash of its own in front. */
  method ChildInsert(node: Node, numParams: nat, path: string, handler: Handler) returns (ok: bool, r: Node)
    requires Insertable(node, path) && numParams == CountWild(path)
    ensures ok <==> Good(path) && (Plain(path) || node.children == [])
    ensures ok ==> Populated(r)
    ensures ok ==> WellFormed(r) && r.typ == node.typ && r.priority == node.priority
    ensures ok ==> forall p, g :: HasRoute(r, p, g) <==> HasRoute(node, p, g) || (p == node.path + path && g == handler)
    ensures ok && node.path != "" ==> r.path == node.path
    ensures ok && !Wildcard(path[0]) ==> FirstOk(r, path[0])
    decreases |path|, 3
  {
    CountPlain(path);
    if numParams == 0 {
      r := node.(path := path, handler := Some(handler));
      assert BranchOk(node) && BranchOk(r);
      OnlyLeaf(r, handler);
      NoRoutes(node);
      assert node.path + path == path;
      GoodPlain(path);
      return true, r;
    }
    var i := ScanWildcard(path);
    var named, end := ScanName(path, i);
    if !named || |node.children| > 0 || end - i < 2 {
      return false, node;
    }
    GoodFirst(path, i, end);
    assert NameOk(path[i + 1..end]);
    if path[i] == ':' {
      ok, r := InsertParam(node, numParams, path, handler, i, end);
    } else {
      ok, r := InsertCatchAll(node, numParams, path, handler, i, end);
    }
  }

  method InsertParam(node: Node, numParams: nat, path: string, handler: Handler, i: nat, end: nat) returns (ok: bool, r: Node)
    requires Insertable(node, path) && numParams == CountWild(path) > 0 && node.children == []
    requires i < |path| && path[i] == ':' && Plain(path[..i]) && i + 2 <= end == SegmentEnd(path, i + 1) && NameOk(path[i + 1..end])
    ensures ok <==> Good(path)
    ensures ok ==> Populated(r)
    ensures ok ==> WellFormed(r) && r.typ == node.typ && r.priority == node.priority
    ensures ok ==> forall p, g :: HasRoute(r, p, g) <==> HasRoute(node, p, g) || (p == node.path + path && g == handler)
    ensures ok && node.path != "" ==> r.path == node.path
    ensures ok && !Wildcard(path[0]) ==> FirstOk(r, path[0])
    decreases |path|, 2
  {
    assert path[i..end] + path[end..] == path[i..] && path[i..end][1..] == path[i + 1..end];
    ParamCount(path, i, end);
    GoodFirst(path, i, end);
    var done, w := ParamBelow(numParams, path[i..], handler, path[i..end], path[end..]);
    if !done {
      return false, node;
    }
    var prefix := if i > 0 then path[..i] else node.path;
    PrefixJoin(node, path, i);
    HangWild(node, prefix, w, path[i..], handler);
    r := node.(path := prefix, wild := true, children := [w]);
    ok := true;
  }

  lemma PrefixJoin(node: Node, path: string, i: nat)
    requires i < |path| && (i > 0 ==> node.path == "")
    ensures (if i > 0 then path[..i] else node.path) + path[i..] == node.path + path
    ensures i > 0 ==> path[..i] != "" && path[..i][0] == path[0]
  {
    if i == 0 {
      assert path[0..] == path;
    } else {
      assert path[..i] + path[i..] == path;
      assert node.path + path == path;
    }
  }

  /** A parameter node and everything below it. */
  method ParamBelow(numParams: nat, path: string, handler: Handler, text: string, rest: string) returns (ok: bool, w: Node)
    requires path == text + rest && |text| >= 2 && text[0] == ':' && NameOk(text[1..])
    requires numParams == CountWild(rest) + 1 && (rest != "" ==> rest[0] == '/')
    ensures ok <==> Good(rest)
    ensures ok ==> w.typ == Param && WellFormed(w) && Only(w, path, handler) && Populated(w)
    decreases |path|, 1
  {
    if rest == "" {
      w := ParamNode(text, [], Some(handler));
      ParamNodeOk(text, [], Some(handler));
      OnlyLeaf(w, handler);
      return true, w;
    }
    var blank := NewNode(1);
    assert BranchOk(blank);
    NoRoutes(blank);
    var below;
    ok, below := ChildInsert(blank, numParams - 1, rest, handler);
    assert "" + rest == rest;
    w := ParamNode(text, [below], None);
    if ok {
      ParamNodeOk(text, [below], None);
      OnlyAbove(w, rest, handler);
    }
  }

  lemma OneWild(c: char)
    requires Wildcard(c)
    ensures CountWild([c]) == 1
  {
    assert CountWild([c]) == 1 + CountWild("");
  }

  lemma ParamCount(path: string, i: nat, end: nat)
    requires i < end <= |path| && Wildcard(path[i]) && Plain(path[..i]) && Plain(path[i + 1..end])
    ensures CountWild(path[end..]) == CountWild(path) - 1
  {
    hide CountWild;
    assert path == path[..i] + ([path[i]] + (path[i + 1..end] + path[end..]));
    CountAppend(path[..i], [path[i]] + (path[i + 1..end] + path[end..]));
    CountAppend([path[i]], path[i + 1..end] + path[end..]);
    CountAppend(path[i + 1..end], path[end..]);
    CountPlain(path[..i]);
    CountPlain(path[i + 1..end]);
    OneWild(path[i]);
  }

  /** With a named star, being well made is a matter of its place. */
  lemma CatchAllGood(path: string, i: nat, end: nat)
    requires i < |path| && path[i] == '*' && Plain(path[..i]) && i + 2 <= end == SegmentEnd(path, i + 1) && NameOk(path[i + 1..end])
    ensures Good(path) <==> end == |path| && i > 0 && path[i - 1] == '/'
  {
    GoodFirst(path, i, end);
  }

  lemma CatchAllCount(path: string, i: nat, end: nat)
    requires i < end <= |path| && Wildcard(path[i]) && Plain(path[..i]) && NameOk(path[i + 1..end])
    ensures end == |path| ==> CountWild(path) == 1
  {
    ParamCount(path, i, end);
    assert path[|path|..] == "";
  }

  lemma InsertableNode(node: Node, path: string)
    requires Insertable(node, path)
    ensures IsStatic(node) && !node.wild
    ensures !Wildcard(path[0]) ==> node.path == "" && node.handler == None && node.children == []
  {
  }

  method InsertCatchAll(node: Node, numParams: nat, path: string, handler: Handler, i: nat, end: nat) returns (ok: bool, r: Node)
    requires Insertable(node, path) && numParams == CountWild(path) > 0 && node.children == []
    requires i < |path| && path[i] == '*' && Plain(path[..i]) && i + 2 <= end == SegmentEnd(path, i + 1) && NameOk(path[i + 1..end])
    ensures ok <==> Good(path)
    ensures ok ==> Populated(r)
    ensures ok ==> WellFormed(r) && r.typ == node.typ && r.priority == node.priority
    ensures ok ==> forall p, g :: HasRoute(r, p, g) <==> HasRoute(node, p, g) || (p == node.path + path && g == handler)
    ensures ok && node.path != "" ==> r.path == node.path
    ensures ok && !Wildcard(path[0]) ==> FirstOk(r, path[0])
  {
    hide Good;
    hide HasRoute;
    hide CountWild;
    hide WellFormed;
    hide NameOk;
    CatchAllGood(path, i, end);
    CatchAllCount(path, i, end);
    InsertableNode(node, path);
    if end != |path| || numParams > 1 {
      return false, node;
    }
    if node.path != "" && node.path[|node.path| - 1] == '/' {
      return false, node;
    }
    // With i == 0 the byte in front is the last one of the node's own path, which is no slash.
    if i == 0 || path[i - 1] != '/' {
      return false, node;
    }
    var text := path[i - 1..];
    var prefix := path[..i - 1];
    assert prefix == path[..i][..i - 1] && Plain(prefix);
    assert node.path == "" by { assert path[0] == path[..i][0]; }
    CutPath(path, i);
    CatchAllInserted(node, prefix, text, handler);
    r := node.(path := prefix, indices := "/", children := [CatchNodes(text, handler)]);
    ok := true;
  }

  lemma CutPath(path: string, i: nat)
    requires 0 < i < |path|
    ensures path[i - 1..][2..] == path[i + 1..|path|] && path[..i - 1] + path[i - 1..] == path
  {
  }

  lemma CatchAllInserted(node: Node, prefix: string, text: string, h: Handler)
    requires IsStatic(node) && !node.wild && node.path == "" && node.children == [] && node.handler == None && Plain(prefix)
    requires |text| >= 3 && CatchAllAt(text) && NameOk(text[2..])
    ensures var r := node.(path := prefix, indices := "/", children := [CatchNodes(text, h)]);
            && WellFormed(r) && Populated(r) && FirstOk(r, (prefix + text)[0])
            && forall p, g :: HasRoute(r, p, g) <==> HasRoute(node, p, g) || (p == node.path + (prefix + text) && g == h)
  {
    CatchNodesOk(text, h);
    assert Populated(CatchNodes(text, h)) by { assert Populated(CatchNodes(text, h).children[0]); }
    HangCatchAll(node, prefix, CatchNodes(text, h), text, h);
    NoRoutes(node);
    assert node.path + (prefix + text) == prefix + text;
  }
}
