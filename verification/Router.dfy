/** `pgrest_rtree_add` on the route tree, and the router that holds the tree. */
module Router {
  import opened Wrappers
  import opened RouteTree
  import opened RouteFind
  import opened RouteClash
  import opened RouteAdd

  /** The path can be added at this node: it starts as everything below the node does. */
  predicate Compat(node: Node, path: string)
  {
    && path != "" && (node.path != "" || node.children != [])
    && match node.typ
       case Root => true
       case Static => FirstOk(node, path[0])
       case Param => WildFits(node.path, path)
       case CatchAll => if node.wild then path[0] == '/' else WildFits(node.path, path)
  }

  /** The path goes on with exactly this wildcard. */
  predicate WildFits(w: string, path: string)
  {
    w <= path && (|w| >= |path| || path[|w|] == '/')
  }

  /** `r` is `node` with one more route. */
  ghost predicate Grown(node: Node, r: Node, pat: string, h: Handler)
  {
    && WellFormed(r) && r.typ == node.typ && r.priority == node.priority
    && (node.typ == CatchAll ==> r.wild == node.wild)
    && (node.path != "" ==> r.path == node.path)
    && (node.path == "" && node.typ != Root ==> r.path == "" && r.handler == node.handler && r.wild == node.wild && r.indices == node.indices)
    && Adds(node, r, pat, h)
  }

  lemma GrownFirst(node: Node, r: Node, pat: string, h: Handler, c: char)
    requires Grown(node, r, pat, h) && node.typ != Root && FirstOk(node, c)
    ensures FirstOk(r, c)
  {
  }

  // ----- splitting -----

  /** The node cut at byte `i` of its path: the tail, with everything below, becomes its only child. */
  function Split(node: Node, priority: int, i: nat): Node
    requires i < |node.path|
  {
    var child := Node(node.path[i..], node.wild, Static, node.indices, node.children, node.handler, priority - 1);
    Node(node.path[..i], false, node.typ, [node.path[i]], [child], None, priority)
  }

  lemma SplitOk(node: Node, priority: int, i: nat)
    requires WellFormed(node) && IsStatic(node) && i < |node.path|
    ensures WellFormed(Split(node, priority, i))
  {
    var s := Split(node, priority, i);
    var child := s.children[0];
    assert forall k :: 0 <= k < |child.path| ==> child.path[k] == node.path[i + k];
    if !node.wild {
      assert BranchOk(node);
      assert BranchOk(child);
    }
    assert WellFormed(child);
    assert s.indices[0] == node.path[i];
    assert BranchOk(s);
  }

  lemma SplitSame(node: Node, priority: int, i: nat)
    requires i < |node.path|
    ensures SameRoutes(node, Split(node, priority, i))
  {
    var s := Split(node, priority, i);
    var child := s.children[0];
    forall p, g ensures HasRoute(node, p, g) <==> HasRoute(s, p, g) {
      assert node.path == s.path + child.path;
      if s.path <= p {
        var rest := p[|s.path|..];
        assert p == s.path + rest;
        assert child.path <= rest <==> node.path <= p;
        assert ChildRoute(s, rest, g) <==> HasRoute(child, rest, g);
        if child.path <= rest {
          assert rest[|child.path|..] == p[|node.path|..];
          assert rest == child.path <==> p == node.path;
          assert ChildRoute(child, rest[|child.path|..], g) <==> ChildRoute(node, p[|node.path|..], g);
        }
      }
    }
  }

  // ----- growing below a node -----

  lemma GrowWild(node: Node, c: Node, q: string, h: Handler)
    requires WellFormed(node) && node.wild && |node.children| == 1
    requires c.typ == node.children[0].typ && WellFormed(c) && (c.typ == CatchAll ==> !c.wild) && Adds(node.children[0], c, q, h)
    ensures Grown(node, node.(children := [c]), node.path + q, h)
  {
    WildChildOk(node);
    var r := node.(children := [c]);
    AddsMoved(node, r, 0, 0, q, h);
  }

  lemma GrowParam(node: Node, c: Node, q: string, h: Handler)
    requires WellFormed(node) && node.typ == Param && |node.children| == 1
    requires c.typ == Static && WellFormed(c) && FirstOk(c, '/') && Adds(node.children[0], c, q, h)
    ensures Grown(node, node.(children := [c]), node.path + q, h)
  {
    var r := node.(children := [c]);
    AddsMoved(node, r, 0, 0, q, h);
  }

  lemma MovedDistinct(s: string, pos: nat, np: nat)
    requires np <= pos < |s| && Distinct(s) && Plain(s)
    ensures Distinct(Moved(s, pos, np)) && Plain(Moved(s, pos, np))
  {
    var r := Moved(s, pos, np);
    forall i, j | 0 <= i < j < |r| ensures r[i] != r[j] {
      var a := if i == np then pos else if np < i <= pos then i - 1 else i;
      var b := if j == np then pos else if np < j <= pos then j - 1 else j;
      assert r[i] == s[a] && r[j] == s[b] && a != b;
    }
  }

  /** Growing an indexed child that also moves forward. */
  lemma GrowIndexed(node: Node, pos: nat, np: nat, c: Node, q: string, h: Handler)
    requires WellFormed(node) && !node.wild && node.typ != Param && np <= pos < |node.children| == |node.indices|
    requires (c.typ == Static || IsCatchHead(c)) && WellFormed(c) && FirstOk(c, node.indices[pos])
    requires Adds(node.children[pos], c, q, h)
    requires node.path == "" && node.typ != Root ==> |node.indices| == 1
    ensures var r := node.(children := Moved(node.children[pos := c], pos, np), indices := Moved(node.indices, pos, np));
            Grown(node, r, node.path + q, h)
  {
    assert BranchOk(node);
    var kids := node.children[pos := c];
    var r := node.(children := Moved(kids, pos, np), indices := Moved(node.indices, pos, np));
    MovedDistinct(node.indices, pos, np);
    forall j | 0 <= j < |r.children|
      ensures (r.children[j].typ == Static || IsCatchHead(r.children[j])) && FirstOk(r.children[j], r.indices[j]) && WellFormed(r.children[j])
    {
      var o := if j == np then pos else if np < j <= pos then j - 1 else j;
      assert r.children[j] == kids[o] && r.indices[j] == node.indices[o];
      if o != pos {
        ChildOk(node, o);
      }
    }
    assert BranchOk(r);
    assert |node.indices| == 1 ==> r.indices == node.indices;
    AddsMoved(node, r, pos, np, q, h);
  }

  lemma AppendDistinct(s: string, c: char)
    requires Distinct(s) && Plain(s) && c !in s && !Wildcard(c)
    ensures Distinct(s + [c]) && Plain(s + [c])
  {
    forall i, j | 0 <= i < j < |s + [c]| ensures (s + [c])[i] != (s + [c])[j] {
      assert (s + [c])[i] in s;
    }
  }

  /** A new child for a byte that no child starts with yet. */
  lemma GrowNew(node: Node, np: nat, c: Node, b: char, q: string, h: Handler)
    requires WellFormed(node) && !node.wild && (node.path != "" || node.typ == Root) && np <= |node.children| == |node.indices|
    requires b !in node.indices && !Wildcard(b)
    requires node.typ == Param || node.typ == CatchAll ==> b == '/' && node.children == []
    requires c.typ == Static && WellFormed(c) && FirstOk(c, b) && Only(c, q, h)
    ensures var k := |node.children|;
            var r := node.(children := Moved(node.children + [c], k, np), indices := Moved(node.indices + [b], k, np));
            Grown(node, r, node.path + q, h)
  {
    var k := |node.children|;
    var r := node.(children := Moved(node.children + [c], k, np), indices := Moved(node.indices + [b], k, np));
    NewWellFormed(node, r, np, c, b);
    MovedMinus(node.children, c, np);
    AddsByChild(node, r, np, q, h);
  }

  lemma NewWellFormed(node: Node, r: Node, np: nat, c: Node, b: char)
    requires WellFormed(node) && !node.wild && np <= |node.children| == |node.indices|
    requires b !in node.indices && !Wildcard(b)
    requires node.typ == Param || node.typ == CatchAll ==> b == '/' && node.children == []
    requires c.typ == Static && WellFormed(c) && FirstOk(c, b)
    requires r == node.(children := Moved(node.children + [c], |node.children|, np),
                        indices := Moved(node.indices + [b], |node.children|, np))
    ensures WellFormed(r)
  {
    if node.children == [] {
      assert r.children == [c] && r.indices == [b];
    }
    if node.typ != Param {
      assert BranchOk(node);
      NewBranch(node, r, np, c, b);
    }
  }

  lemma MovedMinus<T>(s: seq<T>, x: T, np: nat)
    requires np <= |s|
    ensures var r := Moved(s + [x], |s|, np); r[np] == x && r[..np] + r[np + 1..] == s
  {
  }

  lemma NewBranch(node: Node, r: Node, np: nat, c: Node, b: char)
    requires BranchOk(node) && np <= |node.children| && b !in node.indices && !Wildcard(b)
    requires c.typ == Static && WellFormed(c) && FirstOk(c, b)
    requires r.children == Moved(node.children + [c], |node.children|, np)
    requires r.indices == Moved(node.indices + [b], |node.children|, np)
    ensures BranchOk(r)
  {
    var k := |node.children|;
    AppendDistinct(node.indices, b);
    MovedDistinct(node.indices + [b], k, np);
    forall j | 0 <= j < |r.children|
      ensures (r.children[j].typ == Static || IsCatchHead(r.children[j])) && FirstOk(r.children[j], r.indices[j]) && WellFormed(r.children[j])
    {
      var o := if j == np then k else if np < j <= k then j - 1 else j;
      assert r.children[j] == (node.children + [c])[o] && r.indices[j] == (node.indices + [b])[o];
      assert o < k ==> (node.children + [c])[o] == node.children[o];
    }
  }

  lemma SetHandler(node: Node, h: Handler)
    requires WellFormed(node) && node.handler == None && node.path != ""
    ensures var r := node.(handler := Some(h)); WellFormed(r) && Adds(node, r, node.path, h)
  {
    var r := node.(handler := Some(h));
    if node.typ != Param && !node.wild {
      assert BranchOk(node);
      assert BranchOk(r);
    }
    forall p, g ensures HasRoute(r, p, g) <==> HasRoute(node, p, g) || (p == node.path && g == h) {
      if node.path <= p {
        assert ChildRoute(r, p[|node.path|..], g) <==> ChildRoute(node, p[|node.path|..], g);
      }
    }
  }

  // ----- adding -----

  /** The length of the longest common prefix. */
  method CommonPrefix(s: string, t: string) returns (i: nat)
    ensures i <= |s| && i <= |t| && s[..i] == t[..i]
    ensures i < |s| && i < |t| ==> s[i] != t[i]
  {
    i := 0;
    while i < |s| && i < |t| && s[i] == t[i]
      invariant i <= |s| && i <= |t| && s[..i] == t[..i]
    {
      i := i + 1;
    }
  }

  /** The number of wildcards still to come, as the code counts them: a wildcard node's own
      wildcard has been counted off before the node is entered. */
  predicate Counted(node: Node, path: string, numParams: nat)
  {
    numParams + CountWild(node.path) == CountWild(path)
  }

  /** Add `path` at or below `node`, whose priority has become `priority`. */
  method AddAt(node: Node, priority: int, path: string, numParams: nat, handler: Handler) returns (ok: bool, r: Node)
    requires WellFormed(node) && Compat(node, path) && Counted(node, path, numParams) && Populated(node)
    ensures !ok ==> Refused(node, path)
    ensures ok ==> New(node, path) && Acceptable(node, path) && Populated(r)
    ensures ok ==> WellFormed(r) && r.typ == node.typ && r.priority == priority && Adds(node, r, path, handler)
    ensures ok && node.typ == CatchAll ==> r.wild == node.wild
    ensures ok && node.typ != Root && FirstOk(node, path[0]) ==> FirstOk(r, path[0])
    decreases node, 1
  {
    hide Refused;
    hide New;
    hide Acceptable;
    hide HasRoute;
    hide WellFormed;
    hide SameRoutes;
    hide Adds;
    hide Counted;
    hide Grown;
    hide FirstOk;
    var i := CommonPrefix(node.path, path);
    var here := node.(priority := priority);
    SamePriority(node, priority);
    if i < |node.path| {
      WholeWild(node, path, i);
      SplitOk(node, priority, i);
      SplitSame(node, priority, i);
      here := Split(node, priority, i);
    }
    assert Populated(here);
    assert here.path == path[..i];
    if i == |path| {
      assert here.path == path;
      if here.handler != None {
        TakenHere(here);
        SameAnswers(node, here, path);
        return false, node;
      }
      NewHere(here);
      AcceptOwn(here);
      SameAnswers(node, here, path);
      SetHandler(here, handler);
      AddsSame(node, here, here.(handler := Some(handler)), path, handler);
      return true, here.(handler := Some(handler));
    }
    assert here.path + path[i..] == path;
    CountRest(node, path, i, numParams);
    if i < |node.path| {
      ok, r := AddNew(here, path[i..], numParams, handler);
    } else {
      ok, r := AddBelow(node, here, path[i..], numParams, handler);
    }
    SameAnswers(node, here, path);
    if ok {
      GrownSame(node, here, r, path, handler);
    }
  }

  /** Trees with the same routes refuse the same paths. */
  lemma SameAnswers(t: Node, u: Node, path: string)
    requires SameRoutes(t, u)
    ensures Refused(t, path) <==> Refused(u, path)
    ensures New(t, path) <==> New(u, path)
    ensures Acceptable(t, path) <==> Acceptable(u, path)
  {
    hide HasRoute;
    hide Clash;
    hide Good;
    hide CatchAllEnd;
    hide GoesOn;
    if Passes(t, path) {
      var c, h :| HasRoute(t, c, h) && CatchAllEnd(c) && GoesOn(c, path);
      assert HasRoute(u, c, h);
    }
    if Passes(u, path) {
      var c, h :| HasRoute(u, c, h) && CatchAllEnd(c) && GoesOn(c, path);
      assert HasRoute(t, c, h);
    }
    if Clashes(t, path) {
      var q, g :| HasRoute(t, q, g) && Clash(path, q);
      assert HasRoute(u, q, g);
    }
    if Clashes(u, path) {
      var q, g :| HasRoute(u, q, g) && Clash(path, q);
      assert HasRoute(t, q, g);
    }
  }

  lemma AddsSame(t: Node, u: Node, r: Node, path: string, h: Handler)
    requires SameRoutes(t, u) && Adds(u, r, path, h) && r.path == path != ""
    ensures Adds(t, r, path, h) && FirstOk(r, path[0])
  {
    hide HasRoute;
  }

  lemma TakenHere(t: Node)
    requires t.handler.Some?
    ensures Refused(t, t.path)
  {
    assert HasRoute(t, t.path, t.handler.value);
  }

  lemma GrownSame(node: Node, here: Node, r: Node, path: string, h: Handler)
    requires Grown(here, r, path, h) && SameRoutes(node, here) && path != "" && here.typ == node.typ
    requires node.path == here.path ==> here == node.(priority := here.priority)
    requires node.path != here.path ==> here.path <= node.path && (node.typ != Root ==> here.path != "")
    ensures Adds(node, r, path, h)
    ensures node.typ != Root && FirstOk(node, path[0]) ==> FirstOk(r, path[0])
  {
    if node.typ != Root && FirstOk(node, path[0]) {
      GrownFirst(here, r, path, h, path[0]);
    }
  }

  lemma SamePriority(node: Node, priority: int)
    requires WellFormed(node)
    ensures var u := node.(priority := priority); WellFormed(u) && SameRoutes(node, u)
  {
    var u := node.(priority := priority);
    if node.typ != Param && !node.wild {
      assert BranchOk(node);
      assert BranchOk(u);
    }
    forall p, g ensures HasRoute(node, p, g) <==> HasRoute(u, p, g) {
      if node.path <= p {
        assert ChildRoute(u, p[|node.path|..], g) <==> ChildRoute(node, p[|node.path|..], g);
      }
    }
  }

  /** Only static nodes are ever split. */
  lemma WholeWild(node: Node, path: string, i: nat)
    requires WellFormed(node) && Compat(node, path) && i < |node.path| && i <= |path| && node.path[..i] == path[..i]
    requires i < |path| ==> node.path[i] != path[i]
    ensures IsStatic(node) && (node.typ == Static ==> i > 0)
  {
  }

  lemma CountRest(node: Node, path: string, i: nat, numParams: nat)
    requires WellFormed(node) && Compat(node, path) && Counted(node, path, numParams)
    requires i <= |node.path| && i <= |path| && node.path[..i] == path[..i] && (i < |node.path| ==> IsStatic(node))
    ensures numParams == CountWild(path[i..])
  {
    assert path == path[..i] + path[i..];
    CountAppend(path[..i], path[i..]);
    if i < |node.path| {
      CountPlain(node.path);
      CountPlain(path[..i]);
      forall k | 0 <= k < i ensures !Wildcard(path[..i][k]) {
        assert node.path[..i][k] == node.path[k];
      }
    } else {
      assert node.path[..i] == node.path;
    }
  }

  /** A node's own path is no pattern if it has no handler. */
  lemma NewHere(t: Node)
    requires WellFormed(t) && t.handler == None
    ensures New(t, t.path)
  {
    forall g ensures !HasRoute(t, t.path, g) {
      if ChildRoute(t, t.path[|t.path|..], g) {
        RestStart(t, t.path[|t.path|..], g);
      }
    }
  }

  /** No pattern goes on with a byte that no child starts with. */
  lemma NewBeside(t: Node, rest: string)
    requires WellFormed(t) && !t.wild && rest != "" && rest[0] !in t.indices && (t.typ == Param ==> t.children == [])
    ensures New(t, t.path + rest)
  {
    assert (t.path + rest)[|t.path|..] == rest;
    forall g ensures !HasRoute(t, t.path + rest, g) {
      if ChildRoute(t, rest, g) {
        RestStart(t, rest, g);
      }
    }
  }

  /** Only the child that is gone down to can have the pattern. */
  lemma NewUp(t: Node, i: nat, rest: string)
    requires WellFormed(t) && i < |t.children| && New(t.children[i], rest) && rest != ""
    requires |t.children| == 1 || (!t.wild && t.typ != Param && i < |t.indices| && t.indices[i] == rest[0])
    ensures New(t, t.path + rest)
  {
    assert (t.path + rest)[|t.path|..] == rest;
    forall g ensures !HasRoute(t, t.path + rest, g) {
      if ChildRoute(t, rest, g) {
        var j :| 0 <= j < |t.children| && HasRoute(t.children[j], rest, g);
        if j != i {
          assert BranchOk(t);
          RouteStart(t.children[j], rest, g, t.indices[j]);
        }
      }
    }
  }

  /** Why a wildcard could not be put below a node. */
  lemma NoWildcard(t: Node, rest: string)
    requires WellFormed(t) && Populated(t) && !t.wild && t.typ != Param
    requires rest != "" && Wildcard(rest[0]) && rest[0] !in t.indices
    requires !(Good(rest) && (Plain(rest) || t.children == []))
    ensures Refused(t, t.path + rest)
  {
    if t.children != [] {
      WildNextToChildren(t, rest);
    } else if rest[0] == '*' {
      StarAtEnd(t, rest);
    } else if Acceptable(t, t.path + rest) {
      AcceptBeside(t, rest);
    }
  }

  /** Leave the node through a byte that no child starts with, or through a new wildcard. */
  method AddNew(node: Node, rest: string, numParams: nat, handler: Handler) returns (ok: bool, r: Node)
    requires WellFormed(node) && Populated(node) && !node.wild
    requires rest != "" && rest[0] !in node.indices && numParams == CountWild(rest)
    requires node.path != "" || (node.typ == Root && node.children != [])
    requires node.typ == Param ==> rest[0] == '/' && node.children == []
    requires node.typ == CatchAll ==> rest[0] == '/'
    ensures !ok ==> Refused(node, node.path + rest)
    ensures ok ==> New(node, node.path + rest) && Acceptable(node, node.path + rest) && Populated(r)
    ensures ok ==> Grown(node, r, node.path + rest, handler)
  {
    NewBeside(node, rest);
    if Wildcard(rest[0]) {
      ok, r := ChildInsert(node, numParams, rest, handler);
      if !ok {
        NoWildcard(node, rest);
      } else {
        AcceptHere(node, rest);
      }
    } else {
      if node.typ != Param {
        assert BranchOk(node);
      }
      ok, r := AddLeaf(node, rest, numParams, handler);
    }
  }

  method AddLeaf(node: Node, rest: string, numParams: nat, handler: Handler) returns (ok: bool, r: Node)
    requires WellFormed(node) && Populated(node) && !node.wild
    requires (node.path != "" || node.typ == Root) && |node.children| == |node.indices|
    requires rest != "" && rest[0] !in node.indices && numParams == CountWild(rest) && !Wildcard(rest[0])
    requires node.typ == Param || node.typ == CatchAll ==> rest[0] == '/' && node.children == []
    ensures !ok ==> Refused(node, node.path + rest)
    ensures ok ==> New(node, node.path + rest) && Acceptable(node, node.path + rest) && Populated(r)
    ensures ok ==> Grown(node, r, node.path + rest, handler)
  {
    hide New;
    hide Acceptable;
    hide HasRoute;
    var k := |node.children|;
    var kids, index, np := ChildPriority(node.children + [NewNode(0)], node.indices + [rest[0]], k);
    var child;
    ok, child := LeafFor(kids[np], rest, numParams, handler);
    r := node.(children := kids[np := child], indices := index);
    if ok {
      AcceptHere(node, rest);
    } else if Acceptable(node, node.path + rest) {
      AcceptBeside(node, rest);
    }
    NewBeside(node, rest);
    if ok {
      GrowNew(node, np, child, rest[0], rest, handler);
      assert kids[np := child] == Moved(node.children + [child], k, np);
    }
  }

  method LeafFor(blank: Node, rest: string, numParams: nat, handler: Handler) returns (ok: bool, child: Node)
    requires blank == NewNode(blank.priority) && rest != "" && numParams == CountWild(rest) && !Wildcard(rest[0])
    ensures ok <==> Good(rest)
    ensures ok ==> child.typ == Static && WellFormed(child) && FirstOk(child, rest[0]) && Only(child, rest, handler)
    ensures ok ==> Populated(child)
  {
    assert BranchOk(blank);
    NoRoutes(blank);
    ok, child := ChildInsert(blank, numParams, rest, handler);
    assert "" + rest == rest;
  }

  lemma NotBlank(t: Node, c: char)
    requires WellFormed(t) && FirstOk(t, c)
    ensures t.path != "" || t.children != []
  {
    if t.path == "" && t.typ != CatchAll {
      assert BranchOk(t);
    }
  }

  lemma StaticCount(t: Node, rest: string, numParams: nat)
    requires WellFormed(t) && (t.typ == Static || IsCatchHead(t)) && numParams == CountWild(rest)
    ensures Counted(t, rest, numParams)
  {
    CountPlain(t.path);
  }

  /** Go down to the child that the rest of the path leads to, or make one. */
  method AddBelow(node: Node, here: Node, rest: string, numParams: nat, handler: Handler) returns (ok: bool, r: Node)
    requires WellFormed(node) && Populated(node) && WellFormed(here) && here == node.(priority := here.priority)
    requires rest != "" && numParams == CountWild(rest) && Compat(node, node.path + rest)
    ensures !ok ==> Refused(here, here.path + rest)
    ensures ok ==> New(here, here.path + rest) && Acceptable(here, here.path + rest) && Populated(r)
    ensures ok ==> Grown(here, r, here.path + rest, handler)
    decreases node, 0
  {
    assert (node.path + rest)[|node.path|..] == rest;
    if node.wild {
      ok, r := AddWild(node, here, rest, numParams, handler);
    } else if rest[0] == '/' && |node.children| == 1 && node.typ == Param {
      ok, r := AddSlash(node, here, rest, numParams, handler);
    } else {
      var j := ScanIndices(node.indices, rest[0]);
      if j < |node.indices| {
        ok, r := AddIndexed(node, here, rest, numParams, handler, j);
      } else {
        if node.typ != Param {
          assert BranchOk(node);
        }
        ok, r := AddNew(here, rest, numParams, handler);
      }
    }
  }

  method AddSlash(node: Node, here: Node, rest: string, numParams: nat, handler: Handler) returns (ok: bool, r: Node)
    requires WellFormed(node) && Populated(node) && WellFormed(here) && here == node.(priority := here.priority)
    requires rest != "" && rest[0] == '/' && numParams == CountWild(rest) && node.typ == Param && |node.children| == 1
    ensures !ok ==> Refused(here, here.path + rest)
    ensures ok ==> New(here, here.path + rest) && Acceptable(here, here.path + rest) && Populated(r)
    ensures ok ==> Grown(here, r, here.path + rest, handler)
    decreases node, 0, 0
  {
    hide Refused;
    hide New;
    hide Acceptable;
    hide HasRoute;
    NotBlank(node.children[0], '/');
    StaticCount(node.children[0], rest, numParams);
    var child;
    ok, child := AddAt(node.children[0], node.children[0].priority + 1, rest, numParams, handler);
    if ok {
      GrowParam(here, child, rest, handler);
      NewUp(here, 0, rest);
      AcceptUp(here, 0, rest);
    } else {
      RefusedUp(here, 0, rest);
    }
    r := here.(children := [child]);
  }

  method AddIndexed(node: Node, here: Node, rest: string, numParams: nat, handler: Handler, j: nat) returns (ok: bool, r: Node)
    requires WellFormed(node) && Populated(node) && WellFormed(here) && here == node.(priority := here.priority) && !node.wild && node.typ != Param
    requires rest != "" && numParams == CountWild(rest) && j < |node.indices| && node.indices[j] == rest[0]
    requires node.path == "" && node.typ != Root ==> |node.indices| == 1
    ensures !ok ==> Refused(here, here.path + rest)
    ensures ok ==> New(here, here.path + rest) && Acceptable(here, here.path + rest) && Populated(r)
    ensures ok ==> Grown(here, r, here.path + rest, handler)
    decreases node, 0, 0
  {
    hide Refused;
    hide New;
    hide Acceptable;
    hide HasRoute;
    hide Grown;
    hide Adds;
    hide Moved;
    assert BranchOk(node);
    ChildOk(node, j);
    NotBlank(node.children[j], rest[0]);
    StaticCount(node.children[j], rest, numParams);
    var kids, index, np := ChildPriority(node.children, node.indices, j);
    var child;
    ok, child := AddAt(node.children[j], kids[np].priority, rest, numParams, handler);
    if ok {
      GrowIndexed(here, j, np, child, rest, handler);
      NewUp(here, j, rest);
      AcceptUp(here, j, rest);
    } else {
      RefusedUp(here, j, rest);
    }
    r := here.(children := kids[np := child], indices := index);
    MovedChild(node.children, kids, j, np, child, kids[np]);
    if ok {
      MovedPopulated(here, j, np, child, r);
    }
  }

  lemma MovedChild(children: seq<Node>, kids: seq<Node>, j: nat, np: nat, child: Node, bumped: Node)
    requires np <= j < |children| && kids == Moved(children[j := bumped], j, np)
    ensures kids[np := child] == Moved(children[j := child], j, np)
  {
  }

  lemma MovedPopulated(t: Node, j: nat, np: nat, child: Node, r: Node)
    requires Populated(t) && Populated(child) && np <= j < |t.children|
    requires r.handler == t.handler && r.typ == t.typ && r.wild == t.wild && r.children == Moved(t.children[j := child], j, np)
    ensures Populated(r)
  {
    forall i | 0 <= i < |r.children| ensures Populated(r.children[i]) {
      var o := if i == np then j else if np < i <= j then i - 1 else i;
      assert r.children[i] == t.children[j := child][o];
    }
  }

  /** Below a wildcard child the path must go on with the same wildcard. */
  method AddWild(node: Node, here: Node, rest: string, numParams: nat, handler: Handler) returns (ok: bool, r: Node)
    requires WellFormed(node) && Populated(node) && WellFormed(here) && here == node.(priority := here.priority) && node.wild
    requires rest != "" && numParams == CountWild(rest) && (node.typ == CatchAll ==> rest[0] == '/')
    ensures !ok ==> Refused(here, here.path + rest)
    ensures ok ==> New(here, here.path + rest) && Acceptable(here, here.path + rest) && Populated(r)
    ensures ok ==> Grown(here, r, here.path + rest, handler)
    decreases node, 0, 0
  {
    hide New;
    hide Acceptable;
    hide HasRoute;
    WildChildOk(node);
    var w := node.children[0];
    if !(|rest| >= |w.path| && w.path <= rest && (|w.path| >= |rest| || rest[|w.path|] == '/')) {
      OtherWild(here, rest);
      return false, here;
    }
    OneWildcard(w);
    assert rest == w.path + rest[|w.path|..];
    CountAppend(w.path, rest[|w.path|..]);
    var child;
    ok, child := AddAt(w, w.priority + 1, rest, numParams - 1, handler);
    if ok {
      GrowWild(here, child, rest, handler);
      NewUp(here, 0, rest);
      AcceptUp(here, 0, rest);
    } else {
      RefusedUp(here, 0, rest);
    }
    r := here.(children := [child]);
  }

  lemma OneWildcard(w: Node)
    requires WellFormed(w) && (w.typ == Param || (w.typ == CatchAll && !w.wild))
    ensures CountWild(w.path) == 1
  {
    var k := if w.typ == Param then 1 else 2;
    assert w.path == w.path[..k] + w.path[k..];
    CountAppend(w.path[..k], w.path[k..]);
    CountPlain(w.path[k..]);
    assert w.path[..k] == if k == 1 then [':'] else ['/', '*'];
    assert CountWild([':']) == 1 && CountWild(['*']) == 1 && ['/', '*'][1..] == ['*'];
  }

  lemma RootFilled(t: Node, path: string, h: Handler)
    requires HasRoute(t, path, h) && path != ""
    ensures t.path != "" || t.children != []
  {
    if t.path == "" {
      assert ChildRoute(t, path[0..], h);
    }
  }

  /** No registered pattern equals this one or clashes with it. */
  ghost predicate Open(routes: set<(string, Handler)>, path: string)
  {
    forall q: string, g: Handler :: (q, g) in routes ==> q != path && !Clash(path, q)
  }

  /** The pattern is well made, or goes on behind a registered catch-all with a well-made rest. */
  ghost predicate Made(routes: set<(string, Handler)>, path: string)
  {
    Good(path) || exists c: string, h: Handler :: (c, h) in routes && CatchAllEnd(c) && GoesOn(c, path)
  }

  /** A new route leaves no clash behind. */
  lemma NoneClashes(t: Node, r: Node, path: string, h: Handler)
    requires WellFormed(r) && Adds(t, r, path, h) && New(t, path)
    ensures !Clashes(t, path)
  {
    hide HasRoute;
    hide Clash;
    forall q, g | HasRoute(t, q, g) ensures !Clash(path, q) {
      assert HasRoute(r, path, h) && HasRoute(r, q, g);
      NoClash(r, path, h, q, g);
    }
  }

  /** What the tree says about a path, said about its routes. */
  lemma RoutesAnswer(t: Node, routes: set<(string, Handler)>, path: string)
    requires forall p: string, h: Handler :: HasRoute(t, p, h) <==> (p, h) in routes
    ensures Refused(t, path) <==> !(Open(routes, path) && Made(routes, path))
  {
    hide HasRoute;
    hide Clash;
    hide Good;
    hide CatchAllEnd;
    hide GoesOn;
    assert Made(routes, path) <==> Acceptable(t, path) by {
      if Passes(t, path) {
        var c, h: Handler :| HasRoute(t, c, h) && CatchAllEnd(c) && GoesOn(c, path);
        assert (c, h) in routes;
      }
      if c: string, h: Handler :| (c, h) in routes && CatchAllEnd(c) && GoesOn(c, path) {
        assert HasRoute(t, c, h);
      }
    }
    if Clashes(t, path) {
      var q, g: Handler :| HasRoute(t, q, g) && Clash(path, q);
      assert (q, g) in routes;
    }
  }

  lemma MadeMatchesNothing(routes: set<(string, Handler)>, path: string)
    requires Made(routes, path) && !Good(path)
    ensures forall p :: Match(path, p).None?
  {
    var c: string, h: Handler :| (c, h) in routes && CatchAllEnd(c) && GoesOn(c, path);
    forall p ensures Match(path, p).None? {
      PassedMatchesNothing(c, path, p);
    }
  }

  predicate Blank(t: Node) { t.path == "" && t.children == [] }

  /** An empty tree refuses exactly the patterns that are not well made. */
  lemma BlankAnswer(t: Node, path: string)
    requires Blank(t) && t.handler == None
    ensures Refused(t, path) <==> !Good(path)
  {
    NoRoutes(t);
  }

  /** `pgrest_rtree_add` on the whole tree. */
  method AddRoute(root: Node, path: string, handler: Handler) returns (ok: bool, r: Node)
    requires WellFormed(root) && IsStatic(root) && path != "" && CountWild(path) < 255
    requires if Blank(root) then root.handler == None && !root.wild else root.typ == Root && Populated(root)
    ensures ok <==> !Refused(root, path)
    ensures ok ==> WellFormed(r) && r.typ == Root && Populated(r) && !Blank(r) && Adds(root, r, path, handler)
  {
    hide Refused;
    var numParams := CountParams(path);
    if Blank(root) {
      BlankAnswer(root, path);
      var first := root.(typ := Root, priority := root.priority + 1);
      assert BranchOk(root) && BranchOk(first);
      NoRoutes(root);
      NoRoutes(first);
      ok, r := ChildInsert(first, numParams, path, handler);
      assert first.path + path == path;
    } else {
      CountPlain(root.path);
      ok, r := AddAt(root, root.priority + 1, path, numParams, handler);
      if ok {
        NoneClashes(root, r, path, handler);
        NotRefused(root, path);
      }
    }
    if ok {
      assert HasRoute(r, path, handler);
      RootFilled(r, path, handler);
    }
  }

  lemma NotRefused(t: Node, path: string)
    requires New(t, path) && !Clashes(t, path) && Acceptable(t, path)
    ensures !Refused(t, path)
  {
  }

  /** The router: the tree, changed in place by `Add`, and the routes it holds. */
  class RouteTable {
    var root: Node
    ghost var routes: set<(string, Handler)>

    ghost predicate Valid()
      reads this
    {
      && WellFormed(root) && IsStatic(root)
      && (if Blank(root) then root.handler == None && !root.wild else root.typ == Root && Populated(root))
      && forall p: string, h: Handler :: HasRoute(root, p, h) <==> (p, h) in routes
    }

    constructor ()
      ensures Valid() && routes == {}
    {
      root := EMPTY_ROOT;
      routes := {};
      new;
      assert BranchOk(root);
      NoRoutes(root);
    }

    /** `pgrest_rtree_add`. Success registers exactly this route; on failure the configuration
        is abandoned, so the tree is left as it was. A pattern is accepted exactly when no registered
        pattern equals it or clashes with it and it is well made, or goes on behind a registered
        catch-all with a well-made rest; in the last case it can match nothing. */
    method Add(path: string, handler: Handler) returns (ok: bool)
      requires Valid() && path != "" && CountWild(path) < 255
      modifies this
      ensures Valid()
      ensures routes == if ok then old(routes) + {(path, handler)} else old(routes)
      ensures ok <==> Open(old(routes), path) && Made(old(routes), path)
      ensures ok && !Good(path) ==> forall p :: Match(path, p).None?
    {
      hide Refused;
      hide Match;
      RoutesAnswer(root, routes, path);
      var r;
      ok, r := AddRoute(root, path, handler);
      if ok {
        if !Good(path) {
          MadeMatchesNothing(routes, path);
        }
        root := r;
        routes := routes + {(path, handler)};
      }
      forall p: string, h: Handler ensures HasRoute(root, p, h) <==> (p, h) in routes {
      }
    }

    /** `pgrest_rtree_find`: a handler with its bindings is found exactly when a registered
        pattern with that handler matches the path and its parameters fit. */
    method Find(path: string, room: nat) returns (handler: Option<Handler>, params: Params)
      requires Valid()
      ensures handler.Some? ==> |params| <= room && exists p :: (p, handler.value) in routes && Match(p, path) == Some(params)
      ensures forall p: string, h: Handler :: (p, h) in routes && Match(p, path).Some? && |Match(p, path).value| <= room ==>
                handler == Some(h) && params == Match(p, path).value
    {
      var found, h, ps := Locate(root, path, room);
      handler, params := if found then h else None, ps;
      FindSound(root, path, room);
      forall p, g | (p, g) in routes && Match(p, path).Some? && |Match(p, path).value| <= room
        ensures handler == Some(g) && params == Match(p, path).value
      {
        FindComplete(root, path, room, p, g, Match(p, path).value);
      }
    }
  }

  /** A pattern that goes on behind a registered catch-all is accepted. */
  method BehindCatchAll() returns (first: bool, second: bool)
    ensures first && second
  {
    hide Open;
    hide Made;
    hide Match;
    hide Good;
    hide RouteTable.Valid;
    var table := new RouteTable();
    StarAccepted("/src/*f");
    first := table.Add("/src/*f", 1);
    BehindAccepted("/src/*f", "/src/*f/x", 1);
    assert table.routes == {("/src/*f", 1)};
    second := table.Add("/src/*f/x", 2);
  }

  lemma StarAccepted(star: string)
    requires star == "/src/*f"
    ensures Open({}, star) && Made({}, star) && CountWild(star) < 255
  {
    var x, y := star[..4], star[4..];
    assert x + y == star && y == "/*f" && y[2..] == "f" && Plain(x);
    CatchAllText(y);
    GoodPrepend(x, y);
    CountAtMost(star);
  }

  lemma BehindAccepted(star: string, behind: string, h: Handler)
    requires star == "/src/*f" && behind == "/src/*f/x"
    ensures Open({(star, h)}, behind) && Made({(star, h)}, behind) && CountWild(behind) < 255
  {
    assert star[5] == '*' && star[4] == '/' && NoSlash(star, 5);
    assert behind[..7] == star && behind[7..] == "/x" && Plain("/x");
    GoodPlain("/x");
    CountAtMost(behind);
    forall m: nat ensures !ClashAt(behind, star, m) {
      assert forall j :: 0 <= j < 7 ==> behind[j] == behind[..7][j];
    }
  }

  lemma {:induction false} CountAtMost(s: string)
    ensures CountWild(s) <= |s|
  {
    if s != "" {
      CountAtMost(s[1..]);
    }
  }
}
