/** Lookup in the route tree agrees with matching against the flat list of patterns. */
module RouteFind {
  import opened Wrappers
  import opened RouteTree

  /** The outcome of a lookup. `route` is the pattern text met on the way down. */
  datatype Lookup = Miss | Hit(handler: Option<Handler>, params: Params, route: string)

  function Prepend(prefix: string, ps: Params, r: Lookup): Lookup
  {
    match r
    case Miss => Miss
    case Hit(h, qs, route) => Hit(h, ps + qs, prefix + route)
  }

  /** The position of byte `c` among the indices, or their length. */
  function IndexOf(s: string, c: char): (i: nat)
    ensures i <= |s| && (i < |s| ==> s[i] == c) && forall k :: 0 <= k < i ==> s[k] != c
    ensures i == |s| <==> c !in s
  {
    if s == "" || s[0] == c then 0 else 1 + IndexOf(s[1..], c)
  }

  /** Greedy descent with room for `room` more parameters. */
  function Find(t: Node, path: string, room: nat): (r: Lookup)
    requires WellFormed(t)
    decreases t
  {
    if |path| > |t.path| && t.path <= path then
      var rest := path[|t.path|..];
      if !t.wild then
        var i := IndexOf(t.indices, rest[0]);
        if i < |t.indices| && i < |t.children| then
          ChildOk(t, i);
          Prepend(t.path, [], Find(t.children[i], rest, room))
        else Miss
      else if room == 0 then Miss
      else
        WildChildOk(t);
        var w := t.children[0];
        if w.typ == CatchAll then
          Hit(w.handler, [(w.path[2..], rest)], t.path + w.path)
        else
          var end := SegmentEnd(rest, 0);
          var p := [(w.path[1..], rest[..end])];
          if end == |rest| then Hit(w.handler, p, t.path + w.path)
          else if |w.children| == 0 then Miss
          else Prepend(t.path + w.path, p, Find(w.children[0], rest[end..], room - 1))
    else if path == t.path then Hit(t.handler, [], t.path)
    else Miss
  }

  // ----- patterns under a node -----

  /** A pattern below a node is empty only at a node with an empty path, and otherwise starts
      with the byte the node is indexed by. */
  lemma RouteStart(t: Node, pat: string, h: Handler, c: char)
    requires WellFormed(t) && HasRoute(t, pat, h) && FirstOk(t, c)
    ensures pat != "" && pat[0] == c
  {
    if t.path == "" {
      assert pat[0..] == pat;
      assert ChildRoute(t, pat, h);
      var i :| 0 <= i < |t.children| && HasRoute(t.children[i], pat, h);
      if t.typ == CatchAll {
        assert t.children[0].path <= pat;
      } else {
        RouteStart(t.children[i], pat, h, t.indices[i]);
      }
    }
  }

  /** Skipping plain bytes that do not run into a catch-all. */
  lemma {:induction false} MatchPlain(s: string, pat: string, path: string)
    requires Plain(s) && (pat != "" ==> pat[0] != '*')
    ensures Match(s + pat, path) == if s <= path then Match(pat, path[|s|..]) else None
  {
    if s == "" {
      assert s + pat == pat && path[0..] == path;
    } else {
      assert (s + pat)[1..] == s[1..] + pat && (s + pat)[0] == s[0];
      assert !CatchAllAt(s + pat) by {
        if |s| >= 2 {
          assert (s + pat)[1] == s[1];
        } else if pat != "" {
          assert (s + pat)[1] == pat[0];
        }
      }
      if path != "" && path[0] == s[0] {
        MatchPlain(s[1..], pat, path[1..]);
        assert s <= path <==> s[1..] <= path[1..];
        if s <= path {
          assert path[1..][|s[1..]|..] == path[|s|..];
        }
      }
    }
  }

  lemma SegmentEndIs(s: string, i: nat, e: nat)
    requires i <= e <= |s| && (e < |s| ==> s[e] == '/') && forall k :: i <= k < e ==> s[k] != '/'
    ensures SegmentEnd(s, i) == e
  {
  }

  lemma MatchParam(w: string, rest: string, path: string)
    requires |w| >= 2 && w[0] == ':' && NameOk(w[1..]) && (rest != "" ==> rest[0] == '/')
    ensures Match(w + rest, path) ==
              if path == "" then None else
                var v := SegmentEnd(path, 0);
                match Match(rest, path[v..])
                case None => None
                case Some(ps) => Some([(w[1..], path[..v])] + ps)
  {
    assert forall k :: 1 <= k < |w| ==> (w + rest)[k] == w[1..][k - 1];
    SegmentEndIs(w + rest, 1, |w|);
    assert (w + rest)[|w|..] == rest && (w + rest)[1..|w|] == w[1..];
  }

  lemma MatchCatchAll(w: string, rest: string, path: string)
    requires |w| >= 3 && CatchAllAt(w) && NameOk(w[2..]) && (rest != "" ==> rest[0] == '/')
    ensures Match(w + rest, path) ==
              if path != "" && path[0] == '/' && rest == "" then Some([(w[2..], path)]) else None
  {
    var s := w + rest;
    assert forall k :: 2 <= k < |w| ==> s[k] == w[2..][k - 2];
    if rest == "" {
      assert s == w;
    } else {
      assert s[|w|] == '/';
    }
  }

  /** What the part of a pattern after a node's own path can start with. */
  lemma RestStart(t: Node, rest: string, h: Handler)
    requires WellFormed(t) && ChildRoute(t, rest, h)
    ensures rest != "" && rest[0] != '*'
    ensures t.wild && t.typ != CatchAll ==> rest[0] == ':'
    ensures t.wild && t.typ == CatchAll ==> rest[0] == '/'
    ensures t.typ == Param ==> rest[0] == '/'
    ensures !t.wild && t.typ != Param ==> rest[0] in t.indices
  {
    var i :| 0 <= i < |t.children| && HasRoute(t.children[i], rest, h);
    ChildOk(t, i);
    if t.typ == Param {
      RouteStart(t.children[0], rest, h, '/');
    } else if !t.wild {
      assert BranchOk(t);
      RouteStart(t.children[i], rest, h, t.indices[i]);
    } else {
      assert t.children[0].path <= rest;
    }
  }

  // ----- agreement -----

  /** The pattern with handler `h` matches the path with bindings `ps`. */
  ghost predicate Matches(t: Node, pat: string, h: Handler, path: string, ps: Params)
  {
    HasRoute(t, pat, h) && Match(pat, path) == Some(ps)
  }

  /** For the nodes a lookup stands on: static nodes and the empty node above a catch-all. */
  predicate Standing(t: Node) { IsStatic(t) || IsCatchHead(t) }

  /** A registered pattern that matches is what the lookup returns, unless there is too little
      room for its parameters. */
  lemma {:induction false} FindComplete(t: Node, path: string, room: nat, pat: string, h: Handler, ps: Params)
    requires WellFormed(t) && Standing(t) && Matches(t, pat, h, path, ps)
    ensures Find(t, path, room) == if |ps| <= room then Hit(Some(h), ps, pat) else Miss
    decreases t
  {
    var rest := pat[|t.path|..];
    assert pat == t.path + rest;
    if ChildRoute(t, rest, h) {
      RestStart(t, rest, h);
      MatchPlain(t.path, rest, path);
      var left := path[|t.path|..];
      if t.wild {
        FindWild(t, path, room, rest, h, ps);
      } else {
        FindBranch(t, path, room, rest, h, ps);
      }
    } else {
      assert rest == "";
      MatchPlain(t.path, "", path);
      assert path == t.path;
    }
  }

  lemma {:induction false} FindBranch(t: Node, path: string, room: nat, rest: string, h: Handler, ps: Params)
    requires WellFormed(t) && IsStatic(t) && !t.wild && ChildRoute(t, rest, h) && t.path <= path
    requires Match(rest, path[|t.path|..]) == Some(ps)
    ensures Find(t, path, room) == if |ps| <= room then Hit(Some(h), ps, t.path + rest) else Miss
    decreases t, 0
  {
    var left := path[|t.path|..];
    assert BranchOk(t);
    var i :| 0 <= i < |t.children| && HasRoute(t.children[i], rest, h);
    ChildOk(t, i);
    RouteStart(t.children[i], rest, h, t.indices[i]);
    assert left != "" && left[0] == rest[0];
    assert IndexOf(t.indices, left[0]) == i;
    FindComplete(t.children[i], left, room, rest, h, ps);
    assert [] + ps == ps;
  }

  lemma {:induction false} FindWild(t: Node, path: string, room: nat, rest: string, h: Handler, ps: Params)
    requires WellFormed(t) && Standing(t) && t.wild && ChildRoute(t, rest, h) && t.path <= path
    requires Match(rest, path[|t.path|..]) == Some(ps)
    ensures Find(t, path, room) == if |ps| <= room then Hit(Some(h), ps, t.path + rest) else Miss
    decreases t, 0
  {
    WildChildOk(t);
    var w := t.children[0];
    var tail := rest[|w.path|..];
    assert HasRoute(w, rest, h) && rest == w.path + tail;
    WildTail(w, tail, h);
    if IsCatchHead(t) {
      MatchCatchAll(w.path, tail, path[|t.path|..]);
      assert rest == w.path;
    } else {
      FindParam(t, path, room, w, tail, h, ps);
    }
  }

  lemma {:induction false} FindParam(t: Node, path: string, room: nat, w: Node, tail: string, h: Handler, ps: Params)
    requires WellFormed(t) && IsStatic(t) && t.wild && w == t.children[0] && t.path <= path
    requires if tail == "" then w.handler == Some(h) else ChildRoute(w, tail, h) && tail[0] == '/'
    requires Match(w.path + tail, path[|t.path|..]) == Some(ps)
    ensures Find(t, path, room) == if |ps| <= room then Hit(Some(h), ps, t.path + (w.path + tail)) else Miss
    decreases t, 0, 0
  {
    WildChildOk(t);
    var left := path[|t.path|..];
    MatchParam(w.path, tail, left);
    if tail != "" {
      FindThrough(t, path, room, w, tail, h, ps);
    } else {
      assert w.path + tail == w.path;
      assert left[SegmentEnd(left, 0)..] == "";
    }
  }

  lemma {:induction false} FindThrough(t: Node, path: string, room: nat, w: Node, tail: string, h: Handler, ps: Params)
    requires WellFormed(t) && IsStatic(t) && t.wild && w == t.children[0] && t.path <= path && |path| > |t.path|
    requires |w.path| >= 1 && ChildRoute(w, tail, h) && tail != "" && tail[0] == '/'
    requires var left := path[|t.path|..]; var v := SegmentEnd(left, 0);
             && ps != [] && ps[0] == (w.path[1..], left[..v]) && Match(tail, left[v..]) == Some(ps[1..])
    ensures Find(t, path, room) == if |ps| <= room then Hit(Some(h), ps, t.path + (w.path + tail)) else Miss
    decreases t, 0, 0, 0
  {
    WildChildOk(t);
    var left := path[|t.path|..];
    var v := SegmentEnd(left, 0);
    assert HasRoute(w.children[0], tail, h);
    assert left[v..] != "";
    if room > 0 {
      FindComplete(w.children[0], left[v..], room - 1, tail, h, ps[1..]);
      assert t.path + (w.path + tail) == (t.path + w.path) + tail;
      assert [ps[0]] + ps[1..] == ps;
    }
  }

  /** After a wildcard's own text a pattern ends there or goes on with a slash. */
  lemma WildTail(w: Node, tail: string, h: Handler)
    requires WellFormed(w) && (w.typ == Param || (w.typ == CatchAll && !w.wild)) && HasRoute(w, w.path + tail, h)
    ensures if tail == "" then w.handler == Some(h) else ChildRoute(w, tail, h) && tail[0] == '/'
  {
    assert (w.path + tail)[|w.path|..] == tail;
    if ChildRoute(w, tail, h) {
      RestStart(w, tail, h);
    }
  }

  /** What a lookup returns is a registered pattern that matches. */
  lemma {:induction false} FindSound(t: Node, path: string, room: nat)
    requires WellFormed(t) && Standing(t) && (IsCatchHead(t) ==> path != "" && path[0] == '/')
    ensures var r := Find(t, path, room);
            r.Hit? && r.handler.Some? ==> Matches(t, r.route, r.handler.value, path, r.params) && |r.params| <= room
    decreases t
  {
    var r := Find(t, path, room);
    if r.Hit? && r.handler.Some? {
      if path == t.path {
        MatchPlain(t.path, "", path);
        assert t.path + "" == t.path;
      } else if IsCatchHead(t) {
        SoundCatch(t, path, room);
      } else if t.wild {
        SoundWild(t, path, room);
      } else {
        var left := path[|t.path|..];
        var i := IndexOf(t.indices, left[0]);
        assert BranchOk(t);
        ChildOk(t, i);
        FindSound(t.children[i], left, room);
        var q := Find(t.children[i], left, room);
        SoundChild(t, i, path, q.route, r.handler.value, q.params);
        assert [] + q.params == q.params;
      }
    }
  }

  /** A match below a child is a match of the longer pattern. */
  lemma SoundChild(t: Node, i: nat, path: string, rest: string, h: Handler, ps: Params)
    requires WellFormed(t) && Standing(t) && i < |t.children| && t.path <= path
    requires HasRoute(t.children[i], rest, h) && Match(rest, path[|t.path|..]) == Some(ps)
    ensures Matches(t, t.path + rest, h, path, ps)
  {
    assert (t.path + rest)[|t.path|..] == rest;
    assert ChildRoute(t, rest, h);
    RestStart(t, rest, h);
    MatchPlain(t.path, rest, path);
  }

  lemma SoundCatch(t: Node, path: string, room: nat)
    requires WellFormed(t) && IsCatchHead(t) && path != "" && path[0] == '/'
    ensures var r := Find(t, path, room);
            r.Hit? && r.handler.Some? ==> Matches(t, r.route, r.handler.value, path, r.params) && |r.params| <= room
  {
    WildChildOk(t);
    var r := Find(t, path, room);
    if r.Hit? && r.handler.Some? {
      SoundEnd(t, path, r.handler.value);
    }
  }

  lemma {:induction false} SoundWild(t: Node, path: string, room: nat)
    requires WellFormed(t) && IsStatic(t) && t.wild && |path| > |t.path| && t.path <= path
    ensures var r := Find(t, path, room);
            r.Hit? && r.handler.Some? ==> Matches(t, r.route, r.handler.value, path, r.params) && |r.params| <= room
    decreases t, 0
  {
    WildChildOk(t);
    var left := path[|t.path|..];
    var v := SegmentEnd(left, 0);
    if v == |left| {
      var r := Find(t, path, room);
      if r.Hit? && r.handler.Some? {
        SoundEnd(t, path, r.handler.value);
        assert left[..|left|] == left;
      }
    } else if room > 0 && |t.children[0].children| > 0 {
      SoundThrough(t, path, room, left, v);
    }
  }

  /** Lookup that goes on behind a parameter. */
  lemma FindBelow(t: Node, path: string, room: nat, left: string, v: nat)
    requires WellFormed(t) && IsStatic(t) && t.wild && |path| > |t.path| && t.path <= path && room > 0
    requires left == path[|t.path|..] && v == SegmentEnd(left, 0) < |left|
    requires |t.children| == 1 && |t.children[0].children| > 0
    ensures var w := t.children[0];
            && |w.path| >= 1 && WellFormed(w.children[0])
            && Find(t, path, room) ==
                 Prepend(t.path + w.path, [(w.path[1..], left[..v])], Find(w.children[0], left[v..], room - 1))
  {
    WildChildOk(t);
  }

  lemma {:induction false} SoundThrough(t: Node, path: string, room: nat, left: string, v: nat)
    requires WellFormed(t) && IsStatic(t) && t.wild && |path| > |t.path| && t.path <= path && room > 0
    requires left == path[|t.path|..] && v == SegmentEnd(left, 0) < |left|
    requires |t.children| == 1 && |t.children[0].children| > 0
    ensures var r := Find(t, path, room);
            r.Hit? && r.handler.Some? ==> Matches(t, r.route, r.handler.value, path, r.params) && |r.params| <= room
    decreases t, 0, 0
  {
    hide Match;
    hide HasRoute;
    hide WellFormed;
    hide SegmentEnd;
    hide Find;
    WildChildOk(t);
    var w := t.children[0];
    var q := Find(w.children[0], left[v..], room - 1);
    FindBelow(t, path, room, left, v);
    FindSound(w.children[0], left[v..], room - 1);
    if q.Hit? && q.handler.Some? {
      SoundParam(t, path, q.route, q.handler.value, q.params);
      assert t.path + (w.path + q.route) == (t.path + w.path) + q.route;
    }
  }

  /** A wildcard that takes the rest of the path. */
  lemma SoundEnd(t: Node, path: string, h: Handler)
    requires WellFormed(t) && Standing(t) && t.wild && |path| > |t.path| && t.path <= path
    requires IsCatchHead(t) ==> path[0] == '/'
    requires |t.children| == 1 && t.children[0].handler == Some(h)
    requires var left := path[|t.path|..]; IsStatic(t) ==> SegmentEnd(left, 0) == |left|
    ensures var left := path[|t.path|..]; var w := t.children[0].path; var k := if IsStatic(t) then 1 else 2;
            |w| >= k && Matches(t, t.path + w, h, path, [(w[k..], left)])
  {
    WildChildOk(t);
    var left := path[|t.path|..];
    var w := t.children[0].path;
    assert w + "" == w;
    if IsStatic(t) {
      MatchParam(w, "", left);
      assert left[|left|..] == "" && left[..|left|] == left && [(w[1..], left)] + [] == [(w[1..], left)];
      SoundChild(t, 0, path, w, h, [(w[1..], left)]);
    } else {
      MatchCatchAll(w, "", left);
      SoundChild(t, 0, path, w, h, [(w[2..], left)]);
    }
  }

  /** A match behind a parameter is a match of the pattern with the parameter. */
  lemma SoundParam(t: Node, path: string, route: string, h: Handler, qs: Params)
    requires WellFormed(t) && IsStatic(t) && t.wild && |path| > |t.path| && t.path <= path
    requires |t.children| == 1 && |t.children[0].children| == 1 && HasRoute(t.children[0].children[0], route, h)
    requires var left := path[|t.path|..]; Match(route, left[SegmentEnd(left, 0)..]) == Some(qs)
    ensures var left := path[|t.path|..]; var w := t.children[0].path;
            |w| >= 1 && Matches(t, t.path + (w + route), h, path, [(w[1..], left[..SegmentEnd(left, 0)])] + qs)
  {
    WildChildOk(t);
    var w := t.children[0];
    RouteStart(w.children[0], route, h, '/');
    MatchParam(w.path, route, path[|t.path|..]);
    assert (w.path + route)[|w.path|..] == route;
    assert ChildRoute(w, route, h);
    var left := path[|t.path|..];
    SoundChild(t, 0, path, w.path + route, h, [(w.path[1..], left[..SegmentEnd(left, 0)])] + qs);
  }

  /** Lookup yields handler `h` with bindings `ps` exactly when a pattern registered with `h`
      matches the path with those bindings and there is room for them. */
  lemma FindExact(t: Node, path: string, room: nat, h: Handler, ps: Params)
    requires WellFormed(t) && IsStatic(t)
    ensures (exists pat :: Find(t, path, room) == Hit(Some(h), ps, pat))
       <==> (|ps| <= room && exists pat :: Matches(t, pat, h, path, ps))
  {
    FindSound(t, path, room);
    if |ps| <= room && exists pat :: Matches(t, pat, h, path, ps) {
      var pat :| Matches(t, pat, h, path, ps);
      FindComplete(t, path, room, pat, h, ps);
    }
  }

  /** No path matches two registered patterns, so greedy descent never has to come back. */
  lemma PatternsDisjoint(t: Node, path: string, p: string, g: Handler, ps: Params, q: string, h: Handler, qs: Params)
    requires WellFormed(t) && IsStatic(t) && Matches(t, p, g, path, ps) && Matches(t, q, h, path, qs)
    ensures p == q && g == h && ps == qs
  {
    var room := |ps| + |qs|;
    FindComplete(t, path, room, p, g, ps);
    FindComplete(t, path, room, q, h, qs);
  }

  /** Two trees with the same registered routes answer every lookup alike, whatever the order in
      which the routes were added. */
  lemma OrderIndependent(t: Node, u: Node, path: string, room: nat)
    requires WellFormed(t) && IsStatic(t) && WellFormed(u) && IsStatic(u)
    requires forall pat, h :: HasRoute(t, pat, h) <==> HasRoute(u, pat, h)
    ensures var r := Find(t, path, room); var s := Find(u, path, room);
            if r.Hit? && r.handler.Some? then r == s else !(s.Hit? && s.handler.Some?)
  {
    var r := Find(t, path, room);
    var s := Find(u, path, room);
    FindSound(t, path, room);
    FindSound(u, path, room);
    if r.Hit? && r.handler.Some? {
      FindComplete(u, path, room, r.route, r.handler.value, r.params);
    } else if s.Hit? && s.handler.Some? {
      FindComplete(t, path, room, s.route, s.handler.value, s.params);
    }
  }

  // ----- the lookup loop -----

  lemma PrependTwice(p1: string, ps: Params, p2: string, qs: Params, r: Lookup)
    ensures Prepend(p1, ps, Prepend(p2, qs, r)) == Prepend(p1 + p2, ps + qs, r)
  {
    if r.Hit? {
      assert ps + (qs + r.params) == (ps + qs) + r.params;
      assert p1 + (p2 + r.route) == (p1 + p2) + r.route;
    }
  }

  method ScanIndices(s: string, c: char) returns (i: nat)
    ensures i == IndexOf(s, c)
  {
    i := 0;
    while i < |s| && s[i] != c
      invariant 0 <= i <= |s| && forall k :: 0 <= k < i ==> s[k] != c
    {
      i := i + 1;
    }
  }

  method ScanSegment(s: string) returns (end: nat)
    ensures end == SegmentEnd(s, 0)
  {
    end := 0;
    while end < |s| && s[end] != '/'
      invariant 0 <= end <= |s| && forall k :: 0 <= k < end ==> s[k] != '/'
    {
      end := end + 1;
    }
  }

  /** What a lookup that has come to `node` with `ps` collected still has to find. */
  ghost predicate OnTrack(all: Lookup, text: string, ps: Params, node: Node, path: string, room: nat)
  {
    WellFormed(node) && |ps| <= room && all == Prepend(text, ps, Find(node, path, room - |ps|))
  }

  lemma StepBranch(all: Lookup, text: string, ps: Params, node: Node, path: string, room: nat, i: nat)
    requires OnTrack(all, text, ps, node, path, room) && |path| > |node.path| && node.path <= path && !node.wild
    requires i == IndexOf(node.indices, path[|node.path|]) && i < |node.indices| && i < |node.children|
    ensures OnTrack(all, text + node.path, ps, node.children[i], path[|node.path|..], room)
  {
    ChildOk(node, i);
    PrependTwice(text, ps, node.path, [], Find(node.children[i], path[|node.path|..], room - |ps|));
    assert ps + [] == ps;
  }

  lemma StepParam(all: Lookup, text: string, ps: Params, node: Node, path: string, room: nat, binding: Params)
    requires OnTrack(all, text, ps, node, path, room) && |path| > |node.path| && node.path <= path && node.wild
    requires |ps| < room && |node.children| == 1
    requires var w := node.children[0]; var rest := path[|node.path|..]; var end := SegmentEnd(rest, 0);
             w.typ == Param && end < |rest| && |w.children| > 0 && |w.path| > 0 && binding == [(w.path[1..], rest[..end])]
    ensures var w := node.children[0]; var rest := path[|node.path|..];
            OnTrack(all, text + (node.path + w.path), ps + binding, w.children[0], rest[SegmentEnd(rest, 0)..], room)
  {
    WildChildOk(node);
    var w := node.children[0];
    var rest := path[|node.path|..];
    PrependTwice(text, ps, node.path + w.path, binding, Find(w.children[0], rest[SegmentEnd(rest, 0)..], room - |ps| - 1));
  }

  /** `pgrest_rtree_find`: walk down from the root with a node and a path cursor, collecting
      parameters. */
  method Locate(root: Node, path: string, room: nat) returns (found: bool, handler: Option<Handler>, params: Params)
    requires WellFormed(root) && IsStatic(root)
    ensures found ==> exists route :: Find(root, path, room) == Hit(handler, params, route)
    ensures !found ==> Find(root, path, room) == Miss
  {
    var node := root;
    var p := path;
    params := [];
    handler := None;
    ghost var text := "";
    ghost var all := Find(root, path, room);
    while |p| > |node.path| && node.path <= p
      invariant OnTrack(all, text, params, node, p, room)
      decreases node
    {
      var rest := p[|node.path|..];
      if !node.wild {
        var i := ScanIndices(node.indices, rest[0]);
        if i == |node.indices| || i >= |node.children| {
          return false, None, params;
        }
        StepBranch(all, text, params, node, p, room, i);
        text := text + node.path;
        node, p := node.children[i], rest;
      } else {
        if |params| == room {
          return false, None, params;
        }
        WildChildOk(node);
        var w := node.children[0];
        if w.typ == CatchAll {
          return true, w.handler, params + [(w.path[2..], rest)];
        }
        var end := ScanSegment(rest);
        var binding := [(w.path[1..], rest[..end])];
        if end == |rest| {
          return true, w.handler, params + binding;
        }
        if |w.children| == 0 {
          return false, None, params + binding;
        }
        StepParam(all, text, params, node, p, room, binding);
        text := text + (node.path + w.path);
        params := params + binding;
        node, p := w.children[0], rest[end..];
      }
    }
    assert params + [] == params;
    if p == node.path {
      return true, node.handler, params;
    }
    return false, None, params;
  }
}
