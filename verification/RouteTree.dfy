/** The URL router's compressed radix tree, and the flat meaning of its patterns. */
module RouteTree {
  import opened Wrappers

  /** A registered handler, known by its identity. */
  type Handler = nat

  datatype NodeType = Static | Root | Param | CatchAll

  datatype Node = Node(
    path: string,
    wild: bool,
    typ: NodeType,
    indices: string,
    children: seq<Node>,
    handler: Option<Handler>,
    priority: int)

  type Params = seq<(string, string)>

  // ----- the flat meaning of patterns -----

  /** The first position at or after `i` that holds a slash, or the end. */
  function SegmentEnd(s: string, i: nat): (e: nat)
    requires i <= |s|
    ensures i <= e <= |s| && (e < |s| ==> s[e] == '/')
    ensures forall k :: i <= k < e ==> s[k] != '/'
    decreases |s| - i
  {
    if i == |s| || s[i] == '/' then i else SegmentEnd(s, i + 1)
  }

  predicate CatchAllAt(pat: string)
  {
    |pat| >= 2 && pat[0] == '/' && pat[1] == '*'
  }

  /** Match a path against one pattern: `:name` takes the longest run of bytes without a slash
      and needs something left of the path, a slash and `*name` take the whole rest of the path with its
      leading slash and must end the pattern, every other byte stands for itself. */
  function Match(pat: string, path: string): (r: Option<Params>)
    decreases |pat|
  {
    if pat == "" then
      if path == "" then Some([]) else None
    else if pat[0] == ':' then
      if path == "" then None else
        var e := SegmentEnd(pat, 1);
        var v := SegmentEnd(path, 0);
        match Match(pat[e..], path[v..])
        case None => None
        case Some(ps) => Some([(pat[1..e], path[..v])] + ps)
    else if CatchAllAt(pat) then
      if path != "" && path[0] == '/' && SegmentEnd(pat, 2) == |pat| then Some([(pat[2..], path)]) else None
    else if path != "" && path[0] == pat[0] then
      Match(pat[1..], path[1..])
    else None
  }

  // ----- the tree -----

  /** `pat` with handler `h` is registered in the tree. */
  ghost predicate HasRoute(t: Node, pat: string, h: Handler)
    decreases t
  {
    && t.path <= pat
    && (|| (pat == t.path && t.handler == Some(h))
        || ChildRoute(t, pat[|t.path|..], h))
  }

  ghost predicate ChildRoute(t: Node, rest: string, h: Handler)
    decreases t, 0
  {
    exists i :: 0 <= i < |t.children| && HasRoute(t.children[i], rest, h)
  }

  predicate Wildcard(c: char) { c == ':' || c == '*' }

  predicate Plain(s: string)
  {
    forall k :: 0 <= k < |s| ==> !Wildcard(s[k])
  }

  /** A wildcard's name: not empty, no slash and no wildcard. */
  predicate NameOk(s: string)
  {
    |s| > 0 && Plain(s) && forall k :: 0 <= k < |s| ==> s[k] != '/'
  }

  predicate IsStatic(t: Node) { t.typ == Static || t.typ == Root }

  /** The empty node above a catch-all. */
  predicate IsCatchHead(t: Node) { t.typ == CatchAll && t.wild }

  /** Everything registered below starts with `c`. */
  predicate FirstOk(t: Node, c: char)
  {
    if t.path != "" then t.path[0] == c
    else t.handler == None && (if t.typ == CatchAll then c == '/' else !t.wild && t.indices == [c])
  }

  predicate Distinct(s: string)
  {
    forall i, j :: 0 <= i < j < |s| ==> s[i] != s[j]
  }

  /** Children are found by their distinct first bytes. */
  predicate BranchOk(t: Node)
    decreases t, 0
  {
    && |t.indices| == |t.children| && Distinct(t.indices) && Plain(t.indices)
    && forall i {:trigger t.children[i]} :: 0 <= i < |t.children| ==>
         && (t.children[i].typ == Static || IsCatchHead(t.children[i]))
         && FirstOk(t.children[i], t.indices[i]) && WellFormed(t.children[i])
  }

  predicate WellFormed(t: Node)
    decreases t
  {
    match t.typ
    case Param =>
      && |t.path| >= 2 && t.path[0] == ':' && NameOk(t.path[1..])
      && !t.wild && |t.children| <= 1 && |t.indices| <= |t.children| && (t.indices != "" ==> t.indices == "/")
      && (|t.children| == 1 ==> t.children[0].typ == Static && FirstOk(t.children[0], '/') && WellFormed(t.children[0]))
    case CatchAll =>
      if t.wild then
        && t.path == "" && t.handler == None && t.indices == "" && |t.children| == 1
        && t.children[0].typ == CatchAll && !t.children[0].wild && WellFormed(t.children[0])
      else
        && |t.path| >= 3 && CatchAllAt(t.path) && NameOk(t.path[2..])
        && (t.indices != "" ==> t.indices == "/")
        && BranchOk(t)
    case _ =>
      && Plain(t.path)
      && (if t.wild then |t.children| == 1 && t.indices == "" && t.children[0].typ == Param && WellFormed(t.children[0])
          else BranchOk(t))
  }

  lemma ChildOk(t: Node, i: nat)
    requires WellFormed(t) && i < |t.children|
    ensures WellFormed(t.children[i])
    ensures i < |t.indices| && !t.wild ==> FirstOk(t.children[i], t.indices[i])
    ensures !t.wild && t.typ != Param ==> BranchOk(t) && (t.children[i].typ == Static || IsCatchHead(t.children[i]))
  {
    if !t.wild && t.typ != Param {
      assert BranchOk(t);
    }
  }

  lemma WildChildOk(t: Node)
    requires WellFormed(t) && t.wild
    ensures |t.children| == 1
    ensures var w := t.children[0];
            && WellFormed(w) && (w.typ == CatchAll || w.typ == Param)
            && (w.typ == CatchAll <==> t.typ == CatchAll)
            && (w.typ == CatchAll ==> !w.wild && |w.path| >= 3 && CatchAllAt(w.path) && NameOk(w.path[2..]))
            && (w.typ == Param ==> |w.path| >= 2 && w.path[0] == ':' && NameOk(w.path[1..]))
            && (w.typ == Param && |w.children| > 0 ==>
                  |w.children| == 1 && WellFormed(w.children[0]) && w.children[0].typ == Static && FirstOk(w.children[0], '/'))
  {
    ChildOk(t, 0);
  }

  const EMPTY_ROOT := Node("", false, Static, "", [], None, 0)
}
