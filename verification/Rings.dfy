/** Circular doubly linked lists through a sentinel. Nodes are numbers, the sentinel is node 0, and a list
    is described by the sequence of its nodes. */
module Rings {
  datatype Ring = Ring(next: seq<nat>, prev: seq<nat>)

  /** The k-th node; the sentinel stands before the first and behind the last. */
  function Stop(c: seq<nat>, k: int): nat
  {
    if 0 <= k < |c| then c[k] else 0
  }

  predicate Member(c: seq<nat>, n: nat, k: int)
  {
    0 <= k < |c| && 0 < c[k] < n
  }

  predicate Differ(c: seq<nat>, i: int, j: int)
  {
    0 <= i < j < |c| ==> c[i] != c[j]
  }

  /** Nodes below `n`, none of them twice and none the sentinel. */
  ghost predicate Nodes(c: seq<nat>, n: nat)
  {
    && (forall k {:trigger Member(c, n, k)} :: 0 <= k < |c| ==> Member(c, n, k))
    && (forall i, j {:trigger Differ(c, i, j)} :: Differ(c, i, j))
  }

  predicate LinkAt(r: Ring, c: seq<nat>, k: int)
  {
    && Stop(c, k) < |r.next| && Stop(c, k + 1) < |r.prev|
    && r.next[Stop(c, k)] == Stop(c, k + 1) && r.prev[Stop(c, k + 1)] == Stop(c, k)
  }

  /** `r` links the sentinel and the nodes of `c`, in this order and back to the sentinel. */
  ghost predicate IsRing(r: Ring, c: seq<nat>)
  {
    && |r.next| == |r.prev| > 0 && Nodes(c, |r.next|)
    && (forall k {:trigger LinkAt(r, c, k)} :: -1 <= k < |c| ==> LinkAt(r, c, k))
  }

  lemma SameNode(c: seq<nat>, n: nat, i: nat, j: nat)
    requires Nodes(c, n) && i < |c| && j < |c| && c[i] == c[j]
    ensures i == j
  {
    assert Differ(c, i, j) && Differ(c, j, i);
  }

  function Added(c: seq<nat>, k: nat, x: nat): (r: seq<nat>)
    requires k <= |c|
    ensures |r| == |c| + 1 && r[k] == x
    ensures forall j :: 0 <= j < k ==> r[j] == c[j]
    ensures forall j :: k < j < |r| ==> r[j] == c[j - 1]
  {
    c[..k] + [x] + c[k..]
  }

  function Dropped(c: seq<nat>, k: nat): (r: seq<nat>)
    requires k < |c|
    ensures |r| == |c| - 1
    ensures forall j :: 0 <= j < k ==> r[j] == c[j]
    ensures forall j :: k <= j < |r| ==> r[j] == c[j + 1]
  {
    c[..k] + c[k + 1..]
  }

  lemma AddedMembers(c: seq<nat>, k: nat, x: nat, y: nat)
    requires k <= |c|
    ensures y in Added(c, k, x) <==> y == x || y in c
  {
  }

  lemma DroppedMembers(c: seq<nat>, n: nat, k: nat, y: nat)
    requires k < |c| && Nodes(c, n)
    ensures y in Dropped(c, k) <==> y in c && y != c[k]
  {
    hide Dropped;
    var d := Dropped(c, k);
    if y in c && y != c[k] {
      var j :| 0 <= j < |c| && c[j] == y;
      assert y == d[if j < k then j else j - 1];
    }
    if y in d {
      var j :| 0 <= j < |d| && d[j] == y;
      var i := if j < k then j else j + 1;
      assert c[i] == y;
      if y == c[k] {
        SameNode(c, n, i, k);
      }
    }
  }

  lemma AddedNodes(c: seq<nat>, n: nat, k: nat, x: nat)
    requires Nodes(c, n) && k <= |c| && 0 < x < n && x !in c
    ensures Nodes(Added(c, k, x), n)
  {
    hide Added;
    var d := Added(c, k, x);
    forall j | 0 <= j < |d| ensures Member(d, n, j) {
      if j != k {
        assert Member(c, n, if j < k then j else j - 1);
      }
    }
    forall i, j ensures Differ(d, i, j) {
      if 0 <= i < j < |d| {
        assert Differ(c, if i < k then i else i - 1, if j < k then j else j - 1);
      }
    }
  }

  lemma DroppedNodes(c: seq<nat>, n: nat, k: nat)
    requires Nodes(c, n) && k < |c|
    ensures Nodes(Dropped(c, k), n)
  {
    hide Dropped;
    var d := Dropped(c, k);
    forall j | 0 <= j < |d| ensures Member(d, n, j) {
      assert Member(c, n, if j < k then j else j + 1);
    }
    forall i, j ensures Differ(d, i, j) {
      if 0 <= i < j < |d| {
        assert Differ(c, if i < k then i else i + 1, if j < k then j else j + 1);
      }
    }
  }

  // ----- the list operations -----

  /** `list_insert`: `x` goes before node `at`. */
  function InsertBefore(r: Ring, at: nat, x: nat): (q: Ring)
    requires |r.next| == |r.prev| && at < |r.next| && x < |r.next| && x != at && r.prev[at] < |r.next|
    ensures |q.next| == |q.prev| == |r.next|
  {
    var p := r.prev[at];
    Ring(r.next[x := at][p := x], r.prev[x := p][at := x])
  }

  /** `list_remove` */
  function Remove(r: Ring, x: nat): (q: Ring)
    requires |r.next| == |r.prev| && x < |r.next| && r.next[x] < |r.next| && r.prev[x] < |r.next|
    ensures |q.next| == |q.prev| == |r.next|
  {
    Ring(r.next[r.prev[x] := r.next[x]], r.prev[r.next[x] := r.prev[x]])
  }

  lemma StopBelow(r: Ring, c: seq<nat>, k: int)
    requires IsRing(r, c)
    ensures Stop(c, k) < |r.next| && (Stop(c, k) == 0 <==> !(0 <= k < |c|))
  {
    if 0 <= k < |c| {
      assert Member(c, |r.next|, k);
    }
  }

  lemma StopSame(r: Ring, c: seq<nat>, i: int, j: int)
    requires IsRing(r, c) && -1 <= i <= |c| && -1 <= j <= |c| && Stop(c, i) == Stop(c, j)
    ensures i == j || (i in {-1, |c|} && j in {-1, |c|})
  {
    StopBelow(r, c, i);
    StopBelow(r, c, j);
    if 0 <= i < |c| {
      SameNode(c, |r.next|, i, j);
    }
  }

  lemma StopOther(r: Ring, c: seq<nat>, i: int, x: nat)
    requires IsRing(r, c) && 0 < x && x !in c
    ensures Stop(c, i) != x
  {
  }

  lemma InsertLink(r: Ring, c: seq<nat>, k: nat, x: nat, j: int)
    requires IsRing(r, c) && k <= |c| && 0 < x < |r.next| && x !in c && -1 <= j <= |c|
    requires Stop(c, k) < |r.next| && Stop(c, k - 1) < |r.next| && Stop(c, k) != x && r.prev[Stop(c, k)] == Stop(c, k - 1)
    ensures LinkAt(InsertBefore(r, Stop(c, k), x), Added(c, k, x), j)
  {
    hide Added;
    var d := Added(c, k, x);
    StopOther(r, c, k - 1, x);
    if j < k - 1 {
      assert Stop(d, j) == Stop(c, j) && Stop(d, j + 1) == Stop(c, j + 1);
      LinkKept(r, c, k, x, j);
    } else if j > k {
      assert Stop(d, j) == Stop(c, j - 1) && Stop(d, j + 1) == Stop(c, j);
      LinkKept(r, c, k, x, j - 1);
    } else if j == k - 1 {
      assert Stop(d, j) == Stop(c, k - 1) && Stop(d, j + 1) == x;
    } else {
      assert Stop(d, j) == x && Stop(d, j + 1) == Stop(c, k);
    }
  }

  /** A link away from the place of insertion is not touched. */
  lemma LinkKept(r: Ring, c: seq<nat>, k: nat, x: nat, j: int)
    requires IsRing(r, c) && k <= |c| && 0 < x < |r.next| && x !in c && -1 <= j < |c| && j != k - 1
    requires Stop(c, k) < |r.next| && Stop(c, k - 1) < |r.next| && Stop(c, k) != x && r.prev[Stop(c, k)] == Stop(c, k - 1)
    ensures LinkAt(InsertBefore(r, Stop(c, k), x), c, j)
  {
    assert LinkAt(r, c, j);
    StopOther(r, c, j, x);
    StopOther(r, c, j + 1, x);
    if Stop(c, j) == Stop(c, k - 1) {
      StopSame(r, c, j, k - 1);
    }
    if Stop(c, j + 1) == Stop(c, k) {
      StopSame(r, c, j + 1, k);
    }
  }

  /** Inserting before the k-th node makes the new node the k-th. */
  lemma InsertRing(r: Ring, c: seq<nat>, k: nat, x: nat)
    requires IsRing(r, c) && k <= |c| && 0 < x < |r.next| && x !in c
    ensures Stop(c, k) < |r.next| && Stop(c, k) != x && r.prev[Stop(c, k)] < |r.next|
    ensures IsRing(InsertBefore(r, Stop(c, k), x), Added(c, k, x))
  {
    hide Added;
    assert LinkAt(r, c, k - 1);
    StopBelow(r, c, k);
    StopBelow(r, c, k - 1);
    StopOther(r, c, k, x);
    AddedNodes(c, |r.next|, k, x);
    forall j | -1 <= j <= |c| ensures LinkAt(InsertBefore(r, Stop(c, k), x), Added(c, k, x), j) {
      InsertLink(r, c, k, x, j);
    }
  }

  /** Nodes outside the list keep their `next`. */
  lemma InsertFrame(r: Ring, c: seq<nat>, k: nat, x: nat, y: nat)
    requires IsRing(r, c) && k <= |c| && 0 < x < |r.next| && x !in c
    requires Stop(c, k) < |r.next| && Stop(c, k) != x && r.prev[Stop(c, k)] < |r.next|
    requires 0 < y < |r.next| && y !in c && y != x
    ensures InsertBefore(r, Stop(c, k), x).next[y] == r.next[y]
  {
    assert LinkAt(r, c, k - 1);
    StopOther(r, c, k - 1, y);
  }

  lemma RemoveLink(r: Ring, c: seq<nat>, k: nat, j: int)
    requires IsRing(r, c) && k < |c| && -1 <= j < |c| - 1
    requires c[k] < |r.next| && r.next[c[k]] == Stop(c, k + 1) < |r.next| && r.prev[c[k]] == Stop(c, k - 1) < |r.next|
    ensures LinkAt(Remove(r, c[k]), Dropped(c, k), j)
  {
    hide Dropped;
    var d := Dropped(c, k);
    if j < k - 1 {
      assert Stop(d, j) == Stop(c, j) && Stop(d, j + 1) == Stop(c, j + 1);
      LinkLeft(r, c, k, j);
    } else if j >= k {
      assert Stop(d, j) == Stop(c, j + 1) && Stop(d, j + 1) == Stop(c, j + 2);
      LinkLeft(r, c, k, j + 1);
    } else {
      assert Stop(d, j) == Stop(c, k - 1) && Stop(d, j + 1) == Stop(c, k + 1);
    }
  }

  lemma LinkLeft(r: Ring, c: seq<nat>, k: nat, j: int)
    requires IsRing(r, c) && k < |c| && -1 <= j < |c| && j != k - 1 && j != k
    requires c[k] < |r.next| && r.next[c[k]] == Stop(c, k + 1) < |r.next| && r.prev[c[k]] == Stop(c, k - 1) < |r.next|
    ensures LinkAt(Remove(r, c[k]), c, j)
  {
    assert LinkAt(r, c, j);
    if Stop(c, j) == Stop(c, k - 1) {
      StopSame(r, c, j, k - 1);
    }
    if Stop(c, j + 1) == Stop(c, k + 1) {
      StopSame(r, c, j + 1, k + 1);
    }
  }

  lemma RemoveRing(r: Ring, c: seq<nat>, k: nat)
    requires IsRing(r, c) && k < |c|
    ensures c[k] < |r.next| && r.next[c[k]] == Stop(c, k + 1) < |r.next| && r.prev[c[k]] == Stop(c, k - 1) < |r.next|
    ensures IsRing(Remove(r, c[k]), Dropped(c, k))
  {
    hide Dropped;
    assert LinkAt(r, c, k - 1) && LinkAt(r, c, k);
    StopBelow(r, c, k - 1);
    StopBelow(r, c, k + 1);
    DroppedNodes(c, |r.next|, k);
    forall j | -1 <= j < |c| - 1 ensures LinkAt(Remove(r, c[k]), Dropped(c, k), j) {
      RemoveLink(r, c, k, j);
    }
  }

  /** A new node, linked to itself, changes no list. */
  lemma GrownRing(r: Ring, c: seq<nat>)
    requires IsRing(r, c)
    ensures IsRing(Ring(r.next + [|r.next|], r.prev + [|r.next|]), c) && |r.next| !in c
  {
    var q := Ring(r.next + [|r.next|], r.prev + [|r.next|]);
    forall k | 0 <= k < |c| ensures Member(c, |q.next|, k) && c[k] != |r.next| {
      assert Member(c, |r.next|, k);
    }
    forall k | -1 <= k < |c| ensures LinkAt(q, c, k) {
      assert LinkAt(r, c, k);
    }
  }
}
