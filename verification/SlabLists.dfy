/** Updates of the doubly linked page lists, as the code performs them. */
module SlabLists {
  import opened SlabState

  predicate Linked(m: seq<Node>, i: int)
  {
    0 <= i < |m| && 0 <= m[i].next < |m| && 0 <= m[i].prev < |m|
  }

  /** `prev->next = page->next; page->next->prev = page->prev` */
  function Unlink(m: seq<Node>, i: int): (r: seq<Node>)
    requires Linked(m, i)
    ensures |r| == |m|
  {
    var m1 := m[m[i].prev := m[m[i].prev].(next := m[i].next)];
    m1[m[i].next := m1[m[i].next].(prev := m[i].prev, tag := m[i].tag)]
  }

  /** Put page `i` behind header `h`; both `prev` fields that are written get the tag. */
  function Push(m: seq<Node>, h: int, i: int, tag: nat): (r: seq<Node>)
    requires 0 <= h < |m| && 0 <= i < |m| && 0 <= m[h].next < |m|
    ensures |r| == |m|
  {
    var f := m[h].next;
    var m1 := m[i := m[i].(next := f, prev := h, tag := tag)];
    var m2 := m1[f := m1[f].(prev := i, tag := tag)];
    m2[h := m2[h].(next := i)]
  }

  /** Page `r` takes the place of page `i`: the split of a free run in `alloc_pages`. */
  function Replace(m: seq<Node>, i: int, r: int, len: nat): (q: seq<Node>)
    requires Linked(m, i) && 0 <= r < |m|
    ensures |q| == |m|
  {
    var m1 := m[r := m[r].(slab := len, next := m[i].next, prev := m[i].prev, tag := m[i].tag)];
    var m2 := m1[m[i].prev := m1[m[i].prev].(next := r)];
    m2[m[i].next := m2[m[i].next].(prev := r, tag := TAG_PAGE)]
  }

  lemma MemberLinked(n: nat, m: seq<Node>, home: seq<int>, rank: seq<nat>, i: int)
    requires LinksOk(n, m, home, rank) && 0 <= i < n && home[i] != NULL
    ensures Linked(m, i) && m[i].next != i && m[i].prev != i
    ensures m[i].next == home[i] || (m[i].next < n && home[m[i].next] == home[i])
    ensures m[i].prev == home[i] || (m[i].prev < n && home[m[i].prev] == home[i])
  {
    assert LinkOk(n, m, home, rank, i);
  }

  /** Only the links of list members and the `next` of headers matter. */
  lemma LinksFrame(n: nat, m: seq<Node>, m': seq<Node>, home: seq<int>, rank: seq<nat>)
    requires LinksOk(n, m, home, rank) && |m'| == |m|
    requires forall i :: 0 <= i < n && home[i] != NULL ==> m'[i].next == m[i].next && m'[i].prev == m[i].prev
    requires forall h :: n <= h < |m| ==> m'[h].next == m[h].next
    ensures LinksOk(n, m', home, rank)
  {
    forall i | 0 <= i < n && home[i] != NULL ensures LinkOk(n, m', home, rank, i) {
      assert LinkOk(n, m, home, rank, i);
    }
    forall h | n <= h < |m| ensures HeaderOk(n, m', home, h) {
      assert HeaderOk(n, m, home, h);
    }
  }

  /** Removing a member keeps all lists, this one without the member. */
  lemma UnlinkLinks(n: nat, m: seq<Node>, home: seq<int>, rank: seq<nat>, i: int)
    requires LinksOk(n, m, home, rank) && 0 <= i < n && home[i] != NULL && Linked(m, i)
    ensures LinksOk(n, Unlink(m, i), home[i := NULL], rank)
  {
    var m' := Unlink(m, i);
    var home' := home[i := NULL];
    assert LinkOk(n, m, home, rank, i);
    forall j | 0 <= j < n && home'[j] != NULL ensures LinkOk(n, m', home', rank, j) {
      assert LinkOk(n, m, home, rank, j);
    }
    forall h | n <= h < |m| ensures HeaderOk(n, m', home', h) {
      assert HeaderOk(n, m, home, h);
    }
  }

  /** Putting a new member first keeps all lists; it gets the largest rank. */
  lemma PushLinks(n: nat, m: seq<Node>, home: seq<int>, rank: seq<nat>, clock: nat, h: int, i: int, tag: nat)
    requires LinksOk(n, m, home, rank) && 0 <= i < n <= h < |m| && home[i] == NULL
    requires forall j :: 0 <= j < n ==> rank[j] < clock
    ensures 0 <= m[h].next < |m|
    ensures LinksOk(n, Push(m, h, i, tag), home[i := h], rank[i := clock])
  {
    assert HeaderOk(n, m, home, h);
    var m' := Push(m, h, i, tag);
    var home' := home[i := h];
    var rank' := rank[i := clock];
    forall j | 0 <= j < n && home'[j] != NULL ensures LinkOk(n, m', home', rank', j) {
      if j != i {
        assert LinkOk(n, m, home, rank, j);
      }
    }
    forall g | n <= g < |m| ensures HeaderOk(n, m', home', g) {
      assert HeaderOk(n, m, home, g);
    }
  }

  lemma ReplaceLinkAt(n: nat, m: seq<Node>, home: seq<int>, rank: seq<nat>, i: int, r: int, len: nat, j: int)
    requires LinksOk(n, m, home, rank) && 0 <= i < n && home[i] != NULL && Linked(m, i)
    requires 0 <= r < n && home[r] == NULL && 0 <= j < n && j != i && (home[j] != NULL || j == r)
    ensures var home' := home[r := home[i]][i := NULL];
            LinkOk(n, Replace(m, i, r, len), home', rank[r := rank[i]], j)
  {
    assert LinkOk(n, m, home, rank, i);
    if j != r {
      assert LinkOk(n, m, home, rank, j);
    }
  }

  /** Handing a member's place to a page outside the lists keeps all lists. */
  lemma ReplaceLinks(n: nat, m: seq<Node>, home: seq<int>, rank: seq<nat>, i: int, r: int, len: nat)
    requires LinksOk(n, m, home, rank) && 0 <= i < n && home[i] != NULL && Linked(m, i)
    requires 0 <= r < n && home[r] == NULL
    ensures LinksOk(n, Replace(m, i, r, len), home[r := home[i]][i := NULL], rank[r := rank[i]])
  {
    var home' := home[r := home[i]][i := NULL];
    forall j | 0 <= j < n && home'[j] != NULL
      ensures LinkOk(n, Replace(m, i, r, len), home', rank[r := rank[i]], j)
    {
      ReplaceLinkAt(n, m, home, rank, i, r, len, j);
    }
    forall g | n <= g < |m| ensures HeaderOk(n, Replace(m, i, r, len), home', g) {
      assert HeaderOk(n, m, home, g);
      assert LinkOk(n, m, home, rank, i);
    }
  }
}
