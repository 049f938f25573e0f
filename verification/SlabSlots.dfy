/** A slab page changes its set of taken chunks, and with it its place on the slot lists. */
module SlabSlots {
  import opened Words
  import opened SlabState
  import opened SlabLists
  import opened SlabPages

  function WithKind(a: Shape, i: int, k: Kind): (r: Shape)
    requires 0 <= i < |a.kind|
  {
    a.(kind := a.kind[i := k])
  }

  /** Pages other than a single-page run do not depend on what that page is used for. */
  lemma SinglePage(a: Shape, i: int, k: Kind)
    requires KindsOk(a.kind) && 0 <= i < |a.kind| && (a.kind[i].Slab? || a.kind[i] == BusyHead(1))
    requires k.Slab? && ShiftOk(k.shift)
    ensures KindsOk(a.kind[i := k])
    ensures forall j :: 0 <= j < |a.kind| && j != i && a.kind[j].FreeBody? ==>
              0 <= a.kind[j].head < |a.kind| && a.kind[j].head != i
  {
    var kind' := a.kind[i := k];
    forall j | 0 <= j < |a.kind|
      ensures KindOk(kind', j)
      ensures j != i && a.kind[j].FreeBody? ==> 0 <= a.kind[j].head < |a.kind| && a.kind[j].head != i
    {
      assert KindOk(a.kind, j);
    }
  }

  /** Everything but the links: if page `i` gets a well described slab node and the other pages
      keep all but the links, and same-list pages their tag, the invariant follows from the links. */
  lemma SlabCore(n: nat, m: seq<Node>, m': seq<Node>, bm: seq<seq<nat>>, w: seq<nat>, a: Shape, a': Shape, i: int, k: Kind)
    requires Core(n, m, bm, a) && 0 <= i < n && (a.kind[i].Slab? || a.kind[i] == BusyHead(1))
    requires k.Slab? && ShiftOk(k.shift) && a'.kind == a.kind[i := k] && a'.touched == a.touched
    requires |m'| == |m| && LinksOk(n, m', Homes(n, a'.kind), a'.rank)
    requires forall j :: 0 <= j < n ==> a'.rank[j] < a'.clock
    requires LayoutOk(m'[i].slab, w, k.shift, k.used) && m'[i].tag == Tag(k.shift) && (Full(k) ==> m'[i].next == NULL)
    requires forall j :: 0 <= j < n && j != i ==> m'[j] == m[j] || (m'[j].slab == m[j].slab && m'[j].tag == m[j].tag && Home(n, a.kind[j]) != NULL)
    ensures Core(n, m', bm[i := w], a')
  {
    SinglePage(a, i, k);
    TouchedByUse(n, m, bm, a, i);
    forall j | 0 <= j < n ensures NodeOk(m'[j], bm[i := w][j], a', j) {
      if j != i {
        assert NodeOk(m[j], bm[j], a, j);
        assert KindOk(a.kind, j);
      }
    }
  }

  /** The page stays full or stays on its slot list. */
  lemma SlabWrite(n: nat, m: seq<Node>, bm: seq<seq<nat>>, a: Shape, i: int, slab: nat, w: seq<nat>, used: set<nat>)
    requires Core(n, m, bm, a) && 0 <= i < n && a.kind[i].Slab? && ShiftOk(a.kind[i].shift)
    requires LayoutOk(slab, w, a.kind[i].shift, used)
    requires !Full(a.kind[i]) && !Full(Slab(a.kind[i].shift, used))
    ensures Core(n, m[i := m[i].(slab := slab)], bm[i := w], WithKind(a, i, Slab(a.kind[i].shift, used)))
  {
    var k := Slab(a.kind[i].shift, used);
    var m' := m[i := m[i].(slab := slab)];
    var home := Homes(n, a.kind);
    LinksFrame(n, m, m', home, a.rank);
    assert Homes(n, a.kind[i := k]) == home;
    assert NodeOk(m[i], bm[i], a, i);
    SlabCore(n, m, m', bm, w, a, WithKind(a, i, k), i, k);
  }

  /** The last free chunk is taken: the page leaves its slot list. */
  lemma SlabFill(n: nat, m: seq<Node>, bm: seq<seq<nat>>, a: Shape, i: int, slab: nat, w: seq<nat>, used: set<nat>)
    requires Core(n, m, bm, a) && 0 <= i < n && a.kind[i].Slab? && ShiftOk(a.kind[i].shift)
    requires LayoutOk(slab, w, a.kind[i].shift, used)
    requires !Full(a.kind[i]) && Full(Slab(a.kind[i].shift, used))
    ensures Linked(m, i)
    ensures Core(n, Unlink(m, i)[i := Node(slab, NULL, NULL, Tag(a.kind[i].shift))], bm[i := w],
                 WithKind(a, i, Slab(a.kind[i].shift, used)))
  {
    var k := Slab(a.kind[i].shift, used);
    var home := Homes(n, a.kind);
    MemberLinked(n, m, home, a.rank, i);
    UnlinkLinks(n, m, home, a.rank, i);
    var m' := Unlink(m, i)[i := Node(slab, NULL, NULL, Tag(a.kind[i].shift))];
    LinksFrame(n, Unlink(m, i), m', home[i := NULL], a.rank);
    assert Homes(n, a.kind[i := k]) == home[i := NULL];
    forall j | 0 <= j < n && j != i
      ensures m'[j] == m[j] || (m'[j].slab == m[j].slab && m'[j].tag == m[j].tag && Home(n, a.kind[j]) != NULL)
    {
      if j == m[i].next || j == m[i].prev {
        SameHomeSameTag(n, m, bm, a, i, j);
      }
    }
    SlabCore(n, m, m', bm, w, a, WithKind(a, i, k), i, k);
  }

  function Relist(a: Shape, i: int, k: Kind): (r: Shape)
    requires 0 <= i < |a.kind| == |a.rank|
  {
    Shape(a.kind[i := k], a.rank[i := a.clock], a.clock + 1, a.touched)
  }

  /** A chunk of a full page is freed: the page goes first on its slot list. */
  lemma SlabUnfill(n: nat, m: seq<Node>, bm: seq<seq<nat>>, a: Shape, i: int, slab: nat, w: seq<nat>, used: set<nat>)
    requires Core(n, m, bm, a) && 0 <= i < n && a.kind[i].Slab? && ShiftOk(a.kind[i].shift)
    requires LayoutOk(slab, w, a.kind[i].shift, used)
    requires Full(a.kind[i]) && !Full(Slab(a.kind[i].shift, used))
    ensures 0 <= m[SlotHdr(n, a.kind[i].shift)].next < |m|
    ensures var shift := a.kind[i].shift;
            var m1 := Push(m, SlotHdr(n, shift), i, Tag(shift));
            Core(n, m1[i := m1[i].(slab := slab)], bm[i := w], Relist(a, i, Slab(shift, used)))
  {
    var k := Slab(a.kind[i].shift, used);
    var home := Homes(n, a.kind);
    var h := SlotHdr(n, k.shift);
    PushLinks(n, m, home, a.rank, a.clock, h, i, Tag(k.shift));
    var m1 := Push(m, h, i, Tag(k.shift));
    var m' := m1[i := m1[i].(slab := slab)];
    LinksFrame(n, m1, m', home[i := h], a.rank[i := a.clock]);
    assert Homes(n, a.kind[i := k]) == home[i := h];
    assert HeaderOk(n, m, home, h);
    forall j | 0 <= j < n && j != i
      ensures m'[j] == m[j] || (m'[j].slab == m[j].slab && m'[j].tag == m[j].tag && Home(n, a.kind[j]) != NULL)
    {
      if j == m[h].next {
        assert NodeOk(m[j], bm[j], a, j);
      }
    }
    SlabCore(n, m, m', bm, w, a, Relist(a, i, k), i, k);
  }

  /** A freshly allocated page becomes the only page on the empty slot list of its class. */
  lemma SlabNew(n: nat, m: seq<Node>, bm: seq<seq<nat>>, a: Shape, i: int, slab: nat, w: seq<nat>, k: Kind)
    requires Core(n, m, bm, a) && 0 <= i < n && a.kind[i] == BusyHead(1)
    requires k.Slab? && ShiftOk(k.shift) && LayoutOk(slab, w, k.shift, k.used) && !Full(k)
    requires m[SlotHdr(n, k.shift)].next == SlotHdr(n, k.shift)
    ensures var h := SlotHdr(n, k.shift);
            Core(n, m[i := Node(slab, h, h, Tag(k.shift))][h := m[h].(next := i)], bm[i := w], Relist(a, i, k))
  {
    var home := Homes(n, a.kind);
    var h := SlotHdr(n, k.shift);
    PushLinks(n, m, home, a.rank, a.clock, h, i, Tag(k.shift));
    var m' := m[i := Node(slab, h, h, Tag(k.shift))][h := m[h].(next := i)];
    LinksFrame(n, Push(m, h, i, Tag(k.shift)), m', home[i := h], a.rank[i := a.clock]);
    assert Homes(n, a.kind[i := k]) == home[i := h];
    SlabCore(n, m, m', bm, w, a, Relist(a, i, k), i, k);
  }
}
