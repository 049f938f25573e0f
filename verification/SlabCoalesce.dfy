/** The steps of `free_pages`: detach a run, absorb the free run behind it and the one in front. */
module SlabCoalesce {
  import opened Words
  import opened SlabState
  import opened SlabLists
  import opened SlabPages
  import opened SlabTheorems

  /** The descriptors after `page->slab = pages` and the `MemSet` of the pages behind it. */
  function Cleared(m: seq<Node>, page: int, pages: nat): (r: seq<Node>)
    requires 0 <= page && 1 <= pages && page + pages <= |m|
    ensures |r| == |m| && r[page] == m[page].(slab := pages)
    ensures forall j :: page < j < page + pages ==> r[j] == CLEARED
    ensures forall j :: 0 <= j < |m| && !(page <= j < page + pages) ==> r[j] == m[j]
  {
    m[..page] + [m[page].(slab := pages)] + seq(pages - 1, j => CLEARED) + m[page + pages..]
  }

  lemma DetachBusy(n: nat, m: seq<Node>, bm: seq<seq<nat>>, a: Shape, page: int, pages: nat)
    requires Core(n, m, bm, a) && IsRun(a.kind, page, page + pages) && a.kind[page].BusyHead?
    ensures m[page].next == NULL && a.touched
    ensures var a' := Vacate(a, page, page + pages);
            Core(n, Cleared(m, page, pages), bm, a') && Loose(Cleared(m, page, pages), a'.kind, page, page + pages)
  {
    TouchedByUse(n, m, bm, a, page);
    assert NodeOk(m[page], bm[page], a, page);
    DropBusy(n, m, bm, a, page, page + pages);
    TransitFrame(n, m, Cleared(m, page, pages), bm, Vacate(a, page, page + pages));
  }

  lemma DetachSlab(n: nat, m: seq<Node>, bm: seq<seq<nat>>, a: Shape, page: int)
    requires Core(n, m, bm, a) && IsRun(a.kind, page, page + 1) && a.kind[page].Slab? && Home(n, a.kind[page]) != NULL
    ensures m[page].next != NULL && a.touched && Linked(Cleared(m, page, 1), page)
    ensures var a' := Vacate(a, page, page + 1);
            var m' := Unlink(Cleared(m, page, 1), page);
            Core(n, m', bm, a') && Loose(m', a'.kind, page, page + 1)
  {
    TouchedByUse(n, m, bm, a, page);
    DropMember(n, m, bm, a, page, page + 1);
    assert Cleared(m, page, 1) == m[page := m[page].(slab := 1)];
    TransitFrame(n, Unlink(m, page), Unlink(Cleared(m, page, 1), page), bm, Vacate(a, page, page + 1));
  }

  /** Before the first allocation the only run is the whole pool; taking it off the list empties the list. */
  lemma DropAll(n: nat, m: seq<Node>, bm: seq<seq<nat>>, a: Shape)
    requires Core(n, m, bm, a) && !a.touched
    ensures n > 0 && Linked(m, 0) && Core(n, Unlink(m, 0), bm, Vacate(a, 0, n).(touched := true))
  {
    var home := Homes(n, a.kind);
    MemberLinked(n, m, home, a.rank, 0);
    UnlinkLinks(n, m, home, a.rank, 0);
    VacateHomes(n, a, 0, n);
    PaintTransit(a.kind, 0, n);
  }

  /** Clearing the descriptors of a run and unlinking its head, page by page. */
  lemma DetachedNodes(m: seq<Node>, page: int, len: nat)
    requires Linked(m, page) && 1 <= len && page + len <= |m|
    requires !(page <= m[page].next < page + len) && !(page <= m[page].prev < page + len)
    ensures Linked(Cleared(m, page, len), page)
    ensures var r := Unlink(Cleared(m, page, len), page);
            && r[page].slab == len && (forall j :: page < j < page + len ==> r[j] == CLEARED)
            && (forall j :: 0 <= j < |m| && !(page <= j < page + len) ==> r[j] == Unlink(m, page)[j])
  {
    hide Cleared;
  }

  /** Detaching a run that is free already. */
  lemma DetachFree(n: nat, m: seq<Node>, bm: seq<seq<nat>>, a: Shape, page: int)
    requires Core(n, m, bm, a) && 0 <= page < n && a.kind[page].FreeHead?
    ensures var len := a.kind[page].len;
            && 1 <= len <= n - page && m[page].next != NULL && Linked(Cleared(m, page, len), page)
            && var a' := Vacate(a, page, page + len).(touched := true);
               var m' := Unlink(Cleared(m, page, len), page);
               Core(n, m', bm, a') && Loose(m', a'.kind, page, page + len)
  {
    hide Core;
    hide Cleared;
    hide Unlink;
    NextOutside(n, m, bm, a, page);
    FreeRunPages(n, m, bm, a, page);
    var len := a.kind[page].len;
    DetachedNodes(m, page, len);
    DropFree(n, m, bm, a, page);
    var a' := Vacate(a, page, page + len).(touched := true);
    TransitFrame(n, Unlink(m, page), Unlink(Cleared(m, page, len), page), bm, a');
  }

  lemma NextOutside(n: nat, m: seq<Node>, bm: seq<seq<nat>>, a: Shape, page: int)
    requires Core(n, m, bm, a) && 0 <= page < n && a.kind[page].FreeHead?
    ensures |a.kind| == n
    ensures var len := a.kind[page].len;
            && |m| > n && page + len <= n && m[page].next >= 0
            && !(page <= m[page].next < page + len) && !(page <= m[page].prev < page + len)
  {
    FreeRunPages(n, m, bm, a, page);
  }

  lemma DropFree(n: nat, m: seq<Node>, bm: seq<seq<nat>>, a: Shape, page: int)
    requires Core(n, m, bm, a) && 0 <= page < n && a.kind[page].FreeHead? && Linked(m, page)
    requires 1 <= a.kind[page].len <= n - page
    ensures Core(n, Unlink(m, page), bm, Vacate(a, page, page + a.kind[page].len).(touched := true))
  {
    var len := a.kind[page].len;
    if a.touched {
      DropMember(n, m, bm, a, page, page + len);
      assert Vacate(a, page, page + len).(touched := true) == Vacate(a, page, page + len);
    } else {
      assert KindOk(a.kind, 0);
      DropAll(n, m, bm, a);
    }
  }

  /** The descriptors and the shape after a run of any kind has been detached. */
  lemma Detached(n: nat, m: seq<Node>, bm: seq<seq<nat>>, a: Shape, page: int, pages: nat)
    requires Core(n, m, bm, a) && IsRun(a.kind, page, page + pages) && |a.kind| == n < |m|
    requires a.kind[page].Slab? ==> Home(n, a.kind[page]) != NULL
    ensures var c := Cleared(m, page, pages);
            var a' := Vacate(a, page, page + pages).(touched := true);
            && c[page].next == m[page].next && (m[page].next != NULL ==> Linked(c, page))
            && var m' := if m[page].next != NULL then Unlink(c, page) else c;
               Core(n, m', bm, a') && Loose(m', a'.kind, page, page + pages)
  {
    hide Core;
    hide Loose;
    hide Unlink;
    hide Linked;
    if a.kind[page].BusyHead? {
      DetachBusy(n, m, bm, a, page, pages);
      assert Vacate(a, page, page + pages).(touched := true) == Vacate(a, page, page + pages);
    } else if a.kind[page].FreeHead? {
      DetachFree(n, m, bm, a, page);
    } else {
      DetachSlab(n, m, bm, a, page);
      assert Vacate(a, page, page + pages).(touched := true) == Vacate(a, page, page + pages);
    }
  }

  /** The page before a free run is not free. */
  lemma NotFreeBefore(kind: seq<Kind>, page: int)
    requires KindsOk(kind) && 0 < page < |kind| && kind[page].FreeHead?
    ensures !FreePage(kind[page - 1])
  {
    assert forall x {:trigger kind[x]} :: 0 <= x < |kind| ==> KindOk(kind, x);
  }

  /** A free run has no free neighbours, so returning it again changes no page's use. */
  lemma FreeAgain(kind: seq<Kind>, page: int, lo: int, hi: int)
    requires KindsOk(kind) && 0 <= lo <= page < hi <= |kind| && kind[page].FreeHead? && page + kind[page].len <= hi
    requires forall j :: lo <= j < hi && !(page <= j < page + kind[page].len) ==> FreePage(kind[j])
    ensures Paint(kind, lo, hi, FreeHead(hi - lo), FreeBody(lo)) == kind
  {
    assert KindOk(kind, page);
    RunEnds(kind, page);
    if page > 0 {
      NotFreeBefore(kind, page);
    }
    assert lo == page && hi == page + kind[page].len;
  }

  /** The test of `free_pages` on the page behind the run recognises the head of a free run. */
  lemma RightGuard(n: nat, m: seq<Node>, bm: seq<seq<nat>>, a: Shape, hi: int)
    requires Core(n, m, bm, a) && 0 <= hi < n && !a.kind[hi].Transit?
    ensures m[hi].tag == TAG_PAGE && m[hi].next != NULL <==> a.kind[hi].FreeHead?
  {
    assert NodeOk(m[hi], bm[hi], a, hi);
    if a.kind[hi].FreeHead? {
      FreeRunPages(n, m, bm, a, hi);
    }
  }

  /** The pages of a free run behind its head. */
  lemma RunBodies(n: nat, m: seq<Node>, bm: seq<seq<nat>>, a: Shape, h: int)
    requires Core(n, m, bm, a) && 0 <= h < n && a.kind[h].FreeHead?
    ensures h + a.kind[h].len <= n && IsRun(a.kind, h, h + a.kind[h].len)
    ensures forall j :: h < j < h + a.kind[h].len ==>
              a.kind[j].FreeBody? && m[j].slab == 0 && m[j].next == NULL && m[j].tag == TAG_PAGE
  {
    assert KindOk(a.kind, h);
    forall j | h < j < h + a.kind[h].len
      ensures a.kind[j].FreeBody? && m[j].slab == 0 && m[j].next == NULL && m[j].tag == TAG_PAGE
    {
      assert NodeOk(m[j], bm[j], a, j);
    }
  }

  /** The writes that absorb one neighbour: `head` gets the whole length, `gone` leaves the free
      list, and the descriptor `dead` is cleared. */
  function Absorb(m: seq<Node>, head: int, size: nat, gone: int, dead: int): (r: seq<Node>)
    requires 0 <= head < |m| && 0 <= dead < |m| && Linked(m, gone)
    ensures |r| == |m|
  {
    Unlink(m[head := m[head].(slab := size)], gone)[dead := CLEARED]
  }

  lemma AbsorbFrame(m: seq<Node>, head: int, size: nat, gone: int, dead: int, j: int)
    requires 0 <= head < |m| && 0 <= dead < |m| && Linked(m, gone) && 0 <= j < |m|
    requires head != m[gone].next && head != m[gone].prev
    ensures j != head && j != dead ==> Absorb(m, head, size, gone, dead)[j] == Unlink(m, gone)[j]
    ensures j == head && j != dead ==> Absorb(m, head, size, gone, dead)[j] == m[j].(slab := size)
  {
  }

  /** Absorbing a free neighbour keeps the invariant, if all pages written are loose. */
  lemma AbsorbCore(n: nat, m: seq<Node>, bm: seq<seq<nat>>, a: Shape, head: int, size: nat, gone: int, dead: int)
    requires Core(n, m, bm, a) && a.touched && 0 <= gone < n && a.kind[gone].FreeHead? && 1 <= a.kind[gone].len <= n - gone
    requires 0 <= head < n && (head == gone || a.kind[head].Transit?)
    requires 0 <= dead < n && (dead == gone || a.kind[dead].Transit?)
    ensures Linked(m, gone) && head != m[gone].next && head != m[gone].prev
    ensures Core(n, Absorb(m, head, size, gone, dead), bm, Vacate(a, gone, gone + a.kind[gone].len))
  {
    FreeRunPages(n, m, bm, a, gone);
    DropMember(n, m, bm, a, gone, gone + a.kind[gone].len);
    var m' := Absorb(m, head, size, gone, dead);
    forall j | 0 <= j < |m| && j != head && j != dead ensures m'[j] == Unlink(m, gone)[j] {
      AbsorbFrame(m, head, size, gone, dead, j);
    }
    TransitFrame(n, Unlink(m, gone), m', bm, Vacate(a, gone, gone + a.kind[gone].len));
  }

  /** Absorbing the free run behind the loose run. */
  lemma RightTransit(n: nat, m: seq<Node>, bm: seq<seq<nat>>, a: Shape, lo: int, hi: int)
    requires Core(n, m, bm, a) && a.touched && Loose(m, a.kind, lo, hi) && hi < n && a.kind[hi].FreeHead?
    ensures m[hi].slab == a.kind[hi].len && 1 <= a.kind[hi].len <= n - hi && Linked(m, hi)
    ensures m[hi].next != lo && m[hi].prev != lo
    ensures var top := hi + a.kind[hi].len;
            var m' := Absorb(m, lo, top - lo, hi, hi);
            && Core(n, m', bm, Vacate(a, hi, top)) && Loose(m', Vacate(a, hi, top).kind, lo, top)
            && (forall j :: hi <= j < top ==> FreePage(a.kind[j]))
            && (top < n ==> !a.kind[top].FreeHead?)
  {
    FreeRunPages(n, m, bm, a, hi);
    RunBodies(n, m, bm, a, hi);
    assert KindOk(a.kind, hi);
    var top := hi + a.kind[hi].len;
    AbsorbCore(n, m, bm, a, lo, top - lo, hi, hi);
    forall j | lo <= j < top && j != hi ensures Absorb(m, lo, top - lo, hi, hi)[j] == if j == lo then m[j].(slab := top - lo) else m[j] {
      AbsorbFrame(m, lo, top - lo, hi, hi, j);
    }
  }

  /** The head of the free run that ends just before `lo`, if there is one. */
  ghost predicate EndsAt(kind: seq<Kind>, h: int, lo: int)
  {
    0 <= h < lo <= |kind| && kind[h].FreeHead? && h + kind[h].len == lo
  }

  /** The test of `free_pages` on the page in front of the run finds the head of the free run
      that ends there. */
  lemma LeftGuard(n: nat, m: seq<Node>, bm: seq<seq<nat>>, a: Shape, lo: int)
    requires Core(n, m, bm, a) && a.touched && 0 < lo < n && a.kind[lo].Transit? && !a.kind[lo - 1].Transit?
    ensures var join := lo - 1;
            if m[join].tag != TAG_PAGE then NoFreeRunBefore(a.kind, lo)
            else
              var g := if m[join].slab == 0 then m[join].prev else join;
              && 0 <= g < n
              && (m[g].next != NULL ==> EndsAt(a.kind, g, lo))
              && (m[g].next == NULL ==> NoFreeRunBefore(a.kind, lo))
  {
    var join := lo - 1;
    assert KindOk(a.kind, join) && NodeOk(m[join], bm[join], a, join);
    if a.kind[join].FreeBody? {
      var h := a.kind[join].head;
      assert KindOk(a.kind, h);
      FreeRunPages(n, m, bm, a, h);
    } else if a.kind[join].FreeHead? {
      FreeRunPages(n, m, bm, a, join);
    } else {
      forall x | 0 <= x < n && a.kind[x].FreeHead? ensures x + a.kind[x].len != lo {
        assert KindOk(a.kind, x);
      }
    }
  }

  lemma LeftEdge(n: nat, m: seq<Node>, bm: seq<seq<nat>>, a: Shape)
    requires Core(n, m, bm, a)
    ensures NoFreeRunBefore(a.kind, 0)
  {
    forall x | 0 <= x < n && a.kind[x].FreeHead? ensures x + a.kind[x].len != 0 {
      assert KindOk(a.kind, x);
    }
  }

  /** Absorbing the free run in front of the loose run. */
  lemma LeftTransit(n: nat, m: seq<Node>, bm: seq<seq<nat>>, a: Shape, g: int, lo: int, hi: int)
    requires Core(n, m, bm, a) && a.touched && Loose(m, a.kind, lo, hi) && EndsAt(a.kind, g, lo)
    ensures Linked(m, g) && m[g].next != g && m[g].prev != g && m[g].slab + m[lo].slab == hi - g
    ensures var m' := Absorb(m, g, hi - g, g, lo);
            var a' := Vacate(a, g, lo);
            && Core(n, m', bm, a') && Loose(m', a'.kind, g, hi)
            && (forall j :: g <= j < lo ==> FreePage(a.kind[j]))
  {
    FreeRunPages(n, m, bm, a, g);
    RunBodies(n, m, bm, a, g);
    AbsorbCore(n, m, bm, a, g, hi - g, g, lo);
    forall j | g <= j < hi && j != lo ensures Absorb(m, g, hi - g, g, lo)[j] == if j == g then m[j].(slab := hi - g) else m[j] {
      AbsorbFrame(m, g, hi - g, g, lo, j);
    }
  }

  lemma LeftSettled(kind: seq<Kind>, g: int, lo: int)
    requires KindsOk(kind) && EndsAt(kind, g, lo)
    ensures NoFreeRunBefore(Paint(kind, g, lo, Transit, Transit), g)
  {
    var k' := Paint(kind, g, lo, Transit, Transit);
    forall x | 0 <= x < |kind| && k'[x].FreeHead? ensures x + k'[x].len != g {
      assert KindOk(kind, x);
    }
  }
}
