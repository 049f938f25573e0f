/** The slab pool: allocation and release of pages and chunks, in place. */
module SlabPool {
  import opened Words
  import opened SlabState
  import opened SlabLists
  import opened SlabPages
  import opened SlabChunks
  import opened SlabSlots
  import opened SlabLive
  import opened SlabTheorems
  import opened SlabSearch
  import opened SlabInit
  import opened SlabCoalesce
  import opened SlabMisuse

  /** A free run nearer to the header than `page` has been passed by the first-fit search. */
  lemma {:induction false} Passed(n: nat, m: seq<Node>, bm: seq<seq<nat>>, a: Shape, page: int, seen: set<int>, x: int)
    requires Core(n, m, bm, a) && (page == n || (0 <= page < n && a.kind[page].FreeHead?))
    requires m[n].next in seen || m[n].next == page
    requires forall y :: y in seen ==> 0 <= y < n && (m[y].next in seen || m[y].next == page)
    requires 0 <= x < n && a.kind[x].FreeHead? && (page != n ==> a.rank[page] < a.rank[x])
    ensures x in seen
    decreases a.clock - a.rank[x]
  {
    assert LinkOk(n, m, Homes(n, a.kind), a.rank, x);
    var p := m[x].prev;
    if p != n {
      Passed(n, m, bm, a, page, seen, p);
    }
  }

  /** The first node behind a slot header is a page with a free chunk of that class, or the header
      itself when no page of the class has a free chunk. */
  lemma FirstInSlot(n: nat, m: seq<Node>, bm: seq<seq<nat>>, a: Shape, shift: nat)
    requires Core(n, m, bm, a) && ShiftOk(shift)
    ensures var slot := SlotHdr(n, shift);
            var page := m[slot].next;
            && 0 <= page < |m|
            && (m[page].next != page ==> page < n && InSlot(a.kind[page], shift))
            && (m[page].next == page ==> page == slot && forall i :: 0 <= i < n ==> !InSlot(a.kind[i], shift))
  {
    var slot := SlotHdr(n, shift);
    var home := Homes(n, a.kind);
    var page := m[slot].next;
    assert HeaderOk(n, m, home, slot);
    ListExact(n, m, bm, a, slot);
    forall i | 0 <= i < n ensures home[i] == slot <==> InSlot(a.kind[i], shift) {
      assert KindOk(a.kind, i);
    }
    if page != slot {
      MemberLinked(n, m, home, a.rank, page);
    }
  }

  /** Both of the code's tests for a full page agree with the bitmap. */
  lemma FullGuard(n: nat, m: seq<Node>, bm: seq<seq<nat>>, a: Shape, page: int)
    requires Core(n, m, bm, a) && 0 <= page < n && a.kind[page].Slab?
    ensures ShiftOk(a.kind[page].shift) && LayoutOk(m[page].slab, bm[page], a.kind[page].shift, a.kind[page].used)
    ensures var shift := a.kind[page].shift;
            (if shift == EXACT_SHIFT then m[page].slab == BUSY_WORD else m[page].next == NULL) <==> Full(a.kind[page])
  {
    assert KindOk(a.kind, page) && NodeOk(m[page], bm[page], a, page);
    MapFullOk(m[page].slab, bm[page], a.kind[page].shift, a.kind[page].used);
    if !Full(a.kind[page]) {
      MemberLinked(n, m, Homes(n, a.kind), a.rank, page);
    }
  }

  /** The tag tells the use of a page, and the descriptor of a slab page its size class. */
  lemma TagGuard(n: nat, m: seq<Node>, bm: seq<seq<nat>>, a: Shape, page: int)
    requires Core(n, m, bm, a) && 0 <= page < n && !a.kind[page].Transit?
    ensures m[page].tag == TAG_PAGE <==> !a.kind[page].Slab?
    ensures a.kind[page].Slab? ==>
              && ShiftOk(a.kind[page].shift) && LayoutOk(m[page].slab, bm[page], a.kind[page].shift, a.kind[page].used)
              && a.kind[page].shift == (if m[page].tag == TAG_EXACT then EXACT_SHIFT else LowBits(m[page].slab, 4))
    ensures a.kind[page].FreeBody? <==> !a.kind[page].Slab? && m[page].slab == 0
    ensures a.kind[page].BusyBody? ==> m[page].slab == BUSY_WORD
    ensures a.kind[page].BusyHead? && n < PAGE_START - 1 ==> m[page].slab != BUSY_WORD
  {
    assert KindOk(a.kind, page) && NodeOk(m[page], bm[page], a, page);
    if a.kind[page].Slab? {
      ShiftField(a.kind[page].shift);
    }
  }

  /** The page and the offset do not name an allocation, and the code can tell. */
  predicate RejectedAt(kind: seq<Kind>, page: nat, off: nat)
    requires page < |kind|
  {
    match kind[page]
    case Slab(shift, used) => LowBits(off, shift) != 0 || ShiftRight(off, shift) !in used
    case FreeHead(_) => off != 0
    case BusyHead(_) => off != 0
    case _ => true
  }

  /** The only allocation that can start at this offset of the page. */
  function Target(kind: seq<Kind>, page: nat, off: nat): Chunk
    requires page < |kind|
  {
    match kind[page]
    case Slab(shift, _) => Cell(page, shift, ShiftRight(off, shift))
    case BusyHead(len) => Run(page, len)
    case _ => Run(page, 0)
  }

  lemma LiveInside(n: nat, m: seq<Node>, bm: seq<seq<nat>>, a: Shape)
    requires Core(n, m, bm, a)
    ensures forall ch :: Live(a.kind, ch) ==> Offset(ch) < n * PAGE_SIZE
  {
    forall ch | Live(a.kind, ch) ensures Offset(ch) < n * PAGE_SIZE {
      LivePlace(n, m, bm, a, ch);
      if ch.Cell? {
        Geometry(ch.shift);
      }
    }
  }

  lemma OnlyTarget(n: nat, m: seq<Node>, bm: seq<seq<nat>>, a: Shape, off: nat)
    requires Core(n, m, bm, a)
    ensures forall ch :: Live(a.kind, ch) && Offset(ch) == off ==>
              && off / PAGE_SIZE < n && ch == Target(a.kind, off / PAGE_SIZE, off % PAGE_SIZE)
              && !RejectedAt(a.kind, off / PAGE_SIZE, off % PAGE_SIZE)
  {
    forall ch | Live(a.kind, ch) && Offset(ch) == off
      ensures off / PAGE_SIZE < n && ch == Target(a.kind, off / PAGE_SIZE, off % PAGE_SIZE)
      ensures !RejectedAt(a.kind, off / PAGE_SIZE, off % PAGE_SIZE)
    {
      LivePlace(n, m, bm, a, ch);
      if ch.Cell? {
        CellAddress(ch.page, ch.shift, ch.index);
      }
    }
  }

  /** What the code does not turn away is a live chunk, a chunk of the bitmap's own, or the head of a free run;
      and no pointer is two of these. */
  lemma TargetAt(n: nat, m: seq<Node>, bm: seq<seq<nat>>, a: Shape, off: nat)
    requires Core(n, m, bm, a) && Settled(a.kind) && off / PAGE_SIZE < n
    ensures var page, o := off / PAGE_SIZE, off % PAGE_SIZE;
            var ch := Target(a.kind, page, o);
            && (RejectedAt(a.kind, page, o) ==> !ReservedAt(a.kind, page, o))
            && (!RejectedAt(a.kind, page, o) && !ReservedAt(a.kind, page, o) && !a.kind[page].FreeHead? ==>
                  Live(a.kind, ch) && Offset(ch) == off)
            && (Live(a.kind, ch) && !RejectedAt(a.kind, page, o) ==> !ReservedAt(a.kind, page, o) && !a.kind[page].FreeHead?)
  {
    var page, o := off / PAGE_SIZE, off % PAGE_SIZE;
    assert KindOk(a.kind, page) && NodeOk(m[page], bm[page], a, page);
    if a.kind[page].Slab? {
      ShiftParts(o, a.kind[page].shift);
    }
  }

  lemma CoreSizes(n: nat, m: seq<Node>, bm: seq<seq<nat>>, a: Shape)
    requires Core(n, m, bm, a)
    ensures |a.kind| == |a.rank| == n < |m|
  {
  }

  lemma LooseBounds(m: seq<Node>, kind: seq<Kind>, lo: int, hi: int)
    requires Loose(m, kind, lo, hi)
    ensures 0 <= lo < hi <= |kind| <= |m| && m[lo].slab == hi - lo && AllTransit(kind, lo, hi)
  {
  }

  class Pool {
    const n: nat
    const start: nat
    const end: nat
    var m: seq<Node>
    var bm: seq<seq<nat>>
    ghost var a: Shape

    ghost predicate Valid()
      reads this
    {
      && Inv(n, m, bm, a)
      && start > 0 && start % PAGE_SIZE == 0 && start + n * PAGE_SIZE <= end
    }

    /** Lay out the pool header, the slot headers, the page table and the pages between `base`
        and `limit`. */
    constructor Init(base: nat, limit: nat)
      requires InitPages(base, limit) >= 1 && limit <= BUSY_WORD
      ensures Valid()
      ensures n == InitPages(base, limit) && start == InitStart(base, limit) && end == limit
      ensures LargestLayout(base, limit, start, n)
      ensures base + SIZEOF_POOL + SLOTS * SIZEOF_PAGE + n * SIZEOF_PAGE <= start
      ensures forall ch :: !Live(a.kind, ch)
      ensures !a.touched && a.kind[0] == FreeHead(n)
    {
      var size := limit - (base + SIZEOF_POOL);
      var pages := size / (PAGE_SIZE + SIZEOF_PAGE);
      var first := AlignUp(base + SIZEOF_POOL + SLOTS * SIZEOF_PAGE + pages * SIZEOF_PAGE);
      var fit := (limit - first) / PAGE_SIZE;
      if pages > fit {
        pages := fit;
      }
      var table: seq<Node> := seq(pages, i => CLEARED);
      table := table[0 := Node(pages, pages, pages, TAG_PAGE)] + [Node(0, 0, NULL, TAG_PAGE)];
      var i := 0;
      while i < SLOTS
        invariant 0 <= i <= SLOTS && |table| == pages + 1 + i
        invariant forall j :: 1 <= j < pages ==> table[j] == CLEARED
        invariant table[0] == Node(pages, pages, pages, TAG_PAGE) && table[pages] == Node(0, 0, NULL, TAG_PAGE)
        invariant forall j :: pages < j < |table| ==> table[j].next == j
      {
        table := table + [Node(0, pages + 1 + i, NULL, TAG_PAGE)];
        i := i + 1;
      }
      InitLargest(base, limit);
      n := pages;
      start := first;
      end := limit;
      m := table;
      bm := seq(pages, i => [0, 0, 0, 0, 0, 0, 0, 0]);
      a := FirstShape(pages);
      new;
      FirstCore(n, m, bm);
      assert limit - first <= limit;
      forall ch ensures !Live(a.kind, ch) {
      }
    }

    /** Unlink a page from the list that holds it. */
    method UnlinkPage(page: int)
      requires Linked(m, page)
      modifies this`m
      ensures m == Unlink(old(m), page)
    {
      var prev := m[page].prev;
      var next := m[page].next;
      var tag := m[page].tag;
      m := m[prev := m[prev].(next := next)];
      m := m[next := m[next].(prev := prev, tag := tag)];
    }

    /** `alloc_pages`: first fit on the free list. It fails exactly when no `pages` consecutive
        pages are free, and every free run nearer to the list header than the chosen one is
        too short. */
    method AllocPages(pages: nat) returns (page: int)
      requires Core(n, m, bm, a) && pages >= 1
      modifies this`m, this`a
      ensures Core(n, m, bm, a)
      ensures page == NULL <==> forall i: nat :: !Span(old(a.kind), i, pages)
      ensures page == NULL ==> m == old(m) && a == old(a)
      ensures page != NULL ==>
                && 0 <= page < n && old(a).kind[page].FreeHead? && pages <= old(a).kind[page].len <= n - page
                && a == TakeShape(old(a), page, pages)
                && (forall h :: n < h < |m| ==> m[h].next == old(m)[h].next)
                && (forall x :: 0 <= x < n && old(a).kind[x].FreeHead? && old(a).rank[x] > old(a).rank[page] ==>
                      old(a).kind[x].len < pages)
    {
      assert HeaderOk(n, m, Homes(n, a.kind), n);
      page := m[n].next;
      ghost var seen: set<int> := {};
      while page != n
        invariant m == old(m) && a == old(a)
        invariant page == n || (0 <= page < n && a.kind[page].FreeHead?)
        invariant forall x :: x in seen ==> 0 <= x < n && a.kind[x].FreeHead? && a.kind[x].len < pages
        invariant forall x :: x in seen ==> m[x].next in seen || m[x].next == page
        invariant m[n].next in seen || m[n].next == page
        decreases if page == n then 0 else a.rank[page] + 1
      {
        FreeRunPages(n, m, bm, a, page);
        assert LinkOk(n, m, Homes(n, a.kind), a.rank, page);
        if m[page].slab >= pages {
          forall x | 0 <= x < n && a.kind[x].FreeHead? && a.rank[x] > a.rank[page] ensures a.kind[x].len < pages {
            Passed(n, m, bm, a, page, seen, x);
          }
          RunIsSpan(a.kind, page, pages);
          Take(page, pages);
          return;
        }
        seen := seen + {page};
        page := m[page].next;
      }
      forall i: nat ensures !Span(a.kind, i, pages) {
        if Span(a.kind, i, pages) {
          var h := SpanInRun(a.kind, i, pages);
          Passed(n, m, bm, a, n, seen, h);
        }
      }
      page := NULL;
    }

    /** Cut `pages` pages from the front of the free run at `page`. */
    method Take(page: int, pages: nat)
      requires Core(n, m, bm, a) && 0 <= page < n && a.kind[page].FreeHead? && 1 <= pages <= a.kind[page].len <= n - page
      modifies this`m, this`a
      ensures Core(n, m, bm, a) && a == TakeShape(old(a), page, pages)
      ensures forall h :: n < h < |m| ==> m[h].next == old(m)[h].next
    {
      hide Core;
      hide Unlink;
      hide Replace;
      hide Busy;
      hide TailSet;
      hide TakeShape;
      CoreSizes(n, m, bm, a);
      FreeRunPages(n, m, bm, a, page);
      TakeCore(n, m, bm, a, page, pages);
      var len := m[page].slab;
      if len > pages {
        SplitRun(page, len, pages);
      } else {
        UnlinkPage(page);
      }
      FillBusy(page, pages);
      a := TakeShape(a, page, pages);
      forall h | n < h < |m| ensures m[h].next == old(m)[h].next {
        TakeFrame(old(m), page, len, pages, h);
      }
    }

    /** The rest of a run that is cut takes its place on the free list. */
    method SplitRun(page: int, len: nat, pages: nat)
      requires Linked(m, page) && 1 <= pages < len && page + len <= |m|
      modifies this`m
      ensures m == Replace(TailSet(old(m), page + len - 1, page + pages), page, page + pages, len - pages)
    {
      m := m[page + len - 1 := m[page + len - 1].(prev := page + pages, tag := TAG_PAGE)];
      m := m[page + pages := m[page + pages].(slab := len - pages, next := m[page].next,
                                              prev := m[page].prev, tag := m[page].tag)];
      var p := m[page].prev;
      var q := m[page].next;
      m := m[p := m[p].(next := page + pages)];
      m := m[q := m[q].(prev := page + pages, tag := TAG_PAGE)];
    }

    method FillBusy(page: int, pages: nat)
      requires 0 <= page && 1 <= pages && page + pages <= |m|
      modifies this`m
      ensures m == Busy(old(m), page, pages)
    {
      m := m[page := Node(PAGE_START + pages, NULL, NULL, TAG_PAGE)];
      var p := page + 1;
      while p < page + pages
        invariant page < p <= page + pages && |m| == |old(m)|
        invariant m[page] == Node(PAGE_START + pages, NULL, NULL, TAG_PAGE)
        invariant forall j :: page < j < p ==> m[j] == Node(BUSY_WORD, NULL, NULL, TAG_PAGE)
        invariant forall j :: 0 <= j < |m| && !(page <= j < p) ==> m[j] == old(m)[j]
      {
        m := m[p := Node(BUSY_WORD, NULL, NULL, TAG_PAGE)];
        p := p + 1;
      }
    }

    // ----- free_pages -----

    /** Every page in transit belongs to the loose run `lo..hi`. */
    ghost predicate Holding(lo: int, hi: int)
      reads this
    {
      && Core(n, m, bm, a) && a.touched
      && Loose(m, a.kind, lo, hi)
      && (forall j :: 0 <= j < n && a.kind[j].Transit? ==> lo <= j < hi)
    }

    /** Clear the descriptors of the released pages and take the first one off its list. */
    method Detach(page: int, pages: nat)
      requires Core(n, m, bm, a) && IsRun(a.kind, page, page + pages)
      requires a.kind[page].Slab? ==> Home(n, a.kind[page]) != NULL
      requires forall j :: 0 <= j < n ==> !a.kind[j].Transit?
      modifies this`m, this`a
      ensures Holding(page, page + pages) && a == Vacate(old(a), page, page + pages).(touched := true)
    {
      hide Core;
      hide Cleared;
      hide Loose;
      hide Unlink;
      CoreSizes(n, m, bm, a);
      Detached(n, m, bm, a, page, pages);
      m := Cleared(m, page, pages);
      if m[page].next != NULL {
        UnlinkPage(page);
      }
      a := Vacate(a, page, page + pages).(touched := true);
    }

    /** Join two adjacent runs: record the joint length in `head`, take the free run at `gone` off
        the free list and clear the descriptor that is no longer a head. */
    method AbsorbRun(head: int, size: nat, gone: int, dead: int)
      requires 0 <= head < |m| && 0 <= dead < |m| && Linked(m, gone)
      modifies this`m
      ensures m == Absorb(old(m), head, size, gone, dead)
    {
      m := m[head := m[head].(slab := size)];
      UnlinkPage(gone);
      m := m[dead := CLEARED];
    }

    /** Merge the loose run with a free run that starts where it ends. */
    method JoinRight(lo: int, hi: int) returns (top: int)
      requires Holding(lo, hi)
      modifies this`m, this`a
      ensures Holding(lo, top) && hi <= top
      ensures top < n ==> !a.kind[top].FreeHead?
      ensures forall j :: 0 <= j < n && !(hi <= j < top) ==> a.kind[j] == old(a).kind[j]
      ensures forall j :: hi <= j < top ==> FreePage(old(a).kind[j])
    {
      hide Core;
      hide Absorb;
      hide Linked;
      hide Loose;
      CoreSizes(n, m, bm, a);
      LooseBounds(m, a.kind, lo, hi);
      top := hi;
      if hi < n {
        RightGuard(n, m, bm, a, hi);
        if m[hi].tag == TAG_PAGE && m[hi].next != NULL {
          var len := m[hi].slab;
          RightTransit(n, m, bm, a, lo, hi);
          AbsorbRun(lo, m[lo].slab + len, hi, hi);
          a := Vacate(a, hi, hi + len);
          top := hi + len;
        }
      }
    }

    /** Merge the loose run with a free run that ends where it starts, found by the boundary tag
        of its last page. */
    method JoinLeft(lo: int, hi: int) returns (bottom: int)
      requires Holding(lo, hi)
      modifies this`m, this`a
      ensures Holding(bottom, hi) && bottom <= lo
      ensures NoFreeRunBefore(a.kind, bottom)
      ensures forall j :: 0 <= j < n && !(bottom <= j < lo) ==> a.kind[j] == old(a).kind[j]
      ensures forall j :: bottom <= j < lo ==> FreePage(old(a).kind[j])
    {
      bottom := lo;
      var join := LeftNeighbour(lo, hi);
      if join != NULL {
        LeftTransit(n, m, bm, a, join, lo, hi);
        LeftSettled(a.kind, join, lo);
        AbsorbRun(join, m[join].slab + m[lo].slab, join, lo);
        a := Vacate(a, join, lo);
        bottom := join;
      }
    }

    /** The head of the free run that ends just before the loose run, or NULL. */
    method LeftNeighbour(lo: int, ghost hi: int) returns (join: int)
      requires Holding(lo, hi)
      ensures join == NULL ==> NoFreeRunBefore(a.kind, lo)
      ensures join != NULL ==> EndsAt(a.kind, join, lo)
    {
      if lo == 0 {
        LeftEdge(n, m, bm, a);
        return NULL;
      }
      join := lo - 1;
      LeftGuard(n, m, bm, a, lo);
      if m[join].tag != TAG_PAGE {
        return NULL;
      }
      if m[join].slab == 0 {
        join := m[join].prev;
      }
      if m[join].next == NULL {
        return NULL;
      }
    }

    /** `free_pages`: return a run to the free list, merged with the free runs around it. */
    method FreePages(page: int, pages: nat) returns (ghost lo: int, ghost hi: int)
      requires Core(n, m, bm, a) && IsRun(a.kind, page, page + pages)
      requires a.kind[page].Slab? ==> Home(n, a.kind[page]) != NULL
      requires forall j :: 0 <= j < n ==> !a.kind[j].Transit?
      modifies this`m, this`a
      ensures Core(n, m, bm, a)
      ensures 0 <= lo <= page && page + pages <= hi <= n
      ensures forall j :: lo <= j < hi && !(page <= j < page + pages) ==> FreePage(old(a).kind[j])
      ensures a.kind == Paint(old(a).kind, lo, hi, FreeHead(hi - lo), FreeBody(lo)) && a.touched
    {
      Detach(page, pages);
      var top := JoinRight(page, page + pages);
      var bottom := JoinLeft(page, top);
      lo, hi := bottom, top;
      DepositCore(n, m, bm, a, bottom, top);
      if top - bottom > 1 {
        m := m[top - 1 := m[top - 1].(prev := bottom, tag := TAG_PAGE)];
      }
      m := m[bottom := m[bottom].(prev := n, next := m[n].next, tag := TAG_PAGE)];
      var f := m[bottom].next;
      m := m[f := m[f].(prev := bottom, tag := TAG_PAGE)];
      m := m[n := m[n].(next := bottom)];
      a := Return(a, bottom, top);
    }

    // ----- alloc -----

    /** The first free chunk of a slab page that is not full. */
    method FindChunk(page: int, shift: nat) returns (c: nat)
      requires Core(n, m, bm, a) && 0 <= page < n && InSlot(a.kind[page], shift)
      ensures c < Cells(shift) && c !in a.kind[page].used
      ensures forall d :: 0 <= d < c ==> d in a.kind[page].used
    {
      assert NodeOk(m[page], bm[page], a, page);
      c := FirstFree(m[page].slab, bm[page], shift, a.kind[page].used);
    }

    /** Mark chunk `c` and take the page off its slot list when that was its last free chunk. */
    method TakeChunk(page: int, shift: nat, c: nat)
      requires Core(n, m, bm, a) && 0 <= page < n && InSlot(a.kind[page], shift)
      requires c < Cells(shift) && c !in a.kind[page].used
      requires forall d :: 0 <= d < c ==> d in a.kind[page].used
      modifies this`m, this`bm, this`a
      ensures Core(n, m, bm, a)
      ensures a.kind == old(a).kind[page := Slab(shift, old(a).kind[page].used + {c})] && a.touched == old(a).touched
    {
      ghost var used := a.kind[page].used;
      assert NodeOk(m[page], bm[page], a, page);
      MarkOk(m[page].slab, bm[page], shift, used, c);
      var mark := Mark(m[page].slab, bm[page], shift, c);
      MapFullOk(mark.0, mark.1, shift, used + {c});
      var full := PageFull(mark.0, mark.1, shift, c, used);
      bm := bm[page := mark.1];
      if full {
        SlabFill(n, m, old(bm), a, page, mark.0, mark.1, used + {c});
        UnlinkPage(page);
        m := m[page := Node(mark.0, NULL, NULL, Tag(shift))];
      } else {
        SlabWrite(n, m, old(bm), a, page, mark.0, mark.1, used + {c});
        m := m[page := m[page].(slab := mark.0)];
      }
      a := WithKind(a, page, Slab(shift, used + {c}));
    }

    /** Turn a freshly cut page into a slab page whose first chunk is handed out. */
    method NewSlabPage(page: int, shift: nat)
      requires Core(n, m, bm, a) && 0 <= page < n && a.kind[page] == BusyHead(1) && ShiftOk(shift)
      requires m[SlotHdr(n, shift)].next == SlotHdr(n, shift)
      modifies this`m, this`bm, this`a
      ensures Core(n, m, bm, a)
      ensures a.kind == old(a).kind[page := Slab(shift, FirstUsed(shift))] && a.touched == old(a).touched
    {
      var slot := SlotHdr(n, shift);
      var words: seq<nat> := bm[page];
      if shift < EXACT_SHIFT {
        words := words[0 := 2 * Pow2(Reserved(shift)) - 1];
        var i := 1;
        while i < MapWords(shift)
          invariant 1 <= i && |words| == 8 && words[0] == 2 * Pow2(Reserved(shift)) - 1
          invariant forall j :: 1 <= j < i && j < 8 ==> words[j] == 0
        {
          words := words[i := 0];
          i := i + 1;
        }
      }
      FirstLayout(shift, words);
      SlabNew(n, m, bm, a, page, FirstSlab(shift), words, Slab(shift, FirstUsed(shift)));
      bm := bm[page := words];
      m := m[page := Node(FirstSlab(shift), slot, slot, Tag(shift))];
      m := m[slot := m[slot].(next := page)];
      a := Relist(a, page, Slab(shift, FirstUsed(shift)));
    }

    /** No memory is left for a chunk of this class: no slab page of the class has a free chunk and
        no page is free. */
    ghost predicate NoRoom(shift: nat)
      reads this
    {
      forall i :: 0 <= i < |a.kind| ==> !InSlot(a.kind[i], shift) && !FreePage(a.kind[i])
    }

    /** The first free chunk of the first page on a slot list. */
    method ChunkFromSlot(page: int, shift: nat) returns (ghost ch: Chunk, p: nat)
      requires Valid() && 0 <= page < n && InSlot(a.kind[page], shift)
      modifies this`m, this`bm, this`a
      ensures Valid() && p != 0
      ensures ch.Cell? && ch.shift == shift && p == start + Offset(ch) && Gains(old(a).kind, a.kind, ch)
    {
      var c := FindChunk(page, shift);
      assert NodeOk(m[page], bm[page], a, page);
      MarkGains(a.kind, page, c);
      TakeChunk(page, shift, c);
      ch := Cell(page, shift, c);
      p := start + Offset(Cell(page, shift, c));
    }

    /** The first chunk of a new slab page, when no page of the class has a free one. */
    method ChunkFromPage(shift: nat) returns (ghost ch: Chunk, p: nat)
      requires Valid() && ShiftOk(shift) && m[SlotHdr(n, shift)].next == SlotHdr(n, shift)
      modifies this`m, this`bm, this`a
      ensures Valid()
      ensures p == 0 ==> m == old(m) && bm == old(bm) && a == old(a) && forall i :: 0 <= i < n ==> !FreePage(a.kind[i])
      ensures p != 0 ==> ch.Cell? && ch.shift == shift && p == start + Offset(ch) && Gains(old(a).kind, a.kind, ch)
    {
      ch := Cell(0, shift, Reserved(shift));
      var page := AllocPages(1);
      if page == NULL {
        forall i | 0 <= i < n ensures !FreePage(a.kind[i]) {
          assert !Span(a.kind, i, 1);
        }
        return ch, 0;
      }
      NewGains(old(a), page, shift);
      NewSlabPage(page, shift);
      ch := Cell(page, shift, Reserved(shift));
      p := start + Offset(Cell(page, shift, Reserved(shift)));
    }

    /** A chunk of class `shift`: from the first page of the slot list, which always has one, or
        from a new page. */
    method AllocChunk(shift: nat) returns (p: nat, ghost ch: Chunk)
      requires Valid() && ShiftOk(shift)
      modifies this`m, this`bm, this`a
      ensures Valid()
      ensures p == 0 ==> m == old(m) && bm == old(bm) && a == old(a) && NoRoom(shift)
      ensures p != 0 ==> ch.Cell? && ch.shift == shift && p == start + Offset(ch) && Gains(old(a).kind, a.kind, ch)
    {
      var page := m[SlotHdr(n, shift)].next;
      FirstInSlot(n, m, bm, a, shift);
      if m[page].next != page {
        ch, p := ChunkFromSlot(page, shift);
      } else {
        ch, p := ChunkFromPage(shift);
      }
    }

    /** `slab_alloc`: on success exactly one chunk becomes live; it holds at least `size` bytes and
        was not live before. On failure nothing changes and there was no room. */
    method Alloc(size: nat) returns (p: nat, ghost ch: Chunk)
      requires Valid()
      modifies this`m, this`bm, this`a
      ensures Valid()
      ensures p == 0 ==> m == old(m) && bm == old(bm) && a == old(a)
      ensures p == 0 && size > MAX_SIZE ==> forall i: nat :: !Span(a.kind, i, PagesFor(size))
      ensures p == 0 && size <= MAX_SIZE ==> exists shift: nat :: FitsClass(size, shift) && NoRoom(shift)
      ensures p != 0 ==> p == start + Offset(ch) && Gains(old(a).kind, a.kind, ch) && size <= Bytes(ch)
      ensures p != 0 && size > MAX_SIZE ==> ch.Run? && Bytes(ch) < size + PAGE_SIZE
      ensures p != 0 && size <= MAX_SIZE ==> ch.Cell? && FitsClass(size, ch.shift)
    {
      if size > MAX_SIZE {
        var pages := PagesFor(size);
        var page := AllocPages(pages);
        ch := Run(0, pages);
        if page != NULL {
          TakeGains(old(a), page, pages);
          ch := Run(page, pages);
          p := start + page * PAGE_SIZE;
        } else {
          p := 0;
        }
        return;
      }
      var shift := MIN_SHIFT;
      Pow2Values();
      if size > Size(MIN_SHIFT) {
        shift := ClassOf(size);
      }
      assert FitsClass(size, shift);
      p, ch := AllocChunk(shift);
    }

    // ----- free -----

    /** Pointers that `slab_free` turns away with a warning: outside the pool, misaligned, or to a
        chunk or page that its bitmap or descriptor shows as not allocated. */
    ghost predicate Rejected(p: nat)
      reads this
    {
      p < start || p > end ||
      ((p - start) / PAGE_SIZE < |a.kind| && RejectedAt(a.kind, (p - start) / PAGE_SIZE, (p - start) % PAGE_SIZE))
    }

    ghost predicate LiveAt(p: nat)
      reads this
    {
      exists ch :: Live(a.kind, ch) && p == start + Offset(ch)
    }

    /** Clear the mark of chunk `c`. A page that was full goes first on its slot list again. */
    method Unchunk(page: int, shift: nat, c: nat)
      requires Core(n, m, bm, a) && 0 <= page < n && a.kind[page].Slab? && a.kind[page].shift == shift
      requires c in a.kind[page].used
      modifies this`m, this`bm, this`a
      ensures ShiftOk(shift) && |m| == |old(m)| && |bm| == n
      ensures Reserved(shift) <= c ==>
                && Core(n, m, bm, a) && a.kind == old(a).kind[page := Slab(shift, old(a).kind[page].used - {c})]
                && !Full(a.kind[page]) && a.touched == old(a).touched
      ensures c < Reserved(shift) ==> Damaged(page, shift, c, old(m), old(bm))
    {
      FullGuard(n, m, bm, a, page);
      var full := if shift == EXACT_SHIFT then m[page].slab == BUSY_WORD else m[page].next == NULL;
      if c < Reserved(shift) {
        Spoil(page, shift, c, full);
        return;
      }
      ghost var used := a.kind[page].used;
      UnmarkOk(m[page].slab, bm[page], shift, used, c);
      var mark := Unmark(m[page].slab, bm[page], shift, c);
      bm := bm[page := mark.1];
      if full {
        SlabUnfill(n, m, old(bm), a, page, mark.0, mark.1, used - {c});
        PushPage(page, SlotHdr(n, shift), Tag(shift));
        a := Relist(a, page, Slab(shift, used - {c}));
      } else {
        SlabWrite(n, m, old(bm), a, page, mark.0, mark.1, used - {c});
        a := WithKind(a, page, Slab(shift, used - {c}));
      }
      m := m[page := m[page].(slab := mark.0)];
    }

    /** The descriptor of the page is as before and its bitmap lacks the bit of `c`. */
    ghost predicate Damaged(page: int, shift: nat, c: nat, m0: seq<Node>, bm0: seq<seq<nat>>)
      reads this
    {
      && 0 <= page < n && n <= |m| == |m0| && n == |bm| == |bm0| && shift < EXACT_SHIFT && c / 64 < |bm0[page]|
      && m[page].tag == TAG_SMALL && m[page].slab == m0[page].slab
      && bm[page] == Unmark(m0[page].slab, bm0[page], shift, c).1
    }

    /** The same writes for a chunk that holds a part of the bitmap. */
    method Spoil(page: int, shift: nat, c: nat, full: bool)
      requires Core(n, m, bm, a) && 0 <= page < n && a.kind[page].Slab? && a.kind[page].shift == shift
      requires ShiftOk(shift) && c < Reserved(shift)
      modifies this`m, this`bm
      ensures Damaged(page, shift, c, old(m), old(bm)) && a == old(a)
    {
      assert NodeOk(m[page], bm[page], a, page);
      assert HeaderOk(n, m, Homes(n, a.kind), SlotHdr(n, shift));
      ReservedCleared(m[page].slab, bm[page], shift, a.kind[page].used, c);
      var mark := Unmark(m[page].slab, bm[page], shift, c);
      bm := bm[page := mark.1];
      if full {
        PushPage(page, SlotHdr(n, shift), Tag(shift));
      }
      m := m[page := m[page].(slab := mark.0)];
    }

    /** Put a page first on a list. */
    method PushPage(page: int, slot: int, tag: nat)
      requires 0 <= slot < |m| && 0 <= page < |m| && 0 <= m[slot].next < |m| && page != slot
      modifies this`m
      ensures m == Push(old(m), slot, page, tag)
    {
      var next := m[slot].next;
      m := m[page := m[page].(next := next)];
      m := m[slot := m[slot].(next := page)];
      m := m[page := m[page].(prev := slot, tag := tag)];
      m := m[next := m[next].(prev := page, tag := tag)];
    }

    /** Clear the mark of chunk `c`, putting the page back on its slot list when it was full, and
        return the page when no live chunk is left on it. A chunk of the bitmap's own is not told
        from the others, and no shape satisfies the invariant any more. */
    method FreeChunk(page: int, shift: nat, c: nat)
      requires Valid() && 0 <= page < n && a.kind[page].Slab? && a.kind[page].shift == shift
      requires c in a.kind[page].used
      modifies this`m, this`bm, this`a
      ensures Reserved(shift) <= c ==> Valid() && Loses(old(a).kind, a.kind, Cell(page, shift, c))
      ensures c < Reserved(shift) ==> forall s :: !Inv(n, m, bm, s)
    {
      ghost var used, slab, words := a.kind[page].used, m[page].slab, bm[page];
      assert NodeOk(m[page], bm[page], a, page);
      assert HasLive(a.kind[page]);
      if Reserved(shift) <= c {
        UnmarkLoses(a.kind, page, c);
      } else {
        ReservedCleared(slab, words, shift, used, c);
      }
      Unchunk(page, shift, c);
      if c < Reserved(shift) {
        NoShape(n, m, bm, page, shift);
      } else {
        assert NodeOk(m[page], bm[page], a, page);
        MapEmptyOk(m[page].slab, bm[page], shift, used - {c});
      }
      ghost var kind1 := a.kind;
      var empty := PageEmpty(m[page].slab, bm[page], shift);
      if empty {
        assert KindOk(a.kind, page);
        ghost var lo, hi := FreePages(page, 1);
        ReturnLoses(kind1, page, 1, lo, hi);
      }
    }

    /** The pointer is to a chunk that holds a part of a SMALL page's bitmap. */
    ghost predicate Clobbers(p: nat)
      reads this
    {
      && start <= p <= end && (p - start) / PAGE_SIZE < |a.kind|
      && ReservedAt(a.kind, (p - start) / PAGE_SIZE, (p - start) % PAGE_SIZE)
    }

    /** `slab_free`, for every pointer outside the pool or on one of its pages: the chunk at a live
        address stops being live and nothing else changes hands; a rejected pointer changes nothing;
        a pointer that is not live changes no live chunk; and the invariant is kept exactly when the
        pointer is not to a chunk of a SMALL page's own bitmap. */
    method Free(p: nat)
      requires Valid() && (p < start + n * PAGE_SIZE || p > end)
      modifies this`m, this`bm, this`a
      ensures !old(Clobbers(p)) ==> Valid()
      ensures old(Clobbers(p)) <==> forall s :: !Inv(n, m, bm, s)
      ensures forall ch :: Live(old(a).kind, ch) && p == start + Offset(ch) ==> Loses(old(a).kind, a.kind, ch)
      ensures old(Rejected(p)) ==> m == old(m) && bm == old(bm) && a == old(a)
      ensures !old(LiveAt(p)) && !old(Clobbers(p)) ==> forall ch :: Live(a.kind, ch) <==> Live(old(a).kind, ch)
    {
      hide Core;
      hide Settled;
      hide Live;
      hide RejectedAt;
      hide ReservedAt;
      hide Loses;
      hide Target;
      hide Offset;
      CoreSizes(n, m, bm, a);
      LiveInside(n, m, bm, a);
      if p < start || p > end {
        return;
      }
      OnlyTarget(n, m, bm, a, p - start);
      assert (p - start) / PAGE_SIZE < n;
      TargetAt(n, m, bm, a, p - start);
      FreeAt((p - start) / PAGE_SIZE, (p - start) % PAGE_SIZE);
    }

    /** Release what starts at offset `off` of a page. */
    method FreeAt(page: nat, off: nat)
      requires Valid() && page < n && off < PAGE_SIZE
      modifies this`m, this`bm, this`a
      ensures RejectedAt(old(a).kind, page, off) ==> m == old(m) && bm == old(bm) && a == old(a)
      ensures ReservedAt(old(a).kind, page, off) ==> forall s :: !Inv(n, m, bm, s)
      ensures !ReservedAt(old(a).kind, page, off) ==> Valid()
      ensures Live(old(a).kind, Target(old(a).kind, page, off)) && !RejectedAt(old(a).kind, page, off) ==>
                Loses(old(a).kind, a.kind, Target(old(a).kind, page, off))
      ensures old(a).kind[page].FreeHead? && !RejectedAt(old(a).kind, page, off) ==> a.kind == old(a).kind
    {
      TagGuard(n, m, bm, a, page);
      if m[page].tag == TAG_PAGE {
        if off != 0 || m[page].slab == 0 || m[page].slab == BUSY_WORD {
          return;
        }
        FreeRun(page);
      } else {
        var shift := if m[page].tag == TAG_EXACT then EXACT_SHIFT else LowBits(m[page].slab, 4);
        if LowBits(off, shift) != 0 {
          return;
        }
        var c := ShiftRight(off, shift);
        ChunkNumber(off, shift);
        MarkedOk(m[page].slab, bm[page], shift, a.kind[page].used, c);
        if !Marked(m[page].slab, bm[page], shift, c) {
          return;
        }
        FreeChunk(page, shift, c);
      }
    }

    /** Return a run of whole pages. A run that is free already only moves to the front of the list. */
    method FreeRun(page: int)
      requires Valid() && 0 <= page < n && (a.kind[page].BusyHead? || a.kind[page].FreeHead?)
      modifies this`m, this`a
      ensures Valid()
      ensures old(a).kind[page].BusyHead? ==> Loses(old(a).kind, a.kind, Run(page, old(a).kind[page].len))
      ensures old(a).kind[page].FreeHead? ==> a.kind == old(a).kind
    {
      assert KindOk(a.kind, page) && NodeOk(m[page], bm[page], a, page);
      var slab := m[page].slab;
      var size := if slab >= PAGE_START then slab - PAGE_START else slab;
      ghost var kind0 := a.kind;
      ghost var lo, hi := FreePages(page, size);
      if kind0[page].BusyHead? {
        ReturnLoses(kind0, page, size, lo, hi);
      } else {
        FreeAgain(kind0, page, lo, hi);
      }
    }

    /** A pointer between the last page and the end of the pool passes the code's test, is no chunk, and leads
        to a descriptor behind the page table. */
    lemma BehindLast(p: nat)
      requires Valid() && start + n * PAGE_SIZE <= p <= end
      ensures !LiveAt(p) && !Rejected(p) && (p - start) / PAGE_SIZE >= n
    {
      LiveInside(n, m, bm, a);
    }
  }

  /** Freeing every live chunk, in whatever order, brings the pool back to one free run over all
      its pages with every slot list empty. */
  method ReleaseAll(pool: Pool, ps: seq<nat>, ghost chs: seq<Chunk>)
    requires pool.Valid() && |ps| == |chs|
    requires forall i, j :: 0 <= i < j < |chs| ==> chs[i] != chs[j]
    requires forall i :: 0 <= i < |chs| ==> ps[i] == pool.start + Offset(chs[i])
    requires forall ch :: Live(pool.a.kind, ch) <==> ch in chs
    modifies pool
    ensures pool.Valid() && forall ch :: !Live(pool.a.kind, ch)
    ensures pool.a.kind[0] == FreeHead(pool.n)
    ensures pool.m[pool.n].next == 0 && pool.m[0].next == pool.n && pool.m[0].prev == pool.n && pool.m[0].slab == pool.n
    ensures forall shift: nat :: ShiftOk(shift) ==> pool.m[SlotHdr(pool.n, shift)].next == SlotHdr(pool.n, shift)
  {
    var i := 0;
    while i < |ps|
      invariant 0 <= i <= |ps| && pool.Valid()
      invariant forall ch :: Live(pool.a.kind, ch) <==> ch in chs[i..]
    {
      assert chs[i] in chs[i..];
      assert Live(pool.a.kind, chs[i]);
      ghost var kind := pool.a.kind;
      LiveInside(pool.n, pool.m, pool.bm, pool.a);
      OnlyTarget(pool.n, pool.m, pool.bm, pool.a, Offset(chs[i]));
      TargetAt(pool.n, pool.m, pool.bm, pool.a, Offset(chs[i]));
      pool.Free(ps[i]);
      assert Loses(kind, pool.a.kind, chs[i]);
      assert chs[i..] == [chs[i]] + chs[i + 1..];
      i := i + 1;
    }
    FullRecovery(pool.n, pool.m, pool.bm, pool.a);
  }
}
