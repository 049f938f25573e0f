/** What the pool invariant says to the users of the pool. */
module SlabTheorems {
  import opened Words
  import opened SlabState
  import opened SlabPages

  /** An allocation: a run of whole pages, or chunk number `index` of a slab page. */
  datatype Chunk = Run(page: nat, len: nat) | Cell(page: nat, shift: nat, index: nat)

  predicate Live(kind: seq<Kind>, ch: Chunk)
  {
    && ch.page < |kind|
    && match ch
       case Run(i, len) => kind[i] == BusyHead(len)
       case Cell(i, shift, c) => kind[i].Slab? && kind[i].shift == shift && c in kind[i].used && Reserved(shift) <= c
  }

  function Offset(ch: Chunk): nat
  {
    match ch
    case Run(i, _) => i * PAGE_SIZE
    case Cell(i, shift, c) => i * PAGE_SIZE + c * Size(shift)
  }

  function Bytes(ch: Chunk): nat
  {
    match ch
    case Run(_, len) => len * PAGE_SIZE
    case Cell(_, shift, _) => Size(shift)
  }

  lemma CellBounds(size: nat, cells: nat, c: nat)
    requires c < cells && size * cells == PAGE_SIZE
    ensures c * size + size <= PAGE_SIZE
  {
    assert (c + 1) * size <= cells * size;
  }

  /** A live chunk of a slab page lies inside that page, aligned to its size class, and clear of
      the bitmap that a SMALL page keeps in its first words. */
  lemma CellPlace(page: nat, shift: nat, c: nat)
    requires ShiftOk(shift) && Reserved(shift) <= c < Cells(shift)
    ensures var ch := Cell(page, shift, c);
            && page * PAGE_SIZE <= Offset(ch) && Offset(ch) + Bytes(ch) <= (page + 1) * PAGE_SIZE
            && (exists q: nat :: Offset(ch) == q * Bytes(ch))
            && (shift < EXACT_SHIFT ==> page * PAGE_SIZE + 8 * MapWords(shift) <= Offset(ch))
  {
    Geometry(shift);
    CellBounds(Size(shift), Cells(shift), c);
    CellAligned(page, shift, c);
    assert c * Size(shift) >= Reserved(shift) * Size(shift);
  }

  /** Every live chunk lies inside the pool. */
  lemma LivePlace(n: nat, m: seq<Node>, bm: seq<seq<nat>>, a: Shape, ch: Chunk)
    requires Core(n, m, bm, a) && Live(a.kind, ch)
    ensures ch.Run? ==> 1 <= ch.len && ch.page + ch.len <= n
    ensures ch.Cell? ==> ShiftOk(ch.shift) && Reserved(ch.shift) <= ch.index < Cells(ch.shift)
    ensures Offset(ch) + Bytes(ch) <= n * PAGE_SIZE
  {
    assert KindOk(a.kind, ch.page);
    assert NodeOk(m[ch.page], bm[ch.page], a, ch.page);
    if ch.Cell? {
      CellPlace(ch.page, ch.shift, ch.index);
    }
  }

  lemma CellAligned(page: nat, shift: nat, c: nat)
    requires ShiftOk(shift)
    ensures exists q: nat :: page * PAGE_SIZE + c * Size(shift) == q * Size(shift)
  {
    Geometry(shift);
    var q := page * Cells(shift) + c;
    assert q * Size(shift) == page * (Size(shift) * Cells(shift)) + c * Size(shift);
  }

  /** The bytes of two different live chunks never overlap. */
  lemma LiveDisjoint(n: nat, m: seq<Node>, bm: seq<seq<nat>>, a: Shape, x: Chunk, y: Chunk)
    requires Core(n, m, bm, a) && Live(a.kind, x) && Live(a.kind, y) && x != y
    ensures Offset(x) + Bytes(x) <= Offset(y) || Offset(y) + Bytes(y) <= Offset(x)
  {
    LivePlace(n, m, bm, a, x);
    LivePlace(n, m, bm, a, y);
    assert KindOk(a.kind, x.page);
    assert KindOk(a.kind, y.page);
    if x.Cell? {
      CellPlace(x.page, x.shift, x.index);
    }
    if y.Cell? {
      CellPlace(y.page, y.shift, y.index);
    }
    if x.page == y.page {
      CellsDisjoint(x.index, y.index, Size(x.shift));
    } else if x.page < y.page {
      if x.Run? {
        assert !(x.page < y.page < x.page + x.len);
        assert (x.page + x.len) * PAGE_SIZE <= y.page * PAGE_SIZE;
      }
    } else {
      if y.Run? {
        assert !(y.page < x.page < y.page + y.len);
        assert (y.page + y.len) * PAGE_SIZE <= x.page * PAGE_SIZE;
      }
    }
  }

  lemma CellsDisjoint(c: nat, d: nat, size: nat)
    requires c != d
    ensures c * size + size <= d * size || d * size + size <= c * size
  {
    if c < d {
      assert (c + 1) * size <= d * size;
    } else {
      assert (d + 1) * size <= c * size;
    }
  }

  // ----- writing to live chunks -----

  /** Word `j` of page `i` lies outside the chunk. */
  predicate WordApart(ch: Chunk, i: nat, j: nat)
  {
    var w := i * PAGE_SIZE + 8 * j;
    w + 8 <= Offset(ch) || Offset(ch) + Bytes(ch) <= w
  }

  /** The bitmap words of a SMALL page lie outside every live chunk. */
  lemma BitmapApart(n: nat, m: seq<Node>, bm: seq<seq<nat>>, a: Shape, ch: Chunk, i: nat, j: nat)
    requires Core(n, m, bm, a) && Live(a.kind, ch) && i < n && a.kind[i].Slab? && j < MapWords(a.kind[i].shift)
    ensures WordApart(ch, i, j)
  {
    LivePlace(n, m, bm, a, ch);
    assert KindOk(a.kind, i) && KindOk(a.kind, ch.page);
    assert j < 8;
    if ch.Cell? {
      CellPlace(ch.page, ch.shift, ch.index);
    }
    if i < ch.page {
      assert (i + 1) * PAGE_SIZE <= ch.page * PAGE_SIZE;
    } else if ch.page < i {
      if ch.Run? {
        assert ch.page + ch.len <= i;
        assert (ch.page + ch.len) * PAGE_SIZE <= i * PAGE_SIZE;
      } else {
        assert (ch.page + 1) * PAGE_SIZE <= i * PAGE_SIZE;
      }
    }
  }

  /** Clients may write what they like to a live chunk: any change of the memory that stays inside it keeps the
      invariant of the pool. */
  lemma ClientWrite(n: nat, m: seq<Node>, bm: seq<seq<nat>>, bm': seq<seq<nat>>, a: Shape, ch: Chunk)
    requires Inv(n, m, bm, a) && Live(a.kind, ch)
    requires |bm'| == n && forall i :: 0 <= i < n ==> |bm'[i]| == 8
    requires forall i: nat, j: nat {:trigger WordApart(ch, i, j)} :: i < n && j < 8 && WordApart(ch, i, j) ==> bm'[i][j] == bm[i][j]
    ensures Inv(n, m, bm', a)
  {
    forall i | 0 <= i < n ensures NodeOk(m[i], bm'[i], a, i) {
      assert NodeOk(m[i], bm[i], a, i);
      if a.kind[i].Slab? {
        forall j | 0 <= j < MapWords(a.kind[i].shift) ensures bm'[i][j] == bm[i][j] {
          BitmapApart(n, m, bm, a, ch, i, j);
        }
        SameMap(bm[i], bm'[i], MapWords(a.kind[i].shift), a.kind[i].used);
      }
    }
  }

  lemma SameMap(words: seq<nat>, words': seq<nat>, mw: nat, used: set<nat>)
    requires mw <= |words| == |words'| && forall j :: 0 <= j < mw ==> words'[j] == words[j]
    ensures SmallMap(words, mw, used) <==> SmallMap(words', mw, used)
  {
  }

  // ----- free space -----

  predicate FreePage(k: Kind) { k.FreeHead? || k.FreeBody? }

  /** `k` consecutive pages are free. */
  predicate Span(kind: seq<Kind>, i: nat, k: nat)
  {
    i + k <= |kind| && forall j :: i <= j < i + k ==> FreePage(kind[j])
  }

  /** Because free runs are never adjacent, consecutive free pages lie in one run. */
  lemma SpanInRun(kind: seq<Kind>, i: nat, k: nat) returns (h: int)
    requires KindsOk(kind) && k >= 1 && Span(kind, i, k)
    ensures 0 <= h <= i && kind[h].FreeHead? && i + k <= h + kind[h].len <= |kind|
  {
    assert FreePage(kind[i]) && KindOk(kind, i);
    h := if kind[i].FreeHead? then i else kind[i].head;
    assert KindOk(kind, h);
    RunEnds(kind, h);
  }

  lemma RunEnds(kind: seq<Kind>, h: int)
    requires KindsOk(kind) && 0 <= h < |kind| && kind[h].FreeHead?
    ensures var e := h + kind[h].len; e < |kind| ==> !FreePage(kind[e])
  {
    assert forall x {:trigger kind[x]} :: 0 <= x < |kind| ==> KindOk(kind, x);
  }

  lemma RunIsSpan(kind: seq<Kind>, h: nat, k: nat)
    requires KindsOk(kind) && h < |kind| && kind[h].FreeHead? && k <= kind[h].len
    ensures Span(kind, h, k)
  {
    assert KindOk(kind, h);
  }

  // ----- recovery -----

  predicate NothingLive(kind: seq<Kind>)
  {
    forall i :: 0 <= i < |kind| ==> !kind[i].BusyHead? && !(kind[i].Slab? && HasLive(kind[i]))
  }

  lemma NothingLiveMeans(kind: seq<Kind>)
    ensures NothingLive(kind) <==> forall ch :: !Live(kind, ch)
  {
    if NothingLive(kind) {
      forall ch ensures !Live(kind, ch) {
      }
    }
    if forall ch :: !Live(kind, ch) {
      forall i | 0 <= i < |kind| ensures !kind[i].BusyHead? && !(kind[i].Slab? && HasLive(kind[i])) {
        if kind[i].BusyHead? {
          assert Live(kind, Run(i, kind[i].len));
        } else if kind[i].Slab? && HasLive(kind[i]) {
          var c :| c in kind[i].used && c >= Reserved(kind[i].shift);
          assert Live(kind, Cell(i, kind[i].shift, c));
        }
      }
    }
  }

  /** Once nothing is live, the pool is again one free run over all pages, alone on the free
      list, and every slot list is empty. */
  lemma FullRecovery(n: nat, m: seq<Node>, bm: seq<seq<nat>>, a: Shape)
    requires Inv(n, m, bm, a) && forall ch :: !Live(a.kind, ch)
    ensures a.kind[0] == FreeHead(n) && forall j :: 0 < j < n ==> a.kind[j] == FreeBody(0)
    ensures m[FreeHdr(n)].next == 0 && m[0].next == FreeHdr(n) && m[0].prev == FreeHdr(n) && m[0].slab == n
    ensures forall shift: nat :: ShiftOk(shift) ==> m[SlotHdr(n, shift)].next == SlotHdr(n, shift)
  {
    NothingLiveMeans(a.kind);
    AllFree(a.kind);
    var home := Homes(n, a.kind);
    assert home[0] == n;
    assert KindOk(a.kind, 0) && NodeOk(m[0], bm[0], a, 0) && LinkOk(n, m, home, a.rank, 0);
    assert HeaderOk(n, m, home, n);
    forall shift: nat | ShiftOk(shift) ensures m[SlotHdr(n, shift)].next == SlotHdr(n, shift) {
      assert HeaderOk(n, m, home, SlotHdr(n, shift));
    }
  }

  lemma AllFree(kind: seq<Kind>)
    requires KindsOk(kind) && Settled(kind) && NothingLive(kind) && |kind| > 0
    ensures kind[0] == FreeHead(|kind|)
  {
    forall i | 0 <= i < |kind| ensures FreePage(kind[i]) {
      assert KindOk(kind, i);
    }
    assert Span(kind, 0, |kind|);
    var h := SpanInRun(kind, 0, |kind|);
  }

  // ----- the lists -----

  /** The pages met when following `next` from `i` back to header `h`. */
  ghost function Walk(n: nat, m: seq<Node>, home: seq<int>, rank: seq<nat>, h: int, i: int): (s: seq<int>)
    requires LinksOk(n, m, home, rank) && n <= h < |m| && (i == h || (0 <= i < n && home[i] == h))
    decreases if i == h then 0 else rank[i] + 1
  {
    if i == h then [] else
      assert LinkOk(n, m, home, rank, i);
      [i] + Walk(n, m, home, rank, h, m[i].next)
  }

  /** Pages of list `h`, with falling rank. */
  predicate Falling(n: nat, home: seq<int>, rank: seq<nat>, h: int, s: seq<int>)
    requires |home| == |rank| == n
  {
    && (forall k {:trigger s[k]} :: 0 <= k < |s| ==> 0 <= s[k] < n && home[s[k]] == h)
    && (forall j, k {:trigger s[j], s[k]} :: 0 <= j < k < |s| ==> rank[s[k]] < rank[s[j]])
  }

  lemma {:induction false} WalkFalls(n: nat, m: seq<Node>, home: seq<int>, rank: seq<nat>, h: int, i: int)
    requires LinksOk(n, m, home, rank) && n <= h < |m| && (i == h || (0 <= i < n && home[i] == h))
    ensures Falling(n, home, rank, h, Walk(n, m, home, rank, h, i))
    decreases if i == h then 0 else rank[i] + 1
  {
    if i != h {
      assert LinkOk(n, m, home, rank, i);
      WalkFalls(n, m, home, rank, h, m[i].next);
      var t := Walk(n, m, home, rank, h, m[i].next);
      assert t != [] ==> t[0] == m[i].next;
      assert Walk(n, m, home, rank, h, i) == [i] + t;
    }
  }

  lemma {:induction false} WalkNext(n: nat, m: seq<Node>, home: seq<int>, rank: seq<nat>, h: int, i: int, x: int)
    requires LinksOk(n, m, home, rank) && n <= h < |m| && (i == h || (0 <= i < n && home[i] == h))
    requires x in Walk(n, m, home, rank, h, i) && 0 <= x < n && m[x].next != h
    ensures m[x].next in Walk(n, m, home, rank, h, i)
    decreases if i == h then 0 else rank[i] + 1
  {
    assert LinkOk(n, m, home, rank, i);
    var t := Walk(n, m, home, rank, h, m[i].next);
    if x == i {
      assert LinkOk(n, m, home, rank, x);
      assert t[0] == m[x].next;
    } else {
      WalkNext(n, m, home, rank, h, m[i].next, x);
    }
  }

  lemma {:induction false} WalkMeetsAll(n: nat, m: seq<Node>, home: seq<int>, rank: seq<nat>, clock: nat, h: int, x: int)
    requires LinksOk(n, m, home, rank) && n <= h < |m| && 0 <= x < n && home[x] == h
    requires forall j :: 0 <= j < n ==> rank[j] < clock
    ensures HeaderOk(n, m, home, h) && x in Walk(n, m, home, rank, h, m[h].next)
    decreases clock - rank[x]
  {
    assert HeaderOk(n, m, home, h) && LinkOk(n, m, home, rank, x);
    var p := m[x].prev;
    if p == h {
      assert Walk(n, m, home, rank, h, x)[0] == x;
    } else {
      WalkMeetsAll(n, m, home, rank, clock, h, p);
      WalkNext(n, m, home, rank, h, m[h].next, p);
    }
  }

  /** Following a list from its header meets each of its pages exactly once, meets nothing
      else, and comes back to the header. For the free list these are the heads of the free
      runs; for a slot list the slab pages of the class that have a free chunk. */
  lemma ListExact(n: nat, m: seq<Node>, bm: seq<seq<nat>>, a: Shape, h: int)
    requires Core(n, m, bm, a) && n <= h < |m|
    ensures HeaderOk(n, m, Homes(n, a.kind), h)
    ensures var s := Walk(n, m, Homes(n, a.kind), a.rank, h, m[h].next);
            && (forall j, k :: 0 <= j < k < |s| ==> s[j] != s[k])
            && (forall i :: i in s <==> 0 <= i < n && Home(n, a.kind[i]) == h)
  {
    var home := Homes(n, a.kind);
    assert HeaderOk(n, m, home, h);
    WalkFalls(n, m, home, a.rank, h, m[h].next);
    var s := Walk(n, m, home, a.rank, h, m[h].next);
    forall i ensures i in s <==> 0 <= i < n && home[i] == h {
      if i in s {
        var k :| 0 <= k < |s| && s[k] == i;
      }
      if 0 <= i < n && home[i] == h {
        WalkMeetsAll(n, m, home, a.rank, a.clock, h, i);
      }
    }
  }

  /** Boundary tags: the last page of a free run longer than one page points back to its head,
      once anything has been handed out. */
  lemma BoundaryTags(n: nat, m: seq<Node>, bm: seq<seq<nat>>, a: Shape, h: nat)
    requires Core(n, m, bm, a) && h < n && a.kind[h].FreeHead? && a.kind[h].len > 1 && a.touched
    ensures var t := h + a.kind[h].len - 1; t < n && m[h].slab == a.kind[h].len && m[t].slab == 0 && m[t].prev == h
  {
    assert KindOk(a.kind, h) && NodeOk(m[h], bm[h], a, h);
    var t := h + a.kind[h].len - 1;
    assert KindOk(a.kind, t) && NodeOk(m[t], bm[t], a, t);
  }
}
