/** The state of the shared-memory slab pool (64-bit words, 4096-byte pages, min_shift 3).

    Page descriptors and list headers live in one table of nodes. A pointer to a node is
    its index: 0..n-1 are the pages, n is the free-list header and n+1+k is the header of
    slot k. The two low bits that the code hides in `prev` are the separate field `tag`. */
module SlabState {
  import opened Words

  const NULL: int := -1
  const PAGE_SIZE: nat := 4096
  const PAGE_START: nat := 0x8000_0000_0000_0000
  const MAX_SIZE: nat := 2048
  const MIN_SHIFT: nat := 3
  const EXACT_SHIFT: nat := 6
  const SLOTS: nat := 9

  const TAG_PAGE: nat := 0
  const TAG_BIG: nat := 1
  const TAG_EXACT: nat := 2
  const TAG_SMALL: nat := 3

  datatype Node = Node(slab: nat, next: int, prev: int, tag: nat)

  /** What a page is used for. `Transit` is a page that is being returned to the free list.
      `used` holds the numbers of the taken chunks, the bitmap's own chunks included. */
  datatype Kind =
    | FreeHead(len: nat)
    | FreeBody(head: int)
    | BusyHead(len: nat)
    | BusyBody(head: int)
    | Slab(shift: nat, used: set<nat>)
    | Transit

  /** The abstract pool: the use of each page, its age on the list that holds it (a larger
      `rank` is nearer to the header), a bound on the ranks, and whether a page has ever been
      handed out. */
  datatype Shape = Shape(kind: seq<Kind>, rank: seq<nat>, clock: nat, touched: bool)

  function FreeHdr(n: nat): int { n }

  function SlotHdr(n: nat, shift: nat): int
    requires MIN_SHIFT <= shift
  {
    n + 1 + shift - MIN_SHIFT
  }

  predicate ShiftOk(shift: nat) { MIN_SHIFT <= shift < MIN_SHIFT + SLOTS }

  function Size(shift: nat): nat { Pow2(shift) }

  function Cells(shift: nat): nat
    requires ShiftOk(shift)
  {
    Pow2(12 - shift)
  }

  /** Chunks of a SMALL page that hold its bitmap: the C expression
      `(1 << (12 - shift)) / 8 / (1 << shift)`, raised to 1 when it is 0. */
  function Reserved(shift: nat): nat
  {
    if shift == 3 then 8 else if shift == 4 then 2 else if shift == 5 then 1 else 0
  }

  /** Bitmap words of a SMALL page: `(1 << (12 - shift)) / 64`. */
  function MapWords(shift: nat): nat
  {
    if shift == 3 then 8 else if shift == 4 then 4 else if shift == 5 then 2 else 0
  }

  lemma Geometry(shift: nat)
    requires ShiftOk(shift)
    ensures Size(shift) * Cells(shift) == PAGE_SIZE
    ensures shift < EXACT_SHIFT ==> Cells(shift) == 64 * MapWords(shift)
    ensures shift < EXACT_SHIFT ==> Reserved(shift) == (if Cells(shift) / 8 / Size(shift) == 0 then 1 else Cells(shift) / 8 / Size(shift))
    ensures shift < EXACT_SHIFT ==> 8 * MapWords(shift) <= Reserved(shift) * Size(shift)
    ensures shift == EXACT_SHIFT ==> Cells(shift) == 64
    ensures shift > EXACT_SHIFT ==> Cells(shift) <= 32
    ensures Reserved(shift) < Cells(shift) && 8 <= Size(shift) <= MAX_SIZE && Cells(shift) >= 2
  {
    Pow2Values();
    assert shift == 3 || shift == 4 || shift == 5 || shift == 6 || shift == 7 || shift == 8
        || shift == 9 || shift == 10 || shift == 11;
  }

  function Tag(shift: nat): nat
  {
    if shift < EXACT_SHIFT then TAG_SMALL else if shift == EXACT_SHIFT then TAG_EXACT else TAG_BIG
  }

  /** Every chunk of the slab page is taken. */
  predicate Full(k: Kind)
    requires k.Slab? && ShiftOk(k.shift)
  {
    forall c :: 0 <= c < Cells(k.shift) ==> c in k.used
  }

  /** A chunk other than the bitmap's own is taken. */
  predicate HasLive(k: Kind)
    requires k.Slab?
  {
    exists c :: c in k.used && c >= Reserved(k.shift)
  }

  /** SMALL: the bitmap is in the first words of the page. */
  predicate SmallMap(words: seq<nat>, map_words: nat, used: set<nat>)
    requires map_words <= |words|
  {
    && (forall j :: 0 <= j < map_words ==> words[j] <= BUSY_WORD)
    && (forall c :: 0 <= c < 64 * map_words ==> (c in used <==> Bit(words[c / 64], c % 64)))
  }

  /** EXACT: the `slab` word is the bitmap. */
  predicate ExactMap(slab: nat, used: set<nat>)
  {
    && slab <= BUSY_WORD
    && (forall c :: 0 <= c < 64 ==> (c in used <==> Bit(slab, c)))
  }

  /** The upper half of a word, `(w & MAP_MASK) >> 32`. */
  function High(w: nat): nat { ShiftRight(w, 32) }

  /** BIG: the upper half of `slab` is the bitmap, its low four bits the shift. */
  predicate BigMap(slab: nat, shift: nat, cells: nat, used: set<nat>)
  {
    && LowBits(slab, 4) == shift
    && High(slab) < Pow2(cells)
    && (forall c :: 0 <= c < cells ==> (c in used <==> Bit(High(slab), c)))
  }

  /** The bitmap of a slab page records exactly the taken chunks. `words` are the first eight
      words of the page, where a SMALL page keeps its bitmap. */
  predicate LayoutOk(slab: nat, words: seq<nat>, shift: nat, used: set<nat>)
    requires ShiftOk(shift)
  {
    && (forall c :: c in used ==> c < Cells(shift))
    && (forall c :: 0 <= c < Reserved(shift) ==> c in used)
    && |words| == 8
    && (shift < EXACT_SHIFT ==> slab == shift && SmallMap(words, MapWords(shift), used))
    && (shift == EXACT_SHIFT ==> ExactMap(slab, used))
    && (shift > EXACT_SHIFT ==> BigMap(slab, shift, Cells(shift), used))
  }

  /** Page `i` is well described: runs are tiled by their bodies, and no free run is followed
      by another free run. */
  predicate KindOk(kind: seq<Kind>, i: int)
    requires 0 <= i < |kind|
  {
    match kind[i]
    case FreeHead(len) =>
      && 1 <= len <= |kind| - i
      && (forall j :: i < j < i + len ==> kind[j] == FreeBody(i))
      && (i + len < |kind| ==> !kind[i + len].FreeHead?)
    case BusyHead(len) =>
      && 1 <= len <= |kind| - i
      && (forall j :: i < j < i + len ==> kind[j] == BusyBody(i))
    case FreeBody(h) => 0 <= h < i && kind[h].FreeHead? && i < h + kind[h].len
    case BusyBody(h) => 0 <= h < i && kind[h].BusyHead? && i < h + kind[h].len
    case Slab(shift, used) => ShiftOk(shift)
    case Transit => true
  }

  predicate KindsOk(kind: seq<Kind>)
  {
    forall i {:trigger KindOk(kind, i)} :: 0 <= i < |kind| ==> KindOk(kind, i)
  }

  /** A slab page of class `shift` with a free chunk. */
  predicate InSlot(k: Kind, shift: nat)
  {
    k.Slab? && ShiftOk(k.shift) && k.shift == shift && !Full(k)
  }

  /** The header of the list that holds a page: the free list for a free run's head, the slot
      list of its class for a slab page with a free chunk, no list otherwise. */
  function Home(n: nat, k: Kind): int
  {
    if k.FreeHead? then FreeHdr(n)
    else if k.Slab? && ShiftOk(k.shift) && !Full(k) then SlotHdr(n, k.shift)
    else NULL
  }

  function Homes(n: nat, kind: seq<Kind>): (r: seq<int>)
    ensures |r| == |kind| && forall i :: 0 <= i < |kind| ==> r[i] == Home(n, kind[i])
  {
    seq(|kind|, i requires 0 <= i < |kind| => Home(n, kind[i]))
  }

  /** Page `i`, on the list of header `home[i]`, is doubly linked with its two neighbours. */
  predicate LinkOk(n: nat, m: seq<Node>, home: seq<int>, rank: seq<nat>, i: int)
    requires n <= |m| && |home| == |rank| == n && 0 <= i < n
  {
    var h := home[i];
    var q := m[i].next;
    var p := m[i].prev;
    && n <= h < |m|
    && (q != h ==> 0 <= q < n && home[q] == h && m[q].prev == i && rank[q] < rank[i])
    && (p != h ==> 0 <= p < n && home[p] == h && m[p].next == i && rank[i] < rank[p])
    && (p == h ==> m[h].next == i)
  }

  predicate HeaderOk(n: nat, m: seq<Node>, home: seq<int>, h: int)
    requires n <= |m| && |home| == n && 0 <= h < |m|
  {
    var q := m[h].next;
    q != h ==> 0 <= q < n && home[q] == h && m[q].prev == h
  }

  /** The pages of each list are doubly linked from its header and back to it. The header's own
      `prev` is written by the code but never read, so it is not constrained. */
  predicate LinksOk(n: nat, m: seq<Node>, home: seq<int>, rank: seq<nat>)
  {
    && |m| == n + 1 + SLOTS && |home| == |rank| == n
    && (forall i {:trigger LinkOk(n, m, home, rank, i)} :: 0 <= i < n && home[i] != NULL ==> LinkOk(n, m, home, rank, i))
    && (forall h {:trigger HeaderOk(n, m, home, h)} :: n <= h < |m| ==> HeaderOk(n, m, home, h))
  }

  /** The descriptor of a page agrees with its use. */
  predicate NodeOk(p: Node, words: seq<nat>, a: Shape, i: int)
    requires 0 <= i < |a.kind| && KindsOk(a.kind)
  {
    match a.kind[i]
    case FreeHead(len) => p.slab == len && p.tag == TAG_PAGE
    case FreeBody(h) =>
      && p.slab == 0 && p.next == NULL && p.tag == TAG_PAGE
      && (KindOk(a.kind, i) && i == h + a.kind[h].len - 1 && a.touched ==> p.prev == h)
    case BusyHead(len) => p.slab == PAGE_START + len && p.next == NULL && p.tag == TAG_PAGE
    case BusyBody(_) => p.slab == BUSY_WORD && p.next == NULL && p.tag == TAG_PAGE
    case Slab(shift, used) =>
      && ShiftOk(shift) && LayoutOk(p.slab, words, shift, used)
      && p.tag == Tag(shift)
      && (Full(a.kind[i]) ==> p.next == NULL)
    case Transit => true
  }

  /** Before the first allocation the pool is the single free run that init built. */
  predicate TouchedOk(a: Shape)
  {
    !a.touched ==> |a.kind| > 0 && a.kind[0] == FreeHead(|a.kind|)
  }

  /** The invariant of the pool, allowing pages in transit and slab pages without a live chunk. */
  predicate Core(n: nat, m: seq<Node>, bm: seq<seq<nat>>, a: Shape)
  {
    && |m| == n + 1 + SLOTS && |bm| == n && |a.kind| == n && |a.rank| == n
    && (forall i :: 0 <= i < n ==> |bm[i]| == 8)
    && KindsOk(a.kind)
    && LinksOk(n, m, Homes(n, a.kind), a.rank)
    && (forall i :: 0 <= i < n ==> a.rank[i] < a.clock)
    && (forall i {:trigger NodeOk(m[i], bm[i], a, i)} :: 0 <= i < n ==> NodeOk(m[i], bm[i], a, i))
    && TouchedOk(a)
  }

  predicate Settled(kind: seq<Kind>)
  {
    forall i :: 0 <= i < |kind| ==> !kind[i].Transit? && (kind[i].Slab? ==> HasLive(kind[i]))
  }

  /** The invariant between operations. */
  predicate Inv(n: nat, m: seq<Node>, bm: seq<seq<nat>>, a: Shape)
  {
    && Core(n, m, bm, a)
    && Settled(a.kind)
    && 1 <= n < 0x10_0000_0000_0000
  }
}
