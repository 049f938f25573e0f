/** The layout that `slab_init` computes, and the state it leaves. */
module SlabInit {
  import opened Words
  import opened SlabState
  import opened SlabPages

  const SIZEOF_POOL: nat := 96
  const SIZEOF_PAGE: nat := 24

  function AlignUp(x: nat): nat { (x + PAGE_SIZE - 1) / PAGE_SIZE * PAGE_SIZE }

  function InitStart(base: nat, limit: nat): int
  {
    AlignUp(base + SIZEOF_POOL + SLOTS * SIZEOF_PAGE
            + (if limit < base + SIZEOF_POOL then 0 else (limit - base - SIZEOF_POOL) / (PAGE_SIZE + SIZEOF_PAGE)) * SIZEOF_PAGE)
  }

  /** The number of pages that `init` finds room for; 0 when the segment is too small. */
  function InitPages(base: nat, limit: nat): int
  {
    if limit < base + SIZEOF_POOL || limit < InitStart(base, limit) then 0 else
      var pages := (limit - base - SIZEOF_POOL) / (PAGE_SIZE + SIZEOF_PAGE);
      var fit := (limit - InitStart(base, limit)) / PAGE_SIZE;
      if pages > fit then fit else pages
  }

  /** `x` is the first page boundary at or behind `t`. */
  predicate FirstBoundary(x: int, t: nat)
  {
    x % PAGE_SIZE == 0 && t <= x < t + PAGE_SIZE
  }

  /** The pages start at the first boundary behind the headers and a descriptor for every page that the segment could
      hold together with its descriptor; `n` of them fit in front of the end, and not one more: either the next page
      would pass the end, or with its descriptor it would pass the size of the segment. */
  predicate LargestLayout(base: nat, limit: nat, start: int, n: nat)
  {
    && base + SIZEOF_POOL <= limit
    && FirstBoundary(start, base + SIZEOF_POOL + SLOTS * SIZEOF_PAGE
                            + (limit - base - SIZEOF_POOL) / (PAGE_SIZE + SIZEOF_PAGE) * SIZEOF_PAGE)
    && start + n * PAGE_SIZE <= limit
    && (start + (n + 1) * PAGE_SIZE > limit || (n + 1) * (PAGE_SIZE + SIZEOF_PAGE) > limit - base - SIZEOF_POOL)
  }

  lemma Boundary(x: nat)
    ensures FirstBoundary(AlignUp(x), x)
  {
  }

  /** The computed layout is the largest one, whenever the pages could start inside the segment at all. */
  lemma InitLargest(base: nat, limit: nat)
    requires base + SIZEOF_POOL <= limit && InitStart(base, limit) <= limit
    ensures InitPages(base, limit) >= 0 && LargestLayout(base, limit, InitStart(base, limit), InitPages(base, limit))
  {
    var size := limit - base - SIZEOF_POOL;
    var d := size / (PAGE_SIZE + SIZEOF_PAGE);
    Boundary(base + SIZEOF_POOL + SLOTS * SIZEOF_PAGE + d * SIZEOF_PAGE);
    assert d * (PAGE_SIZE + SIZEOF_PAGE) <= size < (d + 1) * (PAGE_SIZE + SIZEOF_PAGE);
  }

  ghost function FirstShape(n: nat): Shape
  {
    Shape(seq(n, i => if i == 0 then FreeHead(n) else FreeBody(0)), seq(n, i => 0), 1, false)
  }

  lemma FirstCore(n: nat, m: seq<Node>, bm: seq<seq<nat>>)
    requires n >= 1 && |m| == n + 1 + SLOTS && |bm| == n && forall i :: 0 <= i < n ==> |bm[i]| == 8
    requires forall j :: 1 <= j < n ==> m[j] == CLEARED
    requires m[0] == Node(n, n, n, TAG_PAGE) && m[n] == Node(0, 0, NULL, TAG_PAGE)
    requires forall j :: n < j < |m| ==> m[j].next == j
    ensures Core(n, m, bm, FirstShape(n)) && Settled(FirstShape(n).kind)
  {
    var a := FirstShape(n);
    var home := Homes(n, a.kind);
    forall i | 0 <= i < n ensures KindOk(a.kind, i) {
    }
    forall i | 0 <= i < n && home[i] != NULL ensures LinkOk(n, m, home, a.rank, i) {
    }
    forall h | n <= h < |m| ensures HeaderOk(n, m, home, h) {
    }
    forall i | 0 <= i < n ensures NodeOk(m[i], bm[i], a, i) {
    }
  }
}
