/** The page allocator: boundary-tagged runs of pages. Each lemma carries the pool invariant
    across one block of pointer writes of `alloc_pages` or `free_pages`. */
module SlabPages {
  import opened Words
  import opened SlabState
  import opened SlabLists

  const CLEARED: Node := Node(0, NULL, NULL, TAG_PAGE)

  /** Pages `lo..hi` become one run: `head` first, `body` after it. */
  function Paint(kind: seq<Kind>, lo: int, hi: int, head: Kind, body: Kind): (r: seq<Kind>)
    requires 0 <= lo < hi <= |kind|
    ensures |r| == |kind|
    ensures forall j :: 0 <= j < |kind| ==> r[j] == (if j == lo then head else if lo < j < hi then body else kind[j])
  {
    seq(|kind|, j requires 0 <= j < |kind| => if j == lo then head else if lo < j < hi then body else kind[j])
  }

  predicate AllTransit(kind: seq<Kind>, lo: int, hi: int)
    requires 0 <= lo <= hi <= |kind|
  {
    forall j :: lo <= j < hi ==> kind[j] == Transit
  }

  /** The pages of a run that starts at `lo` and ends before `hi`. */
  predicate IsRun(kind: seq<Kind>, lo: int, hi: int)
  {
    && 0 <= lo < hi <= |kind|
    && match kind[lo]
       case FreeHead(len) => hi == lo + len
       case BusyHead(len) => hi == lo + len
       case Slab(_, _) => hi == lo + 1
       case _ => false
  }

  /** Taking a whole run out leaves the rest tiled. */
  lemma PaintTransit(kind: seq<Kind>, lo: int, hi: int)
    requires KindsOk(kind) && IsRun(kind, lo, hi)
    ensures KindsOk(Paint(kind, lo, hi, Transit, Transit))
    ensures AllTransit(Paint(kind, lo, hi, Transit, Transit), lo, hi)
  {
    var k' := Paint(kind, lo, hi, Transit, Transit);
    assert KindOk(kind, lo);
    forall j | 0 <= j < |kind| ensures KindOk(k', j) {
      assert KindOk(kind, j);
    }
  }

  /** Filling pages in transit with a run keeps the tiling, and for a free run also the
      separation of free runs if no neighbour is free. */
  lemma PaintRun(kind: seq<Kind>, lo: int, hi: int, free: bool)
    requires KindsOk(kind) && 0 <= lo < hi <= |kind| && AllTransit(kind, lo, hi)
    requires free && hi < |kind| ==> !kind[hi].FreeHead?
    requires free ==> forall x :: 0 <= x < |kind| && kind[x].FreeHead? ==> x + kind[x].len != lo
    ensures KindsOk(Paint(kind, lo, hi, if free then FreeHead(hi - lo) else BusyHead(hi - lo),
                                        if free then FreeBody(lo) else BusyBody(lo)))
  {
    var k' := Paint(kind, lo, hi, if free then FreeHead(hi - lo) else BusyHead(hi - lo),
                                  if free then FreeBody(lo) else BusyBody(lo));
    assert kind[lo] == Transit;
    forall j | 0 <= j < |kind| ensures KindOk(k', j) {
      assert KindOk(kind, j);
    }
  }

  // ----- alloc_pages -----

  function Busy(m: seq<Node>, i: int, k: nat): (r: seq<Node>)
    requires 0 <= i && 1 <= k && i + k <= |m|
    ensures |r| == |m|
    ensures forall j :: 0 <= j < |m| && !(i <= j < i + k) ==> r[j] == m[j]
    ensures r[i] == Node(PAGE_START + k, NULL, NULL, TAG_PAGE)
    ensures forall j :: i < j < i + k ==> r[j] == Node(BUSY_WORD, NULL, NULL, TAG_PAGE)
  {
    seq(|m|, j requires 0 <= j < |m| => if j == i then Node(PAGE_START + k, NULL, NULL, TAG_PAGE)
                                        else if i < j < i + k then Node(BUSY_WORD, NULL, NULL, TAG_PAGE) else m[j])
  }

  function TailSet(m: seq<Node>, t: int, r: int): (q: seq<Node>)
    requires 0 <= t < |m|
    ensures |q| == |m|
    ensures forall j :: 0 <= j < |m| && j != t ==> q[j] == m[j]
    ensures q[t] == m[t].(prev := r, tag := TAG_PAGE)
  {
    m[t := m[t].(prev := r, tag := TAG_PAGE)]
  }

  /** The abstract effect of `alloc_pages` on the free run at `i`. */
  function TakeShape(a: Shape, i: int, k: nat): (r: Shape)
    requires 0 <= i < |a.kind| == |a.rank| && a.kind[i].FreeHead? && 1 <= k <= a.kind[i].len <= |a.kind| - i
  {
    var len := a.kind[i].len;
    var t := Paint(a.kind, i, i + k, BusyHead(k), BusyBody(i));
    if len == k then
      Shape(t, a.rank, a.clock, true)
    else
      Shape(Paint(t, i + k, i + len, FreeHead(len - k), FreeBody(i + k)), a.rank[i + k := a.rank[i]], a.clock, true)
  }

  /** The page table after `alloc_pages` has cut `k` pages from the run at `i`. */
  function TakeNodes(m: seq<Node>, i: int, len: nat, k: nat): (r: seq<Node>)
    requires Linked(m, i) && 1 <= k <= len && i + len <= |m|
    ensures |r| == |m|
  {
    if len == k then
      Busy(Unlink(m, i), i, k)
    else
      Busy(Replace(TailSet(m, i + len - 1, i + k), i, i + k, len - k), i, k)
  }

  lemma TakeKinds(a: Shape, i: int, k: nat)
    requires KindsOk(a.kind) && 0 <= i < |a.kind| == |a.rank| && a.kind[i].FreeHead? && 1 <= k <= a.kind[i].len <= |a.kind| - i
    ensures KindsOk(TakeShape(a, i, k).kind)
  {
    var len := a.kind[i].len;
    var t := Paint(a.kind, i, i + len, Transit, Transit);
    PaintTransit(a.kind, i, i + len);
    PaintRun(t, i, i + k, false);
    var t1 := Paint(t, i, i + k, BusyHead(k), BusyBody(i));
    if k < len {
      assert KindOk(a.kind, i);
      TakeRestKinds(t1, i, k, len);
      assert TakeShape(a, i, k).kind == Paint(t1, i + k, i + len, FreeHead(len - k), FreeBody(i + k));
    } else {
      assert TakeShape(a, i, k).kind == t1;
    }
  }

  lemma TakeRestKinds(t: seq<Kind>, i: int, k: nat, len: nat)
    requires KindsOk(t) && 0 <= i && 1 <= k < len && i + len <= |t| && AllTransit(t, i + k, i + len)
    requires t[i + k - 1] == BusyBody(i) || t[i + k - 1] == BusyHead(k)
    requires i + len < |t| ==> !t[i + len].FreeHead?
    ensures KindsOk(Paint(t, i + k, i + len, FreeHead(len - k), FreeBody(i + k)))
  {
    forall x | 0 <= x < |t| && t[x].FreeHead? ensures x + t[x].len != i + k {
      assert KindOk(t, x);
    }
    PaintRun(t, i + k, i + len, true);
  }

  /** The head of a free run, its body pages and its neighbours on the free list. */
  lemma FreeRunPages(n: nat, m: seq<Node>, bm: seq<seq<nat>>, a: Shape, i: int)
    requires Core(n, m, bm, a) && 0 <= i < n && a.kind[i].FreeHead?
    ensures Linked(m, i) && m[i].slab == a.kind[i].len && m[i].tag == TAG_PAGE && 1 <= a.kind[i].len <= n - i
    ensures forall j :: i < j < i + a.kind[i].len ==> a.kind[j] == FreeBody(i)
    ensures var x := m[i].prev; x == n || (0 <= x < n && x != i && a.kind[x].FreeHead?)
    ensures var x := m[i].next; x == n || (0 <= x < n && x != i && a.kind[x].FreeHead?)
  {
    assert KindOk(a.kind, i);
    assert NodeOk(m[i], bm[i], a, i);
    MemberLinked(n, m, Homes(n, a.kind), a.rank, i);
  }

  lemma BusyLinks(n: nat, m: seq<Node>, home: seq<int>, rank: seq<nat>, i: int, k: nat)
    requires LinksOk(n, m, home, rank) && 0 <= i && 1 <= k && i + k <= n
    requires forall j :: i <= j < i + k ==> home[j] == NULL
    ensures LinksOk(n, Busy(m, i, k), home, rank)
  {
    LinksFrame(n, m, Busy(m, i, k), home, rank);
  }

  lemma ReplaceBusy(n: nat, m: seq<Node>, home: seq<int>, rank: seq<nat>, i: int, len: nat, k: nat,
                    m2: seq<Node>, home': seq<int>, rank': seq<nat>)
    requires LinksOk(n, m, home, rank) && 0 <= i < n && home[i] != NULL && Linked(m, i) && 1 <= k < len <= n - i
    requires forall j :: i < j < i + len ==> home[j] == NULL
    requires m2 == Replace(m, i, i + k, len - k)
    requires home' == home[i + k := home[i]][i := NULL] && rank' == rank[i + k := rank[i]]
    ensures LinksOk(n, Busy(m2, i, k), home', rank')
  {
    assert forall j :: i <= j < i + k ==> home'[j] == NULL;
    ReplaceLinks(n, m, home, rank, i, i + k, len - k);
    BusyLinks(n, m2, home', rank', i, k);
  }

  lemma TakePartLinks(n: nat, m: seq<Node>, home: seq<int>, rank: seq<nat>, i: int, len: nat, k: nat)
    requires LinksOk(n, m, home, rank) && 0 <= i < n && home[i] != NULL && Linked(m, i) && 1 <= k < len <= n - i
    requires forall j :: i < j < i + len ==> home[j] == NULL
    ensures LinksOk(n, TakeNodes(m, i, len, k), home[i + k := home[i]][i := NULL], rank[i + k := rank[i]])
  {
    var m1 := TailSet(m, i + len - 1, i + k);
    LinksFrame(n, m, m1, home, rank);
    ReplaceBusy(n, m1, home, rank, i, len, k,
                Replace(m1, i, i + k, len - k), home[i + k := home[i]][i := NULL], rank[i + k := rank[i]]);
  }

  lemma TakeLinks(n: nat, m: seq<Node>, bm: seq<seq<nat>>, a: Shape, i: int, k: nat)
    requires Core(n, m, bm, a) && 0 <= i < n && a.kind[i].FreeHead? && 1 <= k <= a.kind[i].len <= n - i && Linked(m, i)
    ensures LinksOk(n, TakeNodes(m, i, a.kind[i].len, k), Homes(n, TakeShape(a, i, k).kind), TakeShape(a, i, k).rank)
  {
    var home := Homes(n, a.kind);
    var home' := Homes(n, TakeShape(a, i, k).kind);
    FreeRunPages(n, m, bm, a, i);
    if a.kind[i].len == k {
      UnlinkLinks(n, m, home, a.rank, i);
      assert home' == home[i := NULL];
      BusyLinks(n, Unlink(m, i), home', a.rank, i, k);
    } else {
      TakePartLinks(n, m, home, a.rank, i, a.kind[i].len, k);
      assert home' == home[i + k := n][i := NULL];
    }
  }

  /** What `alloc_pages` writes to a node outside the run it cuts. */
  lemma TakeFrame(m: seq<Node>, i: int, len: nat, k: nat, j: int)
    requires Linked(m, i) && 1 <= k <= len && i + len <= |m| && 0 <= j < |m| && !(i <= j < i + len)
    ensures var q := TakeNodes(m, i, len, k)[j];
            && q.slab == m[j].slab
            && (q.tag == m[j].tag || q.tag == TAG_PAGE || q.tag == m[i].tag)
            && (j != m[i].next && j != m[i].prev ==> q == m[j])
  {
    if len > k {
      assert TailSet(m, i + len - 1, i + k)[i] == m[i];
    }
  }

  /** What `alloc_pages` leaves in the part of the run it does not hand out. */
  lemma TakeRest(m: seq<Node>, i: int, len: nat, k: nat, j: int)
    requires Linked(m, i) && 1 <= k < len && i + len <= |m| && i + k <= j < i + len
    requires !(i <= m[i].next < i + len) && !(i <= m[i].prev < i + len)
    ensures var q := TakeNodes(m, i, len, k)[j];
            if j == i + k then q.slab == len - k && q.tag == m[i].tag
            else if j == i + len - 1 then q == m[j].(prev := i + k, tag := TAG_PAGE)
            else q == m[j]
  {
    assert TailSet(m, i + len - 1, i + k)[i] == m[i];
  }

  lemma TakeNodesAt(n: nat, m: seq<Node>, bm: seq<seq<nat>>, a: Shape, i: int, k: nat, j: int)
    requires Core(n, m, bm, a) && 0 <= i < n && a.kind[i].FreeHead? && 1 <= k <= a.kind[i].len <= n - i && Linked(m, i)
    requires 0 <= j < n && KindsOk(TakeShape(a, i, k).kind)
    ensures NodeOk(TakeNodes(m, i, a.kind[i].len, k)[j], bm[j], TakeShape(a, i, k), j)
  {
    var len := a.kind[i].len;
    FreeRunPages(n, m, bm, a, i);
    assert NodeOk(m[j], bm[j], a, j);
    if i + k <= j < i + len {
      TakeRest(m, i, len, k, j);
    } else if !(i <= j < i + len) {
      TakeFrame(m, i, len, k, j);
      TakeOther(n, m, bm, a, i, k, j);
    }
  }

  /** A page outside the cut run keeps its use and its run keeps its length. */
  lemma TakeOther(n: nat, m: seq<Node>, bm: seq<seq<nat>>, a: Shape, i: int, k: nat, j: int)
    requires Core(n, m, bm, a) && 0 <= i < n && a.kind[i].FreeHead? && 1 <= k <= a.kind[i].len <= n - i
    requires 0 <= j < n && !(i <= j < i + a.kind[i].len)
    ensures var a' := TakeShape(a, i, k);
            && a'.kind[j] == a.kind[j]
            && (a.kind[j].FreeBody? ==> 0 <= a.kind[j].head < n && a'.kind[a.kind[j].head] == a.kind[a.kind[j].head])
            && (a.kind[j].FreeBody? ==> a.touched)
  {
    assert KindOk(a.kind, j);
    assert KindOk(a.kind, i);
    assert KindOk(a.kind, 0);
  }

  /** `alloc_pages` keeps the invariant of the pool. */
  lemma TakeCore(n: nat, m: seq<Node>, bm: seq<seq<nat>>, a: Shape, i: int, k: nat)
    requires Core(n, m, bm, a) && 0 <= i < n && a.kind[i].FreeHead? && 1 <= k <= a.kind[i].len
    ensures a.kind[i].len <= n - i && Linked(m, i)
    ensures Core(n, TakeNodes(m, i, a.kind[i].len, k), bm, TakeShape(a, i, k))
  {
    FreeRunPages(n, m, bm, a, i);
    TakeKinds(a, i, k);
    TakeLinks(n, m, bm, a, i, k);
    forall j | 0 <= j < n ensures NodeOk(TakeNodes(m, i, a.kind[i].len, k)[j], bm[j], TakeShape(a, i, k), j) {
      TakeNodesAt(n, m, bm, a, i, k, j);
    }
  }

  // ----- free_pages -----

  function Vacate(a: Shape, lo: int, hi: int): (r: Shape)
    requires 0 <= lo < hi <= |a.kind|
  {
    a.(kind := Paint(a.kind, lo, hi, Transit, Transit))
  }

  /** The contents of pages in transit and the headers' `prev` fields are free to change. */
  lemma TransitFrame(n: nat, m: seq<Node>, m': seq<Node>, bm: seq<seq<nat>>, a: Shape)
    requires Core(n, m, bm, a) && |m'| == |m|
    requires forall i :: 0 <= i < n && !a.kind[i].Transit? ==> m'[i] == m[i]
    requires forall h :: n <= h < |m| ==> m'[h].next == m[h].next
    ensures Core(n, m', bm, a)
  {
    LinksFrame(n, m, m', Homes(n, a.kind), a.rank);
    forall j | 0 <= j < n ensures NodeOk(m'[j], bm[j], a, j) {
      assert NodeOk(m[j], bm[j], a, j);
    }
  }

  /** A page outside a vacated run keeps its use and its run keeps its length. */
  lemma VacateOther(a: Shape, lo: int, hi: int, j: int)
    requires KindsOk(a.kind) && IsRun(a.kind, lo, hi) && 0 <= j < |a.kind| && !(lo <= j < hi)
    ensures var k' := Vacate(a, lo, hi).kind;
            && k'[j] == a.kind[j]
            && (a.kind[j].FreeBody? ==> 0 <= a.kind[j].head < |a.kind| && k'[a.kind[j].head] == a.kind[a.kind[j].head])
  {
    assert KindOk(a.kind, j);
    assert KindOk(a.kind, lo);
  }

  lemma VacateHomes(n: nat, a: Shape, lo: int, hi: int)
    requires |a.kind| == n && KindsOk(a.kind) && IsRun(a.kind, lo, hi)
    ensures Homes(n, Vacate(a, lo, hi).kind) == Homes(n, a.kind)[lo := NULL]
  {
    assert KindOk(a.kind, lo);
  }

  lemma SameHomeSameTag(n: nat, m: seq<Node>, bm: seq<seq<nat>>, a: Shape, i: int, j: int)
    requires Core(n, m, bm, a) && 0 <= i < n && 0 <= j < n && Home(n, a.kind[i]) == Home(n, a.kind[j]) != NULL
    ensures m[i].tag == m[j].tag && a.kind[i].Slab? == a.kind[j].Slab?
  {
    assert NodeOk(m[i], bm[i], a, i);
    assert NodeOk(m[j], bm[j], a, j);
  }

  /** Taking the run at `lo` off its list vacates it. */
  lemma DropMember(n: nat, m: seq<Node>, bm: seq<seq<nat>>, a: Shape, lo: int, hi: int)
    requires Core(n, m, bm, a) && IsRun(a.kind, lo, hi) && Home(n, a.kind[lo]) != NULL && a.touched
    ensures Linked(m, lo) && m[lo].next != lo && m[lo].prev != lo && Core(n, Unlink(m, lo), bm, Vacate(a, lo, hi))
  {
    var home := Homes(n, a.kind);
    MemberLinked(n, m, home, a.rank, lo);
    UnlinkLinks(n, m, home, a.rank, lo);
    VacateHomes(n, a, lo, hi);
    PaintTransit(a.kind, lo, hi);
    var a' := Vacate(a, lo, hi);
    var m' := Unlink(m, lo);
    forall j | 0 <= j < n ensures NodeOk(m'[j], bm[j], a', j) {
      DropNode(n, m, bm, a, lo, hi, j);
    }
  }

  lemma DropNode(n: nat, m: seq<Node>, bm: seq<seq<nat>>, a: Shape, lo: int, hi: int, j: int)
    requires Core(n, m, bm, a) && IsRun(a.kind, lo, hi) && Home(n, a.kind[lo]) != NULL && a.touched && 0 <= j < n
    requires Linked(m, lo) && KindsOk(Vacate(a, lo, hi).kind)
    ensures NodeOk(Unlink(m, lo)[j], bm[j], Vacate(a, lo, hi), j)
  {
    var home := Homes(n, a.kind);
    assert LinkOk(n, m, home, a.rank, lo);
    if !(lo <= j < hi) {
      assert NodeOk(m[j], bm[j], a, j);
      VacateOther(a, lo, hi, j);
      if j == m[lo].next || j == m[lo].prev {
        SameHomeSameTag(n, m, bm, a, lo, j);
      } else {
        assert Unlink(m, lo)[j] == m[j];
      }
    }
  }

  /** A busy run is on no list; vacating it changes no memory. */
  lemma DropBusy(n: nat, m: seq<Node>, bm: seq<seq<nat>>, a: Shape, lo: int, hi: int)
    requires Core(n, m, bm, a) && IsRun(a.kind, lo, hi) && a.kind[lo].BusyHead? && a.touched
    ensures Core(n, m, bm, Vacate(a, lo, hi))
  {
    VacateHomes(n, a, lo, hi);
    PaintTransit(a.kind, lo, hi);
    assert Homes(n, a.kind)[lo := NULL] == Homes(n, a.kind);
    forall j | 0 <= j < n ensures NodeOk(m[j], bm[j], Vacate(a, lo, hi), j) {
      if !(lo <= j < hi) {
        assert NodeOk(m[j], bm[j], a, j);
        VacateOther(a, lo, hi, j);
      }
    }
  }

  /** A page can be vacated only once something has been handed out. */
  lemma TouchedByUse(n: nat, m: seq<Node>, bm: seq<seq<nat>>, a: Shape, i: int)
    requires Core(n, m, bm, a) && 0 <= i < n && !a.kind[i].FreeHead? && !a.kind[i].FreeBody?
    ensures a.touched
  {
    assert KindOk(a.kind, 0);
  }

  /** Pages `lo..hi` hold a run that is ready to go back to the free list. */
  predicate Loose(m: seq<Node>, kind: seq<Kind>, lo: int, hi: int)
  {
    && 0 <= lo < hi <= |kind| <= |m|
    && AllTransit(kind, lo, hi)
    && m[lo].slab == hi - lo
    && (forall j :: lo < j < hi ==> m[j].slab == 0 && m[j].next == NULL && m[j].tag == TAG_PAGE)
  }

  predicate NoFreeRunBefore(kind: seq<Kind>, lo: int)
  {
    forall x :: 0 <= x < |kind| && kind[x].FreeHead? ==> x + kind[x].len != lo
  }

  function Return(a: Shape, lo: int, hi: int): (r: Shape)
    requires 0 <= lo < hi <= |a.kind| == |a.rank|
  {
    Shape(Paint(a.kind, lo, hi, FreeHead(hi - lo), FreeBody(lo)), a.rank[lo := a.clock], a.clock + 1, a.touched)
  }

  function Deposit(n: nat, m: seq<Node>, lo: int, hi: int): (r: seq<Node>)
    requires 0 <= lo < hi <= n < |m| && 0 <= m[n].next < |m|
    ensures |r| == |m|
  {
    Push(if hi - lo > 1 then TailSet(m, hi - 1, lo) else m, n, lo, TAG_PAGE)
  }

  lemma DepositLinks(n: nat, m: seq<Node>, bm: seq<seq<nat>>, a: Shape, lo: int, hi: int)
    requires Core(n, m, bm, a) && Loose(m, a.kind, lo, hi) && 0 <= m[n].next < |m|
    ensures LinksOk(n, Deposit(n, m, lo, hi), Homes(n, Return(a, lo, hi).kind), Return(a, lo, hi).rank)
  {
    var home := Homes(n, a.kind);
    var m1 := if hi - lo > 1 then TailSet(m, hi - 1, lo) else m;
    LinksFrame(n, m, m1, home, a.rank);
    PushLinks(n, m1, home, a.rank, a.clock, n, lo, TAG_PAGE);
    assert Homes(n, Return(a, lo, hi).kind) == home[lo := n];
  }

  lemma DepositNode(n: nat, m: seq<Node>, bm: seq<seq<nat>>, a: Shape, lo: int, hi: int, j: int)
    requires Core(n, m, bm, a) && Loose(m, a.kind, lo, hi) && 0 <= m[n].next < |m| && 0 <= j < n
    requires KindsOk(Return(a, lo, hi).kind)
    ensures NodeOk(Deposit(n, m, lo, hi)[j], bm[j], Return(a, lo, hi), j)
  {
    var m1 := if hi - lo > 1 then TailSet(m, hi - 1, lo) else m;
    var f := m[n].next;
    assert HeaderOk(n, m, Homes(n, a.kind), n);
    assert f != n ==> a.kind[f].FreeHead?;
    assert AllTransit(a.kind, lo, hi);
    if lo < j < hi {
      assert Deposit(n, m, lo, hi)[j] == m1[j];
    } else if j != lo {
      assert NodeOk(m[j], bm[j], a, j);
      assert KindOk(a.kind, j);
      assert m1[j] == m[j];
    }
  }

  /** Putting a run whose neighbours are not free on the free list keeps the invariant. */
  lemma DepositCore(n: nat, m: seq<Node>, bm: seq<seq<nat>>, a: Shape, lo: int, hi: int)
    requires Core(n, m, bm, a) && Loose(m, a.kind, lo, hi) && a.touched
    requires hi < n ==> !a.kind[hi].FreeHead?
    requires NoFreeRunBefore(a.kind, lo)
    ensures 0 <= m[n].next < |m| && Core(n, Deposit(n, m, lo, hi), bm, Return(a, lo, hi))
  {
    assert HeaderOk(n, m, Homes(n, a.kind), n);
    PaintRun(a.kind, lo, hi, true);
    DepositLinks(n, m, bm, a, lo, hi);
    forall j | 0 <= j < n ensures NodeOk(Deposit(n, m, lo, hi)[j], bm[j], Return(a, lo, hi), j) {
      DepositNode(n, m, bm, a, lo, hi, j);
    }
  }
}
