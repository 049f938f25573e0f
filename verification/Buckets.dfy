/** The buckets of the hash table: segments of one list, known by their first and last node. */
module Buckets {
  import opened Rings

  datatype Buckets = Buckets(first: seq<nat>, last: seq<nat>)

  /** Where each bucket's segment starts and ends in the list. */
  datatype Spans = Spans(lo: seq<nat>, hi: seq<nat>)

  predicate Sized(b: Buckets, sp: Spans, nb: nat)
  {
    |b.first| == |b.last| == |sp.lo| == |sp.hi| == nb > 0
  }

  /** Bucket `i` spans its segment; an empty one points at the sentinel twice. */
  predicate SpanAt(c: seq<nat>, b: Buckets, sp: Spans, nb: nat, i: int)
    requires Sized(b, sp, nb)
  {
    && 0 <= i < nb && sp.lo[i] <= sp.hi[i] <= |c|
    && b.first[i] == (if sp.lo[i] < sp.hi[i] then c[sp.lo[i]] else 0)
    && b.last[i] == (if sp.lo[i] < sp.hi[i] then c[sp.hi[i] - 1] else 0)
  }

  /** The j-th node lies in the segment of bucket `i` exactly if its hash says so. */
  predicate HomeAt(c: seq<nat>, hash: seq<nat>, sp: Spans, nb: nat, j: int, i: int)
    requires 0 < nb == |sp.lo| == |sp.hi|
  {
    && 0 <= j < |c| && 0 <= i < nb && c[j] < |hash|
    && (hash[c[j]] % nb == i <==> sp.lo[i] <= j < sp.hi[i])
  }

  /** Each bucket is a contiguous segment of the list. */
  ghost predicate Segmented(c: seq<nat>, hash: seq<nat>, b: Buckets, sp: Spans, nb: nat)
  {
    && Sized(b, sp, nb)
    && (forall i {:trigger SpanAt(c, b, sp, nb, i)} :: 0 <= i < nb ==> SpanAt(c, b, sp, nb, i))
    && (forall j, i {:trigger HomeAt(c, hash, sp, nb, j, i)} ::
          0 <= j < |c| && 0 <= i < nb ==> HomeAt(c, hash, sp, nb, j, i))
  }

  /** The position before which a new node of bucket `i` goes. */
  function Place(c: seq<nat>, sp: Spans, nb: nat, i: nat): nat
    requires i < nb == |sp.lo| == |sp.hi|
  {
    if sp.lo[i] < sp.hi[i] then sp.lo[i] else |c|
  }

  function AddedSpans(c: seq<nat>, sp: Spans, nb: nat, i: nat): (r: Spans)
    requires i < nb == |sp.lo| == |sp.hi|
    ensures |r.lo| == |r.hi| == nb
  {
    var k := Place(c, sp, nb, i);
    Spans(
      seq(nb, h requires 0 <= h < nb => if h == i then k else if sp.lo[h] >= k then sp.lo[h] + 1 else sp.lo[h]),
      seq(nb, h requires 0 <= h < nb => if h == i then (if sp.lo[i] < sp.hi[i] then sp.hi[i] + 1 else k + 1)
                    else if sp.lo[h] >= k then sp.hi[h] + 1 else sp.hi[h]))
  }

  /** `insert_to_bucket`, the bucket's part. */
  function AddedTo(b: Buckets, i: nat, x: nat): (r: Buckets)
    requires i < |b.first| == |b.last|
    ensures |r.first| == |r.last| == |b.first|
  {
    if b.first[i] == 0 && b.first[i] == b.last[i] then Buckets(b.first[i := x], b.last[i := x])
    else b.(first := b.first[i := x])
  }

  lemma NonEmpty(c: seq<nat>, n: nat, hash: seq<nat>, b: Buckets, sp: Spans, nb: nat, i: nat)
    requires Segmented(c, hash, b, sp, nb) && Nodes(c, n) && i < nb
    ensures (b.first[i] == 0 && b.first[i] == b.last[i]) <==> sp.lo[i] == sp.hi[i]
    ensures b.first[i] == Stop(c, if sp.lo[i] < sp.hi[i] then sp.lo[i] else |c|)
  {
    assert SpanAt(c, b, sp, nb, i);
    if sp.lo[i] < sp.hi[i] {
      assert Member(c, n, sp.lo[i]);
    }
  }

  /** The place of insertion lies at no other bucket's inside. */
  lemma PlaceOutside(c: seq<nat>, hash: seq<nat>, b: Buckets, sp: Spans, nb: nat, i: nat, h: nat)
    requires Segmented(c, hash, b, sp, nb) && i < nb && h < nb && h != i && sp.lo[h] < sp.hi[h]
    ensures var k := Place(c, sp, nb, i); sp.hi[h] <= k || sp.lo[h] > k
  {
    assert SpanAt(c, b, sp, nb, h) && SpanAt(c, b, sp, nb, i);
    var k := Place(c, sp, nb, i);
    if k < |c| {
      assert HomeAt(c, hash, sp, nb, k, i) && HomeAt(c, hash, sp, nb, k, h);
    }
  }

  lemma AddedSpan(c: seq<nat>, n: nat, hash: seq<nat>, b: Buckets, sp: Spans, nb: nat, i: nat, x: nat, h: nat)
    requires Segmented(c, hash, b, sp, nb) && Nodes(c, n) && i < nb && h < nb && Place(c, sp, nb, i) <= |c|
    ensures SpanAt(Added(c, Place(c, sp, nb, i), x), AddedTo(b, i, x), AddedSpans(c, sp, nb, i), nb, h)
  {
    hide Added;
    hide Segmented;
    hide Nodes;
    hide HomeAt;
    assert Sized(b, sp, nb) && SpanAt(c, b, sp, nb, i) && SpanAt(c, b, sp, nb, h) by {
      SegmentedParts(c, hash, b, sp, nb, i, h);
    }
    NonEmpty(c, n, hash, b, sp, nb, i);
    if h != i && sp.lo[h] < sp.hi[h] {
      PlaceOutside(c, hash, b, sp, nb, i, h);
    }
  }

  lemma SegmentedParts(c: seq<nat>, hash: seq<nat>, b: Buckets, sp: Spans, nb: nat, i: nat, h: nat)
    requires Segmented(c, hash, b, sp, nb) && i < nb && h < nb
    ensures Sized(b, sp, nb) && SpanAt(c, b, sp, nb, i) && SpanAt(c, b, sp, nb, h)
  {
  }

  lemma AddedHome(c: seq<nat>, n: nat, hash: seq<nat>, b: Buckets, sp: Spans, nb: nat, i: nat, x: nat, j: nat, h: nat)
    requires Segmented(c, hash, b, sp, nb) && i < nb && h < nb && Place(c, sp, nb, i) <= |c| && j <= |c|
    requires x < |hash| && hash[x] % nb == i
    ensures HomeAt(Added(c, Place(c, sp, nb, i), x), hash, AddedSpans(c, sp, nb, i), nb, j, h)
  {
    hide Added;
    hide Segmented;
    assert Sized(b, sp, nb) && SpanAt(c, b, sp, nb, i) && SpanAt(c, b, sp, nb, h) by {
      SegmentedParts(c, hash, b, sp, nb, i, h);
    }
    var k := Place(c, sp, nb, i);
    if h != i && sp.lo[h] < sp.hi[h] {
      PlaceOutside(c, hash, b, sp, nb, i, h);
    }
    if j != k {
      Homes(c, hash, b, sp, nb, if j < k then j else j - 1, h);
    }
  }

  lemma Homes(c: seq<nat>, hash: seq<nat>, b: Buckets, sp: Spans, nb: nat, j: nat, h: nat)
    requires Segmented(c, hash, b, sp, nb) && j < |c| && h < nb
    ensures HomeAt(c, hash, sp, nb, j, h)
  {
  }

  /** A new first node of its bucket: all buckets stay contiguous segments. */
  lemma AddSegmented(c: seq<nat>, n: nat, hash: seq<nat>, b: Buckets, sp: Spans, nb: nat, i: nat, x: nat)
    requires Segmented(c, hash, b, sp, nb) && Nodes(c, n) && i < nb && x < |hash| && hash[x] % nb == i
    ensures Place(c, sp, nb, i) <= |c|
    ensures Segmented(Added(c, Place(c, sp, nb, i), x), hash, AddedTo(b, i, x), AddedSpans(c, sp, nb, i), nb)
  {
    hide Added;
    hide AddedSpans;
    hide SpanAt;
    hide HomeAt;
    PlaceBound(c, hash, b, sp, nb, i);
    var d := Added(c, Place(c, sp, nb, i), x);
    forall h | 0 <= h < nb ensures SpanAt(d, AddedTo(b, i, x), AddedSpans(c, sp, nb, i), nb, h) {
      AddedSpan(c, n, hash, b, sp, nb, i, x, h);
    }
    forall j, h | 0 <= j < |d| && 0 <= h < nb ensures HomeAt(d, hash, AddedSpans(c, sp, nb, i), nb, j, h) {
      AddedHome(c, n, hash, b, sp, nb, i, x, j, h);
    }
  }

  lemma PlaceBound(c: seq<nat>, hash: seq<nat>, b: Buckets, sp: Spans, nb: nat, i: nat)
    requires Segmented(c, hash, b, sp, nb) && i < nb
    ensures Place(c, sp, nb, i) <= |c|
  {
    assert SpanAt(c, b, sp, nb, i);
  }

  // ----- removal -----

  function DroppedSpans(sp: Spans, nb: nat, i: nat, k: nat): (r: Spans)
    requires i < nb == |sp.lo| == |sp.hi| && sp.hi[i] > 0
    ensures |r.lo| == |r.hi| == nb
  {
    Spans(
      seq(nb, h requires 0 <= h < nb => if h != i && sp.lo[h] > k then sp.lo[h] - 1 else sp.lo[h]),
      seq(nb, h requires 0 <= h < nb => if h == i then (sp.hi[i] - 1) as nat
                    else if sp.lo[h] > k && sp.hi[h] > 0 then (sp.hi[h] - 1) as nat else sp.hi[h]))
  }

  /** The bucket's part of `hashtable_do_del`; `before` and `after` are the node's neighbours. */
  function DroppedFrom(b: Buckets, i: nat, x: nat, before: nat, after: nat): (r: Buckets)
    requires i < |b.first| == |b.last|
    ensures |r.first| == |r.last| == |b.first|
  {
    if x == b.first[i] && x == b.last[i] then Buckets(b.first[i := 0], b.last[i := 0])
    else if x == b.first[i] then b.(first := b.first[i := after])
    else if x == b.last[i] then b.(last := b.last[i := before])
    else b
  }

  lemma DroppedSpan(c: seq<nat>, n: nat, hash: seq<nat>, b: Buckets, sp: Spans, nb: nat, i: nat, k: nat, h: nat)
    requires Segmented(c, hash, b, sp, nb) && Nodes(c, n) && i < nb && h < nb && sp.lo[i] <= k < sp.hi[i] <= |c|
    ensures SpanAt(Dropped(c, k), DroppedFrom(b, i, c[k], Stop(c, k - 1), Stop(c, k + 1)), DroppedSpans(sp, nb, i, k), nb, h)
  {
    hide Dropped;
    hide Segmented;
    hide Nodes;
    hide HomeAt;
    SegmentedParts(c, hash, b, sp, nb, i, h);
    EndsOnly(c, n, sp.lo[i], sp.hi[i], k);
    if h != i && sp.lo[h] < sp.hi[h] {
      OtherSpan(c, hash, b, sp, nb, i, h, k);
    }
  }

  /** A node of a segment is its first or last node only by its position. */
  lemma EndsOnly(c: seq<nat>, n: nat, lo: nat, hi: nat, k: nat)
    requires Nodes(c, n) && lo <= k < hi <= |c|
    ensures c[k] == c[lo] <==> k == lo
    ensures c[k] == c[hi - 1] <==> k == hi - 1
  {
    if c[k] == c[lo] {
      SameNode(c, n, k, lo);
    }
    if c[k] == c[hi - 1] {
      SameNode(c, n, k, hi - 1);
    }
  }

  lemma OtherSpan(c: seq<nat>, hash: seq<nat>, b: Buckets, sp: Spans, nb: nat, i: nat, h: nat, k: nat)
    requires Segmented(c, hash, b, sp, nb) && i < nb && h < nb && h != i
    requires sp.lo[i] <= k < sp.hi[i] <= |c|
    ensures sp.lo[h] > k || sp.hi[h] <= k
  {
    assert HomeAt(c, hash, sp, nb, k, i) && HomeAt(c, hash, sp, nb, k, h);
  }

  lemma DroppedHome(c: seq<nat>, hash: seq<nat>, b: Buckets, sp: Spans, nb: nat, i: nat, k: nat, j: nat, h: nat)
    requires Segmented(c, hash, b, sp, nb) && i < nb && h < nb && j < |c| - 1 && sp.lo[i] <= k < sp.hi[i] <= |c|
    ensures HomeAt(Dropped(c, k), hash, DroppedSpans(sp, nb, i, k), nb, j, h)
  {
    hide Dropped;
    hide Segmented;
    SegmentedParts(c, hash, b, sp, nb, i, h);
    if h != i {
      OtherSpan(c, hash, b, sp, nb, i, h, k);
    }
    Homes(c, hash, b, sp, nb, if j < k then j else j + 1, h);
  }

  /** A node leaves its bucket: all buckets stay contiguous segments. */
  lemma DropSegmented(c: seq<nat>, n: nat, hash: seq<nat>, b: Buckets, sp: Spans, nb: nat, i: nat, k: nat)
    requires Segmented(c, hash, b, sp, nb) && Nodes(c, n) && i < nb && sp.lo[i] <= k < sp.hi[i] <= |c|
    ensures Segmented(Dropped(c, k), hash, DroppedFrom(b, i, c[k], Stop(c, k - 1), Stop(c, k + 1)),
                      DroppedSpans(sp, nb, i, k), nb)
  {
    hide Dropped;
    hide DroppedSpans;
    hide DroppedFrom;
    hide SpanAt;
    hide HomeAt;
    var d := Dropped(c, k);
    var b' := DroppedFrom(b, i, c[k], Stop(c, k - 1), Stop(c, k + 1));
    forall h | 0 <= h < nb ensures SpanAt(d, b', DroppedSpans(sp, nb, i, k), nb, h) {
      DroppedSpan(c, n, hash, b, sp, nb, i, k, h);
    }
    forall j, h | 0 <= j < |d| && 0 <= h < nb ensures HomeAt(d, hash, DroppedSpans(sp, nb, i, k), nb, j, h) {
      DroppedHome(c, hash, b, sp, nb, i, k, j, h);
    }
  }

  // ----- other -----

  /** Only the hashes of the listed nodes matter. */
  lemma SegmentedFrame(c: seq<nat>, n: nat, hash: seq<nat>, hash': seq<nat>, b: Buckets, sp: Spans, nb: nat)
    requires Segmented(c, hash, b, sp, nb) && Nodes(c, n) && n <= |hash| <= |hash'|
    requires forall x :: 0 <= x < n ==> hash'[x] == hash[x]
    ensures Segmented(c, hash', b, sp, nb)
  {
    forall j, i | 0 <= j < |c| && 0 <= i < nb ensures HomeAt(c, hash', sp, nb, j, i) {
      assert HomeAt(c, hash, sp, nb, j, i) && Member(c, n, j);
    }
  }

  function NoSpans(nb: nat): (r: Spans)
    ensures |r.lo| == |r.hi| == nb && forall i :: 0 <= i < nb ==> r.lo[i] == 0 && r.hi[i] == 0
  {
    Spans(seq(nb, h => 0), seq(nb, h => 0))
  }

  lemma EmptySegmented(hash: seq<nat>, b: Buckets, nb: nat)
    requires nb > 0 && |b.first| == |b.last| == nb
    requires forall i :: 0 <= i < nb ==> b.first[i] == 0
    requires forall i :: 0 <= i < nb ==> b.last[i] == 0
    ensures Segmented([], hash, b, NoSpans(nb), nb)
  {
    hide NoSpans;
    forall i | 0 <= i < nb ensures SpanAt([], b, NoSpans(nb), nb, i) {
    }
  }
}
