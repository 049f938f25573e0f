/** The hash table of JSON objects: every pair hangs in one list that the buckets divide into segments and
    in a second list that keeps the order of insertion. */
module HashTable {
  import opened Wrappers
  import opened Words
  import opened Rings
  import opened Buckets
  import opened OrderedMap

  /** All buckets point at the sentinel. */
  method EmptyBuckets(nb: nat) returns (b: Buckets)
    ensures |b.first| == |b.last| == nb
    ensures forall i :: 0 <= i < nb ==> b.first[i] == 0
    ensures forall i :: 0 <= i < nb ==> b.last[i] == 0
  {
    var first: seq<nat>, last: seq<nat> := [], [];
    var i := 0;
    while i < nb
      invariant 0 <= i <= nb && |first| == |last| == i
      invariant forall j :: 0 <= j < i ==> first[j] == 0
      invariant forall j :: 0 <= j < i ==> last[j] == 0
    {
      first, last := first + [0], last + [0];
      i := i + 1;
    }
    b := Buckets(first, last);
  }

  /** The listed nodes are the pairs that exist. */
  ghost predicate Lists<T>(c: seq<nat>, pairs: map<nat, T>)
  {
    forall x {:trigger x in pairs} {:trigger x in c} :: x in pairs <==> x in c
  }

  ghost predicate Hashed<K(!new), V>(pairs: map<nat, (K, V)>, hash: seq<nat>, hashOf: K -> nat)
  {
    forall x {:trigger x in pairs} :: x in pairs ==> x < |hash| && hash[x] == hashOf(pairs[x].0)
  }

  ghost predicate UniqueKeys<K, V>(pairs: map<nat, (K, V)>)
  {
    forall x, y {:trigger x in pairs, y in pairs} :: x in pairs && y in pairs && pairs[x].0 == pairs[y].0 ==> x == y
  }

  /** The pairs in the order of the list `c`. */
  ghost function Listed<T>(c: seq<nat>, pairs: map<nat, T>): (r: seq<T>)
    requires Lists(c, pairs)
    ensures |r| == |c| && forall i :: 0 <= i < |c| ==> c[i] in pairs && r[i] == pairs[c[i]]
  {
    seq(|c|, i requires 0 <= i < |c| => assert c[i] in c; pairs[c[i]])
  }

  class Table<K(==, !new), V> {
    const hashOf: K -> nat
    var size: nat
    var order: nat
    var buckets: Buckets
    var ring: Ring
    var ordered: Ring
    var hash: seq<nat>
    var pairs: map<nat, (K, V)>
    ghost var chain: seq<nat>
    ghost var spans: Spans
    ghost var queue: seq<nat>

    /** Both lists are rings, they hold the same pairs, buckets are segments, keys are unique, and the load
        is at most one. */
    ghost predicate Valid()
      reads this
    {
      && IsRing(ring, chain) && IsRing(ordered, queue)
      && |ring.next| == |ordered.next| == |hash|
      && Segmented(chain, hash, buckets, spans, Pow2(order))
      && Lists(chain, pairs) && Lists(queue, pairs)
      && Hashed(pairs, hash, hashOf) && UniqueKeys(pairs)
      && size == |chain| == |queue| <= Pow2(order)
    }

    /** The ordered map that the table stands for. */
    ghost function Entries(): seq<(K, V)>
      reads this
      requires Valid()
    {
      Listed(queue, pairs)
    }

    constructor (hashOf: K -> nat)
      ensures Valid() && Entries() == []
    {
      var b := EmptyBuckets(Pow2(3));
      this.hashOf := hashOf;
      size, order, buckets, hash, pairs := 0, 3, b, [0], map[];
      ring, ordered := Ring([0], [0]), Ring([0], [0]);
      chain, queue, spans := [], [], NoSpans(Pow2(3));
      new;
      EmptySegmented(hash, b, Pow2(3));
      EmptyRing(ring);
    }

    /** `insert_to_bucket`: node `x` becomes the first of bucket `i`. */
    method InsertToBucket(i: nat, x: nat, nb: nat)
      requires IsRing(ring, chain) && Segmented(chain, hash, buckets, spans, nb)
      requires i < nb && 0 < x < |ring.next| == |hash| && x !in chain && hash[x] % nb == i
      modifies this`ring, this`buckets, this`chain, this`spans
      ensures IsRing(ring, chain) && Segmented(chain, hash, buckets, spans, nb)
      ensures |ring.next| == |old(ring.next)| && |chain| == |old(chain)| + 1
      ensures forall y {:trigger y in chain} :: y in chain <==> y == x || y in old(chain)
      ensures forall y {:trigger ring.next[y]} :: 0 < y < |ring.next| && y !in chain ==> ring.next[y] == old(ring.next[y])
    {
      hide IsRing;
      hide Segmented;
      hide Nodes;
      hide Added;
      RingNodes(ring, chain);
      SegmentedSized(chain, hash, buckets, spans, nb);
      NonEmpty(chain, |ring.next|, hash, buckets, spans, nb, i);
      AddSegmented(chain, |ring.next|, hash, buckets, spans, nb, i, x);
      ghost var k := Place(chain, spans, nb, i);
      ghost var was := ring;
      InsertRing(ring, chain, k, x);
      if buckets.first[i] == 0 && buckets.first[i] == buckets.last[i] {
        ring := InsertBefore(ring, 0, x);
        buckets := Buckets(buckets.first[i := x], buckets.last[i := x]);
      } else {
        ring := InsertBefore(ring, buckets.first[i], x);
        buckets := buckets.(first := buckets.first[i := x]);
      }
      forall y ensures y in Added(chain, k, x) <==> y == x || y in chain {
        AddedMembers(chain, k, x, y);
      }
      forall y | 0 < y < |ring.next| && y !in Added(chain, k, x) ensures ring.next[y] == was.next[y] {
        InsertFrame(was, chain, k, x, y);
      }
      spans := AddedSpans(chain, spans, nb, i);
      chain := Added(chain, k, x);
    }

    /** Moves the nodes of the old list `from`, starting at `first`, into the new list. The links of the nodes
        still to come are the old ones. */
    method Relink(first: nat, nb: nat, ghost from: seq<nat>)
      requires IsRing(ring, chain) && Segmented(chain, hash, buckets, spans, nb) && |ring.next| == |hash|
      requires Nodes(from, |hash|) && chain == [] && first == Stop(from, 0) && Moved(from, 0, chain, ring.next)
      modifies this`ring, this`buckets, this`chain, this`spans
      ensures IsRing(ring, chain) && Segmented(chain, hash, buckets, spans, nb) && |ring.next| == |hash|
      ensures |chain| == |from| && Moved(from, |from|, chain, ring.next)
    {
      hide IsRing;
      hide Segmented;
      hide Nodes;
      hide Moved;
      var list := first;
      ghost var i := 0;
      SegmentedSized(chain, hash, buckets, spans, nb);
      while list != 0
        invariant 0 <= i <= |from| && list == Stop(from, i) && |chain| == i
        invariant IsRing(ring, chain) && |ring.next| == |hash|
        invariant Segmented(chain, hash, buckets, spans, nb)
        invariant Moved(from, i, chain, ring.next)
        decreases |from| - i
      {
        StopInside(from, |hash|, i);
        NextToMove(from, i, chain, ring.next);
        var next := ring.next[list];
        ghost var c, links := chain, ring.next;
        InsertToBucket(hash[list] % nb, list, nb);
        MovedStep(from, |hash|, i, c, links, chain, ring.next);
        list := next;
        i := i + 1;
      }
      StopOutside(from, |hash|, i);
    }

    /** Twice the buckets: the nodes are moved, in list order, into a list that is built from the same
        links. The pairs and the order of insertion stay as they are. */
    method Rehash()
      requires Valid()
      modifies this`ring, this`buckets, this`chain, this`spans, this`order
      ensures Valid() && order == old(order) + 1
      ensures Entries() == old(Entries())
    {
      hide IsRing;
      hide Segmented;
      hide Nodes;
      hide Pow2;
      hide Hashed;
      hide Lists;
      hide UniqueKeys;
      hide Moved;
      ghost var from := chain;
      var nb := Pow2(order + 1);
      assert nb > Pow2(order) by { Doubled(order); }
      var b := EmptyBuckets(nb);
      buckets, order := b, order + 1;
      RingStart(ring, chain);
      var list := ring.next[0];
      MovedStart(chain, ring);
      ring := Ring(ring.next[0 := 0], ring.prev[0 := 0]);
      chain, spans := [], NoSpans(nb);
      EmptyRing(ring);
      EmptySegmented(hash, b, nb);
      Relink(list, nb, from);
      MovedAll(from, chain, ring.next, pairs);
    }

    /** The pair with key `k`, or 0. */
    method FindPair(k: K) returns (x: nat)
      requires Valid()
      ensures x == 0 ==> forall y {:trigger y in pairs} :: y in pairs ==> pairs[y].0 != k
      ensures x != 0 ==> x in pairs && pairs[x].0 == k
    {
      hide IsRing;
      hide Segmented;
      hide Pow2;
      hide UniqueKeys;
      hide Nodes;
      var nb, h := Pow2(order), hashOf(k);
      SegmentedSized(chain, hash, buckets, spans, nb);
      var i := h % nb;
      RingNodes(ring, chain);
      NonEmpty(chain, |ring.next|, hash, buckets, spans, nb, i);
      SegmentedParts(chain, hash, buckets, spans, nb, i, i);
      if buckets.first[i] == 0 && buckets.first[i] == buckets.last[i] {
        NotInChain(k, i, nb);
        return 0;
      }
      ghost var p := spans.lo[i];
      x := buckets.first[i];
      while true
        invariant spans.lo[i] <= p < spans.hi[i] <= |chain| && x == chain[p]
        invariant forall q {:trigger chain[q]} :: spans.lo[i] <= q < p ==> pairs[chain[q]].0 != k
        decreases |chain| - p
      {
        assert x in chain;
        if hash[x] == h && pairs[x].0 == k {
          StopInside(chain, |ring.next|, p);
          return x;
        }
        EndsOnly(chain, |ring.next|, spans.lo[i], spans.hi[i], p);
        if x == buckets.last[i] {
          break;
        }
        NextInRing(ring, chain, p);
        x := ring.next[x];
        p := p + 1;
      }
      NotInChain(k, i, nb);
      return 0;
    }

    /** A key that no node of its bucket has is no key of the table. */
    lemma NotInChain(k: K, i: nat, nb: nat)
      requires Valid() && nb == Pow2(order) && i == hashOf(k) % nb && Sized(buckets, spans, nb) && spans.hi[i] <= |chain|
      requires forall q :: spans.lo[i] <= q < spans.hi[i] ==> chain[q] in pairs && pairs[chain[q]].0 != k
      ensures forall y {:trigger y in pairs} :: y in pairs ==> pairs[y].0 != k
    {
      hide IsRing;
      hide Segmented;
      hide UniqueKeys;
      hide Pow2;
      forall y | y in pairs ensures pairs[y].0 != k {
        assert y in chain;
        var q :| 0 <= q < |chain| && chain[q] == y;
        Homes(chain, hash, buckets, spans, nb, q, i);
      }
    }

    /** The ordered map knows key `k` at the place of node `x`. */
    lemma EntryOf(x: nat) returns (q: nat)
      requires Valid() && x in pairs
      ensures q < |queue| && queue[q] == x && Index(Entries(), pairs[x].0) == q
      ensures forall i :: 0 <= i < |queue| && i != q ==> queue[i] != x
    {
      hide Index;
      assert x in queue;
      q :| 0 <= q < |queue| && queue[q] == x;
      EntriesUnique();
      IndexIs(Entries(), pairs[x].0, q);
      forall i | 0 <= i < |queue| && i != q ensures queue[i] != x {
        Apart(queue, |hash|, i, q);
      }
    }

    lemma EntriesUnique()
      requires Valid()
      ensures Unique(Entries())
    {
      hide Segmented;
      var es := Entries();
      forall i, j | 0 <= i < |es| && 0 <= j < |es| && es[i].0 == es[j].0 ensures i == j {
        assert queue[i] in pairs && queue[j] in pairs;
        SameNode(queue, |hash|, i, j);
      }
    }

    lemma NoEntry(k: K)
      requires Valid() && forall y {:trigger y in pairs} :: y in pairs ==> pairs[y].0 != k
      ensures Index(Entries(), k) == |Entries()|
    {
      hide Index;
      hide IsRing;
      hide Segmented;
      var es := Entries();
      forall i | 0 <= i < |es| ensures es[i].0 != k {
        assert queue[i] in pairs;
      }
      NoIndex(es, k);
    }

    /** `hashtable_get` */
    method Get(k: K) returns (r: Option<V>)
      requires Valid()
      ensures r == Look(Entries(), k)
    {
      hide IsRing;
      hide Segmented;
      hide Hashed;
      hide UniqueKeys;
      hide Index;
      hide Pow2;
      var x := FindPair(k);
      if x == 0 {
        NoEntry(k);
        return None;
      }
      ghost var q := EntryOf(x);
      return Some(pairs[x].1);
    }

    /** A new pair, last in the order of insertion. */
    method InsertPair(k: K, v: V)
      requires Valid() && size < Pow2(order)
      requires forall y {:trigger y in pairs} :: y in pairs ==> pairs[y].0 != k
      modifies this
      ensures Valid() && Entries() == old(Entries()) + [(k, v)]
    {
      hide IsRing;
      hide Segmented;
      hide Nodes;
      hide Pow2;
      hide Added;
      ghost var was := pairs;
      ghost var es := Entries();
      var nb, h, x := Pow2(order), hashOf(k), |hash|;
      RingNodes(ring, chain);
      RingNodes(ordered, queue);
      SegmentedSized(chain, hash, buckets, spans, nb);
      GrownRing(ring, chain);
      GrownRing(ordered, queue);
      ghost var hash' := hash + [h];
      SegmentedFrame(chain, |hash|, hash, hash', buckets, spans, nb);
      ring := Ring(ring.next + [x], ring.prev + [x]);
      ordered := Ring(ordered.next + [x], ordered.prev + [x]);
      hash := hash + [h];
      InsertToBucket(h % nb, x, nb);
      InsertRing(ordered, queue, |queue|, x);
      ordered := InsertBefore(ordered, 0, x);
      queue := Added(queue, |queue|, x);
      pairs := pairs[x := (k, v)];
      size := size + 1;
      forall y ensures y in queue <==> y == x || y in old(queue) {
        AddedMembers(old(queue), |old(queue)|, x, y);
      }
      assert Lists(queue, pairs) && Lists(chain, pairs);
      assert Listed(queue, pairs) == es + [(k, v)];
    }

    /** `hashtable_set` */
    method Set(k: K, v: V)
      requires Valid()
      modifies this
      ensures Valid() && Entries() == Put(old(Entries()), k, v)
      ensures Updated(old(Entries()), Entries(), k, v)
    {
      hide IsRing;
      hide Segmented;
      hide Index;
      hide Pow2;
      hide Hashed;
      hide Updated;
      EntriesUnique();
      PutUpdates(Entries(), k, v);
      if size >= Pow2(order) {
        assert Pow2(order + 1) > Pow2(order) by { Doubled(order); }
        Rehash();
      }
      var x := FindPair(k);
      if x != 0 {
        ghost var es := Entries();
        ghost var q := EntryOf(x);
        Overwrite(pairs, hash, hashOf, x, v);
        pairs := pairs[x := (pairs[x].0, v)];
        assert Entries() == es[q := (k, v)];
      } else {
        NoEntry(k);
        InsertPair(k, v);
      }
    }

    /** The position of a pair in the list, inside its bucket's segment. */
    lemma PlaceOf(x: nat, i: nat, nb: nat) returns (p: nat)
      requires Valid() && x in pairs && x < |hash| && nb == Pow2(order) > 0 && i == hash[x] % nb
      ensures p < |chain| && chain[p] == x && Sized(buckets, spans, nb) && spans.lo[i] <= p < spans.hi[i] <= |chain|
    {
      hide IsRing;
      hide Segmented;
      hide Pow2;
      assert x in chain;
      p :| 0 <= p < |chain| && chain[p] == x;
      SegmentedParts(chain, hash, buckets, spans, nb, i, i);
      Homes(chain, hash, buckets, spans, nb, p, i);
    }

    /** Takes the pair at node `x` out of its bucket and of both lists. */
    method RemovePair(x: nat, i: nat, nb: nat, ghost q: nat)
      requires Valid() && x in pairs && x < |hash| && nb == Pow2(order) > 0 && i == hash[x] % nb
      requires q < |queue| && queue[q] == x
      modifies this
      ensures Valid() && order == old(order) && hash == old(hash)
      ensures queue == Dropped(old(queue), q) && pairs == old(pairs) - {x}
    {
      hide IsRing;
      hide Segmented;
      hide Nodes;
      hide Pow2;
      hide Dropped;
      hide Lists;
      hide Hashed;
      hide UniqueKeys;
      hide HomeAt;
      hide SpanAt;
      ghost var was := pairs;
      ghost var p := PlaceOf(x, i, nb);
      PairsDropped(pairs, hash, hashOf, x);
      RingNodes(ring, chain);
      RingNodes(ordered, queue);
      SegmentedSized(chain, hash, buckets, spans, nb);
      RemoveRing(ring, chain, p);
      RemoveRing(ordered, queue, q);
      DropSegmented(chain, |ring.next|, hash, buckets, spans, nb, i, p);
      if x == buckets.first[i] && x == buckets.last[i] {
        buckets := Buckets(buckets.first[i := 0], buckets.last[i := 0]);
      } else if x == buckets.first[i] {
        buckets := buckets.(first := buckets.first[i := ring.next[x]]);
      } else if x == buckets.last[i] {
        buckets := buckets.(last := buckets.last[i := ring.prev[x]]);
      }
      ring := Remove(ring, x);
      ordered := Remove(ordered, x);
      pairs := pairs - {x};
      size := size - 1;
      spans := DroppedSpans(spans, nb, i, p);
      ListsDropped(chain, |hash|, was, p);
      ListsDropped(queue, |hash|, was, q);
      chain, queue := Dropped(chain, p), Dropped(queue, q);
    }

    /** `hashtable_del`; 0 is success. */
    method Del(k: K) returns (r: int)
      requires Valid()
      modifies this
      ensures Valid() && Entries() == Cut(old(Entries()), k) && Entries() == Others(old(Entries()), k)
      ensures r == if Look(old(Entries()), k).Some? then 0 else -1
    {
      hide IsRing;
      hide Segmented;
      hide Index;
      hide Pow2;
      hide Hashed;
      hide Nodes;
      hide Dropped;
      hide Others;
      EntriesUnique();
      CutOthers(Entries(), k);
      var x := FindPair(k);
      if x == 0 {
        NoEntry(k);
        return -1;
      }
      ghost var es := Entries();
      ghost var q := EntryOf(x);
      var nb := Pow2(order);
      var i := hashOf(k) % nb by { SegmentedSized(chain, hash, buckets, spans, nb); }
      assert x < |hash| && hash[x] == hashOf(k) by { HashIs(pairs, hash, hashOf, x); }
      RemovePair(x, i, nb, q);
      assert Entries() == es[..q] + es[q + 1..];
      return 0;
    }

    /** `hashtable_clear`; the number of buckets stays. */
    method Clear()
      requires Valid()
      modifies this
      ensures Valid() && Entries() == [] && order == old(order)
    {
      hide Pow2;
      hide IsRing;
      hide Segmented;
      var nb := Pow2(order);
      SegmentedSized(chain, hash, buckets, spans, nb);
      FreeAll();
      var b := EmptyBuckets(nb);
      RingNodes(ring, chain);
      RingNodes(ordered, queue);
      buckets, size := b, 0;
      ring := Ring(ring.next[0 := 0], ring.prev[0 := 0]);
      ordered := Ring(ordered.next[0 := 0], ordered.prev[0 := 0]);
      chain, queue, spans := [], [], NoSpans(nb);
      EmptyRing(ring);
      EmptyRing(ordered);
      EmptySegmented(hash, b, nb);
      assert Lists(queue, pairs);
    }

    /** `hashtable_do_clear`: walks the list, frees every pair and reads no freed one. */
    method FreeAll()
      requires Valid()
      modifies this`pairs
      ensures pairs == map[]
    {
      hide IsRing;
      hide Segmented;
      hide Nodes;
      hide Hashed;
      hide UniqueKeys;
      hide Lists;
      hide Freed;
      RingNodes(ring, chain);
      RingStart(ring, chain);
      FreedStart(chain, pairs);
      var list := ring.next[0];
      ghost var i := 0;
      while list != 0
        invariant 0 <= i <= |chain| && list == Stop(chain, i) && Freed(chain, i, pairs)
        decreases |chain| - i
      {
        StopInside(chain, |ring.next|, i);
        NextInRing(ring, chain, i);
        FreedStep(chain, |ring.next|, i, pairs);
        var next := ring.next[list];
        pairs := pairs - {list};
        list := next;
        i := i + 1;
      }
      StopOutside(chain, |ring.next|, i);
      FreedAll(chain, pairs);
    }

    // ----- iteration; an iterator is a node, and 0 stands for the end -----

    /** The node behind the k-th in the order of insertion. */
    method IterNext(x: nat, ghost k: int) returns (y: nat)
      requires Valid() && -1 <= k < |queue| && x == Stop(queue, k)
      ensures y == Stop(queue, k + 1) && (y == 0 <==> k + 1 == |queue|)
      ensures y != 0 ==> y in pairs && pairs[y] == Entries()[k + 1]
    {
      hide Segmented;
      hide Nodes;
      assert LinkAt(ordered, queue, k);
      StopBelow(ordered, queue, k + 1);
      y := ordered.next[x];
    }

    method Iter() returns (y: nat)
      requires Valid()
      ensures y == Stop(queue, 0) && (y == 0 <==> Entries() == [])
      ensures y != 0 ==> y in pairs && pairs[y] == Entries()[0]
    {
      hide Segmented;
      hide IsRing;
      y := IterNext(0, -1);
    }

    method IterAt(k: K) returns (y: nat)
      requires Valid()
      ensures y == Stop(queue, Index(Entries(), k)) && (y == 0 <==> Look(Entries(), k) == None)
    {
      hide Segmented;
      hide IsRing;
      hide Index;
      hide Hashed;
      hide UniqueKeys;
      y := FindPair(k);
      if y == 0 {
        NoEntry(k);
      } else {
        ghost var q := EntryOf(y);
      }
    }

    /** `hashtable_iter_set`: a new value at the k-th place. */
    method IterSet(x: nat, v: V, ghost k: nat)
      requires Valid() && k < |queue| && x == queue[k]
      modifies this`pairs
      ensures Valid() && Entries() == old(Entries())[k := (old(Entries())[k].0, v)]
    {
      hide Segmented;
      hide IsRing;
      hide Hashed;
      hide Nodes;
      ghost var es := Entries();
      assert x in pairs;
      Overwrite(pairs, hash, hashOf, x, v);
      pairs := pairs[x := (pairs[x].0, v)];
      RingNodes(ordered, queue);
      forall j | 0 <= j < |queue| && j != k ensures queue[j] != x {
        Apart(queue, |hash|, k, j);
      }
      assert Entries() == es[k := (es[k].0, v)];
    }

    /** A whole iteration meets every entry once and in the order of insertion. */
    method Walk() returns (es: seq<(K, V)>)
      requires Valid()
      ensures es == Entries()
    {
      hide Segmented;
      hide IsRing;
      hide Hashed;
      hide UniqueKeys;
      es := [];
      var x := Iter();
      RingNodes(ordered, queue);
      ghost var k := 0;
      while x != 0
        invariant 0 <= k <= |queue| && x == Stop(queue, k) && es == Entries()[..k]
        decreases |queue| - k
      {
        StopBelow(ordered, queue, k);
        es := es + [pairs[x]];
        x := IterNext(x, k);
        k := k + 1;
      }
      StopBelow(ordered, queue, k);
    }
  }

  lemma Doubled(k: nat)
    ensures Pow2(k + 1) > Pow2(k) > 0
  {
  }

  lemma EmptyRing(r: Ring)
    requires |r.next| == |r.prev| > 0 && r.next[0] == 0 && r.prev[0] == 0
    ensures IsRing(r, [])
  {
  }

  lemma RingStart(r: Ring, c: seq<nat>)
    requires IsRing(r, c)
    ensures |r.next| == |r.prev| > 0 && r.next[0] == Stop(c, 0) && Nodes(c, |r.next|)
    ensures forall j {:trigger c[j]} :: 0 <= j < |c| ==> 0 < c[j] < |r.next| && r.next[c[j]] == Stop(c, j + 1)
  {
    assert LinkAt(r, c, -1);
    forall j | 0 <= j < |c| ensures 0 < c[j] < |r.next| && r.next[c[j]] == Stop(c, j + 1) {
      assert LinkAt(r, c, j) && Member(c, |r.next|, j);
    }
  }

  lemma NextInRing(r: Ring, c: seq<nat>, k: nat)
    requires IsRing(r, c) && k < |c|
    ensures c[k] < |r.next| && r.next[c[k]] == Stop(c, k + 1)
  {
    assert LinkAt(r, c, k);
  }

  lemma StopInside(c: seq<nat>, n: nat, k: nat)
    requires Nodes(c, n) && k <= |c| && (Stop(c, k) != 0 || k < |c|)
    ensures k < |c| && 0 < c[k] < n
  {
    assert Member(c, n, k);
  }

  lemma StopOutside(c: seq<nat>, n: nat, k: nat)
    requires Nodes(c, n) && k <= |c| && Stop(c, k) == 0
    ensures k == |c|
  {
    assert k < |c| ==> Member(c, n, k);
  }

  lemma Apart(c: seq<nat>, n: nat, i: nat, j: nat)
    requires Nodes(c, n) && i < |c| && j < |c| && i != j
    ensures c[i] != c[j]
  {
    if c[i] == c[j] {
      SameNode(c, n, i, j);
    }
  }

  /** A new value under the same key. */
  lemma Overwrite<K(!new), V>(pairs: map<nat, (K, V)>, hash: seq<nat>, hashOf: K -> nat, x: nat, v: V)
    requires x in pairs && Hashed(pairs, hash, hashOf) && UniqueKeys(pairs)
    ensures Hashed(pairs[x := (pairs[x].0, v)], hash, hashOf) && UniqueKeys(pairs[x := (pairs[x].0, v)])
  {
  }

  /** The first `i` nodes of the old list have been moved to the new list `c`, and the others still have
      their old links. */
  ghost predicate Moved(from: seq<nat>, i: nat, c: seq<nat>, next: seq<nat>)
  {
    && (forall j {:trigger from[j]} :: i <= j < |from| ==> from[j] !in c && from[j] < |next| && next[from[j]] == Stop(from, j + 1))
    && (forall j {:trigger from[j]} :: 0 <= j < i && j < |from| ==> from[j] in c)
    && (forall x {:trigger x in c} :: x in c ==> x in from)
  }

  lemma NextToMove(from: seq<nat>, i: nat, c: seq<nat>, next: seq<nat>)
    requires Moved(from, i, c, next) && i < |from|
    ensures from[i] !in c && from[i] < |next| && next[from[i]] == Stop(from, i + 1)
  {
  }

  lemma MovedStart(from: seq<nat>, r: Ring)
    requires IsRing(r, from) && |r.next| > 0
    ensures Moved(from, 0, [], r.next[0 := 0])
  {
    RingStart(r, from);
  }

  lemma MovedStep(from: seq<nat>, n: nat, i: nat, c: seq<nat>, next: seq<nat>, d: seq<nat>, next': seq<nat>)
    requires Nodes(from, n) && i < |from| && Moved(from, i, c, next) && |next| == |next'| == n
    requires forall y {:trigger y in d} :: y in d <==> y == from[i] || y in c
    requires forall y {:trigger next'[y]} :: 0 < y < n && y !in d ==> next'[y] == next[y]
    ensures Moved(from, i + 1, d, next')
  {
    forall j | i < j < |from| ensures from[j] !in d && next'[from[j]] == Stop(from, j + 1) {
      Apart(from, n, i, j);
      assert Member(from, n, j);
    }
  }

  lemma MovedAll<T>(from: seq<nat>, c: seq<nat>, next: seq<nat>, pairs: map<nat, T>)
    requires Moved(from, |from|, c, next) && Lists(from, pairs)
    ensures Lists(c, pairs)
  {
  }

  /** The first `i` nodes are freed and the others are not. */
  ghost predicate Freed<T>(c: seq<nat>, i: nat, pairs: map<nat, T>)
  {
    && (forall j {:trigger c[j]} :: 0 <= j < |c| ==> (c[j] in pairs <==> i <= j))
    && (forall x {:trigger x in pairs} :: x in pairs ==> x in c)
  }

  lemma FreedStart<T>(c: seq<nat>, pairs: map<nat, T>)
    requires Lists(c, pairs)
    ensures Freed(c, 0, pairs)
  {
  }

  lemma FreedStep<T>(c: seq<nat>, n: nat, i: nat, pairs: map<nat, T>)
    requires Nodes(c, n) && i < |c| && Freed(c, i, pairs)
    ensures c[i] in pairs && Freed(c, i + 1, pairs - {c[i]})
  {
    forall j | 0 <= j < |c| && j != i ensures c[j] != c[i] {
      Apart(c, n, i, j);
    }
  }

  lemma FreedAll<T>(c: seq<nat>, pairs: map<nat, T>)
    requires Freed(c, |c|, pairs)
    ensures pairs == map[]
  {
    assert forall x :: x !in pairs;
  }

  lemma PairsDropped<K(!new), V>(pairs: map<nat, (K, V)>, hash: seq<nat>, hashOf: K -> nat, x: nat)
    requires Hashed(pairs, hash, hashOf) && UniqueKeys(pairs)
    ensures Hashed(pairs - {x}, hash, hashOf) && UniqueKeys(pairs - {x})
  {
  }

  lemma HashIs<K(!new), V>(pairs: map<nat, (K, V)>, hash: seq<nat>, hashOf: K -> nat, x: nat)
    requires Hashed(pairs, hash, hashOf) && x in pairs
    ensures x < |hash| && hash[x] == hashOf(pairs[x].0)
  {
  }

  lemma ListsDropped<T>(c: seq<nat>, n: nat, pairs: map<nat, T>, k: nat)
    requires Lists(c, pairs) && Nodes(c, n) && k < |c|
    ensures Lists(Dropped(c, k), pairs - {c[k]})
  {
    hide Dropped;
    forall y ensures y in pairs - {c[k]} <==> y in Dropped(c, k) {
      DroppedMembers(c, n, k, y);
    }
  }

  lemma RingNodes(r: Ring, c: seq<nat>)
    requires IsRing(r, c)
    ensures |r.next| == |r.prev| > 0 && Nodes(c, |r.next|)
  {
  }

  lemma SegmentedSized(c: seq<nat>, hash: seq<nat>, b: Buckets, sp: Spans, nb: nat)
    requires Segmented(c, hash, b, sp, nb)
    ensures Sized(b, sp, nb)
  {
  }
}
