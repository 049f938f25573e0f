/** Pointers that are not live and that `slab_free` does not turn away. */
module SlabMisuse {
  import opened Words
  import opened SlabState
  import opened SlabLists
  import opened SlabPages
  import opened SlabChunks
  import opened SlabTheorems

  /** The offset is that of a chunk which holds a part of the page's own bitmap. */
  predicate ReservedAt(kind: seq<Kind>, page: nat, off: nat)
    requires page < |kind|
  {
    && kind[page].Slab? && LowBits(off, kind[page].shift) == 0
    && ShiftRight(off, kind[page].shift) < Reserved(kind[page].shift)
  }

  lemma ReservedSmall(shift: nat, c: nat)
    requires ShiftOk(shift) && c < Reserved(shift)
    ensures shift < EXACT_SHIFT && c < 64 && c < Cells(shift) && MapWords(shift) >= 1
    ensures c * Size(shift) < 8 * MapWords(shift)
  {
    Pow2Values();
    assert shift == 3 || shift == 4 || shift == 5;
  }

  /** Clearing the bit of a reserved chunk: the bitmap describes no set of taken chunks any more, but it still
      shows the live ones, so the page does not look empty. */
  lemma ReservedCleared(slab: nat, words: seq<nat>, shift: nat, used: set<nat>, c: nat)
    requires ShiftOk(shift) && LayoutOk(slab, words, shift, used) && c < Reserved(shift)
    ensures c / 64 < |words| && MapWords(shift) <= |words|
    ensures var r := Unmark(slab, words, shift, c);
            && r.0 == slab == shift && |r.1| == 8
            && SmallMap(r.1, MapWords(shift), used - {c})
            && (forall u :: !LayoutOk(r.0, r.1, shift, u))
            && (MapEmpty(r.0, r.1, shift) ==> !HasLive(Slab(shift, used)))
  {
    Geometry(shift);
    ReservedSmall(shift, c);
    var r := Unmark(slab, words, shift, c);
    UnmarkSmall(words, MapWords(shift), used, c);
    assert !Bit(r.1[c / 64], c % 64);
    forall u ensures !LayoutOk(r.0, r.1, shift, u) {
    }
    assert forall d :: d in used && d >= Reserved(shift) ==> d in used - {c} && d < Cells(shift);
    if MapEmpty(r.0, r.1, shift) {
      SmallEmptyUsed(r.1, MapWords(shift), used - {c}, Reserved(shift));
    }
  }

  /** No shape whatever satisfies the invariant once a bitmap describes no set of taken chunks. */
  lemma NoShape(n: nat, m: seq<Node>, bm: seq<seq<nat>>, page: nat, shift: nat)
    requires page < n <= |m| && page < |bm| && ShiftOk(shift) && shift < EXACT_SHIFT
    requires m[page].tag == TAG_SMALL && m[page].slab == shift
    requires forall u :: !LayoutOk(shift, bm[page], shift, u)
    ensures forall s :: !Inv(n, m, bm, s)
  {
    forall s ensures !Inv(n, m, bm, s) {
      if Inv(n, m, bm, s) {
        SmallNode(n, m, bm, s, page, shift);
      }
    }
  }

  lemma SmallNode(n: nat, m: seq<Node>, bm: seq<seq<nat>>, s: Shape, page: nat, shift: nat)
    requires Inv(n, m, bm, s) && page < n && m[page].tag == TAG_SMALL && m[page].slab == shift
    ensures s.kind[page].Slab? && ShiftOk(shift) && LayoutOk(shift, bm[page], shift, s.kind[page].used)
  {
    assert NodeOk(m[page], bm[page], s, page);
  }

  /** What comes of it: the next search on the page finds exactly the cleared chunk, and that chunk lies in
      the bitmap. */
  lemma ReservedHandedOut(page: nat, shift: nat, used: set<nat>, c: nat, x: nat)
    requires ShiftOk(shift) && c < Reserved(shift) && (forall d :: 0 <= d < Reserved(shift) ==> d in used)
    requires x !in used - {c} && forall d :: 0 <= d < x ==> d in used - {c}
    ensures x == c
    ensures page * PAGE_SIZE <= Offset(Cell(page, shift, x)) < page * PAGE_SIZE + 8 * MapWords(shift)
  {
    ReservedSmall(shift, c);
  }
}
