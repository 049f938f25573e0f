/** Chunks inside slab pages: the three bitmap layouts, and moving a slab page on and off the
    slot list of its class. */
module SlabChunks {
  import opened Words
  import opened SlabState
  import opened SlabLists

  // ----- the bitmaps -----

  /** The `slab` word and the first page words after marking chunk `c`. */
  function Mark(slab: nat, words: seq<nat>, shift: nat, c: nat): (r: (nat, seq<nat>))
    requires shift < EXACT_SHIFT ==> c / 64 < |words|
  {
    if shift < EXACT_SHIFT then (slab, words[c / 64 := SetBit(words[c / 64], c % 64)])
    else if shift == EXACT_SHIFT then (SetBit(slab, c), words)
    else (SetBit(slab, 32 + c), words)
  }

  function Unmark(slab: nat, words: seq<nat>, shift: nat, c: nat): (r: (nat, seq<nat>))
    requires shift < EXACT_SHIFT ==> c / 64 < |words|
  {
    if shift < EXACT_SHIFT then (slab, words[c / 64 := ClearBit(words[c / 64], c % 64)])
    else if shift == EXACT_SHIFT then (ClearBit(slab, c), words)
    else (ClearBit(slab, 32 + c), words)
  }

  lemma MarkSmall(words: seq<nat>, mw: nat, used: set<nat>, c: nat)
    requires mw <= |words| && SmallMap(words, mw, used) && c < 64 * mw
    ensures SmallMap(words[c / 64 := SetBit(words[c / 64], c % 64)], mw, used + {c})
  {
    Pow2Values();
    SetBitBound(words[c / 64], c % 64, 64);
    forall d | 0 <= d < 64 * mw
      ensures d in used + {c} <==> Bit(words[c / 64 := SetBit(words[c / 64], c % 64)][d / 64], d % 64)
    {
      SetBitMeaning(words[c / 64], c % 64, d % 64);
    }
  }

  lemma UnmarkSmall(words: seq<nat>, mw: nat, used: set<nat>, c: nat)
    requires mw <= |words| && SmallMap(words, mw, used) && c < 64 * mw
    ensures SmallMap(words[c / 64 := ClearBit(words[c / 64], c % 64)], mw, used - {c})
  {
    ClearBitBound(words[c / 64], c % 64);
    forall d | 0 <= d < 64 * mw
      ensures d in used - {c} <==> Bit(words[c / 64 := ClearBit(words[c / 64], c % 64)][d / 64], d % 64)
    {
      ClearBitMeaning(words[c / 64], c % 64, d % 64);
    }
  }

  lemma MarkExact(slab: nat, used: set<nat>, c: nat)
    requires ExactMap(slab, used) && c < 64
    ensures ExactMap(SetBit(slab, c), used + {c}) && ExactMap(ClearBit(slab, c), used - {c})
  {
    Pow2Values();
    SetBitBound(slab, c, 64);
    ClearBitBound(slab, c);
    forall d | 0 <= d < 64
      ensures d in used + {c} <==> Bit(SetBit(slab, c), d)
      ensures d in used - {c} <==> Bit(ClearBit(slab, c), d)
    {
      SetBitMeaning(slab, c, d);
      ClearBitMeaning(slab, c, d);
    }
  }

  lemma MarkBig(slab: nat, shift: nat, cells: nat, used: set<nat>, c: nat)
    requires BigMap(slab, shift, cells, used) && c < cells
    ensures BigMap(SetBit(slab, 32 + c), shift, cells, used + {c})
    ensures BigMap(ClearBit(slab, 32 + c), shift, cells, used - {c})
  {
    LowBitsKept(slab, 32 + c, 4);
    SetShifted(slab, 32, c);
    SetBitBound(High(slab), c, cells);
    ClearBitBound(High(slab), c);
    forall d | 0 <= d < cells
      ensures d in used + {c} <==> Bit(SetBit(High(slab), c), d)
      ensures d in used - {c} <==> Bit(ClearBit(High(slab), c), d)
    {
      SetBitMeaning(High(slab), c, d);
      ClearBitMeaning(High(slab), c, d);
    }
  }

  /** Marking records the chunk, in every layout. */
  lemma MarkOk(slab: nat, words: seq<nat>, shift: nat, used: set<nat>, c: nat)
    requires ShiftOk(shift) && LayoutOk(slab, words, shift, used) && c < Cells(shift)
    ensures shift < EXACT_SHIFT ==> c / 64 < MapWords(shift)
    ensures var r := Mark(slab, words, shift, c); LayoutOk(r.0, r.1, shift, used + {c})
  {
    Geometry(shift);
    if shift < EXACT_SHIFT {
      MarkSmall(words, MapWords(shift), used, c);
    } else if shift == EXACT_SHIFT {
      MarkExact(slab, used, c);
    } else {
      MarkBig(slab, shift, Cells(shift), used, c);
    }
  }

  lemma UnmarkOk(slab: nat, words: seq<nat>, shift: nat, used: set<nat>, c: nat)
    requires ShiftOk(shift) && LayoutOk(slab, words, shift, used) && Reserved(shift) <= c < Cells(shift)
    ensures shift < EXACT_SHIFT ==> c / 64 < MapWords(shift)
    ensures var r := Unmark(slab, words, shift, c); LayoutOk(r.0, r.1, shift, used - {c})
  {
    Geometry(shift);
    if shift < EXACT_SHIFT {
      UnmarkSmall(words, MapWords(shift), used, c);
    } else if shift == EXACT_SHIFT {
      MarkExact(slab, used, c);
    } else {
      MarkBig(slab, shift, Cells(shift), used, c);
    }
  }

  /** The code's test whether a chunk is taken. */
  predicate Marked(slab: nat, words: seq<nat>, shift: nat, c: nat)
    requires shift < EXACT_SHIFT ==> c / 64 < |words|
  {
    if shift < EXACT_SHIFT then Bit(words[c / 64], c % 64)
    else if shift == EXACT_SHIFT then Bit(slab, c)
    else Bit(slab, 32 + c)
  }

  lemma MarkedOk(slab: nat, words: seq<nat>, shift: nat, used: set<nat>, c: nat)
    requires ShiftOk(shift) && LayoutOk(slab, words, shift, used) && c < Cells(shift)
    ensures shift < EXACT_SHIFT ==> c / 64 < MapWords(shift)
    ensures Marked(slab, words, shift, c) <==> c in used
  {
    Geometry(shift);
    ShiftRightBit(slab, 32, c);
  }

  // ----- full and empty tests -----

  lemma SmallFull(words: seq<nat>, mw: nat, used: set<nat>)
    requires mw <= |words| && SmallMap(words, mw, used)
    ensures (forall j :: 0 <= j < mw ==> words[j] == BUSY_WORD) <==> (forall c :: 0 <= c < 64 * mw ==> c in used)
  {
    Pow2Values();
    if forall j :: 0 <= j < mw ==> words[j] == BUSY_WORD {
      forall c | 0 <= c < 64 * mw ensures c in used {
        OnesHaveBits(64, c % 64);
      }
    }
    if forall c :: 0 <= c < 64 * mw ==> c in used {
      forall j | 0 <= j < mw ensures words[j] == BUSY_WORD {
        forall i | 0 <= i < 64 ensures Bit(words[j], i) {
          assert 64 * j + i in used;
          assert (64 * j + i) / 64 == j && (64 * j + i) % 64 == i;
        }
        BitsMakeOnes(words[j], 64);
      }
    }
  }

  /** The code's test for a full page: all bitmap words busy, or the whole map set. */
  predicate MapFull(slab: nat, words: seq<nat>, shift: nat)
    requires ShiftOk(shift) && MapWords(shift) <= |words|
  {
    if shift < EXACT_SHIFT then forall j :: 0 <= j < MapWords(shift) ==> words[j] == BUSY_WORD
    else if shift == EXACT_SHIFT then slab == BUSY_WORD
    else High(slab) == Pow2(Cells(shift)) - 1
  }

  lemma MapFullOk(slab: nat, words: seq<nat>, shift: nat, used: set<nat>)
    requires ShiftOk(shift) && LayoutOk(slab, words, shift, used)
    ensures MapFull(slab, words, shift) <==> Full(Slab(shift, used))
  {
    Geometry(shift);
    if shift < EXACT_SHIFT {
      SmallFull(words, MapWords(shift), used);
    } else if shift == EXACT_SHIFT {
      Pow2Values();
      AllOnes(slab, 64);
    } else {
      AllOnes(High(slab), Cells(shift));
    }
  }

  /** The code's test for a page without live chunks. */
  predicate MapEmpty(slab: nat, words: seq<nat>, shift: nat)
    requires ShiftOk(shift) && MapWords(shift) <= |words|
  {
    if shift < EXACT_SHIFT then
      words[0] < Pow2(Reserved(shift)) && forall j :: 1 <= j < MapWords(shift) ==> words[j] == 0
    else if shift == EXACT_SHIFT then slab == 0
    else High(slab) == 0
  }

  lemma SmallEmptyUsed(words: seq<nat>, mw: nat, used: set<nat>, r: nat)
    requires 1 <= mw <= |words| && SmallMap(words, mw, used) && r < 64
    requires words[0] < Pow2(r) && forall j :: 1 <= j < mw ==> words[j] == 0
    ensures forall c :: r <= c < 64 * mw ==> c !in used
  {
    forall c | r <= c < 64 * mw ensures c !in used {
      if c < 64 {
        SmallHasNoHighBit(words[0], r, c);
      } else {
        SmallHasNoHighBit(0, 0, c % 64);
      }
    }
  }

  lemma UsedSmallEmpty(words: seq<nat>, mw: nat, used: set<nat>, r: nat)
    requires 1 <= mw <= |words| && SmallMap(words, mw, used) && r < 64
    requires forall c :: r <= c < 64 * mw ==> c !in used
    ensures words[0] < Pow2(r) && forall j :: 1 <= j < mw ==> words[j] == 0
  {
    Pow2Values();
    forall i | r <= i < 64 ensures !Bit(words[0], i) {
      assert i !in used;
    }
    NoHighBitIsSmall(words[0], r, 64);
    forall j | 1 <= j < mw ensures words[j] == 0 {
      forall i | 0 <= i < 64 ensures !Bit(words[j], i) {
        assert 64 * j + i !in used;
        assert (64 * j + i) / 64 == j && (64 * j + i) % 64 == i;
      }
      NoHighBitIsSmall(words[j], 0, 64);
    }
  }

  lemma MapEmptyOk(slab: nat, words: seq<nat>, shift: nat, used: set<nat>)
    requires ShiftOk(shift) && LayoutOk(slab, words, shift, used)
    ensures MapEmpty(slab, words, shift) <==> !HasLive(Slab(shift, used))
  {
    Geometry(shift);
    Pow2Values();
    if shift < EXACT_SHIFT {
      if MapEmpty(slab, words, shift) {
        SmallEmptyUsed(words, MapWords(shift), used, Reserved(shift));
      } else if !HasLive(Slab(shift, used)) {
        UsedSmallEmpty(words, MapWords(shift), used, Reserved(shift));
      }
    } else if shift == EXACT_SHIFT {
      BelowPow2(slab, 0, 64);
    } else {
      BelowPow2(High(slab), 0, Cells(shift));
    }
  }
}
