/** How the steps of the pool change the set of live chunks. */
module SlabLive {
  import opened Words
  import opened SlabState
  import opened SlabPages
  import opened SlabChunks
  import opened SlabTheorems

  /** `kind'` has the live chunks of `kind` and `ch`, which was not live. */
  ghost predicate Gains(kind: seq<Kind>, kind': seq<Kind>, ch: Chunk)
  {
    && !Live(kind, ch)
    && forall x :: Live(kind', x) <==> Live(kind, x) || x == ch
  }

  lemma TakeGains(a: Shape, i: int, k: nat)
    requires KindsOk(a.kind) && 0 <= i < |a.kind| == |a.rank| && a.kind[i].FreeHead? && 1 <= k <= a.kind[i].len <= |a.kind| - i
    ensures Gains(a.kind, TakeShape(a, i, k).kind, Run(i, k))
    ensures Settled(a.kind) ==> Settled(TakeShape(a, i, k).kind)
  {
    assert KindOk(a.kind, i);
  }

  lemma MarkGains(kind: seq<Kind>, i: nat, c: nat)
    requires i < |kind| && kind[i].Slab? && c !in kind[i].used && Reserved(kind[i].shift) <= c
    ensures Gains(kind, kind[i := Slab(kind[i].shift, kind[i].used + {c})], Cell(i, kind[i].shift, c))
    ensures Settled(kind) ==> Settled(kind[i := Slab(kind[i].shift, kind[i].used + {c})])
  {
    var k' := Slab(kind[i].shift, kind[i].used + {c});
    assert c in k'.used;
  }

  /** A page cut for a new slab page brings exactly its first chunk to life. */
  lemma NewGains(a: Shape, i: nat, shift: nat)
    requires KindsOk(a.kind) && i < |a.kind| == |a.rank| && a.kind[i].FreeHead? && 1 <= a.kind[i].len <= |a.kind| - i
    requires ShiftOk(shift)
    ensures var kind' := TakeShape(a, i, 1).kind[i := Slab(shift, FirstUsed(shift))];
            && Gains(a.kind, kind', Cell(i, shift, Reserved(shift)))
            && (Settled(a.kind) ==> Settled(kind'))
  {
    TakeGains(a, i, 1);
    var kind' := TakeShape(a, i, 1).kind[i := Slab(shift, FirstUsed(shift))];
    assert Reserved(shift) in FirstUsed(shift);
    forall x ensures Live(kind', x) <==> Live(a.kind, x) || x == Cell(i, shift, Reserved(shift)) {
      if x.page != i {
        assert Live(kind', x) <==> Live(TakeShape(a, i, 1).kind, x);
      }
    }
  }

  /** The chunks taken on a new slab page: the bitmap's own and the first one handed out. */
  function FirstUsed(shift: nat): set<nat>
  {
    Below(Reserved(shift) + 1)
  }

  function Below(k: nat): (r: set<nat>)
    ensures forall c: nat :: c in r <==> c < k
  {
    if k == 0 then {} else Below(k - 1) + {k - 1}
  }

  /** The `slab` word of a new slab page. */
  function FirstSlab(shift: nat): nat
  {
    if shift < EXACT_SHIFT then shift else if shift == EXACT_SHIFT then 1 else 0x1_0000_0000 + shift
  }

  lemma FirstLayout(shift: nat, words: seq<nat>)
    requires ShiftOk(shift) && |words| == 8
    requires shift < EXACT_SHIFT ==> words[0] == Pow2(Reserved(shift) + 1) - 1
    requires shift < EXACT_SHIFT ==> forall j :: 1 <= j < MapWords(shift) ==> words[j] == 0
    ensures LayoutOk(FirstSlab(shift), words, shift, FirstUsed(shift))
    ensures !Full(Slab(shift, FirstUsed(shift)))
  {
    Geometry(shift);
    assert Cells(shift) - 1 !in FirstUsed(shift);
    if shift < EXACT_SHIFT {
      FirstSmall(words, MapWords(shift), Reserved(shift));
    } else {
      FirstWord(shift);
    }
  }

  lemma FirstWord(shift: nat)
    requires EXACT_SHIFT <= shift && ShiftOk(shift)
    ensures shift == EXACT_SHIFT ==> ExactMap(1, Below(1))
    ensures shift > EXACT_SHIFT ==> BigMap(FirstSlab(shift), shift, Cells(shift), Below(1))
  {
    forall c: nat ensures c in Below(1) <==> Bit(1, c) {
      FirstBit(c);
    }
    if shift > EXACT_SHIFT {
      Geometry(shift);
      Pow2Values();
      Pow2Grows(1, Cells(shift));
      assert Pow2(32) + shift == FirstSlab(shift);
      JoinHigh(shift, 32);
      JoinLow(shift, 4, 32);
    }
  }

  lemma FirstBit(c: nat)
    ensures Bit(1, c) <==> c == 0
  {
    if c > 0 {
      SmallHasNoHighBit(1, 1, c);
    }
  }

  lemma FirstSmall(words: seq<nat>, mw: nat, r: nat)
    requires 1 <= mw <= |words| && r < 63
    requires words[0] == Pow2(r + 1) - 1 && forall j :: 1 <= j < mw ==> words[j] == 0
    ensures SmallMap(words, mw, Below(r + 1))
  {
    assert words[0] <= BUSY_WORD by {
      Pow2Values();
      Pow2Grows(r + 1, 64);
    }
    forall c | 0 <= c < 64 * mw ensures c in Below(r + 1) <==> Bit(words[c / 64], c % 64) {
      FirstSmallAt(words[c / 64], r, c);
    }
  }

  lemma FirstSmallAt(w: nat, r: nat, c: nat)
    requires r < 63 && w == (if c < 64 then Pow2(r + 1) - 1 else 0)
    ensures c in Below(r + 1) <==> Bit(w, c % 64)
  {
    if c < 64 {
      OnesBits(r + 1, c);
    } else {
      SmallHasNoHighBit(0, 0, c % 64);
    }
  }

  lemma OnesBits(k: nat, c: nat)
    ensures Bit(Pow2(k) - 1, c) <==> c < k
  {
    if c < k {
      OnesHaveBits(k, c);
    } else {
      SmallHasNoHighBit(Pow2(k) - 1, k, c);
    }
  }

  lemma {:induction false} Pow2Grows(i: nat, j: nat)
    requires i <= j
    ensures Pow2(i) <= Pow2(j)
  {
    if i < j {
      Pow2Grows(i, j - 1);
    }
  }

  // ----- release -----

  ghost predicate Loses(kind: seq<Kind>, kind': seq<Kind>, ch: Chunk)
  {
    && Live(kind, ch)
    && forall x :: Live(kind', x) <==> Live(kind, x) && x != ch
  }

  lemma UnmarkLoses(kind: seq<Kind>, i: nat, c: nat)
    requires i < |kind| && kind[i].Slab? && c in kind[i].used && Reserved(kind[i].shift) <= c
    ensures Loses(kind, kind[i := Slab(kind[i].shift, kind[i].used - {c})], Cell(i, kind[i].shift, c))
  {
  }

  /** Returning a run to the free list ends the life of the chunks on its pages, and of no other. */
  lemma ReturnLoses(kind: seq<Kind>, i: int, len: nat, lo: int, hi: int)
    requires KindsOk(kind) && IsRun(kind, i, i + len) && 0 <= lo <= i && i + len <= hi <= |kind|
    requires forall j :: lo <= j < hi && !(i <= j < i + len) ==> FreePage(kind[j])
    ensures var kind' := Paint(kind, lo, hi, FreeHead(hi - lo), FreeBody(lo));
            && (forall x :: Live(kind', x) <==> Live(kind, x) && x.page != i)
            && ((forall j :: 0 <= j < |kind| && j != i ==> !kind[j].Transit? && (kind[j].Slab? ==> HasLive(kind[j]))) ==> Settled(kind'))
  {
    assert KindOk(kind, i);
  }

  // ----- addresses -----

  /** The page number, the offset in the page and the chunk number recovered from an address. */
  lemma CellAddress(page: nat, shift: nat, c: nat)
    requires ShiftOk(shift) && Reserved(shift) <= c < Cells(shift)
    ensures var off := Offset(Cell(page, shift, c));
            && off / PAGE_SIZE == page
            && LowBits(off % PAGE_SIZE, shift) == 0 && ShiftRight(off % PAGE_SIZE, shift) == c
  {
    Geometry(shift);
    CellPlace(page, shift, c);
    InPage(page, c * Size(shift));
    ShiftBack(c, shift);
  }

  lemma InPage(page: nat, x: int)
    requires 0 <= x < PAGE_SIZE
    ensures (page * PAGE_SIZE + x) / PAGE_SIZE == page && (page * PAGE_SIZE + x) % PAGE_SIZE == x
  {
  }

  lemma ChunkNumber(off: nat, shift: nat)
    requires ShiftOk(shift) && off < PAGE_SIZE
    ensures ShiftRight(off, shift) < Cells(shift)
  {
    Pow2Values();
    ShiftBound(off, shift, 12 - shift);
  }

  lemma ShiftField(shift: nat)
    requires ShiftOk(shift)
    ensures LowBits(shift, 4) == shift
  {
    Pow2Values();
    LowBitsSmall(shift, 4);
  }
}
