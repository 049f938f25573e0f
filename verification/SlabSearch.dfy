/** The searches of the slab allocator: the size class of a request, the first free chunk of a
    bitmap, and the test for a full page. */
module SlabSearch {
  import opened Words
  import opened SlabState
  import opened SlabChunks
  import opened SlabLive

  /** Whole pages for a large request. */
  function PagesFor(size: nat): (r: nat)
    ensures size <= r * PAGE_SIZE < size + PAGE_SIZE
  {
    size / PAGE_SIZE + if size % PAGE_SIZE != 0 then 1 else 0
  }

  /** `shift` is the smallest size class that holds `size` bytes. */
  predicate FitsClass(size: nat, shift: nat)
  {
    ShiftOk(shift) && size <= Size(shift) && (shift > MIN_SHIFT ==> Size(shift - 1) < size)
  }

  lemma {:induction false} ShiftedOut(x: nat, k: nat)
    ensures ShiftRight(x, k) == 0 <==> x < Pow2(k)
  {
    if k > 0 {
      ShiftedOut(x / 2, k - 1);
    }
  }

  lemma ClassBounds(size: nat, shift: nat)
    requires Size(MIN_SHIFT) < size <= MAX_SIZE && shift >= 1
    requires size - 1 < Pow2(shift) && (shift > 1 ==> Pow2(shift - 1) <= size - 1)
    ensures ShiftOk(shift) && Size(shift - 1) < size <= Size(shift)
  {
    Pow2Values();
    if shift > 11 {
      Pow2Grows(11, shift - 1);
    } else if shift < 3 {
      Pow2Grows(shift, 3);
    }
  }

  /** The class of a size above the minimum, by counting the halvings of `size - 1`. */
  method ClassOf(size: nat) returns (shift: nat)
    requires Size(MIN_SHIFT) < size <= MAX_SIZE
    ensures FitsClass(size, shift)
  {
    shift := 1;
    var s := (size - 1) / 2;
    assert ShiftRight(size - 1, 1) == s;
    while s != 0
      invariant shift >= 1 && s == ShiftRight(size - 1, shift)
      invariant shift > 1 ==> ShiftRight(size - 1, shift - 1) != 0
      decreases s
    {
      ShiftRightAdd(size - 1, shift, 1);
      s := s / 2;
      shift := shift + 1;
    }
    ShiftedOut(size - 1, shift);
    ShiftedOut(size - 1, shift - 1);
    ClassBounds(size, shift);
  }

  lemma BusyWordUsed(words: seq<nat>, mw: nat, used: set<nat>, w: nat)
    requires w < mw <= |words| && SmallMap(words, mw, used) && words[w] == BUSY_WORD
    requires forall d :: 0 <= d < 64 * w ==> d in used
    ensures forall d :: 0 <= d < 64 * (w + 1) ==> d in used
  {
    Pow2Values();
    forall d | 64 * w <= d < 64 * (w + 1) ensures d in used {
      OnesHaveBits(64, d % 64);
      assert d / 64 == w;
    }
  }

  /** The lowest clear bit of a word that is not all ones. */
  method ClearBitIn(w: nat, k: nat) returns (i: nat)
    requires w < Pow2(k) && w != Pow2(k) - 1
    ensures i < k && !Bit(w, i) && forall j :: 0 <= j < i ==> Bit(w, j)
  {
    AllOnes(w, k);
    i := 0;
    while Bit(w, i)
      invariant forall j :: 0 <= j < i ==> Bit(w, j)
      invariant i < k
      decreases k - i
    {
      if i + 1 == k {
        BitsMakeOnes(w, k);
      }
      i := i + 1;
    }
  }

  /** The lowest clear bit of a SMALL page's bitmap. */
  method FindSmall(words: seq<nat>, map_words: nat, ghost used: set<nat>) returns (c: nat)
    requires map_words <= |words| && SmallMap(words, map_words, used)
    requires exists k :: 0 <= k < map_words && words[k] != BUSY_WORD
    ensures c < 64 * map_words && c !in used && forall d :: 0 <= d < c ==> d in used
  {
    var w := 0;
    while words[w] == BUSY_WORD
      invariant 0 <= w < map_words
      invariant exists k :: w <= k < map_words && words[k] != BUSY_WORD
      invariant forall d :: 0 <= d < 64 * w ==> d in used
      decreases map_words - w
    {
      BusyWordUsed(words, map_words, used, w);
      w := w + 1;
    }
    Pow2Values();
    var i := ClearBitIn(words[w], 64);
    c := w * 64 + i;
    assert c / 64 == w && c % 64 == i;
    forall d | 64 * w <= d < c ensures d in used {
      assert d / 64 == w && d % 64 == d - 64 * w;
    }
  }

  lemma WordBusy(words: seq<nat>, mw: nat, used: set<nat>, j: nat)
    requires j < mw <= |words| && SmallMap(words, mw, used)
    requires forall d :: 64 * j <= d < 64 * j + 64 ==> d in used
    ensures words[j] == BUSY_WORD
  {
    Pow2Values();
    forall i | 0 <= i < 64 ensures Bit(words[j], i) {
      assert 64 * j + i in used;
      assert (64 * j + i) / 64 == j && (64 * j + i) % 64 == i;
    }
    BitsMakeOnes(words[j], 64);
  }

  /** The code's test for a full page. For a SMALL page the words before the marked one are
      already known to be busy, so only the rest is looked at. */
  method PageFull(slab: nat, words: seq<nat>, shift: nat, c: nat, ghost used: set<nat>) returns (full: bool)
    requires ShiftOk(shift) && LayoutOk(slab, words, shift, used + {c}) && c < Cells(shift)
    requires forall d :: 0 <= d < c ==> d in used
    ensures full <==> MapFull(slab, words, shift)
  {
    Geometry(shift);
    if shift < EXACT_SHIFT {
      var w := c / 64;
      forall j | 0 <= j < w ensures words[j] == BUSY_WORD {
        WordBusy(words, MapWords(shift), used + {c}, j);
      }
      while w < MapWords(shift) && words[w] == BUSY_WORD
        invariant 0 <= w <= MapWords(shift)
        invariant forall j :: 0 <= j < w ==> words[j] == BUSY_WORD
      {
        w := w + 1;
      }
      full := w == MapWords(shift);
    } else if shift == EXACT_SHIFT {
      full := slab == BUSY_WORD;
    } else {
      full := High(slab) == Pow2(Cells(shift)) - 1;
    }
  }

  /** The code's test for a page without live chunks. */
  method PageEmpty(slab: nat, words: seq<nat>, shift: nat) returns (empty: bool)
    requires ShiftOk(shift) && |words| == 8
    ensures empty <==> MapEmpty(slab, words, shift)
  {
    if shift < EXACT_SHIFT {
      if words[0] >= Pow2(Reserved(shift)) {
        return false;
      }
      var w := 1;
      while w < MapWords(shift) && words[w] == 0
        invariant 1 <= w <= MapWords(shift)
        invariant forall j :: 1 <= j < w ==> words[j] == 0
      {
        w := w + 1;
      }
      empty := w == MapWords(shift);
    } else if shift == EXACT_SHIFT {
      empty := slab == 0;
    } else {
      empty := High(slab) == 0;
    }
  }

  /** The first free chunk of a page that is not full, in any layout. */
  method FirstFree(slab: nat, words: seq<nat>, shift: nat, ghost used: set<nat>) returns (c: nat)
    requires ShiftOk(shift) && LayoutOk(slab, words, shift, used) && !Full(Slab(shift, used))
    ensures c < Cells(shift) && c !in used && forall d :: 0 <= d < c ==> d in used
  {
    Geometry(shift);
    MapFullOk(slab, words, shift, used);
    Pow2Values();
    if shift < EXACT_SHIFT {
      c := FindSmall(words, MapWords(shift), used);
    } else if shift == EXACT_SHIFT {
      c := ClearBitIn(slab, 64);
    } else {
      c := ClearBitIn(High(slab), Cells(shift));
    }
  }
}
