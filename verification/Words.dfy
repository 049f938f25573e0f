/** Machine words as natural numbers, with a bit view defined by halving.

    The C code keeps counts, flags and bitmaps in the same 64-bit words, so the
    words stay numbers here and the bit operators are functions on numbers. */
module Words {

  const BUSY_WORD: nat := 0xffff_ffff_ffff_ffff

  function Pow2(k: nat): (r: nat)
    ensures r >= 1
  {
    if k == 0 then 1 else 2 * Pow2(k - 1)
  }

  /** `w & (1 << i)` is non-zero. */
  predicate Bit(w: nat, i: nat)
  {
    if i == 0 then w % 2 == 1 else Bit(w / 2, i - 1)
  }

  /** `w | (1 << i)` */
  function SetBit(w: nat, i: nat): nat
  {
    if i == 0 then w - w % 2 + 1 else 2 * SetBit(w / 2, i - 1) + w % 2
  }

  /** `w & ~(1 << i)` */
  function ClearBit(w: nat, i: nat): nat
  {
    if i == 0 then w - w % 2 else 2 * ClearBit(w / 2, i - 1) + w % 2
  }

  lemma {:induction false} SetBitMeaning(w: nat, i: nat, j: nat)
    ensures Bit(SetBit(w, i), j) == (j == i || Bit(w, j))
  {
    if i > 0 && j > 0 {
      SetBitMeaning(w / 2, i - 1, j - 1);
    }
  }

  lemma {:induction false} ClearBitMeaning(w: nat, i: nat, j: nat)
    ensures Bit(ClearBit(w, i), j) == (j != i && Bit(w, j))
  {
    if i > 0 && j > 0 {
      ClearBitMeaning(w / 2, i - 1, j - 1);
    }
  }

  lemma {:induction false} SetBitBound(w: nat, i: nat, k: nat)
    requires w < Pow2(k) && i < k
    ensures SetBit(w, i) < Pow2(k)
  {
    var p := Pow2(k - 1);
    assert Pow2(k) == 2 * p;
    var h := w / 2;
    assert h < p;
    if i > 0 {
      SetBitBound(h, i - 1, k - 1);
      var s := SetBit(h, i - 1);
      assert SetBit(w, i) == 2 * s + w % 2 && s + 1 <= p;
    }
  }

  lemma {:induction false} ClearBitBound(w: nat, i: nat)
    ensures ClearBit(w, i) <= w
  {
    if i > 0 {
      ClearBitBound(w / 2, i - 1);
    }
  }

  lemma {:induction false} OnesHaveBits(k: nat, i: nat)
    requires i < k
    ensures Bit(Pow2(k) - 1, i)
  {
    if i > 0 {
      OnesHaveBits(k - 1, i - 1);
      assert (Pow2(k) - 1) / 2 == Pow2(k - 1) - 1;
    }
  }

  lemma {:induction false} BitsMakeOnes(w: nat, k: nat)
    requires w < Pow2(k)
    requires forall i :: 0 <= i < k ==> Bit(w, i)
    ensures w == Pow2(k) - 1
  {
    if k > 0 {
      assert Bit(w, 0);
      forall i | 0 <= i < k - 1 ensures Bit(w / 2, i) {
        assert Bit(w, i + 1);
      }
      BitsMakeOnes(w / 2, k - 1);
    }
  }

  /** A word is `2^k - 1` exactly when its low `k` bits are its only bits and are all set. */
  lemma AllOnes(w: nat, k: nat)
    requires w < Pow2(k)
    ensures w == Pow2(k) - 1 ==> forall i :: 0 <= i < k ==> Bit(w, i)
    ensures (forall i :: 0 <= i < k ==> Bit(w, i)) ==> w == Pow2(k) - 1
  {
    if w == Pow2(k) - 1 {
      forall i | 0 <= i < k ensures Bit(w, i) {
        OnesHaveBits(k, i);
      }
    }
    if forall i :: 0 <= i < k ==> Bit(w, i) {
      BitsMakeOnes(w, k);
    }
  }

  lemma {:induction false} SmallHasNoHighBit(w: nat, n: nat, i: nat)
    requires w < Pow2(n) && n <= i
    ensures !Bit(w, i)
  {
    if i > 0 {
      SmallHasNoHighBit(w / 2, if n == 0 then 0 else n - 1, i - 1);
    }
  }

  lemma {:induction false} NoHighBitIsSmall(w: nat, n: nat, k: nat)
    requires w < Pow2(k)
    requires forall i :: n <= i < k ==> !Bit(w, i)
    ensures w < Pow2(n)
  {
    if k > 0 {
      var n' := if n == 0 then 0 else n - 1;
      forall i | n' <= i < k - 1 ensures !Bit(w / 2, i) {
        assert !Bit(w, i + 1);
      }
      NoHighBitIsSmall(w / 2, n', k - 1);
      if n == 0 {
        assert !Bit(w, 0);
      } else {
        assert Pow2(n) == 2 * Pow2(n');
      }
    } else {
      assert w == 0;
    }
  }

  /** A `k`-bit word is below `2^n` exactly when it has no bit at or above `n`. */
  lemma BelowPow2(w: nat, n: nat, k: nat)
    requires w < Pow2(k)
    ensures w < Pow2(n) ==> forall i :: n <= i < k ==> !Bit(w, i)
    ensures (forall i :: n <= i < k ==> !Bit(w, i)) ==> w < Pow2(n)
  {
    if w < Pow2(n) {
      forall i | n <= i < k ensures !Bit(w, i) {
        SmallHasNoHighBit(w, n, i);
      }
    }
    if forall i :: n <= i < k ==> !Bit(w, i) {
      NoHighBitIsSmall(w, n, k);
    }
  }

  /** `w >> k`, one bit at a time. */
  function ShiftRight(w: nat, k: nat): nat
  {
    if k == 0 then w else ShiftRight(w / 2, k - 1)
  }

  lemma {:induction false} ShiftRightBit(w: nat, k: nat, i: nat)
    ensures Bit(ShiftRight(w, k), i) == Bit(w, k + i)
  {
    if k > 0 {
      ShiftRightBit(w / 2, k - 1, i);
    }
  }

  lemma {:induction false} ShiftRightAdd(w: nat, j: nat, k: nat)
    ensures ShiftRight(w, j + k) == ShiftRight(ShiftRight(w, j), k)
  {
    if j > 0 {
      ShiftRightAdd(w / 2, j - 1, k);
    }
  }

  /** Setting or clearing bit `k + i` acts on bit `i` of the shifted word and keeps the low bits. */
  lemma {:induction false} SetShifted(w: nat, k: nat, i: nat)
    ensures ShiftRight(SetBit(w, k + i), k) == SetBit(ShiftRight(w, k), i)
    ensures ShiftRight(ClearBit(w, k + i), k) == ClearBit(ShiftRight(w, k), i)
  {
    if k > 0 {
      SetShifted(w / 2, k - 1, i);
    }
  }

  /** `w & ((1 << k) - 1)` */
  function LowBits(w: nat, k: nat): nat
  {
    if k == 0 then 0 else w % 2 + 2 * LowBits(w / 2, k - 1)
  }

  lemma {:induction false} LowBitsKept(w: nat, i: nat, k: nat)
    requires k <= i
    ensures LowBits(SetBit(w, i), k) == LowBits(w, k)
    ensures LowBits(ClearBit(w, i), k) == LowBits(w, k)
  {
    if k > 0 {
      LowBitsKept(w / 2, i - 1, k - 1);
      assert SetBit(w, i) / 2 == SetBit(w / 2, i - 1) && SetBit(w, i) % 2 == w % 2;
      assert ClearBit(w, i) / 2 == ClearBit(w / 2, i - 1) && ClearBit(w, i) % 2 == w % 2;
    }
  }

  /** `((1 << k) | b) >> k` for a small `b`. */
  lemma {:induction false} JoinHigh(b: nat, k: nat)
    requires b < Pow2(k)
    ensures ShiftRight(Pow2(k) + b, k) == 1
  {
    if k > 0 {
      assert (Pow2(k) + b) / 2 == Pow2(k - 1) + b / 2;
      JoinHigh(b / 2, k - 1);
    }
  }

  lemma {:induction false} LowBitsSmall(b: nat, j: nat)
    requires b < Pow2(j)
    ensures LowBits(b, j) == b
  {
    if j > 0 {
      LowBitsSmall(b / 2, j - 1);
    }
  }

  /** The low bits of `(1 << k) | b` for a small `b`. */
  lemma {:induction false} JoinLow(b: nat, j: nat, k: nat)
    requires b < Pow2(j) && j <= k
    ensures LowBits(Pow2(k) + b, j) == b
  {
    if j > 0 {
      assert (Pow2(k) + b) / 2 == Pow2(k - 1) + b / 2 && (Pow2(k) + b) % 2 == b % 2;
      JoinLow(b / 2, j - 1, k - 1);
    }
  }

  lemma Double(c: nat, p: nat)
    ensures c * (2 * p) == 2 * (c * p)
  {
  }

  /** `(c << k) >> k`, and the low bits of `c << k`. */
  lemma {:induction false} ShiftBack(c: nat, k: nat)
    ensures ShiftRight(c * Pow2(k), k) == c && LowBits(c * Pow2(k), k) == 0
  {
    if k > 0 {
      Double(c, Pow2(k - 1));
      ShiftBack(c, k - 1);
    }
  }

  /** A word is its shifted part and its low bits. */
  lemma {:induction false} ShiftParts(w: nat, k: nat)
    ensures w == ShiftRight(w, k) * Pow2(k) + LowBits(w, k)
  {
    if k > 0 {
      ShiftParts(w / 2, k - 1);
      Double(ShiftRight(w / 2, k - 1), Pow2(k - 1));
    }
  }

  lemma {:induction false} ShiftBound(w: nat, k: nat, j: nat)
    requires w < Pow2(k + j)
    ensures ShiftRight(w, k) < Pow2(j)
  {
    if k > 0 {
      assert Pow2(k + j) == 2 * Pow2(k + j - 1);
      ShiftBound(w / 2, k - 1, j);
    }
  }

  lemma {:induction false} Pow2Add(a: nat, b: nat)
    ensures Pow2(a + b) == Pow2(a) * Pow2(b)
  {
    if a > 0 {
      Pow2Add(a - 1, b);
    }
  }

  lemma Pow2Values()
    ensures Pow2(3) == 8 && Pow2(4) == 16 && Pow2(5) == 32 && Pow2(6) == 64 && Pow2(7) == 128
    ensures Pow2(8) == 256 && Pow2(9) == 512 && Pow2(10) == 1024 && Pow2(11) == 2048 && Pow2(12) == 4096
    ensures Pow2(0) == 1 && Pow2(1) == 2 && Pow2(2) == 4
    ensures Pow2(32) == 0x1_0000_0000 && Pow2(64) == BUSY_WORD + 1
  {
    assert Pow2(2) == 4 && Pow2(4) == 16 && Pow2(6) == 64 && Pow2(8) == 256 && Pow2(10) == 1024;
    Pow2Add(8, 8);
    Pow2Add(16, 16);
    Pow2Add(32, 32);
  }
}
