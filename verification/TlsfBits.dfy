/** Bit arithmetic of the TLSF allocator: the first- and second-level bitmaps,
    find-first-set, find-last-set, and powers of two. Bitmaps are natural
    numbers; the operations are defined bit by bit. */
module TlsfBits {
  import opened Arith

  // ---------------------------------------------------------------- bitmaps

  /** Bit k of x. */
  predicate Bit(x: nat, k: nat) {
    if k == 0 then x % 2 == 1 else Bit(x / 2, k - 1)
  }

  /** x | (1 << k) */
  function SetBit(x: nat, k: nat): nat {
    if k == 0 then x - x % 2 + 1 else 2 * SetBit(x / 2, k - 1) + x % 2
  }

  /** x & ~(1 << k) */
  function ClearBit(x: nat, k: nat): nat {
    if k == 0 then x - x % 2 else 2 * ClearBit(x / 2, k - 1) + x % 2
  }

  /** x & (~0 << k) */
  function MaskFrom(x: nat, k: nat): nat {
    if k == 0 then x else 2 * MaskFrom(x / 2, k - 1)
  }

  lemma TwiceAndBit(y: nat, b: nat)
    requires b < 2
    ensures (2 * y + b) / 2 == y && (2 * y + b) % 2 == b
  {
  }

  lemma {:induction false} SetBitAt(x: nat, k: nat, j: nat)
    ensures Bit(SetBit(x, k), j) == (j == k || Bit(x, j))
  {
    if k > 0 && j > 0 {
      SetBitAt(x / 2, k - 1, j - 1);
      TwiceAndBit(SetBit(x / 2, k - 1), x % 2);
    } else if k == 0 {
      TwiceAndBit(x / 2, 1);
    } else {
      TwiceAndBit(SetBit(x / 2, k - 1), x % 2);
    }
  }

  lemma {:induction false} ClearBitAt(x: nat, k: nat, j: nat)
    ensures Bit(ClearBit(x, k), j) == (j != k && Bit(x, j))
  {
    if k > 0 && j > 0 {
      ClearBitAt(x / 2, k - 1, j - 1);
      TwiceAndBit(ClearBit(x / 2, k - 1), x % 2);
    } else if k == 0 {
      TwiceAndBit(x / 2, 0);
    } else {
      TwiceAndBit(ClearBit(x / 2, k - 1), x % 2);
    }
  }

  lemma {:induction false} MaskFromAt(x: nat, k: nat, j: nat)
    ensures Bit(MaskFrom(x, k), j) == (j >= k && Bit(x, j))
  {
    if k > 0 && j > 0 {
      MaskFromAt(x / 2, k - 1, j - 1);
      assert MaskFrom(x, k) / 2 == MaskFrom(x / 2, k - 1);
    }
  }

  /** Index of the lowest set bit (tlsf_ffs on a non-zero word). */
  function Ffs(x: nat): nat
    requires x > 0
  {
    if x % 2 == 1 then 0 else 1 + Ffs(x / 2)
  }

  lemma {:induction false} FfsLowest(x: nat)
    requires x > 0
    ensures Bit(x, Ffs(x))
    ensures forall j: nat :: Bit(x, j) ==> Ffs(x) <= j
  {
    if x % 2 == 0 {
      FfsLowest(x / 2);
      forall j: nat | Bit(x, j) ensures Ffs(x) <= j {
        if j > 0 {
          assert Bit(x / 2, j - 1);
        }
      }
    }
  }

  /** A word with no set bit is zero. */
  lemma {:induction false} ZeroHasNoBit(x: nat, k: nat)
    requires x == 0
    ensures !Bit(x, k)
  {
    if k > 0 {
      ZeroHasNoBit(0, k - 1);
    }
  }

  // ---------------------------------------------------------- last set bit

  /** Index of the highest set bit (tlsf_fls on a non-zero word). */
  function Fls(x: nat): nat
    requires x > 0
  {
    if x == 1 then 0 else 1 + Fls(x / 2)
  }

  lemma {:induction false} FlsBounds(x: nat)
    requires x > 0
    ensures Pow2(Fls(x)) <= x < 2 * Pow2(Fls(x))
  {
    if x > 1 {
      FlsBounds(x / 2);
    }
  }

  lemma {:induction false} FlsUnique(x: nat, k: nat)
    requires Pow2(k) <= x < 2 * Pow2(k)
    ensures Fls(x) == k
  {
    FlsBounds(x);
    if k < Fls(x) {
      Pow2Monotone(k + 1, Fls(x));
    } else if Fls(x) < k {
      Pow2Monotone(Fls(x) + 1, k);
    }
  }

  lemma {:induction false} FlsMonotone(x: nat, y: nat)
    requires 0 < x <= y
    ensures Fls(x) <= Fls(y)
  {
    FlsBounds(x);
    FlsBounds(y);
    if Fls(y) < Fls(x) {
      Pow2Monotone(Fls(y) + 1, Fls(x));
    }
  }

  lemma {:induction false} FlsShift(x: nat, k: nat)
    requires x > 0
    ensures x * Pow2(k) > 0
    ensures Fls(x * Pow2(k)) == Fls(x) + k
  {
    if k > 0 {
      FlsShift(x, k - 1);
      assert x * Pow2(k) == 2 * (x * Pow2(k - 1));
      assert x * Pow2(k) / 2 == x * Pow2(k - 1);
    }
  }

  const WORD32: nat := 0x1_0000_0000

  /** One halving step of tlsf_fls_generic: when the top k bits of the 32-bit
      word are clear, shift them out and lower the bit count by k. */
  method NarrowStep(word: nat, bit: int, k: nat, p: nat, t: nat, ghost lo: nat) returns (word': nat, bit': int)
    requires word < WORD32 && p == Pow2(k) && lo * p == t && t * p == WORD32
    requires word > 0 ==> lo <= word
    ensures word' < WORD32 && (word > 0 ==> t <= word')
    ensures word > 0 && word' > 0 ==> Fls(word') + bit' == Fls(word) + bit
    ensures word == 0 ==> word' == 0 && bit' == bit - k
  {
    word', bit' := word, bit;
    if word < t {
      ShiftFits(word, k, p, t, lo);
      word', bit' := Shl32(word, p), bit - k;
    }
  }

  /** word << k in 32 bits, with p = 2^k. */
  function Shl32(word: nat, p: nat): nat {
    (word * p) % WORD32
  }

  lemma ShiftFits(word: nat, k: nat, p: nat, t: nat, lo: nat)
    requires word < t && p == Pow2(k) && lo * p == t && t * p == WORD32
    ensures Shl32(word, p) < WORD32
    ensures word == 0 ==> Shl32(word, p) == 0
    ensures lo <= word ==> t <= Shl32(word, p)
    ensures word > 0 && Shl32(word, p) > 0 ==> Fls(Shl32(word, p)) == Fls(word) + k
  {
    MulMonotone(word + 1, t, p);
    MulDistrib(word, 1, p);
    var shifted := word * p;
    assert 0 <= shifted < WORD32;
    assert Shl32(word, p) == shifted;
    if lo <= word { MulMonotone(lo, word, p); }
    if word > 0 { FlsShift(word, k); }
  }

  /** tlsf_fls_generic: one more than the index of the highest set bit, found
      by halving the searched range; shifts stay within 32 bits. */
  method FlsGeneric(word0: nat) returns (bit: int)
    requires word0 < WORD32
    ensures bit == if word0 == 0 then 0 else Fls(word0) + 1
  {
    SmallPowers();
    var word := word0;
    bit := 32;
    if word == 0 { bit := bit - 1; }
    word, bit := NarrowStep(word, bit, 16, 0x1_0000, 0x1_0000, 1);
    word, bit := NarrowStep(word, bit, 8, 0x100, 0x100_0000, 0x1_0000);
    word, bit := NarrowStep(word, bit, 4, 0x10, 0x1000_0000, 0x100_0000);
    word, bit := NarrowStep(word, bit, 2, 4, 0x4000_0000, 0x1000_0000);
    word, bit := NarrowStep(word, bit, 1, 2, 0x8000_0000, 0x4000_0000);
    if word0 > 0 {
      FlsUnique(word, 31);
    }
  }

  /** The powers of two the 32-bit search uses. */
  lemma SmallPowers()
    ensures Pow2(1) == 2 && Pow2(2) == 4 && Pow2(4) == 0x10 && Pow2(8) == 0x100
    ensures Pow2(16) == 0x1_0000 && Pow2(31) == 0x8000_0000 && Pow2(32) == WORD32
  {
    Pow2Add(16, 15);
    assert Pow2(15) == 0x8000;
  }

  /** tlsf_fls_sizet for a 64-bit size. */
  method FlsSizet(size: nat) returns (bits: int)
    requires 0 < size < WORD32 * WORD32
    ensures bits == Fls(size)
  {
    var high := size / WORD32;
    if high > 0 {
      var b := FlsGeneric(high);
      bits := 32 + (b - 1);
      FlsBounds(high);
      Pow2Add(Fls(high), 32);
      SmallPowers();
      var p := Pow2(Fls(high));
      assert Pow2(Fls(high) + 32) == p * WORD32;
      FlsUnique(size, Fls(high) + 32);
    } else {
      var b := FlsGeneric(size);
      bits := b - 1;
    }
  }
}
