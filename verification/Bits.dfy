/** Unsigned 64-bit words, their bits, and the trailing-zero count of core/lib_k.h.

    A word is a number below 2^64; the C operators on words are written out with their
    wrap-around.  Everything above this module speaks of words through `Bit(w, k)`. */
module Bits {

  const TWO64: nat := 0x1_0000_0000_0000_0000

  const TWO32: nat := 0x1_0000_0000

  type Word = w: nat | w < TWO64 witness 0

  type Byte = b: nat | b < 256 witness 0

  const ONES: Word := TWO64 - 1

  function Pow2(n: nat): (p: nat)
    ensures p >= 1
  {
    if n == 0 then 1 else 2 * Pow2(n - 1)
  }

  /** Bit `k` of `w`, bit 0 being the least significant. */
  predicate Bit(w: nat, k: nat) {
    if k == 0 then w % 2 == 1 else Bit(w / 2, k - 1)
  }

  // ---------------------------------------------------------------- C operators

  function Or(x: nat, y: nat): nat {
    if x == 0 then y else (if x % 2 == 1 || y % 2 == 1 then 1 else 0) + 2 * Or(x / 2, y / 2)
  }

  function And(x: nat, y: nat): nat {
    if x == 0 then 0 else (if x % 2 == 1 && y % 2 == 1 then 1 else 0) + 2 * And(x / 2, y / 2)
  }

  /** `~x` */
  function Not(x: Word): Word {
    ONES - x
  }

  /** `w >> n` */
  function Shr(w: nat, n: nat): nat {
    if n == 0 then w else Shr(w / 2, n - 1)
  }

  /** `w << n`, losing what leaves the word */
  function Shl(w: Word, n: nat): Word {
    if n == 0 then w else Shl(w, n - 1) * 2 % TWO64
  }

  /** The 64 bits that start `off` bits into `a` and run on into `b` (core/memblk.c:106).  At
      `off == 0` the second word is shifted by 64, which C leaves undefined: `edge` is what the
      shift then delivers. */
  function Window(a: Word, b: Word, off: nat, edge: Word): nat
    requires off < 64
  {
    Or(Shr(a, off), if off == 0 then edge else Shl(b, 64 - off))
  }

  // ---------------------------------------------------------------- bits of results

  lemma {:induction false} BitShr(w: nat, n: nat, k: nat)
    ensures Bit(Shr(w, n), k) == Bit(w, n + k)
  {
    if n != 0 {
      BitShr(w / 2, n - 1, k);
    }
  }

  lemma {:induction false} ZeroBits(k: nat)
    ensures !Bit(0, k)
  {
    if k != 0 {
      ZeroBits(k - 1);
    }
  }

  lemma {:induction false} BitOr(x: nat, y: nat, k: nat)
    ensures Bit(Or(x, y), k) == (Bit(x, k) || Bit(y, k))
  {
    if x == 0 {
      ZeroBits(k);
    } else if k != 0 {
      BitOr(x / 2, y / 2, k - 1);
    }
  }

  lemma {:induction false} BitAnd(x: nat, y: nat, k: nat)
    ensures Bit(And(x, y), k) == (Bit(x, k) && Bit(y, k))
  {
    if x == 0 {
      ZeroBits(k);
    } else if k != 0 {
      BitAnd(x / 2, y / 2, k - 1);
    }
  }

  lemma {:induction false} BitsBelow(w: nat, n: nat, k: nat)
    requires w < Pow2(n) && n <= k
    ensures !Bit(w, k)
  {
    if n == 0 {
      ZeroBits(k);
    } else {
      BitsBelow(w / 2, n - 1, k - 1);
    }
  }

  // Adding 2^n leaves the bits below n alone.
  lemma {:induction false} BitAddHigh(w: nat, n: nat, k: nat)
    requires k < n
    ensures Bit(w + Pow2(n), k) == Bit(w, k)
  {
    if k != 0 {
      BitAddHigh(w / 2, n - 1, k - 1);
      assert (w + Pow2(n)) / 2 == w / 2 + Pow2(n - 1);
    }
  }

  lemma {:induction false} BitComplement(w: nat, n: nat, k: nat)
    requires w < Pow2(n) && k < n
    ensures Bit(Pow2(n) - 1 - w, k) == !Bit(w, k)
  {
    if k != 0 {
      BitComplement(w / 2, n - 1, k - 1);
      assert (Pow2(n) - 1 - w) / 2 == Pow2(n - 1) - 1 - w / 2;
    }
  }

  lemma TwoTo64()
    ensures Pow2(63) * 2 == Pow2(64) == TWO64
  {
    assert Pow2(4) == 16;
    PowSum(4, 4);
    PowSum(8, 8);
    PowSum(16, 16);
    PowSum(32, 32);
  }

  lemma {:induction false} PowSum(a: nat, b: nat)
    ensures Pow2(a + b) == Pow2(a) * Pow2(b)
  {
    if b != 0 {
      PowSum(a, b - 1);
    }
  }

  lemma BitNot(w: Word, k: nat)
    requires k < 64
    ensures Bit(Not(w), k) == !Bit(w, k)
  {
    TwoTo64();
    BitComplement(w, 64, k);
  }

  lemma DoubleIs(x: Word)
    ensures x * 2 % TWO64 == if x < 0x8000_0000_0000_0000 then 2 * x else 2 * (x - 0x8000_0000_0000_0000)
  {
    DivUnique(x * 2, TWO64, if x < 0x8000_0000_0000_0000 then 0 else 1, x * 2 % TWO64);
  }

  lemma BitDouble(x: Word, k: nat)
    requires k < 64
    ensures Bit(x * 2 % TWO64, k) == (k > 0 && Bit(x, k - 1))
  {
    DoubleIs(x);
    TwoTo64();
    if k > 0 && x >= Pow2(63) {
      BitAddHigh(x - Pow2(63), 63, k - 1);
    }
  }

  lemma {:induction false} BitShl(w: Word, n: nat, k: nat)
    requires k < 64
    ensures Bit(Shl(w, n), k) == (n <= k && Bit(w, k - n))
  {
    if n != 0 {
      BitDouble(Shl(w, n - 1), k);
      if k != 0 { BitShl(w, n - 1, k - 1); }
    }
  }

  lemma WindowBit(a: Word, b: Word, off: nat, edge: Word, j: nat)
    requires off < 64 && j < 64
    ensures Bit(Window(a, b, off, edge), j) ==
            if off == 0 then Bit(a, j) || Bit(edge, j)
            else if off + j < 64 then Bit(a, off + j) else Bit(b, off + j - 64)
  {
    BitOr(Shr(a, off), if off == 0 then edge else Shl(b, 64 - off), j);
    BitShr(a, off, j);
    if off != 0 {
      BitShl(b, 64 - off, j);
      TwoTo64();
      if off + j >= 64 {
        BitsBelow(a, 64, off + j);
      }
    }
  }

  lemma {:induction false} OrBound(x: nat, y: nat, n: nat)
    requires x < Pow2(n) && y < Pow2(n)
    ensures Or(x, y) < Pow2(n)
  {
    if n != 0 && x != 0 {
      OrBound(x / 2, y / 2, n - 1);
    }
  }

  lemma OrIsWord(x: Word, y: Word)
    ensures Or(x, y) < TWO64
  {
    TwoTo64();
    OrBound(x, y, 64);
  }

  lemma {:induction false} OrBelow(x: nat, y: nat, n: nat)
    ensures Or(x, y) < Pow2(n) <==> x < Pow2(n) && y < Pow2(n)
  {
    if n == 0 {
      if x != 0 { OrBelow(x / 2, y / 2, 0); }
    } else if x != 0 {
      OrBelow(x / 2, y / 2, n - 1);
    }
  }

  lemma DivUnique(a: nat, d: nat, q: nat, r: nat)
    requires d >= 1 && a == d * q + r && r < d
    ensures a / d == q && a % d == r
  {
    var p := a / d;
    assert a == d * p + a % d;
    MulGap(d, p, q);
    MulGap(d, q, p);
  }

  lemma MulGap(d: nat, x: nat, y: nat)
    ensures x < y ==> d * x + d <= d * y
  {
    if x < y {
      assert d * y == d * (x + 1) + d * (y - x - 1);
    }
  }

  // ---------------------------------------------------------------- trailing zeros

  /** The index of the lowest set bit (see `LowestBitIs`). */
  function LowestBit(x: nat): (k: nat)
    requires x != 0
    ensures Bit(x, k)
  {
    if x % 2 == 1 then 0 else LowestBit(x / 2) + 1
  }

  /** No bit below it is set. */
  lemma {:induction false} LowestBitIs(x: nat, j: nat)
    requires x != 0
    ensures Bit(x, LowestBit(x)) && (j < LowestBit(x) ==> !Bit(x, j))
  {
    if x % 2 == 0 && j > 0 { LowestBitIs(x / 2, j - 1); }
  }

  lemma {:induction false} LowestBitBelow(x: nat, n: nat)
    requires 0 < x < Pow2(n)
    ensures LowestBit(x) < n
  {
    if x % 2 == 0 {
      LowestBitBelow(x / 2, n - 1);
    }
  }

  /** `ctzll`: the number of zero bits below the lowest set bit, 64 for a zero word. */
  function Ctz(x: nat): nat {
    if x == 0 then 64 else LowestBit(x)
  }
}

/** The portable branch of `ctzll` (core/lib_k.h:283-307). */
module DeBruijn {
  import opened Bits

  const DEBRUIJN64: Word := 0x03F7_9D71_B4CB_0A89

  const TABLE: seq<seq<nat>> := [
    [ 0,  1, 48,  2, 57, 49, 28,  3],
    [61, 58, 50, 42, 38, 29, 17,  4],
    [62, 55, 59, 36, 53, 51, 43, 22],
    [45, 39, 33, 30, 24, 18, 12,  5],
    [63, 47, 56, 27, 60, 41, 37, 16],
    [54, 35, 52, 21, 44, 32, 23, 11],
    [46, 26, 40, 15, 34, 20, 31, 10],
    [25, 14, 19,  9, 13,  8,  7,  6]]

  /** The table entry that the upper six bits of a word select. */
  function Lookup(word: Word): nat {
    var idx := word / 0x400_0000_0000_0000;
    assert |TABLE| == 8 && |TABLE[idx / 8]| == 8;
    TABLE[idx / 8][idx % 8]
  }

  function Ctzll(x: Word): nat {
    if x == 0 then 64
    else
      var lsb := And(x, TWO64 - x);
      Lookup(lsb * DEBRUIJN64 % TWO64)
  }

  lemma {:induction false} AndComplement(y: nat, n: nat)
    requires y < Pow2(n)
    ensures And(y, Pow2(n) - 1 - y) == 0
  {
    if y != 0 {
      AndComplement(y / 2, n - 1);
      assert (Pow2(n) - 1 - y) / 2 == Pow2(n - 1) - 1 - y / 2;
    }
  }

  /** `x & -x` is the lowest set bit alone. */
  lemma {:induction false} Isolate(x: nat, n: nat)
    requires 0 < x < Pow2(n)
    ensures And(x, Pow2(n) - x) == Pow2(LowestBit(x))
  {
    if x % 2 == 1 {
      AndComplement(x / 2, n - 1);
      assert (Pow2(n) - x) / 2 == Pow2(n - 1) - 1 - x / 2;
    } else {
      Isolate(x / 2, n - 1);
      assert (Pow2(n) - x) / 2 == Pow2(n - 1) - x / 2;
    }
  }

  function Twice(w: Word): Word {
    if w < 0x8000_0000_0000_0000 then 2 * w else 2 * w - TWO64
  }

  /** The series moved to the left by `k` bits, in 64 bits. */
  function Moved(k: nat): Word {
    if k == 0 then DEBRUIJN64 else Twice(Moved(k - 1))
  }

  lemma {:induction false} MovedIs(k: nat)
    ensures Pow2(k) * DEBRUIJN64 % TWO64 == Moved(k)
  {
    if k != 0 {
      MovedIs(k - 1);
      DoubleModulo(Pow2(k - 1) * DEBRUIJN64);
      assert Pow2(k) * DEBRUIJN64 == 2 * (Pow2(k - 1) * DEBRUIJN64);
    }
  }

  lemma DoubleModulo(a: nat)
    ensures 2 * a % TWO64 == Twice(a % TWO64)
  {
    var q, r := a / TWO64, a % TWO64;
    if 2 * r < TWO64 {
      DivUnique(2 * a, TWO64, 2 * q, 2 * r);
    } else {
      DivUnique(2 * a, TWO64, 2 * q + 1, 2 * r - TWO64);
    }
  }

  /** The table selects `k` for the word. */
  predicate Selects(w: Word, k: nat) {
    Lookup(w) == k
  }

  /** From `k` on, where the series has become `w`, it meets `ok` at `n` positions and is then
      `last`.  The table is passed as `ok`, and so stays out of the induction. */
  predicate RowHolds(ok: (Word, nat) -> bool, w: Word, k: nat, n: nat, last: Word)
    decreases n
  {
    if n == 0 then w == last else ok(w, k) && RowHolds(ok, Twice(w), k + 1, n - 1, last)
  }

  lemma {:induction false} RowGives(ok: (Word, nat) -> bool, w: Word, k: nat, n: nat, last: Word, j: nat)
    requires w == Moved(k) && RowHolds(ok, w, k, n, last)
    ensures Moved(k + n) == last && (k <= j < k + n ==> ok(Moved(j), j))
    decreases n
  {
    if n != 0 { RowGives(ok, Twice(w), k + 1, n - 1, last, j); }
  }

  // The series moved by 8 bits at a time; moved by 64 it is gone.
  const MOVED0: Word := 0x03F7_9D71_B4CB_0A89
  const MOVED8: Word := 0xF79D_71B4_CB0A_8900
  const MOVED16: Word := 0x9D71_B4CB_0A89_0000
  const MOVED24: Word := 0x71B4_CB0A_8900_0000
  const MOVED32: Word := 0xB4CB_0A89_0000_0000
  const MOVED40: Word := 0xCB0A_8900_0000_0000
  const MOVED48: Word := 0x0A89_0000_0000_0000
  const MOVED56: Word := 0x8900_0000_0000_0000
  const MOVED64: Word := 0x0000_0000_0000_0000

  lemma RowFrom0()
    ensures RowHolds(Selects, MOVED0, 0, 8, MOVED8)
  {
    assert RowHolds(Selects, 0x03F7_9D71_B4CB_0A89, 0, 8, 0xF79D_71B4_CB0A_8900);
  }

  lemma RowFrom8()
    ensures RowHolds(Selects, MOVED8, 8, 8, MOVED16)
  {
    assert RowHolds(Selects, 0xF79D_71B4_CB0A_8900, 8, 8, 0x9D71_B4CB_0A89_0000);
  }

  lemma RowFrom16()
    ensures RowHolds(Selects, MOVED16, 16, 8, MOVED24)
  {
    assert RowHolds(Selects, 0x9D71_B4CB_0A89_0000, 16, 8, 0x71B4_CB0A_8900_0000);
  }

  lemma RowFrom24()
    ensures RowHolds(Selects, MOVED24, 24, 8, MOVED32)
  {
    assert RowHolds(Selects, 0x71B4_CB0A_8900_0000, 24, 8, 0xB4CB_0A89_0000_0000);
  }

  lemma RowFrom32()
    ensures RowHolds(Selects, MOVED32, 32, 8, MOVED40)
  {
    assert RowHolds(Selects, 0xB4CB_0A89_0000_0000, 32, 8, 0xCB0A_8900_0000_0000);
  }

  lemma RowFrom40()
    ensures RowHolds(Selects, MOVED40, 40, 8, MOVED48)
  {
    assert RowHolds(Selects, 0xCB0A_8900_0000_0000, 40, 8, 0x0A89_0000_0000_0000);
  }

  lemma RowFrom48()
    ensures RowHolds(Selects, MOVED48, 48, 8, MOVED56)
  {
    assert RowHolds(Selects, 0x0A89_0000_0000_0000, 48, 8, 0x8900_0000_0000_0000);
  }

  lemma RowFrom56()
    ensures RowHolds(Selects, MOVED56, 56, 8, MOVED64)
  {
    assert RowHolds(Selects, 0x8900_0000_0000_0000, 56, 8, 0x0000_0000_0000_0000);
  }

  lemma RowGivesAt(w: Word, from: nat, last: Word, k: nat)
    requires w == Moved(from) && RowHolds(Selects, w, from, 8, last)
    ensures Moved(from + 8) == last && (from <= k < from + 8 ==> Lookup(Moved(k)) == k)
  {
    RowGives(Selects, w, from, 8, last, k);
    if from <= k < from + 8 { assert Selects(Moved(k), k); }
  }

  lemma LowTable(k: nat)
    requires k < 32
    ensures Lookup(Moved(k)) == k && Moved(32) == MOVED32
  {
    RowFrom0(); RowGivesAt(MOVED0, 0, MOVED8, k);
    RowFrom8(); RowGivesAt(MOVED8, 8, MOVED16, k);
    RowFrom16(); RowGivesAt(MOVED16, 16, MOVED24, k);
    RowFrom24(); RowGivesAt(MOVED24, 24, MOVED32, k);
  }

  lemma HighTable(k: nat)
    requires 32 <= k < 64
    ensures Lookup(Moved(k)) == k
  {
    LowTable(0);
    RowFrom32(); RowGivesAt(MOVED32, 32, MOVED40, k);
    RowFrom40(); RowGivesAt(MOVED40, 40, MOVED48, k);
    RowFrom48(); RowGivesAt(MOVED48, 48, MOVED56, k);
    RowFrom56(); RowGivesAt(MOVED56, 56, MOVED64, k);
  }

  /** The table gives `k` back for the product with bit `k`. */
  lemma TableInverts(k: nat)
    requires k < 64
    ensures Lookup(Pow2(k) * DEBRUIJN64 % TWO64) == k
  {
    if k < 32 { LowTable(k); } else { HighTable(k); }
    MovedIs(k);
  }

  /** For every word the de Bruijn lookup counts the zero bits below the lowest set bit. */
  lemma CtzllIsCtz(x: Word)
    ensures Ctzll(x) == Ctz(x)
  {
    if x != 0 {
      TwoTo64();
      Isolate(x, 64);
      LowestBitBelow(x, 64);
      TableInverts(LowestBit(x));
    }
  }
}
