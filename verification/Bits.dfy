// The slot bitmap of a slab: 64-bit words in which a set bit marks a free slot, the de Bruijn
// lowest-bit lookup, and the search for the first set bit (src/slab.c:85-166).
module Bits {

  const WORD_BITS: nat := 64
  const WORD_COUNT: nat := 820           // SLAB_SIZE / MIN_SLAB_CHUNK_SIZE / 64 + 1
  const BIT_COUNT: nat := 52480          // WORD_COUNT * WORD_BITS
  const ALL_ONES: bv64 := 0xFFFF_FFFF_FFFF_FFFF

  // The 64-entry table of the source, kept in its eight rows of eight.
  const DEBRUIJN_TAB: seq<seq<nat>> := [
    [ 0,  1,  2, 53,  3,  7, 54, 27],
    [ 4, 38, 41,  8, 34, 55, 48, 28],
    [62,  5, 39, 46, 44, 42, 22,  9],
    [24, 35, 59, 56, 49, 18, 29, 11],
    [63, 52,  6, 26, 37, 40, 33, 47],
    [61, 45, 43, 21, 23, 58, 17, 10],
    [51, 25, 36, 32, 60, 20, 57, 16],
    [50, 31, 19, 15, 30, 14, 13, 12]]

  // ----- single bits of a word ------------------------------------------------------------

  /** A bit offset in the form the shift operators take. */
  function Offset(j: nat): (r: bv7)
    requires j < 64
    ensures r < 64
    decreases j, 0
  {
    if j == 0 then 0 else (OffsetValue(j - 1); Offset(j - 1) + 1)
  }

  lemma OffsetValue(j: nat)
    requires j < 64
    ensures Offset(j) as int == j
    decreases j, 1
  {
  }

  lemma OffsetInjective(j: nat, k: nat)
    requires j < 64 && k < 64
    ensures Offset(j) == Offset(k) <==> j == k
  {
  }

  predicate BitAt(w: bv64, j: bv7)
    requires j < 64
  {
    (w >> j) & 1 == 1
  }

  predicate Bit(w: bv64, j: nat)
    requires j < 64
  {
    BitAt(w, Offset(j))
  }

  lemma SetBitAt(w: bv64, j: bv7, k: bv7)
    requires j < 64 && k < 64
    ensures BitAt(w | (1 << j), k) == (j == k || BitAt(w, k))
  {
  }

  lemma ClearBitAt(w: bv64, j: bv7, k: bv7)
    requires j < 64 && k < 64
    ensures BitAt(w & !((1 as bv64) << j), k) == (j != k && BitAt(w, k))
  {
  }

  lemma SetBitOffsets(w: bv64, j: nat, k: nat, x: bv7, y: bv7)
    requires j < 64 && k < 64 && x == Offset(j) && y == Offset(k)
    ensures BitAt(w | (1 << x), y) == (j == k || BitAt(w, y))
  {
    OffsetInjective(j, k);
    SetBitAt(w, x, y);
  }

  lemma ClearBitOffsets(w: bv64, j: nat, k: nat, x: bv7, y: bv7)
    requires j < 64 && k < 64 && x == Offset(j) && y == Offset(k)
    ensures BitAt(w & !((1 as bv64) << x), y) == (j != k && BitAt(w, y))
  {
    OffsetInjective(j, k);
    ClearBitAt(w, x, y);
  }

  /** Or-ing in `1 << j` sets bit j and no other. */
  lemma SetBitMeaning(w: bv64, w': bv64, j: nat, x: bv7, k: nat)
    requires j < 64 && k < 64 && x == Offset(j) && w' == w | (1 << x)
    ensures Bit(w', k) == (j == k || Bit(w, k))
  {
    SetBitOffsets(w, j, k, x, Offset(k));
  }

  /** And-ing with `~(1 << j)` clears bit j and no other. */
  lemma ClearBitMeaning(w: bv64, w': bv64, j: nat, x: bv7, k: nat)
    requires j < 64 && k < 64 && x == Offset(j) && w' == w & !((1 as bv64) << x)
    ensures Bit(w', k) == (j != k && Bit(w, k))
  {
    ClearBitOffsets(w, j, k, x, Offset(k));
  }

  // ----- the lowest set bit ----------------------------------------------------------------

  /** `x & -x` keeps the lowest set bit, the multiplication moves a 6-bit code that is unique to
      its position into the top bits, and the table decodes it. */
  function Nlz64(x: bv64): nat {
    var h: bv64 := ((x & -x) * 0x022FDD63CC95386D) >> 58;
    DEBRUIJN_TAB[(h >> 3) as int][(h & 7) as int]
  }

  lemma LowBitClear(w: bv64, j: bv7)
    requires j < 64 && !BitAt(w, j) && w & ((1 << j) - 1) == 0
    ensures w & ((1 << (j + 1)) - 1) == 0
  {
  }

  lemma {:induction false} LowBitsClear(w: bv64, j: nat, x: bv7)
    requires j < 64 && x == Offset(j)
    requires forall k: nat | k < j :: !Bit(w, k)
    ensures w & ((1 << x) - 1) == 0
  {
    if j > 0 {
      var y := Offset(j - 1);
      LowBitsClear(w, j - 1, y);
      assert !Bit(w, j - 1);
      LowBitClear(w, y);
    }
  }

  lemma TopBitLeft(w: bv64)
    requires w & ((1 << (63 as bv7)) - 1) == 0 && !BitAt(w, 63)
    ensures w == 0
  {
  }

  lemma Offset63()
    ensures Offset(63) == 63
  {
    OffsetValue(63);
  }

  /** A word with no bit set is zero, so a nonzero word has a lowest set bit. */
  lemma LowestBitExists(w: bv64) returns (j: nat)
    requires w != 0
    ensures j < 64 && Bit(w, j) && forall k: nat | k < j :: !Bit(w, k)
  {
    j := 0;
    while j < 63 && !Bit(w, j)
      invariant j <= 63
      invariant forall k: nat | k < j :: !Bit(w, k)
    {
      j := j + 1;
    }
    if !Bit(w, j) {
      Offset63();
      LowBitsClear(w, 63, 63);
      TopBitLeft(w);
      assert false;
    }
  }

  lemma IsolateLowest(w: bv64, j: bv7)
    requires j < 64 && BitAt(w, j) && w & ((1 << j) - 1) == 0
    ensures w & -w == 1 << j
  {
  }

  lemma DeBruijnDecodes(j: bv7, h: bv64)
    requires j < 64 && h == ((1 << j) * 0x022FDD63CC95386D) >> 58
    ensures (h >> 3) as int < 8 && (h & 7) as int < 8
    ensures DEBRUIJN_TAB[(h >> 3) as int][(h & 7) as int] == j as int
  {
  }

  /** For every nonzero word the lookup yields the index of the lowest set bit. */
  lemma Nlz64IsLowestBit(w: bv64)
    requires w != 0
    ensures Nlz64(w) < 64 && Bit(w, Nlz64(w))
    ensures forall k: nat | k < Nlz64(w) :: !Bit(w, k)
  {
    var j := LowestBitExists(w);
    Nlz64At(w, j, Offset(j));
  }

  lemma Nlz64At(w: bv64, j: nat, x: bv7)
    requires j < 64 && x == Offset(j)
    requires Bit(w, j) && forall k: nat | k < j :: !Bit(w, k)
    ensures Nlz64(w) == j
  {
    LowBitsClear(w, j, x);
    IsolateLowest(w, x);
    DeBruijnDecodes(x, ((1 << x) * 0x022FDD63CC95386D) >> 58);
    OffsetValue(j);
  }

  // ----- the bitmap -------------------------------------------------------------------------

  /** The slots of one slab. `used` is the abstract value: the indices whose bit is clear. */
  class BitSet {
    const words: array<bv64>
    ghost var used: set<nat>

    ghost predicate Valid()
      reads this, words
    {
      && words.Length == WORD_COUNT
      && (forall b | b in used :: b < BIT_COUNT)
      && (forall i, j | 0 <= i < WORD_COUNT && 0 <= j < WORD_BITS ::
            Bit(words[i], j) == (i * WORD_BITS + j !in used))
    }

    /** All slots free: every word is filled with ones. */
    constructor ()
      ensures Valid() && used == {} && fresh(words)
    {
      words := new bv64[WORD_COUNT](i => ALL_ONES);
      used := {};
      new;
      forall i, j | 0 <= i < WORD_COUNT && 0 <= j < WORD_BITS
        ensures Bit(words[i], j) {
        OnesHaveAllBits(words[i], j);
      }
    }

    /** Marks slot b free. */
    method SetBit(b: nat)
      requires Valid() && b < BIT_COUNT
      modifies this`used, words
      ensures Valid() && used == old(used) - {b}
    {
      hide Bit;
      var i, o := b / WORD_BITS, b % WORD_BITS;
      var x := Offset(o);
      ghost var w := words[i];
      words[i] := words[i] | (1 << x);
      used := used - {b};
      forall j | 0 <= j < WORD_BITS
        ensures Bit(words[i], j) == (i * WORD_BITS + j !in used) {
        SetBitMeaning(w, words[i], o, x, j);
      }
    }

    /** Marks slot b used. */
    method ClearBit(b: nat)
      requires Valid() && b < BIT_COUNT
      modifies this`used, words
      ensures Valid() && used == old(used) + {b}
    {
      hide Bit;
      var i, o := b / WORD_BITS, b % WORD_BITS;
      var x := Offset(o);
      ghost var w := words[i];
      words[i] := words[i] & !((1 as bv64) << x);
      used := used + {b};
      forall j | 0 <= j < WORD_BITS
        ensures Bit(words[i], j) == (i * WORD_BITS + j !in used) {
        ClearBitMeaning(w, words[i], o, x, j);
      }
    }

    method GetBit(b: nat) returns (r: bv64)
      requires Valid() && b < BIT_COUNT
      ensures r != 0 <==> b !in used
    {
      var i, o := b / WORD_BITS, b % WORD_BITS;
      r := (words[i] >> Offset(o)) & 1;
      assert Bit(words[i], o) == (i * WORD_BITS + o !in used);
      LastBit(words[i] >> Offset(o));
    }

    /** The least free slot over the whole bitmap, or -1 when no bit is set. */
    method FfSetBit() returns (r: int)
      requires Valid()
      ensures r == -1 || (0 <= r < BIT_COUNT && r !in used)
      ensures forall b | 0 <= b < (if r == -1 then BIT_COUNT else r) :: b in used
    {
      var i := 0;
      while i < WORD_COUNT
        invariant 0 <= i <= WORD_COUNT
        invariant forall b | 0 <= b < i * WORD_BITS :: b in used
      {
        var w := words[i];
        if w != 0 {
          var j := Nlz64(w);
          Nlz64IsLowestBit(w);
          assert Bit(words[i], j) == (i * WORD_BITS + j !in used);
          forall b | i * WORD_BITS <= b < i * WORD_BITS + j
            ensures b in used {
            var k := b - i * WORD_BITS;
            assert Bit(words[i], k) == (i * WORD_BITS + k !in used);
          }
          return j + i * WORD_BITS;
        }
        forall b | i * WORD_BITS <= b < (i + 1) * WORD_BITS
          ensures b in used {
          var k := b - i * WORD_BITS;
          assert Bit(words[i], k) == (i * WORD_BITS + k !in used);
          ZeroHasNoBits(words[i], k);
        }
        i := i + 1;
      }
      r := -1;
    }
  }

  lemma OnesHaveAllBits(w: bv64, j: nat)
    requires w == ALL_ONES && j < 64
    ensures Bit(w, j)
  {
  }

  lemma ZeroHasNoBits(w: bv64, j: nat)
    requires w == 0 && j < 64
    ensures !Bit(w, j)
  {
  }

  lemma LastBit(w: bv64)
    ensures w & 1 == 0 || w & 1 == 1
  {
  }
}
