/** One 32-bit word of a bitmap and the bit operations the allocator applies
    to it. Local slot k of a word (0 <= k < 32) is bit 31 - k, so local slots
    are numbered from the most significant bit down; a bit of 1 means the
    slot is free and 0 means it is taken.

    Local slots are bv5 values so that the bit reasoning stays within
    bit-vectors; Loc converts a natural number to the local slot it denotes. */
module WordBits {

  type Word = bv32

  /** The number of slots in one word (kDataSizeBits). */
  const Width: nat := 32

  /** A word whose 32 slots are all free (the C++ `-1` stored into a `uint32_t`). */
  const AllFree: Word := 0xFFFF_FFFF

  /** The local slot of position k within its word. */
  function Loc(k: nat): bv5
  {
    (k % 32) as bv5
  }

  lemma LocOfMod(x: nat, y: nat)
    requires x % Width == y % Width
    ensures Loc(x) == Loc(y)
  {
  }

  lemma LocValue(x: nat)
    ensures Loc(x) as int == x % Width
  {
  }

  lemma LocInjective(x: nat, y: nat)
    requires Loc(x) == Loc(y)
    ensures x % Width == y % Width
  {
    LocValue(x);
    LocValue(y);
  }

  /** The single-bit mask `1 << (kDataSizeBits - k - 1)` of local slot k. */
  function Mask(k: bv5): Word
  {
    1 << (31 - k)
  }

  /** Local slot k of w is free. */
  predicate IsFree(w: Word, k: bv5)
  {
    w & Mask(k) != 0
  }

  /** w with local slot k taken: `w & ~bit`. */
  function Clear(w: Word, k: bv5): (r: Word)
    ensures !IsFree(r, k)
  {
    w & !Mask(k)
  }

  /** Taking local slot k leaves every other local slot of w as it was. */
  lemma ClearKeepsOthers(w: Word, k: bv5, j: bv5)
    requires j != k
    ensures IsFree(Clear(w, k), j) <==> IsFree(w, j)
  {
    var mk, mj := Mask(k), Mask(j);
    assert mk != mj;
    assert mj & mj == mj && mj & mk == 0;
  }

  /** w with local slot k free: `w | bit`. */
  function Set(w: Word, k: bv5): (r: Word)
    ensures IsFree(r, k)
  {
    w | Mask(k)
  }

  /** Freeing local slot k leaves every other local slot of w as it was. */
  lemma SetKeepsOthers(w: Word, k: bv5, j: bv5)
    requires j != k
    ensures IsFree(Set(w, k), j) <==> IsFree(w, j)
  {
    var mk, mj := Mask(k), Mask(j);
    assert mk != mj;
    assert mj & mj == mj && mj & mk == 0;
  }

  /** Freeing a slot that was just taken gives the word back. */
  lemma SetClear(w: Word, k: bv5)
    requires IsFree(w, k)
    ensures Set(Clear(w, k), k) == w
  {
  }

  /** Taking a slot that was just freed gives the word back. */
  lemma ClearSet(w: Word, k: bv5)
    requires !IsFree(w, k)
    ensures Clear(Set(w, k), k) == w
  {
  }

  /** Every local slot of AllFree is free, and no local slot of 0 is. */
  lemma AllFreeAndZero(k: bv5)
    ensures IsFree(AllFree, k)
    ensures !IsFree(0, k)
  {
  }

  /** The first free local slot of w at or after position k, or Width if
      there is none (LzcntFromFirstFree). */
  function LzcntFrom(w: Word, k: nat): (n: nat)
    requires k <= Width
    ensures k <= n <= Width
    decreases Width - k
  {
    if k == Width then Width
    else if IsFree(w, Loc(k)) then k
    else LzcntFrom(w, k + 1)
  }

  /** LzcntFrom(w, k) is a free local slot, unless it is Width, and no local
      slot from k up to it is free. */
  lemma {:induction false} LzcntFromFirstFree(w: Word, k: nat)
    requires k <= Width
    ensures LzcntFrom(w, k) < Width ==> IsFree(w, Loc(LzcntFrom(w, k)))
    ensures forall j: nat :: k <= j < LzcntFrom(w, k) ==> !IsFree(w, Loc(j))
    decreases Width - k
  {
    if k < Width && !IsFree(w, Loc(k)) {
      LzcntFromFirstFree(w, k + 1);
    }
  }

  /** lzcnt of xenia/base/math.h on a 32-bit value: the number of leading
      zero bits, which is the first free local slot of w (LzcntFirstFree),
      or Width exactly when w has no free slot. */
  function Lzcnt(w: Word): (n: nat)
    ensures n <= Width
    ensures n == Width <==> w == 0
  {
    LzcntFromZero(w);
    LzcntFrom(w, 0)
  }

  lemma LzcntFromZero(w: Word)
    ensures LzcntFrom(w, 0) == Width <==> w == 0
  {
    LzcntFromFirstFree(w, 0);
    var n := LzcntFrom(w, 0);
    if n < Width {
      FreeIsNonZero(w, Loc(n));
    } else {
      NoFreeIsZero(w);
    }
  }

  /** Lzcnt(w) is the leading free local slot of w: it is free, unless it is
      Width, and every local slot before it is taken. */
  lemma LzcntFirstFree(w: Word)
    ensures Lzcnt(w) < Width ==> IsFree(w, Loc(Lzcnt(w)))
    ensures forall k: nat :: k < Lzcnt(w) ==> !IsFree(w, Loc(k))
  {
    LzcntFromFirstFree(w, 0);
  }

  /** The bit lzcnt names in a nonzero word is set. */
  lemma LzcntBitSet(w: Word)
    requires w != 0
    ensures IsFree(w, Loc(Lzcnt(w)))
  {
    LzcntFirstFree(w);
  }

  lemma FreeIsNonZero(w: Word, b: bv5)
    requires IsFree(w, b)
    ensures w != 0
  {
  }

  /** A word none of whose 32 local slots is free is zero. */
  lemma NoFreeIsZero(w: Word)
    requires forall k: nat :: k < Width ==> !IsFree(w, Loc(k))
    ensures w == 0
  {
    forall b: bv5
      ensures !IsFree(w, b)
    {
      LocOfLocal(b);
    }
    TakenFromIsZero(w, 0);
  }

  lemma LocOfLocal(b: bv5)
    ensures b as int < Width && Loc(b as int) == b
  {
    assert (b as int) % 32 == b as int;
  }

  /** The k most significant bits of w (its local slots 0 .. k-1) are zero. */
  predicate ZeroAbove(w: Word, k: bv6)
    requires k <= 32
  {
    w <= AllFree >> k
  }

  /** If the local slots before k are zero-bits and no slot from k on is
      free, w is zero. */
  lemma {:induction false} TakenFromIsZero(w: Word, k: bv6)
    requires k <= 32 && ZeroAbove(w, k)
    requires forall b: bv5 :: k <= b as bv6 ==> !IsFree(w, b)
    ensures w == 0
    decreases 32 - k
  {
    if k == 32 {
      ZeroAboveAll(w);
    } else {
      ZeroAboveStep(w, k);
      TakenFromIsZero(w, k + 1);
    }
  }

  lemma ZeroAboveStep(w: Word, k: bv6)
    requires k < 32 && ZeroAbove(w, k) && !IsFree(w, k as bv5)
    ensures ZeroAbove(w, k + 1)
  {
  }

  lemma ZeroAboveAll(w: Word)
    requires ZeroAbove(w, 32)
    ensures w == 0
  {
  }
}
