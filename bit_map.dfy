/** xe::BitMap: a slot allocator over a vector of 32-bit words. Slot
    i * 32 + k is local slot k (bit 31 - k) of word i; a bit of 1 means the
    slot is free and 0 means it is taken. */
module BitMaps {
  import opened WordBits

  datatype Option<T> = None | Some(value: T)

  /** The values of a 64-bit `size_t`. */
  type SizeT = n: int | 0 <= n < 0x1_0000_0000_0000_0000

  /** `(size_t)-1`, which Acquire returns when no slot is free. */
  const NoFreeSlot: SizeT := 0xFFFF_FFFF_FFFF_FFFF

  /** A bitmap stays below this many words, so that every slot index is a
      `size_t` below NoFreeSlot (with 2^59 words the last slot would be
      2^64 - 1 itself). */
  const MaxWords: nat := 0x800_0000_0000_0000

  /** The number of slots of the words ws. */
  function Capacity(ws: seq<Word>): nat
  {
    |ws| * Width
  }

  /** Slot j of ws is free. */
  predicate Free(ws: seq<Word>, j: nat)
    requires j < Capacity(ws)
  {
    IsFree(ws[j / Width], Loc(j))
  }

  lemma SameWordSameLoc(j: nat, k: nat)
    requires j / Width == k / Width && Loc(j) == Loc(k)
    ensures j == k
  {
    LocInjective(j, k);
  }

  /** Slot i * 32 + n lies in word i at offset n: the `/` and `%` arithmetic. */
  lemma WordOffset(i: nat, n: nat)
    requires n < Width
    ensures (i * Width + n) / Width == i && (i * Width + n) % Width == n
  {
  }

  /** Slot i * 32 + n lies in word i, and Loc maps it to local slot n. */
  lemma SlotOfWord(i: nat, n: nat)
    requires n < Width
    ensures (i * Width + n) / Width == i && Loc(i * Width + n) == Loc(n)
  {
    WordOffset(i, n);
    LocOfMod(i * Width + n, n);
  }

  /** Slot j of word i is local slot j - i * 32 of that word. */
  lemma SlotInWord(i: nat, j: nat)
    requires i * Width <= j < i * Width + Width
    ensures j / Width == i && Loc(j) == Loc(j - i * Width)
  {
    SlotOfWord(i, j - i * Width);
  }

  /** ws with slot j taken: the word update Acquire performs (TakeSlots). */
  function Take(ws: seq<Word>, j: nat): (r: seq<Word>)
    requires j < Capacity(ws)
    ensures |r| == |ws|
  {
    ws[j / Width := Clear(ws[j / Width], Loc(j))]
  }

  /** Taking slot j makes it taken and leaves every other slot as it was. */
  lemma TakeSlots(ws: seq<Word>, j: nat)
    requires j < Capacity(ws)
    ensures !Free(Take(ws, j), j)
    ensures forall k :: 0 <= k < Capacity(ws) && k != j ==> (Free(Take(ws, j), k) <==> Free(ws, k))
  {
    var r := Take(ws, j);
    forall k | 0 <= k < Capacity(ws) && k != j
      ensures Free(r, k) <==> Free(ws, k)
    {
      if k / Width == j / Width {
        if Loc(k) == Loc(j) {
          SameWordSameLoc(j, k);
        }
        ClearKeepsOthers(ws[j / Width], Loc(j), Loc(k));
      }
    }
  }

  /** ws with slot j free: the word update Release performs (GiveSlots). */
  function Give(ws: seq<Word>, j: nat): (r: seq<Word>)
    requires j < Capacity(ws)
    ensures |r| == |ws|
  {
    ws[j / Width := Set(ws[j / Width], Loc(j))]
  }

  /** Freeing slot j makes it free and leaves every other slot as it was. */
  lemma GiveSlots(ws: seq<Word>, j: nat)
    requires j < Capacity(ws)
    ensures Free(Give(ws, j), j)
    ensures forall k :: 0 <= k < Capacity(ws) && k != j ==> (Free(Give(ws, j), k) <==> Free(ws, k))
  {
    var r := Give(ws, j);
    forall k | 0 <= k < Capacity(ws) && k != j
      ensures Free(r, k) <==> Free(ws, k)
    {
      if k / Width == j / Width {
        if Loc(k) == Loc(j) {
          SameWordSameLoc(j, k);
        }
        SetKeepsOthers(ws[j / Width], Loc(j), Loc(k));
      }
    }
  }

  /** Releasing the slot just acquired restores the words. */
  lemma GiveTake(ws: seq<Word>, j: nat)
    requires j < Capacity(ws) && Free(ws, j)
    ensures Give(Take(ws, j), j) == ws
  {
    SetClear(ws[j / Width], Loc(j));
  }

  /** Acquiring the slot just released restores the words. */
  lemma TakeGive(ws: seq<Word>, j: nat)
    requires j < Capacity(ws) && !Free(ws, j)
    ensures Take(Give(ws, j), j) == ws
  {
    ClearSet(ws[j / Width], Loc(j));
  }

  /** Slot i * 32 + n, for a local slot n, lies within the words. */
  lemma SlotBelowCapacity(ws: seq<Word>, i: nat, n: nat)
    requires i < |ws| && n < Width
    ensures i * Width + n < Capacity(ws)
  {
  }

  /** The slot Acquire scanning from word i on chooses: the first word that
      is not zero and, in it, the leading free bit (FirstFitFromFirstFree). */
  function FirstFitFrom(ws: seq<Word>, i: nat): (r: Option<nat>)
    requires i <= |ws|
    ensures r.None? <==> forall k :: i <= k < |ws| ==> ws[k] == 0
    ensures r.Some? ==> i * Width <= r.value < Capacity(ws)
    decreases |ws| - i
  {
    if i == |ws| then None
    else if ws[i] != 0 then
      SlotBelowCapacity(ws, i, Lzcnt(ws[i]));
      Some(i * Width + Lzcnt(ws[i]))
    else
      FirstFitFrom(ws, i + 1)
  }

  /** The choice from word i on is a free slot and no slot from word i up to
      it is free; when there is no choice, no slot from word i on is free. */
  lemma {:induction false} FirstFitFromFirstFree(ws: seq<Word>, i: nat)
    requires i <= |ws|
    ensures FirstFitFrom(ws, i).Some? ==> Free(ws, FirstFitFrom(ws, i).value)
    ensures FirstFitFrom(ws, i).Some? ==>
      forall j :: i * Width <= j < FirstFitFrom(ws, i).value ==> !Free(ws, j)
    ensures FirstFitFrom(ws, i).None? ==> forall j :: i * Width <= j < Capacity(ws) ==> !Free(ws, j)
    decreases |ws| - i
  {
    if i < |ws| {
      if ws[i] != 0 {
        FirstInWord(ws, i, Lzcnt(ws[i]));
      } else {
        FirstFitFromFirstFree(ws, i + 1);
        ZeroWordTaken(ws, i);
      }
    }
  }

  lemma FirstInWord(ws: seq<Word>, i: nat, n: nat)
    requires i < |ws| && ws[i] != 0 && n == Lzcnt(ws[i])
    ensures i * Width + n < Capacity(ws) && Free(ws, i * Width + n)
    ensures forall j :: i * Width <= j < i * Width + n ==> !Free(ws, j)
  {
    LzcntFirstFree(ws[i]);
    SlotOfWord(i, n);
    forall j | i * Width <= j < i * Width + n
      ensures !Free(ws, j)
    {
      SlotInWord(i, j);
    }
  }

  lemma ZeroWordTaken(ws: seq<Word>, i: nat)
    requires i < |ws| && ws[i] == 0
    ensures forall j :: i * Width <= j < (i + 1) * Width ==> !Free(ws, j)
  {
    forall j | i * Width <= j < (i + 1) * Width
      ensures !Free(ws, j)
    {
      assert j / Width == i;
      AllFreeAndZero(Loc(j));
    }
  }

  /** The slot a successful Acquire returns, or None when every word is
      zero; it is the lowest-numbered free slot (FirstFitFirstFree). */
  function FirstFit(ws: seq<Word>): (r: Option<nat>)
    ensures r.None? <==> forall i :: 0 <= i < |ws| ==> ws[i] == 0
    ensures r.Some? ==> r.value < Capacity(ws)
  {
    FirstFitFrom(ws, 0)
  }

  /** FirstFit is None exactly when no slot is free, and otherwise it is a
      free slot below which no slot is free. */
  lemma FirstFitFirstFree(ws: seq<Word>)
    ensures FirstFit(ws).None? <==> forall j :: 0 <= j < Capacity(ws) ==> !Free(ws, j)
    ensures FirstFit(ws).Some? ==> Free(ws, FirstFit(ws).value)
    ensures FirstFit(ws).Some? ==> forall j :: 0 <= j < FirstFit(ws).value ==> !Free(ws, j)
  {
    FirstFitFromFirstFree(ws, 0);
  }

  /** Skipping a prefix of zero words does not change the choice. */
  lemma {:induction false} FirstFitSkipsZeroWords(ws: seq<Word>, i: nat)
    requires i <= |ws|
    requires forall k :: 0 <= k < i ==> ws[k] == 0
    ensures FirstFitFrom(ws, 0) == FirstFitFrom(ws, i)
  {
    if i > 0 {
      FirstFitSkipsZeroWords(ws, i - 1);
    }
  }

  /** The choice is `i * 32 + lzcnt(entry)` for the first word i that is not zero. */
  lemma FirstFitIsLzcntOfFirstNonZeroWord(ws: seq<Word>, i: nat)
    requires i < |ws| && ws[i] != 0
    requires forall k :: 0 <= k < i ==> ws[k] == 0
    ensures FirstFit(ws) == Some(i * Width + Lzcnt(ws[i]))
  {
    FirstFitSkipsZeroWords(ws, i);
  }

  /** Clearing the leading free bit of the first word that is not zero
      takes the first-fit slot, whose index is a `size_t` below NoFreeSlot. */
  lemma AcquireInWord(ws: seq<Word>, i: nat)
    requires |ws| < MaxWords
    requires i < |ws| && ws[i] != 0
    requires forall k :: 0 <= k < i ==> ws[k] == 0
    ensures IsFree(ws[i], Loc(Lzcnt(ws[i])))
    ensures i * Width + Lzcnt(ws[i]) < Capacity(ws)
    ensures i * Width + Lzcnt(ws[i]) < NoFreeSlot
    ensures FirstFit(ws) == Some(i * Width + Lzcnt(ws[i]))
    ensures ws[i := Clear(ws[i], Loc(Lzcnt(ws[i])))] == Take(ws, i * Width + Lzcnt(ws[i]))
  {
    LzcntBitSet(ws[i]);
    TakeInWord(ws, i, Lzcnt(ws[i]));
    FirstFitIsLzcntOfFirstNonZeroWord(ws, i);
    CapacityBelowSentinel(ws);
  }

  /** Taking slot i * 32 + n clears local slot n of word i. */
  lemma TakeInWord(ws: seq<Word>, i: nat, n: nat)
    requires i < |ws| && n < Width
    ensures i * Width + n < Capacity(ws)
    ensures Take(ws, i * Width + n) == ws[i := Clear(ws[i], Loc(n))]
  {
    SlotOfWord(i, n);
  }

  lemma CapacityBelowSentinel(ws: seq<Word>)
    requires |ws| < MaxWords
    ensures Capacity(ws) < NoFreeSlot
  {
  }

  /** n words, every slot free (OnesAllFree). */
  function Ones(n: nat): (r: seq<Word>)
    ensures |r| == n
  {
    seq(n, _ => AllFree)
  }

  /** Every slot of Ones(n) is free. */
  lemma OnesAllFree(n: nat)
    ensures forall j :: 0 <= j < Capacity(Ones(n)) ==> Free(Ones(n), j)
  {
    forall j | 0 <= j < Capacity(Ones(n))
      ensures Free(Ones(n), j)
    {
      AllFreeAndZero(Loc(j));
    }
  }

  /** ws after `std::vector::resize(n)` and filling the words it adds with
      all ones. */
  function Resized(ws: seq<Word>, n: nat): (r: seq<Word>)
    ensures |r| == n
    ensures forall k :: 0 <= k < n && k < |ws| ==> r[k] == ws[k]
    ensures forall k :: |ws| <= k < n ==> r[k] == AllFree
  {
    if n <= |ws| then ws[..n] else ws + Ones(n - |ws|)
  }

  /** Resizing keeps the state of every slot that survives and makes every
      added slot free. */
  lemma ResizedSlots(ws: seq<Word>, n: nat)
    ensures forall j :: 0 <= j < Capacity(ws) && j < Capacity(Resized(ws, n)) ==>
      (Free(Resized(ws, n), j) <==> Free(ws, j))
    ensures forall j :: Capacity(ws) <= j < Capacity(Resized(ws, n)) ==> Free(Resized(ws, n), j)
  {
    var r := Resized(ws, n);
    forall j | Capacity(ws) <= j < Capacity(r)
      ensures Free(r, j)
    {
      assert j / Width >= |ws|;
      AllFreeAndZero(Loc(j));
    }
  }

  class BitMap {
    /** data_: the words, one bit per slot. */
    var data: seq<Word>

    ghost predicate Valid()
      reads this
    {
      |data| < MaxWords
    }

    /** BitMap(): no words. */
    constructor ()
      ensures Valid() && data == []
    {
      data := [];
    }

    /** BitMap(size): size bytes of words, every slot free. */
    constructor Sized(size: SizeT)
      requires size % 4 == 0 && size / 4 < MaxWords
      ensures Valid() && data == Ones(size / 4)
    {
      data := [];
      new;
      Resize(size);
    }

    /** BitMap(data, size): the first size bytes of src, copied verbatim. */
    constructor FromWords(src: seq<Word>, size: SizeT)
      requires size % 4 == 0 && size / 4 <= |src| && size / 4 < MaxWords
      ensures Valid() && data == src[..size / 4]
    {
      data := src[..size / 4];
    }

    /** Take the lowest-numbered free slot and return its index, or
        NoFreeSlot when every slot is taken. The retry loop around the
        compare-and-swap of a word succeeds at once when nothing runs
        concurrently, so it is one read-modify-write here. */
    method Acquire() returns (r: SizeT)
      requires Valid()
      modifies this
      ensures Valid()
      ensures r == NoFreeSlot || r < Capacity(old(data))
      ensures r == NoFreeSlot <==> forall i :: 0 <= i < |old(data)| ==> old(data)[i] == 0
      ensures r == NoFreeSlot ==> data == old(data)
      ensures r != NoFreeSlot ==> FirstFit(old(data)) == Some(r) && data == Take(old(data), r)
    {
      for i := 0 to |data|
        invariant data == old(data)
        invariant forall k :: 0 <= k < i ==> data[k] == 0
      {
        var entry := data[i];
        var index := Lzcnt(entry);
        if index == Width {
          // The word is zero: go on to the next word.
          continue;
        }
        // entry & ~(1 << (kDataSizeBits - index - 1))
        var newEntry := Clear(entry, Loc(index));
        AcquireInWord(data, i);
        // The bit cleared was set: assert_not_zero(entry & bit).
        assert IsFree(entry, Loc(index));
        data := data[i := newEntry];
        return i * Width + index;
      }
      r := NoFreeSlot;
    }

    /** Free slot index, which must be taken. */
    method Release(index: SizeT)
      requires Valid()
      requires index < Capacity(data) && !Free(data, index)
      modifies this
      ensures Valid()
      ensures data == Give(old(data), index)
    {
      var slot := index / Width;
      var local := index - slot * Width;
      // 1 << (kDataSizeBits - index - 1)
      var bit := Mask(Loc(local));
      var entry := data[slot];
      LocOfMod(local, index);
      assert !IsFree(entry, Loc(local));
      data := data[slot := entry | bit];
    }

    /** Make the bitmap newSize bytes long; words that are added have every
        slot free. */
    method Resize(newSize: SizeT)
      requires Valid()
      requires newSize % 4 == 0 && newSize / 4 < MaxWords
      modifies this
      ensures Valid()
      ensures data == Resized(old(data), newSize / 4)
    {
      var oldSize := |data|;
      var n := newSize / 4;
      // std::vector::resize truncates, or appends zero-initialised words.
      data := if n <= |data| then data[..n] else data + seq(n - |data|, _ => 0);
      if |data| > oldSize {
        for i := oldSize to |data|
          invariant |data| == n
          invariant forall k :: 0 <= k < oldSize ==> data[k] == old(data)[k]
          invariant forall k :: oldSize <= k < i ==> data[k] == AllFree
        {
          data := data[i := AllFree];
        }
      }
      assert data == Resized(old(data), n);
    }

    /** Make every slot free. */
    method Reset()
      requires Valid()
      modifies this
      ensures Valid()
      ensures data == Ones(|old(data)|)
    {
      for i := 0 to |data|
        invariant |data| == |old(data)|
        invariant forall k :: 0 <= k < i ==> data[k] == AllFree
      {
        data := data[i := AllFree];
      }
      assert data == Ones(|old(data)|);
    }
  }
}
