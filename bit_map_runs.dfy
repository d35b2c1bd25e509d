/** Successive calls of BitMap.Acquire and BitMap.Release, followed on the
    words of the bitmap: what a sequence of acquires hands out, and how a
    release and an acquire undo each other. */
module BitMapRuns {
  import opened WordBits
  import opened BitMaps

  /** The words after one Acquire: unchanged when no slot is free, and
      otherwise with the first-fit slot taken. */
  function Next(ws: seq<Word>): (r: seq<Word>)
    ensures |r| == |ws|
  {
    match FirstFit(ws)
    case None => ws
    case Some(j) => Take(ws, j)
  }

  /** The results of n Acquire calls in a row on the words ws, None
      standing for NoFreeSlot. */
  function Run(ws: seq<Word>, n: nat): (r: seq<Option<nat>>)
    ensures |r| == n
    decreases n
  {
    if n == 0 then [] else [FirstFit(ws)] + Run(Next(ws), n - 1)
  }

  /** Exactly the slots from k on are free. */
  predicate TakenBelow(ws: seq<Word>, k: nat)
  {
    forall j :: 0 <= j < Capacity(ws) ==> (Free(ws, j) <==> k <= j)
  }

  /** When exactly the slots from k on are free, Acquire returns k and
      leaves exactly the slots from k + 1 on free, or returns NoFreeSlot
      once k is the capacity. */
  lemma AcquireFromTakenBelow(ws: seq<Word>, k: nat)
    requires k <= Capacity(ws) && TakenBelow(ws, k)
    ensures k == Capacity(ws) ==> FirstFit(ws) == None
    ensures k < Capacity(ws) ==> FirstFit(ws) == Some(k)
    ensures k < Capacity(ws) ==> Next(ws) == Take(ws, k) && TakenBelow(Take(ws, k), k + 1)
  {
    FirstFitFirstFree(ws);
    if k < Capacity(ws) {
      assert Free(ws, k);
      var v := FirstFit(ws).value;
      assert Free(ws, v);
      TakeSlots(ws, k);
    }
  }

  /** The results Some(k), Some(k + 1), ..., Some(c - 1) and then None. */
  function Drained(k: nat, c: nat): (r: seq<Option<nat>>)
    requires k <= c
    ensures |r| == c - k + 1
    decreases c - k
  {
    if k == c then [None] else [Some(k)] + Drained(k + 1, c)
  }

  /** Drained(k, c) counts up from k to c - 1 and ends with None. */
  lemma {:induction false} DrainedCountsUp(k: nat, c: nat)
    requires k <= c
    ensures forall i :: 0 <= i < c - k ==> Drained(k, c)[i] == Some(k + i)
    ensures Drained(k, c)[c - k] == None
    decreases c - k
  {
    if k < c {
      DrainedCountsUp(k + 1, c);
      assert forall i :: 1 <= i < c - k ==> Drained(k, c)[i] == Drained(k + 1, c)[i - 1];
    }
  }

  lemma DrainedFromZero(c: nat)
    ensures Drained(0, c) == seq(c, j => Some(j)) + [None]
  {
    DrainedCountsUp(0, c);
  }

  /** From exactly the slots from k on free, the acquires return k, k + 1,
      ... up to the last slot, and then NoFreeSlot. */
  lemma {:induction false} DrainFrom(ws: seq<Word>, k: nat)
    requires k <= Capacity(ws) && TakenBelow(ws, k)
    ensures Run(ws, Capacity(ws) - k + 1) == Drained(k, Capacity(ws))
    decreases Capacity(ws) - k
  {
    if k < Capacity(ws) {
      DrainStep(ws, k);
      DrainFrom(Take(ws, k), k + 1);
    } else {
      DrainEnd(ws);
    }
  }

  /** One acquire from exactly the slots from k on free. */
  lemma DrainStep(ws: seq<Word>, k: nat)
    requires k < Capacity(ws) && TakenBelow(ws, k)
    ensures Capacity(Take(ws, k)) == Capacity(ws)
    ensures TakenBelow(Take(ws, k), k + 1)
    ensures Run(ws, Capacity(ws) - k + 1) ==
      [Some(k)] + Run(Take(ws, k), Capacity(Take(ws, k)) - (k + 1) + 1)
  {
    AcquireFromTakenBelow(ws, k);
  }

  /** With no slot free, one acquire returns NoFreeSlot. */
  lemma DrainEnd(ws: seq<Word>)
    requires TakenBelow(ws, Capacity(ws))
    ensures Run(ws, 1) == [None]
  {
    AcquireFromTakenBelow(ws, Capacity(ws));
    assert Run(ws, 1) == [FirstFit(ws)] + Run(Next(ws), 0);
  }

  /** After Reset (or BitMap(size)) every slot is free, so consecutive
      acquires return 0, 1, ..., capacity - 1 in order and then NoFreeSlot. */
  lemma ResetThenDrain(m: nat)
    ensures Run(Ones(m), m * Width + 1) == seq(m * Width, j => Some(j)) + [None]
  {
    var ws := Ones(m);
    OnesAllFree(m);
    assert TakenBelow(ws, 0);
    DrainFrom(ws, 0);
    DrainedFromZero(m * Width);
  }

  /** A slot free after an acquire was free before it. */
  lemma NextKeepsFree(ws: seq<Word>, v: nat)
    requires v < Capacity(ws) && Free(Next(ws), v)
    ensures Free(ws, v)
    ensures FirstFit(ws).Some? ==> v != FirstFit(ws).value
  {
    if FirstFit(ws).Some? {
      TakeSlots(ws, FirstFit(ws).value);
    }
  }

  /** The first result of a run is the first-fit slot. */
  lemma RunHead(ws: seq<Word>, n: nat)
    requires 0 < n
    ensures Run(ws, n)[0] == FirstFit(ws)
  {
  }

  /** Every later result of a run is a result of the run after one acquire. */
  lemma RunTail(ws: seq<Word>, n: nat, a: nat)
    requires 0 < a < n
    ensures Run(ws, n)[a] == Run(Next(ws), n - 1)[a - 1]
  {
  }

  /** BitMap.Acquire leaves Next of the old words and returns their
      FirstFit choice, so the run lemmas below speak of the method. */
  method AcquireIsNext(m: BitMap) returns (r: SizeT)
    requires m.Valid()
    modifies m
    ensures m.Valid()
    ensures m.data == Next(old(m.data))
    ensures r == NoFreeSlot <==> FirstFit(old(m.data)).None?
    ensures r != NoFreeSlot ==> FirstFit(old(m.data)) == Some(r)
  {
    r := m.Acquire();
  }

  /** Every slot a run of acquires returns was free at its start. */
  lemma {:induction false} RunReturnsFree(ws: seq<Word>, n: nat, a: nat)
    requires a < n && Run(ws, n)[a].Some?
    ensures Run(ws, n)[a].value < Capacity(ws) && Free(ws, Run(ws, n)[a].value)
    decreases a
  {
    if a == 0 {
      RunHead(ws, n);
      FirstFitFirstFree(ws);
    } else {
      RunTail(ws, n, a);
      RunReturnsFree(Next(ws), n - 1, a - 1);
      NextKeepsFree(ws, Run(ws, n)[a].value);
    }
  }

  /** No slot is handed out twice by a run of acquires. */
  lemma {:induction false} RunDistinct(ws: seq<Word>, n: nat, a: nat, b: nat)
    requires a < b < n && Run(ws, n)[a].Some? && Run(ws, n)[b].Some?
    ensures Run(ws, n)[a].value != Run(ws, n)[b].value
    decreases a
  {
    RunTail(ws, n, b);
    if a == 0 {
      RunHead(ws, n);
      RunReturnsFree(Next(ws), n - 1, b - 1);
      NextKeepsFree(ws, Run(ws, n)[b].value);
    } else {
      RunTail(ws, n, a);
      RunDistinct(Next(ws), n - 1, a - 1, b - 1);
    }
  }

  /** Releasing the slot an acquire just returned restores the words. */
  lemma ReleaseUndoesAcquire(ws: seq<Word>)
    requires FirstFit(ws).Some?
    ensures Give(Next(ws), FirstFit(ws).value) == ws
  {
    FirstFitFirstFree(ws);
    GiveTake(ws, FirstFit(ws).value);
  }

  /** When no slot is free, releasing slot j makes the next acquire return j
      and restore the words. */
  lemma AcquireAfterRelease(ws: seq<Word>, j: nat)
    requires j < Capacity(ws) && FirstFit(ws).None?
    ensures FirstFit(Give(ws, j)) == Some(j)
    ensures Next(Give(ws, j)) == ws
  {
    var g := Give(ws, j);
    FirstFitFirstFree(ws);
    GiveSlots(ws, j);
    FirstFitFirstFree(g);
    TakeGive(ws, j);
  }
}
