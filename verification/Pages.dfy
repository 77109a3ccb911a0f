/**
  A B+-tree page whose slots are changed in place, one 8-byte store at a time.

  Every store goes through StoreKey, StorePtr, StoreLastIndex or StoreSwitch, and each of them
  appends the memory it leaves behind to `history`. The contracts of InsertKey and RemoveKey speak
  about every memory in that history, so they hold for a reader, or a crash, after any store.
 */
module Pages {
  import opened RecordLists

  /** What a reader can load from a page. */
  datatype Mem = Mem(recs: seq<Rec>, lastIndex: int, switchCounter: nat)

  /** A new slot has key LONG_MAX and a null pointer. */
  const LONG_MAX := 0x7FFF_FFFF_FFFF_FFFF

  predicate IsForward(counter: nat) {
    counter % 2 == 0
  }

  /** The counter is one byte wide; 256 is even, so wrapping keeps the parity flip. */
  function Bumped(counter: nat): nat {
    (counter + 1) % 256
  }

  /**
    What the search of a leaf answers from one memory: the switch counter picks the direction, and
    the right-to-left scan starts where count() stops, just past last_index.
   */
  function LeafAnswer(m: Mem, key: int): int
    requires m.recs != [] && (IsForward(m.switchCounter) || -1 <= m.lastIndex < |m.recs|)
  {
    if IsForward(m.switchCounter) then LeafForward(m.recs, key)
    else LeafBackwardFrom(m.recs, key, m.lastIndex + 1)
  }

  /**
    Room for an insertion: entries before g are in place, the others one slot to the right, and
    slot g still holds a copy of what moved, or the closing null.
   */
  ghost predicate Gapped(recs: seq<Rec>, es: seq<Rec>, g: nat) {
    && g <= |es|
    && |es| + 1 < |recs|
    && (forall x :: 0 <= x < g ==> recs[x] == es[x])
    && (forall x :: g <= x < |es| ==> recs[x + 1] == es[x])
    && (if g < |es| then recs[g] == es[g] else recs[g].ptr == NULL)
    && recs[|es| + 1].ptr == NULL
  }

  /** A memory from which a left-to-right reader sees exactly es. */
  ghost predicate Shown(m: Mem, leftmost: int, length: nat, es: seq<Rec>) {
    && |m.recs| == length > 0
    && IsForward(m.switchCounter)
    && Live(m.recs, leftmost) == es
    && (es != [] && leftmost != NULL ==> m.recs[0].ptr != NULL)
  }

  /** Overwriting the free slot with its left neighbour's pointer, under any key, shows nothing new. */
  lemma PhantomShows(recs: seq<Rec>, leftmost: int, es: seq<Rec>, g: nat, key: int, m: Mem)
    requires Gapped(recs, es, g) && DistinctPtrs(es, leftmost) && es != []
    requires m.recs == recs[g := Rec(key, LeftPtr(es, leftmost, g))] && IsForward(m.switchCounter)
    ensures Shown(m, leftmost, |recs|, es)
  {
    GapHoldsPhantom(recs, leftmost, es, g, key);
    PhantomLiveFrom(m.recs, leftmost, es, g, 0);
  }

  lemma GapHoldsPhantom(recs: seq<Rec>, leftmost: int, es: seq<Rec>, g: nat, key: int)
    requires Gapped(recs, es, g)
    ensures WithPhantom(recs[g := Rec(key, LeftPtr(es, leftmost, g))], leftmost, es, g)
  {
  }

  /** A settled array shows its entries. */
  lemma PlainShows(leftmost: int, es: seq<Rec>, m: Mem)
    requires Plain(m.recs, es) && DistinctPtrs(es, leftmost) && IsForward(m.switchCounter)
    ensures Shown(m, leftmost, |m.recs|, es)
  {
    PlainLiveFrom(m.recs, leftmost, es, 0);
  }

  /**
    A memory from which a right-to-left reader sees exactly es: count() stops at last_index + 1,
    where the pointer is null, and the slots before it show es.
   */
  ghost predicate ShownBackward(m: Mem, leftmost: int, length: nat, es: seq<Rec>) {
    && |m.recs| == length
    && !IsForward(m.switchCounter)
    && -1 <= m.lastIndex < length - 1
    && m.recs[m.lastIndex + 1].ptr == NULL
    && LiveBefore(m.recs, leftmost, m.lastIndex + 1) == es
  }

  lemma PhantomShowsBackward(leftmost: int, es: seq<Rec>, j: nat, m: Mem)
    requires WithPhantom(m.recs, leftmost, es, j) && DistinctPtrs(es, leftmost)
    requires m.lastIndex == |es| && !IsForward(m.switchCounter)
    ensures ShownBackward(m, leftmost, |m.recs|, es)
  {
    PhantomLiveBefore(m.recs, leftmost, es, j, |es| + 1);
  }

  /** A settled array shows its entries, also while last_index is still one too high. */
  lemma PlainShowsBackward(leftmost: int, es: seq<Rec>, m: Mem)
    requires Plain(m.recs, es) && DistinctPtrs(es, leftmost) && !IsForward(m.switchCounter)
    requires m.lastIndex == |es| - 1 || (m.lastIndex == |es| < |m.recs| - 1 && m.recs[|es| + 1].ptr == NULL)
    ensures ShownBackward(m, leftmost, |m.recs|, es)
  {
    PlainLiveBefore(m.recs, leftmost, es, m.lastIndex + 1);
  }

  /** Repeating the left neighbour's pointer in slot pos leaves the other entries and a phantom. */
  lemma HidingMakesPhantom(recs: seq<Rec>, leftmost: int, es: seq<Rec>, pos: nat)
    requires Plain(recs, es) && pos < |es|
    ensures WithPhantom(recs[pos := Rec(recs[pos].key, LeftPtr(es, leftmost, pos))], leftmost,
                        RemoveAt(es, pos), pos)
  {
    var es' := RemoveAt(es, pos);
    assert forall x :: 0 <= x < |es'| ==> es'[x] == if x < pos then es[x] else es[x + 1];
  }

  /** Copying the slot right of the phantom moves the phantom right, or off the end. */
  lemma PhantomMoves(recs: seq<Rec>, leftmost: int, es: seq<Rec>, i: nat)
    requires WithPhantom(recs, leftmost, es, i)
    ensures i < |es| ==> WithPhantom(recs[i := recs[i + 1]], leftmost, es, i + 1)
    ensures i == |es| ==> Plain(recs[i := recs[i + 1]], es)
  {
  }

  lemma GapFilled(recs: seq<Rec>, leftmost: int, es: seq<Rec>, g: nat, r: Rec)
    requires Gapped(recs, es, g) && WellFormed(es, leftmost)
    requires DistinctPtrs(InsertAt(es, r, g), leftmost)
    ensures Plain(recs[g := r], InsertAt(es, r, g))
  {
    var recs', es' := recs[g := r], InsertAt(es, r, g);
    assert forall x :: 0 <= x < |es'| ==> es'[x] == if x < g then es[x] else if x == g then r else es[x - 1];
  }

  // ---------------------------------------------------------------- stores

  ghost predicate IsKeyStore(m: Mem, m': Mem, i: nat) {
    i < |m.recs| == |m'.recs| && m' == m.(recs := m.recs[i := Rec(m'.recs[i].key, m.recs[i].ptr)])
  }

  ghost predicate IsPtrStore(m: Mem, m': Mem, i: nat) {
    i < |m.recs| == |m'.recs| && m' == m.(recs := m.recs[i := Rec(m.recs[i].key, m'.recs[i].ptr)])
  }

  /** One field of one record, the cached index or the switch counter is stored. */
  ghost predicate OneStore(m: Mem, m': Mem) {
    || (exists i :: IsKeyStore(m, m', i)) || (exists i :: IsPtrStore(m, m', i))
    || m' == m.(lastIndex := m'.lastIndex) || m' == m.(switchCounter := m'.switchCounter)
  }

  /** The memory at the end of a history. */
  ghost function Current(start: Mem, history: seq<Mem>): Mem {
    if history == [] then start else history[|history| - 1]
  }

  ghost predicate StoreAt(start: Mem, history: seq<Mem>, t: nat) {
    t < |history| ==> OneStore(if t == 0 then start else history[t - 1], history[t])
  }

  /** Every memory of a history is one store behind the one before. */
  ghost predicate Stepwise(start: Mem, history: seq<Mem>) {
    forall t {:trigger StoreAt(start, history, t)} :: StoreAt(start, history, t)
  }

  lemma StepwiseSnoc(start: Mem, history: seq<Mem>, m: Mem)
    ensures Stepwise(start, history) && OneStore(Current(start, history), m) ==> Stepwise(start, history + [m])
  {
    if Stepwise(start, history) && OneStore(Current(start, history), m) {
      forall t: nat ensures StoreAt(start, history + [m], t) { assert StoreAt(start, history, t); }
    }
  }

  class Page {
    const records: array<Rec>
    const leftmost: int
    const level: nat
    var lastIndex: int
    var switchCounter: nat
    var sibling: Page?
    /** The memory at first, and after every store since. */
    ghost const start: Mem
    ghost var history: seq<Mem>

    /** The history is the page's, store by store. */
    ghost predicate Recorded()
      reads this, records
    {
      Stepwise(start, history) && Current(start, history) == Snapshot()
    }

    ghost function Snapshot(): Mem
      reads this, records
    {
      Mem(records[..], lastIndex, switchCounter)
    }

    /** The settled entries: the slots up to last_index. */
    ghost function Entries(): seq<Rec>
      reads this, records
      requires -1 <= lastIndex < records.Length
    {
      records[..lastIndex + 1]
    }

    ghost predicate Valid()
      reads this, records
    {
      && -1 <= lastIndex < records.Length - 1
      && 4 <= records.Length
      && Plain(records[..], Entries())
      && records[records.Length - 1].ptr == NULL
      && WellFormed(Entries(), leftmost)
    }

    constructor (cardinality: nat, leftmost: int, level: nat)
      requires 4 <= cardinality
      ensures Valid() && Entries() == [] && fresh(records) && Recorded()
      ensures this.leftmost == leftmost && this.level == level && sibling == null
      ensures records.Length == cardinality && IsForward(switchCounter)
      ensures forall x :: 0 <= x < cardinality ==> records[x].key == LONG_MAX
    {
      records := new Rec[cardinality](_ => Rec(LONG_MAX, NULL));
      this.leftmost := leftmost;
      this.level := level;
      lastIndex := -1;
      switchCounter := 0;
      sibling := null;
      history := [];
      start := Mem(seq(cardinality, _ => Rec(LONG_MAX, NULL)), -1, 0);
    }

    // -------------------------------------------------------------- the stores

    method StoreKey(i: nat, key: int)
      requires i < records.Length
      modifies this`history, records
      ensures old(Recorded()) ==> Recorded()
      ensures records[..] == old(records[..])[i := Rec(key, old(records[i].ptr))]
      ensures history == old(history) + [Snapshot()]
    {
      ghost var before := Snapshot();
      records[i] := Rec(key, records[i].ptr);
      assert IsKeyStore(before, Snapshot(), i);
      StepwiseSnoc(start, history, Snapshot());
      history := history + [Snapshot()];
    }

    method StorePtr(i: nat, ptr: int)
      requires i < records.Length
      modifies this`history, records
      ensures old(Recorded()) ==> Recorded()
      ensures records[..] == old(records[..])[i := Rec(old(records[i].key), ptr)]
      ensures history == old(history) + [Snapshot()]
    {
      ghost var before := Snapshot();
      records[i] := Rec(records[i].key, ptr);
      assert IsPtrStore(before, Snapshot(), i);
      StepwiseSnoc(start, history, Snapshot());
      history := history + [Snapshot()];
    }

    method StoreLastIndex(index: int)
      modifies this`history, this`lastIndex
      ensures old(Recorded()) ==> Recorded()
      ensures lastIndex == index
      ensures history == old(history) + [Snapshot()]
    {
      lastIndex := index;
      StepwiseSnoc(start, history, Snapshot());
      history := history + [Snapshot()];
    }

    method StoreSwitch(counter: nat)
      modifies this`history, this`switchCounter
      ensures old(Recorded()) ==> Recorded()
      ensures switchCounter == counter
      ensures history == old(history) + [Snapshot()]
    {
      switchCounter := counter;
      StepwiseSnoc(start, history, Snapshot());
      history := history + [Snapshot()];
    }

    // -------------------------------------------------------------- count

    /**
      Starting from last_index, walks to a null pointer: rightwards in forward mode, leftwards in
      backward mode, and from slot 0 when the leftward walk runs off the page.
     */
    method Count() returns (count: nat)
      requires -1 <= lastIndex < records.Length - 1 && records[records.Length - 1].ptr == NULL
      ensures count < records.Length && records[count].ptr == NULL
      ensures IsForward(switchCounter) ==>
                lastIndex < count && forall x :: lastIndex < x < count ==> records[x].ptr != NULL
      ensures !IsForward(switchCounter) ==>
                || (count <= lastIndex + 1 && forall x :: count < x <= lastIndex + 1 ==> records[x].ptr != NULL)
                || (forall x :: 0 <= x < count ==> records[x].ptr != NULL)
      ensures Valid() ==> count == |Entries()|
    {
      var c: int := lastIndex + 1;
      while c >= 0 && records[c].ptr != NULL
        invariant -1 <= c < records.Length
        invariant if IsForward(switchCounter) then lastIndex < c else c <= lastIndex + 1
        invariant forall x :: 0 <= x < records.Length && (lastIndex < x < c || c < x <= lastIndex + 1) ==>
                    records[x].ptr != NULL
        decreases if IsForward(switchCounter) then records.Length - c else c
      {
        if IsForward(switchCounter) { c := c + 1; } else { c := c - 1; }
      }
      if c < 0 {
        c := 0;
        while records[c].ptr != NULL
          invariant 0 <= c < records.Length
          invariant forall x :: 0 <= x < c ==> records[x].ptr != NULL
          decreases records.Length - c
        {
          c := c + 1;
        }
      }
      count := c;
    }

    // -------------------------------------------------------------- insert_key

    /** Every memory in history[from..to] shows es to a left-to-right reader. */
    ghost predicate AllShow(from: nat, to: nat, es: seq<Rec>)
      reads this
    {
      from <= to <= |history| && forall t :: from <= t < to ==> Shown(history[t], leftmost, records.Length, es)
    }

    ghost function KeyStored(i: nat, key: int): Mem
      requires i < records.Length
      reads this, records
    {
      Mem(records[..][i := Rec(key, records[i].ptr)], lastIndex, switchCounter)
    }

    ghost function PtrStored(i: nat, ptr: int): Mem
      requires i < records.Length
      reads this, records
    {
      Mem(records[..][i := Rec(records[i].key, ptr)], lastIndex, switchCounter)
    }

    /** StoreKey, when the memory it leaves behind still shows es. */
    method ShowKey(i: nat, key: int, ghost h0: nat, ghost es: seq<Rec>)
      requires i < records.Length && AllShow(h0, |history|, es)
      requires Shown(KeyStored(i, key), leftmost, records.Length, es)
      modifies this`history, records
      ensures old(Recorded()) ==> Recorded()
      ensures records[..] == old(records[..])[i := Rec(key, old(records[i].ptr))]
      ensures history == old(history) + [Snapshot()] && AllShow(h0, |history|, es)
    {
      StoreKey(i, key);
    }

    /** StorePtr, when the memory it leaves behind shows es. */
    method ShowPtr(i: nat, ptr: int, ghost h0: nat, ghost es: seq<Rec>)
      requires i < records.Length && AllShow(h0, |history|, es)
      requires Shown(PtrStored(i, ptr), leftmost, records.Length, es)
      modifies this`history, records
      ensures old(Recorded()) ==> Recorded()
      ensures records[..] == old(records[..])[i := Rec(old(records[i].key), ptr)]
      ensures history == old(history) + [Snapshot()] && AllShow(h0, |history|, es)
    {
      StorePtr(i, ptr);
    }

    /** No memory from index `from` on has another slot 0. */
    ghost predicate KeepsFirst(from: nat, first: Rec)
      reads this
    {
      forall t :: from <= t < |history| ==> |history[t].recs| > 0 && history[t].recs[0] == first
    }

    /** Moves entry i - 1 into the free slot i, pointer first; slot i - 1 becomes the free slot. */
    method ShiftOne(i: nat, ghost h0: nat, ghost es: seq<Rec>)
      requires 0 < i && Gapped(records[..], es, i) && DistinctPtrs(es, leftmost)
      requires IsForward(switchCounter) && AllShow(h0, |history|, es)
      modifies this`history, records
      ensures old(Recorded()) ==> Recorded()
      ensures Gapped(records[..], es, i - 1) && records[0] == old(records[0])
      ensures old(history) <= history && AllShow(h0, |history|, es) && KeepsFirst(|old(history)|, old(records[0]))
      ensures forall x :: |es| < x < records.Length ==> records[x] == old(records[x])
    {
      ghost var before := records[..];
      PhantomShows(before, leftmost, es, i, before[i].key, PtrStored(i, es[i - 1].ptr));
      ShowPtr(i, records[i - 1].ptr, h0, es);
      assert records[..][i := es[i - 1]] == before[i := es[i - 1]];
      PhantomShows(before, leftmost, es, i, es[i - 1].key, KeyStored(i, es[i - 1].key));
      ShowKey(i, records[i - 1].key, h0, es);
    }

    /** Moves the entries above `key` one slot right, leaving slot i for the new entry. */
    method ShiftRight(key: int, n: nat, ghost h0: nat, ghost es: seq<Rec>) returns (i: nat)
      requires 0 < n == |es| && WellFormed(es, leftmost) && n + 1 < records.Length
      requires Gapped(records[..], es, n) && IsForward(switchCounter) && AllShow(h0, |history|, es)
      modifies this`history, records
      ensures old(Recorded()) ==> Recorded()
      ensures i <= n && Gapped(records[..], es, i) && records[0] == old(records[0])
      ensures forall x :: 0 <= x < i ==> es[x].key <= key
      ensures forall x :: i <= x < n ==> key < es[x].key
      ensures old(history) <= history && AllShow(h0, |history|, es) && KeepsFirst(|old(history)|, old(records[0]))
      ensures forall x :: n < x < records.Length ==> records[x] == old(records[x])
    {
      i := n;
      while i > 0 && key < records[i - 1].key
        invariant i <= n && Gapped(records[..], es, i)
        invariant forall x :: i <= x < n ==> key < es[x].key
        invariant old(history) <= history && AllShow(h0, |history|, es)
        invariant old(Recorded()) ==> Recorded()
        invariant KeepsFirst(|old(history)|, old(records[0])) && records[0] == old(records[0])
        invariant forall x :: n < x < records.Length ==> records[x] == old(records[x])
      {
        ShiftOne(i, h0, es);
        i := i - 1;
      }
    }

    /** The first two stores into the gap: the left neighbour's pointer, then the key. */
    method HideGap(i: nat, key: int, ghost h0: nat, ghost es: seq<Rec>)
      requires WellFormed(es, leftmost) && Gapped(records[..], es, i) && es != []
      requires IsForward(switchCounter) && AllShow(h0, |history|, es)
      modifies this`history, records
      ensures old(Recorded()) ==> Recorded()
      ensures records[..] == old(records[..])[i := Rec(key, LeftPtr(es, leftmost, i))]
      ensures old(history) <= history && |history| == |old(history)| + 2 && AllShow(h0, |history|, es)
      ensures i > 0 ==> KeepsFirst(|old(history)|, old(records[0]))
    {
      ghost var before := records[..];
      ghost var left := LeftPtr(es, leftmost, i);
      PhantomShows(before, leftmost, es, i, before[i].key, PtrStored(i, left));
      ShowPtr(i, if i > 0 then records[i - 1].ptr else leftmost, h0, es);
      assert records[..][i := Rec(key, left)] == before[i := Rec(key, left)];
      PhantomShows(before, leftmost, es, i, key, KeyStored(i, key));
      ShowKey(i, key, h0, es);
    }

    /** The four stores that put the new entry into the free slot; the third pointer store shows it. */
    method FillGap(i: nat, key: int, ptr: int, ghost h0: nat, ghost es: seq<Rec>) returns (ghost commit: nat)
      requires WellFormed(es, leftmost) && Gapped(records[..], es, i) && es != [] && ptr != NULL
      requires DistinctPtrs(InsertAt(es, Rec(key, ptr), i), leftmost)
      requires IsForward(switchCounter) && AllShow(h0, |history|, es)
      modifies this`history, records
      ensures old(Recorded()) ==> Recorded()
      ensures records[..] == old(records[..])[i := Rec(key, ptr)]
      ensures old(history) <= history && h0 <= commit < |history|
      ensures i > 0 ==> KeepsFirst(|old(history)|, old(records[0]))
      ensures AllShow(h0, commit, es) && AllShow(commit, |history|, InsertAt(es, Rec(key, ptr), i))
    {
      ghost var before := records[..];
      HideGap(i, key, h0, es);
      commit := |history|;
      assert records[..][i := Rec(key, ptr)] == before[i := Rec(key, ptr)];
      GapFilled(before, leftmost, es, i, Rec(key, ptr));
      PlainShows(leftmost, InsertAt(es, Rec(key, ptr), i), PtrStored(i, ptr));
      ShowPtr(i, ptr, commit, InsertAt(es, Rec(key, ptr), i));
    }

    /** The stores into an empty page. */
    method FillEmpty(key: int, ptr: int, ghost h0: nat) returns (ghost commit: nat)
      requires records.Length >= 4 && Plain(records[..], []) && ptr != NULL && ptr != leftmost
      requires IsForward(switchCounter) && AllShow(h0, |history|, [])
      modifies this`history, records
      ensures old(Recorded()) ==> Recorded()
      ensures records[..] == old(records[..])[0 := Rec(key, ptr)]
      ensures old(history) <= history && h0 <= commit < |history|
      ensures AllShow(h0, commit, []) && AllShow(commit, |history|, [Rec(key, ptr)])
    {
      PlainShows(leftmost, [], KeyStored(0, key));
      ShowKey(0, key, h0, []);
      commit := |history|;
      FirstPtr(key, ptr, [Rec(key, ptr)]);
    }

    /** The pointer of a first entry makes it live; the null behind it is stored once more. */
    method FirstPtr(key: int, ptr: int, ghost es: seq<Rec>)
      requires records.Length >= 4 && records[0].key == key && records[1].ptr == NULL && es == [Rec(key, ptr)]
      requires ptr != NULL && ptr != leftmost && IsForward(switchCounter)
      modifies this`history, records
      ensures old(Recorded()) ==> Recorded()
      ensures records[..] == old(records[..])[0 := Rec(key, ptr)]
      ensures old(history) < history && AllShow(|old(history)|, |history|, es)
    {
      ghost var before, h := records[..], |history|;
      assert PtrStored(0, ptr).recs == before[0 := Rec(key, ptr)] && Plain(before[0 := Rec(key, ptr)], es);
      PlainShows(leftmost, es, PtrStored(0, ptr));
      ShowPtr(0, ptr, h, es);
      assert PtrStored(1, NULL).recs == before[0 := Rec(key, ptr)];
      PlainShows(leftmost, es, PtrStored(1, NULL));
      ShowPtr(1, NULL, h, es);
    }

    /** Closes the page one slot further right and opens a gap at the insertion point. */
    method OpenGap(key: int, n: nat, ghost h0: nat, ghost es: seq<Rec>) returns (i: nat)
      requires 0 < n == |es| < records.Length - 1 && Plain(records[..], es) && WellFormed(es, leftmost)
      requires IsForward(switchCounter) && AllShow(h0, |history|, es)
      modifies this`history, records
      ensures old(Recorded()) ==> Recorded()
      ensures i == Rank(es, key) <= n && Gapped(records[..], es, i) && records[0] == old(records[0])
      ensures old(history) <= history && AllShow(h0, |history|, es) && KeepsFirst(|old(history)|, old(records[0]))
      ensures forall x :: n < x < records.Length ==> records[x].key == old(records[x].key)
      ensures records[n + 1].ptr == NULL && forall x :: n + 1 < x < records.Length ==> records[x] == old(records[x])
    {
      PlainShows(leftmost, es, PtrStored(n + 1, NULL));
      ShowPtr(n + 1, records[n].ptr, h0, es);
      assert Gapped(records[..], es, n);
      i := ShiftRight(key, n, h0, es);
      RankUnique(es, key, i);
    }

    method InsertIntoEntries(key: int, ptr: int, n: nat, ghost h0: nat, ghost es: seq<Rec>)
      returns (ghost commit: nat)
      requires 0 < n == |es| < records.Length - 1 && Plain(records[..], es) && WellFormed(es, leftmost)
      requires WellFormed(Inserted(es, Rec(key, ptr)), leftmost) && ptr != NULL
      requires IsForward(switchCounter) && AllShow(h0, |history|, es)
      modifies this`history, records
      ensures old(Recorded()) ==> Recorded()
      ensures Plain(records[..], Inserted(es, Rec(key, ptr)))
      ensures old(history) <= history && h0 <= commit < |history|
      ensures Rank(es, key) > 0 ==> KeepsFirst(|old(history)|, old(records[0])) && records[0] == old(records[0])
      ensures AllShow(h0, commit, es) && AllShow(commit, |history|, Inserted(es, Rec(key, ptr)))
      ensures forall x :: n < x < records.Length ==> records[x].key == old(records[x].key)
      ensures records[n + 1].ptr == NULL && forall x :: n + 1 < x < records.Length ==> records[x] == old(records[x])
    {
      var i := OpenGap(key, n, h0, es);
      GapFilled(records[..], leftmost, es, i, Rec(key, ptr));
      commit := FillGap(i, key, ptr, h0, es);
    }

    /** All stores of an insertion into a page in forward mode, but the one to last_index. */
    method InsertForward(key: int, ptr: int, n: nat, ghost h0: nat, ghost es: seq<Rec>)
      returns (ghost commit: nat)
      requires n == |es| < records.Length - 1 && Plain(records[..], es) && WellFormed(es, leftmost)
      requires WellFormed(Inserted(es, Rec(key, ptr)), leftmost) && ptr != NULL && ptr != leftmost
      requires IsForward(switchCounter) && AllShow(h0, |history|, es)
      requires 4 <= records.Length && records[records.Length - 1].ptr == NULL
      modifies this`history, records
      ensures old(Recorded()) ==> Recorded()
      ensures Plain(records[..], Inserted(es, Rec(key, ptr))) && records[records.Length - 1].ptr == NULL
      ensures old(history) <= history && h0 <= commit < |history|
      ensures Rank(es, key) > 0 ==> KeepsFirst(|old(history)|, old(records[0])) && records[0] == old(records[0])
      ensures AllShow(h0, commit, es) && AllShow(commit, |history|, Inserted(es, Rec(key, ptr)))
      ensures forall x :: n < x < records.Length ==> records[x].key == old(records[x].key)
    {
      if n == 0 {
        assert Inserted(es, Rec(key, ptr)) == [Rec(key, ptr)];
        commit := FillEmpty(key, ptr, h0);
      } else {
        commit := InsertIntoEntries(key, ptr, n, h0, es);
      }
    }

    /** Makes the counter even, so that readers that start from here on scan left to right. */
    method TurnForward()
      requires Valid()
      modifies this`history, this`switchCounter
      ensures old(Recorded()) ==> Recorded()
      ensures Valid() && IsForward(switchCounter)
      ensures switchCounter == if old(switchCounter) % 2 == 0 then old(switchCounter)
              else (old(switchCounter) + 1) % 256
      ensures old(history) <= history && AllShow(|old(history)|, |history|, Entries())
      ensures KeepsFirst(|old(history)|, records[0])
    {
      if !IsForward(switchCounter) {
        StoreSwitch(Bumped(switchCounter));
        PlainShows(leftmost, Entries(), Snapshot());
      }
    }

    /** The last store of an insertion. */
    method FinishInsert(n: nat, ghost h0: nat, ghost es: seq<Rec>)
      requires |es| == n + 1 < records.Length && Plain(records[..], es) && WellFormed(es, leftmost)
      requires 4 <= records.Length && records[records.Length - 1].ptr == NULL
      requires IsForward(switchCounter) && AllShow(h0, |history|, es)
      modifies this`history, this`lastIndex
      ensures old(Recorded()) ==> Recorded()
      ensures Valid() && Entries() == es
      ensures old(history) <= history && AllShow(h0, |history|, es) && KeepsFirst(|old(history)|, records[0])
      ensures |old(history)| < |history| && history[|history| - 1] == Snapshot()
    {
      StoreLastIndex(n);
      PlainShows(leftmost, es, Snapshot());
      assert Entries() == es;
    }

    /**
      FAST insertion. Slots move right from the end, each by a pointer store and a key store, and
      the new entry appears with its last pointer store: every memory before `commit` shows the
      old entries, every memory from `commit` on shows the new ones.
     */
    method InsertKey(key: int, ptr: int, n: nat) returns (ghost commit: nat)
      requires Valid() && n == |Entries()| && n < records.Length - 1
      requires !HasKey(Entries(), key) && ptr != NULL && ptr != leftmost
      requires forall i :: 0 <= i < n ==> Entries()[i].ptr != ptr
      modifies this`history, this`lastIndex, this`switchCounter, records
      ensures old(Recorded()) ==> Recorded()
      ensures Valid() && Entries() == Inserted(old(Entries()), Rec(key, ptr))
      ensures IsForward(switchCounter)
      ensures old(history) <= history
      ensures AllShow(|old(history)|, commit, old(Entries())) && AllShow(commit, |history|, Entries())
      ensures commit < |history| && history[|history| - 1] == Snapshot()
      ensures Rank(old(Entries()), key) > 0 ==>
                KeepsFirst(|old(history)|, old(records[0]))
      ensures forall x :: n < x < records.Length ==> records[x].key == old(records[x].key)
    {
      ghost var es := Entries();
      ghost var h0 := |history|;
      ghost var es' := Inserted(es, Rec(key, ptr));
      InsertedWellFormed(es, leftmost, Rec(key, ptr));
      TurnForward();
      commit := InsertForward(key, ptr, n, h0, es);
      FinishInsert(n, commit, es');
    }

    // -------------------------------------------------------------- remove_key

    /** Every memory in history[from..to] shows es to a right-to-left reader. */
    ghost predicate AllShowBackward(from: nat, to: nat, es: seq<Rec>)
      reads this
    {
      && from <= to <= |history|
      && forall t :: from <= t < to ==> ShownBackward(history[t], leftmost, records.Length, es)
    }

    /**
      One shift: the phantom at slot i becomes a copy of slot i + 1, key first. The reader sees the
      same entries after both stores.
     */
    method ShiftLeft(i: nat, ghost h0: nat, ghost es: seq<Rec>)
      requires WithPhantom(records[..], leftmost, es, i) && DistinctPtrs(es, leftmost)
      requires lastIndex == |es| && !IsForward(switchCounter) && AllShowBackward(h0, |history|, es)
      modifies this`history, records
      ensures old(Recorded()) ==> Recorded()
      ensures records[..] == old(records[..])[i := old(records[i + 1])]
      ensures old(history) <= history && AllShowBackward(h0, |history|, es)
    {
      ghost var before := records[..];
      StoreKey(i, records[i + 1].key);
      PhantomShowsBackward(leftmost, es, i, Snapshot());
      StorePtr(i, records[i + 1].ptr);
      PhantomMoves(before, leftmost, es, i);
      assert records[..] == before[i := before[i + 1]];
      if i < |es| {
        PhantomShowsBackward(leftmost, es, i + 1, Snapshot());
      } else {
        PlainShowsBackward(leftmost, es, Snapshot());
      }
    }

    /** Shifts left from the phantom at `pos` until the closing null has moved. */
    method CloseFrom(pos: nat, ghost h0: nat, ghost es: seq<Rec>)
      requires WithPhantom(records[..], leftmost, es, pos) && DistinctPtrs(es, leftmost)
      requires lastIndex == |es| && !IsForward(switchCounter) && AllShowBackward(h0, |history|, es)
      modifies this`history, records
      ensures old(Recorded()) ==> Recorded()
      ensures Plain(records[..], es) && records[|es|] == old(records[|es| + 1])
      ensures old(history) <= history && AllShowBackward(h0, |history|, es)
      ensures forall x :: |es| < x < records.Length ==> records[x] == old(records[x])
    {
      var i := pos;
      while i == pos || records[i].ptr != NULL
        invariant pos <= i <= |es| + 1
        invariant if i <= |es| then WithPhantom(records[..], leftmost, es, i) else Plain(records[..], es)
        invariant i > |es| ==> records[|es|] == old(records[|es| + 1])
        invariant forall x :: |es| < x < records.Length ==> records[x] == old(records[x])
        invariant old(history) <= history && AllShowBackward(h0, |history|, es)
        invariant old(Recorded()) ==> Recorded()
        decreases |es| + 1 - i
      {
        PhantomMoves(records[..], leftmost, es, i);
        ShiftLeft(i, h0, es);
        i := i + 1;
      }
    }

    /**
      Removes the entry at `pos`: one pointer store hides it, and the slots to its right then move
      left. Every memory from the hiding store on shows the remaining entries.
     */
    method CloseGap(pos: nat, ghost h0: nat, ghost es: seq<Rec>)
      requires pos < |es| && Plain(records[..], es) && WellFormed(es, leftmost)
      requires lastIndex == |es| - 1 && !IsForward(switchCounter) && h0 == |history|
      modifies this`history, records
      ensures old(Recorded()) ==> Recorded()
      ensures Plain(records[..], RemoveAt(es, pos))
      ensures records[|es|].ptr == NULL
      ensures old(history) <= history && h0 < |history|
      ensures AllShowBackward(h0, |history|, RemoveAt(es, pos))
      ensures records[|es| - 1].key == old(records[|es|].key)
      ensures forall x :: |es| <= x < records.Length ==> records[x] == old(records[x])
    {
      ghost var n := |es|;
      ghost var es' := RemoveAt(es, pos);
      RemovedWellFormed(es, leftmost, pos);
      HidingMakesPhantom(records[..], leftmost, es, pos);
      StorePtr(pos, if pos == 0 then leftmost else records[pos - 1].ptr);
      PhantomShowsBackward(leftmost, es', pos, Snapshot());
      CloseFrom(pos, h0, es');
    }

    /** Makes the counter odd, so that readers that start from here on scan right to left. */
    method TurnBackward()
      requires Valid()
      modifies this`history, this`switchCounter
      ensures old(Recorded()) ==> Recorded()
      ensures Valid() && !IsForward(switchCounter)
      ensures switchCounter == if old(switchCounter) % 2 == 1 then old(switchCounter)
              else (old(switchCounter) + 1) % 256
      ensures old(history) <= history && AllShowBackward(|old(history)|, |history|, Entries())
    {
      if IsForward(switchCounter) {
        StoreSwitch(Bumped(switchCounter));
        PlainShowsBackward(leftmost, Entries(), Snapshot());
      }
    }

    /** The first slot with the key, or the closing null. */
    method FirstMatch(key: int) returns (i: nat)
      requires Valid()
      ensures i <= |Entries()| && (i < |Entries()| ==> Entries()[i].key == key)
      ensures HasKey(Entries(), key) <==> i < |Entries()|
      ensures records[i].ptr != NULL <==> i < |Entries()|
    {
      i := 0;
      while records[i].ptr != NULL && records[i].key != key
        invariant i <= |Entries()|
        invariant forall x :: 0 <= x < i ==> Entries()[x].key != key
        decreases |Entries()| - i
      {
        i := i + 1;
      }
      if i < |Entries()| { assert Entries()[i].key == key; }
    }

    method RemoveSlot(pos: nat)
      requires Valid() && pos < |Entries()| && !IsForward(switchCounter)
      modifies this`history, this`lastIndex, records
      ensures old(Recorded()) ==> Recorded()
      ensures Valid() && Entries() == RemoveAt(old(Entries()), pos)
      ensures old(history) <= history && |old(history)| < |history|
      ensures AllShowBackward(|old(history)|, |history|, Entries())
      ensures records[lastIndex + 1].key == old(records[lastIndex + 1].key)
      ensures forall x :: |old(Entries())| <= x < records.Length ==> records[x] == old(records[x])
    {
      ghost var es := Entries();
      RemovedWellFormed(es, leftmost, pos);
      CloseGap(pos, |history|, es);
      StoreLastIndex(lastIndex - 1);
      PlainShowsBackward(leftmost, RemoveAt(es, pos), Snapshot());
      assert Entries() == RemoveAt(es, pos);
    }

    /**
      Removes the first slot with the key. Before `commit` every memory shows the old entries to a
      right-to-left reader, from `commit` on the remaining ones.
     */
    method RemoveKey(key: int) returns (removed: bool, ghost commit: nat)
      requires Valid()
      modifies this`history, this`lastIndex, this`switchCounter, records
      ensures old(Recorded()) ==> Recorded()
      ensures Valid() && Entries() == Removed(old(Entries()), key)
      ensures removed <==> HasKey(old(Entries()), key)
      ensures !IsForward(switchCounter) && old(history) <= history
      ensures AllShowBackward(|old(history)|, commit, old(Entries()))
      ensures AllShowBackward(commit, |history|, Entries())
      ensures removed ==> commit < |history| && records[lastIndex + 1].key == old(records[lastIndex + 1].key)
      ensures forall x :: |old(Entries())| <= x < records.Length ==> records[x] == old(records[x])
    {
      TurnBackward();
      removed, commit := RemoveMatch(key);
    }

    /** The removal itself, once the page is scanned right to left. */
    method RemoveMatch(key: int) returns (removed: bool, ghost commit: nat)
      requires Valid() && !IsForward(switchCounter)
      modifies this`history, this`lastIndex, records
      ensures old(Recorded()) ==> Recorded()
      ensures Valid() && Entries() == Removed(old(Entries()), key) && (removed <==> HasKey(old(Entries()), key))
      ensures old(history) <= history && commit == |old(history)| && AllShowBackward(commit, |history|, Entries())
      ensures removed ==> commit < |history| && records[lastIndex + 1].key == old(records[lastIndex + 1].key)
      ensures forall x :: |old(Entries())| <= x < records.Length ==> records[x] == old(records[x])
    {
      ghost var es := Entries();
      var i := FirstMatch(key);
      removed := records[i].ptr != NULL;
      commit := |history|;
      if removed {
        RemovedAt(es, i);
        RemoveSlot(i);
      } else {
        RemovedAbsent(es, key);
      }
    }

    // -------------------------------------------------------------- linear_search

    method SearchLeafForward(key: int) returns (ret: int)
      requires Valid()
      ensures ret == LeafForward(records[..], key)
    {
      if records[0].key == key && records[0].ptr != NULL { return records[0].ptr; }
      var i := 1;
      while records[i].ptr != NULL
        invariant 1 <= i < records.Length
        invariant LeafForward(records[..], key) == LeafForwardFrom(records[..], key, i)
        decreases records.Length - i
      {
        if records[i].key == key && records[i - 1].ptr != records[i].ptr { return records[i].ptr; }
        i := i + 1;
      }
      ret := NULL;
    }

    method SearchLeafBackward(key: int, c: nat) returns (ret: int)
      requires c <= records.Length && 0 < records.Length
      ensures ret == LeafBackwardFrom(records[..], key, c)
    {
      var i := c;
      while i > 1
        invariant 0 <= i <= c
        invariant LeafBackwardFrom(records[..], key, c) == LeafBackwardFrom(records[..], key, i)
      {
        i := i - 1;
        if records[i].key == key && records[i - 1].ptr != records[i].ptr && records[i].ptr != NULL {
          return records[i].ptr;
        }
      }
      ret := if records[0].key == key then records[0].ptr else NULL;
    }

    /** Leaf search, in the direction that the switch counter asks for. */
    method SearchLeaf(key: int) returns (ret: int)
      requires Valid() && leftmost == NULL
      ensures ret == Find(Entries(), key)
    {
      ghost var es := Entries();
      if IsForward(switchCounter) {
        PlainShows(NULL, es, Snapshot());
        ShownAnswers(Snapshot(), NULL, records.Length, es, key);
        ret := SearchLeafForward(key);
      } else {
        var c := Count();
        PlainShowsBackward(NULL, es, Snapshot());
        ShownBackwardAnswers(Snapshot(), records.Length, es, key);
        ret := SearchLeafBackward(key, c);
      }
    }

    method SearchInternalForward(key: int) returns (ret: int)
      requires Valid()
      ensures ret == InternalForward(records[..], leftmost, key)
    {
      if key < records[0].key && leftmost != records[0].ptr { return leftmost; }
      var i := 1;
      while records[i].ptr != NULL
        invariant 1 <= i < records.Length
        invariant InternalForward(records[..], leftmost, key) == InternalForwardFrom(records[..], key, i)
        decreases records.Length - i
      {
        if key < records[i].key && records[i - 1].ptr != records[i].ptr { return records[i - 1].ptr; }
        i := i + 1;
      }
      ret := records[i - 1].ptr;
    }

    method SearchInternalBackward(key: int, c: nat) returns (ret: int)
      requires c <= records.Length
      ensures ret == InternalBackwardFrom(records[..], leftmost, key, c)
    {
      var i := c;
      while i > 0
        invariant 0 <= i <= c
        invariant InternalBackwardFrom(records[..], leftmost, key, c)
               == InternalBackwardFrom(records[..], leftmost, key, i)
      {
        i := i - 1;
        if records[i].key <= key && (if i == 0 then leftmost else records[i - 1].ptr) != records[i].ptr {
          return records[i].ptr;
        }
      }
      ret := NULL;
    }

    /** Routing in an internal page, in the direction that the switch counter asks for. */
    method SearchInternal(key: int) returns (ret: int)
      requires Valid() && leftmost != NULL && Entries() != []
      ensures ret == Route(Entries(), leftmost, key)
    {
      ghost var es := Entries();
      if IsForward(switchCounter) {
        PlainShows(leftmost, es, Snapshot());
        ShownAnswers(Snapshot(), leftmost, records.Length, es, key);
        ret := SearchInternalForward(key);
      } else {
        var c := Count();
        InternalBackwardPlain(records[..], es, leftmost, key, c);
        ret := SearchInternalBackward(key, c);
        if ret == NULL { ret := leftmost; }
      }
    }
  }

  // ---------------------------------------------------------------- what one operation changes

  /** Inserting changes the answer for its own key only. */
  lemma InsertChangesOneKey(es: seq<Rec>, r: Rec, key: int)
    requires Sorted(es) && !HasKey(es, r.key) && Sorted(Inserted(es, r))
    ensures Find(es, r.key) == NULL
    ensures Find(Inserted(es, r), key) == if key == r.key then r.ptr else Find(es, key)
  {
    var pos, out := Rank(es, r.key), Inserted(es, r);
    FindAbsent(es, r.key);
    InsertedKeys(es, r, key);
    if key == r.key {
      FindAt(out, pos);
    } else if HasKey(es, key) {
      var i :| 0 <= i < |es| && es[i].key == key;
      FindAt(es, i);
      FindAt(out, if i < pos then i else i + 1);
    } else {
      FindAbsent(es, key);
      FindAbsent(out, key);
    }
  }

  lemma {:induction false} RankInserted(es: seq<Rec>, r: Rec, key: int)
    requires Sorted(es)
    ensures Rank(Inserted(es, r), key) == Rank(es, key) + if r.key <= key then 1 else 0
  {
    var out := Inserted(es, r);
    if es == [] || r.key < es[0].key {
      assert out == [r] + es && out[1..] == es;
    } else {
      RankInserted(es[1..], r, key);
      assert out[0] == es[0] && out[1..] == Inserted(es[1..], r);
    }
  }

  /** Inserting a separator redirects the keys from it up to the next separator, and no others. */
  lemma InsertReroutesOneRange(es: seq<Rec>, leftmost: int, r: Rec, key: int)
    requires Sorted(es) && !HasKey(es, r.key) && Sorted(Inserted(es, r))
    ensures Route(Inserted(es, r), leftmost, key)
         == if r.key <= key && Rank(es, key) == Rank(es, r.key) then r.ptr else Route(es, leftmost, key)
  {
    RankInserted(es, r, key);
    RankSplits(es, r.key);
    RankSplits(es, key);
    var q := Rank(Inserted(es, r), key);
    if q > 0 { InsertedAt(es, r, q - 1); }
  }

  lemma RemoveChangesOneKey(es: seq<Rec>, leftmost: int, gone: int, key: int)
    requires WellFormed(es, leftmost)
    ensures Find(Removed(es, gone), key) == if key == gone then NULL else Find(es, key)
  {
    if !HasKey(es, gone) {
      RemovedAbsent(es, gone);
      FindAbsent(es, gone);
    } else {
      var pos :| 0 <= pos < |es| && es[pos].key == gone;
      RemovedAt(es, pos);
      RemovedWellFormed(es, leftmost, pos);
      FindWithout(es, pos, key);
    }
  }

  /** The lookup in the entries without the one at pos. */
  lemma FindWithout(es: seq<Rec>, pos: nat, key: int)
    requires pos < |es| && Sorted(es) && Sorted(RemoveAt(es, pos))
    ensures Find(RemoveAt(es, pos), key) == if key == es[pos].key then NULL else Find(es, key)
  {
    var out := RemoveAt(es, pos);
    if key != es[pos].key && HasKey(es, key) {
      var i :| 0 <= i < |es| && es[i].key == key;
      FindAt(es, i);
      FindAt(out, if i < pos then i else i - 1);
    } else {
      FindAbsent(out, key);
      if key != es[pos].key { FindAbsent(es, key); }
    }
  }

  /**
    The answers a reader gets from a memory that shows es: the left-to-right leaf scan and the
    left-to-right routing scan answer from es, whatever phantom the array holds.
   */
  lemma ShownAnswers(m: Mem, leftmost: int, length: nat, es: seq<Rec>, key: int)
    requires Shown(m, leftmost, length, es)
    ensures leftmost == NULL ==> LeafForward(m.recs, key) == Find(es, key)
    ensures leftmost != NULL && es != [] ==>
              InternalForward(m.recs, leftmost, key) == Route(es, leftmost, key)
  {
    LeafForwardLive(m.recs, key);
    if leftmost != NULL && es != [] { InternalForwardLive(m.recs, leftmost, key); }
  }

  /** The right-to-left leaf scan answers from es. */
  lemma ShownBackwardAnswers(m: Mem, length: nat, es: seq<Rec>, key: int)
    requires ShownBackward(m, NULL, length, es) && Sorted(es)
    ensures LeafBackwardFrom(m.recs, key, m.lastIndex + 1) == Find(es, key)
  {
    FindLastIsFind(es, key);
    if m.lastIndex >= 0 { LeafBackwardLive(m.recs, key, m.lastIndex + 1); }
  }

  /**
    At every store of insert_key on a leaf, a left-to-right reader gets the old answer for every
    other key, and the inserted key changes at the one store `commit`.
   */
  lemma InsertIsAtomicForReaders(history: seq<Mem>, from: nat, commit: nat, length: nat,
                                 es: seq<Rec>, r: Rec, t: nat, key: int)
    requires from <= commit <= |history| && from <= t < |history|
    requires WellFormed(es, NULL) && !HasKey(es, r.key) && Sorted(Inserted(es, r))
    requires forall u :: from <= u < commit ==> Shown(history[u], NULL, length, es)
    requires forall u :: commit <= u < |history| ==> Shown(history[u], NULL, length, Inserted(es, r))
    ensures |history[t].recs| == length > 0
    ensures LeafForward(history[t].recs, key)
         == if key != r.key then Find(es, key) else if t < commit then NULL else r.ptr
  {
    InsertChangesOneKey(es, r, key);
    ShownAnswers(history[t], NULL, length, if t < commit then es else Inserted(es, r), key);
  }

  /**
    The same on an internal page: at every store of an insertion, routing left to right gives the old
    child, and at the one store `commit` the keys of the new child's range, and no others, move to it.
   */
  lemma InsertIsAtomicForRouting(history: seq<Mem>, from: nat, commit: nat, length: nat, leftmost: int,
                                 es: seq<Rec>, r: Rec, t: nat, key: int)
    requires from <= commit <= |history| && from <= t < |history| && leftmost != NULL && es != []
    requires WellFormed(es, leftmost) && !HasKey(es, r.key) && Sorted(Inserted(es, r))
    requires forall u :: from <= u < commit ==> Shown(history[u], leftmost, length, es)
    requires forall u :: commit <= u < |history| ==> Shown(history[u], leftmost, length, Inserted(es, r))
    ensures |history[t].recs| == length > 0
    ensures InternalForward(history[t].recs, leftmost, key)
         == if t >= commit && r.key <= key && Rank(es, key) == Rank(es, r.key) then r.ptr else Route(es, leftmost, key)
  {
    InsertReroutesOneRange(es, leftmost, r, key);
    ShownAnswers(history[t], leftmost, length, if t < commit then es else Inserted(es, r), key);
  }

  /**
    At every store of remove_key on a leaf, a right-to-left reader gets the old answer for every other
    key, and the removed key changes at the one store `commit`.
   */
  lemma RemoveIsAtomicForReaders(history: seq<Mem>, from: nat, commit: nat, length: nat,
                                 es: seq<Rec>, gone: int, t: nat, key: int)
    requires from <= commit <= |history| && from <= t < |history| && WellFormed(es, NULL)
    requires forall u :: from <= u < commit ==> ShownBackward(history[u], NULL, length, es)
    requires forall u :: commit <= u < |history| ==> ShownBackward(history[u], NULL, length, Removed(es, gone))
    ensures -1 <= history[t].lastIndex < |history[t].recs| == length && length > 0
    ensures LeafBackwardFrom(history[t].recs, key, history[t].lastIndex + 1)
         == if key == gone && t >= commit then NULL else Find(es, key)
  {
    RemoveChangesOneKey(es, NULL, gone, key);
    RemovedStaysSorted(es, gone);
    ShownBackwardAnswers(history[t], length, if t < commit then es else Removed(es, gone), key);
  }

  lemma RemovedStaysSorted(es: seq<Rec>, gone: int)
    requires WellFormed(es, NULL)
    ensures Sorted(Removed(es, gone))
  {
    if HasKey(es, gone) {
      var pos :| 0 <= pos < |es| && es[pos].key == gone;
      RemovedAt(es, pos);
      RemovedWellFormed(es, NULL, pos);
    } else {
      RemovedAbsent(es, gone);
    }
  }
}
