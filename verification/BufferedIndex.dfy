/**
  BufferedHashIndex: an open-addressed index of buffered keys with owner, state and sequence. A
  cleared entry keeps its slot, marked absent, for the same key; only clear() frees slots.
 */
module BufferedIndex {
  import opened Probing

  datatype State = Absent | Present | Tombstone

  datatype Entry = Entry(owner: int, state: State, sequence: nat)

  /** The entries that are not absent. */
  ghost function Live(m: map<int, Entry>): map<int, Entry> {
    map k | k in m && !m[k].state.Absent? :: m[k]
  }

  /** The number of slots with an entry that is not absent. */
  function CountLive(s: seq<Slot<Entry>>): nat {
    if s == [] then 0
    else
      var n := |s| - 1;
      CountLive(s[..n]) + Weight(s[n])
  }

  function Weight(slot: Slot<Entry>): nat {
    if slot.Used? && !slot.value.state.Absent? then 1 else 0
  }

  lemma {:induction false} CountUpdate(s: seq<Slot<Entry>>, j: nat, slot: Slot<Entry>)
    requires j < |s|
    ensures CountLive(s[j := slot]) == CountLive(s) - Weight(s[j]) + Weight(slot)
  {
    var n := |s| - 1;
    if j < n {
      CountUpdate(s[..n], j, slot);
      assert s[j := slot][..n] == s[..n][j := slot];
    } else {
      assert s[j := slot][..n] == s[..n];
    }
  }

  lemma {:induction false} CountFree(s: seq<Slot<Entry>>)
    requires forall j :: 0 <= j < |s| ==> s[j].Free?
    ensures CountLive(s) == 0
  {
    if s != [] { CountFree(s[..|s| - 1]); }
  }

  /** The count is the size of the map. */
  lemma {:induction false} CountIsSize(s: seq<Slot<Entry>>)
    requires NoDuplicates(s)
    ensures CountLive(s) == |Live(Contents(s))|
  {
    if s == [] {
      assert Contents(s) == map[] && Live(Contents(s)) == map[];
    } else {
      LiveSize(s);
      CountIsSize(s[..|s| - 1]);
    }
  }

  lemma LiveSize(s: seq<Slot<Entry>>)
    requires NoDuplicates(s) && s != []
    ensures var n := |s| - 1;
            NoDuplicates(s[..n]) && |Live(Contents(s))| == |Live(Contents(s[..n]))| + Weight(s[n])
  {
    var n := |s| - 1;
    var all, less := Live(Contents(s)).Keys, Live(Contents(s[..n])).Keys;
    forall k ensures k in all <==> k in less || (Weight(s[n]) == 1 && s[n].key == k) { LiveSplit(s, k); }
    var last := if s[n].Used? then s[n].key else 0;
    LiveSplit(s, last);
    OneMore(all, less, last, Weight(s[n]) == 1);
  }

  lemma LiveSplit(s: seq<Slot<Entry>>, k: int)
    requires NoDuplicates(s) && s != []
    ensures var n := |s| - 1;
            && NoDuplicates(s[..n])
            && (k in Live(Contents(s)) <==> k in Live(Contents(s[..n])) || (Weight(s[n]) == 1 && s[n].key == k))
            && !(k in Live(Contents(s[..n])) && s[n].Used? && s[n].key == k)
  {
    var n := |s| - 1;
    HoldsContents(s, k);
    HoldsContents(s[..n], k);
    HoldsSplit(s, k);
    if Holds(s, k) {
      var j :| 0 <= j < |s| && s[j].Used? && s[j].key == k;
      ContentsAt(s, j);
      if j < n {
        assert s[..n][j] == s[j];
        ContentsAt(s[..n], j);
      }
    }
  }

  ghost predicate SequencesBelow(s: seq<Slot<Entry>>, next: nat) {
    forall j :: 0 <= j < |s| && s[j].Used? ==> s[j].value.sequence < next
  }

  /** The two counters belong to the table. */
  ghost predicate Counted(s: seq<Slot<Entry>>, size: nat, next: nat) {
    SequencesBelow(s, next) && size == CountLive(s)
  }

  lemma CountedAfterStore(s: seq<Slot<Entry>>, j: nat, key: int, entry: Entry, size: nat, next: nat, next': nat)
    requires j < |s| && Counted(s, size, next) && next <= next' && entry.sequence < next'
    ensures size >= Weight(s[j])
            && Counted(s[j := Used(key, entry)], size - Weight(s[j]) + Weight(Used(key, entry)), next')
  {
    CountUpdate(s, j, Used(key, entry));
    BelowAfterStore(s, j, key, entry, next, next');
    CountUpdate(s, j, Free);
  }

  lemma BelowAfterStore(s: seq<Slot<Entry>>, j: nat, key: int, entry: Entry, next: nat, next': nat)
    requires j < |s| && SequencesBelow(s, next) && next <= next' && entry.sequence < next'
    ensures SequencesBelow(s[j := Used(key, entry)], next')
  {
  }

  /** A live entry as entries() reports it. */
  datatype Reported = Reported(key: int, entry: Entry)

  class BufferedHashIndex {
    const slots: array<Slot<Entry>>
    var size: nat
    var nextSequence: nat

    ghost predicate Valid()
      reads this, slots
    {
      TableOk() && Counted(slots[..], size, nextSequence)
    }

    /** The buffered entries. */
    ghost function Index(): map<int, Entry>
      reads this, slots
      requires Valid()
    {
      Live(Contents(slots[..]))
    }

    /** The keys that have a slot: also those whose entry was cleared. */
    ghost function Reserved(): set<int>
      reads this, slots
      requires Valid()
    {
      Contents(slots[..]).Keys
    }

    /** A slot for the key: one it has, or had, or a free one. */
    ghost predicate Room(key: int)
      reads this, slots
      requires Valid()
    {
      key in Reserved() || |Reserved()| < slots.Length
    }

    lemma RoomIsAFreeSlot(key: int)
      requires Valid()
      ensures Room(key) <==> Holds(slots[..], key) || !AllUsed(slots[..])
    {
      Fullness(slots[..]);
      HoldsContents(slots[..], key);
      assert |Reserved()| == |Contents(slots[..])|;
    }

    constructor (capacity: nat)
      ensures Valid() && fresh(slots) && Index() == map[] && Reserved() == {} && size == 0 && nextSequence == 1
      ensures slots.Length == if capacity == 0 then 1 else capacity
    {
      slots := new Slot<Entry>[if capacity == 0 then 1 else capacity](_ => Free);
      size := 0;
      nextSequence := 1;
      new;
      FreshTable(ByRemainder, slots[..]);
      CountFree(slots[..]);
    }

    /** The key's slot, or the capacity. */
    method FindSlot(key: int) returns (index: nat)
      requires Valid()
      ensures index <= slots.Length && (index == slots.Length <==> !Holds(slots[..], key))
      ensures index < slots.Length ==> slots[index].Used? && slots[index].key == key
    {
      ghost var n, s := slots.Length, slots[..];
      index := key % slots.Length;
      var start := index;
      ghost var d := 0;
      while !slots[index].Free?
        invariant d < n && start == Home(ByRemainder, key, n) && index == At(start, d, n) && Walked(s, start, d, key)
        decreases n - d
      {
        if slots[index].key == key { return index; }
        StepAt(start, d, n);
        index := (index + 1) % slots.Length;
        d := d + 1;
        if index == start { break; }
      }
      ProbeIsConclusive(ByRemainder, s, key, d);
      index := slots.Length;
    }

    /** The key's slot, else the first free one, else the capacity. */
    method FindOrAllocate(key: int) returns (index: nat)
      requires Valid()
      ensures index <= slots.Length && (index == slots.Length <==> !Room(key))
      ensures index < slots.Length ==> Reachable(slots[..], Home(ByRemainder, key, slots.Length), index)
      ensures index < slots.Length && slots[index].Used? ==> slots[index].key == key
      ensures index < slots.Length && slots[index].Free? ==> !Holds(slots[..], key)
    {
      RoomIsAFreeSlot(key);
      index := FindSlot(key);
      if index == slots.Length {
        index := FindFree(key);
      } else {
        assert Reachable(slots[..], Home(ByRemainder, slots[..][index].key, slots.Length), index);
      }
    }

    /** The allocating loop, for a key without a slot. */
    method FindFree(key: int) returns (index: nat)
      requires Valid() && !Holds(slots[..], key)
      ensures index <= slots.Length && (index == slots.Length <==> AllUsed(slots[..]))
      ensures index < slots.Length ==>
              slots[index].Free? && Reachable(slots[..], Home(ByRemainder, key, slots.Length), index)
    {
      ghost var n, s := slots.Length, slots[..];
      index := key % slots.Length;
      var start := index;
      ghost var d := 0;
      while true
        invariant d < n && start == Home(ByRemainder, key, n) && index == At(start, d, n) && Walked(s, start, d, key)
        decreases n - d
      {
        WalkedIsReachable(s, start, d, key, d);
        if slots[index].Free? { return; }
        StepAt(start, d, n);
        index := (index + 1) % slots.Length;
        d := d + 1;
        if index == start { break; }
      }
      forall j | 0 <= j < n ensures s[j].Used? { assert At(start, Dist(start, j, n), n) == j; }
      index := slots.Length;
    }

    /** Everything but the counters. */
    ghost predicate TableOk()
      reads slots
    {
      slots.Length > 0 && Placed(ByRemainder, slots[..]) && NoneGone(slots[..])
    }

    /** The assignment of a slot's fields. */
    method StoreAt(index: nat, key: int, entry: Entry)
      requires TableOk() && index < slots.Length && Reachable(slots[..], Home(ByRemainder, key, slots.Length), index)
      requires if slots[index].Used? then slots[index].key == key else !Holds(slots[..], key)
      modifies slots
      ensures TableOk() && slots[..] == old(slots[..])[index := Used(key, entry)]
      ensures var m := old(Live(Contents(slots[..])));
              Live(Contents(slots[..])) == if entry.state.Absent? then m - {key} else m[key := entry]
      ensures Contents(slots[..]).Keys == old(Contents(slots[..])).Keys + {key}
    {
      ghost var s := slots[..];
      StoredTable(s, index, key, entry);
      slots[index] := Used(key, entry);
      assert slots[..] == s[index := Used(key, entry)];
    }

    /**
      The common part of upsert and erase. Without room the index is one past the slots, and nothing more
      is modelled.
     */
    method Write(key: int, owner: int, state: State) returns (stored: bool)
      requires Valid() && !state.Absent?
      modifies this, slots
      ensures Valid() && stored == old(Room(key))
      ensures stored ==> Index() == old(Index())[key := Entry(owner, state, old(nextSequence))]
      ensures stored ==> Reserved() == old(Reserved()) + {key} && nextSequence == old(nextSequence) + 1
      ensures !stored ==> Same(old(Index()), old(Reserved()), old(nextSequence))
    {
      var index := FindOrAllocate(key);
      stored := index < slots.Length;
      if !stored { return; }
      var wasNew := slots[index].Free? || slots[index].value.state.Absent?;
      var entry := Entry(owner, state, nextSequence);
      assert Weight(slots[..][index]) == if wasNew then 0 else 1;
      CountedAfterStore(slots[..], index, key, entry, size, nextSequence, nextSequence + 1);
      Fill(index, key, entry, if wasNew then size + 1 else size, nextSequence + 1);
    }

    /** The slot gets the entry, and the counters follow. */
    method Fill(index: nat, key: int, entry: Entry, newSize: nat, next: nat)
      requires Valid() && index < slots.Length && Reachable(slots[..], Home(ByRemainder, key, slots.Length), index)
      requires if slots[index].Used? then slots[index].key == key else !Holds(slots[..], key)
      requires Counted(slots[..][index := Used(key, entry)], newSize, next)
      modifies this, slots
      ensures Valid() && Index() == if entry.state.Absent? then old(Index()) - {key} else old(Index())[key := entry]
      ensures Reserved() == old(Reserved()) + {key} && nextSequence == next
    {
      StoreAt(index, key, entry);
      size, nextSequence := newSize, next;
    }

    ghost predicate Same(index: map<int, Entry>, reserved: set<int>, next: nat)
      reads this, slots
      requires Valid()
    {
      Index() == index && Reserved() == reserved && nextSequence == next
    }

    /** The key is present, with the highest sequence so far, exactly when it has a slot or there is a free one. */
    method Upsert(key: int, owner: int) returns (stored: bool)
      requires Valid()
      modifies this, slots
      ensures Valid() && stored == old(Room(key))
      ensures stored ==> Index() == old(Index())[key := Entry(owner, Present, old(nextSequence))]
      ensures stored ==> Reserved() == old(Reserved()) + {key} && nextSequence == old(nextSequence) + 1
      ensures !stored ==> Same(old(Index()), old(Reserved()), old(nextSequence))
    {
      stored := Write(key, owner, Present);
    }

    /** The key has a tombstone, with the highest sequence so far, exactly when it has a slot or there is a free one. */
    method Erase(key: int, owner: int) returns (stored: bool)
      requires Valid()
      modifies this, slots
      ensures Valid() && stored == old(Room(key))
      ensures stored ==> Index() == old(Index())[key := Entry(owner, Tombstone, old(nextSequence))]
      ensures stored ==> Reserved() == old(Reserved()) + {key} && nextSequence == old(nextSequence) + 1
      ensures !stored ==> Same(old(Index()), old(Reserved()), old(nextSequence))
    {
      stored := Write(key, owner, Tombstone);
    }

    method StateFor(key: int) returns (state: State)
      requires Valid()
      ensures state == if key in Index() then Index()[key].state else Absent
    {
      HoldsContents(slots[..], key);
      var index := FindSlot(key);
      if index == slots.Length { return Absent; }
      ContentsAt(slots[..], index);
      state := slots[index].value.state;
    }

    method OwnerFor(key: int) returns (owner: int)
      requires Valid()
      ensures owner == if key in Index() then Index()[key].owner else -1
    {
      HoldsContents(slots[..], key);
      var index := FindSlot(key);
      if index < slots.Length { ContentsAt(slots[..], index); }
      owner := if index == slots.Length || slots[index].value.state.Absent? then -1 else slots[index].value.owner;
    }

    /** contains and has_entry. */
    method Contains(key: int) returns (present: bool, buffered: bool)
      requires Valid()
      ensures present <==> key in Index() && Index()[key].state.Present?
      ensures buffered <==> key in Index()
    {
      var state := StateFor(key);
      present, buffered := state.Present?, !state.Absent?;
    }

    /** Only this key's entry disappears; its slot stays reserved for it. */
    method ClearEntry(key: int)
      requires Valid()
      modifies this, slots
      ensures Valid() && Index() == old(Index()) - {key} && nextSequence == old(nextSequence)
      ensures Reserved() == old(Reserved())
    {
      var index := FindSlot(key);
      NoLiveEntry(slots[..], index, key);
      if index == slots.Length || slots[index].value.state.Absent? { return; }
      ClearSlot(index, key);
    }

    /** The slot is marked absent, and stays with its key. */
    method ClearSlot(index: nat, key: int)
      requires Valid() && index < slots.Length && key in Reserved()
      requires slots[index].Used? && slots[index].key == key && !slots[index].value.state.Absent?
      modifies this, slots
      ensures Valid() && Index() == old(Index()) - {key} && nextSequence == old(nextSequence)
      ensures Reserved() == old(Reserved())
    {
      ghost var s, reserved := slots[..], Reserved();
      var entry := Entry(-1, Absent, 0);
      assert reserved + {key} == reserved;
      assert Reachable(s, Home(ByRemainder, s[index].key, |s|), index) && Weight(s[index]) == 1;
      CountedAfterStore(s, index, key, entry, size, nextSequence, nextSequence);
      Fill(index, key, entry, if size > 0 then size - 1 else size, nextSequence);
    }

    /** Every live entry once, in slot order, as many as size() says. */
    method Entries() returns (entries: seq<Reported>)
      requires Valid()
      ensures |entries| == size == |Index()|
      ensures forall k :: k in Index() ==> Reported(k, Index()[k]) in entries
      ensures forall e :: e in entries ==> e.key in Index() && Index()[e.key] == e.entry
    {
      entries := [];
      ghost var s := slots[..];
      for i := 0 to slots.Length
        invariant entries == LiveSlots(s[..i])
      {
        assert s[..i + 1][..i] == s[..i];
        if slots[i].Free? || slots[i].value.state.Absent? { continue; }
        entries := entries + [Reported(slots[i].key, slots[i].value)];
      }
      assert s[..slots.Length] == s;
      CountIsSize(s);
      LiveSlotsCount(s);
      LiveSlotsAre(s);
    }

    method Clear()
      requires Valid()
      modifies this, slots
      ensures Valid() && Index() == map[] && Reserved() == {} && size == 0 && nextSequence == 1
    {
      for i := 0 to slots.Length
        invariant forall j :: 0 <= j < i ==> slots[j].Free?
      {
        slots[i] := Free;
      }
      size := 0;
      nextSequence := 1;
      FreshTable(ByRemainder, slots[..]);
      CountFree(slots[..]);
    }
  }

  /** What the slot found for a key says about its entry. */
  lemma NoLiveEntry(s: seq<Slot<Entry>>, j: nat, k: int)
    requires NoDuplicates(s) && j <= |s| && (j == |s| <==> !Holds(s, k))
    requires j < |s| ==> s[j].Used? && s[j].key == k
    ensures j < |s| <==> k in Contents(s)
    ensures k in Live(Contents(s)) <==> j < |s| && !s[j].value.state.Absent?
  {
    HoldsContents(s, k);
    if j < |s| { ContentsAt(s, j); }
  }

  ghost predicate NoneGone(s: seq<Slot<Entry>>) {
    forall j :: 0 <= j < |s| ==> !s[j].Gone?
  }

  /** Storing an entry into the slot found for its key. */
  lemma StoredTable(s: seq<Slot<Entry>>, j: nat, k: int, e: Entry)
    requires Placed(ByRemainder, s) && NoneGone(s) && j < |s| && Reachable(s, Home(ByRemainder, k, |s|), j)
    requires if s[j].Used? then s[j].key == k else !Holds(s, k)
    ensures var s', m := s[j := Used(k, e)], Live(Contents(s));
            && Placed(ByRemainder, s') && NoneGone(s') && Contents(s').Keys == Contents(s).Keys + {k}
            && Live(Contents(s')) == if e.state.Absent? then m - {k} else m[k := e]
  {
    OnlySlot(s, j, k);
    Put(ByRemainder, s, j, k, e);
    LiveAfterPut(s, j, k, e);
  }

  lemma OnlySlot(s: seq<Slot<Entry>>, j: nat, k: int)
    requires NoDuplicates(s) && j < |s| && if s[j].Used? then s[j].key == k else !Holds(s, k)
    ensures forall i :: 0 <= i < |s| && i != j && s[i].Used? ==> s[i].key != k
  {
  }

  /** Writing a live entry binds its key; writing an absent one unbinds it. */
  lemma LiveAfterPut(s: seq<Slot<Entry>>, j: nat, k: int, e: Entry)
    requires NoDuplicates(s) && j < |s| && (s[j].Used? ==> s[j].key == k)
    requires forall i :: 0 <= i < |s| && i != j && s[i].Used? ==> s[i].key != k
    ensures var s' := s[j := Used(k, e)];
            && NoDuplicates(s')
            && Live(Contents(s')) == if e.state.Absent? then Live(Contents(s)) - {k} else Live(Contents(s))[k := e]
  {
    PutContents(s, j, k, e);
    LiveUpdate(Contents(s), k, e);
    assert (Contents(s) - {k})[k := e] == Contents(s)[k := e];
  }

  lemma LiveUpdate(m: map<int, Entry>, k: int, e: Entry)
    ensures Live(m[k := e]) == if e.state.Absent? then Live(m) - {k} else Live(m)[k := e]
  {
  }

  /** What entries() reports. */
  function LiveSlots(s: seq<Slot<Entry>>): seq<Reported> {
    if s == [] then []
    else
      var n := |s| - 1;
      LiveSlots(s[..n]) + if Weight(s[n]) == 1 then [Reported(s[n].key, s[n].value)] else []
  }

  lemma {:induction false} LiveSlotsCount(s: seq<Slot<Entry>>)
    ensures |LiveSlots(s)| == CountLive(s)
  {
    if s != [] { LiveSlotsCount(s[..|s| - 1]); }
  }

  lemma {:induction false} LiveSlotsMembers(s: seq<Slot<Entry>>, e: Reported)
    ensures e in LiveSlots(s) <==> Used(e.key, e.entry) in s && !e.entry.state.Absent?
  {
    if s != [] {
      var n := |s| - 1;
      LiveSlotsMembers(s[..n], e);
      assert s == s[..n] + [s[n]];
    }
  }

  lemma LiveSlotsAre(s: seq<Slot<Entry>>)
    requires NoDuplicates(s)
    ensures var m := Live(Contents(s));
            && (forall k :: k in m ==> Reported(k, m[k]) in LiveSlots(s))
            && (forall e :: e in LiveSlots(s) ==> e.key in m && m[e.key] == e.entry)
  {
    var m := Live(Contents(s));
    forall k | k in m ensures Reported(k, m[k]) in LiveSlots(s) {
      var j :| 0 <= j < |s| && s[j].Used? && s[j].key == k;
      ContentsAt(s, j);
      LiveSlotsMembers(s, Reported(k, m[k]));
    }
    forall e | e in LiveSlots(s) ensures e.key in m && m[e.key] == e.entry {
      LiveSlotsMembers(s, e);
      var j :| 0 <= j < |s| && s[j] == Used(e.key, e.entry);
      ContentsAt(s, j);
    }
  }

  // ---------------------------------------------------------------- runs

  datatype Command = DoUpsert(key: int, owner: int) | DoErase(key: int, owner: int) | DoClearEntry(key: int) | DoClear

  /** An ideal index: its entries, the keys that have a slot, and the next sequence. */
  datatype Ideal = Ideal(index: map<int, Entry>, reserved: set<int>, next: nat)

  function Effect(m: Ideal, c: Command): Ideal {
    match c
    case DoUpsert(k, owner) => Ideal(m.index[k := Entry(owner, Present, m.next)], m.reserved + {k}, m.next + 1)
    case DoErase(k, owner) => Ideal(m.index[k := Entry(owner, Tombstone, m.next)], m.reserved + {k}, m.next + 1)
    case DoClearEntry(k) => m.(index := m.index - {k})
    case DoClear => Ideal(map[], {}, 1)
  }

  function Outcome(m: Ideal, run: seq<Command>): Ideal
    decreases |run|
  {
    if run == [] then m else Outcome(Effect(m, run[0]), run[1..])
  }

  /** The keys upserted or erased since the last clear() never outnumber the slots. */
  predicate Fits(m: Ideal, run: seq<Command>, capacity: nat)
    decreases |run|
  {
    |m.reserved| <= capacity && (run != [] ==> Fits(Effect(m, run[0]), run[1..], capacity))
  }

  /** The live keys never outnumber the slots. */
  predicate LiveFits(m: Ideal, run: seq<Command>, capacity: nat)
    decreases |run|
  {
    |m.index| <= capacity && (run != [] ==> LiveFits(Effect(m, run[0]), run[1..], capacity))
  }

  ghost function IdealOf(x: BufferedHashIndex): Ideal
    reads x, x.slots
    requires x.Valid()
  {
    Ideal(x.Index(), x.Reserved(), x.nextSequence)
  }

  /** One more key fits the slots exactly when there is room for it. */
  lemma RoomIsFit(reserved: set<int>, key: int, capacity: nat)
    requires |reserved| <= capacity
    ensures |reserved + {key}| <= capacity <==> key in reserved || |reserved| < capacity
  {
    if key in reserved { assert reserved + {key} == reserved; }
  }

  method UpsertOne(x: BufferedHashIndex, key: int, owner: int) returns (stored: bool)
    requires x.Valid() && |x.Reserved()| <= x.slots.Length
    modifies x, x.slots
    ensures x.Valid() && (stored <==> |Effect(old(IdealOf(x)), DoUpsert(key, owner)).reserved| <= x.slots.Length)
    ensures IdealOf(x) == if stored then Effect(old(IdealOf(x)), DoUpsert(key, owner)) else old(IdealOf(x))
  {
    RoomIsFit(x.Reserved(), key, x.slots.Length);
    stored := x.Upsert(key, owner);
  }

  method EraseOne(x: BufferedHashIndex, key: int, owner: int) returns (stored: bool)
    requires x.Valid() && |x.Reserved()| <= x.slots.Length
    modifies x, x.slots
    ensures x.Valid() && (stored <==> |Effect(old(IdealOf(x)), DoErase(key, owner)).reserved| <= x.slots.Length)
    ensures IdealOf(x) == if stored then Effect(old(IdealOf(x)), DoErase(key, owner)) else old(IdealOf(x))
  {
    RoomIsFit(x.Reserved(), key, x.slots.Length);
    stored := x.Erase(key, owner);
  }

  /** One operation, on the index and on the ideal one. */
  method ExecuteOne(x: BufferedHashIndex, c: Command) returns (stored: bool)
    requires x.Valid() && |x.Reserved()| <= x.slots.Length
    modifies x, x.slots
    ensures x.Valid() && (stored <==> |Effect(old(IdealOf(x)), c).reserved| <= x.slots.Length)
    ensures IdealOf(x) == if stored then Effect(old(IdealOf(x)), c) else old(IdealOf(x))
  {
    match c {
      case DoUpsert(k, owner) => stored := UpsertOne(x, k, owner);
      case DoErase(k, owner) => stored := EraseOne(x, k, owner);
      case DoClearEntry(k) =>
        x.ClearEntry(k);
        stored := true;
      case DoClear =>
        x.Clear();
        stored := true;
    }
  }

  /**
    Over every run the index is the ideal one, with its size and its sequences, as long as no operation
    stores outside the slots; and none does if and only if the keys upserted or erased since the last
    clear() never outnumber the slots.
   */
  method Execute(x: BufferedHashIndex, run: seq<Command>) returns (inside: bool)
    requires x.Valid()
    modifies x, x.slots
    ensures x.Valid() && (inside <==> Fits(old(IdealOf(x)), run, x.slots.Length))
    ensures inside ==> IdealOf(x) == Outcome(old(IdealOf(x)), run) && x.size == |Outcome(old(IdealOf(x)), run).index|
  {
    ghost var m := IdealOf(x);
    assert run[0..] == run;
    for i := 0 to |run|
      invariant x.Valid() && (Fits(m, run, x.slots.Length) <==> Fits(IdealOf(x), run[i..], x.slots.Length))
      invariant Outcome(m, run) == Outcome(IdealOf(x), run[i..])
    {
      assert run[i..][1..] == run[i + 1..] && run[i..][0] == run[i];
      ReservedFits(x);
      ghost var was := IdealOf(x);
      var stored := ExecuteOne(x, run[i]);
      if !stored {
        assert !Fits(Effect(was, run[i]), run[i + 1..], x.slots.Length);
        return false;
      }
    }
    assert run[|run|..] == [];
    ReservedFits(x);
    CountIsSize(x.slots[..]);
    inside := true;
  }

  lemma ReservedFits(x: BufferedHashIndex)
    requires x.Valid()
    ensures |x.Reserved()| <= x.slots.Length
  {
    Fullness(x.slots[..]);
    assert |x.Reserved()| == |Contents(x.slots[..])|;
  }

  const CLEARED: seq<Command> := [DoUpsert(1, 0), DoClearEntry(1), DoUpsert(2, 0)]

  /**
    Live keys within the capacity are not enough: with one slot, a key that is cleared and then another
    one never make two live keys, but the second one is stored behind the slots.
   */
  method ClearedKeyKeepsItsSlot() returns (inside: bool)
    ensures LiveFits(Ideal(map[], {}, 1), CLEARED, 1) && !inside
  {
    var x := new BufferedHashIndex(1);
    LiveKeysAreNotEnough();
    inside := Execute(x, CLEARED);
  }

  lemma LiveKeysAreNotEnough()
    ensures LiveFits(Ideal(map[], {}, 1), CLEARED, 1) && !Fits(Ideal(map[], {}, 1), CLEARED, 1)
  {
    var start := Ideal(map[], {}, 1);
    var one := Effect(start, CLEARED[0]);
    var cleared := Effect(one, CLEARED[1]);
    var two := Effect(cleared, CLEARED[2]);
    assert CLEARED[1..] == [DoClearEntry(1), DoUpsert(2, 0)] && CLEARED[1..][1..] == [DoUpsert(2, 0)]
           && CLEARED[1..][1..][1..] == [];
    assert one.index == map[1 := Entry(0, Present, 1)] && cleared.index == map[]
           && two.index == map[2 := Entry(0, Present, 2)];
    assert two.reserved == {1, 2};
    assert LiveFits(two, [], 1) && !Fits(two, [], 1);
    assert LiveFits(cleared, [DoUpsert(2, 0)], 1) && !Fits(cleared, [DoUpsert(2, 0)], 1);
  }
}
