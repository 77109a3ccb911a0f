/**
  A producer's lookup directory: an open-addressed array of slots, one per buffered key, that is
  emptied as a whole when the producer is drained.
 */
module Directories {
  import opened Ops
  import opened Probing

  class LookupDirectory {
    const slots: array<Slot<Op>>

    ghost predicate Valid()
      reads this, slots
    {
      slots.Length > 0 && Placed(ByRemainder, slots[..]) && NoMarkers() && KeysAgree(slots[..])
    }

    /** Slots are never freed one by one. */
    ghost predicate NoMarkers()
      reads this, slots
    {
      forall j :: 0 <= j < slots.Length ==> !slots[j].Gone?
    }

    ghost function Map(): map<int, Op>
      reads this, slots
      requires Valid()
    {
      Contents(slots[..])
    }

    constructor (capacity: int)
      ensures Valid() && fresh(slots) && Map() == map[] && slots.Length == if capacity > 0 then capacity else 1
    {
      slots := new Slot<Op>[if capacity > 0 then capacity else 1](_ => Free);
      new;
      FreshTable(ByRemainder, slots[..]);
    }

    /** future_lookup_index: the key's slot, else the first free one if asked for, else the capacity. */
    method Index(key: int, allocate: bool) returns (index: nat)
      requires Valid()
      ensures index <= slots.Length
      ensures index < slots.Length && slots[index].Used? ==> slots[index].key == key
      ensures index < slots.Length && slots[index].Free? ==> allocate && !Holds(slots[..], key)
      ensures index < slots.Length ==> Reachable(slots[..], Home(ByRemainder, key, slots.Length), index)
      ensures index == slots.Length ==> !Holds(slots[..], key) && (allocate ==> AllUsed(slots[..]))
    {
      ghost var n, s := slots.Length, slots[..];
      index := key % slots.Length;
      var start := index;
      ghost var d := 0;
      while true
        invariant d < n && start == Home(ByRemainder, key, n) && index == At(start, d, n) && Walked(s, start, d, key)
        decreases n - d
      {
        WalkedIsReachable(s, start, d, key, d);
        if slots[index].Free? {
          ProbeIsConclusive(ByRemainder, s, key, d);
          return if allocate then index else slots.Length;
        }
        if slots[index].key == key { return index; }
        StepAt(start, d, n);
        index := (index + 1) % slots.Length;
        d := d + 1;
        if index == start { break; }
      }
      assert d == n;
      ProbeIsConclusive(ByRemainder, s, key, d);
      Circle(s, start, key);
      index := slots.Length;
    }

    method Store(index: nat, op: Op)
      requires Valid() && index < slots.Length && Reachable(slots[..], Home(ByRemainder, op.key, slots.Length), index)
      requires slots[index].Free? || slots[index].key == op.key
      requires slots[index].Free? ==> !Holds(slots[..], op.key)
      modifies slots
      ensures Valid() && Map() == old(Map())[op.key := op]
    {
      ghost var s := slots[..];
      Put(ByRemainder, s, index, op.key, op);
      slots[index] := Used(op.key, op);
      assert slots[..] == s[index := Used(op.key, op)];
    }

    /** The last step of future_insert: the entry of op's key becomes op, if there is a slot for it. */
    method Record(op: Op)
      requires Valid()
      modifies slots
      ensures Valid()
      ensures Map() == if op.key in old(Map()) || |old(Map())| < slots.Length then old(Map())[op.key := op]
              else old(Map())
    {
      ghost var s := slots[..];
      Fullness(s);
      HoldsContents(s, op.key);
      var index := Index(op.key, true);
      if index != slots.Length {
        Store(index, op);
      }
    }

    /** The recovery pass: only a newer operation replaces an entry, and a full directory takes no new key. */
    method RecordNewer(op: Op)
      requires Valid()
      modifies slots
      ensures Valid()
      ensures var m := old(Map());
              Map() == if (if op.key in m then op.sequence > m[op.key].sequence else |m| < slots.Length)
                       then m[op.key := op] else m
    {
      ghost var s := slots[..];
      Fullness(s);
      HoldsContents(s, op.key);
      var index := Index(op.key, true);
      if index != slots.Length {
        if slots[index].Used? { ContentsAt(s, index); }
        if slots[index].Free? || op.sequence > slots[index].value.sequence {
          Store(index, op);
        }
      }
    }

    method Find(key: int) returns (e: Option<Op>)
      requires Valid()
      ensures e == if key in Map() then Some(Map()[key]) else None
    {
      HoldsContents(slots[..], key);
      var index := Index(key, false);
      if index == slots.Length { return None; }
      ContentsAt(slots[..], index);
      e := Some(slots[index].value);
    }

    /** future_clear_lookup_entries_for_producers, for this producer. */
    method Clear()
      requires Valid()
      modifies slots
      ensures Valid() && Map() == map[]
    {
      for i := 0 to slots.Length
        invariant forall j :: 0 <= j < i ==> slots[j].Free?
      {
        slots[i] := Free;
      }
      FreshTable(ByRemainder, slots[..]);
    }

    /** future_collect_lookup_entries, for this producer: every entry once, in slot order. */
    method Collect() returns (entries: seq<Op>)
      requires Valid()
      ensures forall k :: k in Map() ==> Map()[k].key == k && Map()[k] in entries
      ensures forall e :: e in entries ==> e.key in Map() && Map()[e.key] == e
      ensures |entries| == |Map()|
    {
      entries := [];
      ghost var s := slots[..];
      for i := 0 to slots.Length
        invariant entries == Values(s[..i])
      {
        assert s[..i + 1][..i] == s[..i];
        if slots[i].Used? {
          entries := entries + [slots[i].value];
        }
      }
      assert s[..slots.Length] == s;
      EntriesMatch(s);
    }
  }

  lemma EntriesMatch(s: seq<Slot<Op>>)
    requires NoDuplicates(s) && KeysAgree(s)
    ensures forall k :: k in Contents(s) ==> Contents(s)[k].key == k && Contents(s)[k] in Values(s)
    ensures forall e :: e in Values(s) ==> e.key in Contents(s) && Contents(s)[e.key] == e
    ensures |Values(s)| == |Contents(s)|
  {
    ValuesCount(s);
    forall e | e in Values(s) ensures e.key in Contents(s) && Contents(s)[e.key] == e {
      ValuesMembers(s, e);
      var j :| 0 <= j < |s| && s[j].Used? && s[j].value == e;
      ContentsAt(s, j);
    }
    forall k | k in Contents(s) ensures Contents(s)[k].key == k && Contents(s)[k] in Values(s) {
      var j :| 0 <= j < |s| && s[j].Used? && s[j].key == k;
      ContentsAt(s, j);
      ValuesMembers(s, s[j].value);
    }
  }

  /** A slot's key is its operation's key. */
  ghost predicate KeysAgree(s: seq<Slot<Op>>) {
    forall j :: 0 <= j < |s| && s[j].Used? ==> s[j].value.key == s[j].key
  }

  lemma Circle(s: seq<Slot<Op>>, h: nat, key: int)
    requires h < |s| && Walked(s, h, |s|, key) && forall j :: 0 <= j < |s| ==> !s[j].Gone?
    ensures AllUsed(s)
  {
    forall j | 0 <= j < |s| ensures s[j].Used? { assert At(h, Dist(h, j, |s|), |s|) == j; }
  }
}
