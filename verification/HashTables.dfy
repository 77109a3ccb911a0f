/**
  HashMapTable, the per-producer pre-filter: wrap-around probing over an array of slots with deletion
  markers that later insertions reuse.
 */
module HashTables {
  import opened Probing

  class HashMapTable {
    const ht: array<Slot<int>>

    ghost predicate Valid()
      reads this, ht
    {
      ht.Length > 0 && Placed(ByMagnitude, ht[..])
    }

    ghost function Map(): map<int, int>
      reads this, ht
      requires Valid()
    {
      Contents(ht[..])
    }

    constructor (cap: int)
      ensures Valid() && fresh(ht) && Map() == map[] && ht.Length == if cap > 0 then cap else 1
    {
      ht := new Slot<int>[if cap > 0 then cap else 1](_ => Free);
      new;
      FreshTable(ByMagnitude, ht[..]);
    }

    function HashFunc(k: int): (h: nat)
      reads this
      requires ht.Length > 0
      ensures h == Home(ByMagnitude, k, ht.Length)
    {
      (if k < 0 then -k else k) % ht.Length
    }

    /**
      The probe loop of all three operations: it ends on the key, on a free slot, or back at the home
      slot, and remembers the last marker it passed.
     */
    method Probe(k: int) returns (slot: nat, init: int, marker: int, ghost d: nat)
      requires Valid()
      ensures var h := Home(ByMagnitude, k, ht.Length);
              && d <= ht.Length && slot == At(h, d, ht.Length) && Walked(ht[..], h, d, k)
              && init == (if d == 0 then -1 else h)
              && (d < ht.Length ==> slot != init) && (d == ht.Length ==> slot == init)
              && (d < ht.Length ==> (ht[slot].Free? || (ht[slot].Used? && ht[slot].key == k)))
              && (marker == -1 ==> forall e {:trigger At(h, e, ht.Length)} :: 0 <= e < d ==>
                  !ht[At(h, e, ht.Length)].Gone?)
              && (marker != -1 ==> 0 <= marker < ht.Length && ht[marker].Gone?
                                   && Reachable(ht[..], h, marker))
    {
      ghost var n, s := ht.Length, ht[..];
      ghost var h := Home(ByMagnitude, k, n);
      slot := HashFunc(k);
      init := -1;
      marker := -1;
      d := 0;
      while slot != init && (ht[slot].Gone? || (ht[slot].Used? && ht[slot].key != k))
        invariant Probed(s, h, d, k, slot, init, marker)
        decreases n - d
      {
        ProbeNext(s, h, d, k, slot, init, marker);
        if init == -1 { init := slot; }
        if ht[slot].Gone? { marker := slot; }
        slot := HashFunc(slot + 1);
        d := d + 1;
      }
      if 0 < d < n { StepAt(h, d - 1, n); }
    }

    /** The key in k's home slot, which an insertion into a table without room overwrites. */
    ghost function HomeKey(k: int): int
      reads this, ht
      requires Valid()
    {
      var slot := ht[Home(ByMagnitude, k, ht.Length)];
      if slot.Used? then slot.key else k
    }

    method Store(slot: nat, k: int, v: int)
      requires Valid() && slot < ht.Length && Reachable(ht[..], Home(ByMagnitude, k, ht.Length), slot)
      requires forall i :: 0 <= i < ht.Length && i != slot && ht[i].Used? ==> ht[i].key != k
      modifies ht
      ensures Valid() && ht[..] == old(ht[..])[slot := Used(k, v)]
      ensures Map() == (if old(ht[slot]).Used? then old(Map()) - {old(ht[slot]).key} else old(Map()))[k := v]
    {
      Put(ByMagnitude, ht[..], slot, k, v);
      ghost var s := ht[..];
      ht[slot] := Used(k, v);
      assert ht[..] == s[slot := Used(k, v)];
    }

    /**
      The table becomes the map with k bound to v, as long as there is room. A table without room,
      where every slot holds some other key, loses the key in k's home slot.
     */
    method Insert(k: int, v: int)
      requires Valid()
      modifies ht
      ensures Valid()
      ensures var m := old(Map());
              Map() == (if k in m || |m| < ht.Length then m else m - {old(HomeKey(k))})[k := v]
    {
      ghost var s, h := ht[..], Home(ByMagnitude, k, ht.Length);
      Fullness(s);
      HoldsContents(s, k);
      var slot, init, marker, d := Probe(k);
      if d < |s| { WalkedIsReachable(s, h, d, k, d); } else { WalkedIsReachable(s, h, d, k, 0); }
      if ht[slot].Free? || slot == init {
        ProbeIsConclusive(ByMagnitude, s, k, d);
        if marker != -1 {
          Store(marker, k, v);
        } else {
          if d == |s| { FullCircle(s, h, k); }
          Store(slot, k, v);
        }
      }
      if init != slot && ht[slot].Used? && ht[slot].key == k {
        UpdateInPlace(slot, k, v);
      }
    }

    method UpdateInPlace(slot: nat, k: int, v: int)
      requires Valid() && slot < ht.Length && ht[slot].Used? && ht[slot].key == k
      modifies ht
      ensures Valid() && Map() == old(Map())[k := v]
    {
      ContentsAt(ht[..], slot);
      assert Reachable(ht[..], Home(ByMagnitude, ht[..][slot].key, ht.Length), slot);
      Store(slot, k, v);
    }

    /** The value last stored for k, or -1. */
    method SearchKey(k: int) returns (v: int)
      requires Valid()
      ensures v == if k in Map() then Map()[k] else -1
    {
      HoldsContents(ht[..], k);
      var slot, init, marker, d := Probe(k);
      if ht[slot].Free? || slot == init {
        ProbeIsConclusive(ByMagnitude, ht[..], k, d);
        return -1;
      }
      ContentsAt(ht[..], slot);
      v := ht[slot].value;
    }

    /** The key is gone, and a marker keeps the probes for other keys going. */
    method Remove(k: int)
      requires Valid()
      modifies ht
      ensures Valid() && Map() == old(Map()) - {k}
    {
      ghost var s := ht[..];
      HoldsContents(s, k);
      var slot, init, marker, d := Probe(k);
      if slot != init && !ht[slot].Free? {
        TakeOut(ByMagnitude, s, slot);
        ht[slot] := Gone;
        assert ht[..] == s[slot := Gone];
      } else {
        ProbeIsConclusive(ByMagnitude, s, k, d);
      }
    }
  }

  /** A probe for k from slot h, after d steps: where it stands, its first slot, and the last marker it met. */
  ghost predicate Probed(s: seq<Slot<int>>, h: nat, d: nat, k: int, slot: nat, init: int, marker: int) {
    && h < |s| && d <= |s| && slot == At(h, d, |s|) && init == (if d == 0 then -1 else h) && Walked(s, h, d, k)
    && (marker == -1 ==> forall e {:trigger At(h, e, |s|)} :: 0 <= e < d ==> !s[At(h, e, |s|)].Gone?)
    && (marker != -1 ==> 0 <= marker < |s| && s[marker].Gone? && Reachable(s, h, marker))
  }

  /** One more step, past a marker or another key. */
  lemma ProbeNext(s: seq<Slot<int>>, h: nat, d: nat, k: int, slot: nat, init: int, marker: int)
    requires Probed(s, h, d, k, slot, init, marker) && slot != init && slot < |s|
    requires s[slot].Gone? || (s[slot].Used? && s[slot].key != k)
    ensures d < |s|
    ensures Probed(s, h, d + 1, k, (slot + 1) % |s|,
                   if init == -1 then slot else init, if s[slot].Gone? then slot else marker)
  {
    if d < |s| {
      WalkedIsReachable(s, h, d, k, d);
      StepAt(h, d, |s|);
    }
  }

  /** A probe that comes round without meeting a marker has seen a table of live keys only. */
  lemma FullCircle(s: seq<Slot<int>>, h: nat, k: int)
    requires h < |s| && Walked(s, h, |s|, k)
    requires forall e {:trigger At(h, e, |s|)} :: 0 <= e < |s| ==> !s[At(h, e, |s|)].Gone?
    ensures AllUsed(s)
  {
    forall j | 0 <= j < |s| ensures s[j].Used? { assert At(h, Dist(h, j, |s|), |s|) == j; }
  }

  // ---------------------------------------------------------------- runs

  datatype Command = Bind(key: int, value: int) | Erase(key: int)

  /** What a run of insertions and removals leaves in an ideal map. */
  function Effect(m: map<int, int>, c: Command): map<int, int> {
    match c
    case Bind(k, v) => m[k := v]
    case Erase(k) => m - {k}
  }

  function Outcome(m: map<int, int>, run: seq<Command>): map<int, int>
    decreases |run|
  {
    if run == [] then m else Outcome(Effect(m, run[0]), run[1..])
  }

  /** The live keys never outnumber the slots. */
  predicate WithinCapacity(m: map<int, int>, run: seq<Command>, capacity: nat)
    decreases |run|
  {
    |m| <= capacity && (run != [] ==> WithinCapacity(Effect(m, run[0]), run[1..], capacity))
  }

  /** Over every run within capacity, the table is the map. */
  method Execute(table: HashMapTable, run: seq<Command>)
    requires table.Valid() && WithinCapacity(table.Map(), run, table.ht.Length)
    modifies table.ht
    ensures table.Valid() && table.Map() == Outcome(old(table.Map()), run)
  {
    ghost var m := table.Map();
    for i := 0 to |run|
      invariant table.Valid() && WithinCapacity(table.Map(), run[i..], table.ht.Length)
      invariant Outcome(m, run) == Outcome(table.Map(), run[i..])
    {
      ghost var was := table.Map();
      assert run[i..][1..] == run[i + 1..] && run[i..][0] == run[i];
      match run[i] {
        case Bind(k, v) =>
          table.Insert(k, v);
          Grows(was, k, v);
        case Erase(k) => table.Remove(k);
      }
    }
  }

  lemma Grows(m: map<int, int>, k: int, v: int)
    ensures k !in m ==> |m[k := v]| == |m| + 1
  {
    if k !in m { assert m[k := v].Keys == m.Keys + {k}; }
  }
}
