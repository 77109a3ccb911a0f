/**
  One producer's PTFO chain in memory: a dummy head and a dummy tail around a doubly linked list of
  nodes, changed store by store. Links are addresses, as they are in the persistent build, so every
  state that a store leaves behind is a value, and a crash leaves exactly one of them.
 */
module PtfoChains {
  import opened Ops
  import opened ChainLists
  import opened Replays

  type Addr = nat
  const NULL: Addr := 0
  /** The address of the dummy head, which the newest node's prev points to. */
  const DUMMY: Addr := 1

  /** future_Node: three arrays of entries, of which the first count are valid, and two links. */
  datatype Cell = Cell(keys: seq<int>, isDelete: seq<bool>, sequence: seq<nat>, count: nat, next: Addr, prev: Addr)

  /** The memory that survives a crash: the nodes, and the next links of the dummy head and tail. */
  datatype Memory = Memory(cells: map<Addr, Cell>, head: Addr, tail: Addr)

  /** A node that can be linked: arrays of the full capacity, and at least one valid entry. */
  ghost predicate CellOk(c: Cell, capacity: nat) {
    0 < c.count <= |c.keys| == |c.isDelete| == |c.sequence| == capacity
  }

  function EntryAt(c: Cell, i: nat, producer: nat): Op
    requires i < |c.keys| && i < |c.isDelete| && i < |c.sequence|
  {
    Op(c.keys[i], c.isDelete[i], c.sequence[i], producer)
  }

  /** A node with the three arrays written at position i. */
  function WithEntry(c: Cell, i: nat, op: Op): Cell
    requires i < |c.keys| && i < |c.isDelete| && i < |c.sequence|
  {
    c.(keys := c.keys[i := op.key], isDelete := c.isDelete[i := op.isDelete], sequence := c.sequence[i := op.sequence])
  }

  lemma OneEntry(blank: Cell, c: Cell, op: Op, producer: nat)
    requires 0 < |blank.keys| == |blank.isDelete| == |blank.sequence| && op.producer == producer
    requires c == WithEntry(blank, 0, op).(count := 1, prev := DUMMY)
    ensures Entries(c, producer) == [op]
  {
    assert EntryAt(c, 0, producer) == op;
  }

  ghost function Entries(c: Cell, producer: nat): (ops: Node)
    requires c.count <= |c.keys| == |c.isDelete| == |c.sequence|
    ensures |ops| == c.count
  {
    seq(c.count, i requires 0 <= i < c.count => EntryAt(c, i, producer))
  }

  // ---------------------------------------------------------------- walks over the memory

  /** The address behind position i - 1 of a spine. */
  function Target(spine: seq<Addr>, i: nat): Addr {
    if i < |spine| then spine[i] else NULL
  }

  ghost predicate Link(m: Memory, capacity: nat, spine: seq<Addr>, i: nat) {
    i < |spine| ==>
      && spine[i] > DUMMY && spine[i] in m.cells && CellOk(m.cells[spine[i]], capacity)
      && m.cells[spine[i]].next == Target(spine, i + 1)
  }

  /** A walk from the dummy head along next goes through the spine and ends. */
  ghost predicate Forward(m: Memory, capacity: nat, spine: seq<Addr>) {
    m.head == Target(spine, 0) && forall i {:trigger Link(m, capacity, spine, i)} :: Link(m, capacity, spine, i)
  }

  ghost predicate BackLink(m: Memory, spine: seq<Addr>, i: nat) {
    i < |spine| && spine[i] in m.cells ==> m.cells[spine[i]].prev == if i == 0 then DUMMY else spine[i - 1]
  }

  /** The last of the first n addresses of a spine. */
  function Last(spine: seq<Addr>, n: nat): Addr
    requires n <= |spine|
  {
    if n == 0 then NULL else spine[n - 1]
  }

  /** The tail and the prev links lead the same way back. */
  ghost predicate Backward(m: Memory, spine: seq<Addr>) {
    m.tail == Last(spine, |spine|) && forall i {:trigger BackLink(m, spine, i)} :: BackLink(m, spine, i)
  }

  /**
    What a crash can leave of them. An insertion that was cut off may never have set the tail, and may
    leave a full head node pointing back at a node that was not linked any more. A drain that was cut
    off leaves the tail at a node that is not the last one, or unset, and a clear that was cut off
    leaves it at a freed node.
   */
  ghost predicate Resumable(m: Memory, capacity: nat, spine: seq<Addr>) {
    && (forall i {:trigger BackLink(m, spine, i)} :: i > 0 ==> BackLink(m, spine, i))
    && (BackLink(m, spine, 0) || (spine[0] in m.cells && m.cells[spine[0]].count == capacity))
  }

  /** How many nodes lie between the head and the tail, both included. */
  ghost function Reach(spine: seq<Addr>, tail: Addr): (n: nat)
    ensures n <= |spine| && (n > 0 ==> tail == spine[n - 1])
    ensures n == 0 ==> tail !in spine
  {
    if spine == [] then 0
    else
      var last := |spine| - 1;
      if spine[last] == tail then |spine| else Reach(spine[..last], tail)
  }

  lemma ReachOf(spine: seq<Addr>, n: nat)
    requires NoRepeats(spine) && n <= |spine| && forall i :: 0 <= i < |spine| ==> spine[i] != NULL
    ensures Reach(spine, Last(spine, n)) == n
  {
  }

  /** A node in front moves the tail one further from the head. */
  lemma ReachBehind(spine: seq<Addr>, a: Addr, tail: Addr)
    requires NoRepeats([a] + spine) && a != tail
    ensures Reach([a] + spine, tail) == if Reach(spine, tail) == 0 then 0 else Reach(spine, tail) + 1
  {
    var front, n := [a] + spine, Reach([a] + spine, tail);
    if n > 0 {
      assert front[n - 1] == tail && spine[n - 2] == tail;
      assert front[Reach(spine, tail)] == tail;
    }
  }

  /** The nodes behind the tail, of a chain in which an insertion has left the tail alone. */
  lemma SameBehind(was: seq<Addr>, spine: seq<Addr>, tail: Addr)
    requires NoRepeats(spine) && (spine == was || (spine != [] && spine[1..] == was))
    requires (forall i :: 0 <= i < |spine| ==> spine[i] != NULL) && (tail == NULL || tail in was)
    ensures |spine| - Reach(spine, tail) == if tail == NULL then |spine| else |was| - Reach(was, tail)
  {
    if tail != NULL && spine != was {
      assert spine == [spine[0]] + was;
      ReachBehind(was, spine[0], tail);
    }
  }

  ghost predicate NoRepeats(spine: seq<Addr>) {
    forall i, j :: 0 <= i < j < |spine| ==> spine[i] != spine[j]
  }

  /** The nodes met on the way, head first. */
  ghost function View(m: Memory, capacity: nat, spine: seq<Addr>, producer: nat): (nodes: seq<Node>)
    requires Forward(m, capacity, spine)
    ensures |nodes| == |spine|
  {
    seq(|spine|, i requires 0 <= i < |spine| =>
      assert Link(m, capacity, spine, i); Entries(m.cells[spine[i]], producer))
  }

  /** A walk from the head sees these nodes. */
  ghost predicate Sees(m: Memory, capacity: nat, spine: seq<Addr>, producer: nat, nodes: seq<Node>) {
    Forward(m, capacity, spine) && View(m, capacity, spine, producer) == nodes
  }

  /** Every memory since position t shows these nodes, and an insertion can go on from it. */
  ghost predicate ShownSince(h: seq<Memory>, t: nat, capacity: nat, spine: seq<Addr>, producer: nat, nodes: seq<Node>) {
    forall i {:trigger h[i]} :: t <= i < |h| ==>
        Sees(h[i], capacity, spine, producer, nodes) && Resumable(h[i], capacity, spine)
  }

  /** No store since position t has touched the tail. */
  ghost predicate TailSince(h: seq<Memory>, t: nat, tail: Addr) {
    forall i {:trigger h[i]} :: t <= i < |h| ==> h[i].tail == tail
  }

  lemma {:induction false} SamePrefix(m: Memory, capacity: nat, a: seq<Addr>, b: seq<Addr>, n: nat)
    requires Forward(m, capacity, a) && Forward(m, capacity, b) && n <= |a|
    ensures n <= |b| && forall i :: 0 <= i < n ==> a[i] == b[i]
  {
    if n > 0 {
      SamePrefix(m, capacity, a, b, n - 1);
      assert Link(m, capacity, a, n - 1);
      if n > 1 { assert Link(m, capacity, a, n - 2) && Link(m, capacity, b, n - 2); }
    }
  }

  /** There is only one walk. */
  lemma ForwardUnique(m: Memory, capacity: nat, a: seq<Addr>, b: seq<Addr>)
    requires Forward(m, capacity, a) && Forward(m, capacity, b)
    ensures a == b
  {
    SamePrefix(m, capacity, a, b, |a|);
    SamePrefix(m, capacity, b, a, |b|);
  }

  /** The walk, node by node, is not disturbed by a change that keeps every link and entry. */
  lemma SameWalk(m: Memory, m': Memory, capacity: nat, spine: seq<Addr>, producer: nat, nodes: seq<Node>)
    requires Sees(m, capacity, spine, producer, nodes) && m'.head == m.head
    requires forall i :: 0 <= i < |spine| && spine[i] in m.cells ==>
               && spine[i] in m'.cells && m'.cells[spine[i]].next == m.cells[spine[i]].next
               && (CellOk(m.cells[spine[i]], capacity) ==>
                     CellOk(m'.cells[spine[i]], capacity) &&
                     Entries(m'.cells[spine[i]], producer) == Entries(m.cells[spine[i]], producer))
    ensures Sees(m', capacity, spine, producer, nodes)
  {
    forall i: nat ensures Link(m', capacity, spine, i) { assert Link(m, capacity, spine, i); }
    forall i | 0 <= i < |spine| ensures View(m', capacity, spine, producer)[i] == nodes[i] {
      assert Link(m, capacity, spine, i) && Link(m', capacity, spine, i);
    }
  }

  /** A walk does not meet a node twice. */
  lemma {:induction false} NoMeetingAgain(m: Memory, capacity: nat, spine: seq<Addr>, i: nat, j: nat)
    requires Forward(m, capacity, spine) && i < j < |spine|
    ensures spine[i] != spine[j]
    decreases |spine| - j
  {
    assert Link(m, capacity, spine, i) && Link(m, capacity, spine, j);
    if j + 1 < |spine| {
      NoMeetingAgain(m, capacity, spine, i + 1, j + 1);
    } else {
      assert Link(m, capacity, spine, i + 1);
    }
  }

  lemma ForwardNoRepeats(m: Memory, capacity: nat, spine: seq<Addr>)
    requires Forward(m, capacity, spine)
    ensures NoRepeats(spine)
  {
    forall i, j | 0 <= i < j < |spine| ensures spine[i] != spine[j] { NoMeetingAgain(m, capacity, spine, i, j); }
  }

  lemma LastIsReal(m: Memory, capacity: nat, spine: seq<Addr>, n: nat)
    requires Forward(m, capacity, spine) && n <= |spine|
    ensures Last(spine, n) == NULL <==> n == 0
  {
    if n > 0 { assert Link(m, capacity, spine, n - 1); }
  }

  /** Neither does the way back change, as long as the tail and the linked nodes' prev stay. */
  lemma SameWayBack(m: Memory, m': Memory, capacity: nat, spine: seq<Addr>)
    requires Forward(m, capacity, spine) && m'.tail == m.tail
    requires forall i :: 0 <= i < |spine| && spine[i] in m.cells ==>
               spine[i] in m'.cells && m'.cells[spine[i]].prev == m.cells[spine[i]].prev
    requires spine != [] && spine[0] in m.cells && spine[0] in m'.cells ==>
             m'.cells[spine[0]].count == m.cells[spine[0]].count
    ensures Backward(m, spine) ==> Backward(m', spine)
    ensures Resumable(m, capacity, spine) ==> Resumable(m', capacity, spine)
  {
    forall i: nat ensures BackLink(m, spine, i) ==> BackLink(m', spine, i) { assert Link(m, capacity, spine, i); }
  }

  /** Storing into an unlinked node changes nothing for a walk. */
  lemma UnlinkedStore(m: Memory, capacity: nat, spine: seq<Addr>, producer: nat, nodes: seq<Node>, a: Addr, c: Cell)
    requires Sees(m, capacity, spine, producer, nodes) && Resumable(m, capacity, spine) && a !in spine
    ensures var m' := m.(cells := m.cells[a := c]);
            Sees(m', capacity, spine, producer, nodes) && Resumable(m', capacity, spine)
  {
    var m' := m.(cells := m.cells[a := c]);
    SameWalk(m, m', capacity, spine, producer, nodes);
    SameWayBack(m, m', capacity, spine);
  }

  /** Storing behind the last valid entry, or into prev, neither. */
  lemma SpareStore(m: Memory, capacity: nat, spine: seq<Addr>, producer: nat, nodes: seq<Node>, a: Addr, c: Cell)
    requires Sees(m, capacity, spine, producer, nodes) && a in m.cells && CellOk(m.cells[a], capacity)
             && CellOk(c, capacity)
    requires c.count == m.cells[a].count && c.next == m.cells[a].next
    requires forall i :: 0 <= i < c.count ==> EntryAt(c, i, producer) == EntryAt(m.cells[a], i, producer)
    ensures Sees(m.(cells := m.cells[a := c]), capacity, spine, producer, nodes)
    ensures Resumable(m, capacity, spine) && c.prev == m.cells[a].prev ==>
            Resumable(m.(cells := m.cells[a := c]), capacity, spine)
  {
    var m' := m.(cells := m.cells[a := c]);
    assert Entries(c, producer) == Entries(m.cells[a], producer);
    SameWalk(m, m', capacity, spine, producer, nodes);
    if c.prev == m.cells[a].prev { SameWayBack(m, m', capacity, spine); }
  }

  /** Linking a finished node in front. */
  lemma LinkFront(m: Memory, capacity: nat, spine: seq<Addr>, producer: nat, nodes: seq<Node>, a: Addr, op: Op)
    requires Sees(m, capacity, spine, producer, nodes) && a in m.cells && a > DUMMY && CellOk(m.cells[a], capacity)
    requires m.cells[a].next == m.head && Entries(m.cells[a], producer) == [op]
    ensures Sees(m.(head := a), capacity, [a] + spine, producer, [[op]] + nodes)
  {
    var m' := m.(head := a);
    var spine': seq<Addr> := [a] + spine;
    forall i: nat ensures Link(m', capacity, spine', i) {
      if i > 0 { assert Link(m, capacity, spine, i - 1); }
    }
    forall i | 0 <= i < |spine'| ensures View(m', capacity, spine', producer)[i] == ([[op]] + nodes)[i] {
      assert Link(m', capacity, spine', i);
      if i > 0 { assert Link(m, capacity, spine, i - 1); }
    }
  }

  /** Pointing a full head node back at a node that is about to be linked leaves the rest of the way back. */
  lemma EarlyPrev(m: Memory, capacity: nat, spine: seq<Addr>, a: Addr)
    requires Forward(m, capacity, spine) && Resumable(m, capacity, spine) && NoRepeats(spine) && spine != []
    requires spine[0] in m.cells && m.cells[spine[0]].count == capacity
    ensures Resumable(m.(cells := m.cells[spine[0] := m.cells[spine[0]].(prev := a)]), capacity, spine)
  {
    var m' := m.(cells := m.cells[spine[0] := m.cells[spine[0]].(prev := a)]);
    forall i: nat | i > 0 ensures BackLink(m', spine, i) { assert BackLink(m, spine, i); }
  }

  /** With the old head pointing back at it, the new node is the first on the way back, whatever the old head said. */
  lemma BackFront(m: Memory, capacity: nat, spine: seq<Addr>, a: Addr)
    requires Forward(m, capacity, spine) && Resumable(m, capacity, spine) && spine != []
    requires a in m.cells && m.cells[a].prev == DUMMY && spine[0] in m.cells && m.cells[spine[0]].prev == a
    ensures PrevLinks(m.(head := a), [a] + spine)
  {
    var m' := m.(head := a);
    forall i: nat ensures BackLink(m', [a] + spine, i) {
      if 1 < i <= |spine| { assert BackLink(m, spine, i - 1); }
    }
  }

  /** Every prev leads back. */
  ghost predicate PrevLinks(m: Memory, spine: seq<Addr>) {
    forall i {:trigger BackLink(m, spine, i)} :: BackLink(m, spine, i)
  }

  /** Raising the head's count makes one more entry valid. A head node with room points back at the dummy. */
  lemma RaiseCount(m: Memory, capacity: nat, spine: seq<Addr>, producer: nat, nodes: seq<Node>, a: Addr, op: Op)
    requires Sees(m, capacity, spine, producer, nodes) && NoRepeats(spine) && spine != [] && a == spine[0]
             && a in m.cells
    requires var c := m.cells[a]; CellOk(c, capacity) && c.count < capacity && op == EntryAt(c, c.count, producer)
    requires Resumable(m, capacity, spine)
    ensures var c := m.cells[a];
            var m' := m.(cells := m.cells[a := c.(count := c.count + 1)]);
            && Sees(m', capacity, spine, producer, [nodes[0] + [op]] + nodes[1..])
            && PrevLinks(m', spine)
  {
    var c := m.cells[a];
    var c' := c.(count := c.count + 1);
    var m' := m.(cells := m.cells[a := c']);
    assert Entries(c', producer) == Entries(c, producer) + [op];
    forall i: nat ensures Link(m', capacity, spine, i) { assert Link(m, capacity, spine, i); }
    forall i | 0 <= i < |spine| ensures View(m', capacity, spine, producer)[i] == ([nodes[0] + [op]] + nodes[1..])[i] {
      assert Link(m, capacity, spine, i) && Link(m', capacity, spine, i);
    }
    forall i: nat ensures BackLink(m', spine, i) { assert BackLink(m, spine, i) && Link(m, capacity, spine, i); }
  }

  /** An insertion into a chain with something due is due too; otherwise it is not. */
  lemma DueAfterInsertion(nodes: seq<Node>, due: seq<Node>, nodes': seq<Node>, due': seq<Node>, op: Op, capacity: nat)
    requires nodes != [] && due <= nodes && nodes' == Push(nodes, op, capacity) && due' <= nodes'
    requires |nodes'| - |due'| == if due == [] then |nodes'| else |nodes| - |due|
    ensures Log(due') == if due == [] then [] else Log(due) + [op]
  {
    if due != [] {
      PushAppends(due, op, capacity);
      assert due' == Push(due, op, capacity);
    }
  }

  // ---------------------------------------------------------------- interrupted drains

  /** Some walk from the head ends. */
  ghost predicate CanWalk(m: Memory, capacity: nat) {
    exists spine :: Forward(m, capacity, spine)
  }

  /**
    Freeing nodes of a chain whose head is still set: a walk from the head, which is what recovery
    does, ends if and only if nothing has been freed yet. Where the tail points does not matter.
   */
  lemma InterruptedDrainBreaksTheWalk(m: Memory, capacity: nat, spine: seq<Addr>, freed: set<Addr>, tail: Addr)
    requires Forward(m, capacity, spine) && forall a :: a in freed ==> a in spine
    ensures CanWalk(m.(cells := m.cells - freed, tail := tail), capacity) <==> freed == {}
  {
    var m' := m.(cells := m.cells - freed, tail := tail);
    if freed == {} {
      forall i: nat ensures Link(m', capacity, spine, i) { assert Link(m, capacity, spine, i); }
      assert Forward(m', capacity, spine);
    }
    forall other | Forward(m', capacity, other) ensures freed == {} {
      forall i: nat ensures Link(m, capacity, other, i) { assert Link(m', capacity, other, i); }
      ForwardUnique(m, capacity, spine, other);
      forall i | 0 <= i < |spine| ensures spine[i] !in freed { assert Link(m', capacity, spine, i); }
    }
  }

  /** The nodes from position n up to k. */
  ghost function Freed(spine: seq<Addr>, n: nat, k: nat): (freed: set<Addr>)
    requires k <= |spine|
    ensures forall a :: a in freed ==> a in spine
    ensures n < k <==> freed != {}
  {
    var freed := set i | n <= i < k :: spine[i];
    assert n < k ==> spine[n] in freed;
    freed
  }

  /** No memory since position t can be walked from the head. */
  ghost predicate NoneWalks(h: seq<Memory>, t: nat, capacity: nat) {
    forall i {:trigger h[i]} :: t <= i < |h| ==> !CanWalk(h[i], capacity)
  }

  /** Of the memories since position t, only the first can be walked from the head. */
  ghost predicate OnlyFirstWalks(h: seq<Memory>, t: nat, capacity: nat) {
    forall i {:trigger h[i]} :: t <= i < |h| ==> (CanWalk(h[i], capacity) <==> i == t)
  }

  // ---------------------------------------------------------------- stores

  function Blank(capacity: nat): Cell {
    Cell(seq(capacity, _ => 0), seq(capacity, _ => false), seq(capacity, _ => 0), 0, NULL, NULL)
  }

  ghost predicate SlotStored<T(!new)>(a: seq<T>, b: seq<T>) {
    |a| == |b| && exists i :: 0 <= i < |a| && b == a[i := b[i]]
  }

  lemma OneSlot<T(!new)>(a: seq<T>, i: nat, x: T)
    requires i < |a|
    ensures SlotStored(a, a[i := x])
  {
    assert a[i := x] == a[i := a[i := x][i]];
  }

  /** One field of a node, or one position of one of its arrays, is stored. */
  ghost predicate FieldStored(c: Cell, c': Cell) {
    || c' == c.(count := c'.count) || c' == c.(next := c'.next) || c' == c.(prev := c'.prev)
    || (c' == c.(keys := c'.keys) && SlotStored(c.keys, c'.keys))
    || (c' == c.(isDelete := c'.isDelete) && SlotStored(c.isDelete, c'.isDelete))
    || (c' == c.(sequence := c'.sequence) && SlotStored(c.sequence, c'.sequence))
  }

  /** A node is stored into, which may be a new one, or freed. */
  ghost predicate NodeStored(m: Memory, m': Memory, a: Addr, capacity: nat) {
    || m' == m.(cells := m.cells - {a})
    || (a in m'.cells && m' == m.(cells := m.cells[a := m'.cells[a]])
        && FieldStored(if a in m.cells then m.cells[a] else Blank(capacity), m'.cells[a]))
  }

  ghost predicate OneStore(m: Memory, m': Memory, capacity: nat) {
    m' == m.(head := m'.head) || m' == m.(tail := m'.tail) || exists a :: NodeStored(m, m', a, capacity)
  }

  /** The memory at the end of a history. */
  ghost function Current(start: Memory, history: seq<Memory>): Memory {
    if history == [] then start else history[|history| - 1]
  }

  ghost predicate StoreAt(start: Memory, history: seq<Memory>, capacity: nat, t: nat) {
    t < |history| ==> OneStore(if t == 0 then start else history[t - 1], history[t], capacity)
  }

  /** Every memory of a history is one store behind the one before. */
  ghost predicate Stepwise(start: Memory, history: seq<Memory>, capacity: nat) {
    forall t {:trigger StoreAt(start, history, capacity, t)} :: StoreAt(start, history, capacity, t)
  }

  lemma StepwiseSnoc(start: Memory, history: seq<Memory>, capacity: nat, m: Memory)
    ensures Stepwise(start, history, capacity) && OneStore(Current(start, history), m, capacity) ==>
              Stepwise(start, history + [m], capacity)
  {
    if Stepwise(start, history, capacity) && OneStore(Current(start, history), m, capacity) {
      forall t: nat ensures StoreAt(start, history + [m], capacity, t) { assert StoreAt(start, history, capacity, t); }
    }
  }

  // ---------------------------------------------------------------- the chain

  class Chain {
    const producer: nat
    const cardinality: nat
    var cells: map<Addr, Cell>
    /** local_fut[tid].next and local_fut_tail[tid].next. */
    var head: Addr
    var tail: Addr
    /** local_fut[tid].entry_count: the number of nodes. */
    var headCount: nat
    var nextAddr: Addr
    ghost var spine: seq<Addr>
    /** The memory at first, and after every store since. */
    ghost const start: Memory
    var history: seq<Memory>

    function Mem(): Memory
      reads this
    {
      Memory(cells, head, tail)
    }

    /** The history is the chain's, store by store. */
    ghost predicate Recorded()
      reads this
    {
      Stepwise(start, history, cardinality) && Current(start, history) == Mem()
    }

    /** The same, up to a node that has just been allocated. */
    ghost predicate RecordedBut(a: Addr)
      reads this
    {
      && Stepwise(start, history, cardinality)
      && a !in Current(start, history).cells
      && Current(start, history).(cells := Current(start, history).cells[a := Blank(cardinality)]) == Mem()
    }

    ghost predicate AddressesOk()
      reads this
    {
      cardinality > 0 && nextAddr > DUMMY && NoRepeats(spine) && forall a :: a in cells ==> a < nextAddr
    }

    /** A walk from the head goes through the spine. */
    ghost predicate Walkable()
      reads this
    {
      AddressesOk() && Forward(Mem(), cardinality, spine)
    }

    ghost predicate Valid()
      reads this
    {
      Walkable() && Backward(Mem(), spine)
    }

    /**
      What a crash between the two link stores of a first insertion leaves, and what further insertions
      leave of it: a chain that can be walked from the head only.
     */
    ghost predicate Torn()
      reads this
    {
      Walkable() && PrevLinks(Mem(), spine) && TailUnset()
    }

    /** A chain whose prev links lead all the way back from the tail, wherever that is. */
    ghost predicate Drainable()
      reads this
    {
      Walkable() && PrevLinks(Mem(), spine) && TailSound()
    }

    /** The tail is unset, or at a node of the chain. */
    ghost predicate TailSound()
      reads this
    {
      tail == NULL || tail in spine
    }

    /** The nodes that a drain from the tail will meet. */
    ghost function Due(): seq<Node>
      reads this
      requires Walkable()
    {
      Nodes()[..Reach(spine, tail)]
    }

    lemma ValidIsUsable()
      requires Valid()
      ensures Usable()
    {
      forall i: nat ensures BackLink(Mem(), spine, i) { }
    }

    lemma RealAddresses()
      requires Walkable()
      ensures forall i :: 0 <= i < |spine| ==> spine[i] != NULL
    {
      forall i | 0 <= i < |spine| ensures spine[i] != NULL { assert Link(Mem(), cardinality, spine, i); }
    }

    /** All of them, none, or those that were due before a drain was cut off. */
    lemma WhatIsDue()
      requires Walkable()
      ensures Valid() ==> Drainable() && Due() == Nodes()
      ensures Torn() ==> Drainable() && Due() == []
    {
      RealAddresses();
      ReachOf(spine, |spine|);
      ReachOf(spine, 0);
    }

    /** The head is set, the tail is not. */
    ghost predicate TailUnset()
      reads this
    {
      spine != [] && tail == NULL
    }

    /** The tail is at the end, or was never set. */
    ghost predicate TailAtEnd()
      reads this
    {
      tail == Last(spine, |spine|) || tail == NULL
    }

    /** A chain as it is found after any number of crashes. */
    ghost predicate Usable()
      reads this
    {
      Walkable() && Resumable(Mem(), cardinality, spine)
    }

    /** The chain as a list of nodes, newest first. */
    ghost function Nodes(): seq<Node>
      reads this
      requires Walkable()
    {
      View(Mem(), cardinality, spine, producer)
    }

    constructor (producer: nat, cardinality: nat)
      requires cardinality > 0
      ensures Valid() && Usable() && Nodes() == [] && this.producer == producer && this.cardinality == cardinality
      ensures history == [] && headCount == |spine| && Recorded()
    {
      this.producer := producer;
      this.cardinality := cardinality;
      cells := map[];
      head, tail := NULL, NULL;
      headCount := 0;
      nextAddr := DUMMY + 1;
      spine, history := [], [];
      start := Memory(map[], NULL, NULL);
    }

    /** The chain in a reopened pool. */
    constructor Reopen(producer: nat, cardinality: nat, m: Memory, nextAddr: Addr, ghost spine: seq<Addr>,
                       ghost nodes: seq<Node>)
      requires cardinality > 0 && nextAddr > DUMMY && forall a :: a in m.cells ==> a < nextAddr
      requires Sees(m, cardinality, spine, producer, nodes) && Resumable(m, cardinality, spine)
      ensures Usable() && Nodes() == nodes && this.producer == producer && this.cardinality == cardinality
      ensures Mem() == m && this.spine == spine && history == [] && Recorded()
    {
      ForwardNoRepeats(m, cardinality, spine);
      this.producer := producer;
      this.cardinality := cardinality;
      cells := m.cells;
      head, tail := m.head, m.tail;
      headCount := 0;
      this.nextAddr := nextAddr;
      this.spine, history := spine, [];
      start := m;
    }

    /** No node is empty, and all entries are the producer's. */
    lemma NodesAreItsOwn()
      requires Walkable()
      ensures forall i :: 0 <= i < |Nodes()| ==> Nodes()[i] != [] && forall o :: o in Nodes()[i] ==>
              o.producer == producer
    {
      forall i | 0 <= i < |spine| ensures Nodes()[i] != [] && forall o :: o in Nodes()[i] ==> o.producer == producer {
        assert Link(Mem(), cardinality, spine, i);
      }
    }

    /** A chain is empty exactly when its log is. */
    lemma NonemptyLog()
      requires Walkable()
      ensures spine == [] <==> Log(Nodes()) == []
    {
      if spine != [] { assert Link(Mem(), cardinality, spine, 0); }
    }

    // The three kinds of store. Each leaves a memory behind.

    method StoreCell(a: Addr, c: Cell)
      requires a in cells
      modifies this`cells, this`history
      ensures cells == old(cells)[a := c] && history == old(history) + [Mem()]
      ensures old((Recorded() || RecordedBut(a)) && FieldStored(cells[a], c)) ==> Recorded()
    {
      ghost var m := Current(start, history);
      cells := cells[a := c];
      if old((Recorded() || RecordedBut(a)) && FieldStored(cells[a], c)) {
        assert m.cells[a := c] == cells;
        assert NodeStored(m, Mem(), a, cardinality);
      }
      StepwiseSnoc(start, history, cardinality, Mem());
      history := history + [Mem()];
    }

    method StoreHead(a: Addr)
      modifies this`head, this`history
      ensures head == a && history == old(history) + [Mem()]
      ensures old(Recorded()) ==> Recorded()
    {
      head := a;
      StepwiseSnoc(start, history, cardinality, Mem());
      history := history + [Mem()];
    }

    method StoreTail(a: Addr)
      modifies this`tail, this`history
      ensures tail == a && history == old(history) + [Mem()]
      ensures old(Recorded()) ==> Recorded()
    {
      tail := a;
      StepwiseSnoc(start, history, cardinality, Mem());
      history := history + [Mem()];
    }

    /** A store into a node that nothing links to. */
    method StoreUnlinked(a: Addr, c: Cell, ghost nodes: seq<Node>, ghost t: nat)
      requires Usable() && a in cells && a !in spine && Nodes() == nodes
      requires ShownSince(history, t, cardinality, spine, producer, nodes) && TailSince(history, t, tail)
      modifies this`cells, this`history
      ensures Usable() && Nodes() == nodes && cells == old(cells)[a := c] && old(history) <= history
      ensures old((Recorded() || RecordedBut(a)) && FieldStored(cells[a], c)) ==> Recorded()
      ensures |history| == |old(history)| + 1
      ensures ShownSince(history, t, cardinality, spine, producer, nodes) && TailSince(history, t, tail)
    {
      UnlinkedStore(Mem(), cardinality, spine, producer, nodes, a, c);
      StoreCell(a, c);
    }

    /** A new node with one entry, not linked to yet. */
    method Prepare(op: Op) returns (a: Addr)
      requires Usable() && op.producer == producer
      modifies this`cells, this`history, this`nextAddr
      ensures Usable() && Nodes() == old(Nodes()) && old(history) <= history && (old(Recorded()) ==> Recorded())
      ensures ShownSince(history, |old(history)|, cardinality, spine, producer, Nodes())
      ensures TailSince(history, |old(history)|, tail) && |history| == |old(history)| + 5
      ensures a in cells && a !in old(cells) && a !in spine && a > DUMMY && CellOk(cells[a], cardinality)
      ensures forall x :: x in old(cells) ==> x in cells && cells[x] == old(cells)[x]
      ensures Entries(cells[a], producer) == [op] && cells[a].next == NULL && cells[a].prev == DUMMY
    {
      ghost var nodes, t := Nodes(), |history|;
      a := Allocate(nodes);
      ghost var blank := cells[a];
      WriteFirstEntry(a, op, nodes, t);
      StoreUnlinked(a, cells[a].(count := 1), nodes, t);
      StoreUnlinked(a, cells[a].(prev := DUMMY), nodes, t);
      OneEntry(blank, cells[a], op, producer);
    }

    /** The three stores of an entry into an unlinked node. */
    method WriteFirstEntry(a: Addr, op: Op, ghost nodes: seq<Node>, ghost t: nat)
      requires Usable() && a in cells && a !in spine && Nodes() == nodes
      requires 0 < |cells[a].keys| && 0 < |cells[a].isDelete| && 0 < |cells[a].sequence|
      requires ShownSince(history, t, cardinality, spine, producer, nodes) && TailSince(history, t, tail)
      modifies this`cells, this`history
      ensures Usable() && Nodes() == nodes && old(history) <= history && |history| == |old(history)| + 3
      ensures old(Recorded() || RecordedBut(a)) ==> Recorded()
      ensures cells == old(cells)[a := WithEntry(old(cells)[a], 0, op)]
      ensures ShownSince(history, t, cardinality, spine, producer, nodes) && TailSince(history, t, tail)
    {
      OneSlot(cells[a].keys, 0, op.key);
      OneSlot(cells[a].isDelete, 0, op.isDelete);
      OneSlot(cells[a].sequence, 0, op.sequence);
      StoreUnlinked(a, cells[a].(keys := cells[a].keys[0 := op.key]), nodes, t);
      StoreUnlinked(a, cells[a].(isDelete := cells[a].isDelete[0 := op.isDelete]), nodes, t);
      StoreUnlinked(a, cells[a].(sequence := cells[a].sequence[0 := op.sequence]), nodes, t);
    }

    method Allocate(ghost nodes: seq<Node>) returns (a: Addr)
      requires Usable() && Nodes() == nodes
      modifies this`cells, this`nextAddr
      ensures Usable() && Nodes() == nodes && a !in old(cells) && a !in spine && a > DUMMY
      ensures a in cells && cells == old(cells)[a := cells[a]]
      ensures cells[a] == Blank(cardinality) && (old(Recorded()) ==> RecordedBut(a))
    {
      a := nextAddr;
      var c := Blank(cardinality);
      forall i | 0 <= i < |spine| ensures spine[i] != a { assert Link(Mem(), cardinality, spine, i); }
      UnlinkedStore(Mem(), cardinality, spine, producer, nodes, a, c);
      nextAddr := nextAddr + 1;
      cells := cells[a := c];
    }

    /** The chain is empty: the new node becomes head, then tail. */
    method InsertFirst(op: Op) returns (ghost shown: nat)
      requires Usable() && op.producer == producer && head == NULL
      modifies this
      ensures Usable() && Valid() && !TailUnset() && old(Nodes()) == [] && Nodes() == [[op]] && old(history) <= history
      ensures shown == |old(history)| + 5 && |history| == shown + 2
      ensures TailSince(history[..shown + 1], |old(history)|, old(tail)) && history[shown + 1] == Mem()
      ensures ShownSince(history[..shown], |old(history)|, cardinality, old(spine), producer, [])
      ensures ShownSince(history, shown, cardinality, spine, producer, Nodes())
      ensures headCount == old(headCount) + 1 && |spine| == |old(spine)| + 1
      ensures old(Recorded()) ==> Recorded()
    {
      assert Link(Mem(), cardinality, spine, 0);
      var a := Prepare(op);
      shown := |history|;
      LinkFirst(a, op);
    }

    /** The two stores that link it. */
    method LinkFirst(a: Addr, op: Op)
      requires Usable() && spine == [] && Nodes() == [] && a in cells && a > DUMMY && CellOk(cells[a], cardinality)
      requires Entries(cells[a], producer) == [op] && cells[a].next == NULL && cells[a].prev == DUMMY
      modifies this`head, this`tail, this`headCount, this`spine, this`history
      ensures Usable() && Valid() && spine == [a] && tail == a && Nodes() == [[op]] && headCount == old(headCount) + 1
      ensures history == old(history) + [old(Mem()).(head := a), Mem()]
      ensures ShownSince(history, |old(history)|, cardinality, [a], producer, [[op]])
              && (old(Recorded()) ==> Recorded())
    {
      LinkFront(Mem(), cardinality, spine, producer, Nodes(), a, op);
      assert [a] + spine == [a] && [[op]] + [] == [[op]];
      StoreHead(a);
      SameWalk(Mem(), Mem().(tail := a), cardinality, [a], producer, [[op]]);
      StoreTail(a);
      spine := [a];
      headCount := headCount + 1;
    }

    /** The head node is full: the new node goes in front of it. */
    method InsertFront(op: Op) returns (ghost shown: nat)
      requires Usable() && op.producer == producer && head != NULL && head in cells && cells[head].count == cardinality
      modifies this
      ensures TailSince(history, |old(history)|, tail)
      ensures Usable() && PrevLinks(Mem(), spine) && tail == old(tail) && old(spine) != [] && spine != []
              && spine[1..] == old(spine)
      ensures Nodes() == [[op]] + old(Nodes()) && old(history) <= history
      ensures |old(history)| <= shown < |history|
      ensures ShownSince(history[..shown], |old(history)|, cardinality, old(spine), producer, old(Nodes()))
      ensures ShownSince(history, shown, cardinality, spine, producer, Nodes())
      ensures headCount == old(headCount) + 1 && |spine| == |old(spine)| + 1
      ensures old(Recorded()) ==> Recorded()
    {
      ghost var nodes, t := Nodes(), |history|;
      assert Link(Mem(), cardinality, spine, 0);
      var a := Prepare(op);
      StoreUnlinked(a, cells[a].(next := head), nodes, t);
      PointBack(a, nodes, t);
      shown := |history|;
      LinkAhead(a, op, nodes);
    }

    /** The store that links it. */
    method LinkAhead(a: Addr, op: Op, ghost nodes: seq<Node>)
      requires Usable() && Nodes() == nodes && spine != [] && spine[0] == head && head in cells
      requires a in cells && a !in spine && a > DUMMY && CellOk(cells[a], cardinality)
               && Entries(cells[a], producer) == [op]
      requires cells[a].next == head && cells[a].prev == DUMMY && cells[head].prev == a
      modifies this`head, this`headCount, this`spine, this`history
      ensures Usable() && PrevLinks(Mem(), spine) && spine == [a] + old(spine) && Nodes() == [[op]] + nodes
      ensures history == old(history) + [Mem()] && headCount == old(headCount) + 1 && (old(Recorded()) ==> Recorded())
    {
      LinkFront(Mem(), cardinality, spine, producer, nodes, a, op);
      BackFront(Mem(), cardinality, spine, a);
      StoreHead(a);
      spine := [a] + spine;
      headCount := headCount + 1;
    }

    /** The old head's prev is stored before the head is: a crash in between leaves it pointing at a lost node. */
    method PointBack(a: Addr, ghost nodes: seq<Node>, ghost t: nat)
      requires Usable() && Nodes() == nodes && head != NULL && head in cells && cells[head].count == cardinality
               && a !in spine
      requires ShownSince(history, t, cardinality, spine, producer, nodes) && TailSince(history, t, tail)
      modifies this`cells, this`history
      ensures Usable() && Nodes() == nodes && cells == old(cells)[head := old(cells)[head].(prev := a)]
              && old(history) <= history
      ensures ShownSince(history, t, cardinality, spine, producer, nodes) && TailSince(history, t, tail)
      ensures spine != [] && spine[0] == head
      ensures old(Recorded()) ==> Recorded()
    {
      assert Link(Mem(), cardinality, spine, 0);
      SpareStore(Mem(), cardinality, spine, producer, nodes, head, cells[head].(prev := a));
      EarlyPrev(Mem(), cardinality, spine, a);
      StoreCell(head, cells[head].(prev := a));
    }

    /** A store into the head node behind its last valid entry. */
    method StoreSpare(c: Cell, ghost nodes: seq<Node>, ghost t: nat)
      requires Usable() && head in cells && Nodes() == nodes && CellOk(cells[head], cardinality)
               && CellOk(c, cardinality)
      requires c.count == cells[head].count && c.next == cells[head].next && c.prev == cells[head].prev
      requires forall i :: 0 <= i < c.count ==> EntryAt(c, i, producer) == EntryAt(cells[head], i, producer)
      requires ShownSince(history, t, cardinality, spine, producer, nodes) && TailSince(history, t, tail)
      modifies this`cells, this`history
      ensures Usable() && Nodes() == nodes && cells == old(cells)[head := c] && old(history) <= history
      ensures old(Recorded() && FieldStored(cells[head], c)) ==> Recorded()
      ensures ShownSince(history, t, cardinality, spine, producer, nodes) && TailSince(history, t, tail)
    {
      SpareStore(Mem(), cardinality, spine, producer, nodes, head, c);
      StoreCell(head, c);
    }

    /** The head node has room: one more entry, made valid by its count. */
    method InsertEntry(op: Op) returns (ghost shown: nat)
      requires Usable() && op.producer == producer && head != NULL && head in cells && cells[head].count < cardinality
      modifies this`cells, this`history
      ensures TailSince(history, |old(history)|, tail)
      ensures Usable() && PrevLinks(Mem(), spine) && (old(Recorded()) ==> Recorded())
      ensures old(Nodes()) != [] && Nodes() == [old(Nodes())[0] + [op]] + old(Nodes())[1..]
      ensures old(history) <= history && |old(history)| <= shown < |history|
      ensures ShownSince(history[..shown], |old(history)|, cardinality, old(spine), producer, old(Nodes()))
      ensures ShownSince(history, shown, cardinality, spine, producer, Nodes())
    {
      assert Link(Mem(), cardinality, spine, 0);
      var i := cells[head].count;
      ghost var nodes, t := Nodes(), |history|;
      WriteSpareEntry(op, nodes, t);
      shown := |history|;
      RaiseCount(Mem(), cardinality, spine, producer, nodes, head, op);
      StoreCell(head, cells[head].(count := i + 1));
    }

    /** The three stores of an entry behind the last valid one of the head node. */
    method WriteSpareEntry(op: Op, ghost nodes: seq<Node>, ghost t: nat)
      requires Usable() && head in cells && Nodes() == nodes && CellOk(cells[head], cardinality)
               && cells[head].count < cardinality
      requires ShownSince(history, t, cardinality, spine, producer, nodes) && TailSince(history, t, tail)
      modifies this`cells, this`history
      ensures Usable() && Nodes() == nodes && old(history) <= history && (old(Recorded()) ==> Recorded())
      ensures cells == old(cells)[head := WithEntry(old(cells)[head], old(cells)[head].count, op)]
      ensures ShownSince(history, t, cardinality, spine, producer, nodes) && TailSince(history, t, tail)
    {
      var i := cells[head].count;
      OneSlot(cells[head].keys, i, op.key);
      OneSlot(cells[head].isDelete, i, op.isDelete);
      OneSlot(cells[head].sequence, i, op.sequence);
      StoreSpare(cells[head].(keys := cells[head].keys[i := op.key]), nodes, t);
      StoreSpare(cells[head].(isDelete := cells[head].isDelete[i := op.isDelete]), nodes, t);
      StoreSpare(cells[head].(sequence := cells[head].sequence[i := op.sequence]), nodes, t);
    }

    /**
      future_insert's chain part, on a chain that any number of crashes may have left behind. The chain
      gains exactly one operation; after every store, a walk from the head sees the old chain, up to
      one store, and the new chain from it on, and a later insertion can go on from there. All prev
      links are in order afterwards. A tail that a crash left unset stays unset, and only the sixth of
      the seven stores of a first insertion leaves it so.
     */
    method FutureInsert(op: Op) returns (ghost shown: nat)
      requires Usable() && op.producer == producer
      modifies this
      ensures Usable() && Nodes() == Push(old(Nodes()), op, cardinality) && Log(Nodes()) == Log(old(Nodes())) + [op]
      ensures TailUnset() == old(TailUnset())
      ensures tail == if old(spine) == [] then Last(spine, |spine|) else old(tail)
      ensures old(TailAtEnd()) ==> TailAtEnd() && if TailUnset() then Torn() else Valid()
      ensures old(spine) == [] || old(TailSound()) ==>
                Drainable() && Log(Due()) == if old(TailUnset()) then [] else Log(old(Due())) + [op]
      ensures old(history) <= history && |old(history)| <= shown < |history|
      ensures ShownSince(history[..shown], |old(history)|, cardinality, old(spine), producer, old(Nodes()))
      ensures ShownSince(history, shown, cardinality, spine, producer, Nodes())
      ensures headCount - |spine| == old(headCount - |spine|) && (old(Recorded()) ==> Recorded())
      ensures old(spine) == [] ==>
                && shown == |old(history)| + 5 && |history| == shown + 2
                && TailSince(history[..shown + 1], |old(history)|, old(tail)) && history[shown + 1] == Mem()
      ensures old(spine) != [] ==> TailSince(history, |old(history)|, old(tail))
    {
      ghost var was, nodes, due := spine, Nodes(), Due();
      RealAddresses();
      PushAppends(nodes, op, cardinality);
      shown := InsertNode(op);
      RealAddresses();
      if was == [] {
        ReachOf(spine, 1);
      } else if tail == NULL || tail in was {
        SameBehind(was, spine, tail);
        DueAfterInsertion(nodes, due, Nodes(), Due(), op, cardinality);
      }
    }

    /** The three branches. */
    method InsertNode(op: Op) returns (ghost shown: nat)
      requires Usable() && op.producer == producer
      modifies this
      ensures Usable() && PrevLinks(Mem(), spine) && Nodes() == Push(old(Nodes()), op, cardinality)
      ensures spine != [] && (if old(spine) == [] then |spine| == 1
                              else spine == old(spine) || spine[1..] == old(spine))
      ensures tail == if old(spine) == [] then Last(spine, |spine|) else old(tail)
      ensures old(history) <= history && |old(history)| <= shown < |history|
      ensures ShownSince(history[..shown], |old(history)|, cardinality, old(spine), producer, old(Nodes()))
      ensures ShownSince(history, shown, cardinality, spine, producer, Nodes())
      ensures headCount - |spine| == old(headCount - |spine|) && (old(Recorded()) ==> Recorded())
      ensures old(spine) == [] ==>
                && shown == |old(history)| + 5 && |history| == shown + 2
                && TailSince(history[..shown + 1], |old(history)|, old(tail)) && history[shown + 1] == Mem()
      ensures old(spine) != [] ==> TailSince(history, |old(history)|, old(tail))
    {
      assert Link(Mem(), cardinality, spine, 0);
      if head == NULL {
        shown := InsertFirst(op);
      } else if cells[head].count == cardinality {
        shown := InsertFront(op);
      } else {
        shown := InsertEntry(op);
      }
    }

    // ---------------------------------------------------------------- walks

    /** The entries of a node, one by one. */
    method NodeOps(c: Cell) returns (ops: seq<Op>)
      requires c.count <= |c.keys| == |c.isDelete| == |c.sequence|
      ensures ops == Entries(c, producer)
    {
      ops := [];
      for i := 0 to c.count
        invariant ops == Entries(c, producer)[..i]
      {
        ops := ops + [EntryAt(c, i, producer)];
      }
    }

    /** future_collect_nodes: every node that holds an entry, head first. */
    method CollectNodes() returns (nodes: seq<Node>)
      requires Walkable()
      ensures nodes == Nodes()
    {
      nodes := [];
      var current := head;
      ghost var i: nat := 0;
      while current != NULL
        invariant i <= |spine| && current == Target(spine, i) && nodes == Nodes()[..i]
        decreases |spine| - i
      {
        assert Link(Mem(), cardinality, spine, i);
        var ops := NodeOps(cells[current]);
        if ops != [] { nodes := nodes + [ops]; }
        current, i := cells[current].next, i + 1;
      }
      assert Link(Mem(), cardinality, spine, i);
    }

    /** future_collect_ops: from the head, each node oldest entry first; sorted, it is the log. */
    method CollectOps() returns (ops: seq<Op>)
      requires Walkable()
      ensures ops == Flatten(Nodes()) && (Ascending(Log(Nodes())) ==> SortOps(ops) == Log(Nodes()))
    {
      ops := [];
      var current := head;
      ghost var nodes := Nodes();
      ghost var i: nat := 0;
      while current != NULL
        invariant i <= |spine| && current == Target(spine, i) && ops == Flatten(nodes[..i])
        decreases |spine| - i
      {
        assert Link(Mem(), cardinality, spine, i);
        var more := NodeOps(cells[current]);
        FlattenSnoc(nodes, i);
        ops := ops + more;
        current, i := cells[current].next, i + 1;
      }
      assert Link(Mem(), cardinality, spine, i);
      assert nodes[..i] == nodes;
      if Ascending(Log(nodes)) { CollectedAndSortedIsLog(nodes); }
    }

    /** The newest entry of a node on the key, if any. */
    method LastInNode(c: Cell, key: int) returns (e: Option<Op>)
      requires c.count <= |c.keys| == |c.isDelete| == |c.sequence|
      ensures e == LastOf(Entries(c, producer), key)
    {
      ghost var node := Entries(c, producer);
      var j := c.count;
      assert node[..j] == node;
      while j > 0
        invariant j <= |node| && LastOf(node, key) == LastOf(node[..j], key)
      {
        assert node[..j][..j - 1] == node[..j - 1];
        j := j - 1;
        if c.keys[j] == key { return Some(EntryAt(c, j, producer)); }
      }
      e := None;
    }

    /** future_state: newest entry first, the first match decides. */
    method FutureState(key: int) returns (e: Option<Op>)
      requires Walkable()
      ensures e == LastOf(Log(Nodes()), key)
    {
      var current := head;
      ghost var nodes := Nodes();
      ghost var i: nat := 0;
      assert nodes[0..] == nodes;
      while current != NULL
        invariant i <= |spine| && current == Target(spine, i)
        invariant LastOf(Log(nodes), key) == LastOf(Log(nodes[i..]), key)
        decreases |spine| - i
      {
        assert Link(Mem(), cardinality, spine, i);
        LogFrom(nodes, i);
        LastOfConcat(Log(nodes[i + 1..]), nodes[i], key);
        e := LastInNode(cells[current], key);
        if e.Some? { return e; }
        current, i := cells[current].next, i + 1;
      }
      assert Link(Mem(), cardinality, spine, i);
      e := None;
    }

    /**
      The inner walk of future_latest_state and of the hash-directed lookup: head to tail, a match
      replaces the best one so far if its sequence is higher.
     */
    method Scan(key: int, best: Option<Op>) returns (e: Option<Op>)
      requires Walkable() && Ascending(Log(Nodes()))
      ensures e == Newer(best, LastOf(Log(Nodes()), key))
    {
      e := best;
      var current := head;
      ghost var nodes := Nodes();
      ghost var i: nat := 0;
      while current != NULL
        invariant i <= |spine| && current == Target(spine, i) && e == NewestOf(Flatten(nodes[..i]), key, best)
        decreases |spine| - i
      {
        assert Link(Mem(), cardinality, spine, i);
        FlattenSnoc(nodes, i);
        NewestOfConcat(Flatten(nodes[..i]), nodes[i], key, best);
        e := ScanNode(cells[current], key, e);
        current, i := cells[current].next, i + 1;
      }
      assert Link(Mem(), cardinality, spine, i);
      assert nodes[..i] == nodes;
      SameOperations(nodes);
      NewestIsLast(Flatten(nodes), Log(nodes), key, best);
    }

    method ScanNode(c: Cell, key: int, best: Option<Op>) returns (e: Option<Op>)
      requires c.count <= |c.keys| == |c.isDelete| == |c.sequence|
      ensures e == NewestOf(Entries(c, producer), key, best)
    {
      e := best;
      ghost var ops := Entries(c, producer);
      for i := 0 to c.count
        invariant e == NewestOf(ops[..i], key, best)
      {
        assert ops[..i + 1][..i] == ops[..i];
        if c.keys[i] == key && (e.None? || c.sequence[i] > e.value.sequence) {
          e := Some(EntryAt(c, i, producer));
        }
      }
      assert ops[..c.count] == ops;
    }

    /**
      future_clear_thread frees the nodes from the head on, and then resets both dummies. A crash can
      be recovered from only before the first node is freed and after the head is reset, and then the
      chain is empty.
     */
    method ClearThread()
      requires Walkable()
      modifies this
      ensures Valid() && Nodes() == [] && headCount == |spine| && (old(Recorded()) ==> Recorded())
      ensures old(history) <= history && |history| == |old(history)| + |old(spine)| + 2
      ensures forall t :: |old(history)| <= t < |history| ==> (CanWalk(history[t], cardinality) <==> t >= |history| - 2)
      ensures history[|history| - 2] == Memory(old(cells) - Freed(old(spine), 0, |old(spine)|), NULL, old(tail))
    {
      ghost var t := |history|;
      FreeNodes();
      spine := [];
      StoreHead(NULL);
      assert Forward(Mem(), cardinality, []);
      StoreTail(NULL);
      assert Forward(Mem(), cardinality, []);
      headCount := 0;
    }

    /** The loop: since position t no memory can be walked. */
    method FreeNodes()
      requires Walkable()
      modifies this`cells, this`history
      ensures AddressesOk() && old(history) <= history && |history| == |old(history)| + |spine|
              && (old(Recorded()) ==> Recorded())
      ensures NoneWalks(history, |old(history)|, cardinality) && cells == old(cells) - Freed(spine, 0, |spine|)
    {
      var current := head;
      ghost var m := Mem();
      ghost var i: nat := 0;
      assert m.cells - Freed(spine, 0, 0) == m.cells;
      while current != NULL
        invariant i <= |spine| && current == Target(spine, i) && cells == m.cells - Freed(spine, 0, i)
        invariant old(history) <= history && |history| == |old(history)| + i && (old(Recorded()) ==> Recorded())
        invariant NoneWalks(history, |old(history)|, cardinality)
        decreases |spine| - i
      {
        FreedNext(m, i);
        var next := cells[current].next;
        InterruptedDrainBreaksTheWalk(m, cardinality, spine, Freed(spine, 0, i + 1), tail);
        Free(current);
        current, i := next, i + 1;
      }
      LastTarget(m, i);
    }

    /** The walk has come to its end. */
    lemma LastTarget(m: Memory, i: nat)
      requires Forward(m, cardinality, spine) && i <= |spine| && Target(spine, i) == NULL
      ensures i == |spine|
    {
      assert Link(m, cardinality, spine, i);
    }

    /** One more node from the head. */
    lemma FreedNext(m: Memory, i: nat)
      requires Forward(m, cardinality, spine) && NoRepeats(spine) && i < |spine|
               && cells == m.cells - Freed(spine, 0, i)
      ensures spine[i] in cells && cells[spine[i]] == m.cells[spine[i]] && cells[spine[i]].next == Target(spine, i + 1)
      ensures m.cells - Freed(spine, 0, i) - {spine[i]} == m.cells - Freed(spine, 0, i + 1)
    {
      assert Link(m, cardinality, spine, i);
      assert spine[i] !in Freed(spine, 0, i);
      assert Freed(spine, 0, i + 1) == Freed(spine, 0, i) + {spine[i]};
    }

    /** A drain of the chain m, whose tail is its node number k, down to its first n nodes. */
    ghost predicate Draining(m: Memory, k: nat, n: nat)
      reads this
    {
      && AddressesOk() && Forward(m, cardinality, spine) && PrevLinks(m, spine) && n <= k <= |spine|
      && cells == m.cells - Freed(spine, n, k) && head == m.head && tail == Last(spine, n)
    }

    /**
      future_drain_thread_from_tail: the entries of the nodes from the tail to the head are applied,
      oldest first, each once, and the chain ends empty. On a consistent chain that is the whole log;
      on one whose tail was never set it is nothing; and on one that an earlier drain left, the rest. A
      crash can be recovered from only before the first node is freed and after the head is reset.
     */
    method DrainFromTail(tree: Copies) returns (result: Copies, applied: nat)
      requires Drainable()
      modifies this
      ensures Valid() && Nodes() == [] && headCount == |spine| && (old(Recorded()) ==> Recorded())
      ensures result == Replay(tree, Log(old(Due()))) && applied == |Log(old(Due()))|
      ensures old(history) < history
      ensures forall t :: |old(history)| <= t < |history| ==>
                (CanWalk(history[t], cardinality) <==> t == |old(history)| || t == |history| - 1)
      ensures old(tail) != NULL ==>
                && |history| >= |old(history)| + 3
                && history[|old(history)|] == old(Mem()).(tail := Last(old(spine), Reach(old(spine), old(tail)) - 1))
    {
      if tail != NULL {
        result, applied := DrainNodes(tree, Mem(), Reach(spine, tail), Due());
      } else {
        result, applied := tree, 0;
        UnsetIsNothingDue();
      }
      FinishDrain();
    }

    /** The reset of the dummy head. */
    method FinishDrain()
      requires AddressesOk() && tail == NULL
      modifies this`head, this`headCount, this`spine, this`history
      ensures Valid() && Nodes() == [] && headCount == |spine| && (old(Recorded()) ==> Recorded())
      ensures history == old(history) + [Mem()]
    {
      spine := [];
      StoreHead(NULL);
      assert Forward(Mem(), cardinality, []);
      headCount := 0;
    }

    /** Nothing is due exactly when the tail is unset. */
    lemma UnsetIsNothingDue()
      requires Walkable() && TailSound()
      ensures tail == NULL <==> Due() == []
    {
      RealAddresses();
    }

    /** A drain down to the first n nodes, since position t of the history. */
    ghost predicate Progress(tree: Copies, m: Memory, k: nat, nodes: seq<Node>, n: nat, result: Copies, applied: nat,
                             t: nat)
      reads this
    {
      && Draining(m, k, n) && Drained(tree, nodes, n, result, applied) && Since(m, k, n, t)
    }

    /** What the history holds since the drain began. */
    ghost predicate Since(m: Memory, k: nat, n: nat, t: nat)
      reads this
      requires k <= |spine|
    {
      && t <= |history| && |history| - t == 2 * (k - n) && OnlyFirstWalks(history, t, cardinality)
      && (n < k ==> history[t] == m.(tail := Last(spine, k - 1)))
    }

    /** The loop of the drain, which leaves the head alone. */
    method DrainNodes(tree: Copies, ghost m: Memory, ghost k: nat, ghost nodes: seq<Node>)
      returns (result: Copies, applied: nat)
      requires m == Mem() && 0 < k && Draining(m, k, k) && nodes == View(m, cardinality, spine, producer)[..k]
      modifies this`tail, this`headCount, this`cells, this`history
      ensures Progress(tree, m, k, nodes, 0, result, applied, |old(history)|) && old(history) <= history
      ensures old(Recorded()) ==> Recorded()
    {
      result, applied := tree, 0;
      ghost var n: nat := k;
      DrainStarts(tree, nodes);
      while tail != NULL
        invariant n <= k && tail == Last(spine, n) && old(history) <= history && (old(Recorded()) ==> Recorded())
        invariant Progress(tree, m, k, nodes, n, result, applied, |old(history)|)
        decreases n
      {
        result, applied := DrainNode(tree, m, k, nodes, n, result, applied, |old(history)|);
        n := n - 1;
      }
      LastIsReal(m, cardinality, spine, n);
    }

    method DrainNode(ghost tree: Copies, ghost m: Memory, ghost k: nat, ghost nodes: seq<Node>, ghost n: nat,
                     now: Copies, count: nat, ghost t: nat)
      returns (result: Copies, applied: nat)
      requires 0 < n <= k && Progress(tree, m, k, nodes, n, now, count, t)
               && nodes == View(m, cardinality, spine, producer)[..k]
      modifies this`tail, this`headCount, this`cells, this`history
      ensures Progress(tree, m, k, nodes, n - 1, result, applied, t) && old(history) <= history
      ensures old(Recorded()) ==> Recorded()
    {
      ghost var rest: nat := n - 1;
      DrainContinues(tree, nodes, rest, now, count);
      var ops := DrainTail(n, m, k, t);
      assert ops == nodes[rest];
      result := ReplayOps(now, ops);
      applied := count + |ops|;
    }

    /** Take the entries of the tail node, move the tail one node towards the head, and free the node. */
    method DrainTail(ghost n: nat, ghost m: Memory, ghost k: nat, ghost t: nat) returns (ops: Node)
      requires 0 < n <= k && Draining(m, k, n) && Since(m, k, n, t)
      modifies this`tail, this`headCount, this`cells, this`history
      ensures Draining(m, k, n - 1) && ops == View(m, cardinality, spine, producer)[n - 1]
      ensures old(history) < history && Since(m, k, n - 1, t) && (old(Recorded()) ==> Recorded())
    {
      TailNode(m, k, n);
      ops := NodeOps(cells[tail]);
      var nextTail := cells[tail].prev;
      if nextTail == DUMMY { nextTail := NULL; }
      var node := tail;
      InterruptedDrainBreaksTheWalk(m, cardinality, spine, Freed(spine, n, k), nextTail);
      StoreTail(nextTail);
      if headCount > 0 { headCount := headCount - 1; }
      InterruptedDrainBreaksTheWalk(m, cardinality, spine, Freed(spine, n - 1, k), nextTail);
      Free(node);
    }

    method Free(a: Addr)
      modifies this`cells, this`history
      ensures cells == old(cells) - {a} && history == old(history) + [Mem()]
      ensures old(Recorded()) ==> Recorded()
    {
      ghost var m := Mem();
      cells := cells - {a};
      assert NodeStored(m, Mem(), a, cardinality);
      StepwiseSnoc(start, history, cardinality, Mem());
      history := history + [Mem()];
    }

    /** Where a drain begins. */
    lemma DrainBegins()
      requires Drainable()
      ensures var k := |Due()|; Draining(Mem(), k, k) && Since(Mem(), k, k, |history|)
      ensures Due() == View(Mem(), cardinality, spine, producer)[..|Due()|]
    {
      RealAddresses();
      assert Freed(spine, Reach(spine, tail), Reach(spine, tail)) == {};
      assert cells == cells - {};
    }

    lemma DrainGoesOn(m: Memory, k: nat, n: nat)
      requires Draining(m, k, n) && tail != NULL
      ensures n > 0
    {
    }

    /** Where it ends. */
    lemma DrainEnds(m: Memory, k: nat, n: nat)
      requires Draining(m, k, n) && tail == NULL
      ensures n == 0
    {
      LastIsReal(m, cardinality, spine, n);
    }

    /** What the tail node is while n nodes are left. */
    lemma TailNode(m: Memory, k: nat, n: nat)
      requires 0 < n <= k && Draining(m, k, n)
      ensures tail in cells && cells[tail] == m.cells[spine[n - 1]] && CellOk(cells[tail], cardinality)
      ensures Entries(cells[tail], producer) == View(m, cardinality, spine, producer)[n - 1]
      ensures (if cells[tail].prev == DUMMY then NULL else cells[tail].prev) == Last(spine, n - 1)
      ensures m.cells - Freed(spine, n, k) - {tail} == m.cells - Freed(spine, n - 1, k)
      ensures n == k ==> m.cells - Freed(spine, n, k) == m.cells
    {
      assert Link(m, cardinality, spine, n - 1) && BackLink(m, spine, n - 1);
      if n > 1 { assert Link(m, cardinality, spine, n - 2); }
      assert Freed(spine, n - 1, k) == Freed(spine, n, k) + {spine[n - 1]};
      assert spine[n - 1] !in Freed(spine, n, k);
    }
  }

  /** apply_buffered_op for every entry of a node, oldest first. */
  method ReplayOps(tree: Copies, ops: seq<Op>) returns (result: Copies)
    ensures result == Replay(tree, ops)
  {
    result := tree;
    for i := 0 to |ops|
      invariant result == Replay(tree, ops[..i])
    {
      assert ops[..i + 1] == ops[..i] + [ops[i]] && [ops[i]][1..] == [];
      ReplayConcat(tree, ops[..i], [ops[i]]);
      result := Apply(result, ops[i]);
    }
    assert ops[..|ops|] == ops;
  }

  /** The nodes from position n to the tail have been applied. */
  ghost predicate Drained(tree: Copies, nodes: seq<Node>, n: nat, result: Copies, applied: nat) {
    n <= |nodes| && result == Replay(tree, Log(nodes[n..])) && applied == |Log(nodes[n..])|
  }

  lemma DrainStarts(tree: Copies, nodes: seq<Node>)
    ensures Drained(tree, nodes, |nodes|, tree, 0)
  {
  }

  /** One more node towards the head. */
  lemma DrainContinues(tree: Copies, nodes: seq<Node>, n: nat, result: Copies, applied: nat)
    requires n < |nodes| && Drained(tree, nodes, n + 1, result, applied)
    ensures Drained(tree, nodes, n, Replay(result, nodes[n]), applied + |nodes[n]|)
  {
    LogFrom(nodes, n);
    ReplayConcat(tree, Log(nodes[n + 1..]), nodes[n]);
  }

  lemma LogFrom(nodes: seq<Node>, n: nat)
    requires n < |nodes|
    ensures Log(nodes[n..]) == Log(nodes[n + 1..]) + nodes[n]
  {
    assert nodes[n..][1..] == nodes[n + 1..] && nodes[n..][0] == nodes[n];
  }

  lemma FlattenSnoc(nodes: seq<Node>, i: nat)
    requires i < |nodes|
    ensures Flatten(nodes[..i + 1]) == Flatten(nodes[..i]) + nodes[i]
  {
    assert nodes[..i + 1] == nodes[..i] + [nodes[i]];
    FlattenConcat(nodes[..i], [nodes[i]]);
    assert [nodes[i]][1..] == [] && nodes[i] + [] == nodes[i];
  }

  lemma {:induction false} LastOfConcat(a: seq<Op>, b: seq<Op>, key: int)
    ensures LastOf(a + b, key) == if LastOf(b, key).Some? then LastOf(b, key) else LastOf(a, key)
    decreases |b|
  {
    if b == [] {
      assert a + b == a;
    } else {
      var n := |b| - 1;
      assert (a + b)[..|a| + n] == a + b[..n];
      LastOfConcat(a, b[..n], key);
    }
  }

  lemma {:induction false} NewestOfConcat(a: seq<Op>, b: seq<Op>, key: int, best: Option<Op>)
    ensures NewestOf(a + b, key, best) == NewestOf(b, key, NewestOf(a, key, best))
    decreases |b|
  {
    if b == [] {
      assert a + b == a;
    } else {
      var n := |b| - 1;
      assert (a + b)[..|a| + n] == a + b[..n];
      NewestOfConcat(a, b[..n], key, best);
    }
  }

  // ---------------------------------------------------------------- the best entry of a walk

  /** The entry that a walk over ops ends up with, starting from best. */
  function NewestOf(ops: seq<Op>, key: int, best: Option<Op>): Option<Op> {
    if ops == [] then best
    else
      var n := |ops| - 1;
      var e := NewestOf(ops[..n], key, best);
      if ops[n].key == key && (e.None? || ops[n].sequence > e.value.sequence) then Some(ops[n]) else e
  }

  /** It is best itself, unless the walk meets a newer match. */
  lemma {:induction false} NewestOfIs(ops: seq<Op>, key: int, best: Option<Op>)
    ensures var e := NewestOf(ops, key, best);
            && (e == best || (e.Some? && e.value in ops && e.value.key == key
                              && (best.Some? ==> best.value.sequence < e.value.sequence)))
            && (forall o :: o in ops && o.key == key ==> e.Some? && o.sequence <= e.value.sequence)
            && (best.Some? ==> e.Some?)
  {
    if ops != [] {
      var n := |ops| - 1;
      NewestOfIs(ops[..n], key, best);
      assert ops == ops[..n] + [ops[n]];
    }
  }

  /** In whichever order the walk meets the operations of a log, the log's last match wins. */
  lemma NewestIsLast(ops: seq<Op>, log: seq<Op>, key: int, best: Option<Op>)
    requires multiset(ops) == multiset(log) && Ascending(log)
    ensures NewestOf(ops, key, best) == Newer(best, LastOf(log, key))
  {
    NewestOfIs(ops, key, best);
    LastIsLatest(log, key);
    var e, last := NewestOf(ops, key, best), LastOf(log, key);
    if e.Some? { SameMembers(ops, log, e.value); }
    if last.Some? {
      SameMembers(ops, log, last.value);
      if e != best {
        assert e.value.sequence == last.value.sequence;
        var i :| 0 <= i < |log| && log[i] == e.value;
        var j :| 0 <= j < |log| && log[j] == last.value;
      }
    }
  }
}
