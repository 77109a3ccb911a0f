/**
  A producer's PTFO chain as a list of nodes, head (newest) first, and the orders in which the code
  visits its operations: collecting walks from the head, draining walks from the tail.
 */
module ChainLists {
  import opened Ops

  /** The entries of one future_Node, oldest first. */
  type Node = seq<Op>

  /** future_insert: a first node, a new head when the head is full, or one more entry in the head. */
  function Push(nodes: seq<Node>, op: Op, capacity: nat): seq<Node> {
    if nodes == [] then [[op]]
    else if |nodes[0]| == capacity then [[op]] + nodes
    else [nodes[0] + [op]] + nodes[1..]
  }

  /** Tail to head: the order of insertion. */
  function Log(nodes: seq<Node>): seq<Op> {
    if nodes == [] then [] else Log(nodes[1..]) + nodes[0]
  }

  /** Head to tail, each node oldest first: the order of future_collect_ops. */
  function Flatten(nodes: seq<Node>): seq<Op> {
    if nodes == [] then [] else nodes[0] + Flatten(nodes[1..])
  }

  /** The chain is an append log in all three branches. */
  lemma PushAppends(nodes: seq<Node>, op: Op, capacity: nat)
    ensures Log(Push(nodes, op, capacity)) == Log(nodes) + [op]
  {
    if nodes == [] {
      assert Push(nodes, op, capacity)[1..] == [];
    } else if |nodes[0]| == capacity {
      assert ([[op]] + nodes)[1..] == nodes;
    } else {
      assert ([nodes[0] + [op]] + nodes[1..])[1..] == nodes[1..];
      assert Log(nodes[1..]) + (nodes[0] + [op]) == Log(nodes) + [op];
    }
  }

  /** Every node holds something, and all but the head are full. */
  ghost predicate Packed(nodes: seq<Node>, capacity: nat) {
    && (forall i :: 0 <= i < |nodes| ==> 0 < |nodes[i]| <= capacity)
    && forall i :: 0 < i < |nodes| ==> |nodes[i]| == capacity
  }

  lemma PushPacks(nodes: seq<Node>, op: Op, capacity: nat)
    requires capacity > 0 && Packed(nodes, capacity)
    ensures Packed(Push(nodes, op, capacity), capacity)
  {
  }

  lemma {:induction false} FullNodes(nodes: seq<Node>, capacity: nat)
    requires forall i :: 0 <= i < |nodes| ==> |nodes[i]| == capacity
    ensures |Log(nodes)| == |nodes| * capacity
  {
    if nodes != [] {
      FullNodes(nodes[1..], capacity);
      assert (|nodes| - 1) * capacity + capacity == |nodes| * capacity;
    }
  }

  /** A packed chain takes as many nodes as its operations need, and no more. */
  lemma FewestNodes(nodes: seq<Node>, capacity: nat)
    requires nodes != [] && Packed(nodes, capacity)
    ensures (|nodes| - 1) * capacity < |Log(nodes)| <= |nodes| * capacity
  {
    FullNodes(nodes[1..], capacity);
    assert (|nodes| - 1) * capacity + capacity == |nodes| * capacity;
  }

  /** The oldest node's operations come first. */
  lemma {:induction false} LogLast(nodes: seq<Node>)
    requires nodes != []
    ensures Log(nodes) == nodes[|nodes| - 1] + Log(nodes[..|nodes| - 1])
  {
    var n := |nodes| - 1;
    if n == 0 {
      assert nodes[1..] == [] && Log(nodes) == [] + nodes[0];
      assert nodes[..0] == [] && nodes[0] + [] == nodes[0];
    } else {
      LogLast(nodes[1..]);
      assert nodes[1..][..n - 1] == nodes[..n][1..];
      assert Log(nodes) == nodes[n] + Log(nodes[..n][1..]) + nodes[0];
      assert nodes[n] + (Log(nodes[..n][1..]) + nodes[0]) == nodes[n] + Log(nodes[..n][1..]) + nodes[0];
    }
  }

  lemma {:induction false} FlattenConcat(a: seq<Node>, b: seq<Node>)
    ensures Flatten(a + b) == Flatten(a) + Flatten(b)
  {
    if a == [] {
      assert a + b == b;
    } else {
      assert (a + b)[1..] == a[1..] + b;
      FlattenConcat(a[1..], b);
      assert a[0] + (Flatten(a[1..]) + Flatten(b)) == Flatten(a) + Flatten(b);
    }
  }

  /** Both walks meet the same operations. */
  lemma {:induction false} SameOperations(nodes: seq<Node>)
    ensures multiset(Flatten(nodes)) == multiset(Log(nodes))
  {
    if nodes != [] {
      SameOperations(nodes[1..]);
    }
  }

  // ---------------------------------------------------------------- sorting by sequence

  /** The comparator of the replay sort: by sequence, then by producer. */
  predicate Before(a: Op, b: Op) {
    a.sequence < b.sequence || (a.sequence == b.sequence && a.producer < b.producer)
  }

  function InsertSorted(ops: seq<Op>, op: Op): seq<Op> {
    if ops == [] || Before(op, ops[0]) then [op] + ops else [ops[0]] + InsertSorted(ops[1..], op)
  }

  /** std::sort with that comparator; with distinct sequences its result is unique. */
  function SortOps(ops: seq<Op>): seq<Op> {
    if ops == [] then [] else InsertSorted(SortOps(ops[1..]), ops[0])
  }

  lemma {:induction false} InsertSortedMultiset(ops: seq<Op>, op: Op)
    ensures multiset(InsertSorted(ops, op)) == multiset(ops) + multiset{op}
  {
    if ops != [] && !Before(op, ops[0]) {
      InsertSortedMultiset(ops[1..], op);
      assert ops == [ops[0]] + ops[1..];
    }
  }

  lemma {:induction false} SortPermutes(ops: seq<Op>)
    ensures multiset(SortOps(ops)) == multiset(ops)
  {
    if ops != [] {
      SortPermutes(ops[1..]);
      InsertSortedMultiset(SortOps(ops[1..]), ops[0]);
      assert ops == [ops[0]] + ops[1..];
    }
  }

  lemma {:induction false} InsertSortedAscends(ops: seq<Op>, op: Op)
    requires Ascending(ops) && forall o :: o in ops ==> o.sequence != op.sequence
    ensures Ascending(InsertSorted(ops, op))
  {
    if ops != [] && !Before(op, ops[0]) {
      InsertSortedAscends(ops[1..], op);
      InsertSortedMultiset(ops[1..], op);
      var rest := InsertSorted(ops[1..], op);
      forall o | o in rest ensures ops[0].sequence < o.sequence {
        assert o in multiset(rest);
        assert o == op || o in multiset(ops[1..]);
      }
    }
  }

  lemma {:induction false} SortAscends(ops: seq<Op>)
    requires UniqueSeqs(ops)
    ensures Ascending(SortOps(ops))
  {
    if ops != [] {
      SortAscends(ops[1..]);
      SortPermutes(ops[1..]);
      forall o | o in SortOps(ops[1..]) ensures o.sequence != ops[0].sequence {
        assert o in multiset(ops[1..]);
        var i :| 0 <= i < |ops[1..]| && ops[1..][i] == o;
        assert ops[i + 1] == o;
      }
      InsertSortedAscends(SortOps(ops[1..]), ops[0]);
    }
  }

  lemma HeadIsLeast(a: seq<Op>, o: Op)
    requires Ascending(a) && o in multiset(a)
    ensures a != [] && (o == a[0] || a[0].sequence < o.sequence)
  {
    var j :| 0 <= j < |a| && a[j] == o;
  }

  lemma TailMultiset(a: seq<Op>)
    requires a != []
    ensures multiset(a[1..]) == multiset(a) - multiset{a[0]} && a[0] in multiset(a)
  {
    assert a == [a[0]] + a[1..];
  }

  lemma SameLength(a: seq<Op>, b: seq<Op>)
    requires multiset(a) == multiset(b)
    ensures |a| == |b|
  {
    assert |multiset(a)| == |a| && |multiset(b)| == |b|;
  }

  lemma SameHead(a: seq<Op>, b: seq<Op>)
    requires Ascending(a) && Ascending(b) && multiset(a) == multiset(b) && a != [] && b != []
    ensures a[0] == b[0]
  {
    TailMultiset(a);
    TailMultiset(b);
    HeadIsLeast(b, a[0]);
    HeadIsLeast(a, b[0]);
  }

  /** Two ascending lists of the same operations are equal. */
  lemma {:induction false} AscendingUnique(a: seq<Op>, b: seq<Op>)
    requires Ascending(a) && Ascending(b) && multiset(a) == multiset(b)
    ensures a == b
    decreases |a|
  {
    SameLength(a, b);
    if a != [] {
      SameHead(a, b);
      SameTails(a, b);
      AscendingUnique(a[1..], b[1..]);
      assert a == [a[0]] + a[1..] && b == [b[0]] + b[1..];
    }
  }

  lemma SameTails(a: seq<Op>, b: seq<Op>)
    requires Ascending(a) && Ascending(b) && multiset(a) == multiset(b) && a != [] && b != [] && a[0] == b[0]
    ensures Ascending(a[1..]) && Ascending(b[1..]) && multiset(a[1..]) == multiset(b[1..])
  {
    TailMultiset(a);
    TailMultiset(b);
  }

  /** Collecting from the head and sorting by sequence gives back the log. */
  lemma CollectedAndSortedIsLog(nodes: seq<Node>)
    requires Ascending(Log(nodes))
    ensures SortOps(Flatten(nodes)) == Log(nodes)
  {
    SameOperations(nodes);
    SortPermutes(Flatten(nodes));
    PermutedUnique(Log(nodes), Flatten(nodes));
    SortAscends(Flatten(nodes));
    AscendingUnique(SortOps(Flatten(nodes)), Log(nodes));
  }

  lemma {:induction false} PermutedUnique(a: seq<Op>, b: seq<Op>)
    requires UniqueSeqs(a) && multiset(a) == multiset(b)
    ensures UniqueSeqs(b)
  {
    forall i, j | 0 <= i < j < |b| ensures b[i].sequence != b[j].sequence {
      if b[i].sequence == b[j].sequence {
        assert b[i] in multiset(a) && b[j] in multiset(a);
        var x :| 0 <= x < |a| && a[x] == b[i];
        var y :| 0 <= y < |a| && a[y] == b[j];
        assert x == y;
        TwiceInSeq(b, i, j);
        OnceInSeq(a, x);
      }
    }
  }

  lemma TwiceInSeq(b: seq<Op>, i: nat, j: nat)
    requires i < j < |b| && b[i] == b[j]
    ensures multiset(b)[b[i]] >= 2
  {
    assert b == b[..i] + [b[i]] + b[i + 1..j] + [b[j]] + b[j + 1..];
  }

  lemma OnceInSeq(a: seq<Op>, x: nat)
    requires UniqueSeqs(a) && x < |a|
    ensures multiset(a)[a[x]] == 1
  {
    var l, r := a[..x], a[x + 1..];
    assert a == l + [a[x]] + r;
    assert a[x] !in l && a[x] !in r;
  }
}
