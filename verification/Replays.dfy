/**
  The three replay policies of a drain, as what each applies to the tree and in which order, and what
  that leaves of every key.
 */
module Replays {
  import opened Ops
  import opened ChainLists

  /** The buffered operations of all producers: chains[p] is producer p's chain, head node first. */
  type Chains = seq<seq<Node>>

  ghost predicate InRange(chains: Chains, ids: seq<nat>) {
    forall i :: 0 <= i < |ids| ==> ids[i] < |chains|
  }

  // ---------------------------------------------------------------- which operation decides a key

  function Newer(d: Option<Op>, e: Option<Op>): Option<Op> {
    if e.None? then d else if d.None? || d.value.sequence < e.value.sequence then e else d
  }

  /** The newest operation on k in any chain; ties, which cannot occur, go to the lower producer. */
  function Deciding(chains: Chains, k: int): Option<Op> {
    if chains == [] then None
    else Newer(Deciding(chains[..|chains| - 1], k), LastOf(Log(chains[|chains| - 1]), k))
  }

  /** contains(k): the newest buffered operation decides, and without one the tree does. */
  predicate Visible(t: Copies, chains: Chains, k: int) {
    match Deciding(chains, k)
    case Some(op) => !op.isDelete
    case None => k in t
  }

  lemma {:induction false} DecidingAgrees(a: Chains, b: Chains, k: int)
    requires |a| == |b| && forall p :: 0 <= p < |a| ==> LastOf(Log(a[p]), k) == LastOf(Log(b[p]), k)
    ensures Deciding(a, k) == Deciding(b, k)
  {
    if a != [] {
      var n := |a| - 1;
      forall p | 0 <= p < n ensures LastOf(Log(a[..n][p]), k) == LastOf(Log(b[..n][p]), k) {
        assert a[..n][p] == a[p] && b[..n][p] == b[p];
      }
      DecidingAgrees(a[..n], b[..n], k);
    }
  }

  /** It is the last operation of some chain, and no chain ends in a newer one. */
  lemma {:induction false} DecidingIsNewest(chains: Chains, k: int)
    ensures Deciding(chains, k) == None <==> forall p :: 0 <= p < |chains| ==> LastOf(Log(chains[p]), k) == None
    ensures Deciding(chains, k).Some? ==>
            exists p :: 0 <= p < |chains| && LastOf(Log(chains[p]), k) == Deciding(chains, k)
    ensures forall p :: 0 <= p < |chains| && LastOf(Log(chains[p]), k).Some? ==>
              Deciding(chains, k).Some?
              && LastOf(Log(chains[p]), k).value.sequence <= Deciding(chains, k).value.sequence
  {
    if chains != [] {
      var n := |chains| - 1;
      DecidingIsNewest(chains[..n], k);
      var d, e := Deciding(chains[..n], k), LastOf(Log(chains[n]), k);
      assert forall p :: 0 <= p < n ==> chains[..n][p] == chains[p];
      forall p | 0 <= p < |chains| && LastOf(Log(chains[p]), k).Some?
        ensures Deciding(chains, k).Some?
                && LastOf(Log(chains[p]), k).value.sequence <= Deciding(chains, k).value.sequence
      {
        if p < n { assert chains[..n][p] == chains[p]; }
      }
      if d.Some? {
        var p :| 0 <= p < |chains[..n]| && LastOf(Log(chains[..n][p]), k) == d;
        assert LastOf(Log(chains[p]), k) == d;
      }
      if Deciding(chains, k) == None {
        forall p | 0 <= p < |chains| ensures LastOf(Log(chains[p]), k) == None {
          if p < n { assert chains[..n][p] == chains[p]; }
        }
      }
    }
  }

  // ---------------------------------------------------------------- key-partitioned replay (F3-K)

  /** Producer by producer, each from the tail. */
  function LogsOf(chains: Chains, ids: seq<nat>): seq<Op>
    requires forall i :: 0 <= i < |ids| ==> ids[i] < |chains|
  {
    if ids == [] then [] else Log(chains[ids[0]]) + LogsOf(chains, ids[1..])
  }

  /** At most producer p, among those replayed, has operations on k. */
  ghost predicate OnlyProducer(chains: Chains, ids: seq<nat>, k: int, p: nat)
    requires InRange(chains, ids)
  {
    forall i :: 0 <= i < |ids| && ids[i] != p ==> !Touches(Log(chains[ids[i]]), k)
  }

  ghost predicate Distinct(ids: seq<nat>) {
    forall i, j :: 0 <= i < j < |ids| ==> ids[i] != ids[j]
  }

  /** The order in which the loops over all producers visit them. */
  ghost predicate Upward(ids: seq<nat>) {
    forall i, j :: 0 <= i < j < |ids| ==> ids[i] < ids[j]
  }

  lemma UpwardSnoc(ids: seq<nat>, p: nat)
    requires Upward(ids) && forall q :: q in ids ==> q < p
    ensures Upward(ids + [p])
  {
    forall i, j | 0 <= i < j < |ids + [p]| ensures (ids + [p])[i] < (ids + [p])[j] {
      if j == |ids| { assert ids[i] in ids; }
    }
  }

  /** A key of one producer sees that producer's log. */
  lemma {:induction false} LogsOfKey(chains: Chains, ids: seq<nat>, k: int, p: nat)
    requires InRange(chains, ids) && Distinct(ids) && OnlyProducer(chains, ids, k, p) && p < |chains|
    ensures For(LogsOf(chains, ids), k) == if p in ids then For(Log(chains[p]), k) else []
  {
    if ids != [] {
      LogsOfKey(chains, ids[1..], k, p);
      ForConcat(Log(chains[ids[0]]), LogsOf(chains, ids[1..]), k);
      ForNothing(Log(chains[ids[0]]), k);
      if ids[0] == p { assert p !in ids[1..]; }
    }
  }

  // ---------------------------------------------------------------- sequence-ordered replay

  function NodesOf(chains: Chains, ids: seq<nat>): seq<Node>
    requires forall i :: 0 <= i < |ids| ==> ids[i] < |chains|
  {
    if ids == [] then [] else chains[ids[0]] + NodesOf(chains, ids[1..])
  }

  lemma {:induction false} NodesOfMember(chains: Chains, ids: seq<nat>, i: nat) returns (p: nat)
    requires InRange(chains, ids) && i < |NodesOf(chains, ids)|
    ensures p in ids && p < |chains| && NodesOf(chains, ids)[i] in chains[p]
  {
    if i < |chains[ids[0]]| {
      p := ids[0];
    } else {
      p := NodesOfMember(chains, ids[1..], i - |chains[ids[0]]|);
    }
  }

  lemma {:induction false} CollectedOperations(chains: Chains, ids: seq<nat>)
    requires InRange(chains, ids)
    ensures multiset(Flatten(NodesOf(chains, ids))) == multiset(LogsOf(chains, ids))
  {
    if ids != [] {
      CollectedOperations(chains, ids[1..]);
      FlattenConcat(chains[ids[0]], NodesOf(chains, ids[1..]));
      SameOperations(chains[ids[0]]);
    }
  }

  lemma {:induction false} ForMultiset(ops: seq<Op>, k: int, o: Op)
    ensures multiset(For(ops, k))[o] == if o.key == k then multiset(ops)[o] else 0
  {
    if ops != [] {
      ForMultiset(ops[1..], k, o);
      assert ops == [ops[0]] + ops[1..];
    }
  }

  lemma {:induction false} ForAscends(ops: seq<Op>, k: int)
    requires Ascending(ops)
    ensures Ascending(For(ops, k))
  {
    if ops != [] {
      ForAscends(ops[1..], k);
      forall o | o in For(ops[1..], k) ensures ops[0].sequence < o.sequence {
        ForMembers(ops[1..], k, o);
        var i :| 0 <= i < |ops[1..]| && ops[1..][i] == o;
        assert ops[i + 1] == o;
      }
    }
  }

  /** Sorting only depends on which operations there are: each key sees its own, in sequence order. */
  lemma SortedKey(ops: seq<Op>, log: seq<Op>, k: int)
    requires UniqueSeqs(ops) && Ascending(log)
    requires multiset(For(ops, k)) == multiset(log)
    ensures For(SortOps(ops), k) == log
  {
    SortAscends(ops);
    SortPermutes(ops);
    ForAscends(SortOps(ops), k);
    forall o ensures multiset(For(SortOps(ops), k))[o] == multiset(For(ops, k))[o] {
      ForMultiset(SortOps(ops), k, o);
      ForMultiset(ops, k, o);
    }
    AscendingUnique(For(SortOps(ops), k), log);
  }

  /** All sequences are distinct, and ascend along every chain. */
  ghost predicate Sequenced(chains: Chains, ids: seq<nat>)
    requires InRange(chains, ids)
  {
    && UniqueSeqs(LogsOf(chains, ids))
    && forall i :: 0 <= i < |ids| ==> Ascending(Log(chains[ids[i]]))
  }

  lemma SortedReplayKey(chains: Chains, ids: seq<nat>, k: int, p: nat)
    requires InRange(chains, ids) && Distinct(ids) && Sequenced(chains, ids)
    requires p < |chains| && OnlyProducer(chains, ids, k, p)
    ensures For(SortOps(Flatten(NodesOf(chains, ids))), k) == if p in ids then For(Log(chains[p]), k) else []
  {
    var ops, logs := Flatten(NodesOf(chains, ids)), LogsOf(chains, ids);
    CollectedOperations(chains, ids);
    PermutedUnique(logs, ops);
    LogsOfKey(chains, ids, k, p);
    forall o ensures multiset(For(ops, k))[o] == multiset(For(logs, k))[o] {
      ForMultiset(ops, k, o);
      ForMultiset(logs, k, o);
    }
    if p in ids {
      var i :| 0 <= i < |ids| && ids[i] == p;
      ForAscends(Log(chains[p]), k);
    }
    SortedKey(ops, For(logs, k), k);
  }

  /**
    When no two producers buffer the same key, replaying producer by producer from the tail leaves the
    same copies of every key as replaying everything in sequence order.
   */
  lemma PartitionedEqualsSequenced(t: Copies, chains: Chains, ids: seq<nat>)
    requires InRange(chains, ids) && Distinct(ids) && Sequenced(chains, ids)
    requires forall k, i, j :: 0 <= i < j < |ids| ==>
               !Touches(Log(chains[ids[i]]), k) || !Touches(Log(chains[ids[j]]), k)
    ensures Replay(t, LogsOf(chains, ids)) == Replay(t, SortOps(Flatten(NodesOf(chains, ids))))
  {
    var a, b := LogsOf(chains, ids), SortOps(Flatten(NodesOf(chains, ids)));
    forall k ensures Replay(t, a)[k] == Replay(t, b)[k] {
      ReplayCopies(t, a, k);
      ReplayCopies(t, b, k);
      if ids == [] {
      } else {
        var p := if exists i :: 0 <= i < |ids| && Touches(Log(chains[ids[i]]), k)
                 then (var i :| 0 <= i < |ids| && Touches(Log(chains[ids[i]]), k); ids[i]) else ids[0];
        assert OnlyProducer(chains, ids, k, p);
        LogsOfKey(chains, ids, k, p);
        SortedReplayKey(chains, ids, k, p);
      }
    }
  }

  // ---------------------------------------------------------------- node-ordered replay (F3-N)

  /** A lookup directory: for every buffered key, the operation recorded last. */
  type Directory = map<int, Op>

  /** The directory agrees with the chain it indexes. */
  ghost predicate DirectoryOf(dir: Directory, log: seq<Op>) {
    forall k {:trigger k in dir} {:trigger LastOf(log, k)} ::
      LastOf(log, k) == if k in dir then Some(dir[k]) else None
  }

  /** collect_latest_lookup_entries: per key, the entry with the highest sequence over all directories. */
  function Merged(dirs: seq<Directory>): Directory {
    if dirs == [] then map[]
    else MergeTwo(Merged(dirs[..|dirs| - 1]), dirs[|dirs| - 1])
  }

  function MergeTwo(a: Directory, b: Directory): Directory {
    map k | k in a.Keys + b.Keys ::
      if k !in b then a[k] else if k !in a || a[k].sequence < b[k].sequence then b[k] else a[k]
  }

  /** With directories that agree with the chains, the merged entry is the deciding operation. */
  lemma {:induction false} MergedDecides(dirs: seq<Directory>, chains: Chains, k: int)
    requires |dirs| == |chains| && forall p :: 0 <= p < |dirs| ==> DirectoryOf(dirs[p], Log(chains[p]))
    ensures Deciding(chains, k) == if k in Merged(dirs) then Some(Merged(dirs)[k]) else None
  {
    if dirs != [] {
      var n := |dirs| - 1;
      forall p | 0 <= p < n ensures DirectoryOf(dirs[..n][p], Log(chains[..n][p])) {
        assert dirs[..n][p] == dirs[p] && chains[..n][p] == chains[p];
      }
      MergedDecides(dirs[..n], chains[..n], k);
      assert DirectoryOf(dirs[n], Log(chains[n]));
      assert LastOf(Log(chains[n]), k) == if k in dirs[n] then Some(dirs[n][k]) else None;
    }
  }

  predicate NodeBefore(a: Node, b: Node) {
    a != [] && b != [] &&
    (a[0].sequence < b[0].sequence || (a[0].sequence == b[0].sequence && a[0].producer < b[0].producer))
  }

  function InsertNode(nodes: seq<Node>, node: Node): seq<Node> {
    if nodes == [] || NodeBefore(node, nodes[0]) then [node] + nodes else [nodes[0]] + InsertNode(nodes[1..], node)
  }

  /** The nodes ordered by their first sequence. */
  function SortNodes(nodes: seq<Node>): seq<Node> {
    if nodes == [] then [] else InsertNode(SortNodes(nodes[1..]), nodes[0])
  }

  lemma {:induction false} InsertNodeOps(nodes: seq<Node>, node: Node)
    ensures multiset(Flatten(InsertNode(nodes, node))) == multiset(Flatten(nodes)) + multiset(node)
  {
    if nodes == [] || NodeBefore(node, nodes[0]) {
      assert ([node] + nodes)[1..] == nodes;
    } else {
      InsertNodeOps(nodes[1..], node);
      assert ([nodes[0]] + InsertNode(nodes[1..], node))[1..] == InsertNode(nodes[1..], node);
    }
  }

  lemma {:induction false} SortNodesOps(nodes: seq<Node>)
    ensures multiset(Flatten(SortNodes(nodes))) == multiset(Flatten(nodes))
  {
    if nodes != [] {
      SortNodesOps(nodes[1..]);
      InsertNodeOps(SortNodes(nodes[1..]), nodes[0]);
    }
  }

  /** a begins with a lower sequence than b, or with the same one and no later producer. */
  ghost predicate BeginsBefore(a: Node, b: Node)
    requires a != [] && b != []
  {
    a[0].sequence < b[0].sequence || (a[0].sequence == b[0].sequence && a[0].producer <= b[0].producer)
  }

  /** No node is empty, and they come in the order in which they begin. */
  ghost predicate FirstsAscend(nodes: seq<Node>) {
    && (forall i :: 0 <= i < |nodes| ==> nodes[i] != [])
    && forall i, j {:trigger BeginsBefore(nodes[i], nodes[j])} ::
         0 <= i < j < |nodes| ==> BeginsBefore(nodes[i], nodes[j])
  }

  lemma {:induction false} InsertNodeMultiset(nodes: seq<Node>, node: Node)
    ensures multiset(InsertNode(nodes, node)) == multiset(nodes) + multiset{node}
  {
    if nodes != [] && !NodeBefore(node, nodes[0]) {
      InsertNodeMultiset(nodes[1..], node);
      assert nodes == [nodes[0]] + nodes[1..];
    }
  }

  lemma {:induction false} InsertNodeAscends(nodes: seq<Node>, node: Node)
    requires FirstsAscend(nodes) && node != []
    ensures FirstsAscend(InsertNode(nodes, node))
  {
    if nodes == [] {
      assert InsertNode(nodes, node) == [node];
    } else if NodeBefore(node, nodes[0]) {
      forall j | 0 <= j < |nodes| ensures BeginsBefore(node, nodes[j]) {
        assert j == 0 || BeginsBefore(nodes[0], nodes[j]);
      }
      AscendFrom(node, nodes);
    } else {
      var rest := InsertNode(nodes[1..], node);
      forall i, j | 0 <= i < j < |nodes[1..]| ensures BeginsBefore(nodes[1..][i], nodes[1..][j]) {
        assert BeginsBefore(nodes[i + 1], nodes[j + 1]);
      }
      InsertNodeAscends(nodes[1..], node);
      InsertNodeMultiset(nodes[1..], node);
      forall j | 0 <= j < |rest| ensures BeginsBefore(nodes[0], rest[j]) {
        assert rest[j] in multiset(rest);
        if rest[j] != node {
          assert rest[j] in nodes[1..];
          var x :| 0 <= x < |nodes[1..]| && nodes[1..][x] == rest[j];
          assert BeginsBefore(nodes[0], nodes[x + 1]);
        }
      }
      AscendFrom(nodes[0], rest);
    }
  }

  lemma AscendFrom(node: Node, rest: seq<Node>)
    requires node != [] && FirstsAscend(rest) && forall j :: 0 <= j < |rest| ==> BeginsBefore(node, rest[j])
    ensures FirstsAscend([node] + rest)
  {
    var all := [node] + rest;
    forall i, j | 0 <= i < j < |all| ensures BeginsBefore(all[i], all[j]) {
      if i > 0 { assert BeginsBefore(rest[i - 1], rest[j - 1]); }
    }
  }

  /** The same nodes, in the order of their first sequences. */
  lemma {:induction false} SortNodesAscends(nodes: seq<Node>)
    requires forall i :: 0 <= i < |nodes| ==> nodes[i] != []
    ensures FirstsAscend(SortNodes(nodes)) && multiset(SortNodes(nodes)) == multiset(nodes)
  {
    if nodes != [] {
      SortNodesAscends(nodes[1..]);
      InsertNodeAscends(SortNodes(nodes[1..]), nodes[0]);
      InsertNodeMultiset(SortNodes(nodes[1..]), nodes[0]);
      assert nodes == [nodes[0]] + nodes[1..];
    }
  }

  /** is_latest_buffered_op: same key, same sequence, same kind. */
  predicate IsLatestEntry(op: Op, latest: Directory) {
    op.key in latest && latest[op.key].sequence == op.sequence && latest[op.key].isDelete == op.isDelete
  }

  /** The operations that survive the drain-start snapshot. */
  function KeepLatest(ops: seq<Op>, latest: Directory): seq<Op> {
    if ops == [] then []
    else if IsLatestEntry(ops[0], latest) then [ops[0]] + KeepLatest(ops[1..], latest)
    else KeepLatest(ops[1..], latest)
  }

  /** What a node-ordered replay applies. */
  function NodeOrdered(chains: Chains, ids: seq<nat>, dirs: seq<Directory>): seq<Op>
    requires forall i :: 0 <= i < |ids| ==> ids[i] < |chains|
  {
    KeepLatest(Flatten(SortNodes(NodesOf(chains, ids))), Merged(dirs))
  }

  /** x comes before y. */
  ghost predicate Precedes(ops: seq<Op>, x: Op, y: Op) {
    exists u, v :: 0 <= u < v < |ops| && ops[u] == x && ops[v] == y
  }

  /** x comes from an earlier node than y, or from an earlier place of the same node. */
  ghost predicate InNodeOrder(nodes: seq<Node>, x: Op, y: Op) {
    exists p, q :: 0 <= p <= q < |nodes| && x in nodes[p] && y in nodes[q] && (p == q ==> Precedes(nodes[p], x, y))
  }

  /** The operations come node by node, in the order in which the nodes begin, and in their own order inside of each. */
  ghost predicate OrderedByNodes(ops: seq<Op>, nodes: seq<Node>) {
    exists sorted: seq<Node> {:trigger FirstsAscend(sorted)} ::
      && multiset(sorted) == multiset(nodes) && FirstsAscend(sorted)
      && forall i, j :: 0 <= i < j < |ops| ==> InNodeOrder(sorted, ops[i], ops[j])
  }

  lemma {:induction false} KeepLatestOrder(ops: seq<Op>, latest: Directory, i: nat, j: nat)
    requires i < j < |KeepLatest(ops, latest)|
    ensures Precedes(ops, KeepLatest(ops, latest)[i], KeepLatest(ops, latest)[j])
  {
    var r := KeepLatest(ops, latest);
    if IsLatestEntry(ops[0], latest) {
      if i > 0 {
        KeepLatestOrder(ops[1..], latest, i - 1, j - 1);
        PrecedesBehind(ops, r[i], r[j]);
      } else {
        KeptMember(ops[1..], latest, j - 1);
        var v :| 0 <= v < |ops[1..]| && ops[1..][v] == r[j];
        assert ops[0] == r[i] && ops[v + 1] == r[j];
      }
    } else {
      KeepLatestOrder(ops[1..], latest, i, j);
      PrecedesBehind(ops, r[i], r[j]);
    }
  }

  lemma PrecedesBehind(ops: seq<Op>, x: Op, y: Op)
    requires ops != [] && Precedes(ops[1..], x, y)
    ensures Precedes(ops, x, y)
  {
    var u, v :| 0 <= u < v < |ops[1..]| && ops[1..][u] == x && ops[1..][v] == y;
    assert ops[u + 1] == x && ops[v + 1] == y;
  }

  lemma {:induction false} KeptMember(ops: seq<Op>, latest: Directory, i: nat)
    requires i < |KeepLatest(ops, latest)|
    ensures KeepLatest(ops, latest)[i] in ops
  {
    if IsLatestEntry(ops[0], latest) {
      if i > 0 { KeptMember(ops[1..], latest, i - 1); }
    } else {
      KeptMember(ops[1..], latest, i);
    }
  }

  lemma {:induction false} KeepLatestConcat(a: seq<Op>, b: seq<Op>, latest: Directory)
    ensures KeepLatest(a + b, latest) == KeepLatest(a, latest) + KeepLatest(b, latest)
  {
    if a == [] {
      assert a + b == b;
    } else {
      assert (a + b)[1..] == a[1..] + b;
      KeepLatestConcat(a[1..], b, latest);
    }
  }

  /** Filtering keeps the order of the nodes, and the order inside of every node. */
  lemma {:induction false} FilteredInNodeOrder(nodes: seq<Node>, latest: Directory, i: nat, j: nat)
    requires i < j < |KeepLatest(Flatten(nodes), latest)|
    ensures var r := KeepLatest(Flatten(nodes), latest); InNodeOrder(nodes, r[i], r[j])
    decreases |nodes|
  {
    var r, n := KeepLatest(Flatten(nodes), latest), |KeepLatest(nodes[0], latest)|;
    KeepLatestConcat(nodes[0], Flatten(nodes[1..]), latest);
    if j < n {
      KeepLatestOrder(nodes[0], latest, i, j);
      KeptMember(nodes[0], latest, i);
      KeptMember(nodes[0], latest, j);
      assert r[i] in nodes[0] && r[j] in nodes[0];
    } else if i < n {
      KeptMember(nodes[0], latest, i);
      KeptMember(Flatten(nodes[1..]), latest, j - n);
      var q := NodeWith(nodes[1..], r[j]);
      assert r[i] in nodes[0] && r[j] in nodes[q + 1];
    } else {
      FilteredInNodeOrder(nodes[1..], latest, i - n, j - n);
      var p, q :| 0 <= p <= q < |nodes[1..]| && r[i] in nodes[1..][p] && r[j] in nodes[1..][q]
                  && (p == q ==> Precedes(nodes[1..][p], r[i], r[j]));
      assert r[i] in nodes[p + 1] && r[j] in nodes[q + 1];
    }
  }

  lemma {:induction false} NodeWith(nodes: seq<Node>, x: Op) returns (q: nat)
    requires x in Flatten(nodes)
    ensures q < |nodes| && x in nodes[q]
  {
    if x in nodes[0] {
      q := 0;
    } else {
      q := NodeWith(nodes[1..], x);
      q := q + 1;
    }
  }

  /**
    What gives F3-N its name: the drained nodes are applied in the order of their first sequences, and
    each node's operations in their own order.
   */
  lemma NodeOrderedIsOrdered(chains: Chains, ids: seq<nat>, dirs: seq<Directory>)
    requires InRange(chains, ids) && forall i :: 0 <= i < |NodesOf(chains, ids)| ==> NodesOf(chains, ids)[i] != []
    ensures OrderedByNodes(NodeOrdered(chains, ids, dirs), NodesOf(chains, ids))
  {
    var nodes := SortNodes(NodesOf(chains, ids));
    SortNodesAscends(NodesOf(chains, ids));
    var r := NodeOrdered(chains, ids, dirs);
    forall i, j | 0 <= i < j < |r| ensures InNodeOrder(nodes, r[i], r[j]) {
      FilteredInNodeOrder(nodes, Merged(dirs), i, j);
    }
  }

  /** Exactly one operation per key passes the filter, if its deciding operation is replayed at all. */
  lemma {:induction false} KeepLatestKey(ops: seq<Op>, latest: Directory, k: int)
    requires UniqueSeqs(ops)
    requires k in latest ==> latest[k].key == k && forall o :: o in ops && o.sequence == latest[k].sequence ==>
             o == latest[k]
    ensures For(KeepLatest(ops, latest), k) == if k in latest && latest[k] in ops then [latest[k]] else []
  {
    if ops != [] {
      KeepLatestKey(ops[1..], latest, k);
      if k in latest && ops[0] == latest[k] {
        assert latest[k] !in ops[1..];
      }
    }
  }

  lemma {:induction false} LastOfMember(log: seq<Op>, k: int)
    ensures LastOf(log, k).Some? ==> LastOf(log, k).value in log && LastOf(log, k).value.key == k
    ensures LastOf(log, k) == None <==> !Touches(log, k)
  {
    if log != [] {
      var n := |log| - 1;
      LastOfMember(log[..n], k);
      TouchesSplit(log, k);
      assert log[n] in log;
      if LastOf(log[..n], k).Some? { assert LastOf(log[..n], k).value in log; }
    }
  }

  lemma TouchesSplit(log: seq<Op>, k: int)
    requires log != []
    ensures var n := |log| - 1; Touches(log, k) <==> Touches(log[..n], k) || log[n].key == k
  {
    var n := |log| - 1;
    if Touches(log[..n], k) {
      var i :| 0 <= i < n && log[..n][i].key == k;
      assert log[i].key == k;
    }
    if Touches(log, k) {
      var i :| 0 <= i < |log| && log[i].key == k;
      if i < n { assert log[..n][i].key == k; }
    }
  }

  lemma {:induction false} InLogsOf(chains: Chains, ids: seq<nat>, o: Op)
    requires InRange(chains, ids)
    ensures o in LogsOf(chains, ids) <==> exists i :: 0 <= i < |ids| && o in Log(chains[ids[i]])
  {
    if ids != [] {
      InLogsOf(chains, ids[1..], o);
      if o in LogsOf(chains, ids[1..]) {
        var i :| 0 <= i < |ids[1..]| && o in Log(chains[ids[1..][i]]);
        assert o in Log(chains[ids[i + 1]]);
      }
      if i :| 0 < i < |ids| && o in Log(chains[ids[i]]) {
        assert ids[1..][i - 1] == ids[i];
      }
    }
  }

  ghost predicate Apart(a: seq<Op>, b: seq<Op>) {
    forall x, y :: x in a && y in b ==> x.sequence != y.sequence
  }

  /** Sequences ascend along every chain, and operations of different chains never share one. */
  ghost predicate GloballySequenced(chains: Chains) {
    && (forall p {:trigger Ascending(Log(chains[p]))} :: 0 <= p < |chains| ==> Ascending(Log(chains[p])))
    && forall p, q {:trigger Apart(Log(chains[p]), Log(chains[q]))} ::
         0 <= p < |chains| && 0 <= q < |chains| && p != q ==> Apart(Log(chains[p]), Log(chains[q]))
  }

  lemma SequenceIdentifies(chains: Chains, p: nat, q: nat, a: Op, b: Op)
    requires GloballySequenced(chains) && p < |chains| && q < |chains|
    requires a in Log(chains[p]) && b in Log(chains[q]) && a.sequence == b.sequence
    ensures p == q && a == b
  {
    assert Ascending(Log(chains[p])) && (p == q || Apart(Log(chains[p]), Log(chains[q])));
    var i :| 0 <= i < |Log(chains[p])| && Log(chains[p])[i] == a;
    var j :| 0 <= j < |Log(chains[q])| && Log(chains[q])[j] == b;
  }

  lemma UniqueConcat(a: seq<Op>, b: seq<Op>)
    requires UniqueSeqs(a) && UniqueSeqs(b) && Apart(a, b)
    ensures UniqueSeqs(a + b)
  {
    forall i, j | 0 <= i < j < |a + b| ensures (a + b)[i].sequence != (a + b)[j].sequence {
      if i < |a| <= j {
        assert (a + b)[i] in a && (a + b)[j] in b;
      }
    }
  }

  lemma {:induction false} GlobalImpliesSequenced(chains: Chains, ids: seq<nat>)
    requires InRange(chains, ids) && Distinct(ids) && GloballySequenced(chains)
    ensures Sequenced(chains, ids)
  {
    if ids != [] {
      GlobalImpliesSequenced(chains, ids[1..]);
      var a, b := Log(chains[ids[0]]), LogsOf(chains, ids[1..]);
      assert Ascending(a);
      forall x, y | x in a && y in b ensures x.sequence != y.sequence {
        InLogsOf(chains, ids[1..], y);
        var i :| 0 <= i < |ids[1..]| && y in Log(chains[ids[1..][i]]);
        assert Apart(Log(chains[ids[0]]), Log(chains[ids[i + 1]]));
      }
      UniqueConcat(a, b);
    }
  }

  /** The deciding operation is the only one with its sequence. */
  lemma DecidingIdentified(chains: Chains, ids: seq<nat>, k: int)
    requires InRange(chains, ids) && GloballySequenced(chains) && Deciding(chains, k).Some?
    ensures var e := Deciding(chains, k).value;
            e.key == k && forall o :: o in LogsOf(chains, ids) && o.sequence == e.sequence ==> o == e
  {
    DecidingIsNewest(chains, k);
    var e := Deciding(chains, k).value;
    var p :| 0 <= p < |chains| && LastOf(Log(chains[p]), k) == Some(e);
    LastOfMember(Log(chains[p]), k);
    forall o | o in LogsOf(chains, ids) && o.sequence == e.sequence ensures o == e {
      InLogsOf(chains, ids, o);
      var i :| 0 <= i < |ids| && o in Log(chains[ids[i]]);
      SequenceIdentifies(chains, ids[i], p, o, e);
    }
  }

  lemma SameMembers(a: seq<Op>, b: seq<Op>, o: Op)
    requires multiset(a) == multiset(b)
    ensures o in a <==> o in b
  {
    assert o in multiset(a) <==> o in multiset(b);
  }

  /** What a node-ordered replay applies to one key: its deciding operation, if it is being drained. */
  lemma NodeOrderedKey(chains: Chains, ids: seq<nat>, dirs: seq<Directory>, k: int)
    requires InRange(chains, ids) && Distinct(ids) && GloballySequenced(chains) && |dirs| == |chains|
    requires forall p :: 0 <= p < |dirs| ==> DirectoryOf(dirs[p], Log(chains[p]))
    ensures var e := Deciding(chains, k);
            For(NodeOrdered(chains, ids, dirs), k) == if e.Some? && e.value in LogsOf(chains, ids) then [e.value]
                else []
  {
    var ops, logs := Flatten(SortNodes(NodesOf(chains, ids))), LogsOf(chains, ids);
    assert multiset(ops) == multiset(logs) by {
      SortNodesOps(NodesOf(chains, ids));
      CollectedOperations(chains, ids);
    }
    assert UniqueSeqs(ops) by {
      GlobalImpliesSequenced(chains, ids);
      PermutedUnique(logs, ops);
    }
    MergedDecides(dirs, chains, k);
    var e := Deciding(chains, k);
    forall o ensures o in ops <==> o in logs { SameMembers(ops, logs, o); }
    if e.Some? { DecidingIdentified(chains, ids, k); }
    KeepLatestKey(ops, Merged(dirs), k);
  }
}
