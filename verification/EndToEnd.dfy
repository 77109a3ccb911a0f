/**
  The buffered protocol on top of the real tree: what a drain applies is what the B+-tree can take,
  and contains() over chains and tree answers what the producers have done.
 */
module EndToEnd {
  import opened Ops
  import opened ChainLists
  import opened Replays
  import opened Drains
  import opened Protocol
  import opened Visibility
  import Tree
  import TreeShape
  import Readers
  import LatestEntries
  import Lookups
  import PtfoChains
  import HashTables

  /** A key that a leaf can store: nonzero, in range, and below every page address. */
  ghost predicate Fits(tree: Tree.BTree, k: int) {
    TreeShape.IsKey(k) && k != 0 && k < tree.heapStart
  }

  /** The tree is well formed and holds the given keys, each once. */
  ghost predicate Mirrors(tree: Tree.BTree, t: Copies)
    reads tree
  {
    tree.Valid() && forall k {:trigger t[k]} :: t[k] <= 1 && (TreeShape.Holds(tree.pages, k) <==> t[k] == 1)
  }

  /** The operations insert a key only while it has no copy. */
  ghost predicate Applicable(t: Copies, ops: seq<Op>) {
    forall k {:trigger For(ops, k)} :: InsertsAbsent(t[k], For(ops, k))
  }

  lemma ApplicableStep(t: Copies, ops: seq<Op>)
    requires ops != [] && Applicable(t, ops)
    ensures (!ops[0].isDelete ==> t[ops[0].key] == 0) && Applicable(Apply(t, ops[0]), ops[1..])
  {
    forall k ensures InsertsAbsent(Apply(t, ops[0])[k], For(ops[1..], k)) {
      assert InsertsAbsent(t[k], For(ops, k));
      if k == ops[0].key { assert For(ops, k)[1..] == For(ops[1..], k); }
    }
    var k := ops[0].key;
    assert InsertsAbsent(t[k], For(ops, k)) && For(ops, k)[0] == ops[0];
  }

  /** One buffered operation, applied to the tree. */
  method ApplyToTree(tree: Tree.BTree, op: Op, ghost t: Copies)
    requires Mirrors(tree, t) && Fits(tree, op.key) && (!op.isDelete ==> t[op.key] == 0)
    modifies tree
    ensures Mirrors(tree, Apply(t, op))
  {
    assert t[op.key] <= 1;
    ghost var before := TreeShape.KeySet(tree.pages);
    var outcome := tree.Apply(if op.isDelete then Tree.Deletion(op.key) else Tree.Insertion(op.key));
    ghost var after := TreeShape.KeySet(tree.pages);
    forall k ensures Apply(t, op)[k] <= 1 && (TreeShape.Holds(tree.pages, k) <==> Apply(t, op)[k] == 1) {
      assert t[k] <= 1 && (k in before <==> t[k] == 1) && (k in after <==> TreeShape.Holds(tree.pages, k));
    }
  }

  /** Replaying applicable operations keeps tree and copies together. */
  method ReplayIntoTree(tree: Tree.BTree, ops: seq<Op>, ghost t: Copies)
    requires Mirrors(tree, t) && Applicable(t, ops) && forall i :: 0 <= i < |ops| ==> Fits(tree, ops[i].key)
    modifies tree
    ensures Mirrors(tree, Replay(t, ops))
  {
    ghost var now := t;
    assert ops[0..] == ops;
    for i := 0 to |ops|
      invariant Mirrors(tree, now) && Applicable(now, ops[i..]) && Replay(now, ops[i..]) == Replay(t, ops)
    {
      assert ops[i..][1..] == ops[i + 1..] && ops[i..][0] == ops[i];
      ApplicableStep(now, ops[i..]);
      ApplyToTree(tree, ops[i], now);
      now := Apply(now, ops[i]);
    }
    assert ops[|ops|..] == [];
  }

  lemma {:induction false} ApplicableConcat(t: Copies, a: seq<Op>, b: seq<Op>)
    requires Applicable(t, a + b)
    ensures Applicable(t, a) && Applicable(Replay(t, a), b)
    decreases |a|
  {
    if a == [] {
      assert a + b == b;
      forall k ensures InsertsAbsent(t[k], For([], k)) { }
    } else {
      assert (a + b)[1..] == a[1..] + b;
      ApplicableStep(t, a + b);
      ApplicableConcat(Apply(t, a[0]), a[1..], b);
      forall k ensures InsertsAbsent(t[k], For(a, k)) {
        assert InsertsAbsent(Apply(t, a[0])[k], For(a[1..], k));
        if a[0].key == k { assert For(a, k)[1..] == For(a[1..], k); }
      }
    }
  }

  // ---------------------------------------------------------------- the drain from the tail

  /** What is still to be applied: it can be, and then the tree is what it should be. */
  ghost predicate Remaining(tree: Tree.BTree, now: Copies, rest: seq<Op>, goal: Copies)
    reads tree
  {
    && Mirrors(tree, now) && Applicable(now, rest) && Replay(now, rest) == goal
    && forall i :: 0 <= i < |rest| ==> Fits(tree, rest[i].key)
  }

  /** One part of it. */
  method ApplyPart(tree: Tree.BTree, part: seq<Op>, ghost rest: seq<Op>, ghost now: Copies, ghost goal: Copies)
    requires Remaining(tree, now, part + rest, goal)
    modifies tree
    ensures Remaining(tree, Replay(now, part), rest, goal)
  {
    ApplicableConcat(now, part, rest);
    ReplayConcat(now, part, rest);
    forall i | 0 <= i < |part| ensures Fits(tree, part[i].key) { assert (part + rest)[i] == part[i]; }
    forall i | 0 <= i < |rest| ensures Fits(tree, rest[i].key) { assert (part + rest)[|part| + i] == rest[i]; }
    ReplayIntoTree(tree, part, now);
  }

  /** The first n of the due nodes are left. */
  ghost predicate NodesLeft(chain: PtfoChains.Chain, m: PtfoChains.Memory, nodes: seq<Node>, n: nat, from: nat)
    reads chain
  {
    && chain.Draining(m, |nodes|, n) && chain.Since(m, |nodes|, n, from)
    && nodes == PtfoChains.View(m, chain.cardinality, chain.spine, chain.producer)[..|nodes|]
  }

  /** One node: its entries are applied, the tail moves, and the node is freed. */
  method DrainOneNode(tree: Tree.BTree, chain: PtfoChains.Chain, ghost m: PtfoChains.Memory, ghost nodes: seq<Node>,
                      ghost n: nat, ghost from: nat, ghost rest: seq<Op>, ghost now: Copies, ghost goal: Copies)
    requires 0 < n && NodesLeft(chain, m, nodes, n, from) && Remaining(tree, now, Log(nodes[..n]) + rest, goal)
    modifies tree, chain`tail, chain`headCount, chain`cells, chain`history
    ensures NodesLeft(chain, m, nodes, n - 1, from)
    ensures Remaining(tree, Replay(now, nodes[n - 1]), Log(nodes[..n - 1]) + rest, goal)
  {
    chain.TailNode(m, |nodes|, n);
    var ops := chain.NodeOps(chain.cells[chain.tail]);
    OldestFirst(nodes, n, ops, rest, now);
    ApplyPart(tree, ops, Log(nodes[..n - 1]) + rest, now, goal);
    var taken := chain.DrainTail(n, m, |nodes|, from);
  }

  /** future_drain_thread_from_tail on the real chain and the real tree. */
  method DrainChain(tree: Tree.BTree, chain: PtfoChains.Chain, ghost rest: seq<Op>, ghost t: Copies, ghost goal: Copies)
    requires chain.Drainable() && Remaining(tree, t, Log(chain.Due()) + rest, goal)
    modifies tree, chain
    ensures chain.Valid() && chain.Nodes() == []
    ensures Remaining(tree, Replay(t, Log(old(chain.Due()))), rest, goal)
  {
    ghost var m, nodes, from := chain.Mem(), chain.Due(), |chain.history|;
    chain.DrainBegins();
    assert nodes[..|nodes|] == nodes;
    DrainNodes(tree, chain, m, nodes, from, rest, t, goal);
    chain.FinishDrain();
  }

  /** The loop. */
  method DrainNodes(tree: Tree.BTree, chain: PtfoChains.Chain, ghost m: PtfoChains.Memory, ghost nodes: seq<Node>,
                    ghost from: nat, ghost rest: seq<Op>, ghost t: Copies, ghost goal: Copies)
    requires NodesLeft(chain, m, nodes, |nodes|, from) && Remaining(tree, t, Log(nodes[..|nodes|]) + rest, goal)
    modifies tree, chain`tail, chain`headCount, chain`cells, chain`history
    ensures NodesLeft(chain, m, nodes, 0, from) && Remaining(tree, Replay(t, Log(nodes)), rest, goal)
  {
    ghost var n: nat, now := |nodes|, t;
    assert nodes[..n] == nodes;
    while chain.tail != PtfoChains.NULL
      invariant NodesLeft(chain, m, nodes, n, from) && Remaining(tree, now, Log(nodes[..n]) + rest, goal)
                && Reaches(now, nodes, n, t)
      decreases n
    {
      chain.DrainGoesOn(m, |nodes|, n);
      ReachesNext(now, nodes, n, t);
      DrainOneNode(tree, chain, m, nodes, n, from, rest, now, goal);
      now, n := Replay(now, nodes[n - 1]), n - 1;
    }
    chain.DrainEnds(m, |nodes|, n);
    NothingLeft(now, nodes, t, rest);
  }

  /** With the first n nodes applied as well, the copies are those after the whole log. */
  ghost predicate Reaches(now: Copies, nodes: seq<Node>, n: nat, t: Copies) {
    n <= |nodes| && Replay(now, Log(nodes[..n])) == Replay(t, Log(nodes))
  }

  lemma ReachesNext(now: Copies, nodes: seq<Node>, n: nat, t: Copies)
    requires 0 < n && Reaches(now, nodes, n, t)
    ensures Reaches(Replay(now, nodes[n - 1]), nodes, n - 1, t)
  {
    OldestFirst(nodes, n, nodes[n - 1], [], now);
  }

  lemma NothingLeft(now: Copies, nodes: seq<Node>, t: Copies, rest: seq<Op>)
    requires Reaches(now, nodes, 0, t)
    ensures now == Replay(t, Log(nodes)) && Log(nodes[..0]) + rest == rest
  {
  }

  lemma OldestFirst(nodes: seq<Node>, n: nat, ops: Node, rest: seq<Op>, now: Copies)
    requires 0 < n <= |nodes| && ops == nodes[n - 1]
    ensures Log(nodes[..n]) + rest == ops + (Log(nodes[..n - 1]) + rest)
    ensures Replay(now, Log(nodes[..n])) == Replay(Replay(now, ops), Log(nodes[..n - 1]))
  {
    assert nodes[..n][..n - 1] == nodes[..n - 1];
    LogLast(nodes[..n]);
    ReplayConcat(now, ops, Log(nodes[..n - 1]));
  }

  // ---------------------------------------------------------------- drains

  /** In a disciplined world, a drain of any producers inserts only absent keys. */
  lemma DrainIsApplicable(w: World, c: Config, owner: int -> nat, ids: seq<nat>)
    requires WorldOk(w, c, owner) && Sane(w.s.chains, ids)
    ensures Applicable(w.s.tree, Applied(c.policy, w.s.chains, ids, w.s.dirs))
  {
    var applied := Applied(c.policy, w.s.chains, ids, w.s.dirs);
    forall k ensures InsertsAbsent(w.s.tree[k], For(applied, k)) {
      assert KeyOk(w, c, owner, k);
      if owner(k) < |w.s.chains| {
        DrainedKeyInsertsAbsent(w, c, owner, ids, k);
      } else {
        UnownedKeyUntouched(c.policy, w.s.chains, ids, w.s.dirs, k);
      }
    }
  }

  lemma UnownedKeyUntouched(policy: Policy, chains: Chains, ids: seq<nat>, dirs: seq<Directory>, k: int)
    requires Sane(chains, ids) && (policy.F3N? ==> |dirs| == |chains|)
    requires forall q :: 0 <= q < |chains| ==> !Touches(Log(chains[q]), k)
    ensures For(Applied(policy, chains, ids, dirs), k) == []
  {
    var applied := Applied(policy, chains, ids, dirs);
    forall o | o in applied ensures o.key != k {
      Readers.AppliedWithin(policy, chains, ids, dirs, o);
      InLogsOf(chains, ids, o);
      var i :| 0 <= i < |ids| && o in Log(chains[ids[i]]);
      TouchedBy(Log(chains[ids[i]]), o);
    }
    ForNothing(applied, k);
    assert forall i :: 0 <= i < |applied| ==> applied[i] in applied;
  }

  lemma DrainedKeyInsertsAbsent(w: World, c: Config, owner: int -> nat, ids: seq<nat>, k: int)
    requires WorldOk(w, c, owner) && Sane(w.s.chains, ids) && KeyOk(w, c, owner, k) && owner(k) < |w.s.chains|
    ensures InsertsAbsent(w.s.tree[k], For(Applied(c.policy, w.s.chains, ids, w.s.dirs), k))
  {
    var p, t, chains := owner(k), w.s.tree[k], w.s.chains;
    var log := For(Log(chains[p]), k);
    assert OwnedBy(chains, k, p);
    if c.policy.F3N? {
      NodeOrderedKey(chains, ids, w.s.dirs, k);
      OwnedDrained(chains, ids, k, p);
      var e := Deciding(chains, k);
      if e.Some? { assert [e.value][1..] == []; }
    } else {
      GlobalImpliesSequenced(chains, ids);
      LogsOfKey(chains, ids, k, p);
      SortedReplayKey(chains, ids, k, p);
    }
  }

  /** What the F3-N loops need of the directories holds in every run that keeps order and directories. */
  lemma DirectoriesHaveNoTies(s: State, c: Config)
    requires StructureOk(s, c) && DirectoriesOk(s)
    ensures LatestEntries.NoTies(s.dirs)
  {
    StructureImpliesSequenced(s, c);
    forall p, q | 0 <= p < |s.dirs| && 0 <= q < |s.dirs| ensures LatestEntries.TieFree(s.dirs[p], s.dirs[q]) {
      assert DirectoryOf(s.dirs[p], Log(s.chains[p])) && DirectoryOf(s.dirs[q], Log(s.chains[q]));
      forall k | k in s.dirs[p] && k in s.dirs[q] && s.dirs[p][k].sequence == s.dirs[q][k].sequence
        ensures s.dirs[p][k] == s.dirs[q][k]
      {
        LastOfMember(Log(s.chains[p]), k);
        LastOfMember(Log(s.chains[q]), k);
        SequenceIdentifies(s.chains, p, q, s.dirs[p][k], s.dirs[q][k]);
      }
    }
  }

  // ---------------------------------------------------------------- steps

  /** What a step applies to the tree, in order: nothing, unless it is a drain. */
  function StepOps(s: State, c: Config, a: Action): seq<Op>
    requires |s.chains| == |s.counts| == |s.dirs|
  {
    if a.DrainSlice? || (a.DrainAll? && s.pending != 0) then Applied(c.policy, s.chains, DrainedBy(s, a), s.dirs)
        else []
  }

  lemma StepIsApplicable(w: World, c: Config, owner: int -> nat, a: Action)
    requires WorldOk(w, c, owner)
    ensures Applicable(w.s.tree, StepOps(w.s, c, a))
  {
    StructureImpliesSequenced(w.s, c);
    if a.DrainSlice? || (a.DrainAll? && w.s.pending != 0) {
      DrainIsApplicable(w, c, owner, DrainedBy(w.s, a));
    }
  }

  /** Every buffered operation is on a key that the tree can store. */
  ghost predicate KeysFit(tree: Tree.BTree, s: State, c: Config)
    requires Shape(s, c)
  {
    forall p, o {:trigger o in Extended(s, p)} :: 0 <= p < c.producers && o in Extended(s, p) ==> Fits(tree, o.key)
  }

  lemma StepKeepsFit(tree: Tree.BTree, s: State, c: Config, a: Action)
    requires Shape(s, c) && Enabled(s, c, a) && KeysFit(tree, s, c) && (a.Ticket? ==> Fits(tree, a.key))
    ensures Shape(Step(s, c, a), c) && KeysFit(tree, Step(s, c, a), c)
  {
    var s' := Step(s, c, a);
    if a.Insert? { PushAppends(s.chains[a.p], s.phases[a.p].op, c.capacity); }
    assert Log([]) == [];
    forall p, o | 0 <= p < c.producers && o in Extended(s', p) ensures Fits(tree, o.key) {
      assert o in Extended(s, p) || (a.Ticket? && o.key == a.key);
    }
  }

  lemma StepOpsFit(tree: Tree.BTree, s: State, c: Config, a: Action)
    requires Shape(s, c) && KeysFit(tree, s, c)
    ensures forall i :: 0 <= i < |StepOps(s, c, a)| ==> Fits(tree, StepOps(s, c, a)[i].key)
  {
    var ops := StepOps(s, c, a);
    forall i | 0 <= i < |ops| ensures Fits(tree, ops[i].key) {
      var ids := DrainedBy(s, a);
      Readers.AppliedWithin(c.policy, s.chains, ids, s.dirs, ops[i]);
      InLogsOf(s.chains, ids, ops[i]);
      var j :| 0 <= j < |ids| && ops[i] in Log(s.chains[ids[j]]);
      assert ops[i] in Extended(s, ids[j]);
    }
  }

  lemma EmptyMirrors(tree: Tree.BTree)
    requires tree.Valid() && TreeShape.KeySet(tree.pages) == iset{}
    ensures Mirrors(tree, multiset{})
  {
    forall k: int ensures !TreeShape.Holds(tree.pages, k) { assert k !in TreeShape.KeySet(tree.pages); }
  }

  /**
    contains(): the pre-filtered walk over the producers' chains and, where no chain has the key, a
    search of the B+-tree. It tells whether the key is present according to the operations inserted so far.
   */
  method Contains(tree: Tree.BTree, chains: seq<PtfoChains.Chain>, tables: seq<HashTables.HashMapTable>, key: int,
                  ghost w: World, ghost c: Config, ghost owner: int -> nat) returns (found: bool)
    requires WorldOk(w, c, owner) && Mirrors(tree, w.s.tree) && Fits(tree, key)
    requires Lookups.ChainsOk(chains) && Lookups.Views(chains) == w.s.chains && Lookups.FiltersOk(tables, w.s.chains)
    ensures found <==> key in w.members
  {
    assert KeyOk(w, c, owner, key) && w.s.tree[key] <= 1;
    var r := Lookups.HashDirectedViaPtfo(chains, tables, key);
    match r.state {
      case Present => found := true;
      case Tombstone => found := false;
      case Absent =>
        tree.LowKeysAreNotShadowed(key);
        var t := tree.Search(key);
        found := t != 0;
    }
  }
}
