/**
  Reopening a pool: the durable chains are walked from their heads, and the volatile pre-filters and
  lookup directories are rebuilt from what the walk meets.
 */
module Recovery {
  import opened Ops
  import opened ChainLists
  import opened Replays
  import opened PtfoChains
  import opened HashTables
  import opened Directories

  // ---------------------------------------------------------------- the rebuilt directory

  /** One walked operation: it replaces an entry only if it is newer. */
  function Noted(dir: Directory, op: Op): Directory {
    if op.key !in dir || op.sequence > dir[op.key].sequence then dir[op.key := op] else dir
  }

  /** The directory after walking the operations. */
  function Rebuilt(ops: seq<Op>): Directory {
    if ops == [] then map[] else Noted(Rebuilt(ops[..|ops| - 1]), ops[|ops| - 1])
  }

  lemma {:induction false} RebuiltHoldsNewest(ops: seq<Op>, k: int)
    ensures NewestOf(ops, k, None) == if k in Rebuilt(ops) then Some(Rebuilt(ops)[k]) else None
    ensures k in Rebuilt(ops) ==> Rebuilt(ops)[k].key == k
  {
    if ops != [] {
      var n := |ops| - 1;
      RebuiltHoldsNewest(ops[..n], k);
      RebuiltHoldsNewest(ops[..n], ops[n].key);
    }
  }

  /** In whichever order the operations of a log are walked, the directory agrees with the log. */
  lemma RebuiltIsDirectory(ops: seq<Op>, log: seq<Op>)
    requires multiset(ops) == multiset(log) && Ascending(log)
    ensures DirectoryOf(Rebuilt(ops), log)
  {
    forall k ensures LastOf(log, k) == if k in Rebuilt(ops) then Some(Rebuilt(ops)[k]) else None {
      RebuiltHoldsNewest(ops, k);
      NewestIsLast(ops, log, k, None);
    }
  }

  /** What recovery makes of a durable chain. */
  lemma RecoveredChain(nodes: seq<Node>)
    requires Ascending(Log(nodes))
    ensures DirectoryOf(Rebuilt(Flatten(nodes)), Log(nodes))
  {
    SameOperations(nodes);
    RebuiltIsDirectory(Flatten(nodes), Log(nodes));
  }

  /**
    Wherever future_insert is cut off by a crash, recovery finds the chain without the new operation
    or with it, complete, and rebuilds the directory of that chain.
   */
  method InsertOrCrash(chain: Chain, op: Op) returns (ghost shown: nat)
    requires chain.Usable() && op.producer == chain.producer && Ascending(Log(chain.Nodes()) + [op])
    modifies chain
    ensures chain.Usable() && Log(chain.Nodes()) == old(Log(chain.Nodes())) + [op]
    ensures old(chain.history) <= chain.history && |old(chain.history)| <= shown < |chain.history|
    ensures forall i :: |old(chain.history)| <= i < |chain.history| ==>
              Recovers(chain.history[i], chain.cardinality, chain.producer,
                       if i < shown then old(Log(chain.Nodes())) else Log(chain.Nodes()))
  {
    ghost var log, spine, nodes := Log(chain.Nodes()), chain.spine, chain.Nodes();
    assert Ascending(log) by {
      assert forall i :: 0 <= i < |log| ==> log[i] == (log + [op])[i];
    }
    shown := chain.FutureInsert(op);
    EveryCutRecovers(chain.history, |old(chain.history)|, shown, chain.cardinality, chain.producer, spine, nodes,
                     chain.spine, chain.Nodes());
  }

  lemma EveryCutRecovers(h: seq<Memory>, from: nat, shown: nat, capacity: nat, producer: nat,
                         spine: seq<Addr>, nodes: seq<Node>, spine': seq<Addr>, nodes': seq<Node>)
    requires from <= shown < |h| && Ascending(Log(nodes)) && Ascending(Log(nodes'))
    requires ShownSince(h[..shown], from, capacity, spine, producer, nodes)
             && ShownSince(h, shown, capacity, spine', producer, nodes')
    ensures forall i :: from <= i < |h| ==>
            Recovers(h[i], capacity, producer, if i < shown then Log(nodes) else Log(nodes'))
  {
    RecoveredChain(nodes);
    RecoveredChain(nodes');
    forall i | from <= i < |h|
      ensures Recovers(h[i], capacity, producer, if i < shown then Log(nodes) else Log(nodes')) {
      if i < shown {
        assert h[..shown][i] == h[i];
        assert Sees(h[i], capacity, spine, producer, nodes);
      } else {
        assert Sees(h[i], capacity, spine', producer, nodes');
      }
    }
  }

  /** A walk from the head ends, and what it meets rebuilds the directory of this log. */
  ghost predicate Recovers(m: Memory, capacity: nat, producer: nat, log: seq<Op>) {
    exists spine, nodes ::
      Sees(m, capacity, spine, producer, nodes) && Log(nodes) == log && DirectoryOf(Rebuilt(Flatten(nodes)), log)
  }

  // ---------------------------------------------------------------- runs with crashes

  /** An address above all nodes of a memory. */
  method FreeAddress(m: Memory) returns (next: Addr)
    ensures next > DUMMY && forall a :: a in m.cells ==> a < next
  {
    next := DUMMY + 1;
    var left := m.cells.Keys;
    while left != {}
      invariant left <= m.cells.Keys && next > DUMMY && forall a :: a in m.cells && a !in left ==> a < next
      decreases left
    {
      var a :| a in left;
      left := left - {a};
      if a >= next { next := a + 1; }
    }
  }

  /** The memory that a crash after the given number of an insertion's stores leaves. */
  function CutOff(before: Memory, history: seq<Memory>, from: nat, stores: nat): Memory
    requires from < |history|
  {
    if stores == 0 then before
    else if from + stores <= |history| then history[from + stores - 1]
    else history[|history| - 1]
  }

  /** It shows the new operation exactly from one number of stores on. */
  lemma CutOffSees(before: Memory, history: seq<Memory>, from: nat, shown: nat, stores: nat, capacity: nat,
                   producer: nat, spine: seq<Addr>, nodes: seq<Node>, spine': seq<Addr>, nodes': seq<Node>)
    requires from <= shown < |history|
    requires Sees(before, capacity, spine, producer, nodes) && Resumable(before, capacity, spine)
    requires ShownSince(history[..shown], from, capacity, spine, producer, nodes)
    requires ShownSince(history, shown, capacity, spine', producer, nodes')
    ensures var m := CutOff(before, history, from, stores);
            if from + stores > shown then Sees(m, capacity, spine', producer, nodes') && Resumable(m, capacity, spine')
            else Sees(m, capacity, spine, producer, nodes) && Resumable(m, capacity, spine)
  {
    if 0 < stores && from + stores <= shown {
      assert history[from + stores - 1] == history[..shown][from + stores - 1];
    }
  }

  /**
    An insertion that a crash cuts off after some of its stores, and the chain that the reopened pool
    has then. Into an empty chain, exactly the crash after the sixth store leaves the tail unset.
   */
  method CrashAndReopen(chain: Chain, op: Op, stores: nat) returns (next: Chain, ghost kept: bool)
    requires chain.Usable() && op.producer == chain.producer
    modifies chain
    ensures fresh(next) && next.Usable() && next.producer == chain.producer && next.cardinality == chain.cardinality
    ensures Log(next.Nodes()) == old(Log(chain.Nodes())) + if kept then [op] else []
    ensures next.spine == [] <==> old(chain.spine) == [] && !kept
    ensures next.tail == if old(chain.spine) == [] && stores > 6 then Last(next.spine, |next.spine|)
            else old(chain.tail)
    ensures old(chain.TailAtEnd()) ==>
              && next.TailAtEnd()
              && (next.TailUnset() <==> if old(chain.spine) == [] then stores == 6 else old(chain.TailUnset()))
    ensures old(chain.spine) == [] ==> (kept <==> stores >= 6)
  {
    var before, from := chain.Mem(), |chain.history|;
    ghost var spine, nodes, unset := chain.spine, chain.Nodes(), chain.TailUnset();
    ghost var shown := chain.FutureInsert(op);
    kept := from + stores > shown;
    ghost var spine', nodes' := if kept then chain.spine else spine, if kept then chain.Nodes() else nodes;
    var m := CutOff(before, chain.history, from, stores);
    CutOffSees(before, chain.history, from, shown, stores, chain.cardinality, chain.producer, spine, nodes,
               chain.spine, chain.Nodes());
    CutOffTail(before, chain.history, from, shown, stores, spine, chain.tail);
    var address := FreeAddress(m);
    next := new Chain.Reopen(chain.producer, chain.cardinality, m, address, spine', nodes');
  }

  /** The tail in that memory. */
  lemma CutOffTail(before: Memory, history: seq<Memory>, from: nat, shown: nat, stores: nat, spine: seq<Addr>,
                   tail: Addr)
    requires from <= shown < |history|
    requires spine == [] ==>
               shown == from + 5 && |history| == shown + 2 && history[shown + 1].tail == tail
               && TailSince(history[..shown + 1], from, before.tail)
    requires spine != [] ==> TailSince(history, from, before.tail)
    ensures var m := CutOff(before, history, from, stores);
            m.tail == if spine == [] && stores > 6 then tail else before.tail
  {
    if spine == [] && 0 < stores <= 6 { assert history[from + stores - 1] == history[..shown + 1][from + stores - 1]; }
  }

  /** The operations that survived. */
  function Survivors(ops: seq<Op>, kept: seq<bool>): seq<Op>
    requires |ops| == |kept|
  {
    if ops == [] then []
    else
      var n := |ops| - 1;
      Survivors(ops[..n], kept[..n]) + if kept[n] then [ops[n]] else []
  }

  /** The first survivor was cut off after its sixth store. */
  ghost predicate FirstCutAtSix(crashes: seq<Option<nat>>, kept: seq<bool>)
    requires |crashes| == |kept|
  {
    exists i :: 0 <= i < |kept| && kept[i] && crashes[i] == Some(6) && forall j :: 0 <= j < i ==> !kept[j]
  }

  ghost predicate NoneKept(kept: seq<bool>) {
    forall j :: 0 <= j < |kept| ==> !kept[j]
  }

  lemma SurvivorsNext(ops: seq<Op>, kept: seq<bool>, i: nat, survives: bool)
    requires i == |kept| < |ops|
    ensures Survivors(ops[..i + 1], kept + [survives]) == Survivors(ops[..i], kept) + if survives then [ops[i]] else []
    ensures NoneKept(kept + [survives]) <==> NoneKept(kept) && !survives
  {
    var more := kept + [survives];
    assert ops[..i + 1][..i] == ops[..i] && more[..i] == kept;
    assert more[i] == survives && forall j :: 0 <= j < i ==> kept[j] == more[j];
  }

  lemma FirstCutNext(crashes: seq<Option<nat>>, kept: seq<bool>, crash: Option<nat>, survives: bool)
    requires |crashes| == |kept|
    ensures FirstCutAtSix(crashes + [crash], kept + [survives])
        <==> FirstCutAtSix(crashes, kept) || (NoneKept(kept) && survives && crash == Some(6))
  {
    var n, cs, ks := |kept|, crashes + [crash], kept + [survives];
    assert forall j :: 0 <= j < n ==> kept[j] == ks[j] && crashes[j] == cs[j];
    assert ks[n] == survives && cs[n] == crash;
    if x :| 0 <= x < n && kept[x] && crashes[x] == Some(6) && forall j :: 0 <= j < x ==> !kept[j] {
      assert ks[x] && cs[x] == Some(6);
    }
    if x :| 0 <= x <= n && ks[x] && cs[x] == Some(6) && forall j :: 0 <= j < x ==> !ks[j] {
      assert x < n ==> kept[x] && crashes[x] == Some(6);
    }
  }

  /** What a run of insertions and crashes leaves: the chain's log, whether it is empty, whether its tail is unset. */
  ghost predicate RunLeaves(ops: seq<Op>, crashes: seq<Option<nat>>, kept: seq<bool>, log: seq<Op>, empty: bool,
                            unset: bool) {
    && |ops| == |crashes| == |kept| && log == Survivors(ops, kept)
    && (forall i :: 0 <= i < |ops| && crashes[i].None? ==> kept[i])
    && (empty <==> NoneKept(kept)) && (unset <==> FirstCutAtSix(crashes, kept))
  }

  lemma RunLeavesNext(ops: seq<Op>, crashes: seq<Option<nat>>, kept: seq<bool>, i: nat, survives: bool,
                      log: seq<Op>, empty: bool, unset: bool)
    requires i < |ops| == |crashes| && RunLeaves(ops[..i], crashes[..i], kept, log, empty, unset)
    requires crashes[i].None? ==> survives
    ensures RunLeaves(ops[..i + 1], crashes[..i + 1], kept + [survives], log + (if survives then [ops[i]] else []),
                      empty && !survives, if empty then survives && crashes[i] == Some(6) else unset)
  {
    SurvivorsNext(ops, kept, i, survives);
    assert crashes[..i + 1] == crashes[..i] + [crashes[i]];
    FirstCutNext(crashes[..i], kept, crashes[i], survives);
    assert forall j :: 0 <= j < i ==> crashes[..i + 1][j] == crashes[..i][j] && (kept + [survives])[j] == kept[j];
  }

  ghost predicate AfterRun(chain: Chain, ops: seq<Op>, crashes: seq<Option<nat>>, kept: seq<bool>)
    reads chain
  {
    chain.Usable() && chain.TailAtEnd()
    && RunLeaves(ops, crashes, kept, Log(chain.Nodes()), chain.spine == [], chain.TailUnset())
  }

  /** One insertion, with or without a crash. */
  method InsertOnce(chain: Chain, op: Op, crash: Option<nat>) returns (next: Chain, ghost survives: bool)
    requires chain.Usable() && chain.TailAtEnd() && op.producer == chain.producer
    modifies chain
    ensures next.TailAtEnd() && (next == chain || fresh(next)) && next.Usable() && next.producer == chain.producer
            && next.cardinality == chain.cardinality
    ensures Log(next.Nodes()) == old(Log(chain.Nodes())) + if survives then [op] else []
    ensures next.spine == [] <==> old(chain.spine) == [] && !survives
    ensures next.TailUnset() <==> if old(chain.spine) == [] then survives && crash == Some(6)
            else old(chain.TailUnset())
    ensures crash.None? ==> survives && if next.TailUnset() then next.Torn() else next.Valid()
  {
    match crash {
      case None =>
        ghost var shown := chain.FutureInsert(op);
        next, survives := chain, true;
        chain.NonemptyLog();
      case Some(stores) =>
        next, survives := CrashAndReopen(chain, op, stores);
    }
  }

  /**
    A producer's insertions, each of which may be cut off by a crash and a reopening: the chain always
    holds exactly the survivors, in order, and its tail is unset if and only if the first survivor was
    cut off after its sixth store.
   */
  method RunWithCrashes(producer: nat, cardinality: nat, ops: seq<Op>, crashes: seq<Option<nat>>)
    returns (chain: Chain, ghost kept: seq<bool>)
    requires cardinality > 0 && |crashes| == |ops| && forall i :: 0 <= i < |ops| ==> ops[i].producer == producer
    ensures fresh(chain) && AfterRun(chain, ops, crashes, kept) && chain.producer == producer
            && chain.cardinality == cardinality
    ensures ops != [] && crashes[|ops| - 1].None? ==> if chain.TailUnset() then chain.Torn() else chain.Valid()
  {
    chain := new Chain(producer, cardinality);
    kept := [];
    for i := 0 to |ops|
      invariant fresh(chain) && chain.producer == producer && chain.cardinality == cardinality && |kept| == i
      invariant AfterRun(chain, ops[..i], crashes[..i], kept)
      invariant i > 0 && crashes[i - 1].None? ==> if chain.TailUnset() then chain.Torn() else chain.Valid()
    {
      ghost var was, empty, unset := Log(chain.Nodes()), chain.spine == [], chain.TailUnset();
      ghost var survives;
      chain, survives := InsertOnce(chain, ops[i], crashes[i]);
      RunLeavesNext(ops, crashes, kept, i, survives, was, empty, unset);
      kept := kept + [survives];
    }
    assert ops[..|ops|] == ops && crashes[..|ops|] == crashes;
  }

  /**
    After such a run whose last insertion came through, as it has to before a drain looks at the chain,
    the drain from the tail applies all survivors, or nothing if the tail is unset.
   */
  method DrainAfterCrashes(producer: nat, cardinality: nat, ops: seq<Op>, crashes: seq<Option<nat>>, tree: Copies)
    returns (result: Copies, ghost kept: seq<bool>)
    requires cardinality > 0 && |crashes| == |ops| && forall i :: 0 <= i < |ops| ==> ops[i].producer == producer
    requires ops != [] && crashes[|ops| - 1].None?
    ensures |kept| == |ops| && forall i :: 0 <= i < |ops| && crashes[i].None? ==> kept[i]
    ensures result == if FirstCutAtSix(crashes, kept) then tree else Replay(tree, Survivors(ops, kept))
  {
    var chain;
    chain, kept := RunWithCrashes(producer, cardinality, ops, crashes);
    chain.WhatIsDue();
    assert Log([]) == [];
    var applied;
    result, applied := chain.DrainFromTail(tree);
  }

  // ---------------------------------------------------------------- drains that are cut off

  /** The memory after the first tail store of a drain shows the same nodes, and one less is due. */
  lemma TailMoved(chain: Chain)
    requires chain.Drainable() && chain.tail != NULL
    ensures chain.Due() != []
    ensures var k := |chain.Due()| - 1;
            var m := chain.Mem().(tail := Last(chain.spine, k));
            && Sees(m, chain.cardinality, chain.spine, chain.producer, chain.Nodes())
            && Resumable(m, chain.cardinality, chain.spine)
            && PrevLinks(m, chain.spine) && Reach(chain.spine, m.tail) == k
  {
    chain.UnsetIsNothingDue();
    chain.RealAddresses();
    var m, k := chain.Mem(), |chain.Due()| - 1;
    var m' := m.(tail := Last(chain.spine, k));
    SameWalk(m, m', chain.cardinality, chain.spine, chain.producer, chain.Nodes());
    forall i: nat ensures BackLink(m', chain.spine, i) { assert BackLink(m, chain.spine, i); }
    ReachOf(chain.spine, k);
  }

  /** What a drain applies before its first tail store. */
  method ApplyOldest(chain: Chain, tree: Copies) returns (result: Copies)
    requires chain.Drainable() && chain.tail != NULL
    ensures chain.Due() != [] && result == Replay(tree, chain.Due()[|chain.Due()| - 1])
  {
    OldestDue(chain);
    var ops := chain.NodeOps(chain.cells[chain.tail]);
    result := ReplayOps(tree, ops);
  }

  /** The last node due is the one at the tail. */
  lemma OldestDue(chain: Chain)
    requires chain.Drainable() && chain.tail != NULL
    ensures chain.tail in chain.cells && CellOk(chain.cells[chain.tail], chain.cardinality) && chain.Due() != []
    ensures chain.Due()[|chain.Due()| - 1] == Entries(chain.cells[chain.tail], chain.producer)
  {
    TailMoved(chain);
    var n := |chain.Due()| - 1;
    assert Link(chain.Mem(), chain.cardinality, chain.spine, n) && chain.spine[n] == chain.tail;
    assert chain.Due()[n] == chain.Nodes()[n];
  }

  /** What the drain's first store leaves. */
  method FirstMemoryOfDrain(chain: Chain, tree: Copies) returns (m: Memory)
    requires chain.Drainable() && chain.tail != NULL
    modifies chain
    ensures m == old(chain.Mem()).(tail := Last(old(chain.spine), |old(chain.Due())| - 1))
  {
    var from := |chain.history|;
    TailMoved(chain);
    var all, applied := chain.DrainFromTail(tree);
    m := chain.history[from];
  }

  /**
    A drain from the tail that a crash cuts off where recovery can still walk the chain, that is, after
    the oldest node has been applied and the tail moved, and before the node is freed. The reopened
    chain still shows everything, and one node less is due.
   */
  method CrashInDrain(chain: Chain, tree: Copies) returns (next: Chain, result: Copies)
    requires chain.Drainable() && chain.tail != NULL
    modifies chain
    ensures fresh(next) && next.Usable() && next.Drainable()
    ensures next.producer == chain.producer && next.cardinality == chain.cardinality
    ensures next.Nodes() == old(chain.Nodes()) && old(chain.Due()) != []
    ensures var due := old(chain.Due()); next.Due() == due[..|due| - 1] && result == Replay(tree, due[|due| - 1])
  {
    ghost var spine, nodes, due := chain.spine, chain.Nodes(), chain.Due();
    TailMoved(chain);
    result := ApplyOldest(chain, tree);
    var m := FirstMemoryOfDrain(chain, tree);
    var address := FreeAddress(m);
    next := new Chain.Reopen(chain.producer, chain.cardinality, m, address, spine, nodes);
    MovedChain(next, |due| - 1);
    assert nodes[..|due| - 1] == due[..|due| - 1];
  }

  /** A chain whose tail is at its node number k. */
  lemma MovedChain(chain: Chain, k: nat)
    requires chain.Walkable() && PrevLinks(chain.Mem(), chain.spine) && k <= |chain.spine|
    requires chain.tail == Last(chain.spine, k) && Reach(chain.spine, chain.tail) == k
    ensures chain.Drainable() && chain.Due() == chain.Nodes()[..k]
  {
  }

  /**
    Such a drain, the reopening, one more insertion, and the next drain together apply every operation
    exactly once, in order. Only if the chain had a single node due, its tail is unset by then, and the
    insertion is lost.
   */
  method ResumedDrain(chain: Chain, op: Op, tree: Copies) returns (result: Copies)
    requires chain.Drainable() && chain.tail != NULL && op.producer == chain.producer
    modifies chain
    ensures var due := old(chain.Due());
            result == Replay(tree, Log(due) + if |due| > 1 then [op] else [])
  {
    ghost var due := chain.Due();
    var next, now := CrashInDrain(chain, tree);
    ghost var rest := next.Due();
    next.UnsetIsNothingDue();
    ghost var shown := next.FutureInsert(op);
    var applied;
    result, applied := next.DrainFromTail(now);
    RestApplied(tree, due, if rest == [] then [] else [op]);
  }

  lemma RestApplied(tree: Copies, due: seq<Node>, more: seq<Op>)
    requires due != []
    ensures var n := |due| - 1; Replay(Replay(tree, due[n]), Log(due[..n]) + more) == Replay(tree, Log(due) + more)
  {
    var n := |due| - 1;
    LogLast(due);
    JoinedReplay(tree, due[n], Log(due[..n]), more);
  }

  lemma JoinedReplay(tree: Copies, a: seq<Op>, b: seq<Op>, more: seq<Op>)
    ensures Replay(Replay(tree, a), b + more) == Replay(tree, a + b + more)
  {
    ReplayConcat(tree, a, b + more);
    assert a + (b + more) == a + b + more;
  }

  lemma EmptyWalk(m: Memory, capacity: nat, producer: nat)
    requires m.head == NULL && capacity > 0
    ensures Sees(m, capacity, [], producer, []) && Resumable(m, capacity, [])
  {
    assert BackLink(m, [], 0);
  }

  /**
    A clear that a crash cuts off between its last two stores: the reopened chain is empty, and its tail
    still points at the node that was freed. A complete insertion sets the tail; one that is cut off
    after its sixth store leaves a chain whose tail is no node at all.
   */
  method CrashInClear(chain: Chain) returns (next: Chain)
    requires chain.Walkable() && chain.TailSound() && chain.tail != NULL
    modifies chain
    ensures fresh(next) && next.Usable() && next.Nodes() == [] && next.spine == []
    ensures next.producer == chain.producer && next.cardinality == chain.cardinality
    ensures next.tail == old(chain.tail) && next.tail !in next.cells
  {
    chain.ClearThread();
    var m := chain.history[|chain.history| - 2];
    EmptyWalk(m, chain.cardinality, chain.producer);
    var address := FreeAddress(m);
    next := new Chain.Reopen(chain.producer, chain.cardinality, m, address, [], []);
  }

  // ---------------------------------------------------------------- the recovery pass

  function KeysOf(ops: seq<Op>): set<int> {
    set i | 0 <= i < |ops| :: ops[i].key
  }

  /** Enough room for one more key of the log. */
  lemma RoomForKey(keys: set<int>, all: set<int>, k: int, capacity: nat)
    requires keys <= all && k in all && |all| <= capacity
    ensures k in keys || |keys| < capacity
  {
    if k !in keys {
      assert keys + {k} <= all;
      Smaller(keys + {k}, all);
    }
  }

  lemma Smaller(a: set<int>, b: set<int>)
    requires a <= b
    ensures |a| <= |b|
  {
    assert b == a + (b - a);
  }

  /** The pre-filter knows the operations walked so far, the directory holds their newest. */
  ghost predicate Progress(table: HashMapTable, dir: LookupDirectory, ops: seq<Op>, producer: nat)
    reads table, table.ht, dir, dir.slots
  {
    Filters(table, KeysOf(ops), producer) && dir.Valid() && dir.Map() == Rebuilt(ops)
  }

  ghost predicate Filters(table: HashMapTable, keys: set<int>, producer: nat)
    reads table, table.ht
  {
    table.Valid() && table.Map() == map k | k in keys :: producer
  }

  method TakeInKey(table: HashMapTable, k: int, ghost keys: set<int>, producer: nat)
    requires Filters(table, keys, producer) && (k in keys || |keys| < table.ht.Length)
    modifies table.ht
    ensures Filters(table, keys + {k}, producer)
  {
    assert table.Map().Keys == keys;
    table.Insert(k, producer);
  }

  method TakeInOp(dir: LookupDirectory, op: Op, ghost before: seq<Op>)
    requires dir.Valid() && dir.Map() == Rebuilt(before)
             && (op.key in KeysOf(before) || |KeysOf(before)| < dir.slots.Length)
    modifies dir.slots
    ensures dir.Valid() && dir.Map() == Rebuilt(before + [op])
  {
    RebuiltKeys(before);
    assert (before + [op])[..|before|] == before;
    dir.RecordNewer(op);
  }

  lemma {:induction false} RebuiltKeys(ops: seq<Op>)
    ensures Rebuilt(ops).Keys == KeysOf(ops)
  {
    if ops != [] {
      var n := |ops| - 1;
      RebuiltKeys(ops[..n]);
      KeysSnoc(ops);
      RebuiltHoldsNewest(ops[..n], ops[n].key);
    }
  }

  lemma KeysSnoc(ops: seq<Op>)
    requires ops != []
    ensures KeysOf(ops) == KeysOf(ops[..|ops| - 1]) + {ops[|ops| - 1].key}
  {
    var n := |ops| - 1;
    forall k ensures k in KeysOf(ops) <==> k in KeysOf(ops[..n]) + {ops[n].key} {
      if k in KeysOf(ops) {
        var i :| 0 <= i < |ops| && ops[i].key == k;
        if i < n { assert ops[..n][i].key == k; }
      }
      if k in KeysOf(ops[..n]) {
        var i :| 0 <= i < n && ops[..n][i].key == k;
        assert ops[i].key == k;
      }
    }
  }

  /** The body of the walk: both side indexes take in one operation. */
  method TakeIn(table: HashMapTable, dir: LookupDirectory, op: Op, ghost before: seq<Op>, ghost all: set<int>,
                producer: nat)
    requires Progress(table, dir, before, producer) && op.key in all && KeysOf(before) <= all
    requires |all| <= table.ht.Length && |all| <= dir.slots.Length
    modifies table.ht, dir.slots
    ensures Progress(table, dir, before + [op], producer)
  {
    ghost var keys := KeysOf(before);
    RoomForKey(keys, all, op.key, table.ht.Length);
    RoomForKey(keys, all, op.key, dir.slots.Length);
    KeysSnoc(before + [op]);
    assert (before + [op])[..|before|] == before;
    TakeInKey(table, op.key, keys, producer);
    TakeInOp(dir, op, before);
  }

  /** A durable chain that recovery can walk, with enough slots for its keys. */
  ghost predicate Durable(m: Memory, capacity: nat, spine: seq<Addr>, producer: nat, nodes: seq<Node>, slots: nat) {
    Sees(m, capacity, spine, producer, nodes) && Ascending(Log(nodes)) && |KeysOf(Log(nodes))| <= slots
  }

  ghost predicate Blank(table: HashMapTable, dir: LookupDirectory, slots: nat)
    reads table, table.ht, dir, dir.slots
  {
    table.Valid() && dir.Valid() && table.Map() == map[] && dir.Map() == map[]
    && table.ht.Length == dir.slots.Length == slots
  }

  /** The side indexes of a log: a directory that agrees with it, a pre-filter without false negatives. */
  ghost predicate Restored(table: HashMapTable, dir: LookupDirectory, log: seq<Op>)
    reads table, table.ht, dir, dir.slots
  {
    table.Valid() && dir.Valid() && DirectoryOf(dir.Map(), log) && forall o :: o in log ==> o.key in table.Map()
  }

  /**
    The walk over one producer's durable chain: afterwards the directory agrees with the chain, the
    pre-filter has no false negatives, and no sequence is above the maximum.
   */
  method RecoverChain(m: Memory, capacity: nat, ghost spine: seq<Addr>, producer: nat, ghost nodes: seq<Node>,
                      ghost slots: nat,
                      table: HashMapTable, dir: LookupDirectory, floor: nat) returns (maxSeq: nat, entries: nat)
    requires Durable(m, capacity, spine, producer, nodes, slots) && Blank(table, dir, slots)
    modifies table.ht, dir.slots
    ensures Restored(table, dir, Log(nodes))
    ensures Bounded(Log(nodes), floor, maxSeq) && entries == |Log(nodes)|
  {
    ghost var ops, all := [], KeysOf(Log(nodes));
    var current := m.head;
    ghost var i: nat := 0;
    maxSeq, entries := floor, 0;
    SameKeys(nodes);
    while current != NULL
      invariant i <= |spine| && current == Target(spine, i) && ops == Flatten(nodes[..i])
      invariant Progress(table, dir, ops, producer) && entries == |ops| && Bounded(ops, floor, maxSeq)
      decreases |spine| - i
    {
      assert Link(m, capacity, spine, i);
      FlattenSnoc(nodes, i);
      PrefixKeys(nodes, i);
      maxSeq := RecoverNode(m.cells[current], producer, table, dir, maxSeq, ops, all, floor);
      entries := entries + m.cells[current].count;
      ops := ops + nodes[i];
      current, i := m.cells[current].next, i + 1;
    }
    assert Link(m, capacity, spine, i);
    assert nodes[..i] == nodes;
    AllWalked(nodes, table, dir, producer, floor, maxSeq);
  }

  /** After the whole walk. */
  lemma AllWalked(nodes: seq<Node>, table: HashMapTable, dir: LookupDirectory, producer: nat, floor: nat, maxSeq: nat)
    requires Ascending(Log(nodes)) && Progress(table, dir, Flatten(nodes), producer)
             && Bounded(Flatten(nodes), floor, maxSeq)
    ensures Restored(table, dir, Log(nodes)) && Bounded(Log(nodes), floor, maxSeq) && |Flatten(nodes)| == |Log(nodes)|
  {
    RecoveredChain(nodes);
    SameOperations(nodes);
    SameLength(Flatten(nodes), Log(nodes));
    forall o | o in Log(nodes) ensures o.key in table.Map() && o.sequence <= maxSeq {
      SameMembers(Flatten(nodes), Log(nodes), o);
      var j :| 0 <= j < |Flatten(nodes)| && Flatten(nodes)[j] == o;
    }
    if maxSeq != floor {
      var o :| o in Flatten(nodes) && o.sequence == maxSeq;
      SameMembers(Flatten(nodes), Log(nodes), o);
    }
  }

  ghost predicate Bounded(ops: seq<Op>, floor: nat, maxSeq: nat) {
    && maxSeq >= floor && (forall o :: o in ops ==> o.sequence <= maxSeq)
    && (maxSeq == floor || exists o :: o in ops && o.sequence == maxSeq)
  }

  lemma BoundedSnoc(ops: seq<Op>, op: Op, floor: nat, maxSeq: nat)
    requires Bounded(ops, floor, maxSeq)
    ensures Bounded(ops + [op], floor, if op.sequence > maxSeq then op.sequence else maxSeq)
  {
    assert op in ops + [op];
    if maxSeq != floor {
      var o :| o in ops && o.sequence == maxSeq;
      assert o in ops + [op];
    }
  }

  lemma SameKeys(nodes: seq<Node>)
    ensures KeysOf(Flatten(nodes)) == KeysOf(Log(nodes))
  {
    SameOperations(nodes);
    var a, b := Flatten(nodes), Log(nodes);
    forall k ensures k in KeysOf(a) <==> k in KeysOf(b) {
      if k in KeysOf(a) {
        var i :| 0 <= i < |a| && a[i].key == k;
        SameMembers(a, b, a[i]);
        var j :| 0 <= j < |b| && b[j] == a[i];
      }
      if k in KeysOf(b) {
        var i :| 0 <= i < |b| && b[i].key == k;
        SameMembers(a, b, b[i]);
        var j :| 0 <= j < |a| && a[j] == b[i];
      }
    }
  }

  lemma PrefixKeys(nodes: seq<Node>, i: nat)
    requires i < |nodes|
    ensures KeysOf(Flatten(nodes[..i]) + nodes[i]) <= KeysOf(Flatten(nodes))
  {
    assert nodes == nodes[..i + 1] + nodes[i + 1..];
    FlattenConcat(nodes[..i + 1], nodes[i + 1..]);
    FlattenSnoc(nodes, i);
    var part, whole := Flatten(nodes[..i]) + nodes[i], Flatten(nodes);
    forall k | k in KeysOf(part) ensures k in KeysOf(whole) {
      var j :| 0 <= j < |part| && part[j].key == k;
      assert whole[j] == part[j];
    }
  }

  method RecoverNode(c: Cell, producer: nat, table: HashMapTable, dir: LookupDirectory, soFar: nat,
                     ghost before: seq<Op>, ghost all: set<int>, ghost floor: nat) returns (maxSeq: nat)
    requires c.count <= |c.keys| == |c.isDelete| == |c.sequence|
    requires Progress(table, dir, before, producer) && Bounded(before, floor, soFar)
    requires KeysOf(before + Entries(c, producer)) <= all && |all| <= table.ht.Length && |all| <= dir.slots.Length
    modifies table.ht, dir.slots
    ensures Progress(table, dir, before + Entries(c, producer), producer)
    ensures Bounded(before + Entries(c, producer), floor, maxSeq)
  {
    ghost var ops := Entries(c, producer);
    maxSeq := soFar;
    assert before + ops[..0] == before;
    for k := 0 to c.count
      invariant Progress(table, dir, before + ops[..k], producer) && Bounded(before + ops[..k], floor, maxSeq)
    {
      KeysWithin(before, ops, k);
      ghost var part := before + ops[..k];
      TakeIn(table, dir, EntryAt(c, k, producer), part, all, producer);
      BoundedSnoc(part, ops[k], floor, maxSeq);
      if c.sequence[k] > maxSeq { maxSeq := c.sequence[k]; }
    }
    assert ops[..c.count] == ops;
  }

  lemma KeysWithin(before: seq<Op>, ops: seq<Op>, k: nat)
    requires k < |ops|
    ensures KeysOf(before + ops[..k]) <= KeysOf(before + ops) && ops[k].key in KeysOf(before + ops)
    ensures before + ops[..k + 1] == before + ops[..k] + [ops[k]]
  {
    var part, whole := before + ops[..k], before + ops;
    forall x | x in KeysOf(part) ensures x in KeysOf(whole) {
      var j :| 0 <= j < |part| && part[j].key == x;
      assert whole[j] == part[j];
    }
    assert whole[|before| + k] == ops[k];
  }

  // ---------------------------------------------------------------- sequences after a restart

  /** The sequence counter that recovery stores, and the first sequence that the wrapper then hands out. */
  function ResumeSequence(durable: nat, maxSeq: nat): nat {
    (if durable > maxSeq then durable else maxSeq) + 1000000
  }

  function FirstSequence(resume: nat): (first: nat)
    ensures first == resume + 1
  {
    if resume + 1 > 1 then resume + 1 else 1
  }

  /** The producers' side indexes do not share storage. */
  ghost predicate Separate(tables: seq<HashMapTable>, dirs: seq<LookupDirectory>) {
    && |tables| == |dirs|
    && (forall p, q :: 0 <= p < q < |tables| ==> tables[p].ht != tables[q].ht)
    && (forall p, q :: 0 <= p < q < |dirs| ==> dirs[p].slots != dirs[q].slots)
  }

  ghost predicate BlankAt(tables: seq<HashMapTable>, dirs: seq<LookupDirectory>, slots: nat, p: nat)
    reads set q | 0 <= q < |tables| :: tables[q], set q | 0 <= q < |tables| :: tables[q].ht
    reads set q | 0 <= q < |dirs| :: dirs[q], set q | 0 <= q < |dirs| :: dirs[q].slots
  {
    p < |tables| && p < |dirs| && Blank(tables[p], dirs[p], slots)
  }

  ghost predicate RestoredAt(tables: seq<HashMapTable>, dirs: seq<LookupDirectory>, chains: Chains, p: nat)
    reads set q | 0 <= q < |tables| :: tables[q], set q | 0 <= q < |tables| :: tables[q].ht
    reads set q | 0 <= q < |dirs| :: dirs[q], set q | 0 <= q < |dirs| :: dirs[q].slots
  {
    p < |tables| && p < |dirs| && p < |chains| && Restored(tables[p], dirs[p], Log(chains[p]))
  }

  ghost predicate DurableAt(memories: seq<Memory>, capacity: nat, spines: seq<seq<Addr>>, chains: Chains, slots: nat,
                            p: nat) {
    p < |memories| && p < |spines| && p < |chains| && Durable(memories[p], capacity, spines[p], p, chains[p], slots)
  }

  /** The recovery pass over all producers, and the sequence counter it leaves. */
  method Recover(memories: seq<Memory>, capacity: nat, ghost spines: seq<seq<Addr>>, ghost chains: Chains,
                 ghost slots: nat,
                 tables: seq<HashMapTable>, dirs: seq<LookupDirectory>, durable: nat) returns (resume: nat)
    requires |memories| == |tables| && Separate(tables, dirs)
    requires forall p: nat {:trigger DurableAt(memories, capacity, spines, chains, slots, p)} ::
               p < |memories| ==> DurableAt(memories, capacity, spines, chains, slots, p)
    requires BlankFrom(tables, dirs, slots, 0)
    modifies set p | 0 <= p < |tables| :: tables[p].ht
    modifies set p | 0 <= p < |dirs| :: dirs[p].slots
    ensures RestoredBelow(tables, dirs, chains, |memories|)
    ensures resume >= durable + 1000000 && BoundedBelow(chains, |memories|, resume - 1000000)
    ensures resume == durable + 1000000 || Occurs(chains, |memories|, resume - 1000000)
  {
    var maxSeq := 0;
    for tid := 0 to |memories|
      invariant BlankFrom(tables, dirs, slots, tid) && RestoredBelow(tables, dirs, chains, tid)
                && BoundedBelow(chains, tid, maxSeq) && (maxSeq == 0 || Occurs(chains, tid, maxSeq))
    {
      ghost var floor := maxSeq;
      maxSeq := RecoverOne(memories, capacity, spines, chains, slots, tables, dirs, tid, maxSeq);
      BoundGrows(chains, tid, floor, maxSeq);
    }
    resume := ResumeSequence(durable, maxSeq);
  }

  /** The indexes from producer n on are as they were made. */
  ghost predicate BlankFrom(tables: seq<HashMapTable>, dirs: seq<LookupDirectory>, slots: nat, n: nat)
    reads set q | 0 <= q < |tables| :: tables[q], set q | 0 <= q < |tables| :: tables[q].ht
    reads set q | 0 <= q < |dirs| :: dirs[q], set q | 0 <= q < |dirs| :: dirs[q].slots
  {
    forall p: nat {:trigger BlankAt(tables, dirs, slots, p)} :: n <= p < |tables| ==> BlankAt(tables, dirs, slots, p)
  }

  /** Those below n are rebuilt. */
  ghost predicate RestoredBelow(tables: seq<HashMapTable>, dirs: seq<LookupDirectory>, chains: Chains, n: nat)
    reads set q | 0 <= q < |tables| :: tables[q], set q | 0 <= q < |tables| :: tables[q].ht
    reads set q | 0 <= q < |dirs| :: dirs[q], set q | 0 <= q < |dirs| :: dirs[q].slots
  {
    forall p: nat {:trigger RestoredAt(tables, dirs, chains, p)} :: p < n ==> RestoredAt(tables, dirs, chains, p)
  }

  ghost predicate BoundedBelow(chains: Chains, n: nat, maxSeq: nat) {
    forall p: nat {:trigger Log(chains[p])} :: p < n && p < |chains| ==>
      forall o :: o in Log(chains[p]) ==> o.sequence <= maxSeq
  }

  /** One of those producers has a durable operation with this sequence. */
  ghost predicate Occurs(chains: Chains, n: nat, sequence: nat) {
    exists p: nat, o {:trigger o in Log(chains[p])} ::
        p < n && p < |chains| && o in Log(chains[p]) && o.sequence == sequence
  }

  lemma BoundGrows(chains: Chains, n: nat, floor: nat, maxSeq: nat)
    requires n < |chains| && BoundedBelow(chains, n, floor) && (floor == 0 || Occurs(chains, n, floor))
    requires Bounded(Log(chains[n]), floor, maxSeq)
    ensures BoundedBelow(chains, n + 1, maxSeq) && (maxSeq == 0 || Occurs(chains, n + 1, maxSeq))
  {
  }

  /** One round of the pass leaves the other producers' indexes alone. */
  method RecoverOne(memories: seq<Memory>, capacity: nat, ghost spines: seq<seq<Addr>>, ghost chains: Chains,
                    ghost slots: nat,
                    tables: seq<HashMapTable>, dirs: seq<LookupDirectory>, tid: nat, floor: nat) returns (maxSeq: nat)
    requires |memories| == |tables| && Separate(tables, dirs) && tid < |memories|
    requires DurableAt(memories, capacity, spines, chains, slots, tid)
    requires BlankFrom(tables, dirs, slots, tid) && RestoredBelow(tables, dirs, chains, tid)
    modifies tables[tid].ht, dirs[tid].slots
    ensures BlankFrom(tables, dirs, slots, tid + 1) && RestoredBelow(tables, dirs, chains, tid + 1)
    ensures tid < |chains| && Bounded(Log(chains[tid]), floor, maxSeq)
  {
    forall p: nat | tid <= p < |tables|
      ensures Blank(tables[p], dirs[p], slots) { assert BlankAt(tables, dirs, slots, p); }
    forall p: nat | p < tid ensures p < |chains| && Restored(tables[p], dirs[p], Log(chains[p])) {
      assert RestoredAt(tables, dirs, chains, p);
    }
    var largest, entries := RecoverChain(memories[tid], capacity, spines[tid], tid, chains[tid], slots, tables[tid],
                                         dirs[tid], floor);
    forall p: nat | p <= tid ensures RestoredAt(tables, dirs, chains, p) { }
    forall p: nat | tid < p < |tables| ensures BlankAt(tables, dirs, slots, p) { }
    return largest;
  }

  /** After a restart every new operation is newer than every durable one, so chains stay ordered. */
  lemma RestartKeepsOrder(durable: nat, maxSeq: nat, log: seq<Op>, op: Op)
    requires Ascending(log) && (forall o :: o in log ==> o.sequence <= maxSeq)
    requires op.sequence >= FirstSequence(ResumeSequence(durable, maxSeq))
    ensures Ascending(log + [op]) && op.sequence > durable && op.sequence >= 1
  {
    forall i, j | 0 <= i < j < |log + [op]| ensures (log + [op])[i].sequence < (log + [op])[j].sequence {
      if j == |log| { assert log[i] in log; }
    }
  }
}
