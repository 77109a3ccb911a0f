/**
  FutureBTree: the replay loops of the three policies, the drains, and the accounting of buffered
  operations, each proved equal to the step of the protocol that it implements.
 */
module Wrapper {
  import opened Ops
  import opened ChainLists
  import opened Replays
  import opened Drains
  import opened Protocol
  import opened Evaluators
  import opened LatestEntries
  import PtfoChains

  // ---------------------------------------------------------------- the guard of every replay loop

  /** The producers that a replay does not skip: those in range that have accounted entries. */
  function Kept(ids: seq<nat>, counts: seq<nat>): (kept: seq<nat>)
    ensures forall i :: 0 <= i < |kept| ==> kept[i] < |counts|
  {
    if ids == [] then []
    else
      var n := |ids| - 1;
      Kept(ids[..n], counts) + if Pending(ids[n], counts) then [ids[n]] else []
  }

  predicate Pending(p: nat, counts: seq<nat>) {
    p < |counts| && counts[p] > 0
  }

  lemma {:induction false} KeptMember(ids: seq<nat>, counts: seq<nat>, p: nat)
    ensures p in Kept(ids, counts) <==> p in ids && p < |counts| && counts[p] > 0
  {
    if ids != [] {
      var n := |ids| - 1;
      KeptMember(ids[..n], counts, p);
      assert ids == ids[..n] + [ids[n]];
    }
  }

  lemma {:induction false} KeptActive(ids: seq<nat>, counts: seq<nat>)
    requires forall i :: 0 <= i < |ids| ==> ids[i] < |counts| && counts[ids[i]] > 0
    ensures Kept(ids, counts) == ids
  {
    if ids != [] {
      var n := |ids| - 1;
      KeptActive(ids[..n], counts);
      assert ids == ids[..n] + [ids[n]];
    }
  }

  lemma KeptNext(ids: seq<nat>, counts: seq<nat>, i: nat)
    requires i < |ids|
    ensures Kept(ids[..i + 1], counts) == Kept(ids[..i], counts) + if Pending(ids[i], counts) then [ids[i]] else []
  {
    assert ids[..i + 1][..i] == ids[..i];
  }

  lemma Associative<T>(a: seq<T>, b: seq<T>, c: seq<T>)
    ensures a + (b + c) == a + b + c
  {
  }

  lemma {:induction false} NodesOfSnoc(chains: Chains, ids: seq<nat>, p: nat)
    requires InRange(chains, ids) && p < |chains|
    ensures InRange(chains, ids + [p]) && NodesOf(chains, ids + [p]) == NodesOf(chains, ids) + chains[p]
  {
    if ids == [] {
      assert [p][1..] == [] && ids + [p] == [p];
    } else {
      assert (ids + [p])[1..] == ids[1..] + [p];
      NodesOfSnoc(chains, ids[1..], p);
      Associative(chains[ids[0]], NodesOf(chains, ids[1..]), chains[p]);
    }
  }

  lemma {:induction false} LogsOfSnoc(chains: Chains, ids: seq<nat>, p: nat)
    requires InRange(chains, ids) && p < |chains|
    ensures InRange(chains, ids + [p]) && LogsOf(chains, ids + [p]) == LogsOf(chains, ids) + Log(chains[p])
  {
    if ids == [] {
      assert [p][1..] == [] && ids + [p] == [p];
    } else {
      assert (ids + [p])[1..] == ids[1..] + [p];
      LogsOfSnoc(chains, ids[1..], p);
      Associative(Log(chains[ids[0]]), LogsOf(chains, ids[1..]), Log(chains[p]));
    }
  }

  // ---------------------------------------------------------------- the three replays

  /** The collecting loop of the two sequence-ordered replays. */
  method Collect(chains: Chains, counts: seq<nat>, ids: seq<nat>) returns (nodes: seq<Node>)
    requires |chains| == |counts|
    ensures nodes == NodesOf(chains, Kept(ids, counts))
  {
    nodes := [];
    ghost var kept := [];
    for i := 0 to |ids|
      invariant kept == Kept(ids[..i], counts) && InRange(chains, kept) && nodes == NodesOf(chains, kept)
    {
      KeptNext(ids, counts, i);
      if Pending(ids[i], counts) {
        NodesOfSnoc(chains, kept, ids[i]);
        nodes := nodes + chains[ids[i]];
        kept := kept + [ids[i]];
      }
    }
    assert ids[..|ids|] == ids;
  }

  /** clear_ptfo_threads_for_producers. */
  method ClearThreads(chains: Chains, counts: seq<nat>, ids: seq<nat>) returns (cleared: Chains)
    requires |chains| == |counts|
    ensures cleared == Cleared(chains, Kept(ids, counts))
  {
    cleared := chains;
    ghost var kept := [];
    for i := 0 to |ids|
      invariant kept == Kept(ids[..i], counts) && cleared == Cleared(chains, kept)
    {
      KeptNext(ids, counts, i);
      if Pending(ids[i], counts) {
        cleared := cleared[ids[i] := []];
        kept := kept + [ids[i]];
      }
    }
    assert ids[..|ids|] == ids;
  }

  /** apply_key_ordered_ptfo_replay. */
  method KeyOrderedReplay(tree: Copies, chains: Chains, counts: seq<nat>, ids: seq<nat>)
    returns (result: Copies, cleared: Chains, applied: nat)
    requires |chains| == |counts|
    ensures var kept := Kept(ids, counts);
            && result == Replay(tree, Applied(Deterministic, chains, kept, []))
            && cleared == Cleared(chains, kept) && applied == |LogsOf(chains, kept)|
  {
    var nodes := Collect(chains, counts, ids);
    var ops := SortOps(Flatten(nodes));
    SortPermutes(Flatten(nodes));
    CollectedOperations(chains, Kept(ids, counts));
    SameLength(ops, LogsOf(chains, Kept(ids, counts)));
    result := PtfoChains.ReplayOps(tree, ops);
    applied := |ops|;
    cleared := ClearThreads(chains, counts, ids);
  }

  lemma {:induction false} ConcatNext(parts: seq<seq<nat>>, n: nat)
    requires n < |parts|
    ensures Concat(parts[..n + 1]) == Concat(parts[..n]) + parts[n]
    ensures Concat(parts[..n + 1]) <= Concat(parts)
    decreases |parts|
  {
    assert parts[..n + 1][..n] == parts[..n];
    if n + 1 == |parts| {
      assert parts[..n + 1] == parts;
    } else {
      var m := |parts| - 1;
      assert parts[..m][..n + 1] == parts[..n + 1] && parts[..m][..n] == parts[..n];
      ConcatNext(parts[..m], n);
    }
  }

  /** What a key-partitioned replay has done once it is past some producers. */
  ghost predicate DrainedSoFar(tree: Copies, chains: Chains, kept: seq<nat>, result: Copies, rest: Chains, applied: nat)
    requires InRange(chains, kept)
  {
    result == Replay(tree, LogsOf(chains, kept)) && rest == Cleared(chains, kept) && applied == |LogsOf(chains, kept)|
  }

  lemma DrainOneMore(tree: Copies, chains: Chains, kept: seq<nat>, p: nat, result: Copies, rest: Chains, applied: nat)
    requires InRange(chains, kept) && p < |chains| && p !in kept
             && DrainedSoFar(tree, chains, kept, result, rest, applied)
    ensures InRange(chains, kept + [p]) && rest[p] == chains[p]
    ensures DrainedSoFar(tree, chains, kept + [p], Replay(result, Log(chains[p])), rest[p := []],
                         applied + |Log(chains[p])|)
  {
    LogsOfSnoc(chains, kept, p);
    ReplayConcat(tree, LogsOf(chains, kept), Log(chains[p]));
    ClearedNext(chains, kept, p);
  }

  lemma ClearedNext(chains: Chains, kept: seq<nat>, p: nat)
    requires p < |chains|
    ensures Cleared(chains, kept + [p]) == Cleared(chains, kept)[p := []]
  {
    var a, b := Cleared(chains, kept + [p]), Cleared(chains, kept)[p := []];
    assert forall q :: 0 <= q < |chains| ==> a[q] == b[q];
  }

  lemma NotYet(done: seq<nat>, p: nat, ids: seq<nat>, counts: seq<nat>)
    requires Distinct(ids) && done + [p] <= ids
    ensures p !in Kept(done, counts)
  {
    KeptMember(done, counts, p);
    assert ids[|done|] == p;
    assert forall i :: 0 <= i < |done| ==> ids[i] == done[i];
  }

  /** One slot: drain each of its producers from the tail. */
  method DrainSlot(tree: Copies, ghost chains: Chains, counts: seq<nat>, part: seq<nat>, ghost done: seq<nat>,
                   ghost ids: seq<nat>,
                   t: Copies, now: Chains, count: nat) returns (result: Copies, rest: Chains, applied: nat)
    requires |chains| == |counts| && Distinct(ids) && done + part <= ids
    requires DrainedSoFar(tree, chains, Kept(done, counts), t, now, count)
    ensures DrainedSoFar(tree, chains, Kept(done + part, counts), result, rest, applied)
  {
    result, rest, applied := t, now, count;
    ghost var past, kept := done, Kept(done, counts);
    for i := 0 to |part|
      invariant past == done + part[..i] && kept == Kept(past, counts) && InRange(chains, kept)
      invariant DrainedSoFar(tree, chains, kept, result, rest, applied)
    {
      SlotNext(done, part, ids, counts, i);
      if Pending(part[i], counts) {
        DrainOneMore(tree, chains, kept, part[i], result, rest, applied);
        var log := Log(rest[part[i]]);
        result := PtfoChains.ReplayOps(result, log);
        rest := rest[part[i] := []];
        applied := applied + |log|;
        kept := kept + [part[i]];
      }
      past := past + [part[i]];
    }
    assert part[..|part|] == part;
  }

  /** The next producer of a slot: whether it is kept, and that it is not among those before it. */
  lemma SlotNext(done: seq<nat>, part: seq<nat>, ids: seq<nat>, counts: seq<nat>, i: nat)
    requires Distinct(ids) && done + part <= ids && i < |part|
    ensures done + part[..i + 1] == done + part[..i] + [part[i]]
    ensures Kept(done + part[..i + 1], counts)
         == Kept(done + part[..i], counts) + if Pending(part[i], counts) then [part[i]] else []
    ensures part[i] !in Kept(done + part[..i], counts)
  {
    var past := done + part[..i];
    assert (done + part)[..|past|] == past && (done + part)[..|past| + 1] == past + [part[i]];
    KeptNext(done + part, counts, |past|);
    NotYet(past, part[i], ids, counts);
  }

  /** apply_key_partitioned_ptfo_replay: slot by slot, each producer from the tail. */
  method KeyPartitionedReplay(tree: Copies, chains: Chains, counts: seq<nat>, ids: seq<nat>, slots: nat)
    returns (result: Copies, cleared: Chains, applied: nat)
    requires |chains| == |counts| && Distinct(ids)
    ensures var kept := Kept(ids, counts);
            && result == Replay(tree, Applied(F3K, chains, kept, []))
            && cleared == Cleared(chains, kept) && applied == |LogsOf(chains, kept)|
  {
    var parts := Partition(ids, slots);
    result, cleared, applied := tree, chains, 0;
    for slot := 0 to |parts|
      invariant DrainedSoFar(tree, chains, Kept(Concat(parts[..slot]), counts), result, cleared, applied)
    {
      ConcatNext(parts, slot);
      result, cleared, applied := DrainSlot(tree, chains, counts, parts[slot], Concat(parts[..slot]), ids, result,
                                            cleared, applied);
    }
    assert parts[..|parts|] == parts;
  }

  lemma KeepLatestNext(ops: seq<Op>, latest: Directory, i: nat)
    requires i < |ops|
    ensures KeepLatest(ops[..i + 1], latest)
            == KeepLatest(ops[..i], latest) + if IsLatestEntry(ops[i], latest) then [ops[i]] else []
  {
    assert ops[..i + 1] == ops[..i] + [ops[i]];
    KeepLatestConcat(ops[..i], [ops[i]], latest);
    assert [ops[i]][1..] == [];
  }

  lemma ReplayOneMore(tree: Copies, ops: seq<Op>, op: Op)
    ensures Replay(tree, ops + [op]) == Apply(Replay(tree, ops), op)
  {
    ReplayConcat(tree, ops, [op]);
    assert [op][1..] == [];
  }

  /** The operations of one node: only those that the snapshot still names are applied. */
  method ReplayNode(tree: Copies, ops: Node, latest: seq<Op>, ghost m: Directory) returns (result: Copies, applied: nat)
    requires Represents(latest, m)
    ensures result == Replay(tree, KeepLatest(ops, m)) && applied == |KeepLatest(ops, m)|
  {
    result, applied := tree, 0;
    ghost var kept := [];
    for j := 0 to |ops|
      invariant kept == KeepLatest(ops[..j], m) && result == Replay(tree, kept) && applied == |kept|
    {
      KeepLatestNext(ops, m, j);
      var keep := IsLatestOp(ops[j], latest, m);
      if keep {
        ReplayOneMore(tree, kept, ops[j]);
        result := Apply(result, ops[j]);
        applied := applied + 1;
        kept := kept + [ops[j]];
      }
    }
    assert ops[..|ops|] == ops;
  }

  /** apply_node_ordered_ptfo_replay, with the directory entries as they were collected. */
  method NodeOrderedReplay(tree: Copies, chains: Chains, counts: seq<nat>, ids: seq<nat>,
                           collected: seq<seq<Op>>, ghost dirs: seq<Directory>)
    returns (result: Copies, cleared: Chains, applied: nat)
    requires |chains| == |counts| && EnumeratesAll(collected, dirs) && NoTies(dirs)
    ensures var kept := Kept(ids, counts);
            && result == Replay(tree, Applied(F3N, chains, kept, dirs))
            && cleared == Cleared(chains, kept) && applied == |NodeOrdered(chains, kept, dirs)|
  {
    var latest := CollectLatest(collected, dirs);
    ghost var m := Merged(dirs);
    var nodes := Collect(chains, counts, ids);
    nodes := SortNodes(nodes);
    result, applied := tree, 0;
    for i := 0 to |nodes|
      invariant result == Replay(tree, KeepLatest(Flatten(nodes[..i]), m))
                && applied == |KeepLatest(Flatten(nodes[..i]), m)|
    {
      PtfoChains.FlattenSnoc(nodes, i);
      KeepLatestConcat(Flatten(nodes[..i]), nodes[i], m);
      ReplayConcat(tree, KeepLatest(Flatten(nodes[..i]), m), KeepLatest(nodes[i], m));
      var more;
      result, more := ReplayNode(result, nodes[i], latest, m);
      applied := applied + more;
    }
    assert nodes[..|nodes|] == nodes;
    cleared := ClearThreads(chains, counts, ids);
  }

  // ---------------------------------------------------------------- the wrapper

  datatype Outcome = Done | OutOfRange

  class FutureBTree {
    const config: Config
    var tree: Copies
    var chains: Chains
    var dirs: seq<Directory>
    var seen: seq<set<int>>
    var counts: seq<nat>
    var pending: int
    var byNode: seq<int>
    var nextSequence: nat
    var enqueued: nat
    var drained: nat
    /** Where each producer thread stands. */
    ghost var phases: seq<Phase>

    ghost function Now(): State
      reads this
    {
      State(tree, chains, dirs, seen, phases, counts, pending, byNode, nextSequence, enqueued, drained)
    }

    ghost predicate Valid()
      reads this
    {
      Shape(Now(), config)
    }

    constructor (config: Config)
      requires ConfigOk(config)
      ensures Valid() && this.config == config && Now() == Initial(config, multiset{})
    {
      this.config := config;
      tree := multiset{};
      chains, dirs := seq(config.producers, _ => []), seq(config.producers, _ => map[]);
      seen, counts := seq(config.producers, _ => {}), seq(config.producers, _ => 0);
      pending, byNode := 0, seq(config.nodes, _ => 0);
      nextSequence, enqueued, drained := 1, 0, 0;
      phases := seq(config.producers, _ => Idle);
    }

    // The three phases of a buffered operation. Other threads may step in between.

    method TakeSequence(p: nat, key: int, isDelete: bool) returns (op: Op)
      requires Valid() && Enabled(Now(), config, Ticket(p, key, isDelete))
      modifies this`nextSequence, this`phases
      ensures Valid() && Now() == Step(old(Now()), config, Ticket(p, key, isDelete)) && phases[p] == Ticketed(op)
    {
      op := Op(key, isDelete, nextSequence, p);
      nextSequence := nextSequence + 1;
      phases := phases[p := Ticketed(op)];
    }

    method FutureInsert(p: nat, op: Op)
      requires Valid() && Enabled(Now(), config, Insert(p)) && phases[p] == Ticketed(op)
      modifies this`chains, this`dirs, this`seen, this`phases
      ensures Valid() && Now() == Step(old(Now()), config, Insert(p))
    {
      chains := chains[p := Push(chains[p], op, config.capacity)];
      seen := seen[p := seen[p] + {op.key}];
      dirs := dirs[p := dirs[p][op.key := op]];
      phases := phases[p := Inserted(op)];
    }

    /** The accounting: the chain's new operation is covered by its producer's count, and all sums follow. */
    method CountIn(p: nat)
      requires Valid() && Enabled(Now(), config, Account(p))
      modifies this`counts, this`pending, this`byNode, this`phases, this`enqueued
      ensures Valid() && Now() == Step(old(Now()), config, Account(p))
      ensures old(AccountsOk(Now(), config)) ==> AccountsOk(Now(), config) && |Log(chains[p])| <= counts[p]
    {
      if AccountsOk(Now(), config) { AccountKeepsAccounts(Now(), config, p); }
      counts := counts[p := counts[p] + 1];
      pending := pending + 1;
      byNode := byNode[config.home[p] := byNode[config.home[p]] + 1];
      enqueued := enqueued + 1;
      phases := phases[p := Idle];
    }

    /** buffered_insert and erase_buffered by a thread that nobody interrupts. */
    method Buffer(key: int, isDelete: bool, p: nat) returns (outcome: Outcome)
      requires Valid() && (p < config.producers ==> phases[p].Idle?)
      modifies this
      ensures Valid() && (outcome == OutOfRange <==> p >= config.producers)
      ensures p >= config.producers ==> Now() == old(Now())
      ensures p < config.producers ==>
                Legal(old(Now()), config, [Ticket(p, key, isDelete), Insert(p), Account(p)]) &&
                Now() == Run(old(Now()), config, [Ticket(p, key, isDelete), Insert(p), Account(p)])
      ensures old(AccountsOk(Now(), config)) ==> AccountsOk(Now(), config)
    {
      if p >= config.producers { return OutOfRange; }
      ghost var s := Now();
      var op := TakeSequence(p, key, isDelete);
      FutureInsert(p, op);
      CountIn(p);
      RunOfThree(s, config, Ticket(p, key, isDelete), Insert(p), Account(p));
      if AccountsOk(s, config) { RunKeepsAccounts(s, config, [Ticket(p, key, isDelete), Insert(p), Account(p)]); }
      outcome := Done;
    }

    /** The replay of the configured policy, for producers with accounted entries. */
    method ReplayPolicy(ids: seq<nat>, slots: nat, collected: seq<seq<Op>>)
      requires Valid() && Distinct(ids) && forall i :: 0 <= i < |ids| ==> ids[i] < |counts| && Pending(ids[i], counts)
      requires config.policy.F3N? ==> EnumeratesAll(collected, dirs) && NoTies(dirs)
      modifies this`tree, this`chains
      ensures tree == Replay(old(tree), Applied(config.policy, old(chains), ids, dirs))
              && chains == Cleared(old(chains), ids)
    {
      KeptActive(ids, counts);
      var applied;
      match config.policy {
        case F3K => tree, chains, applied := KeyPartitionedReplay(tree, chains, counts, ids, slots);
        case F3N => tree, chains, applied := NodeOrderedReplay(tree, chains, counts, ids, collected, dirs);
        case Deterministic => tree, chains, applied := KeyOrderedReplay(tree, chains, counts, ids);
      }
    }

    /** The producers of the slice that have accounted entries, in ascending order. */
    method ActiveProducers(slice: set<nat>) returns (ids: seq<nat>, taken: nat)
      requires Valid()
      ensures ids == Active(counts, slice, |counts|) && Distinct(ids)
      ensures forall i :: 0 <= i < |ids| ==> ids[i] < |counts| && Pending(ids[i], counts)
      ensures taken == Taken(counts, ids)
    {
      ids, taken := [], 0;
      for p := 0 to |counts|
        invariant ids == Active(counts, slice, p) && forall i :: 0 <= i < |ids| ==> ids[i] < |counts|
        invariant taken == Taken(counts, ids)
      {
        if p in slice && counts[p] > 0 {
          TakenSnoc(counts, ids, p);
          ids := ids + [p];
          taken := taken + counts[p];
        }
      }
      ActivePending(counts, slice);
    }

    /** drain_locked. */
    method DrainAllLocked(collected: seq<seq<Op>>, slots: nat)
      requires Valid() && (config.policy.F3N? ==> EnumeratesAll(collected, dirs) && NoTies(dirs))
      modifies this
      ensures Valid() && Now() == FullDrain(old(Now()), config)
    {
      if pending == 0 { return; }
      var ids, taken := ActiveProducers(Everyone(|counts|));
      DrainEverything(ids, taken, collected, slots);
    }

    /** The replay, and the reset of all directories and counts. */
    method DrainEverything(ids: seq<nat>, taken: nat, collected: seq<seq<Op>>, slots: nat)
      requires Valid() && Distinct(ids) && forall i :: 0 <= i < |ids| ==> ids[i] < |counts| && Pending(ids[i], counts)
      requires config.policy.F3N? ==> EnumeratesAll(collected, dirs) && NoTies(dirs)
      requires taken == Taken(counts, ids)
      modifies this
      ensures Valid() && Now() == FullDrainOf(old(Now()), config, ids)
    {
      ReplayPolicy(ids, slots, collected);
      ResetAccounts(taken);
    }

    method ResetAccounts(taken: nat)
      modifies this`dirs, this`byNode, this`counts, this`pending, this`drained
      ensures dirs == Repeated(|old(dirs)|, map[]) && byNode == Repeated(|old(byNode)|, 0)
              && counts == Repeated(|old(counts)|, 0)
      ensures pending == 0 && drained == old(drained) + taken
    {
      drained := drained + taken;
      dirs := Repeated(|dirs|, map[]);
      byNode := Repeated(|byNode|, 0);
      counts := Repeated(|counts|, 0);
      pending := 0;
    }

    /** subtract_pending_counts_locked: the drained producers' entries leave all three kinds of counts. */
    method SubtractPending(ids: seq<nat>)
      requires Valid() && Distinct(ids) && forall i :: 0 <= i < |ids| ==> ids[i] < |counts|
      modifies this`counts, this`pending, this`byNode
      ensures counts == Zeroed(old(counts), ids) && pending == old(pending) - Taken(old(counts), ids)
      ensures byNode == Lowered(old(byNode), old(counts), ids, config.home)
    {
      ghost var before, nodes, all := counts, byNode, pending;
      assert Zeroed(before, []) == before;
      for i := 0 to |ids|
        invariant Subtracted(before, nodes, all, ids[..i])
      {
        NotBefore(ids, i);
        SubtractProducer(ids[i], before, nodes, all, ids[..i]);
      }
      assert ids[..|ids|] == ids;
    }

    /** The counts without these producers' entries. */
    ghost predicate Subtracted(before: seq<nat>, nodes: seq<int>, all: int, done: seq<nat>)
      reads this`counts, this`pending, this`byNode
      requires |config.home| == |before| && forall i :: 0 <= i < |done| ==> done[i] < |before|
    {
      counts == Zeroed(before, done) && pending == all - Taken(before, done)
      && byNode == Lowered(nodes, before, done, config.home)
    }

    /** One producer's entries leave all three kinds of counts. */
    method SubtractProducer(p: nat, ghost before: seq<nat>, ghost nodes: seq<int>, ghost all: int, ghost done: seq<nat>)
      requires |config.home| == |before| && p < |before| && config.home[p] < |nodes| && p !in done
      requires (forall i :: 0 <= i < |done| ==> done[i] < |before|) && Subtracted(before, nodes, all, done)
      modifies this`counts, this`pending, this`byNode
      ensures Subtracted(before, nodes, all, done + [p])
    {
      var node := config.home[p];
      ZeroedNext(before, done, p);
      TakenSnoc(before, done, p);
      LoweredNext(nodes, before, done, config.home, p);
      byNode := byNode[node := byNode[node] - counts[p]];
      pending := pending - counts[p];
      counts := counts[p := 0];
    }

    /** drain_locked_for_producers, and drain_locked_for_nodes with the nodes' producers as the slice. */
    method DrainSliceLocked(slice: set<nat>, collected: seq<seq<Op>>, slots: nat)
      requires Valid() && (config.policy.F3N? ==> EnumeratesAll(collected, dirs) && NoTies(dirs))
      modifies this
      ensures Valid() && Now() == SliceDrain(old(Now()), config, slice)
    {
      var ids, taken := ActiveProducers(slice);
      if ids == [] {
        NothingToDrain(Now(), config, slice);
        return;
      }
      DrainProducers(ids, taken, collected, slots);
    }

    method DrainProducers(ids: seq<nat>, taken: nat, collected: seq<seq<Op>>, slots: nat)
      requires Valid() && Distinct(ids) && forall i :: 0 <= i < |ids| ==> ids[i] < |counts| && Pending(ids[i], counts)
      requires config.policy.F3N? ==> EnumeratesAll(collected, dirs) && NoTies(dirs)
      requires taken == Taken(counts, ids)
      modifies this
      ensures Valid() && Now() == SliceDrainOf(old(Now()), config, ids)
    {
      ReplayPolicy(ids, slots, collected);
      drained := drained + taken;
      dirs := DirsCleared(dirs, ids);
      SubtractPending(ids);
    }
  }

  lemma NotBefore(ids: seq<nat>, i: nat)
    requires Distinct(ids) && i < |ids|
    ensures ids[..i + 1] == ids[..i] + [ids[i]] && ids[i] !in ids[..i]
  {
  }

  /** One more producer's count is zero. */
  lemma ZeroedNext(counts: seq<nat>, ids: seq<nat>, p: nat)
    requires p < |counts| && p !in ids
    ensures Zeroed(counts, ids + [p]) == Zeroed(counts, ids)[p := 0] && Zeroed(counts, ids)[p] == counts[p]
  {
  }

  /** Its node's count is lowered by its entries. */
  lemma LoweredNext(byNode: seq<int>, counts: seq<nat>, ids: seq<nat>, home: seq<nat>, p: nat)
    requires |home| == |counts| && p < |counts| && home[p] < |byNode|
             && forall i :: 0 <= i < |ids| ==> ids[i] < |counts|
    ensures var less := Lowered(byNode, counts, ids, home);
            Lowered(byNode, counts, ids + [p], home) == less[home[p] := less[home[p]] - counts[p]]
  {
    forall n | 0 <= n < |byNode|
      ensures TakenAt(counts, ids + [p], home, n) == TakenAt(counts, ids, home, n) + if home[p] == n then counts[p]
              else 0
    {
      TakenAtSnoc(counts, ids, home, n, p);
    }
  }

  lemma {:induction false} TakenSnoc(counts: seq<nat>, ids: seq<nat>, p: nat)
    requires p < |counts| && forall i :: 0 <= i < |ids| ==> ids[i] < |counts|
    ensures Taken(counts, ids + [p]) == Taken(counts, ids) + counts[p]
  {
    if ids == [] {
      assert [p][1..] == [] && ids + [p] == [p];
    } else {
      assert (ids + [p])[1..] == ids[1..] + [p];
      TakenSnoc(counts, ids[1..], p);
    }
  }

  lemma {:induction false} TakenAtSnoc(counts: seq<nat>, ids: seq<nat>, home: seq<nat>, node: nat, p: nat)
    requires |home| == |counts| && p < |counts| && forall i :: 0 <= i < |ids| ==> ids[i] < |counts|
    ensures TakenAt(counts, ids + [p], home, node)
            == TakenAt(counts, ids, home, node) + if home[p] == node then counts[p] else 0
  {
    if ids == [] {
      assert [p][1..] == [] && ids + [p] == [p];
    } else {
      assert (ids + [p])[1..] == ids[1..] + [p];
      TakenAtSnoc(counts, ids[1..], home, node, p);
    }
  }

  lemma ActivePending(counts: seq<nat>, slice: set<nat>)
    ensures var ids := Active(counts, slice, |counts|);
            Distinct(ids) && forall i :: 0 <= i < |ids| ==> ids[i] < |counts| && Pending(ids[i], counts)
  {
    ActiveInRange(counts, slice, |counts|);
    var ids := Active(counts, slice, |counts|);
    assert forall i :: 0 <= i < |ids| ==> ids[i] in ids;
  }

  /** A slice without accounted entries: the drain changes nothing. */
  lemma NothingToDrain(s: State, c: Config, slice: set<nat>)
    requires Shape(s, c) && Active(s.counts, slice, |s.counts|) == []
    ensures SliceDrain(s, c, slice) == s
  {
    ActiveInRange(s.counts, slice, |s.counts|);
    assert Applied(c.policy, s.chains, [], s.dirs) == [] by { assert NodesOf(s.chains, []) == []; }
    var s' := SliceDrain(s, c, slice);
    assert s'.byNode == s.byNode && s'.counts == s.counts && s'.chains == s.chains && s'.dirs == s.dirs;
  }
}
