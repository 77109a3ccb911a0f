/**
  The whole system on its real structures: linked chains, open-addressed tables and the B+-tree follow
  the protocol step by step, and contains() on them tells which keys are present.
 */
module Systems {
  import opened Ops
  import opened ChainLists
  import opened Replays
  import opened Drains
  import opened Protocol
  import opened PtfoChains
  import opened HashTables
  import opened Directories
  import opened Producers
  import Visibility
  import Lookups
  import EndToEnd
  import LatestEntries
  import Recovery
  import Wrapper
  import TreeShape
  import Tree

  // ---------------------------------------------------------------- the structures and the protocol's state

  ghost predicate ChainsAre(chains: seq<Chain>, c: Config, views: Chains)
    reads chains
  {
    && |chains| == c.producers && Lookups.ChainsOk(chains) && Lookups.Views(chains) == views
    && forall p :: 0 <= p < |chains| ==> chains[p].Valid() && chains[p].cardinality == c.capacity
  }

  /** The structures hold what the protocol says. */
  ghost predicate Reflects(chains: seq<Chain>, tables: seq<HashMapTable>, dirs: seq<LookupDirectory>, s: State,
                           c: Config)
    reads chains, tables, set q | 0 <= q < |tables| :: tables[q].ht
    reads dirs, set q | 0 <= q < |dirs| :: dirs[q].slots
  {
    ChainsAre(chains, c, s.chains) && TablesAre(tables, s.seen) && IndexesAre(dirs, s.dirs)
  }

  /** All tables have these sizes. */
  ghost predicate Sized(tables: seq<HashMapTable>, dirs: seq<LookupDirectory>, filter: nat, directory: nat)
  {
    && (forall p :: 0 <= p < |tables| ==> tables[p].ht.Length == filter)
    && (forall p :: 0 <= p < |dirs| ==> dirs[p].slots.Length == directory)
  }

  /** A producer's insertion finds its key, or a place for it, in both tables. */
  ghost predicate HasRoom(s: State, a: Action, filter: nat, directory: nat) {
    a.Insert? && a.p < |s.phases| && a.p < |s.seen| && a.p < |s.dirs| && s.phases[a.p].Ticketed? ==>
      var k := s.phases[a.p].op.key;
      && (k in s.seen[a.p] || |s.seen[a.p]| < filter)
      && (k in s.dirs[a.p] || |s.dirs[a.p]| < directory)
  }

  ghost predicate RoomyRun(s: State, c: Config, acts: seq<Action>, filter: nat, directory: nat)
    requires Legal(s, c, acts)
    decreases |acts|
  {
    acts == [] || (HasRoom(s, acts[0], filter, directory)
                   && RoomyRun(Step(s, c, acts[0]), c, acts[1..], filter, directory))
  }

  // ---------------------------------------------------------------- single steps

  method InsertIntoChains(chains: seq<Chain>, ghost c: Config, p: nat, op: Op, ghost views: Chains)
    requires (forall x, y :: 0 <= x < y < |chains| ==> chains[x] != chains[y]) && p < |chains| && op.producer == p
    requires ChainsAre(chains, c, views) && Ascending(Log(views[p]) + [op])
    modifies chains[p]
    ensures ChainsAre(chains, c, views[p := Push(views[p], op, c.capacity)])
  {
    chains[p].ValidIsUsable();
    InsertIntoChain(chains, p, op);
  }

  method ClearChains(chains: seq<Chain>, c: Config, ids: seq<nat>, ghost views: Chains)
    requires (forall x, y :: 0 <= x < y < |chains| ==> chains[x] != chains[y]) && InRange(views, ids)
    requires ChainsAre(chains, c, views)
    modifies chains
    ensures ChainsAre(chains, c, Cleared(views, ids))
  {
    assert Cleared(views, []) == views;
    for i := 0 to |ids|
      invariant ChainsAre(chains, c, Cleared(views, ids[..i]))
    {
      ClearChain(chains, ids[i]);
      assert Cleared(views, ids[..i + 1]) == Cleared(views, ids[..i])[ids[i] := []];
    }
    assert ids[..|ids|] == ids;
  }

  method ClearIndexes(dirs: seq<LookupDirectory>, ids: seq<nat>, ghost maps: seq<Directory>)
    requires (forall x, y :: 0 <= x < y < |dirs| ==> dirs[x].slots != dirs[y].slots)
    requires IndexesAre(dirs, maps) && forall i :: 0 <= i < |ids| ==> ids[i] < |dirs|
    modifies set q | 0 <= q < |dirs| :: dirs[q].slots
    ensures IndexesAre(dirs, DirsCleared(maps, ids))
  {
    assert DirsCleared(maps, []) == maps;
    for i := 0 to |ids|
      invariant IndexesAre(dirs, DirsCleared(maps, ids[..i]))
    {
      EmptyIndex(dirs, ids[i], DirsCleared(maps, ids[..i]));
      assert DirsCleared(maps, ids[..i + 1]) == DirsCleared(maps, ids[..i])[ids[i] := map[]];
    }
    assert ids[..|ids|] == ids;
  }

  // ---------------------------------------------------------------- what a drain reads

  method ReadChains(chains: seq<Chain>, ghost c: Config, ghost views: Chains) returns (nodes: Chains)
    requires ChainsAre(chains, c, views)
    ensures nodes == views
  {
    nodes := [];
    for p := 0 to |chains|
      invariant nodes == views[..p]
    {
      Lookups.ViewAt(chains, p);
      var more := chains[p].CollectNodes();
      nodes := nodes + [more];
    }
  }

  method ReadDirectories(dirs: seq<LookupDirectory>, ghost maps: seq<Directory>) returns (collected: seq<seq<Op>>)
    requires IndexesAre(dirs, maps)
    ensures LatestEntries.EnumeratesAll(collected, maps)
  {
    collected := [];
    for p := 0 to |dirs|
      invariant |collected| == p && forall q :: 0 <= q < p ==> LatestEntries.Enumerates(collected[q], maps[q])
    {
      assert IndexAt(dirs, maps, p);
      var entries := dirs[p].Collect();
      collected := collected + [entries];
    }
  }

  /** The operations that the snapshot of the directories still names. */
  method FilterLatest(ops: seq<Op>, latest: seq<Op>, ghost m: Directory) returns (kept: seq<Op>)
    requires LatestEntries.Represents(latest, m)
    ensures kept == KeepLatest(ops, m)
  {
    kept := [];
    for j := 0 to |ops|
      invariant kept == KeepLatest(ops[..j], m)
    {
      Wrapper.KeepLatestNext(ops, m, j);
      var keep := LatestEntries.IsLatestOp(ops[j], latest, m);
      if keep { kept := kept + [ops[j]]; }
    }
    assert ops[..|ops|] == ops;
  }

  lemma NoEmptyNodes(chains: seq<Chain>, c: Config, ids: seq<nat>, views: Chains)
    requires ChainsAre(chains, c, views) && InRange(views, ids)
    ensures forall i :: 0 <= i < |NodesOf(views, ids)| ==> NodesOf(views, ids)[i] != []
  {
    forall i | 0 <= i < |NodesOf(views, ids)| ensures NodesOf(views, ids)[i] != [] {
      var p := NodesOfMember(views, ids, i);
      Lookups.ViewAt(chains, p);
      chains[p].NodesAreItsOwn();
    }
  }

  /** The operations that a drain of the given producers applies, read from the chains and directories. */
  method OpsToApply(chains: seq<Chain>, dirs: seq<LookupDirectory>, c: Config, ids: seq<nat>, ghost views: Chains,
                    ghost maps: seq<Directory>)
    returns (ops: seq<Op>)
    requires ChainsAre(chains, c, views) && IndexesAre(dirs, maps) && InRange(views, ids)
    requires c.policy.F3N? ==> LatestEntries.NoTies(maps)
    ensures ops == Applied(c.policy, views, ids, maps)
    ensures c.policy.F3N? ==> OrderedByNodes(ops, NodesOf(views, ids))
  {
    NoEmptyNodes(chains, c, ids, views);
    if c.policy.F3N? { NodeOrderedIsOrdered(views, ids, maps); }
    var nodes := ReadChains(chains, c, views);
    match c.policy {
      case F3K => ops := LogsOf(nodes, ids);
      case Deterministic => ops := SortOps(Flatten(NodesOf(nodes, ids)));
      case F3N =>
        var collected := ReadDirectories(dirs, maps);
        var latest := LatestEntries.CollectLatest(collected, maps);
        ops := FilterLatest(Flatten(SortNodes(NodesOf(nodes, ids))), latest, Merged(maps));
    }
  }

  // ---------------------------------------------------------------- steps

  /** Every producer's own storage, of one size. */
  ghost predicate Separate(chains: seq<Chain>, tables: seq<HashMapTable>, dirs: seq<LookupDirectory>, filter: nat,
                           directory: nat) {
    Producers.Apart(chains, tables, dirs) && Sized(tables, dirs, filter, directory)
  }

  /** future_insert of a ticketed operation. */
  method InsertStep(chains: seq<Chain>, tables: seq<HashMapTable>, dirs: seq<LookupDirectory>, s: State, c: Config,
                    p: nat, ghost filter: nat, ghost directory: nat)
    requires Visibility.StructureOk(s, c) && Enabled(s, c, Insert(p)) && Reflects(chains, tables, dirs, s, c)
    requires Separate(chains, tables, dirs, filter, directory) && HasRoom(s, Insert(p), filter, directory)
    modifies chains[p], tables[p].ht, dirs[p].slots
    ensures Reflects(chains, tables, dirs, Step(s, c, Insert(p)), c)
  {
    var op := s.phases[p].op;
    TicketedIsNext(s, c, p);
    InsertIntoChains(chains, c, p, op, s.chains);
    InsertIntoTables(tables, dirs, p, op, s.seen, s.dirs);
  }

  /** A ticketed operation is its producer's, and newer than its chain. */
  lemma TicketedIsNext(s: State, c: Config, p: nat)
    requires Visibility.StructureOk(s, c) && Enabled(s, c, Insert(p))
    ensures s.phases[p].op.producer == p && Ascending(Log(s.chains[p]) + [s.phases[p].op])
  {
    assert Visibility.Ordered(s, p) && s.phases[p].op in Visibility.Extended(s, p);
  }

  method InsertIntoTables(tables: seq<HashMapTable>, dirs: seq<LookupDirectory>, p: nat, op: Op,
                          ghost seen: seq<set<int>>, ghost maps: seq<Directory>)
    requires forall x, y :: 0 <= x < y < |tables| ==> tables[x].ht != tables[y].ht
    requires forall x, y :: 0 <= x < y < |dirs| ==> dirs[x].slots != dirs[y].slots
    requires TablesAre(tables, seen) && p < |tables| && (op.key in seen[p] || |seen[p]| < tables[p].ht.Length)
    requires IndexesAre(dirs, maps) && p < |dirs| && (op.key in maps[p] || |maps[p]| < dirs[p].slots.Length)
    modifies tables[p].ht, dirs[p].slots
    ensures TablesAre(tables, seen[p := seen[p] + {op.key}]) && IndexesAre(dirs, maps[p := maps[p][op.key := op]])
  {
    AddKey(tables, p, op.key, seen);
    AddOp(dirs, p, op, maps);
  }

  /** The producers whose directories a drain empties: the drained ones, or all of them. */
  function Emptied(s: State, ids: seq<nat>, full: bool): seq<nat> {
    if full then seq(|s.dirs|, p => p) else ids
  }

  /** The replay of a drain. */
  method ReplayStep(tree: Tree.BTree, chains: seq<Chain>, dirs: seq<LookupDirectory>, s: State, c: Config,
                    ids: seq<nat>)
    requires ChainsAre(chains, c, s.chains) && IndexesAre(dirs, s.dirs) && InRange(s.chains, ids)
    requires c.policy.F3N? ==> LatestEntries.NoTies(s.dirs)
    requires EndToEnd.Mirrors(tree, s.tree)
    requires var ops := Applied(c.policy, s.chains, ids, s.dirs);
             EndToEnd.Applicable(s.tree, ops) && forall i :: 0 <= i < |ops| ==> EndToEnd.Fits(tree, ops[i].key)
    modifies tree
    ensures EndToEnd.Mirrors(tree, Replay(s.tree, Applied(c.policy, s.chains, ids, s.dirs)))
  {
    var ops := OpsToApply(chains, dirs, c, ids, s.chains, s.dirs);
    EndToEnd.ReplayIntoTree(tree, ops, s.tree);
  }

  /** One producer's chain, from the tail, node by node into the tree. */
  method DrainTail(tree: Tree.BTree, chains: seq<Chain>, c: Config, p: nat, ghost views: Chains,
                   ghost rest: seq<Op>, ghost now: Copies, ghost goal: Copies)
    requires (forall x, y :: 0 <= x < y < |chains| ==> chains[x] != chains[y]) && p < |chains|
             && ChainsAre(chains, c, views)
    requires EndToEnd.Remaining(tree, now, Log(views[p]) + rest, goal)
    modifies tree, chains[p]
    ensures ChainsAre(chains, c, views[p := []]) && EndToEnd.Remaining(tree, Replay(now, Log(views[p])), rest, goal)
  {
    forall q: nat | q < |chains|
      ensures Lookups.ChainAt(chains, q) && views[q] == chains[q].Nodes() { Lookups.ViewAt(chains, q); }
    chains[p].WhatIsDue();
    EndToEnd.DrainChain(tree, chains[p], rest, now, goal);
    assert Log([]) == [];
    forall q: nat ensures Lookups.ChainAt(chains, q) { }
    forall q: nat | q < |chains| ensures Lookups.Views(chains)[q] == views[p := []][q] { Lookups.ViewAt(chains, q); }
  }

  /** The producers from position i on are left. */
  ghost predicate TailsLeft(tree: Tree.BTree, chains: seq<Chain>, c: Config, ids: seq<nat>, i: nat, views: Chains,
                            now: Copies, goal: Copies)
    reads tree, chains
  {
    && InRange(views, ids) && i <= |ids| && ChainsAre(chains, c, Cleared(views, ids[..i]))
    && EndToEnd.Remaining(tree, now, LogsOf(views, ids[i..]), goal)
  }

  method DrainNext(tree: Tree.BTree, chains: seq<Chain>, c: Config, ids: seq<nat>, i: nat, ghost views: Chains,
                   ghost now: Copies, ghost goal: Copies) returns (ghost next: Copies)
    requires (forall x, y :: 0 <= x < y < |chains| ==> chains[x] != chains[y]) && Distinct(ids)
    requires i < |ids| && TailsLeft(tree, chains, c, ids, i, views, now, goal)
    modifies tree, chains
    ensures TailsLeft(tree, chains, c, ids, i + 1, views, next, goal)
  {
    NextToDrain(views, ids, i);
    DrainTail(tree, chains, c, ids[i], Cleared(views, ids[..i]), LogsOf(views, ids[i + 1..]), now, goal);
    next := Replay(now, Log(views[ids[i]]));
  }

  /** The F3-K drain: producer by producer. */
  method DrainTails(tree: Tree.BTree, chains: seq<Chain>, c: Config, ids: seq<nat>, ghost views: Chains,
                    ghost t: Copies, ghost goal: Copies)
    requires (forall x, y :: 0 <= x < y < |chains| ==> chains[x] != chains[y]) && Distinct(ids)
    requires TailsLeft(tree, chains, c, ids, 0, views, t, goal)
    modifies tree, chains
    ensures ChainsAre(chains, c, Cleared(views, ids)) && EndToEnd.Mirrors(tree, goal)
  {
    ghost var now := t;
    for i := 0 to |ids|
      invariant TailsLeft(tree, chains, c, ids, i, views, now, goal)
    {
      now := DrainNext(tree, chains, c, ids, i, views, now, goal);
    }
    assert ids[..|ids|] == ids;
  }

  /** An F3-K drain on the structures. */
  method DrainFromTails(tree: Tree.BTree, chains: seq<Chain>, dirs: seq<LookupDirectory>, s: State, c: Config,
                        ids: seq<nat>, emptied: seq<nat>)
    requires ChainsAre(chains, c, s.chains) && IndexesAre(dirs, s.dirs) && |dirs| == |s.chains|
    requires forall x, y :: 0 <= x < y < |chains| ==> chains[x] != chains[y]
    requires forall x, y :: 0 <= x < y < |dirs| ==> dirs[x].slots != dirs[y].slots
    requires InRange(s.chains, ids) && InRange(s.chains, emptied) && Distinct(ids)
    requires EndToEnd.Remaining(tree, s.tree, LogsOf(s.chains, ids), Replay(s.tree, LogsOf(s.chains, ids)))
    modifies tree, chains, set q | 0 <= q < |dirs| :: dirs[q].slots
    ensures EndToEnd.Mirrors(tree, Replay(s.tree, LogsOf(s.chains, ids)))
    ensures ChainsAre(chains, c, Cleared(s.chains, ids)) && IndexesAre(dirs, DirsCleared(s.dirs, emptied))
  {
    assert Cleared(s.chains, ids[..0]) == s.chains && ids[0..] == ids;
    DrainTails(tree, chains, c, ids, s.chains, s.tree, Replay(s.tree, LogsOf(s.chains, ids)));
    assert IndexesAre(dirs, s.dirs);
    ClearIndexes(dirs, emptied, s.dirs);
    assert ChainsAre(chains, c, Cleared(s.chains, ids));
  }

  lemma NextToDrain(views: Chains, ids: seq<nat>, i: nat)
    requires InRange(views, ids) && Distinct(ids) && i < |ids|
    ensures Cleared(views, ids[..i])[ids[i]] == views[ids[i]]
    ensures Cleared(views, ids[..i + 1]) == Cleared(views, ids[..i])[ids[i] := []]
    ensures LogsOf(views, ids[i..]) == Log(views[ids[i]]) + LogsOf(views, ids[i + 1..])
  {
    assert ids[i..][1..] == ids[i + 1..] && ids[i] !in ids[..i];
  }

  /** What a drain clears. */
  method ClearStep(chains: seq<Chain>, dirs: seq<LookupDirectory>, s: State, c: Config, ids: seq<nat>,
                   emptied: seq<nat>)
    requires ChainsAre(chains, c, s.chains) && IndexesAre(dirs, s.dirs) && |dirs| == |s.chains|
    requires forall x, y :: 0 <= x < y < |chains| ==> chains[x] != chains[y]
    requires forall x, y :: 0 <= x < y < |dirs| ==> dirs[x].slots != dirs[y].slots
    requires InRange(s.chains, ids) && InRange(s.chains, emptied)
    modifies chains, set q | 0 <= q < |dirs| :: dirs[q].slots
    ensures ChainsAre(chains, c, Cleared(s.chains, ids)) && IndexesAre(dirs, DirsCleared(s.dirs, emptied))
  {
    ClearChains(chains, c, ids, s.chains);
    assert IndexesAre(dirs, s.dirs);
    ClearIndexes(dirs, emptied, s.dirs);
    assert ChainsAre(chains, c, Cleared(s.chains, ids));
  }

  /** A drain: what it applies is read from the structures, replayed into the tree, and cleared. */
  method DrainStep(tree: Tree.BTree, chains: seq<Chain>, tables: seq<HashMapTable>, dirs: seq<LookupDirectory>,
                   s: State, c: Config, ids: seq<nat>, emptied: seq<nat>)
    requires Shape(s, c) && Reflects(chains, tables, dirs, s, c) && Producers.Apart(chains, tables, dirs)
    requires InRange(s.chains, ids) && InRange(s.chains, emptied) && Distinct(ids)
    requires c.policy.F3N? ==> LatestEntries.NoTies(s.dirs)
    requires EndToEnd.Mirrors(tree, s.tree)
    requires var ops := Applied(c.policy, s.chains, ids, s.dirs);
             EndToEnd.Applicable(s.tree, ops) && forall i :: 0 <= i < |ops| ==> EndToEnd.Fits(tree, ops[i].key)
    modifies tree, chains, set q | 0 <= q < |dirs| :: dirs[q].slots
    ensures EndToEnd.Mirrors(tree, Replay(s.tree, Applied(c.policy, s.chains, ids, s.dirs)))
    ensures ChainsAre(chains, c, Cleared(s.chains, ids)) && TablesAre(tables, s.seen)
            && IndexesAre(dirs, DirsCleared(s.dirs, emptied))
  {
    DrainAndClear(tree, chains, dirs, s, c, ids, emptied);
  }

  /** The pre-filters have no part in it. */
  method DrainAndClear(tree: Tree.BTree, chains: seq<Chain>, dirs: seq<LookupDirectory>, s: State, c: Config,
                       ids: seq<nat>, emptied: seq<nat>)
    requires ChainsAre(chains, c, s.chains) && IndexesAre(dirs, s.dirs) && |dirs| == |s.chains|
    requires forall x, y :: 0 <= x < y < |chains| ==> chains[x] != chains[y]
    requires forall x, y :: 0 <= x < y < |dirs| ==> dirs[x].slots != dirs[y].slots
    requires InRange(s.chains, ids) && InRange(s.chains, emptied) && Distinct(ids)
    requires c.policy.F3N? ==> LatestEntries.NoTies(s.dirs)
    requires EndToEnd.Mirrors(tree, s.tree)
    requires var ops := Applied(c.policy, s.chains, ids, s.dirs);
             EndToEnd.Applicable(s.tree, ops) && forall i :: 0 <= i < |ops| ==> EndToEnd.Fits(tree, ops[i].key)
    modifies tree, chains, set q | 0 <= q < |dirs| :: dirs[q].slots
    ensures EndToEnd.Mirrors(tree, Replay(s.tree, Applied(c.policy, s.chains, ids, s.dirs)))
    ensures ChainsAre(chains, c, Cleared(s.chains, ids)) && IndexesAre(dirs, DirsCleared(s.dirs, emptied))
  {
    if c.policy.F3K? {
      DrainFromTails(tree, chains, dirs, s, c, ids, emptied);
    } else {
      ReplayStep(tree, chains, dirs, s, c, ids);
      ClearStep(chains, dirs, s, c, ids, emptied);
    }
  }

  predicate IsDrain(s: State, a: Action) {
    a.DrainSlice? || (a.DrainAll? && s.pending != 0)
  }

  /** What a drain leaves of the parts that live in structures. */
  lemma DrainLeaves(s: State, c: Config, a: Action)
    requires Shape(s, c) && IsDrain(s, a)
    ensures var ids, s' := DrainedBy(s, a), Step(s, c, a);
            && s'.chains == Cleared(s.chains, ids) && s'.seen == s.seen
            && s'.dirs == DirsCleared(s.dirs, Emptied(s, ids, a.DrainAll?))
            && s'.tree == Replay(s.tree, Applied(c.policy, s.chains, ids, s.dirs))
            && EndToEnd.StepOps(s, c, a) == Applied(c.policy, s.chains, ids, s.dirs)
  {
    if a.DrainAll? {
      var all := Emptied(s, DrainedBy(s, a), true);
      forall p | 0 <= p < |s.dirs| ensures p in all { assert all[p] == p; }
      assert DirsCleared(s.dirs, all) == Repeated(|s.dirs|, map[]);
    }
  }

  /** A drain, on the structures. */
  method SystemDrain(tree: Tree.BTree, chains: seq<Chain>, tables: seq<HashMapTable>, dirs: seq<LookupDirectory>,
                     s: State, c: Config, a: Action, ghost w: Visibility.World, ghost owner: int -> nat)
    requires w.s == s && Visibility.WorldOk(w, c, owner) && IsDrain(s, a)
    requires Reflects(chains, tables, dirs, s, c) && Producers.Apart(chains, tables, dirs)
    requires EndToEnd.Mirrors(tree, s.tree) && EndToEnd.KeysFit(tree, s, c)
    modifies tree, chains, set q | 0 <= q < |dirs| :: dirs[q].slots
    ensures Reflects(chains, tables, dirs, Step(s, c, a), c) && EndToEnd.Mirrors(tree, Step(s, c, a).tree)
  {
    var ids := DrainedBy(s, a);
    EndToEnd.StepIsApplicable(w, c, owner, a);
    EndToEnd.StepOpsFit(tree, s, c, a);
    DrainLeaves(s, c, a);
    if c.policy.F3N? { EndToEnd.DirectoriesHaveNoTies(s, c); }
    DrainStep(tree, chains, tables, dirs, s, c, ids, Emptied(s, ids, a.DrainAll?));
  }

  /** One step of the protocol, on the structures. */
  method SystemStep(tree: Tree.BTree, chains: seq<Chain>, tables: seq<HashMapTable>, dirs: seq<LookupDirectory>,
                    s: State, c: Config, a: Action, ghost w: Visibility.World, ghost owner: int -> nat,
                    ghost filter: nat, ghost directory: nat) returns (s': State)
    requires w.s == s && Visibility.WorldOk(w, c, owner) && Enabled(s, c, a) && HasRoom(s, a, filter, directory)
    requires Reflects(chains, tables, dirs, s, c) && Separate(chains, tables, dirs, filter, directory)
    requires EndToEnd.Mirrors(tree, s.tree) && EndToEnd.KeysFit(tree, s, c)
    modifies tree, chains, set q | 0 <= q < |tables| :: tables[q].ht
    modifies set q | 0 <= q < |dirs| :: dirs[q].slots
    ensures s' == Step(s, c, a) && Reflects(chains, tables, dirs, s', c) && EndToEnd.Mirrors(tree, s'.tree)
  {
    s' := Step(s, c, a);
    if a.Insert? {
      InsertStep(chains, tables, dirs, s, c, a.p, filter, directory);
    } else if IsDrain(s, a) {
      SystemDrain(tree, chains, tables, dirs, s, c, a, w, owner);
    }
  }

  // ---------------------------------------------------------------- runs

  /** Structures, tree and protocol agree in a disciplined world. */
  ghost predicate InStep(tree: Tree.BTree, chains: seq<Chain>, tables: seq<HashMapTable>, dirs: seq<LookupDirectory>,
                         w: Visibility.World, c: Config, owner: int -> nat)
    reads tree, chains, tables, set q | 0 <= q < |tables| :: tables[q].ht
    reads dirs, set q | 0 <= q < |dirs| :: dirs[q].slots
  {
    && Visibility.WorldOk(w, c, owner) && EndToEnd.KeysFit(tree, w.s, c)
    && Reflects(chains, tables, dirs, w.s, c) && EndToEnd.Mirrors(tree, w.s.tree)
  }

  method NextInStep(tree: Tree.BTree, chains: seq<Chain>, tables: seq<HashMapTable>, dirs: seq<LookupDirectory>,
                    s: State, c: Config, a: Action, ghost w: Visibility.World, ghost owner: int -> nat,
                    ghost filter: nat, ghost directory: nat) returns (s': State)
    requires w.s == s && InStep(tree, chains, tables, dirs, w, c, owner)
             && Separate(chains, tables, dirs, filter, directory)
    requires Enabled(s, c, a) && Visibility.Disciplined(w, c, owner, a) && (c.policy.F3N? ==> Visibility.Careful(s, a))
    requires HasRoom(s, a, filter, directory) && (a.Ticket? ==> EndToEnd.Fits(tree, a.key))
    modifies tree, chains, set q | 0 <= q < |tables| :: tables[q].ht
    modifies set q | 0 <= q < |dirs| :: dirs[q].slots
    ensures s' == Step(s, c, a) && InStep(tree, chains, tables, dirs, Visibility.Next(w, c, a), c, owner)
  {
    Visibility.StepKeepsWorld(w, c, owner, a);
    EndToEnd.StepKeepsFit(tree, s, c, a);
    s' := SystemStep(tree, chains, tables, dirs, s, c, a, w, owner, filter, directory);
  }

  /** Over every disciplined run within the tables' capacity, structures and protocol stay in step. */
  method SystemRun(tree: Tree.BTree, chains: seq<Chain>, tables: seq<HashMapTable>, dirs: seq<LookupDirectory>,
                   start: State, c: Config, acts: seq<Action>, ghost w: Visibility.World, ghost owner: int -> nat,
                   ghost filter: nat, ghost directory: nat) returns (s: State)
    requires w.s == start && InStep(tree, chains, tables, dirs, w, c, owner)
             && Separate(chains, tables, dirs, filter, directory)
    requires Legal(start, c, acts) && Visibility.DisciplinedRun(w, c, owner, acts)
             && RoomyRun(start, c, acts, filter, directory)
    requires forall i :: 0 <= i < |acts| && acts[i].Ticket? ==> EndToEnd.Fits(tree, acts[i].key)
    modifies tree, chains, set q | 0 <= q < |tables| :: tables[q].ht
    modifies set q | 0 <= q < |dirs| :: dirs[q].slots
    ensures s == Run(start, c, acts) == Visibility.RunWorld(w, c, acts).s
    ensures InStep(tree, chains, tables, dirs, Visibility.RunWorld(w, c, acts), c, owner)
  {
    s := start;
    ghost var now := w;
    assert acts[0..] == acts;
    for i := 0 to |acts|
      invariant now.s == s && InStep(tree, chains, tables, dirs, now, c, owner)
      invariant Legal(s, c, acts[i..]) && Visibility.DisciplinedRun(now, c, owner, acts[i..])
                && RoomyRun(s, c, acts[i..], filter, directory)
      invariant Run(s, c, acts[i..]) == Run(start, c, acts)
                && Visibility.RunWorld(now, c, acts[i..]) == Visibility.RunWorld(w, c, acts)
    {
      assert acts[i..][0] == acts[i] && acts[i..][1..] == acts[i + 1..];
      ghost var next := Visibility.Next(now, c, acts[i]);
      s := NextInStep(tree, chains, tables, dirs, s, c, acts[i], now, owner, filter, directory);
      now := next;
    }
    assert acts[|acts|..] == [];
  }

  /** contains() on the structures, after any such run: exactly the present keys. */
  method Contains(tree: Tree.BTree, chains: seq<Chain>, tables: seq<HashMapTable>, ghost dirs: seq<LookupDirectory>,
                  key: int, ghost w: Visibility.World, ghost c: Config, ghost owner: int -> nat) returns (found: bool)
    requires InStep(tree, chains, tables, dirs, w, c, owner) && EndToEnd.Fits(tree, key)
    ensures found <==> key in w.members
  {
    forall p, o | 0 <= p < |w.s.chains| && o in Log(w.s.chains[p])
      ensures o.key in w.s.seen[p] { assert Visibility.Ordered(w.s, p); }
    CoveringSetsFilter(tables, w.s.seen, w.s.chains);
    found := EndToEnd.Contains(tree, chains, tables, key, w, c, owner);
  }

  // ---------------------------------------------------------------- room

  /** All keys that a run takes tickets for are among the given ones. */
  ghost predicate KeysAmong(acts: seq<Action>, keys: set<int>) {
    forall i :: 0 <= i < |acts| && acts[i].Ticket? ==> acts[i].key in keys
  }

  ghost predicate WithinKeys(s: State, c: Config, keys: set<int>)
    requires Shape(s, c)
  {
    && (forall p :: 0 <= p < c.producers ==> s.seen[p] <= keys)
    && (forall p :: 0 <= p < c.producers ==> s.dirs[p].Keys <= keys)
    && (forall p :: 0 <= p < c.producers && !s.phases[p].Idle? ==> s.phases[p].op.key in keys)
  }

  lemma StepWithinKeys(s: State, c: Config, a: Action, keys: set<int>)
    requires Shape(s, c) && Enabled(s, c, a) && WithinKeys(s, c, keys) && (a.Ticket? ==> a.key in keys)
    ensures Shape(Step(s, c, a), c) && WithinKeys(Step(s, c, a), c, keys)
  {
  }

  /** A run over no more keys than either table has slots always finds room. */
  lemma {:induction false} FewKeysHaveRoom(s: State, c: Config, acts: seq<Action>, keys: set<int>, filter: nat,
                                           directory: nat)
    requires Legal(s, c, acts) && Shape(s, c) && WithinKeys(s, c, keys) && KeysAmong(acts, keys)
    requires |keys| <= filter && |keys| <= directory
    ensures RoomyRun(s, c, acts, filter, directory)
    decreases |acts|
  {
    if acts != [] {
      var a := acts[0];
      if a.Insert? {
        var k := s.phases[a.p].op.key;
        Recovery.RoomForKey(s.seen[a.p], keys, k, filter);
        Recovery.RoomForKey(s.dirs[a.p].Keys, keys, k, directory);
        assert |s.dirs[a.p]| == |s.dirs[a.p].Keys|;
      }
      StepWithinKeys(s, c, a, keys);
      FewKeysHaveRoom(Step(s, c, a), c, acts[1..], keys, filter, directory);
    }
  }

  // ---------------------------------------------------------------- from a fresh system

  method MakeChains(c: Config) returns (chains: seq<Chain>)
    requires c.capacity > 0
    ensures ChainsAre(chains, c, Repeated(c.producers, [])) && (forall p :: 0 <= p < |chains| ==> fresh(chains[p]))
    ensures forall p, q :: 0 <= p < q < |chains| ==> chains[p] != chains[q]
  {
    chains := [];
    for n := 0 to c.producers
      invariant |chains| == n && (forall p, q :: 0 <= p < q < n ==> chains[p] != chains[q])
      invariant forall p :: 0 <= p < n ==> fresh(chains[p]) && chains[p].Valid() && chains[p].Nodes() == []
      invariant forall p :: 0 <= p < n ==> chains[p].producer == p && chains[p].cardinality == c.capacity
    {
      var chain := new Chain(n, c.capacity);
      chains := chains + [chain];
    }
    assert Log([]) == [];
    forall p: nat ensures Lookups.ChainAt(chains, p) { }
    forall p: nat | p < |chains| ensures Lookups.Views(chains)[p] == [] { Lookups.ViewAt(chains, p); }
  }

  function AtLeastOne(cap: int): nat {
    if cap > 0 then cap else 1
  }

  method MakeTables(n: nat, cap: int) returns (tables: seq<HashMapTable>)
    ensures TablesAre(tables, Repeated(n, {}))
            && (forall p :: 0 <= p < |tables| ==> fresh(tables[p]) && fresh(tables[p].ht))
    ensures forall p, q :: 0 <= p < q < |tables| ==> tables[p].ht != tables[q].ht
    ensures forall p :: 0 <= p < |tables| ==> tables[p].ht.Length == AtLeastOne(cap)
  {
    tables := [];
    for i := 0 to n
      invariant |tables| == i && forall p, q :: 0 <= p < q < i ==> tables[p].ht != tables[q].ht
      invariant forall p :: 0 <= p < i ==> fresh(tables[p]) && fresh(tables[p].ht) && TableIs(tables[p], {})
      invariant forall p :: 0 <= p < i ==> tables[p].ht.Length == AtLeastOne(cap)
    {
      var table := new HashMapTable(cap);
      tables := tables + [table];
    }
    ghost var seen: seq<set<int>> := Repeated(n, {});
    forall p: nat ensures TableAt(tables, seen, p) { }
  }

  method MakeDirectories(n: nat, cap: int) returns (dirs: seq<LookupDirectory>)
    ensures IndexesAre(dirs, Repeated(n, map[]))
            && (forall p :: 0 <= p < |dirs| ==> fresh(dirs[p]) && fresh(dirs[p].slots))
    ensures forall p, q :: 0 <= p < q < |dirs| ==> dirs[p].slots != dirs[q].slots
    ensures forall p :: 0 <= p < |dirs| ==> dirs[p].slots.Length == AtLeastOne(cap)
  {
    dirs := [];
    for i := 0 to n
      invariant |dirs| == i && forall p, q :: 0 <= p < q < i ==> dirs[p].slots != dirs[q].slots
      invariant forall p :: 0 <= p < i ==> fresh(dirs[p]) && fresh(dirs[p].slots) && IndexIs(dirs[p], map[])
      invariant forall p :: 0 <= p < i ==> dirs[p].slots.Length == AtLeastOne(cap)
    {
      var dir := new LookupDirectory(cap);
      dirs := dirs + [dir];
    }
    ghost var maps: seq<Directory> := Repeated(n, map[]);
    forall p: nat ensures IndexAt(dirs, maps, p) { }
  }

  ghost function Start(c: Config): Visibility.World {
    Visibility.World(Initial(c, multiset{}), {})
  }

  /** A fresh system is in step with the protocol's initial state. */
  method MakeSystem(c: Config, cardinality: nat, heapStart: int, filterSlots: int, directorySlots: int,
                    ghost owner: int -> nat)
    returns (tree: Tree.BTree, chains: seq<Chain>, tables: seq<HashMapTable>, dirs: seq<LookupDirectory>)
    requires ConfigOk(c) && c.capacity > 0 && 4 <= cardinality && 0 < heapStart
    ensures fresh(tree) && tree.heapStart == heapStart && (forall p :: 0 <= p < |chains| ==> fresh(chains[p]))
    ensures (forall p :: 0 <= p < |tables| ==> fresh(tables[p].ht))
            && forall p :: 0 <= p < |dirs| ==> fresh(dirs[p].slots)
    ensures Separate(chains, tables, dirs, AtLeastOne(filterSlots), AtLeastOne(directorySlots))
    ensures InStep(tree, chains, tables, dirs, Start(c), c, owner)
  {
    tree := new Tree.BTree(cardinality, heapStart);
    EndToEnd.EmptyMirrors(tree);
    Visibility.InitialWorld(c, owner, multiset{});
    var empty: Copies := multiset{};
    assert (set k | k in empty) == {} && Log([]) == [];
    chains := MakeChains(c);
    tables := MakeTables(c.producers, filterSlots);
    dirs := MakeDirectories(c.producers, directorySlots);
    assert Start(c).s.chains == Repeated(c.producers, []) && Start(c).s.seen == Repeated(c.producers, {});
    assert Start(c).s.dirs == Repeated(c.producers, map[]);
  }

  /** A key that fits a tree whose pages start at the given address. */
  ghost predicate LowKey(k: int, heapStart: int) {
    TreeShape.IsKey(k) && k != 0 && k < heapStart
  }

  /**
    From a fresh system: after every disciplined run of producers and drains over no more keys than the
    tables have slots, in any interleaving and under each of the three policies, contains(k) on the real
    structures tells whether k is present.
   */
  method RunThenContains(c: Config, acts: seq<Action>, key: int, cardinality: nat, heapStart: int,
                         filterSlots: int, directorySlots: int, ghost keys: set<int>, ghost owner: int -> nat)
                           returns (found: bool)
    requires ConfigOk(c) && c.capacity > 0 && 4 <= cardinality && 0 < heapStart
    requires Legal(Initial(c, multiset{}), c, acts) && Visibility.DisciplinedRun(Start(c), c, owner, acts)
    requires KeysAmong(acts, keys) && |keys| <= filterSlots && |keys| <= directorySlots
    requires (forall k :: k in keys ==> LowKey(k, heapStart)) && LowKey(key, heapStart)
    ensures found <==> key in Visibility.RunWorld(Start(c), c, acts).members
  {
    var tree, chains, tables, dirs := MakeSystem(c, cardinality, heapStart, filterSlots, directorySlots, owner);
    var s := Initial(c, multiset{});
    FewKeysHaveRoom(s, c, acts, keys, AtLeastOne(filterSlots), AtLeastOne(directorySlots));
    s := SystemRun(tree, chains, tables, dirs, s, c, acts, Start(c), owner, AtLeastOne(filterSlots),
                   AtLeastOne(directorySlots));
    found := Contains(tree, chains, tables, dirs, key, Visibility.RunWorld(Start(c), c, acts), c, owner);
  }
}
