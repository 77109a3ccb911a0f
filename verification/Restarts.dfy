/**
  The protocol after a reopening. Recovery brings back the chains and their indexes, but the wrapper
  starts with all accounts at zero, so drains do not see what was recovered.
 */
module Restarts {
  import opened Ops
  import opened ChainLists
  import opened Replays
  import opened Drains
  import opened Protocol
  import opened Visibility
  import Readers
  import Recovery
  import HashTables
  import Directories

  /** The state after a reopening: chains and indexes as recovered, threads idle, no accounts. */
  function Restarted(c: Config, tree: Copies, chains: Chains, dirs: seq<Directory>, seen: seq<set<int>>,
                     nextSequence: nat): State {
    State(tree, chains, dirs, seen, seq(c.producers, _ => Idle), seq(c.producers, _ => 0), 0, seq(c.nodes, _ => 0),
          nextSequence, 0, 0)
  }

  /** Every chain is the one before the crash, with or without the operation that was being inserted. */
  ghost predicate Survives(was: State, c: Config, chains: Chains)
    requires Shape(was, c)
  {
    |chains| == c.producers && forall p {:trigger chains[p]} :: 0 <= p < c.producers ==>
      Log(chains[p]) == Log(was.chains[p]) || Log(chains[p]) == Extended(was, p)
  }

  /**
    What recovery rebuilds: directories, pre-filters without false negatives, and a sequence above all
    durable ones.
   */
  ghost predicate Rebuilt(chains: Chains, dirs: seq<Directory>, seen: seq<set<int>>, nextSequence: nat) {
    && Indexed(chains, dirs) && |seen| == |chains|
    && forall p {:trigger chains[p]} :: 0 <= p < |chains| ==>
         forall o :: o in Log(chains[p]) ==> o.key in seen[p] && o.sequence < nextSequence
  }

  /** That is what the recovery pass leaves in the tables. */
  lemma RecoveryRebuilds(tables: seq<HashTables.HashMapTable>, indexes: seq<Directories.LookupDirectory>,
                         chains: Chains, resume: nat, dirs: seq<Directory>, seen: seq<set<int>>)
    requires |tables| == |indexes| == |dirs| == |seen| == |chains|
    requires Recovery.RestoredBelow(tables, indexes, chains, |chains|)
    requires Recovery.BoundedBelow(chains, |chains|, Recovery.FirstSequence(resume) - 1)
    requires forall p: nat {:trigger Recovery.RestoredAt(tables, indexes, chains, p)} ::
               p < |chains| && Recovery.RestoredAt(tables, indexes, chains, p) ==>
                 dirs[p] == indexes[p].Map() && seen[p] == tables[p].Map().Keys
    ensures Rebuilt(chains, dirs, seen, Recovery.FirstSequence(resume))
  {
    forall p | 0 <= p < |chains|
      ensures DirectoryOf(dirs[p], Log(chains[p]))
      ensures forall o :: o in Log(chains[p]) ==> o.key in seen[p] && o.sequence < Recovery.FirstSequence(resume)
    {
      assert Recovery.RestoredAt(tables, indexes, chains, p);
    }
  }

  /** Order, pre-filters and directories are as before the crash. */
  lemma RestartKeepsStructure(was: State, c: Config, tree: Copies, chains: Chains, dirs: seq<Directory>,
                              seen: seq<set<int>>, next: nat)
    requires StructureOk(was, c) && Survives(was, c, chains) && Rebuilt(chains, dirs, seen, next)
    ensures var s := Restarted(c, tree, chains, dirs, seen, next); StructureOk(s, c) && DirectoriesOk(s)
  {
    var s := Restarted(c, tree, chains, dirs, seen, next);
    forall p | 0 <= p < c.producers ensures Ordered(s, p) && forall o :: o in Extended(s, p) ==> o in Extended(was, p) {
      assert Ordered(was, p) && Extended(s, p) == Log(chains[p]);
      var now, ext := Log(chains[p]), Extended(was, p);
      assert forall i :: 0 <= i < |now| ==> now[i] == ext[i];
      assert forall o :: o in now ==> o in ext;
    }
    forall p, q | 0 <= p < c.producers && 0 <= q < c.producers && p != q ensures Apart(Extended(s, p), Extended(s, q)) {
      assert Apart(Extended(was, p), Extended(was, q));
    }
  }

  /** The operation on k that was being inserted, if any, when the crash came. */
  ghost predicate InFlight(was: State, p: nat, k: int) {
    p < |was.phases| && was.phases[p].Ticketed? && was.phases[p].op.key == k
  }

  /** A key without an operation in flight is answered as before the crash. */
  lemma RestartKeepsContents(was: State, c: Config, chains: Chains, k: int)
    requires Shape(was, c) && Survives(was, c, chains) && forall p :: 0 <= p < c.producers ==> !InFlight(was, p, k)
    ensures Visible(was.tree, chains, k) == Visible(was.tree, was.chains, k)
  {
    forall p | 0 <= p < c.producers ensures LastOf(Log(chains[p]), k) == LastOf(Log(was.chains[p]), k) {
      assert !InFlight(was, p, k);
      if Log(chains[p]) != Log(was.chains[p]) {
        assert Log(chains[p])[..|Log(was.chains[p])|] == Log(was.chains[p]);
      }
    }
    DecidingAgrees(chains, was.chains, k);
  }

  /** The accounts fit the chains, and a full drain is careful, only if nothing was recovered. */
  lemma RestartIsCareful(c: Config, tree: Copies, chains: Chains, dirs: seq<Directory>, seen: seq<set<int>>, next: nat)
    requires ConfigOk(c) && |chains| == |dirs| == |seen| == c.producers
    ensures var s := Restarted(c, tree, chains, dirs, seen, next);
            && (AccountsOk(s, c) <==> forall p :: 0 <= p < c.producers ==> Log(chains[p]) == [])
            && (Careful(s, DrainAll) <==> forall p :: 0 <= p < c.producers ==> Log(chains[p]) == [])
  {
    var s := Restarted(c, tree, chains, dirs, seen, next);
    forall n | 0 <= n < c.nodes ensures s.byNode[n] == SumAt(s.counts, c.home, n) { SumZero(s.counts, c.home, n); }
    SumZero(s.counts, c.home, 0);
    assert forall p :: 0 <= p < c.producers ==> (|Log(chains[p])| <= 0 <==> Log(chains[p]) == []);
  }

  /** Until a producer accounts for something new, no drain touches what was recovered. */
  lemma NoDrainAfterRestart(c: Config, tree: Copies, chains: Chains, dirs: seq<Directory>, seen: seq<set<int>>,
                            next: nat, a: Action)
    requires ConfigOk(c) && |chains| == |dirs| == |seen| == c.producers && (a.DrainAll? || a.DrainSlice?)
    ensures var s := Restarted(c, tree, chains, dirs, seen, next);
            Shape(s, c) && Step(s, c, a).chains == chains && Step(s, c, a).tree == tree
  {
    var s := Restarted(c, tree, chains, dirs, seen, next);
    DrainOf(s, c, a);
    if a.DrainSlice? { ActiveInRange(s.counts, a.slice, |s.counts|); }
    assert DrainedBy(s, a) == [];
    NothingApplied(c.policy, tree, chains, dirs);
  }

  lemma NothingApplied(policy: Policy, tree: Copies, chains: Chains, dirs: seq<Directory>)
    ensures Replay(tree, Applied(policy, chains, [], dirs)) == tree && Cleared(chains, []) == chains
  {
    assert NodesOf(chains, []) == [];
  }

  // ---------------------------------------------------------------- how recovered operations get lost

  /** Producer p has operations in its chain and none accounted for, and k is among them and its alone. */
  ghost predicate Overlooked(s: State, c: Config, p: nat, k: int) {
    && StructureOk(s, c) && DirectoriesOk(s) && c.policy.F3N?
    && p < c.producers && s.counts[p] == 0 && OwnedBy(s.chains, k, p)
  }

  lemma {:induction false} MergedFrom(dirs: seq<Directory>, k: int)
    requires forall q :: 0 <= q < |dirs| ==> k !in dirs[q]
    ensures k !in Merged(dirs)
  {
    if dirs != [] { MergedFrom(dirs[..|dirs| - 1], k); }
  }

  lemma {:induction false} DropsUnindexed(ops: seq<Op>, latest: Directory, k: int)
    requires k !in latest
    ensures For(KeepLatest(ops, latest), k) == []
  {
    if ops != [] { DropsUnindexed(ops[1..], latest, k); }
  }

  /** An F3-N replay without a directory entry for k applies nothing to k. */
  lemma UnindexedKeyUntouched(t: Copies, chains: Chains, ids: seq<nat>, dirs: seq<Directory>, k: int)
    requires InRange(chains, ids) && forall q :: 0 <= q < |dirs| ==> k !in dirs[q]
    ensures Replay(t, NodeOrdered(chains, ids, dirs))[k] == t[k]
  {
    MergedFrom(dirs, k);
    DropsUnindexed(Flatten(SortNodes(NodesOf(chains, ids))), Merged(dirs), k);
    ReplayCopies(t, NodeOrdered(chains, ids, dirs), k);
  }

  /** The first full drain clears all directories, and passes over the chain of p. */
  lemma DirectoryIsCleared(s: State, c: Config, p: nat, k: int)
    requires Overlooked(s, c, p, k) && s.pending != 0
    ensures var s' := Step(s, c, DrainAll);
            && Shape(s', c) && s'.chains[p] == s.chains[p] && s'.tree[k] == s.tree[k] && s'.phases == s.phases
            && (forall q :: 0 <= q < |s'.dirs| ==> s'.dirs[q] == map[])
            && (forall q :: 0 <= q < |s'.counts| ==> s'.counts[q] == 0)
            && OwnedBy(s'.chains, k, p) && s'.pending == 0
  {
    DrainOf(s, c, DrainAll);
    DrainedByAll(s, p);
    ElsewhereUntouched(s, c, p, k, DrainedBy(s, DrainAll));
    OwnedAfterDrain(s.chains, DrainedBy(s, DrainAll), k, p);
  }

  lemma ElsewhereUntouched(s: State, c: Config, p: nat, k: int, ids: seq<nat>)
    requires Overlooked(s, c, p, k) && InRange(s.chains, ids) && Distinct(ids) && p !in ids
    ensures Replay(s.tree, Applied(c.policy, s.chains, ids, s.dirs))[k] == s.tree[k]
  {
    StructureImpliesSequenced(s, c);
    Readers.DrainElsewhere(c.policy, s.tree, s.chains, ids, s.dirs, k, p);
  }

  lemma OwnedAfterDrain(chains: Chains, ids: seq<nat>, k: int, p: nat)
    requires OwnedBy(chains, k, p)
    ensures OwnedBy(Cleared(chains, ids), k, p)
  {
    assert Log([]) == [];
  }

  /** p inserts something else and accounts for it; the next full drain then empties its chain. */
  lemma ChainIsThrownAway(s: State, c: Config, p: nat, k: int, other: int, isDelete: bool)
    requires Shape(s, c) && c.policy.F3N? && p < c.producers && s.phases[p].Idle? && OwnedBy(s.chains, k, p)
             && other != k
    requires (forall q :: 0 <= q < |s.dirs| ==> k !in s.dirs[q]) && s.pending >= 0
    ensures var s2 := Step(Step(s, c, Ticket(p, other, isDelete)), c, Insert(p));
            var s3 := Step(s2, c, Account(p));
            var s4 := Step(s3, c, DrainAll);
            s4.tree[k] == s.tree[k] && s4.chains[p] == [] && Deciding(s4.chains, k) == None
  {
    var s1 := Step(s, c, Ticket(p, other, isDelete));
    var s2 := Step(s1, c, Insert(p));
    var s3 := Step(s2, c, Account(p));
    var s4 := Step(s3, c, DrainAll);
    assert s3.counts[p] > 0 && s3.pending != 0 && s3.tree == s.tree;
    UnindexedDrain(s3, c, p, k);
  }

  /** A full drain that takes p's chain while no directory has k. */
  lemma UnindexedDrain(s: State, c: Config, p: nat, k: int)
    requires Shape(s, c) && c.policy.F3N? && p < c.producers && s.counts[p] > 0 && s.pending != 0
    requires (forall q :: 0 <= q < |s.dirs| ==> k !in s.dirs[q]) && OwnedBy(s.chains, k, p)
    ensures var e := Step(s, c, DrainAll); e.tree[k] == s.tree[k] && e.chains[p] == [] && Deciding(e.chains, k) == None
  {
    DrainOf(s, c, DrainAll);
    DrainedByAll(s, p);
    DrainedUnindexed(s.tree, s.chains, DrainedBy(s, DrainAll), s.dirs, k, p);
  }

  lemma DrainedUnindexed(t: Copies, chains: Chains, ids: seq<nat>, dirs: seq<Directory>, k: int, p: nat)
    requires InRange(chains, ids) && p in ids && OwnedBy(chains, k, p) && forall q :: 0 <= q < |dirs| ==> k !in dirs[q]
    ensures Replay(t, NodeOrdered(chains, ids, dirs))[k] == t[k]
    ensures Cleared(chains, ids)[p] == [] && Deciding(Cleared(chains, ids), k) == None
  {
    UnindexedKeyUntouched(t, chains, ids, dirs, k);
    OwnedAfterDrain(chains, ids, k, p);
    OwnedDeciding(Cleared(chains, ids), k, p);
    assert Log([]) == [];
  }

  function Losing(p: nat, other: int, isDelete: bool): seq<Action> {
    [DrainAll] + [Ticket(p, other, isDelete), Insert(p), Account(p)] + [DrainAll]
  }

  /**
    From every state in which an F3-N producer has buffered operations and none accounted for, as
    every producer with a recovered chain has: a full drain, one more operation of that producer, and
    the next full drain throw all its other operations away, whatever they were.
   */
  lemma OverlookedOperationsAreLost(s: State, c: Config, p: nat, k: int, other: int, isDelete: bool)
    requires Overlooked(s, c, p, k) && s.phases[p].Idle? && s.pending > 0 && other != k
    ensures Legal(s, c, Losing(p, other, isDelete))
    ensures var e := Run(s, c, Losing(p, other, isDelete));
            p < |e.chains| && e.chains[p] == [] && e.tree[k] == s.tree[k]
            && (Visible(e.tree, e.chains, k) <==> k in s.tree)
  {
    var s1 := Step(s, c, DrainAll);
    DirectoryIsCleared(s, c, p, k);
    var s2 := Step(s1, c, Ticket(p, other, isDelete));
    var s3 := Step(s2, c, Insert(p));
    var s4 := Step(s3, c, Account(p));
    ChainIsThrownAway(s1, c, p, k, other, isDelete);
    RunOfOne(s, c, DrainAll);
    RunOfThree(s1, c, Ticket(p, other, isDelete), Insert(p), Account(p));
    RunOfOne(s4, c, DrainAll);
    RunConcat(s, c, [DrainAll], [Ticket(p, other, isDelete), Insert(p), Account(p)]);
    RunConcat(s, c, [DrainAll] + [Ticket(p, other, isDelete), Insert(p), Account(p)], [DrainAll]);
  }

  /** A producer that has inserted and not accounted yet loses everything by its own accounting. */
  lemma InFlightOperationsAreLost(s: State, c: Config, p: nat, k: int)
    requires Overlooked(s, c, p, k) && s.phases[p].Inserted? && s.pending > 0
    ensures Legal(s, c, [DrainAll, Account(p), DrainAll])
    ensures var e := Run(s, c, [DrainAll, Account(p), DrainAll]);
            p < |e.chains| && e.chains[p] == [] && e.tree[k] == s.tree[k]
            && (Visible(e.tree, e.chains, k) <==> k in s.tree)
  {
    var s1 := Step(s, c, DrainAll);
    DirectoryIsCleared(s, c, p, k);
    var s2 := Step(s1, c, Account(p));
    UnindexedDrain(s2, c, p, k);
    RunOfThree(s, c, DrainAll, Account(p), DrainAll);
  }

  /** After a restart it takes one accounted operation of another producer to get there. */
  lemma RestartLeadsThere(was: State, c: Config, tree: Copies, chains: Chains, dirs: seq<Directory>,
                          seen: seq<set<int>>, next: nat, p: nat, k: int, q: nat, y: int)
    requires StructureOk(was, c) && Survives(was, c, chains) && Rebuilt(chains, dirs, seen, next) && c.policy.F3N?
    requires p < c.producers && q < c.producers && p != q && y != k && OwnedBy(chains, k, p)
    ensures var s := Restarted(c, tree, chains, dirs, seen, next);
            var acts := [Ticket(q, y, false), Insert(q), Account(q)];
            Legal(s, c, acts) && Overlooked(Run(s, c, acts), c, p, k) && Run(s, c, acts).phases[p].Idle?
            && Run(s, c, acts).pending == 1
            && Run(s, c, acts).chains[p] == chains[p] && Run(s, c, acts).tree == tree
  {
    var s := Restarted(c, tree, chains, dirs, seen, next);
    RestartKeepsStructure(was, c, tree, chains, dirs, seen, next);
    var acts := [Ticket(q, y, false), Insert(q), Account(q)];
    RunOfThree(s, c, Ticket(q, y, false), Insert(q), Account(q));
    BufferingKeepsIndexes(s, c, q, y);
    BufferingElsewhere(s, c, q, y, p, k);
  }

  lemma BufferingElsewhere(s: State, c: Config, q: nat, y: int, p: nat, k: int)
    requires Shape(s, c) && q < c.producers && s.phases[q].Idle? && p != q && y != k && OwnedBy(s.chains, k, p)
    ensures var e := Step(Step(Step(s, c, Ticket(q, y, false)), c, Insert(q)), c, Account(q));
            && Shape(e, c) && OwnedBy(e.chains, k, p) && e.chains[p] == s.chains[p] && e.tree == s.tree
            && e.counts[p] == s.counts[p] && e.phases[p] == s.phases[p] && e.pending == s.pending + 1
  {
    var s1 := Step(s, c, Ticket(q, y, false));
    AppendedLog(s.chains[q], s1.phases[q].op, c.capacity, k);
  }

  lemma BufferingKeepsIndexes(s: State, c: Config, q: nat, y: int)
    requires StructureOk(s, c) && DirectoriesOk(s) && q < c.producers && s.phases[q].Idle?
    ensures var e := Step(Step(Step(s, c, Ticket(q, y, false)), c, Insert(q)), c, Account(q));
            StructureOk(e, c) && DirectoriesOk(e)
  {
    var s1 := Step(s, c, Ticket(q, y, false));
    var s2 := Step(s1, c, Insert(q));
    StepKeepsStructure(s, c, Ticket(q, y, false));
    StepKeepsStructure(s1, c, Insert(q));
    StepKeepsStructure(s2, c, Account(q));
    StepKeepsDirectories(s, c, Ticket(q, y, false));
    StepKeepsDirectories(s1, c, Insert(q));
    StepKeepsDirectories(s2, c, Account(q));
  }
}
