/**
  What a drain preserves. A drain replays the chains of some producers into the tree and empties them.
  A key stays visible or invisible across it, under conditions that are exact where they can fail.
 */
module Drains {
  import opened Ops
  import opened ChainLists
  import opened Replays

  datatype Policy = F3K | F3N | Deterministic

  /** The operations that a policy applies for the given producers, in order. */
  function Applied(policy: Policy, chains: Chains, ids: seq<nat>, dirs: seq<Directory>): seq<Op>
    requires forall i :: 0 <= i < |ids| ==> ids[i] < |chains|
  {
    match policy
    case F3K => LogsOf(chains, ids)
    case F3N => NodeOrdered(chains, ids, dirs)
    case Deterministic => SortOps(Flatten(NodesOf(chains, ids)))
  }

  function Cleared(chains: Chains, ids: seq<nat>): (r: Chains)
    ensures |r| == |chains| && forall p :: 0 <= p < |r| ==> r[p] == if p in ids then [] else chains[p]
  {
    seq(|chains|, p requires 0 <= p < |chains| => if p in ids then [] else chains[p])
  }

  /** No key is buffered both by a drained and by an undrained producer. */
  ghost predicate NotSplit(chains: Chains, ids: seq<nat>, k: int) {
    forall p, q :: 0 <= p < |chains| && 0 <= q < |chains| && p in ids && q !in ids ==>
      !Touches(Log(chains[p]), k) || !Touches(Log(chains[q]), k)
  }

  /** The producers are distinct, and sequences identify operations. */
  ghost predicate Sane(chains: Chains, ids: seq<nat>) {
    InRange(chains, ids) && Distinct(ids) && GloballySequenced(chains)
  }

  /** Every directory agrees with its chain. */
  ghost predicate Indexed(chains: Chains, dirs: seq<Directory>) {
    |dirs| == |chains| &&
    forall p {:trigger DirectoryOf(dirs[p], Log(chains[p]))} :: 0 <= p < |dirs| ==> DirectoryOf(dirs[p], Log(chains[p]))
  }

  /** After the drain, a key of a drained producer is decided by the tree, any other key as before. */
  lemma DecidingAfterDrain(chains: Chains, ids: seq<nat>, k: int)
    requires InRange(chains, ids) && NotSplit(chains, ids, k) && GloballySequenced(chains)
    ensures var e := Deciding(chains, k);
            Deciding(Cleared(chains, ids), k) == if e.Some? && e.value in LogsOf(chains, ids) then None else e
  {
    var e, after := Deciding(chains, k), Cleared(chains, ids);
    DecidingIsNewest(chains, k);
    if e.Some? && e.value in LogsOf(chains, ids) {
      InLogsOf(chains, ids, e.value);
      var i :| 0 <= i < |ids| && e.value in Log(chains[ids[i]]);
      DecidingIdentified(chains, ids, k);
      TouchedBy(Log(chains[ids[i]]), e.value);
      DecidingIsNewest(after, k);
      forall q | 0 <= q < |after| ensures LastOf(Log(after[q]), k) == None {
        LastOfMember(Log(after[q]), k);
        if q !in ids { assert ids[i] in ids; }
      }
    } else {
      forall q | 0 <= q < |chains| ensures LastOf(Log(after[q]), k) == LastOf(Log(chains[q]), k) {
        if q in ids {
          LastOfMember(Log(chains[q]), k);
          if Touches(Log(chains[q]), k) { DrainedKeyDecidedThere(chains, ids, k, q); }
        }
      }
      DecidingAgrees(after, chains, k);
    }
  }

  lemma TouchedBy(log: seq<Op>, o: Op)
    requires o in log
    ensures Touches(log, o.key)
  {
    var i :| 0 <= i < |log| && log[i] == o;
  }

  /** If a drained chain touches the key, the deciding operation is among the drained ones. */
  lemma DrainedKeyDecidedThere(chains: Chains, ids: seq<nat>, k: int, q: nat)
    requires InRange(chains, ids) && NotSplit(chains, ids, k) && q < |chains| && q in ids && Touches(Log(chains[q]), k)
    ensures Deciding(chains, k).Some? && Deciding(chains, k).value in LogsOf(chains, ids)
  {
    DecidingIsNewest(chains, k);
    LastOfMember(Log(chains[q]), k);
    var e := Deciding(chains, k);
    var p :| 0 <= p < |chains| && LastOf(Log(chains[p]), k) == e;
    LastOfMember(Log(chains[p]), k);
    assert p in ids;
    var i :| 0 <= i < |ids| && ids[i] == p;
    InLogsOf(chains, ids, e.value);
  }

  // ---------------------------------------------------------------- F3-N

  /** Copies of a key after a node-ordered replay: one operation, the deciding one, or none. */
  lemma NodeOrderedCopies(t: Copies, chains: Chains, ids: seq<nat>, dirs: seq<Directory>, k: int)
    requires Sane(chains, ids) && Indexed(chains, dirs)
    ensures var e := Deciding(chains, k);
            Replay(t, NodeOrdered(chains, ids, dirs))[k] ==
              if e.Some? && e.value in LogsOf(chains, ids) then CopiesNext(t[k], e.value) else t[k]
  {
    ReplayCopies(t, NodeOrdered(chains, ids, dirs), k);
    NodeOrderedKey(chains, ids, dirs, k);
    var e := Deciding(chains, k);
    if e.Some? { assert [e.value][1..] == []; }
  }

  /**
    An F3-N drain keeps the visibility of a key exactly when it does not apply a delete to a key that
    the tree holds more than once.
   */
  lemma NodeDrainVisibility(t: Copies, chains: Chains, ids: seq<nat>, dirs: seq<Directory>, k: int)
    requires Sane(chains, ids) && Indexed(chains, dirs) && NotSplit(chains, ids, k)
    ensures var e := Deciding(chains, k);
            Visible(Replay(t, NodeOrdered(chains, ids, dirs)), Cleared(chains, ids), k) == Visible(t, chains, k)
            <==> !(e.Some? && e.value in LogsOf(chains, ids) && e.value.isDelete && t[k] >= 2)
  {
    NodeOrderedCopies(t, chains, ids, dirs, k);
    DecidingAfterDrain(chains, ids, k);
  }

  /** In particular, with at most one copy of every key in the tree, nothing changes for readers. */
  lemma NodeDrainKeepsContents(t: Copies, chains: Chains, ids: seq<nat>, dirs: seq<Directory>)
    requires Sane(chains, ids) && Indexed(chains, dirs) && forall k :: t[k] <= 1 && NotSplit(chains, ids, k)
    ensures forall k ::
              Visible(Replay(t, NodeOrdered(chains, ids, dirs)), Cleared(chains, ids), k) == Visible(t, chains, k)
  {
    forall k
      ensures Visible(Replay(t, NodeOrdered(chains, ids, dirs)), Cleared(chains, ids), k) == Visible(t, chains, k)
    {
      assert t[k] <= 1 && NotSplit(chains, ids, k);
      NodeDrainVisibility(t, chains, ids, dirs, k);
    }
  }

  /** A full drain applies one operation per buffered key. */
  lemma FullNodeDrainAppliesOnce(chains: Chains, ids: seq<nat>, dirs: seq<Directory>, k: int)
    requires Sane(chains, ids) && Indexed(chains, dirs)
    requires forall p :: 0 <= p < |chains| && p !in ids ==> Log(chains[p]) == []
    ensures |For(NodeOrdered(chains, ids, dirs), k)|
         == if exists p :: 0 <= p < |chains| && Touches(Log(chains[p]), k) then 1 else 0
  {
    NodeOrderedKey(chains, ids, dirs, k);
    DecidingIsNewest(chains, k);
    if p :| 0 <= p < |chains| && Touches(Log(chains[p]), k) {
      LastOfMember(Log(chains[p]), k);
      DrainedKeyDecidedThere(chains, ids, k, p);
    } else {
      forall p | 0 <= p < |chains| ensures LastOf(Log(chains[p]), k) == None { LastOfMember(Log(chains[p]), k); }
    }
  }

  /** The deciding operation of a key is the last of all its operations in sequence order. */
  lemma DecidingIsLastOverall(chains: Chains, ids: seq<nat>, k: int)
    requires InRange(chains, ids) && Distinct(ids) && GloballySequenced(chains)
    requires forall p :: 0 <= p < |chains| && p !in ids ==> Log(chains[p]) == []
    ensures LastOf(SortOps(Flatten(NodesOf(chains, ids))), k) == Deciding(chains, k)
  {
    var ops, logs := Flatten(NodesOf(chains, ids)), LogsOf(chains, ids);
    var sorted := SortOps(ops);
    CollectedOperations(chains, ids);
    GlobalImpliesSequenced(chains, ids);
    PermutedUnique(logs, ops);
    SortAscends(ops);
    SortPermutes(ops);
    LastIsLatest(sorted, k);
    DecidingIsNewest(chains, k);
    var e := Deciding(chains, k);
    forall o ensures o in sorted <==> o in logs { SameMembers(sorted, logs, o); }
    if e.Some? {
      FullDrainDecides(chains, ids, k);
      DecidingIdentified(chains, ids, k);
    }
    forall o | o in logs && o.key == k ensures e.Some? && o.sequence <= e.value.sequence {
      NoNewerThanDeciding(chains, ids, k, o);
    }
    LatestUnique(sorted, k, LastOf(sorted, k), e);
  }

  lemma NoNewerThanDeciding(chains: Chains, ids: seq<nat>, k: int, o: Op)
    requires InRange(chains, ids) && GloballySequenced(chains) && o in LogsOf(chains, ids) && o.key == k
    ensures Deciding(chains, k).Some? && o.sequence <= Deciding(chains, k).value.sequence
  {
    InLogsOf(chains, ids, o);
    var i :| 0 <= i < |ids| && o in Log(chains[ids[i]]);
    DecidingIsNewest(chains, k);
    LastIsLatest(Log(chains[ids[i]]), k);
    assert LastOf(Log(chains[ids[i]]), k).Some?;
  }

  /** When everything is drained, so is every deciding operation. */
  lemma FullDrainDecides(chains: Chains, ids: seq<nat>, k: int)
    requires InRange(chains, ids) && Deciding(chains, k).Some?
    requires forall p :: 0 <= p < |chains| && p !in ids ==> Log(chains[p]) == []
    ensures Deciding(chains, k).value in LogsOf(chains, ids)
  {
    DecidingIsNewest(chains, k);
    var p :| 0 <= p < |chains| && LastOf(Log(chains[p]), k) == Deciding(chains, k);
    LastOfMember(Log(chains[p]), k);
    DrainedKeyDecidedThere(chains, ids, k, p);
  }

  /**
    A full F3-N drain leaves the same keys in the tree as replaying the whole log in sequence order,
    when that log inserts a key only while the tree has no copy of it.
   */
  lemma NodeDrainEqualsFullReplay(t: Copies, chains: Chains, ids: seq<nat>, dirs: seq<Directory>, k: int)
    requires Sane(chains, ids) && Indexed(chains, dirs) && t[k] <= 1
    requires forall p :: 0 <= p < |chains| && p !in ids ==> Log(chains[p]) == []
    requires InsertsAbsent(t[k], For(SortOps(Flatten(NodesOf(chains, ids))), k))
    ensures k in Replay(t, NodeOrdered(chains, ids, dirs)) <==> k in Replay(t, SortOps(Flatten(NodesOf(chains, ids))))
  {
    NodeOrderedCopies(t, chains, ids, dirs, k);
    DecidingIsLastOverall(chains, ids, k);
    FullReplayDecided(t, SortOps(Flatten(NodesOf(chains, ids))), k);
    if Deciding(chains, k).Some? { FullDrainDecides(chains, ids, k); }
  }

  /** After a full replay that inserts only absent keys, the last operation on a key decides it. */
  lemma FullReplayDecided(t: Copies, ops: seq<Op>, k: int)
    requires t[k] <= 1 && InsertsAbsent(t[k], For(ops, k))
    ensures k in Replay(t, ops) <==> match LastOf(ops, k) case None => k in t case Some(op) => !op.isDelete
  {
    ReplayCopies(t, ops, k);
    LastOfFor(ops, k);
    if For(ops, k) != [] { LastDecides(t[k], For(ops, k)); }
  }

  // ---------------------------------------------------------------- F3-K and the sequence-ordered replay

  /** Only producer p buffers k. */
  ghost predicate OwnedBy(chains: Chains, k: int, p: nat) {
    p < |chains| && forall q :: 0 <= q < |chains| && q != p ==> !Touches(Log(chains[q]), k)
  }

  lemma OwnedDeciding(chains: Chains, k: int, p: nat)
    requires OwnedBy(chains, k, p)
    ensures Deciding(chains, k) == LastOf(Log(chains[p]), k)
  {
    DecidingIsNewest(chains, k);
    forall q | 0 <= q < |chains| && q != p
      ensures LastOf(Log(chains[q]), k) == None { LastOfMember(Log(chains[q]), k); }
  }

  /** Both policies apply a key's whole log, in order, when its producer is drained. */
  lemma LogReplayCopies(policy: Policy, t: Copies, chains: Chains, ids: seq<nat>, dirs: seq<Directory>, k: int, p: nat)
    requires Sane(chains, ids) && OwnedBy(chains, k, p) && !policy.F3N?
    ensures Replay(t, Applied(policy, chains, ids, dirs))[k]
         == if p in ids then CopiesAfter(t[k], For(Log(chains[p]), k)) else t[k]
  {
    ReplayCopies(t, Applied(policy, chains, ids, dirs), k);
    GlobalImpliesSequenced(chains, ids);
    LogsOfKey(chains, ids, k, p);
    SortedReplayKey(chains, ids, k, p);
  }

  /** The drained operations on k, in sequence order. */
  ghost predicate KeyLog(log: seq<Op>, chains: Chains, ids: seq<nat>, k: int)
    requires InRange(chains, ids)
  {
    Ascending(log) && multiset(log) == multiset(For(LogsOf(chains, ids), k))
  }

  /** F3-K applies a key's operations in order if at most one of the drained producers has any. */
  ghost predicate InOrder(policy: Policy, chains: Chains, ids: seq<nat>, k: int)
    requires InRange(chains, ids)
  {
    policy.F3K? ==> exists p :: 0 <= p < |chains| && OnlyProducer(chains, ids, k, p)
  }

  /** Then both policies apply exactly the key's log. */
  lemma AppliedIsLog(policy: Policy, chains: Chains, ids: seq<nat>, dirs: seq<Directory>, k: int, log: seq<Op>)
    requires Sane(chains, ids) && !policy.F3N? && InOrder(policy, chains, ids, k) && KeyLog(log, chains, ids, k)
    ensures For(Applied(policy, chains, ids, dirs), k) == log
  {
    GlobalImpliesSequenced(chains, ids);
    var logs, ops := LogsOf(chains, ids), Flatten(NodesOf(chains, ids));
    if policy.F3K? {
      var p :| 0 <= p < |chains| && OnlyProducer(chains, ids, k, p);
      LogsOfKey(chains, ids, k, p);
      assert Ascending(Log(chains[p]));
      ForAscends(Log(chains[p]), k);
      AscendingUnique(For(logs, k), log);
    } else {
      CollectedOperations(chains, ids);
      PermutedUnique(logs, ops);
      forall o ensures multiset(For(ops, k))[o] == multiset(For(logs, k))[o] {
        ForMultiset(ops, k, o);
        ForMultiset(logs, k, o);
      }
      SortedKey(ops, log, k);
    }
  }

  /** The last operation of the key's log is the deciding one, unless the key's operations are not drained. */
  lemma LogDecides(chains: Chains, ids: seq<nat>, k: int, log: seq<Op>)
    requires Sane(chains, ids) && NotSplit(chains, ids, k) && KeyLog(log, chains, ids, k)
    ensures log != [] ==> Deciding(chains, k) == Some(log[|log| - 1]) && Deciding(Cleared(chains, ids), k) == None
    ensures log == [] ==> Deciding(Cleared(chains, ids), k) == Deciding(chains, k)
  {
    DecidingAfterDrain(chains, ids, k);
    var e := Deciding(chains, k);
    forall o ensures o in log <==> o in LogsOf(chains, ids) && o.key == k {
      SameMembers(log, For(LogsOf(chains, ids), k), o);
      ForMembers(LogsOf(chains, ids), k, o);
    }
    if e.Some? { DecidingIdentified(chains, ids, k); }
    if log != [] {
      var last := log[|log| - 1];
      assert last in log;
      InLogsOf(chains, ids, last);
      var i :| 0 <= i < |ids| && last in Log(chains[ids[i]]);
      TouchedBy(Log(chains[ids[i]]), last);
      DrainedKeyDecidedThere(chains, ids, k, ids[i]);
      NoNewerThanDeciding(chains, ids, k, last);
      LastIsNewest(log, e.value);
    }
  }

  lemma LastIsNewest(log: seq<Op>, o: Op)
    requires Ascending(log) && o in log && log[|log| - 1].sequence <= o.sequence
    ensures o == log[|log| - 1]
  {
    var i :| 0 <= i < |log| && log[i] == o;
  }

  /**
    A drain that applies the whole log keeps the visibility of a key exactly when the key's last
    operation is not a delete that finds two or more copies. The deterministic replay may take the
    key from any number of producers.
   */
  lemma LogDrainVisibility(policy: Policy, t: Copies, chains: Chains, ids: seq<nat>, dirs: seq<Directory>, k: int,
                           log: seq<Op>)
    requires Sane(chains, ids) && !policy.F3N? && NotSplit(chains, ids, k) && InOrder(policy, chains, ids, k)
    requires KeyLog(log, chains, ids, k)
    ensures Visible(Replay(t, Applied(policy, chains, ids, dirs)), Cleared(chains, ids), k) == Visible(t, chains, k)
        <==> !(log != [] && log[|log| - 1].isDelete && CopiesAfter(t[k], log[..|log| - 1]) >= 2)
  {
    AppliedIsLog(policy, chains, ids, dirs, k, log);
    ReplayCopies(t, Applied(policy, chains, ids, dirs), k);
    LogDecides(chains, ids, k, log);
    if log != [] { LastDecidesExactly(t[k], log); }
  }

  /** It is enough that the log inserts the key only while it is absent. */
  lemma LogDrainKeepsVisible(policy: Policy, t: Copies, chains: Chains, ids: seq<nat>, dirs: seq<Directory>, k: int,
                             log: seq<Op>)
    requires Sane(chains, ids) && !policy.F3N? && NotSplit(chains, ids, k) && InOrder(policy, chains, ids, k)
    requires KeyLog(log, chains, ids, k) && t[k] <= 1 && InsertsAbsent(t[k], log)
    ensures Visible(Replay(t, Applied(policy, chains, ids, dirs)), Cleared(chains, ids), k) == Visible(t, chains, k)
  {
    FinalDeleteFindsOne(t[k], log);
    LogDrainVisibility(policy, t, chains, ids, dirs, k, log);
  }

  /** For the key of one producer the log is that producer's. */
  lemma OwnedLog(policy: Policy, chains: Chains, ids: seq<nat>, k: int, p: nat)
    requires Sane(chains, ids) && OwnedBy(chains, k, p)
    ensures KeyLog(if p in ids then For(Log(chains[p]), k) else [], chains, ids, k)
    ensures NotSplit(chains, ids, k) && InOrder(policy, chains, ids, k)
  {
    assert OnlyProducer(chains, ids, k, p) && Ascending(Log(chains[p]));
    LogsOfKey(chains, ids, k, p);
    ForAscends(Log(chains[p]), k);
  }

  // ---------------------------------------------------------------- a key that is split

  /**
    When an undrained producer buffers the key too, a drain keeps its visibility if and only if the
    newest operation left behind is of the same kind as the newest of all, whatever the tree becomes.
   */
  lemma SplitDrainVisibility(t: Copies, t': Copies, chains: Chains, ids: seq<nat>, k: int, q: nat)
    requires q < |chains| && q !in ids && Touches(Log(chains[q]), k)
    ensures var e, left := Deciding(chains, k), Deciding(Cleared(chains, ids), k);
            && e.Some? && left.Some?
            && (Visible(t', Cleared(chains, ids), k) == Visible(t, chains, k)
                <==> left.value.isDelete == e.value.isDelete)
  {
    LastOfMember(Log(chains[q]), k);
    DecidingIsNewest(chains, k);
    DecidingIsNewest(Cleared(chains, ids), k);
    assert Cleared(chains, ids)[q] == chains[q];
  }
}
