/**
  contains(k) running beside producers and drains.

  A reader takes the producers one by one: it probes the producer's pre-filter without a lock, and on
  a hit walks the producer's chain under the chain's lock. Only then does it read the tree. Anything
  may happen between two of these steps.
 */
module Readers {
  import opened Ops
  import opened ChainLists
  import opened Replays
  import opened Drains
  import opened Protocol
  import opened Visibility

  /** The producer being looked at, whether its pre-filter hit, the newest operation met, the answer. */
  datatype Reader = Reader(tid: nat, hit: bool, best: Option<Op>, answer: Option<bool>)

  const FRESH := Reader(0, false, None, None)

  /** A step of the other threads, or of the reader. */
  datatype Event = Others(a: Action) | Probe | Walk | Finish

  ghost predicate Possible(s: State, c: Config, r: Reader, e: Event) {
    match e
    case Others(a) => Enabled(s, c, a)
    case Probe => r.tid < c.producers && !r.hit
    case Walk => r.tid < c.producers && r.hit
    case Finish => r.tid == c.producers && r.answer.None?
  }

  ghost function Advance(s: State, c: Config, r: Reader, k: int, e: Event): Reader
    requires Shape(s, c) && Possible(s, c, r, e)
  {
    match e
    case Others(_) => r
    case Probe => if k in s.seen[r.tid] then r.(hit := true) else r.(tid := r.tid + 1)
    case Walk => r.(tid := r.tid + 1, hit := false, best := Newer(r.best, LastOf(Log(s.chains[r.tid]), k)))
    case Finish => r.(answer := Some(if r.best.Some? then !r.best.value.isDelete else k in s.tree))
  }

  // ---------------------------------------------------------------- runs with a reader in them

  ghost function After(s: State, c: Config, e: Event): State
    requires Shape(s, c) && (e.Others? ==> Enabled(s, c, e.a))
  {
    if e.Others? then Step(s, c, e.a) else s
  }

  /** The steps are possible, one after the other. */
  ghost predicate Scheduled(s: State, c: Config, r: Reader, k: int, events: seq<Event>)
    decreases |events|
  {
    events == [] ||
    (&& Shape(s, c) && Possible(s, c, r, events[0])
     && Scheduled(After(s, c, events[0]), c, Advance(s, c, r, k, events[0]), k, events[1..]))
  }

  /** What the reader answers in the end, if it has finished. */
  ghost function Answer(s: State, c: Config, r: Reader, k: int, events: seq<Event>): Option<bool>
    requires Scheduled(s, c, r, k, events)
    decreases |events|
  {
    if events == [] then r.answer
    else Answer(After(s, c, events[0]), c, Advance(s, c, r, k, events[0]), k, events[1..])
  }

  lemma PrependEvent(s: State, c: Config, r: Reader, k: int, e: Event, events: seq<Event>)
    requires Shape(s, c) && Possible(s, c, r, e) && Scheduled(After(s, c, e), c, Advance(s, c, r, k, e), k, events)
    ensures Scheduled(s, c, r, k, [e] + events)
    ensures Answer(s, c, r, k, [e] + events) == Answer(After(s, c, e), c, Advance(s, c, r, k, e), k, events)
  {
    assert ([e] + events)[1..] == events;
  }

  // ---------------------------------------------------------------- the reader gets to an answer

  /** The reader at the end of the run. */
  ghost function Last(s: State, c: Config, r: Reader, k: int, events: seq<Event>): Reader
    requires Scheduled(s, c, r, k, events)
    decreases |events|
  {
    if events == [] then r
    else Last(After(s, c, events[0]), c, Advance(s, c, r, k, events[0]), k, events[1..])
  }

  /** Where a reader can be: it has an answer only behind the last producer. */
  ghost predicate OnPath(c: Config, r: Reader) {
    r.tid <= c.producers && (r.hit ==> r.tid < c.producers) && (r.answer.Some? ==> r.tid == c.producers)
  }

  /** An upper bound on the steps that it still has to take: two for every producer, and the last one. */
  function StepsLeft(c: Config, r: Reader): int {
    2 * (c.producers - r.tid) - (if r.hit then 1 else 0) + (if r.answer.None? then 1 else 0)
  }

  /** The reader's own steps. */
  function OwnSteps(events: seq<Event>): nat {
    if events == [] then 0 else (if events[0].Others? then 0 else 1) + OwnSteps(events[1..])
  }

  /** As long as it has no answer, exactly one step of its own is possible, whatever the others have done. */
  lemma ReaderIsNeverStuck(s: State, c: Config, r: Reader)
    requires Shape(s, c) && OnPath(c, r)
    ensures r.answer.None? <==> exists e: Event :: !e.Others? && Possible(s, c, r, e)
    ensures forall d: Event, e: Event :: !d.Others? && !e.Others? && Possible(s, c, r, d) && Possible(s, c, r, e) ==>
            d == e
  {
    if r.answer.None? {
      var e := if r.tid == c.producers then Finish else if r.hit then Walk else Probe;
      assert Possible(s, c, r, e);
    }
  }

  /** Each of its steps brings it closer to its answer, and no step of another thread takes it back. */
  lemma StepComesCloser(s: State, c: Config, r: Reader, k: int, e: Event)
    requires Shape(s, c) && Possible(s, c, r, e) && OnPath(c, r)
    ensures var r' := Advance(s, c, r, k, e);
            OnPath(c, r') && if e.Others? then r' == r else StepsLeft(c, r') < StepsLeft(c, r)
  {
  }

  /** So it takes at most 2 * producers + 1 steps, and has an answer after as many. */
  lemma {:induction false} ReaderFinishes(s: State, c: Config, r: Reader, k: int, events: seq<Event>)
    requires OnPath(c, r) && Scheduled(s, c, r, k, events)
    ensures var e := Last(s, c, r, k, events);
            && OnPath(c, e) && e.answer == Answer(s, c, r, k, events)
            && 0 <= StepsLeft(c, e) <= StepsLeft(c, r) - OwnSteps(events)
            && (e.answer.None? ==> StepsLeft(c, e) > 0)
    decreases |events|
  {
    if events != [] {
      StepComesCloser(s, c, r, k, events[0]);
      ReaderFinishes(After(s, c, events[0]), c, Advance(s, c, r, k, events[0]), k, events[1..]);
    }
  }

  /** The last step is the one that answers. */
  lemma {:induction false} FinishAnswers(s: State, c: Config, r: Reader, k: int, events: seq<Event>)
    requires Scheduled(s, c, r, k, events)
    ensures Answer(s, c, r, k, events).Some? <==> r.answer.Some? || Finish in events
    decreases |events|
  {
    if events != [] {
      assert events == [events[0]] + events[1..];
      FinishAnswers(After(s, c, events[0]), c, Advance(s, c, r, k, events[0]), k, events[1..]);
    }
  }

  /**
    A reader from its start on: its number of steps is bounded, and it has taken the last one exactly if
    it has an answer.
   */
  lemma FreshReaderFinishes(s: State, c: Config, k: int, events: seq<Event>)
    requires Scheduled(s, c, FRESH, k, events)
    ensures OwnSteps(events) <= 2 * c.producers + 1
    ensures Answer(s, c, FRESH, k, events).Some? <==> Finish in events
    ensures OwnSteps(events) == 2 * c.producers + 1 ==> Finish in events
  {
    ReaderFinishes(s, c, FRESH, k, events);
    FinishAnswers(s, c, FRESH, k, events);
  }

  /** From anywhere it can finish by its own steps alone. */
  lemma {:induction false} ReaderCanFinish(s: State, c: Config, r: Reader, k: int) returns (events: seq<Event>)
    requires Shape(s, c) && OnPath(c, r)
    ensures Scheduled(s, c, r, k, events) && Answer(s, c, r, k, events).Some?
    ensures (forall e :: e in events ==> !e.Others?) && |events| <= StepsLeft(c, r)
    decreases StepsLeft(c, r)
  {
    if r.answer.Some? {
      events := [];
    } else {
      var e := if r.tid == c.producers then Finish else if r.hit then Walk else Probe;
      StepComesCloser(s, c, r, k, e);
      var rest := ReaderCanFinish(s, c, Advance(s, c, r, k, e), k);
      PrependEvent(s, c, r, k, e, rest);
      events := [e] + rest;
    }
  }

  // ---------------------------------------------------------------- a reader that nobody disturbs

  /** What an undisturbed reader has found so far. */
  ghost predicate SoFar(s: State, c: Config, r: Reader, k: int) {
    && OnPath(c, r) && |s.chains| == c.producers && r.best == Deciding(s.chains[..r.tid], k)
    && (r.answer.Some? ==> r.answer.value == Visible(s.tree, s.chains, k))
  }

  lemma QuietStep(s: State, c: Config, r: Reader, k: int, e: Event)
    requires StructureOk(s, c) && Possible(s, c, r, e) && !e.Others? && SoFar(s, c, r, k)
    ensures SoFar(s, c, Advance(s, c, r, k, e), k)
  {
    if e.Finish? {
      assert s.chains[..r.tid] == s.chains;
    } else {
      var log := Log(s.chains[r.tid]);
      assert Ordered(s, r.tid) && s.chains[..r.tid + 1][..r.tid] == s.chains[..r.tid];
      LastOfMember(log, k);
    }
  }

  /**
    Undisturbed, the reader answers what the whole system says: the newest buffered operation of all
    producers decides, and the tree where there is none.
   */
  lemma {:induction false} QuietReaderAnswers(s: State, c: Config, r: Reader, k: int, events: seq<Event>)
    requires StructureOk(s, c) && SoFar(s, c, r, k) && Scheduled(s, c, r, k, events)
    requires forall e :: e in events ==> !e.Others?
    ensures var end := Answer(s, c, r, k, events);
            (end.Some? ==> end.value == Visible(s.tree, s.chains, k)) && (|events| >= StepsLeft(c, r) ==> end.Some?)
    decreases |events|
  {
    ReaderFinishes(s, c, r, k, events);
    if events != [] {
      assert events[0] in events;
      QuietStep(s, c, r, k, events[0]);
      StepComesCloser(s, c, r, k, events[0]);
      QuietReaderAnswers(s, c, Advance(s, c, r, k, events[0]), k, events[1..]);
    }
  }

  // ---------------------------------------------------------------- a key that is never deleted

  /** The operations on k are insertions. */
  ghost predicate OnlyInserts(ops: seq<Op>, k: int) {
    forall o :: o in ops && o.key == k ==> !o.isDelete
  }

  /** All operations on k, in a chain or on the way into one, are insertions. */
  ghost predicate NeverDeleted(s: State, c: Config, k: int)
    requires Shape(s, c)
  {
    forall q {:trigger Extended(s, q)} :: 0 <= q < c.producers ==> OnlyInserts(Extended(s, q), k)
  }

  /** A chain from position `from` on holds k. */
  ghost predicate HeldFrom(chains: Chains, k: int, from: nat) {
    exists q :: from <= q < |chains| && Touches(Log(chains[q]), k)
  }

  /** The reader has met k, or k is in the tree, or in a chain that the reader has not walked yet. */
  ghost predicate Findable(s: State, r: Reader, k: int) {
    r.best.Some? || k in s.tree || HeldFrom(s.chains, k, r.tid)
  }

  lemma {:induction false} InsertsAdd(copies: nat, ops: seq<Op>)
    requires forall o :: o in ops ==> !o.isDelete
    ensures CopiesAfter(copies, ops) == copies + |ops|
    decreases |ops|
  {
    if ops != [] { InsertsAdd(CopiesNext(copies, ops[0]), ops[1..]); }
  }

  /** A replay whose operations on k are insertions never lowers the copies of k. */
  lemma ReplayRaises(t: Copies, ops: seq<Op>, k: int)
    requires OnlyInserts(ops, k)
    ensures k in Replay(t, ops) <==> k in t || Touches(ops, k)
  {
    ReplayCopies(t, ops, k);
    forall o | o in For(ops, k) ensures !o.isDelete { ForMembers(ops, k, o); }
    InsertsAdd(t[k], For(ops, k));
    ForNothing(ops, k);
  }

  /** A drain applies only operations of the chains it drains. */
  lemma AppliedWithin(policy: Policy, chains: Chains, ids: seq<nat>, dirs: seq<Directory>, o: Op)
    requires InRange(chains, ids)
    ensures o in Applied(policy, chains, ids, dirs) ==> o in LogsOf(chains, ids)
    ensures !policy.F3N? && o in LogsOf(chains, ids) ==> o in Applied(policy, chains, ids, dirs)
  {
    var nodes := NodesOf(chains, ids);
    CollectedOperations(chains, ids);
    SameMembers(Flatten(nodes), LogsOf(chains, ids), o);
    match policy
    case F3K =>
    case F3N =>
      SortNodesOps(nodes);
      SameMembers(Flatten(SortNodes(nodes)), Flatten(nodes), o);
      KeepLatestWithin(Flatten(SortNodes(nodes)), Merged(dirs));
    case Deterministic =>
      SortPermutes(Flatten(nodes));
      SameMembers(SortOps(Flatten(nodes)), Flatten(nodes), o);
  }

  /** All drained operations on k are insertions. */
  lemma DrainedInserts(s: State, c: Config, ids: seq<nat>, k: int)
    requires Shape(s, c) && NeverDeleted(s, c, k) && InRange(s.chains, ids)
    ensures OnlyInserts(Applied(c.policy, s.chains, ids, s.dirs), k)
  {
    forall o | o in Applied(c.policy, s.chains, ids, s.dirs) && o.key == k ensures !o.isDelete {
      AppliedWithin(c.policy, s.chains, ids, s.dirs, o);
      InLogsOf(s.chains, ids, o);
      var i :| 0 <= i < |ids| && o in Log(s.chains[ids[i]]);
      assert o in Extended(s, ids[i]);
    }
  }

  /** The operation that decides k is drained. */
  ghost predicate DecidedThere(chains: Chains, ids: seq<nat>, k: int)
    requires InRange(chains, ids)
  {
    Deciding(chains, k).Some? && Deciding(chains, k).value in LogsOf(chains, ids)
  }

  /**
    What saves k from an F3-N drain: it is in the tree, or its deciding operation is drained, or an
    undrained chain from position `from` on holds it.
   */
  ghost predicate Spared(t: Copies, chains: Chains, ids: seq<nat>, k: int, from: nat)
    requires InRange(chains, ids)
  {
    k in t || DecidedThere(chains, ids, k)
        || exists q :: from <= q < |chains| && q !in ids && Touches(Log(chains[q]), k)
  }

  /** For a key that nobody deletes that is exact: after the drain, k is in the tree or held from there on. */
  lemma SparedIsExact(t: Copies, chains: Chains, ids: seq<nat>, dirs: seq<Directory>, k: int, from: nat)
    requires Sane(chains, ids) && Indexed(chains, dirs) && OnlyInserts(NodeOrdered(chains, ids, dirs), k)
    ensures k in Replay(t, NodeOrdered(chains, ids, dirs)) || HeldFrom(Cleared(chains, ids), k, from)
        <==> Spared(t, chains, ids, k, from)
  {
    ReplayRaises(t, NodeOrdered(chains, ids, dirs), k);
    NodeOrderedKey(chains, ids, dirs, k);
    ForNothing(NodeOrdered(chains, ids, dirs), k);
    StillHeld(chains, ids, k, from);
  }

  lemma StillHeld(chains: Chains, ids: seq<nat>, k: int, from: nat)
    ensures HeldFrom(Cleared(chains, ids), k, from)
        <==> exists q :: from <= q < |chains| && q !in ids && Touches(Log(chains[q]), k)
  {
    var after := Cleared(chains, ids);
    assert Log([]) == [];
    assert forall q :: 0 <= q < |after| ==> (Touches(Log(after[q]), k) <==> q !in ids && Touches(Log(chains[q]), k));
  }

  /** The other two policies apply every drained operation, so nothing is lost. */
  lemma LogDrainLosesNothing(policy: Policy, t: Copies, chains: Chains, ids: seq<nat>, dirs: seq<Directory>, k: int,
                             from: nat)
    requires InRange(chains, ids) && !policy.F3N? && OnlyInserts(Applied(policy, chains, ids, dirs), k)
    requires k in t || HeldFrom(chains, k, from)
    ensures k in Replay(t, Applied(policy, chains, ids, dirs)) || HeldFrom(Cleared(chains, ids), k, from)
  {
    var applied := Applied(policy, chains, ids, dirs);
    ReplayRaises(t, applied, k);
    StillHeld(chains, ids, k, from);
    if k !in t {
      var q :| from <= q < |chains| && Touches(Log(chains[q]), k);
      if q in ids { DrainedIsApplied(policy, chains, ids, dirs, k, q); }
    }
  }

  lemma DrainedIsApplied(policy: Policy, chains: Chains, ids: seq<nat>, dirs: seq<Directory>, k: int, q: nat)
    requires InRange(chains, ids) && !policy.F3N? && q in ids && Touches(Log(chains[q]), k)
    ensures Touches(Applied(policy, chains, ids, dirs), k)
  {
    var j :| 0 <= j < |ids| && ids[j] == q;
    var i :| 0 <= i < |Log(chains[q])| && Log(chains[q])[i].key == k;
    var o := Log(chains[q])[i];
    InLogsOf(chains, ids, o);
    AppliedWithin(policy, chains, ids, dirs, o);
    TouchedBy(Applied(policy, chains, ids, dirs), o);
  }

  /** No thread starts to delete k; under F3-N full drains are careful, and every drain spares k. */
  ghost predicate Leaves(s: State, c: Config, r: Reader, k: int, a: Action)
    requires Shape(s, c)
  {
    && (a.Ticket? && a.key == k ==> !a.isDelete)
    && (c.policy.F3N? ==> Careful(s, a))
    && (c.policy.F3N? && (a.DrainAll? || a.DrainSlice?) ==>
        r.best.Some? || Spared(s.tree, s.chains, DrainedBy(s, a), k, r.tid))
  }

  /**
    The step-level condition, for a reader in the run: under F3-N a drain keeps k findable if and only if
    it spares k.
   */
  lemma DrainSparesExactly(s: State, c: Config, r: Reader, k: int, a: Action)
    requires StructureOk(s, c) && DirectoriesOk(s) && c.policy.F3N? && NeverDeleted(s, c, k)
             && (a.DrainAll? || a.DrainSlice?)
    ensures Findable(Step(s, c, a), r, k) <==> r.best.Some? || Spared(s.tree, s.chains, DrainedBy(s, a), k, r.tid)
  {
    DrainOf(s, c, a);
    StructureImpliesSequenced(s, c);
    DrainedInserts(s, c, DrainedBy(s, a), k);
    SparedIsExact(s.tree, s.chains, DrainedBy(s, a), s.dirs, k, r.tid);
  }

  lemma DrainKeepsFindable(s: State, c: Config, r: Reader, k: int, a: Action)
    requires StructureOk(s, c) && (c.policy.F3N? ==> DirectoriesOk(s)) && NeverDeleted(s, c, k)
    requires (a.DrainAll? || a.DrainSlice?) && Findable(s, r, k) && Leaves(s, c, r, k, a)
    ensures Findable(Step(s, c, a), r, k)
  {
    if c.policy.F3N? {
      DrainSparesExactly(s, c, r, k, a);
    } else {
      DrainOf(s, c, a);
      DrainedInserts(s, c, DrainedBy(s, a), k);
      if r.best.None? { LogDrainLosesNothing(c.policy, s.tree, s.chains, DrainedBy(s, a), s.dirs, k, r.tid); }
    }
  }

  lemma StepKeepsNeverDeleted(s: State, c: Config, k: int, a: Action)
    requires Shape(s, c) && NeverDeleted(s, c, k) && Enabled(s, c, a) && (a.Ticket? && a.key == k ==> !a.isDelete)
    ensures Shape(Step(s, c, a), c) && NeverDeleted(Step(s, c, a), c, k)
  {
    var s' := Step(s, c, a);
    if a.Insert? { PushAppends(s.chains[a.p], s.phases[a.p].op, c.capacity); }
    if a.DrainAll? || a.DrainSlice? { DrainOf(s, c, a); }
    assert Log([]) == [];
    forall q | 0 <= q < c.producers ensures OnlyInserts(Extended(s', q), k) {
      assert OnlyInserts(Extended(s, q), k);
      assert forall o :: o in Extended(s', q) ==> o in Extended(s, q) || (a.Ticket? && o == s'.phases[a.p].op);
    }
  }

  lemma StepKeepsFindable(s: State, c: Config, r: Reader, k: int, a: Action)
    requires StructureOk(s, c) && (c.policy.F3N? ==> DirectoriesOk(s)) && NeverDeleted(s, c, k)
    requires Enabled(s, c, a) && Findable(s, r, k) && Leaves(s, c, r, k, a)
    ensures Findable(Step(s, c, a), r, k)
  {
    if a.DrainAll? || a.DrainSlice? {
      DrainKeepsFindable(s, c, r, k, a);
    } else if a.Insert? {
      InsertKeepsHeld(s, c, k, a.p, r.tid);
    }
  }

  lemma InsertKeepsHeld(s: State, c: Config, k: int, p: nat, from: nat)
    requires Shape(s, c) && Enabled(s, c, Insert(p))
    ensures HeldFrom(s.chains, k, from) ==> HeldFrom(Step(s, c, Insert(p)).chains, k, from)
  {
    AppendedLog(s.chains[p], s.phases[p].op, c.capacity, k);
    if HeldFrom(s.chains, k, from) {
      var q :| from <= q < |s.chains| && Touches(Log(s.chains[q]), k);
      assert Touches(Log(Step(s, c, Insert(p)).chains[q]), k);
    }
  }

  /** What the reader has met is an insertion, and what it answers is true. */
  ghost predicate OnTrack(s: State, r: Reader, k: int) {
    (r.best.Some? ==> !r.best.value.isDelete) && (r.answer.Some? ==> r.answer.value) && Findable(s, r, k)
  }

  lemma ReaderStaysOnTrack(s: State, c: Config, r: Reader, k: int, e: Event)
    requires StructureOk(s, c) && NeverDeleted(s, c, k) && Possible(s, c, r, e) && !e.Others? && OnTrack(s, r, k)
    ensures OnTrack(s, Advance(s, c, r, k, e), k)
  {
    if e.Probe? || e.Walk? {
      var log := Log(s.chains[r.tid]);
      LastOfMember(log, k);
      assert Ordered(s, r.tid) && OnlyInserts(Extended(s, r.tid), k);
      if Touches(log, k) {
        var i :| 0 <= i < |log| && log[i].key == k;
        assert log[i] in log;
      }
      if LastOf(log, k).Some? { assert LastOf(log, k).value in Extended(s, r.tid); }
      if HeldFrom(s.chains, k, r.tid) && !Touches(log, k) {
        var q :| r.tid <= q < |s.chains| && Touches(Log(s.chains[q]), k);
        assert HeldFrom(s.chains, k, r.tid + 1);
      }
    }
  }

  /** Every step of another thread leaves k findable. */
  ghost predicate AllLeave(s: State, c: Config, r: Reader, k: int, events: seq<Event>)
    requires Scheduled(s, c, r, k, events)
    decreases |events|
  {
    events == [] ||
    (&& (events[0].Others? ==> Leaves(s, c, r, k, events[0].a))
     && AllLeave(After(s, c, events[0]), c, Advance(s, c, r, k, events[0]), k, events[1..]))
  }

  lemma {:induction false} TrackKept(s: State, c: Config, r: Reader, k: int, events: seq<Event>)
    requires StructureOk(s, c) && (c.policy.F3N? ==> DirectoriesOk(s)) && NeverDeleted(s, c, k) && OnTrack(s, r, k)
    requires Scheduled(s, c, r, k, events) && AllLeave(s, c, r, k, events)
    ensures var end := Answer(s, c, r, k, events); end.Some? ==> end.value
    decreases |events|
  {
    if events != [] {
      var e := events[0];
      if e.Others? {
        StepKeepsStructure(s, c, e.a);
        if c.policy.F3N? { StepKeepsDirectories(s, c, e.a); }
        StepKeepsNeverDeleted(s, c, k, e.a);
        StepKeepsFindable(s, c, r, k, e.a);
      } else {
        ReaderStaysOnTrack(s, c, r, k, e);
      }
      TrackKept(After(s, c, e), c, Advance(s, c, r, k, e), k, events[1..]);
    }
  }

  /**
    A key that is in the tree or in a chain and that nobody deletes is found by every contains() that
    starts later, whatever producers and drains do between the reader's steps, and however many
    producers insert it. Under F3-N every drain has to spare the key, which `DrainSparesExactly` shows
    to be exact; F3-K and the deterministic replay need no such condition.
   */
  lemma StoredKeyIsFound(s: State, c: Config, k: int, events: seq<Event>)
    requires StructureOk(s, c) && (c.policy.F3N? ==> DirectoriesOk(s))
    requires NeverDeleted(s, c, k) && (k in s.tree || HeldFrom(s.chains, k, 0))
    requires Scheduled(s, c, FRESH, k, events) && AllLeave(s, c, FRESH, k, events)
    ensures Answer(s, c, FRESH, k, events) == if Finish in events then Some(true) else None
  {
    TrackKept(s, c, FRESH, k, events);
    FreshReaderFinishes(s, c, k, events);
  }

  // ---------------------------------------------------------------- a key of one producer

  /** Only producer p has operations on k. */
  ghost predicate OnlyBy(s: State, c: Config, k: int, p: nat)
    requires Shape(s, c)
  {
    forall q, o {:trigger o in Extended(s, q)} :: 0 <= q < c.producers && o in Extended(s, q) && o.key == k ==> q == p
  }

  lemma StepKeepsOnlyBy(s: State, c: Config, k: int, p: nat, a: Action)
    requires Shape(s, c) && OnlyBy(s, c, k, p) && Enabled(s, c, a) && (a.Ticket? && a.key == k ==> a.p == p)
    ensures Shape(Step(s, c, a), c) && OnlyBy(Step(s, c, a), c, k, p)
  {
    var s' := Step(s, c, a);
    if a.Insert? { PushAppends(s.chains[a.p], s.phases[a.p].op, c.capacity); }
    if a.DrainAll? || a.DrainSlice? { DrainOf(s, c, a); }
    assert Log([]) == [];
    forall q, o | 0 <= q < c.producers && o in Extended(s', q) && o.key == k ensures q == p {
      assert o in Extended(s, q) || (a.Ticket? && q == a.p && o == s'.phases[a.p].op);
    }
  }

  /**
    A drain always spares such a key: it takes the producer, and with it the deciding operation, or it
    leaves the chain.
   */
  lemma OwnKeyIsSpared(s: State, c: Config, r: Reader, k: int, p: nat, ids: seq<nat>)
    requires StructureOk(s, c) && OnlyBy(s, c, k, p) && Findable(s, r, k) && InRange(s.chains, ids)
    ensures r.best.Some? || Spared(s.tree, s.chains, ids, k, r.tid)
  {
    if r.best.None? && k !in s.tree {
      var q :| r.tid <= q < |s.chains| && Touches(Log(s.chains[q]), k);
      if q in ids {
        forall x | 0 <= x < |s.chains| && Touches(Log(s.chains[x]), k) ensures x == p { HolderIs(s, c, k, p, x); }
        assert NotSplit(s.chains, ids, k);
        DrainedKeyDecidedThere(s.chains, ids, k, q);
      }
    }
  }

  lemma HolderIs(s: State, c: Config, k: int, p: nat, x: nat)
    requires Shape(s, c) && OnlyBy(s, c, k, p) && x < c.producers && Touches(Log(s.chains[x]), k)
    ensures x == p
  {
    var i :| 0 <= i < |Log(s.chains[x])| && Log(s.chains[x])[i].key == k;
    assert Log(s.chains[x])[i] in Extended(s, x);
  }

  /** Only p starts operations on k, and only insertions; under F3-N full drains are careful. */
  ghost predicate OneInserter(s: State, c: Config, r: Reader, k: int, p: nat, events: seq<Event>)
    requires Scheduled(s, c, r, k, events)
    decreases |events|
  {
    events == [] ||
    (var e := events[0];
     && (e.Others? && e.a.Ticket? && e.a.key == k ==> e.a.p == p && !e.a.isDelete)
     && (e.Others? && c.policy.F3N? ==> Careful(s, e.a))
     && OneInserter(After(s, c, e), c, Advance(s, c, r, k, e), k, p, events[1..]))
  }

  lemma {:induction false} OneInserterLeaves(s: State, c: Config, r: Reader, k: int, p: nat, events: seq<Event>)
    requires StructureOk(s, c) && (c.policy.F3N? ==> DirectoriesOk(s)) && NeverDeleted(s, c, k) && OnTrack(s, r, k)
    requires OnlyBy(s, c, k, p) && Scheduled(s, c, r, k, events) && OneInserter(s, c, r, k, p, events)
    ensures AllLeave(s, c, r, k, events)
    decreases |events|
  {
    if events != [] {
      var e := events[0];
      if e.Others? {
        if e.a.DrainAll? || e.a.DrainSlice? { OwnKeyIsSpared(s, c, r, k, p, DrainedBy(s, e.a)); }
        StepKeepsStructure(s, c, e.a);
        if c.policy.F3N? { StepKeepsDirectories(s, c, e.a); }
        StepKeepsNeverDeleted(s, c, k, e.a);
        StepKeepsOnlyBy(s, c, k, p, e.a);
        StepKeepsFindable(s, c, r, k, e.a);
      } else {
        ReaderStaysOnTrack(s, c, r, k, e);
      }
      OneInserterLeaves(After(s, c, e), c, Advance(s, c, r, k, e), k, p, events[1..]);
    }
  }

  /** So the key of one producer, which nobody deletes, is found under every policy and with any drains. */
  lemma OwnKeyIsFound(s: State, c: Config, k: int, p: nat, events: seq<Event>)
    requires StructureOk(s, c) && (c.policy.F3N? ==> DirectoriesOk(s)) && NeverDeleted(s, c, k) && OnlyBy(s, c, k, p)
    requires k in s.tree || HeldFrom(s.chains, k, 0)
    requires Scheduled(s, c, FRESH, k, events) && OneInserter(s, c, FRESH, k, p, events)
    ensures Answer(s, c, FRESH, k, events) == if Finish in events then Some(true) else None
  {
    OneInserterLeaves(s, c, FRESH, k, p, events);
    StoredKeyIsFound(s, c, k, events);
  }

  // ---------------------------------------------------------------- a shared key can be missed

  /** Producer 1 has buffered an insertion of k, and producer 0 is about to insert k too. */
  ghost predicate AboutToShare(s: State, c: Config, x: Op, y: Op) {
    && Shape(s, c) && c.policy.F3N? && c.producers == 2 && x.key == y.key && x.sequence < y.sequence
    && s.chains == [[], [[x]]] && s.dirs == [map[], map[x.key := x]] && s.seen == [{}, {x.key}]
    && s.phases == [Ticketed(y), Idle] && s.counts == [0, 1] && s.tree[x.key] == 0
    && !x.isDelete && !y.isDelete
  }

  /** The drain of producer 1 throws the older insertion away. */
  lemma OlderIsThrownAway(s: State, c: Config, x: Op, y: Op)
    requires AboutToShare(s, c, x, y)
    ensures var s2 := Step(Step(s, c, Insert(0)), c, DrainSlice({1}));
            s2.tree == s.tree && Log(s2.chains[1]) == [] && s2.seen == [{x.key}, {x.key}] && Shape(s2, c)
  {
    var s1 := Step(s, c, Insert(0));
    assert s.seen[0] + {x.key} == {x.key};
    assert s1.counts == [0, 1] && s1.chains == [[[y]], [[x]]];
    OnlySecond(s1.counts, {1});
    OneNode(s1.chains, 1, x);
    var dirs := s1.dirs;
    assert dirs[..1] == [map[y.key := y]] && dirs[..1][..0] == [];
    assert Merged(dirs[..1]) == map[y.key := y];
    assert KeepLatest([x], Merged(dirs)) == KeepLatest([x][1..], Merged(dirs)) == [];
    assert Log([]) == [];
  }

  /** The reader's steps, with the second insertion and the drain between its first probe and the others. */
  const MISSING: seq<Event> := [Probe, Others(Insert(0)), Others(DrainSlice({1})), Probe, Walk, Finish]

  /** A reader that is at producer 1, finds its chain without the key, and then the tree. */
  lemma FindsNothing(s: State, c: Config, k: int)
    requires Shape(s, c) && c.producers == 2 && k in s.seen[1] && Log(s.chains[1]) == [] && k !in s.tree
    ensures var r := Reader(1, false, None, None);
            Scheduled(s, c, r, k, [Probe, Walk, Finish]) && Answer(s, c, r, k, [Probe, Walk, Finish]) == Some(false)
  {
    var r1, r2 := Reader(1, false, None, None), Reader(1, true, None, None);
    var r3, r4 := Reader(2, false, None, None), Reader(2, false, None, Some(false));
    assert Advance(s, c, r1, k, Probe) == r2 && LastOf(Log(s.chains[1]), k) == None;
    assert Advance(s, c, r2, k, Walk) == r3 && Advance(s, c, r3, k, Finish) == r4 && Scheduled(s, c, r4, k, []);
    PrependEvent(s, c, r3, k, Finish, []);
    PrependEvent(s, c, r2, k, Walk, [Finish] + []);
    PrependEvent(s, c, r1, k, Probe, [Walk] + ([Finish] + []));
    assert [Probe] + ([Walk] + ([Finish] + [])) == [Probe, Walk, Finish];
  }

  lemma MissedFrom(s: State, c: Config, x: Op, y: Op)
    requires AboutToShare(s, c, x, y)
    ensures Scheduled(s, c, FRESH, x.key, MISSING) && Answer(s, c, FRESH, x.key, MISSING) == Some(false)
  {
    var k, r := x.key, Reader(1, false, None, None);
    var s1 := Step(s, c, Insert(0));
    var s2 := Step(s1, c, DrainSlice({1}));
    OlderIsThrownAway(s, c, x, y);
    assert Advance(s, c, FRESH, k, Probe) == r;
    FindsNothing(s2, c, k);
    PrependEvent(s1, c, r, k, Others(DrainSlice({1})), [Probe, Walk, Finish]);
    PrependEvent(s, c, r, k, Others(Insert(0)), [Others(DrainSlice({1}))] + [Probe, Walk, Finish]);
    PrependEvent(s, c, FRESH, k, Probe, [Others(Insert(0))] + ([Others(DrainSlice({1}))] + [Probe, Walk, Finish]));
    assert MISSING == [Probe] + ([Others(Insert(0))] + ([Others(DrainSlice({1}))] + [Probe, Walk, Finish]));
  }

  function Sharing(k: int): seq<Action> {
    [Ticket(1, k, false), Insert(1), Account(1), Ticket(0, k, false)]
  }

  /** The run from an empty tree that leads there. */
  lemma SharingReached(c: Config, k: int) returns (s: State)
    requires ConfigOk(c) && c.policy.F3N? && c.producers == 2
    ensures Legal(Initial(c, multiset{}), c, Sharing(k)) && s == Run(Initial(c, multiset{}), c, Sharing(k))
    ensures AboutToShare(s, c, Op(k, false, 1, 1), Op(k, false, 2, 0))
  {
    var t := OneBuffered(c, k);
    s := Step(t, c, Ticket(0, k, false));
    assert [Ticket(0, k, false)][1..] == [] && Legal(s, c, []) && Legal(t, c, [Ticket(0, k, false)]);
    assert Run(t, c, [Ticket(0, k, false)]) == Run(s, c, []) == s;
    RunConcat(Initial(c, multiset{}), c, [Ticket(1, k, false), Insert(1), Account(1)], [Ticket(0, k, false)]);
    assert Sharing(k) == [Ticket(1, k, false), Insert(1), Account(1)] + [Ticket(0, k, false)];
  }

  /**
    Why F3-N drains must spare the key: a run from an empty tree in which a reader that has passed
    producer 0 misses a key that producer 1 has buffered before the reader started and that nobody
    deletes. Producer 0 buffers the key too, and a drain of producer 1 throws the older insertion away.
   */
  lemma SharedKeyCanBeMissed(c: Config, k: int)
    requires ConfigOk(c) && c.policy.F3N? && c.producers == 2
    ensures Legal(Initial(c, multiset{}), c, Sharing(k))
    ensures var s := Run(Initial(c, multiset{}), c, Sharing(k));
            && Shape(s, c) && NeverDeleted(s, c, k) && HeldFrom(s.chains, k, 0)
            && Scheduled(s, c, FRESH, k, MISSING) && Answer(s, c, FRESH, k, MISSING) == Some(false)
  {
    var s := SharingReached(c, k);
    MissedFrom(s, c, Op(k, false, 1, 1), Op(k, false, 2, 0));
    SingleLog(Op(k, false, 1, 1));
    assert Log(s.chains[1])[0].key == k && Log([]) == [];
    forall q | 0 <= q < c.producers ensures OnlyInserts(Extended(s, q), k) { }
  }

  // ---------------------------------------------------------------- contains() is linearizable

  /** The run, with the reader in it, obeys the producers' discipline. */
  ghost predicate Concurrent(w: World, c: Config, owner: int -> nat, r: Reader, k: int, events: seq<Event>)
    decreases |events|
  {
    events == [] ||
    (var e := events[0];
     && Shape(w.s, c) && Possible(w.s, c, r, e)
     && (e.Others? ==> Disciplined(w, c, owner, e.a) && (c.policy.F3N? ==> Careful(w.s, e.a)))
     && Concurrent(if e.Others? then Next(w, c, e.a) else w, c, owner, Advance(w.s, c, r, k, e), k, events[1..]))
  }

  /** The reader at the end of such a run. */
  ghost function Reads(w: World, c: Config, owner: int -> nat, r: Reader, k: int, events: seq<Event>): Reader
    requires Concurrent(w, c, owner, r, k, events)
    decreases |events|
  {
    if events == [] then r
    else
      var e := events[0];
      Reads(if e.Others? then Next(w, c, e.a) else w, c, owner, Advance(w.s, c, r, k, e), k, events[1..])
  }

  /** Whether k was present, at each of the moments from the start to the end of the run. */
  ghost function Moments(w: World, c: Config, owner: int -> nat, r: Reader, k: int, events: seq<Event>): (m: seq<bool>)
    requires Concurrent(w, c, owner, r, k, events)
    ensures |m| == |events| + 1
    decreases |events|
  {
    if events == [] then [k in w.members]
    else
      var e := events[0];
      [k in w.members] +
      Moments(if e.Others? then Next(w, c, e.a) else w, c, owner, Advance(w.s, c, r, k, e), k, events[1..])
  }

  /** What the reader has is what k's presence was at some moment since it started. */
  ghost predicate Dated(w: World, c: Config, owner: int -> nat, r: Reader, k: int, past: set<bool>) {
    && (k in w.members) in past
    && (r.best.Some? ==> !r.best.value.isDelete in past)
    && (r.tid > owner(k) && r.best.None? ==> (k in w.s.tree) in past)
    && (r.tid == c.producers && r.best.None? ==> (k in w.s.tree) in past)
    && (r.answer.Some? ==> r.answer.value in past)
    && r.tid <= c.producers
  }

  /** While the owner's chain holds no operation on k, the tree tells whether k is present. */
  lemma TreeDecides(w: World, c: Config, owner: int -> nat, k: int)
    requires KeyOk(w, c, owner, k)
    requires owner(k) < |w.s.chains| ==> LastOf(Log(w.s.chains[owner(k)]), k) == None
    ensures k in w.s.tree <==> k in w.members
  {
    OwnerDecides(w, c, owner, k);
  }

  /** A drain that leaves the owner's chain alone leaves the key's copies alone. */
  lemma DrainElsewhere(policy: Policy, t: Copies, chains: Chains, ids: seq<nat>, dirs: seq<Directory>, k: int, p: nat)
    requires Sane(chains, ids) && (policy.F3N? ==> Indexed(chains, dirs)) && chains != []
    requires forall q :: 0 <= q < |chains| && q != p ==> !Touches(Log(chains[q]), k)
    requires p !in ids
    ensures Replay(t, Applied(policy, chains, ids, dirs))[k] == t[k]
  {
    var applied := Applied(policy, chains, ids, dirs);
    forall o | o in applied ensures o.key != k {
      AppliedWithin(policy, chains, ids, dirs, o);
      InLogsOf(chains, ids, o);
      var i :| 0 <= i < |ids| && o in Log(chains[ids[i]]);
      TouchedBy(Log(chains[ids[i]]), o);
    }
    ReplayCopies(t, applied, k);
    ForNothing(applied, k);
    assert forall i :: 0 <= i < |applied| ==> applied[i] in applied;
  }

  /** A step changes whether k is in the tree only by a drain after which the tree tells the truth. */
  lemma TreeChangesHonestly(w: World, c: Config, owner: int -> nat, k: int, a: Action)
    requires WorldOk(w, c, owner) && Enabled(w.s, c, a) && Disciplined(w, c, owner, a)
    requires c.policy.F3N? ==> Careful(w.s, a)
    ensures var w' := Next(w, c, a);
            (k in w'.s.tree <==> k in w.s.tree) || (k in w'.s.tree <==> k in w'.members)
  {
    var w' := Next(w, c, a);
    if (a.DrainAll? && w.s.pending != 0) || a.DrainSlice? {
      var slice := if a.DrainAll? then Everyone(|w.s.counts|) else a.slice;
      var ids := Active(w.s.counts, slice, |w.s.counts|);
      ActiveInRange(w.s.counts, slice, |w.s.counts|);
      StructureImpliesSequenced(w.s, c);
      assert KeyOk(w, c, owner, k);
      if owner(k) in ids {
        StepKeepsWorld(w, c, owner, a);
        assert KeyOk(w', c, owner, k);
        assert w'.s.chains[owner(k)] == [] && Log([]) == [];
        TreeDecides(w', c, owner, k);
      } else {
        DrainElsewhere(c.policy, w.s.tree, w.s.chains, ids, w.s.dirs, k, owner(k));
      }
    }
  }

  /** The reader's own steps. */
  lemma ReaderStaysDated(w: World, c: Config, owner: int -> nat, r: Reader, k: int, past: set<bool>, e: Event)
    requires WorldOk(w, c, owner) && Possible(w.s, c, r, e) && !e.Others? && Dated(w, c, owner, r, k, past)
    ensures Dated(w, c, owner, Advance(w.s, c, r, k, e), k, past)
  {
    assert KeyOk(w, c, owner, k);
    if e.Probe? || e.Walk? {
      assert Ordered(w.s, r.tid);
      LastOfMember(Log(w.s.chains[r.tid]), k);
      if r.tid == owner(k) {
        OwnerDecides(w, c, owner, k);
      } else if r.tid + 1 == c.producers && owner(k) >= c.producers {
        TreeDecides(w, c, owner, k);
      }
    }
  }

  lemma {:induction false} AnswerIsDated(w: World, c: Config, owner: int -> nat, r: Reader, k: int, past: set<bool>,
                                         events: seq<Event>)
    requires WorldOk(w, c, owner) && Dated(w, c, owner, r, k, past) && Concurrent(w, c, owner, r, k, events)
    ensures var end := Reads(w, c, owner, r, k, events).answer;
            end.Some? ==> end.value in past || end.value in Moments(w, c, owner, r, k, events)
    decreases |events|
  {
    if events != [] {
      var e := events[0];
      if e.Others? {
        StepKeepsWorld(w, c, owner, e.a);
        TreeChangesHonestly(w, c, owner, k, e.a);
        var w' := Next(w, c, e.a);
        var later := Moments(w', c, owner, r, k, events[1..]);
        assert later[0] == (k in w'.members);
        AnswerIsDated(w', c, owner, r, k, past + {k in w'.members}, events[1..]);
      } else {
        ReaderStaysDated(w, c, owner, r, k, past, e);
        AnswerIsDated(w, c, owner, Advance(w.s, c, r, k, e), k, past, events[1..]);
      }
    }
  }

  /** It is a run of the same reader over the states alone. */
  lemma {:induction false} ConcurrentIsScheduled(w: World, c: Config, owner: int -> nat, r: Reader, k: int,
                                                 events: seq<Event>)
    requires Concurrent(w, c, owner, r, k, events)
    ensures Scheduled(w.s, c, r, k, events) && Reads(w, c, owner, r, k, events) == Last(w.s, c, r, k, events)
    decreases |events|
  {
    if events != [] {
      var e := events[0];
      ConcurrentIsScheduled(if e.Others? then Next(w, c, e.a)
                            else w, c, owner, Advance(w.s, c, r, k, e), k, events[1..]);
    }
  }

  /**
    For all three policies: contains(k), taken step by step between the steps of producers and drains,
    comes to an answer after at most two steps for every producer and one more, and answers whether k
    was present at some moment between its start and its end.
   */
  lemma ContainsIsLinearizable(w: World, c: Config, owner: int -> nat, k: int, events: seq<Event>)
    requires WorldOk(w, c, owner) && Concurrent(w, c, owner, FRESH, k, events)
    ensures var end := Reads(w, c, owner, FRESH, k, events).answer;
            && (end.Some? <==> Finish in events) && OwnSteps(events) <= 2 * c.producers + 1
            && (end.Some? ==> end.value in Moments(w, c, owner, FRESH, k, events))
  {
    ConcurrentIsScheduled(w, c, owner, FRESH, k, events);
    FreshReaderFinishes(w.s, c, k, events);
    ReaderFinishes(w.s, c, FRESH, k, events);
    var now := k in w.members;
    AnswerIsDated(w, c, owner, FRESH, k, {now}, events);
    assert Moments(w, c, owner, FRESH, k, events)[0] == now;
  }
}
