/**
  What every interleaving of producers and drains keeps: sequences identify operations, the pre-filter
  knows every buffered key, directories agree with chains, and contains(k) answers what the producers
  have done.
 */
module Visibility {
  import opened Ops
  import opened ChainLists
  import opened Replays
  import opened Drains
  import opened Protocol

  // ---------------------------------------------------------------- sequences, pre-filters, directories

  /** A producer's chain, and behind it the operation that has its sequence but is not inserted yet. */
  function Extended(s: State, p: nat): seq<Op>
    requires p < |s.chains| == |s.phases|
  {
    Log(s.chains[p]) + (if s.phases[p].Ticketed? then [s.phases[p].op] else [])
  }

  ghost predicate Ordered(s: State, p: nat)
    requires p < |s.chains| == |s.phases| == |s.seen|
  {
    && Ascending(Extended(s, p))
    && (forall o :: o in Extended(s, p) ==> o.sequence < s.nextSequence && o.producer == p)
    && forall o :: o in Log(s.chains[p]) ==> o.key in s.seen[p]
  }

  ghost predicate StructureOk(s: State, c: Config) {
    && Shape(s, c)
    && (forall p {:trigger Ordered(s, p)} :: 0 <= p < c.producers ==> Ordered(s, p))
    && forall p, q {:trigger Apart(Extended(s, p), Extended(s, q))} ::
         0 <= p < c.producers && 0 <= q < c.producers && p != q ==> Apart(Extended(s, p), Extended(s, q))
  }

  ghost predicate DirectoriesOk(s: State) {
    Indexed(s.chains, s.dirs)
  }

  lemma StructureImpliesSequenced(s: State, c: Config)
    requires StructureOk(s, c)
    ensures GloballySequenced(s.chains)
  {
    forall p | 0 <= p < |s.chains| ensures Ascending(Log(s.chains[p])) {
      assert Ordered(s, p);
      var log, ext := Log(s.chains[p]), Extended(s, p);
      assert forall i :: 0 <= i < |log| ==> log[i] == ext[i];
    }
    forall p, q | 0 <= p < |s.chains| && 0 <= q < |s.chains| && p != q
      ensures Apart(Log(s.chains[p]), Log(s.chains[q]))
    {
      assert Apart(Extended(s, p), Extended(s, q));
    }
  }

  lemma InitialStructure(c: Config, tree: Copies)
    requires ConfigOk(c)
    ensures StructureOk(Initial(c, tree), c) && DirectoriesOk(Initial(c, tree))
  {
    var s := Initial(c, tree);
    assert Log([]) == [];
    forall p | 0 <= p < c.producers ensures Ordered(s, p) { }
    forall p | 0 <= p < |s.dirs| ensures DirectoryOf(s.dirs[p], Log(s.chains[p])) {
      forall k ensures LastOf(Log(s.chains[p]), k) == if k in s.dirs[p] then Some(s.dirs[p][k]) else None { }
    }
  }

  lemma TicketKeepsStructure(s: State, c: Config, p: nat, key: int, isDelete: bool)
    requires StructureOk(s, c) && Enabled(s, c, Ticket(p, key, isDelete))
    ensures StructureOk(Step(s, c, Ticket(p, key, isDelete)), c)
  {
    var s' := Step(s, c, Ticket(p, key, isDelete));
    var op := Op(key, isDelete, s.nextSequence, p);
    assert Extended(s', p) == Extended(s, p) + [op];
    forall q | 0 <= q < c.producers
      ensures Ordered(s', q) && (q != p ==> Extended(s', q) == Extended(s, q)) { assert Ordered(s, q); }
    forall q, r | 0 <= q < c.producers && 0 <= r < c.producers && q != r
      ensures Apart(Extended(s', q), Extended(s', r))
    {
      TicketStaysApart(s, c, p, op, q, r);
    }
  }

  /** The newest sequence is in no other chain. */
  lemma TicketStaysApart(s: State, c: Config, p: nat, op: Op, q: nat, r: nat)
    requires StructureOk(s, c) && q < c.producers && r < c.producers && q != r && op.sequence == s.nextSequence
    ensures Apart(if q == p then Extended(s, q) + [op] else Extended(s, q), if r == p then Extended(s, r) + [op]
                  else Extended(s, r))
  {
    assert Apart(Extended(s, q), Extended(s, r)) && Ordered(s, q) && Ordered(s, r);
  }

  lemma InsertKeepsStructure(s: State, c: Config, p: nat)
    requires StructureOk(s, c) && Enabled(s, c, Insert(p))
    ensures StructureOk(Step(s, c, Insert(p)), c)
  {
    var s' := Step(s, c, Insert(p));
    PushAppends(s.chains[p], s.phases[p].op, c.capacity);
    forall q | 0 <= q < c.producers
      ensures Ordered(s', q) && Extended(s', q) == Extended(s, q) { assert Ordered(s, q); }
    forall q, r | 0 <= q < c.producers && 0 <= r < c.producers && q != r
      ensures Apart(Extended(s', q), Extended(s', r))
    {
      assert Apart(Extended(s, q), Extended(s, r));
    }
  }

  /** Emptying chains, or forgetting an inserted operation's thread, keeps the order. */
  lemma ShrinkKeepsStructure(s: State, s': State, c: Config)
    requires StructureOk(s, c) && Shape(s', c) && s'.seen == s.seen && s'.nextSequence == s.nextSequence
    requires forall p :: 0 <= p < c.producers ==>
               (s'.chains[p] == s.chains[p] || s'.chains[p] == [])
               && (s'.phases[p] == s.phases[p] || s'.phases[p].Idle?)
    ensures StructureOk(s', c)
  {
    assert Log([]) == [];
    forall p | 0 <= p < c.producers ensures Ordered(s', p) && forall o :: o in Extended(s', p) ==> o in Extended(s, p) {
      assert Ordered(s, p);
      var was, now := Extended(s, p), Extended(s', p);
      if s'.chains[p] == s.chains[p] {
        assert forall i :: 0 <= i < |now| ==> now[i] == was[i];
      } else {
        assert |now| <= 1;
      }
    }
    forall q, r | 0 <= q < c.producers && 0 <= r < c.producers && q != r
      ensures Apart(Extended(s', q), Extended(s', r))
    {
      assert Apart(Extended(s, q), Extended(s, r));
    }
  }

  lemma StepKeepsStructure(s: State, c: Config, a: Action)
    requires StructureOk(s, c) && Enabled(s, c, a)
    ensures StructureOk(Step(s, c, a), c)
  {
    match a
    case Ticket(p, key, isDelete) => TicketKeepsStructure(s, c, p, key, isDelete);
    case Insert(p) => InsertKeepsStructure(s, c, p);
    case Account(p) => ShrinkKeepsStructure(s, Step(s, c, a), c);
    case DrainAll => ShrinkKeepsStructure(s, Step(s, c, a), c);
    case DrainSlice(_) => ShrinkKeepsStructure(s, Step(s, c, a), c);
  }

  /** A full drain comes only when every producer with buffered operations has accounted for something. */
  ghost predicate Careful(s: State, a: Action) {
    a.DrainAll? ==> forall p :: 0 <= p < |s.chains| && p < |s.counts| && Log(s.chains[p]) != [] ==> s.counts[p] > 0
  }

  lemma InsertKeepsDirectories(s: State, c: Config, p: nat)
    requires Shape(s, c) && DirectoriesOk(s) && Enabled(s, c, Insert(p))
    ensures DirectoriesOk(Step(s, c, Insert(p)))
  {
    var s', op := Step(s, c, Insert(p)), s.phases[p].op;
    var log := Log(s.chains[p]);
    PushAppends(s.chains[p], op, c.capacity);
    assert DirectoryOf(s.dirs[p], log);
    forall k ensures LastOf(log + [op], k) == if k in s'.dirs[p] then Some(s'.dirs[p][k]) else None {
      assert (log + [op])[..|log|] == log;
      assert LastOf(log, k) == if k in s.dirs[p] then Some(s.dirs[p][k]) else None;
    }
    assert DirectoryOf(s'.dirs[p], Log(s'.chains[p]));
  }

  lemma DrainKeepsDirectories(s: State, c: Config, a: Action)
    requires Shape(s, c) && DirectoriesOk(s) && (a.DrainAll? || a.DrainSlice?) && Careful(s, a)
    ensures DirectoriesOk(Step(s, c, a))
  {
    var s' := Step(s, c, a);
    var slice := if a.DrainAll? then Everyone(|s.counts|) else a.slice;
    ActiveInRange(s.counts, slice, |s.counts|);
    assert Log([]) == [];
    forall p | 0 <= p < |s'.dirs| ensures DirectoryOf(s'.dirs[p], Log(s'.chains[p])) {
      assert DirectoryOf(s.dirs[p], Log(s.chains[p]));
      if s'.dirs[p] == map[] && s'.chains[p] == [] {
        forall k ensures LastOf([], k) == if k in s'.dirs[p] then Some(s'.dirs[p][k]) else None { }
      }
    }
  }

  /** For a full drain that has something to do, that condition is exact. */
  lemma CarefulIsExact(s: State, c: Config)
    requires Shape(s, c) && DirectoriesOk(s) && s.pending != 0
    ensures DirectoriesOk(Step(s, c, DrainAll)) <==> Careful(s, DrainAll)
  {
    if Careful(s, DrainAll) {
      DrainKeepsDirectories(s, c, DrainAll);
    } else {
      var p :| 0 <= p < |s.chains| && Log(s.chains[p]) != [] && s.counts[p] == 0;
      StaleDirectory(s, c, p);
    }
  }

  /** A chain that a full drain passes over keeps its operations and loses its directory. */
  lemma StaleDirectory(s: State, c: Config, p: nat)
    requires Shape(s, c) && s.pending != 0 && p < |s.chains| && Log(s.chains[p]) != [] && s.counts[p] == 0
    ensures var s' := FullDrain(s, c); p < |s'.chains| == |s'.dirs| && !DirectoryOf(s'.dirs[p], Log(s'.chains[p]))
  {
    ActiveInRange(s.counts, Everyone(|s.counts|), |s.counts|);
    NothingIndexed(Log(s.chains[p]));
  }

  lemma NothingIndexed(log: seq<Op>)
    requires log != []
    ensures !DirectoryOf(map[], log)
  {
    assert LastOf(log, log[|log| - 1].key).Some?;
  }

  lemma StepKeepsDirectories(s: State, c: Config, a: Action)
    requires Shape(s, c) && DirectoriesOk(s) && Enabled(s, c, a) && Careful(s, a)
    ensures DirectoriesOk(Step(s, c, a))
  {
    match a
    case Insert(p) => InsertKeepsDirectories(s, c, p);
    case DrainAll => DrainKeepsDirectories(s, c, a);
    case DrainSlice(_) => DrainKeepsDirectories(s, c, a);
    case _ =>
  }

  ghost predicate CarefulRun(s: State, c: Config, acts: seq<Action>)
    requires Legal(s, c, acts)
    decreases |acts|
  {
    acts == [] || (Careful(s, acts[0]) && CarefulRun(Step(s, c, acts[0]), c, acts[1..]))
  }

  /** Over every interleaving, the pre-filter and the order hold; over careful ones, so do the directories. */
  lemma {:induction false} IndexesOverRuns(s: State, c: Config, acts: seq<Action>)
    requires StructureOk(s, c) && Legal(s, c, acts)
    ensures StructureOk(Run(s, c, acts), c)
    ensures DirectoriesOk(s) && CarefulRun(s, c, acts) ==> DirectoriesOk(Run(s, c, acts))
    decreases |acts|
  {
    if acts != [] {
      StepKeepsStructure(s, c, acts[0]);
      if DirectoriesOk(s) && CarefulRun(s, c, acts) { StepKeepsDirectories(s, c, acts[0]); }
      IndexesOverRuns(Step(s, c, acts[0]), c, acts[1..]);
    }
  }

  // ---------------------------------------------------------------- contains(k) over whole runs

  /** A state, and the keys that are present according to the operations inserted so far. */
  datatype World = World(s: State, members: set<int>)

  /**
    What producers must respect: a key belongs to one producer, and a key is inserted only while it is
    absent. Under F3-N the tree itself must not hold it either, that is, a buffered delete of it must
    have been drained.
   */
  ghost predicate Disciplined(w: World, c: Config, owner: int -> nat, a: Action) {
    a.Ticket? ==>
      && a.p == owner(a.key)
      && (!a.isDelete ==> a.key !in w.members && (c.policy.F3N? ==> w.s.tree[a.key] == 0))
  }

  ghost function Next(w: World, c: Config, a: Action): World
    requires Shape(w.s, c) && Enabled(w.s, c, a)
  {
    var members :=
      if a.Insert? then
        var op := w.s.phases[a.p].op;
        if op.isDelete then w.members - {op.key} else w.members + {op.key}
      else w.members;
    World(Step(w.s, c, a), members)
  }

  /** The ticketed insertions still respect the discipline when they reach the chain. */
  ghost predicate TicketOk(w: World, c: Config, owner: int -> nat, q: nat)
    requires q < |w.s.phases|
  {
    w.s.phases[q].Ticketed? ==>
      var op := w.s.phases[q].op;
      && owner(op.key) == q
      && (!op.isDelete ==> op.key !in w.members && (c.policy.F3N? ==> w.s.tree[op.key] == 0))
  }

  /** The key's operations cannot leave two copies. */
  ghost predicate LogOk(policy: Policy, copies: nat, log: seq<Op>) {
    && copies <= 1
    && (!policy.F3N? ==> InsertsAbsent(copies, log))
    && (policy.F3N? && copies == 1 ==> forall o :: o in log ==> o.isDelete)
  }

  ghost predicate KeyOk(w: World, c: Config, owner: int -> nat, k: int) {
    && (forall q :: 0 <= q < |w.s.chains| && q != owner(k) ==> !Touches(Log(w.s.chains[q]), k))
    && LogOk(c.policy, w.s.tree[k], if owner(k) < |w.s.chains| then For(Log(w.s.chains[owner(k)]), k) else [])
    && (Visible(w.s.tree, w.s.chains, k) <==> k in w.members)
  }

  ghost predicate WorldOk(w: World, c: Config, owner: int -> nat) {
    && StructureOk(w.s, c)
    && (c.policy.F3N? ==> DirectoriesOk(w.s))
    && (forall q {:trigger TicketOk(w, c, owner, q)} :: 0 <= q < c.producers ==> TicketOk(w, c, owner, q))
    && forall k {:trigger KeyOk(w, c, owner, k)} :: KeyOk(w, c, owner, k)
  }

  /** The producer that owns a key decides its visibility. */
  lemma OwnerDecides(w: World, c: Config, owner: int -> nat, k: int)
    requires KeyOk(w, c, owner, k)
    ensures Deciding(w.s.chains, k) == if owner(k) < |w.s.chains| then LastOf(Log(w.s.chains[owner(k)]), k) else None
  {
    if owner(k) < |w.s.chains| {
      OwnedDeciding(w.s.chains, k, owner(k));
    } else {
      DecidingIsNewest(w.s.chains, k);
      forall q | 0 <= q < |w.s.chains|
        ensures LastOf(Log(w.s.chains[q]), k) == None { LastOfMember(Log(w.s.chains[q]), k); }
    }
  }

  /** One more operation of the key's owner. */
  lemma LogOkAppend(policy: Policy, copies: nat, log: seq<Op>, op: Op)
    requires LogOk(policy, copies, log)
    requires !op.isDelete ==>
             (if log == [] then copies == 0 else log[|log| - 1].isDelete) && (policy.F3N? ==> copies == 0)
    ensures LogOk(policy, copies, log + [op])
  {
    if !policy.F3N? { InsertsAbsentAppend(copies, log, op); }
  }

  lemma {:induction false} InsertsAbsentAppend(c: nat, log: seq<Op>, op: Op)
    requires c <= 1 && InsertsAbsent(c, log)
    requires !op.isDelete ==> if log == [] then c == 0 else log[|log| - 1].isDelete
    ensures InsertsAbsent(c, log + [op])
    decreases |log|
  {
    if log == [] {
      assert [op][1..] == [] && log + [op] == [op];
    } else {
      assert (log + [op])[1..] == log[1..] + [op];
      if |log| == 1 {
        assert log[1..] == [];
      }
      InsertsAbsentAppend(CopiesNext(c, log[0]), log[1..], op);
    }
  }

  lemma {:induction false} TouchesAppend(log: seq<Op>, op: Op, k: int)
    ensures Touches(log + [op], k) <==> Touches(log, k) || op.key == k
  {
    if Touches(log, k) {
      var i :| 0 <= i < |log| && log[i].key == k;
      assert (log + [op])[i].key == k;
    }
    if op.key == k { assert (log + [op])[|log|].key == k; }
  }

  /** A log with one more operation, seen by one key. */
  lemma AppendedLog(nodes: seq<Node>, op: Op, capacity: nat, k: int)
    ensures var log, log' := Log(nodes), Log(Push(nodes, op, capacity));
            && log' == log + [op]
            && (Touches(log', k) <==> Touches(log, k) || op.key == k)
            && For(log', k) == (if op.key == k then For(log, k) + [op] else For(log, k))
            && LastOf(log', k) == (if op.key == k then Some(op) else LastOf(log, k))
  {
    var log := Log(nodes);
    PushAppends(nodes, op, capacity);
    TouchesAppend(log, op, k);
    ForConcat(log, [op], k);
    assert [op][1..] == [] && (log + [op])[..|log|] == log;
  }

  lemma InsertKeepsOwnKey(w: World, c: Config, owner: int -> nat, p: nat)
    requires Shape(w.s, c) && Enabled(w.s, c, Insert(p)) && TicketOk(w, c, owner, p)
    requires KeyOk(w, c, owner, w.s.phases[p].op.key)
    ensures KeyOk(Next(w, c, Insert(p)), c, owner, w.s.phases[p].op.key)
  {
    var w', op := Next(w, c, Insert(p)), w.s.phases[p].op;
    var k, log := op.key, Log(w.s.chains[p]);
    AppendedLog(w.s.chains[p], op, c.capacity, k);
    OwnerDecides(w, c, owner, k);
    LastOfFor(log, k);
    LogOkAppend(c.policy, w.s.tree[k], For(log, k), op);
    OwnedDeciding(w'.s.chains, k, p);
  }

  lemma InsertKeepsOtherKey(w: World, c: Config, owner: int -> nat, p: nat, k: int)
    requires Shape(w.s, c) && Enabled(w.s, c, Insert(p)) && KeyOk(w, c, owner, k) && k != w.s.phases[p].op.key
    ensures KeyOk(Next(w, c, Insert(p)), c, owner, k)
  {
    var w', op := Next(w, c, Insert(p)), w.s.phases[p].op;
    AppendedLog(w.s.chains[p], op, c.capacity, k);
    DecidingAgrees(w'.s.chains, w.s.chains, k);
  }

  /** The copies of an owned key after a drain: its log applied, or under F3-N its deciding operation. */
  lemma DrainedCopies(policy: Policy, t: Copies, chains: Chains, ids: seq<nat>, dirs: seq<Directory>, k: int, p: nat)
    requires Sane(chains, ids) && (policy.F3N? ==> Indexed(chains, dirs)) && OwnedBy(chains, k, p)
    ensures var t', log := Replay(t, Applied(policy, chains, ids, dirs))[k], For(Log(chains[p]), k);
            t' == if p !in ids || log == [] then t[k]
                  else if policy.F3N? then CopiesNext(t[k], log[|log| - 1]) else CopiesAfter(t[k], log)
  {
    if policy.F3N? {
      NodeDrainedCopies(t, chains, ids, dirs, k, p);
    } else {
      LogReplayCopies(policy, t, chains, ids, dirs, k, p);
      if For(Log(chains[p]), k) == [] { assert CopiesAfter(t[k], []) == t[k]; }
    }
  }

  lemma NodeDrainedCopies(t: Copies, chains: Chains, ids: seq<nat>, dirs: seq<Directory>, k: int, p: nat)
    requires Sane(chains, ids) && Indexed(chains, dirs) && OwnedBy(chains, k, p)
    ensures var t', log := Replay(t, NodeOrdered(chains, ids, dirs))[k], For(Log(chains[p]), k);
            t' == if p !in ids || log == [] then t[k] else CopiesNext(t[k], log[|log| - 1])
  {
    NodeOrderedCopies(t, chains, ids, dirs, k);
    OwnedDrained(chains, ids, k, p);
    OwnedDeciding(chains, k, p);
    LastOfFor(Log(chains[p]), k);
  }

  lemma DrainKeepsVisible(policy: Policy, t: Copies, chains: Chains, ids: seq<nat>, dirs: seq<Directory>, k: int,
                          p: nat)
    requires Sane(chains, ids) && (policy.F3N? ==> Indexed(chains, dirs)) && OwnedBy(chains, k, p)
    requires LogOk(policy, t[k], For(Log(chains[p]), k))
    ensures Visible(Replay(t, Applied(policy, chains, ids, dirs)), Cleared(chains, ids), k) == Visible(t, chains, k)
  {
    if policy.F3N? {
      assert NotSplit(chains, ids, k);
      NodeDrainVisibility(t, chains, ids, dirs, k);
    } else {
      OwnedLog(policy, chains, ids, k, p);
      LogDrainKeepsVisible(policy, t, chains, ids, dirs, k, if p in ids then For(Log(chains[p]), k) else []);
    }
  }

  /** What one key's copies become, given its log. */
  lemma DrainedLogOk(policy: Policy, copies: nat, log: seq<Op>)
    requires LogOk(policy, copies, log) && log != []
    ensures var c := if policy.F3N? then CopiesNext(copies, log[|log| - 1]) else CopiesAfter(copies, log);
            c <= 1 && (log[|log| - 1].isDelete && copies == 0 ==> c == 0)
  {
    if policy.F3N? {
      assert log[|log| - 1] in log;
    } else {
      LastDecides(copies, log);
    }
  }

  /** What a drain does to one key, whichever policy runs. */
  lemma DrainKey(policy: Policy, t: Copies, chains: Chains, ids: seq<nat>, dirs: seq<Directory>, k: int, p: nat)
    requires Sane(chains, ids) && (policy.F3N? ==> Indexed(chains, dirs)) && OwnedBy(chains, k, p)
    requires LogOk(policy, t[k], For(Log(chains[p]), k))
    ensures var t' := Replay(t, Applied(policy, chains, ids, dirs));
            && Visible(t', Cleared(chains, ids), k) == Visible(t, chains, k)
            && LogOk(policy, t'[k], For(Log(Cleared(chains, ids)[p]), k))
            && (t[k] == 0 && !Visible(t, chains, k) ==> t'[k] == 0)
            && (forall q :: 0 <= q < |chains| && q != p ==> !Touches(Log(Cleared(chains, ids)[q]), k))
  {
    DrainKeepsVisible(policy, t, chains, ids, dirs, k, p);
    DrainKeepsLogOk(policy, t, chains, ids, dirs, k, p);
    assert Log([]) == [];
  }

  lemma DrainKeepsLogOk(policy: Policy, t: Copies, chains: Chains, ids: seq<nat>, dirs: seq<Directory>, k: int, p: nat)
    requires Sane(chains, ids) && (policy.F3N? ==> Indexed(chains, dirs)) && OwnedBy(chains, k, p)
    requires LogOk(policy, t[k], For(Log(chains[p]), k))
    ensures var t' := Replay(t, Applied(policy, chains, ids, dirs))[k];
            && LogOk(policy, t', For(Log(Cleared(chains, ids)[p]), k))
            && (t[k] == 0 && !Visible(t, chains, k) ==> t' == 0)
  {
    DrainedCopies(policy, t, chains, ids, dirs, k, p);
    HiddenByDelete(t, chains, k, p);
    if For(Log(chains[p]), k) != [] { DrainedLogOk(policy, t[k], For(Log(chains[p]), k)); }
    assert For(Log([]), k) == [];
  }

  /** An owned key that is in its owner's log and not visible was deleted last. */
  lemma HiddenByDelete(t: Copies, chains: Chains, k: int, p: nat)
    requires OwnedBy(chains, k, p)
    ensures var log := For(Log(chains[p]), k);
            log != [] && !Visible(t, chains, k) ==> log[|log| - 1].isDelete
  {
    OwnedDeciding(chains, k, p);
    LastOfFor(Log(chains[p]), k);
  }

  /** The deciding operation is drained exactly when the owner is. */
  lemma OwnedDrained(chains: Chains, ids: seq<nat>, k: int, p: nat)
    requires Sane(chains, ids) && OwnedBy(chains, k, p)
    ensures var e := Deciding(chains, k);
            e.Some? ==> (e.value in LogsOf(chains, ids) <==> p in ids) && e.value in For(Log(chains[p]), k)
  {
    OwnedDeciding(chains, k, p);
    LastOfMember(Log(chains[p]), k);
    var e := Deciding(chains, k);
    if e.Some? {
      ForMembers(Log(chains[p]), k, e.value);
      InLogsOf(chains, ids, e.value);
      if p in ids {
        var i :| 0 <= i < |ids| && ids[i] == p;
        assert e.value in Log(chains[ids[i]]);
      }
      if i :| 0 <= i < |ids| && e.value in Log(chains[ids[i]]) {
        SequenceIdentifies(chains, ids[i], p, e.value, e.value);
      }
    }
  }

  lemma InsertKeepsWorld(w: World, c: Config, owner: int -> nat, p: nat)
    requires WorldOk(w, c, owner) && Enabled(w.s, c, Insert(p))
    ensures WorldOk(Next(w, c, Insert(p)), c, owner)
  {
    var w', op := Next(w, c, Insert(p)), w.s.phases[p].op;
    StepKeepsStructure(w.s, c, Insert(p));
    if c.policy.F3N? { StepKeepsDirectories(w.s, c, Insert(p)); }
    assert TicketOk(w, c, owner, p);
    forall q | 0 <= q < c.producers ensures TicketOk(w', c, owner, q) { assert TicketOk(w, c, owner, q); }
    forall k ensures KeyOk(w', c, owner, k) {
      assert KeyOk(w, c, owner, k);
      if k == op.key { InsertKeepsOwnKey(w, c, owner, p); } else { InsertKeepsOtherKey(w, c, owner, p, k); }
    }
  }

  /** A key whose owner is no producer has no operations at all. */
  lemma DrainUnownedKey(policy: Policy, t: Copies, chains: Chains, ids: seq<nat>, dirs: seq<Directory>, k: int)
    requires Sane(chains, ids) && (policy.F3N? ==> Indexed(chains, dirs)) && chains != []
    requires forall q :: 0 <= q < |chains| ==> !Touches(Log(chains[q]), k)
    ensures Replay(t, Applied(policy, chains, ids, dirs))[k] == t[k]
    ensures Deciding(chains, k) == None && Deciding(Cleared(chains, ids), k) == None
  {
    assert Log([]) == [];
    forall q | 0 <= q < |chains|
      ensures LastOf(Log(chains[q]), k) == None && LastOf(Log(Cleared(chains, ids)[q]), k) == None
    {
      LastOfMember(Log(chains[q]), k);
    }
    DecidingIsNewest(chains, k);
    DecidingIsNewest(Cleared(chains, ids), k);
    ForNothing(Log(chains[0]), k);
    assert OwnedBy(chains, k, 0);
    if policy.F3N? {
      NodeOrderedCopies(t, chains, ids, dirs, k);
    } else {
      LogReplayCopies(policy, t, chains, ids, dirs, k, 0);
    }
  }

  lemma DrainKeepsKey(w: World, c: Config, owner: int -> nat, s': State, ids: seq<nat>, k: int)
    requires StructureOk(w.s, c) && (c.policy.F3N? ==> DirectoriesOk(w.s)) && KeyOk(w, c, owner, k)
    requires Sane(w.s.chains, ids)
    requires s'.tree == Replay(w.s.tree, Applied(c.policy, w.s.chains, ids, w.s.dirs))
    requires s'.chains == Cleared(w.s.chains, ids)
    ensures KeyOk(World(s', w.members), c, owner, k)
    ensures w.s.tree[k] == 0 && k !in w.members ==> s'.tree[k] == 0
  {
    assert Log([]) == [];
    if owner(k) < |w.s.chains| {
      DrainKey(c.policy, w.s.tree, w.s.chains, ids, w.s.dirs, k, owner(k));
    } else {
      DrainUnownedKey(c.policy, w.s.tree, w.s.chains, ids, w.s.dirs, k);
    }
  }

  lemma DrainKeepsWorld(w: World, c: Config, owner: int -> nat, a: Action)
    requires WorldOk(w, c, owner) && (a.DrainAll? || a.DrainSlice?) && (c.policy.F3N? ==> Careful(w.s, a))
    ensures WorldOk(Next(w, c, a), c, owner)
  {
    var w' := Next(w, c, a);
    var slice := if a.DrainAll? then Everyone(|w.s.counts|) else a.slice;
    var ids := Active(w.s.counts, slice, |w.s.counts|);
    ActiveInRange(w.s.counts, slice, |w.s.counts|);
    StructureImpliesSequenced(w.s, c);
    StepKeepsStructure(w.s, c, a);
    if c.policy.F3N? { StepKeepsDirectories(w.s, c, a); }
    if a.DrainSlice? || w.s.pending != 0 {
      forall k ensures KeyOk(w', c, owner, k) && (w.s.tree[k] == 0 && k !in w.members ==> w'.s.tree[k] == 0) {
        assert KeyOk(w, c, owner, k);
        DrainKeepsKey(w, c, owner, w'.s, ids, k);
      }
    }
    forall q | 0 <= q < c.producers ensures TicketOk(w', c, owner, q) { assert TicketOk(w, c, owner, q); }
  }

  lemma StepKeepsWorld(w: World, c: Config, owner: int -> nat, a: Action)
    requires WorldOk(w, c, owner) && Enabled(w.s, c, a) && Disciplined(w, c, owner, a)
    requires c.policy.F3N? ==> Careful(w.s, a)
    ensures WorldOk(Next(w, c, a), c, owner)
  {
    match a
    case Insert(p) => InsertKeepsWorld(w, c, owner, p);
    case DrainAll => DrainKeepsWorld(w, c, owner, a);
    case DrainSlice(_) => DrainKeepsWorld(w, c, owner, a);
    case _ =>
      var w' := Next(w, c, a);
      StepKeepsStructure(w.s, c, a);
      forall q | 0 <= q < c.producers ensures TicketOk(w', c, owner, q) { assert TicketOk(w, c, owner, q); }
      forall k ensures KeyOk(w', c, owner, k) { assert KeyOk(w, c, owner, k); }
  }

  lemma InitialWorld(c: Config, owner: int -> nat, tree: Copies)
    requires ConfigOk(c) && forall k :: tree[k] <= 1
    ensures WorldOk(World(Initial(c, tree), set k | k in tree), c, owner)
  {
    var w := World(Initial(c, tree), set k | k in tree);
    InitialStructure(c, tree);
    assert Log([]) == [];
    forall q | 0 <= q < c.producers ensures TicketOk(w, c, owner, q) { }
    forall k ensures KeyOk(w, c, owner, k) {
      assert tree[k] <= 1;
      DecidingIsNewest(w.s.chains, k);
      forall q | 0 <= q < |w.s.chains| ensures LastOf(Log(w.s.chains[q]), k) == None { }
    }
  }

  /** The run obeys the producers' discipline and, under F3-N, drains everything only carefully. */
  ghost predicate DisciplinedRun(w: World, c: Config, owner: int -> nat, acts: seq<Action>)
    requires Legal(w.s, c, acts)
    decreases |acts|
  {
    acts == [] ||
    (&& Disciplined(w, c, owner, acts[0])
     && (c.policy.F3N? ==> Careful(w.s, acts[0]))
     && DisciplinedRun(Next(w, c, acts[0]), c, owner, acts[1..]))
  }

  ghost function RunWorld(w: World, c: Config, acts: seq<Action>): World
    requires Legal(w.s, c, acts)
    decreases |acts|
  {
    if acts == [] then w else RunWorld(Next(w, c, acts[0]), c, acts[1..])
  }

  lemma {:induction false} RunKeepsWorld(w: World, c: Config, owner: int -> nat, acts: seq<Action>)
    requires WorldOk(w, c, owner) && Legal(w.s, c, acts) && DisciplinedRun(w, c, owner, acts)
    ensures WorldOk(RunWorld(w, c, acts), c, owner) && RunWorld(w, c, acts).s == Run(w.s, c, acts)
    decreases |acts|
  {
    if acts != [] {
      StepKeepsWorld(w, c, owner, acts[0]);
      RunKeepsWorld(Next(w, c, acts[0]), c, owner, acts[1..]);
    }
  }

  /**
    From a tree with at most one copy of every key, for all three policies and every interleaving of
    producers and drains: contains(k) is true exactly when k is present according to the operations
    inserted so far, and the tree never holds a key twice.
   */
  lemma ContentsOverRuns(c: Config, owner: int -> nat, tree: Copies, acts: seq<Action>)
    requires ConfigOk(c) && (forall k :: tree[k] <= 1) && Legal(Initial(c, tree), c, acts)
    requires DisciplinedRun(World(Initial(c, tree), set k | k in tree), c, owner, acts)
    ensures var s := Run(Initial(c, tree), c, acts);
            var members := RunWorld(World(Initial(c, tree), set k | k in tree), c, acts).members;
            forall k :: (Visible(s.tree, s.chains, k) <==> k in members) && s.tree[k] <= 1
  {
    var w := World(Initial(c, tree), set k | k in tree);
    InitialWorld(c, owner, tree);
    RunKeepsWorld(w, c, owner, acts);
    var e := RunWorld(w, c, acts);
    forall k ensures (Visible(e.s.tree, e.s.chains, k) <==> k in e.members) && e.s.tree[k] <= 1 {
      assert KeyOk(e, c, owner, k);
    }
  }

  // ---------------------------------------------------------------- why the conditions are there

  /** Producer 0 has inserted x but not accounted for it; producer 1 has accounted for y. */
  ghost predicate Unaccounted(s: State, c: Config, x: Op, y: Op) {
    && AccountsOk(s, c) && c.policy.F3N? && c.producers == 2
    && s.chains == [[[x]], [[y]]] && s.counts == [0, 1] && s.phases == [Inserted(x), Idle]
    && !x.isDelete && x.key != y.key && s.tree[x.key] == 0
  }

  const LOSING: seq<Action> := [DrainAll, Account(0), DrainAll]

  lemma LostFrom(s: State, c: Config, x: Op, y: Op)
    requires Unaccounted(s, c, x, y)
    ensures !Careful(s, DrainAll) && Visible(s.tree, s.chains, x.key) && Legal(s, c, LOSING)
    ensures var s' := Run(s, c, LOSING); !Visible(s'.tree, s'.chains, x.key) && s'.chains == [[], []]
  {
    SingleLog(x);
    assert Log(s.chains[0]) != [] && s.counts[0] == 0;
    TwoChains(x, y);
    TwoSums(0, 1);
    var s1 := FirstDrain(s, c, x, y);
    var s2 := Step(s1, c, Account(0));
    assert s2.counts == [1, 0] && s2.pending == 1;
    SecondDrain(s2, c, x);
    var s3 := Step(s2, c, DrainAll);
    NoChains(s3.chains, x.key);
    RunOfThree(s, c, DrainAll, Account(0), DrainAll);
  }

  /** Producer 1 of two buffers an insertion into an empty system. */
  lemma OneBuffered(c: Config, y: int) returns (s: State)
    requires ConfigOk(c) && c.producers == 2
    ensures var acts := [Ticket(1, y, false), Insert(1), Account(1)];
            Legal(Initial(c, multiset{}), c, acts) && s == Run(Initial(c, multiset{}), c, acts) && AccountsOk(s, c)
    ensures s.chains == [[], [[Op(y, false, 1, 1)]]] && s.phases == [Idle, Idle] && s.counts == [0, 1]
            && s.tree == multiset{}
    ensures s.dirs == [map[], map[y := Op(y, false, 1, 1)]] && s.seen == [{}, {y}] && s.nextSequence == 2
  {
    var s0 := Initial(c, multiset{});
    assert s0.chains == [[], []] && s0.phases == [Idle, Idle] && s0.counts == [0, 0];
    assert s0.dirs == [map[], map[]] && s0.seen == [{}, {}] && s0.seen[1] + {y} == {y};
    var s1 := Step(s0, c, Ticket(1, y, false));
    var s2 := Step(s1, c, Insert(1));
    s := Step(s2, c, Account(1));
    RunOfThree(s0, c, Ticket(1, y, false), Insert(1), Account(1));
    InitialAccounts(c, multiset{});
    RunKeepsAccounts(s0, c, [Ticket(1, y, false), Insert(1), Account(1)]);
  }

  function Unaccounting(x: int, y: int): seq<Action> {
    [Ticket(1, y, false), Insert(1), Account(1), Ticket(0, x, false), Insert(0)]
  }

  lemma UnaccountedReached(c: Config, x: int, y: int) returns (s: State)
    requires ConfigOk(c) && c.policy.F3N? && c.producers == 2 && x != y
    ensures Legal(Initial(c, multiset{}), c, Unaccounting(x, y))
            && s == Run(Initial(c, multiset{}), c, Unaccounting(x, y))
    ensures Unaccounted(s, c, Op(x, false, 2, 0), Op(y, false, 1, 1))
  {
    var t := OneBuffered(c, y);
    var t1 := Step(t, c, Ticket(0, x, false));
    s := Step(t1, c, Insert(0));
    assert s.chains == [[[Op(x, false, 2, 0)]], [[Op(y, false, 1, 1)]]];
    RunOfTwo(t, c, Ticket(0, x, false), Insert(0));
    RunKeepsAccounts(t, c, [Ticket(0, x, false), Insert(0)]);
    RunConcat(Initial(c, multiset{}), c, [Ticket(1, y, false), Insert(1), Account(1)],
              [Ticket(0, x, false), Insert(0)]);
    assert Unaccounting(x, y) == [Ticket(1, y, false), Insert(1), Account(1)] + [Ticket(0, x, false), Insert(0)];
  }

  /**
    A run from an empty tree in which a full F3-N drain loses a write. Producer 0 has inserted x but
    not accounted for it when the drain clears its directory and leaves its chain. Once producer 0 has
    accounted, the next drain finds no directory entry and throws the insertion away.
   */
  lemma FullDrainCanLoseAWrite(c: Config, x: int, y: int)
    requires ConfigOk(c) && c.policy.F3N? && c.producers == 2 && x != y
    ensures Legal(Initial(c, multiset{}), c, Unaccounting(x, y))
    ensures var s := Run(Initial(c, multiset{}), c, Unaccounting(x, y));
            && !Careful(s, DrainAll) && Visible(s.tree, s.chains, x) && Legal(s, c, LOSING)
            && var s' := Run(s, c, LOSING); !Visible(s'.tree, s'.chains, x) && s'.chains == [[], []]
  {
    var s := UnaccountedReached(c, x, y);
    LostFrom(s, c, Op(x, false, 2, 0), Op(y, false, 1, 1));
  }

  lemma NoChains(chains: Chains, k: int)
    requires chains == [[], []]
    ensures Deciding(chains, k) == None
  {
    assert chains[..1] == [[]] && chains[..1][..0] == [] && Log([]) == [];
    assert Deciding(chains[..1], k) == None;
  }

  lemma TwoChains(a: Op, b: Op)
    requires a.key != b.key
    ensures Deciding([[[a]], [[b]]], a.key) == Some(a)
  {
    var chains: Chains := [[[a]], [[b]]];
    SingleLog(a);
    SingleLog(b);
    assert chains[..1] == [[[a]]] && chains[..1][..0] == [];
    assert Deciding(chains[..1], a.key) == Some(a);
  }

  lemma SingleLog(op: Op)
    ensures Log([[op]]) == [op] && Flatten([[op]]) == [op]
    ensures forall k :: LastOf([op], k) == if op.key == k then Some(op) else None
  {
    assert [[op]][1..] == [] && [] + [op] == [op] && [op] + [] == [op];
    assert [op][..0] == [];
  }

  lemma TwoSums(a: nat, b: nat)
    ensures Sum([a, b]) == a + b
  {
    assert [a, b][..1] == [a] && [a][..0] == [];
    assert Sum([a]) == a;
  }

  lemma {:induction false} KeepLatestWithin(ops: seq<Op>, latest: Directory)
    ensures forall o :: o in KeepLatest(ops, latest) ==> o in ops
    ensures latest == map[] ==> KeepLatest(ops, latest) == []
  {
    if ops != [] { KeepLatestWithin(ops[1..], latest); }
  }

  /** A replay of one node of one operation changes at most that operation's key. */
  lemma OneNodeReplay(t: Copies, chains: Chains, p: nat, op: Op, dirs: seq<Directory>, k: int)
    requires p < |chains| && chains[p] == [[op]] && op.key != k
    ensures Replay(t, NodeOrdered(chains, [p], dirs))[k] == t[k]
  {
    OneNode(chains, p, op);
    var applied := NodeOrdered(chains, [p], dirs);
    KeepLatestWithin([op], Merged(dirs));
    assert forall i :: 0 <= i < |applied| ==> applied[i] in [op];
    ForNothing(applied, k);
    ReplayCopies(t, applied, k);
  }

  lemma OneNode(chains: Chains, p: nat, op: Op)
    requires p < |chains| && chains[p] == [[op]]
    ensures Flatten(SortNodes(NodesOf(chains, [p]))) == [op]
  {
    assert [p][1..] == [] && NodesOf(chains, [p]) == [[op]] + [] == [[op]];
    assert [[op]][1..] == [] && SortNodes([[op]]) == InsertNode([], [op]) == [[op]];
    SingleLog(op);
  }

  lemma OnlySecond(counts: seq<nat>, all: set<nat>)
    requires |counts| == 2 && counts[0] == 0 && counts[1] > 0 && 1 in all
    ensures Active(counts, all, 2) == [1]
  {
    assert Active(counts, all, 0) == [] && Active(counts, all, 1) == [] + [];
  }

  lemma OnlyFirst(counts: seq<nat>, all: set<nat>)
    requires |counts| == 2 && counts[0] > 0 && counts[1] == 0 && 0 in all
    ensures Active(counts, all, 2) == [0]
  {
    assert Active(counts, all, 0) == [] && Active(counts, all, 1) == [] + [0];
  }

  lemma FirstDrain(s: State, c: Config, x: Op, y: Op) returns (s1: State)
    requires Shape(s, c) && c.policy == F3N && x.key != y.key
    requires s.chains == [[[x]], [[y]]] && s.counts == [0, 1] && s.pending == 1
    ensures s1 == Step(s, c, DrainAll) && s1.chains == [[[x]], []] && s1.tree[x.key] == s.tree[x.key]
    ensures s1.counts == [0, 0] && s1.pending == 0 && s1.dirs == [map[], map[]]
    ensures s1.phases == s.phases && s1.byNode == Repeated(|s.byNode|, 0) && s1.seen == s.seen
  {
    OnlySecond(s.counts, Everyone(2));
    s1 := Step(s, c, DrainAll);
    OneNodeReplay(s.tree, s.chains, 1, y, s.dirs, x.key);
  }

  lemma {:induction false} MergedEmpty(dirs: seq<Directory>)
    requires forall p :: 0 <= p < |dirs| ==> dirs[p] == map[]
    ensures Merged(dirs) == map[]
  {
    if dirs != [] { MergedEmpty(dirs[..|dirs| - 1]); }
  }

  lemma SecondDrain(s: State, c: Config, seven: Op)
    requires Shape(s, c) && c.policy == F3N && s.chains == [[[seven]], []] && s.dirs == [map[], map[]]
    requires s.counts == [1, 0] && s.pending == 1
    ensures Step(s, c, DrainAll).tree == s.tree && Step(s, c, DrainAll).chains == [[], []]
  {
    OnlyFirst(s.counts, Everyone(2));
    MergedEmpty(s.dirs);
    KeepLatestWithin(Flatten(SortNodes(NodesOf(s.chains, [0]))), map[]);
  }
}
