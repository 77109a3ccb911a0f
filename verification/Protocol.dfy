/**
  Producers and drains as a step machine.

  A buffered operation takes three steps: take a sequence number, append to the producer's chain and
  indexes, then account for it under the wrapper's lock. A drain holds all its locks from start to
  end, so it is one step. Evaluator wake-ups are left open: a drain may come at any point.
 */
module Protocol {
  import opened Ops
  import opened ChainLists
  import opened Replays
  import opened Drains

  /** Producers, node capacity, home node of every producer, number of NUMA nodes, replay policy. */
  datatype Config = Config(producers: nat, capacity: nat, home: seq<nat>, nodes: nat, policy: Policy)

  /** validate_runtime_config rejects a configuration without producers. */
  ghost predicate ConfigOk(c: Config) {
    0 < c.producers && |c.home| == c.producers && forall p :: 0 <= p < c.producers ==> c.home[p] < c.nodes
  }

  /** Where a producer thread stands. */
  datatype Phase = Idle | Ticketed(op: Op) | Inserted(op: Op)

  /**
    The shared state: the tree, and per producer its chain, lookup directory, hash pre-filter, thread
    and accounted entries; the pending counts; the sequence counter; and the two statistics.
   */
  datatype State = State(
    tree: Copies, chains: Chains, dirs: seq<Directory>, seen: seq<set<int>>, phases: seq<Phase>,
    counts: seq<nat>, pending: int, byNode: seq<int>, nextSequence: nat, enqueued: nat, drained: nat)

  datatype Action =
    | Ticket(p: nat, key: int, isDelete: bool)
    | Insert(p: nat)
    | Account(p: nat)
    | DrainAll
    | DrainSlice(slice: set<nat>)

  // ---------------------------------------------------------------- steps

  /** The producers below n, of the slice, that have accounted entries, in ascending order. */
  function Active(counts: seq<nat>, slice: set<nat>, n: nat): seq<nat>
    requires n <= |counts|
  {
    if n == 0 then []
    else Active(counts, slice, n - 1) + (if n - 1 in slice && counts[n - 1] > 0 then [n - 1] else [])
  }

  function Everyone(n: nat): (all: set<nat>)
    ensures forall p: nat :: p in all <==> p < n
  {
    if n == 0 then {} else Everyone(n - 1) + {n - 1}
  }

  function Zeroed(counts: seq<nat>, ids: seq<nat>): (r: seq<nat>)
    ensures |r| == |counts| && forall p :: 0 <= p < |r| ==> r[p] == if p in ids then 0 else counts[p]
  {
    seq(|counts|, p requires 0 <= p < |counts| => if p in ids then 0 else counts[p])
  }

  /** The accounted entries of the given producers. */
  function Taken(counts: seq<nat>, ids: seq<nat>): nat
    requires forall i :: 0 <= i < |ids| ==> ids[i] < |counts|
  {
    if ids == [] then 0 else counts[ids[0]] + Taken(counts, ids[1..])
  }

  /** The part of it whose producers live on one node. */
  function TakenAt(counts: seq<nat>, ids: seq<nat>, home: seq<nat>, node: nat): nat
    requires |home| == |counts| && forall i :: 0 <= i < |ids| ==> ids[i] < |counts|
  {
    if ids == [] then 0
    else (if home[ids[0]] == node then counts[ids[0]] else 0) + TakenAt(counts, ids[1..], home, node)
  }

  /** The per-node counts without the given producers' entries. */
  function Lowered(byNode: seq<int>, counts: seq<nat>, ids: seq<nat>, home: seq<nat>): (r: seq<int>)
    requires |home| == |counts| && forall i :: 0 <= i < |ids| ==> ids[i] < |counts|
    ensures |r| == |byNode| && forall n :: 0 <= n < |r| ==> r[n] == byNode[n] - TakenAt(counts, ids, home, n)
  {
    seq(|byNode|, n requires 0 <= n < |byNode| => byNode[n] - TakenAt(counts, ids, home, n))
  }

  function DirsCleared(dirs: seq<Directory>, ids: seq<nat>): (r: seq<Directory>)
    ensures |r| == |dirs| && forall p :: 0 <= p < |r| ==> r[p] == if p in ids then map[] else dirs[p]
  {
    seq(|dirs|, p requires 0 <= p < |dirs| => if p in ids then map[] else dirs[p])
  }

  ghost predicate Shape(s: State, c: Config) {
    && ConfigOk(c)
    && |s.chains| == |s.dirs| == |s.seen| == |s.phases| == |s.counts| == c.producers
    && |s.byNode| == c.nodes
  }

  /** A fresh tree, before any operation. */
  function Initial(c: Config, tree: Copies): State {
    State(tree, seq(c.producers, _ => []), seq(c.producers, _ => map[]), seq(c.producers, _ => {}),
          seq(c.producers, _ => Idle), seq(c.producers, _ => 0), 0, seq(c.nodes, _ => 0), 1, 0, 0)
  }

  ghost predicate Enabled(s: State, c: Config, a: Action) {
    match a
    case Ticket(p, _, _) => p < |s.phases| && s.phases[p].Idle?
    case Insert(p) => p < |s.phases| && s.phases[p].Ticketed?
    case Account(p) => p < |s.phases| && s.phases[p].Inserted?
    case DrainAll => true
    case DrainSlice(_) => true
  }

  function Repeated<T>(n: nat, x: T): (r: seq<T>)
    ensures |r| == n && forall i :: 0 <= i < n ==> r[i] == x
  {
    seq(n, _ => x)
  }

  /** A drain of everything, once the producers with accounted entries are known. */
  function FullDrainOf(s: State, c: Config, ids: seq<nat>): State
    requires |s.chains| == |s.counts| == |s.dirs| && forall i :: 0 <= i < |ids| ==> ids[i] < |s.counts|
  {
    s.(tree := Replay(s.tree, Applied(c.policy, s.chains, ids, s.dirs)),
       chains := Cleared(s.chains, ids),
       dirs := Repeated(|s.dirs|, map[]),
       counts := Repeated(|s.counts|, 0),
       pending := 0,
       byNode := Repeated(|s.byNode|, 0),
       drained := s.drained + Taken(s.counts, ids))
  }

  /** drain_locked: every accounted producer is replayed, but every directory and count is reset. */
  function FullDrain(s: State, c: Config): State
    requires |s.chains| == |s.counts| == |s.dirs|
  {
    if s.pending == 0 then s
    else
      ActiveInRange(s.counts, Everyone(|s.counts|), |s.counts|);
      FullDrainOf(s, c, Active(s.counts, Everyone(|s.counts|), |s.counts|))
  }

  /** A drain of some producers. */
  function SliceDrainOf(s: State, c: Config, ids: seq<nat>): State
    requires |s.chains| == |s.counts| == |s.dirs| == |c.home| && forall i :: 0 <= i < |ids| ==> ids[i] < |s.counts|
  {
    s.(tree := Replay(s.tree, Applied(c.policy, s.chains, ids, s.dirs)),
       chains := Cleared(s.chains, ids),
       dirs := DirsCleared(s.dirs, ids),
       counts := Zeroed(s.counts, ids),
       pending := s.pending - Taken(s.counts, ids),
       byNode := Lowered(s.byNode, s.counts, ids, c.home),
       drained := s.drained + Taken(s.counts, ids))
  }

  /** drain_locked_for_producers and drain_locked_for_nodes: only the slice's accounted producers. */
  function SliceDrain(s: State, c: Config, slice: set<nat>): State
    requires |s.chains| == |s.counts| == |s.dirs| == |c.home|
  {
    ActiveInRange(s.counts, slice, |s.counts|);
    SliceDrainOf(s, c, Active(s.counts, slice, |s.counts|))
  }

  function Step(s: State, c: Config, a: Action): State
    requires Shape(s, c) && Enabled(s, c, a)
  {
    match a
    case Ticket(p, key, isDelete) =>
      s.(phases := s.phases[p := Ticketed(Op(key, isDelete, s.nextSequence, p))], nextSequence := s.nextSequence + 1)
    case Insert(p) =>
      var op := s.phases[p].op;
      s.(chains := s.chains[p := Push(s.chains[p], op, c.capacity)],
         dirs := s.dirs[p := s.dirs[p][op.key := op]],
         seen := s.seen[p := s.seen[p] + {op.key}],
         phases := s.phases[p := Inserted(op)])
    case Account(p) =>
      s.(counts := s.counts[p := s.counts[p] + 1],
         pending := s.pending + 1,
         byNode := s.byNode[c.home[p] := s.byNode[c.home[p]] + 1],
         phases := s.phases[p := Idle],
         enqueued := s.enqueued + 1)
    case DrainAll => FullDrain(s, c)
    case DrainSlice(slice) => SliceDrain(s, c, slice)
  }

  lemma {:induction false} ActiveInRange(counts: seq<nat>, slice: set<nat>, n: nat)
    requires n <= |counts|
    ensures var ids := Active(counts, slice, n);
            && (forall i :: 0 <= i < |ids| ==> ids[i] < n)
            && Distinct(ids)
            && forall p: nat :: p in ids <==> p < n && p in slice && counts[p] > 0
  {
    if n > 0 { ActiveInRange(counts, slice, n - 1); }
  }

  /** A drain takes its producers in ascending order. */
  lemma {:induction false} ActiveAscends(counts: seq<nat>, slice: set<nat>, n: nat)
    requires n <= |counts|
    ensures Upward(Active(counts, slice, n))
  {
    if n > 0 {
      ActiveInRange(counts, slice, n - 1);
      ActiveAscends(counts, slice, n - 1);
      UpwardSnoc(Active(counts, slice, n - 1), n - 1);
    }
  }

  /** The producers that a drain takes. */
  function DrainedBy(s: State, a: Action): (ids: seq<nat>)
    requires a.DrainAll? || a.DrainSlice?
    ensures Distinct(ids) && forall i :: 0 <= i < |ids| ==> ids[i] < |s.counts|
  {
    if a.DrainAll? && s.pending == 0 then []
    else
      var slice := if a.DrainAll? then Everyone(|s.counts|) else a.slice;
      ActiveInRange(s.counts, slice, |s.counts|);
      Active(s.counts, slice, |s.counts|)
  }

  /** A full drain takes exactly the producers with accounted entries. */
  lemma DrainedByAll(s: State, p: nat)
    requires s.pending != 0 && p < |s.counts|
    ensures p in DrainedBy(s, DrainAll) <==> s.counts[p] > 0
  {
    ActiveInRange(s.counts, Everyone(|s.counts|), |s.counts|);
  }

  /** What a drain leaves of chains and tree. */
  lemma DrainOf(s: State, c: Config, a: Action)
    requires Shape(s, c) && (a.DrainAll? || a.DrainSlice?)
    ensures var s', ids := Step(s, c, a), DrainedBy(s, a);
            && s'.chains == Cleared(s.chains, ids) && s'.phases == s.phases
            && s'.tree == Replay(s.tree, Applied(c.policy, s.chains, ids, s.dirs))
  {
    if a.DrainAll? && s.pending == 0 { assert NodesOf(s.chains, []) == []; }
  }

  // ---------------------------------------------------------------- accounting

  function Sum(counts: seq<nat>): nat {
    if counts == [] then 0 else Sum(counts[..|counts| - 1]) + counts[|counts| - 1]
  }

  /** The accounted entries of the producers that live on a node. */
  function SumAt(counts: seq<nat>, home: seq<nat>, node: nat): nat
    requires |counts| == |home|
  {
    if counts == [] then 0
    else
      var n := |counts| - 1;
      SumAt(counts[..n], home[..n], node) + (if home[n] == node then counts[n] else 0)
  }

  lemma {:induction false} SumUpdate(counts: seq<nat>, p: nat, x: nat)
    requires p < |counts|
    ensures Sum(counts[p := x]) == Sum(counts) - counts[p] + x
  {
    var n := |counts| - 1;
    if p < n {
      SumUpdate(counts[..n], p, x);
      assert counts[p := x][..n] == counts[..n][p := x];
    } else {
      assert counts[p := x][..n] == counts[..n];
    }
  }

  lemma {:induction false} SumAtUpdate(counts: seq<nat>, home: seq<nat>, node: nat, p: nat, x: nat)
    requires p < |counts| == |home|
    ensures SumAt(counts[p := x], home, node) == SumAt(counts, home, node) + if home[p] == node then x - counts[p]
            else 0
  {
    var n := |counts| - 1;
    if p < n {
      SumAtUpdate(counts[..n], home[..n], node, p, x);
      assert counts[p := x][..n] == counts[..n][p := x];
    } else {
      assert counts[p := x][..n] == counts[..n];
    }
  }

  /** What is taken and what remains make up the whole, in total and on every node. */
  lemma {:induction false} TakenAndLeft(counts: seq<nat>, ids: seq<nat>, home: seq<nat>, node: nat)
    requires |home| == |counts| && Distinct(ids) && forall i :: 0 <= i < |ids| ==> ids[i] < |counts|
    ensures Sum(counts) == Taken(counts, ids) + Sum(Zeroed(counts, ids))
    ensures SumAt(counts, home, node) == TakenAt(counts, ids, home, node) + SumAt(Zeroed(counts, ids), home, node)
    decreases |ids|
  {
    if ids == [] {
      assert Zeroed(counts, ids) == counts;
    } else {
      var p, rest := ids[0], ids[1..];
      TakenAndLeft(counts, rest, home, node);
      var z := Zeroed(counts, rest);
      assert p !in rest;
      assert Zeroed(counts, ids) == z[p := 0];
      SumUpdate(z, p, 0);
      SumAtUpdate(z, home, node, p, 0);
    }
  }

  lemma {:induction false} SumZero(counts: seq<nat>, home: seq<nat>, node: nat)
    requires |home| == |counts| && forall p :: 0 <= p < |counts| ==> counts[p] == 0
    ensures Sum(counts) == 0 && SumAt(counts, home, node) == 0
  {
    if counts != [] {
      var n := |counts| - 1;
      SumZero(counts[..n], home[..n], node);
    }
  }

  lemma {:induction false} SumBounds(counts: seq<nat>, p: nat)
    requires p < |counts|
    ensures counts[p] <= Sum(counts)
  {
    var n := |counts| - 1;
    if p < n { SumBounds(counts[..n], p); }
  }

  /**
    The counts agree with one another, nothing is lost between them, and a chain never holds more than
    its accounted entries and the one in flight.
   */
  ghost predicate AccountsOk(s: State, c: Config) {
    && Shape(s, c)
    && s.pending == Sum(s.counts)
    && (forall n :: 0 <= n < c.nodes ==> s.byNode[n] == SumAt(s.counts, c.home, n))
    && s.enqueued == s.pending + s.drained
    && forall p :: 0 <= p < c.producers ==>
         |Log(s.chains[p])| <= s.counts[p] + (if s.phases[p].Inserted? then 1 else 0)
  }

  lemma InitialAccounts(c: Config, tree: Copies)
    requires ConfigOk(c)
    ensures AccountsOk(Initial(c, tree), c)
  {
    var s := Initial(c, tree);
    forall n | 0 <= n < c.nodes ensures s.byNode[n] == SumAt(s.counts, c.home, n) { SumZero(s.counts, c.home, n); }
    SumZero(s.counts, c.home, 0);
  }

  lemma AccountKeepsAccounts(s: State, c: Config, p: nat)
    requires AccountsOk(s, c) && Enabled(s, c, Account(p))
    ensures AccountsOk(Step(s, c, Account(p)), c)
  {
    var s' := Step(s, c, Account(p));
    SumUpdate(s.counts, p, s.counts[p] + 1);
    forall n | 0 <= n < c.nodes ensures s'.byNode[n] == SumAt(s'.counts, c.home, n) {
      SumAtUpdate(s.counts, c.home, n, p, s.counts[p] + 1);
    }
  }

  lemma InsertKeepsAccounts(s: State, c: Config, p: nat)
    requires AccountsOk(s, c) && Enabled(s, c, Insert(p))
    ensures AccountsOk(Step(s, c, Insert(p)), c)
  {
    PushAppends(s.chains[p], s.phases[p].op, c.capacity);
  }

  /** Emptied chains stay within any count. */
  lemma ClearedWithin(chains: Chains, ids: seq<nat>, counts: seq<nat>, counts': seq<nat>, phases: seq<Phase>)
    requires |chains| == |counts| == |counts'| == |phases|
    requires forall p :: 0 <= p < |chains| ==> |Log(chains[p])| <= counts[p] + (if phases[p].Inserted? then 1 else 0)
    requires forall p :: 0 <= p < |chains| && p !in ids ==> counts'[p] == counts[p]
    ensures forall p :: 0 <= p < |chains| ==>
              |Log(Cleared(chains, ids)[p])| <= counts'[p] + (if phases[p].Inserted? then 1 else 0)
  {
    assert Log([]) == [];
  }

  lemma SliceDrainKeepsAccounts(s: State, c: Config, slice: set<nat>)
    requires AccountsOk(s, c)
    ensures AccountsOk(SliceDrain(s, c, slice), c)
  {
    var s', ids := SliceDrain(s, c, slice), Active(s.counts, slice, |s.counts|);
    ActiveInRange(s.counts, slice, |s.counts|);
    forall n | 0 <= n < c.nodes ensures s'.byNode[n] == SumAt(s'.counts, c.home, n) {
      TakenAndLeft(s.counts, ids, c.home, n);
    }
    TakenAndLeft(s.counts, ids, c.home, 0);
    ClearedWithin(s.chains, ids, s.counts, s'.counts, s.phases);
  }

  /** All accounted entries are taken by a full drain. */
  lemma EverythingTaken(counts: seq<nat>, home: seq<nat>, node: nat)
    requires |home| == |counts|
    ensures var ids := Active(counts, Everyone(|counts|), |counts|);
            && (forall i :: 0 <= i < |ids| ==> ids[i] < |counts|) && Distinct(ids)
            && Taken(counts, ids) == Sum(counts)
            && (forall p :: 0 <= p < |counts| && p !in ids ==> counts[p] == 0)
  {
    ActiveInRange(counts, Everyone(|counts|), |counts|);
    var ids := Active(counts, Everyone(|counts|), |counts|);
    TakenAndLeft(counts, ids, home, node);
    SumZero(Zeroed(counts, ids), home, node);
  }

  lemma FullDrainKeepsAccounts(s: State, c: Config)
    requires AccountsOk(s, c)
    ensures AccountsOk(FullDrain(s, c), c)
  {
    var s', ids := FullDrain(s, c), Active(s.counts, Everyone(|s.counts|), |s.counts|);
    EverythingTaken(s.counts, c.home, 0);
    if s.pending != 0 {
      forall n | 0 <= n < c.nodes ensures s'.byNode[n] == SumAt(s'.counts, c.home, n) {
        SumZero(s'.counts, c.home, n);
      }
      SumZero(s'.counts, c.home, 0);
      ClearedWithin(s.chains, ids, s.counts, s'.counts, s.phases);
    }
  }

  lemma StepKeepsAccounts(s: State, c: Config, a: Action)
    requires AccountsOk(s, c) && Enabled(s, c, a)
    ensures AccountsOk(Step(s, c, a), c)
  {
    match a
    case Ticket(_, _, _) =>
    case Insert(p) => InsertKeepsAccounts(s, c, p);
    case Account(p) => AccountKeepsAccounts(s, c, p);
    case DrainAll => FullDrainKeepsAccounts(s, c);
    case DrainSlice(slice) => SliceDrainKeepsAccounts(s, c, slice);
  }

  // ---------------------------------------------------------------- runs

  ghost predicate Legal(s: State, c: Config, acts: seq<Action>)
    decreases |acts|
  {
    acts == [] || (Shape(s, c) && Enabled(s, c, acts[0]) && Legal(Step(s, c, acts[0]), c, acts[1..]))
  }

  ghost function Run(s: State, c: Config, acts: seq<Action>): State
    requires Legal(s, c, acts)
    decreases |acts|
  {
    if acts == [] then s else Run(Step(s, c, acts[0]), c, acts[1..])
  }

  /** Two runs, one after the other. */
  lemma {:induction false} RunConcat(s: State, c: Config, xs: seq<Action>, ys: seq<Action>)
    requires Legal(s, c, xs) && Legal(Run(s, c, xs), c, ys)
    ensures Legal(s, c, xs + ys) && Run(s, c, xs + ys) == Run(Run(s, c, xs), c, ys)
    decreases |xs|
  {
    if xs == [] {
      assert xs + ys == ys;
    } else {
      assert (xs + ys)[1..] == xs[1..] + ys;
      RunConcat(Step(s, c, xs[0]), c, xs[1..], ys);
    }
  }

  lemma RunOfOne(s: State, c: Config, a: Action)
    requires Shape(s, c) && Enabled(s, c, a)
    ensures Legal(s, c, [a]) && Run(s, c, [a]) == Step(s, c, a)
  {
    assert [a][1..] == [] && Legal(Step(s, c, a), c, []);
  }

  lemma RunOfThree(s: State, c: Config, x: Action, y: Action, z: Action)
    requires Shape(s, c) && Enabled(s, c, x)
    requires Shape(Step(s, c, x), c) && Enabled(Step(s, c, x), c, y)
    requires Shape(Step(Step(s, c, x), c, y), c) && Enabled(Step(Step(s, c, x), c, y), c, z)
    ensures Legal(s, c, [x, y, z]) && Run(s, c, [x, y, z]) == Step(Step(Step(s, c, x), c, y), c, z)
  {
    var s1 := Step(s, c, x);
    var s2 := Step(s1, c, y);
    var s3 := Step(s2, c, z);
    assert Legal(s3, c, []) && Run(s3, c, []) == s3;
    assert [z][1..] == [] && Legal(s2, c, [z]) && Run(s2, c, [z]) == s3;
    assert [y, z][1..] == [z] && Legal(s1, c, [y, z]) && Run(s1, c, [y, z]) == s3;
    assert [x, y, z][1..] == [y, z];
  }

  lemma RunOfTwo(s: State, c: Config, x: Action, y: Action)
    requires Shape(s, c) && Enabled(s, c, x) && Shape(Step(s, c, x), c) && Enabled(Step(s, c, x), c, y)
    ensures Legal(s, c, [x, y]) && Run(s, c, [x, y]) == Step(Step(s, c, x), c, y)
  {
    var s1 := Step(s, c, x);
    var s2 := Step(s1, c, y);
    assert Legal(s2, c, []) && Run(s2, c, []) == s2;
    assert [y][1..] == [] && Legal(s1, c, [y]) && Run(s1, c, [y]) == s2;
    assert [x, y][1..] == [y];
  }

  // ---------------------------------------------------------------- what a run hands out and takes up

  function Tickets(acts: seq<Action>): nat {
    if acts == [] then 0 else (if acts[0].Ticket? then 1 else 0) + Tickets(acts[1..])
  }

  /** Sequences are handed out one after the other, without gaps. */
  lemma {:induction false} TicketsAreCounted(s: State, c: Config, acts: seq<Action>)
    requires Legal(s, c, acts)
    ensures Run(s, c, acts).nextSequence == s.nextSequence + Tickets(acts)
    decreases |acts|
  {
    if acts != [] {
      TicketsAreCounted(Step(s, c, acts[0]), c, acts[1..]);
    }
  }

  ghost predicate AllPacked(chains: Chains, capacity: nat) {
    forall p {:trigger Packed(chains[p], capacity)} :: 0 <= p < |chains| ==> Packed(chains[p], capacity)
  }

  lemma StepPacks(s: State, c: Config, a: Action)
    requires Shape(s, c) && Enabled(s, c, a) && c.capacity > 0 && AllPacked(s.chains, c.capacity)
    ensures AllPacked(Step(s, c, a).chains, c.capacity)
  {
    var now := Step(s, c, a).chains;
    if a.Insert? { PushPacks(s.chains[a.p], s.phases[a.p].op, c.capacity); }
    forall p | 0 <= p < |now| ensures Packed(now[p], c.capacity) {
      assert Packed(s.chains[p], c.capacity);
    }
  }

  lemma {:induction false} RunPacks(s: State, c: Config, acts: seq<Action>)
    requires Legal(s, c, acts) && c.capacity > 0 && AllPacked(s.chains, c.capacity)
    ensures AllPacked(Run(s, c, acts).chains, c.capacity)
    decreases |acts|
  {
    if acts != [] {
      StepPacks(s, c, acts[0]);
      RunPacks(Step(s, c, acts[0]), c, acts[1..]);
    }
  }

  /** In every run from the start a chain has just the nodes that its operations need. */
  lemma ChainsStayPacked(c: Config, tree: Copies, acts: seq<Action>, p: nat)
    requires ConfigOk(c) && Legal(Initial(c, tree), c, acts) && c.capacity > 0
    requires p < |Run(Initial(c, tree), c, acts).chains|
    ensures var nodes := Run(Initial(c, tree), c, acts).chains[p];
            nodes != [] ==> (|nodes| - 1) * c.capacity < |Log(nodes)| <= |nodes| * c.capacity
  {
    RunPacks(Initial(c, tree), c, acts);
    var nodes := Run(Initial(c, tree), c, acts).chains[p];
    assert Packed(nodes, c.capacity);
    if nodes != [] { FewestNodes(nodes, c.capacity); }
  }

  lemma {:induction false} RunKeepsAccounts(s: State, c: Config, acts: seq<Action>)
    requires AccountsOk(s, c) && Legal(s, c, acts)
    ensures AccountsOk(Run(s, c, acts), c)
    decreases |acts|
  {
    if acts != [] {
      StepKeepsAccounts(s, c, acts[0]);
      RunKeepsAccounts(Step(s, c, acts[0]), c, acts[1..]);
    }
  }

  ghost predicate Quiescent(s: State) {
    forall p :: 0 <= p < |s.phases| ==> s.phases[p].Idle?
  }

  /**
    From a fresh tree, in every interleaving: the global and per-node counts are the sums of the
    per-producer counts and never negative, enqueued operations are pending or drained, and a drain of
    everything at quiescence leaves every chain empty.
   */
  lemma AccountingOverRuns(c: Config, tree: Copies, acts: seq<Action>)
    requires ConfigOk(c) && Legal(Initial(c, tree), c, acts)
    ensures var s := Run(Initial(c, tree), c, acts);
            && AccountsOk(s, c)
            && s.pending >= 0 && (forall n :: 0 <= n < c.nodes ==> s.byNode[n] >= 0)
            && (Quiescent(s) ==> forall p :: 0 <= p < c.producers ==> Log(FullDrain(s, c).chains[p]) == [])
  {
    InitialAccounts(c, tree);
    RunKeepsAccounts(Initial(c, tree), c, acts);
    var s := Run(Initial(c, tree), c, acts);
    if Quiescent(s) {
      ActiveInRange(s.counts, Everyone(|s.counts|), |s.counts|);
      forall p | 0 <= p < c.producers ensures Log(FullDrain(s, c).chains[p]) == [] {
        SumBounds(s.counts, p);
        assert Log([]) == [];
      }
    }
  }

  /** No subtraction in a slice drain goes below zero. */
  lemma SliceDrainDoesNotUnderflow(s: State, c: Config, slice: set<nat>, n: nat)
    requires AccountsOk(s, c) && n < c.nodes
    ensures var ids := Active(s.counts, slice, |s.counts|);
            && (forall i :: 0 <= i < |ids| ==> ids[i] < |s.counts|)
            && Taken(s.counts, ids) <= s.pending && TakenAt(s.counts, ids, c.home, n) <= s.byNode[n]
  {
    ActiveInRange(s.counts, slice, |s.counts|);
    TakenAndLeft(s.counts, Active(s.counts, slice, |s.counts|), c.home, n);
  }
}
