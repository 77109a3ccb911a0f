/**
  Runs from a fresh tree in which a drain brings a deleted key back, doubles a key, or hides the newer
  of two operations. What one producer does with one key is followed exactly, for every such run.
 */
module FailingRuns {
  import opened Ops
  import opened ChainLists
  import opened Replays
  import opened Drains
  import opened Protocol
  import opened Visibility

  // ---------------------------------------------------------------- one producer and one key

  datatype Command = Put | Erase | Flush

  /** A buffered operation in its three steps, or a drain of everything. */
  function ActionsOf(c: Command, p: nat, k: int): seq<Action> {
    match c
    case Put => Buffered(p, k, false)
    case Erase => Buffered(p, k, true)
    case Flush => [DrainAll]
  }

  function Buffered(p: nat, k: int, isDelete: bool): seq<Action> {
    [Ticket(p, k, isDelete), Insert(p), Account(p)]
  }

  function Script(cmds: seq<Command>, p: nat, k: int): seq<Action> {
    if cmds == [] then [] else ActionsOf(cmds[0], p, k) + Script(cmds[1..], p, k)
  }

  /** What matters of the state: the buffered operations, the copies in the tree, the next sequence. */
  datatype Solo = Solo(log: seq<Op>, copies: nat, next: nat)

  function SoloStep(m: Solo, policy: Policy, c: Command, p: nat, k: int): Solo {
    match c
    case Flush => m.(log := [], copies := Flushed(policy, m.copies, m.log))
    case _ => m.(log := m.log + [Op(k, c.Erase?, m.next, p)], next := m.next + 1)
  }

  /** F3-N applies only the last operation, the other policies all. */
  function Flushed(policy: Policy, copies: nat, log: seq<Op>): nat {
    if log == [] then copies
    else if policy.F3N? then CopiesNext(copies, log[|log| - 1])
    else CopiesAfter(copies, log)
  }

  function SoloRun(m: Solo, policy: Policy, cmds: seq<Command>, p: nat, k: int): Solo
    decreases |cmds|
  {
    if cmds == [] then m else SoloRun(SoloStep(m, policy, cmds[0], p, k), policy, cmds[1..], p, k)
  }

  /** Whether contains(k) is true. */
  predicate Shown(m: Solo) {
    if m.log == [] then m.copies > 0 else !m.log[|m.log| - 1].isDelete
  }

  /** The state is that of a run of producer p with key k alone. */
  ghost predicate Follows(s: State, c: Config, p: nat, k: int, m: Solo) {
    && StructureOk(s, c) && DirectoriesOk(s) && AccountsOk(s, c) && p < c.producers && Quiescent(s)
    && Log(s.chains[p]) == m.log && s.counts[p] == |m.log| && s.tree[k] == m.copies && s.nextSequence == m.next
    && (forall o :: o in m.log ==> o.key == k)
    && forall q :: 0 <= q < c.producers && q != p ==> Log(s.chains[q]) == [] && s.counts[q] == 0
  }

  lemma InitialFollows(c: Config, p: nat, k: int)
    requires ConfigOk(c) && p < c.producers
    ensures Follows(Initial(c, multiset{}), c, p, k, Solo([], 0, 1))
  {
    InitialStructure(c, multiset{});
    InitialAccounts(c, multiset{});
    assert Log([]) == [];
  }

  /** The three steps of a buffered operation, by a thread that nobody interrupts. */
  lemma BufferedRun(s: State, c: Config, p: nat, k: int, isDelete: bool)
    requires Shape(s, c) && p < c.producers && s.phases[p].Idle?
    ensures Legal(s, c, Buffered(p, k, isDelete))
    ensures var s', op := Run(s, c, Buffered(p, k, isDelete)), Op(k, isDelete, s.nextSequence, p);
            && Shape(s', c) && s'.chains == s.chains[p := Push(s.chains[p], op, c.capacity)]
            && s'.counts == s.counts[p := s.counts[p] + 1]
            && s'.tree == s.tree && s'.nextSequence == s.nextSequence + 1 && s'.phases == s.phases
  {
    RunOfThree(s, c, Ticket(p, k, isDelete), Insert(p), Account(p));
    assert s.phases[p := Idle] == s.phases;
  }

  lemma {:induction false} SmallStepsKeep(s: State, c: Config, acts: seq<Action>)
    requires StructureOk(s, c) && DirectoriesOk(s) && AccountsOk(s, c) && Legal(s, c, acts)
    requires forall i :: 0 <= i < |acts| ==> !acts[i].DrainAll?
    ensures var s' := Run(s, c, acts); StructureOk(s', c) && DirectoriesOk(s') && AccountsOk(s', c)
    decreases |acts|
  {
    if acts != [] {
      StepKeepsStructure(s, c, acts[0]);
      StepKeepsDirectories(s, c, acts[0]);
      StepKeepsAccounts(s, c, acts[0]);
      SmallStepsKeep(Step(s, c, acts[0]), c, acts[1..]);
    }
  }

  lemma BufferedFollows(s: State, c: Config, p: nat, k: int, isDelete: bool, m: Solo)
    requires Follows(s, c, p, k, m)
    ensures Legal(s, c, Buffered(p, k, isDelete))
    ensures Follows(Run(s, c, Buffered(p, k, isDelete)), c, p, k,
                    SoloStep(m, c.policy, if isDelete then Erase else Put, p, k))
  {
    BufferedRun(s, c, p, k, isDelete);
    SmallStepsKeep(s, c, Buffered(p, k, isDelete));
    PushAppends(s.chains[p], Op(k, isDelete, s.nextSequence, p), c.capacity);
  }

  lemma {:induction false} ForAll(ops: seq<Op>, k: int)
    requires forall o :: o in ops ==> o.key == k
    ensures For(ops, k) == ops
  {
    if ops != [] { ForAll(ops[1..], k); }
  }

  lemma FlushFollows(s: State, c: Config, p: nat, k: int, m: Solo)
    requires Follows(s, c, p, k, m)
    ensures Follows(Step(s, c, DrainAll), c, p, k, SoloStep(m, c.policy, Flush, p, k))
  {
    assert Careful(s, DrainAll);
    StepKeepsStructure(s, c, DrainAll);
    StepKeepsDirectories(s, c, DrainAll);
    StepKeepsAccounts(s, c, DrainAll);
    FlushDrains(s, c, p, k, m);
  }

  /** What the drain does to chains, counts and copies. */
  lemma FlushDrains(s: State, c: Config, p: nat, k: int, m: Solo)
    requires Follows(s, c, p, k, m)
    ensures var s' := Step(s, c, DrainAll);
            && |s'.chains| == |s'.counts| == |s'.phases| == c.producers && s'.phases == s.phases
            && s'.nextSequence == s.nextSequence
            && (forall q :: 0 <= q < c.producers ==> Log(s'.chains[q]) == [] && s'.counts[q] == 0)
            && s'.tree[k] == Flushed(c.policy, m.copies, m.log)
  {
    if m.log == [] {
      SumZero(s.counts, c.home, 0);
    } else {
      SumBounds(s.counts, p);
      FlushCopies(s, c, p, k, m);
      FlushCounts(s, c);
    }
  }

  lemma FlushCounts(s: State, c: Config)
    requires Shape(s, c) && s.pending > 0
    ensures var s' := Step(s, c, DrainAll);
            |s'.counts| == c.producers && s'.nextSequence == s.nextSequence
            && forall q :: 0 <= q < c.producers ==> s'.counts[q] == 0
  {
  }

  lemma FlushCopies(s: State, c: Config, p: nat, k: int, m: Solo)
    requires Follows(s, c, p, k, m) && m.log != [] && s.pending > 0
    ensures var s' := Step(s, c, DrainAll);
            && s'.tree[k] == Flushed(c.policy, m.copies, m.log) && s'.phases == s.phases
            && |s'.chains| == c.producers && forall q :: 0 <= q < c.producers ==> Log(s'.chains[q]) == []
  {
    var ids := DrainedBy(s, DrainAll);
    DrainOf(s, c, DrainAll);
    DrainedByAll(s, p);
    StructureImpliesSequenced(s, c);
    ForAll(m.log, k);
    DrainedCopies(c.policy, s.tree, s.chains, ids, s.dirs, k, p);
    assert Log([]) == [];
  }

  /** What contains(k) answers there. */
  lemma FollowsShows(s: State, c: Config, p: nat, k: int, m: Solo)
    requires Follows(s, c, p, k, m)
    ensures Visible(s.tree, s.chains, k) <==> Shown(m)
  {
    OwnedDeciding(s.chains, k, p);
    LastOfFor(m.log, k);
    ForAll(m.log, k);
  }

  lemma {:induction false} SoloFollows(s: State, c: Config, p: nat, k: int, m: Solo, cmds: seq<Command>)
    requires Follows(s, c, p, k, m)
    ensures Legal(s, c, Script(cmds, p, k))
    ensures Follows(Run(s, c, Script(cmds, p, k)), c, p, k, SoloRun(m, c.policy, cmds, p, k))
    decreases |cmds|
  {
    if cmds != [] {
      match cmds[0] {
        case Put => BufferedFollows(s, c, p, k, false, m);
        case Erase => BufferedFollows(s, c, p, k, true, m);
        case Flush =>
          FlushFollows(s, c, p, k, m);
          RunOfOne(s, c, DrainAll);
      }
      var s' := Run(s, c, ActionsOf(cmds[0], p, k));
      SoloFollows(s', c, p, k, SoloStep(m, c.policy, cmds[0], p, k), cmds[1..]);
      RunConcat(s, c, ActionsOf(cmds[0], p, k), Script(cmds[1..], p, k));
    }
  }

  /**
    Every run of one producer with one key from a fresh tree, under every policy: its copies and what
    contains() answers.
   */
  lemma SoloRuns(c: Config, p: nat, k: int, cmds: seq<Command>)
    requires ConfigOk(c) && p < c.producers
    ensures Legal(Initial(c, multiset{}), c, Script(cmds, p, k))
    ensures var s := Run(Initial(c, multiset{}), c, Script(cmds, p, k));
            var m := SoloRun(Solo([], 0, 1), c.policy, cmds, p, k);
            Shape(s, c) && s.tree[k] == m.copies && (Visible(s.tree, s.chains, k) <==> Shown(m))
  {
    InitialFollows(c, p, k);
    SoloFollows(Initial(c, multiset{}), c, p, k, Solo([], 0, 1), cmds);
    FollowsShows(Run(Initial(c, multiset{}), c, Script(cmds, p, k)), c, p, k,
                 SoloRun(Solo([], 0, 1), c.policy, cmds, p, k));
  }

  // ---------------------------------------------------------------- concrete runs

  /** What a run of commands leaves: the copies of k in the tree, and whether contains(k) is true. */
  ghost predicate Leaves(c: Config, p: nat, k: int, cmds: seq<Command>, copies: nat, visible: bool)
    requires ConfigOk(c)
  {
    && Legal(Initial(c, multiset{}), c, Script(cmds, p, k))
    && var s := Run(Initial(c, multiset{}), c, Script(cmds, p, k));
       s.tree[k] == copies && (Visible(s.tree, s.chains, k) <==> visible)
  }

  /**
    Under F3-N, a key that is inserted again while its delete is still buffered is in the tree twice
    after the drain. The next delete hides it only until it is drained.
   */
  lemma ReinsertionDoublesKey(c: Config, p: nat, k: int)
    requires ConfigOk(c) && c.policy.F3N? && p < c.producers
    ensures Leaves(c, p, k, [Put, Flush, Erase, Put, Flush], 2, true)
    ensures Leaves(c, p, k, [Put, Flush, Erase, Put, Flush, Erase], 2, false)
    ensures Leaves(c, p, k, [Put, Flush, Erase, Put, Flush, Erase, Flush], 1, true)
  {
    SoloRuns(c, p, k, [Put, Flush, Erase, Put, Flush]);
    SoloRuns(c, p, k, [Put, Flush, Erase, Put, Flush, Erase]);
    SoloRuns(c, p, k, [Put, Flush, Erase, Put, Flush, Erase, Flush]);
  }

  /** Under the other policies, a key that is inserted while present and then deleted is back after the drain. */
  lemma LogDrainCanResurrect(c: Config, p: nat, k: int)
    requires ConfigOk(c) && !c.policy.F3N? && p < c.producers
    ensures Leaves(c, p, k, [Put, Flush, Put, Erase], 1, false)
    ensures Leaves(c, p, k, [Put, Flush, Put, Erase, Flush], 1, true)
  {
    SoloRuns(c, p, k, [Put, Flush, Put, Erase]);
    SoloRuns(c, p, k, [Put, Flush, Put, Erase, Flush]);
    Resurrecting(c.policy, p, k);
  }

  lemma Resurrecting(policy: Policy, p: nat, k: int)
    requires !policy.F3N?
    ensures SoloRun(Solo([], 0, 1), policy, [Put, Flush, Put, Erase], p, k)
         == Solo([Op(k, false, 2, p), Op(k, true, 3, p)], 1, 4)
    ensures SoloRun(Solo([], 0, 1), policy, [Put, Flush, Put, Erase, Flush], p, k) == Solo([], 1, 4)
  {
    var a, b, d := Op(k, false, 1, p), Op(k, false, 2, p), Op(k, true, 3, p);
    OneCopy(a);
    TwoCopies(b, d);
    var m1, m2, m3, m4 := Solo([a], 0, 2), Solo([], 1, 2), Solo([b], 1, 3), Solo([b, d], 1, 4);
    assert SoloStep(Solo([], 0, 1), policy, Put, p, k) == m1 && SoloStep(m1, policy, Flush, p, k) == m2;
    assert SoloStep(m2, policy, Put, p, k) == m3 && SoloStep(m3, policy, Erase, p, k) == m4;
    assert SoloStep(m4, policy, Flush, p, k) == Solo([], 1, 4);
    assert SoloRun(m4, policy, [], p, k) == m4;
    assert [Put, Flush, Put, Erase][1..] == [Flush, Put, Erase] && [Flush, Put, Erase][1..] == [Put, Erase];
    assert [Put, Erase][1..] == [Erase] && [Erase][1..] == [];
    assert [Put, Flush, Put, Erase, Flush][1..] == [Flush, Put, Erase, Flush];
    assert [Flush, Put, Erase, Flush][1..] == [Put, Erase, Flush] && [Put, Erase, Flush][1..] == [Erase, Flush];
    assert [Erase, Flush][1..] == [Flush] && [Flush][1..] == [];
  }

  lemma OneCopy(a: Op)
    requires !a.isDelete
    ensures CopiesAfter(0, [a]) == 1
  {
    assert [a][1..] == [];
  }

  lemma TwoCopies(b: Op, d: Op)
    requires !b.isDelete && d.isDelete
    ensures CopiesAfter(1, [b, d]) == 1
  {
    assert [b, d][1..] == [d] && [d][1..] == [];
    assert CopiesAfter(2, [d]) == CopiesAfter(1, []) == 1;
  }

  // ---------------------------------------------------------------- a key of two producers

  /** p erases k, then q inserts it. */
  function TwoWriters(p: nat, q: nat, k: int): seq<Action> {
    Buffered(p, k, true) + Buffered(q, k, false)
  }

  lemma TwoWritersReached(c: Config, p: nat, q: nat, k: int) returns (s: State)
    requires ConfigOk(c) && p < c.producers && q < c.producers && p != q
    ensures Legal(Initial(c, multiset{}), c, TwoWriters(p, q, k))
            && s == Run(Initial(c, multiset{}), c, TwoWriters(p, q, k))
    ensures Shape(s, c) && Log(s.chains[p]) == [Op(k, true, 1, p)] && Log(s.chains[q]) == [Op(k, false, 2, q)]
            && s.counts[q] == 1
    ensures forall r :: 0 <= r < c.producers && r != p && r != q ==> Log(s.chains[r]) == []
  {
    var s0 := Initial(c, multiset{});
    BufferedRun(s0, c, p, k, true);
    var s1 := Run(s0, c, Buffered(p, k, true));
    BufferedRun(s1, c, q, k, false);
    s := Run(s1, c, Buffered(q, k, false));
    RunConcat(s0, c, Buffered(p, k, true), Buffered(q, k, false));
    PushAppends([], Op(k, true, 1, p), c.capacity);
    PushAppends([], Op(k, false, 2, q), c.capacity);
    assert Log([]) == [];
  }

  /** Two chains decide: the newer of their last operations. */
  lemma TwoDecide(chains: Chains, k: int, p: nat, q: nat, x: Op, y: Op)
    requires p < |chains| && q < |chains| && p != q && x.key == y.key == k && x.sequence < y.sequence
    requires Log(chains[p]) == [x] && (forall r :: 0 <= r < |chains| && r != p && r != q ==> Log(chains[r]) == [])
    ensures Log(chains[q]) == [y] ==> Deciding(chains, k) == Some(y)
    ensures Log(chains[q]) == [] ==> Deciding(chains, k) == Some(x)
  {
    DecidingIsNewest(chains, k);
    assert LastOf([x], k) == Some(x) && LastOf([y], k) == Some(y);
  }

  /**
    Under every policy: producer p erases k, producer q inserts it, and contains(k) is true until a
    drain takes q and leaves p.
   */
  lemma SplitDrainCanHide(c: Config, p: nat, q: nat, k: int)
    requires ConfigOk(c) && p < c.producers && q < c.producers && p != q
    ensures Legal(Initial(c, multiset{}), c, TwoWriters(p, q, k))
    ensures var s := Run(Initial(c, multiset{}), c, TwoWriters(p, q, k));
            && Shape(s, c) && Visible(s.tree, s.chains, k)
            && var s' := Step(s, c, DrainSlice({q})); !Visible(s'.tree, s'.chains, k)
  {
    var s := TwoWritersReached(c, p, q, k);
    TwoDecide(s.chains, k, p, q, Op(k, true, 1, p), Op(k, false, 2, q));
    HiddenByDrain(s, c, p, q, k);
  }

  /** The drain of q leaves the erasure of p behind. */
  lemma HiddenByDrain(s: State, c: Config, p: nat, q: nat, k: int)
    requires Shape(s, c) && p < c.producers && q < c.producers && p != q && s.counts[q] > 0
    requires Log(s.chains[p]) == [Op(k, true, 1, p)]
             && forall r :: 0 <= r < c.producers && r != p && r != q ==> Log(s.chains[r]) == []
    ensures var s' := Step(s, c, DrainSlice({q})); !Visible(s'.tree, s'.chains, k)
  {
    OnlyTaken(s, c, q);
    TwoDecide(Step(s, c, DrainSlice({q})).chains, k, p, q, Op(k, true, 1, p), Op(k, false, 2, q));
  }

  /** A slice drain of one producer empties its chain alone. */
  lemma OnlyTaken(s: State, c: Config, q: nat)
    requires Shape(s, c) && q < c.producers && s.counts[q] > 0
    ensures var s' := Step(s, c, DrainSlice({q}));
            |s'.chains| == c.producers && forall r :: 0 <= r < c.producers ==>
                s'.chains[r] == if r == q then [] else s.chains[r]
    ensures Log([]) == []
  {
    ActiveInRange(s.counts, {q}, |s.counts|);
  }
}
