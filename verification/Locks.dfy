/**
  The lock order: the wrapper's lock, the tree's lock, the chains' locks in ascending order, the
  directories' locks. Every thread asks for locks in increasing rank, so there is no deadlock.
 */
module Locks {
  datatype Lock = Mu | TreeMu | PtfoMu(p: nat) | DirMu(p: nat)

  /** With n producers. */
  function Rank(l: Lock, n: nat): nat {
    match l
    case Mu => 0
    case TreeMu => 1
    case PtfoMu(p) => 2 + p
    case DirMu(p) => 2 + n + p
  }

  ghost predicate Known(l: Lock, n: nat) {
    (l.PtfoMu? ==> l.p < n) && (l.DirMu? ==> l.p < n)
  }

  /** A visit reads or changes what the lock guards: a chain, a directory, the tree, or the accounts. */
  datatype Instr = Acquire(l: Lock) | Visit(l: Lock) | Release(l: Lock)

  // ---------------------------------------------------------------- ordered programs

  /**
    Running the program from the locks held leaves the locks at the end, asking in increasing rank and
    visiting nothing without its lock.
   */
  ghost predicate Ordered(prog: seq<Instr>, held: set<Lock>, end: set<Lock>, n: nat)
    decreases |prog|
  {
    if prog == [] then held == end
    else
      match prog[0]
      case Acquire(l) => Known(l, n) && Above(l, held, n) && Ordered(prog[1..], held + {l}, end, n)
      case Visit(l) => l in held && Ordered(prog[1..], held, end, n)
      case Release(l) => l in held && Ordered(prog[1..], held - {l}, end, n)
  }

  /** What a program visits, in order. */
  function Visits(prog: seq<Instr>): seq<Lock> {
    if prog == [] then [] else (if prog[0].Visit? then [prog[0].l] else []) + Visits(prog[1..])
  }

  lemma {:induction false} VisitsConcat(a: seq<Instr>, b: seq<Instr>)
    ensures Visits(a + b) == Visits(a) + Visits(b)
  {
    if a == [] {
      assert a + b == b;
    } else {
      var first := if a[0].Visit? then [a[0].l] else [];
      assert (a + b)[1..] == a[1..] + b && (a + b)[0] == a[0];
      VisitsConcat(a[1..], b);
      assert first + (Visits(a[1..]) + Visits(b)) == first + Visits(a[1..]) + Visits(b);
    }
  }

  lemma VisitsOne(i: Instr)
    ensures Visits([i]) == if i.Visit? then [i.l] else []
  {
    assert [i][1..] == [];
  }

  ghost predicate Above(l: Lock, held: set<Lock>, n: nat) {
    forall h :: h in held ==> Rank(h, n) < Rank(l, n)
  }

  lemma {:induction false} OrderedConcat(a: seq<Instr>, b: seq<Instr>, held: set<Lock>, mid: set<Lock>, end: set<Lock>,
                                         n: nat)
    requires Ordered(a, held, mid, n) && Ordered(b, mid, end, n)
    ensures Ordered(a + b, held, end, n)
    decreases |a|
  {
    if a == [] {
      assert a + b == b;
    } else {
      assert (a + b)[1..] == a[1..] + b;
      match a[0]
      case Acquire(l) => OrderedConcat(a[1..], b, held + {l}, mid, end, n);
      case Visit(l) => OrderedConcat(a[1..], b, held, mid, end, n);
      case Release(l) => OrderedConcat(a[1..], b, held - {l}, mid, end, n);
    }
  }

  // ---------------------------------------------------------------- the threads of the system

  /** A short critical section. */
  function Brief(l: Lock): seq<Instr> {
    [Acquire(l), Visit(l), Release(l)]
  }

  lemma BriefOrdered(l: Lock, held: set<Lock>, n: nat)
    requires Known(l, n) && Above(l, held, n)
    ensures Ordered(Brief(l), held, held, n)
  {
    assert Brief(l)[1..] == [Visit(l), Release(l)] && [Visit(l), Release(l)][1..] == [Release(l)]
           && [Release(l)][1..] == [];
    assert l !in held && held + {l} - {l} == held;
    assert Ordered([], held, held, n);
    assert Ordered([Release(l)], held + {l}, held, n);
    assert Ordered([Visit(l), Release(l)], held + {l}, held, n);
  }

  lemma BriefVisits(l: Lock)
    ensures Visits(Brief(l)) == [l]
  {
    assert Brief(l)[1..] == [Visit(l), Release(l)] && [Visit(l), Release(l)][1..] == [Release(l)]
           && [Release(l)][1..] == [];
    assert Visits([Release(l)]) == [];
  }

  /** A producer: its chain and inside it its directory, then the accounting. */
  function ProducerProgram(p: nat): seq<Instr> {
    [Acquire(PtfoMu(p)), Visit(PtfoMu(p))] + Brief(DirMu(p)) + [Release(PtfoMu(p))] + Brief(Mu)
  }

  /** It visits its chain, its directory while it still holds the chain, and the accounts. */
  lemma ProducerOrdered(p: nat, n: nat)
    requires p < n
    ensures Ordered(ProducerProgram(p), {}, {}, n) && Visits(ProducerProgram(p)) == [PtfoMu(p), DirMu(p), Mu]
  {
    var own, enter := {PtfoMu(p)}, [Acquire(PtfoMu(p)), Visit(PtfoMu(p))];
    BriefOrdered(DirMu(p), own, n);
    BriefOrdered(Mu, {}, n);
    EnterOrdered(PtfoMu(p), {}, n);
    One(Release(PtfoMu(p)), own, {}, n);
    OrderedConcat(enter, Brief(DirMu(p)), {}, own, own, n);
    OrderedConcat(enter + Brief(DirMu(p)), [Release(PtfoMu(p))], {}, own, {}, n);
    OrderedConcat(enter + Brief(DirMu(p)) + [Release(PtfoMu(p))], Brief(Mu), {}, {}, {}, n);
    ProducerVisits(p);
  }

  lemma ProducerVisits(p: nat)
    ensures Visits(ProducerProgram(p)) == [PtfoMu(p), DirMu(p), Mu]
  {
    var enter := [Acquire(PtfoMu(p)), Visit(PtfoMu(p))];
    BriefVisits(DirMu(p));
    BriefVisits(Mu);
    EnterVisits(PtfoMu(p));
    VisitsOne(Release(PtfoMu(p)));
    VisitsConcat(enter, Brief(DirMu(p)));
    VisitsConcat(enter + Brief(DirMu(p)), [Release(PtfoMu(p))]);
    VisitsConcat(enter + Brief(DirMu(p)) + [Release(PtfoMu(p))], Brief(Mu));
  }

  lemma EnterOrdered(l: Lock, held: set<Lock>, n: nat)
    requires Known(l, n) && Above(l, held, n)
    ensures Ordered([Acquire(l), Visit(l)], held, held + {l}, n)
  {
    One(Acquire(l), held, held + {l}, n);
    One(Visit(l), held + {l}, held + {l}, n);
    OrderedConcat([Acquire(l)], [Visit(l)], held, held + {l}, held + {l}, n);
    assert [Acquire(l)] + [Visit(l)] == [Acquire(l), Visit(l)];
  }

  lemma EnterVisits(l: Lock)
    ensures Visits([Acquire(l), Visit(l)]) == [l]
  {
    assert [Acquire(l), Visit(l)][1..] == [Visit(l)];
    VisitsOne(Visit(l));
  }

  lemma One(i: Instr, held: set<Lock>, end: set<Lock>, n: nat)
    requires i.Acquire? ==> Known(i.l, n) && Above(i.l, held, n) && end == held + {i.l}
    requires i.Visit? ==> i.l in held && end == held
    requires i.Release? ==> i.l in held && end == held - {i.l}
    ensures Ordered([i], held, end, n)
  {
    assert [i][1..] == [] && Ordered([], end, end, n);
  }

  /** contains(): each chain whose pre-filter hits, one at a time, then the tree. */
  function ReaderProgram(hits: seq<nat>): seq<Instr> {
    if hits == [] then Brief(TreeMu) else Brief(PtfoMu(hits[0])) + ReaderProgram(hits[1..])
  }

  function ChainsOf(ids: seq<nat>): seq<Lock> {
    seq(|ids|, i requires 0 <= i < |ids| => PtfoMu(ids[i]))
  }

  function DirsOf(ids: seq<nat>): seq<Lock> {
    seq(|ids|, i requires 0 <= i < |ids| => DirMu(ids[i]))
  }

  /** The chains are visited in the order of the producers, and the tree last. */
  lemma {:induction false} ReaderOrdered(hits: seq<nat>, n: nat)
    requires forall i :: 0 <= i < |hits| ==> hits[i] < n
    ensures Ordered(ReaderProgram(hits), {}, {}, n) && Visits(ReaderProgram(hits)) == ChainsOf(hits) + [TreeMu]
  {
    if hits == [] {
      BriefOrdered(TreeMu, {}, n);
      BriefVisits(TreeMu);
    } else {
      BriefVisits(PtfoMu(hits[0]));
      VisitsConcat(Brief(PtfoMu(hits[0])), ReaderProgram(hits[1..]));
      BriefOrdered(PtfoMu(hits[0]), {}, n);
      ReaderOrdered(hits[1..], n);
      OrderedConcat(Brief(PtfoMu(hits[0])), ReaderProgram(hits[1..]), {}, {}, {}, n);
    }
  }

  /** acquire_ptfo_locks: in ascending order. */
  function TakeChains(ids: seq<nat>): seq<Instr> {
    if ids == [] then [] else [Acquire(PtfoMu(ids[0]))] + TakeChains(ids[1..])
  }

  function LeaveChains(ids: seq<nat>): seq<Instr> {
    if ids == [] then [] else [Release(PtfoMu(ids[0]))] + LeaveChains(ids[1..])
  }

  /** What happens to the chains while all their locks are held. */
  function VisitChains(ids: seq<nat>): seq<Instr> {
    if ids == [] then [] else [Visit(PtfoMu(ids[0]))] + VisitChains(ids[1..])
  }

  /** Directories are visited one at a time: to collect their entries, and to clear them. */
  function VisitDirs(ids: seq<nat>): seq<Instr> {
    if ids == [] then [] else Brief(DirMu(ids[0])) + VisitDirs(ids[1..])
  }

  ghost predicate Ascends(ids: seq<nat>, n: nat) {
    (forall i, j :: 0 <= i < j < |ids| ==> ids[i] < ids[j]) && forall i :: 0 <= i < |ids| ==> ids[i] < n
  }

  function ChainLocks(ids: seq<nat>): set<Lock> {
    set i | 0 <= i < |ids| :: PtfoMu(ids[i])
  }

  lemma {:induction false} TakeChainsOrdered(ids: seq<nat>, held: set<Lock>, n: nat)
    requires Ascends(ids, n) && forall i :: 0 <= i < |ids| ==> Above(PtfoMu(ids[i]), held, n)
    ensures Ordered(TakeChains(ids), held, held + ChainLocks(ids), n)
  {
    if ids == [] {
      assert held + ChainLocks(ids) == held;
    } else {
      var l := PtfoMu(ids[0]);
      var rest := ids[1..];
      forall i | 0 <= i < |rest| ensures Above(PtfoMu(rest[i]), held + {l}, n) { assert rest[i] == ids[i + 1]; }
      TakeChainsOrdered(rest, held + {l}, n);
      ChainLocksCons(ids);
      assert held + {l} + ChainLocks(rest) == held + ChainLocks(ids);
      assert TakeChains(ids)[1..] == TakeChains(rest);
    }
  }

  lemma ChainLocksCons(ids: seq<nat>)
    requires ids != []
    ensures ChainLocks(ids) == {PtfoMu(ids[0])} + ChainLocks(ids[1..])
  {
    forall l ensures l in ChainLocks(ids) <==> l in {PtfoMu(ids[0])} + ChainLocks(ids[1..]) {
      if l in ChainLocks(ids) {
        var i :| 0 <= i < |ids| && PtfoMu(ids[i]) == l;
        if i > 0 { assert ids[1..][i - 1] == ids[i]; }
      }
      if l in ChainLocks(ids[1..]) {
        var i :| 0 <= i < |ids[1..]| && PtfoMu(ids[1..][i]) == l;
        assert ids[i + 1] == ids[1..][i];
      }
    }
  }

  lemma {:induction false} LeaveChainsOrdered(ids: seq<nat>, held: set<Lock>, n: nat)
    requires Ascends(ids, n) && held !! ChainLocks(ids)
    ensures Ordered(LeaveChains(ids), held + ChainLocks(ids), held, n)
  {
    if ids == [] {
      assert held + ChainLocks(ids) == held;
    } else {
      var l := PtfoMu(ids[0]);
      var rest := ids[1..];
      ChainLocksCons(ids);
      assert l !in ChainLocks(rest) by {
        assert forall i :: 0 <= i < |rest| ==> rest[i] == ids[i + 1] > ids[0];
      }
      LeaveChainsOrdered(rest, held, n);
      assert held + ChainLocks(ids) - {l} == held + ChainLocks(rest);
      assert LeaveChains(ids)[1..] == LeaveChains(rest);
    }
  }

  lemma {:induction false} VisitChainsOrdered(ids: seq<nat>, held: set<Lock>, n: nat)
    requires forall i :: 0 <= i < |ids| ==> PtfoMu(ids[i]) in held
    ensures Ordered(VisitChains(ids), held, held, n) && Visits(VisitChains(ids)) == ChainsOf(ids)
  {
    if ids != [] {
      assert VisitChains(ids)[1..] == VisitChains(ids[1..]);
      VisitChainsOrdered(ids[1..], held, n);
    }
  }

  lemma {:induction false} NoVisits(ids: seq<nat>)
    ensures Visits(TakeChains(ids)) == [] && Visits(LeaveChains(ids)) == []
  {
    if ids != [] {
      assert TakeChains(ids)[1..] == TakeChains(ids[1..]) && LeaveChains(ids)[1..] == LeaveChains(ids[1..]);
      NoVisits(ids[1..]);
    }
  }

  lemma {:induction false} VisitDirsOrdered(ids: seq<nat>, held: set<Lock>, n: nat)
    requires (forall i :: 0 <= i < |ids| ==> ids[i] < n) && forall h :: h in held ==> Rank(h, n) < 2 + n
    ensures Ordered(VisitDirs(ids), held, held, n) && Visits(VisitDirs(ids)) == DirsOf(ids)
  {
    if ids != [] {
      BriefVisits(DirMu(ids[0]));
      VisitsConcat(Brief(DirMu(ids[0])), VisitDirs(ids[1..]));
      BriefOrdered(DirMu(ids[0]), held, n);
      VisitDirsOrdered(ids[1..], held, n);
      OrderedConcat(Brief(DirMu(ids[0])), VisitDirs(ids[1..]), held, held, held, n);
    }
  }

  /**
    A drain: the wrapper's lock with a look at the accounts, the tree's lock, the chains' locks. Under
    them the directories are read for the snapshot (all of them under F3-N, none otherwise), the chains
    are read, the tree is changed, the chains are emptied, and directories are cleared. Chains and tree
    are released before the accounts are reset.
   */
  function DrainProgram(ids: seq<nat>, snapshot: seq<nat>, cleared: seq<nat>): seq<Instr> {
    DrainEntry() + (TakeChains(ids) + (DrainBody(ids, snapshot, cleared) + (LeaveChains(ids) + DrainExit())))
  }

  function DrainEntry(): seq<Instr> { [Acquire(Mu), Visit(Mu), Acquire(TreeMu)] }

  function DrainExit(): seq<Instr> { [Release(TreeMu), Visit(Mu), Release(Mu)] }

  function DrainBody(ids: seq<nat>, snapshot: seq<nat>, cleared: seq<nat>): seq<Instr> {
    VisitDirs(snapshot) + (VisitChains(ids) + ([Visit(TreeMu)] + (VisitChains(ids) + VisitDirs(cleared))))
  }

  lemma BodyOrdered(ids: seq<nat>, snapshot: seq<nat>, cleared: seq<nat>, held: set<Lock>, n: nat)
    requires (forall i :: 0 <= i < |snapshot| ==> snapshot[i] < n) && forall i :: 0 <= i < |cleared| ==> cleared[i] < n
    requires (forall i :: 0 <= i < |ids| ==> PtfoMu(ids[i]) in held) && TreeMu in held
    requires forall h :: h in held ==> Rank(h, n) < 2 + n
    ensures Ordered(DrainBody(ids, snapshot, cleared), held, held, n)
    ensures Visits(DrainBody(ids, snapshot, cleared))
         == DirsOf(snapshot) + ChainsOf(ids) + [TreeMu] + ChainsOf(ids) + DirsOf(cleared)
  {
    VisitDirsOrdered(snapshot, held, n);
    VisitDirsOrdered(cleared, held, n);
    VisitChainsOrdered(ids, held, n);
    One(Visit(TreeMu), held, held, n);
    VisitsOne(Visit(TreeMu));
    var emptied := VisitChains(ids) + VisitDirs(cleared);
    OrderedConcat(VisitChains(ids), VisitDirs(cleared), held, held, held, n);
    OrderedConcat([Visit(TreeMu)], emptied, held, held, held, n);
    OrderedConcat(VisitChains(ids), [Visit(TreeMu)] + emptied, held, held, held, n);
    OrderedConcat(VisitDirs(snapshot), VisitChains(ids) + ([Visit(TreeMu)] + emptied), held, held, held, n);
    VisitsConcat(VisitChains(ids), VisitDirs(cleared));
    VisitsConcat([Visit(TreeMu)], emptied);
    VisitsConcat(VisitChains(ids), [Visit(TreeMu)] + emptied);
    VisitsConcat(VisitDirs(snapshot), VisitChains(ids) + ([Visit(TreeMu)] + emptied));
  }

  lemma DrainOrdered(ids: seq<nat>, snapshot: seq<nat>, cleared: seq<nat>, n: nat)
    requires Ascends(ids, n) && (forall i :: 0 <= i < |snapshot| ==> snapshot[i] < n)
    requires forall i :: 0 <= i < |cleared| ==> cleared[i] < n
    ensures Ordered(DrainProgram(ids, snapshot, cleared), {}, {}, n)
    ensures Visits(DrainProgram(ids, snapshot, cleared))
         == [Mu] + (DirsOf(snapshot) + ChainsOf(ids) + [TreeMu] + ChainsOf(ids) + DirsOf(cleared)) + [Mu]
  {
    var two := {Mu, TreeMu};
    BodyOrdered(ids, snapshot, cleared, two + ChainLocks(ids), n);
    DrainAround(ids, DrainBody(ids, snapshot, cleared), n);
    DrainVisits(ids, DrainBody(ids, snapshot, cleared));
  }

  /** Whatever is done under the locks of a drain. */
  lemma DrainAround(ids: seq<nat>, body: seq<Instr>, n: nat)
    requires Ascends(ids, n) && Ordered(body, {Mu, TreeMu} + ChainLocks(ids), {Mu, TreeMu} + ChainLocks(ids), n)
    ensures Ordered(DrainEntry() + (TakeChains(ids) + (body + (LeaveChains(ids) + DrainExit()))), {}, {}, n)
  {
    var two := {Mu, TreeMu};
    var all := two + ChainLocks(ids);
    EntryAndExit(n);
    TakeChainsOrdered(ids, two, n);
    LeaveChainsOrdered(ids, two, n);
    OrderedConcat(LeaveChains(ids), DrainExit(), all, two, {}, n);
    OrderedConcat(body, LeaveChains(ids) + DrainExit(), all, all, {}, n);
    OrderedConcat(TakeChains(ids), body + (LeaveChains(ids) + DrainExit()), two, all, {}, n);
    OrderedConcat(DrainEntry(), TakeChains(ids) + (body + (LeaveChains(ids) + DrainExit())), {}, two, {}, n);
  }

  lemma DrainVisits(ids: seq<nat>, body: seq<Instr>)
    ensures Visits(DrainEntry() + (TakeChains(ids) + (body + (LeaveChains(ids) + DrainExit()))))
            == [Mu] + Visits(body) + [Mu]
  {
    NoVisits(ids);
    EntryAndExitVisits();
    VisitsConcat(LeaveChains(ids), DrainExit());
    VisitsConcat(body, LeaveChains(ids) + DrainExit());
    VisitsConcat(TakeChains(ids), body + (LeaveChains(ids) + DrainExit()));
    VisitsConcat(DrainEntry(), TakeChains(ids) + (body + (LeaveChains(ids) + DrainExit())));
  }

  lemma EntryAndExitVisits()
    ensures Visits(DrainEntry()) == [Mu] && Visits(DrainExit()) == [Mu]
  {
    EnterVisits(Mu);
    VisitsOne(Acquire(TreeMu));
    VisitsConcat([Acquire(Mu), Visit(Mu)], [Acquire(TreeMu)]);
    assert DrainEntry() == [Acquire(Mu), Visit(Mu)] + [Acquire(TreeMu)];
    VisitsOne(Release(TreeMu));
    VisitsOne(Visit(Mu));
    VisitsOne(Release(Mu));
    VisitsConcat([Visit(Mu)], [Release(Mu)]);
    VisitsConcat([Release(TreeMu)], [Visit(Mu)] + [Release(Mu)]);
    assert DrainExit() == [Release(TreeMu)] + ([Visit(Mu)] + [Release(Mu)]);
  }

  lemma EntryAndExit(n: nat)
    ensures Ordered(DrainEntry(), {}, {Mu, TreeMu}, n)
    ensures Ordered(DrainExit(), {Mu, TreeMu}, {}, n)
  {
    EnterOrdered(Mu, {}, n);
    One(Acquire(TreeMu), {Mu}, {Mu, TreeMu}, n);
    assert {} + {Mu} == {Mu};
    OrderedConcat([Acquire(Mu), Visit(Mu)], [Acquire(TreeMu)], {}, {Mu}, {Mu, TreeMu}, n);
    assert DrainEntry() == [Acquire(Mu), Visit(Mu)] + [Acquire(TreeMu)];
    assert {Mu, TreeMu} - {TreeMu} == {Mu};
    One(Release(TreeMu), {Mu, TreeMu}, {Mu}, n);
    One(Visit(Mu), {Mu}, {Mu}, n);
    One(Release(Mu), {Mu}, {}, n);
    OrderedConcat([Visit(Mu)], [Release(Mu)], {Mu}, {Mu}, {}, n);
    OrderedConcat([Release(TreeMu)], [Visit(Mu)] + [Release(Mu)], {Mu, TreeMu}, {Mu}, {}, n);
    assert DrainExit() == [Release(TreeMu)] + ([Visit(Mu)] + [Release(Mu)]);
  }

  // ---------------------------------------------------------------- threads running together

  datatype Thread = Thread(held: set<Lock>, rest: seq<Instr>)

  ghost predicate CanStep(ts: seq<Thread>, t: nat) {
    && t < |ts| && ts[t].rest != []
    && (ts[t].rest[0].Acquire? ==> forall u :: 0 <= u < |ts| ==> ts[t].rest[0].l !in ts[u].held)
  }

  function StepOf(ts: seq<Thread>, t: nat): seq<Thread>
    requires t < |ts| && ts[t].rest != []
  {
    var th := ts[t];
    match th.rest[0]
    case Acquire(l) => ts[t := Thread(th.held + {l}, th.rest[1..])]
    case Visit(l) => ts[t := Thread(th.held, th.rest[1..])]
    case Release(l) => ts[t := Thread(th.held - {l}, th.rest[1..])]
  }

  /** Every thread still follows the order, will release what it holds, and locks are exclusive. */
  ghost predicate Sound(ts: seq<Thread>, n: nat) {
    && (forall t :: 0 <= t < |ts| ==> Ordered(ts[t].rest, ts[t].held, {}, n))
    && forall t, u :: 0 <= t < u < |ts| ==> ts[t].held !! ts[u].held
  }

  lemma StepKeepsSound(ts: seq<Thread>, t: nat, n: nat)
    requires Sound(ts, n) && CanStep(ts, t)
    ensures Sound(StepOf(ts, t), n)
  {
    var ts' := StepOf(ts, t);
    forall a, b | 0 <= a < b < |ts'| ensures ts'[a].held !! ts'[b].held {
      assert ts[a].held !! ts[b].held;
    }
  }

  ghost predicate Finished(ts: seq<Thread>) {
    forall t :: 0 <= t < |ts| ==> ts[t].rest == []
  }

  /** A blocked thread waits for one that can step, or that waits for a lock of higher rank. */
  lemma {:induction false} SomeoneCanStep(ts: seq<Thread>, t: nat, n: nat) returns (u: nat)
    requires Sound(ts, n) && t < |ts| && ts[t].rest != []
    ensures CanStep(ts, u)
    decreases 2 + 2 * n - WantedRank(ts, t, n)
  {
    if CanStep(ts, t) {
      u := t;
    } else {
      var l := ts[t].rest[0].l;
      var o :| 0 <= o < |ts| && l in ts[o].held;
      assert Ordered(ts[t].rest, ts[t].held, {}, n) && Ordered(ts[o].rest, ts[o].held, {}, n);
      assert ts[o].rest != [];
      if !ts[o].rest[0].Acquire? {
        u := o;
      } else {
        assert Rank(l, n) < Rank(ts[o].rest[0].l, n);
        u := SomeoneCanStep(ts, o, n);
      }
    }
  }

  ghost function WantedRank(ts: seq<Thread>, t: nat, n: nat): (r: nat)
    requires Sound(ts, n) && t < |ts| && ts[t].rest != []
    ensures r < 2 + 2 * n
  {
    assert Ordered(ts[t].rest, ts[t].held, {}, n);
    if ts[t].rest[0].Acquire? then Rank(ts[t].rest[0].l, n) else 0
  }

  /** A schedule: which thread steps, one after the other. */
  ghost predicate Possible(ts: seq<Thread>, schedule: seq<nat>)
    decreases |schedule|
  {
    schedule == [] || (CanStep(ts, schedule[0]) && Possible(StepOf(ts, schedule[0]), schedule[1..]))
  }

  ghost function After(ts: seq<Thread>, schedule: seq<nat>): seq<Thread>
    requires Possible(ts, schedule)
    decreases |schedule|
  {
    if schedule == [] then ts else After(StepOf(ts, schedule[0]), schedule[1..])
  }

  /** Two threads are at the same chain, directory, tree or accounts. */
  ghost predicate Collide(ts: seq<Thread>, t: nat, u: nat) {
    && t < |ts| && u < |ts| && t != u && ts[t].rest != [] && ts[u].rest != []
    && ts[t].rest[0].Visit? && ts[t].rest[0] == ts[u].rest[0]
  }

  /** In every reachable state no two threads are, and each visits only what it has locked. */
  lemma {:induction false} NoCollision(ts: seq<Thread>, schedule: seq<nat>, n: nat, t: nat, u: nat)
    requires Sound(ts, n) && Possible(ts, schedule)
    ensures var now := After(ts, schedule);
            && !Collide(now, t, u)
            && (t < |now| && now[t].rest != [] && now[t].rest[0].Visit? ==> now[t].rest[0].l in now[t].held)
    decreases |schedule|
  {
    if schedule == [] {
      if t < |ts| { assert Ordered(ts[t].rest, ts[t].held, {}, n); }
      if u < |ts| { assert Ordered(ts[u].rest, ts[u].held, {}, n); }
      if t < |ts| && u < |ts| && t != u { assert ts[if t < u then t else u].held !! ts[if t < u then u else t].held; }
    } else {
      StepKeepsSound(ts, schedule[0], n);
      NoCollision(StepOf(ts, schedule[0]), schedule[1..], n, t, u);
    }
  }

  /** In every reachable state, threads are finished or one of them can step. */
  lemma {:induction false} NoDeadlock(ts: seq<Thread>, schedule: seq<nat>, n: nat)
    requires Sound(ts, n) && Possible(ts, schedule)
    ensures Finished(After(ts, schedule)) || exists u :: CanStep(After(ts, schedule), u)
    decreases |schedule|
  {
    if schedule == [] {
      if !Finished(ts) {
        var t :| 0 <= t < |ts| && ts[t].rest != [];
        var u := SomeoneCanStep(ts, t, n);
      }
    } else {
      StepKeepsSound(ts, schedule[0], n);
      NoDeadlock(StepOf(ts, schedule[0]), schedule[1..], n);
    }
  }

  /** The instructions still to be executed. */
  function Work(ts: seq<Thread>): nat {
    if ts == [] then 0 else Work(ts[..|ts| - 1]) + |ts[|ts| - 1].rest|
  }

  lemma {:induction false} WorkUpdate(ts: seq<Thread>, t: nat, th: Thread)
    requires t < |ts|
    ensures Work(ts[t := th]) == Work(ts) - |ts[t].rest| + |th.rest|
  {
    var n := |ts| - 1;
    if t < n {
      WorkUpdate(ts[..n], t, th);
      assert ts[t := th][..n] == ts[..n][t := th];
    } else {
      assert ts[t := th][..n] == ts[..n];
    }
  }

  /** Every step is progress: no schedule is longer than the work there was. */
  lemma {:induction false} SchedulesAreFinite(ts: seq<Thread>, schedule: seq<nat>)
    requires Possible(ts, schedule)
    ensures |schedule| + Work(After(ts, schedule)) == Work(ts)
    decreases |schedule|
  {
    if schedule != [] {
      var t := schedule[0];
      WorkUpdate(ts, t, StepOf(ts, t)[t]);
      assert StepOf(ts, t) == ts[t := StepOf(ts, t)[t]];
      SchedulesAreFinite(StepOf(ts, t), schedule[1..]);
    }
  }

  /** The operations of the system: what they lock. */
  datatype Operation =
    | Producing(p: nat)
    | Reading(hits: seq<nat>)
    | Draining(ids: seq<nat>, snapshot: seq<nat>, cleared: seq<nat>)
    | TreeOnly
    | WrapperOnly

  function Program(o: Operation): seq<Instr> {
    match o
    case Producing(p) => ProducerProgram(p)
    case Reading(hits) => ReaderProgram(hits)
    case Draining(ids, snapshot, cleared) => DrainProgram(ids, snapshot, cleared)
    case TreeOnly => Brief(TreeMu)
    case WrapperOnly => Brief(Mu)
  }

  ghost predicate OperationOk(o: Operation, n: nat) {
    match o
    case Producing(p) => p < n
    case Reading(hits) => forall i :: 0 <= i < |hits| ==> hits[i] < n
    case Draining(ids, snapshot, cleared) =>
      && Ascends(ids, n)
      && (forall i :: 0 <= i < |snapshot| ==> snapshot[i] < n)
      && (forall i :: 0 <= i < |cleared| ==> cleared[i] < n)
    case TreeOnly => true
    case WrapperOnly => true
  }

  /** A thread does one operation after the other. */
  function Programs(os: seq<Operation>): seq<Instr> {
    if os == [] then [] else Program(os[0]) + Programs(os[1..])
  }

  lemma {:induction false} ProgramsOrdered(os: seq<Operation>, n: nat)
    requires forall i :: 0 <= i < |os| ==> OperationOk(os[i], n)
    ensures Ordered(Programs(os), {}, {}, n)
  {
    if os != [] {
      match os[0] {
        case Producing(p) => ProducerOrdered(p, n);
        case Reading(hits) => ReaderOrdered(hits, n);
        case Draining(ids, snapshot, cleared) => DrainOrdered(ids, snapshot, cleared, n);
        case TreeOnly => BriefOrdered(TreeMu, {}, n);
        case WrapperOnly => BriefOrdered(Mu, {}, n);
      }
      ProgramsOrdered(os[1..], n);
      OrderedConcat(Program(os[0]), Programs(os[1..]), {}, {}, {}, n);
    }
  }

  function Started(jobs: seq<seq<Operation>>): seq<Thread> {
    seq(|jobs|, i requires 0 <= i < |jobs| => Thread({}, Programs(jobs[i])))
  }

  lemma StartedSound(jobs: seq<seq<Operation>>, n: nat)
    requires forall t, i :: 0 <= t < |jobs| && 0 <= i < |jobs[t]| ==> OperationOk(jobs[t][i], n)
    ensures Sound(Started(jobs), n)
  {
    var ts := Started(jobs);
    forall t | 0 <= t < |ts| ensures Ordered(ts[t].rest, ts[t].held, {}, n) { ProgramsOrdered(jobs[t], n); }
  }

  /** Nor do two of them ever meet at one chain, directory, tree or the accounts. */
  lemma SystemNeverCollides(jobs: seq<seq<Operation>>, schedule: seq<nat>, n: nat, t: nat, u: nat)
    requires forall t, i :: 0 <= t < |jobs| && 0 <= i < |jobs[t]| ==> OperationOk(jobs[t][i], n)
    requires Possible(Started(jobs), schedule)
    ensures !Collide(After(Started(jobs), schedule), t, u)
  {
    StartedSound(jobs, n);
    NoCollision(Started(jobs), schedule, n, t, u);
  }

  /** Any number of threads doing any operations, in any interleaving, never deadlock. */
  lemma SystemNeverDeadlocks(jobs: seq<seq<Operation>>, schedule: seq<nat>, n: nat)
    requires forall t, i :: 0 <= t < |jobs| && 0 <= i < |jobs[t]| ==> OperationOk(jobs[t][i], n)
    requires Possible(Started(jobs), schedule)
    ensures Finished(After(Started(jobs), schedule)) || exists u :: CanStep(After(Started(jobs), schedule), u)
  {
    StartedSound(jobs, n);
    NoDeadlock(Started(jobs), schedule, n);
  }
}
