/**
  The buffered lookups: the full scan, the pre-filtered chain walk behind contains(), and the
  pre-filtered directory lookup. They all find the operation that decides the key.
 */
module Lookups {
  import opened Ops
  import opened ChainLists
  import opened Replays
  import opened PtfoChains
  import opened HashTables
  import opened Directories

  /** What a lookup reports: the state of the key, the producer that set it, and when. */
  datatype State = Absent | Present | Tombstone

  datatype Report = Report(state: State, owner: int, sequence: nat)

  function Reported(e: Option<Op>): Report {
    match e
    case None => Report(Absent, -1, 0)
    case Some(op) => Report(if op.isDelete then Tombstone else Present, op.producer, op.sequence)
  }

  /** Every operation is in its own producer's chain. */
  ghost predicate Produced(views: Chains) {
    forall p, o {:trigger o in Log(views[p])} :: 0 <= p < |views| && o in Log(views[p]) ==> o.producer == p
  }

  /**
    What a report means: the owner's chain has operations on the key, the last of them has this sequence
    and is a delete exactly for a tombstone, and no chain has a newer one. Without any operation on the
    key there is no owner.
   */
  ghost predicate ReportOf(r: Report, views: Chains, key: int) {
    if r.state.Absent? then
      r.owner == -1 && r.sequence == 0 && forall p :: 0 <= p < |views| ==> !Touches(Log(views[p]), key)
    else
      && 0 <= r.owner < |views|
      && var e := LastOf(Log(views[r.owner]), key);
         && e.Some? && e.value.sequence == r.sequence && (r.state.Tombstone? <==> e.value.isDelete)
         && forall p :: 0 <= p < |views| && LastOf(Log(views[p]), key).Some? ==>
              LastOf(Log(views[p]), key).value.sequence <= r.sequence
  }

  lemma ReportedMeans(views: Chains, key: int)
    requires Produced(views)
    ensures ReportOf(Reported(Deciding(views, key)), views, key)
  {
    var d := Deciding(views, key);
    DecidingIsNewest(views, key);
    forall p | 0 <= p < |views| ensures LastOf(Log(views[p]), key) == None <==> !Touches(Log(views[p]), key) {
      LastOfMember(Log(views[p]), key);
    }
    if d.Some? {
      var p :| 0 <= p < |views| && LastOf(Log(views[p]), key) == d;
      LastOfMember(Log(views[p]), key);
      assert d.value in Log(views[p]);
    }
  }

  // ---------------------------------------------------------------- the producers' structures

  ghost predicate ChainAt(chains: seq<Chain>, p: nat)
    reads chains
  {
    p < |chains| ==> chains[p].Walkable() && chains[p].producer == p && Ascending(Log(chains[p].Nodes()))
  }

  /** Chains that can be walked, with ascending sequences. A crash may have left their tails unset. */
  ghost predicate ChainsOk(chains: seq<Chain>)
    reads chains
  {
    forall p {:trigger ChainAt(chains, p)} :: ChainAt(chains, p)
  }

  /** The chains as lists of nodes. */
  ghost function Views(chains: seq<Chain>): (v: Chains)
    reads chains
    requires ChainsOk(chains)
    ensures |v| == |chains|
  {
    seq(|chains|, p requires 0 <= p < |chains| && ChainsOk(chains) reads chains =>
      assert ChainAt(chains, p); chains[p].Nodes())
  }

  /** The pre-filter knows every key of the log, and holds nothing but the producer's id. */
  ghost predicate FilterOf(table: HashMapTable, log: seq<Op>)
    reads table, table.ht
  {
    && table.Valid()
    && (forall o :: o in log ==> o.key in table.Map())
    && (forall k :: k in table.Map() ==> table.Map()[k] >= 0)
  }

  ghost predicate FilterAt(tables: seq<HashMapTable>, views: Chains, p: nat)
    reads tables, set q | 0 <= q < |tables| :: tables[q].ht
  {
    p < |tables| && p < |views| ==> FilterOf(tables[p], Log(views[p]))
  }

  ghost predicate FiltersOk(tables: seq<HashMapTable>, views: Chains)
    reads tables, set q | 0 <= q < |tables| :: tables[q].ht
  {
    |tables| == |views| && forall p {:trigger FilterAt(tables, views, p)} :: FilterAt(tables, views, p)
  }

  ghost predicate IndexOf(dir: LookupDirectory, log: seq<Op>)
    reads dir, dir.slots
  {
    dir.Valid() && DirectoryOf(dir.Map(), log)
  }

  ghost predicate DirectoryAt(dirs: seq<LookupDirectory>, views: Chains, p: nat)
    reads dirs, set q | 0 <= q < |dirs| :: dirs[q].slots
  {
    p < |dirs| && p < |views| ==> IndexOf(dirs[p], Log(views[p]))
  }

  ghost predicate DirectoriesOk(dirs: seq<LookupDirectory>, views: Chains)
    reads dirs, set q | 0 <= q < |dirs| :: dirs[q].slots
  {
    |dirs| == |views| && forall p {:trigger DirectoryAt(dirs, views, p)} :: DirectoryAt(dirs, views, p)
  }

  lemma DecidingNext(views: Chains, n: nat, key: int)
    requires n < |views|
    ensures Deciding(views[..n + 1], key) == Newer(Deciding(views[..n], key), LastOf(Log(views[n]), key))
  {
    assert views[..n + 1][..n] == views[..n];
  }

  /** A producer whose pre-filter misses has nothing on the key. */
  lemma FilterMiss(tables: seq<HashMapTable>, views: Chains, p: nat, key: int)
    requires FiltersOk(tables, views) && p < |views| && FilterAt(tables, views, p) && key !in tables[p].Map()
    ensures LastOf(Log(views[p]), key) == None
  {
    LastOfMember(Log(views[p]), key);
  }

  lemma ViewAt(chains: seq<Chain>, p: nat)
    requires ChainsOk(chains) && p < |chains|
    ensures ChainAt(chains, p) && Views(chains)[p] == chains[p].Nodes()
  {
    assert ChainAt(chains, p);
  }

  lemma {:induction false} ProducedLog(nodes: seq<Node>, p: nat)
    requires forall i, o :: 0 <= i < |nodes| && o in nodes[i] ==> o.producer == p
    ensures forall o :: o in Log(nodes) ==> o.producer == p
  {
    if nodes != [] { ProducedLog(nodes[1..], p); }
  }

  /** The entries of a chain carry no producer of their own: they are the chain's. */
  lemma ChainsProduce(chains: seq<Chain>)
    requires ChainsOk(chains)
    ensures Produced(Views(chains))
  {
    forall p, o | 0 <= p < |chains| && o in Log(Views(chains)[p]) ensures o.producer == p {
      ViewAt(chains, p);
      chains[p].NodesAreItsOwn();
      ProducedLog(chains[p].Nodes(), p);
    }
  }

  // ---------------------------------------------------------------- the lookups

  /** The walk of one chain, as a step of a walk over all. */
  method ScanOne(chains: seq<Chain>, p: nat, key: int, best: Option<Op>) returns (e: Option<Op>)
    requires ChainsOk(chains) && p < |chains| && best == Deciding(Views(chains)[..p], key)
    ensures e == Deciding(Views(chains)[..p + 1], key)
  {
    ViewAt(chains, p);
    DecidingNext(Views(chains), p, key);
    e := chains[p].Scan(key, best);
  }

  /** The same with the pre-filter in front. */
  method ProbeOne(chains: seq<Chain>, tables: seq<HashMapTable>, p: nat, key: int, best: Option<Op>)
    returns (e: Option<Op>)
    requires ChainsOk(chains) && FiltersOk(tables, Views(chains)) && p < |chains|
             && best == Deciding(Views(chains)[..p], key)
    ensures e == Deciding(Views(chains)[..p + 1], key)
  {
    ghost var views := Views(chains);
    assert FilterAt(tables, views, p);
    var hit := tables[p].SearchKey(key);
    if hit == -1 {
      FilterMiss(tables, views, p, key);
      DecidingNext(views, p, key);
      return best;
    }
    e := ScanOne(chains, p, key, best);
  }

  /** future_latest_state: every chain, whole. */
  method LatestState(chains: seq<Chain>, key: int) returns (r: Report)
    requires ChainsOk(chains)
    ensures r == Reported(Deciding(Views(chains), key)) && ReportOf(r, Views(chains), key)
  {
    ChainsProduce(chains);
    ReportedMeans(Views(chains), key);
    var best: Option<Op> := None;
    ghost var views := Views(chains);
    for tid := 0 to |chains|
      invariant best == Deciding(views[..tid], key)
    {
      best := ScanOne(chains, tid, key, best);
    }
    assert views[..|chains|] == views;
    r := Reported(best);
  }

  /** future_hash_directed_state_via_ptfo: only the chains whose pre-filter hits. */
  method HashDirectedViaPtfo(chains: seq<Chain>, tables: seq<HashMapTable>, key: int) returns (r: Report)
    requires ChainsOk(chains) && FiltersOk(tables, Views(chains))
    ensures r == Reported(Deciding(Views(chains), key)) && ReportOf(r, Views(chains), key)
  {
    ChainsProduce(chains);
    ReportedMeans(Views(chains), key);
    var best: Option<Op> := None;
    ghost var views := Views(chains);
    for tid := 0 to |chains|
      invariant best == Deciding(views[..tid], key)
    {
      best := ProbeOne(chains, tables, tid, key, best);
    }
    assert views[..|chains|] == views;
    r := Reported(best);
  }

  /** future_hash_directed_state: only the directories whose pre-filter hits. */
  method HashDirected(tables: seq<HashMapTable>, dirs: seq<LookupDirectory>, ghost views: Chains, key: int)
    returns (r: Report)
    requires FiltersOk(tables, views) && DirectoriesOk(dirs, views)
    ensures r == Reported(Deciding(views, key)) && (Produced(views) ==> ReportOf(r, views, key))
  {
    if Produced(views) { ReportedMeans(views, key); }
    var best: Option<Op> := None;
    for tid := 0 to |tables|
      invariant best == Deciding(views[..tid], key)
    {
      assert FilterAt(tables, views, tid) && DirectoryAt(dirs, views, tid);
      DecidingNext(views, tid, key);
      var hit := tables[tid].SearchKey(key);
      if hit == -1 {
        FilterMiss(tables, views, tid, key);
        continue;
      }
      var entry := dirs[tid].Find(key);
      assert LastOf(Log(views[tid]), key) == entry;
      if entry.None? { continue; }
      if best.None? || entry.value.sequence > best.value.sequence { best := entry; }
    }
    assert views[..|tables|] == views;
    r := Reported(best);
  }

  /** contains: the buffered state decides, and the tree where there is none. */
  method Contains(chains: seq<Chain>, tables: seq<HashMapTable>, tree: Copies, key: int) returns (found: bool)
    requires ChainsOk(chains) && FiltersOk(tables, Views(chains))
    ensures found == Visible(tree, Views(chains), key)
  {
    var r := HashDirectedViaPtfo(chains, tables, key);
    match r.state {
      case Present => found := true;
      case Tombstone => found := false;
      case Absent => found := key in tree;
    }
  }

  method StateOf(chains: seq<Chain>, p: nat, key: int) returns (e: Option<Op>)
    requires ChainsOk(chains) && p < |chains|
    ensures e == LastOf(Log(Views(chains)[p]), key)
  {
    ViewAt(chains, p);
    e := chains[p].FutureState(key);
  }

  /** future_state_any: the first producer with an operation on the key, whatever its age. */
  method StateAny(chains: seq<Chain>, key: int) returns (e: Option<Op>)
    requires ChainsOk(chains)
    ensures e == None <==> Deciding(Views(chains), key) == None
    ensures e.Some? ==> exists p :: IsFirst(Views(chains), key, p, e)
  {
    ghost var views := Views(chains);
    for tid := 0 to |chains|
      invariant forall q :: 0 <= q < tid ==> LastOf(Log(views[q]), key) == None
    {
      e := StateOf(chains, tid, key);
      if e.Some? {
        FirstAnswers(views, key, tid, e);
        return;
      }
    }
    DecidingIsNewest(views, key);
    e := None;
  }

  lemma FirstAnswers(views: Chains, key: int, p: nat, e: Option<Op>)
    requires e.Some? && IsFirst(views, key, p, e)
    ensures Deciding(views, key).Some? && exists q :: IsFirst(views, key, q, e)
  {
    DecidingIsNewest(views, key);
  }

  ghost predicate IsFirst(views: Chains, key: int, p: nat, e: Option<Op>) {
    p < |views| && LastOf(Log(views[p]), key) == e && forall q :: 0 <= q < p ==> LastOf(Log(views[q]), key) == None
  }
}
