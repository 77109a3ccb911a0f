/**
  future_insert as a whole: the producer's chain, its hash pre-filter and its lookup directory change
  together, and stay in agreement exactly as long as there is room in both indexes.
 */
module Producers {
  import opened Ops
  import opened ChainLists
  import opened Replays
  import opened PtfoChains
  import opened HashTables
  import opened Directories
  import opened Lookups

  /** Nothing is shared between producers. */
  ghost predicate Apart(chains: seq<Chain>, tables: seq<HashMapTable>, dirs: seq<LookupDirectory>) {
    && |chains| == |tables| == |dirs|
    && (forall p, q :: 0 <= p < q < |chains| ==> chains[p] != chains[q])
    && (forall p, q :: 0 <= p < q < |tables| ==> tables[p].ht != tables[q].ht)
    && (forall p, q :: 0 <= p < q < |dirs| ==> dirs[p].slots != dirs[q].slots)
  }

  /** All indexes agree with all chains. */
  ghost predicate Agree(chains: seq<Chain>, tables: seq<HashMapTable>, dirs: seq<LookupDirectory>)
    reads chains, tables, set q | 0 <= q < |tables| :: tables[q].ht
    reads dirs, set q | 0 <= q < |dirs| :: dirs[q].slots
  {
    ChainsOk(chains) && FiltersOk(tables, Views(chains)) && DirectoriesOk(dirs, Views(chains))
  }

  /** The pre-filter takes the key without losing a key that the chain holds. */
  ghost predicate FilterTakes(table: HashMapTable, log: seq<Op>, key: int)
    reads table, table.ht
  {
    table.Valid() && (key in table.Map() || |table.Map()| < table.ht.Length || !Touches(log, table.HomeKey(key)))
  }

  ghost predicate DirectoryTakes(dir: LookupDirectory, key: int)
    reads dir, dir.slots
  {
    dir.Valid() && (key in dir.Map() || |dir.Map()| < dir.slots.Length)
  }

  // ---------------------------------------------------------------- one producer

  lemma FilterAfterInsert(m: map<int, int>, log: seq<Op>, op: Op, room: bool, home: int, v: int)
    requires forall o :: o in log ==> o.key in m
    ensures var m' := (if op.key in m || room then m else m - {home})[op.key := v];
            (forall o :: o in log + [op] ==> o.key in m') <==> op.key in m || room || !Touches(log, home)
  {
    var m' := (if op.key in m || room then m else m - {home})[op.key := v];
    if op.key in m || room || !Touches(log, home) {
      forall o | o in log + [op] ensures o.key in m' {
        if o in log && o.key == home { TouchedAt(log, o); }
      }
    } else {
      var i :| 0 <= i < |log| && log[i].key == home;
      assert log[i] in log && log[i] in log + [op] && home !in m';
    }
  }

  lemma TouchedAt(log: seq<Op>, o: Op)
    requires o in log
    ensures Touches(log, o.key)
  {
    var i :| 0 <= i < |log| && log[i] == o;
  }

  lemma DirectoryAfterRecord(dir: Directory, log: seq<Op>, op: Op, room: bool)
    requires DirectoryOf(dir, log)
    ensures DirectoryOf(if op.key in dir || room then dir[op.key := op] else dir, log + [op]) <==> op.key in dir || room
  {
    assert (log + [op])[..|log|] == log;
    if op.key in dir || room {
      var dir' := dir[op.key := op];
      forall k ensures LastOf(log + [op], k) == if k in dir' then Some(dir'[k]) else None {
        assert LastOf(log, k) == if k in dir then Some(dir[k]) else None;
      }
    } else {
      assert LastOf(log + [op], op.key) == Some(op);
    }
  }

  /** hash[tid].Insert. */
  method NoteKey(table: HashMapTable, op: Op, producer: nat, ghost log: seq<Op>)
    requires FilterOf(table, log)
    modifies table.ht
    ensures FilterOf(table, log + [op]) <==> old(FilterTakes(table, log, op.key))
  {
    FilterAfterInsert(table.Map(), log, op, |table.Map()| < table.ht.Length, table.HomeKey(op.key), producer);
    table.Insert(op.key, producer);
  }

  method NoteOp(dir: LookupDirectory, op: Op, ghost log: seq<Op>)
    requires IndexOf(dir, log)
    modifies dir.slots
    ensures IndexOf(dir, log + [op]) <==> old(DirectoryTakes(dir, op.key))
  {
    DirectoryAfterRecord(dir.Map(), log, op, |dir.Map()| < dir.slots.Length);
    dir.Record(op);
  }

  // ---------------------------------------------------------------- all producers

  /** What the other parts need of the insertion into one chain. */
  method InsertIntoOne(chain: Chain, op: Op)
    requires chain.Usable() && op.producer == chain.producer
    modifies chain
    ensures chain.Usable() && chain.Nodes() == Push(old(chain.Nodes()), op, chain.cardinality)
    ensures Log(chain.Nodes()) == Log(old(chain.Nodes())) + [op] && (old(chain.Valid()) ==> chain.Valid())
  {
    chain.RealAddresses();
    ghost var shown := chain.FutureInsert(op);
    chain.RealAddresses();
  }

  /** The chain's part: the other chains keep their nodes. */
  method InsertIntoChain(chains: seq<Chain>, p: nat, op: Op)
    requires (forall x, y :: 0 <= x < y < |chains| ==> chains[x] != chains[y]) && p < |chains| && op.producer == p
    requires ChainsOk(chains) && chains[p].Usable() && Ascending(Log(Views(chains)[p]) + [op])
    modifies chains[p]
    ensures ChainsOk(chains) && chains[p].Usable() && (old(chains[p].Valid()) ==> chains[p].Valid())
    ensures Views(chains) == old(Views(chains))[p := Push(old(Views(chains))[p], op, chains[p].cardinality)]
    ensures Log(Views(chains)[p]) == old(Log(Views(chains)[p])) + [op]
  {
    ghost var views := Views(chains);
    forall q: nat | q < |chains| ensures ChainAt(chains, q) && views[q] == chains[q].Nodes() { ViewAt(chains, q); }
    InsertIntoOne(chains[p], op);
    forall q: nat ensures ChainAt(chains, q) { }
    forall q: nat | q < |chains|
      ensures Views(chains)[q] == views[p := Push(views[p], op, chains[p].cardinality)][q]
    {
      ViewAt(chains, q);
    }
    ViewAt(chains, p);
  }

  /** The pre-filter's part. */
  method InsertIntoFilter(tables: seq<HashMapTable>, p: nat, op: Op, ghost views: Chains, ghost after: Chains)
    requires (forall x, y :: 0 <= x < y < |tables| ==> tables[x].ht != tables[y].ht) && p < |tables|
    requires FiltersOk(tables, views) && |after| == |views| && Log(after[p]) == Log(views[p]) + [op]
    requires forall q :: 0 <= q < |views| && q != p ==> after[q] == views[q]
    modifies tables[p].ht
    ensures FiltersOk(tables, after) <==> old(FilterTakes(tables[p], Log(views[p]), op.key))
  {
    forall q | 0 <= q < |tables| ensures FilterOf(tables[q], Log(views[q])) { assert FilterAt(tables, views, q); }
    NoteKey(tables[p], op, p, Log(views[p]));
    forall q: nat | q != p ensures FilterAt(tables, after, q) { }
    assert FilterAt(tables, after, p) <==> FilterOf(tables[p], Log(after[p]));
  }

  /** The directory's part. */
  method InsertIntoDirectory(dirs: seq<LookupDirectory>, p: nat, op: Op, ghost views: Chains, ghost after: Chains)
    requires (forall x, y :: 0 <= x < y < |dirs| ==> dirs[x].slots != dirs[y].slots) && p < |dirs|
    requires DirectoriesOk(dirs, views) && |after| == |views| && Log(after[p]) == Log(views[p]) + [op]
    requires forall q :: 0 <= q < |views| && q != p ==> after[q] == views[q]
    modifies dirs[p].slots
    ensures DirectoriesOk(dirs, after) <==> old(DirectoryTakes(dirs[p], op.key))
  {
    forall q | 0 <= q < |dirs| ensures IndexOf(dirs[q], Log(views[q])) { assert DirectoryAt(dirs, views, q); }
    NoteOp(dirs[p], op, Log(views[p]));
    forall q: nat | q != p ensures DirectoryAt(dirs, after, q) { }
    assert DirectoryAt(dirs, after, p) <==> IndexOf(dirs[p], Log(after[p]));
  }

  method InsertIntoIndexes(tables: seq<HashMapTable>, dirs: seq<LookupDirectory>, p: nat, op: Op, ghost views: Chains,
                           ghost after: Chains)
    requires |tables| == |dirs| == |views| && p < |tables|
    requires forall x, y :: 0 <= x < y < |tables| ==> tables[x].ht != tables[y].ht
    requires forall x, y :: 0 <= x < y < |dirs| ==> dirs[x].slots != dirs[y].slots
    requires FiltersOk(tables, views) && DirectoriesOk(dirs, views)
    requires |after| == |views| && Log(after[p]) == Log(views[p]) + [op]
    requires forall q :: 0 <= q < |views| && q != p ==> after[q] == views[q]
    modifies tables[p].ht, dirs[p].slots
    ensures FiltersOk(tables, after) <==> old(FilterTakes(tables[p], Log(views[p]), op.key))
    ensures DirectoriesOk(dirs, after) <==> old(DirectoryTakes(dirs[p], op.key))
  {
    InsertIntoFilter(tables, p, op, views, after);
    InsertIntoDirectory(dirs, p, op, views, after);
  }

  /**
    future_insert: one operation more in the producer's chain. The pre-filter stays without false
    negatives if and only if it has room for the key or loses no key that the chain holds, and the
    directory agrees with the chain if and only if it has room for the key.
   */
  method FutureInsert(chains: seq<Chain>, tables: seq<HashMapTable>, dirs: seq<LookupDirectory>, p: nat, op: Op)
    requires Apart(chains, tables, dirs) && p < |chains| && op.producer == p
    requires Agree(chains, tables, dirs) && chains[p].Usable() && Ascending(Log(Views(chains)[p]) + [op])
    modifies chains[p], tables[p].ht, dirs[p].slots
    ensures ChainsOk(chains) && chains[p].Usable()
    ensures Views(chains) == old(Views(chains))[p := Push(old(Views(chains))[p], op, chains[p].cardinality)]
    ensures FiltersOk(tables, Views(chains)) <==> old(FilterTakes(tables[p], Log(Views(chains)[p]), op.key))
    ensures DirectoriesOk(dirs, Views(chains)) <==> old(DirectoryTakes(dirs[p], op.key))
  {
    ghost var views := Views(chains);
    ghost var taken, held := FilterTakes(tables[p], Log(views[p]), op.key), DirectoryTakes(dirs[p], op.key);
    InsertBesideIndexes(chains, tables, dirs, p, op, views, taken, held);
    InsertIntoIndexes(tables, dirs, p, op, views, Views(chains));
  }

  /** The insertion into the chain leaves the indexes alone. */
  method InsertBesideIndexes(chains: seq<Chain>, ghost tables: seq<HashMapTable>, ghost dirs: seq<LookupDirectory>,
                             p: nat, op: Op, ghost views: Chains, ghost taken: bool, ghost held: bool)
    requires (forall x, y :: 0 <= x < y < |chains| ==> chains[x] != chains[y]) && p < |chains| == |tables| == |dirs|
             && op.producer == p
    requires ChainsOk(chains) && views == Views(chains) && FiltersOk(tables, views) && DirectoriesOk(dirs, views)
    requires taken == FilterTakes(tables[p], Log(views[p]), op.key) && held == DirectoryTakes(dirs[p], op.key)
    requires chains[p].Usable() && Ascending(Log(views[p]) + [op])
    modifies chains[p]
    ensures ChainsOk(chains) && chains[p].Usable()
    ensures Views(chains) == views[p := Push(views[p], op, chains[p].cardinality)]
            && Log(Views(chains)[p]) == Log(views[p]) + [op]
    ensures FiltersOk(tables, views) && DirectoriesOk(dirs, views)
    ensures taken == FilterTakes(tables[p], Log(views[p]), op.key) && held == DirectoryTakes(dirs[p], op.key)
  {
    InsertIntoChain(chains, p, op);
  }

  /**
    What a drain does to one producer after its replay: the chain and the directory are emptied, the pre-
    filter is not.
   */
  method ClearProducer(chains: seq<Chain>, tables: seq<HashMapTable>, dirs: seq<LookupDirectory>, p: nat)
    requires Apart(chains, tables, dirs) && p < |chains| && Agree(chains, tables, dirs)
    modifies chains[p], dirs[p].slots
    ensures Agree(chains, tables, dirs) && chains[p].Valid() && Views(chains) == old(Views(chains))[p := []]
  {
    ghost var views := Views(chains);
    ClearChain(chains, p);
    ClearDirectory(dirs, p, views);
    ghost var after := views[p := []];
    forall q: nat ensures FilterAt(tables, after, q) { assert FilterAt(tables, views, q) && Log([]) == []; }
  }

  method ClearChain(chains: seq<Chain>, p: nat)
    requires (forall x, y :: 0 <= x < y < |chains| ==> chains[x] != chains[y]) && p < |chains| && ChainsOk(chains)
    modifies chains[p]
    ensures ChainsOk(chains) && chains[p].Valid() && Views(chains) == old(Views(chains))[p := []]
  {
    ghost var views := Views(chains);
    forall q: nat | q < |chains| ensures ChainAt(chains, q) && views[q] == chains[q].Nodes() { ViewAt(chains, q); }
    chains[p].ClearThread();
    assert Log([]) == [];
    forall q: nat ensures ChainAt(chains, q) { }
    forall q: nat | q < |chains| ensures Views(chains)[q] == views[p := []][q] { ViewAt(chains, q); }
  }

  method ClearDirectory(dirs: seq<LookupDirectory>, p: nat, ghost views: Chains)
    requires (forall x, y :: 0 <= x < y < |dirs| ==> dirs[x].slots != dirs[y].slots) && p < |dirs|
             && DirectoriesOk(dirs, views)
    modifies dirs[p].slots
    ensures DirectoriesOk(dirs, views[p := []])
  {
    forall q | 0 <= q < |dirs| ensures IndexOf(dirs[q], Log(views[q])) { assert DirectoryAt(dirs, views, q); }
    dirs[p].Clear();
    assert Log([]) == [];
    forall k ensures LastOf([], k) == if k in dirs[p].Map() then Some(dirs[p].Map()[k]) else None { }
    ghost var after := views[p := []];
    forall q: nat ensures DirectoryAt(dirs, after, q) { }
  }

  // ---------------------------------------------------------------- the indexes as a set and a map

  ghost predicate TableIs(table: HashMapTable, keys: set<int>)
    reads table, table.ht
  {
    table.Valid() && table.Map().Keys == keys && forall k :: k in table.Map() ==> table.Map()[k] >= 0
  }

  ghost predicate IndexIs(dir: LookupDirectory, m: Directory)
    reads dir, dir.slots
  {
    dir.Valid() && dir.Map() == m
  }

  ghost predicate TableAt(tables: seq<HashMapTable>, seen: seq<set<int>>, p: nat)
    reads tables, set q | 0 <= q < |tables| :: tables[q].ht
  {
    p < |tables| && p < |seen| ==> TableIs(tables[p], seen[p])
  }

  /** Every producer's pre-filter holds a set of keys. */
  ghost predicate TablesAre(tables: seq<HashMapTable>, seen: seq<set<int>>)
    reads tables, set q | 0 <= q < |tables| :: tables[q].ht
  {
    |tables| == |seen| && forall p {:trigger TableAt(tables, seen, p)} :: TableAt(tables, seen, p)
  }

  ghost predicate IndexAt(dirs: seq<LookupDirectory>, maps: seq<Directory>, p: nat)
    reads dirs, set q | 0 <= q < |dirs| :: dirs[q].slots
  {
    p < |dirs| && p < |maps| ==> IndexIs(dirs[p], maps[p])
  }

  /** Every producer's directory holds a map. */
  ghost predicate IndexesAre(dirs: seq<LookupDirectory>, maps: seq<Directory>)
    reads dirs, set q | 0 <= q < |dirs| :: dirs[q].slots
  {
    |dirs| == |maps| && forall p {:trigger IndexAt(dirs, maps, p)} :: IndexAt(dirs, maps, p)
  }

  /** hash[tid].Insert within capacity: the set gains the key. */
  method AddKey(tables: seq<HashMapTable>, p: nat, key: int, ghost seen: seq<set<int>>)
    requires (forall x, y :: 0 <= x < y < |tables| ==> tables[x].ht != tables[y].ht) && p < |tables|
    requires TablesAre(tables, seen) && (key in seen[p] || |seen[p]| < tables[p].ht.Length)
    modifies tables[p].ht
    ensures TablesAre(tables, seen[p := seen[p] + {key}])
  {
    forall q | 0 <= q < |tables| ensures TableIs(tables[q], seen[q]) { assert TableAt(tables, seen, q); }
    TableInsert(tables[p], key, p, seen[p]);
    OneTableChanged(tables, seen, p, seen[p] + {key});
  }

  lemma OneTableChanged(tables: seq<HashMapTable>, seen: seq<set<int>>, p: nat, keys: set<int>)
    requires |tables| == |seen| && p < |tables| && TableIs(tables[p], keys)
    requires forall q :: 0 <= q < |tables| && q != p ==> TableIs(tables[q], seen[q])
    ensures TablesAre(tables, seen[p := keys])
  {
    var seen' := seen[p := keys];
    forall q: nat ensures TableAt(tables, seen', q) { }
  }

  method TableInsert(table: HashMapTable, key: int, producer: nat, ghost keys: set<int>)
    requires TableIs(table, keys) && (key in keys || |keys| < table.ht.Length)
    modifies table.ht
    ensures TableIs(table, keys + {key})
  {
    assert |table.Map()| == |table.Map().Keys|;
    table.Insert(key, producer);
  }

  /** record_lookup within capacity: the map gains the operation. */
  method AddOp(dirs: seq<LookupDirectory>, p: nat, op: Op, ghost maps: seq<Directory>)
    requires (forall x, y :: 0 <= x < y < |dirs| ==> dirs[x].slots != dirs[y].slots) && p < |dirs|
    requires IndexesAre(dirs, maps) && (op.key in maps[p] || |maps[p]| < dirs[p].slots.Length)
    modifies dirs[p].slots
    ensures IndexesAre(dirs, maps[p := maps[p][op.key := op]])
  {
    forall q | 0 <= q < |dirs| ensures IndexIs(dirs[q], maps[q]) { assert IndexAt(dirs, maps, q); }
    dirs[p].Record(op);
    ghost var maps' := maps[p := maps[p][op.key := op]];
    forall q: nat ensures IndexAt(dirs, maps', q) { }
  }

  /** The index part of a drain: the directory is emptied. */
  method EmptyIndex(dirs: seq<LookupDirectory>, p: nat, ghost maps: seq<Directory>)
    requires (forall x, y :: 0 <= x < y < |dirs| ==> dirs[x].slots != dirs[y].slots) && p < |dirs|
    requires IndexesAre(dirs, maps)
    modifies dirs[p].slots
    ensures IndexesAre(dirs, maps[p := map[]])
  {
    forall q | 0 <= q < |dirs| ensures IndexIs(dirs[q], maps[q]) { assert IndexAt(dirs, maps, q); }
    dirs[p].Clear();
    ghost var maps' := maps[p := map[]];
    forall q: nat ensures IndexAt(dirs, maps', q) { }
  }

  /** With sets that cover the chains, the pre-filters have no false negatives. */
  lemma CoveringSetsFilter(tables: seq<HashMapTable>, seen: seq<set<int>>, views: Chains)
    requires TablesAre(tables, seen) && |views| == |seen|
    requires forall p, o {:trigger o in Log(views[p])} :: 0 <= p < |views| && o in Log(views[p]) ==> o.key in seen[p]
    ensures FiltersOk(tables, views)
  {
    forall p: nat ensures FilterAt(tables, views, p) { assert TableAt(tables, seen, p); }
  }
}
