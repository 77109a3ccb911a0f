/**
  The drain-start snapshot of an F3-N replay: all directory entries are collected, sorted by key and
  sequence, and reduced to the newest entry of every key.
 */
module LatestEntries {
  import opened Ops
  import opened Replays

  // ---------------------------------------------------------------- sorting by key, then sequence

  predicate EntryBefore(a: Op, b: Op) {
    a.key < b.key || (a.key == b.key && a.sequence < b.sequence)
  }

  function InsertEntry(s: seq<Op>, e: Op): seq<Op> {
    if s == [] || EntryBefore(e, s[0]) then [e] + s else [s[0]] + InsertEntry(s[1..], e)
  }

  /** std::sort with that comparator. */
  function SortEntries(s: seq<Op>): seq<Op> {
    if s == [] then [] else InsertEntry(SortEntries(s[1..]), s[0])
  }

  ghost predicate SortedEntries(s: seq<Op>) {
    forall i, j :: 0 <= i < j < |s| ==> !EntryBefore(s[j], s[i])
  }

  lemma {:induction false} InsertEntryMembers(s: seq<Op>, e: Op)
    ensures forall o :: o in InsertEntry(s, e) <==> o == e || o in s
  {
    if s != [] && !EntryBefore(e, s[0]) { InsertEntryMembers(s[1..], e); }
  }

  lemma {:induction false} InsertEntrySorted(s: seq<Op>, e: Op)
    requires SortedEntries(s)
    ensures SortedEntries(InsertEntry(s, e))
  {
    if s != [] && !EntryBefore(e, s[0]) {
      InsertEntrySorted(s[1..], e);
      InsertEntryMembers(s[1..], e);
      var rest := InsertEntry(s[1..], e);
      forall i | 0 <= i < |rest| ensures !EntryBefore(rest[i], s[0]) {
        assert rest[i] in rest;
        assert rest[i] == e || rest[i] in s[1..];
      }
    }
  }

  lemma {:induction false} SortEntriesSorts(s: seq<Op>)
    ensures SortedEntries(SortEntries(s)) && forall o :: o in SortEntries(s) <==> o in s
  {
    if s != [] {
      SortEntriesSorts(s[1..]);
      InsertEntrySorted(SortEntries(s[1..]), s[0]);
      InsertEntryMembers(SortEntries(s[1..]), s[0]);
    }
  }

  // ---------------------------------------------------------------- one entry per key

  /** The list holds, in key order, one newest entry for every key of the entries read so far. */
  ghost predicate Summary(latest: seq<Op>, done: seq<Op>) {
    && (forall i, j :: 0 <= i < j < |latest| ==> latest[i].key < latest[j].key)
    && (forall e :: e in latest ==> IsLatest(done, e.key, Some(e)))
    && (forall o :: o in done ==> HasEntry(latest, o.key))
    && (latest == [] <==> done == [])
    && (done != [] ==> latest[|latest| - 1].key == done[|done| - 1].key)
  }

  ghost predicate HasEntry(latest: seq<Op>, k: int) {
    exists i :: 0 <= i < |latest| && latest[i].key == k
  }

  /** An entry with a new key goes behind; one with the last key takes the last one's place. */
  function Updated(latest: seq<Op>, e: Op): seq<Op> {
    var n := |latest| - 1;
    if latest == [] || latest[n].key != e.key then latest + [e] else latest[n := e]
  }

  lemma UpdatedAscends(latest: seq<Op>, done: seq<Op>, e: Op)
    requires Summary(latest, done) && SortedEntries(done + [e])
    ensures var after := Updated(latest, e); forall i, j :: 0 <= i < j < |after| ==> after[i].key < after[j].key
  {
    if latest != [] {
      assert latest[|latest| - 1] in latest;
      NoneAfter(done, e, latest[|latest| - 1]);
    }
  }

  lemma UpdatedIsLatest(latest: seq<Op>, done: seq<Op>, e: Op, i: nat)
    requires Summary(latest, done) && SortedEntries(done + [e]) && i < |Updated(latest, e)|
    ensures var f := Updated(latest, e)[i]; IsLatest(done + [e], f.key, Some(f))
  {
    if i == |Updated(latest, e)| - 1 {
      NewestComesLast(done, e);
    } else {
      assert latest[i] in latest;
      LaterKey(latest, done, e, i);
      StaysLatest(done, e, latest[i]);
    }
  }

  lemma NewestComesLast(done: seq<Op>, e: Op)
    requires SortedEntries(done + [e])
    ensures IsLatest(done + [e], e.key, Some(e))
  {
    forall o | o in done && o.key == e.key ensures o.sequence <= e.sequence { NoneAfter(done, e, o); }
  }

  lemma StaysLatest(done: seq<Op>, e: Op, f: Op)
    requires IsLatest(done, f.key, Some(f)) && f.key != e.key
    ensures IsLatest(done + [e], f.key, Some(f))
  {
  }

  lemma SummaryStep(latest: seq<Op>, done: seq<Op>, e: Op)
    requires Summary(latest, done) && SortedEntries(done + [e])
    ensures Summary(Updated(latest, e), done + [e])
  {
    var after := Updated(latest, e);
    UpdatedAscends(latest, done, e);
    forall f | f in after ensures IsLatest(done + [e], f.key, Some(f)) {
      var i :| 0 <= i < |after| && after[i] == f;
      UpdatedIsLatest(latest, done, e, i);
    }
    forall o | o in done + [e] ensures HasEntry(after, o.key) {
      if o in done { assert HasEntry(latest, o.key); }
      UpdatedHas(latest, e, o.key);
    }
  }

  lemma UpdatedHas(latest: seq<Op>, e: Op, key: int)
    requires key == e.key || HasEntry(latest, key)
    ensures HasEntry(Updated(latest, e), key)
  {
    var after := Updated(latest, e);
    if key == e.key {
      assert after[|after| - 1].key == key;
    } else {
      var i :| 0 <= i < |latest| && latest[i].key == key;
      assert after[i].key == key;
    }
  }

  lemma NoneAfter(done: seq<Op>, e: Op, o: Op)
    requires SortedEntries(done + [e]) && o in done
    ensures !EntryBefore(e, o)
  {
    var i :| 0 <= i < |done| && done[i] == o;
    var all := done + [e];
    assert all[i] == o && all[|done|] == e;
  }

  /** An entry that stays in the list keeps being the newest of its key. */
  lemma LaterKey(latest: seq<Op>, done: seq<Op>, e: Op, i: nat)
    requires Summary(latest, done) && i < |latest| && SortedEntries(done + [e])
    requires i < |latest| - 1 || latest[i].key != e.key
    ensures latest[i].key != e.key
  {
    assert latest[|latest| - 1] in latest && latest[i] in latest;
    NoneAfter(done, e, latest[|latest| - 1]);
  }

  lemma SummaryNext(latest: seq<Op>, entries: seq<Op>, i: nat)
    requires i < |entries| && SortedEntries(entries) && Summary(latest, entries[..i])
    ensures Summary(Updated(latest, entries[i]), entries[..i + 1])
  {
    assert entries[..i] + [entries[i]] == entries[..i + 1];
    SummaryStep(latest, entries[..i], entries[i]);
  }

  /** The deduplication loop. */
  method Deduplicate(entries: seq<Op>) returns (latest: seq<Op>)
    requires SortedEntries(entries)
    ensures Summary(latest, entries)
  {
    latest := [];
    for i := 0 to |entries|
      invariant Summary(latest, entries[..i])
    {
      SummaryNext(latest, entries, i);
      latest := Updated(latest, entries[i]);
    }
    assert entries[..|entries|] == entries;
  }

  // ---------------------------------------------------------------- the snapshot as a map

  /** The entries of one directory, in any order. */
  ghost predicate Enumerates(entries: seq<Op>, dir: Directory) {
    && (forall k :: k in dir ==> dir[k].key == k && dir[k] in entries)
    && (forall e :: e in entries ==> e.key in dir && dir[e.key] == e)
  }

  ghost predicate EnumeratesAll(collected: seq<seq<Op>>, dirs: seq<Directory>) {
    |collected| == |dirs| &&
    forall p {:trigger Enumerates(collected[p], dirs[p])} :: 0 <= p < |dirs| ==> Enumerates(collected[p], dirs[p])
  }

  /** Two entries with one sequence are the same operation. */
  ghost predicate NoTies(dirs: seq<Directory>) {
    forall p, q {:trigger TieFree(dirs[p], dirs[q])} :: 0 <= p < |dirs| && 0 <= q < |dirs| ==> TieFree(dirs[p], dirs[q])
  }

  ghost predicate TieFree(a: Directory, b: Directory) {
    forall k :: k in a && k in b && a[k].sequence == b[k].sequence ==> a[k] == b[k]
  }

  function Joined(collected: seq<seq<Op>>): seq<Op> {
    if collected == [] then [] else Joined(collected[..|collected| - 1]) + collected[|collected| - 1]
  }

  /** The merged directory holds, of every key, an entry that no directory has a newer one for. */
  lemma {:induction false} MergedIsLatest(dirs: seq<Directory>, collected: seq<seq<Op>>, k: int)
    requires EnumeratesAll(collected, dirs)
    ensures IsLatest(Joined(collected), k, if k in Merged(dirs) then Some(Merged(dirs)[k]) else None)
  {
    if dirs != [] {
      var n := |dirs| - 1;
      assert EnumeratesAll(collected[..n], dirs[..n]) by {
        forall p | 0 <= p < n ensures Enumerates(collected[..n][p], dirs[..n][p]) {
          assert Enumerates(collected[p], dirs[p]);
        }
      }
      MergedIsLatest(dirs[..n], collected[..n], k);
      assert Enumerates(collected[n], dirs[n]);
    }
  }

  lemma {:induction false} JoinedMember(collected: seq<seq<Op>>, e: Op)
    ensures e in Joined(collected) <==> exists p :: 0 <= p < |collected| && e in collected[p]
  {
    if collected != [] {
      var n := |collected| - 1;
      JoinedMember(collected[..n], e);
      if p :| 0 <= p < n && e in collected[p] { assert e in collected[..n][p]; }
      if e in Joined(collected[..n]) {
        var p :| 0 <= p < n && e in collected[..n][p];
        assert e in collected[p];
      }
    }
  }

  /** The list of newest entries stands for the merged directory. */
  ghost predicate Represents(latest: seq<Op>, m: Directory) {
    && (forall i, j :: 0 <= i < j < |latest| ==> latest[i].key < latest[j].key)
    && (forall e :: e in latest ==> e.key in m && m[e.key] == e)
    && (forall k :: k in m ==> m[k].key == k && m[k] in latest)
  }

  lemma SummaryRepresents(latest: seq<Op>, sorted: seq<Op>, collected: seq<seq<Op>>, dirs: seq<Directory>)
    requires EnumeratesAll(collected, dirs) && NoTies(dirs)
    requires Summary(latest, sorted) && forall o :: o in sorted <==> o in Joined(collected)
    ensures Represents(latest, Merged(dirs))
  {
    var all, m := Joined(collected), Merged(dirs);
    forall e | e in latest ensures e.key in m && m[e.key] == e {
      assert IsLatest(sorted, e.key, Some(e));
      MergedIsLatest(dirs, collected, e.key);
      SameNewest(collected, dirs, e, m);
    }
    forall k | k in m ensures m[k].key == k && m[k] in latest {
      MergedIsLatest(dirs, collected, k);
      assert m[k] in sorted;
      var i :| 0 <= i < |latest| && latest[i].key == k;
      assert latest[i] in latest;
    }
  }

  lemma SameNewest(collected: seq<seq<Op>>, dirs: seq<Directory>, e: Op, m: Directory)
    requires EnumeratesAll(collected, dirs) && NoTies(dirs) && IsLatest(Joined(collected), e.key, Some(e))
    requires IsLatest(Joined(collected), e.key, if e.key in m then Some(m[e.key]) else None)
    ensures e.key in m && m[e.key] == e
  {
    var f := m[e.key];
    JoinedMember(collected, e);
    JoinedMember(collected, f);
    var p :| 0 <= p < |collected| && e in collected[p];
    var q :| 0 <= q < |collected| && f in collected[q];
    assert Enumerates(collected[p], dirs[p]) && Enumerates(collected[q], dirs[q]) && TieFree(dirs[p], dirs[q]);
  }

  /** collect_latest_lookup_entries. */
  method CollectLatest(collected: seq<seq<Op>>, ghost dirs: seq<Directory>) returns (latest: seq<Op>)
    requires EnumeratesAll(collected, dirs) && NoTies(dirs)
    ensures Represents(latest, Merged(dirs))
  {
    var entries := [];
    for p := 0 to |collected|
      invariant entries == Joined(collected[..p])
    {
      assert collected[..p + 1][..p] == collected[..p];
      entries := entries + collected[p];
    }
    assert collected[..|collected|] == collected;
    SortEntriesSorts(entries);
    latest := Deduplicate(SortEntries(entries));
    SummaryRepresents(latest, SortEntries(entries), collected, dirs);
  }

  /** is_latest_buffered_op: the first entry with the key decides. */
  method IsLatestOp(op: Op, latest: seq<Op>, ghost m: Directory) returns (r: bool)
    requires Represents(latest, m)
    ensures r == IsLatestEntry(op, m)
  {
    for i := 0 to |latest|
      invariant forall j :: 0 <= j < i ==> latest[j].key != op.key
    {
      assert latest[i] in latest;
      if latest[i].key != op.key { continue; }
      return latest[i].sequence == op.sequence && latest[i].isDelete == op.isDelete;
    }
    r := false;
  }
}
