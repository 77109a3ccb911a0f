/**
  The pages of the tree are values; here they are what the arrays of records hold. Every operation that
  changes an array store by store leaves what the operation on the value says, the keys of the slots
  behind the entries included, since a reader of an emptied page still meets the first of them.
 */
module PageLayout {
  import opened RecordLists
  import Pages
  import Splits
  import TreeShape

  /** The slots hold the entries, and behind them the keys that remain there. */
  ghost predicate Lays(recs: seq<Rec>, p: TreeShape.Page) {
    && |recs| == |p.es| + |p.stale| && recs[..|p.es|] == p.es
    && forall i :: 0 <= i < |p.stale| ==> recs[|p.es| + i].key == p.stale[i]
  }

  /** The array stands for the value. */
  ghost predicate Stands(page: Pages.Page, p: TreeShape.Page)
    reads page, page.records
  {
    && page.Valid() && page.Entries() == p.es && page.leftmost == p.leftmost && page.level == p.level
    && Lays(page.records[..], p)
  }

  /** What a neighbour loads from slot 0, whether it holds an entry or not. */
  lemma FirstSlot(recs: seq<Rec>, p: TreeShape.Page)
    requires Lays(recs, p) && recs != []
    ensures TreeShape.FirstKey(p) == recs[0].key
  {
    if p.es == [] { assert recs[|p.es| + 0].key == p.stale[0]; }
  }

  lemma EntryLays(recs: seq<Rec>, recs': seq<Rec>, p: TreeShape.Page, r: Rec)
    requires Lays(recs, p) && |recs'| == |recs| && |p.es| + 1 < |recs|
    requires recs'[..|p.es| + 1] == Inserted(p.es, r)
    requires forall x :: |p.es| < x < |recs| ==> recs'[x].key == recs[x].key
    ensures Lays(recs', TreeShape.WithEntry(p, r))
  {
    var p' := TreeShape.WithEntry(p, r);
    forall i | 0 <= i < |p'.stale| ensures recs'[|p'.es| + i].key == p'.stale[i] {
      assert recs[|p.es| + (i + 1)].key == p.stale[i + 1];
    }
  }

  lemma RemovalLays(recs: seq<Rec>, recs': seq<Rec>, p: TreeShape.Page, k: int)
    requires Lays(recs, p) && |recs'| == |recs| && p.stale != [] && p.es != []
    requires recs'[..|p.es| - 1] == Removed(p.es, k) && recs'[|p.es| - 1].key == recs[|p.es|].key
    requires forall x :: |p.es| <= x < |recs| ==> recs'[x] == recs[x]
    ensures Lays(recs', TreeShape.WithoutKey(p, k))
  {
    var p' := TreeShape.WithoutKey(p, k);
    forall i | 0 <= i < |p'.stale| ensures recs'[|p'.es| + i].key == p'.stale[i] {
      assert recs[|p.es| + 0].key == p.stale[0];
      if i > 0 { assert recs[|p.es| + (i - 1)].key == p.stale[i - 1]; }
    }
  }

  lemma CutLays(recs: seq<Rec>, recs': seq<Rec>, p: TreeShape.Page, m: nat, s: int)
    requires Lays(recs, p) && |recs'| == |recs| && m < |p.es| && recs'[..m] == p.es[..m]
    requires forall x :: m <= x < |recs| ==> recs'[x].key == recs[x].key
    ensures Lays(recs', TreeShape.LeftHalf(p, m, s))
  {
    var p' := TreeShape.LeftHalf(p, m, s);
    forall i | 0 <= i < |p'.stale| ensures recs'[|p'.es| + i].key == p'.stale[i] {
      if m + i < |p.es| {
        assert recs[..|p.es|][m + i] == p.es[m + i] == p.es[m..][i];
      } else {
        assert recs[|p.es| + (m + i - |p.es|)].key == p.stale[m + i - |p.es|];
      }
    }
  }

  // ---------------------------------------------------------------- the operations

  /** insert_key. */
  method Insert(page: Pages.Page, ghost p: TreeShape.Page, key: int, ptr: int, n: nat)
    requires Stands(page, p) && n == |p.es| < page.records.Length - 1
    requires !HasKey(p.es, key) && ptr != NULL && ptr != p.leftmost
    requires forall i :: 0 <= i < n ==> p.es[i].ptr != ptr
    modifies page`history, page`lastIndex, page`switchCounter, page.records
    ensures Stands(page, TreeShape.WithEntry(p, Rec(key, ptr)))
  {
    ghost var before := page.records[..];
    var _ := page.InsertKey(key, ptr, n);
    InsertedAt(p.es, Rec(key, ptr), 0);
    EntryLays(before, page.records[..], p, Rec(key, ptr));
  }

  /** remove_key. */
  method Remove(page: Pages.Page, ghost p: TreeShape.Page, key: int) returns (removed: bool)
    requires Stands(page, p)
    modifies page`history, page`lastIndex, page`switchCounter, page.records
    ensures removed <==> HasKey(p.es, key)
    ensures Stands(page, if removed then TreeShape.WithoutKey(p, key) else p)
  {
    ghost var before := page.records[..];
    ghost var commit;
    removed, commit := page.RemoveKey(key);
    if removed {
      ghost var i :| 0 <= i < |p.es| && p.es[i].key == key;
      RemovedAt(p.es, i);
      RemovalLays(before, page.records[..], p, key);
    }
  }

  /** The part of a leaf split that leaves two pages: the sibling is filled and linked, and the page cut. */
  method SplitLeaf(page: Pages.Page, ghost p: TreeShape.Page, m: nat, n: nat, ghost s: int) returns (sib: Pages.Page)
    requires Stands(page, p) && p.level == 0 && p.leftmost == NULL && 0 < m < n == |p.es|
    modifies page, page.records
    ensures fresh(sib) && fresh(sib.records) && page.sibling == sib && sib.sibling == old(page.sibling)
    ensures Stands(page, TreeShape.LeftHalf(p, m, s))
    ensures Stands(sib, TreeShape.RightHalf(p, m, page.records.Length))
  {
    ghost var before := page.records[..];
    sib := Splits.LinkAndCut(page, m, n, p.es);
    CutLays(before, page.records[..], p, m, s);
  }
}
