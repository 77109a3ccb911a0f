/**
  The slot array of a B+-tree page, as a reader sees it.

  A page is an array of (key, ptr) slots closed by a null pointer. A slot is live only when its
  pointer differs from the pointer on its left, where the pointer left of slot 0 is the page's
  leftmost child (null in a leaf). While a writer shifts slots, the array holds the live entries
  plus at most one phantom: a slot that repeats the pointer on its left and carries any key.
  This module defines the live entries of an array and the four scans of linear_search, proves
  that every scan answers from the live entries alone, and that one phantom changes nothing.
 */
module RecordLists {
  const NULL := 0

  /** One 16-byte slot. The pointer is an 8-byte bucket: a leaf value or a page address. */
  datatype Rec = Rec(key: int, ptr: int)

  /** The pointer that a reader compares slot i against. */
  function LeftPtr(es: seq<Rec>, leftmost: int, i: nat): int
    requires i <= |es|
  {
    if i == 0 then leftmost else es[i - 1].ptr
  }

  ghost predicate Sorted(es: seq<Rec>) {
    forall i, j :: 0 <= i < j < |es| ==> es[i].key < es[j].key
  }

  ghost predicate DistinctPtrs(es: seq<Rec>, leftmost: int) {
    && (forall i :: 0 <= i < |es| ==> es[i].ptr != NULL && es[i].ptr != leftmost)
    && (forall i, j :: 0 <= i < j < |es| ==> es[i].ptr != es[j].ptr)
  }

  ghost predicate WellFormed(es: seq<Rec>, leftmost: int) {
    Sorted(es) && DistinctPtrs(es, leftmost)
  }

  ghost predicate HasKey(es: seq<Rec>, key: int) {
    exists i :: 0 <= i < |es| && es[i].key == key
  }

  /** The pointer stored under a key, or null. */
  function Find(es: seq<Rec>, key: int): int {
    if es == [] then NULL
    else if es[0].key == key then es[0].ptr
    else Find(es[1..], key)
  }

  /** How many entries have a key of at most `key`; in a sorted list, its insertion point. */
  function Rank(es: seq<Rec>, key: int): (r: nat)
    ensures r <= |es|
  {
    if es == [] || key < es[0].key then 0 else 1 + Rank(es[1..], key)
  }

  /** The child that an internal page selects for a key. */
  function Route(es: seq<Rec>, leftmost: int, key: int): int {
    LeftPtr(es, leftmost, Rank(es, key))
  }

  function InsertAt(es: seq<Rec>, r: Rec, pos: nat): seq<Rec>
    requires pos <= |es|
  {
    es[..pos] + [r] + es[pos..]
  }

  function Inserted(es: seq<Rec>, r: Rec): seq<Rec> {
    InsertAt(es, r, Rank(es, r.key))
  }

  function RemoveAt(es: seq<Rec>, pos: nat): seq<Rec>
    requires pos < |es|
  {
    es[..pos] + es[pos + 1..]
  }

  /** The entries without the one that has this key. */
  function Removed(es: seq<Rec>, key: int): seq<Rec> {
    var r := Rank(es, key);
    if r > 0 && es[r - 1].key == key then RemoveAt(es, r - 1) else es
  }

  // ---------------------------------------------------------------- lists

  lemma {:induction false} FindAt(es: seq<Rec>, i: nat)
    requires Sorted(es) && i < |es|
    ensures Find(es, es[i].key) == es[i].ptr
  {
    if i > 0 { FindAt(es[1..], i - 1); }
  }

  lemma {:induction false} FindAbsent(es: seq<Rec>, key: int)
    requires !HasKey(es, key)
    ensures Find(es, key) == NULL
  {
    if es != [] {
      FindAbsent(es[1..], key);
    }
  }

  /** The two facts that pin Rank down. */
  lemma {:induction false} RankSplits(es: seq<Rec>, key: int)
    requires Sorted(es)
    ensures forall i :: 0 <= i < Rank(es, key) ==> es[i].key <= key
    ensures forall i :: Rank(es, key) <= i < |es| ==> key < es[i].key
  {
    if es != [] && es[0].key <= key { RankSplits(es[1..], key); }
  }

  lemma {:induction false} RankUnique(es: seq<Rec>, key: int, pos: nat)
    requires Sorted(es) && pos <= |es|
    requires forall i :: 0 <= i < pos ==> es[i].key <= key
    requires forall i :: pos <= i < |es| ==> key < es[i].key
    ensures Rank(es, key) == pos
  {
    if pos > 0 { RankUnique(es[1..], key, pos - 1); }
  }

  /** In a sorted list, the entry just before a key's insertion point is the one that has the key, if any. */
  lemma RankFindsKey(es: seq<Rec>, key: int)
    requires Sorted(es)
    ensures HasKey(es, key) <==> Rank(es, key) > 0 && es[Rank(es, key) - 1].key == key
  {
    if HasKey(es, key) {
      var i :| 0 <= i < |es| && es[i].key == key;
      RankUnique(es, key, i + 1);
    }
  }

  lemma InsertedAt(es: seq<Rec>, r: Rec, i: nat)
    requires i <= |es|
    ensures |Inserted(es, r)| == |es| + 1
    ensures Inserted(es, r)[i]
         == var pos := Rank(es, r.key); if i < pos then es[i] else if i == pos then r else es[i - 1]
  {
  }

  lemma InsertedKeys(es: seq<Rec>, r: Rec, k: int)
    ensures HasKey(Inserted(es, r), k) <==> k == r.key || HasKey(es, k)
  {
    var pos, out := Rank(es, r.key), Inserted(es, r);
    assert out[pos].key == r.key;
    if HasKey(es, k) {
      var i :| 0 <= i < |es| && es[i].key == k;
      assert out[if i < pos then i else i + 1].key == k;
    }
    if HasKey(out, k) {
      var i :| 0 <= i < |out| && out[i].key == k;
      InsertedAt(es, r, i);
    }
  }

  /** Inserting a fresh key with a fresh pointer keeps the entries sorted and the pointers distinct. */
  lemma InsertedWellFormed(es: seq<Rec>, leftmost: int, r: Rec)
    requires WellFormed(es, leftmost) && !HasKey(es, r.key)
    requires r.ptr != NULL && r.ptr != leftmost
    requires forall i :: 0 <= i < |es| ==> es[i].ptr != r.ptr
    ensures WellFormed(Inserted(es, r), leftmost)
  {
    RankSplits(es, r.key);
    var pos, out := Rank(es, r.key), Inserted(es, r);
    forall i | 0 <= i < |out| ensures out[i].ptr != NULL && out[i].ptr != leftmost {
      InsertedAt(es, r, i);
    }
    forall i, j | 0 <= i < j < |out| ensures out[i].key < out[j].key && out[i].ptr != out[j].ptr {
      InsertedAt(es, r, i);
      InsertedAt(es, r, j);
    }
  }

  lemma RemovedWellFormed(es: seq<Rec>, leftmost: int, pos: nat)
    requires WellFormed(es, leftmost) && pos < |es|
    ensures WellFormed(RemoveAt(es, pos), leftmost)
    ensures forall k :: HasKey(RemoveAt(es, pos), k) <==> k != es[pos].key && HasKey(es, k)
  {
    var out := RemoveAt(es, pos);
    assert forall i :: 0 <= i < |out| ==> out[i] == if i < pos then es[i] else es[i + 1];
    forall k ensures HasKey(out, k) <==> k != es[pos].key && HasKey(es, k) { RemovedHasKey(es, pos, k); }
  }

  lemma RemovedHasKey(es: seq<Rec>, pos: nat, k: int)
    requires Sorted(es) && pos < |es|
    ensures HasKey(RemoveAt(es, pos), k) <==> k != es[pos].key && HasKey(es, k)
  {
    var out := RemoveAt(es, pos);
    assert forall i :: 0 <= i < |out| ==> out[i] == if i < pos then es[i] else es[i + 1];
    if HasKey(es, k) && k != es[pos].key {
      var i :| 0 <= i < |es| && es[i].key == k;
      assert out[if i < pos then i else i - 1].key == k;
    }
  }

  lemma RemovedAt(es: seq<Rec>, pos: nat)
    requires Sorted(es) && pos < |es|
    ensures Removed(es, es[pos].key) == RemoveAt(es, pos)
  {
    RankUnique(es, es[pos].key, pos + 1);
  }

  lemma RemovedAbsent(es: seq<Rec>, key: int)
    requires !HasKey(es, key)
    ensures Removed(es, key) == es
  {
  }

  // ---------------------------------------------------------------- arrays

  /** The live entries from slot i on: a null pointer past slot 0 ends the page. */
  function LiveFrom(recs: seq<Rec>, leftmost: int, i: nat): seq<Rec>
    decreases |recs| - i
  {
    if i >= |recs| || (i > 0 && recs[i].ptr == NULL) then []
    else
      (if recs[i].ptr != NULL && recs[i].ptr != LeftPtr(recs, leftmost, i) then [recs[i]] else [])
      + LiveFrom(recs, leftmost, i + 1)
  }

  function Live(recs: seq<Rec>, leftmost: int): seq<Rec> {
    LiveFrom(recs, leftmost, 0)
  }

  /** The live entries among the first c slots, as the right-to-left scans see them. */
  function LiveBefore(recs: seq<Rec>, leftmost: int, c: nat): seq<Rec>
    requires c <= |recs|
  {
    if c == 0 then []
    else
      LiveBefore(recs, leftmost, c - 1)
      + (if recs[c - 1].ptr != NULL && recs[c - 1].ptr != LeftPtr(recs, leftmost, c - 1) then [recs[c - 1]] else [])
  }

  /** The array holds exactly the entries, then a null pointer (two, when it is empty). */
  ghost predicate Plain(recs: seq<Rec>, es: seq<Rec>) {
    && |es| < |recs|
    && (forall i :: 0 <= i < |es| ==> recs[i] == es[i])
    && recs[|es|].ptr == NULL
    && (es == [] ==> |recs| > 1 && recs[1].ptr == NULL)
  }

  /** The array holds the entries with one phantom slot before entry j. */
  ghost predicate WithPhantom(recs: seq<Rec>, leftmost: int, es: seq<Rec>, j: nat) {
    && j <= |es|
    && |es| + 1 < |recs|
    && (forall i :: 0 <= i < j ==> recs[i] == es[i])
    && recs[j].ptr == LeftPtr(es, leftmost, j)
    && (forall i :: j < i <= |es| ==> recs[i] == es[i - 1])
    && recs[|es| + 1].ptr == NULL
  }

  lemma {:induction false} PlainLiveFrom(recs: seq<Rec>, leftmost: int, es: seq<Rec>, i: nat)
    requires Plain(recs, es) && DistinctPtrs(es, leftmost) && i <= |es|
    ensures LiveFrom(recs, leftmost, i) == es[i..]
    decreases |es| - i
  {
    if i < |es| {
      PlainLiveFrom(recs, leftmost, es, i + 1);
      assert recs[i].ptr != LeftPtr(recs, leftmost, i);
      assert es[i..] == [es[i]] + es[i + 1..];
    }
  }

  lemma {:induction false} PhantomLiveFrom(recs: seq<Rec>, leftmost: int, es: seq<Rec>, j: nat, i: nat)
    requires WithPhantom(recs, leftmost, es, j) && DistinctPtrs(es, leftmost) && i <= |es| + 1
    ensures LiveFrom(recs, leftmost, i) == es[if i <= j then i else i - 1..]
    decreases |es| + 1 - i
  {
    if i > j {
      LiveBehindPhantom(recs, leftmost, es, j, i);
    } else {
      PhantomLiveFrom(recs, leftmost, es, j, i + 1);
      if i < j {
        assert recs[i].ptr != LeftPtr(recs, leftmost, i);
        assert es[i..] == [es[i]] + es[i + 1..];
      } else {
        assert recs[i].ptr == LeftPtr(recs, leftmost, i);
      }
    }
  }

  lemma {:induction false} LiveBehindPhantom(recs: seq<Rec>, leftmost: int, es: seq<Rec>, j: nat, i: nat)
    requires WithPhantom(recs, leftmost, es, j) && DistinctPtrs(es, leftmost) && j < i <= |es| + 1
    ensures LiveFrom(recs, leftmost, i) == es[i - 1..]
    decreases |es| + 1 - i
  {
    if i <= |es| {
      LiveBehindPhantom(recs, leftmost, es, j, i + 1);
      assert recs[i] == es[i - 1] && recs[i].ptr != LeftPtr(recs, leftmost, i);
      assert es[i - 1..] == [es[i - 1]] + es[i..];
    }
  }

  /** Right to left: the first c slots show the first entries, with the phantom dropped. */
  lemma {:induction false} PhantomLiveBefore(recs: seq<Rec>, leftmost: int, es: seq<Rec>, j: nat, c: nat)
    requires WithPhantom(recs, leftmost, es, j) && DistinctPtrs(es, leftmost) && c <= |es| + 1
    ensures LiveBefore(recs, leftmost, c) == es[..if c <= j then c else c - 1]
  {
    if c > 0 {
      PhantomLiveBefore(recs, leftmost, es, j, c - 1);
      var i := c - 1;
      if i < j {
        assert recs[i].ptr != LeftPtr(recs, leftmost, i);
        assert es[..c] == es[..i] + [es[i]];
      } else if i == j {
        assert recs[i].ptr == LeftPtr(recs, leftmost, i);
      } else {
        assert recs[i] == es[i - 1] && recs[i].ptr != LeftPtr(recs, leftmost, i);
        assert es[..i] == es[..i - 1] + [es[i - 1]];
      }
    }
  }

  lemma {:induction false} PlainLiveBefore(recs: seq<Rec>, leftmost: int, es: seq<Rec>, c: nat)
    requires Plain(recs, es) && DistinctPtrs(es, leftmost) && c <= |es| + 1
    ensures LiveBefore(recs, leftmost, c) == es[..if c <= |es| then c else |es|]
  {
    if c > 0 {
      PlainLiveBefore(recs, leftmost, es, c - 1);
      if c <= |es| {
        assert recs[c - 1].ptr != LeftPtr(recs, leftmost, c - 1);
        assert es[..c] == es[..c - 1] + [es[c - 1]];
      }
    }
  }

  // ---------------------------------------------------------------- the scans of linear_search

  /** Leaf, left to right, from slot i on. */
  function LeafForwardFrom(recs: seq<Rec>, key: int, i: nat): int
    requires 1 <= i
    decreases |recs| - i
  {
    if i >= |recs| || recs[i].ptr == NULL then NULL
    else if recs[i].key == key && recs[i - 1].ptr != recs[i].ptr then recs[i].ptr
    else LeafForwardFrom(recs, key, i + 1)
  }

  function LeafForward(recs: seq<Rec>, key: int): int
    requires recs != []
  {
    if recs[0].key == key && recs[0].ptr != NULL then recs[0].ptr else LeafForwardFrom(recs, key, 1)
  }

  /** Leaf, right to left, over the slots before i. */
  function LeafBackwardFrom(recs: seq<Rec>, key: int, i: nat): int
    requires i <= |recs| && recs != []
  {
    if i <= 1 then
      if recs[0].key == key then recs[0].ptr else NULL
    else if recs[i - 1].key == key && recs[i - 2].ptr != recs[i - 1].ptr && recs[i - 1].ptr != NULL then
      recs[i - 1].ptr
    else
      LeafBackwardFrom(recs, key, i - 1)
  }

  /** Internal page, left to right, from slot i on. */
  function InternalForwardFrom(recs: seq<Rec>, key: int, i: nat): int
    requires 1 <= i <= |recs|
    decreases |recs| - i
  {
    if i == |recs| || recs[i].ptr == NULL then recs[i - 1].ptr
    else if key < recs[i].key && recs[i - 1].ptr != recs[i].ptr then recs[i - 1].ptr
    else InternalForwardFrom(recs, key, i + 1)
  }

  function InternalForward(recs: seq<Rec>, leftmost: int, key: int): int
    requires recs != []
  {
    if key < recs[0].key && leftmost != recs[0].ptr then leftmost else InternalForwardFrom(recs, key, 1)
  }

  /** Internal page, right to left, over the slots before i; null when no slot qualifies. */
  function InternalBackwardFrom(recs: seq<Rec>, leftmost: int, key: int, i: nat): int
    requires i <= |recs|
  {
    if i == 0 then NULL
    else if recs[i - 1].key <= key && LeftPtr(recs, leftmost, i - 1) != recs[i - 1].ptr then recs[i - 1].ptr
    else InternalBackwardFrom(recs, leftmost, key, i - 1)
  }

  // ---------------------------------------------------------------- scans answer from the live entries

  lemma {:induction false} LeafForwardFromLive(recs: seq<Rec>, key: int, i: nat)
    requires 1 <= i
    ensures LeafForwardFrom(recs, key, i) == Find(LiveFrom(recs, NULL, i), key)
    decreases |recs| - i
  {
    if i < |recs| && recs[i].ptr != NULL {
      LeafForwardFromLive(recs, key, i + 1);
      var rest := LiveFrom(recs, NULL, i + 1);
      assert ([recs[i]] + rest)[1..] == rest;
      assert [] + rest == rest;
    }
  }

  /** The left-to-right leaf scan returns the pointer of the live entry with the key, or null. */
  lemma LeafForwardLive(recs: seq<Rec>, key: int)
    requires recs != []
    ensures LeafForward(recs, key) == Find(Live(recs, NULL), key)
  {
    LeafForwardFromLive(recs, key, 1);
    var rest := LiveFrom(recs, NULL, 1);
    assert ([recs[0]] + rest)[1..] == rest;
    assert [] + rest == rest;
  }

  function FindLast(es: seq<Rec>, key: int): int {
    if es == [] then NULL
    else if es[|es| - 1].key == key then es[|es| - 1].ptr
    else FindLast(es[..|es| - 1], key)
  }

  lemma {:induction false} FindLastIsFind(es: seq<Rec>, key: int)
    requires Sorted(es)
    ensures FindLast(es, key) == Find(es, key)
  {
    if es != [] {
      var n := |es| - 1;
      if es[n].key == key {
        FindAt(es, n);
      } else {
        FindLastIsFind(es[..n], key);
        if HasKey(es, key) {
          var i :| 0 <= i < |es| && es[i].key == key;
          FindAt(es, i);
          FindAt(es[..n], i);
        } else {
          assert !HasKey(es[..n], key);
          FindAbsent(es, key);
          FindAbsent(es[..n], key);
        }
      }
    }
  }

  /** The right-to-left leaf scan over c slots returns the last live entry with the key, or null. */
  lemma {:induction false} LeafBackwardLive(recs: seq<Rec>, key: int, c: nat)
    requires 1 <= c <= |recs|
    ensures LeafBackwardFrom(recs, key, c) == FindLast(LiveBefore(recs, NULL, c), key)
  {
    if c > 1 {
      LeafBackwardLive(recs, key, c - 1);
    }
    var front := LiveBefore(recs, NULL, c - 1);
    assert (front + [recs[c - 1]])[..|front|] == front;
    assert front + [] == front;
    if c == 1 { assert front == []; }
  }

  /** Routing one entry at a time, from the left. */
  lemma RouteStep(es: seq<Rec>, leftmost: int, key: int)
    ensures Route(es, leftmost, key)
         == if es == [] || key < es[0].key then leftmost else Route(es[1..], es[0].ptr, key)
  {
  }

  lemma {:induction false} InternalForwardFromLive(recs: seq<Rec>, leftmost: int, key: int, i: nat)
    requires 1 <= i <= |recs|
    ensures InternalForwardFrom(recs, key, i) == Route(LiveFrom(recs, leftmost, i), recs[i - 1].ptr, key)
    decreases |recs| - i
  {
    if i < |recs| && recs[i].ptr != NULL {
      InternalForwardFromLive(recs, leftmost, key, i + 1);
      var rest := LiveFrom(recs, leftmost, i + 1);
      RouteStep(LiveFrom(recs, leftmost, i), recs[i - 1].ptr, key);
      assert ([recs[i]] + rest)[1..] == rest;
      assert [] + rest == rest;
    }
  }

  /** The left-to-right scan of an internal page takes the route of the live entries. */
  lemma InternalForwardLive(recs: seq<Rec>, leftmost: int, key: int)
    requires recs != [] && leftmost != NULL && recs[0].ptr != NULL
    ensures InternalForward(recs, leftmost, key) == Route(Live(recs, leftmost), leftmost, key)
  {
    InternalForwardFromLive(recs, leftmost, key, 1);
    var rest := LiveFrom(recs, leftmost, 1);
    RouteStep(Live(recs, leftmost), leftmost, key);
    assert ([recs[0]] + rest)[1..] == rest;
    assert [] + rest == rest;
  }

  /** The right-to-left scan of a settled internal page takes the route of its entries. */
  lemma {:induction false} InternalBackwardPlain(recs: seq<Rec>, es: seq<Rec>, leftmost: int, key: int, c: nat)
    requires Plain(recs, es) && WellFormed(es, leftmost) && Rank(es, key) <= c <= |es|
    ensures InternalBackwardFrom(recs, leftmost, key, c)
         == if Rank(es, key) == 0 then NULL else Route(es, leftmost, key)
  {
    RankSplits(es, key);
    if Rank(es, key) < c {
      InternalBackwardPlain(recs, es, leftmost, key, c - 1);
    } else if c > 0 {
      assert LeftPtr(recs, leftmost, c - 1) != recs[c - 1].ptr;
    }
  }
}
