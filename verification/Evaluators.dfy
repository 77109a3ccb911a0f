/**
  How producers are divided among evaluator threads and among the slots of a key-partitioned replay.
 */
module Evaluators {
  import opened Replays

  // ---------------------------------------------------------------- evaluators and producers

  /** The largest number that every worker can have. */
  function Chunk(workers: nat, total: nat): (chunk: nat)
    requires workers > 0
    ensures chunk * workers <= total < (chunk + 1) * workers
  {
    DivisionFacts(total, workers);
    total / workers
  }

  /** The producers of a worker are those from First to the next worker's First. */
  function First(worker: nat, workers: nat, total: nat): nat
    requires workers > 0
  {
    worker * Chunk(workers, total)
  }

  function End(worker: nat, workers: nat, total: nat): nat
    requires workers > 0
  {
    if worker + 1 == workers then total else First(worker, workers, total) + Chunk(workers, total)
  }

  ghost predicate Owns(worker: nat, workers: nat, total: nat, p: nat)
    requires workers > 0
  {
    First(worker, workers, total) <= p < End(worker, workers, total)
  }

  /** producers_for_evaluator. */
  method ProducersForEvaluator(worker: nat, workers: nat, total: nat) returns (producers: seq<nat>)
    ensures workers == 0 || total == 0 ==> producers == []
    ensures workers > 0 && total > 0 ==>
            Distinct(producers) && forall p: nat :: p in producers <==> Owns(worker, workers, total, p)
    ensures workers > 0 && total > 0 && worker + 1 < workers ==>
            |producers| * workers <= total < (|producers| + 1) * workers
    ensures workers > 0 && total > 0 && worker + 1 == workers ==>
            producers != [] && producers[|producers| - 1] == total - 1
    ensures forall i :: 0 <= i < |producers| ==> producers[i] == producers[0] + i
  {
    producers := [];
    if workers == 0 || total == 0 { return; }
    var start, end := First(worker, workers, total), End(worker, workers, total);
    if worker + 1 == workers { LastStarts(workers, total); }
    assert start <= end;
    for i := start to end
      invariant |producers| == i - start && forall j :: 0 <= j < |producers| ==> producers[j] == start + j
    {
      producers := producers + [i];
    }
    forall p: nat ensures p in producers <==> start <= p < end {
      if start <= p < end { assert producers[p - start] == p; }
    }
  }

  lemma LastStarts(workers: nat, total: nat)
    requires workers > 0
    ensures First(workers - 1, workers, total) <= total
    ensures total > 0 ==> First(workers - 1, workers, total) < total
  {
    var chunk := Chunk(workers, total);
    assert (workers - 1) * chunk == chunk * workers - chunk;
  }

  lemma DivisionFacts(i: nat, c: nat)
    requires c > 0
    ensures (i / c) * c <= i < (i / c) * c + c
  {
    assert i == (i / c) * c + i % c;
  }

  lemma Cancel(a: nat, b: nat, c: nat)
    requires a * c < b * c
    ensures a < b
  {
    if a >= b { Monotone(b, a, c); }
  }

  lemma Monotone(a: nat, b: nat, chunk: nat)
    requires a <= b
    ensures a * chunk <= b * chunk
  {
    assert b * chunk == a * chunk + (b - a) * chunk;
  }

  /** The worker that owns a producer. */
  function Owner(workers: nat, total: nat, p: nat): (w: nat)
    requires workers > 0
    ensures w < workers
  {
    var chunk := Chunk(workers, total);
    if chunk == 0 || p / chunk >= workers then workers - 1 else p / chunk
  }

  /** Each producer belongs to exactly one evaluator. */
  lemma OneEvaluatorEach(workers: nat, total: nat, p: nat, w: nat)
    requires workers > 0 && p < total && w < workers
    ensures Owns(w, workers, total, p) <==> w == Owner(workers, total, p)
  {
    var chunk := Chunk(workers, total);
    if chunk > 0 {
      DivisionFacts(p, chunk);
      OneChunk(w, p / chunk, chunk, p);
    }
  }

  /** A number lies in one chunk only. */
  lemma OneChunk(w: nat, q: nat, chunk: nat, p: nat)
    requires q * chunk <= p < q * chunk + chunk
    ensures w * chunk <= p <==> w <= q
    ensures p < w * chunk + chunk <==> q <= w
  {
    if w <= q { Monotone(w, q, chunk); } else { NextChunk(q, chunk); Monotone(q + 1, w, chunk); }
    if w < q { NextChunk(w, chunk); Monotone(w + 1, q, chunk); } else { Monotone(q, w, chunk); }
  }

  lemma NextChunk(w: nat, chunk: nat)
    ensures (w + 1) * chunk == w * chunk + chunk
  {
  }

  // ---------------------------------------------------------------- evaluators and nodes

  /** A worker's nodes are those that leave its number when divided by the number of workers. */
  predicate OwnsNode(worker: nat, workers: nat, node: nat)
    requires workers > 0
  {
    node % workers == worker
  }

  /** nodes_for_worker. */
  method NodesForWorker(worker: nat, workers: nat, count: nat) returns (nodes: seq<nat>)
    ensures workers == 0 ==> nodes == []
    ensures workers > 0 ==>
            Upward(nodes) && forall n: nat :: n in nodes <==> n < count && n % workers == worker
  {
    nodes := [];
    if workers == 0 || count == 0 { return; }
    for node := 0 to count
      invariant Upward(nodes)
      invariant forall n: nat :: n in nodes <==> n < node && n % workers == worker
    {
      if OwnsNode(worker, workers, node) {
        UpwardSnoc(nodes, node);
        nodes := nodes + [node];
      }
    }
  }

  /** collect_producers_for_nodes: the producers with accounted entries that live on one of the nodes. */
  method CollectProducersForNodes(counts: seq<nat>, home: seq<nat>, nodes: seq<nat>) returns (producers: seq<nat>)
    requires |counts| == |home|
    ensures Upward(producers)
    ensures forall p: nat :: p in producers <==> p < |counts| && counts[p] > 0 && home[p] in nodes
  {
    producers := [];
    for p := 0 to |counts|
      invariant Upward(producers)
      invariant forall q: nat :: q in producers <==> q < p && counts[q] > 0 && home[q] in nodes
    {
      if counts[p] == 0 { continue; }
      if home[p] in nodes {
        UpwardSnoc(producers, p);
        producers := producers + [p];
      }
    }
  }

  // ---------------------------------------------------------------- slots of a key-partitioned replay

  function Concat(parts: seq<seq<nat>>): seq<nat> {
    if parts == [] then [] else Concat(parts[..|parts| - 1]) + parts[|parts| - 1]
  }

  /** Appending to a part behind which all parts are empty appends to the whole. */
  lemma {:induction false} ConcatAppend(parts: seq<seq<nat>>, j: nat, x: nat)
    requires j < |parts| && forall i :: j < i < |parts| ==> parts[i] == []
    ensures Concat(parts[j := parts[j] + [x]]) == Concat(parts) + [x]
  {
    var n := |parts| - 1;
    var after := parts[j := parts[j] + [x]];
    if j == n {
      assert after[..n] == parts[..n];
    } else {
      assert after[..n] == parts[..n][j := parts[..n][j] + [x]];
      ConcatAppend(parts[..n], j, x);
      assert after[n] == [] && parts[n] == [];
    }
  }

  lemma {:induction false} ConcatEmpty(parts: seq<seq<nat>>)
    requires forall i :: 0 <= i < |parts| ==> parts[i] == []
    ensures Concat(parts) == []
  {
    if parts != [] { ConcatEmpty(parts[..|parts| - 1]); }
  }

  function CeilChunk(n: nat, slots: nat): (chunk: nat)
    requires slots > 0
    ensures chunk > 0 && n <= chunk * slots && (n > 0 ==> (chunk - 1) * slots < n)
  {
    if n > 0 then
      assert n + slots - 1 >= slots;
      AtLeastOne(n + slots - 1, slots);
      RoundedUp(n, slots);
      (n + slots - 1) / slots
    else 1
  }

  /** The quotient rounded up is the smallest number of which the slots hold enough. */
  lemma RoundedUp(n: nat, slots: nat)
    requires slots > 0
    ensures var c := (n + slots - 1) / slots; n <= c * slots && (c - 1) * slots < n
  {
    var c := (n + slots - 1) / slots;
    DivisionFacts(n + slots - 1, slots);
    assert (c - 1) * slots == c * slots - slots;
  }

  lemma AtLeastOne(a: nat, b: nat)
    requires 0 < b <= a
    ensures a / b >= 1
  {
    assert a == b * (a / b) + a % b;
  }

  /** The slot of the i-th of n producers. */
  function SlotOf(i: nat, n: nat, slots: nat): nat
    requires slots > 0
  {
    i / CeilChunk(n, slots)
  }

  /** With chunks rounded up, no index reaches past the last slot: the clamp is never needed. */
  lemma ClampIsNeverNeeded(n: nat, slots: nat, i: nat)
    requires slots > 0 && i < n
    ensures SlotOf(i, n, slots) < slots
  {
    var chunk := CeilChunk(n, slots);
    DivisionFacts(n + slots - 1, slots);
    assert slots * chunk == chunk * slots;
    QuotientBelow(i, chunk, slots);
  }

  lemma QuotientBelow(i: nat, c: nat, s: nat)
    requires c > 0 && i < s * c
    ensures i / c < s
  {
    DivisionFacts(i, c);
    Cancel(i / c, s, c);
  }

  /** Where slot s begins, of n producers in chunks of c. */
  function Cut(s: nat, c: nat, n: nat): (k: nat)
    ensures k <= n
  {
    if s * c < n then s * c else n
  }

  lemma CutsAscend(s: nat, c: nat, n: nat)
    ensures Cut(s, c, n) <= Cut(s + 1, c, n)
  {
    NextChunk(s, c);
  }

  /** A slot is one consecutive piece. */
  ghost predicate IsPiece(part: seq<nat>, ids: seq<nat>, s: nat, c: nat, i: nat)
    requires i <= |ids|
  {
    CutsAscend(s, c, i);
    part == ids[Cut(s, c, i)..Cut(s + 1, c, i)]
  }

  /** One producer more is at the end of its own slot's piece, and no other piece changes. */
  lemma PieceGrows(part: seq<nat>, ids: seq<nat>, s: nat, c: nat, i: nat)
    requires c > 0 && i < |ids| && IsPiece(part, ids, s, c, i)
    ensures IsPiece(if s == i / c then part + [ids[i]] else part, ids, s, c, i + 1)
  {
    DivisionFacts(i, c);
    OneChunk(s, i / c, c, i);
    CutsAscend(s, c, i + 1);
    NextChunk(s, c);
    CutsAscend(s, c, i);
    if s == i / c {
      assert Cut(s, c, i + 1) == Cut(s, c, i) == s * c && Cut(s + 1, c, i + 1) == i + 1 && Cut(s + 1, c, i) == i;
      assert ids[s * c..i + 1] == ids[s * c..i] + [ids[i]];
    } else if s < i / c {
      assert Cut(s, c, i + 1) == Cut(s, c, i) && Cut(s + 1, c, i + 1) == Cut(s + 1, c, i);
    } else {
      assert Cut(s, c, i + 1) == Cut(s + 1, c, i + 1) == i + 1 && Cut(s, c, i) == Cut(s + 1, c, i) == i;
    }
  }

  ghost predicate Pieces(parts: seq<seq<nat>>, ids: seq<nat>, c: nat, i: nat)
    requires i <= |ids|
  {
    forall s {:trigger parts[s]} :: 0 <= s < |parts| ==> IsPiece(parts[s], ids, s, c, i)
  }

  lemma PiecesGrow(parts: seq<seq<nat>>, ids: seq<nat>, c: nat, i: nat)
    requires c > 0 && i < |ids| && Pieces(parts, ids, c, i) && i / c < |parts|
    ensures Pieces(parts[i / c := parts[i / c] + [ids[i]]], ids, c, i + 1)
  {
    var after := parts[i / c := parts[i / c] + [ids[i]]];
    forall s {:trigger after[s]} | 0 <= s < |after| ensures IsPiece(after[s], ids, s, c, i + 1) {
      PieceGrows(parts[s], ids, s, c, i);
    }
  }

  /** The producers so far are in their slots, in order. */
  ghost predicate Partitioned(parts: seq<seq<nat>>, ids: seq<nat>, i: nat, slots: nat) {
    && slots > 0 && |parts| == slots && i <= |ids|
    && Concat(parts) == ids[..i] && Pieces(parts, ids, CeilChunk(|ids|, slots), i)
  }

  /** Everything in a part has that part's number. */
  ghost predicate InSlot(part: seq<nat>, ids: seq<nat>, s: nat, slots: nat)
    requires slots > 0
  {
    forall x :: x in part ==> exists i: nat :: i < |ids| && ids[i] == x && SlotOf(i, |ids|, slots) == s
  }

  lemma PieceInSlot(part: seq<nat>, ids: seq<nat>, s: nat, slots: nat)
    requires slots > 0 && IsPiece(part, ids, s, CeilChunk(|ids|, slots), |ids|)
    ensures InSlot(part, ids, s, slots)
  {
    forall x | x in part ensures exists i: nat :: i < |ids| && ids[i] == x && SlotOf(i, |ids|, slots) == s {
      var k :| 0 <= k < |part| && part[k] == x;
      var i := PieceIndex(part, ids, s, CeilChunk(|ids|, slots), k);
      assert SlotOf(i, |ids|, slots) == s;
    }
  }

  /** The place of a piece's element, whose quotient is the slot. */
  lemma PieceIndex(part: seq<nat>, ids: seq<nat>, s: nat, c: nat, k: nat) returns (i: nat)
    requires c > 0 && IsPiece(part, ids, s, c, |ids|) && k < |part|
    ensures i < |ids| && ids[i] == part[k] && i / c == s
  {
    CutsAscend(s, c, |ids|);
    i := Cut(s, c, |ids|) + k;
    NextChunk(s, c);
    QuotientIs(i, s, c);
  }

  lemma QuotientIs(i: nat, s: nat, c: nat)
    requires s * c <= i < s * c + c
    ensures i / c == s
  {
    DivisionFacts(i, c);
    OneChunk(s, i / c, c, i);
  }

  /** The slots behind the current one are still empty. */
  lemma PieceBehind(part: seq<nat>, ids: seq<nat>, s: nat, c: nat, i: nat)
    requires c > 0 && i < |ids| && IsPiece(part, ids, s, c, i) && s > i / c
    ensures part == []
  {
    DivisionFacts(i, c);
    OneChunk(s, i / c, c, i);
    CutsAscend(s, c, i);
  }

  lemma PartitionStep(parts: seq<seq<nat>>, ids: seq<nat>, i: nat, slots: nat)
    requires Partitioned(parts, ids, i, slots) && i < |ids|
    ensures var slot := SlotOf(i, |ids|, slots);
            slot < slots && Partitioned(parts[slot := parts[slot] + [ids[i]]], ids, i + 1, slots)
  {
    ClampIsNeverNeeded(|ids|, slots, i);
    var slot := SlotOf(i, |ids|, slots);
    forall s | slot < s < slots ensures parts[s] == [] { PieceBehind(parts[s], ids, s, CeilChunk(|ids|, slots), i); }
    ConcatAppend(parts, slot, ids[i]);
    assert ids[..i + 1] == ids[..i] + [ids[i]];
    PiecesGrow(parts, ids, CeilChunk(|ids|, slots), i);
  }

  /**
    The slot assignment of apply_key_partitioned_ptfo_replay, clamp included: taken slot by slot, the
    producers come in their original order, each in the slot of its chunk.
   */
  method Partition(ids: seq<nat>, evaluatorSlots: nat) returns (parts: seq<seq<nat>>)
    ensures |parts| == (if evaluatorSlots == 0 then 1 else evaluatorSlots) && Concat(parts) == ids
    ensures forall s {:trigger parts[s]} :: 0 <= s < |parts| ==> InSlot(parts[s], ids, s, |parts|)
    ensures Pieces(parts, ids, CeilChunk(|ids|, |parts|), |ids|)
  {
    var slots := if evaluatorSlots == 0 then 1 else evaluatorSlots;
    parts := seq(slots, _ => []);
    ConcatEmpty(parts);
    for i := 0 to |ids|
      invariant Partitioned(parts, ids, i, slots)
    {
      PartitionStep(parts, ids, i, slots);
      var slot := SlotOf(i, |ids|, slots);
      if slot >= slots { slot := slots - 1; }
      parts := parts[slot := parts[slot] + [ids[i]]];
    }
    assert ids[..|ids|] == ids;
    forall s {:trigger parts[s]} | 0 <= s < |parts| ensures InSlot(parts[s], ids, s, |parts|) {
      PieceInSlot(parts[s], ids, s, slots);
    }
  }
}
