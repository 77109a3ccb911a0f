/**
  Buffered operations, what applying them does to the global tree, and which operation decides a key.

  The tree does not look for an equal key when it inserts, and a delete takes out one match, so at
  this level the tree is the number of copies of every key.
 */
module Ops {
  datatype Option<+T> = None | Some(value: T)

  /** future_buffered_op: a key, insert or delete, the global sequence number, and its producer. */
  datatype Op = Op(key: int, isDelete: bool, sequence: nat, producer: nat)

  /** The copies of every key in the global tree. */
  type Copies = multiset<int>

  /** apply_buffered_op: a delete is guarded by a search, an insert is not. */
  function Apply(t: Copies, op: Op): Copies {
    if op.isDelete then
      if op.key in t then t - multiset{op.key} else t
    else
      t + multiset{op.key}
  }

  function Replay(t: Copies, ops: seq<Op>): Copies
    decreases |ops|
  {
    if ops == [] then t else Replay(Apply(t, ops[0]), ops[1..])
  }

  /** The operations on one key, in order. */
  function For(ops: seq<Op>, k: int): seq<Op> {
    if ops == [] then []
    else if ops[0].key == k then [ops[0]] + For(ops[1..], k)
    else For(ops[1..], k)
  }

  /** The copies of one key after one of its operations. */
  function CopiesNext(c: nat, op: Op): nat {
    if !op.isDelete then c + 1 else if c > 0 then c - 1 else 0
  }

  /** The copies of one key after its own operations. */
  function CopiesAfter(c: nat, ops: seq<Op>): nat
    decreases |ops|
  {
    if ops == [] then c else CopiesAfter(CopiesNext(c, ops[0]), ops[1..])
  }

  /** Operations on other keys do not matter to a key. */
  lemma {:induction false} ReplayCopies(t: Copies, ops: seq<Op>, k: int)
    ensures Replay(t, ops)[k] == CopiesAfter(t[k], For(ops, k))
    decreases |ops|
  {
    if ops != [] {
      ReplayCopies(Apply(t, ops[0]), ops[1..], k);
      if ops[0].key == k {
        assert For(ops, k)[1..] == For(ops[1..], k);
      }
    }
  }

  lemma {:induction false} ReplayConcat(t: Copies, a: seq<Op>, b: seq<Op>)
    ensures Replay(t, a + b) == Replay(Replay(t, a), b)
    decreases |a|
  {
    if a == [] {
      assert a + b == b;
    } else {
      assert (a + b)[1..] == a[1..] + b;
      ReplayConcat(Apply(t, a[0]), a[1..], b);
    }
  }

  lemma {:induction false} ForConcat(a: seq<Op>, b: seq<Op>, k: int)
    ensures For(a + b, k) == For(a, k) + For(b, k)
    decreases |a|
  {
    if a == [] {
      assert a + b == b;
    } else {
      assert (a + b)[1..] == a[1..] + b;
      ForConcat(a[1..], b, k);
    }
  }

  ghost predicate Touches(ops: seq<Op>, k: int) {
    exists i :: 0 <= i < |ops| && ops[i].key == k
  }

  lemma {:induction false} ForNothing(ops: seq<Op>, k: int)
    ensures For(ops, k) == [] <==> !Touches(ops, k)
  {
    if ops != [] {
      ForNothing(ops[1..], k);
      if Touches(ops[1..], k) {
        var i :| 0 <= i < |ops[1..]| && ops[1..][i].key == k;
        assert ops[i + 1].key == k;
      }
      if Touches(ops, k) && ops[0].key != k {
        var i :| 0 <= i < |ops| && ops[i].key == k;
        assert ops[1..][i - 1].key == k;
      }
    }
  }

  lemma {:induction false} ForMembers(ops: seq<Op>, k: int, op: Op)
    ensures op in For(ops, k) <==> op in ops && op.key == k
  {
    if ops != [] { ForMembers(ops[1..], k, op); }
  }

  // ---------------------------------------------------------------- the deciding operation

  /** The operation on k with the highest sequence number, if any. */
  ghost predicate IsLatest(ops: seq<Op>, k: int, e: Option<Op>) {
    match e
    case None => forall o :: o in ops ==> o.key != k
    case Some(op) => op in ops && op.key == k && forall o :: o in ops && o.key == k ==> o.sequence <= op.sequence
  }

  /** Sequence numbers decide: no two operations share one. */
  ghost predicate UniqueSeqs(ops: seq<Op>) {
    forall i, j :: 0 <= i < j < |ops| ==> ops[i].sequence != ops[j].sequence
  }

  ghost predicate Ascending(ops: seq<Op>) {
    forall i, j :: 0 <= i < j < |ops| ==> ops[i].sequence < ops[j].sequence
  }

  lemma LatestUnique(ops: seq<Op>, k: int, d: Option<Op>, e: Option<Op>)
    requires UniqueSeqs(ops) && IsLatest(ops, k, d) && IsLatest(ops, k, e)
    ensures d == e
  {
    if d.Some? && e.Some? {
      var i :| 0 <= i < |ops| && ops[i] == d.value;
      var j :| 0 <= j < |ops| && ops[j] == e.value;
    }
  }

  /** The last operation on k of a log: the deciding one, when sequences ascend. */
  function LastOf(ops: seq<Op>, k: int): Option<Op> {
    if ops == [] then None
    else if ops[|ops| - 1].key == k then Some(ops[|ops| - 1])
    else LastOf(ops[..|ops| - 1], k)
  }

  lemma {:induction false} LastIsLatest(ops: seq<Op>, k: int)
    requires Ascending(ops)
    ensures IsLatest(ops, k, LastOf(ops, k))
  {
    if ops != [] {
      var n := |ops| - 1;
      assert ops == ops[..n] + [ops[n]];
      if ops[n].key != k {
        LastIsLatest(ops[..n], k);
      } else {
        forall o | o in ops && o.key == k ensures o.sequence <= ops[n].sequence {
          var i :| 0 <= i < |ops| && ops[i] == o;
        }
      }
    }
  }

  lemma {:induction false} LastOfFor(ops: seq<Op>, k: int)
    ensures For(ops, k) == [] ==> LastOf(ops, k) == None
    ensures For(ops, k) != [] ==> LastOf(ops, k) == Some(For(ops, k)[|For(ops, k)| - 1])
  {
    if ops != [] {
      var n := |ops| - 1;
      assert ops == ops[..n] + [ops[n]];
      ForConcat(ops[..n], [ops[n]], k);
      assert [ops[n]][1..] == [];
      LastOfFor(ops[..n], k);
    }
  }

  // ---------------------------------------------------------------- when the last operation decides

  /** Every insert of a key finds no copy of it. */
  ghost predicate InsertsAbsent(c: nat, ops: seq<Op>)
    decreases |ops|
  {
    ops != [] ==> (!ops[0].isDelete ==> c == 0) && InsertsAbsent(CopiesNext(c, ops[0]), ops[1..])
  }

  /** Then copies never exceed one, and the last operation decides membership. */
  lemma {:induction false} LastDecides(c: nat, ops: seq<Op>)
    requires c <= 1 && InsertsAbsent(c, ops) && ops != []
    ensures CopiesAfter(c, ops) == if ops[|ops| - 1].isDelete then 0 else 1
    decreases |ops|
  {
    if |ops| == 1 {
      assert ops[1..] == [];
    } else {
      LastDecides(CopiesNext(c, ops[0]), ops[1..]);
    }
  }

  lemma {:induction false} CopiesConcat(c: nat, a: seq<Op>, b: seq<Op>)
    ensures CopiesAfter(c, a + b) == CopiesAfter(CopiesAfter(c, a), b)
    decreases |a|
  {
    if a == [] {
      assert a + b == b;
    } else {
      assert (a + b)[1..] == a[1..] + b;
      CopiesConcat(CopiesNext(c, a[0]), a[1..], b);
    }
  }

  /**
    In general, a full replay leaves what the last operation says if and only if that operation is an
    insert, or the key has at most one copy when the final delete is applied.
   */
  lemma LastDecidesExactly(c: nat, ops: seq<Op>)
    requires ops != []
    ensures var n := |ops| - 1;
            (CopiesAfter(c, ops) > 0 <==> !ops[n].isDelete)
            <==> (!ops[n].isDelete || CopiesAfter(c, ops[..n]) <= 1)
  {
    var n := |ops| - 1;
    assert ops == ops[..n] + [ops[n]];
    CopiesConcat(c, ops[..n], [ops[n]]);
    assert [ops[n]][1..] == [];
  }

  /** When inserts find the key absent, a final delete finds at most one copy. */
  lemma FinalDeleteFindsOne(c: nat, ops: seq<Op>)
    requires c <= 1 && InsertsAbsent(c, ops)
    ensures !(ops != [] && ops[|ops| - 1].isDelete && CopiesAfter(c, ops[..|ops| - 1]) >= 2)
  {
    if ops != [] {
      LastDecides(c, ops);
      LastDecidesExactly(c, ops);
    }
  }
}
