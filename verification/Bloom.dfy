/**
  compressible_bloom_filter: a table of bytes that can be folded onto its front part. Indices are
  taken modulo every size that the table has had, so folding never loses an inserted key.

  A key is the list of its hash values, one per salt.
 */
module Bloom {
  type Key = seq<nat>

  /** An unsigned char, as the set of the numbers of its one bits: | is union, a mask test membership. */
  type Byte = set<nat>

  // ---------------------------------------------------------------- bits of a table

  function ByteOf(i: nat): nat { i / 8 }
  function BitOf(i: nat): (b: nat)
    ensures b < 8
  {
    i % 8
  }

  ghost predicate Bit(table: seq<Byte>, i: nat)
    requires i < 8 * |table|
  {
    BitOf(i) in table[ByteOf(i)]
  }

  /** compute_indices: modulo every size in turn. */
  function Index(sizes: seq<nat>, hash: nat): nat
    requires forall i :: 0 <= i < |sizes| ==> sizes[i] > 0
  {
    if sizes == [] then hash else Index(sizes[..|sizes| - 1], hash) % sizes[|sizes| - 1]
  }

  /** Sizes are positive multiples of eight. */
  ghost predicate SizesOk(sizes: seq<nat>) {
    sizes != [] && forall i :: 0 <= i < |sizes| ==> sizes[i] > 0 && sizes[i] % 8 == 0
  }

  function Size(sizes: seq<nat>): nat
    requires sizes != []
  {
    sizes[|sizes| - 1]
  }

  /** The bits of a key. */
  ghost predicate AllSet(table: seq<Byte>, sizes: seq<nat>, key: Key)
    requires SizesOk(sizes) && Size(sizes) == 8 * |table|
  {
    forall i :: 0 <= i < |key| ==> Marked(table, sizes, key[i])
  }

  ghost predicate Marked(table: seq<Byte>, sizes: seq<nat>, hash: nat)
    requires SizesOk(sizes) && Size(sizes) == 8 * |table|
  {
    IndexBound(sizes, hash);
    Bit(table, Index(sizes, hash))
  }

  lemma IndexBound(sizes: seq<nat>, hash: nat)
    requires SizesOk(sizes)
    ensures Index(sizes, hash) < Size(sizes)
  {
  }

  /** One more size: one more remainder. */
  lemma IndexNext(sizes: seq<nat>, hash: nat, n: nat)
    requires SizesOk(sizes) && n > 0
    ensures Index(sizes + [n], hash) == Index(sizes, hash) % n
  {
    assert (sizes + [n])[..|sizes|] == sizes;
  }

  /** With one size it is the remainder. */
  lemma IndexOnce(n: nat, hash: nat)
    requires n > 0
    ensures Index([n], hash) == hash % n
  {
    assert [n][..0] == [] && Index([], hash) == hash;
  }

  /** With more, the first remainder goes on through the other sizes. */
  lemma {:induction false} IndexFromFront(n: nat, sizes: seq<nat>, hash: nat)
    requires n > 0 && forall i :: 0 <= i < |sizes| ==> sizes[i] > 0
    ensures Index([n] + sizes, hash) == Index(sizes, hash % n)
    decreases |sizes|
  {
    var all, m := [n] + sizes, |sizes|;
    if m == 0 {
      assert all == [n];
      IndexOnce(n, hash);
      assert Index([], hash % n) == hash % n;
    } else {
      assert all[..m] == [n] + sizes[..m - 1];
      IndexFromFront(n, sizes[..m - 1], hash);
    }
  }

  /** So after one compression it is the remainder of the remainder. */
  lemma IndexTwice(a: nat, b: nat, hash: nat)
    requires a > 0 && b > 0
    ensures Index([a, b], hash) == hash % a % b
  {
    assert [a, b] == [a] + [b];
    IndexFromFront(a, [b], hash);
    IndexOnce(b, hash % a);
  }

  // ---------------------------------------------------------------- folding

  /** A byte, with the byte n places further on laid over it if there is one. */
  ghost function Stacked(table: seq<Byte>, j: nat, n: nat): Byte
    requires j < |table|
  {
    if j + n < |table| then table[j] + table[j + n] else table[j]
  }

  /** The table after folding: each bit of the front part, or the bit that lies on top of it. */
  ghost predicate Folded(before: seq<Byte>, after: seq<Byte>) {
    && |after| <= |before| <= 2 * |after|
    && forall j :: 0 <= j < |after| ==> after[j] == Stacked(before, j, |after|)
  }

  lemma FoldedBits(before: seq<Byte>, after: seq<Byte>, i: nat)
    requires Folded(before, after) && i < 8 * |after|
    ensures Bit(after, i) <==> Bit(before, i) || (i + 8 * |after| < 8 * |before| && Bit(before, i + 8 * |after|))
  {
    ByteShift(i, |after|);
    var j := ByteOf(i);
    assert after[j] == Stacked(before, j, |after|);
  }

  lemma ByteShift(i: nat, n: nat)
    ensures ByteOf(i + 8 * n) == ByteOf(i) + n && BitOf(i + 8 * n) == BitOf(i)
  {
  }

  /** The remainder by a size that is at least half: the index itself, or what lies under it. */
  lemma HalfRemainder(i: nat, n: nat)
    requires n > 0 && i < 2 * n
    ensures i % n == if i < n then i else i - n
  {
  }

  /** Folding keeps every key. */
  lemma FoldKeepsKey(before: seq<Byte>, after: seq<Byte>, sizes: seq<nat>, key: Key)
    requires SizesOk(sizes) && Size(sizes) == 8 * |before| && Folded(before, after) && |after| > 0
    requires AllSet(before, sizes, key)
    ensures SizesOk(sizes + [8 * |after|]) && AllSet(after, sizes + [8 * |after|], key)
  {
    forall i | 0 <= i < |key| ensures Marked(after, sizes + [8 * |after|], key[i]) {
      assert Marked(before, sizes, key[i]);
      FoldKeepsMark(before, after, sizes, key[i]);
    }
  }

  lemma FoldKeepsMark(before: seq<Byte>, after: seq<Byte>, sizes: seq<nat>, hash: nat)
    requires SizesOk(sizes) && Size(sizes) == 8 * |before| && Folded(before, after) && |after| > 0
    requires Marked(before, sizes, hash)
    ensures SizesOk(sizes + [8 * |after|]) && Marked(after, sizes + [8 * |after|], hash)
  {
    var n, x := 8 * |after|, Index(sizes, hash);
    IndexBound(sizes, hash);
    IndexNext(sizes, hash, n);
    HalfRemainder(x, n);
    FoldedBits(before, after, x % n);
  }

  // ---------------------------------------------------------------- the filter

  datatype CompressOutcome = Refused | Compressed | Overrun

  class CompressibleBloomFilter {
    var table: array<Byte>
    var sizes: seq<nat>
    /** Every key inserted so far. */
    ghost var inserted: set<Key>

    ghost predicate Valid()
      reads this, table
    {
      && SizesOk(sizes) && Size(sizes) == 8 * table.Length
      && forall k :: k in inserted ==> AllSet(table[..], sizes, k)
    }

    /** table_size is already rounded to whole bytes by the parameters. */
    constructor (tableSize: nat)
      requires tableSize > 0 && tableSize % 8 == 0
      ensures Valid() && fresh(table) && inserted == {} && sizes == [tableSize]
      ensures forall i :: 0 <= i < tableSize ==> !Bit(table[..], i)
    {
      table := new Byte[tableSize / 8](_ => {});
      sizes := [tableSize];
      inserted := {};
    }

    method ComputeIndex(hash: nat) returns (index: nat)
      requires SizesOk(sizes)
      ensures index == Index(sizes, hash) && index < Size(sizes)
    {
      index := hash;
      for i := 0 to |sizes|
        invariant index == Index(sizes[..i], hash)
      {
        assert sizes[..i + 1][..i] == sizes[..i];
        index := index % sizes[i];
      }
      assert sizes[..|sizes|] == sizes;
      IndexBound(sizes, hash);
    }

    /** One bit is set, and no other changes. */
    method SetBit(index: nat)
      requires index < 8 * table.Length
      modifies table
      ensures forall i :: 0 <= i < 8 * table.Length ==> (Bit(table[..], i) <==> i == index || Bit(old(table[..]), i))
    {
      ghost var before := table[..];
      table[ByteOf(index)] := table[ByteOf(index)] + {BitOf(index)};
      forall i | 0 <= i < 8 * table.Length ensures Bit(table[..], i) <==> i == index || Bit(before, i) {
        if ByteOf(i) == ByteOf(index) && BitOf(i) == BitOf(index) { assert i == index; }
      }
    }

    /** The bits of the key are set, and no others change. */
    method Insert(key: Key)
      requires Valid()
      modifies this`inserted, table
      ensures Valid() && inserted == old(inserted) + {key}
      ensures forall i :: 0 <= i < 8 * table.Length ==>
                (Bit(table[..], i)
                 <==> Bit(old(table[..]), i) || exists j :: 0 <= j < |key| && Index(sizes, key[j]) == i)
      ensures |sizes| == 1 ==> forall i :: 0 <= i < 8 * table.Length ==>
                (Bit(table[..], i)
                 <==> Bit(old(table[..]), i) || exists j :: 0 <= j < |key| && key[j] % Size(sizes) == i)
    {
      forall j | 0 <= j < |key| && |sizes| == 1 ensures Index(sizes, key[j]) == key[j] % Size(sizes) {
        assert sizes == [Size(sizes)];
        IndexOnce(Size(sizes), key[j]);
      }
      ghost var before := table[..];
      for j := 0 to |key|
        invariant Size(sizes) == 8 * table.Length && sizes == old(sizes) && inserted == old(inserted)
        invariant forall i :: 0 <= i < 8 * table.Length ==>
                    (Bit(table[..], i) <==> Bit(before, i) || exists x :: 0 <= x < j && Index(sizes, key[x]) == i)
      {
        var index := ComputeIndex(key[j]);
        SetBit(index);
      }
      MarksGrow(before, table[..], sizes, inserted);
      inserted := inserted + {key};
      forall j | 0 <= j < |key| ensures Marked(table[..], sizes, key[j]) { IndexBound(sizes, key[j]); }
    }

    /** True exactly when every bit of the key is set: so for every inserted key. */
    method Contains(key: Key) returns (found: bool)
      requires Valid()
      ensures found <==> AllSet(table[..], sizes, key)
      ensures |sizes| == 1 ==> (found <==> forall j :: 0 <= j < |key| ==> Bit(table[..], key[j] % Size(sizes)))
      ensures key in inserted ==> found
    {
      forall j | 0 <= j < |key| && |sizes| == 1
        ensures Marked(table[..], sizes, key[j]) <==> Bit(table[..], key[j] % Size(sizes))
      {
        assert sizes == [Size(sizes)];
        IndexOnce(Size(sizes), key[j]);
      }
      for j := 0 to |key|
        invariant forall x :: 0 <= x < j ==> Marked(table[..], sizes, key[x])
      {
        var index := ComputeIndex(key[j]);
        if BitOf(index) !in table[ByteOf(index)] {
          assert !Marked(table[..], sizes, key[j]);
          return false;
        }
      }
      found := true;
    }

    /**
      compress, with the truncated product of size and percentage as the target. It is refused when the
      table would be empty or no smaller. A target under half the size makes the copying loop write
      behind the new table; the model stops there and leaves the filter as it was.
     */
    method Compress(target: nat) returns (outcome: CompressOutcome)
      requires Valid()
      modifies this`table, this`sizes
      ensures Valid() && inserted == old(inserted)
      ensures var n, size := target - target % 8, old(Size(sizes));
              outcome == if 8 > n || n >= size then Refused else if 2 * n < size then Overrun else Compressed
      ensures outcome != Compressed ==> table == old(table) && sizes == old(sizes)
      ensures outcome == Compressed ==>
              fresh(table) && sizes == old(sizes) + [target - target % 8] && Folded(old(table[..]), table[..])
    {
      var original := Size(sizes);
      var n := target - target % 8;
      if 8 > n || n >= original { return Refused; }
      var folded, fits := Fold(table, n / 8);
      if !fits { return Overrun; }
      ghost var before := table[..];
      forall k | k in inserted ensures AllSet(folded[..], sizes + [n], k) {
        FoldKeepsKey(before, folded[..], sizes, k);
      }
      table := folded;
      sizes := sizes + [n];
      outcome := Compressed;
    }
  }

  /** Setting bits keeps the marks there are. */
  lemma MarksGrow(before: seq<Byte>, after: seq<Byte>, sizes: seq<nat>, keys: set<Key>)
    requires SizesOk(sizes) && Size(sizes) == 8 * |before| == 8 * |after|
    requires forall i :: 0 <= i < 8 * |before| && Bit(before, i) ==> Bit(after, i)
    requires forall k :: k in keys ==> AllSet(before, sizes, k)
    ensures forall k :: k in keys ==> AllSet(after, sizes, k)
  {
    forall k, j | k in keys && 0 <= j < |k| ensures Marked(after, sizes, k[j]) {
      assert AllSet(before, sizes, k) && Marked(before, sizes, k[j]);
      IndexBound(sizes, k[j]);
    }
  }

  /** Copy the front part, then OR the rest over it, byte by byte, as far as there is something to lay it over. */
  method Fold(table: array<Byte>, n: nat) returns (tmp: array<Byte>, fits: bool)
    requires n <= table.Length
    ensures fresh(tmp) && tmp.Length == n && (fits <==> table.Length <= 2 * n)
    ensures fits ==> Folded(table[..], tmp[..])
  {
    tmp := new Byte[n](j requires 0 <= j < n reads table => table[j]);
    for i := n to table.Length
      invariant i <= 2 * n && forall j :: 0 <= j < n ==> tmp[j] == Stacked(table[..i], j, n)
    {
      if i - n >= n { return tmp, false; }
      tmp[i - n] := tmp[i - n] + table[i];
    }
    fits := true;
  }
}
