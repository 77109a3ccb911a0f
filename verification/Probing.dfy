/**
  Open addressing with wrap-around linear probing, shared by the hash pre-filter, the lookup
  directories and the buffered hash index: where a key can be, and what one slot update does to the
  map that a table stands for.
 */
module Probing {
  /** A slot is unused, marks a removed key, or holds a key and its value. */
  datatype Slot<V> = Free | Gone | Used(key: int, value: V)

  /** The two ways in which the tables start their probes: by absolute value, and by the floored remainder. */
  datatype Hashing = ByMagnitude | ByRemainder

  function Home(hashing: Hashing, k: int, n: nat): (h: nat)
    requires n > 0
    ensures h < n
  {
    match hashing
    case ByMagnitude => (if k < 0 then -k else k) % n
    case ByRemainder => k % n
  }

  /**
    Two keys share a home if and only if they, or their absolute values, differ by a multiple of the
    number of slots; the keys from 0 up to that number are at their own slots.
   */
  lemma SameHome(hashing: Hashing, k: int, j: int, n: nat)
    requires n > 0
    ensures Home(ByRemainder, k, n) == Home(ByRemainder, j, n) <==> (k - j) % n == 0
    ensures Home(ByMagnitude, k, n) == Home(ByRemainder, if k < 0 then -k else k, n)
    ensures 0 <= k < n ==> Home(hashing, k, n) == k
  {
    var a, b := k / n, j / n;
    var r, t := k % n, j % n;
    assert k - j == n * (a - b) + (r - t);
    if r == t {
      Remainder(k - j, a - b, 0, n);
    } else if r > t {
      Remainder(k - j, a - b, r - t, n);
    } else {
      Remainder(k - j, a - b - 1, r - t + n, n);
    }
    if 0 <= k < n { SmallMod(k, n); }
  }

  lemma Between(n: nat, d: int)
    requires 0 - n < n * d < n
    ensures d == 0
  {
    assert d >= 1 ==> n * (d - 1) >= 0;
    assert d <= -1 ==> n * (-1 - d) >= 0;
  }

  /** A remainder is the one number below n that is left when multiples of n are taken away. */
  lemma Remainder(x: int, q: int, r: nat, n: nat)
    requires r < n && x == n * q + r
    ensures x % n == r
  {
    var d := q - x / n;
    assert n * d == x % n - r;
    assert 0 - n < n * d < n;
    Between(n, d);
  }

  /** The slot after d steps from h. */
  function At(h: nat, d: nat, n: nat): (j: nat)
    requires h < n && d <= n
    ensures j < n
  {
    if h + d < n then h + d else h + d - n
  }

  /** The number of steps from h to j. */
  function Dist(h: nat, j: nat, n: nat): (d: nat)
    requires h < n && j < n
    ensures d < n && At(h, d, n) == j
  {
    if j >= h then j - h else j - h + n
  }

  /** One probe step of the source. */
  lemma StepAt(h: nat, d: nat, n: nat)
    requires h < n && d < n
    ensures (At(h, d, n) + 1) % n == At(h, d + 1, n)
    ensures d + 1 < n ==> At(h, d + 1, n) != h
  {
    var x := At(h, d, n) + 1;
    if x < n { SmallMod(x, n); } else { assert x == n; WholeMod(n); }
  }

  lemma SmallMod(x: nat, n: nat)
    requires x < n
    ensures x % n == x
  {
  }

  lemma WholeMod(n: nat)
    requires n > 0
    ensures n % n == 0
  {
  }

  // ---------------------------------------------------------------- where keys are

  ghost predicate NoDuplicates<V(!new)>(s: seq<Slot<V>>) {
    forall i, j :: 0 <= i < j < |s| && s[i].Used? && s[j].Used? ==> s[i].key != s[j].key
  }

  /** No free slot lies between h and j. */
  ghost predicate Reachable<V(!new)>(s: seq<Slot<V>>, h: nat, j: nat)
    requires h < |s| && j < |s|
  {
    forall d {:trigger At(h, d, |s|)} :: 0 <= d < Dist(h, j, |s|) ==> !s[At(h, d, |s|)].Free?
  }

  /** Every key occurs once, and a probe for it does not stop before it. */
  ghost predicate Placed<V(!new)>(hashing: Hashing, s: seq<Slot<V>>) {
    && |s| > 0
    && NoDuplicates(s)
    && forall j {:trigger Reachable(s, Home(hashing, s[j].key, |s|), j)} ::
         0 <= j < |s| && s[j].Used? ==> Reachable(s, Home(hashing, s[j].key, |s|), j)
  }

  /** The map that a table stands for. */
  ghost function Contents<V(!new)>(s: seq<Slot<V>>): map<int, V>
    requires NoDuplicates(s)
  {
    map j | 0 <= j < |s| && s[j].Used? :: s[j].key := s[j].value
  }

  lemma ContentsAt<V(!new)>(s: seq<Slot<V>>, j: nat)
    requires NoDuplicates(s) && j < |s| && s[j].Used?
    ensures s[j].key in Contents(s) && Contents(s)[s[j].key] == s[j].value
  {
  }

  ghost predicate Holds<V(!new)>(s: seq<Slot<V>>, k: int) {
    exists j :: 0 <= j < |s| && s[j].Used? && s[j].key == k
  }

  lemma HoldsContents<V(!new)>(s: seq<Slot<V>>, k: int)
    requires NoDuplicates(s)
    ensures Holds(s, k) <==> k in Contents(s)
  {
  }

  // ---------------------------------------------------------------- probing

  /** The first d slots from h are in use, and not by k. */
  ghost predicate Walked<V(!new)>(s: seq<Slot<V>>, h: nat, d: nat, k: int)
    requires h < |s|
  {
    d <= |s| && forall e {:trigger At(h, e, |s|)} :: 0 <= e < d ==>
      var slot := s[At(h, e, |s|)]; !slot.Free? && !(slot.Used? && slot.key == k)
  }

  /** A probe that has seen every slot, or a free one, has seen enough. */
  lemma ProbeIsConclusive<V(!new)>(hashing: Hashing, s: seq<Slot<V>>, k: int, d: nat)
    requires Placed(hashing, s) && Walked(s, Home(hashing, k, |s|), d, k)
    requires d == |s| || s[At(Home(hashing, k, |s|), d, |s|)].Free?
    ensures !Holds(s, k)
  {
    var h := Home(hashing, k, |s|);
    forall j | 0 <= j < |s| && s[j].Used? ensures s[j].key != k {
      assert Reachable(s, Home(hashing, s[j].key, |s|), j);
      assert At(h, Dist(h, j, |s|), |s|) == j;
    }
  }

  /** After d steps from h, every slot up to the one reached is in use. */
  lemma WalkedIsReachable<V(!new)>(s: seq<Slot<V>>, h: nat, d: nat, k: int, e: nat)
    requires h < |s| && Walked(s, h, d, k) && e <= d && e < |s|
    ensures Reachable(s, h, At(h, e, |s|)) && Dist(h, At(h, e, |s|), |s|) == e
  {
  }

  /** Writing k into a slot that a probe for it reaches, while no other slot holds it. */
  lemma Put<V(!new)>(hashing: Hashing, s: seq<Slot<V>>, j: nat, k: int, v: V)
    requires Placed(hashing, s) && j < |s| && Reachable(s, Home(hashing, k, |s|), j)
    requires forall i :: 0 <= i < |s| && i != j && s[i].Used? ==> s[i].key != k
    ensures var s' := s[j := Used(k, v)];
            && Placed(hashing, s')
            && Contents(s') == (if s[j].Used? then Contents(s) - {s[j].key} else Contents(s))[k := v]
  {
    var s' := s[j := Used(k, v)];
    assert NoDuplicates(s');
    forall i | 0 <= i < |s'| && s'[i].Used? ensures Reachable(s', Home(hashing, s'[i].key, |s'|), i) {
      if i != j { assert Reachable(s, Home(hashing, s[i].key, |s|), i); }
    }
    PutContents(s, j, k, v);
  }

  lemma PutContents<V(!new)>(s: seq<Slot<V>>, j: nat, k: int, v: V)
    requires NoDuplicates(s) && j < |s|
    requires forall i :: 0 <= i < |s| && i != j && s[i].Used? ==> s[i].key != k
    ensures var s' := s[j := Used(k, v)];
            && NoDuplicates(s')
            && Contents(s') == (if s[j].Used? then Contents(s) - {s[j].key} else Contents(s))[k := v]
  {
    var s' := s[j := Used(k, v)];
    var a, b := Contents(s'), (if s[j].Used? then Contents(s) - {s[j].key} else Contents(s))[k := v];
    forall x | x in a ensures x in b && a[x] == b[x] {
      var i :| 0 <= i < |s'| && s'[i].Used? && s'[i].key == x;
      ContentsAt(s', i);
      if i != j { ContentsAt(s, i); }
    }
    forall x | x in b ensures x in a { PutKeeps(s, j, k, v, x); }
  }

  lemma PutKeeps<V(!new)>(s: seq<Slot<V>>, j: nat, k: int, v: V, x: int)
    requires NoDuplicates(s) && j < |s| && NoDuplicates(s[j := Used(k, v)])
    requires x == k || (x in Contents(s) && !(s[j].Used? && s[j].key == x))
    ensures x in Contents(s[j := Used(k, v)])
  {
    var s' := s[j := Used(k, v)];
    if x == k {
      ContentsAt(s', j);
    } else {
      var i :| 0 <= i < |s| && s[i].Used? && s[i].key == x;
      assert s'[i] == s[i];
      ContentsAt(s', i);
    }
  }

  /** Replacing a key by a removal marker. */
  lemma TakeOut<V(!new)>(hashing: Hashing, s: seq<Slot<V>>, j: nat)
    requires Placed(hashing, s) && j < |s| && s[j].Used?
    ensures var s' := s[j := Gone]; Placed(hashing, s') && Contents(s') == Contents(s) - {s[j].key}
  {
    var s' := s[j := Gone];
    assert NoDuplicates(s');
    forall i | 0 <= i < |s'| && s'[i].Used? ensures Reachable(s', Home(hashing, s'[i].key, |s'|), i) {
      assert Reachable(s, Home(hashing, s[i].key, |s|), i);
    }
    var a, b := Contents(s'), Contents(s) - {s[j].key};
    forall x | x in b ensures x in a {
      var i :| 0 <= i < |s| && s[i].Used? && s[i].key == x;
      ContentsAt(s', i);
    }
    forall x | x in a ensures x in b && a[x] == b[x] {
      var i :| 0 <= i < |s'| && s'[i].Used? && s'[i].key == x;
      ContentsAt(s', i);
      ContentsAt(s, i);
    }
  }

  /** An all-free table stands for the empty map. */
  lemma FreshTable<V(!new)>(hashing: Hashing, s: seq<Slot<V>>)
    requires |s| > 0 && forall i :: 0 <= i < |s| ==> s[i].Free?
    ensures Placed(hashing, s) && Contents(s) == map[]
  {
  }

  // ---------------------------------------------------------------- how full a table is

  ghost predicate AllUsed<V(!new)>(s: seq<Slot<V>>) {
    forall j :: 0 <= j < |s| ==> s[j].Used?
  }

  /** The map has as many keys as the table has used slots, so it fits exactly when they run out. */
  lemma {:induction false} Fullness<V(!new)>(s: seq<Slot<V>>)
    requires NoDuplicates(s)
    ensures |Contents(s)| <= |s| && (|Contents(s)| == |s| <==> AllUsed(s))
  {
    if s != [] {
      var n := |s| - 1;
      var r := s[..n];
      assert s == r + [s[n]];
      Fullness(r);
      LastSlot(s);
    } else {
      assert Contents(s) == map[];
    }
  }

  lemma LastSlot<V(!new)>(s: seq<Slot<V>>)
    requires NoDuplicates(s) && s != []
    ensures var n := |s| - 1;
            && NoDuplicates(s[..n])
            && |Contents(s)| == |Contents(s[..n])| + (if s[n].Used? then 1 else 0)
  {
    var n := |s| - 1;
    var r := s[..n];
    var keys, less := Contents(s).Keys, Contents(r).Keys;
    forall x ensures x in keys <==> x in less || (s[n].Used? && x == s[n].key) {
      HoldsContents(s, x);
      HoldsContents(r, x);
      HoldsSplit(s, x);
    }
    var last := if s[n].Used? then s[n].key else 0;
    HoldsContents(r, last);
    OneMore(keys, less, last, s[n].Used?);
  }

  lemma OneMore(all: set<int>, less: set<int>, x: int, more: bool)
    requires forall k :: k in all <==> k in less || (more && k == x)
    requires more ==> x !in less
    ensures |all| == |less| + if more then 1 else 0
  {
    var grown := if more then less + {x} else less;
    assert all == grown by {
      forall k: int ensures k in all <==> k in grown { }
    }
  }

  lemma HoldsSplit<V(!new)>(s: seq<Slot<V>>, k: int)
    requires s != []
    ensures var n := |s| - 1; Holds(s, k) <==> Holds(s[..n], k) || (s[n].Used? && s[n].key == k)
  {
    var n := |s| - 1;
    if Holds(s[..n], k) {
      var j :| 0 <= j < n && s[..n][j].Used? && s[..n][j].key == k;
      assert s[j].Used?;
    }
    if j :| 0 <= j < n && s[j].Used? && s[j].key == k { assert s[..n][j].Used?; }
  }

  /** The values of the used slots, in slot order. */
  function Values<V>(s: seq<Slot<V>>): seq<V> {
    if s == [] then []
    else
      var n := |s| - 1;
      Values(s[..n]) + if s[n].Used? then [s[n].value] else []
  }

  ghost predicate HasValue<V(!new)>(s: seq<Slot<V>>, v: V) {
    exists j :: 0 <= j < |s| && s[j].Used? && s[j].value == v
  }

  lemma {:induction false} ValuesMembers<V(!new)>(s: seq<Slot<V>>, v: V)
    ensures v in Values(s) <==> HasValue(s, v)
  {
    if s != [] {
      var n := |s| - 1;
      var r := s[..n];
      ValuesMembers(r, v);
      if HasValue(r, v) {
        var j :| 0 <= j < n && r[j].Used? && r[j].value == v;
        assert s[j].value == v;
      }
      if j :| 0 <= j < n && s[j].Used? && s[j].value == v { assert r[j].value == v; }
    }
  }

  /** One value per key. */
  lemma {:induction false} ValuesCount<V(!new)>(s: seq<Slot<V>>)
    requires NoDuplicates(s)
    ensures |Values(s)| == |Contents(s)|
  {
    if s == [] {
      assert Contents(s) == map[];
    } else {
      LastSlot(s);
      ValuesCount(s[..|s| - 1]);
    }
  }
}
