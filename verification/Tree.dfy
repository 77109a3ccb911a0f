/**
  The tree operations: descent, insertion with splits up to the root, search, and deletion.

  Pages live in a map from addresses, as pool offsets do in the persistent build. All operations
  run under the wrapper's tree lock, so each method is one uninterrupted change of the pages.
 */
module Tree {
  import opened RecordLists
  import opened TreeShape

  /** What one attempt of btree_delete does; a retry starts over. */
  datatype DeleteOutcome = Removed | NotFound | Retry

  datatype TreeOp = Insertion(key: int) | Deletion(key: int)

  ghost function Effect(op: TreeOp, keys: iset<int>): iset<int> {
    match op
    case Insertion(k) => keys + iset{k}
    case Deletion(k) => keys - iset{k}
  }

  ghost function After(ops: seq<TreeOp>, keys: iset<int>): iset<int> {
    if ops == [] then keys else After(ops[1..], Effect(ops[0], keys))
  }

  ghost predicate InsertsAbsent(ops: seq<TreeOp>, keys: iset<int>) {
    ops != [] ==> (ops[0].Insertion? ==> ops[0].key !in keys) && InsertsAbsent(ops[1..], Effect(ops[0], keys))
  }

  /** linear_search on an internal page: the child for the key, unless the sibling's first key is reached. */
  function Step(ps: Pages, a: int, key: int): int
    requires a in ps
  {
    var p := ps[a];
    if p.sibling in ps && FirstKey(ps[p.sibling]) <= key then p.sibling else Route(p.es, p.leftmost, key)
  }

  /** linear_search on a leaf: the stored pointer, or the sibling when the key reaches its first key, or null. */
  function LeafSearch(ps: Pages, a: int, key: int): int
    requires a in ps
  {
    var p := ps[a];
    if Find(p.es, key) != NULL then Find(p.es, key)
    else if p.sibling in ps && FirstKey(ps[p.sibling]) <= key then p.sibling
    else NULL
  }

  /** The leaf that holds k has a right sibling whose address, as a number, is k. */
  ghost predicate Shadowed(ps: Pages, k: int) {
    exists a :: a in ps && ps[a].level == 0 && HasKey(ps[a].es, k) && ps[a].sibling == k
  }

  /**
    Between a split and the insertion into the parent, searches still come to the left half. From there a
    leaf search goes on to the right half for the keys that are there, and finds them; on a higher level
    the search goes on for every key from the right half's first one on.
   */
  lemma LeftHalfLeadsRight(ps: Pages, rs: Ranges, pend: map<int, int>, root: int, cardinality: nat, a: int, key: int)
    requires TreeOk(ps, rs, pend, root, cardinality) && a in pend && a in ps && pend[a] in ps
    requires rs[a].hi <= key < rs[pend[a]].hi && FirstKey(ps[pend[a]]) <= key
    ensures ps[a].sibling == pend[a]
    ensures ps[a].level > 0 ==> Step(ps, a, key) == pend[a]
    ensures ps[a].level == 0 ==> LeafSearch(ps, a, key) == pend[a]
    ensures ps[a].level == 0 && HasKey(ps[pend[a]].es, key) ==> LeafSearch(ps, pend[a], key) == key
  {
    var s := pend[a];
    assert HalvesOk(ps, rs, pend, a);
    assert PageOk(ps[a], rs[a], cardinality) && PageOk(ps[s], rs[s], cardinality);
    HalfIsSibling(ps, rs, pend, root, cardinality, a);
    if ps[a].level == 0 {
      LeafFind(ps[a], rs[a], cardinality, key);
      LeafFind(ps[s], rs[s], cardinality, key);
    }
  }

  lemma HalfIsSibling(ps: Pages, rs: Ranges, pend: map<int, int>, root: int, cardinality: nat, a: int)
    requires TreeOk(ps, rs, pend, root, cardinality) && a in pend && a in ps && pend[a] in ps
    ensures ps[a].sibling == pend[a]
  {
    var s := pend[a];
    assert HalvesOk(ps, rs, pend, a) && SiblingOk(ps, rs, ps[a], rs[a]);
    assert PageOk(ps[s], rs[s], cardinality);
    if ps[a].sibling != NULL {
      assert PageOk(ps[ps[a].sibling], rs[ps[a].sibling], cardinality);
      assert ps[a].sibling == s || Apart(rs[ps[a].sibling], rs[s]);
    }
  }

  lemma LeafFind(p: Page, r: Range, cardinality: nat, key: int)
    requires PageOk(p, r, cardinality) && p.level == 0
    ensures Find(p.es, key) == if HasKey(p.es, key) then key else NULL
    ensures HasKey(p.es, key) ==> key != NULL
  {
    if HasKey(p.es, key) {
      var i :| 0 <= i < |p.es| && p.es[i].key == key;
      FindAt(p.es, i);
    } else {
      FindAbsent(p.es, key);
    }
  }

  ghost predicate InsertableIn(ps: Pages, rs: Ranges, a: int, key: int, ptr: int, left: int, pend: map<int, int>) {
    && a in ps && a in rs && rs[a].lo <= key < rs[a].hi
    && (ps[a].level == 0 ==> ptr == key && key != 0 && !HasKey(ps[a].es, key))
    && (ps[a].level > 0 ==>
          && left in pend && pend[left] == ptr && left in ps && left in rs
          && ps[a].level == ps[left].level + 1 && rs[left].hi == key)
  }

  /**
    What a split of page a leaves of the other pages and of its entries: each half of them in one page,
    except that an internal page passes one up.
   */
  ghost predicate IsSplitOf(ps: Pages, rs: Ranges, ps': Pages, rs': Ranges, a: int, s: int, splitKey: int) {
    && a in ps && a in rs && s !in ps && ps'.Keys == ps.Keys + {s} && rs'.Keys == ps'.Keys
    && ps'[s].level == ps[a].level
    && (forall c :: c in ps ==> ps'[c].level == ps[c].level)
    && (forall c :: c in ps && c != a && c in rs ==> rs'[c] == rs[c])
    && rs'[a] == Range(rs[a].lo, splitKey) && rs'[s] == Range(splitKey, rs[a].hi)
    && ps'[a].es <= ps[a].es && (forall i :: 0 <= i < |ps'[s].es| ==> ps'[s].es[i] in ps[a].es)
    && Halved(|ps[a].es|, |ps'[a].es|, |ps'[s].es| + if ps[a].level == 0 then 0 else 1)
  }

  /** The two parts of n entries, the smaller one first. */
  ghost predicate Halved(n: nat, left: nat, right: nat) {
    left + right == n && left <= right <= left + 1
  }

  lemma HalvesAreSplit(ps: Pages, rs: Ranges, a: int, s: int, m: nat, cardinality: nat)
    requires a in ps && a in rs && s !in ps && ps.Keys == rs.Keys && m == |ps[a].es| / 2
             && m < |ps[a].es| <= cardinality
    ensures IsSplitOf(ps, rs, ps[a := LeftHalf(ps[a], m, s)][s := RightHalf(ps[a], m, cardinality)],
                      SplitRanges(rs, a, s, ps[a].es[m].key), a, s, ps[a].es[m].key)
  {
  }

  /** What could be inserted into the page can be inserted into the proper half. */
  lemma HalfTakesEntry(ps: Pages, rs: Ranges, ps': Pages, rs': Ranges, a: int, s: int, splitKey: int,
                       key: int, ptr: int, left: int, pend: map<int, int>)
    requires IsSplitOf(ps, rs, ps', rs', a, s, splitKey) && InsertableIn(ps, rs, a, key, ptr, left, pend)
             && !HasKey(ps[a].es, key)
    ensures InsertableIn(ps', rs', if key < splitKey then a else s, key, ptr, left, pend[a := s])
  {
  }

  class BTree {
    const cardinality: nat
    const heapStart: int
    var pages: Pages
    var root: int
    var next: int
    ghost var ranges: Ranges

    /** The tree is well shaped, up to the pending halves. */
    ghost predicate Shaped(pend: map<int, int>)
      reads this
    {
      && TreeOk(pages, ranges, pend, root, cardinality)
      && 0 < heapStart <= next
      && forall a :: a in pages ==> heapStart <= a < next
    }

    ghost predicate Valid()
      reads this
    {
      Shaped(map[])
    }

    constructor (cardinality: nat, heapStart: int)
      requires 4 <= cardinality && 0 < heapStart
      ensures Valid() && KeySet(pages) == iset{}
      ensures this.heapStart == heapStart
    {
      this.cardinality := cardinality;
      this.heapStart := heapStart;
      pages := map[heapStart := Page(0, NULL, NULL, [], seq(cardinality, _ => MAX_KEY))];
      root := heapStart;
      next := heapStart + 1;
      ranges := map[heapStart := Range(MIN_KEY, END_KEY)];
      EmptyTree(heapStart, cardinality);
    }

    /** The tree of a reopened pool. */
    constructor Reopen(cardinality: nat, heapStart: int, pages: Pages, root: int, next: int, ghost ranges: Ranges)
      requires TreeOk(pages, ranges, map[], root, cardinality) && 0 < heapStart <= next
      requires forall a :: a in pages ==> heapStart <= a < next
      ensures Valid() && this.pages == pages && this.root == root && this.heapStart == heapStart
              && this.cardinality == cardinality
    {
      this.cardinality := cardinality;
      this.heapStart := heapStart;
      this.pages := pages;
      this.root := root;
      this.next := next;
      this.ranges := ranges;
    }

    /** Some address that no page has. */
    method Allocate() returns (a: int)
      modifies this`next
      ensures old(next) <= a && next == a + 1
    {
      a :| next <= a;
      next := a + 1;
    }

    /** Follows linear_search down to the page of the given level that is responsible for the key. */
    method DescendTo(key: int, level: nat, ghost pend: map<int, int>) returns (p: int)
      requires Shaped(pend) && IsKey(key) && level <= pages[root].level
      requires forall c :: c in pend ==> c in pages && pages[c].level < level
      ensures p in pages && pages[p].level == level && ranges[p].lo <= key < ranges[p].hi
    {
      p := root;
      while pages[p].level > level
        invariant p in pages && level <= pages[p].level && ranges[p].lo <= key < ranges[p].hi
        decreases pages[p].level
      {
        if pages[p].sibling != NULL { SiblingIsBehind(pages, ranges, pend, root, cardinality, p); }
        RouteCovers(pages, ranges, pend, root, cardinality, p, key);
        p := Step(pages, p, key);
      }
    }

    /** store moves right while the key is beyond the sibling's first key; a settled tree never does. */
    method HopRight(a: int, key: int, ghost pend: map<int, int>) returns (p: int)
      requires Shaped(pend) && a in pages && ranges[a].lo <= key
      ensures p in pages && pages[p].level == pages[a].level && ranges[p].lo <= key
      ensures key < ranges[a].hi ==> p == a
    {
      p := a;
      while pages[p].sibling != NULL && pages[p].sibling in pages && FirstKey(pages[pages[p].sibling]) < key
        invariant p in pages && pages[p].level == pages[a].level && ranges[p].lo <= key
        invariant key < ranges[a].hi ==> p == a
        decreases END_KEY - ranges[p].lo
      {
        SiblingIsBehind(pages, ranges, pend, root, cardinality, p);
        assert PageOk(pages[p], ranges[p], cardinality);
        p := pages[p].sibling;
        assert PageOk(pages[p], ranges[p], cardinality);
      }
    }

    // -------------------------------------------------------------- insertion

    /** A leaf entry, or the entry for the right half of the pending split of `left`. */
    ghost predicate Insertable(a: int, key: int, ptr: int, left: int, pend: map<int, int>)
      reads this
    {
      InsertableIn(pages, ranges, a, key, ptr, left, pend)
    }

    ghost function Resolved(level: nat, left: int, pend: map<int, int>): map<int, int> {
      if level == 0 then pend else pend - {left}
    }

    /** What the insertion adds to the set of keys: internal entries add nothing. */
    ghost function Added(level: nat, key: int): iset<int> {
      if level == 0 then iset{key} else iset{}
    }

    /** insert_key into a page with room. */
    method InsertEntry(a: int, key: int, ptr: int, ghost left: int, ghost pend: map<int, int>)
      requires Shaped(pend) && Insertable(a, key, ptr, left, pend) && |pages[a].es| < cardinality - 1
      modifies this`pages
      ensures Shaped(Resolved(old(pages[a].level), left, pend))
      ensures KeySet(pages) == old(KeySet(pages)) + Added(old(pages[a].level), key)
      ensures pages.Keys == old(pages.Keys) && forall c :: c in pages ==> pages[c].level == old(pages)[c].level
    {
      if pages[a].level == 0 {
        LeafInsert(pages, ranges, pend, root, cardinality, a, key);
      } else {
        ParentInsert(pages, ranges, pend, root, cardinality, a, left);
      }
      pages := pages[a := WithEntry(pages[a], Rec(key, ptr))];
    }

    /** Moves the upper half of a full page to a new sibling and cuts the page. */
    method Split(a: int, ghost pend: map<int, int>) returns (s: int, splitKey: int)
      requires Shaped(pend) && a in pages && |pages[a].es| == cardinality - 1
      requires a !in pend && a !in pend.Values && forall c :: c in pend ==> c in pages
      modifies this`pages, this`next, this`ranges
      ensures Shaped(pend[a := s]) && KeySet(pages) == old(KeySet(pages))
      ensures IsSplitOf(old(pages), old(ranges), pages, ranges, a, s, splitKey)
      ensures |pages[a].es| < cardinality - 1 && |pages[s].es| < cardinality - 1
    {
      var p := pages[a];
      var m := |p.es| / 2;
      splitKey := p.es[m].key;
      s := Allocate();
      SplitKeepsShape(pages, ranges, pend, root, cardinality, a, s, m);
      HalvesAreSplit(pages, ranges, a, s, m, cardinality);
      pages := pages[a := LeftHalf(p, m, s)][s := RightHalf(p, m, cardinality)];
      ranges := SplitRanges(ranges, a, s, splitKey);
    }

    /** Gives a split root a parent. */
    method GrowRoot(splitKey: int, s: int)
      requires root in pages && root in ranges && ranges[root].hi == splitKey && Shaped(map[root := s])
      modifies this`pages, this`root, this`next, this`ranges
      ensures Valid() && KeySet(pages) == old(KeySet(pages))
    {
      var t := Allocate();
      RootGrowth(pages, ranges, root, cardinality, s, t);
      pages := pages[t := NewRoot(pages, root, splitKey, s, cardinality)];
      ranges := ranges[t := Range(MIN_KEY, END_KEY)];
      root := t;
    }

    /**
      store: hops right if it must, inserts if there is room, and otherwise splits, inserts into the
      proper half, and either grows the root or passes the split key up.
     */
    method Store(a: int, key: int, ptr: int, ghost left: int, ghost pend: map<int, int>)
      requires Shaped(pend) && Insertable(a, key, ptr, left, pend)
      requires pend == if pages[a].level == 0 then map[] else map[left := ptr]
      modifies this`pages, this`root, this`next, this`ranges
      ensures Valid() && KeySet(pages) == old(KeySet(pages)) + Added(old(pages[a].level), key)
      decreases pages[root].level - pages[a].level, 1
    {
      var p := HopRight(a, key, pend);
      assert NotAbove(pages, a, root) && PageOk(pages[a], ranges[a], cardinality);
      if |pages[p].es| < cardinality - 1 {
        InsertEntry(p, key, ptr, left, pend);
        assert Resolved(old(pages[a].level), left, pend) == map[];
      } else {
        StoreFull(p, key, ptr, left, pend);
      }
    }

    /** The overflow branch. */
    method StoreFull(a: int, key: int, ptr: int, ghost left: int, ghost pend: map<int, int>)
      requires Shaped(pend) && Insertable(a, key, ptr, left, pend) && |pages[a].es| == cardinality - 1
      requires pend == (if pages[a].level == 0 then map[] else map[left := ptr]) && pages[a].level <= pages[root].level
      modifies this`pages, this`root, this`next, this`ranges
      ensures Valid() && KeySet(pages) == old(KeySet(pages)) + Added(old(pages[a].level), key)
      decreases pages[root].level - pages[a].level, 0
    {
      var s, splitKey := SplitAndInsert(a, key, ptr, left, pend);
      if root == a {
        GrowRoot(splitKey, s);
      } else {
        InsertInternal(splitKey, s, pages[a].level + 1, a);
      }
    }

    /** The page does not hold the key, and is no half of a pending split. */
    lemma BeforeSplit(a: int, key: int, ptr: int, left: int, pend: map<int, int>)
      requires Shaped(pend) && Insertable(a, key, ptr, left, pend)
      requires pend == if pages[a].level == 0 then map[] else map[left := ptr]
      ensures !HasKey(pages[a].es, key) && a !in pend && a !in pend.Values && forall c :: c in pend ==> c in pages
      ensures pages[a].level > 0 ==> left != a
    {
      if pages[a].level > 0 {
        assert HalvesOk(pages, ranges, pend, left);
        RouteFindsLeftHalf(pages, ranges, pend, root, cardinality, a, left);
      }
    }

    /** The split, and the insertion into the proper half. The new half is pending in the parent. */
    method SplitAndInsert(a: int, key: int, ptr: int, ghost left: int, ghost pend: map<int, int>)
      returns (s: int, splitKey: int)
      requires Shaped(pend) && Insertable(a, key, ptr, left, pend) && |pages[a].es| == cardinality - 1
      requires pend == (if pages[a].level == 0 then map[] else map[left := ptr]) && root in pages
      modifies this`pages, this`next, this`ranges
      ensures Shaped(map[a := s]) && KeySet(pages) == old(KeySet(pages)) + Added(old(pages[a].level), key)
      ensures a in pages && a in ranges && ranges[a].hi == splitKey && pages[a].level == old(pages[a].level)
      ensures root in pages && pages[root].level == old(pages[root].level)
    {
      BeforeSplit(a, key, ptr, left, pend);
      s, splitKey := Split(a, pend);
      HalfTakesEntry(old(pages), old(ranges), pages, ranges, a, s, splitKey, key, ptr, left, pend);
      ghost var pend' := pend[a := s];
      InsertEntry(if key < splitKey then a else s, key, ptr, left, pend');
      OnlyThisPending(old(pages[a].level), left, ptr, pend, a, s);
    }

    lemma OnlyThisPending(level: nat, left: int, ptr: int, pend: map<int, int>, a: int, s: int)
      requires pend == (if level == 0 then map[] else map[left := ptr]) && (level > 0 ==> left != a)
      ensures Resolved(level, left, pend[a := s]) == map[a := s]
    {
    }

    /**
      btree_insert_internal: stores the split key and the right half of `left` one level up. The level
      never exceeds the root's, because a split root grows a parent before anything is passed up.
     */
    method InsertInternal(key: int, right: int, level: nat, ghost left: int)
      requires Shaped(map[left := right]) && left in pages && left in ranges && left != root
      requires level == pages[left].level + 1 && key == ranges[left].hi
      modifies this`pages, this`root, this`next, this`ranges
      ensures Valid() && KeySet(pages) == old(KeySet(pages))
      decreases pages[root].level - level, 2
    {
      ghost var pend := map[left := right];
      LeftIsBelowRoot(pages, ranges, pend, root, cardinality, left);
      var p := DescendTo(key, level, pend);
      Store(p, key, right, left, pend);
    }

    /** btree_insert of a key that is not in the tree. */
    method Insert(key: int)
      requires Valid() && IsKey(key) && key != 0 && !Holds(pages, key)
      modifies this`pages, this`root, this`next, this`ranges
      ensures Valid() && KeySet(pages) == old(KeySet(pages)) + iset{key}
    {
      var p := DescendTo(key, 0, map[]);
      HoldsInRange(pages, ranges, map[], root, cardinality, p, key);
      Store(p, key, key, 0, map[]);
    }

    // -------------------------------------------------------------- search and deletion

    /** The leaf that is responsible for the key. */
    ghost predicate IsHome(a: int, key: int)
      reads this
    {
      a in pages && a in ranges && pages[a].level == 0 && ranges[a].lo <= key < ranges[a].hi
    }

    /** What the leaf search answers at home, and at any leaf to the right of home. */
    lemma LeafSearchAnswers(a: int, key: int)
      requires Valid() && a in pages && pages[a].level == 0 && key < ranges[a].hi
      ensures LeafSearch(pages, a, key) == if HasKey(pages[a].es, key) then key else NULL
      ensures HasKey(pages[a].es, key) ==> key != NULL && ranges[a].lo <= key
    {
      assert PageOk(pages[a], ranges[a], cardinality);
      LeafFind(pages[a], ranges[a], cardinality, key);
      if pages[a].sibling != NULL { SiblingIsBehind(pages, ranges, map[], root, cardinality, a); }
    }

    /**
      The loop shared by btree_search and btree_delete: descend, then hop right as long as the leaf
      search returns the sibling's address. The home leaf answers at once, unless it has no sibling
      and misses, or the key it holds equals the sibling's address.
     */
    method Locate(key: int) returns (p: int, t: int, ghost home: int)
      requires Valid() && IsKey(key)
      ensures IsHome(home, key)
      ensures HasKey(pages[home].es, key) && pages[home].sibling != key ==> p == home && t == key != NULL
      ensures HasKey(pages[home].es, key) && pages[home].sibling == key ==>
                t == NULL && (p == NULL || (p in pages && pages[p].level == 0 && !HasKey(pages[p].es, key)))
      ensures !HasKey(pages[home].es, key) ==> t == NULL && p == if pages[home].sibling == NULL then NULL else home
    {
      p := DescendTo(key, 0, map[]);
      home := p;
      LeafSearchAnswers(p, key);
      t := LeafSearch(pages, p, key);
      while t == pages[p].sibling
        invariant p in pages && pages[p].level == 0 && (p == home || ranges[home].hi <= ranges[p].lo)
        invariant t == LeafSearch(pages, p, key) && (t == NULL || t == key)
        invariant p == home ==> (t == key != NULL <==> HasKey(pages[home].es, key))
        invariant p != home ==> t == NULL && HasKey(pages[home].es, key) && pages[home].sibling == key
        invariant p != home ==> !HasKey(pages[p].es, key)
        decreases END_KEY - ranges[p].lo
      {
        if pages[p].sibling != NULL { SiblingIsBehind(pages, ranges, map[], root, cardinality, p); }
        assert PageOk(pages[p], ranges[p], cardinality);
        p := t;
        if p == NULL { break; }
        assert PageOk(pages[p], ranges[p], cardinality);
        LeafSearchAnswers(p, key);
        t := LeafSearch(pages, p, key);
      }
    }

    /** btree_search. */
    method Search(key: int) returns (t: int)
      requires Valid() && IsKey(key)
      ensures t != NULL <==> Holds(pages, key) && !Shadowed(pages, key)
      ensures t != NULL ==> t == key
    {
      ghost var home: int;
      var p: int;
      p, t, home := Locate(key);
      HoldsInRange(pages, ranges, map[], root, cardinality, home, key);
      OneHome(key, home);
    }

    lemma OneHome(key: int, home: int)
      requires Valid() && IsHome(home, key)
      ensures Shadowed(pages, key) <==> HasKey(pages[home].es, key) && pages[home].sibling == key
    {
      if a :| a in pages && pages[a].level == 0 && HasKey(pages[a].es, key) && pages[a].sibling == key {
        var i :| 0 <= i < |pages[a].es| && pages[a].es[i].key == key;
        assert PageOk(pages[a], ranges[a], cardinality);
        assert a == home || Apart(ranges[a], ranges[home]);
      }
    }

    /**
      One attempt of btree_delete. It removes the key exactly when a search finds it. An absent key is
      reported only at the last leaf; anywhere else the attempt changes nothing and is repeated forever.
     */
    method Delete(key: int) returns (outcome: DeleteOutcome)
      requires Valid() && IsKey(key)
      modifies this`pages
      ensures Valid()
      ensures outcome == Removed <==> old(Holds(pages, key) && !Shadowed(pages, key))
      ensures outcome == Removed ==> KeySet(pages) == old(KeySet(pages)) - iset{key}
      ensures outcome != Removed ==> pages == old(pages)
      ensures old(!Holds(pages, key)) ==>
                (outcome == NotFound <==> exists a :: old(IsHome(a, key) && pages[a].sibling == NULL))
    {
      var p, t;
      ghost var home;
      p, t, home := Locate(key);
      HomeDecides(key, home);
      if p == NULL {
        return NotFound;
      }
      var removed := RemoveFrom(p, key);
      outcome := if removed then Removed else Retry;
    }

    /** Everything about a key is settled at its home leaf. */
    lemma HomeDecides(key: int, home: int)
      requires Valid() && IsKey(key) && IsHome(home, key)
      ensures Holds(pages, key) <==> HasKey(pages[home].es, key)
      ensures Shadowed(pages, key) <==> HasKey(pages[home].es, key) && pages[home].sibling == key
      ensures (exists a :: IsHome(a, key) && pages[a].sibling == NULL) <==> pages[home].sibling == NULL
    {
      HoldsInRange(pages, ranges, map[], root, cardinality, home, key);
      OneHome(key, home);
      forall a | IsHome(a, key) ensures a == home { assert a == home || Apart(ranges[a], ranges[home]); }
    }

    /** page.remove on a leaf. */
    method RemoveFrom(p: int, key: int) returns (removed: bool)
      requires Valid() && p in pages && pages[p].level == 0
      modifies this`pages
      ensures Valid() && removed == old(HasKey(pages[p].es, key))
      ensures if removed then KeySet(pages) == old(KeySet(pages)) - iset{key} else pages == old(pages)
    {
      var leaf := pages[p];
      var r := Rank(leaf.es, key);
      assert PageOk(leaf, ranges[p], cardinality);
      RankFindsKey(leaf.es, key);
      removed := r > 0 && leaf.es[r - 1].key == key;
      if removed {
        LeafRemove(pages, ranges, map[], root, cardinality, p, key);
        pages := pages[p := WithoutKey(leaf, key)];
      }
    }

    // -------------------------------------------------------------- whole runs

    /** A nonzero key below every page address is never mistaken for a sibling. */
    lemma LowKeysAreNotShadowed(key: int)
      requires Valid() && key != 0 && key < heapStart
      ensures !Shadowed(pages, key)
    {
      forall a | a in pages && pages[a].level == 0 ensures pages[a].sibling != key {
        assert SiblingOk(pages, ranges, pages[a], ranges[a]);
      }
    }

    /** apply_buffered_op: a delete is attempted only after a search hit, and so passes over a shadowed key. */
    method Apply(op: TreeOp) returns (outcome: DeleteOutcome)
      requires Valid() && IsKey(op.key) && op.key != 0
      requires op.Insertion? ==> !Holds(pages, op.key)
      modifies this`pages, this`root, this`next, this`ranges
      ensures Valid() && outcome != Retry
      ensures KeySet(pages) == if op.Deletion? && old(Shadowed(pages, op.key)) then old(KeySet(pages))
              else Effect(op, old(KeySet(pages)))
      ensures op.key < heapStart ==> !old(Shadowed(pages, op.key))
    {
      if op.key < heapStart { LowKeysAreNotShadowed(op.key); }
      outcome := NotFound;
      match op
      case Insertion(key) => Insert(key);
      case Deletion(key) =>
        var t := Search(key);
        if t != NULL {
          outcome := Delete(key);
        }
    }

    /**
      Over every run that inserts absent keys and erases any keys, the tree stays well shaped, no
      delete is ever repeated, and its keys are those of the run on a set, except for deletes that pass
      over a shadowed key, which is at or above the lowest page address.
     */
    method Execute(ops: seq<TreeOp>) returns (ghost skipped: seq<bool>)
      requires Valid() && InsertsAbsent(ops, KeySet(pages)) && NoSkipMatters(ops, heapStart)
      requires forall i :: 0 <= i < |ops| ==> IsKey(ops[i].key) && ops[i].key != 0
      modifies this`pages, this`root, this`next, this`ranges
      ensures Valid() && |skipped| == |ops| && KeySet(pages) == AfterSkipping(ops, skipped, old(KeySet(pages)))
      ensures forall i :: 0 <= i < |ops| && skipped[i] ==> ops[i].Deletion? && ops[i].key >= heapStart
      ensures (forall i :: 0 <= i < |ops| ==> ops[i].key < heapStart) ==>
              KeySet(pages) == After(ops, old(KeySet(pages)))
    {
      ghost var start, ideal := KeySet(pages), KeySet(pages);
      skipped := [];
      assert ops[0..] == ops;
      for i := 0 to |ops|
        invariant Valid() && RunOk(ops, i, skipped, start, KeySet(pages), ideal, heapStart)
      {
        ghost var before, skip := KeySet(pages), ops[i].Deletion? && Shadowed(pages, ops[i].key);
        InsertedIsAbsent(ops, i, heapStart, before, ideal);
        var outcome := Apply(ops[i]);
        RunNext(ops, i, skipped, start, before, ideal, heapStart, skip);
        skipped := skipped + [skip];
        ideal := Effect(ops[i], ideal);
      }
      assert ops[..|ops|] == ops && ops[|ops|..] == [];
    }
  }

  /** Where a run stands: the keys follow the operations that were not skipped, and the ideal set all of them. */
  ghost predicate RunOk(ops: seq<TreeOp>, i: nat, skipped: seq<bool>, start: iset<int>, keys: iset<int>,
                        ideal: iset<int>, heapStart: int) {
    && i == |skipped| <= |ops| && keys == AfterSkipping(ops[..i], skipped, start)
    && (forall j :: 0 <= j < i && skipped[j] ==> ops[j].Deletion? && ops[j].key >= heapStart)
    && After(ops[i..], ideal) == After(ops, start) && InsertsAbsent(ops[i..], ideal)
    && OnlySkippedDiffer(ops, i, heapStart, keys, ideal)
  }

  lemma RunNext(ops: seq<TreeOp>, i: nat, skipped: seq<bool>, start: iset<int>, keys: iset<int>, ideal: iset<int>,
                heapStart: int, skip: bool)
    requires i < |ops| && RunOk(ops, i, skipped, start, keys, ideal, heapStart)
    requires skip ==> ops[i].Deletion? && ops[i].key >= heapStart
    ensures RunOk(ops, i + 1, skipped + [skip], start, if skip then keys
                  else Effect(ops[i], keys), Effect(ops[i], ideal), heapStart)
  {
    assert ops[i..][1..] == ops[i + 1..] && ops[i..][0] == ops[i];
    SkippingNext(ops, skipped, i, skip, start);
    DifferNext(ops, i, heapStart, keys, ideal, skip);
  }

  /** What a run leaves when some of its operations are passed over. */
  ghost function AfterSkipping(ops: seq<TreeOp>, skipped: seq<bool>, keys: iset<int>): iset<int>
    requires |ops| == |skipped|
  {
    if ops == [] then keys
    else
      var n := |ops| - 1;
      var rest := AfterSkipping(ops[..n], skipped[..n], keys);
      if skipped[n] then rest else Effect(ops[n], rest)
  }

  lemma SkippingNext(ops: seq<TreeOp>, skipped: seq<bool>, i: nat, skip: bool, keys: iset<int>)
    requires i == |skipped| < |ops|
    ensures var now := AfterSkipping(ops[..i], skipped, keys);
            AfterSkipping(ops[..i + 1], skipped + [skip], keys) == if skip then now else Effect(ops[i], now)
  {
    assert ops[..i + 1][..i] == ops[..i] && (skipped + [skip])[..i] == skipped;
  }

  /** A key whose delete could be passed over is not inserted again. */
  ghost predicate NoSkipMatters(ops: seq<TreeOp>, heapStart: int) {
    forall i, j :: 0 <= i < j < |ops| && ops[i].Deletion? && ops[j] == Insertion(ops[i].key) ==> ops[i].key < heapStart
  }

  /** The keys of the tree and those of the run on a set differ only by deletes that were passed over. */
  ghost predicate OnlySkippedDiffer(ops: seq<TreeOp>, i: nat, heapStart: int, keys: iset<int>, ideal: iset<int>)
    requires i <= |ops|
  {
    ideal <= keys && forall k :: k in keys && k !in ideal ==>
        k >= heapStart && exists j :: 0 <= j < i && ops[j] == Deletion(k)
  }

  lemma InsertedIsAbsent(ops: seq<TreeOp>, i: nat, heapStart: int, keys: iset<int>, ideal: iset<int>)
    requires i < |ops| && OnlySkippedDiffer(ops, i, heapStart, keys, ideal) && NoSkipMatters(ops, heapStart)
    requires InsertsAbsent(ops[i..], ideal)
    ensures ops[i].Insertion? ==> ops[i].key !in keys
  {
  }

  lemma DifferNext(ops: seq<TreeOp>, i: nat, heapStart: int, keys: iset<int>, ideal: iset<int>, skip: bool)
    requires i < |ops| && OnlySkippedDiffer(ops, i, heapStart, keys, ideal)
             && (skip ==> ops[i].Deletion? && ops[i].key >= heapStart)
    ensures OnlySkippedDiffer(ops, i + 1, heapStart, if skip then keys else Effect(ops[i], keys), Effect(ops[i], ideal))
  {
    var keys', ideal' := if skip then keys else Effect(ops[i], keys), Effect(ops[i], ideal);
    forall k | k in keys' && k !in ideal'
      ensures k >= heapStart && exists j :: 0 <= j < i + 1 && ops[j] == Deletion(k) {
      if k == ops[i].key && ops[i].Deletion? { assert ops[i] == Deletion(k); }
    }
  }

  /** A pending page other than the root is below the root, and its split key is a key. */
  lemma LeftIsBelowRoot(ps: Pages, rs: Ranges, pend: map<int, int>, root: int, cardinality: nat, left: int)
    requires TreeOk(ps, rs, pend, root, cardinality) && left in pend && root !in pend
    ensures left in ps && ps[left].level < ps[root].level && IsKey(rs[left].hi)
  {
    assert HalvesOk(ps, rs, pend, left) && NotAbove(ps, left, root);
    assert PageOk(ps[left], rs[left], cardinality) && PageOk(ps[pend[left]], rs[pend[left]], cardinality);
    assert left == root || Apart(rs[left], rs[root]) || ps[left].level < ps[root].level;
  }

  // ---------------------------------------------------------------- a shadowed key

  const EMPTY_LEAF := Page(0, NULL, NULL, [], [MAX_KEY, MAX_KEY, MAX_KEY, MAX_KEY])

  /**
    The pages after inserting 101, 300, 400 and 350 into an empty tree whose root is page 100: the last
    insertion splits the leaf, and the new pages are 101 and 102.
   */
  function Grown(): Pages {
    var full := WithEntry(WithEntry(WithEntry(EMPTY_LEAF, Rec(101, 101)), Rec(300, 300)), Rec(400, 400));
    assert full.es == [Rec(101, 101), Rec(300, 300), Rec(400, 400)];
    var halves := map[100 := LeftHalf(full, 1, 101), 101 := RightHalf(full, 1, 4)];
    var stored := halves[101 := WithEntry(halves[101], Rec(350, 350))];
    stored[102 := NewRoot(stored, 100, 300, 101, 4)]
  }

  ghost function GrownRanges(): Ranges {
    map[100 := Range(MIN_KEY, 300), 101 := Range(300, END_KEY), 102 := Range(MIN_KEY, END_KEY)]
  }

  const LEFT_LEAF := Page(0, NULL, 101, [Rec(101, 101)], [300, 400, MAX_KEY])
  const RIGHT_LEAF := Page(0, NULL, NULL, [Rec(300, 300), Rec(350, 350), Rec(400, 400)], [MAX_KEY])
  const ROOT_PAGE := Page(1, 100, NULL, [Rec(300, 101)], [MAX_KEY, MAX_KEY, MAX_KEY])

  lemma GrownPages()
    ensures Grown() == map[100 := LEFT_LEAF, 101 := RIGHT_LEAF, 102 := ROOT_PAGE]
  {
    var full := WithEntry(WithEntry(WithEntry(EMPTY_LEAF, Rec(101, 101)), Rec(300, 300)), Rec(400, 400));
    assert full == Page(0, NULL, NULL, [Rec(101, 101), Rec(300, 300), Rec(400, 400)], [MAX_KEY]);
    assert LeftHalf(full, 1, 101) == Page(0, NULL, 101, [Rec(101, 101)], [300, 400, MAX_KEY]);
    var right := Page(0, NULL, NULL, [Rec(300, 300), Rec(400, 400)], [MAX_KEY, MAX_KEY]);
    assert RightHalf(full, 1, 4) == right;
    assert right.es[1..] == [Rec(400, 400)] && Rank(right.es, 350) == 1;
    assert WithEntry(right, Rec(350, 350))
           == Page(0, NULL, NULL, [Rec(300, 300), Rec(350, 350), Rec(400, 400)], [MAX_KEY]);
    assert seq(3, _ => MAX_KEY) == [MAX_KEY, MAX_KEY, MAX_KEY];
  }

  lemma GrownPagesOk()
    ensures AllPagesOk(Grown(), GrownRanges(), 4)
  {
    GrownPages();
    LeftLeafOk();
    RightLeafOk();
    RootPageOk();
  }

  lemma LeftLeafOk()
    ensures PageOk(LEFT_LEAF, Range(MIN_KEY, 300), 4)
  {
    GrownLeafOk([Rec(101, 101)], [300, 400, MAX_KEY], 101, Range(MIN_KEY, 300));
  }

  lemma RightLeafOk()
    ensures PageOk(RIGHT_LEAF, Range(300, END_KEY), 4)
  {
    GrownLeafOk([Rec(300, 300), Rec(350, 350), Rec(400, 400)], [MAX_KEY], NULL, Range(300, END_KEY));
  }

  lemma RootPageOk()
    ensures PageOk(ROOT_PAGE, Range(MIN_KEY, END_KEY), 4)
  {
  }

  lemma GrownLeafOk(es: seq<Rec>, stale: seq<int>, sibling: int, r: Range)
    requires |es| < 4 && |es| + |stale| == 4 && MIN_KEY <= r.lo < r.hi <= END_KEY
    requires forall i, j :: 0 <= i < j < |es| ==> es[i].key < es[j].key
    requires forall i :: 0 <= i < |es| ==> es[i].ptr == es[i].key != NULL && r.lo <= es[i].key < r.hi
    requires forall i :: 0 <= i < |stale| ==> r.hi <= stale[i] || stale[i] == MAX_KEY
    ensures PageOk(Page(0, NULL, sibling, es, stale), r, 4)
  {
  }

  lemma GrownChildrenOk()
    ensures AllChildrenOk(Grown(), GrownRanges(), map[]) && RootOk(Grown(), GrownRanges(), map[], 102)
  {
    GrownPages();
  }

  lemma GrownSiblingsOk()
    ensures AllSiblingsOk(Grown(), GrownRanges()) && LevelsApart(Grown(), GrownRanges())
  {
    GrownPages();
  }

  lemma GrownIsOk()
    ensures TreeOk(Grown(), GrownRanges(), map[], 102, 4)
  {
    GrownPages();
    GrownPagesOk();
    GrownChildrenOk();
    GrownSiblingsOk();
  }

  lemma GrownAddresses()
    ensures forall a :: a in Grown() ==> 100 <= a < 103
  {
    GrownPages();
  }

  /** They hold 101, in a leaf whose sibling has that address. */
  lemma GrownIsShadowed()
    ensures Holds(Grown(), 101) && Shadowed(Grown(), 101)
  {
    GrownPages();
    var left := Grown()[100];
    assert left.es[0].key == 101 && HasKey(left.es, 101);
    assert left.level == 0 && left.sibling == 101;
  }

  /** On that well-shaped tree a search for 101 finds nothing, and a delete of it does not remove it. */
  method ShadowedKeyIsMissed() returns (tree: BTree, found: int, outcome: DeleteOutcome)
    ensures fresh(tree) && tree.Valid() && tree.pages == Grown() && Holds(tree.pages, 101)
    ensures found == NULL && outcome != Removed
  {
    GrownIsOk();
    GrownIsShadowed();
    GrownAddresses();
    tree := new BTree.Reopen(4, 100, Grown(), 102, 103, GrownRanges());
    found := tree.Search(101);
    outcome := tree.Delete(101);
  }

  // ---------------------------------------------------------------- two copies of a key

  /**
    The pages after inserting 7, 7, 9 and 8 into an empty tree whose root is page 100, and then deleting
    one 7: the split has put one copy in each half, and the delete has taken the right one.
   */
  function Straddled(): Pages {
    var full := WithEntry(WithEntry(WithEntry(EMPTY_LEAF, Rec(7, 7)), Rec(7, 7)), Rec(9, 9));
    StraddlingLeaf();
    var halves := map[100 := LeftHalf(full, 1, 101), 101 := RightHalf(full, 1, 4)];
    var stored := halves[101 := WithEntry(halves[101], Rec(8, 8))];
    var grown := stored[102 := NewRoot(stored, 100, 7, 101, 4)];
    grown[101 := WithoutKey(grown[101], 7)]
  }

  lemma StraddlingLeaf()
    ensures WithEntry(WithEntry(WithEntry(EMPTY_LEAF, Rec(7, 7)), Rec(7, 7)), Rec(9, 9)).es
            == [Rec(7, 7), Rec(7, 7), Rec(9, 9)]
  {
    assert [Rec(7, 7)][1..] == [] && Rank([Rec(7, 7)], 7) == 1;
    assert [Rec(7, 7), Rec(7, 7)][1..] == [Rec(7, 7)] && Rank([Rec(7, 7), Rec(7, 7)], 9) == 2;
  }

  lemma StraddledPages()
    ensures var ps := Straddled();
            && ps.Keys == {100, 101, 102}
            && ps[100] == Page(0, NULL, 101, [Rec(7, 7)], [7, 9, MAX_KEY])
            && ps[101] == Page(0, NULL, NULL, [Rec(8, 8), Rec(9, 9)], [MAX_KEY, MAX_KEY])
            && ps[102].level == 1 && ps[102].leftmost == 100 && ps[102].sibling == NULL && ps[102].es == [Rec(7, 101)]
  {
    StraddlingLeaf();
    var full := WithEntry(WithEntry(WithEntry(EMPTY_LEAF, Rec(7, 7)), Rec(7, 7)), Rec(9, 9));
    var left, right := LeftHalf(full, 1, 101), RightHalf(full, 1, 4);
    assert left == Page(0, NULL, 101, [Rec(7, 7)], [7, 9, MAX_KEY]);
    assert right == Page(0, NULL, NULL, [Rec(7, 7), Rec(9, 9)], [MAX_KEY, MAX_KEY]);
    StraddledRight(right);
  }

  lemma StraddledRight(right: Page)
    requires right == Page(0, NULL, NULL, [Rec(7, 7), Rec(9, 9)], [MAX_KEY, MAX_KEY])
    ensures WithoutKey(WithEntry(right, Rec(8, 8)), 7)
            == Page(0, NULL, NULL, [Rec(8, 8), Rec(9, 9)], [MAX_KEY, MAX_KEY])
  {
    assert right.es[1..] == [Rec(9, 9)] && Rank(right.es, 8) == 1;
    var more := WithEntry(right, Rec(8, 8));
    assert more == Page(0, NULL, NULL, [Rec(7, 7), Rec(8, 8), Rec(9, 9)], [MAX_KEY]);
    assert more.es[1..] == [Rec(8, 8), Rec(9, 9)] && Rank(more.es, 7) == 1;
  }

  /** The other copy is still there, but a search is routed to the right half and does not find it. */
  lemma StraddlingCopyIsMissed()
    ensures var ps := Straddled();
            && ps.Keys == {100, 101, 102} && HasKey(ps[100].es, 7)
            && Step(ps, 102, 7) == 101 && LeafSearch(ps, 101, 7) == NULL
  {
    StraddledPages();
    assert Straddled()[100].es[0].key == 7;
    RightOfSeven();
  }

  lemma RightOfSeven()
    ensures Rank([Rec(7, 101)], 7) == 1 && Find([Rec(8, 8), Rec(9, 9)], 7) == NULL
  {
    assert [Rec(7, 101)][1..] == [];
    assert [Rec(8, 8), Rec(9, 9)][1..] == [Rec(9, 9)] && [Rec(9, 9)][1..] == [];
    assert Find([Rec(9, 9)], 7) == NULL;
  }
}
