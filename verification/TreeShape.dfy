/**
  The B+-tree as pages linked by addresses, and the shape that searches rely on.

  Every page has a key range. Siblings tile the key space at each level, the children of an internal
  page tile its range, and all pages of a level are disjoint. Between a split and the update of the
  parent, one page is split in two that the parent still sees as one: `pend` maps it to its new
  right half. The lemmas say what each page-level change does to this shape.
 */
module TreeShape {
  import opened RecordLists

  const MIN_KEY := -0x8000_0000_0000_0000
  const MAX_KEY := 0x7FFF_FFFF_FFFF_FFFF
  const END_KEY := MAX_KEY + 1

  /** A page; `stale` lists the keys that remain in the slots behind the entries. */
  datatype Page = Page(level: nat, leftmost: int, sibling: int, es: seq<Rec>, stale: seq<int>)

  /** The keys that a page is responsible for: lo <= key < hi. */
  datatype Range = Range(lo: int, hi: int)

  type Pages = map<int, Page>
  type Ranges = map<int, Range>

  predicate IsKey(k: int) {
    MIN_KEY <= k <= MAX_KEY
  }

  /** records[0].key, which is a stale key when the page is empty. */
  function FirstKey(p: Page): int {
    if p.es != [] then p.es[0].key else if p.stale != [] then p.stale[0] else MAX_KEY
  }

  // ---------------------------------------------------------------- shape

  /** What a page holds by itself. */
  ghost predicate PageOk(p: Page, r: Range, cardinality: nat) {
    && MIN_KEY <= r.lo < r.hi <= END_KEY
    && WellFormed(p.es, p.leftmost)
    && |p.es| < cardinality && |p.es| + |p.stale| == cardinality
    && (forall i :: 0 <= i < |p.es| ==> r.lo <= p.es[i].key < r.hi)
    && (forall i :: 0 <= i < |p.stale| ==> r.hi <= p.stale[i] || p.stale[i] == MAX_KEY)
    && (p.level == 0 ==> p.leftmost == NULL && forall i :: 0 <= i < |p.es| ==> p.es[i].ptr == p.es[i].key)
    && (p.level > 0 ==> p.leftmost != NULL && p.es != [] && r.lo < p.es[0].key)
  }

  /** Child c, with its pending right half if it has one, is responsible for [from, to). */
  ghost predicate Covers(ps: Pages, rs: Ranges, pend: map<int, int>, c: int, level: nat, from: int, to: int)
    requires ps.Keys == rs.Keys
  {
    && c in ps && ps[c].level == level && rs[c].lo == from
    && (if c in pend then pend[c] in rs && rs[pend[c]].hi == to else rs[c].hi == to)
  }

  /** The upper bound of what child i - 1 (the leftmost for i == 0) of a page covers. */
  function Bound(p: Page, r: Range, i: nat): int {
    if i < |p.es| then p.es[i].key else r.hi
  }

  ghost predicate ChildrenOk(ps: Pages, rs: Ranges, pend: map<int, int>, p: Page, r: Range)
    requires ps.Keys == rs.Keys
  {
    p.level > 0 ==>
      && Covers(ps, rs, pend, p.leftmost, p.level - 1, r.lo, Bound(p, r, 0))
      && forall i :: 0 <= i < |p.es| ==> Covers(ps, rs, pend, p.es[i].ptr, p.level - 1, p.es[i].key, Bound(p, r, i + 1))
  }

  ghost predicate SiblingOk(ps: Pages, rs: Ranges, p: Page, r: Range)
    requires ps.Keys == rs.Keys
  {
    if p.sibling == NULL then r.hi == END_KEY
    else p.sibling in ps && ps[p.sibling].level == p.level && rs[p.sibling].lo == r.hi
  }

  ghost predicate Apart(r: Range, q: Range) {
    r.hi <= q.lo || q.hi <= r.lo
  }

  ghost predicate LevelsApart(ps: Pages, rs: Ranges)
    requires ps.Keys == rs.Keys
  {
    forall a, b {:trigger Apart(rs[a], rs[b])} ::
      a in ps && b in ps && a != b && ps[a].level == ps[b].level ==> Apart(rs[a], rs[b])
  }

  ghost predicate PendOk(ps: Pages, rs: Ranges, pend: map<int, int>)
    requires ps.Keys == rs.Keys
  {
    forall c {:trigger HalvesOk(ps, rs, pend, c)} :: c in pend ==> HalvesOk(ps, rs, pend, c)
  }

  /** The two halves of a pending split meet, at one level. */
  ghost predicate HalvesOk(ps: Pages, rs: Ranges, pend: map<int, int>, c: int)
    requires ps.Keys == rs.Keys && c in pend
  {
    && c in ps && pend[c] in ps && pend[c] != c && pend[c] !in pend
    && ps[pend[c]].level == ps[c].level && rs[pend[c]].lo == rs[c].hi
    && Unlinked(ps, pend[c])
  }

  ghost predicate HasChild(p: Page, s: int) {
    p.level > 0 && (p.leftmost == s || exists i :: 0 <= i < |p.es| && p.es[i].ptr == s)
  }

  /** No internal page points to s. */
  ghost predicate Unlinked(ps: Pages, s: int) {
    forall b {:trigger HasChild(ps[b], s)} :: b in ps ==> !HasChild(ps[b], s)
  }

  ghost predicate NotAbove(ps: Pages, a: int, root: int)
    requires a in ps && root in ps
  {
    ps[a].level <= ps[root].level
  }

  ghost predicate AllPagesOk(ps: Pages, rs: Ranges, cardinality: nat)
    requires ps.Keys == rs.Keys
  {
    forall a {:trigger PageOk(ps[a], rs[a], cardinality)} :: a in ps ==> PageOk(ps[a], rs[a], cardinality)
  }

  ghost predicate AllChildrenOk(ps: Pages, rs: Ranges, pend: map<int, int>)
    requires ps.Keys == rs.Keys
  {
    forall a {:trigger ChildrenOk(ps, rs, pend, ps[a], rs[a])} :: a in ps ==> ChildrenOk(ps, rs, pend, ps[a], rs[a])
  }

  ghost predicate AllSiblingsOk(ps: Pages, rs: Ranges)
    requires ps.Keys == rs.Keys
  {
    forall a {:trigger SiblingOk(ps, rs, ps[a], rs[a])} :: a in ps ==> SiblingOk(ps, rs, ps[a], rs[a])
  }

  ghost predicate RootOk(ps: Pages, rs: Ranges, pend: map<int, int>, root: int)
    requires ps.Keys == rs.Keys
  {
    && root in ps && Covers(ps, rs, pend, root, ps[root].level, MIN_KEY, END_KEY)
    && forall a {:trigger NotAbove(ps, a, root)} :: a in ps ==> NotAbove(ps, a, root)
  }

  ghost predicate TreeOk(ps: Pages, rs: Ranges, pend: map<int, int>, root: int, cardinality: nat) {
    && ps.Keys == rs.Keys && 4 <= cardinality && NULL !in ps
    && AllPagesOk(ps, rs, cardinality)
    && AllChildrenOk(ps, rs, pend)
    && AllSiblingsOk(ps, rs)
    && LevelsApart(ps, rs)
    && PendOk(ps, rs, pend)
    && RootOk(ps, rs, pend, root)
  }

  /** k is an entry of some leaf. */
  ghost predicate Holds(ps: Pages, k: int) {
    exists a :: a in ps && ps[a].level == 0 && HasKey(ps[a].es, k)
  }

  ghost function KeySet(ps: Pages): iset<int> {
    iset k | Holds(ps, k)
  }

  // ---------------------------------------------------------------- searching

  /** An internal page routes a key of its range to the child that covers it. */
  lemma RouteCovers(ps: Pages, rs: Ranges, pend: map<int, int>, root: int, cardinality: nat, a: int, k: int)
    requires TreeOk(ps, rs, pend, root, cardinality) && a in ps && ps[a].level > 0
    requires rs[a].lo <= k < rs[a].hi
    ensures var p := ps[a]; var i := Rank(p.es, k);
            && rs[a].lo <= (if i == 0 then rs[a].lo else p.es[i - 1].key) <= k < Bound(p, rs[a], i)
            && Covers(ps, rs, pend, Route(p.es, p.leftmost, k), p.level - 1,
                      if i == 0 then rs[a].lo else p.es[i - 1].key, Bound(p, rs[a], i))
  {
    assert PageOk(ps[a], rs[a], cardinality);
    RankSplits(ps[a].es, k);
    assert ChildrenOk(ps, rs, pend, ps[a], rs[a]);
  }

  /** A key lives in the one leaf whose range contains it. */
  lemma HoldsInRange(ps: Pages, rs: Ranges, pend: map<int, int>, root: int, cardinality: nat, a: int, k: int)
    requires TreeOk(ps, rs, pend, root, cardinality) && a in ps && ps[a].level == 0
    requires rs[a].lo <= k < rs[a].hi
    ensures Holds(ps, k) <==> HasKey(ps[a].es, k)
  {
    if Holds(ps, k) {
      var b :| b in ps && ps[b].level == 0 && HasKey(ps[b].es, k);
      var i :| 0 <= i < |ps[b].es| && ps[b].es[i].key == k;
      assert PageOk(ps[b], rs[b], cardinality);
      assert b == a || Apart(rs[a], rs[b]);
    }
  }

  /** The next page at the same level starts behind every key of this page's range. */
  lemma SiblingIsBehind(ps: Pages, rs: Ranges, pend: map<int, int>, root: int, cardinality: nat, a: int)
    requires TreeOk(ps, rs, pend, root, cardinality) && a in ps && ps[a].sibling != NULL
    ensures var s := ps[a].sibling; s in ps && ps[s].level == ps[a].level && rs[s].lo == rs[a].hi <= FirstKey(ps[s])
  {
    var s := ps[a].sibling;
    assert SiblingOk(ps, rs, ps[a], rs[a]);
    assert PageOk(ps[s], rs[s], cardinality);
  }

  // ---------------------------------------------------------------- changing one page

  /** Levels and ranges are all that a parent or a sibling knows about a page. */
  lemma CoversKept(ps: Pages, ps': Pages, rs: Ranges, pend: map<int, int>, p: Page, r: Range)
    requires ps.Keys == ps'.Keys == rs.Keys && ChildrenOk(ps, rs, pend, p, r)
    requires forall c :: c in ps ==> ps'[c].level == ps[c].level
    ensures ChildrenOk(ps', rs, pend, p, r)
  {
    if p.level > 0 {
      forall i | 0 <= i < |p.es|
        ensures Covers(ps', rs, pend, p.es[i].ptr, p.level - 1, p.es[i].key, Bound(p, r, i + 1)) {
        assert Covers(ps, rs, pend, p.es[i].ptr, p.level - 1, p.es[i].key, Bound(p, r, i + 1));
      }
    }
  }

  lemma ChildrenKept(ps: Pages, rs: Ranges, pend: map<int, int>, a: int, p: Page)
    requires ps.Keys == rs.Keys && a in ps && p.level == ps[a].level
    requires AllChildrenOk(ps, rs, pend) && ChildrenOk(ps, rs, pend, p, rs[a])
    ensures AllChildrenOk(ps[a := p], rs, pend)
  {
    var ps' := ps[a := p];
    forall b | b in ps' ensures ChildrenOk(ps', rs, pend, ps'[b], rs[b]) {
      assert b == a || ChildrenOk(ps, rs, pend, ps[b], rs[b]);
      CoversKept(ps, ps', rs, pend, ps'[b], rs[b]);
    }
  }

  lemma LinksKept(ps: Pages, rs: Ranges, pend: map<int, int>, root: int, a: int, p: Page)
    requires ps.Keys == rs.Keys && a in ps && p.level == ps[a].level && p.sibling == ps[a].sibling
    requires forall c {:trigger pend[c]} :: c in pend ==> !HasChild(p, pend[c])
    requires AllSiblingsOk(ps, rs) && LevelsApart(ps, rs) && PendOk(ps, rs, pend) && RootOk(ps, rs, pend, root)
    ensures var ps' := ps[a := p];
            AllSiblingsOk(ps', rs) && LevelsApart(ps', rs) && PendOk(ps', rs, pend) && RootOk(ps', rs, pend, root)
  {
    var ps' := ps[a := p];
    forall b | b in ps' ensures SiblingOk(ps', rs, ps'[b], rs[b]) { assert SiblingOk(ps, rs, ps[b], rs[b]); }
    forall c | c in pend ensures HalvesOk(ps', rs, pend, c) {
      assert HalvesOk(ps, rs, pend, c);
      forall b | b in ps' ensures !HasChild(ps'[b], pend[c]) { assert !HasChild(ps[b], pend[c]); }
    }
    forall b | b in ps' ensures NotAbove(ps', b, root) { assert NotAbove(ps, b, root); }
  }

  /** New contents for a page of the same level, range and links keep the shape. */
  lemma ContentsChanged(ps: Pages, rs: Ranges, pend: map<int, int>, root: int, cardinality: nat, a: int, p: Page)
    requires TreeOk(ps, rs, pend, root, cardinality) && a in ps
    requires p.level == ps[a].level && p.sibling == ps[a].sibling && PageOk(p, rs[a], cardinality)
    requires ChildrenOk(ps, rs, pend, p, rs[a])
    requires forall c {:trigger pend[c]} :: c in pend ==> !HasChild(p, pend[c])
    ensures TreeOk(ps[a := p], rs, pend, root, cardinality)
  {
    ChildrenKept(ps, rs, pend, a, p);
    LinksKept(ps, rs, pend, root, a, p);
    var ps' := ps[a := p];
    forall b | b in ps' ensures PageOk(ps'[b], rs[b], cardinality) {
      assert b == a || PageOk(ps[b], rs[b], cardinality);
    }
  }

  lemma LeafKeys(ps: Pages, a: int, p: Page, x: int)
    requires a in ps && ps[a].level == p.level == 0
    ensures Holds(ps[a := p], x)
        <==> HasKey(p.es, x) || exists b :: b in ps && b != a && ps[b].level == 0 && HasKey(ps[b].es, x)
  {
    var ps' := ps[a := p];
    if HasKey(p.es, x) { assert ps'[a] == p; }
    if b :| b in ps && b != a && ps[b].level == 0 && HasKey(ps[b].es, x) { assert ps'[b] == ps[b]; }
  }

  /** insert_key on a page: one stale slot is used up. */
  function WithEntry(p: Page, r: Rec): Page {
    p.(es := Inserted(p.es, r), stale := if p.stale == [] then [] else p.stale[1..])
  }

  /** remove_key on a page: the last entry's slot takes the key behind it. */
  function WithoutKey(p: Page, k: int): Page {
    p.(es := Removed(p.es, k), stale := Repeated(p.stale))
  }

  function Repeated(stale: seq<int>): (r: seq<int>)
    ensures stale != [] ==> |r| == |stale| + 1
    ensures forall i :: 0 <= i < |r| && stale != [] ==> r[i] == stale[if i == 0 then 0 else i - 1]
  {
    if stale == [] then [] else [stale[0]] + stale
  }

  lemma EntryKeepsPageOk(p: Page, r: Range, cardinality: nat, e: Rec)
    requires PageOk(p, r, cardinality) && |p.es| < cardinality - 1 && !HasKey(p.es, e.key)
    requires r.lo <= e.key < r.hi && e.ptr != NULL && e.ptr != p.leftmost
    requires forall i :: 0 <= i < |p.es| ==> p.es[i].ptr != e.ptr
    requires p.level == 0 ==> e.ptr == e.key
    requires p.level > 0 ==> r.lo < e.key
    ensures PageOk(WithEntry(p, e), r, cardinality)
  {
    var p' := WithEntry(p, e);
    InsertedWellFormed(p.es, p.leftmost, e);
    forall i | 0 <= i < |p'.es|
      ensures r.lo <= p'.es[i].key < r.hi
      ensures p.level == 0 ==> p'.es[i].ptr == p'.es[i].key
      ensures p.level > 0 ==> r.lo < p'.es[i].key
    {
      InsertedAt(p.es, e, i);
      if p.level > 0 && i > 0 { assert p'.es[0].key < p'.es[i].key; }
    }
  }

  /** Inserting a key into the leaf that is responsible for it. */
  lemma LeafInsert(ps: Pages, rs: Ranges, pend: map<int, int>, root: int, cardinality: nat, a: int, k: int)
    requires TreeOk(ps, rs, pend, root, cardinality) && a in ps && ps[a].level == 0
    requires rs[a].lo <= k < rs[a].hi && k != 0 && !HasKey(ps[a].es, k) && |ps[a].es| < cardinality - 1
    ensures var ps' := ps[a := WithEntry(ps[a], Rec(k, k))];
            TreeOk(ps', rs, pend, root, cardinality) && KeySet(ps') == KeySet(ps) + iset{k}
  {
    var p := ps[a];
    var p' := WithEntry(p, Rec(k, k));
    var ps' := ps[a := p'];
    assert PageOk(p, rs[a], cardinality);
    EntryKeepsPageOk(p, rs[a], cardinality, Rec(k, k));
    ContentsChanged(ps, rs, pend, root, cardinality, a, p');
    forall x ensures Holds(ps', x) <==> Holds(ps, x) || x == k {
      InsertedKeys(p.es, Rec(k, k), x);
      LeafKeys(ps, a, p', x);
      LeafKeys(ps, a, p, x);
      assert ps[a := p] == ps;
    }
  }

  lemma RemovalKeepsPageOk(p: Page, r: Range, cardinality: nat, pos: nat)
    requires PageOk(p, r, cardinality) && p.level == 0 && pos < |p.es|
    ensures PageOk(WithoutKey(p, p.es[pos].key), r, cardinality)
  {
    RemovedAt(p.es, pos);
    RemovedWellFormed(p.es, NULL, pos);
    var p' := WithoutKey(p, p.es[pos].key);
    forall i | 0 <= i < |p'.es| ensures r.lo <= p'.es[i].key < r.hi && p'.es[i].ptr == p'.es[i].key {
      assert p'.es[i] == if i < pos then p.es[i] else p.es[i + 1];
    }
  }

  /** Removing a key from its leaf. */
  lemma LeafRemove(ps: Pages, rs: Ranges, pend: map<int, int>, root: int, cardinality: nat, a: int, k: int)
    requires TreeOk(ps, rs, pend, root, cardinality) && a in ps && ps[a].level == 0
    requires rs[a].lo <= k < rs[a].hi && HasKey(ps[a].es, k)
    ensures var ps' := ps[a := WithoutKey(ps[a], k)];
            TreeOk(ps', rs, pend, root, cardinality) && KeySet(ps') == KeySet(ps) - iset{k}
  {
    var p := ps[a];
    var p' := WithoutKey(p, k);
    var ps' := ps[a := p'];
    assert PageOk(p, rs[a], cardinality);
    var pos :| 0 <= pos < |p.es| && p.es[pos].key == k;
    RemovalKeepsPageOk(p, rs[a], cardinality, pos);
    RemovedAt(p.es, pos);
    RemovedWellFormed(p.es, NULL, pos);
    ContentsChanged(ps, rs, pend, root, cardinality, a, p');
    HoldsInRange(ps', rs, pend, root, cardinality, a, k);
    OneKeyLess(ps, a, p', k);
  }

  /** A leaf without one of its keys, in a tree that holds the key nowhere else. */
  lemma OneKeyLess(ps: Pages, a: int, p': Page, k: int)
    requires a in ps && ps[a].level == p'.level == 0 && !Holds(ps[a := p'], k)
    requires forall x :: HasKey(p'.es, x) <==> x != k && HasKey(ps[a].es, x)
    ensures KeySet(ps[a := p']) == KeySet(ps) - iset{k}
  {
    forall x ensures Holds(ps[a := p'], x) <==> Holds(ps, x) && x != k {
      LeafKeys(ps, a, p', x);
      LeafKeys(ps, a, ps[a], x);
      assert ps[a := ps[a]] == ps;
    }
  }

  // ---------------------------------------------------------------- splitting a page

  function KeysOf(es: seq<Rec>): (keys: seq<int>)
    ensures |keys| == |es| && forall i :: 0 <= i < |es| ==> keys[i] == es[i].key
  {
    seq(|es|, i requires 0 <= i < |es| => es[i].key)
  }

  /** The page after the cut at m: the slots from m on keep their keys. */
  function LeftHalf(p: Page, m: nat, s: int): Page
    requires m < |p.es|
  {
    p.(es := p.es[..m], stale := KeysOf(p.es[m..]) + p.stale, sibling := s)
  }

  /** The new sibling: a leaf takes entry m along, an internal page makes its child the leftmost one. */
  function RightHalf(p: Page, m: nat, cardinality: nat): Page
    requires m < |p.es| <= cardinality
  {
    var es := if p.level == 0 then p.es[m..] else p.es[m + 1..];
    Page(p.level, if p.level == 0 then NULL else p.es[m].ptr, p.sibling, es,
         seq(cardinality - |es|, _ => MAX_KEY))
  }

  lemma LeftHalfOk(p: Page, r: Range, cardinality: nat, m: nat, s: int)
    requires PageOk(p, r, cardinality) && 0 < m < |p.es|
    ensures r.lo < p.es[m].key < r.hi && PageOk(LeftHalf(p, m, s), Range(r.lo, p.es[m].key), cardinality)
  {
    var k, left := p.es[m].key, LeftHalf(p, m, s);
    assert p.es[0].key < k;
    forall i | 0 <= i < |left.stale| ensures k <= left.stale[i] || left.stale[i] == MAX_KEY {
      if i < |p.es| - m { assert left.stale[i] == p.es[m + i].key; }
      else { assert left.stale[i] == p.stale[i - (|p.es| - m)]; }
    }
  }

  lemma RightHalfOk(p: Page, r: Range, cardinality: nat, m: nat)
    requires PageOk(p, r, cardinality) && m + 1 < |p.es|
    ensures PageOk(RightHalf(p, m, cardinality), Range(p.es[m].key, r.hi), cardinality)
  {
    var right, d := RightHalf(p, m, cardinality), if p.level == 0 then m else m + 1;
    assert right.es == p.es[d..];
    forall i | 0 <= i < |right.es| ensures p.es[m].key <= right.es[i].key < r.hi {
      assert right.es[i] == p.es[d + i];
    }
    assert DistinctPtrs(right.es, right.leftmost);
  }

  /** Ranges after a page is split at key k. */
  function SplitRanges(rs: Ranges, a: int, s: int, k: int): Ranges
    requires a in rs
  {
    rs[a := Range(rs[a].lo, k)][s := Range(k, rs[a].hi)]
  }

  /** What a parent saw of a child before the split, it still sees through the pending half. */
  lemma CoversSplit(ps: Pages, ps': Pages, rs: Ranges, pend: map<int, int>, a: int, s: int, k: int,
                    c: int, level: nat, from: int, to: int)
    requires ps.Keys == rs.Keys && a in ps && s !in ps && a !in pend && a !in pend.Values && s !in pend
    requires ps'.Keys == ps.Keys + {s} && (forall b :: b in ps ==> ps'[b].level == ps[b].level)
    requires PendOk(ps, rs, pend) && Covers(ps, rs, pend, c, level, from, to)
    ensures SplitRanges(rs, a, s, k).Keys == ps'.Keys
    ensures Covers(ps', SplitRanges(rs, a, s, k), pend[a := s], c, level, from, to)
  {
    if c in pend {
      assert HalvesOk(ps, rs, pend, c);
      assert pend[c] in pend.Values;
    }
  }

  lemma ChildrenSplit(ps: Pages, ps': Pages, rs: Ranges, pend: map<int, int>, a: int, s: int, k: int, p: Page, r: Range)
    requires ps.Keys == rs.Keys && a in ps && s !in ps && a !in pend && a !in pend.Values && s !in pend
    requires ps'.Keys == ps.Keys + {s} && (forall b :: b in ps ==> ps'[b].level == ps[b].level)
    requires PendOk(ps, rs, pend) && ChildrenOk(ps, rs, pend, p, r)
    ensures SplitRanges(rs, a, s, k).Keys == ps'.Keys
    ensures ChildrenOk(ps', SplitRanges(rs, a, s, k), pend[a := s], p, r)
  {
    if p.level > 0 {
      CoversSplit(ps, ps', rs, pend, a, s, k, p.leftmost, p.level - 1, r.lo, Bound(p, r, 0));
      forall i | 0 <= i < |p.es|
        ensures Covers(ps', SplitRanges(rs, a, s, k), pend[a := s], p.es[i].ptr, p.level - 1, p.es[i].key,
                       Bound(p, r, i + 1))
      {
        CoversSplit(ps, ps', rs, pend, a, s, k, p.es[i].ptr, p.level - 1, p.es[i].key, Bound(p, r, i + 1));
      }
    }
  }

  /** The children of a split page, divided between its halves. */
  lemma HalvesChildrenOk(ps: Pages, rs: Ranges, pend: map<int, int>, p: Page, r: Range, m: nat, s: int,
                         cardinality: nat)
    requires ps.Keys == rs.Keys && ChildrenOk(ps, rs, pend, p, r) && 0 < m && m + 1 < |p.es| <= cardinality
    ensures ChildrenOk(ps, rs, pend, LeftHalf(p, m, s), Range(r.lo, p.es[m].key))
    ensures ChildrenOk(ps, rs, pend, RightHalf(p, m, cardinality), Range(p.es[m].key, r.hi))
  {
    var k := p.es[m].key;
    var left, right := LeftHalf(p, m, s), RightHalf(p, m, cardinality);
    var rl, rr := Range(r.lo, k), Range(k, r.hi);
    if p.level > 0 {
      forall i | 0 <= i < |left.es|
        ensures Covers(ps, rs, pend, left.es[i].ptr, p.level - 1, left.es[i].key, Bound(left, rl, i + 1))
      {
        assert Covers(ps, rs, pend, p.es[i].ptr, p.level - 1, p.es[i].key, Bound(p, r, i + 1));
      }
      assert Covers(ps, rs, pend, p.es[m].ptr, p.level - 1, p.es[m].key, Bound(p, r, m + 1));
      forall i | 0 <= i < |right.es|
        ensures Covers(ps, rs, pend, right.es[i].ptr, p.level - 1, right.es[i].key, Bound(right, rr, i + 1))
      {
        var j := m + 1 + i;
        assert Covers(ps, rs, pend, p.es[j].ptr, p.level - 1, p.es[j].key, Bound(p, r, j + 1));
      }
    }
  }

  lemma SplitKeepsPages(ps: Pages, rs: Ranges, cardinality: nat, a: int, s: int, m: nat)
    requires ps.Keys == rs.Keys && AllPagesOk(ps, rs, cardinality) && a in ps && s !in ps
    requires 0 < m && m + 1 < |ps[a].es| <= cardinality
    ensures var p := ps[a];
            AllPagesOk(ps[a := LeftHalf(p, m, s)][s := RightHalf(p, m, cardinality)],
                       SplitRanges(rs, a, s, p.es[m].key), cardinality)
  {
    var p := ps[a];
    var ps', rs' := ps[a := LeftHalf(p, m, s)][s := RightHalf(p, m, cardinality)], SplitRanges(rs, a, s, p.es[m].key);
    assert PageOk(p, rs[a], cardinality);
    LeftHalfOk(p, rs[a], cardinality, m, s);
    RightHalfOk(p, rs[a], cardinality, m);
    forall b | b in ps' ensures PageOk(ps'[b], rs'[b], cardinality) {
      assert b == s || PageOk(ps[b], rs[b], cardinality);
    }
  }

  lemma SplitKeepsChildren(ps: Pages, rs: Ranges, pend: map<int, int>, cardinality: nat, a: int, s: int, m: nat)
    requires ps.Keys == rs.Keys && AllChildrenOk(ps, rs, pend) && PendOk(ps, rs, pend) && a in ps && s !in ps
    requires a !in pend && a !in pend.Values && s !in pend && 0 < m && m + 1 < |ps[a].es| <= cardinality
    ensures var p := ps[a];
            AllChildrenOk(ps[a := LeftHalf(p, m, s)][s := RightHalf(p, m, cardinality)],
                          SplitRanges(rs, a, s, p.es[m].key), pend[a := s])
  {
    var p := ps[a];
    var k := p.es[m].key;
    var ps', rs' := ps[a := LeftHalf(p, m, s)][s := RightHalf(p, m, cardinality)], SplitRanges(rs, a, s, k);
    forall b | b in ps' ensures ChildrenOk(ps', rs', pend[a := s], ps'[b], rs'[b]) {
      PartChildrenOk(ps, rs, pend, cardinality, a, s, m, b);
      ChildrenSplit(ps, ps', rs, pend, a, s, k, ps'[b], rs'[b]);
    }
  }

  /** Every page after the split has children that the pages before it had. */
  lemma PartChildrenOk(ps: Pages, rs: Ranges, pend: map<int, int>, cardinality: nat, a: int, s: int, m: nat, b: int)
    requires ps.Keys == rs.Keys && AllChildrenOk(ps, rs, pend) && a in ps && s !in ps && (b in ps || b == s)
    requires 0 < m && m + 1 < |ps[a].es| <= cardinality
    ensures var p := ps[a];
            ChildrenOk(ps, rs, pend, ps[a := LeftHalf(p, m, s)][s := RightHalf(p, m, cardinality)][b],
                       SplitRanges(rs, a, s, p.es[m].key)[b])
  {
    assert ChildrenOk(ps, rs, pend, ps[a], rs[a]);
    HalvesChildrenOk(ps, rs, pend, ps[a], rs[a], m, s, cardinality);
    if b != a && b != s { assert ChildrenOk(ps, rs, pend, ps[b], rs[b]); }
  }

  /** A split gives no page a child that it did not have: not the new page, and no unlinked one. */
  lemma SplitChildren(ps: Pages, rs: Ranges, pend: map<int, int>, cardinality: nat, a: int, s: int, m: nat, b: int,
                      t: int)
    requires ps.Keys == rs.Keys && a in ps && s !in ps && m < |ps[a].es| <= cardinality
    requires AllChildrenOk(ps, rs, pend) && (b in ps || b == s) && (t == s || Unlinked(ps, t))
    ensures !HasChild(ps[a := LeftHalf(ps[a], m, s)][s := RightHalf(ps[a], m, cardinality)][b], t)
  {
    var p := ps[a];
    var p' := ps[a := LeftHalf(p, m, s)][s := RightHalf(p, m, cardinality)][b];
    var o := if b == s then a else b;
    assert ChildrenOk(ps, rs, pend, ps[o], rs[o]);
    assert t == s || !HasChild(ps[o], t);
    if p'.level > 0 && exists i :: 0 <= i < |p'.es| && p'.es[i].ptr == t {
      var i :| 0 <= i < |p'.es| && p'.es[i].ptr == t;
      assert ps[o].es[if b == s then m + 1 + i else i] == p'.es[i];
    }
  }

  lemma SplitKeepsPending(ps: Pages, rs: Ranges, pend: map<int, int>, cardinality: nat, a: int, s: int, m: nat)
    requires ps.Keys == rs.Keys && a in ps && s !in ps && s != NULL && NULL !in ps
    requires a !in pend && a !in pend.Values && s !in pend && m < |ps[a].es| <= cardinality
    requires rs[a].lo < ps[a].es[m].key < rs[a].hi
    requires PendOk(ps, rs, pend) && AllChildrenOk(ps, rs, pend)
    ensures var p := ps[a];
            PendOk(ps[a := LeftHalf(p, m, s)][s := RightHalf(p, m, cardinality)],
                   SplitRanges(rs, a, s, p.es[m].key), pend[a := s])
  {
    var p := ps[a];
    var ps' := ps[a := LeftHalf(p, m, s)][s := RightHalf(p, m, cardinality)];
    var rs' := SplitRanges(rs, a, s, p.es[m].key);
    var pend' := pend[a := s];
    forall c | c in pend' ensures HalvesOk(ps', rs', pend', c) {
      if c != a {
        assert HalvesOk(ps, rs, pend, c);
        assert pend[c] in pend.Values;
      }
      forall b | b in ps' ensures !HasChild(ps'[b], pend'[c]) {
        SplitChildren(ps, rs, pend, cardinality, a, s, m, b, pend'[c]);
      }
    }
  }

  lemma SplitKeepsSiblings(ps: Pages, rs: Ranges, cardinality: nat, a: int, s: int, m: nat)
    requires ps.Keys == rs.Keys && a in ps && s !in ps && s != NULL && NULL !in ps && m < |ps[a].es| <= cardinality
    requires rs[a].lo < ps[a].es[m].key < rs[a].hi && AllSiblingsOk(ps, rs)
    ensures var p := ps[a];
            AllSiblingsOk(ps[a := LeftHalf(p, m, s)][s := RightHalf(p, m, cardinality)],
                          SplitRanges(rs, a, s, p.es[m].key))
  {
    var p := ps[a];
    var ps', rs' := ps[a := LeftHalf(p, m, s)][s := RightHalf(p, m, cardinality)], SplitRanges(rs, a, s, p.es[m].key);
    forall b | b in ps' ensures SiblingOk(ps', rs', ps'[b], rs'[b]) {
      assert SiblingOk(ps, rs, p, rs[a]);
      assert b == s || SiblingOk(ps, rs, ps[b], rs[b]);
    }
  }

  lemma SplitKeepsLinks(ps: Pages, rs: Ranges, pend: map<int, int>, root: int, cardinality: nat, a: int, s: int, m: nat)
    requires ps.Keys == rs.Keys && a in ps && s !in ps && s != NULL && NULL !in ps
    requires a !in pend && a !in pend.Values && s !in pend && m < |ps[a].es| <= cardinality
    requires rs[a].lo < ps[a].es[m].key < rs[a].hi
    requires AllSiblingsOk(ps, rs) && LevelsApart(ps, rs) && PendOk(ps, rs, pend) && RootOk(ps, rs, pend, root)
    requires AllChildrenOk(ps, rs, pend)
    ensures var p := ps[a];
            var ps' := ps[a := LeftHalf(p, m, s)][s := RightHalf(p, m, cardinality)];
            var rs' := SplitRanges(rs, a, s, p.es[m].key);
            AllSiblingsOk(ps', rs') && LevelsApart(ps', rs') && PendOk(ps', rs', pend[a := s])
            && RootOk(ps', rs', pend[a := s], root)
  {
    var p := ps[a];
    var k := p.es[m].key;
    var ps', rs' := ps[a := LeftHalf(p, m, s)][s := RightHalf(p, m, cardinality)], SplitRanges(rs, a, s, k);
    SplitKeepsSiblings(ps, rs, cardinality, a, s, m);
    forall b, c | b in ps' && c in ps' && b != c && ps'[b].level == ps'[c].level ensures Apart(rs'[b], rs'[c]) {
      var b0, c0 := if b == s then a else b, if c == s then a else c;
      assert b0 == c0 || Apart(rs[b0], rs[c0]);
    }
    SplitKeepsPending(ps, rs, pend, cardinality, a, s, m);
    CoversSplit(ps, ps', rs, pend, a, s, k, root, ps[root].level, MIN_KEY, END_KEY);
    forall b | b in ps' ensures NotAbove(ps', b, root) {
      assert NotAbove(ps, if b == s then a else b, root);
    }
  }

  /** Splitting a page that is not itself pending leaves one more pending half, and the same keys. */
  lemma SplitKeepsShape(ps: Pages, rs: Ranges, pend: map<int, int>, root: int, cardinality: nat, a: int, s: int, m: nat)
    requires TreeOk(ps, rs, pend, root, cardinality) && a in ps && s !in ps && s != NULL
    requires a !in pend && a !in pend.Values && s !in pend && 0 < m && m + 1 < |ps[a].es| < cardinality
    ensures var p := ps[a];
            var ps' := ps[a := LeftHalf(p, m, s)][s := RightHalf(p, m, cardinality)];
            && TreeOk(ps', SplitRanges(rs, a, s, p.es[m].key), pend[a := s], root, cardinality)
            && KeySet(ps') == KeySet(ps)
  {
    var p := ps[a];
    var ps' := ps[a := LeftHalf(p, m, s)][s := RightHalf(p, m, cardinality)];
    assert PageOk(p, rs[a], cardinality);
    LeftHalfOk(p, rs[a], cardinality, m, s);
    RightHalfOk(p, rs[a], cardinality, m);
    SplitKeepsPages(ps, rs, cardinality, a, s, m);
    SplitKeepsChildren(ps, rs, pend, cardinality, a, s, m);
    SplitKeepsLinks(ps, rs, pend, root, cardinality, a, s, m);
    forall x ensures Holds(ps', x) <==> Holds(ps, x) { SplitKeepsKeys(ps, cardinality, a, s, m, x); }
  }

  lemma SplitKeepsKeys(ps: Pages, cardinality: nat, a: int, s: int, m: nat, x: int)
    requires a in ps && s !in ps && m < |ps[a].es| <= cardinality
    ensures var ps' := ps[a := LeftHalf(ps[a], m, s)][s := RightHalf(ps[a], m, cardinality)];
            Holds(ps', x) <==> Holds(ps, x)
  {
    var p := ps[a];
    var ps' := ps[a := LeftHalf(p, m, s)][s := RightHalf(p, m, cardinality)];
    if Holds(ps, x) {
      var b :| b in ps && ps[b].level == 0 && HasKey(ps[b].es, x);
      if b == a {
        var i :| 0 <= i < |p.es| && p.es[i].key == x;
        if i < m { assert ps'[a].es[i].key == x; } else { assert ps'[s].es[i - m].key == x; }
      } else {
        assert ps'[b] == ps[b];
      }
    }
    if Holds(ps', x) {
      var b :| b in ps' && ps'[b].level == 0 && HasKey(ps'[b].es, x);
      var i :| 0 <= i < |ps'[b].es| && ps'[b].es[i].key == x;
      if b == a || b == s {
        assert p.es[if b == a then i else m + i].key == x;
      } else {
        assert ps[b] == ps'[b];
      }
    }
  }

  // ---------------------------------------------------------------- telling the parent

  lemma AbsentBetween(es: seq<Rec>, k: int)
    requires Sorted(es) && (Rank(es, k) > 0 ==> es[Rank(es, k) - 1].key < k)
    ensures !HasKey(es, k)
  {
    RankSplits(es, k);
    forall j | 0 <= j < |es| ensures es[j].key != k {
      if j < Rank(es, k) - 1 { assert es[j].key < es[Rank(es, k) - 1].key; }
    }
  }

  /** The page that is responsible for the split key has the left half as the child it routes to. */
  lemma RouteFindsLeftHalf(ps: Pages, rs: Ranges, pend: map<int, int>, root: int, cardinality: nat, q: int, a: int)
    requires TreeOk(ps, rs, pend, root, cardinality) && a in pend && q in ps
    requires PendOk(ps, rs, pend) && HalvesOk(ps, rs, pend, a)
    requires ps[q].level == ps[a].level + 1 && rs[q].lo <= rs[a].hi < rs[q].hi
    ensures Route(ps[q].es, ps[q].leftmost, rs[a].hi) == a
    ensures !HasKey(ps[q].es, rs[a].hi)
  {
    var k, p, s := rs[a].hi, ps[q], pend[a];
    RouteCovers(ps, rs, pend, root, cardinality, q, k);
    var c := Route(p.es, p.leftmost, k);
    assert !HasChild(p, s);
    assert PageOk(ps[s], rs[s], cardinality) && PageOk(ps[a], rs[a], cardinality) && PageOk(ps[c], rs[c], cardinality);
    assert c == s || Apart(rs[c], rs[s]);
    assert c == a || Apart(rs[c], rs[a]);
    if c in pend {
      assert HalvesOk(ps, rs, pend, c);
      var d := pend[c];
      assert PageOk(ps[d], rs[d], cardinality);
      assert d == s || Apart(rs[d], rs[s]);
      assert d == a || Apart(rs[d], rs[a]);
    }
    assert c == a;
    assert PageOk(p, rs[q], cardinality);
    AbsentBetween(p.es, k);
  }

  /** A child starts inside its parent's range, so it has one parent. */
  lemma ChildStartsInRange(ps: Pages, rs: Ranges, pend: map<int, int>, root: int, cardinality: nat, b: int, c: int)
    requires TreeOk(ps, rs, pend, root, cardinality) && b in ps && HasChild(ps[b], c)
    ensures c in ps && ps[c].level + 1 == ps[b].level && rs[b].lo <= rs[c].lo < rs[b].hi
  {
    var p := ps[b];
    assert PageOk(p, rs[b], cardinality) && ChildrenOk(ps, rs, pend, p, rs[b]);
    if p.leftmost != c {
      var i :| 0 <= i < |p.es| && p.es[i].ptr == c;
      assert Covers(ps, rs, pend, p.es[i].ptr, p.level - 1, p.es[i].key, Bound(p, rs[b], i + 1));
    }
  }

  lemma OneParent(ps: Pages, rs: Ranges, pend: map<int, int>, root: int, cardinality: nat, b: int, q: int, c: int)
    requires TreeOk(ps, rs, pend, root, cardinality) && b in ps && q in ps && HasChild(ps[b], c) && HasChild(ps[q], c)
    ensures b == q
  {
    ChildStartsInRange(ps, rs, pend, root, cardinality, b, c);
    ChildStartsInRange(ps, rs, pend, root, cardinality, q, c);
    assert b == q || Apart(rs[b], rs[q]);
  }

  /** Pages without child a do not notice that a is no longer pending. */
  lemma ChildrenWithoutPending(ps: Pages, rs: Ranges, pend: map<int, int>, a: int, p: Page, r: Range)
    requires ps.Keys == rs.Keys && ChildrenOk(ps, rs, pend, p, r) && !HasChild(p, a)
    ensures ChildrenOk(ps, rs, pend - {a}, p, r)
  {
    if p.level > 0 {
      forall i | 0 <= i < |p.es|
        ensures Covers(ps, rs, pend - {a}, p.es[i].ptr, p.level - 1, p.es[i].key, Bound(p, r, i + 1))
      {
        assert Covers(ps, rs, pend, p.es[i].ptr, p.level - 1, p.es[i].key, Bound(p, r, i + 1));
        assert p.es[i].ptr != a;
      }
    }
  }

  /** Without the pending note, child a covers its own range only, and every other child what it did. */
  lemma CoversUnpended(ps: Pages, rs: Ranges, pend: map<int, int>, a: int, c: int, level: nat, from: int, to: int)
    requires ps.Keys == rs.Keys && Covers(ps, rs, pend, c, level, from, to) && a in pend
    ensures c != a ==> Covers(ps, rs, pend - {a}, c, level, from, to)
    ensures c == a ==> pend[a] in rs && rs[pend[a]].hi == to && Covers(ps, rs, pend - {a}, a, level, from, rs[a].hi)
  {
  }

  /** The pointer that a key is routed to occurs once among the children. */
  lemma RoutedOnce(es: seq<Rec>, leftmost: int, k: int, i: nat)
    requires DistinctPtrs(es, leftmost) && i < |es|
    ensures es[i].ptr == Route(es, leftmost, k) <==> i + 1 == Rank(es, k)
    ensures leftmost == Route(es, leftmost, k) <==> Rank(es, k) == 0
  {
  }

  /** The parent's children once the right half has its own entry. */
  lemma ChildrenWithHalves(ps: Pages, rs: Ranges, pend: map<int, int>, p: Page, r: Range, a: int)
    requires ps.Keys == rs.Keys && ChildrenOk(ps, rs, pend, p, r) && p.level > 0 && WellFormed(p.es, p.leftmost)
    requires a in pend && a in ps && pend[a] in ps && pend[a] !in pend && p.es != []
    requires rs[pend[a]].lo == rs[a].hi && ps[pend[a]].level == p.level - 1
    requires Route(p.es, p.leftmost, rs[a].hi) == a
    ensures ChildrenOk(ps, rs, pend - {a}, WithEntry(p, Rec(rs[a].hi, pend[a])), r)
  {
    var e := Rec(rs[a].hi, pend[a]);
    var p', pos := WithEntry(p, e), Rank(p.es, rs[a].hi);
    InsertedAt(p.es, e, 0);
    RoutedOnce(p.es, p.leftmost, rs[a].hi, 0);
    CoversUnpended(ps, rs, pend, a, p.leftmost, p.level - 1, r.lo, Bound(p, r, 0));
    forall i | 0 <= i < |p'.es|
      ensures Covers(ps, rs, pend - {a}, p'.es[i].ptr, p.level - 1, p'.es[i].key, Bound(p', r, i + 1))
    {
      ChildWithHalves(ps, rs, pend, p, r, a, i);
    }
  }

  lemma ChildWithHalves(ps: Pages, rs: Ranges, pend: map<int, int>, p: Page, r: Range, a: int, i: nat)
    requires ps.Keys == rs.Keys && ChildrenOk(ps, rs, pend, p, r) && p.level > 0 && DistinctPtrs(p.es, p.leftmost)
    requires a in pend && a in ps && pend[a] in ps && pend[a] !in pend && p.es != [] && i <= |p.es|
    requires rs[pend[a]].lo == rs[a].hi && ps[pend[a]].level == p.level - 1
    requires Route(p.es, p.leftmost, rs[a].hi) == a
    ensures var p' := WithEntry(p, Rec(rs[a].hi, pend[a]));
            |p'.es| == |p.es| + 1
            && Covers(ps, rs, pend - {a}, p'.es[i].ptr, p.level - 1, p'.es[i].key, Bound(p', r, i + 1))
  {
    var e := Rec(rs[a].hi, pend[a]);
    var p', pos := WithEntry(p, e), Rank(p.es, rs[a].hi);
    InsertedAt(p.es, e, i);
    if i < |p.es| { InsertedAt(p.es, e, i + 1); }
    if i == pos {
      if pos > 0 {
        var j := pos - 1;
        CoversUnpended(ps, rs, pend, a, p.es[j].ptr, p.level - 1, p.es[j].key, Bound(p, r, j + 1));
      } else {
        CoversUnpended(ps, rs, pend, a, p.leftmost, p.level - 1, r.lo, Bound(p, r, 0));
      }
    } else {
      var j := if i < pos then i else i - 1;
      RoutedOnce(p.es, p.leftmost, rs[a].hi, j);
      CoversUnpended(ps, rs, pend, a, p.es[j].ptr, p.level - 1, p.es[j].key, Bound(p, r, j + 1));
    }
  }

  lemma ParentInsertKeepsChildren(ps: Pages, rs: Ranges, pend: map<int, int>, root: int, cardinality: nat, q: int,
                                  a: int)
    requires TreeOk(ps, rs, pend, root, cardinality) && a in pend && HalvesOk(ps, rs, pend, a) && q in ps
    requires ps[q].level == ps[a].level + 1 && rs[q].lo <= rs[a].hi < rs[q].hi
    ensures AllChildrenOk(ps[q := WithEntry(ps[q], Rec(rs[a].hi, pend[a]))], rs, pend - {a})
  {
    var p' := WithEntry(ps[q], Rec(rs[a].hi, pend[a]));
    var ps', pend' := ps[q := p'], pend - {a};
    ParentsChildren(ps, rs, pend, root, cardinality, q, a);
    forall b | b in ps' ensures ChildrenOk(ps', rs, pend', ps'[b], rs[b]) {
      if b != q { OthersChildren(ps, rs, pend, root, cardinality, q, a, b); }
      CoversKept(ps, ps', rs, pend', ps'[b], rs[b]);
    }
  }

  /** The children of the parent itself, with the new entry. */
  lemma ParentsChildren(ps: Pages, rs: Ranges, pend: map<int, int>, root: int, cardinality: nat, q: int, a: int)
    requires TreeOk(ps, rs, pend, root, cardinality) && a in pend && HalvesOk(ps, rs, pend, a) && q in ps
    requires ps[q].level == ps[a].level + 1 && rs[q].lo <= rs[a].hi < rs[q].hi
    ensures ChildrenOk(ps, rs, pend - {a}, WithEntry(ps[q], Rec(rs[a].hi, pend[a])), rs[q]) && HasChild(ps[q], a)
  {
    var p := ps[q];
    RouteFindsLeftHalf(ps, rs, pend, root, cardinality, q, a);
    assert PageOk(p, rs[q], cardinality) && ChildrenOk(ps, rs, pend, p, rs[q]);
    ChildrenWithHalves(ps, rs, pend, p, rs[q], a);
    if Rank(p.es, rs[a].hi) > 0 { assert p.es[Rank(p.es, rs[a].hi) - 1].ptr == a; }
  }

  /** No other page has the pending half below it. */
  lemma OthersChildren(ps: Pages, rs: Ranges, pend: map<int, int>, root: int, cardinality: nat, q: int, a: int, b: int)
    requires TreeOk(ps, rs, pend, root, cardinality) && a in pend && HalvesOk(ps, rs, pend, a) && q in ps && b in ps
             && b != q
    requires ps[q].level == ps[a].level + 1 && HasChild(ps[q], a)
    ensures ChildrenOk(ps, rs, pend - {a}, ps[b], rs[b])
  {
    assert ChildrenOk(ps, rs, pend, ps[b], rs[b]);
    if HasChild(ps[b], a) { OneParent(ps, rs, pend, root, cardinality, b, q, a); }
    ChildrenWithoutPending(ps, rs, pend, a, ps[b], rs[b]);
  }

  /** Both halves of one split belong to one page. */
  lemma PendInjective(ps: Pages, rs: Ranges, pend: map<int, int>, cardinality: nat, a: int, c: int)
    requires ps.Keys == rs.Keys && AllPagesOk(ps, rs, cardinality) && LevelsApart(ps, rs) && PendOk(ps, rs, pend)
    requires a in pend && c in pend && pend[a] == pend[c]
    ensures a == c
  {
    assert HalvesOk(ps, rs, pend, a) && HalvesOk(ps, rs, pend, c);
    assert PageOk(ps[a], rs[a], cardinality) && PageOk(ps[c], rs[c], cardinality);
    assert a == c || Apart(rs[a], rs[c]);
  }

  /** Inserting the split key and the right half into the parent completes the split. */
  lemma ParentInsert(ps: Pages, rs: Ranges, pend: map<int, int>, root: int, cardinality: nat, q: int, a: int)
    requires TreeOk(ps, rs, pend, root, cardinality) && a in pend && q in ps && a in ps
    requires ps[q].level == ps[a].level + 1 && rs[q].lo <= rs[a].hi < rs[q].hi && |ps[q].es| < cardinality - 1
    ensures TreeOk(ps[q := WithEntry(ps[q], Rec(rs[a].hi, pend[a]))], rs, pend - {a}, root, cardinality)
    ensures KeySet(ps[q := WithEntry(ps[q], Rec(rs[a].hi, pend[a]))]) == KeySet(ps)
  {
    var p, k, s := ps[q], rs[a].hi, pend[a];
    var p' := WithEntry(p, Rec(k, s));
    var ps', pend' := ps[q := p'], pend - {a};
    assert HalvesOk(ps, rs, pend, a);
    ParentInsertKeepsChildren(ps, rs, pend, root, cardinality, q, a);
    ParentInsertKeepsPages(ps, rs, pend, root, cardinality, q, a);
    forall b | b in ps' ensures SiblingOk(ps', rs, ps'[b], rs[b]) { assert SiblingOk(ps, rs, ps[b], rs[b]); }
    forall c | c in pend' ensures HalvesOk(ps', rs, pend', c) {
      assert HalvesOk(ps, rs, pend, c);
      if pend[c] == s { PendInjective(ps, rs, pend, cardinality, a, c); }
      forall b | b in ps' ensures !HasChild(ps'[b], pend[c]) {
        assert !HasChild(ps[b], pend[c]);
        if b == q { EntryAddsOneChild(p, Rec(k, s), pend[c]); }
      }
    }
    forall b | b in ps' ensures NotAbove(ps', b, root) { assert NotAbove(ps, b, root); }
    assert NotAbove(ps, q, root);
    forall x ensures Holds(ps', x) <==> Holds(ps, x) { InternalHoldsNothing(ps, q, p', x); }
  }

  lemma EntryAddsOneChild(p: Page, e: Rec, c: int)
    requires !HasChild(p, c) && c != e.ptr
    ensures !HasChild(WithEntry(p, e), c)
  {
    var p' := WithEntry(p, e);
    forall i | 0 <= i < |p'.es| && p.level > 0 ensures p'.es[i].ptr != c { InsertedAt(p.es, e, i); }
  }

  lemma InternalHoldsNothing(ps: Pages, q: int, p: Page, x: int)
    requires q in ps && ps[q].level == p.level > 0
    ensures Holds(ps[q := p], x) <==> Holds(ps, x)
  {
    if b :| b in ps && ps[b].level == 0 && HasKey(ps[b].es, x) { assert ps[q := p][b] == ps[b]; }
  }

  lemma ParentInsertKeepsPages(ps: Pages, rs: Ranges, pend: map<int, int>, root: int, cardinality: nat, q: int, a: int)
    requires TreeOk(ps, rs, pend, root, cardinality) && a in pend && HalvesOk(ps, rs, pend, a) && q in ps
    requires ps[q].level == ps[a].level + 1 && rs[q].lo <= rs[a].hi < rs[q].hi && |ps[q].es| < cardinality - 1
    ensures AllPagesOk(ps[q := WithEntry(ps[q], Rec(rs[a].hi, pend[a]))], rs, cardinality)
  {
    var p, e := ps[q], Rec(rs[a].hi, pend[a]);
    var ps' := ps[q := WithEntry(p, e)];
    assert PageOk(p, rs[q], cardinality) && PageOk(ps[a], rs[a], cardinality);
    RouteFindsLeftHalf(ps, rs, pend, root, cardinality, q, a);
    RouteCovers(ps, rs, pend, root, cardinality, q, e.key);
    assert !HasChild(p, e.ptr);
    EntryKeepsPageOk(p, rs[q], cardinality, e);
    forall b | b in ps' ensures PageOk(ps'[b], rs[b], cardinality) {
      assert b == q || PageOk(ps[b], rs[b], cardinality);
    }
  }

  // ---------------------------------------------------------------- growing the root

  function NewRoot(ps: Pages, left: int, k: int, right: int, cardinality: nat): Page
    requires left in ps && 1 <= cardinality
  {
    Page(ps[left].level + 1, left, NULL, [Rec(k, right)], seq(cardinality - 1, _ => MAX_KEY))
  }

  lemma NewRootOk(ps: Pages, rs: Ranges, root: int, cardinality: nat, s: int, t: int)
    requires TreeOk(ps, rs, map[root := s], root, cardinality) && t !in ps && t != NULL
    ensures root in ps
    ensures var p := NewRoot(ps, root, rs[root].hi, s, cardinality);
            var ps', rs', all := ps[t := p], rs[t := Range(MIN_KEY, END_KEY)], Range(MIN_KEY, END_KEY);
            PageOk(p, all, cardinality) && ChildrenOk(ps', rs', map[], p, all)
  {
    assert HalvesOk(ps, rs, map[root := s], root);
    assert PageOk(ps[root], rs[root], cardinality) && PageOk(ps[s], rs[s], cardinality);
  }

  lemma GrowthKeepsLinks(ps: Pages, rs: Ranges, root: int, t: int, p: Page)
    requires ps.Keys == rs.Keys && root in ps && t !in ps && t != NULL && NULL !in ps
    requires p.level == ps[root].level + 1 && p.sibling == NULL
    requires AllSiblingsOk(ps, rs) && LevelsApart(ps, rs)
    requires forall a {:trigger NotAbove(ps, a, root)} :: a in ps ==> NotAbove(ps, a, root)
    ensures var ps', rs' := ps[t := p], rs[t := Range(MIN_KEY, END_KEY)];
            AllSiblingsOk(ps', rs') && LevelsApart(ps', rs') && PendOk(ps', rs', map[]) && RootOk(ps', rs', map[], t)
  {
    var ps', rs' := ps[t := p], rs[t := Range(MIN_KEY, END_KEY)];
    forall b | b in ps' ensures SiblingOk(ps', rs', ps'[b], rs'[b]) {
      assert b == t || SiblingOk(ps, rs, ps[b], rs[b]);
    }
    forall b, c | b in ps' && c in ps' && b != c && ps'[b].level == ps'[c].level ensures Apart(rs'[b], rs'[c]) {
      assert b == t || NotAbove(ps, b, root);
      assert c == t || NotAbove(ps, c, root);
      assert Apart(rs[b], rs[c]);
    }
    forall b | b in ps' ensures NotAbove(ps', b, t) { assert b == t || NotAbove(ps, b, root); }
  }

  /** A split root gets a parent that holds the split key alone. */
  lemma RootGrowth(ps: Pages, rs: Ranges, root: int, cardinality: nat, s: int, t: int)
    requires TreeOk(ps, rs, map[root := s], root, cardinality) && t !in ps && t != NULL
    ensures root in ps
    ensures var ps' := ps[t := NewRoot(ps, root, rs[root].hi, s, cardinality)];
            && TreeOk(ps', rs[t := Range(MIN_KEY, END_KEY)], map[], t, cardinality)
            && KeySet(ps') == KeySet(ps)
  {
    var p := NewRoot(ps, root, rs[root].hi, s, cardinality);
    var ps', rs' := ps[t := p], rs[t := Range(MIN_KEY, END_KEY)];
    NewRootOk(ps, rs, root, cardinality, s, t);
    GrowthKeepsLinks(ps, rs, root, t, p);
    forall b | b in ps' ensures PageOk(ps'[b], rs'[b], cardinality) {
      assert b == t || PageOk(ps[b], rs[b], cardinality);
    }
    forall b | b in ps' ensures ChildrenOk(ps', rs', map[], ps'[b], rs'[b]) {
      if b != t { RootIsNoChild(ps, rs, map[root := s], root, cardinality, t, b); }
    }
    forall x ensures Holds(ps', x) <==> Holds(ps, x) {
      if b :| b in ps && ps[b].level == 0 && HasKey(ps[b].es, x) { assert ps'[b] == ps[b]; }
    }
  }

  lemma RootIsNoChild(ps: Pages, rs: Ranges, pend: map<int, int>, root: int, cardinality: nat, t: int, b: int)
    requires TreeOk(ps, rs, pend, root, cardinality) && pend.Keys == {root} && t !in ps && b in ps
    ensures var ps', rs' := ps[t := NewRoot(ps, root, rs[root].hi, pend[root], cardinality)],
            rs[t := Range(MIN_KEY, END_KEY)];
            ChildrenOk(ps', rs', map[], ps[b], rs[b])
  {
    var p := ps[b];
    var ps', rs' := ps[t := NewRoot(ps, root, rs[root].hi, pend[root], cardinality)], rs[t := Range(MIN_KEY, END_KEY)];
    assert ChildrenOk(ps, rs, pend, p, rs[b]) && NotAbove(ps, b, root);
    if p.level > 0 {
      forall i | 0 <= i < |p.es|
        ensures Covers(ps', rs', map[], p.es[i].ptr, p.level - 1, p.es[i].key, Bound(p, rs[b], i + 1))
      {
        assert Covers(ps, rs, pend, p.es[i].ptr, p.level - 1, p.es[i].key, Bound(p, rs[b], i + 1));
      }
    }
  }

  /** One empty leaf is a tree. */
  lemma EmptyTree(root: int, cardinality: nat)
    requires root != NULL && 4 <= cardinality
    ensures var ps := map[root := Page(0, NULL, NULL, [], seq(cardinality, _ => MAX_KEY))];
            && TreeOk(ps, map[root := Range(MIN_KEY, END_KEY)], map[], root, cardinality)
            && KeySet(ps) == iset{}
  {
  }
}
