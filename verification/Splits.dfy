/**
  A full leaf splits. The upper half is copied into a new sibling, the sibling is linked, the left
  page is cut at the split point, and the new key goes to one of the two pages. The parent learns
  about the sibling only afterwards, so until then searches reach it by hopping from the left page.
 */
module Splits {
  import opened RecordLists
  import opened Pages

  /** The two pages of a linked split, as one reader could load them. */
  datatype SplitMem = SplitMem(left: Mem, right: Mem)

  /** The leaves to the right of the split: the first key of the next page, and all their entries. */
  datatype Rest = NoRest | Rest(firstKey: int, entries: seq<Rec>)

  ghost predicate RestValid(rest: Rest) {
    rest.Rest? ==> Sorted(rest.entries) && forall i :: 0 <= i < |rest.entries| ==> rest.firstKey <= rest.entries[i].key
  }

  /** Hopping on to the next page happens only from its first key on. */
  function RestAnswer(rest: Rest, key: int): int {
    if rest.NoRest? || key < rest.firstKey then NULL else Find(rest.entries, key)
  }

  predicate Loadable(m: Mem) {
    m.recs != [] && (IsForward(m.switchCounter) || -1 <= m.lastIndex < |m.recs|)
  }

  /** The search that starts at the left page and hops to a sibling whose first key it reaches. */
  function HopSearch(s: SplitMem, rest: Rest, key: int): int
    requires Loadable(s.left) && Loadable(s.right)
  {
    var t := LeafAnswer(s.left, key);
    if t != NULL then t
    else if key < s.right.recs[0].key then NULL
    else
      var u := LeafAnswer(s.right, key);
      if u != NULL then u else RestAnswer(rest, key)
  }

  /** What is stored with the key when the leaves hold `es` and then the rest. */
  function Expected(es: seq<Rec>, rest: Rest, key: int): int {
    if Find(es, key) != NULL || rest.NoRest? then Find(es, key) else Find(rest.entries, key)
  }

  /** Below the rest's first key there is nothing to find in it. */
  lemma RestFinds(rest: Rest, key: int)
    requires RestValid(rest)
    ensures RestAnswer(rest, key) == if rest.NoRest? then NULL else Find(rest.entries, key)
  {
    if rest.Rest? && key < rest.firstKey { FindAbsent(rest.entries, key); }
  }

  lemma {:induction false} FindConcat(a: seq<Rec>, b: seq<Rec>, key: int)
    requires DistinctPtrs(a, NULL)
    ensures Find(a + b, key) == if Find(a, key) != NULL then Find(a, key) else Find(b, key)
  {
    if a == [] {
      assert a + b == b;
    } else {
      assert (a + b)[1..] == a[1..] + b;
      assert DistinctPtrs(a[1..], NULL);
      FindConcat(a[1..], b, key);
    }
  }

  /** A memory that answers every key from es. */
  ghost predicate Answers(m: Mem, es: seq<Rec>) {
    Loadable(m) && forall key :: LeafAnswer(m, key) == Find(es, key)
  }

  lemma ShownMeansAnswers(m: Mem, length: nat, es: seq<Rec>)
    requires Shown(m, NULL, length, es)
    ensures Answers(m, es)
  {
    forall key ensures LeafAnswer(m, key) == Find(es, key) { ShownAnswers(m, NULL, length, es, key); }
  }

  /** lefts and rights together hold es, and the right page covers everything from its first key on. */
  ghost predicate Covers(lefts: seq<Rec>, rights: seq<Rec>, es: seq<Rec>, rest: Rest) {
    && rights != [] && Sorted(rights)
    && (forall k :: Find(es, k) == if Find(lefts, k) != NULL then Find(lefts, k) else Find(rights, k))
    && (rest.Rest? ==> rights[0].key < rest.firstKey)
  }

  /** Then the hopping search answers as if es were one leaf. */
  lemma HopSearchFinds(s: SplitMem, lefts: seq<Rec>, rights: seq<Rec>, es: seq<Rec>, rest: Rest, key: int)
    requires Answers(s.left, lefts) && Answers(s.right, rights) && Covers(lefts, rights, es, rest)
    requires s.right.recs[0].key == rights[0].key && RestValid(rest)
    ensures HopSearch(s, rest, key) == Expected(es, rest, key)
  {
    if key < rights[0].key { FindAbsent(rights, key); }
    RestFinds(rest, key);
    if key < rights[0].key && rest.Rest? { FindAbsent(rest.entries, key); }
  }

  /**
    The states of a split from the linking store on: the stores to the left page first, then those
    to the right page. (An insertion into the left page leaves no stores for the right page.)
   */
  ghost function SplitTrace(left0: Mem, lefts: seq<Mem>, right0: Mem, rights: seq<Mem>): seq<SplitMem> {
    seq(1 + |lefts| + |rights|, t requires 0 <= t < 1 + |lefts| + |rights| =>
      SplitMem(if t == 0 || lefts == [] then left0 else if t <= |lefts| then lefts[t - 1] else lefts[|lefts| - 1],
               if t <= |lefts| then right0 else rights[t - |lefts| - 1]))
  }

  // ---------------------------------------------------------------- what the halves hold

  lemma InsertedLast(es: seq<Rec>, r: Rec)
    requires Sorted(es + [r])
    ensures Inserted(es, r) == es + [r] && !HasKey(es, r.key)
  {
    assert forall i :: 0 <= i < |es| ==> (es + [r])[i] == es[i] && es[i].key < (es + [r])[|es|].key;
    RankUnique(es, r.key, |es|);
  }

  /** Inserting below the split key is inserting into the lower half. */
  lemma InsertedLow(es: seq<Rec>, m: nat, r: Rec)
    requires Sorted(es) && m < |es| && r.key < es[m].key
    ensures Inserted(es, r) == Inserted(es[..m], r) + es[m..]
  {
    var q := Rank(es, r.key);
    RankSplits(es, r.key);
    RankUnique(es[..m], r.key, q);
    assert es[..m][..q] == es[..q] && es[..m][q..] + es[m..] == es[q..];
  }

  /** Inserting above it is inserting into the upper half, behind its first entry. */
  lemma InsertedHigh(es: seq<Rec>, m: nat, r: Rec)
    requires Sorted(es) && m < |es| && es[m].key < r.key
    ensures Inserted(es, r) == es[..m] + Inserted(es[m..], r) && Rank(es[m..], r.key) > 0
  {
    var q := Rank(es, r.key);
    RankSplits(es, r.key);
    RankUnique(es[m..], r.key, q - m);
    assert es[..m] + es[m..][..q - m] == es[..q] && es[m..][q - m..] == es[q..];
  }

  lemma HalvesCover(lefts: seq<Rec>, rights: seq<Rec>, es: seq<Rec>, rest: Rest)
    requires es == lefts + rights && rights != [] && WellFormed(es, NULL)
    requires rest.Rest? ==> rights[0].key < rest.firstKey
    ensures Covers(lefts, rights, es, rest)
  {
    assert forall i :: 0 <= i < |lefts| ==> lefts[i] == es[i];
    assert forall i :: 0 <= i < |rights| ==> rights[i] == es[|lefts| + i];
    forall k ensures Find(es, k) == if Find(lefts, k) != NULL then Find(lefts, k) else Find(rights, k) {
      FindConcat(lefts, rights, k);
    }
  }

  /** Before the cut the left page still holds everything. */
  lemma WholeCovers(es: seq<Rec>, m: nat, rest: Rest)
    requires m < |es| && WellFormed(es, NULL)
    requires rest.Rest? ==> es[m].key < rest.firstKey
    ensures Covers(es, es[m..], es, rest)
  {
    forall k ensures Find(es, k) == if Find(es, k) != NULL then Find(es, k) else Find(es[m..], k) {
      FindConcat(es[..m], es[m..], k);
      assert es == es[..m] + es[m..];
    }
  }

  // ---------------------------------------------------------------- the split

  /** The last memory in the page's history is the page as it is. */
  ghost predicate Settled(p: Page)
    reads p, p.records
  {
    p.history != [] && p.history[|p.history| - 1] == p.Snapshot()
  }

  /** Appends one entry to the unreachable sibling. */
  method Append(sib: Page, r: Rec, n: nat, ghost es: seq<Rec>)
    requires sib.Valid() && sib.leftmost == NULL && sib.Entries() == es && n == |es| < sib.records.Length - 1
    requires WellFormed(es + [r], NULL) && IsForward(sib.switchCounter)
    modifies sib`history, sib`lastIndex, sib`switchCounter, sib.records
    ensures old(sib.Recorded()) ==> sib.Recorded()
    ensures sib.Valid() && sib.Entries() == es + [r] && IsForward(sib.switchCounter) && Settled(sib)
    ensures forall x :: n < x < sib.records.Length ==> sib.records[x].key == old(sib.records[x].key)
  {
    InsertedLast(es, r);
    ghost var all := es + [r];
    assert all[n] == r && forall i :: 0 <= i < n ==> all[i] == es[i] && es[i].ptr != r.ptr;
    var _ := sib.InsertKey(r.key, r.ptr, n);
  }

  /** The next one of the entries from m on. */
  method AppendNext(sib: Page, r: Rec, m: nat, i: nat, ghost es: seq<Rec>)
    requires m <= i < |es| && r == es[i] && WellFormed(es, NULL) && |es| < sib.records.Length
    requires sib.Valid() && sib.leftmost == NULL && sib.Entries() == es[m..i] && IsForward(sib.switchCounter)
    modifies sib`history, sib`lastIndex, sib`switchCounter, sib.records
    ensures old(sib.Recorded()) ==> sib.Recorded()
    ensures sib.Valid() && sib.Entries() == es[m..i + 1] && IsForward(sib.switchCounter) && Settled(sib)
    ensures forall x :: i - m < x < sib.records.Length ==> sib.records[x].key == old(sib.records[x].key)
  {
    assert es[m..i] + [es[i]] == es[m..i + 1];
    Append(sib, r, i - m, es[m..i]);
  }

  /** Copies entries m, m + 1, ... of a full leaf into a new page that nobody can reach yet. */
  method Migrate(p: Page, m: nat, n: nat, ghost es: seq<Rec>) returns (sib: Page)
    requires p.Valid() && es == p.Entries() && n == |es| && m < n && p.leftmost == NULL
    ensures fresh(sib) && fresh(sib.records) && UpperHalf(sib, es, m) && sib.Recorded()
    ensures sib.level == p.level && sib.records.Length == p.records.Length && sib.sibling == null
    ensures forall x :: n - m <= x < sib.records.Length ==> sib.records[x].key == LONG_MAX
  {
    sib := new Page(p.records.Length, NULL, p.level);
    var i := m;
    while i < n
      invariant m <= i <= n
      invariant fresh(sib) && fresh(sib.records) && sib.Valid() && sib.Entries() == es[m..i]
      invariant IsForward(sib.switchCounter) && sib.sibling == null && (i > m ==> Settled(sib)) && sib.Recorded()
      invariant unchanged(p) && unchanged(p.records)
      invariant forall x :: i - m <= x < sib.records.Length ==> sib.records[x].key == LONG_MAX
    {
      AppendNext(sib, p.records[i], m, i, es);
      i := i + 1;
    }
    assert es[m..n] == es[m..];
  }

  /**
    Three stores to the left page after the sibling is linked: the counter moves on but stays, or
    becomes, even; the null at slot m cuts the page; last_index follows.
   */
  method Cut(p: Page, m: nat, ghost es: seq<Rec>)
    requires p.Valid() && es == p.Entries() && 0 < m < |es| && p.leftmost == NULL
    modifies p`history, p`lastIndex, p`switchCounter, p.records
    ensures old(p.Recorded()) ==> p.Recorded()
    ensures old(p.history) <= p.history && LowerHalf(p, es, m, |old(p.history)|)
    ensures forall x :: m <= x < p.records.Length ==> p.records[x].key == old(p.records[x].key)
  {
    Announce(p, es);
    CutAt(p, m, es);
  }

  /** The first of them. */
  method Announce(p: Page, ghost es: seq<Rec>)
    requires p.Valid() && es == p.Entries() && p.leftmost == NULL
    modifies p`history, p`switchCounter
    ensures old(p.Recorded()) ==> p.Recorded()
    ensures IsForward(p.switchCounter) && p.switchCounter != old(p.switchCounter)
    ensures p.history == old(p.history) + [p.Snapshot()] && Shown(p.Snapshot(), NULL, p.records.Length, es)
  {
    var next := if IsForward(p.switchCounter) then (p.switchCounter + 2) % 256 else Bumped(p.switchCounter);
    p.StoreSwitch(next);
    PlainShows(NULL, es, p.Snapshot());
  }

  /** The last two of them. */
  method CutAt(p: Page, m: nat, ghost es: seq<Rec>)
    requires p.Valid() && es == p.Entries() && 0 < m < |es| && p.leftmost == NULL && IsForward(p.switchCounter)
    modifies p`history, p`lastIndex, p.records
    ensures old(p.Recorded()) ==> p.Recorded()
    ensures p.Valid() && p.Entries() == es[..m]
    ensures old(p.history) <= p.history && |p.history| == |old(p.history)| + 2
            && p.history[|p.history| - 1] == p.Snapshot()
    ensures p.AllShow(|old(p.history)|, |p.history|, es[..m])
    ensures forall x :: m <= x < p.records.Length ==> p.records[x].key == old(p.records[x].key)
  {
    p.StorePtr(m, NULL);
    PlainShows(NULL, es[..m], p.Snapshot());
    p.StoreLastIndex(m - 1);
    PlainShows(NULL, es[..m], p.Snapshot());
    assert p.Entries() == es[..m];
  }

  /** The hopping search answers, from this state, as if the leaf held `now`. */
  ghost predicate StateOk(s: SplitMem, now: seq<Rec>, rest: Rest) {
    && Loadable(s.left) && Loadable(s.right)
    && forall key :: HopSearch(s, rest, key) == Expected(now, rest, key)
  }

  /** Every state of the split answers from es before `commit`, and from es with r from `commit` on. */
  ghost predicate AnswersThroughout(trace: seq<SplitMem>, commit: nat, es: seq<Rec>, r: Rec, rest: Rest) {
    forall t :: 0 <= t < |trace| ==> StateOk(trace[t], if t < commit then es else Inserted(es, r), rest)
  }

  /** A leaf with entries es that has been cut at m, by the three stores since position h0 of its history. */
  ghost predicate LowerHalf(p: Page, es: seq<Rec>, m: nat, h0: nat)
    reads p, p.records
  {
    && p.leftmost == NULL && IsForward(p.switchCounter) && 0 < m < |es| < p.records.Length
    && p.Valid() && p.Entries() == es[..m]
    && |p.history| == h0 + 3 && p.history[h0 + 2] == p.Snapshot()
    && Shown(p.history[h0], NULL, p.records.Length, es)
    && p.AllShow(h0 + 1, h0 + 3, es[..m])
  }

  /** The page that the other entries were copied to. */
  ghost predicate UpperHalf(sib: Page, es: seq<Rec>, m: nat)
    reads sib, sib.records
  {
    sib.leftmost == NULL && IsForward(sib.switchCounter) && m < |es| && sib.Valid() && sib.Entries() == es[m..]
    && Settled(sib)
  }

  /** A leaf with entries es, linked to its new sibling and cut at m; `left0` was its memory at the link. */
  ghost predicate HasBeenCut(p: Page, sib: Page, es: seq<Rec>, m: nat, h0: nat, left0: Mem)
    reads p, p.records, sib, sib.records
  {
    && p != sib && p.records != sib.records && p.records.Length == sib.records.Length
    && WellFormed(es, NULL) && Answers(left0, es) && LowerHalf(p, es, m, h0) && UpperHalf(sib, es, m)
  }

  /** r can be inserted into es, all of which lies left of the rest. */
  ghost predicate CanInsert(es: seq<Rec>, m: nat, r: Rec, rest: Rest) {
    && WellFormed(Inserted(es, r), NULL) && !HasKey(es, r.key) && r.ptr != NULL
    && (forall i :: 0 <= i < |es| ==> es[i].ptr != r.ptr)
    && RestValid(rest) && m < |es| && (rest.Rest? ==> es[m].key < rest.firstKey)
  }

  /** One state of the split: what the two pages show, and that they cover `now`. */
  lemma StateAnswers(s: SplitMem, length: nat, lefts: seq<Rec>, rights: seq<Rec>, now: seq<Rec>, rest: Rest)
    requires Answers(s.left, lefts) && Shown(s.right, NULL, length, rights)
    requires Covers(lefts, rights, now, rest) && s.right.recs[0].key == rights[0].key && RestValid(rest)
    ensures StateOk(s, now, rest)
  {
    ShownMeansAnswers(s.right, length, rights);
    forall key ensures HopSearch(s, rest, key) == Expected(now, rest, key) {
      HopSearchFinds(s, lefts, rights, now, rest, key);
    }
  }

  /** The insertion went left: what each left memory shows, against the unchanged right page. */
  lemma LowStateAnswers(s: SplitMem, length: nat, es: seq<Rec>, m: nat, r: Rec, rest: Rest, phase: nat)
    requires WellFormed(es, NULL) && 0 < m < |es| && r.key < es[m].key && CanInsert(es, m, r, rest)
    requires Shown(s.right, NULL, length, es[m..]) && s.right.recs[0].key == es[m].key
    requires Answers(s.left, if phase == 0 then es else if phase == 1 then es[..m] else Inserted(es[..m], r))
    ensures StateOk(s, if phase <= 1 then es else Inserted(es, r), rest)
  {
    if phase == 0 {
      WholeCovers(es, m, rest);
      StateAnswers(s, length, es, es[m..], es, rest);
    } else if phase == 1 {
      HalvesCover(es[..m], es[m..], es, rest);
      StateAnswers(s, length, es[..m], es[m..], es, rest);
    } else {
      InsertedLow(es, m, r);
      HalvesCover(Inserted(es[..m], r), es[m..], Inserted(es, r), rest);
      StateAnswers(s, length, Inserted(es[..m], r), es[m..], Inserted(es, r), rest);
    }
  }

  /** The insertion went right: from the cut on, the left page shows the lower half. */
  lemma HighStateAnswers(s: SplitMem, length: nat, es: seq<Rec>, m: nat, r: Rec, rest: Rest)
    requires WellFormed(es, NULL) && 0 < m < |es| && es[m].key < r.key && CanInsert(es, m, r, rest)
    requires Shown(s.right, NULL, length, Inserted(es[m..], r)) && s.right.recs[0].key == es[m].key
    requires Answers(s.left, es[..m])
    ensures StateOk(s, Inserted(es, r), rest)
  {
    InsertedHigh(es, m, r);
    InsertedAt(es[m..], r, 0);
    HalvesCover(es[..m], Inserted(es[m..], r), Inserted(es, r), rest);
    StateAnswers(s, length, es[..m], Inserted(es[m..], r), Inserted(es, r), rest);
  }

  lemma LowTraceAnswers(left0: Mem, lefts: seq<Mem>, right0: Mem, commit: nat, length: nat,
                        es: seq<Rec>, m: nat, r: Rec, rest: Rest)
    requires WellFormed(es, NULL) && 0 < m < |es| && r.key < es[m].key && CanInsert(es, m, r, rest)
    requires Answers(left0, es) && Shown(right0, NULL, length, es[m..]) && right0.recs[0].key == es[m].key
    requires 3 <= commit <= |lefts| && Shown(lefts[0], NULL, length, es)
    requires forall u :: 1 <= u < commit ==> Shown(lefts[u], NULL, length, es[..m])
    requires forall u :: commit <= u < |lefts| ==> Shown(lefts[u], NULL, length, Inserted(es[..m], r))
    ensures AnswersThroughout(SplitTrace(left0, lefts, right0, []), commit + 1, es, r, rest)
  {
    var trace := SplitTrace(left0, lefts, right0, []);
    forall t | 0 <= t < |trace| ensures StateOk(trace[t], if t <= commit then es else Inserted(es, r), rest) {
      var s := SplitMem(if t == 0 then left0 else lefts[t - 1], right0);
      assert trace[t] == s;
      var phase := if t <= 1 then 0 else if t <= commit then 1 else 2;
      if t > 0 {
        ShownMeansAnswers(lefts[t - 1], length,
                          if phase == 0 then es else if phase == 1 then es[..m] else Inserted(es[..m], r));
      }
      LowStateAnswers(s, length, es, m, r, rest, phase);
    }
  }

  lemma HighTraceAnswers(left0: Mem, lefts: seq<Mem>, right0: Mem, rights: seq<Mem>, commit: nat, length: nat,
                         es: seq<Rec>, m: nat, r: Rec, rest: Rest)
    requires WellFormed(es, NULL) && 0 < m < |es| && es[m].key < r.key && CanInsert(es, m, r, rest)
    requires Answers(left0, es) && Shown(right0, NULL, length, es[m..]) && right0.recs[0].key == es[m].key
    requires |lefts| == 3 && commit <= |rights| && Shown(lefts[0], NULL, length, es)
    requires forall u :: 1 <= u < 3 ==> Shown(lefts[u], NULL, length, es[..m])
    requires forall u :: 0 <= u < commit ==> Shown(rights[u], NULL, length, es[m..])
    requires forall u :: commit <= u < |rights| ==> Shown(rights[u], NULL, length, Inserted(es[m..], r))
    requires forall u :: 0 <= u < |rights| ==> |rights[u].recs| > 0 && rights[u].recs[0].key == es[m].key
    ensures AnswersThroughout(SplitTrace(left0, lefts, right0, rights), commit + 4, es, r, rest)
  {
    var trace := SplitTrace(left0, lefts, right0, rights);
    forall t | 0 <= t < |trace| ensures StateOk(trace[t], if t < commit + 4 then es else Inserted(es, r), rest) {
      var s := SplitMem(if t == 0 then left0 else if t <= 3 then lefts[t - 1] else lefts[2],
                        if t <= 3 then right0 else rights[t - 4]);
      assert trace[t] == s;
      if t > 0 { ShownMeansAnswers(s.left, length, if t == 1 then es else es[..m]); }
      if t <= 1 {
        WholeCovers(es, m, rest);
        StateAnswers(s, length, es, es[m..], es, rest);
      } else if t < commit + 4 {
        HalvesCover(es[..m], es[m..], es, rest);
        StateAnswers(s, length, es[..m], es[m..], es, rest);
      } else {
        HighStateAnswers(s, length, es, m, r, rest);
      }
    }
  }

  /** A fresh entry is fresh for both halves. */
  lemma FreshInHalves(es: seq<Rec>, m: nat, r: Rec, rest: Rest)
    requires CanInsert(es, m, r, rest)
    ensures !HasKey(es[..m], r.key) && !HasKey(es[m..], r.key)
    ensures forall i :: 0 <= i < m ==> es[..m][i].ptr != r.ptr
    ensures forall i :: 0 <= i < |es| - m ==> es[m..][i].ptr != r.ptr
  {
  }

  /** The trace of a split whose insertion goes left, from the left page's history. */
  lemma LowHistoryAnswers(history: seq<Mem>, h0: nat, c: nat, left0: Mem, right0: Mem, length: nat,
                          es: seq<Rec>, m: nat, r: Rec, rest: Rest)
    requires WellFormed(es, NULL) && 0 < m < |es| && r.key < es[m].key && CanInsert(es, m, r, rest)
    requires Answers(left0, es) && Plain(right0.recs, es[m..]) && IsForward(right0.switchCounter)
    requires |right0.recs| == length && h0 + 3 <= c < |history| && Shown(history[h0], NULL, length, es)
    requires forall u :: h0 + 1 <= u < c ==> Shown(history[u], NULL, length, es[..m])
    requires forall u :: c <= u < |history| ==> Shown(history[u], NULL, length, Inserted(es[..m], r))
    ensures AnswersThroughout(SplitTrace(left0, history[h0..], right0, []), c - h0 + 1, es, r, rest)
  {
    assert WellFormed(es[m..], NULL);
    PlainShows(NULL, es[m..], right0);
    var lefts := history[h0..];
    forall u | 1 <= u < c - h0 ensures Shown(lefts[u], NULL, length, es[..m]) {
      assert lefts[u] == history[h0 + u];
    }
    forall u | c - h0 <= u < |lefts| ensures Shown(lefts[u], NULL, length, Inserted(es[..m], r)) {
      assert lefts[u] == history[h0 + u];
    }
    LowTraceAnswers(left0, lefts, right0, c - h0, length, es, m, r, rest);
  }

  /**
    Both pages hold the sorted insertion, and the trace is that of their stores since the link: those
    of p since position h0 of its history, then those of sib since position g0 of its own.
   */
  ghost predicate SplitDone(p: Page, sib: Page, es: seq<Rec>, m: nat, r: Rec, rest: Rest, h0: nat, left0: Mem,
                            right0: Mem, g0: nat, trace: seq<SplitMem>, commit: nat)
    reads p, p.records, sib, sib.records
  {
    && p.Valid() && sib.Valid() && p.Entries() != [] && sib.Entries() != [] && m < |es| && sib.Entries()[0] == es[m]
    && p.Entries() + sib.Entries() == Inserted(es, r)
    && h0 <= |p.history| && g0 <= |sib.history|
    && TraceDone(trace, commit, left0, p.history[h0..], right0, sib.history[g0..], es, r, rest,
                 SplitMem(p.Snapshot(), sib.Snapshot()))
  }

  /** The trace of these stores answers at every one of them, and ends in the given memory. */
  ghost predicate TraceDone(trace: seq<SplitMem>, commit: nat, left0: Mem, lefts: seq<Mem>, right0: Mem,
                            rights: seq<Mem>, es: seq<Rec>, r: Rec, rest: Rest, end: SplitMem) {
    && trace == SplitTrace(left0, lefts, right0, rights)
    && AnswersThroughout(trace, commit, es, r, rest) && 0 < commit < |trace| && trace[|trace| - 1] == end
  }

  /** The insertion into the left half, with the trace of the whole split. */
  method InsertLow(p: Page, sib: Page, key: int, ptr: int, m: nat,
                   ghost es: seq<Rec>, ghost h0: nat, ghost left0: Mem, ghost rest: Rest)
    returns (ghost trace: seq<SplitMem>, ghost commit: nat)
    requires HasBeenCut(p, sib, es, m, h0, left0) && CanInsert(es, m, Rec(key, ptr), rest)
    requires key < es[m].key
    modifies p`history, p`lastIndex, p`switchCounter, p.records
    ensures old(p.Recorded()) ==> p.Recorded()
    ensures old(p.history) <= p.history
    ensures SplitDone(p, sib, es, m, Rec(key, ptr), rest, h0, left0, sib.Snapshot(), |sib.history|, trace, commit)
  {
    ghost var before := p.history;
    ghost var c := InsertIntoLower(p, key, ptr, m, es, rest);
    trace, commit := SplitTrace(left0, p.history[h0..], sib.Snapshot(), []), c - h0 + 1;
    LowDone(p, sib, es, m, Rec(key, ptr), rest, h0, left0, before, c);
  }

  /** The two pages after it; `before` was the left page's history until then. */
  lemma LowDone(p: Page, sib: Page, es: seq<Rec>, m: nat, r: Rec, rest: Rest, h0: nat, left0: Mem, before: seq<Mem>,
                c: nat)
    requires p.records.Length == sib.records.Length && WellFormed(es, NULL) && Answers(left0, es)
             && UpperHalf(sib, es, m)
    requires CanInsert(es, m, r, rest) && 0 < m && r.key < es[m].key
    requires |before| == h0 + 3 && Shown(before[h0], NULL, p.records.Length, es)
    requires forall u :: h0 + 1 <= u < h0 + 3 ==> Shown(before[u], NULL, p.records.Length, es[..m])
    requires p.leftmost == NULL && p.Valid() && p.Entries() == Inserted(es[..m], r) && p.Entries() != [] && Settled(p)
    requires before <= p.history && h0 + 3 <= c < |p.history|
    requires p.AllShow(h0 + 3, c, es[..m]) && p.AllShow(c, |p.history|, Inserted(es[..m], r))
    ensures SplitDone(p, sib, es, m, r, rest, h0, left0, sib.Snapshot(), |sib.history|,
                      SplitTrace(left0, p.history[h0..], sib.Snapshot(), []), c - h0 + 1)
  {
    JoinShown(before, p.history, h0 + 1, c, p.records.Length, es[..m]);
    InsertedLow(es, m, r);
    assert p.history[h0] == before[h0];
    LowTraceDone(p.history, h0, c, left0, sib.Snapshot(), p.records.Length, es, m, r, rest);
    assert sib.history[|sib.history|..] == [];
  }

  /** What a history showed before more stores it still shows, and what follows goes on from there. */
  lemma JoinShown(before: seq<Mem>, after: seq<Mem>, from: nat, c: nat, length: nat, es: seq<Rec>)
    requires before <= after && from <= |before| <= c <= |after|
    requires forall u :: from <= u < |before| ==> Shown(before[u], NULL, length, es)
    requires forall u :: |before| <= u < c ==> Shown(after[u], NULL, length, es)
    ensures forall u :: from <= u < c ==> Shown(after[u], NULL, length, es)
  {
    assert forall u :: 0 <= u < |before| ==> after[u] == before[u];
  }

  /** The left page's own part of it. */
  method InsertIntoLower(p: Page, key: int, ptr: int, m: nat, ghost es: seq<Rec>, ghost rest: Rest)
    returns (ghost c: nat)
    requires p.Valid() && p.leftmost == NULL && 0 < m < |es| < p.records.Length && p.Entries() == es[..m]
    requires IsForward(p.switchCounter) && WellFormed(es, NULL) && CanInsert(es, m, Rec(key, ptr), rest)
    modifies p`history, p`lastIndex, p`switchCounter, p.records
    ensures old(p.Recorded()) ==> p.Recorded()
    ensures p.Valid() && p.Entries() == Inserted(es[..m], Rec(key, ptr)) && p.Entries() != []
    ensures old(p.history) <= p.history && |old(p.history)| <= c < |p.history| && Settled(p)
    ensures p.AllShow(|old(p.history)|, c, es[..m]) && p.AllShow(c, |p.history|, Inserted(es[..m], Rec(key, ptr)))
  {
    FreshInHalves(es, m, Rec(key, ptr), rest);
    c := p.InsertKey(key, ptr, m);
  }

  lemma LowTraceDone(history: seq<Mem>, h0: nat, c: nat, left0: Mem, right0: Mem, length: nat,
                     es: seq<Rec>, m: nat, r: Rec, rest: Rest)
    requires WellFormed(es, NULL) && 0 < m < |es| && r.key < es[m].key && CanInsert(es, m, r, rest)
    requires Answers(left0, es) && Plain(right0.recs, es[m..]) && IsForward(right0.switchCounter)
    requires |right0.recs| == length && h0 + 3 <= c < |history| && Shown(history[h0], NULL, length, es)
    requires forall u :: h0 + 1 <= u < c ==> Shown(history[u], NULL, length, es[..m])
    requires forall u :: c <= u < |history| ==> Shown(history[u], NULL, length, Inserted(es[..m], r))
    ensures TraceDone(SplitTrace(left0, history[h0..], right0, []), c - h0 + 1, left0, history[h0..], right0, [],
                      es, r, rest, SplitMem(history[|history| - 1], right0))
  {
    LowHistoryAnswers(history, h0, c, left0, right0, length, es, m, r, rest);
  }

  /** The trace of a split whose insertion goes right, from both histories. */
  lemma HighHistoryAnswers(history: seq<Mem>, h0: nat, left0: Mem, right0: Mem, rhistory: seq<Mem>, g0: nat, c: nat,
                           length: nat, es: seq<Rec>, m: nat, r: Rec, rest: Rest)
    requires WellFormed(es, NULL) && 0 < m < |es| && es[m].key < r.key && CanInsert(es, m, r, rest)
    requires Answers(left0, es) && Plain(right0.recs, es[m..]) && IsForward(right0.switchCounter)
    requires |right0.recs| == length && |history| == h0 + 3 && Shown(history[h0], NULL, length, es)
    requires forall u :: h0 + 1 <= u < h0 + 3 ==> Shown(history[u], NULL, length, es[..m])
    requires g0 <= c < |rhistory|
    requires forall u :: g0 <= u < c ==> Shown(rhistory[u], NULL, length, es[m..])
    requires forall u :: c <= u < |rhistory| ==> Shown(rhistory[u], NULL, length, Inserted(es[m..], r))
    requires forall u :: g0 <= u < |rhistory| ==> |rhistory[u].recs| > 0 && rhistory[u].recs[0] == right0.recs[0]
    ensures AnswersThroughout(SplitTrace(left0, history[h0..], right0, rhistory[g0..]), c - g0 + 4, es, r, rest)
  {
    assert WellFormed(es[m..], NULL);
    PlainShows(NULL, es[m..], right0);
    var lefts, rights := history[h0..], rhistory[g0..];
    forall u | 1 <= u < 3 ensures Shown(lefts[u], NULL, length, es[..m]) {
      assert lefts[u] == history[h0 + u];
    }
    forall u | 0 <= u < |rights|
      ensures Shown(rights[u], NULL, length, if u < c - g0 then es[m..] else Inserted(es[m..], r))
      ensures |rights[u].recs| > 0 && rights[u].recs[0].key == es[m].key
    {
      assert rights[u] == rhistory[g0 + u];
    }
    HighTraceAnswers(left0, lefts, right0, rights, c - g0, length, es, m, r, rest);
  }

  /** The insertion into the right half, with the trace of the whole split. */
  method InsertHigh(p: Page, sib: Page, key: int, ptr: int, m: nat, n: nat,
                    ghost es: seq<Rec>, ghost h0: nat, ghost left0: Mem, ghost rest: Rest)
    returns (ghost trace: seq<SplitMem>, ghost commit: nat)
    requires HasBeenCut(p, sib, es, m, h0, left0) && CanInsert(es, m, Rec(key, ptr), rest)
    requires es[m].key < key && n == |es|
    modifies sib`history, sib`lastIndex, sib`switchCounter, sib.records
    ensures old(sib.Recorded()) ==> sib.Recorded()
    ensures old(sib.history) <= sib.history
    ensures SplitDone(p, sib, es, m, Rec(key, ptr), rest, h0, left0, old(sib.Snapshot()), |old(sib.history)|, trace,
                      commit)
  {
    ghost var right0, g0 := sib.Snapshot(), |sib.history|;
    ghost var c := InsertIntoSibling(sib, key, ptr, m, n, es, rest);
    trace, commit := SplitTrace(left0, p.history[h0..], right0, sib.history[g0..]), c - g0 + 4;
    HighDone(p, sib, es, m, Rec(key, ptr), rest, h0, left0, right0, g0, c);
  }

  /** The two pages after it; `right0` was the sibling's memory until then. */
  lemma HighDone(p: Page, sib: Page, es: seq<Rec>, m: nat, r: Rec, rest: Rest, h0: nat, left0: Mem, right0: Mem,
                 g0: nat, c: nat)
    requires p.records.Length == sib.records.Length && WellFormed(es, NULL) && Answers(left0, es)
             && LowerHalf(p, es, m, h0)
    requires CanInsert(es, m, r, rest) && es[m].key < r.key
    requires Plain(right0.recs, es[m..]) && IsForward(right0.switchCounter) && |right0.recs| == p.records.Length
    requires HighHalf(sib, es, m, r, right0, g0, c)
    ensures SplitDone(p, sib, es, m, r, rest, h0, left0, right0, g0,
                      SplitTrace(left0, p.history[h0..], right0, sib.history[g0..]), c - g0 + 4)
  {
    InsertedHigh(es, m, r);
    HighTrace(p, sib, es, m, r, rest, h0, left0, right0, g0, c);
  }

  /** The sibling after the insertion, and its memories from position g0 of its history on. */
  ghost predicate HighHalf(sib: Page, es: seq<Rec>, m: nat, r: Rec, right0: Mem, g0: nat, c: nat)
    reads sib, sib.records
  {
    && |right0.recs| > 0 && m < |es| && sib.leftmost == NULL && sib.Valid() && sib.Entries() == Inserted(es[m..], r)
    && sib.Entries() != [] && sib.Entries()[0] == es[m]
    && g0 <= c < |sib.history| && Settled(sib)
    && sib.AllShow(g0, c, es[m..]) && sib.AllShow(c, |sib.history|, Inserted(es[m..], r))
    && sib.KeepsFirst(g0, right0.recs[0])
  }

  lemma HighTrace(p: Page, sib: Page, es: seq<Rec>, m: nat, r: Rec, rest: Rest, h0: nat, left0: Mem, right0: Mem,
                  g0: nat, c: nat)
    requires p.records.Length == sib.records.Length && WellFormed(es, NULL) && Answers(left0, es)
             && LowerHalf(p, es, m, h0)
    requires CanInsert(es, m, r, rest) && es[m].key < r.key
    requires Plain(right0.recs, es[m..]) && IsForward(right0.switchCounter) && |right0.recs| == p.records.Length
    requires HighHalf(sib, es, m, r, right0, g0, c)
    ensures TraceDone(SplitTrace(left0, p.history[h0..], right0, sib.history[g0..]), c - g0 + 4, left0, p.history[h0..],
                      right0, sib.history[g0..], es, r, rest, SplitMem(p.Snapshot(), sib.Snapshot()))
  {
    HighTraceDone(p.history, h0, left0, right0, sib.history, g0, c, p.records.Length, es, m, r, rest);
  }

  lemma HighTraceDone(history: seq<Mem>, h0: nat, left0: Mem, right0: Mem, rhistory: seq<Mem>, g0: nat, c: nat,
                      length: nat, es: seq<Rec>, m: nat, r: Rec, rest: Rest)
    requires WellFormed(es, NULL) && 0 < m < |es| && es[m].key < r.key && CanInsert(es, m, r, rest)
    requires Answers(left0, es) && Plain(right0.recs, es[m..]) && IsForward(right0.switchCounter)
    requires |right0.recs| == length && |history| == h0 + 3 && Shown(history[h0], NULL, length, es)
    requires forall u :: h0 + 1 <= u < h0 + 3 ==> Shown(history[u], NULL, length, es[..m])
    requires g0 <= c < |rhistory|
    requires forall u :: g0 <= u < c ==> Shown(rhistory[u], NULL, length, es[m..])
    requires forall u :: c <= u < |rhistory| ==> Shown(rhistory[u], NULL, length, Inserted(es[m..], r))
    requires forall u :: g0 <= u < |rhistory| ==> |rhistory[u].recs| > 0 && rhistory[u].recs[0] == right0.recs[0]
    ensures TraceDone(SplitTrace(left0, history[h0..], right0, rhistory[g0..]), c - g0 + 4, left0, history[h0..],
                      right0, rhistory[g0..], es, r, rest, SplitMem(history[|history| - 1], rhistory[|rhistory| - 1]))
  {
    HighHistoryAnswers(history, h0, left0, right0, rhistory, g0, c, length, es, m, r, rest);
  }

  /** The sibling's own part of it. Its first slot keeps its entry at every store. */
  method InsertIntoSibling(sib: Page, key: int, ptr: int, m: nat, n: nat, ghost es: seq<Rec>, ghost rest: Rest)
    returns (ghost c: nat)
    requires sib.Valid() && sib.leftmost == NULL && 0 < m < n == |es| < sib.records.Length && sib.Entries() == es[m..]
    requires IsForward(sib.switchCounter) && WellFormed(es, NULL) && CanInsert(es, m, Rec(key, ptr), rest)
             && es[m].key < key
    modifies sib`history, sib`lastIndex, sib`switchCounter, sib.records
    ensures old(sib.Recorded()) ==> sib.Recorded()
    ensures sib.Valid() && sib.Entries() == Inserted(es[m..], Rec(key, ptr)) && sib.Entries() != []
            && sib.Entries()[0] == es[m]
    ensures old(sib.history) <= sib.history && |old(sib.history)| <= c < |sib.history| && Settled(sib)
    ensures sib.AllShow(|old(sib.history)|, c, es[m..])
            && sib.AllShow(c, |sib.history|, Inserted(es[m..], Rec(key, ptr)))
    ensures sib.KeepsFirst(|old(sib.history)|, old(sib.records[0]))
  {
    FreshInHalves(es, m, Rec(key, ptr), rest);
    InsertedHigh(es, m, Rec(key, ptr));
    InsertedAt(es[m..], Rec(key, ptr), 0);
    c := sib.InsertKey(key, ptr, n - m);
  }

  lemma SettledAnswers(m: Mem, es: seq<Rec>)
    requires Plain(m.recs, es) && WellFormed(es, NULL) && m.lastIndex == |es| - 1
    ensures Answers(m, es)
  {
    if IsForward(m.switchCounter) {
      PlainShows(NULL, es, m);
      ShownMeansAnswers(m, |m.recs|, es);
    } else {
      PlainShowsBackward(NULL, es, m);
      forall key ensures LeafAnswer(m, key) == Find(es, key) { ShownBackwardAnswers(m, |m.recs|, es, key); }
    }
  }

  /** Builds and links the sibling, then cuts the left page. */
  method LinkAndCut(p: Page, m: nat, n: nat, ghost es: seq<Rec>) returns (sib: Page)
    requires p.Valid() && p.leftmost == NULL && es == p.Entries() && 0 < m < n == |es|
    modifies p, p.records
    ensures fresh(sib) && fresh(sib.records) && p.sibling == sib && sib.sibling == old(p.sibling)
    ensures sib.level == p.level && HasBeenCut(p, sib, es, m, |old(p.history)|, old(p.Snapshot()))
    ensures old(p.history) <= p.history && Settled(sib) && Plain(sib.history[|sib.history| - 1].recs, es[m..])
    ensures sib.Recorded() && (old(p.Recorded()) ==> p.Recorded())
    ensures forall x :: m <= x < p.records.Length ==> p.records[x].key == old(p.records[x].key)
    ensures forall x :: n - m <= x < sib.records.Length ==> sib.records[x].key == LONG_MAX
  {
    SettledAnswers(p.Snapshot(), es);
    sib := Migrate(p, m, n, es);
    Link(p, sib);
    Cut(p, m, es);
  }

  method Link(p: Page, sib: Page)
    modifies p`sibling, sib`sibling
    ensures (old(p.Recorded()) ==> p.Recorded()) && (old(sib.Recorded()) ==> sib.Recorded())
    ensures p.sibling == sib && (p != sib ==> sib.sibling == old(p.sibling))
  {
    sib.sibling := p.sibling;
    p.sibling := sib;
  }

  method InsertIntoHalf(p: Page, sib: Page, key: int, ptr: int, m: nat, n: nat, splitKey: int,
                        ghost es: seq<Rec>, ghost h0: nat, ghost left0: Mem, ghost rest: Rest)
    returns (ghost trace: seq<SplitMem>, ghost commit: nat)
    requires HasBeenCut(p, sib, es, m, h0, left0) && CanInsert(es, m, Rec(key, ptr), rest)
    requires n == |es| && splitKey == es[m].key
    modifies p`history, p`lastIndex, p`switchCounter, p.records
    modifies sib`history, sib`lastIndex, sib`switchCounter, sib.records
    ensures old(p.Recorded()) ==> p.Recorded()
    ensures old(sib.Recorded()) ==> sib.Recorded()
    ensures old(p.history) <= p.history && old(sib.history) <= sib.history
    ensures SplitDone(p, sib, es, m, Rec(key, ptr), rest, h0, left0, old(sib.Snapshot()), |old(sib.history)|, trace,
                      commit)
  {
    if key < splitKey {
      trace, commit := InsertLow(p, sib, key, ptr, m, es, h0, left0, rest);
    } else {
      trace, commit := InsertHigh(p, sib, key, ptr, m, n, es, h0, left0, rest);
    }
  }

  /** The split at slot m and the insertion into one of the halves. */
  method SplitAt(p: Page, key: int, ptr: int, m: nat, n: nat, splitKey: int, ghost es: seq<Rec>, ghost rest: Rest)
    returns (sib: Page, ghost linked: nat, ghost trace: seq<SplitMem>, ghost commit: nat)
    requires p.Valid() && p.leftmost == NULL && es == p.Entries() && 0 < m < n == |es| && splitKey == es[m].key
    requires CanInsert(es, m, Rec(key, ptr), rest)
    modifies p, p.records
    ensures fresh(sib) && fresh(sib.records) && p.sibling == sib && sib.sibling == old(p.sibling)
    ensures sib.records.Length == p.records.Length && sib.leftmost == NULL && sib.level == p.level
    ensures sib.Recorded() && (old(p.Recorded()) ==> p.Recorded())
    ensures old(p.history) <= p.history && 0 < linked <= |sib.history| && Plain(sib.history[linked - 1].recs, es[m..])
    ensures SplitDone(p, sib, es, m, Rec(key, ptr), rest, |old(p.history)|, old(p.Snapshot()), sib.history[linked - 1],
                      linked, trace, commit)
  {
    ghost var h0, left0 := |p.history|, p.Snapshot();
    sib := LinkAndCut(p, m, n, es);
    linked := |sib.history|;
    ghost var right0, rights := sib.Snapshot(), sib.history;
    assert right0 == rights[linked - 1];
    trace, commit := InsertIntoHalf(p, sib, key, ptr, m, n, splitKey, es, h0, left0, rest);
    assert sib.history[linked - 1] == rights[linked - 1];
  }

  lemma CanInsertFresh(es: seq<Rec>, key: int, ptr: int, rest: Rest)
    requires WellFormed(es, NULL) && es != [] && !HasKey(es, key) && ptr != NULL && RestValid(rest)
    requires forall i :: 0 <= i < |es| ==> es[i].ptr != ptr
    requires rest.Rest? ==> forall i :: 0 <= i < |es| ==> es[i].key < rest.firstKey
    ensures CanInsert(es, |es| / 2, Rec(key, ptr), rest)
  {
    InsertedWellFormed(es, NULL, Rec(key, ptr));
  }

  /**
    What a split does, store by store, from the moment the sibling is linked, which has then the upper
    half of the entries.
   */
  ghost predicate IsTraceOfSplit(trace: seq<SplitMem>, left0: Mem, lefts: seq<Mem>, rights: seq<Mem>, linked: nat,
                                 es: seq<Rec>) {
    && 0 < linked <= |rights| && Plain(rights[linked - 1].recs, es[|es| / 2..])
    && trace == SplitTrace(left0, lefts, rights[linked - 1], rights[linked..])
  }

  /**
    The overflow branch of store on a leaf. The sibling is linked after the first `linked` of its
    stores. `trace` lists the two pages' memories from then to the last store before the parent is
    updated: the left page's stores one by one, then the sibling's remaining ones. At each of them the
    search from the left page finds exactly the old entries, and from `commit` on also the new one.
    In the end the two pages hold the sorted insertion, and each has room again or is exactly full.
   */
  method SplitLeaf(p: Page, key: int, ptr: int, ghost rest: Rest)
    returns (sib: Page, splitKey: int, ghost linked: nat, ghost trace: seq<SplitMem>, ghost commit: nat)
    requires p.Valid() && p.leftmost == NULL && |p.Entries()| == p.records.Length - 1
    requires !HasKey(p.Entries(), key) && ptr != NULL
    requires forall i :: 0 <= i < |p.Entries()| ==> p.Entries()[i].ptr != ptr
    requires RestValid(rest)
    requires rest.Rest? ==> forall i :: 0 <= i < |p.Entries()| ==> p.Entries()[i].key < rest.firstKey
    modifies p, p.records
    ensures fresh(sib) && fresh(sib.records) && p.Valid() && sib.Valid()
    ensures p.sibling == sib && sib.sibling == old(p.sibling)
    ensures p.Entries() + sib.Entries() == Inserted(old(p.Entries()), Rec(key, ptr))
    ensures p.Entries() != [] && sib.Entries() != [] && splitKey == sib.Entries()[0].key
    ensures sib.records.Length == p.records.Length && sib.leftmost == NULL && sib.level == p.level
    ensures old(p.history) <= p.history && sib.Recorded() && (old(p.Recorded()) ==> p.Recorded())
    ensures IsTraceOfSplit(trace, old(p.Snapshot()), p.history[|old(p.history)|..], sib.history, linked,
                           old(p.Entries()))
    ensures AnswersThroughout(trace, commit, old(p.Entries()), Rec(key, ptr), rest)
    ensures 0 < commit < |trace| && trace[|trace| - 1] == SplitMem(p.Snapshot(), sib.Snapshot())
  {
    ghost var es := p.Entries();
    CanInsertFresh(es, key, ptr, rest);
    var n := p.Count();
    var m := n / 2;
    splitKey := p.records[m].key;
    sib, linked, trace, commit := SplitAt(p, key, ptr, m, n, splitKey, es, rest);
  }
}
