/**
  One lock-free reader against any number of insertions into the same leaf, load by load and store
  by store.

  The reader scans left to right; every load of a key or a pointer is one step, and any number of
  writer stores may happen between two loads. The comparison records[i-1].ptr != (t = records[i].ptr)
  loads two pointers, and C++ leaves their order open, so both orders are modelled.
 */
module LeafReader {
  import opened RecordLists
  import P = Pages

  /** Where insert_key stands; `x` and `p` are the new key and its pointer. */
  datatype Writer =
    | Idle
    | Close(x: int, p: int)                 // about to store the null behind the last entry
    | Examine(x: int, p: int, at: int)       // about to compare x with slot i
    | ShiftKey(x: int, p: int, i: nat)      // slot i + 1 has slot i's pointer, its key is next
    | PlaceKey(x: int, p: int, g: nat)      // slot g repeats the pointer on its left
    | Commit(x: int, p: int, g: nat)        // slot g has key x, its pointer is next
    | EmptyKey(x: int, p: int) | EmptyPtr(x: int, p: int) | EmptyEnd

  datatype LoadOrder = RightFirst | LeftFirst

  /** Where the leaf scan stands. */
  datatype Reader =
    | FirstKey | FirstPtr | FirstAgain(t: int)
    | Test(i: nat)                          // about to load records[i].ptr for the loop test
    | LoadKey(i: nat)
    | LoadRight(i: nat) | ThenLeft(i: nat, t: int)
    | LoadLeft(i: nat) | ThenRight(i: nat, left: int, begun: bool)   // begun: an insertion started in between
    | Again(i: nat, t: int)
    | Done(t: int)

  /** The slots, the entries that are live, the writer, and the reader of `key`. */
  datatype State = State(recs: seq<Rec>, es: seq<Rec>, w: Writer, r: Reader, key: int)

  /** A new insertion, the writer's next store, or the reader's next load. */
  datatype Action = Start(x: int, p: int) | Write | Read

  // ---------------------------------------------------------------- steps

  function SetKey(recs: seq<Rec>, i: nat, key: int): seq<Rec>
    requires i < |recs|
  {
    recs[i := recs[i].(key := key)]
  }

  function SetPtr(recs: seq<Rec>, i: nat, ptr: int): seq<Rec>
    requires i < |recs|
  {
    recs[i := recs[i].(ptr := ptr)]
  }

  /** The writer's current slot is inside the array. */
  predicate InRange(s: State) {
    match s.w
    case Idle => true
    case Close(_, _) => |s.es| + 1 < |s.recs|
    case Examine(_, _, i) => -1 <= i < |s.recs| - 1
    case ShiftKey(_, _, i) => i + 1 < |s.recs|
    case PlaceKey(_, _, g) => g < |s.recs|
    case Commit(_, _, g) => g <= |s.es| && g < |s.recs|
    case EmptyKey(_, _) => 1 < |s.recs|
    case EmptyPtr(_, _) => 1 < |s.recs|
    case EmptyEnd => 1 < |s.recs|
  }

  /** The writer's next store. Only the commit of an entry changes the live entries. */
  function WriteStep(s: State): State
    requires InRange(s)
  {
    match s.w
    case Idle => s
    case Close(x, p) =>
      var n := |s.es|;
      s.(recs := SetPtr(s.recs, n + 1, s.recs[n].ptr), w := Examine(x, p, n - 1))
    case Examine(x, p, i) =>
      if i >= 0 && x < s.recs[i].key then
        s.(recs := SetPtr(s.recs, i + 1, s.recs[i].ptr), w := ShiftKey(x, p, i))
      else
        s.(recs := SetPtr(s.recs, i + 1, LeftPtr(s.recs, NULL, i + 1)), w := PlaceKey(x, p, i + 1))
    case ShiftKey(x, p, i) =>
      s.(recs := SetKey(s.recs, i + 1, s.recs[i].key), w := Examine(x, p, i - 1))
    case PlaceKey(x, p, g) =>
      s.(recs := SetKey(s.recs, g, x), w := Commit(x, p, g))
    case Commit(x, p, g) =>
      s.(recs := SetPtr(s.recs, g, p), es := InsertAt(s.es, Rec(x, p), g), w := Idle)
    case EmptyKey(x, p) => s.(recs := SetKey(s.recs, 0, x), w := EmptyPtr(x, p))
    case EmptyPtr(x, p) => s.(recs := SetPtr(s.recs, 0, p), es := [Rec(x, p)], w := EmptyEnd)
    case EmptyEnd => s.(recs := SetPtr(s.recs, 1, NULL), w := Idle)
  }

  /** Every step of a writer is one store into one slot, or a comparison. */
  lemma WritesOneWord(s: State)
    requires InRange(s) && s.recs != []
    ensures exists i :: 0 <= i < |s.recs| && StoredAt(s.recs, WriteStep(s).recs, i)
  {
    var recs := WriteStep(s).recs;
    match s.w
    case Idle => assert StoredAt(s.recs, recs, 0);
    case Close(_, _) => assert StoredAt(s.recs, recs, |s.es| + 1);
    case Examine(_, _, i) => assert StoredAt(s.recs, recs, i + 1);
    case ShiftKey(_, _, i) => assert StoredAt(s.recs, recs, i + 1);
    case PlaceKey(_, _, g) => assert StoredAt(s.recs, recs, g);
    case Commit(_, _, g) => assert StoredAt(s.recs, recs, g);
    case EmptyKey(_, _) => assert StoredAt(s.recs, recs, 0);
    case EmptyPtr(_, _) => assert StoredAt(s.recs, recs, 0);
    case EmptyEnd => assert StoredAt(s.recs, recs, 1);
  }

  /** At most one word of slot i has changed. */
  ghost predicate StoredAt(recs: seq<Rec>, recs': seq<Rec>, i: nat)
    requires i < |recs|
  {
    && |recs'| == |recs| && (recs'[i].key == recs[i].key || recs'[i].ptr == recs[i].ptr)
    && forall j :: 0 <= j < |recs| && j != i ==> recs'[j] == recs[j]
  }

  predicate ReadInRange(s: State) {
    && 0 < |s.recs|
    && match s.r
       case Test(i) => 1 <= i < |s.recs|
       case LoadKey(i) => 1 <= i < |s.recs|
       case LoadRight(i) => 1 <= i < |s.recs|
       case ThenLeft(i, _) => 1 <= i < |s.recs|
       case LoadLeft(i) => 1 <= i < |s.recs|
       case ThenRight(i, _, _) => 1 <= i < |s.recs|
       case Again(i, _) => 1 <= i < |s.recs|
       case _ => true
  }

  /** The reader's next load. */
  function ReadStep(s: State, order: LoadOrder): Reader
    requires ReadInRange(s)
  {
    match s.r
    case FirstKey => if s.recs[0].key == s.key then FirstPtr else Test(1)
    case FirstPtr => if s.recs[0].ptr != NULL then FirstAgain(s.recs[0].ptr) else Test(1)
    case FirstAgain(t) => if s.recs[0].key == s.key then Done(t) else Test(1)
    case Test(i) => if s.recs[i].ptr == NULL then Done(NULL) else LoadKey(i)
    case LoadKey(i) =>
      if s.recs[i].key != s.key then Test(i + 1)
      else if order.RightFirst? then LoadRight(i) else LoadLeft(i)
    case LoadRight(i) => ThenLeft(i, s.recs[i].ptr)
    case ThenLeft(i, t) => if s.recs[i - 1].ptr != t then Again(i, t) else Test(i + 1)
    case LoadLeft(i) => ThenRight(i, s.recs[i - 1].ptr, false)
    case ThenRight(i, left, _) => if left != s.recs[i].ptr then Again(i, s.recs[i].ptr) else Test(i + 1)
    case Again(i, t) => if s.recs[i].key == s.key then Done(t) else Test(i + 1)
    case Done(_) => s.r
  }

  /** A new insertion needs a fresh key of this page's range, a fresh pointer, and a free slot. */
  ghost predicate CanStart(s: State, x: int, p: int, hi: int) {
    && s.w.Idle?
    && |s.es| < |s.recs| - 1
    && !HasKey(s.es, x) && x < hi
    && p != NULL && forall i :: 0 <= i < |s.es| ==> s.es[i].ptr != p
  }

  ghost predicate Enabled(s: State, a: Action, hi: int) {
    match a
    case Start(x, p) => CanStart(s, x, p, hi)
    case Write => InRange(s)
    case Read => ReadInRange(s)
  }

  ghost function Step(s: State, a: Action, order: LoadOrder, hi: int): State
    requires Enabled(s, a, hi)
  {
    match a
    case Start(x, p) =>
      s.(w := if s.es == [] then EmptyKey(x, p) else Close(x, p),
         r := if s.r.ThenRight? then s.r.(begun := true) else s.r)
    case Write => WriteStep(s)
    case Read => s.(r := ReadStep(s, order))
  }

  /** A run that takes only enabled steps, and where it ends. */
  ghost predicate Legal(s: State, acts: seq<Action>, order: LoadOrder, hi: int)
    decreases |acts|
  {
    acts == [] || (Enabled(s, acts[0], hi) && Legal(Step(s, acts[0], order, hi), acts[1..], order, hi))
  }

  ghost function Run(s: State, acts: seq<Action>, order: LoadOrder, hi: int): State
    requires Legal(s, acts, order, hi)
    decreases |acts|
  {
    if acts == [] then s else Run(Step(s, acts[0], order, hi), acts[1..], order, hi)
  }

  // ---------------------------------------------------------------- what the writer keeps

  /** Keys behind the entries belong to the right of the page: they are at least hi. */
  ghost predicate StaleFrom(recs: seq<Rec>, from: nat, hi: int) {
    forall i :: from <= i < |recs| ==> hi <= recs[i].key
  }

  /** x belongs at position g of es. */
  ghost predicate BelongsAt(es: seq<Rec>, x: int, g: nat) {
    && g <= |es|
    && (forall i :: 0 <= i < g ==> es[i].key < x)
    && (forall i :: g <= i < |es| ==> x < es[i].key)
  }

  ghost predicate FreshEntry(es: seq<Rec>, x: int, p: int, hi: int) {
    && !HasKey(es, x) && x < hi && p != NULL
    && forall i :: 0 <= i < |es| ==> es[i].ptr != p
  }

  /** The slots between two stores of an insertion. */
  ghost predicate WriterOk(recs: seq<Rec>, es: seq<Rec>, w: Writer, hi: int) {
    && 4 <= |recs|
    && WellFormed(es, NULL)
    && (forall i :: 0 <= i < |es| ==> es[i].key < hi)
    && match w
       case Idle => Plain(recs, es) && StaleFrom(recs, |es|, hi)
       case Close(x, p) =>
         && Plain(recs, es) && StaleFrom(recs, |es|, hi) && es != [] && |es| + 1 < |recs|
         && FreshEntry(es, x, p, hi)
       case Examine(x, p, i) =>
         && -1 <= i < |es| && P.Gapped(recs, es, i + 1) && FreshEntry(es, x, p, hi)
         && StaleFrom(recs, if i + 1 < |es| then |es| + 1 else |es|, hi)
         && forall k :: i < k < |es| ==> x < es[k].key
       case ShiftKey(x, p, i) =>
         && i < |es| && WithPhantom(recs, NULL, es, i + 1) && FreshEntry(es, x, p, hi)
         && StaleFrom(recs, if i + 1 < |es| then |es| + 1 else |es|, hi)
         && (i + 1 < |es| ==> recs[i + 1].key == es[i + 1].key)
         && forall k :: i <= k < |es| ==> x < es[k].key
       case PlaceKey(x, p, g) =>
         && WithPhantom(recs, NULL, es, g) && FreshEntry(es, x, p, hi) && BelongsAt(es, x, g)
         && StaleFrom(recs, if g < |es| then |es| + 1 else |es|, hi)
         && (g < |es| ==> recs[g].key == es[g].key)
       case Commit(x, p, g) =>
         && WithPhantom(recs, NULL, es, g) && FreshEntry(es, x, p, hi) && BelongsAt(es, x, g)
         && StaleFrom(recs, |es| + 1, hi) && recs[g].key == x
       case EmptyKey(x, p) => es == [] && Plain(recs, []) && StaleFrom(recs, 0, hi) && FreshEntry(es, x, p, hi)
       case EmptyPtr(x, p) =>
         && es == [] && Plain(recs, []) && StaleFrom(recs, 1, hi) && recs[0].key == x
         && FreshEntry(es, x, p, hi)
       case EmptyEnd => |es| == 1 && Plain(recs, es) && StaleFrom(recs, 1, hi)
  }

  ghost predicate WriterInv(s: State, hi: int) {
    WriterOk(s.recs, s.es, s.w, hi)
  }

  lemma StartKeepsWriterInv(s: State, x: int, p: int, order: LoadOrder, hi: int)
    requires WriterInv(s, hi) && CanStart(s, x, p, hi)
    ensures WriterInv(Step(s, Start(x, p), order, hi), hi)
  {
  }

  lemma PhantomFilled(recs: seq<Rec>, es: seq<Rec>, g: nat, r: Rec)
    requires WithPhantom(recs, NULL, es, g)
    ensures Plain(recs[g := r], InsertAt(es, r, g))
  {
    var es' := InsertAt(es, r, g);
    assert forall i :: 0 <= i < |es'| ==> es'[i] == if i < g then es[i] else if i == g then r else es[i - 1];
  }

  lemma CommitKeepsWriterInv(s: State, hi: int)
    requires WriterInv(s, hi) && s.w.Commit?
    ensures InRange(s) && WriterInv(WriteStep(s), hi)
  {
    var Commit(x, p, g) := s.w;
    var r := Rec(x, p);
    assert Rank(s.es, x) == g by { RankUnique(s.es, x, g); }
    InsertedWellFormed(s.es, NULL, r);
    PhantomFilled(s.recs, s.es, g, r);
    assert SetPtr(s.recs, g, p) == s.recs[g := r];
    var es' := InsertAt(s.es, r, g);
    forall i | 0 <= i < |es'| ensures es'[i].key < hi { InsertedAt(s.es, r, i); }
  }

  lemma GapBecomesPhantom(recs: seq<Rec>, es: seq<Rec>, g: nat)
    requires P.Gapped(recs, es, g)
    ensures WithPhantom(SetPtr(recs, g, LeftPtr(es, NULL, g)), NULL, es, g)
    ensures g > 0 ==> recs[g - 1] == es[g - 1]
    ensures forall k :: 0 <= k < |recs| ==> SetPtr(recs, g, LeftPtr(es, NULL, g))[k].key == recs[k].key
  {
  }

  lemma ShiftPtrKeepsWriterInv(s: State, hi: int)
    requires WriterInv(s, hi) && s.w.Examine? && s.w.at >= 0 && s.w.x < s.recs[s.w.at].key
    ensures InRange(s) && WriterInv(WriteStep(s), hi)
  {
    var Examine(x, p, i) := s.w;
    GapBecomesPhantom(s.recs, s.es, i + 1);
    assert WriteStep(s).recs == SetPtr(s.recs, i + 1, LeftPtr(s.es, NULL, i + 1));
    ShiftedPtrOk(s.recs, s.es, x, p, i, hi);
  }

  lemma ShiftedPtrOk(recs: seq<Rec>, es: seq<Rec>, x: int, p: int, i: nat, hi: int)
    requires WriterOk(recs, es, Examine(x, p, i), hi) && x < recs[i].key
    requires WithPhantom(SetPtr(recs, i + 1, LeftPtr(es, NULL, i + 1)), NULL, es, i + 1) && recs[i] == es[i]
    ensures WriterOk(SetPtr(recs, i + 1, LeftPtr(es, NULL, i + 1)), es, ShiftKey(x, p, i), hi)
  {
    PtrStoreKeepsKeys(recs, i + 1, LeftPtr(es, NULL, i + 1));
  }

  lemma PtrStoreKeepsKeys(recs: seq<Rec>, i: nat, p: int)
    requires i < |recs|
    ensures |SetPtr(recs, i, p)| == |recs| && forall k :: 0 <= k < |recs| ==> SetPtr(recs, i, p)[k].key == recs[k].key
  {
  }

  lemma PlacePtrKeepsWriterInv(s: State, hi: int)
    requires WriterInv(s, hi) && s.w.Examine? && (s.w.at < 0 || s.recs[s.w.at].key <= s.w.x)
    ensures InRange(s) && WriterInv(WriteStep(s), hi)
  {
    var i := s.w.at;
    GapBecomesPhantom(s.recs, s.es, i + 1);
    if i >= 0 { assert s.es[i].key < s.w.x; }
  }

  lemma CloseKeepsWriterInv(s: State, hi: int)
    requires WriterInv(s, hi) && s.w.Close?
    ensures InRange(s) && WriterInv(WriteStep(s), hi)
  {
    assert P.Gapped(WriteStep(s).recs, s.es, |s.es|);
  }

  lemma ShiftKeyKeepsWriterInv(s: State, hi: int)
    requires WriterInv(s, hi) && s.w.ShiftKey?
    ensures InRange(s) && WriterInv(WriteStep(s), hi)
  {
    assert P.Gapped(WriteStep(s).recs, s.es, s.w.i);
  }

  lemma PlaceKeyKeepsWriterInv(s: State, hi: int)
    requires WriterInv(s, hi) && s.w.PlaceKey?
    ensures InRange(s) && WriterInv(WriteStep(s), hi)
  {
    assert WithPhantom(WriteStep(s).recs, NULL, s.es, s.w.g);
  }

  lemma EmptyKeepsWriterInv(s: State, hi: int)
    requires WriterInv(s, hi) && (s.w.EmptyKey? || s.w.EmptyPtr? || s.w.EmptyEnd?)
    ensures InRange(s) && WriterInv(WriteStep(s), hi)
  {
  }

  lemma WriteKeepsWriterInv(s: State, hi: int)
    requires WriterInv(s, hi)
    ensures InRange(s) && WriterInv(WriteStep(s), hi)
  {
    match s.w
    case Idle =>
    case Close(_, _) => CloseKeepsWriterInv(s, hi);
    case Examine(x, _, at) =>
      if at >= 0 && x < s.recs[at].key { ShiftPtrKeepsWriterInv(s, hi); } else { PlacePtrKeepsWriterInv(s, hi); }
    case ShiftKey(_, _, _) => ShiftKeyKeepsWriterInv(s, hi);
    case PlaceKey(_, _, _) => PlaceKeyKeepsWriterInv(s, hi);
    case Commit(_, _, _) => CommitKeepsWriterInv(s, hi);
    case _ => EmptyKeepsWriterInv(s, hi);
  }

  // ---------------------------------------------------------------- where entries sit

  /** The phantom slot, or a slot behind all entries. */
  function PhantomSlot(s: State): int {
    match s.w
    case Examine(_, _, at) => at + 2
    case ShiftKey(_, _, i) => i + 1
    case PlaceKey(_, _, g) => g
    case Commit(_, _, g) => g
    case _ => |s.es|
  }

  /** The slot that shows entry k to a left-to-right reader. */
  function SlotOf(s: State, k: nat): int {
    if k < PhantomSlot(s) then k else k + 1
  }

  /** The number of slots before the closing null. */
  function Used(s: State): nat {
    match s.w
    case Examine(_, _, at) => if at + 1 < |s.es| then |s.es| + 1 else |s.es|
    case ShiftKey(_, _, _) => |s.es| + 1
    case PlaceKey(_, _, _) => |s.es| + 1
    case Commit(_, _, _) => |s.es| + 1
    case _ => |s.es|
  }

  /** The entries in order, skipping the phantom slot ph; the phantom repeats the pointer on its left. */
  ghost predicate Layout(recs: seq<Rec>, es: seq<Rec>, ph: int, used: nat) {
    && 0 <= ph && |es| <= used <= |es| + 1 && used < |recs| && 2 <= |recs|
    && (forall i :: 0 <= i < ph && i < |es| ==> recs[i] == es[i])
    && (forall i :: ph < i <= |es| ==> recs[i] == es[i - 1])
    && (ph < used ==> recs[ph].ptr == LeftPtr(es, NULL, ph))
    && (ph < |es| ==> used == |es| + 1) && (used == |es| + 1 ==> ph <= |es|)
    && recs[if used == 0 then 1 else used].ptr == NULL
  }

  lemma PhantomLayout(recs: seq<Rec>, es: seq<Rec>, g: nat)
    requires WithPhantom(recs, NULL, es, g)
    ensures Layout(recs, es, g, |es| + 1)
  {
  }

  lemma GapLayout(recs: seq<Rec>, es: seq<Rec>, g: nat)
    requires P.Gapped(recs, es, g)
    ensures Layout(recs, es, g + 1, if g < |es| then |es| + 1 else |es|)
  {
  }

  lemma PlainLayout(recs: seq<Rec>, es: seq<Rec>)
    requires Plain(recs, es) && 2 <= |recs|
    ensures Layout(recs, es, |es|, |es|)
  {
  }

  lemma WriterLayout(s: State, hi: int)
    requires WriterInv(s, hi)
    ensures Layout(s.recs, s.es, PhantomSlot(s), Used(s))
  {
    if s.w.Examine? {
      assert P.Gapped(s.recs, s.es, s.w.at + 1);
      GapLayout(s.recs, s.es, s.w.at + 1);
    } else if s.w.ShiftKey? || s.w.PlaceKey? || s.w.Commit? {
      UnsettledLayout(s, hi);
    } else {
      SettledLayout(s, hi);
    }
  }

  lemma UnsettledLayout(s: State, hi: int)
    requires WriterInv(s, hi) && (s.w.ShiftKey? || s.w.PlaceKey? || s.w.Commit?)
    ensures PhantomSlot(s) >= 0 && Layout(s.recs, s.es, PhantomSlot(s), |s.es| + 1)
  {
    assert WithPhantom(s.recs, NULL, s.es, PhantomSlot(s));
    PhantomLayout(s.recs, s.es, PhantomSlot(s));
  }

  lemma SettledLayout(s: State, hi: int)
    requires WriterInv(s, hi) && !s.w.Examine? && !s.w.ShiftKey? && !s.w.PlaceKey? && !s.w.Commit?
    ensures Layout(s.recs, s.es, |s.es|, |s.es|)
  {
    assert Plain(s.recs, s.es);
    PlainLayout(s.recs, s.es);
  }

  lemma LayoutPtrs(recs: seq<Rec>, es: seq<Rec>, ph: int, used: nat, k: nat)
    requires Layout(recs, es, ph, used) && DistinctPtrs(es, NULL) && k < |es|
    ensures var slot := if k < ph then k else k + 1;
            slot < used && recs[slot] == es[k] && forall i :: 0 <= i < slot ==> recs[i].ptr != es[k].ptr
  {
    var slot := if k < ph then k else k + 1;
    forall i | 0 <= i < slot ensures recs[i].ptr != es[k].ptr {
      if i < ph && i < |es| {
        assert recs[i] == es[i];
      } else if i > ph {
        assert recs[i] == es[i - 1];
      }
    }
  }

  lemma SlotHolds(s: State, hi: int, k: nat)
    requires WriterInv(s, hi) && k < |s.es|
    ensures 0 <= SlotOf(s, k) < Used(s) < |s.recs| && s.recs[SlotOf(s, k)] == s.es[k]
    ensures forall i :: 0 <= i < SlotOf(s, k) ==> s.recs[i].ptr != s.es[k].ptr
  {
    WriterLayout(s, hi);
    LayoutPtrs(s.recs, s.es, PhantomSlot(s), Used(s), k);
  }

  lemma LayoutLinked(recs: seq<Rec>, es: seq<Rec>, ph: int, used: nat)
    requires Layout(recs, es, ph, used) && DistinctPtrs(es, NULL)
    ensures forall i :: 1 <= i < used ==> recs[i].ptr != NULL
  {
    forall i | 1 <= i < used ensures recs[i].ptr != NULL {
      if i < ph && i < |es| {
        assert recs[i] == es[i];
      } else if i > ph {
        assert recs[i] == es[i - 1];
      } else {
        assert i == ph;
      }
    }
  }

  lemma UsedSlotsLinked(s: State, hi: int)
    requires WriterInv(s, hi)
    ensures Used(s) < |s.recs|
    ensures forall i :: 1 <= i < Used(s) ==> s.recs[i].ptr != NULL
    ensures s.recs[if Used(s) == 0 then 1 else Used(s)].ptr == NULL
  {
    WriterLayout(s, hi);
    LayoutLinked(s.recs, s.es, PhantomSlot(s), Used(s));
  }

  /** No store raises a key. */
  lemma KeysFall(s: State, hi: int)
    requires WriterInv(s, hi) && InRange(s)
    ensures |WriteStep(s).recs| == |s.recs|
    ensures forall i :: 0 <= i < |s.recs| ==> WriteStep(s).recs[i].key <= s.recs[i].key
  {
    match s.w
    case Close(x, p) => PtrStoreKeepsKeys(s.recs, |s.es| + 1, s.recs[|s.es|].ptr);
    case Examine(x, p, i) =>
    case ShiftKey(x, p, i) =>
    case PlaceKey(x, p, g) =>
    case Commit(x, p, g) => PtrStoreKeepsKeys(s.recs, g, p);
    case _ =>
  }

  lemma InsertAtIndex(es: seq<Rec>, r: Rec, g: nat, k: nat)
    requires g <= |es| && k < |es|
    ensures |InsertAt(es, r, g)| == |es| + 1
    ensures InsertAt(es, r, g)[if g <= k then k + 1 else k] == es[k]
  {
  }

  /** Where entry k of the live entries is after the next store. */
  function NextIndex(s: State, k: nat): nat {
    if s.w.Commit? && s.w.g <= k then k + 1 else k
  }

  /** No store moves an entry left, or takes one away. */
  lemma SlotsGrow(s: State, hi: int, k: nat)
    requires WriterInv(s, hi) && InRange(s) && k < |s.es|
    ensures var k' := NextIndex(s, k);
            && k' < |WriteStep(s).es| && WriteStep(s).es[k'] == s.es[k]
            && SlotOf(s, k) <= SlotOf(WriteStep(s), k')
  {
    if s.w.Commit? {
      InsertAtIndex(s.es, Rec(s.w.x, s.w.p), s.w.g, k);
    } else if s.w.Examine? {
      assert WriteStep(s).es == s.es && PhantomSlot(WriteStep(s)) == s.w.at + 1;
    } else {
      assert WriteStep(s).es == s.es || s.es == [];
    }
  }

  lemma UsedGrows(s: State, hi: int)
    requires WriterInv(s, hi) && InRange(s)
    ensures Used(s) <= Used(WriteStep(s))
  {
    if s.w.Commit? { assert |InsertAt(s.es, Rec(s.w.x, s.w.p), s.w.g)| == |s.es| + 1; }
  }

  // ---------------------------------------------------------------- the reader misses nothing

  /** The reader has only passed slots that were in use, and holds no null pointer. */
  ghost predicate InUse(s: State) {
    match s.r
    case Test(i) => 1 <= i && (i == 1 || i <= Used(s))
    case LoadKey(i) => 1 <= i < Used(s)
    case LoadRight(i) => 1 <= i < Used(s)
    case ThenLeft(i, t) => 1 <= i < Used(s) && t != NULL
    case LoadLeft(i) => 1 <= i < Used(s)
    case ThenRight(i, _, _) => 1 <= i < Used(s)
    case Again(i, t) => 1 <= i < Used(s) && t != NULL
    case FirstAgain(t) => t != NULL
    case _ => true
  }

  /** Entry k, in slot `slot`, is still ahead of the reader, which has not been misled about it. */
  ghost predicate Ahead(s: State, k: nat)
    requires k < |s.es|
  {
    var slot, p := SlotOf(s, k), s.es[k].ptr;
    match s.r
    case Test(i) => i <= slot
    case LoadKey(i) => i <= slot
    case LoadRight(i) => i <= slot
    case ThenLeft(i, t) => i < slot || (i == slot && t == p)
    case LoadLeft(i) => i <= slot
    case ThenRight(i, left, _) => i < slot || (i == slot && left != p)
    case Again(i, _) => i <= slot
    case Done(t) => t != NULL
    case _ => true
  }

  lemma WriteKeepsAhead(s: State, hi: int, k: nat)
    requires WriterInv(s, hi) && InRange(s) && k < |s.es| && Ahead(s, k)
    ensures NextIndex(s, k) < |WriteStep(s).es| && Ahead(WriteStep(s), NextIndex(s, k))
  {
    SlotsGrow(s, hi, k);
  }

  lemma ReadKeepsAhead(s: State, order: LoadOrder, hi: int, k: nat)
    requires WriterInv(s, hi) && InUse(s) && k < |s.es| && s.es[k].key == s.key && Ahead(s, k)
    ensures ReadInRange(s) && Ahead(s.(r := ReadStep(s, order)), k)
  {
    UsedSlotsLinked(s, hi);
    SlotHolds(s, hi, k);
    var slot := SlotOf(s, k);
    assert s.(r := ReadStep(s, order)).es == s.es;
    assert SlotOf(s.(r := ReadStep(s, order)), k) == slot;
  }

  lemma ReadKeepsInUse(s: State, order: LoadOrder, hi: int)
    requires WriterInv(s, hi) && InUse(s)
    ensures ReadInRange(s) && InUse(s.(r := ReadStep(s, order)))
  {
    UsedSlotsLinked(s, hi);
  }

  // ---------------------------------------------------------------- the reader returns the key's own pointer

  /** The slot that the current insertion rewrites next, or -1 when it is past all slots. */
  function FreeSlot(s: State): int {
    match s.w
    case Close(_, _) => |s.es|
    case Examine(_, _, at) => at + 1
    case ShiftKey(_, _, i) => i + 1
    case PlaceKey(_, _, g) => g
    case Commit(_, _, g) => g
    case _ => -1
  }

  /** The slots below i are settled, and t is the pointer just left of slot i, under a smaller key. */
  ghost predicate SettledBelow(s: State, i: nat, t: int) {
    && 1 <= i <= |s.es| && i <= |s.recs|
    && (forall k :: 0 <= k < i ==> s.recs[k] == s.es[k])
    && t == s.es[i - 1].ptr && s.es[i - 1].key < s.key
  }

  /**
    What the reader may conclude so far. While slot i still has the key it saw there, the pointer it
    holds is the key's own, or it equals the left neighbour's and the comparison will reject it.
   */
  ghost predicate Honest(s: State)
    requires InUse(s) && Used(s) < |s.recs|
  {
    match s.r
    case FirstPtr => 0 < |s.recs| && s.recs[0].key <= s.key
    case FirstAgain(t) => 0 < |s.recs| && s.recs[0].key <= s.key && (s.recs[0].key == s.key ==> Rec(s.key, t) in s.es)
    case LoadRight(i) => s.recs[i].key <= s.key
    case ThenLeft(i, t) =>
      && s.recs[i].key <= s.key
      && (s.recs[i].key == s.key ==> Rec(s.key, t) in s.es || SettledBelow(s, i, t))
    case LoadLeft(i) => s.recs[i].key <= s.key
    case ThenRight(i, left, begun) =>
      && s.recs[i].key <= s.key
      && (s.recs[i].key == s.key && !begun ==> FreeSlot(s) < i || left == s.recs[i - 1].ptr)
    case Again(i, t) => s.recs[i].key <= s.key && (s.recs[i].key == s.key ==> Rec(s.key, t) in s.es)
    case Done(t) => t == NULL || Rec(s.key, t) in s.es
    case _ => true
  }

  lemma EntriesKept(s: State, hi: int, r: Rec)
    requires WriterInv(s, hi) && InRange(s) && r in s.es
    ensures r in WriteStep(s).es
  {
    var k :| 0 <= k < |s.es| && s.es[k] == r;
    SlotsGrow(s, hi, k);
  }

  lemma WriteKeepsSettledBelow(s: State, hi: int, i: nat, t: int)
    requires WriterInv(s, hi) && InRange(s) && i < Used(s) && SettledBelow(s, i, t) && i < |s.recs|
    requires WriteStep(s).recs[i].key == s.recs[i].key == s.key
    ensures SettledBelow(WriteStep(s), i, t)
  {
    if s.w.Commit? {
      var es' := InsertAt(s.es, Rec(s.w.x, s.w.p), s.w.g);
      assert forall k :: 0 <= k < i ==> es'[k] == s.es[k];
    }
  }

  /** A used slot holds an entry, or it is the phantom and everything left of it is settled. */
  ghost predicate EntryOrPhantom(s: State, i: nat)
    requires 1 <= i < |s.recs|
  {
    s.recs[i] in s.es ||
    (i == FreeSlot(s) <= |s.es| && s.recs[i].ptr == s.es[i - 1].ptr && s.es[i - 1].key < s.recs[i].key
     && forall k :: 0 <= k < i ==> s.recs[k] == s.es[k])
  }

  lemma SlotIsEntryOrPhantom(s: State, hi: int, i: nat)
    requires WriterInv(s, hi) && 1 <= i < Used(s) && Used(s) < |s.recs|
    ensures EntryOrPhantom(s, i)
  {
    var f := FreeSlot(s);
    if f == -1 || i < f {
      assert s.recs[i] == s.es[i];
    } else if i > f {
      assert s.recs[i] == s.es[i - 1];
    } else if s.w.Examine? {
      assert s.recs[i] == s.es[i];
    }
  }

  /** The free slot only moves left, and no slot left of it is written. */
  lemma WriteStaysRightOfFreeSlot(s: State, hi: int, i: nat)
    requires WriterInv(s, hi) && InRange(s) && i < |s.recs|
    ensures FreeSlot(WriteStep(s)) <= FreeSlot(s)
    ensures 1 <= i <= FreeSlot(s) ==> |WriteStep(s).recs| == |s.recs| && WriteStep(s).recs[i - 1] == s.recs[i - 1]
  {
  }

  /** Honesty survives any store that raises no key, keeps the entries and what the reader relies on. */
  lemma HonestCarries(s: State, s': State)
    requires InUse(s) && InUse(s') && Used(s) < |s.recs| == |s'.recs| && Used(s') < |s'.recs| && Honest(s)
    requires s'.r == s.r && s'.key == s.key
    requires forall i :: 0 <= i < |s.recs| ==> s'.recs[i].key <= s.recs[i].key
    requires forall r :: r in s.es ==> r in s'.es
    requires s.r.ThenLeft? && SettledBelow(s, s.r.i, s.r.t) && s'.recs[s.r.i].key == s.recs[s.r.i].key == s.key ==>
               SettledBelow(s', s.r.i, s.r.t)
    requires s.r.ThenRight? ==> FreeSlot(s') <= FreeSlot(s)
    requires s.r.ThenRight? && s.r.i <= FreeSlot(s) ==> s'.recs[s.r.i - 1] == s.recs[s.r.i - 1]
    ensures Honest(s')
  {
  }

  lemma WriteKeepsHonest(s: State, hi: int)
    requires WriterInv(s, hi) && InUse(s) && Used(s) < |s.recs| && Honest(s) && InRange(s)
    requires InUse(WriteStep(s)) && Used(WriteStep(s)) < |WriteStep(s).recs|
    ensures Honest(WriteStep(s))
  {
    KeysFall(s, hi);
    var s' := WriteStep(s);
    forall r | r in s.es ensures r in s'.es { EntriesKept(s, hi, r); }
    if s.r.ThenLeft? && SettledBelow(s, s.r.i, s.r.t) && s'.recs[s.r.i].key == s.recs[s.r.i].key == s.key {
      WriteKeepsSettledBelow(s, hi, s.r.i, s.r.t);
    }
    if s.r.ThenRight? { WriteStaysRightOfFreeSlot(s, hi, s.r.i); }
    HonestCarries(s, s');
  }

  /** The read step that ends a pair of pointer loads must not follow a start in between. */
  ghost predicate Disturbed(r: Reader) {
    r.ThenRight? && r.begun
  }

  lemma LoadKeepsHonest(s: State, order: LoadOrder)
    requires InUse(s) && Used(s) < |s.recs| && Honest(s) && ReadInRange(s) && !Disturbed(s.r)
    requires InUse(s.(r := ReadStep(s, order)))
    requires s.recs[0].ptr != NULL ==> s.es != [] && s.recs[0] == s.es[0]
    requires s.r.LoadRight? || s.r.ThenRight? ==> EntryOrPhantom(s, s.r.i)
    ensures Honest(s.(r := ReadStep(s, order)))
  {
  }

  lemma ReadKeepsHonest(s: State, order: LoadOrder, hi: int)
    requires WriterInv(s, hi) && InUse(s) && Used(s) < |s.recs| && Honest(s) && ReadInRange(s) && !Disturbed(s.r)
    requires InUse(s.(r := ReadStep(s, order)))
    ensures Honest(s.(r := ReadStep(s, order)))
  {
    WriterLayout(s, hi);
    if s.r.LoadRight? || s.r.ThenRight? { SlotIsEntryOrPhantom(s, hi, s.r.i); }
    LoadKeepsHonest(s, order);
  }

  // ---------------------------------------------------------------- whole runs

  /** What every step keeps. */
  ghost predicate Inv(s: State, hi: int) {
    WriterInv(s, hi) && InUse(s) && Used(s) < |s.recs|
  }

  lemma WriteKeepsInv(s: State, hi: int)
    requires Inv(s, hi)
    ensures InRange(s) && Inv(WriteStep(s), hi)
  {
    WriteKeepsWriterInv(s, hi);
    UsedGrows(s, hi);
    WriterLayout(WriteStep(s), hi);
    assert WriteStep(s).r == s.r;
  }

  lemma StartKeepsInv(s: State, x: int, p: int, order: LoadOrder, hi: int)
    requires Inv(s, hi) && CanStart(s, x, p, hi)
    ensures Inv(Step(s, Start(x, p), order, hi), hi)
  {
    StartKeepsWriterInv(s, x, p, order, hi);
    assert Used(Step(s, Start(x, p), order, hi)) == Used(s);
  }

  lemma ReadKeepsInv(s: State, order: LoadOrder, hi: int)
    requires Inv(s, hi)
    ensures ReadInRange(s) && Inv(s.(r := ReadStep(s, order)), hi)
  {
    ReadKeepsInUse(s, order, hi);
  }

  lemma InvStep(s: State, a: Action, order: LoadOrder, hi: int)
    requires Inv(s, hi) && Enabled(s, a, hi)
    ensures Inv(Step(s, a, order, hi), hi)
  {
    match a
    case Start(x, p) => StartKeepsInv(s, x, p, order, hi);
    case Write => WriteKeepsInv(s, hi);
    case Read => ReadKeepsInv(s, order, hi);
  }

  // ---------------------------------------------------------------- every scan and every insertion ends

  /** In every reachable state the reader can read and the writer can write. */
  lemma NobodyIsStuck(s: State, hi: int)
    requires Inv(s, hi)
    ensures Enabled(s, Read, hi) && Enabled(s, Write, hi)
  {
    ReadKeepsInUse(s, RightFirst, hi);
    WriteKeepsWriterInv(s, hi);
  }

  /** An upper bound on the loads that a scan still has to do: five for every slot. */
  function LoadsLeft(r: Reader, slots: nat): int {
    match r
    case FirstKey => 5 * slots
    case FirstPtr => 5 * slots - 1
    case FirstAgain(_) => 5 * slots - 2
    case Test(i) => 5 * (slots - i)
    case LoadKey(i) => 5 * (slots - i) - 1
    case LoadRight(i) => 5 * (slots - i) - 2
    case LoadLeft(i) => 5 * (slots - i) - 2
    case ThenLeft(i, _) => 5 * (slots - i) - 3
    case ThenRight(i, _, _) => 5 * (slots - i) - 3
    case Again(i, _) => 5 * (slots - i) - 4
    case Done(_) => 0
  }

  /** Every load brings the scan closer to its end, and no store takes it back. */
  lemma StepComesCloser(s: State, a: Action, order: LoadOrder, hi: int)
    requires Inv(s, hi) && Enabled(s, a, hi)
    ensures var s', n := Step(s, a, order, hi), |s.recs|;
            && |s'.recs| == n && LoadsLeft(s.r, n) >= 0 && LoadsLeft(s'.r, n) >= 0
            && (s.r.Done? <==> LoadsLeft(s.r, n) == 0)
            && (a.Read? && !s.r.Done? ==> LoadsLeft(s'.r, n) < LoadsLeft(s.r, n))
            && (!a.Read? || s.r.Done? ==> LoadsLeft(s'.r, n) == LoadsLeft(s.r, n))
  {
    ReadKeepsInUse(s, order, hi);
    if a.Write? { KeysFall(s, hi); }
  }

  function Loads(acts: seq<Action>): nat {
    if acts == [] then 0 else (if acts[0].Read? then 1 else 0) + Loads(acts[1..])
  }

  /** So after that many loads the scan is done, whatever is stored between them. */
  lemma {:induction false} ScanEnds(s: State, acts: seq<Action>, order: LoadOrder, hi: int)
    requires Inv(s, hi) && Legal(s, acts, order, hi)
    ensures Loads(acts) >= LoadsLeft(s.r, |s.recs|) ==> Run(s, acts, order, hi).r.Done?
    decreases |acts|
  {
    if acts == [] {
      NotDoneIsPositive(s, hi);
    } else {
      StepComesCloser(s, acts[0], order, hi);
      InvStep(s, acts[0], order, hi);
      ScanEnds(Step(s, acts[0], order, hi), acts[1..], order, hi);
    }
  }

  lemma NotDoneIsPositive(s: State, hi: int)
    requires Inv(s, hi)
    ensures s.r.Done? <==> LoadsLeft(s.r, |s.recs|) <= 0
  {
    ReadKeepsInUse(s, RightFirst, hi);
  }

  /** An upper bound on the stores that the current insertion still has to do. */
  function StoresLeft(w: Writer, entries: nat): int {
    match w
    case Idle => 0
    case Close(_, _) => 2 * entries + 4
    case Examine(_, _, i) => 2 * i + 5
    case ShiftKey(_, _, i) => 2 * i + 4
    case PlaceKey(_, _, _) => 2
    case Commit(_, _, _) => 1
    case EmptyKey(_, _) => 3
    case EmptyPtr(_, _) => 2
    case EmptyEnd => 1
  }

  /** The entry that the current insertion is about to add, if it has not yet. */
  function Coming(w: Writer): seq<Rec> {
    match w
    case Idle => []
    case EmptyEnd => []
    case Close(x, p) => [Rec(x, p)]
    case Examine(x, p, _) => [Rec(x, p)]
    case ShiftKey(x, p, _) => [Rec(x, p)]
    case PlaceKey(x, p, _) => [Rec(x, p)]
    case Commit(x, p, _) => [Rec(x, p)]
    case EmptyKey(x, p) => [Rec(x, p)]
    case EmptyPtr(x, p) => [Rec(x, p)]
  }

  /** The entries once the current insertion is complete. */
  function Goal(s: State): seq<Rec> {
    if Coming(s.w) == [] then s.es else Inserted(s.es, Coming(s.w)[0])
  }

  /** Every store brings the insertion closer to its end. */
  lemma StoreComesCloser(s: State, hi: int)
    requires WriterInv(s, hi) && !s.w.Idle?
    ensures InRange(s)
    ensures 0 <= StoresLeft(WriteStep(s).w, |WriteStep(s).es|) < StoresLeft(s.w, |s.es|)
  {
    WriteKeepsWriterInv(s, hi);
  }

  /** It keeps what the insertion leads to. */
  lemma StoreKeepsGoal(s: State, hi: int)
    requires WriterInv(s, hi)
    ensures InRange(s) && Goal(WriteStep(s)) == Goal(s)
  {
    WriteKeepsWriterInv(s, hi);
    if s.w.Commit? {
      RankUnique(s.es, s.w.x, s.w.g);
    } else if s.w.EmptyPtr? {
      assert Rank([], s.w.x) == 0 && Inserted([], Rec(s.w.x, s.w.p)) == [Rec(s.w.x, s.w.p)];
    }
  }

  function Stores(acts: seq<Action>): nat {
    if acts == [] then 0 else (if acts[0].Write? then 1 else 0) + Stores(acts[1..])
  }

  ghost predicate NoneStarts(acts: seq<Action>) {
    forall a :: a in acts ==> !a.Start?
  }

  /**
    So an insertion is complete after that many stores, whatever is read between them: the leaf then
    holds its old entries and the new one.
   */
  lemma {:induction false} InsertionEnds(s: State, acts: seq<Action>, order: LoadOrder, hi: int)
    requires Inv(s, hi) && Legal(s, acts, order, hi) && NoneStarts(acts)
    ensures Goal(Run(s, acts, order, hi)) == Goal(s)
    ensures Stores(acts) >= StoresLeft(s.w, |s.es|) ==>
            Run(s, acts, order, hi).w.Idle? && Run(s, acts, order, hi).es == Goal(s)
    decreases |acts|
  {
    if acts == [] {
      if !s.w.Idle? { StoreComesCloser(s, hi); }
    } else {
      var s' := Step(s, acts[0], order, hi);
      assert acts[0] in acts && NoneStarts(acts[1..]);
      InvStep(s, acts[0], order, hi);
      if acts[0].Write? {
        StoreKeepsGoal(s, hi);
        if s.w.Idle? { assert s' == s; } else { StoreComesCloser(s, hi); }
      }
      InsertionEnds(s', acts[1..], order, hi);
    }
  }

  /** An insertion begins with all its stores to come: at most two for every entry, and four. */
  lemma StartBegins(s: State, x: int, p: int, order: LoadOrder, hi: int)
    requires Inv(s, hi) && CanStart(s, x, p, hi)
    ensures var s' := Step(s, Start(x, p), order, hi);
            Goal(s') == Inserted(s.es, Rec(x, p)) && StoresLeft(s'.w, |s'.es|) <= 2 * |s.es| + 4
  {
  }

  /**
    A key that is in the leaf when the scan starts is never reported missing, in either load order
    and under every interleaving with the stores of any number of insertions.
   */
  lemma {:induction false} PresentKeyIsFound(s: State, acts: seq<Action>, order: LoadOrder, hi: int, k: nat)
    requires Inv(s, hi) && k < |s.es| && s.es[k].key == s.key && Ahead(s, k) && Legal(s, acts, order, hi)
    ensures Run(s, acts, order, hi).r != Done(NULL)
    ensures Loads(acts) >= LoadsLeft(s.r, |s.recs|) ==>
            Run(s, acts, order, hi).r.Done? && Run(s, acts, order, hi).r.t != NULL
    decreases |acts|
  {
    ScanEnds(s, acts, order, hi);
    if acts != [] {
      StepComesCloser(s, acts[0], order, hi);
      var k' := StepKeepsAhead(s, acts[0], order, hi, k);
      PresentKeyIsFound(Step(s, acts[0], order, hi), acts[1..], order, hi, k');
    }
  }

  /** Wherever a step moves the key's entry, it stays ahead of the reader. */
  lemma StepKeepsAhead(s: State, a: Action, order: LoadOrder, hi: int, k: nat) returns (k': nat)
    requires Inv(s, hi) && k < |s.es| && s.es[k].key == s.key && Ahead(s, k) && Enabled(s, a, hi)
    ensures var s' := Step(s, a, order, hi);
            Inv(s', hi) && s'.key == s.key && k' < |s'.es| && s'.es[k'].key == s'.key && Ahead(s', k')
  {
    InvStep(s, a, order, hi);
    k' := k;
    match a
    case Start(x, p) => StartKeepsAhead(s, x, p, order, hi, k);
    case Write => WriteKeepsAhead(s, hi, k); SlotsGrow(s, hi, k); k' := NextIndex(s, k);
    case Read => ReadKeepsAhead(s, order, hi, k);
  }

  lemma StartKeepsAhead(s: State, x: int, p: int, order: LoadOrder, hi: int, k: nat)
    requires CanStart(s, x, p, hi) && k < |s.es| && Ahead(s, k)
    ensures Ahead(Step(s, Start(x, p), order, hi), k)
  {
    assert SlotOf(Step(s, Start(x, p), order, hi), k) == SlotOf(s, k);
  }

  /** No read in the run completes a pair of pointer loads that a new insertion has come between. */
  ghost predicate Undisturbed(s: State, acts: seq<Action>, order: LoadOrder, hi: int)
    requires Legal(s, acts, order, hi)
    decreases |acts|
  {
    acts == [] || (!(acts[0].Read? && Disturbed(s.r)) && Undisturbed(Step(s, acts[0], order, hi), acts[1..], order, hi))
  }

  lemma StepKeepsHonest(s: State, a: Action, order: LoadOrder, hi: int)
    requires Inv(s, hi) && Enabled(s, a, hi) && Honest(s) && !(a.Read? && Disturbed(s.r))
    ensures Inv(Step(s, a, order, hi), hi) && Honest(Step(s, a, order, hi))
  {
    InvStep(s, a, order, hi);
    match a
    case Start(x, p) =>
    case Write => WriteKeepsHonest(s, hi);
    case Read => ReadKeepsHonest(s, order, hi);
  }

  /** A scan that is undisturbed returns null or the pointer stored with its own key. */
  lemma {:induction false} UndisturbedScanIsHonest(s: State, acts: seq<Action>, order: LoadOrder, hi: int)
    requires Inv(s, hi) && Honest(s) && Legal(s, acts, order, hi) && Undisturbed(s, acts, order, hi)
    ensures var e := Run(s, acts, order, hi);
            e.r.Done? && e.r.t != NULL ==> Rec(s.key, e.r.t) in e.es
    decreases |acts|
  {
    if acts != [] {
      StepKeepsHonest(s, acts[0], order, hi);
      UndisturbedScanIsHonest(Step(s, acts[0], order, hi), acts[1..], order, hi);
    }
  }

  lemma {:induction false} RightFirstIsUndisturbed(s: State, acts: seq<Action>, hi: int)
    requires Legal(s, acts, RightFirst, hi) && !s.r.ThenRight? && !s.r.LoadLeft?
    ensures Undisturbed(s, acts, RightFirst, hi)
    decreases |acts|
  {
    if acts != [] { RightFirstIsUndisturbed(Step(s, acts[0], RightFirst, hi), acts[1..], hi); }
  }

  /**
    Loading the right pointer first, the scan is correct under every interleaving with any number
    of insertions: it never misses a key that is there from the start, and what it returns is the
    key's own pointer. It is done after five loads for every slot, with null if the key never came.
   */
  lemma RightFirstScanIsCorrect(s: State, acts: seq<Action>, hi: int)
    requires WriterInv(s, hi) && s.r == FirstKey && Legal(s, acts, RightFirst, hi)
    ensures var e := Run(s, acts, RightFirst, hi);
            && (Loads(acts) >= 5 * |s.recs| ==> e.r.Done?)
            && (HasKey(s.es, s.key) ==> e.r != Done(NULL))
            && (e.r.Done? && e.r.t != NULL ==> Rec(s.key, e.r.t) in e.es)
            && (e.r.Done? && !HasKey(e.es, s.key) ==> e.r == Done(NULL))
  {
    WriterLayout(s, hi);
    ScanEnds(s, acts, RightFirst, hi);
    RightFirstIsUndisturbed(s, acts, hi);
    UndisturbedScanIsHonest(s, acts, RightFirst, hi);
    if HasKey(s.es, s.key) {
      var k :| 0 <= k < |s.es| && s.es[k].key == s.key;
      PresentKeyIsFound(s, acts, RightFirst, hi, k);
    }
  }

  // ---------------------------------------------------------------- what the left-first scan returns, exactly

  /** The phantom: the slot that repeats the pointer on its left, while there is one. */
  function Repeating(s: State): int {
    match s.w
    case ShiftKey(_, _, i) => i + 1
    case PlaceKey(_, _, g) => g
    case Commit(_, _, g) => g
    case _ => -1
  }

  /** Whether the latest pair of pointer loads took its right pointer from the phantom. */
  function HitNext(s: State, a: Action, hit: bool): bool {
    if a.Read? && s.r.ThenRight? then s.r.i == Repeating(s) else hit
  }

  /** The same at the end of a run. */
  ghost function HitPhantom(s: State, acts: seq<Action>, order: LoadOrder, hi: int, hit: bool): bool
    requires Legal(s, acts, order, hi)
    decreases |acts|
  {
    if acts == [] then hit
    else HitPhantom(Step(s, acts[0], order, hi), acts[1..], order, hi, HitNext(s, acts[0], hit))
  }

  /** t is the pointer of another key's entry. */
  ghost predicate Foreign(es: seq<Rec>, key: int, t: int) {
    exists r :: r in es && r.key != key && r.ptr == t
  }

  ghost predicate Returned(s: State, t: int, hit: bool) {
    if hit then Foreign(s.es, s.key, t) else Rec(s.key, t) in s.es
  }

  /** Along a left-first scan: what the held pointer is, as long as the slot keeps the key. */
  ghost predicate Traced(s: State, hit: bool)
    requires InUse(s) && Used(s) < |s.recs|
  {
    match s.r
    case FirstKey => !hit
    case FirstPtr => !hit && s.recs[0].key <= s.key
    case FirstAgain(t) => !hit && s.recs[0].key <= s.key && (s.recs[0].key == s.key ==> Returned(s, t, hit))
    case LoadRight(_) => false
    case ThenLeft(_, _) => false
    case LoadLeft(i) => s.recs[i].key <= s.key
    case ThenRight(i, _, _) => s.recs[i].key <= s.key
    case Again(i, t) => s.recs[i].key <= s.key && (s.recs[i].key == s.key ==> Returned(s, t, hit))
    case Done(t) => t == NULL || Returned(s, t, hit)
    case _ => true
  }

  /** A used slot holds an entry; the phantom has its left neighbour's pointer, under a higher key. */
  lemma SlotOrPhantom(s: State, hi: int, i: nat)
    requires WriterInv(s, hi) && 1 <= i < Used(s) && Used(s) < |s.recs|
    ensures i != Repeating(s) ==> s.recs[i] in s.es
    ensures i == Repeating(s) ==> i <= |s.es| && s.recs[i].ptr == s.es[i - 1].ptr && s.es[i - 1].key < s.recs[i].key
  {
    SlotIsEntryOrPhantom(s, hi, i);
  }

  lemma WriteKeepsTraced(s: State, hi: int, hit: bool)
    requires Inv(s, hi) && Traced(s, hit)
    ensures InRange(s) && Inv(WriteStep(s), hi) && Traced(WriteStep(s), hit)
  {
    WriteKeepsInv(s, hi);
    KeysFall(s, hi);
    var s' := WriteStep(s);
    forall r | r in s.es ensures r in s'.es { EntriesKept(s, hi, r); }
    TracedCarries(s, s', hit);
  }

  lemma TracedCarries(s: State, s': State, hit: bool)
    requires InUse(s) && InUse(s') && Used(s) < |s.recs| == |s'.recs| && Used(s') < |s'.recs| && Traced(s, hit)
    requires s'.r == s.r && s'.key == s.key
    requires forall i :: 0 <= i < |s.recs| ==> s'.recs[i].key <= s.recs[i].key
    requires forall r :: r in s.es ==> r in s'.es
    ensures Traced(s', hit)
  {
    assert forall t :: Returned(s, t, hit) ==> Returned(s', t, hit);
  }

  lemma ReadKeepsTraced(s: State, hi: int, hit: bool)
    requires Inv(s, hi) && Traced(s, hit)
    ensures ReadInRange(s)
    ensures var s' := s.(r := ReadStep(s, LeftFirst)); Inv(s', hi) && Traced(s', HitNext(s, Read, hit))
  {
    ReadKeepsInv(s, LeftFirst, hi);
    WriterLayout(s, hi);
    if s.r.ThenRight? { SlotOrPhantom(s, hi, s.r.i); }
    LoadKeepsTraced(s, hit);
  }

  /** The load itself, given what the loaded slot holds. */
  lemma LoadKeepsTraced(s: State, hit: bool)
    requires InUse(s) && Used(s) < |s.recs| && Traced(s, hit) && ReadInRange(s)
    requires InUse(s.(r := ReadStep(s, LeftFirst)))
    requires s.recs[0].ptr != NULL ==> s.es != [] && s.recs[0] == s.es[0]
    requires s.r.ThenRight? && s.r.i != Repeating(s) ==> s.recs[s.r.i] in s.es
    requires s.r.ThenRight? && s.r.i == Repeating(s) ==>
               s.r.i <= |s.es| && s.recs[s.r.i].ptr == s.es[s.r.i - 1].ptr && s.es[s.r.i - 1].key < s.recs[s.r.i].key
    ensures Traced(s.(r := ReadStep(s, LeftFirst)), HitNext(s, Read, hit))
  {
    if s.r.ThenRight? && s.r.i == Repeating(s) { assert s.es[s.r.i - 1] in s.es; }
  }

  lemma StartKeepsTraced(s: State, x: int, p: int, hi: int, hit: bool)
    requires Inv(s, hi) && Traced(s, hit) && CanStart(s, x, p, hi)
    ensures var s' := Step(s, Start(x, p), LeftFirst, hi); Inv(s', hi) && Traced(s', hit)
  {
    StartKeepsInv(s, x, p, LeftFirst, hi);
  }

  lemma StepKeepsTraced(s: State, a: Action, hi: int, hit: bool)
    requires Inv(s, hi) && Traced(s, hit) && Enabled(s, a, hi)
    ensures var s' := Step(s, a, LeftFirst, hi); Inv(s', hi) && Traced(s', HitNext(s, a, hit)) && s'.key == s.key
  {
    match a
    case Start(x, p) => StartKeepsTraced(s, x, p, hi, hit);
    case Write => WriteKeepsTraced(s, hi, hit);
    case Read => ReadKeepsTraced(s, hi, hit);
  }

  /** Every left-first scan, in every interleaving, ends with what its last pair of loads says. */
  lemma {:induction false} LeftFirstScanIsTraced(s: State, acts: seq<Action>, hi: int, hit: bool)
    requires Inv(s, hi) && Traced(s, hit) && Legal(s, acts, LeftFirst, hi)
    ensures var e := Run(s, acts, LeftFirst, hi);
            && WriterInv(e, hi) && e.key == s.key
            && (e.r.Done? && e.r.t != NULL ==> Returned(e, e.r.t, HitPhantom(s, acts, LeftFirst, hi, hit)))
    decreases |acts|
  {
    if acts != [] {
      StepKeepsTraced(s, acts[0], hi, hit);
      LeftFirstScanIsTraced(Step(s, acts[0], LeftFirst, hi), acts[1..], hi, HitNext(s, acts[0], hit));
    }
  }

  /** An entry's pointer belongs to one key. */
  lemma ForeignIsNotOwn(es: seq<Rec>, key: int, t: int)
    requires WellFormed(es, NULL) && Foreign(es, key, t)
    ensures Rec(key, t) !in es
  {
    var r :| r in es && r.key != key && r.ptr == t;
    var i :| 0 <= i < |es| && es[i] == r;
    forall j | 0 <= j < |es| ensures es[j] != Rec(key, t) {
      if j != i { assert es[j].ptr != es[i].ptr; }
    }
  }

  /**
    Loading the left pointer first, a present key is not missed either. What the scan returns is the
    key's own pointer if and only if the right pointer of its last pair was not loaded from the
    phantom; otherwise it is another key's. That never happens when no insertion starts between the
    two loads of a pair.
   */
  lemma LeftFirstScanIsCorrect(s: State, acts: seq<Action>, hi: int)
    requires WriterInv(s, hi) && s.r == FirstKey && Legal(s, acts, LeftFirst, hi)
    ensures var e, hit := Run(s, acts, LeftFirst, hi), HitPhantom(s, acts, LeftFirst, hi, false);
            && (Loads(acts) >= 5 * |s.recs| ==> e.r.Done?)
            && (HasKey(s.es, s.key) ==> e.r != Done(NULL))
            && (e.r.Done? && e.r.t != NULL ==>
                  (Rec(s.key, e.r.t) in e.es <==> !hit) && (hit ==> Foreign(e.es, s.key, e.r.t)))
            && (e.r.Done? && e.r.t != NULL && Undisturbed(s, acts, LeftFirst, hi) ==> !hit)
  {
    WriterLayout(s, hi);
    ScanEnds(s, acts, LeftFirst, hi);
    var e, hit := Run(s, acts, LeftFirst, hi), HitPhantom(s, acts, LeftFirst, hi, false);
    LeftFirstScanIsTraced(s, acts, hi, false);
    if e.r.Done? && e.r.t != NULL && hit { ForeignIsNotOwn(e.es, s.key, e.r.t); }
    if Undisturbed(s, acts, LeftFirst, hi) { UndisturbedScanIsHonest(s, acts, LeftFirst, hi); }
    if HasKey(s.es, s.key) {
      var k :| 0 <= k < |s.es| && s.es[k].key == s.key;
      PresentKeyIsFound(s, acts, LeftFirst, hi, k);
    }
  }

  // ---------------------------------------------------------------- the condition is needed

  lemma Prepend(s: State, a: Action, acts: seq<Action>, order: LoadOrder, hi: int)
    requires Enabled(s, a, hi) && Legal(Step(s, a, order, hi), acts, order, hi)
    ensures Legal(s, [a] + acts, order, hi)
    ensures Run(s, [a] + acts, order, hi) == Run(Step(s, a, order, hi), acts, order, hi)
  {
    assert ([a] + acts)[1..] == acts;
  }

  /** A leaf with 10 and 30 in which 20 is being placed: slot 1 is the phantom, 30 has moved to slot 2. */
  function Example(): State {
    State([Rec(10, 10), Rec(30, 10), Rec(30, 30), Rec(99, 0), Rec(99, 0), Rec(99, 0)],
          [Rec(10, 10), Rec(30, 30)], PlaceKey(20, 20, 1), FirstKey, 30)
  }

  /** The scan up to the load of slot 1's pointer, which is still that of key 10. */
  lemma ExampleReads(acts: seq<Action>)
    requires var s := Example();
             Legal(s.(r := ThenRight(2, 10, false)), acts, LeftFirst, 99)
    ensures var s := Example(); var all := [Read, Read, Read, Read, Read, Read, Read, Read] + acts;
            Legal(s, all, LeftFirst, 99)
            && Run(s, all, LeftFirst, 99) == Run(s.(r := ThenRight(2, 10, false)), acts, LeftFirst, 99)
  {
    ExampleSecondSlot(acts);
    ExampleFirstSlot([Read, Read, Read, Read] + acts);
    assert [Read, Read, Read, Read] + ([Read, Read, Read, Read] + acts)
           == [Read, Read, Read, Read, Read, Read, Read, Read] + acts;
  }

  /** The four loads at slot 2, the first of which ends the pair of slot 1. */
  lemma ExampleSecondSlot(acts: seq<Action>)
    requires var s := Example();
             Legal(s.(r := ThenRight(2, 10, false)), acts, LeftFirst, 99)
    ensures var s := Example(); var all := [Read, Read, Read, Read] + acts;
            Legal(s.(r := ThenRight(1, 10, false)), all, LeftFirst, 99)
            && Run(s.(r := ThenRight(1, 10, false)), all, LeftFirst, 99)
                  == Run(s.(r := ThenRight(2, 10, false)), acts, LeftFirst, 99)
  {
    var s := Example();
    ExamplePair(acts);
    var a2 := [Read, Read] + acts;
    Prepend(s.(r := Test(2)), Read, a2, LeftFirst, 99);
    var a3 := [Read] + a2;
    Prepend(s.(r := ThenRight(1, 10, false)), Read, a3, LeftFirst, 99);
    assert [Read] + a3 == [Read, Read, Read, Read] + acts;
  }

  lemma ExamplePair(acts: seq<Action>)
    requires Legal(Example().(r := ThenRight(2, 10, false)), acts, LeftFirst, 99)
    ensures var s := Example().(r := LoadKey(2));
            Legal(s, [Read, Read] + acts, LeftFirst, 99)
            && Run(s, [Read, Read] + acts, LeftFirst, 99)
                  == Run(s.(r := ThenRight(2, 10, false)), acts, LeftFirst, 99)
  {
    var s := Example();
    Prepend(s.(r := LoadLeft(2)), Read, acts, LeftFirst, 99);
    Prepend(s.(r := LoadKey(2)), Read, [Read] + acts, LeftFirst, 99);
    assert [Read] + ([Read] + acts) == [Read, Read] + acts;
  }

  lemma ExampleFirstSlot(acts: seq<Action>)
    requires var s := Example();
             Legal(s.(r := ThenRight(1, 10, false)), acts, LeftFirst, 99)
    ensures var s := Example(); var all := [Read, Read, Read, Read] + acts;
            Legal(s, all, LeftFirst, 99) && Run(s, all, LeftFirst, 99)
                == Run(s.(r := ThenRight(1, 10, false)), acts, LeftFirst, 99)
  {
    var s := Example();
    Prepend(s.(r := LoadLeft(1)), Read, acts, LeftFirst, 99);
    var a1 := [Read] + acts;
    Prepend(s.(r := LoadKey(1)), Read, a1, LeftFirst, 99);
    var a2 := [Read] + a1;
    Prepend(s.(r := Test(1)), Read, a2, LeftFirst, 99);
    var a3 := [Read] + a2;
    Prepend(s, Read, a3, LeftFirst, 99);
    assert [Read] + a3 == [Read, Read, Read, Read] + acts;
  }

  /** The states after the left pointer is loaded: 20 becomes live, then 25 starts and shifts 30 away. */
  function ExampleState(step: nat): State
    requires step <= 7
  {
    var recs0 := [Rec(10, 10), Rec(20, 10), Rec(30, 30), Rec(99, 0), Rec(99, 0), Rec(99, 0)];
    var recs1 := [Rec(10, 10), Rec(20, 20), Rec(30, 30), Rec(99, 0), Rec(99, 0), Rec(99, 0)];
    var recs2 := [Rec(10, 10), Rec(20, 20), Rec(30, 30), Rec(99, 30), Rec(99, 0), Rec(99, 0)];
    var recs3 := [Rec(10, 10), Rec(20, 20), Rec(30, 30), Rec(30, 30), Rec(99, 0), Rec(99, 0)];
    var recs4 := [Rec(10, 10), Rec(20, 20), Rec(30, 20), Rec(30, 30), Rec(99, 0), Rec(99, 0)];
    var es0 := [Rec(10, 10), Rec(30, 30)];
    var es1 := [Rec(10, 10), Rec(20, 20), Rec(30, 30)];
    if step == 0 then Example().(r := ThenRight(2, 10, false))
    else if step == 1 then State(recs0, es0, Commit(20, 20, 1), ThenRight(2, 10, false), 30)
    else if step == 2 then State(recs1, es1, Idle, ThenRight(2, 10, false), 30)
    else if step == 3 then State(recs1, es1, Close(25, 25), ThenRight(2, 10, true), 30)
    else if step == 4 then State(recs1, es1, Examine(25, 25, 2), ThenRight(2, 10, true), 30)
    else if step == 5 then State(recs2, es1, ShiftKey(25, 25, 2), ThenRight(2, 10, true), 30)
    else if step == 6 then State(recs3, es1, Examine(25, 25, 1), ThenRight(2, 10, true), 30)
    else State(recs4, es1, PlaceKey(25, 25, 2), ThenRight(2, 10, true), 30)
  }

  function ExampleAction(step: nat): Action {
    if step == 2 then Start(25, 25) else Write
  }

  lemma ExampleEnabled(step: nat)
    requires step < 7
    ensures Enabled(ExampleState(step), ExampleAction(step), 99)
  {
  }

  lemma ExampleStep(step: nat)
    requires step < 7 && Enabled(ExampleState(step), ExampleAction(step), 99)
    ensures Step(ExampleState(step), ExampleAction(step), LeftFirst, 99) == ExampleState(step + 1)
  {
    if step < 4 { ExampleEarlyStep(step); } else { ExampleLateStep(step); }
  }

  lemma ExampleEarlyStep(step: nat)
    requires step < 4 && Enabled(ExampleState(step), ExampleAction(step), 99)
    ensures Step(ExampleState(step), ExampleAction(step), LeftFirst, 99) == ExampleState(step + 1)
  {
    var s, s' := ExampleState(step), ExampleState(step + 1);
    var n := Step(s, ExampleAction(step), LeftFirst, 99);
    assert n.recs == s'.recs && n.es == s'.es;
  }

  lemma ExampleLateStep(step: nat)
    requires 4 <= step < 7 && Enabled(ExampleState(step), ExampleAction(step), 99)
    ensures Step(ExampleState(step), ExampleAction(step), LeftFirst, 99) == ExampleState(step + 1)
  {
    var s, s' := ExampleState(step), ExampleState(step + 1);
    assert WriteStep(s).recs == s'.recs;
  }

  /** The two last loads: slot 2 now repeats the pointer of 20, but its key is still 30. */
  lemma ExampleEnd()
    ensures var s := ExampleState(7);
            Legal(s, [Read, Read], LeftFirst, 99) && Run(s, [Read, Read], LeftFirst, 99) == s.(r := Done(20))
  {
    var s := ExampleState(7);
    assert Legal(s.(r := Done(20)), [], LeftFirst, 99);
    Prepend(s.(r := Again(2, 20)), Read, [], LeftFirst, 99);
    assert [Read] + [] == [Read];
    Prepend(s, Read, [Read], LeftFirst, 99);
    assert [Read] + [Read] == [Read, Read];
  }

  lemma ExampleTail(step: nat) returns (acts: seq<Action>)
    requires step <= 7
    ensures Legal(ExampleState(step), acts, LeftFirst, 99)
    ensures Run(ExampleState(step), acts, LeftFirst, 99) == ExampleState(7).(r := Done(20))
    decreases 7 - step
  {
    if step == 7 {
      ExampleEnd();
      acts := [Read, Read];
    } else {
      acts := ExampleTail(step + 1);
      ExampleEnabled(step);
      ExampleStep(step);
      Prepend(ExampleState(step), ExampleAction(step), acts, LeftFirst, 99);
      acts := [ExampleAction(step)] + acts;
    }
  }

  /**
    Without such a condition the left-first scan is wrong: a run exists in which a scan for key 30,
    which is in the leaf throughout, returns the pointer stored with key 20.
   */
  lemma LeftFirstCanReturnAnotherPointer() returns (acts: seq<Action>)
    ensures WriterInv(Example(), 99) && Example().r == FirstKey && Legal(Example(), acts, LeftFirst, 99)
    ensures var e := Run(Example(), acts, LeftFirst, 99);
            e.r == Done(20) && Rec(20, 20) in e.es && Rec(Example().key, 20) !in e.es
  {
    var tail := ExampleTail(0);
    ExampleReads(tail);
    acts := [Read, Read, Read, Read, Read, Read, Read, Read] + tail;
    assert ExampleState(7).es[1] == Rec(20, 20);
    ExampleIsSound();
  }

  lemma ExampleIsSound()
    ensures WriterInv(Example(), 99)
  {
    var s := Example();
    assert s.es[0].key < s.es[1].key;
  }
}
