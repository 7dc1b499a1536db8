/** Whole runs of a client on the buffer pool. */
module BufferPoolRuns {
  import opened Common
  import opened PoolStates
  import opened BufferPools

  // ----- what a client sees -----

  /**
   * The pool as a client sees it, without frames: what was left in the live pages, the pins, the pages written since
   * they were last unpinned as dirty, and the next page id.
   */
  datatype View = View(live: map<int, Bytes>, pins: multiset<int>, touched: set<int>, next: int)

  datatype Op =
    | Fetch(page: int) | New | Read(page: int) | Write(page: int, data: Bytes)
    | Unpin(page: int, dirty: bool) | Flush(page: int) | Delete(page: int)

  datatype Outcome = Got(data: Bytes) | Made(page: int) | NoFrame | Done(ok: bool)

  /** The protocol: fetch live pages, read, write and unpin pinned ones, and end with a dirty unpin after a write. */
  predicate Allowed(v: View, op: Op) {
    match op
    case Fetch(p) => p in v.live
    case Read(p) => p in v.pins && p in v.live
    case Write(p, _) => p in v.pins
    case Unpin(p, dirty) => p in v.pins && (v.pins[p] == 1 && p in v.touched ==> dirty)
    case New => true
    case Flush(_) => true
    case Delete(_) => true
  }

  ghost function PinnedPages(v: View): set<int> {
    set p | p in v.pins
  }

  /** In a pool of n frames a page gets no frame if n other pages are pinned. */
  ghost predicate Full(v: View, n: nat) {
    |PinnedPages(v)| == n
  }

  ghost function Answer(v: View, n: nat, op: Op): Outcome
    requires Allowed(v, op)
  {
    match op
    case Fetch(p) => if p !in v.pins && Full(v, n) then NoFrame else Got(v.live[p])
    case New => if Full(v, n) then NoFrame else Made(v.next)
    case Read(p) => Got(v.live[p])
    case Write(_, _) => Done(true)
    case Unpin(_, _) => Done(true)
    case Flush(_) => Done(true)
    case Delete(p) => Done(p !in v.pins)
  }

  ghost function After(v: View, n: nat, op: Op): View {
    match op
    case Fetch(p) => if p !in v.pins && Full(v, n) then v else v.(pins := v.pins + multiset{p})
    case New =>
      if Full(v, n) then v
      else View(v.live[v.next := Zeros()], v.pins + multiset{v.next}, v.touched + {v.next}, v.next + 1)
    case Read(_) => v
    case Write(p, data) => v.(live := v.live[p := data], touched := v.touched + {p})
    case Unpin(p, dirty) =>
      v.(pins := v.pins - multiset{p}, touched := if dirty then v.touched - {p} else v.touched)
    case Flush(_) => v
    case Delete(p) => if p in v.pins then v else v.(live := v.live - {p})
  }

  /** A step answers and changes the view as it should. */
  ghost predicate Serves(v: View, v': View, n: nat, op: Op, out: Outcome)
    requires Allowed(v, op)
  {
    out == Answer(v, n, op) && v' == After(v, n, op)
  }

  ghost function Final(v: View, n: nat, ops: seq<Op>): View {
    if ops == [] then v else After(Final(v, n, ops[..|ops| - 1]), n, ops[|ops| - 1])
  }

  /** Each operation keeps to the protocol when its turn comes. */
  ghost predicate Keeps(v: View, n: nat, ops: seq<Op>) {
    forall i {:trigger ops[i]} :: 0 <= i < |ops| ==> Allowed(Final(v, n, ops[..i]), ops[i])
  }

  /** The outcomes are those of the view. */
  ghost predicate Answered(v: View, n: nat, ops: seq<Op>, outs: seq<Outcome>)
    requires Keeps(v, n, ops)
  {
    |outs| == |ops| && forall i :: 0 <= i < |ops| ==> outs[i] == Answer(Final(v, n, ops[..i]), n, ops[i])
  }

  // ----- the view and the state of the pool -----

  ghost function PinsOf<F>(s: PoolState<F>, p: int): int {
    if p in s.table && s.table[p] in s.slots then s.slots[s.table[p]].pins else 0
  }

  ghost predicate Matches<F>(s: PoolState<F>, next: int, v: View) {
    && v.live == s.live && v.next == next
    && (forall p {:trigger PinsOf(s, p)} :: PinsOf(s, p) == v.pins[p])
    && (forall f :: f in s.slots && s.slots[f].touched ==> s.slots[f].page in v.touched)
  }

  lemma PinnedIsResident<F>(s: PoolState<F>, next: int, v: View, p: int)
    requires PoolOk(s) && Matches(s, next, v) && p in v.pins
    ensures p in s.table && TableFacts(s, p) && s.slots[s.table[p]].pins == v.pins[p]
  {
    assert PinsOf(s, p) == v.pins[p];
    TableLeadsTo(s, p);
  }

  /** Every frame is pinned exactly if as many pages are pinned as there are frames. */
  lemma AllPinnedIffFull<F>(s: PoolState<F>, next: int, v: View)
    requires PoolOk(s) && Matches(s, next, v)
    ensures AllPinned(s) <==> Full(v, |s.slots|)
  {
    forall p | p in v.pins ensures p in s.table {
      assert PinsOf(s, p) == v.pins[p];
    }
    assert PinnedPages(v) <= s.table.Keys;
    assert |s.table| == |s.table.Keys|;
    if AllPinned(s) {
      VictimUnlessPinned(s);
      forall p | p in s.table ensures p in v.pins {
        assert PinsOf(s, p) == v.pins[p];
      }
      assert PinnedPages(v) == s.table.Keys;
    }
    if Full(v, |s.slots|) {
      SameSize(PinnedPages(v), s.table.Keys);
      forall f | f in s.slots ensures s.slots[f].pins > 0 {
        assert FrameOk(s, f) && s.free == [];
        var p := s.slots[f].page;
        assert PinsOf(s, p) == v.pins[p];
        assert p in PinnedPages(v);
      }
    }
  }

  lemma SameSize(a: set<int>, b: set<int>)
    requires a <= b && |a| >= |b|
    ensures a == b
  {
    assert b == a + (b - a) && |b - a| == |b| - |a|;
  }

  // ----- every step keeps them matched -----

  lemma PinnedMatches<F>(s: PoolState<F>, next: int, v: View, p: int)
    requires PoolOk(s) && Matches(s, next, v) && p in s.table && TableFacts(s, p)
    ensures Matches(Pinned(s, s.table[p]), next, v.(pins := v.pins + multiset{p}))
  {
    hide FramesOk, ListsOk, PagesOk, Erased;
    var s', v' := Pinned(s, s.table[p]), v.(pins := v.pins + multiset{p});
    forall x ensures PinsOf(s', x) == v'.pins[x] {
      assert PinsOf(s, x) == v.pins[x];
    }
  }

  lemma ReplacedMatches<F>(s: PoolState<F>, next: int, v: View, p: int, data: Bytes, isNew: bool)
    requires PoolOk(s) && Matches(s, next, v) && CanReplace(s) && p !in s.table && p != INVALID_PAGE_ID
    requires s.slots[NextVictim(s)].pins == 0 && (isNew ==> p == next)
    ensures
      var s' := Replaced(s, p, data, isNew);
      if isNew then
        Matches(s', next + 1, View(v.live[p := data], v.pins + multiset{p}, v.touched + {p}, next + 1))
      else Matches(s', next, v.(pins := v.pins + multiset{p}))
  {
    hide PoolOk, NextVictim, Replaced, CanReplace;
    var s', pins := Replaced(s, p, data, isNew), v.pins + multiset{p};
    ReplacedSlots(s, p, data, isNew);
    forall x ensures PinsOf(s', x) == pins[x] {
      assert PinsOf(s, x) == v.pins[x];
      ReplacedPins(s, p, data, isNew, x);
    }
  }

  lemma ReplacedSlots<F>(s: PoolState<F>, p: int, data: Bytes, isNew: bool)
    requires PoolOk(s) && CanReplace(s)
    ensures
      var f, s' := NextVictim(s), Replaced(s, p, data, isNew);
      && s'.slots == s.slots[f := Slot(p, data, 1, false, isNew)]
      && s'.live == if isNew then s.live[p := data] else s.live
  {
    VictimGone(s, NextVictim(s));
  }

  lemma ReplacedPins<F>(s: PoolState<F>, p: int, data: Bytes, isNew: bool, x: int)
    requires PoolOk(s) && CanReplace(s) && p !in s.table && p != INVALID_PAGE_ID
    requires s.slots[NextVictim(s)].pins == 0
    ensures PinsOf(Replaced(s, p, data, isNew), x) == PinsOf(s, x) + if x == p then 1 else 0
  {
    hide FramesOk, ListsOk, PagesOk, NextVictim, WithoutVictim;
    VictimIs(s);
    VictimGone(s, NextVictim(s));
  }

  lemma UnpinnedMatches<F>(s: PoolState<F>, next: int, v: View, p: int, dirty: bool)
    requires PoolOk(s) && Matches(s, next, v) && p in s.table && TableFacts(s, p) && p in v.pins
    ensures Matches(Unpinned(s, s.table[p], dirty), next,
                    v.(pins := v.pins - multiset{p}, touched := if dirty then v.touched - {p} else v.touched))
  {
    hide FramesOk, ListsOk, PagesOk, Erased;
    var s', pins := Unpinned(s, s.table[p], dirty), v.pins - multiset{p};
    forall x ensures PinsOf(s', x) == pins[x] {
      assert PinsOf(s, x) == v.pins[x];
      assert pins[x] == if x == p then v.pins[x] - 1 else v.pins[x];
    }
    var touched := if dirty then v.touched - {p} else v.touched;
    forall f | f in s'.slots && s'.slots[f].touched ensures s'.slots[f].page in touched {
      TouchedPage(s, p, f);
    }
  }

  /** No other frame holds page p, if it holds one at all. */
  lemma TouchedPage<F>(s: PoolState<F>, p: int, f: F)
    requires PoolOk(s) && p in s.table && f in s.slots && (s.slots[f].touched || s.slots[f].pins > 0)
    ensures f != s.table[p] ==> s.slots[f].page != p
  {
    assert FrameOk(s, f);
  }

  lemma FlushedMatches<F>(s: PoolState<F>, next: int, v: View, p: int)
    requires PoolOk(s) && Matches(s, next, v) && p in s.table && TableFacts(s, p)
    ensures Matches(Flushed(s, s.table[p]), next, v)
  {
    hide FramesOk, ListsOk, PagesOk;
    var s' := Flushed(s, s.table[p]);
    forall x ensures PinsOf(s', x) == v.pins[x] {
      assert PinsOf(s, x) == v.pins[x];
    }
  }

  lemma WrittenMatches<F>(s: PoolState<F>, next: int, v: View, p: int, data: Bytes)
    requires PoolOk(s) && Matches(s, next, v) && p in s.table && TableFacts(s, p)
    ensures Matches(Written(s, s.table[p], data), next, v.(live := v.live[p := data], touched := v.touched + {p}))
  {
    hide FramesOk, ListsOk, PagesOk;
    var s' := Written(s, s.table[p], data);
    forall x ensures PinsOf(s', x) == v.pins[x] {
      assert PinsOf(s, x) == v.pins[x];
    }
  }

  lemma DeletedMatches<F>(s: PoolState<F>, next: int, v: View, p: int)
    requires PoolOk(s) && Matches(s, next, v) && p !in v.pins
    ensures Matches(Deleted(s, p), next, v.(live := v.live - {p}))
  {
    hide PoolOk, Erased;
    var s' := Deleted(s, p);
    assert PinsOf(s, p) == v.pins[p];
    forall x ensures PinsOf(s', x) == v.pins[x] {
      assert PinsOf(s, x) == v.pins[x];
      DeletedPins(s, p, x);
    }
  }

  lemma DeletedPins<F>(s: PoolState<F>, p: int, x: int)
    requires PoolOk(s) && PinsOf(s, p) == 0
    ensures PinsOf(Deleted(s, p), x) == PinsOf(s, x)
  {
    hide FramesOk, ListsOk, PagesOk, Erased;
  }

  /** Pinned pages stay in their frames. */
  ghost predicate Steady<F>(s: PoolState<F>, s': PoolState<F>, v: View) {
    forall p :: p in v.pins ==> p in s.table && p in s'.table && s'.table[p] == s.table[p]
  }

  lemma ReplacedSteady<F>(s: PoolState<F>, next: int, v: View, p: int, data: Bytes, isNew: bool)
    requires PoolOk(s) && Matches(s, next, v) && CanReplace(s) && p !in s.table && p != INVALID_PAGE_ID
    requires s.slots[NextVictim(s)].pins == 0
    ensures Steady(s, Replaced(s, p, data, isNew), v)
  {
    hide FramesOk, ListsOk, PagesOk, NextVictim, WithoutVictim;
    VictimIs(s);
    VictimGone(s, NextVictim(s));
    forall x | x in v.pins ensures x in s.table && s.slots[s.table[x]].pins > 0 && s.slots[s.table[x]].page == x {
      assert PinsOf(s, x) == v.pins[x];
    }
  }

  lemma DeletedSteady<F>(s: PoolState<F>, next: int, v: View, p: int)
    requires PoolOk(s) && Matches(s, next, v) && p !in v.pins
    ensures Steady(s, Deleted(s, p), v)
  {
    hide FramesOk, ListsOk, PagesOk, Erased;
    forall x | x in v.pins ensures x in s.table {
      assert PinsOf(s, x) == v.pins[x];
    }
  }

  /** Everything that FetchPage of a live page can do. */
  lemma FetchFacts<F>(s: PoolState<F>, next: int, v: View, p: int)
    requires PoolOk(s) && Matches(s, next, v) && p in v.live
    ensures
      var v' := v.(pins := v.pins + multiset{p});
      if p in s.table then
        && s.table[p] in s.slots && !(p !in v.pins && Full(v, |s.slots|))
        && Matches(Pinned(s, s.table[p]), next, v') && Steady(s, Pinned(s, s.table[p]), v)
      else
        && p !in v.pins && (AllPinned(s) <==> Full(v, |s.slots|))
        && (!AllPinned(s) ==>
              && CanReplace(s) && Matches(Replaced(s, p, v.live[p], false), next, v')
              && Steady(s, Replaced(s, p, v.live[p], false), v))
  {
    hide FramesOk, ListsOk, PagesOk, Full, Replaced, Erased;
    AllPinnedIffFull(s, next, v);
    assert PinsOf(s, p) == v.pins[p];
    ResidentOrOnDisk(s, p);
    if p in s.table {
      PinnedMatches(s, next, v, p);
      TableSteady(s, next, v);
    } else if !AllPinned(s) {
      VictimUnlessPinned(s);
      ReplacedMatches(s, next, v, p, v.live[p], false);
      ReplacedSteady(s, next, v, p, v.live[p], false);
    }
  }

  /** Everything that NewPage can do. */
  lemma NewFacts<F>(s: PoolState<F>, next: int, v: View)
    requires PoolOk(s) && Matches(s, next, v) && next !in s.live && next != INVALID_PAGE_ID
    ensures AllPinned(s) <==> Full(v, |s.slots|)
    ensures !AllPinned(s) ==>
      && CanReplace(s) && Steady(s, Replaced(s, next, Zeros(), true), v)
      && Matches(Replaced(s, next, Zeros(), true), next + 1,
                 View(v.live[next := Zeros()], v.pins + multiset{next}, v.touched + {next}, next + 1))
  {
    hide FramesOk, ListsOk, PagesOk, Full, Replaced;
    AllPinnedIffFull(s, next, v);
    NotResident(s, next);
    if !AllPinned(s) {
      VictimUnlessPinned(s);
      ReplacedMatches(s, next, v, next, Zeros(), true);
      ReplacedSteady(s, next, v, next, Zeros(), true);
    }
  }

  lemma TableSteady<F>(s: PoolState<F>, next: int, v: View)
    requires PoolOk(s) && Matches(s, next, v)
    ensures Steady(s, s, v)
  {
    forall p | p in v.pins ensures p in s.table { PinnedIsResident(s, next, v, p); }
  }

  // ----- a client -----

  /** A client keeps the frames that it was given; as long as a page is pinned, its frame holds it. */
  class Session {
    const pool: BufferPoolManager
    var handles: map<int, Frame>
    ghost var view: View

    ghost predicate Valid()
      reads this, pool, pool.slots.Keys
    {
      pool.Valid() && Matches(pool.State(), pool.nextPageId, view) && Holding()
    }

    ghost predicate Holding()
      reads this, pool`pageTable
    {
      forall p :: p in view.pins ==> p in handles && p in pool.pageTable && handles[p] == pool.pageTable[p]
    }

    constructor (poolSize: nat, firstId: int)
      requires firstId > INVALID_PAGE_ID
      ensures Valid() && fresh(pool) && fresh(pool.slots.Keys) && |pool.slots| == poolSize
      ensures view == View(map[], multiset{}, {}, firstId)
    {
      pool := new BufferPoolManager(poolSize, firstId);
      handles, view := map[], View(map[], multiset{}, {}, firstId);
      new;
      Untouched();
    }

    /** In a new pool no frame has been written. */
    lemma Untouched()
      requires pool.Valid() && pool.live == map[] && pool.pageTable == map[]
      ensures Matches(pool.State(), pool.nextPageId, View(map[], multiset{}, {}, pool.nextPageId))
    {
      forall f | f in pool.slots ensures !pool.slots[f].touched {
        assert FrameOk(pool.State(), f);
      }
    }

    method Fetch(p: int) returns (out: Outcome)
      requires Valid() && p in view.live
      modifies this, pool, pool.slots.Keys
      ensures Valid() && pool.slots.Keys == old(pool.slots.Keys)
      ensures Serves(old(view), view, |pool.slots|, Op.Fetch(p), out)
    {
      hide PoolOk, Matches, Full, Pinned, Replaced, AllPinned, BufferPoolManager.Mirrored, BufferPoolManager.Bounded;
      ghost var s, next := pool.State(), pool.nextPageId;
      FetchFacts(s, next, view, p);
      assert view.live == pool.live by { LiveSame(s, next, view); }
      var tar := pool.FetchPage(p);
      if tar == null { return NoFrame; }
      handles := handles[p := tar];
      view := view.(pins := view.pins + multiset{p});
      return Got(tar.data);
    }

    method New() returns (out: Outcome)
      requires Valid()
      modifies this, pool, pool.slots.Keys
      ensures Valid() && pool.slots.Keys == old(pool.slots.Keys)
      ensures Serves(old(view), view, |pool.slots|, Op.New, out)
    {
      hide PoolOk, Matches, Full, Replaced, AllPinned, BufferPoolManager.Mirrored;
      ghost var s, next := pool.State(), pool.nextPageId;
      LiveSame(s, next, view);
      NewFacts(s, next, view);
      var tar, p := pool.NewPage();
      if tar == null { return NoFrame; }
      handles := handles[p := tar];
      view := View(view.live[p := Zeros()], view.pins + multiset{p}, view.touched + {p}, p + 1);
      return Made(p);
    }

    method Read(p: int) returns (out: Outcome)
      requires Valid() && p in view.pins
      ensures p in view.live && out == Got(view.live[p])
    {
      PinnedIsResident(pool.State(), pool.nextPageId, view, p);
      pool.MirrorAt(handles[p]);
      return Got(handles[p].data);
    }

    method Write(p: int, data: Bytes)
      requires Valid() && p in view.pins
      modifies this`view, pool, pool.slots.Keys
      ensures Valid() && pool.slots.Keys == old(pool.slots.Keys)
      ensures Serves(old(view), view, |pool.slots|, Op.Write(p, data), Done(true))
    {
      hide PoolOk, Matches, Full, BufferPoolManager.Mirrored, BufferPoolManager.Bounded;
      ghost var s, next := pool.State(), pool.nextPageId;
      PinnedIsResident(s, next, view, p);
      WrittenMatches(s, next, view, p, data);
      TableSteady(s, next, view);
      pool.MirrorAt(handles[p]);
      pool.Write(handles[p], data);
      view := view.(live := view.live[p := data], touched := view.touched + {p});
    }

    method Unpin(p: int, dirty: bool)
      requires Valid() && Allowed(view, Op.Unpin(p, dirty))
      modifies this`view, pool, pool.slots.Keys
      ensures Valid() && pool.slots.Keys == old(pool.slots.Keys)
      ensures Serves(old(view), view, |pool.slots|, Op.Unpin(p, dirty), Done(true))
    {
      hide PoolOk, Matches, Full, BufferPoolManager.Mirrored, BufferPoolManager.Bounded, Unpinned;
      ghost var s, next := pool.State(), pool.nextPageId;
      UnpinFacts(s, next, view, p, dirty);
      var ok := pool.UnpinPage(p, dirty);
      view := view.(pins := view.pins - multiset{p}, touched := if dirty then view.touched - {p} else view.touched);
    }

    lemma UnpinFacts(s: PoolState<Frame>, next: int, v: View, p: int, dirty: bool)
      requires PoolOk(s) && Matches(s, next, v) && Allowed(v, Op.Unpin(p, dirty))
      ensures p in s.table && s.table[p] in s.slots && s.slots[s.table[p]].pins > 0
      ensures s.slots[s.table[p]].pins == 1 && s.slots[s.table[p]].touched ==> dirty
      ensures Matches(Unpinned(s, s.table[p], dirty), next,
                      v.(pins := v.pins - multiset{p}, touched := if dirty then v.touched - {p} else v.touched))
      ensures Steady(s, s, v) && Unpinned(s, s.table[p], dirty).table == s.table
    {
      hide PoolOk, Erased;
      PinnedIsResident(s, next, v, p);
      UnpinnedMatches(s, next, v, p, dirty);
      TableSteady(s, next, v);
    }

    method Flush(p: int)
      requires Valid()
      modifies pool, pool.slots.Keys
      ensures Valid() && pool.slots.Keys == old(pool.slots.Keys)
    {
      hide PoolOk, Matches, BufferPoolManager.Mirrored, BufferPoolManager.Bounded;
      ghost var s, next := pool.State(), pool.nextPageId;
      if p in pool.pageTable {
        TableLeadsTo(s, p);
        FlushedMatches(s, next, view, p);
      }
      TableSteady(s, next, view);
      var ok := pool.FlushPage(p);
    }

    method Delete(p: int) returns (out: Outcome)
      requires Valid()
      modifies this`view, pool, pool.slots.Keys
      ensures Valid() && pool.slots.Keys == old(pool.slots.Keys)
      ensures Serves(old(view), view, |pool.slots|, Op.Delete(p), out)
    {
      hide PoolOk, Matches, Full, Deleted, Steady, BufferPoolManager.Valid;
      ghost var s, v := pool.State(), view;
      var ok := DropPage(p);
      if ok {
        view := view.(live := view.live - {p});
        StillHolding(s, v);
      }
      out := Done(ok);
    }

    /** The pool gives the page up unless it is pinned. */
    method DropPage(p: int) returns (ok: bool)
      requires Valid()
      modifies pool, pool.slots.Keys
      ensures pool.Valid() && pool.slots.Keys == old(pool.slots.Keys) && pool.nextPageId == old(pool.nextPageId)
      ensures ok == (p !in view.pins)
      ensures !ok ==> Valid()
      ensures ok ==>
        && Matches(pool.State(), pool.nextPageId, view.(live := view.live - {p}))
        && Steady(old(pool.State()), pool.State(), view)
    {
      hide PoolOk, Matches, Full, Deleted, Steady, BufferPoolManager.Mirrored, BufferPoolManager.Bounded;
      DeleteFacts(pool.State(), pool.nextPageId, view, p);
      ok := pool.DeletePage(p);
    }

    /** A pointer to a pinned page stays good while other pages come and go. */
    lemma StillHolding(s: PoolState<Frame>, v: View)
      requires Steady(s, pool.State(), v) && view.pins == v.pins
      requires forall p :: p in v.pins ==> p in handles && p in s.table && handles[p] == s.table[p]
      ensures Holding()
    {
    }

    lemma DeleteFacts(s: PoolState<Frame>, next: int, v: View, p: int)
      requires PoolOk(s) && Matches(s, next, v)
      ensures p in s.table ==> s.table[p] in s.slots
      ensures p in v.pins <==> p in s.table && s.slots[s.table[p]].pins > 0
      ensures p !in v.pins ==>
        && Matches(Deleted(s, p), next, v.(live := v.live - {p})) && Steady(s, Deleted(s, p), v)
        && Deleted(s, p).slots.Keys == s.slots.Keys
      ensures Steady(s, s, v)
    {
      hide FramesOk, ListsOk, PagesOk, Erased;
      assert PinsOf(s, p) == v.pins[p];
      TableSteady(s, next, v);
      if p !in v.pins {
        DeletedMatches(s, next, v, p);
        DeletedSteady(s, next, v, p);
      }
    }

    method Perform(op: Op) returns (out: Outcome)
      requires Valid() && Allowed(view, op)
      modifies this, pool, pool.slots.Keys
      ensures Valid() && pool.slots.Keys == old(pool.slots.Keys)
      ensures Serves(old(view), view, |pool.slots|, op, out)
    {
      hide Matches, BufferPoolManager.Valid, Holding, Full;
      match op {
        case Fetch(p) => out := Fetch(p);
        case New => out := New();
        case Read(p) => out := Read(p);
        case Write(p, data) =>
          Write(p, data);
          out := Done(true);
        case Unpin(p, dirty) =>
          Unpin(p, dirty);
          out := Done(true);
        case Flush(p) =>
          Flush(p);
          out := Done(true);
        case Delete(p) => out := Delete(p);
      }
    }

    lemma LiveSame(s: PoolState<Frame>, next: int, v: View)
      requires Matches(s, next, v)
      ensures s.live == v.live && next == v.next
    {
    }
  }

  lemma FinalStart(v: View, n: nat, ops: seq<Op>)
    ensures Final(v, n, ops[..0]) == v
  {
  }

  lemma FinalNext(v: View, n: nat, ops: seq<Op>, i: nat)
    requires i < |ops|
    ensures Final(v, n, ops[..i + 1]) == After(Final(v, n, ops[..i]), n, ops[i])
  {
    assert ops[..i + 1][..i] == ops[..i];
  }

  /**
   * Every run of a client that keeps to the protocol: whatever is evicted, written back and read again behind its back,
   * it gets the bytes that it left, and a page gets no frame exactly if as many other pages are pinned as there are
   * frames.
   */
  method Run(session: Session, ops: seq<Op>) returns (outs: seq<Outcome>)
    requires session.Valid() && Keeps(session.view, |session.pool.slots|, ops)
    modifies session, session.pool, session.pool.slots.Keys
    ensures session.Valid() && Answered(old(session.view), old(|session.pool.slots|), ops, outs)
    ensures session.view == Final(old(session.view), old(|session.pool.slots|), ops)
  {
    hide Session.Valid, Allowed, Answer, After, Full, Final;
    FinalStart(session.view, |session.pool.slots|, ops);
    outs := [];
    ghost var v, n := session.view, |session.pool.slots|;
    for i := 0 to |ops|
      invariant session.Valid() && session.pool.slots.Keys == old(session.pool.slots.Keys)
      invariant |outs| == i && session.view == Final(v, n, ops[..i])
      invariant forall j :: 0 <= j < i ==> outs[j] == Answer(Final(v, n, ops[..j]), n, ops[j])
    {
      FinalNext(v, n, ops, i);
      var out := session.Perform(ops[i]);
      outs := outs + [out];
    }
    assert ops[..|ops|] == ops;
  }
}
