/** The state of the buffer pool as a value: frames, page table, lists, disk, and what clients left in pages. */
module PoolStates {
  import opened Common
  import opened LruReplacers

  type Bytes = seq<bv8>

  function Zeros(): (b: Bytes)
    ensures |b| == PAGE_SIZE && forall i :: 0 <= i < PAGE_SIZE ==> b[i] == 0
  {
    seq(PAGE_SIZE, _ => 0)
  }

  /**
   * A frame.  `touched` is not stored anywhere: the content may differ from the disk page, and nobody has said so by
   * unpinning the page as dirty yet.
   */
  datatype Slot = Slot(page: int, data: Bytes, pins: int, dirty: bool, touched: bool)

  /** `live` has the bytes last left in every allocated page. */
  datatype PoolState<F> = PoolState(
    slots: map<F, Slot>, table: map<int, F>, lru: seq<F>, free: seq<F>, disk: map<int, Bytes>, live: map<int, Bytes>)

  // ----- invariants -----

  /** A frame is free, or resident and unpinned and known to the replacer, or resident and pinned. */
  ghost predicate FrameOk<F>(s: PoolState<F>, f: F)
    requires f in s.slots
  {
    var slot := s.slots[f];
    if f in s.free then
      slot.page == INVALID_PAGE_ID && slot.pins == 0 && !slot.dirty && !slot.touched && f !in s.lru
    else
      && slot.page != INVALID_PAGE_ID && slot.page in s.table && s.table[slot.page] == f
      && slot.pins >= 0 && (f in s.lru <==> slot.pins == 0)
      && slot.page in s.live && s.live[slot.page] == slot.data
      && (slot.pins == 0 ==> !slot.touched)
      && (!slot.dirty && !slot.touched ==> slot.page in s.disk && s.disk[slot.page] == slot.data)
  }

  ghost predicate PageOk<F>(s: PoolState<F>, p: int)
    requires p in s.live
  {
    p != INVALID_PAGE_ID && (p !in s.table ==> p in s.disk && s.disk[p] == s.live[p])
  }

  ghost predicate ListsOk<F>(s: PoolState<F>) {
    && Distinct(s.free) && Distinct(s.lru)
    && (forall f :: f in s.free ==> f in s.slots) && (forall f :: f in s.lru ==> f in s.slots)
  }

  ghost predicate FramesOk<F>(s: PoolState<F>) {
    forall f {:trigger FrameOk(s, f)} :: f in s.slots ==> FrameOk(s, f)
  }

  /** The page table leads to the frames that hold the pages. */
  ghost predicate TableOk<F>(s: PoolState<F>) {
    forall p {:trigger s.table[p]} :: p in s.table ==>
      p != INVALID_PAGE_ID && s.table[p] in s.slots && s.slots[s.table[p]].page == p
  }

  ghost predicate PagesOk<F>(s: PoolState<F>) {
    forall p {:trigger PageOk(s, p)} :: p in s.live ==> PageOk(s, p)
  }

  ghost predicate PoolOk<F>(s: PoolState<F>) {
    ListsOk(s) && FramesOk(s) && TableOk(s) && PagesOk(s) && |s.free| + |s.table| == |s.slots|
  }

  // ----- steps -----

  ghost function WithSlot<F>(s: PoolState<F>, f: F, slot: Slot): PoolState<F> {
    s.(slots := s.slots[f := slot])
  }

  /** The replacer's list after Erase. */
  function Erased<F(==)>(lru: seq<F>, f: F): seq<F> {
    Drop(lru, f)
  }

  /** FetchPage of a resident page. */
  ghost function Pinned<F>(s: PoolState<F>, f: F): PoolState<F>
    requires f in s.slots
  {
    WithSlot(s, f, s.slots[f].(pins := s.slots[f].pins + 1)).(lru := Erased(s.lru, f))
  }

  ghost function Unpinned<F>(s: PoolState<F>, f: F, dirty: bool): PoolState<F>
    requires f in s.slots
  {
    var slot := s.slots[f];
    var slot' := slot.(pins := slot.pins - 1, dirty := slot.dirty || dirty, touched := slot.touched && !dirty);
    var s' := WithSlot(s, f, slot');
    if slot.pins == 1 then s'.(lru := [f] + Erased(s.lru, f)) else s'
  }

  ghost function Flushed<F>(s: PoolState<F>, f: F): PoolState<F>
    requires f in s.slots
  {
    var slot := s.slots[f];
    if slot.dirty then
      WithSlot(s, f, slot.(dirty := false, touched := false)).(disk := s.disk[slot.page := slot.data])
    else s
  }

  /** The client writes through the pointer it got from FetchPage or NewPage. */
  ghost function Written<F>(s: PoolState<F>, f: F, data: Bytes): PoolState<F>
    requires f in s.slots
  {
    WithSlot(s, f, s.slots[f].(data := data, touched := true)).(live := s.live[s.slots[f].page := data])
  }

  ghost predicate AllPinned<F>(s: PoolState<F>) {
    forall f :: f in s.slots ==> s.slots[f].pins > 0
  }

  /** The frame to use next: the first free one, or else the least recently unpinned one. */
  ghost function NextVictim<F>(s: PoolState<F>): F
    requires s.free != [] || s.lru != []
  {
    if s.free != [] then s.free[0] else s.lru[|s.lru| - 1]
  }

  ghost function WithoutVictim<F>(s: PoolState<F>): PoolState<F>
    requires s.free != [] || s.lru != []
  {
    if s.free != [] then s.(free := s.free[1..]) else s.(lru := s.lru[..|s.lru| - 1])
  }

  /** Frame f, just chosen as victim, is written back if dirty and then holds page p with one pin. */
  ghost function Reused<F>(s: PoolState<F>, f: F, p: int, data: Bytes, touched: bool): PoolState<F>
    requires f in s.slots
  {
    var slot := s.slots[f];
    var disk := if slot.dirty then s.disk[slot.page := slot.data] else s.disk;
    WithSlot(s, f, Slot(p, data, 1, false, touched)).(disk := disk, table := (s.table - {slot.page})[p := f])
  }

  ghost function Deleted<F>(s: PoolState<F>, p: int): PoolState<F> {
    var s' := s.(live := s.live - {p});
    if p in s.table then
      var f := s.table[p];
      WithSlot(s', f, Slot(INVALID_PAGE_ID, Zeros(), 0, false, false)).(
        table := s.table - {p}, lru := Erased(s.lru, f), free := s.free + [f])
    else s'
  }

  // ----- every step keeps the invariant -----

  lemma ErasedDistinct<F>(s: seq<F>, f: F)
    requires Distinct(s)
    ensures Distinct(Erased(s, f))
  {
    if i :| 0 <= i < |s| && s[i] == f { DropAt(s, i); } else { DropAbsent(s, f); }
  }

  lemma ErasedHas<F>(s: seq<F>, f: F, x: F)
    requires Distinct(s)
    ensures x in Erased(s, f) <==> x in s && x != f
  {
    if i :| 0 <= i < |s| && s[i] == f {
      DropAt(s, i);
      assert s == s[..i] + [s[i]] + s[i + 1..];
    } else {
      DropAbsent(s, f);
    }
  }

  lemma SetSize<F>(m: map<F, Slot>, f: F, slot: Slot)
    requires f in m
    ensures |m[f := slot]| == |m| && m[f := slot].Keys == m.Keys
  {
    assert m[f := slot].Keys == m.Keys && |m| == |m.Keys| && |m[f := slot]| == |m[f := slot].Keys|;
  }

  /** From s to s', only frame f and the page it holds have changed. */
  ghost predicate OnlyFrame<F>(s: PoolState<F>, s': PoolState<F>, f: F) {
    && f in s.slots && f in s'.slots && s'.slots == s.slots[f := s'.slots[f]]
    && (forall g :: g in s.slots && g != f ==> (g in s'.free <==> g in s.free) && (g in s'.lru <==> g in s.lru))
    && (forall p :: p in s.table && s.table[p] != f ==> p in s'.table && s'.table[p] == s.table[p])
    && (forall p :: p != s.slots[f].page && p != s'.slots[f].page ==>
          && (p in s.disk ==> p in s'.disk && s'.disk[p] == s.disk[p])
          && (p in s.live ==> p in s'.live && s'.live[p] == s.live[p]))
  }

  /** The other frames are as they were. */
  lemma OtherFrameOk<F>(s: PoolState<F>, s': PoolState<F>, f: F, g: F)
    requires FramesOk(s) && OnlyFrame(s, s', f) && g in s.slots && g != f
    requires g in s.free || s'.slots[f].page !in s.table || s.table[s'.slots[f].page] == f
    requires f in s.free ==> s.slots[f].page == INVALID_PAGE_ID
    ensures FrameOk(s', g)
  {
    assert FrameOk(s, g) && FrameOk(s, f);
  }

  lemma PinnedOk<F>(s: PoolState<F>, f: F)
    requires PoolOk(s) && f in s.slots && f !in s.free
    ensures PoolOk(Pinned(s, f))
  {
    hide Erased, Distinct;
    var s' := Pinned(s, f);
    ErasedDistinct(s.lru, f);
    ErasedHas(s.lru, f, f);
    SetSize(s.slots, f, s'.slots[f]);
    assert FrameOk(s, f);
    forall g | g in s.slots ensures g in s'.lru <==> g in s.lru && g != f { ErasedHas(s.lru, f, g); }
    forall x | x in s'.lru ensures x in s'.slots { ErasedHas(s.lru, f, x); }
    forall g | g in s'.slots ensures FrameOk(s', g) { if g != f { OtherFrameOk(s, s', f, g); } }
    forall p | p in s'.live ensures PageOk(s', p) { assert PageOk(s, p); }
  }

  /** The caller has the page pinned, and after its last write some unpin says dirty. */
  lemma UnpinnedOk<F>(s: PoolState<F>, f: F, dirty: bool)
    requires PoolOk(s) && f in s.slots && s.slots[f].pins > 0 && (s.slots[f].pins == 1 && s.slots[f].touched ==> dirty)
    ensures PoolOk(Unpinned(s, f, dirty))
  {
    hide Erased;
    var s' := Unpinned(s, f, dirty);
    ErasedDistinct(s.lru, f);
    ErasedHas(s.lru, f, f);
    assert FrameOk(s, f);
    SetSize(s.slots, f, s'.slots[f]);
    forall g | g in s.slots ensures g in s'.lru <==> if g == f then s'.slots[f].pins == 0 else g in s.lru {
      ErasedHas(s.lru, f, g);
    }
    forall x | x in s'.lru ensures x in s'.slots { ErasedHas(s.lru, f, x); }
    forall g | g in s'.slots ensures FrameOk(s', g) { if g != f { OtherFrameOk(s, s', f, g); } }
    forall p | p in s'.live ensures PageOk(s', p) { assert PageOk(s, p); }
  }

  lemma FlushedOk<F>(s: PoolState<F>, f: F)
    requires PoolOk(s) && f in s.slots && f !in s.free
    ensures PoolOk(Flushed(s, f))
    ensures
      var p := s.slots[f].page;
      p in s.live && (!s.slots[f].touched ==> p in Flushed(s, f).disk && Flushed(s, f).disk[p] == s.live[p])
  {
    var s' := Flushed(s, f);
    assert FrameOk(s, f);
    SetSize(s.slots, f, s'.slots[f]);
    forall g | g in s'.slots ensures FrameOk(s', g) { if g != f { OtherFrameOk(s, s', f, g); } }
    forall p | p in s'.live ensures PageOk(s', p) { assert PageOk(s, p); }
  }

  lemma WrittenOk<F>(s: PoolState<F>, f: F, data: Bytes)
    requires PoolOk(s) && f in s.slots && s.slots[f].pins > 0
    ensures PoolOk(Written(s, f, data)) && s.slots[f].page in s.live
  {
    var s' := Written(s, f, data);
    assert FrameOk(s, f);
    SetSize(s.slots, f, s'.slots[f]);
    forall g | g in s'.slots ensures FrameOk(s', g) { if g != f { OtherFrameOk(s, s', f, g); } }
    forall p | p in s'.live ensures PageOk(s', p) { if p in s.live { assert PageOk(s, p); } }
  }

  /** There is a victim unless every frame is pinned. */
  lemma VictimUnlessPinned<F>(s: PoolState<F>)
    requires PoolOk(s)
    ensures AllPinned(s) <==> s.free == [] && s.lru == []
    ensures !AllPinned(s) ==>
      var f := NextVictim(s);
      f in s.slots && s.slots[f].pins == 0 && (f in s.free ==> s.slots[f].page == INVALID_PAGE_ID)
  {
    if s.free != [] { assert FrameOk(s, s.free[0]); }
    if s.lru != [] { assert FrameOk(s, s.lru[|s.lru| - 1]); }
    forall f | f in s.slots && s.free == [] && s.lru == [] ensures s.slots[f].pins > 0 { assert FrameOk(s, f); }
  }

  ghost predicate CanReplace<F>(s: PoolState<F>) {
    (s.free != [] || s.lru != []) && NextVictim(s) in s.slots
  }

  /** Using the victim for page p, which is not resident: either p is read from disk, or it is new. */
  ghost function Replaced<F>(s: PoolState<F>, p: int, data: Bytes, isNew: bool): PoolState<F>
    requires CanReplace(s)
  {
    Reused(WithoutVictim(s), NextVictim(s), p, data, isNew).(live := if isNew then s.live[p := data] else s.live)
  }

  lemma ReplacedOk<F>(s: PoolState<F>, p: int, data: Bytes, isNew: bool)
    requires PoolOk(s) && !AllPinned(s) && p !in s.table && p != INVALID_PAGE_ID
    requires if isNew then p !in s.live else p in s.live && p in s.disk && data == s.disk[p]
    ensures CanReplace(s) && PoolOk(Replaced(s, p, data, isNew))
  {
    VictimUnlessPinned(s);
    if !isNew { assert PageOk(s, p); }
    ReplacedLists(s, p, data, isNew);
    ReplacedFrames(s, p, data, isNew);
    ReplacedPages(s, p, data, isNew);
    ReplacedTable(s, p, data, isNew);
    hide ListsOk, FramesOk, PagesOk;
  }

  lemma ReplacedPages<F>(s: PoolState<F>, p: int, data: Bytes, isNew: bool)
    requires PoolOk(s) && CanReplace(s) && p !in s.table && p != INVALID_PAGE_ID && s.slots[NextVictim(s)].pins == 0
    ensures PagesOk(Replaced(s, p, data, isNew))
  {
    hide ListsOk, FramesOk, PagesOk, Distinct, NextVictim, WithoutVictim;
    VictimIs(s);
    VictimGone(s, NextVictim(s));
    var s' := Replaced(s, p, data, isNew);
    forall x | x in s'.live ensures PageOk(s', x) {
      if x in s.live { PageStays(s, x); }
    }
    AllPagesOk(s');
  }

  lemma PageStays<F>(s: PoolState<F>, x: int)
    requires PagesOk(s) && x in s.live
    ensures PageOk(s, x)
  {
  }

  lemma AllPagesOk<F>(s: PoolState<F>)
    requires forall p {:trigger PageOk(s, p)} :: p in s.live ==> PageOk(s, p)
    ensures PagesOk(s)
  {
  }

  lemma ReplacedTable<F>(s: PoolState<F>, p: int, data: Bytes, isNew: bool)
    requires PoolOk(s) && CanReplace(s) && p !in s.table && p != INVALID_PAGE_ID
    ensures TableOk(Replaced(s, p, data, isNew))
  {
    hide ListsOk, FramesOk, PagesOk, Distinct, NextVictim, WithoutVictim;
    VictimGone(s, NextVictim(s));
  }

  lemma ReplacedLists<F>(s: PoolState<F>, p: int, data: Bytes, isNew: bool)
    requires PoolOk(s) && CanReplace(s) && s.slots[NextVictim(s)].pins == 0 && p !in s.table && p != INVALID_PAGE_ID
    ensures
      var s' := Replaced(s, p, data, isNew);
      ListsOk(s') && |s'.free| + |s'.table| == |s'.slots|
  {
    hide NextVictim, WithoutVictim;
    var f := NextVictim(s);
    VictimIs(s);
    VictimGone(s, f);
    ListSizes(s);
    TableSize(s, f, p);
    SetSize(s.slots, f, Slot(p, data, 1, false, isNew));
  }

  lemma ReplacedFrames<F>(s: PoolState<F>, p: int, data: Bytes, isNew: bool)
    requires PoolOk(s) && !AllPinned(s) && (s.free != [] || s.lru != []) && p !in s.table && p != INVALID_PAGE_ID
    requires NextVictim(s) in s.slots && s.slots[NextVictim(s)].pins == 0
    requires if isNew then p !in s.live else p in s.live && p in s.disk && data == s.disk[p] == s.live[p]
    ensures FramesOk(Replaced(s, p, data, isNew))
  {
    hide ListsOk, Distinct, NextVictim, WithoutVictim, Reused;
    var f := NextVictim(s);
    var s' := Replaced(s, p, data, isNew);
    VictimIs(s);
    ReplacedOnly(s, p, data, isNew);
    ReplacedSelf(s, p, data, isNew);
    hide OnlyFrame;
    forall g | g in s'.slots ensures FrameOk(s', g) { if g != f { OtherFrameOk(s, s', f, g); } }
  }

  lemma ReplacedOnly<F>(s: PoolState<F>, p: int, data: Bytes, isNew: bool)
    requires PoolOk(s) && CanReplace(s) && p !in s.table && p != INVALID_PAGE_ID
    requires s.slots[NextVictim(s)].pins == 0
    requires if isNew then p !in s.live else p in s.live && p in s.disk && data == s.disk[p] == s.live[p]
    ensures
      var f, s' := NextVictim(s), Replaced(s, p, data, isNew);
      && OnlyFrame(s, s', f) && s'.slots.Keys == s.slots.Keys
      && s'.slots[f].page == p && (f in s.free ==> s.slots[f].page == INVALID_PAGE_ID)
  {
    hide ListsOk, Distinct, FramesOk, PagesOk, NextVictim, WithoutVictim;
    VictimIs(s);
    VictimGone(s, NextVictim(s));
  }

  lemma VictimIs<F>(s: PoolState<F>)
    requires PoolOk(s) && CanReplace(s)
    ensures FrameOk(s, NextVictim(s))
  {
  }

  lemma ReplacedSelf<F>(s: PoolState<F>, p: int, data: Bytes, isNew: bool)
    requires PoolOk(s) && CanReplace(s) && p !in s.table && p != INVALID_PAGE_ID
    requires s.slots[NextVictim(s)].pins == 0
    requires if isNew then p !in s.live else p in s.live && p in s.disk && data == s.disk[p] == s.live[p]
    ensures FrameOk(Replaced(s, p, data, isNew), NextVictim(s))
  {
    hide ListsOk, Distinct, FramesOk, PagesOk, NextVictim, WithoutVictim;
    VictimIs(s);
    VictimGone(s, NextVictim(s));
  }

  lemma ListSizes<F>(s: PoolState<F>)
    requires CanReplace(s)
    ensures
      var s' := WithoutVictim(s);
      && (forall g :: g in s'.free ==> g in s.free) && (forall g :: g in s'.lru ==> g in s.lru)
      && (s.free != [] ==> NextVictim(s) in s.free && |s'.free| + 1 == |s.free|)
      && (s.free == [] ==> s'.free == s.free)
  {
  }

  lemma VictimGone<F>(s: PoolState<F>, f: F)
    requires PoolOk(s) && (s.free != [] || s.lru != []) && f == NextVictim(s)
    ensures
      var s' := WithoutVictim(s);
      && s'.slots == s.slots && s'.table == s.table && s'.disk == s.disk && s'.live == s.live
      && Distinct(s'.free) && Distinct(s'.lru)
      && (forall g :: g in s'.free <==> g in s.free && g != f) && (forall g :: g in s'.lru <==> g in s.lru && g != f)
  {
    if s.free != [] {
      assert s.free == [f] + s.free[1..];
      assert FrameOk(s, f);
    } else {
      assert s.lru == s.lru[..|s.lru| - 1] + [f];
    }
  }

  lemma RemoveSize<V>(m: map<int, V>, k: int)
    ensures |m - {k}| == |m| - if k in m then 1 else 0
  {
    if k in m { assert m.Keys == (m - {k}).Keys + {k}; } else { assert m - {k} == m; }
  }

  lemma AddSize<V>(m: map<int, V>, k: int, v: V)
    requires k !in m
    ensures |m[k := v]| == |m| + 1
  {
    assert m[k := v].Keys == m.Keys + {k};
  }

  lemma TableSize<F>(s: PoolState<F>, f: F, p: int)
    requires PoolOk(s) && f in s.slots && p !in s.table
    requires f in s.free <==> s.slots[f].page !in s.table
    ensures |(s.table - {s.slots[f].page})[p := f]| == |s.table| + if f in s.free then 1 else 0
  {
    RemoveSize(s.table, s.slots[f].page);
    AddSize(s.table - {s.slots[f].page}, p, f);
  }

  lemma DeletedOk<F>(s: PoolState<F>, p: int)
    requires PoolOk(s) && (p in s.table ==> s.slots[s.table[p]].pins <= 0)
    ensures PoolOk(Deleted(s, p))
  {
    var s' := Deleted(s, p);
    if p in s.table {
      DeletedResident(s, p);
    } else {
      forall g | g in s'.slots ensures FrameOk(s', g) { assert FrameOk(s, g); }
      forall x | x in s'.live ensures PageOk(s', x) { assert PageOk(s, x); }
    }
  }

  lemma DeletedResident<F>(s: PoolState<F>, p: int)
    requires PoolOk(s) && p in s.table && s.slots[s.table[p]].pins <= 0
    ensures PoolOk(Deleted(s, p))
  {
    hide Erased, ListsOk;
    var s' := Deleted(s, p);
    var f := s.table[p];
    assert FrameOk(s, f);
    DeletedLists(s, p);
    forall g | g in s.slots ensures g in s'.lru <==> g in s.lru && g != f { ErasedHas(s.lru, f, g); }
    forall g | g in s'.slots ensures FrameOk(s', g) { if g != f { OtherFrameOk(s, s', f, g); } }
    forall x | x in s'.live ensures PageOk(s', x) { assert PageOk(s, x); }
  }

  lemma DeletedLists<F>(s: PoolState<F>, p: int)
    requires PoolOk(s) && p in s.table && s.slots[s.table[p]].pins <= 0
    ensures
      var s' := Deleted(s, p);
      && ListsOk(s') && |s'.free| + |s'.table| == |s'.slots| && Distinct(s.lru) && s.table[p] in s.slots
      && forall g :: g in s'.free <==> g in s.free || g == s.table[p]
  {
    hide Erased;
    var s', f := Deleted(s, p), s.table[p];
    assert FrameOk(s, f);
    ErasedDistinct(s.lru, f);
    RemoveSize(s.table, p);
    SetSize(s.slots, f, s'.slots[f]);
    forall x | x in s'.lru ensures x in s'.slots { ErasedHas(s.lru, f, x); }
  }

  ghost function EmptySlot(): Slot {
    Slot(INVALID_PAGE_ID, Zeros(), 0, false, false)
  }

  lemma {:induction false} DistinctSize<F>(s: seq<F>, keys: set<F>)
    requires Distinct(s) && forall f :: f in keys <==> f in s
    ensures |keys| == |s|
  {
    if s == [] {
      assert keys == {};
    } else {
      assert s == [s[0]] + s[1..];
      DistinctSize(s[1..], keys - {s[0]});
    }
  }

  /** Every frame of a new pool is free. */
  lemma InitialOk<F>(frames: seq<F>, slots: map<F, Slot>)
    requires Distinct(frames) && slots.Keys == Elements(frames) && forall f :: f in slots ==> slots[f] == EmptySlot()
    ensures PoolOk(PoolState(slots, map[], [], frames, map[], map[]))
  {
    var s: PoolState<F> := PoolState(slots, map[], [], frames, map[], map[]);
    DistinctSize(frames, slots.Keys);
    assert |slots| == |slots.Keys|;
    forall f | f in s.slots ensures FrameOk(s, f) {}
  }

  // ----- what the pool needs to know before a step -----

  lemma ResidentOrOnDisk<F>(s: PoolState<F>, p: int)
    requires PoolOk(s) && p in s.live
    ensures p != INVALID_PAGE_ID
    ensures if p in s.table then TableFacts(s, p) else p in s.disk && s.disk[p] == s.live[p]
  {
    assert PageOk(s, p);
    if p in s.table { TableLeadsTo(s, p); }
  }

  ghost predicate TableFacts<F>(s: PoolState<F>, p: int)
    requires p in s.table
  {
    var f := s.table[p];
    && f in s.slots && f !in s.free && s.slots[f].page == p && s.slots[f].pins >= 0 && p != INVALID_PAGE_ID
    && p in s.live && s.slots[f].data == s.live[p]
  }

  lemma TableLeadsTo<F>(s: PoolState<F>, p: int)
    requires PoolOk(s) && p in s.table
    ensures TableFacts(s, p)
  {
    assert FrameOk(s, s.table[p]);
  }

  lemma NotResident<F>(s: PoolState<F>, p: int)
    requires PoolOk(s) && p !in s.live && p != INVALID_PAGE_ID
    ensures p !in s.table
  {
    if p in s.table { TableLeadsTo(s, p); }
  }

  /** The victim does not hold page p. */
  lemma VictimPage<F>(s: PoolState<F>, p: int)
    requires PoolOk(s) && (s.free != [] || s.lru != []) && p !in s.table && p != INVALID_PAGE_ID
    ensures CanReplace(s) && s.slots[NextVictim(s)].page != p
  {
    var f := NextVictim(s);
    assert f in s.free || f in s.lru;
    assert FrameOk(s, f);
  }

  lemma DeletedLive<F>(s: PoolState<F>, p: int)
    ensures Deleted(s, p).live == s.live - {p}
    ensures p !in s.table ==> Deleted(s, p) == s.(live := s.live - {p})
  {
  }
}
