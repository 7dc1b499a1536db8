/** The buffer pool: frames that cache disk pages, with pins, dirty flags and least-recently-used replacement. */
module BufferPools {
  import opened Common
  import opened LruReplacers
  import opened PoolStates

  class Frame {
    var data: Bytes
    var pageId: int
    var pinCount: int
    var isDirty: bool

    constructor ()
      ensures data == Zeros() && pageId == INVALID_PAGE_ID && pinCount == 0 && !isDirty
    {
      data, pageId, pinCount, isDirty := Zeros(), INVALID_PAGE_ID, 0, false;
    }
  }

  /** The frames of a new pool. */
  method MakeFrames(n: nat) returns (all: seq<Frame>)
    ensures |all| == n && Distinct(all) && fresh(all)
    ensures forall f :: f in all ==> f.pageId == INVALID_PAGE_ID && f.data == Zeros() && f.pinCount == 0 && !f.isDirty
  {
    all := [];
    for i := 0 to n
      invariant |all| == i && Distinct(all) && fresh(all)
      invariant forall f :: f in all ==> f.pageId == INVALID_PAGE_ID && f.data == Zeros() && f.pinCount == 0 && !f.isDirty
    {
      var f := new Frame();
      all := all + [f];
    }
  }

  class BufferPoolManager {
    const frames: seq<Frame>
    var pageTable: map<int, Frame>
    /** The replacer and the free list, by the sequences they stand for. */
    var lru: seq<Frame>
    var freeList: seq<Frame>
    var disk: map<int, Bytes>
    var nextPageId: int
    ghost var slots: map<Frame, Slot>
    ghost var live: map<int, Bytes>
    /** What the replacer has been called for, in order. */
    ghost var calls: seq<Op<Frame>>

    ghost function State(): PoolState<Frame>
      reads this
    {
      PoolState(slots, pageTable, lru, freeList, disk, live)
    }

    /** `slots` is what the frames say. */
    ghost predicate Mirrored()
      reads this`slots, slots.Keys
    {
      forall f :: f in slots ==>
        && slots[f].page == f.pageId && slots[f].data == f.data && slots[f].pins == f.pinCount
          && slots[f].dirty == f.isDirty
    }

    ghost predicate Valid()
      reads this, slots.Keys
    {
      Mirrored() && PoolOk(State()) && Bounded() && Ranked()
    }

    /** The replacer holds what such calls leave in it. */
    ghost predicate Ranked()
      reads this`lru, this`calls
    {
      lru == Replay(calls)
    }

    /** Every frame in the replacer was unpinned after frame f. */
    ghost predicate UnpinnedBefore(calls: seq<Op<Frame>>, f: Frame)
      reads this`lru
    {
      LastInsert(calls, f) >= 0 && forall g :: g in lru ==> LastInsert(calls, f) < LastInsert(calls, g)
    }

    ghost predicate Bounded()
      reads this`slots, this`live, this`nextPageId
    {
      && nextPageId > INVALID_PAGE_ID
      && (forall p :: p in live ==> p < nextPageId)
      && (forall f :: f in frames ==> f in slots)
    }

    lemma MirrorAt(f: Frame)
      requires Mirrored() && f in slots
      ensures slots[f].page == f.pageId && slots[f].data == f.data && slots[f].pins == f.pinCount
        && slots[f].dirty == f.isDirty
    {
    }

    /** Set what a frame holds and its bookkeeping. */
    method Store(tar: Frame, page: int, data: Bytes, pins: int, dirty: bool, ghost touched: bool)
      requires Mirrored() && tar in slots
      modifies this`slots, tar
      ensures Mirrored() && slots == old(slots)[tar := Slot(page, data, pins, dirty, touched)]
        && slots.Keys == old(slots.Keys)
    {
      tar.pageId, tar.data, tar.pinCount, tar.isDirty := page, data, pins, dirty;
      slots := slots[tar := Slot(page, data, pins, dirty, touched)];
    }

    /** All frames start on the free list. */
    constructor (poolSize: nat, firstId: int)
      requires firstId > INVALID_PAGE_ID
      ensures Valid() && live == map[] && nextPageId == firstId && |frames| == poolSize == |slots| && fresh(slots.Keys)
      ensures pageTable == map[] && calls == []
    {
      var all := MakeFrames(poolSize);
      frames, freeList, lru, pageTable, disk, nextPageId := all, all, [], map[], map[], firstId;
      slots, live, calls := map f | f in all :: EmptySlot(), map[], [];
      new;
      InitialOk(frames, slots);
    }

    // ----- the disk -----

    function ReadPage(p: int): Bytes
      reads this`disk
    {
      if p in disk then disk[p] else Zeros()
    }

    method WritePage(p: int, data: Bytes)
      modifies this`disk
      ensures disk == old(disk)[p := data]
    {
      disk := disk[p := data];
    }

    // ----- replacement -----

    /** LRUReplacer::Size. */
    function ReplacerSize(): int {
      1
    }

    /**
     * A free frame, or else the frame unpinned least recently, or null.  The replacer never says that it is empty,
     * and then it leaves the result as it is.
     */
    method GetVictimPage() returns (tar: Frame?)
      requires Valid()
      modifies this`lru, this`calls, this`freeList
      ensures tar == null <==> AllPinned(old(State()))
      ensures tar == null ==> lru == old(lru) && freeList == old(freeList)
      ensures tar != null ==>
        && (old(freeList) != [] || old(lru) != []) && tar == NextVictim(old(State()))
          && State() == WithoutVictim(old(State()))
        && tar in slots && tar.pinCount == 0
      ensures old(freeList) != [] ==> tar == old(freeList)[0] && freeList == old(freeList)[1..]
      ensures Ranked() && calls == old(calls) + if old(freeList) == [] then [Op.Victim] else []
      ensures tar != null && old(freeList) == [] ==> UnpinnedBefore(old(calls), tar)
    {
      hide Replay, LastInsert;
      VictimUnlessPinned(State());
      tar := null;
      if freeList == [] {
        if ReplacerSize() == 0 { return null; }
        ReplayByRecency(calls);
        ReplayNext(calls, Op.Victim);
        calls := calls + [Op.Victim];
        if lru != [] {
          tar := lru[|lru| - 1];
          lru := lru[..|lru| - 1];
        }
      } else {
        tar := freeList[0];
        freeList := freeList[1..];
        assert tar.pageId == INVALID_PAGE_ID;
      }
    }

    /** Write the victim back if it is dirty, and let the page table lead from p to it. */
    method TakeOver(tar: Frame, p: int)
      requires Mirrored() && tar in slots
      modifies this`disk, this`pageTable
      ensures disk == if tar.isDirty then old(disk)[tar.pageId := tar.data] else old(disk)
      ensures pageTable == (old(pageTable) - {tar.pageId})[p := tar]
    {
      if tar.isDirty {
        WritePage(tar.pageId, tar.data);
      }
      pageTable := (pageTable - {tar.pageId})[p := tar];
    }

    /** Use a victim frame for page p, which is new or read from disk. */
    method UseFrame(tar: Frame, p: int, isNew: bool)
      requires Mirrored() && tar in slots && tar.pageId != p
      modifies this`disk, this`pageTable, this`slots, tar
      ensures Mirrored() && slots.Keys == old(slots.Keys) && tar.pageId == p && tar.pinCount == 1 && !tar.isDirty
      ensures p in pageTable && pageTable[p] == tar
      ensures tar.data == if isNew then Zeros() else old(ReadPage(p))
      ensures State() == Reused(old(State()), tar, p, tar.data, isNew)
    {
      hide Mirrored;
      MirrorAt(tar);
      TakeOver(tar, p);
      var data := if isNew then Zeros() else ReadPage(p);
      Store(tar, p, data, 1, false, isNew);
      MirrorAt(tar);
    }

    lemma EraseCalled(tar: Frame)
      requires Ranked()
      ensures Erased(lru, tar) == Replay(calls + [Op.Erase(tar)])
    {
      ReplayNext(calls, Op.Erase(tar));
    }

    /** The frame of page p becomes free. */
    method Vacate(tar: Frame, p: int)
      requires Mirrored() && p in pageTable && tar == pageTable[p] && tar in slots && tar.pinCount == 0
      requires Bounded() && Ranked()
      modifies this`lru, this`calls, this`freeList, this`slots, this`pageTable, tar
      ensures Mirrored() && Bounded() && slots.Keys == old(slots.Keys) && live == old(live)
      ensures State().(live := live - {p}) == Deleted(old(State()), p)
      ensures calls == old(calls) + [Op.Erase(tar)] && Ranked() && freeList == old(freeList) + [tar]
    {
      hide Mirrored, Erased, Replay;
      EraseCalled(tar);
      lru := Erased(lru, tar);
      calls := calls + [Op.Erase(tar)];
      pageTable := pageTable - {p};
      Store(tar, INVALID_PAGE_ID, Zeros(), tar.pinCount, false, false);
      freeList := freeList + [tar];
    }

    // ----- the interface -----

    /** Pin a page that is in the pool. */
    method Pin(tar: Frame)
      requires Valid() && tar in slots && tar !in freeList
      modifies this`lru, this`calls, this`slots, tar
      ensures Valid() && State() == Pinned(old(State()), tar) && slots.Keys == old(slots.Keys)
      ensures tar.pageId == old(tar.pageId) && tar.data == old(tar.data) && tar.pinCount == old(tar.pinCount) + 1
      ensures tar.isDirty == old(tar.isDirty)
      ensures calls == old(calls) + [Op.Erase(tar)]
    {
      hide PoolOk, Erased, Mirrored, Replay;
      EraseCalled(tar);
      MirrorAt(tar);
      PinnedOk(State(), tar);
      Store(tar, tar.pageId, tar.data, tar.pinCount + 1, tar.isDirty, slots[tar].touched);
      MirrorAt(tar);
      lru := Erased(lru, tar);
      calls := calls + [Op.Erase(tar)];
    }

    /**
     * Fetch a live page: the bytes last left in it, whatever happened to its frame in between.  Null exactly if the
     * page is not in the pool and every frame is pinned.
     */
    method FetchPage(p: int) returns (tar: Frame?)
      requires Valid() && p in live
      modifies this`lru, this`calls, this`freeList, this`slots, this`disk, this`pageTable, slots.Keys
      ensures Valid() && slots.Keys == old(slots.Keys)
      ensures tar == null <==> p !in old(pageTable) && AllPinned(old(State()))
      ensures tar == null ==> State() == old(State())
      ensures tar != null ==> tar in slots && tar.pageId == p && tar.data == live[p] && tar.pinCount > 0
      ensures tar != null ==> p in pageTable && pageTable[p] == tar
      ensures p in old(pageTable) ==>
        && tar != null && tar == old(pageTable)[p] && State() == Pinned(old(State()), tar)
        && tar.pinCount == old(pageTable[p].pinCount) + 1 && tar.isDirty == old(pageTable[p].isDirty)
      ensures p !in old(pageTable) && tar != null ==> tar.pinCount == 1 && !tar.isDirty
      ensures p !in old(pageTable) && tar != null ==>
        CanReplace(old(State())) && State() == Replaced(old(State()), p, live[p], false)
      ensures calls == old(calls) +
        if p in old(pageTable) then [Op.Erase(old(pageTable)[p])] else if old(freeList) == [] then [Op.Victim] else []
      ensures p !in old(pageTable) && old(freeList) == [] && tar != null ==> UnpinnedBefore(old(calls), tar)
    {
      hide PoolOk, Erased, NextVictim, WithoutVictim, Reused, AllPinned, Replaced, Mirrored, Bounded, UnpinnedBefore,
           Ranked;
      ResidentOrOnDisk(State(), p);
      if p in pageTable {
        tar := pageTable[p];
        MirrorAt(tar);
        Pin(tar);
        return;
      }
      tar := Bring(p);
    }

    /** Read a page that is not in the pool into a victim frame. */
    method Bring(p: int) returns (tar: Frame?)
      requires Valid() && p in live && p !in pageTable
      modifies this`lru, this`calls, this`freeList, this`slots, this`disk, this`pageTable, slots.Keys
      ensures Valid() && slots.Keys == old(slots.Keys)
      ensures tar == null <==> AllPinned(old(State()))
      ensures tar == null ==> State() == old(State())
      ensures tar != null ==>
        tar in slots && tar.pageId == p && tar.data == live[p] && tar.pinCount == 1 && !tar.isDirty
      ensures tar != null ==> p in pageTable && pageTable[p] == tar
      ensures tar != null ==> CanReplace(old(State())) && State() == Replaced(old(State()), p, live[p], false)
      ensures calls == old(calls) + if old(freeList) == [] then [Op.Victim] else []
      ensures old(freeList) == [] && tar != null ==> UnpinnedBefore(old(calls), tar)
    {
      hide PoolOk, Erased, AllPinned, Mirrored, NextVictim, Reused, WithoutVictim, LastInsert, Replay;
      ghost var s := State();
      ResidentOrOnDisk(s, p);
      tar := GetVictimPage();
      if tar == null { return; }
      MirrorAt(tar);
      ReplacedOk(s, p, disk[p], false);
      VictimPage(s, p);
      UseFrame(tar, p, false);
    }

    /** A new page, zeroed and pinned; null exactly if every frame is pinned. */
    method NewPage() returns (tar: Frame?, p: int)
      requires Valid()
      modifies this`lru, this`calls, this`freeList, this`slots, this`disk, this`pageTable, this`live, this`nextPageId, slots.Keys
      ensures Valid() && slots.Keys == old(slots.Keys)
      ensures tar == null <==> AllPinned(old(State()))
      ensures tar == null ==> State() == old(State()) && nextPageId == old(nextPageId)
      ensures tar != null ==>
        && p == old(nextPageId) && p !in old(live) && nextPageId == p + 1 && live == old(live)[p := Zeros()]
        && tar in slots && tar.pageId == p && tar.data == Zeros() && tar.pinCount == 1 && !tar.isDirty
        && p in pageTable && pageTable[p] == tar
      ensures tar != null ==> CanReplace(old(State())) && State() == Replaced(old(State()), p, Zeros(), true)
      ensures calls == old(calls) + if old(freeList) == [] then [Op.Victim] else []
      ensures old(freeList) == [] && tar != null ==> UnpinnedBefore(old(calls), tar)
    {
      hide PoolOk, Erased, AllPinned, Mirrored, NextVictim, Reused, WithoutVictim, LastInsert, Replay;
      ghost var s := State();
      p := INVALID_PAGE_ID;
      tar := GetVictimPage();
      if tar == null { return; }
      p := nextPageId;
      nextPageId := nextPageId + 1;
      NotResident(s, p);
      MirrorAt(tar);
      VictimPage(s, p);
      ReplacedOk(s, p, Zeros(), true);
      UseFrame(tar, p, true);
      live := live[p := Zeros()];
    }

    lemma InsertCalled(tar: Frame)
      requires Ranked()
      ensures [tar] + Erased(lru, tar) == Replay(calls + [Op.Insert(tar)])
    {
      ReplayNext(calls, Op.Insert(tar));
    }

    /**
     * Unpin a page.  Whoever has written the page says so; what matters is that the last pin is not released before
     * somebody has.
     */
    method UnpinPage(p: int, isDirty: bool) returns (ok: bool)
      requires Valid()
      requires p in pageTable ==>
        var slot := slots[pageTable[p]];
        slot.pins > 0 && (slot.pins == 1 && slot.touched ==> isDirty)
      modifies this`lru, this`calls, this`slots, slots.Keys
      ensures Valid() && ok == (p in pageTable) && slots.Keys == old(slots.Keys)
      ensures State() == if ok then Unpinned(old(State()), pageTable[p], isDirty) else old(State())
      ensures ok ==>
        var tar := pageTable[p];
        tar.pinCount == old(pageTable[p].pinCount) - 1 && tar.isDirty == (old(pageTable[p].isDirty) || isDirty)
      ensures calls == old(calls) + if ok && old(slots[pageTable[p]]).pins == 1 then [Op.Insert(pageTable[p])] else []
    {
      hide PoolOk, Erased, Mirrored, Replay;
      if p !in pageTable { return false; }
      var tar := pageTable[p];
      TableLeadsTo(State(), p);
      MirrorAt(tar);
      UnpinnedOk(State(), tar, isDirty);
      Store(tar, tar.pageId, tar.data, tar.pinCount - 1, tar.isDirty || isDirty, slots[tar].touched && !isDirty);
      MirrorAt(tar);
      if tar.pinCount == 0 {
        InsertCalled(tar);
        lru := [tar] + Erased(lru, tar);
        calls := calls + [Op.Insert(tar)];
      }
      return true;
    }

    /** Write a page that is in the pool to disk, if it is dirty. */
    method FlushPage(p: int) returns (ok: bool)
      requires Valid()
      modifies this`disk, this`slots, slots.Keys
      ensures Valid() && ok == (p in pageTable)
      ensures State() == if ok then Flushed(old(State()), pageTable[p]) else old(State())
      ensures ok ==> !pageTable[p].isDirty
      ensures ok && !old(slots[pageTable[p]].touched) ==> p in live && p in disk && disk[p] == live[p]
    {
      hide PoolOk, Mirrored;
      if p !in pageTable { return false; }
      var tar := pageTable[p];
      TableLeadsTo(State(), p);
      MirrorAt(tar);
      FlushedOk(State(), tar);
      if tar.isDirty {
        WritePage(p, tar.data);
        Store(tar, p, tar.data, tar.pinCount, false, false);
      }
      return true;
    }

    /** Give a page up, unless it is pinned; its frame is free then. */
    method DeletePage(p: int) returns (ok: bool)
      requires Valid()
      modifies this`lru, this`calls, this`freeList, this`slots, this`pageTable, this`live, slots.Keys
      ensures Valid() && ok == !(p in old(pageTable) && old(slots[pageTable[p]].pins) > 0)
      ensures State() == if ok then Deleted(old(State()), p) else old(State())
      ensures freeList == old(freeList) + if ok && p in old(pageTable) then [old(pageTable)[p]] else []
      ensures calls == old(calls) + if ok && p in old(pageTable) then [Op.Erase(old(pageTable)[p])] else []
    {
      hide PoolOk, Mirrored, Deleted, Bounded, Ranked;
      if p in pageTable {
        var tar := pageTable[p];
        TableLeadsTo(State(), p);
        MirrorAt(tar);
        if tar.pinCount > 0 { return false; }
        FreeFrame(tar, p);
      } else {
        ForgetAbsent(p);
      }
      return true;
    }

    /** Give up a page that is not in the pool. */
    method ForgetAbsent(p: int)
      requires Valid() && p !in pageTable
      modifies this`live
      ensures Valid() && State() == Deleted(old(State()), p)
    {
      hide PoolOk, Mirrored, Ranked, Erased;
      DeletedOk(State(), p);
      live := live - {p};
    }

    /** Give up a page that is in the pool. */
    method FreeFrame(tar: Frame, p: int)
      requires Valid() && p in pageTable && tar == pageTable[p] && tar in slots && tar.pinCount == 0
      modifies this`lru, this`calls, this`freeList, this`slots, this`pageTable, this`live, tar
      ensures freeList == old(freeList) + [tar]
      ensures Valid() && State() == Deleted(old(State()), p) && calls == old(calls) + [Op.Erase(tar)]
    {
      hide PoolOk, Mirrored, Deleted, Bounded, Ranked;
      MirrorAt(tar);
      DeletedOk(State(), p);
      Vacate(tar, p);
      Forget(p);
    }

    /** DeallocatePage does nothing; the page is not live any more. */
    method Forget(p: int)
      requires Bounded()
      modifies this`live
      ensures live == old(live) - {p} && Bounded()
    {
      live := live - {p};
    }

    /** A client writes to a page that it has pinned. */
    method Write(tar: Frame, data: Bytes)
      requires Valid() && tar in slots && tar.pinCount > 0
      modifies this`slots, this`live, tar
      ensures Valid() && State() == Written(old(State()), tar, data) && live == old(live)[tar.pageId := data]
    {
      hide PoolOk, Mirrored;
      MirrorAt(tar);
      WrittenOk(State(), tar, data);
      live := live[tar.pageId := data];
      Store(tar, tar.pageId, data, tar.pinCount, tar.isDirty, true);
    }

    /** The debug check: it does not look at the first frame. */
    method CheckAllUnpinned() returns (ok: bool)
      requires Valid()
      ensures ok <==> forall i :: 1 <= i < |frames| ==> frames[i].pinCount == 0
    {
      ok := true;
      var i := 1;
      while i < |frames|
        invariant 1 <= i && (ok <==> forall j :: 1 <= j < i && j < |frames| ==> frames[j].pinCount == 0)
      {
        if frames[i].pinCount != 0 { ok := false; }
        i := i + 1;
      }
    }
  }
}
