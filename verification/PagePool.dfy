/**
 * The buffer pool as the tree sees it: live pages by id, pin counts, latches and a page id counter.
 * BufferPool.dfy proves that evictions cannot be noticed by a client that keeps to a protocol: a page is written only
 * while it is pinned, and its last pin is not released before some unpin has said that it is dirty.  That the tree keeps
 * to it is required and proved here.  Every page operation reads its pages into buffers, works on their slot arrays in
 * place, and stores them back.
 */
module PagePools {
  import opened Common
  import opened TreeModel
  import opened TreeSplit
  import opened TreeMerge
  import opened BPlusTreePages

  /** Latches on pages and on the root id. */
  datatype LatchEvent = Latched(page: int) | Unlatched(page: int) | RootLatched | RootReleased

  class PagePool {
    var pages: Store
    var pins: multiset<int>
    /** Pages written since they were last unpinned as dirty.  This is not stored anywhere. */
    ghost var touched: set<int>
    var latched: set<int>
    var readers: multiset<int>
    /** What has been latched and released, in order.  This is not stored anywhere. */
    ghost var trace: seq<LatchEvent>
    var nextPageId: int
    const caps: Capacities
    const slotCount: nat

    ghost predicate Fits(n: Node) {
      |n.entries| <= slotCount && n.max < slotCount && (n.leaf || n.next == INVALID_PAGE_ID)
    }

    ghost predicate Valid()
      reads this`pages, this`nextPageId
    {
      && caps.leaf < slotCount && caps.inner < slotCount
      && nextPageId > 0
      && (forall id {:trigger pages[id]} :: id in pages ==> 0 < id < nextPageId && Fits(pages[id]))
    }

    constructor (caps: Capacities, slotCount: nat, firstId: int)
      requires caps.leaf < slotCount && caps.inner < slotCount && firstId > 0
      ensures Valid() && pages == map[] && pins == multiset{} && latched == {} && readers == multiset{} && touched == {}
      ensures this.caps == caps && nextPageId == firstId
    {
      this.caps, this.slotCount, nextPageId := caps, slotCount, firstId;
      pages, pins, latched, readers, touched, trace := map[], multiset{}, {}, multiset{}, {}, [];
    }

    lemma NextIsNew()
      requires Valid()
      ensures nextPageId > 0 && nextPageId !in pages
    {
    }

    lemma Bounds(id: int)
      requires Valid() && id in pages
      ensures 0 < id < nextPageId && Fits(pages[id]) && caps.leaf < slotCount && caps.inner < slotCount
    {
    }

    // ----- pins, latches, allocation -----

    method FetchPage(id: int)
      requires Valid() && id in pages
      modifies this`pins
      ensures Valid() && pins == old(pins) + multiset{id}
    {
      pins := pins + multiset{id};
    }

    /** The last pin of a page that has been written is not released before somebody has said that it is dirty. */
    method UnpinPage(id: int, dirty: bool)
      requires Valid() && id in pins
      requires pins[id] == 1 && id in touched ==> dirty
      modifies this`pins, this`touched
      ensures Valid() && pins == old(pins) - multiset{id}
      ensures touched == if dirty then old(touched) - {id} else old(touched)
    {
      pins := pins - multiset{id};
      if dirty { touched := touched - {id}; }
    }

    /** A fresh page, zeroed and pinned once. */
    method NewPage() returns (id: int)
      requires Valid()
      modifies this`pages, this`pins, this`touched, this`nextPageId
      ensures Valid() && id == old(nextPageId) && nextPageId == id + 1 && id !in old(pages)
      ensures pages == old(pages)[id := Node(false, 0, 0, INVALID_PAGE_ID, [])]
      ensures pins == old(pins) + multiset{id} && touched == old(touched) + {id}
    {
      id := nextPageId;
      nextPageId := nextPageId + 1;
      pages := pages[id := Node(false, 0, 0, INVALID_PAGE_ID, [])];
      pins, touched := pins + multiset{id}, touched + {id};
    }

    /** A page can be deleted only when nobody has it pinned. */
    method DeletePage(id: int) returns (ok: bool)
      requires Valid() && id in pages
      modifies this`pages, this`touched
      ensures Valid() && ok == (id !in pins)
      ensures pages == if ok then old(pages) - {id} else old(pages)
      ensures touched == if ok then old(touched) - {id} else old(touched)
    {
      if id in pins { return false; }
      pages, touched := pages - {id}, touched - {id};
      return true;
    }

    /** Write latch: nobody may hold a latch on the page, not even the caller. */
    method Latch(id: int)
      requires Valid() && id in pages && id !in latched && id !in readers
      modifies this`latched, this`trace
      ensures Valid() && latched == old(latched) + {id} && trace == old(trace) + [Latched(id)]
    {
      latched := latched + {id};
      trace := trace + [Latched(id)];
    }

    method Unlatch(id: int)
      requires Valid() && id in latched
      modifies this`latched, this`trace
      ensures Valid() && latched == old(latched) - {id} && trace == old(trace) + [Unlatched(id)]
    {
      latched := latched - {id};
      trace := trace + [Unlatched(id)];
    }

    method ReadLatch(id: int)
      requires Valid() && id in pages && id !in latched
      modifies this`readers, this`trace
      ensures Valid() && readers == old(readers) + multiset{id} && trace == old(trace) + [Latched(id)]
    {
      readers := readers + multiset{id};
      trace := trace + [Latched(id)];
    }

    method ReadUnlatch(id: int)
      requires Valid() && id in readers
      modifies this`readers, this`trace
      ensures Valid() && readers == old(readers) - multiset{id} && trace == old(trace) + [Unlatched(id)]
    {
      readers := readers - multiset{id};
      trace := trace + [Unlatched(id)];
    }

    // ----- one page -----

    method Load(id: int) returns (page: BPlusTreePage)
      requires Valid() && id in pages && id in pins
      ensures fresh(page) && fresh(page.slots) && page.Valid() && page.slots.Length == slotCount
      ensures page.pageId == id && page.View() == pages[id]
      ensures forall i :: |pages[id].entries| <= i < slotCount ==> page.slots[i] == Entry(0, 0)
    {
      page := new BPlusTreePage(id, pages[id], slotCount);
    }

    method StoreBack(page: BPlusTreePage)
      requires Valid() && page.Valid() && page.slots.Length == slotCount
      requires page.pageId in pages && page.pageId in pins
      modifies this`pages, this`touched
      ensures Valid() && pages == old(pages)[page.pageId := page.View()] && touched == old(touched) + {page.pageId}
    {
      touched := touched + {page.pageId};
      var next := if page.isLeaf then page.nextId else INVALID_PAGE_ID;
      pages := pages[page.pageId := Node(page.isLeaf, page.maxSize, page.parentId, next, page.slots[..page.size])];
    }

    method Init(id: int, isLeaf: bool, parent: int)
      requires Valid() && id in pages && id in pins
      modifies this`pages, this`touched
      ensures Valid()
      ensures pages == old(pages)[id := Node(isLeaf, caps.Of(isLeaf), parent, INVALID_PAGE_ID, [])]
      ensures touched == old(touched) + {id}
    {
      var page := Load(id);
      if isLeaf { page.InitLeaf(parent, caps.leaf); } else { page.InitInner(parent, caps.inner); }
      StoreBack(page);
    }

    method SetParent(id: int, parent: int)
      requires Valid() && id in pages && id in pins
      modifies this`pages, this`touched
      ensures Valid() && pages == old(pages)[id := old(pages)[id].(parent := parent)]
      ensures touched == old(touched) + {id}
    {
      var page := Load(id);
      page.SetParentPageId(parent);
      StoreBack(page);
    }

    method LeafInsert(id: int, key: int, value: int)
      requires Valid() && id in pages && id in pins
      requires SortedFrom(pages[id].entries, 0) && |pages[id].entries| < slotCount
      modifies this`pages, this`touched
      ensures Valid()
      ensures pages == old(pages)[id := old(pages)[id].(entries := InsertSorted(old(pages)[id].entries, Entry(key, value)))]
      ensures touched == old(touched) + {id}
    {
      var page := Load(id);
      var n := page.Insert(key, value);
      StoreBack(page);
    }

    method LeafRemove(id: int, key: int) returns (newSize: int)
      requires Valid() && id in pages && id in pins && SortedFrom(pages[id].entries, 0)
      modifies this`pages, this`touched
      ensures Valid() && id in pages && newSize == |pages[id].entries|
      ensures
        var es := old(pages)[id].entries;
        pages == if HasKey(es, key) then old(pages)[id := old(pages)[id].(entries := Without(es, LowerBound(es, key)))]
                 else old(pages)
      ensures touched == old(touched) + {id}
    {
      var page := Load(id);
      newSize := page.RemoveAndDeleteRecord(key);
      StoreBack(page);
      assert old(pages) == old(pages)[id := old(pages)[id]];
    }

    method InsertNodeAfter(q: int, oldValue: int, key: int, value: int)
      requires Valid() && q in pages && q in pins && |pages[q].entries| < slotCount
      modifies this`pages, this`touched
      ensures Valid() && pages == Attach(old(pages), q, oldValue, key, value)
      ensures touched == old(touched) + {q}
    {
      var page := Load(q);
      var n := page.InsertNodeAfter(oldValue, key, value);
      StoreBack(page);
    }

    method RemoveEntry(q: int, index: nat)
      requires Valid() && q in pages && q in pins && index < |pages[q].entries|
      modifies this`pages, this`touched
      ensures Valid()
      ensures pages == old(pages)[q := old(pages)[q].(entries := Without(old(pages)[q].entries, index))]
      ensures touched == old(touched) + {q}
    {
      var page := Load(q);
      page.RemoveAt(index);
      StoreBack(page);
    }

    /** The two pairs of a new root; the key in slot 0 stays zero. */
    method PopulateNewRoot(r: int, oldValue: int, newKey: int, newValue: int)
      requires Valid() && r in pages && r in pins && pages[r].entries == []
      modifies this`pages, this`touched
      ensures Valid()
      ensures pages == old(pages)[r := old(pages)[r].(entries := [Entry(0, oldValue), Entry(newKey, newValue)])]
      ensures touched == old(touched) + {r}
    {
      var page := Load(r);
      page.PopulateNewRoot(oldValue, newKey, newValue);
      StoreBack(page);
    }

    // ----- several pages -----

    /** Fetch a child, let it name `parent` as its parent, unpin it. */
    method AdoptChild(child: int, parent: int)
      requires Valid() && child in pages
      modifies this`pins, this`pages, this`touched
      ensures Valid() && pins == old(pins)
      ensures pages == old(pages)[child := old(pages)[child].(parent := parent)]
      ensures touched == old(touched) - {child}
    {
      FetchPage(child);
      SetParent(child, parent);
      UnpinPage(child, true);
    }

    /** The loop of MoveHalfTo and MoveAllTo: slots from.. of p go to the slots of n from `at` on. */
    method MoveSlots(page: BPlusTreePage, from: nat, recipient: BPlusTreePage, at: nat)
      requires Valid() && page != recipient && page.slots != recipient.slots
      requires page.Valid() && recipient.Valid() && page.slots.Length == recipient.slots.Length == slotCount
      requires from <= page.size && recipient.size <= at && at + page.size - from <= slotCount
      requires
        var p, n := page.pageId, recipient.pageId;
        && p in pages && n in pages && p != n
        && pages[p] == page.View() && (!page.isLeaf ==> ChildrenLive(pages, p, n, from))
      modifies this`pins, this`pages, this`touched, recipient.slots
      ensures Valid() && pins == old(pins)
      ensures Adopting(old(pages), pages, page.pageId, recipient.pageId, from, page.size)
      ensures recipient.slots[..at + page.size - from] == old(recipient.slots[..at]) + page.slots[from..page.size]
      ensures touched <= old(touched)
    {
      ghost var p, n := page.pageId, recipient.pageId;
      AdoptNone(pages, p, n, from);
      for i := from to page.size
        invariant Valid() && pins == old(pins)
        invariant recipient.slots[..at] == old(recipient.slots[..at])
        invariant recipient.slots[at..at + i - from] == page.slots[from..i]
        invariant Adopting(old(pages), pages, p, n, from, i) && touched <= old(touched)
      {
        recipient.slots[at + i - from] := page.slots[i];
        assert page.View().entries[i] == page.slots[i];
        AdoptNext(old(pages), pages, p, n, from, i);
        if !page.isLeaf {
          AdoptChild(page.slots[i].val, recipient.pageId);
        }
      }
    }

    /** Slots mid.. of p go to the empty page n; children that move get n as their parent. */
    method MoveHalfTo(p: int, n: int)
      requires Valid() && p in pages && n in pages && p != n && p in pins && n in pins
      requires
        var s := pages;
        && |s[p].entries| == s[p].max + 1 && s[p].max >= 1
        && s[n] == Node(s[p].leaf, s[p].max, s[p].parent, INVALID_PAGE_ID, [])
        && (!s[p].leaf ==> ChildrenLive(s, p, n, (s[p].max + 1) / 2))
      modifies this`pins, this`pages, this`touched
      ensures Valid() && pins == old(pins)
      ensures IsSplit(old(pages), pages, p, n, (old(pages)[p].max + 1) / 2)
      ensures touched <= old(touched) + {p, n}
    {
      hide IsSplit, Adopting, Fits;
      var page := Load(p);
      var recipient := Load(n);
      var total := page.maxSize + 1;
      var mid := total / 2;
      ghost var s := pages;
      assert page.slots[..total] == s[p].entries;
      MoveSlots(page, mid, recipient, 0);
      HalfMoved(s, pages, p, n, mid);
      assert page.slots[..mid] == s[p].entries[..mid];
      assert recipient.slots[..total - mid] == s[p].entries[mid..];
      var next := page.nextId;
      StoreResized(page, mid, n);
      StoreResized(recipient, total - mid, next);
    }

    /** Resize two pages, whose contents are then a and b. */
    method StoreTwo(page: BPlusTreePage, size: nat, next: int, page': BPlusTreePage, size': nat, next': int,
                    ghost a: Node, ghost b: Node)
      requires Valid() && page.Valid() && page.slots.Length == slotCount && page.pageId in pages && page.pageId in pins
      requires page'.Valid() && page'.slots.Length == slotCount && page'.pageId in pages && page'.pageId in pins
      requires size <= slotCount && size' <= slotCount && page != page'
      requires a == page.View().(entries := page.slots[..size], next := if page.isLeaf then next else INVALID_PAGE_ID)
      requires b == page'.View().(entries := page'.slots[..size'], next := if page'.isLeaf then next' else INVALID_PAGE_ID)
      modifies this`pages, this`touched, page`size, page`nextId, page'`size, page'`nextId
      ensures Valid() && pages == old(pages)[page.pageId := a][page'.pageId := b]
      ensures touched == old(touched) + {page.pageId, page'.pageId}
    {
      StoreResized(page, size, next);
      StoreResized(page', size', next');
    }

    /** Set size and sibling link of a page, and store it. */
    method StoreResized(page: BPlusTreePage, size: nat, next: int)
      requires Valid() && page.Valid() && page.slots.Length == slotCount && page.pageId in pages && page.pageId in pins
      requires size <= slotCount
      modifies this`pages, this`touched, page`size, page`nextId
      ensures Valid()
      ensures pages == old(pages)[page.pageId :=
        old(page.View()).(entries := page.slots[..size], next := if page.isLeaf then next else INVALID_PAGE_ID)]
      ensures touched == old(touched) + {page.pageId}
    {
      page.SetSizeAndNext(size, next);
      StoreBack(page);
    }

    method StoreBoth(page: BPlusTreePage, page': BPlusTreePage)
      requires Valid() && page.Valid() && page'.Valid() && page.slots.Length == page'.slots.Length == slotCount
      requires page.pageId in pages && page.pageId in pins && page'.pageId in pages && page'.pageId in pins
      modifies this`pages, this`touched
      ensures Valid() && pages == old(pages)[page.pageId := page.View()][page'.pageId := page'.View()]
      ensures touched == old(touched) + {page.pageId, page'.pageId}
    {
      StoreBack(page);
      StoreBack(page');
    }

    /** An internal page gets the parent's separator as the key of slot 0. */
    method TakeSeparator(page: BPlusTreePage, indexInParent: nat)
      requires Valid() && page.Valid() && page.slots.Length == slotCount && page.pageId in pages && page.pageId in pins
      requires page.View() == pages[page.pageId] && !page.isLeaf && page.size > 0
      requires page.parentId in pages && page.parentId in pins && indexInParent < |pages[page.parentId].entries|
      modifies this`pins, this`pages, this`touched, page.slots
      ensures Valid() && pins == old(pins) && page.Valid()
      ensures page.View() == old(page.View()).(entries := Moved(old(pages), page.pageId, indexInParent))
      ensures pages == old(pages)[page.pageId := page.View()]
      ensures touched == old(touched) + {page.pageId}
    {
      FetchPage(page.parentId);
      var parent := Load(page.parentId);
      page.SetKeyAt(0, parent.slots[indexInParent].key);
      UnpinPage(page.parentId, false);
      StoreBack(page);
    }

    /** All pairs of r go behind those of l; an internal page first gets the parent's separator as its first key. */
    method MoveAllTo(r: int, l: int, indexInParent: nat)
      requires Valid() && r in pages && l in pages && r != l && r in pins && l in pins
      requires
        var s := pages;
        && s[r].leaf == s[l].leaf && s[r].max == s[l].max
        && |s[l].entries| + |s[r].entries| <= s[l].max
        && (!s[r].leaf ==>
              && |s[r].entries| > 0 && ChildrenLive(s, r, l, 0)
              && s[r].parent in s && s[r].parent in pins && indexInParent < |s[s[r].parent].entries|)
      modifies this`pins, this`pages, this`touched
      ensures Valid() && pins == old(pins)
      ensures MovedAll(old(pages), pages, l, r, Moved(old(pages), r, indexInParent))
      ensures touched <= old(touched) + {l, r}
    {
      hide MovedAll, Adopting, Fits;
      var page := Load(r);
      var recipient := Load(l);
      var start := recipient.size;
      ghost var s, moved := pages, Moved(pages, r, indexInParent);
      if page.isLeaf {
        assert s == s[r := s[r].(entries := moved)];
      } else {
        TakeSeparator(page, indexInParent);
      }
      ghost var s0 := pages;
      assert page.slots[..page.size] == moved && recipient.slots[..start] == s[l].entries;
      MoveSlots(page, 0, recipient, start);
      AllMoved(s, s0, pages, l, r, moved);
      ghost var left := s[l].(entries := s[l].entries + moved, next := if s[l].leaf then s[r].next else INVALID_PAGE_ID);
      StoreTwo(recipient, start + page.size, page.nextId, page, 0, page.nextId, left, s[r].(entries := []));
    }

    /** Find page q and give one of its slots another key. */
    method SetKeyAt(q: int, index: nat, key: int)
      requires Valid() && q in pages && index < |pages[q].entries|
      modifies this`pages, this`pins, this`touched
      ensures Valid() && pins == old(pins) && pages == KeySet(old(pages), q, index, key)
      ensures touched == old(touched) - {q}
    {
      FetchPage(q);
      var page := Load(q);
      page.SetKeyAt(index, key);
      StoreBack(page);
      UnpinPage(q, true);
    }

    /** Find page q and give the slot of a child another key. */
    method SetKeyOf(q: int, child: int, key: int)
      requires Valid() && q in pages && ValueIndex(pages[q].entries, child) >= 0
      modifies this`pages, this`pins, this`touched
      ensures Valid() && pins == old(pins) && touched == old(touched) - {q}
      ensures pages == KeySet(old(pages), q, ValueIndex(old(pages)[q].entries, child), key)
    {
      FetchPage(q);
      var page := Load(q);
      var index := page.ValueIndexOf(child);
      page.SetKeyAt(index, key);
      StoreBack(page);
      UnpinPage(q, true);
    }

    /** Store two pages between which the pair e was moved; on internal pages its child follows. */
    method StorePassed(page: BPlusTreePage, recipient: BPlusTreePage, e: Entry)
      requires Valid() && page.Valid() && recipient.Valid() && page.slots.Length == recipient.slots.Length == slotCount
      requires
        var p, n := page.pageId, recipient.pageId;
        && p in pages && p in pins && n in pages && n in pins && p != n
        && page.View() == pages[p].(entries := page.View().entries)
        && recipient.View() == pages[n].(entries := recipient.View().entries)
        && (!page.isLeaf ==> e.val in pages)
      modifies this`pages, this`pins, this`touched
      ensures Valid() && pins == old(pins)
      ensures pages ==
        PairPassed(old(pages), page.pageId, page.View().entries, recipient.pageId, recipient.View().entries, e)
      ensures touched <= old(touched) + {page.pageId, recipient.pageId}
    {
      StoreBoth(page, recipient);
      if !page.isLeaf {
        AdoptChild(e.val, recipient.pageId);
      }
    }

    /** Take the first pair off r and put it behind the pairs of l. */
    method PassFirst(r: int, l: int) returns (page: BPlusTreePage)
      requires Valid() && r in pages && l in pages && l != r && |pages[r].entries| > 1 && r in pins && l in pins
      requires |pages[l].entries| + 1 <= pages[l].max && (!pages[r].leaf ==> pages[r].entries[0].val in pages)
      modifies this`pins, this`pages, this`touched
      ensures Valid() && pins == old(pins) && fresh(page) && fresh(page.slots) && page.Valid() && page.pageId == r
      ensures page.View() == old(pages)[r].(entries := old(pages)[r].entries[1..])
      ensures
        var s := old(pages);
        pages == PairPassed(s, r, s[r].entries[1..], l, s[l].entries + [s[r].entries[0]], s[r].entries[0])
      ensures touched <= old(touched) + {l, r}
    {
      hide PairPassed;
      page := Load(r);
      var recipient := Load(l);
      var e := page.slots[0];
      assert e == pages[r].entries[0];
      page.DropFirst();
      recipient.CopyLastFrom(e);
      StorePassed(page, recipient, e);
    }

    /** The first pair of r goes to the end of l; r's new first key becomes its separator. */
    method MoveFirstToEndOf(r: int, l: int, ghost q: int, ghost i: nat)
      requires Valid() && r in pages && |pages[r].entries| > 1 && CanShift(pages, q, i, l, r, pages[r].entries[0])
      requires r in pins && l in pins && ValueIndex(pages[q].entries, r) == i + 1
      requires |pages[l].entries| + 1 <= pages[l].max
      modifies this`pins, this`pages, this`touched
      ensures Valid() && pins == old(pins)
      ensures ShiftedLeft(old(pages), pages, q, i, l, r)
      ensures touched <= old(touched) + {l, r}
    {
      hide ShiftedLeft, PairPassed, KeySet;
      PassedLeft(pages, q, i, l, r);
      var page := PassFirst(r, l);
      assert page.slots[0] == page.View().entries[0];
      SetKeyOf(page.parentId, r, page.slots[0].key);
    }

    /** Take the last pair off l and put it before the pairs of r. */
    method PassLast(l: int, r: int) returns (recipient: BPlusTreePage)
      requires Valid() && r in pages && l in pages && l != r && |pages[l].entries| > 1 && r in pins && l in pins
      requires |pages[r].entries| + 1 <= pages[r].max
      requires pages[l].leaf == pages[r].leaf
      requires (!pages[l].leaf ==> pages[l].entries[|pages[l].entries| - 1].val in pages)
      modifies this`pins, this`pages, this`touched
      ensures Valid() && pins == old(pins) && fresh(recipient) && recipient.Valid() && recipient.pageId == r
      ensures
        var s := old(pages);
        var n := |s[l].entries| - 1;
        && recipient.View() == s[r].(entries := [s[l].entries[n]] + s[r].entries)
        && pages == PairPassed(s, l, s[l].entries[..n], r, [s[l].entries[n]] + s[r].entries, s[l].entries[n])
      ensures touched <= old(touched) + {l, r}
    {
      hide PairPassed;
      var page := Load(l);
      recipient := Load(r);
      var e := page.slots[page.size - 1];
      assert e == page.View().entries[|page.View().entries| - 1];
      page.DropLast();
      recipient.CopyFirst(e);
      StorePassed(page, recipient, e);
    }

    /** The last pair of l goes to the front of r; its key becomes r's separator. */
    method MoveLastToFrontOf(l: int, r: int, parentIndex: nat, ghost q: int, ghost i: nat)
      requires Valid() && l in pages && |pages[l].entries| > 1
      requires CanShift(pages, q, i, l, r, pages[l].entries[|pages[l].entries| - 1]) && parentIndex == i + 1
      requires r in pins && l in pins
      requires |pages[r].entries| + 1 <= pages[r].max && (!pages[r].leaf ==> |pages[r].entries| + 1 < pages[r].max)
      modifies this`pins, this`pages, this`touched
      ensures Valid() && pins == old(pins)
      ensures ShiftedRight(old(pages), pages, q, i, l, r)
      ensures touched <= old(touched) + {l, r}
    {
      hide ShiftedRight, PairPassed, KeySet;
      PassedRight(pages, q, i, l, r);
      var recipient := PassLast(l, r);
      assert recipient.slots[0] == recipient.View().entries[0];
      SetKeyAt(recipient.parentId, parentIndex, recipient.slots[0].key);
    }
  }
}
