/** The B+ tree index: search, insertion and deletion over the page pool, with latch crabbing. */
module BPlusTrees {
  import opened Common
  import opened TreeModel
  import opened TreeSplit
  import opened TreeMerge
  import opened TreeState
  import opened PagePools

  /** What a transaction carries for the index: the latched pages in order, and the pages to delete at the end. */
  class Transaction {
    var pageSet: seq<int>
    var deletedPageSet: set<int>

    constructor ()
      ensures pageSet == [] && deletedPageSet == {}
    {
      pageSet, deletedPageSet := [], {};
    }

    ghost function Held(): set<int>
      reads this`pageSet
    {
      Elements(pageSet)
    }
  }

  lemma TakeFirst(s: seq<int>, i: nat)
    requires i < |s| && Distinct(s)
    ensures multiset(s[i..]) == multiset{s[i]} + multiset(s[i + 1..])
    ensures s[i] !in Elements(s[i + 1..]) && Elements(s[i..]) == Elements(s[i + 1..]) + {s[i]}
    ensures multiset(s[i + 1..])[s[i]] == 0
  {
    assert s[i..] == [s[i]] + s[i + 1..];
  }

  /** After releasing the first i pages of ps: what is still latched, pinned, marked for deletion and live. */
  ghost predicate Released(ps: seq<int>, i: nat, base: multiset<int>, keep: set<int>, deleted: set<int>, pages: Store,
                           latched: set<int>, pins: multiset<int>, deletedNow: set<int>, now: Store)
  {
    && i <= |ps| && Distinct(ps) && deleted <= Elements(ps) <= pages.Keys && keep !! Elements(ps)
    && latched == Elements(ps[i..]) + keep && pins == base + multiset(ps[i..])
    && (forall p :: p in deleted ==> p !in base)
    && deletedNow == deleted * Elements(ps[i..])
    && now == pages - (deleted - Elements(ps[i..]))
  }

  lemma ReleaseNext(ps: seq<int>, i: nat, base: multiset<int>, keep: set<int>, deleted: set<int>, pages: Store,
                    latched: set<int>, pins: multiset<int>, deletedNow: set<int>, now: Store)
    requires Released(ps, i, base, keep, deleted, pages, latched, pins, deletedNow, now) && i < |ps|
    ensures ps[i] in now && ps[i] in latched && ps[i] in pins && (ps[i] in deletedNow ==> pins[ps[i]] == 1)
    ensures Released(ps, i + 1, base, keep, deleted, pages,
                     latched - {ps[i]}, pins - multiset{ps[i]}, deletedNow - {ps[i]}, now - deletedNow * {ps[i]})
  {
    var p := ps[i];
    assert p in deleted ==> p !in base;
    TakeFirst(ps, i);
    assert pins[p] == base[p] + multiset{p}[p] + multiset(ps[i + 1..])[p];
  }

  /** What is latched is the page set; it has one pin on each of its pages, besides the pins in `base`. */
  ghost predicate Latches(pageSet: seq<int>, latched: set<int>, readers: multiset<int>, pins: multiset<int>,
                          base: multiset<int>, next: int)
  {
    && readers == multiset{} && Distinct(pageSet) && latched == Elements(pageSet)
    && pins == base + multiset(pageSet)
    && forall p :: p in base ==> p < next
  }

  lemma LatchesLater(pageSet: seq<int>, latched: set<int>, readers: multiset<int>, pins: multiset<int>,
                     base: multiset<int>, next: int, next': int)
    requires Latches(pageSet, latched, readers, pins, base, next) && next <= next'
    ensures Latches(pageSet, latched, readers, pins, base, next')
    ensures Elements(pageSet) <= set p | p in pins
  {
  }

  lemma LatchesPinned(pageSet: seq<int>, latched: set<int>, readers: multiset<int>, pins: multiset<int>,
                      base: multiset<int>, next: int, q: int)
    requires Latches(pageSet, latched, readers, pins, base, next) && q < next
    ensures Latches(pageSet, latched, readers, pins + multiset{q}, base + multiset{q}, next)
  {
  }

  /** One of the pins goes. */
  lemma PinGone(base: multiset<int>, a: int, keep: multiset<int>)
    ensures base + multiset{a} + keep - multiset{a} == base + keep
  {
  }

  /** A page leaves the tree and is marked for deletion. */
  lemma Retired(pages: set<int>, tree: set<int>, deleted: set<int>, r: int)
    requires pages == tree + deleted && tree !! deleted && r in tree
    ensures pages == (tree - {r}) + (deleted + {r}) && (tree - {r}) !! (deleted + {r})
  {
  }

  /** The root id is released if it is latched. */
  function RootRelease(locked: nat): seq<LatchEvent> {
    if locked > 0 then [RootReleased] else []
  }

  function ReleaseAll(ps: seq<int>): seq<LatchEvent> {
    seq(|ps|, i requires 0 <= i < |ps| => Unlatched(ps[i]))
  }

  lemma ReleaseAllNext(ps: seq<int>, i: nat)
    requires i < |ps|
    ensures ReleaseAll(ps[..0]) == [] && ps[..|ps|] == ps && ps[|ps|..] == []
    ensures ReleaseAll(ps[..i + 1]) == ReleaseAll(ps[..i]) + [Unlatched(ps[i])]
  {
  }

  class BPlusTree {
    const pool: PagePool
    var root: int
    var rootLocked: nat
    ghost var lab: Labels
    const name: string
    /** The records of the header page: the root ids of indexes and tables, by name. */
    var header: map<string, int>
    ghost var contents: map<int, int>

    // ----- invariants -----

    /**
     * Between operations: the pages of the pool are exactly the pages of a tree that represents `contents`, and the
     * pool has been told of everything that was written.
     */
    ghost predicate Tree()
      reads this`root, this`lab, this`contents, pool`pages, pool`nextPageId, pool`touched
    {
      && pool.Valid() && pool.touched == {}
      && if root == INVALID_PAGE_ID then lab == map[] && pool.pages == map[] && contents == map[]
         else TreeFine(pool.caps, pool.pages, lab, root, contents) && pool.pages.Keys == lab.Keys
    }

    /** Nobody is working on the tree: nothing latched, no page of the tree pinned. */
    ghost predicate Idle()
      reads this, pool
    {
      && Tree() && rootLocked == 0 && pool.latched == {} && pool.readers == multiset{}
      && forall p :: p in pool.pins ==> p < pool.nextPageId && p !in pool.pages
    }

    /**
     * While an operation runs, its page set is exactly what is latched, and each of its pages is pinned once for
     * that; `base` are the other pins.  What has been written and not unpinned as dirty yet is in the page set.
     */
    ghost predicate Running(txn: Transaction, base: multiset<int>)
      reads this`rootLocked, pool, txn
    {
      && pool.Valid() && rootLocked <= 1
      && Latches(txn.pageSet, pool.latched, pool.readers, pool.pins, base, pool.nextPageId)
      && txn.Held() <= pool.pages.Keys && txn.deletedPageSet <= txn.Held() && pool.touched <= txn.Held()
    }

    constructor (name: string, header: map<string, int>, caps: Capacities, slotCount: nat, firstId: int)
      requires caps.leaf < slotCount && caps.inner < slotCount && firstId > 0
      ensures Idle() && contents == map[] && fresh(pool) && this.name == name && this.header == header
    {
      pool := new PagePool(caps, slotCount, firstId);
      root, rootLocked := INVALID_PAGE_ID, 0;
      lab, contents := map[], map[];
      this.name, this.header := name, header;
    }

    predicate IsEmpty(): (empty: bool)
      reads this`root
      ensures empty <==> root == INVALID_PAGE_ID
    {
      root == INVALID_PAGE_ID
    }

    // ----- latches -----

    /** The root latch is not reentrant. */
    method LockRootPageId(exclusive: bool)
      requires rootLocked == 0
      modifies this`rootLocked, pool`trace
      ensures rootLocked == 1 && pool.trace == old(pool.trace) + [RootLatched]
    {
      rootLocked := rootLocked + 1;
      pool.trace := pool.trace + [RootLatched];
    }

    method TryUnlockRootPageId(exclusive: bool)
      requires rootLocked <= 1
      modifies this`rootLocked, pool`trace
      ensures rootLocked == 0 && pool.trace == old(pool.trace) + RootRelease(old(rootLocked))
    {
      if rootLocked > 0 {
        rootLocked := rootLocked - 1;
        pool.trace := pool.trace + [RootReleased];
      }
    }

    /** Release a page that is read-latched without a transaction. */
    method FreePage(cur: int)
      requires pool.Valid() && cur in pool.pages && cur in pool.readers && cur in pool.pins && rootLocked <= 1
      requires cur !in pool.touched
      modifies this`rootLocked, pool`readers, pool`trace, pool`pins, pool`touched
      ensures pool.Valid() && rootLocked == 0
      ensures pool.readers == old(pool.readers) - multiset{cur} && pool.pins == old(pool.pins) - multiset{cur}
      ensures pool.touched == old(pool.touched)
      ensures pool.trace == old(pool.trace) + RootRelease(old(rootLocked)) + [Unlatched(cur)]
    {
      hide PagePool.Valid;
      TryUnlockRootPageId(false);
      Unlock(cur);
      pool.UnpinPage(cur, false);
    }

    /** Find a page by its id, and release the read latch on it. */
    method Unlock(cur: int)
      requires pool.Valid() && cur in pool.pages && cur in pool.readers && cur !in pool.touched
      modifies pool`readers, pool`trace, pool`pins, pool`touched
      ensures pool.Valid() && pool.touched == old(pool.touched)
      ensures pool.readers == old(pool.readers) - multiset{cur} && pool.pins == old(pool.pins)
      ensures pool.trace == old(pool.trace) + [Unlatched(cur)]
    {
      hide PagePool.Valid;
      pool.FetchPage(cur);
      pool.ReadUnlatch(cur);
      pool.UnpinPage(cur, false);
    }

    /** Unlatch and unpin one page of the transaction; if it is marked for deletion, its pin count is 0 by then. */
    method FreeOne(exclusive: bool, txn: Transaction, cur: int)
      requires pool.Valid() && cur in pool.pages && cur in pool.latched && cur in pool.pins
      requires cur in txn.deletedPageSet ==> pool.pins[cur] == 1
      requires cur in pool.touched ==> exclusive
      modifies pool`latched, pool`trace, pool`pins, pool`pages, pool`touched, txn`deletedPageSet
      ensures pool.Valid()
      ensures pool.latched == old(pool.latched) - {cur} && pool.pins == old(pool.pins) - multiset{cur}
      ensures txn.deletedPageSet == old(txn.deletedPageSet) - {cur}
      ensures pool.pages == old(pool.pages) - old(txn.deletedPageSet) * {cur}
      ensures pool.touched == old(pool.touched) - {cur} && pool.trace == old(pool.trace) + [Unlatched(cur)]
    {
      pool.Unlatch(cur);
      pool.UnpinPage(cur, exclusive);
      if cur in txn.deletedPageSet {
        var ok := pool.DeletePage(cur);
        assert ok;
        txn.deletedPageSet := txn.deletedPageSet - {cur};
      }
    }

    /** The loop of FreePagesInTransaction; the latches in `keep` and the pins in `base` stay. */
    method FreeAll(exclusive: bool, txn: Transaction, ghost base: multiset<int>, ghost keep: set<int>)
      requires pool.Valid() && Distinct(txn.pageSet) && txn.deletedPageSet <= txn.Held() <= pool.pages.Keys
      requires pool.latched == txn.Held() + keep && keep !! txn.Held() && pool.pins == base + multiset(txn.pageSet)
      requires forall p :: p in txn.deletedPageSet ==> p !in base
      requires pool.touched <= txn.Held() && exclusive
      modifies pool`latched, pool`trace, pool`pins, pool`pages, pool`touched, txn`deletedPageSet
      ensures pool.Valid() && txn.deletedPageSet == {} && pool.latched == keep
      ensures pool.pages == old(pool.pages) - old(txn.deletedPageSet) && pool.pins == base
      ensures pool.touched == {} && pool.trace == old(pool.trace) + ReleaseAll(txn.pageSet)
    {
      ghost var pages, deleted, ps := pool.pages, txn.deletedPageSet, txn.pageSet;
      assert Released(ps, 0, base, keep, deleted, pages, pool.latched, pool.pins, deleted, pages) by {
        assert ps[0..] == ps && pages == pages - (deleted - Elements(ps));
      }
      for i := 0 to |txn.pageSet|
        invariant pool.Valid()
        invariant Released(ps, i, base, keep, deleted, pages, pool.latched, pool.pins, txn.deletedPageSet, pool.pages)
        invariant pool.touched <= Elements(ps[i..]) && pool.trace == old(pool.trace) + ReleaseAll(ps[..i])
      {
        hide *;
        ReleaseAllNext(ps, i);
        ReleaseNext(ps, i, base, keep, deleted, pages, pool.latched, pool.pins, txn.deletedPageSet, pool.pages);
        FreeOne(exclusive, txn, txn.pageSet[i]);
      }
      assert ps[|ps|..] == [] && ps[..|ps|] == ps;
    }

    /** Release every page of the transaction; those marked for deletion are deleted. */
    method FreePagesInTransaction(exclusive: bool, txn: Transaction, ghost base: multiset<int>, ghost keep: set<int>)
      requires pool.Valid() && rootLocked <= 1
      requires Distinct(txn.pageSet) && txn.deletedPageSet <= txn.Held() <= pool.pages.Keys
      requires pool.latched == txn.Held() + keep && keep !! txn.Held() && pool.pins == base + multiset(txn.pageSet)
      requires forall p :: p in txn.deletedPageSet ==> p !in base
      requires pool.touched <= txn.Held() && exclusive
      modifies this`rootLocked, pool`latched, pool`trace, pool`pins, pool`pages, pool`touched, txn
      ensures pool.Valid() && rootLocked == 0 && txn.pageSet == [] && txn.deletedPageSet == {}
      ensures txn.Held() == {} && Distinct(txn.pageSet)
      ensures pool.pages == old(pool.pages) - old(txn.deletedPageSet) && pool.pins == base && pool.latched == keep
      ensures pool.touched == {}
      ensures pool.trace == old(pool.trace) + RootRelease(old(rootLocked)) + ReleaseAll(old(txn.pageSet))
    {
      TryUnlockRootPageId(exclusive);
      FreeAll(exclusive, txn, base, keep);
      txn.pageSet := [];
    }

    // ----- search -----

    /**
     * Fetch and latch a page before anything is released.  If the operation cannot overflow it or make it too small,
     * everything above it is released.
     */
    method CrabingProtocalFetchPage(pageId: int, op: OpType, previous: int, txn: Transaction, ghost base: multiset<int>)
      requires Running(txn, base) && pageId in pool.pages && pageId !in txn.Held() && op != READ
      requires previous > 0 ==> txn.deletedPageSet == {}
      modifies this`rootLocked, pool`latched, pool`trace, pool`pins, pool`pages, pool`touched, txn
      ensures Running(txn, base) && txn.deletedPageSet == old(txn.deletedPageSet) && pool.pages == old(pool.pages)
      ensures
        if previous > 0 && !GoesUp(op, pool.pages[pageId]) then txn.Held() == {pageId} && rootLocked == 0
        else txn.Held() == old(txn.Held()) + {pageId} && rootLocked == old(rootLocked)
      ensures pool.touched <= old(pool.touched)
      ensures pool.trace == old(pool.trace) + [Latched(pageId)] +
        if previous > 0 && !GoesUp(op, pool.pages[pageId]) then
          RootRelease(old(rootLocked)) + ReleaseAll(old(txn.pageSet))
        else []
    {
      hide Running, Taking, GoesUp, IsSafe, ReleaseAll, RootRelease, PagePool.Valid;
      var exclusive := op != READ;
      SafeIff(op, pool.pages[pageId]);
      TakePage(pageId, txn, base);
      if previous > 0 && (!exclusive || IsSafe(op, pool.pages[pageId])) {
        ReleaseAbove(exclusive, pageId, txn, base);
      }
      AddIntoPageSet(pageId, txn, base);
    }

    /** A page is latched and pinned, and not in the page set yet. */
    ghost predicate Taking(pageId: int, txn: Transaction, base: multiset<int>)
      reads this`rootLocked, pool, txn
    {
      && pool.Valid() && rootLocked <= 1 && pool.readers == multiset{} && Distinct(txn.pageSet)
      && pageId in pool.pages && pageId !in txn.Held()
      && pool.latched == txn.Held() + {pageId} && pool.pins == base + multiset{pageId} + multiset(txn.pageSet)
      && txn.Held() <= pool.pages.Keys && txn.deletedPageSet <= txn.Held() && pool.touched <= txn.Held()
      && forall p :: p in base ==> p < pool.nextPageId
    }

    method TakePage(pageId: int, txn: Transaction, ghost base: multiset<int>)
      requires Running(txn, base) && pageId in pool.pages && pageId !in txn.Held()
      modifies pool`latched, pool`trace, pool`pins
      ensures Taking(pageId, txn, base) && pool.trace == old(pool.trace) + [Latched(pageId)]
    {
      hide Elements, Distinct, PagePool.Valid;
      pool.FetchPage(pageId);
      pool.Latch(pageId);
    }

    /** The child is safe: everything above it goes. */
    method ReleaseAbove(exclusive: bool, pageId: int, txn: Transaction, ghost base: multiset<int>)
      requires Taking(pageId, txn, base) && txn.deletedPageSet == {} && exclusive
      modifies this`rootLocked, pool`latched, pool`trace, pool`pins, pool`pages, pool`touched, txn
      ensures Taking(pageId, txn, base) && txn.Held() == {} && txn.deletedPageSet == {} && rootLocked == 0
      ensures pool.pages == old(pool.pages) && pool.touched == {}
      ensures pool.trace == old(pool.trace) + (RootRelease(old(rootLocked)) + ReleaseAll(old(txn.pageSet)))
    {
      hide Elements, Distinct, PagePool.Valid, ReleaseAll, RootRelease;
      FreePagesInTransaction(exclusive, txn, base + multiset{pageId}, {pageId});
      assert pool.pages == old(pool.pages);
    }

    method AddIntoPageSet(pageId: int, txn: Transaction, ghost base: multiset<int>)
      requires Taking(pageId, txn, base)
      modifies txn`pageSet
      ensures Running(txn, base) && txn.pageSet == old(txn.pageSet) + [pageId]
      ensures txn.Held() == old(txn.Held()) + {pageId}
    {
      txn.pageSet := txn.pageSet + [pageId];
    }

    /** The child to visit next. */
    method NextChild(cur: int, key: int, leftMost: bool) returns (next: int)
      requires Tree() && cur in lab && !pool.pages[cur].leaf && cur in pool.pins
      requires if leftMost then lab[cur].lo.None? else InRange(lab[cur], key)
      ensures next in lab && pool.pages[next].parent == cur && lab[next].level < lab[cur].level
      ensures if leftMost then lab[next].lo.None? else InRange(lab[next], key)
    {
      InnerSize(pool.caps, pool.pages, lab, root, contents, cur);
      var page := pool.Load(cur);
      ghost var i := 0;
      if leftMost {
        next := page.slots[0].val;
        FirstChild(pool.pages, lab, root, cur);
      } else {
        next, i := page.LookupChild(key);
        ChildFor(pool.pages, lab, root, cur, i, key);
      }
      ChildFacts(pool.pages, lab, root, cur, i);
    }

    /**
     * The descent for `key` has reached page cur.  The page set is the path to it, from the lowest safe page on; see
     * HeldUpToSafe.
     */
    ghost predicate At(op: OpType, key: int, txn: Transaction, base: multiset<int>, cur: int)
      reads this`root, this`lab, this`contents, this`rootLocked, pool, txn
    {
      && Tree() && Running(txn, base) && txn.deletedPageSet == {}
      && root != INVALID_PAGE_ID && cur in lab && InRange(lab[cur], key) && op != READ
      && PathTo(op, pool.pages, lab, rootLocked > 0, txn.Held(), cur)
      && Tight(op, pool.pages, lab, root, rootLocked > 0, txn.Held())
    }

    method StartAtRoot(op: OpType, key: int, txn: Transaction, ghost base: multiset<int>)
      requires Tree() && Running(txn, base) && root != INVALID_PAGE_ID && rootLocked == 1 && op != READ
      requires txn.pageSet == [] && txn.deletedPageSet == {}
      modifies this`rootLocked, pool`latched, pool`trace, pool`pins, pool`pages, pool`touched, txn
      ensures At(op, key, txn, base, root) && pool.pages == old(pool.pages)
    {
      PathStart(op, pool.pages, lab, root, key);
      CrabingProtocalFetchPage(root, op, -1, txn, base);
    }

    method StepDown(op: OpType, key: int, txn: Transaction, ghost base: multiset<int>, cur: int) returns (next: int)
      requires At(op, key, txn, base, cur) && !pool.pages[cur].leaf
      modifies this`rootLocked, pool`latched, pool`trace, pool`pins, pool`pages, pool`touched, txn
      ensures At(op, key, txn, base, next) && pool.pages == old(pool.pages) && lab[next].level < lab[cur].level
    {
      hide PathTo, Tight, InRange, TreeFine;
      LeafHeld(op, key, txn, base, cur);
      next := NextChild(cur, key, false);
      PathStep(op, pool.pages, lab, rootLocked > 0, txn.Held(), cur, next);
      TightStep(op, pool.pages, lab, root, rootLocked > 0, txn.Held(), cur, next);
      CrabingProtocalFetchPage(next, op, cur, txn, base);
    }

    /**
     * Descend to the leaf for `key`, crabbing.  Afterwards the page set is a path down to the leaf: a page in it has its
     * parent in it too exactly if the operation may overflow it or make it too small, and the root id is latched exactly
     * if the root is in it.
     */
    method FindLeafPage(key: int, op: OpType, txn: Transaction, ghost base: multiset<int>) returns (leaf: int)
      requires Tree() && Running(txn, base) && rootLocked == 0 && txn.pageSet == [] && txn.deletedPageSet == {}
        && op != READ
      modifies this`rootLocked, pool`latched, pool`trace, pool`pins, pool`pages, pool`touched, txn
      ensures pool.pages == old(pool.pages)
      ensures root == INVALID_PAGE_ID ==>
        leaf == INVALID_PAGE_ID && Tree() && Running(txn, base) && rootLocked == 0
        && txn.pageSet == [] && txn.deletedPageSet == {}
      ensures root != INVALID_PAGE_ID ==> At(op, key, txn, base, leaf) && pool.pages[leaf].leaf
      ensures root != INVALID_PAGE_ID ==>
        && leaf in txn.Held() && (rootLocked > 0 <==> root in txn.Held())
        && forall x :: x in txn.Held() ==>
          x in pool.pages && (pool.pages[x].parent in txn.Held() <==> x != root && GoesUp(op, pool.pages[x]))
    {
      LockRootPageId(op != READ);
      if IsEmpty() {
        TryUnlockRootPageId(op != READ);
        return INVALID_PAGE_ID;
      }
      StartAtRoot(op, key, txn, base);
      leaf := root;
      while !pool.pages[leaf].leaf
        invariant At(op, key, txn, base, leaf) && pool.pages == old(pool.pages)
        decreases lab[leaf].level
      {
        leaf := StepDown(op, key, txn, base, leaf);
      }
      AtHolds(op, key, txn, base, leaf);
    }

    lemma AtHolds(op: OpType, key: int, txn: Transaction, base: multiset<int>, cur: int)
      requires At(op, key, txn, base, cur)
      ensures cur in txn.Held() && (rootLocked > 0 <==> root in txn.Held())
      ensures forall x :: x in txn.Held() ==>
          x in pool.pages && (pool.pages[x].parent in txn.Held() <==> x != root && GoesUp(op, pool.pages[x]))
    {
      forall x | x in txn.Held()
        ensures x in pool.pages && (pool.pages[x].parent in txn.Held() <==> x != root && GoesUp(op, pool.pages[x]))
      {
        HeldUpToSafe(op, pool.pages, lab, root, rootLocked > 0, txn.Held(), cur, x);
      }
    }

    // ----- the root id -----

    /** InsertRecord of the header page: a name that has a record is refused. */
    method InsertRecord(rootId: int) returns (ok: bool)
      modifies this`header
      ensures ok == (name !in old(header)) && header == if ok then old(header)[name := rootId] else old(header)
    {
      if name in header { return false; }
      header := header[name := rootId];
      return true;
    }

    /** UpdateRecord of the header page: a name without a record is refused. */
    method UpdateRecord(rootId: int) returns (ok: bool)
      modifies this`header
      ensures ok == (name in old(header)) && header == if ok then old(header)[name := rootId] else old(header)
    {
      if name !in header { return false; }
      header := header[name := rootId];
      return true;
    }

    /** Record the root id in the header page, as a new record or in place of an old one; the refusal goes unnoticed. */
    method UpdateRootPageId(insertRecord: bool)
      modifies this`header
      ensures header == if insertRecord == (name !in old(header)) then old(header)[name := root] else old(header)
    {
      var ok;
      if insertRecord { ok := InsertRecord(root); } else { ok := UpdateRecord(root); }
    }

    /** The header page names the root: an absent tree has no record or the record INVALID_PAGE_ID. */
    ghost predicate HeaderAgrees()
      reads this`root, this`header
    {
      if root == INVALID_PAGE_ID then name in header ==> header[name] == INVALID_PAGE_ID
      else name in header && header[name] == root
    }

    // ----- insertion -----

    ghost function Now(txn: Transaction): Moment
      reads pool`pages, pool`nextPageId, txn
    {
      Moment(pool.pages, txn.Held(), pool.nextPageId)
    }

    /** The operation is done with the tree, and only has to release its pages. */
    ghost predicate Done(txn: Transaction, base: multiset<int>)
      reads this`root, this`lab, this`contents, this`rootLocked, pool, txn
    {
      && Running(txn, base) && txn.deletedPageSet == {} && root != INVALID_PAGE_ID
      && TreeFine(pool.caps, pool.pages, lab, root, contents) && pool.pages.Keys == lab.Keys
    }

    /** Page p has received a pair and may be one over; if it is, its parent is held. */
    ghost predicate Received(txn: Transaction, base: multiset<int>, p: int)
      reads this`root, this`lab, this`contents, this`rootLocked, pool, txn
    {
      && Running(txn, base) && txn.deletedPageSet == {} && root != INVALID_PAGE_ID
      && TreeOk(pool.caps, pool.pages, lab, root, contents, p, 0, 1) && pool.pages.Keys == lab.Keys
      && p in lab && p in txn.Held()
      && ChainFrom(INSERT, pool.pages, lab, rootLocked > 0, txn.Held(), lab[p].level + 1)
      && (|pool.pages[p].entries| > pool.pages[p].max ==> HasUp(pool.pages, rootLocked > 0, txn.Held(), p))
    }

    /** Page p has been split, and the new page n waits to be hooked into the parent. */
    ghost predicate Halved(txn: Transaction, base: multiset<int>, p: int, k: int, n: int)
      reads this`root, this`lab, this`contents, this`rootLocked, pool, txn
    {
      && Running(txn, base) && txn.deletedPageSet == {} && root != INVALID_PAGE_ID
      && SplitReady(pool.caps, pool.pages, lab, root, contents, p, k, n, pool.nextPageId)
      && pool.pages.Keys == lab.Keys && p in txn.Held() && n in txn.Held()
      && ChainFrom(INSERT, pool.pages, lab, rootLocked > 0, txn.Held(), lab[p].level + 1)
      && HasUp(pool.pages, rootLocked > 0, txn.Held(), p)
    }

    /** A fresh page, latched and in the page set. */
    method NewHeldPage(txn: Transaction, ghost base: multiset<int>) returns (n: int)
      requires Running(txn, base)
      modifies pool, txn`pageSet
      ensures Running(txn, base) && txn.Held() == old(txn.Held()) + {n}
      ensures n == old(pool.nextPageId) && pool.nextPageId == n + 1 && n !in old(pool.pages) && n > 0
      ensures pool.pages == old(pool.pages)[n := Node(false, 0, 0, INVALID_PAGE_ID, [])]
    {
      n := pool.NewPage();
      pool.Latch(n);
      txn.pageSet := txn.pageSet + [n];
    }

    /** Halve an overfull page; the new page gets the upper half. */
    method Split(p: int, txn: Transaction, ghost base: multiset<int>) returns (n: int)
      requires Received(txn, base, p) && |pool.pages[p].entries| > pool.pages[p].max
      modifies pool, txn`pageSet, this`lab
      ensures n !in old(pool.pages) && n in pool.pages && |pool.pages[n].entries| > 0
      ensures Halved(txn, base, p, pool.pages[n].entries[0].key, n)
      ensures txn.Held() == old(txn.Held()) + {n} && lab[p].level == old(lab[p].level)
        && lab[root].level == old(lab[root].level)
      ensures Advance(old(Now(txn)), Now(txn))
    {
      hide SplitReady, ChainFrom, HasUp, TreeOk, Advance, IsSplit, PagePool.Valid;
      pool.NextIsNew();
      var parent, isLeaf := pool.pages[p].parent, pool.pages[p].leaf;
      ghost var s, held, locked := pool.pages, txn.Held(), rootLocked > 0;
      ghost var blank := Node(isLeaf, pool.caps.Of(isLeaf), parent, INVALID_PAGE_ID, []);
      CanHalve(pool.caps, s, lab, root, contents, p, pool.nextPageId, blank);
      n := NewHeldPage(txn, base);
      InitAndMove(p, n, isLeaf, parent, s);
      AfterSplit(pool.caps, s, lab, root, contents, pool.pages, p, n, locked, held);
      lab := SplitLabels(lab, p, n, pool.pages[n].entries[0].key);
    }

    method InitAndMove(p: int, n: int, isLeaf: bool, parent: int, ghost s: Store)
      requires pool.Valid() && p in s && n !in s && n in pool.pages && pool.pages == s[n := pool.pages[n]]
      requires p in pool.pins && n in pool.pins && isLeaf == s[p].leaf && parent == s[p].parent
      requires |s[p].entries| == s[p].max + 1 && s[p].max >= 2 && s[p].max == pool.caps.Of(isLeaf)
      requires
        var blank := Node(isLeaf, pool.caps.Of(isLeaf), parent, INVALID_PAGE_ID, []);
        !isLeaf ==> ChildrenLive(s[n := blank], p, n, (s[p].max + 1) / 2)
      modifies pool`pages, pool`pins, pool`touched
      ensures pool.Valid() && pool.pins == old(pool.pins) && IsSplit(s, pool.pages, p, n, (s[p].max + 1) / 2)
      ensures pool.touched <= old(pool.touched) + {p, n}
    {
      ghost var blank := Node(isLeaf, pool.caps.Of(isLeaf), parent, INVALID_PAGE_ID, []);
      pool.Init(n, isLeaf, parent);
      assert pool.pages == s[n := blank];
      pool.MoveHalfTo(p, n);
      SplitIgnoresNew(s, pool.pages, p, n, (s[p].max + 1) / 2, blank);
    }

    /** The old root has been split: a new root gets the two halves as its children. */
    method HookRoot(p: int, k: int, n: int, txn: Transaction, ghost base: multiset<int>)
      requires Halved(txn, base, p, k, n) && p == root
      modifies pool, this`root, this`lab, this`header
      ensures Done(txn, base) && header == HeaderAfter(old(header), name, old(root), root) && rootLocked > 0
      ensures Advance(old(Now(txn)), Now(txn))
    {
      hide TreeOk, TreeFine, SplitReady, ChainFrom, Advance, Hooked, Latches, PagePool.Valid;
      ghost var s, held := pool.pages, txn.Held();
      HookFacts(pool.caps, s, lab, root, contents, p, k, n, pool.nextPageId);
      LatchesLater(txn.pageSet, pool.latched, pool.readers, pool.pins, base, pool.nextPageId, pool.nextPageId + 1);
      pool.NextIsNew();
      RootHooked(pool.caps, s, p, k, n, pool.nextPageId, held);
      lab := lab[pool.nextPageId := Label(lab[p].level + 1, None, None)];
      RaiseRoot(p, k, n);
    }

    /** A new root with two children; it is unpinned at the end. */
    method RaiseRoot(p: int, k: int, n: int)
      requires pool.Valid() && p in pool.pages && n in pool.pages && p != n && pool.nextPageId !in pool.pages
      requires pool.pages[p].parent == INVALID_PAGE_ID && p in pool.pins && n in pool.pins
      requires root != pool.nextPageId
      modifies pool`pages, pool`pins, pool`touched, pool`nextPageId, this`root, this`header
      ensures pool.Valid() && root == old(pool.nextPageId) && pool.nextPageId == root + 1
      ensures pool.pages == Hooked(pool.caps, old(pool.pages), p, k, n, root)
      ensures pool.pins == old(pool.pins) && pool.touched <= old(pool.touched) + {p, n}
      ensures header == HeaderAfter(old(header), name, old(root), root)
    {
      hide PagePool.Valid, Hooked;
      ghost var s := pool.pages;
      root := pool.NewPage();
      PopulateRoot(p, k, n, s);
      UpdateRootPageId(false);
      pool.UnpinPage(root, true);
    }

    method PopulateRoot(p: int, k: int, n: int, ghost s: Store)
      requires pool.Valid() && root in pool.pages && root !in s && pool.pages[root].entries == []
      requires pool.pages == s[root := pool.pages[root]]
      requires p in s && n in s && p != n && s[p].parent == INVALID_PAGE_ID
      requires p in pool.pins && n in pool.pins && root in pool.pins
      modifies pool`pages, pool`touched
      ensures pool.Valid() && pool.pages == Hooked(pool.caps, s, p, k, n, root)
      ensures pool.touched <= old(pool.touched) + {root, p, n}
    {
      pool.Init(root, false, INVALID_PAGE_ID);
      pool.PopulateNewRoot(root, p, k, n);
      pool.SetParent(p, root);
      pool.SetParent(n, root);
    }

    /** The new page goes behind the split one in their parent. */
    method HookParent(p: int, k: int, n: int, txn: Transaction, ghost base: multiset<int>) returns (q: int)
      requires Halved(txn, base, p, k, n) && p != root
      modifies pool
      ensures q in lab && lab[q].level == lab[p].level + 1 <= lab[root].level && Received(txn, base + multiset{q}, q)
      ensures pool.nextPageId == old(pool.nextPageId)
      ensures Advance(old(Now(txn)), Now(txn))
    {
      hide TreeOk, SplitReady, ChainFrom, Advance, HasUp, Attach, Latches, PagePool.Valid;
      ghost var s := pool.pages;
      pool.NextIsNew();
      HookFacts(pool.caps, s, lab, root, contents, p, k, n, pool.nextPageId);
      q := pool.pages[p].parent;
      HasUpMeans(s, rootLocked > 0, txn.Held(), p);
      pool.Bounds(q);
      AttachAdvance(s, q, p, k, n, txn.Held(), pool.nextPageId);
      LatchesLater(txn.pageSet, pool.latched, pool.readers, pool.pins, base, pool.nextPageId, pool.nextPageId);
      LatchesPinned(txn.pageSet, pool.latched, pool.readers, pool.pins, base, pool.nextPageId, q);
      ChainAfterAttach(s, lab, q, p, k, n, rootLocked > 0, txn.Held());
      AttachTo(q, p, k, n);
    }

    /** Pin the parent, and put the new page behind the slot of the split one. */
    method AttachTo(q: int, p: int, k: int, n: int)
      requires pool.Valid() && q in pool.pages && n in pool.pages && n in pool.pins && pool.pages[n].parent == q
      requires |pool.pages[q].entries| < pool.slotCount
      modifies pool`pages, pool`pins, pool`touched
      ensures pool.Valid() && pool.pages == Attach(old(pool.pages), q, p, k, n)
      ensures pool.pins == old(pool.pins) + multiset{q} && pool.touched == old(pool.touched) + {q, n}
    {
      ghost var s := pool.pages;
      pool.FetchPage(q);
      pool.SetParent(n, q);
      assert pool.pages == s;
      pool.InsertNodeAfter(q, p, k, n);
    }

    /** Tell the parent of p about the page n split off p; the parent may have to be split in turn. */
    method InsertIntoParent(p: int, k: int, n: int, txn: Transaction, ghost base: multiset<int>)
      requires Halved(txn, base, p, k, n)
      modifies pool, txn`pageSet, this`root, this`lab, this`header
      ensures Done(txn, base) && header == HeaderAfter(old(header), name, old(root), root)
      ensures root != old(root) ==> rootLocked > 0
      ensures Advance(old(Now(txn)), Now(txn))
      decreases lab[root].level - lab[p].level, 0
    {
      hide ChainFrom, TreeOk, SplitReady, Advance, TreeFine, HasUp, Running;
      HookFacts(pool.caps, pool.pages, lab, root, contents, p, k, n, pool.nextPageId);
      if pool.pages[p].parent == INVALID_PAGE_ID {
        HookRoot(p, k, n, txn, base);
      } else {
        var q := HookParent(p, k, n, txn, base);
        ghost var now := Now(txn);
        SplitIfOver(q, txn, base + multiset{q});
        AdvanceTwice(old(Now(txn)), now, Now(txn));
        UnpinExtra(q, txn, base);
      }
    }

    method UnpinExtra(q: int, txn: Transaction, ghost base: multiset<int>)
      requires Done(txn, base + multiset{q})
      modifies pool`pins, pool`touched
      ensures Done(txn, base)
    {
      assert forall p :: p in base ==> p in base + multiset{q};
      pool.UnpinPage(q, true);
    }

    /** After page p received a pair: split it if it is one over. */
    method SplitIfOver(p: int, txn: Transaction, ghost base: multiset<int>)
      requires Received(txn, base, p) && lab[p].level <= lab[root].level
      modifies pool, txn`pageSet, this`root, this`lab, this`header
      ensures Done(txn, base) && header == HeaderAfter(old(header), name, old(root), root)
      ensures root != old(root) ==> rootLocked > 0
      ensures Advance(old(Now(txn)), Now(txn))
      decreases lab[root].level - lab[p].level, 1
    {
      hide ChainFrom, TreeOk, SplitReady, Advance, TreeFine, HasUp;
      if |pool.pages[p].entries| > pool.pages[p].max {
        var n := Split(p, txn, base);
        ghost var now := Now(txn);
        InsertIntoParent(p, pool.pages[n].entries[0].key, n, txn, base);
        AdvanceTwice(old(Now(txn)), now, Now(txn));
      } else {
        NotOver(p);
        AdvanceNone(Now(txn));
      }
    }

    lemma NotOver(p: int)
      requires TreeOk(pool.caps, pool.pages, lab, root, contents, p, 0, 1) && p in lab && p in pool.pages
      requires |pool.pages[p].entries| <= pool.pages[p].max
      ensures TreeFine(pool.caps, pool.pages, lab, root, contents)
    {
      NoException(pool.caps, pool.pages, lab, root, contents, p, 0, 1);
    }

    /** Look a key up in the leaf responsible for it. */
    method LookupInLeaf(leaf: int, key: int) returns (found: bool, value: int)
      requires Tree() && leaf in lab && pool.pages[leaf].leaf && InRange(lab[leaf], key) && leaf in pool.pins
      ensures found == HasKey(pool.pages[leaf].entries, key) == (key in contents)
      ensures found ==> value == contents[key]
    {
      InnerSize(pool.caps, pool.pages, lab, root, contents, leaf);
      var page := pool.Load(leaf);
      found, value := page.Lookup(key);
      HasKeyIsMembership(pool.pages[leaf].entries, key);
      LeafDecides(pool.pages, lab, root, contents, leaf, key);
    }

    /** Put a new pair into its leaf, which may then be one over. */
    method AddToLeaf(leaf: int, key: int, value: int, txn: Transaction, ghost base: multiset<int>)
      requires At(INSERT, key, txn, base, leaf) && pool.pages[leaf].leaf && !HasKey(pool.pages[leaf].entries, key)
      modifies pool`pages, pool`touched, this`contents
      ensures Received(txn, base, leaf) && contents == old(contents)[key := value]
      ensures Advance(old(Now(txn)), Now(txn))
    {
      hide TreeOk, ChainFrom, HasUp, InRange, HasKey, Advance, PathTo, Tight;
      ghost var s := pool.pages;
      LeafHeld(INSERT, key, txn, base, leaf);
      InnerSize(pool.caps, s, lab, root, contents, leaf);
      InsertedIntoLeaf(pool.caps, s, lab, root, contents, leaf, key, value);
      LeafReceives(s, lab, leaf, Entry(key, value), rootLocked > 0, txn.Held(), pool.nextPageId);
      pool.LeafInsert(leaf, key, value);
      contents := contents[key := value];
    }

    /** What the end of a descent provides. */
    lemma LeafHeld(op: OpType, key: int, txn: Transaction, base: multiset<int>, leaf: int)
      requires At(op, key, txn, base, leaf)
      ensures leaf in txn.Held() && leaf in pool.pins && leaf in lab && pool.pages.Keys == lab.Keys
      ensures lab[leaf].level <= lab[root].level && Done(txn, base)
    {
      assert PageOk(pool.pages, lab, root, leaf);
    }

    lemma WroteHeldOnly(c: Caps, a: Moment, lab0: Labels, root0: int, m: map<int, int>, b: Moment)
      requires Advance(a, b) && TreeFine(c, a.pages, lab0, root0, m) && a.pages.Keys == lab0.Keys
        && INVALID_PAGE_ID !in b.held
      requires forall x :: x in b.pages ==> x < b.next
      ensures Confined(a.pages, b.pages, a.held) && NewPages(a.pages.Keys, a.next, b.pages.Keys, b.next)
    {
      AdvanceConfined(a, lab0, root0, b);
    }

    lemma LatestId()
      requires pool.Valid()
      ensures forall x :: x in pool.pages ==> x < pool.nextPageId
    {
    }

    /** Insert into the leaf that has been found, and split as far up as needed. */
    method InsertAtLeaf(leaf: int, key: int, value: int, txn: Transaction, ghost base: multiset<int>) returns (ok: bool)
      requires At(INSERT, key, txn, base, leaf) && pool.pages[leaf].leaf
      modifies this`root, this`lab, this`contents, this`header, pool, txn`pageSet
      ensures Done(txn, base) && ok == (key !in old(contents))
      ensures contents == if ok then old(contents)[key := value] else old(contents)
      ensures !ok ==> pool.pages == old(pool.pages)
      ensures header == HeaderAfter(old(header), name, old(root), root)
      ensures Advance(old(Now(txn)), Now(txn)) && (root != old(root) ==> rootLocked > 0)
    {
      hide Advance, PathTo, Tight, InRange, TreeOk, TreeFine, HasKey;
      LeafHeld(INSERT, key, txn, base, leaf);
      var exist, v := LookupInLeaf(leaf, key);
      if exist {
        AdvanceNone(Now(txn));
        ok := false;
      } else {
        AddToLeaf(leaf, key, value, txn, base);
        ghost var now := Now(txn);
        SplitIfOver(leaf, txn, base);
        AdvanceTwice(old(Now(txn)), now, Now(txn));
        ok := true;
      }
    }

    /** Release everything at the end of an operation that deleted nothing. */
    method Finish(txn: Transaction, ghost base: multiset<int>)
      requires Done(txn, base)
      modifies this`rootLocked, pool`latched, pool`trace, pool`pins, pool`pages, pool`touched, txn
      ensures Tree() && Running(txn, base) && rootLocked == 0 && txn.pageSet == [] && txn.deletedPageSet == {}
      ensures pool.pages == old(pool.pages)
    {
      hide TreeFine;
      FreePagesInTransaction(true, txn, base, {});
      assert pool.pages == old(pool.pages);
    }

    /**
     * Insert below a non-empty root.  `held` and `locked` are the latches when the leaf has been found: the lower
     * part of the path to the leaf, and the root id if nothing on the path was safe.  Only held pages are written,
     * apart from the parent ids of their children, and the root id only under its latch.
     */
    method InsertIntoLeaf(key: int, value: int, txn: Transaction, ghost base: multiset<int>)
      returns (ok: bool, ghost leaf: int, ghost held: set<int>, ghost locked: bool)
      requires Tree() && root != INVALID_PAGE_ID && Running(txn, base) && rootLocked == 0
      requires txn.pageSet == [] && txn.deletedPageSet == {}
      modifies this, pool, txn
      ensures Tree() && Running(txn, base) && rootLocked == 0 && txn.pageSet == [] && txn.deletedPageSet == {}
      ensures root != INVALID_PAGE_ID && ok == (key !in old(contents))
      ensures contents == if ok then old(contents)[key := value] else old(contents)
      ensures NewPages(old(pool.pages.Keys), old(pool.nextPageId), pool.pages.Keys, pool.nextPageId)
      ensures !ok ==> pool.pages == old(pool.pages)
      ensures header == HeaderAfter(old(header), name, old(root), root)
      ensures PathTo(INSERT, old(pool.pages), old(lab), locked, held, leaf) && InRange(old(lab)[leaf], key)
      ensures Tight(INSERT, old(pool.pages), old(lab), old(root), locked, held)
      ensures Confined(old(pool.pages), pool.pages, held) && (root != old(root) ==> locked)
    {
      hide Advance, PathTo, Tight, InRange, TreeFine, Confined;
      var page := FindLeafPage(key, INSERT, txn, base);
      leaf, held, locked := page, txn.Held(), rootLocked > 0;
      ghost var start := Now(txn);
      ok := InsertAtLeaf(page, key, value, txn, base);
      LatestId();
      WroteHeldOnly(pool.caps, start, old(lab), old(root), old(contents), Now(txn));
      Finish(txn, base);
    }

    /** An empty tree becomes one leaf with one pair. */
    method StartNewTree(key: int, value: int)
      requires Tree() && root == INVALID_PAGE_ID
      modifies this`root, this`lab, this`contents, this`header, pool`pages, pool`pins, pool`touched, pool`nextPageId
      ensures Tree() && root == old(pool.nextPageId) && pool.pages.Keys == {root} && pool.nextPageId == root + 1
      ensures pool.pins == old(pool.pins) && contents == map[key := value]
      ensures header == if name !in old(header) then old(header)[name := root] else old(header)
    {
      hide TreeFine, PagePool.Valid;
      root := NewLeaf();
      UpdateRootPageId(true);
      FillLeaf(root, key, value);
      lab, contents := map[root := Label(0, None, None)], map[key := value];
      SingleLeaf(pool.caps, pool.pages, root, key, value);
      pool.UnpinPage(root, true);
    }

    method FillLeaf(id: int, key: int, value: int)
      requires pool.Valid() && id in pool.pins
      requires pool.pages == map[id := Node(true, pool.caps.leaf, INVALID_PAGE_ID, INVALID_PAGE_ID, [])]
      modifies pool`pages, pool`touched
      ensures pool.Valid() && pool.touched == old(pool.touched) + {id}
      ensures pool.pages ==
        map[id := Node(true, pool.caps.leaf, INVALID_PAGE_ID, INVALID_PAGE_ID, [Entry(key, value)])]
    {
      assert InsertSorted([], Entry(key, value)) == [Entry(key, value)];
      pool.LeafInsert(id, key, value);
    }

    /** The first page of a tree: an empty leaf, still pinned. */
    method NewLeaf() returns (id: int)
      requires pool.Valid() && pool.pages == map[] && pool.touched == {}
      modifies pool`pages, pool`pins, pool`touched, pool`nextPageId
      ensures pool.Valid() && id == old(pool.nextPageId) && pool.nextPageId == id + 1 && id > 0
      ensures pool.pages == map[id := Node(true, pool.caps.leaf, INVALID_PAGE_ID, INVALID_PAGE_ID, [])]
      ensures pool.pins == old(pool.pins) + multiset{id} && pool.touched == {id}
    {
      id := pool.NewPage();
      pool.Init(id, true, INVALID_PAGE_ID);
    }

    /** Insert: true and the pair added if the key was absent, false and no change if it was there. */
    method Insert(key: int, value: int, txn: Transaction) returns (ok: bool)
      requires Idle() && txn.pageSet == [] && txn.deletedPageSet == {}
      modifies this, pool, txn
      ensures Idle() && txn.pageSet == [] && txn.deletedPageSet == {} && pool.pins == old(pool.pins)
      ensures ok == (key !in old(contents))
      ensures contents == if ok then old(contents)[key := value] else old(contents)
      ensures NewPages(old(pool.pages.Keys), old(pool.nextPageId), pool.pages.Keys, pool.nextPageId)
      ensures !ok ==> pool.pages == old(pool.pages)
      ensures header ==
        if old(root) == INVALID_PAGE_ID && name !in old(header) then old(header)[name := root]
        else if old(root) == INVALID_PAGE_ID then old(header)
        else HeaderAfter(old(header), name, old(root), root)
      ensures old(HeaderAgrees()) ==> (HeaderAgrees() <==> old(root) != INVALID_PAGE_ID || name !in old(header))
    {
      hide TreeFine, PathTo, Tight, InRange, Confined, PagePool.Valid;
      LockRootPageId(true);
      if IsEmpty() {
        StartNewTree(key, value);
        TryUnlockRootPageId(true);
        ok := true;
      } else {
        TryUnlockRootPageId(true);
        ghost var leaf, held, locked;
        ok, leaf, held, locked := InsertIntoLeaf(key, value, txn, pool.pins);
      }
    }

    // ----- reading -----

    /** Somebody reads page cur: one read latch and one pin, and with a transaction the page is its page set. */
    ghost predicate Reading(txn: Transaction?, base: multiset<int>, cur: int)
      reads this`rootLocked, pool, txn
    {
      && rootLocked <= 1 && pool.latched == {} && pool.readers == multiset{cur} && pool.pins == base + multiset{cur}
      && (txn != null ==> txn.pageSet == [cur] && txn.deletedPageSet == {})
    }

    /** Release what a reader has latched before it took the pages in `keep`, with or without a transaction. */
    method FreePagesRead(txn: Transaction?, cur: int, ghost base: multiset<int>, ghost keep: multiset<int>)
      requires pool.Valid() && rootLocked <= 1 && cur in pool.pages && cur !in pool.touched
      requires pool.readers == multiset{cur} + keep && pool.pins == base + multiset{cur} + keep
      requires txn != null ==> txn.pageSet == [cur] && txn.deletedPageSet == {}
      modifies this`rootLocked, pool`readers, pool`trace, pool`pins, pool`touched, txn
      ensures pool.Valid() && rootLocked == 0 && pool.touched == old(pool.touched)
      ensures pool.readers == keep && pool.pins == base + keep
      ensures pool.trace == old(pool.trace) + RootRelease(old(rootLocked)) + [Unlatched(cur)]
      ensures txn != null ==> txn.pageSet == [] && txn.deletedPageSet == {}
    {
      hide PagePool.Valid;
      PinGone(base, cur, keep);
      PinGone(multiset{}, cur, keep);
      if txn == null {
        FreePage(cur);
      } else {
        FreeReadSet(txn, cur);
      }
    }

    /** FreePagesInTransaction for a reader: its page set has one page. */
    method FreeReadSet(txn: Transaction, ghost cur: int)
      requires pool.Valid() && rootLocked <= 1 && cur in pool.pages && cur !in pool.touched
      requires cur in pool.readers && cur in pool.pins && txn.pageSet == [cur] && txn.deletedPageSet == {}
      modifies this`rootLocked, pool`readers, pool`trace, pool`pins, pool`touched, txn`pageSet
      ensures pool.Valid() && rootLocked == 0 && pool.touched == old(pool.touched) && txn.pageSet == []
      ensures pool.readers == old(pool.readers) - multiset{cur} && pool.pins == old(pool.pins) - multiset{cur}
      ensures pool.trace == old(pool.trace) + RootRelease(old(rootLocked)) + [Unlatched(cur)]
    {
      hide PagePool.Valid;
      TryUnlockRootPageId(false);
      for i := 0 to |txn.pageSet|
        invariant pool.Valid() && rootLocked == 0 && pool.touched == old(pool.touched) && txn.pageSet == [cur]
        invariant i == 0 ==> pool.readers == old(pool.readers) && pool.pins == old(pool.pins)
        invariant pool.trace == old(pool.trace) + RootRelease(old(rootLocked)) + if i == 0 then [] else [Unlatched(cur)]
        invariant i == 1 ==>
          pool.readers == old(pool.readers) - multiset{cur} && pool.pins == old(pool.pins) - multiset{cur}
      {
        pool.ReadUnlatch(txn.pageSet[i]);
        pool.UnpinPage(txn.pageSet[i], false);
      }
      txn.pageSet := [];
    }

    /** CrabingProtocalFetchPage for a reader: every page is safe, so the one above is released. */
    method CrabingProtocalFetchRead(pageId: int, previous: int, txn: Transaction?, ghost base: multiset<int>)
      requires pool.Valid() && pageId in pool.pages && pool.touched == {}
      requires previous > 0 ==> previous in pool.pages && Reading(txn, base, previous)
      requires previous <= 0 ==>
        && rootLocked == 1 && pool.latched == {} && pool.readers == multiset{} && pool.pins == base
        && (txn != null ==> txn.pageSet == [] && txn.deletedPageSet == {})
      modifies this`rootLocked, pool`readers, pool`trace, pool`pins, pool`touched, txn
      ensures pool.Valid() && Reading(txn, base, pageId) && pool.touched == {}
      ensures pool.trace == old(pool.trace) + [Latched(pageId)] +
        if previous > 0 then RootRelease(old(rootLocked)) + [Unlatched(previous)] else []
    {
      hide PagePool.Valid;
      TakeReadPage(pageId);
      if previous > 0 {
        FreePagesRead(txn, previous, base, multiset{pageId});
      }
      AddReadPage(pageId, txn, base);
    }

    method TakeReadPage(pageId: int)
      requires pool.Valid() && pageId in pool.pages && pool.latched == {}
      modifies pool`readers, pool`trace, pool`pins
      ensures pool.Valid() && pool.readers == old(pool.readers) + multiset{pageId}
      ensures pool.pins == old(pool.pins) + multiset{pageId} && pool.trace == old(pool.trace) + [Latched(pageId)]
    {
      pool.FetchPage(pageId);
      pool.ReadLatch(pageId);
    }

    method AddReadPage(pageId: int, txn: Transaction?, ghost base: multiset<int>)
      requires rootLocked <= 1 && pool.latched == {}
      requires pool.readers == multiset{pageId} && pool.pins == base + multiset{pageId}
      requires txn != null ==> txn.pageSet == [] && txn.deletedPageSet == {}
      modifies txn
      ensures Reading(txn, base, pageId)
    {
      if txn != null { txn.pageSet := txn.pageSet + [pageId]; }
    }

    /** Descend with read latches: to the leaf for `key`, or to the leftmost leaf. */
    method FindLeafPageRead(key: int, leftMost: bool, txn: Transaction?) returns (leaf: int)
      requires Idle() && (txn != null ==> txn.pageSet == [] && txn.deletedPageSet == {})
      modifies this`rootLocked, pool`readers, pool`trace, pool`pins, pool`touched, txn
      ensures Tree() && pool.Valid()
      ensures root == INVALID_PAGE_ID ==>
        && leaf == INVALID_PAGE_ID && rootLocked == 0
        && pool.pins == old(pool.pins) && pool.readers == old(pool.readers)
        && (txn != null ==> txn.pageSet == [] && txn.deletedPageSet == {})
      ensures root != INVALID_PAGE_ID ==>
        && leaf in lab && leaf in pool.pages && pool.pages[leaf].leaf && leaf != INVALID_PAGE_ID
        && Reading(txn, old(pool.pins), leaf)
        && (if leftMost then lab[leaf].lo.None? else InRange(lab[leaf], key))
    {
      hide TreeFine, PathTo, Tight, InRange;
      LockRootPageId(false);
      if IsEmpty() {
        TryUnlockRootPageId(false);
        return INVALID_PAGE_ID;
      }
      leaf := root;
      RootUnbounded(key);
      CrabingProtocalFetchRead(leaf, -1, txn, old(pool.pins));
      while !pool.pages[leaf].leaf
        invariant Tree() && leaf in lab && Reading(txn, old(pool.pins), leaf)
        invariant if leftMost then lab[leaf].lo.None? else InRange(lab[leaf], key)
        decreases lab[leaf].level
      {
        leaf := ReadStep(leaf, key, leftMost, txn, old(pool.pins));
      }
    }

    /** One step of a reader: latch the child, then release the page. */
    method ReadStep(cur: int, key: int, leftMost: bool, txn: Transaction?, ghost base: multiset<int>)
      returns (next: int)
      requires Tree() && cur in lab && !pool.pages[cur].leaf && Reading(txn, base, cur)
      requires if leftMost then lab[cur].lo.None? else InRange(lab[cur], key)
      modifies this`rootLocked, pool`readers, pool`trace, pool`pins, pool`touched, txn
      ensures Tree() && next in lab && lab[next].level < lab[cur].level && Reading(txn, base, next)
      ensures if leftMost then lab[next].lo.None? else InRange(lab[next], key)
    {
      hide TreeFine, InRange;
      next := NextChild(cur, key, leftMost);
      CrabingProtocalFetchRead(next, cur, txn, base);
    }

    lemma RootUnbounded(key: int)
      requires Tree() && root != INVALID_PAGE_ID
      ensures root in lab && lab[root].lo.None? && InRange(lab[root], key)
    {
      assert PageOk(pool.pages, lab, root, root);
    }

    /** Point query.  `result` is resized to one element unless the tree is empty. */
    method GetValue(key: int, result0: seq<int>, txn: Transaction?) returns (found: bool, result: seq<int>)
      requires Idle() && (txn != null ==> txn.pageSet == [] && txn.deletedPageSet == {})
      modifies this`rootLocked, pool`readers, pool`trace, pool`pins, pool`touched, txn
      ensures Idle() && pool.pins == old(pool.pins) && (txn != null ==> txn.pageSet == [] && txn.deletedPageSet == {})
      ensures found == (key in contents) && (found ==> result == [contents[key]])
      ensures root == INVALID_PAGE_ID ==> result == result0
      ensures root != INVALID_PAGE_ID && !found ==> result == [if result0 == [] then 0 else result0[0]]
    {
      hide TreeFine, InRange, PagePool.Valid;
      var leaf := FindLeafPageRead(key, false, txn);
      if leaf == INVALID_PAGE_ID {
        return false, result0;
      }
      var value;
      found, value := LookupInLeaf(leaf, key);
      result := [if found then value else if result0 == [] then 0 else result0[0]];
      FreePagesRead(txn, leaf, old(pool.pins), multiset{});
    }

    // ----- deletion -----

    /** The operation is done with the tree, but pages marked for deletion are still there. */
    ghost predicate DoneDeleting(txn: Transaction, base: multiset<int>)
      reads this`root, this`lab, this`contents, this`rootLocked, pool, txn
    {
      && Running(txn, base) && pool.pages.Keys == lab.Keys + txn.deletedPageSet && lab.Keys !! txn.deletedPageSet
      && if root == INVALID_PAGE_ID then lab == map[] && contents == map[]
         else TreeFine(pool.caps, pool.pages, lab, root, contents)
    }

    /** Page p has lost a pair and may be too small. */
    ghost predicate Shrunk(txn: Transaction, base: multiset<int>, p: int)
      reads this`root, this`lab, this`contents, this`rootLocked, pool, txn
    {
      && Running(txn, base) && pool.pages.Keys == lab.Keys + txn.deletedPageSet && lab.Keys !! txn.deletedPageSet
      && root != INVALID_PAGE_ID
      && Lost(pool.caps, pool.pages, lab, root, contents, p, rootLocked > 0, txn.Held())
    }

    /**
     * The root lost a pair: an empty leaf ends the tree, an internal page with one child gives way to the child.
     * True means that the old root is no longer a page of the tree.
     */
    method AdjustRoot(ghost locked: bool, ghost held: set<int>) returns (gone: bool)
      requires pool.Valid() && root in pool.pins && pool.caps.Valid()
      requires Lost(pool.caps, pool.pages, lab, root, contents, root, locked, held) && Under(pool.pages[root])
      modifies this`root, this`lab, this`header, pool`pages, pool`pins, pool`touched
      ensures pool.Valid() && pool.pins == old(pool.pins)
      ensures gone == (root != old(root)) && lab.Keys == if gone then old(lab.Keys) - {old(root)} else old(lab.Keys)
      ensures header == HeaderAfter(old(header), name, old(root), root)
      ensures Rework(old(Moment(pool.pages, held, pool.nextPageId)), Moment(pool.pages, held, pool.nextPageId))
      ensures pool.pages.Keys == old(pool.pages.Keys)
      ensures if root == INVALID_PAGE_ID then lab == map[] && contents == map[]
              else TreeFine(pool.caps, pool.pages, lab, root, contents)
      ensures pool.touched <= old(pool.touched) + {old(root)}
    {
      hide TreeFine, TreeOk, Lost, Rework;
      RootGone(pool.caps, pool.pages, lab, root, contents, locked, held, pool.nextPageId);
      ReworkNone(Moment(pool.pages, held, pool.nextPageId));
      ghost var s, node := pool.pages, root;
      if pool.pages[root].leaf {
        root, lab := INVALID_PAGE_ID, map[];
        UpdateRootPageId(false);
        return true;
      }
      if |pool.pages[root].entries| == 1 {
        var child := pool.pages[root].entries[0].val;
        pool.RemoveEntry(root, 0);
        lab, root := lab - {root}, child;
        UpdateRootPageId(false);
        pool.AdoptChild(child, INVALID_PAGE_ID);
        assert pool.pages == Shrunken(s, node, child);
        return true;
      }
      return false;
    }

    /** How many levels there are above a page. */
    ghost function Rank(p: int): nat
      reads this`root, this`lab
    {
      if p in lab && root in lab && lab[p].level <= lab[root].level then lab[root].level - lab[p].level else 0
    }

    /** A too small page x and a neighbour, both held, are about to be merged or to exchange a pair. */
    ghost predicate Paired(txn: Transaction, base: multiset<int>, x: int, q: int, i: nat, l: int, r: int)
      reads this`root, this`lab, this`contents, this`rootLocked, pool, txn
    {
      && Running(txn, base) && pool.pages.Keys == lab.Keys + txn.deletedPageSet && lab.Keys !! txn.deletedPageSet
      && root != INVALID_PAGE_ID
      && Pair(pool.caps, pool.pages, lab, root, contents, x, q, i, l, r, rootLocked > 0, txn.Held())
    }

    /** The slot of a page in its parent, and the page next to it: the left one unless there is none. */
    method SiblingOf(node: int) returns (sibling: int, isRight: bool)
      requires pool.Valid() && node in pool.pages && pool.pages[node].parent in pool.pages
      requires |pool.pages[pool.pages[node].parent].entries| >= 2
      requires ValueIndex(pool.pages[pool.pages[node].parent].entries, node) >= 0
      requires pool.pages[node].parent in pool.pins
      modifies pool`pins, pool`touched
      ensures pool.Valid() && pool.pins == old(pool.pins)
      ensures
        var es := pool.pages[pool.pages[node].parent].entries;
        var index := ValueIndex(es, node);
        isRight == (index == 0) && sibling == es[if index == 0 then 1 else index - 1].val
      ensures pool.touched == old(pool.touched)
    {
      var parentId := pool.pages[node].parent;
      pool.FetchPage(parentId);
      var parent := pool.Load(parentId);
      var index := parent.ValueIndexOf(node);
      isRight := index == 0;
      sibling := parent.slots[if index == 0 then 1 else index - 1].val;
      ghost var at := if index == 0 then 1 else index - 1;
      assert parent.View().entries[at] == parent.slots[at];
      pool.UnpinPage(parentId, false);
    }

    /** Latch the left sibling, or the right one of a first child. */
    method FindLeftSibling(node: int, txn: Transaction, ghost base: multiset<int>)
      returns (sibling: int, isRight: bool, ghost q: int, ghost i: nat)
      requires Shrunk(txn, base, node) && Under(pool.pages[node]) && node != root
      modifies this`rootLocked, pool`latched, pool`trace, pool`pins, pool`pages, pool`touched, txn
      ensures node in old(pool.pages) && q == old(pool.pages)[node].parent && (isRight ==> i == 0)
      ensures if isRight then Paired(txn, base, node, q, i, node, sibling) else Paired(txn, base, node, q, i, sibling, node)
      ensures sibling !in old(txn.Held()) && rootLocked == old(rootLocked)
      ensures sibling in old(pool.pages) && old(pool.pages)[sibling].parent in old(txn.Held())
      ensures txn.Held() == old(txn.Held()) + {sibling} && txn.deletedPageSet == old(txn.deletedPageSet)
      ensures pool.pages == old(pool.pages) && pool.nextPageId == old(pool.nextPageId)
    {
      hide Lost, Pair, Under;
      SiblingFree(pool.caps, pool.pages, lab, root, contents, node, rootLocked > 0, txn.Held());
      q := pool.pages[node].parent;
      sibling, isRight := SiblingOf(node);
      i := if isRight then 0 else ValueIndex(pool.pages[q].entries, node) - 1;
      ghost var l, r := if isRight then node else sibling, if isRight then sibling else node;
      PairFacts(pool.caps, pool.pages, lab, root, contents, node, q, i, l, r, rootLocked > 0, txn.Held() + {sibling});
      CrabingProtocalFetchPage(sibling, DELETE, -1, txn, base);
    }

    /** Move one pair from the neighbour to the small page. */
    method Redistribute(neighbor: int, node: int, index: nat, txn: Transaction, ghost base: multiset<int>,
                        ghost q: int, ghost i: nat, ghost l: int, ghost r: int)
      requires Paired(txn, base, node, q, i, l, r) && neighbor == (if node == l then r else l) && (node == l ==> i == 0)
      requires index == ValueIndex(pool.pages[q].entries, node)
      requires |pool.pages[l].entries| + |pool.pages[r].entries| > pool.pages[l].max
      modifies pool`pages, pool`pins, pool`touched, this`lab
      ensures DoneDeleting(txn, base) && Rework(old(Now(txn)), Now(txn))
    {
      hide TreeFine, Pair, Rework, ShiftedLeft, ShiftedRight, Latches;
      LatchesLater(txn.pageSet, pool.latched, pool.readers, pool.pins, base, pool.nextPageId, pool.nextPageId);
      ghost var s, held, locked := pool.pages, txn.Held(), rootLocked > 0;
      ShiftPair(neighbor, node, index, q, i, l, r, locked, held);
      PairShifted(pool.caps, s, lab, root, contents, pool.pages, node, q, i, l, r, locked, held, pool.nextPageId);
      lab := RecutLabels(lab, l, r, pool.pages[r].entries[0].key);
    }

    /** A first child borrows from its right neighbour, any other from its left one. */
    method ShiftPair(neighbor: int, node: int, index: nat, ghost q: int, ghost i: nat, ghost l: int, ghost r: int,
                     ghost locked: bool, ghost held: set<int>)
      requires pool.Valid() && Pair(pool.caps, pool.pages, lab, root, contents, node, q, i, l, r, locked, held)
      requires held <= set x | x in pool.pins
      requires neighbor == (if node == l then r else l) && (node == l ==> i == 0)
      requires index == ValueIndex(pool.pages[q].entries, node)
      requires |pool.pages[l].entries| + |pool.pages[r].entries| > pool.pages[l].max
      modifies pool`pages, pool`pins, pool`touched
      ensures pool.Valid() && pool.pins == old(pool.pins)
      ensures if node == l then ShiftedLeft(old(pool.pages), pool.pages, q, i, l, r)
              else ShiftedRight(old(pool.pages), pool.pages, q, i, l, r)
      ensures pool.touched <= old(pool.touched) + held
    {
      hide ShiftedLeft, ShiftedRight, CanShift, Pair;
      PairFacts(pool.caps, pool.pages, lab, root, contents, node, q, i, l, r, locked, held);
      if index == 0 {
        pool.MoveFirstToEndOf(neighbor, node, q, i);
      } else {
        pool.MoveLastToFrontOf(neighbor, node, index, q, i);
      }
    }

    /** The page moves of a merge. */
    method MergePages(l: int, r: int, q: int, index: nat, ghost x: int, ghost i: nat, ghost locked: bool,
                      ghost held: set<int>)
      requires pool.Valid() && Pair(pool.caps, pool.pages, lab, root, contents, x, q, i, l, r, locked, held)
      requires held <= (set p | p in pool.pins) && index == i + 1
      requires |pool.pages[l].entries| + |pool.pages[r].entries| <= pool.pages[l].max
      modifies pool`pages, pool`pins, pool`touched
      ensures pool.Valid() && pool.pins == old(pool.pins) && MergeDone(old(pool.pages), pool.pages, q, i, l, r)
      ensures pool.touched <= old(pool.touched) + held
    {
      hide MovedAll;
      hide Pair, CanShift, Moved;
      PairFacts(pool.caps, pool.pages, lab, root, contents, x, q, i, l, r, locked, held);
      ghost var s := pool.pages;
      pool.MoveAllTo(r, l, index);
      ParentApart(pool.caps, s, lab, root, contents, pool.pages, x, q, i, l, r, locked, held);
      ghost var s1 := pool.pages;
      pool.RemoveEntry(q, index);
      assert pool.pages[q := s[q]] == s1;
    }

    /** Merge page r into its left neighbour l; page r is deleted when the operation ends. */
    method Coalesce(l: int, r: int, q: int, index: nat, txn: Transaction, ghost base: multiset<int>, ghost x: int,
                    ghost i: nat)
      requires Paired(txn, base, x, q, i, l, r) && index == i + 1
      requires |pool.pages[l].entries| + |pool.pages[r].entries| <= pool.pages[l].max
      modifies pool`pages, pool`pins, pool`touched, this`lab, txn`deletedPageSet
      ensures Shrunk(txn, base, q) && Rework(old(Now(txn)), Now(txn))
      ensures txn.deletedPageSet == old(txn.deletedPageSet) + {r}
      ensures Rank(q) < old(Rank(x)) && q in pool.pages && !pool.pages[q].leaf
    {
      hide Pair, Rework, MergeDone, Lost, MergeLabels, CanShift, Latches, PagePool.Valid, ChildrenLive, Elements;
      PairFacts(pool.caps, pool.pages, lab, root, contents, x, q, i, l, r, rootLocked > 0, txn.Held());
      LatchesLater(txn.pageSet, pool.latched, pool.readers, pool.pins, base, pool.nextPageId, pool.nextPageId);
      Retired(pool.pages.Keys, lab.Keys, txn.deletedPageSet, r);
      MergeInto(l, r, q, index, x, i, rootLocked > 0, txn.Held());
      txn.deletedPageSet := txn.deletedPageSet + {r};
    }

    /** Page r hands its pairs to l, and the parent forgets it; page r is still there. */
    method MergeInto(l: int, r: int, q: int, index: nat, ghost x: int, ghost i: nat, ghost locked: bool,
                     ghost held: set<int>)
      requires pool.Valid() && Pair(pool.caps, pool.pages, lab, root, contents, x, q, i, l, r, locked, held)
      requires held <= (set p | p in pool.pins) && index == i + 1
      requires |pool.pages[l].entries| + |pool.pages[r].entries| <= pool.pages[l].max
      modifies pool`pages, pool`pins, pool`touched, this`lab
      ensures pool.Valid() && pool.pins == old(pool.pins) && pool.touched <= old(pool.touched) + held
      ensures pool.pages.Keys == old(pool.pages.Keys) && lab.Keys == old(lab.Keys) - {r}
      ensures Lost(pool.caps, pool.pages, lab, root, contents, q, locked, held)
      ensures Rework(old(Moment(pool.pages, held, pool.nextPageId)), Moment(pool.pages, held, pool.nextPageId))
      ensures Rank(q) < old(Rank(x)) && q in pool.pages && !pool.pages[q].leaf
    {
      hide Pair, Rework, MergeDone, Lost, MergeLabels, CanShift, PagePool.Valid, ChildrenLive;
      PairFacts(pool.caps, pool.pages, lab, root, contents, x, q, i, l, r, locked, held);
      ghost var s := pool.pages;
      MergePages(l, r, q, index, x, i, locked, held);
      ParentLoses(pool.caps, s, lab, root, contents, pool.pages, q, i, l, r, x, locked, held, pool.nextPageId);
      lab := MergeLabels(lab, l, r);
    }

    /**
     * Page `node` is too small: give up the root, merge with a neighbour, or borrow a pair from it.  A merge takes
     * a pair from the parent, which may then be too small in turn.
     */
    method CoalesceOrRedistribute(node: int, txn: Transaction, ghost base: multiset<int>) returns (deleted: bool)
      requires Shrunk(txn, base, node) && node in pool.pages && Under(pool.pages[node])
      modifies this`root, this`lab, this`header, this`rootLocked, pool, txn
      ensures DoneDeleting(txn, base) && header == HeaderAfter(old(header), name, old(root), root)
      ensures Rework(old(Now(txn)), Now(txn)) && (root != old(root) ==> old(rootLocked) > 0)
      ensures old(txn.deletedPageSet) <= txn.deletedPageSet
      ensures deleted == (txn.deletedPageSet != old(txn.deletedPageSet))
      decreases Rank(node), 2
    {
      hide Lost, Under, Rework, TreeFine, Pair, Latches;
      LostFacts(pool.caps, pool.pages, lab, root, contents, node, rootLocked > 0, txn.Held());
      if pool.pages[node].parent == INVALID_PAGE_ID {
        deleted := DropRoot(txn, base);
      } else {
        ghost var start := Now(txn);
        var sibling, isRight, q, i := FindLeftSibling(node, txn, base);
        ReworkHeld(start, sibling);
        deleted := MergeOrBorrow(node, sibling, isRight, txn, base, q, i);
        ReworkTwice(start, start.(held := start.held + {sibling}), Now(txn));
      }
    }

    method DropRoot(txn: Transaction, ghost base: multiset<int>) returns (deleted: bool)
      requires Shrunk(txn, base, root) && Under(pool.pages[root])
      modifies this`root, this`lab, this`header, pool`pages, pool`pins, pool`touched, txn`deletedPageSet
      ensures DoneDeleting(txn, base) && header == HeaderAfter(old(header), name, old(root), root)
      ensures Rework(old(Now(txn)), Now(txn)) && rootLocked > 0
      ensures old(txn.deletedPageSet) <= txn.deletedPageSet
      ensures deleted == (txn.deletedPageSet != old(txn.deletedPageSet))
    {
      hide Lost, Under, Rework, TreeFine, Latches;
      LostFacts(pool.caps, pool.pages, lab, root, contents, root, rootLocked > 0, txn.Held());
      LatchesLater(txn.pageSet, pool.latched, pool.readers, pool.pins, base, pool.nextPageId, pool.nextPageId);
      var node := root;
      deleted := AdjustRoot(rootLocked > 0, txn.Held());
      if deleted { txn.deletedPageSet := txn.deletedPageSet + {node}; }
    }

    /** Merge if the pairs of the two pages fit into one, and borrow otherwise. */
    method MergeOrBorrow(node: int, sibling: int, isRight: bool, txn: Transaction, ghost base: multiset<int>,
                         ghost q: int, ghost i: nat) returns (deleted: bool)
      requires isRight ==> i == 0
      requires if isRight then Paired(txn, base, node, q, i, node, sibling) else Paired(txn, base, node, q, i, sibling, node)
      requires node in pool.pages && pool.pages[node].parent == q
      modifies this`root, this`lab, this`header, this`rootLocked, pool, txn
      ensures DoneDeleting(txn, base) && header == HeaderAfter(old(header), name, old(root), root)
      ensures Rework(old(Now(txn)), Now(txn)) && (root != old(root) ==> old(rootLocked) > 0)
      ensures old(txn.deletedPageSet) <= txn.deletedPageSet
      ensures deleted == (txn.deletedPageSet != old(txn.deletedPageSet))
      decreases Rank(node), 1
    {
      hide Pair, Rework, TreeFine, Latches, DoneDeleting, PagePool.Valid;
      ghost var l, r := if isRight then node else sibling, if isRight then sibling else node;
      PairFacts(pool.caps, pool.pages, lab, root, contents, node, q, i, l, r, rootLocked > 0, txn.Held());
      var parentId := pool.pages[node].parent;
      PinExtra(parentId, txn, base, node, q, i, l, r);
      if |pool.pages[node].entries| + |pool.pages[sibling].entries| <= pool.pages[node].max {
        var left, right := if isRight then node else sibling, if isRight then sibling else node;
        MergeUp(left, right, parentId, txn, base + multiset{q}, node, i);
        UnpinLast(parentId, true, txn, base);
        deleted := true;
      } else {
        Borrow(node, sibling, parentId, txn, base, i, l, r);
        deleted := false;
      }
    }

    /** Get a pair from a neighbour.  The parent is unpinned as clean; whoever gave it a new key has said that it is not. */
    method Borrow(node: int, sibling: int, q: int, txn: Transaction, ghost base: multiset<int>, ghost i: nat,
                  ghost l: int, ghost r: int)
      requires Paired(txn, base + multiset{q}, node, q, i, l, r) && node in {l, r}
      requires sibling == (if node == l then r else l) && (node == l ==> i == 0)
      requires |pool.pages[l].entries| + |pool.pages[r].entries| > pool.pages[l].max
      modifies pool`pages, pool`pins, pool`touched, this`lab
      ensures DoneDeleting(txn, base) && Rework(old(Now(txn)), Now(txn))
    {
      hide Pair, Rework, TreeFine, Latches, PagePool.Valid;
      PairFacts(pool.caps, pool.pages, lab, root, contents, node, q, i, l, r, rootLocked > 0, txn.Held());
      PairedSlots(txn, base + multiset{q}, node, q, i, l, r);
      var parent := pool.Load(q);
      var indexInParent := parent.ValueIndexOf(node);
      Redistribute(sibling, node, indexInParent, txn, base + multiset{q}, q, i, l, r);
      UnpinLast(q, false, txn, base);
    }

    method PinExtra(q: int, txn: Transaction, ghost base: multiset<int>, ghost x: int, ghost q': int, ghost i: nat,
                    ghost l: int, ghost r: int)
      requires Paired(txn, base, x, q', i, l, r) && q in pool.pages
      modifies pool`pins, pool`touched
      ensures Paired(txn, base + multiset{q}, x, q', i, l, r) && q in pool.pins
    {
      hide Pair;
      pool.FetchPage(q);
    }

    method UnpinLast(q: int, dirty: bool, txn: Transaction, ghost base: multiset<int>)
      requires DoneDeleting(txn, base + multiset{q})
      requires dirty || q in txn.Held()
      modifies pool`pins, pool`touched
      ensures DoneDeleting(txn, base)
    {
      hide TreeFine;
      assert forall p :: p in base ==> p in base + multiset{q};
      pool.UnpinPage(q, dirty);
    }

    /** Merge r into l, and go on with the parent if it is at or below its minimum. */
    method MergeUp(l: int, r: int, q: int, txn: Transaction, ghost base: multiset<int>, ghost x: int, ghost i: nat)
      requires Paired(txn, base, x, q, i, l, r)
      requires |pool.pages[l].entries| + |pool.pages[r].entries| <= pool.pages[l].max
      modifies this`root, this`lab, this`header, this`rootLocked, pool, txn
      ensures DoneDeleting(txn, base) && header == HeaderAfter(old(header), name, old(root), root)
      ensures Rework(old(Now(txn)), Now(txn)) && (root != old(root) ==> old(rootLocked) > 0)
      ensures old(txn.deletedPageSet) <= txn.deletedPageSet && txn.deletedPageSet != old(txn.deletedPageSet)
      decreases Rank(x), 0
    {
      hide Pair, Rework, TreeFine, Latches, Lost;
      ghost var start := Now(txn);
      PairedSlots(txn, base, x, q, i, l, r);
      var parent := pool.Load(q);
      var removeIndex := parent.ValueIndexOf(r);
      Coalesce(l, r, q, removeIndex, txn, base, x, i);
      ghost var middle := Now(txn);
      ShrinkParent(q, txn, base);
      ReworkTwice(start, middle, Now(txn));
    }

    /** The parent after a merge: nothing more to do, unless it is now at or below its minimum. */
    method ShrinkParent(q: int, txn: Transaction, ghost base: multiset<int>)
      requires Shrunk(txn, base, q) && q in pool.pages && !pool.pages[q].leaf
      modifies this`root, this`lab, this`header, this`rootLocked, pool, txn
      ensures DoneDeleting(txn, base) && header == HeaderAfter(old(header), name, old(root), root)
      ensures Rework(old(Now(txn)), Now(txn)) && (root != old(root) ==> old(rootLocked) > 0)
      ensures old(txn.deletedPageSet) <= txn.deletedPageSet
      decreases Rank(q), 3
    {
      hide Rework, TreeFine, Latches, Lost, SizeOk;
      LostFacts(pool.caps, pool.pages, lab, root, contents, q, rootLocked > 0, txn.Held());
      if |pool.pages[q].entries| <= MinSize(pool.pages[q]) {
        var deleted := CoalesceOrRedistribute(q, txn, base);
      } else {
        ReworkNone(Now(txn));
      }
    }

    /** The slots of a pair in its parent. */
    lemma PairedSlots(txn: Transaction, base: multiset<int>, x: int, q: int, i: nat, l: int, r: int)
      requires Paired(txn, base, x, q, i, l, r)
      ensures q in pool.pages && q in pool.pins && ValueIndex(pool.pages[q].entries, r) == i + 1
      ensures r !in txn.deletedPageSet
    {
      PairFacts(pool.caps, pool.pages, lab, root, contents, x, q, i, l, r, rootLocked > 0, txn.Held());
    }

    /** Drop the pair for a key from its leaf, if there is one. */
    method TakeFromLeaf(leaf: int, key: int, txn: Transaction, ghost base: multiset<int>) returns (size: int)
      requires At(DELETE, key, txn, base, leaf) && pool.pages[leaf].leaf
      modifies pool`pages, pool`touched, this`contents
      ensures Shrunk(txn, base, leaf) && contents == old(contents) - {key}
      ensures leaf in pool.pages && pool.pages[leaf].leaf && size == |pool.pages[leaf].entries|
      ensures key !in old(contents) ==> pool.pages == old(pool.pages) && size >= MinSize(pool.pages[leaf])
      ensures Rework(old(Now(txn)), Now(txn))
    {
      hide Lost, Rework, TreeFine, Latches, InRange, HasKey, ChainFrom;
      LeafHeld(DELETE, key, txn, base, leaf);
      InnerSize(pool.caps, pool.pages, lab, root, contents, leaf);
      LeafKnows(pool.caps, pool.pages, lab, root, contents, leaf, key);
      if HasKey(pool.pages[leaf].entries, key) {
        LeafLoses(pool.caps, pool.pages, lab, root, contents, leaf, key, rootLocked > 0, txn.Held(), pool.nextPageId);
      } else {
        LeafKeeps(pool.caps, pool.pages, lab, root, contents, leaf, key, rootLocked > 0, txn.Held(), pool.nextPageId);
      }
      size := pool.LeafRemove(leaf, key);
      contents := contents - {key};
    }

    /** Remove from the leaf that has been found, and rebalance as far up as needed. */
    method RemoveAtLeaf(leaf: int, key: int, txn: Transaction, ghost base: multiset<int>)
      requires At(DELETE, key, txn, base, leaf) && pool.pages[leaf].leaf
      modifies this`root, this`lab, this`contents, this`header, this`rootLocked, pool, txn
      ensures DoneDeleting(txn, base) && contents == old(contents) - {key}
      ensures key !in old(contents) ==> pool.pages == old(pool.pages) && txn.deletedPageSet == {}
      ensures header == HeaderAfter(old(header), name, old(root), root)
      ensures Rework(old(Now(txn)), Now(txn)) && (root != old(root) ==> old(rootLocked) > 0)
    {
      hide Lost, Rework, TreeFine, Latches, PathTo, Tight, InRange;
      ghost var start := Now(txn);
      var size := TakeFromLeaf(leaf, key, txn, base);
      ghost var middle := Now(txn);
      LostFacts(pool.caps, pool.pages, lab, root, contents, leaf, rootLocked > 0, txn.Held());
      if size < MinSize(pool.pages[leaf]) {
        var deleted := CoalesceOrRedistribute(leaf, txn, base);
        ReworkTwice(start, middle, Now(txn));
      }
    }

    /** Release everything at the end of a deletion; the pages that were merged away are deleted. */
    method FinishDeleting(txn: Transaction, ghost base: multiset<int>)
      requires DoneDeleting(txn, base) && forall p :: p in txn.deletedPageSet ==> p !in base
      modifies this`rootLocked, pool`latched, pool`trace, pool`pins, pool`pages, pool`touched, txn
      ensures Tree() && Running(txn, base) && rootLocked == 0 && txn.pageSet == [] && txn.deletedPageSet == {}
      ensures pool.pages == old(pool.pages) - old(txn.deletedPageSet)
    {
      hide TreeFine;
      if root != INVALID_PAGE_ID {
        DropPages(pool.caps, pool.pages, lab, root, contents, txn.deletedPageSet);
      }
      FreePagesInTransaction(true, txn, base, {});
    }

    /** Remove below a non-empty root; the latches are those of Remove. */
    method RemoveBelowRoot(key: int, txn: Transaction, ghost base: multiset<int>)
      returns (ghost leaf: int, ghost path: set<int>, ghost locked: bool, ghost held: set<int>)
      requires Tree() && root != INVALID_PAGE_ID && Running(txn, base) && rootLocked == 0
      requires txn.pageSet == [] && txn.deletedPageSet == {} && forall p :: p in pool.pages ==> p !in base
      modifies this, pool, txn
      ensures Tree() && Running(txn, base) && rootLocked == 0 && txn.pageSet == [] && txn.deletedPageSet == {}
      ensures contents == old(contents) - {key} && header == HeaderAfter(old(header), name, old(root), root)
      ensures pool.nextPageId == old(pool.nextPageId)
      ensures key !in old(contents) ==> pool.pages == old(pool.pages)
      ensures pool.pages.Keys <= old(pool.pages.Keys) && old(pool.pages.Keys) - pool.pages.Keys <= held
      ensures PathTo(DELETE, old(pool.pages), old(lab), locked, path, leaf) && InRange(old(lab)[leaf], key)
      ensures Tight(DELETE, old(pool.pages), old(lab), old(root), locked, path)
      ensures path <= held && ChildrenOf(old(pool.pages), path, held)
      ensures Confined(old(pool.pages), pool.pages, held) && (root != old(root) ==> locked)
    {
      hide TreeFine, PathTo, Tight, InRange, Rework, Confined, ChildrenOf, GoesUp, PagePool.Valid, Distinct, Elements;
      var page := FindLeafPage(key, DELETE, txn, base);
      leaf, path, locked := page, txn.Held(), rootLocked > 0;
      ghost var start := Now(txn);
      RemoveAtLeaf(page, key, txn, base);
      held := txn.Held();
      ReworkMeans(start, Now(txn), txn.deletedPageSet);
      FinishDeleting(txn, base);
    }

    /**
     * Remove the pair for a key, if there is one.  `path` and `locked` are the latches when the leaf has been
     * found, `held` those at the end: siblings have joined.  Only held pages are written, apart from the parent
     * ids of their children, and the root id only under its latch.
     */
    method Remove(key: int, txn: Transaction)
      returns (ghost leaf: int, ghost path: set<int>, ghost locked: bool, ghost held: set<int>)
      requires Idle() && txn.pageSet == [] && txn.deletedPageSet == {}
      modifies this, pool, txn
      ensures Idle() && txn.pageSet == [] && txn.deletedPageSet == {} && pool.pins == old(pool.pins)
      ensures contents == old(contents) - {key} && pool.nextPageId == old(pool.nextPageId)
      ensures key !in old(contents) ==> pool.pages == old(pool.pages)
      ensures header == HeaderAfter(old(header), name, old(root), root) && (old(HeaderAgrees()) ==> HeaderAgrees())
      ensures pool.pages.Keys <= old(pool.pages.Keys) && old(pool.pages.Keys) - pool.pages.Keys <= held
      ensures old(root) != INVALID_PAGE_ID ==>
        && PathTo(DELETE, old(pool.pages), old(lab), locked, path, leaf) && InRange(old(lab)[leaf], key)
        && Tight(DELETE, old(pool.pages), old(lab), old(root), locked, path)
        && path <= held && ChildrenOf(old(pool.pages), path, held)
        && Confined(old(pool.pages), pool.pages, held) && (root != old(root) ==> locked)
    {
      hide TreeFine, PathTo, Tight, InRange, Rework, Confined, ChildrenOf;
      leaf, path, locked, held := 0, {}, false, {};
      if IsEmpty() {
        assert contents - {key} == contents;
        return;
      }
      leaf, path, locked, held := RemoveBelowRoot(key, txn, pool.pins);
    }
  }
}
