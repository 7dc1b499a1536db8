/** Range scans: an iterator keeps one leaf pinned and read-latched and follows the sibling links. */
module IndexIterators {
  import opened Common
  import opened TreeModel
  import opened TreeState
  import opened PagePools
  import opened BPlusTrees

  /** The keys still to come for an iterator at slot i of leaf p: those from slot i on, and those of later leaves. */
  ghost function Remaining(s: Store, lab: Labels, m: map<int, int>, p: int, i: nat): set<int>
    requires p in s && p in lab
  {
    set k | k in m && (!Below(k, lab[p].hi) || exists j :: i <= j < |s[p].entries| && s[p].entries[j].key == k)
  }

  /** The leftmost leaf starts with all keys. */
  lemma AllRemain(c: Caps, s: Store, lab: Labels, root: int, m: map<int, int>, p: int)
    requires TreeFine(c, s, lab, root, m) && p in lab && s[p].leaf && lab[p].lo.None?
    ensures Remaining(s, lab, m, p, 0) == m.Keys
  {
    forall k | k in m ensures k in Remaining(s, lab, m, p, 0) {
      if Below(k, lab[p].hi) { LeafDecides(s, lab, root, m, p, k); }
    }
  }

  /** The leaf responsible for k, at its lower bound: the keys from k on. */
  lemma FromKeyRemain(c: Caps, s: Store, lab: Labels, root: int, m: map<int, int>, p: int, k: int)
    requires TreeFine(c, s, lab, root, m) && p in lab && s[p].leaf && InRange(lab[p], k)
    ensures forall x :: x in Remaining(s, lab, m, p, LowerBound(s[p].entries, k)) <==> x in m && x >= k
    ensures LowerBound(s[p].entries, k) < |s[p].entries| <==> exists x :: x in m && x >= k && Below(x, lab[p].hi)
  {
    var es, i := s[p].entries, LowerBound(s[p].entries, k);
    forall x ensures x in Remaining(s, lab, m, p, i) <==> x in m && x >= k {
      KeyRemains(c, s, lab, root, m, p, k, x);
    }
    forall x | x in m && x >= k && Below(x, lab[p].hi) ensures i < |es| {
      KeyRemains(c, s, lab, root, m, p, k, x);
    }
    if i < |es| {
      assert PageOk(s, lab, root, p);
      LeafDecides(s, lab, root, m, p, es[i].key);
      assert es[i].key in m;
    }
  }

  lemma KeyRemains(c: Caps, s: Store, lab: Labels, root: int, m: map<int, int>, p: int, k: int, x: int)
    requires TreeFine(c, s, lab, root, m) && p in lab && s[p].leaf && InRange(lab[p], k)
    ensures
      var es, i := s[p].entries, LowerBound(s[p].entries, k);
      && (x in Remaining(s, lab, m, p, i) <==> x in m && x >= k)
      && (x in m && x >= k && Below(x, lab[p].hi) ==> i < |es|)
  {
    var es, i := s[p].entries, LowerBound(s[p].entries, k);
    assert PageOk(s, lab, root, p);
    if x in m && x >= k && Below(x, lab[p].hi) {
      LeafDecides(s, lab, root, m, p, x);
    }
  }

  /** The pair an iterator stands on has the least of the remaining keys; stepping over it removes just that key. */
  lemma CurrentIsLeast(c: Caps, s: Store, lab: Labels, root: int, m: map<int, int>, p: int, i: nat)
    requires TreeFine(c, s, lab, root, m) && p in lab && s[p].leaf && i < |s[p].entries|
    ensures
      var e := s[p].entries[i];
      && e.key in Remaining(s, lab, m, p, i) && m[e.key] == e.val
      && Remaining(s, lab, m, p, i + 1) == Remaining(s, lab, m, p, i) - {e.key}
      && forall k :: k in Remaining(s, lab, m, p, i) ==> e.key <= k
  {
    assert PageOk(s, lab, root, p);
    LeafDecides(s, lab, root, m, p, s[p].entries[i].key);
  }

  /** Behind the last slot of a leaf: either nothing remains, or the next leaf starts with what remains. */
  lemma LeafEnd(c: Caps, s: Store, lab: Labels, root: int, m: map<int, int>, p: int, i: nat)
    requires c.Valid() && TreeFine(c, s, lab, root, m) && p in lab && s[p].leaf && i >= |s[p].entries|
    ensures
      var r := s[p].next;
      if r == INVALID_PAGE_ID then Remaining(s, lab, m, p, i) == {}
      else r in lab && s[r].leaf && |s[r].entries| > 0 && lab[r].lo == lab[p].hi
           && Remaining(s, lab, m, r, 0) == Remaining(s, lab, m, p, i)
  {
    assert PageOk(s, lab, root, p);
    var r := s[p].next;
    if r != INVALID_PAGE_ID {
      InnerSize(c, s, lab, root, m, r);
      assert PageOk(s, lab, root, r);
      forall k ensures k in Remaining(s, lab, m, r, 0) <==> k in Remaining(s, lab, m, p, i) {
        if k in m && !Below(k, lab[p].hi) && Below(k, lab[r].hi) { LeafDecides(s, lab, root, m, r, k); }
      }
    }
  }

  class IndexIterator {
    const tree: BPlusTree
    var index: nat
    var leafPage: int

    constructor (tree: BPlusTree, leaf: int, index: nat)
      ensures this.tree == tree && leafPage == leaf && this.index == index
    {
      this.tree, leafPage, this.index := tree, leaf, index;
    }

    /** The iterator has one leaf pinned and read-latched, or is at its end; `base` are the other pins. */
    ghost predicate Valid(base: multiset<int>)
      reads this, tree, tree.pool
    {
      && tree.Tree() && tree.rootLocked == 0 && tree.pool.latched == {}
      && if leafPage == INVALID_PAGE_ID then tree.pool.readers == multiset{} && tree.pool.pins == base
         else
           && tree.root != INVALID_PAGE_ID && leafPage in tree.lab && tree.pool.pages[leafPage].leaf
           && tree.pool.readers == multiset{leafPage} && tree.pool.pins == base + multiset{leafPage}
    }

    /** The keys the scan will still visit. */
    ghost function Rest(): set<int>
      reads this, tree, tree.pool
      requires leafPage != INVALID_PAGE_ID ==> leafPage in tree.pool.pages && leafPage in tree.lab
    {
      if leafPage == INVALID_PAGE_ID then {}
      else Remaining(tree.pool.pages, tree.lab, tree.contents, leafPage, index)
    }

    /** Whether there is a pair at the iterator's slot; nothing in operator* checks it. */
    predicate OnPair()
      reads this, tree, tree.pool
    {
      leafPage in tree.pool.pages && index < |tree.pool.pages[leafPage].entries|
    }

    method UnlockAndUnpin(ghost base: multiset<int>)
      requires Valid(base) && leafPage != INVALID_PAGE_ID
      modifies tree.pool`readers, tree.pool`trace, tree.pool`pins, tree.pool`touched
      ensures tree.Tree() && tree.pool.readers == multiset{} && tree.pool.pins == base
      ensures tree.pool.trace == old(tree.pool.trace) + [Unlatched(leafPage)]
    {
      tree.pool.FetchPage(leafPage);
      tree.pool.ReadUnlatch(leafPage);
      tree.pool.UnpinPage(leafPage, false);
      tree.pool.UnpinPage(leafPage, false);
    }

    predicate IsEnd(): (end: bool)
      reads this
      ensures end <==> leafPage == INVALID_PAGE_ID
    {
      leafPage == INVALID_PAGE_ID
    }

    /** The current pair: the least of the remaining keys with its value. */
    method Current(ghost base: multiset<int>) returns (e: Entry)
      requires Valid(base) && !IsEnd() && OnPair()
      ensures e == tree.pool.pages[leafPage].entries[index]
      ensures e.key in Rest() && e.key in tree.contents && e.val == tree.contents[e.key]
      ensures forall k :: k in Rest() ==> e.key <= k
    {
      CurrentIsLeast(tree.pool.caps, tree.pool.pages, tree.lab, tree.root, tree.contents, leafPage, index);
      var page := tree.pool.Load(leafPage);
      assert page.View().entries[index] == page.slots[index];
      e := page.slots[index];
    }

    /** Step: exactly the current key is done, and the iterator is on a pair again or at its end. */
    method Next(ghost base: multiset<int>)
      requires Valid(base) && !IsEnd()
      modifies this, tree.pool`readers, tree.pool`trace, tree.pool`pins, tree.pool`touched
      ensures Valid(base) && (IsEnd() || OnPair())
      ensures Rest() ==
        if old(OnPair()) then old(Rest()) - {old(tree.pool.pages[leafPage].entries[index].key)} else old(Rest())
    {
      hide TreeFine, Remaining;
      if OnPair() {
        CurrentIsLeast(tree.pool.caps, tree.pool.pages, tree.lab, tree.root, tree.contents, leafPage, index);
      } else {
        LeafEnd(tree.pool.caps, tree.pool.pages, tree.lab, tree.root, tree.contents, leafPage, index);
        PastEnd(tree.pool.pages, tree.lab, tree.contents, leafPage, index, index + 1);
      }
      index := index + 1;
      if index >= |tree.pool.pages[leafPage].entries| { NextLeaf(base); }
    }

    /** Release the leaf that has been read, and only then take the next one. */
    method NextLeaf(ghost base: multiset<int>)
      requires Valid(base) && !IsEnd() && !OnPair()
      modifies this, tree.pool`readers, tree.pool`trace, tree.pool`pins, tree.pool`touched
      ensures Valid(base) && (IsEnd() || OnPair()) && Rest() == old(Rest())
      ensures tree.pool.trace == old(tree.pool.trace) + [Unlatched(old(leafPage))] +
        if IsEnd() then [] else [Latched(leafPage)]
    {
      hide TreeFine, Remaining, PagePool.Valid;
      LeafEnd(tree.pool.caps, tree.pool.pages, tree.lab, tree.root, tree.contents, leafPage, index);
      var next := tree.pool.pages[leafPage].next;
      UnlockAndUnpin(base);
      leafPage := next;
      if next != INVALID_PAGE_ID {
        tree.pool.FetchPage(next);
        tree.pool.ReadLatch(next);
        index := 0;
      }
    }
  }

  lemma PastEnd(s: Store, lab: Labels, m: map<int, int>, p: int, i: nat, j: nat)
    requires p in s && p in lab && i >= |s[p].entries| && j >= |s[p].entries|
    ensures Remaining(s, lab, m, p, i) == Remaining(s, lab, m, p, j)
  {
  }

  /** A scan of everything. */
  method Begin(tree: BPlusTree) returns (it: IndexIterator)
    requires tree.Idle()
    modifies tree`rootLocked, tree.pool`readers, tree.pool`trace, tree.pool`pins, tree.pool`touched
    ensures fresh(it) && it.tree == tree && it.Valid(old(tree.pool.pins)) && it.Rest() == tree.contents.Keys
    ensures it.IsEnd() || it.OnPair()
  {
    hide TreeFine, Remaining;
    var start := tree.FindLeafPageRead(0, true, null);
    tree.TryUnlockRootPageId(false);
    if tree.root != INVALID_PAGE_ID {
      AllRemain(tree.pool.caps, tree.pool.pages, tree.lab, tree.root, tree.contents, start);
      InnerSize(tree.pool.caps, tree.pool.pages, tree.lab, tree.root, tree.contents, start);
    }
    it := new IndexIterator(tree, start, 0);
  }

  /**
   * A scan from a key on.  The iterator is on a pair exactly if the leaf responsible for the key has a pair from
   * the key on; otherwise it stands behind the last pair of that leaf, although later leaves may have such pairs.
   */
  method BeginAt(tree: BPlusTree, key: int) returns (it: IndexIterator)
    requires tree.Idle()
    modifies tree`rootLocked, tree.pool`readers, tree.pool`trace, tree.pool`pins, tree.pool`touched
    ensures fresh(it) && it.tree == tree && it.Valid(old(tree.pool.pins))
    ensures forall k :: k in it.Rest() <==> k in tree.contents && k >= key
    ensures it.IsEnd() <==> tree.root == INVALID_PAGE_ID
    ensures !it.IsEnd() ==>
      && InRange(tree.lab[it.leafPage], key)
      && (it.OnPair() <==> exists k :: k in tree.contents && k >= key && Below(k, tree.lab[it.leafPage].hi))
  {
    hide TreeFine, Remaining, InRange, Below;
    var start := tree.FindLeafPageRead(key, false, null);
    tree.TryUnlockRootPageId(false);
    if start == INVALID_PAGE_ID {
      it := new IndexIterator(tree, start, 0);
      return;
    }
    InnerSize(tree.pool.caps, tree.pool.pages, tree.lab, tree.root, tree.contents, start);
    FromKeyRemain(tree.pool.caps, tree.pool.pages, tree.lab, tree.root, tree.contents, start, key);
    var page := tree.pool.Load(start);
    var idx := page.KeyIndex(key);
    it := new IndexIterator(tree, start, idx);
  }

  ghost predicate Ascending(es: seq<Entry>) {
    forall i, j :: 0 <= i < j < |es| ==> es[i].key < es[j].key
  }

  /** The pairs of m with keys in `todo` come after those in es, and the two make up m. */
  ghost predicate Scanned(m: map<int, int>, all: set<int>, es: seq<Entry>, todo: set<int>) {
    && Ascending(es) && todo <= all <= m.Keys
    && (forall e :: e in es <==> e.key in all && e.key !in todo && e.val == m[e.key])
    && (forall e, k :: e in es && k in todo ==> e.key < k)
  }

  lemma ScanNext(m: map<int, int>, all: set<int>, es: seq<Entry>, todo: set<int>, e: Entry)
    requires Scanned(m, all, es, todo) && e.key in todo && e.val == m[e.key]
    requires forall k :: k in todo ==> e.key <= k
    ensures Scanned(m, all, es + [e], todo - {e.key})
  {
    forall i | 0 <= i < |es| ensures es[i].key < e.key {
      assert es[i] in es;
    }
    forall d ensures d in es + [e] <==> d.key in all && d.key !in todo - {e.key} && d.val == m[d.key] {
    }
  }

  /**
   * From Begin() to the end: every pair of the tree once, in ascending key order; then nothing is pinned or
   * latched that was not before.
   */
  method Scan(tree: BPlusTree) returns (es: seq<Entry>)
    requires tree.Idle()
    modifies tree`rootLocked, tree.pool`readers, tree.pool`trace, tree.pool`pins, tree.pool`touched
    ensures tree.Idle() && tree.pool.pins == old(tree.pool.pins)
    ensures Ascending(es) && forall e :: e in es <==> e.key in tree.contents && e.val == tree.contents[e.key]
  {
    hide BPlusTree.Tree;
    var it := Begin(tree);
    es := Drain(tree, it, it.Rest(), old(tree.pool.pins));
  }

  /** Step an iterator to its end. */
  method Drain(tree: BPlusTree, it: IndexIterator, ghost all: set<int>, ghost base: multiset<int>) returns (es: seq<Entry>)
    requires it.tree == tree && it.Valid(base) && (it.IsEnd() || it.OnPair()) && it.Rest() == all <= tree.contents.Keys
    modifies it, tree.pool`readers, tree.pool`trace, tree.pool`pins, tree.pool`touched
    ensures it.Valid(base) && it.IsEnd()
    ensures Ascending(es) && forall e :: e in es <==> e.key in all && e.val == tree.contents[e.key]
  {
    hide BPlusTree.Tree, Remaining;
    es := [];
    while !it.IsEnd()
      invariant it.Valid(base) && (it.IsEnd() || it.OnPair())
      invariant Scanned(tree.contents, all, es, it.Rest())
      decreases it.Rest()
    {
      var e := it.Current(base);
      ScanNext(tree.contents, all, es, it.Rest(), e);
      es := es + [e];
      it.Next(base);
    }
  }

  /**
   * From Begin(key) to the end, if Begin(key) stands on a pair or at the end: exactly the pairs with that key or a
   * greater one, ascending.  It does so for every key that is there, and otherwise exactly if the leaf responsible for
   * the key has a pair from the key on.
   */
  method ScanFrom(tree: BPlusTree, key: int) returns (ok: bool, es: seq<Entry>, ghost leaf: int)
    requires tree.Idle()
    modifies tree`rootLocked, tree.pool`readers, tree.pool`trace, tree.pool`pins, tree.pool`touched
    ensures tree.Idle() && tree.pool.pins == old(tree.pool.pins)
    ensures tree.root != INVALID_PAGE_ID ==>
      && leaf in tree.lab && InRange(tree.lab[leaf], key)
      && (ok <==> exists k :: k in tree.contents && k >= key && Below(k, tree.lab[leaf].hi))
    ensures tree.root == INVALID_PAGE_ID || key in tree.contents ==> ok
    ensures ok ==>
      && Ascending(es)
      && forall e :: e in es <==> e.key in tree.contents && e.key >= key && e.val == tree.contents[e.key]
  {
    hide BPlusTree.Tree;
    var it := BeginAt(tree, key);
    ok, es, leaf := it.IsEnd() || it.OnPair(), [], it.leafPage;
    if ok {
      es := Drain(tree, it, it.Rest(), old(tree.pool.pins));
    } else {
      it.UnlockAndUnpin(old(tree.pool.pins));
    }
  }

  // ----- where Begin(key) does not stand on a pair -----

  /** Two leaves, 1 with keys 1 and 2, and 2 with keys 5 and 6, below root 3. */
  function TwoLeaves(): Store {
    map[1 := Node(true, 5, 3, 2, [Entry(1, 10), Entry(2, 20)]),
        2 := Node(true, 5, 3, INVALID_PAGE_ID, [Entry(5, 50), Entry(6, 60)]),
        3 := Node(false, 6, INVALID_PAGE_ID, INVALID_PAGE_ID, [Entry(0, 1), Entry(5, 2)])]
  }

  function TwoLeafLabels(): Labels {
    map[1 := Label(0, None, Some(5)), 2 := Label(0, Some(5), None), 3 := Label(1, None, None)]
  }

  /** A sound tree in which Begin(3) stands behind the last pair of its leaf although keys 5 and 6 are still to come. */
  lemma BeginMayMissItsPair()
    ensures
      var s, lab, m := TwoLeaves(), TwoLeafLabels(), map[1 := 10, 2 := 20, 5 := 50, 6 := 60];
      && TreeFine(Caps(5, 6), s, lab, 3, m) && s[1].leaf && InRange(lab[1], 3)
      && LowerBound(s[1].entries, 3) == |s[1].entries| && Remaining(s, lab, m, 1, LowerBound(s[1].entries, 3)) == {5, 6}
  {
    var s, lab, m := TwoLeaves(), TwoLeafLabels(), map[1 := 10, 2 := 20, 5 := 50, 6 := 60];
    TwoLeavesFine();
    hide TreeFine;
    LowerBoundUnique(s[1].entries, 3, 2);
  }

  lemma TwoLeavesFine()
    ensures TreeFine(Caps(5, 6), TwoLeaves(), TwoLeafLabels(), 3, map[1 := 10, 2 := 20, 5 := 50, 6 := 60])
  {
    TwoLeavesInv();
    TwoLeavesHold();
    hide Inv, Represents;
  }

  lemma TwoLeavesInv()
    ensures Inv(TwoLeaves(), TwoLeafLabels(), 3)
  {
    var s, lab := TwoLeaves(), TwoLeafLabels();
    assert s[3].entries[0].val == 1 && s[3].entries[1].val == 2;
    assert PageOk(s, lab, 3, 1) && PageOk(s, lab, 3, 2) && PageOk(s, lab, 3, 3);
  }

  lemma TwoLeavesHold()
    ensures Represents(TwoLeaves(), TwoLeafLabels(), map[1 := 10, 2 := 20, 5 := 50, 6 := 60])
  {
    var s := TwoLeaves();
    assert s[1].entries[0] == Entry(1, 10) && s[1].entries[1] == Entry(2, 20);
    assert s[2].entries[0] == Entry(5, 50) && s[2].entries[1] == Entry(6, 60);
    assert HoldsAt(s[1], Entry(1, 10)) && HoldsAt(s[1], Entry(2, 20));
    assert HoldsAt(s[2], Entry(5, 50)) && HoldsAt(s[2], Entry(6, 60));
  }

  /** After one insertion, Begin of a greater key stands behind the only pair, and not at the end. */
  method BeginBehindOnlyPair(name: string, caps: Capacities, slotCount: nat, firstId: int, key: int, value: int,
                             greater: int)
    returns (tree: BPlusTree, it: IndexIterator)
    requires caps.leaf < slotCount && caps.inner < slotCount && firstId > 0 && key < greater
    ensures it.tree == tree && it.Valid(tree.pool.pins - multiset{it.leafPage}) && tree.contents == map[key := value]
    ensures !it.IsEnd() && !it.OnPair() && it.Rest() == {}
  {
    hide TreeFine, Remaining, InRange, PagePool.Valid;
    tree := OnePairTree(name, caps, slotCount, firstId, key, value);
    ghost var base := tree.pool.pins;
    it := BeginAt(tree, greater);
    assert tree.pool.pins - multiset{it.leafPage} == base;
    assert forall k :: k !in it.Rest();
  }

  method OnePairTree(name: string, caps: Capacities, slotCount: nat, firstId: int, key: int, value: int)
    returns (tree: BPlusTree)
    requires caps.leaf < slotCount && caps.inner < slotCount && firstId > 0
    ensures fresh(tree) && fresh(tree.pool) && tree.Idle() && tree.contents == map[key := value]
    ensures tree.root != INVALID_PAGE_ID
  {
    hide TreeFine;
    tree := new BPlusTree(name, map[], caps, slotCount, firstId);
    var txn := new Transaction();
    var ok := tree.Insert(key, value, txn);
  }
}
