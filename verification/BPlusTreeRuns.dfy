/** The integrity checks of the B+ tree, and whole runs of operations on it. */
module BPlusTreeRuns {
  import opened Common
  import opened TreeModel
  import opened TreeState
  import opened PagePools
  import opened BPlusTrees
  import opened BPlusTreePages

  // ----- integrity checks -----

  /** The height of the subtree at pid, or -1 if its leaves are not all at the same depth. */
  method IsBalanced(tree: BPlusTree, pid: int) returns (height: int)
    requires tree.Tree() && (tree.root != INVALID_PAGE_ID ==> pid in tree.lab)
    modifies tree.pool`pins, tree.pool`touched
    ensures tree.Tree() && tree.pool.pins == old(tree.pool.pins)
    ensures height == if tree.root == INVALID_PAGE_ID then 1 else tree.lab[pid].level
    decreases if tree.root == INVALID_PAGE_ID then 0 else tree.lab[pid].level
  {
    hide TreeFine;
    if tree.IsEmpty() { return 1; }
    InnerSize(tree.pool.caps, tree.pool.pages, tree.lab, tree.root, tree.contents, pid);
    tree.pool.FetchPage(pid);
    var page := tree.pool.Load(pid);
    height := 0;
    if !page.isLeaf {
      var last := -2;
      var i := 0;
      while i < page.size
        invariant 0 <= i <= page.size && page.size == |tree.pool.pages[pid].entries| && page.Valid()
        invariant page.View() == tree.pool.pages[pid]
        invariant tree.Tree() && tree.pool.pins == old(tree.pool.pins) + multiset{pid}
        invariant if i == 0 then last == -2 else last + 1 == height == tree.lab[pid].level
      {
        NthChild(tree, pid, i);
        assert page.View().entries[i] == page.slots[i];
        var cur := IsBalanced(tree, page.slots[i].val);
        if cur >= 0 && last == -2 {
          last := cur;
          height := last + 1;
        } else if last != cur {
          height := -1;
          break;
        }
        i := i + 1;
      }
    }
    tree.pool.UnpinPage(pid, false);
  }

  /** What the checks use of a child. */
  lemma NthChild(tree: BPlusTree, p: int, i: nat)
    requires tree.Tree() && p in tree.lab && !tree.pool.pages[p].leaf && i < |tree.pool.pages[p].entries|
    ensures
      var es := tree.pool.pages[p].entries;
      var c := es[i].val;
      && c in tree.lab && tree.root != INVALID_PAGE_ID && tree.lab[c].level + 1 == tree.lab[p].level
      && (var cs := tree.pool.pages[c].entries;
          |cs| > 0
          && (i + 1 < |es| ==> cs[|cs| - 1].key < es[i + 1].key)
          && (i > 0 ==> es[i].key <= cs[0].key))
      && (1 < i ==> es[i - 1].key < es[i].key)
  {
    var s, lab, root := tree.pool.pages, tree.lab, tree.root;
    ChildFacts(s, lab, root, p, i);
    InnerSize(tree.pool.caps, s, lab, root, tree.contents, s[p].entries[i].val);
    assert PageOk(s, lab, root, p) && LinkOk(s, lab, p, i) && PageOk(s, lab, root, s[p].entries[i].val);
  }

  /**
   * Check sizes, key order, and separators against the first and last keys of the children.  For an internal
   * child the first key is the one in slot 0.
   */
  method IsPageCorr(tree: BPlusTree, pid: int) returns (ok: bool, first: int, last: int)
    requires tree.Tree() && (tree.root != INVALID_PAGE_ID ==> pid in tree.lab)
    modifies tree.pool`pins, tree.pool`touched
    ensures tree.Tree() && tree.pool.pins == old(tree.pool.pins) && ok
    ensures tree.root != INVALID_PAGE_ID ==>
      var es := tree.pool.pages[pid].entries;
      |es| > 0 && first == es[0].key && last == es[|es| - 1].key
    decreases if tree.root == INVALID_PAGE_ID then 0 else tree.lab[pid].level, 1
  {
    hide TreeFine;
    first, last := 0, 0;
    if tree.IsEmpty() { return true, first, last; }
    PageSize(tree, pid);
    tree.pool.FetchPage(pid);
    var page := tree.pool.Load(pid);
    ok := MinSize(tree.pool.pages[pid]) <= page.size && page.size <= page.maxSize;
    if page.isLeaf {
      var i := 1;
      while i < page.size
        invariant 1 <= i <= page.size && ok
      {
        assert page.View().entries[i] == page.slots[i] && page.View().entries[i - 1] == page.slots[i - 1];
        if page.slots[i - 1].key > page.slots[i].key {
          ok := false;
          break;
        }
        i := i + 1;
      }
    } else {
      var good := ChildrenCorr(tree, pid, page);
      ok := ok && good;
    }
    assert page.View().entries[0] == page.slots[0];
    assert page.View().entries[page.size - 1] == page.slots[page.size - 1];
    first, last := page.slots[0].key, page.slots[page.size - 1].key;
    tree.pool.UnpinPage(pid, false);
  }

  /** The part of IsPageCorr that looks at the children of an internal page. */
  method ChildrenCorr(tree: BPlusTree, pid: int, page: BPlusTreePage) returns (ok: bool)
    requires tree.Tree() && tree.root != INVALID_PAGE_ID && pid in tree.lab && !tree.pool.pages[pid].leaf
    requires page.Valid() && page.View() == tree.pool.pages[pid]
    modifies tree.pool`pins, tree.pool`touched
    ensures tree.Tree() && tree.pool.pins == old(tree.pool.pins) && ok
    decreases tree.lab[pid].level, 0
  {
    hide TreeFine;
    ok := true;
    var leftLast := 0;
    var i := 1;
    while i < page.size
      invariant 1 <= i && ok && page.Valid() && page.View() == tree.pool.pages[pid]
      invariant tree.Tree() && tree.pool.pins == old(tree.pool.pins)
      invariant 1 < i < page.size ==> leftLast < page.View().entries[i].key
    {
      ghost var es := page.View().entries;
      NthChild(tree, pid, i - 1);
      NthChild(tree, pid, i);
      if i + 1 < page.size { NthChild(tree, pid, i + 1); }
      assert es[i] == page.slots[i] && es[i - 1] == page.slots[i - 1];
      if i == 1 {
        var leftFirst;
        ok, leftFirst, leftLast := IsPageCorr(tree, page.slots[0].val);
      }
      var good, first, last := IsPageCorr(tree, page.slots[i].val);
      ok := ok && good && page.slots[i].key > leftLast && page.slots[i].key <= first;
      ok := ok && (i == 1 || page.slots[i - 1].key < page.slots[i].key);
      if !ok { break; }
      leftLast := last;
      i := i + 1;
    }
  }

  lemma PageSize(tree: BPlusTree, p: int)
    requires tree.Tree() && tree.root != INVALID_PAGE_ID && p in tree.lab
    ensures
      var n := tree.pool.pages[p];
      MinSize(n) <= |n.entries| <= n.max && |n.entries| > 0 && (n.leaf ==> SortedFrom(n.entries, 0))
  {
    InnerSize(tree.pool.caps, tree.pool.pages, tree.lab, tree.root, tree.contents, p);
    assert SizeOk(tree.pool.caps, tree.pool.pages[p], 0, 0);
  }

  /** No page is pinned but the one in the first frame, at which the pool's check does not look. */
  method CheckAllUnpinned(tree: BPlusTree, inFirstFrame: int) returns (ok: bool)
    ensures ok <==> forall p :: p in tree.pool.pins ==> p == inFirstFrame
  {
    var others := tree.pool.pins[inFirstFrame := 0];
    ok := others == multiset{};
    assert forall p :: p in others <==> p in tree.pool.pins && p != inFirstFrame;
  }

  /** The debug check accepts every tree between operations, if nobody else has pages pinned. */
  method Check(tree: BPlusTree, inFirstFrame: int) returns (ok: bool)
    requires tree.Idle()
    modifies tree.pool`pins, tree.pool`touched
    ensures tree.Idle() && tree.pool.pins == old(tree.pool.pins)
    ensures ok <==> forall p :: p in tree.pool.pins ==> p == inFirstFrame
  {
    var inOrder, first, last := IsPageCorr(tree, tree.root);
    var height := IsBalanced(tree, tree.root);
    var unpinned := CheckAllUnpinned(tree, inFirstFrame);
    ok := inOrder && height >= 0 && unpinned;
  }

  // ----- runs -----

  datatype Op = Put(key: int, value: int) | Del(key: int) | Get(key: int)

  datatype Outcome = Inserted(ok: bool) | Removed | Found(value: Option<int>)

  function After(m: map<int, int>, op: Op): map<int, int> {
    match op
    case Put(k, v) => if k in m then m else m[k := v]
    case Del(k) => m - {k}
    case Get(_) => m
  }

  function Answer(m: map<int, int>, op: Op): Outcome {
    match op
    case Put(k, _) => Inserted(k !in m)
    case Del(_) => Removed
    case Get(k) => Found(if k in m then Some(m[k]) else None)
  }

  function Final(m: map<int, int>, ops: seq<Op>): map<int, int> {
    if ops == [] then m else After(Final(m, ops[..|ops| - 1]), ops[|ops| - 1])
  }

  function Answers(m: map<int, int>, ops: seq<Op>): seq<Outcome> {
    if ops == [] then []
    else Answers(m, ops[..|ops| - 1]) + [Answer(Final(m, ops[..|ops| - 1]), ops[|ops| - 1])]
  }

  method Step(tree: BPlusTree, txn: Transaction, op: Op) returns (out: Outcome)
    requires tree.Idle() && txn.pageSet == [] && txn.deletedPageSet == {}
    modifies tree, tree.pool, txn
    ensures tree.Idle() && txn.pageSet == [] && txn.deletedPageSet == {} && tree.pool.pins == old(tree.pool.pins)
    ensures out == Answer(old(tree.contents), op) && tree.contents == After(old(tree.contents), op)
  {
    match op
    case Put(k, v) =>
      var ok := tree.Insert(k, v, txn);
      out := Inserted(ok);
    case Del(k) =>
      ghost var leaf, path, locked, held := tree.Remove(k, txn);
      out := Removed;
    case Get(k) =>
      var found, result := tree.GetValue(k, [], txn);
      out := Found(if found then Some(result[0]) else None);
  }

  /** Every run of inserts, removals and point queries answers as a finite map does. */
  method Run(tree: BPlusTree, txn: Transaction, ops: seq<Op>) returns (outs: seq<Outcome>)
    requires tree.Idle() && txn.pageSet == [] && txn.deletedPageSet == {}
    modifies tree, tree.pool, txn
    ensures tree.Idle() && tree.pool.pins == old(tree.pool.pins)
    ensures outs == Answers(old(tree.contents), ops) && tree.contents == Final(old(tree.contents), ops)
  {
    hide BPlusTree.Idle;
    outs := [];
    for i := 0 to |ops|
      invariant tree.Idle() && txn.pageSet == [] && txn.deletedPageSet == {} && tree.pool.pins == old(tree.pool.pins)
      invariant outs == Answers(old(tree.contents), ops[..i]) && tree.contents == Final(old(tree.contents), ops[..i])
    {
      assert ops[..i + 1][..i] == ops[..i];
      var out := Step(tree, txn, ops[i]);
      outs := outs + [out];
    }
    assert ops[..|ops|] == ops;
  }

  /** Below every page of the tree there is a leaf. */
  lemma {:induction false} LeafBelow(c: Caps, s: Store, lab: Labels, root: int, m: map<int, int>,
                      p: int) returns (leaf: int)
    requires c.Valid() && TreeFine(c, s, lab, root, m) && p in lab
    ensures leaf in lab && s[leaf].leaf
    decreases lab[p].level
  {
    InnerSize(c, s, lab, root, m, p);
    if s[p].leaf { return p; }
    ChildFacts(s, lab, root, p, 0);
    leaf := LeafBelow(c, s, lab, root, m, s[p].entries[0].val);
  }

  /** The tree has a root exactly if it holds a pair. */
  lemma EmptyIffNoPairs(tree: BPlusTree)
    requires tree.Tree()
    ensures tree.IsEmpty() <==> tree.contents == map[]
  {
    if tree.root != INVALID_PAGE_ID {
      var s, lab := tree.pool.pages, tree.lab;
      var leaf := LeafBelow(tree.pool.caps, s, lab, tree.root, tree.contents, tree.root);
      InnerSize(tree.pool.caps, s, lab, tree.root, tree.contents, leaf);
      assert HoldsAt(s[leaf], s[leaf].entries[0]);
      assert Holds(s, lab, s[leaf].entries[0]);
    }
  }

  /** Emptied and filled again, the tree has a root that the header page does not name. */
  method HeaderFallsBehind(name: string, caps: Capacities, slotCount: nat, firstId: int, key: int, value: int)
    returns (tree: BPlusTree)
    requires caps.leaf < slotCount && caps.inner < slotCount && firstId > 0
    ensures tree.Idle() && tree.contents == map[key := value] && !tree.HeaderAgrees()
  {
    tree := new BPlusTree(name, map[], caps, slotCount, firstId);
    EmptyIffNoPairs(tree);
    var txn := new Transaction();
    var ok := tree.Insert(key, value, txn);
    ghost var leaf, path, locked, held := tree.Remove(key, txn);
    EmptyIffNoPairs(tree);
    ok := tree.Insert(key, value, txn);
  }
}
