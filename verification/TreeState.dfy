/** The state of the tree between the steps of an operation: sizes, contents, held pages and confinement. */
module TreeState {
  import opened Common
  import opened TreeModel
  import opened TreeSplit
  import opened TreeMerge

  /** A tree that represents m; page x may be `less` below its minimum size or `more` above its maximum. */
  ghost predicate TreeOk(c: Caps, s: Store, lab: Labels, root: int, m: map<int, int>, x: int, less: nat, more: nat) {
    && Inv(s, lab, root)
    && SizesOk(c, s, lab, x, less, more)
    && Represents(s, lab, m)
  }

  /** A tree in which every page has a legal size. */
  ghost predicate TreeFine(c: Caps, s: Store, lab: Labels, root: int, m: map<int, int>) {
    TreeOk(c, s, lab, root, m, INVALID_PAGE_ID, 0, 0)
  }

  /** An allowance that is not used can be dropped. */
  lemma NoException(c: Caps, s: Store, lab: Labels, root: int, m: map<int, int>, x: int, less: nat, more: nat)
    requires TreeOk(c, s, lab, root, m, x, less, more)
    requires x in lab ==> x in s && SizeOk(c, s[x], 0, 0)
    ensures TreeFine(c, s, lab, root, m)
  {
  }

  // ----- descending -----

  /** An internal page has at least two children. */
  lemma InnerSize(c: Caps, s: Store, lab: Labels, root: int, m: map<int, int>, p: int)
    requires c.Valid() && TreeFine(c, s, lab, root, m) && p in lab
    ensures p in s && (if s[p].leaf then |s[p].entries| >= 1 else |s[p].entries| >= 2)
    ensures |s[p].entries| <= s[p].max == c.Of(s[p].leaf)
    ensures if s[p].leaf then SortedFrom(s[p].entries, 0) else SortedFrom(s[p].entries, 1)
    ensures s[p].leaf <==> lab[p].level == 0
  {
    assert PageOk(s, lab, root, p);
    assert SizeOk(c, s[p], 0, 0);
  }

  /** Every page but the root is at least half full; no page is overfull. */
  lemma LegalSize(c: Caps, s: Store, lab: Labels, root: int, m: map<int, int>, p: int)
    requires c.Valid() && TreeFine(c, s, lab, root, m) && p in lab
    ensures p in s && |s[p].entries| <= s[p].max == c.Of(s[p].leaf)
    ensures |s[p].entries| >= if p == root then (if s[p].leaf then 1 else 2) else s[p].max / 2
  {
    assert PageOk(s, lab, root, p);
    assert SizeOk(c, s[p], 0, 0);
  }

  /** The child between the separators around a key is responsible for the key. */
  lemma ChildFor(s: Store, lab: Labels, root: int, p: int, i: nat, k: int)
    requires Inv(s, lab, root) && p in lab && !s[p].leaf && i < |s[p].entries| && InRange(lab[p], k)
    requires i > 0 ==> s[p].entries[i].key <= k
    requires i + 1 < |s[p].entries| ==> k < s[p].entries[i + 1].key
    ensures s[p].entries[i].val in lab && InRange(lab[s[p].entries[i].val], k)
  {
    assert PageOk(s, lab, root, p);
    assert LinkOk(s, lab, p, i);
  }

  /** The first child of a page on the leftmost spine is on the leftmost spine. */
  lemma FirstChild(s: Store, lab: Labels, root: int, p: int)
    requires Inv(s, lab, root) && p in lab && !s[p].leaf && |s[p].entries| > 0
    ensures s[p].entries[0].val in lab && lab[s[p].entries[0].val].lo == lab[p].lo
  {
    assert PageOk(s, lab, root, p);
    assert LinkOk(s, lab, p, 0);
  }

  // ----- latches -----

  datatype OpType = READ | INSERT | DELETE

  /** isSafe. */
  predicate IsSafe(op: OpType, n: Node) {
    match op
    case READ => true
    case INSERT => |n.entries| < n.max
    case DELETE => if n.leaf then |n.entries| >= MinSize(n) + 1 else |n.entries| > MinSize(n) + 1
  }

  /** CoalesceOrRedistribute is called on a leaf below its minimum, and on an internal page at or below it. */
  predicate TooSmall(n: Node, size: int) {
    if n.leaf then size < MinSize(n) else size <= MinSize(n)
  }

  ghost predicate Under(n: Node) {
    TooSmall(n, |n.entries|)
  }

  /** The operation may have to change the parent: a pair more would be too many for the page, or a pair less too few. */
  ghost predicate GoesUp(op: OpType, n: Node) {
    match op
    case READ => false
    case INSERT => |n.entries| + 1 > n.max
    case DELETE => TooSmall(n, |n.entries| - 1)
  }

  /** A page is safe exactly if the operation leaves its parent alone. */
  lemma SafeIff(op: OpType, n: Node)
    ensures IsSafe(op, n) <==> !GoesUp(op, n)
  {
  }

  /** That is: if no pair that comes makes it overfull, and no pair that goes makes it too small. */
  lemma SafeMeans(n: Node, i: nat, e: Entry)
    requires i <= |n.entries|
    ensures IsSafe(INSERT, n) <==> |n.entries[..i] + [e] + n.entries[i..]| <= n.max
    ensures i < |n.entries| ==> (IsSafe(DELETE, n) <==> !Under(n.(entries := Without(n.entries, i))))
  {
  }

  /** What changing the parent of p takes: the latch on the parent, or on the root id when p is the root. */
  ghost predicate HasUp(s: Store, locked: bool, held: set<int>, p: int)
    requires p in s
  {
    if s[p].parent == INVALID_PAGE_ID then locked else s[p].parent in held
  }

  lemma HasUpMeans(s: Store, locked: bool, held: set<int>, p: int)
    requires p in s && HasUp(s, locked, held, p)
    ensures if s[p].parent == INVALID_PAGE_ID then locked else s[p].parent in held
  {
  }

  /** Held pages at `level` and above: one per level at most, and an unsafe one never without its parent. */
  ghost predicate ChainFrom(op: OpType, s: Store, lab: Labels, locked: bool, held: set<int>, level: nat)
    requires lab.Keys <= s.Keys
  {
    && (forall x {:trigger GoesUp(op, s[x])} :: x in held && x in lab && lab[x].level >= level ==>
          !GoesUp(op, s[x]) || HasUp(s, locked, held, x))
    && (forall x, y {:trigger lab[x], lab[y]} ::
          (x in held && y in held && x in lab && y in lab && lab[x].level == lab[y].level >= level) ==> x == y)
  }

  /** The held pages are the lower part of a path that ends in cur. */
  ghost predicate PathTo(op: OpType, s: Store, lab: Labels, locked: bool, held: set<int>, cur: int) {
    && lab.Keys <= s.Keys && cur in held && held <= lab.Keys
    && ChainFrom(op, s, lab, locked, held, 0)
    && forall x {:trigger lab[x]} :: x in held ==> x == cur || lab[x].level > lab[cur].level
  }

  lemma PathStart(op: OpType, s: Store, lab: Labels, root: int, k: int)
    requires Inv(s, lab, root)
    ensures PathTo(op, s, lab, true, {root}, root) && InRange(lab[root], k)
  {
    assert PageOk(s, lab, root, root);
  }

  lemma PathStep(op: OpType, s: Store, lab: Labels, locked: bool, held: set<int>, cur: int, next: int)
    requires PathTo(op, s, lab, locked, held, cur)
    requires next in lab && s[next].parent == cur && cur != INVALID_PAGE_ID && lab[next].level < lab[cur].level
    ensures next !in held && PathTo(op, s, lab, locked, held + {next}, next)
    ensures !GoesUp(op, s[next]) ==> PathTo(op, s, lab, false, {next}, next)
  {
  }

  /**
   * Nothing is held longer than needed: on the path below the topmost held page no page is safe, and the root id is
   * latched just as long as the root.
   */
  ghost predicate Tight(op: OpType, s: Store, lab: Labels, root: int, locked: bool, held: set<int>) {
    && held <= lab.Keys <= s.Keys && (locked <==> root in held)
    && forall x, y {:trigger lab[x], lab[y]} :: x in held && y in held && lab[x].level < lab[y].level ==> GoesUp(op, s[x])
  }

  /** The path is held from the leaf up to its lowest safe page, or to the root if none is safe, and no further. */
  lemma HeldUpToSafe(op: OpType, s: Store, lab: Labels, root: int, locked: bool, held: set<int>, cur: int, x: int)
    requires Inv(s, lab, root) && PathTo(op, s, lab, locked, held, cur) && Tight(op, s, lab, root, locked, held)
    requires x in held
    ensures s[x].parent in held <==> x != root && GoesUp(op, s[x])
  {
    assert PageOk(s, lab, root, x);
    assert !GoesUp(op, s[x]) || HasUp(s, locked, held, x);
    if s[x].parent in held {
      var q, i := SlotInParent(s, lab, root, x);
      assert lab[q].level > lab[x].level;
    }
  }

  lemma TightStep(op: OpType, s: Store, lab: Labels, root: int, locked: bool, held: set<int>, cur: int, next: int)
    requires PathTo(op, s, lab, locked, held, cur) && Tight(op, s, lab, root, locked, held)
    requires next in lab && lab[next].level < lab[cur].level && (root in lab ==> lab[cur].level <= lab[root].level)
    ensures !GoesUp(op, s[next]) ==> Tight(op, s, lab, root, false, {next})
    ensures GoesUp(op, s[next]) ==> Tight(op, s, lab, root, locked, held + {next})
  {
  }

  /**
   * From s0 to s1, only pages in `held` changed, except that a child of a held page may have a new parent id.
   * New pages do not matter.
   */
  ghost predicate Confined(s0: Store, s1: Store, held: set<int>) {
    forall x {:trigger s1[x]} :: x in s0 && x in s1 && x !in held ==>
      && s1[x] == s0[x].(parent := s1[x].parent)
      && (s1[x].parent == s0[x].parent || s0[x].parent in held)
  }

  /** Page ids from `next` on have been used up, just for pages that are there now; the others are those from before. */
  ghost predicate NewPages(before: set<int>, next: int, now: set<int>, next': int) {
    next <= next' && forall x {:trigger x in now} :: x in now <==> x in before || next <= x < next'
  }

  /** A moment of an operation: the live pages, the pages it holds, and the page id counter. */
  datatype Moment = Moment(pages: Store, held: set<int>, next: int)

  /**
   * A stretch of an operation: it wrote only what it held, and what it latched on the way it created itself; it used up
   * page ids only for pages that are there now.
   */
  ghost predicate Advance(a: Moment, b: Moment) {
    && a.pages.Keys <= b.pages.Keys && a.held <= b.held && (b.held - a.held) !! a.pages.Keys
    && a.next <= b.next && (forall x :: x in b.pages ==> x in a.pages || a.next <= x)
    && (forall x {:trigger x in b.pages} :: a.next <= x < b.next ==> x in b.pages)
    && Confined(a.pages, b.pages, b.held)
  }

  lemma AdvanceNone(a: Moment)
    ensures Advance(a, a)
  {
  }

  lemma AdvanceTwice(a: Moment, b: Moment, c: Moment)
    requires Advance(a, b) && Advance(b, c)
    ensures Advance(a, c)
  {
    forall x | x in a.pages && x in c.pages && x !in c.held
      ensures c.pages[x] == a.pages[x].(parent := c.pages[x].parent)
      ensures c.pages[x].parent == a.pages[x].parent || a.pages[x].parent in c.held
    {
      assert x in b.pages && x !in b.held && b.pages[x] == b.pages[x];
    }
  }

  /** Seen from the start of an operation on a tree, only pages held at the start were written. */
  lemma AdvanceConfined(a: Moment, lab: Labels, root: int, b: Moment)
    requires Advance(a, b) && Inv(a.pages, lab, root) && a.pages.Keys == lab.Keys && INVALID_PAGE_ID !in b.held
    ensures Confined(a.pages, b.pages, a.held)
  {
    forall x | x in a.pages && x in b.pages && x !in a.held
      ensures b.pages[x] == a.pages[x].(parent := b.pages[x].parent)
      ensures b.pages[x].parent == a.pages[x].parent || a.pages[x].parent in a.held
    {
      assert b.pages[x] == b.pages[x] && x !in b.held;
      assert PageOk(a.pages, lab, root, x);
    }
  }

  /** A split writes the page, its children's parent ids and nothing else that existed. */
  lemma SplitConfined(s: Store, lab: Labels, root: int, s1: Store, p: int, n: int, mid: nat, held: set<int>)
    requires Inv(s, lab, root) && p in lab && n !in s && IsSplit(s, s1, p, n, mid) && p in held
    ensures Confined(s, s1, held)
    ensures forall x {:trigger s1[x]} :: x in lab && x != p && lab[x].level >= lab[p].level ==> s1[x] == s[x]
  {
    forall x | x in s && x != p && !s[p].leaf && PointsFrom(s[p].entries, mid, x)
      ensures x in lab && s[x].parent == p && lab[x].level < lab[p].level
    {
      MovedChild(s, lab, root, p, mid, x);
    }
  }

  /** Above the split page the held pages still form a chain. */
  lemma ChainAfterSplit(op: OpType, s: Store, lab: Labels, root: int, s1: Store, p: int, n: int, mid: nat, k: int,
                      locked: bool, held: set<int>)
    requires Inv(s, lab, root) && p in lab && n !in s && IsSplit(s, s1, p, n, mid)
    requires ChainFrom(op, s, lab, locked, held, lab[p].level + 1) && HasUp(s, locked, held, p)
    ensures
      var lab' := SplitLabels(lab, p, n, k);
      && p in s1 && HasUp(s1, locked, held + {n}, p)
      && lab'.Keys <= s1.Keys && ChainFrom(op, s1, lab', locked, held + {n}, lab'[p].level + 1)
  {
    SplitConfined(s, lab, root, s1, p, n, mid, {p});
    var lab' := SplitLabels(lab, p, n, k);
    forall x | x in held + {n} && x in lab' && lab'[x].level >= lab'[p].level + 1
      ensures !GoesUp(op, s1[x]) || HasUp(s1, locked, held + {n}, x)
    {
      assert x in lab && s1[x] == s[x];
      assert !GoesUp(op, s[x]) || HasUp(s, locked, held, x);
    }
  }

  // ----- insertion -----

  /** One pair too many goes into the leaf responsible for it. */
  lemma InsertedIntoLeaf(c: Caps, s: Store, lab: Labels, root: int, m: map<int, int>, p: int, k: int, v: int)
    requires TreeFine(c, s, lab, root, m)
    requires p in lab && p in s && s[p].leaf && InRange(lab[p], k) && !HasKey(s[p].entries, k)
    ensures k !in m
    ensures TreeOk(c, s[p := s[p].(entries := InsertSorted(s[p].entries, Entry(k, v)))], lab, root, m[k := v], p, 0, 1)
  {
    LeafInsertOk(s, lab, root, m, p, k, v);
  }

  /** The leaf receives a pair: if it is one over then, its parent is held. */
  lemma LeafReceives(s: Store, lab: Labels, leaf: int, e: Entry, locked: bool, held: set<int>, next: int)
    requires PathTo(INSERT, s, lab, locked, held, leaf) && leaf in s && s[leaf].leaf && |s[leaf].entries| <= s[leaf].max
    ensures
      var s' := s[leaf := s[leaf].(entries := InsertSorted(s[leaf].entries, e))];
      && ChainFrom(INSERT, s', lab, locked, held, lab[leaf].level + 1)
      && (|s'[leaf].entries| > s'[leaf].max ==> HasUp(s', locked, held, leaf))
      && Advance(Moment(s, held, next), Moment(s', held, next))
  {
    var s' := s[leaf := s[leaf].(entries := InsertSorted(s[leaf].entries, e))];
    assert !GoesUp(INSERT, s[leaf]) || HasUp(s, locked, held, leaf);
    forall x | x in held && x in lab && lab[x].level >= lab[leaf].level + 1
      ensures !GoesUp(INSERT, s'[x]) || HasUp(s', locked, held, x)
    {
      assert !GoesUp(INSERT, s[x]) || HasUp(s, locked, held, x);
    }
  }

  /** The tree once the new page n, split off page p, is known to p's parent, or to a new root r. */
  function Hooked(c: Caps, s: Store, p: int, k: int, n: int, r: int): Store
    requires p in s && n in s && (s[p].parent == INVALID_PAGE_ID || s[p].parent in s)
  {
    if s[p].parent == INVALID_PAGE_ID then
      s[p := s[p].(parent := r)][n := s[n].(parent := r)]
       [r := Node(false, c.inner, INVALID_PAGE_ID, INVALID_PAGE_ID, [Entry(0, p), Entry(k, n)])]
    else
      Attach(s, s[p].parent, p, k, n)
  }

  function HookedLabels(s: Store, lab: Labels, p: int, r: int): Labels
    requires p in s && p in lab
  {
    if s[p].parent == INVALID_PAGE_ID then lab[r := Label(lab[p].level + 1, None, None)] else lab
  }

  function UpOf(s: Store, p: int, r: int): int
    requires p in s
  {
    if s[p].parent == INVALID_PAGE_ID then r else s[p].parent
  }

  /**
   * What InsertIntoParent needs: page n has been split off p, and once the pair (k, n) is hooked into the parent
   * the tree is right, except that the parent may then be one over.
   */
  ghost predicate SplitReady(c: Caps, s: Store, lab: Labels, root: int, m: map<int, int>, p: int, k: int, n: int, r: int) {
    && p in s && n in s && p != n && p in lab && n in lab && root in lab
    && s[n].parent == s[p].parent
    && (s[p].parent == INVALID_PAGE_ID <==> p == root)
    && (p != root ==>
          var q := s[p].parent;
          q in s && q in lab && q != p && q != n && !s[q].leaf && lab[q].level == lab[p].level + 1
          && lab[q].level <= lab[root].level && |s[q].entries| <= s[q].max == c.inner)
    && r !in s && r != INVALID_PAGE_ID
    && var top, up := if p == root then r else root, UpOf(s, p, r);
    TreeOk(c, Hooked(c, s, p, k, n, r), HookedLabels(s, lab, p, r), top, m, up, 0, 1)
  }

  /** A new tree: one leaf with one pair. */
  lemma SingleLeaf(c: Caps, s: Store, p: int, k: int, v: int)
    requires c.Valid() && p != INVALID_PAGE_ID
    requires s == map[p := Node(true, c.leaf, INVALID_PAGE_ID, INVALID_PAGE_ID, [Entry(k, v)])]
    ensures TreeFine(c, s, map[p := Label(0, None, None)], p, map[k := v])
  {
    var lab := map[p := Label(0, None, None)];
    assert HoldsAt(s[p], Entry(k, v));
    assert PageOk(s, lab, p, p);
  }

  /** A page that is not the root and not overfull is at least half full, so both halves of an overfull one are. */
  lemma HalvesFit(c: Caps, s: Store, lab: Labels, root: int, s1: Store, p: int, n: int)
    requires c.Valid() && Inv(s, lab, root) && SizesOk(c, s, lab, p, 0, 1)
    requires p in lab && p != root && |s[p].entries| == s[p].max + 1
    requires n !in s && IsSplit(s, s1, p, n, (s[p].max + 1) / 2)
    ensures
      var k := s[p].entries[(s[p].max + 1) / 2].key;
      && s[p].parent in s1
      && var s' := Attach(s1, s[p].parent, p, k, n);
      && SplitLabels(lab, p, n, k).Keys <= s'.Keys
      && SizesOk(c, s', SplitLabels(lab, p, n, k), s[p].parent, 0, 1)
  {
    var mid := (s[p].max + 1) / 2;
    var k := s[p].entries[mid].key;
    var q, i := SlotInParent(s, lab, root, p);
    if !s[p].leaf && PointsFrom(s[p].entries, mid, q) { MovedChild(s, lab, root, p, mid, q); }
    var s', lab' := Attach(s1, q, p, k, n), SplitLabels(lab, p, n, k);
    forall x | x in lab'
      ensures if x == q then SizeOk(c, s'[x], 0, 1) else SizeOk(c, s'[x], 0, 0)
    {
      if x != p && x != n {
        assert PageOk(s, lab, root, x);
        if !s[p].leaf && PointsFrom(s[p].entries, mid, x) { MovedChild(s, lab, root, p, mid, x); }
      } else {
        assert PageOk(s, lab, root, p);
      }
    }
  }

  lemma SplitMakesReady(c: Caps, s: Store, lab: Labels, root: int, m: map<int, int>, s1: Store, p: int, n: int, r: int)
    requires c.Valid() && TreeOk(c, s, lab, root, m, p, 0, 1) && p in lab && |s[p].entries| == s[p].max + 1
    requires n !in s && r !in s && n != r && n != INVALID_PAGE_ID && r != INVALID_PAGE_ID
    requires IsSplit(s, s1, p, n, (s[p].max + 1) / 2)
    ensures |s1[n].entries| > 0
    ensures
      var k := s1[n].entries[0].key;
      SplitReady(c, s1, SplitLabels(lab, p, n, k), root, m, p, k, n, r)
  {
    assert PageOk(s, lab, root, p);
    assert SizeOk(c, s[p], 0, 1);
    if p == root {
      RootSplitReady(c, s, lab, root, m, s1, p, n, r);
    } else {
      InnerSplitReady(c, s, lab, root, m, s1, p, n, r);
    }
  }

  lemma InnerSplitReady(c: Caps, s: Store, lab: Labels, root: int, m: map<int, int>, s1: Store, p: int, n: int, r: int)
    requires c.Valid() && TreeOk(c, s, lab, root, m, p, 0, 1) && p in lab
    requires |s[p].entries| == s[p].max + 1 && s[p].max >= 2
    requires n !in s && r !in s && n != r && n != INVALID_PAGE_ID && r != INVALID_PAGE_ID && p != root
    requires IsSplit(s, s1, p, n, (s[p].max + 1) / 2)
    ensures
      var k := s1[n].entries[0].key;
      SplitReady(c, s1, SplitLabels(lab, p, n, k), root, m, p, k, n, r)
  {
    var mid := (s[p].max + 1) / 2;
    var q, i := SlotInParent(s, lab, root, p);
    assert PageOk(s, lab, root, p) && PageOk(s, lab, root, q);
    if !s[p].leaf && PointsFrom(s[p].entries, mid, q) { MovedChild(s, lab, root, p, mid, q); }
    SplitKeepsInv(s, lab, root, s1, p, n, mid);
    SplitKeepsContents(s, lab, root, s1, p, n, mid, m);
    HalvesFit(c, s, lab, root, s1, p, n);
  }

  lemma RootSplitReady(c: Caps, s: Store, lab: Labels, root: int, m: map<int, int>, s1: Store, p: int, n: int, r: int)
    requires c.Valid() && TreeOk(c, s, lab, root, m, p, 0, 1) && p == root && |s[p].entries| == s[p].max + 1
      && s[p].max >= 2
    requires n !in s && r !in s && n != r && n != INVALID_PAGE_ID && r != INVALID_PAGE_ID
    requires IsSplit(s, s1, p, n, (s[p].max + 1) / 2)
    ensures
      var k := s1[n].entries[0].key;
      SplitReady(c, s1, SplitLabels(lab, p, n, k), root, m, p, k, n, r)
  {
    hide Represents, SizesOk;
    assert PageOk(s, lab, root, root);
    assert s1[n].entries[0].key == s[p].entries[(s[p].max + 1) / 2].key;
    GrownIsHooked(c, s1, p, s1[n].entries[0].key, n, r);
    RootSplitInv(c, s, lab, root, s1, p, n, r);
    RootSplitHolds(c, s, lab, root, m, s1, p, n, r);
    RootHalvesFit(c, s, lab, root, s1, p, n, r);
  }

  /** The store and the labels after the root has been split below a new root. */
  function RootSplitStore(c: Caps, s: Store, s1: Store, p: int, n: int, r: int): Store
    requires p in s && p in s1 && n in s1 && 0 <= (s[p].max + 1) / 2 < |s[p].entries|
  {
    Attach(Grown(c, s1, p, n, r), r, p, s[p].entries[(s[p].max + 1) / 2].key, n)
  }

  function RootSplitLabels(s: Store, lab: Labels, p: int, n: int, r: int): Labels
    requires p in s && p in lab && 0 <= (s[p].max + 1) / 2 < |s[p].entries|
  {
    var lab1 := SplitLabels(lab, p, n, s[p].entries[(s[p].max + 1) / 2].key);
    lab1[r := Label(lab1[p].level + 1, None, None)]
  }

  /** Splitting the root: first a new root with one child, then an ordinary split below it. */
  lemma RootSplitInv(c: Caps, s: Store, lab: Labels, root: int, s1: Store, p: int, n: int, r: int)
    requires Inv(s, lab, root) && p == root && |s[p].entries| == s[p].max + 1 && s[p].max >= 2
    requires n !in s && r !in s && n != r && n != INVALID_PAGE_ID && r != INVALID_PAGE_ID
    requires IsSplit(s, s1, p, n, (s[p].max + 1) / 2)
    ensures Inv(RootSplitStore(c, s, s1, p, n, r), RootSplitLabels(s, lab, p, n, r), r)
  {
    hide Inv;
    var mid := (s[p].max + 1) / 2;
    RootInStore(s, lab, root, r);
    GrowKeepsInv(s, lab, root, r, c.inner);
    GrownSplit(c, s, lab, root, s1, p, n, r, mid);
    SplitKeepsInv(Grow(s, root, r, c.inner), GrowLabels(lab, root, r), r, Grown(c, s1, p, n, r), p, n, mid);
    GrowThenSplit(lab, root, n, r, s[p].entries[mid].key);
    hide IsSplit;
  }

  lemma RootSplitHolds(c: Caps, s: Store, lab: Labels, root: int, m: map<int, int>, s1: Store, p: int, n: int, r: int)
    requires Inv(s, lab, root) && p == root && |s[p].entries| == s[p].max + 1 && s[p].max >= 2
    requires n !in s && r !in s && n != r && n != INVALID_PAGE_ID && r != INVALID_PAGE_ID
    requires IsSplit(s, s1, p, n, (s[p].max + 1) / 2) && Represents(s, lab, m)
    ensures
      var s', lab' := RootSplitStore(c, s, s1, p, n, r), RootSplitLabels(s, lab, p, n, r);
      lab'.Keys <= s'.Keys && Represents(s', lab', m)
  {
    hide Inv, Represents;
    var mid := (s[p].max + 1) / 2;
    RootInStore(s, lab, root, r);
    GrowKeepsInv(s, lab, root, r, c.inner);
    GrowKeepsContents(s, lab, root, r, c.inner, m);
    GrownSplit(c, s, lab, root, s1, p, n, r, mid);
    SplitKeepsContents(Grow(s, root, r, c.inner), GrowLabels(lab, root, r), r, Grown(c, s1, p, n, r), p, n, mid, m);
    GrowThenSplit(lab, root, n, r, s[p].entries[mid].key);
  }

  lemma RootInStore(s: Store, lab: Labels, root: int, r: int)
    requires Inv(s, lab, root) && r !in s
    ensures root in s && root in lab && lab.Keys <= s.Keys && r !in lab
  {
  }

  lemma GrowThenSplit(lab: Labels, root: int, n: int, r: int, k: int)
    requires root in lab && r != root && r != n && n != root
    ensures
      var lab1 := SplitLabels(lab, root, n, k);
      SplitLabels(GrowLabels(lab, root, r), root, n, k) == lab1[r := Label(lab1[root].level + 1, None, None)]
  {
  }

  /** The split store with a new root that has only its first child yet. */
  function Grown(c: Caps, s1: Store, p: int, n: int, r: int): Store
    requires p in s1 && n in s1
  {
    s1[p := s1[p].(parent := r)][n := s1[n].(parent := r)]
      [r := Node(false, c.inner, INVALID_PAGE_ID, INVALID_PAGE_ID, [Entry(0, p)])]
  }

  lemma GrownSplit(c: Caps, s: Store, lab: Labels, root: int, s1: Store, p: int, n: int, r: int, mid: nat)
    requires Inv(s, lab, root) && p == root && mid <= |s[p].entries|
    requires n !in s && r !in s && n != r && IsSplit(s, s1, p, n, mid)
    ensures IsSplit(Grow(s, root, r, c.inner), Grown(c, s1, p, n, r), p, n, mid)
  {
    if !s[p].leaf && PointsFrom(s[p].entries, mid, r) { MovedChild(s, lab, root, p, mid, r); }
  }

  lemma GrownIsHooked(c: Caps, s1: Store, p: int, k: int, n: int, r: int)
    requires p in s1 && n in s1 && p != n && r !in s1 && s1[p].parent == INVALID_PAGE_ID
    ensures Attach(Grown(c, s1, p, n, r), r, p, k, n) == Hooked(c, s1, p, k, n, r)
  {
    assert PairAt([Entry(0, p)], 1, Entry(k, n)) == [Entry(0, p), Entry(k, n)];
  }

  lemma RootHalvesFit(c: Caps, s: Store, lab: Labels, root: int, s1: Store, p: int, n: int, r: int)
    requires c.Valid() && Inv(s, lab, root) && SizesOk(c, s, lab, p, 0, 1)
    requires p == root && |s[p].entries| == s[p].max + 1 && s[p].max >= 2
    requires n !in s && r !in s && n != r && r != INVALID_PAGE_ID && IsSplit(s, s1, p, n, (s[p].max + 1) / 2)
    ensures
      var k := s[p].entries[(s[p].max + 1) / 2].key;
      var s', lab1 := Attach(Grown(c, s1, p, n, r), r, p, k, n), SplitLabels(lab, p, n, k);
      var lab' := lab1[r := Label(lab1[p].level + 1, None, None)];
      lab'.Keys <= s'.Keys && SizesOk(c, s', lab', r, 0, 1)
  {
    var mid := (s[p].max + 1) / 2;
    var k := s[p].entries[mid].key;
    var s', lab1 := Attach(Grown(c, s1, p, n, r), r, p, k, n), SplitLabels(lab, p, n, k);
    assert PageOk(s, lab, root, p);
    forall x | x in lab1
      ensures SizeOk(c, s'[x], 0, 0)
    {
      if x != p && x != n {
        assert PageOk(s, lab, root, x);
        if !s[p].leaf && PointsFrom(s[p].entries, mid, x) { MovedChild(s, lab, root, p, mid, x); }
      }
    }
  }

  // ----- deletion -----

  lemma RemovedFromLeaf(c: Caps, s: Store, lab: Labels, root: int, m: map<int, int>, p: int, k: int)
    requires TreeFine(c, s, lab, root, m)
    requires p in lab && p in s && s[p].leaf && InRange(lab[p], k) && HasKey(s[p].entries, k)
    ensures k in m
    ensures
      var s' := s[p := s[p].(entries := Without(s[p].entries, LowerBound(s[p].entries, k)))];
      TreeOk(c, s', lab, root, m - {k}, p, 1, 0)
  {
    LeafRemoveOk(s, lab, root, m, p, k);
    assert SizeOk(c, s[p], 0, 0);
  }

  /** An empty root leaf: the tree holds nothing. */
  lemma EmptyRoot(c: Caps, s: Store, lab: Labels, root: int, m: map<int, int>)
    requires TreeOk(c, s, lab, root, m, root, 1, 0) && s[root].leaf && |s[root].entries| == 0
    ensures m == map[] && lab.Keys == {root}
  {
    assert PageOk(s, lab, root, root);
    forall p | p in lab ensures p == root {
      assert PageOk(s, lab, root, p);
      if p != root { RootIsTop(s, lab, root, p); }
    }
    forall k ensures k !in m {
      if k in m { assert false; }
    }
  }

  /** RemoveAndReturnOnlyChild empties the old root; its child has no parent any more. */
  function Shrunken(s: Store, root: int, child: int): Store
    requires root in s && child in s
  {
    s[root := s[root].(entries := [])][child := s[child].(parent := INVALID_PAGE_ID)]
  }

  /** An internal root with one child gives way to that child. */
  lemma ShrinkFine(c: Caps, s: Store, lab: Labels, root: int, m: map<int, int>)
    requires c.Valid() && TreeOk(c, s, lab, root, m, root, 1, 0) && !s[root].leaf && |s[root].entries| == 1
    ensures
      var child := s[root].entries[0].val;
      && child in lab && child in s && child != root
      && TreeFine(c, Shrunken(s, root, child), lab - {root}, child, m)
  {
    var child := s[root].entries[0].val;
    ChildFacts(s, lab, root, root, 0);
    var s' := Shrunken(s, root, child);
    ShrinkKeepsInv(s, lab, root, s', m);
    assert PageOk(s, lab, root, child);
    assert SizeOk(c, s[child], 0, 0);
  }

  /** What the page moves need of two neighbours. */
  lemma NeighboursCanMove(s: Store, lab: Labels, root: int, q: int, i: nat, l: int, r: int)
    requires Neighbours(s, lab, root, q, i, l, r)
    ensures s[l].parent == q && s[r].parent == q && s[l].leaf == s[r].leaf
    ensures ValueIndex(s[q].entries, l) == i && ValueIndex(s[q].entries, r) == i + 1
    ensures !s[r].leaf ==> |s[r].entries| > 0 && ChildrenLive(s, r, l, 0)
    ensures |s[r].entries| > 0 ==> CanShift(s, q, i, l, r, s[r].entries[0])
    ensures |s[l].entries| > 0 ==> CanShift(s, q, i, l, r, s[l].entries[|s[l].entries| - 1])
  {
    SlotZeroIsSeparator(s, lab, root, q, i, l, r);
    var v, w := ValueIndex(s[q].entries, l), ValueIndex(s[q].entries, r);
    if v < i { ChildrenDistinct(s, lab, root, q, v, i); }
    if w < i + 1 { ChildrenDistinct(s, lab, root, q, w, i + 1); }
    if !s[l].leaf {
      forall j | 0 <= j < |Joined(s, l, r)|
        ensures Joined(s, l, r)[j].val in s && Joined(s, l, r)[j].val !in {l, r, q}
      {
        JoinedChild(s, lab, root, q, i, l, r, j);
      }
      assert forall j :: 0 <= j < |s[r].entries| ==> s[r].entries[j] == Joined(s, l, r)[|s[l].entries| + j];
      assert forall j :: 0 <= j < |s[l].entries| ==> s[l].entries[j] == Joined(s, l, r)[j];
    }
  }

  /** Merging page x with its neighbour: the parent may then be one below its minimum. */
  lemma MergeLeavesParent(c: Caps, s: Store, lab: Labels, root: int, m: map<int, int>, s1: Store, q: int, i: nat,
                      l: int, r: int, x: int)
    requires c.Valid() && TreeOk(c, s, lab, root, m, x, 1, 0) && Neighbours(s, lab, root, q, i, l, r) && x in {l, r}
    requires |s[l].entries| + |s[r].entries| <= s[l].max
    requires s[r].parent == q && (!s[r].leaf ==> |s[r].entries| > 0) && MovedAll(s, s1, l, r, Moved(s, r, i + 1))
    ensures q in s1 && i + 1 < |s1[q].entries| && s1[q] == s[q]
    ensures
      var s' := s1[q := s1[q].(entries := Without(s1[q].entries, i + 1))];
      TreeOk(c, s', MergeLabels(lab, l, r), root, m, q, 1, 0)
  {
    MovedAllIsMerge(s, lab, root, s1, q, i, l, r);
    var s' := s1[q := s1[q].(entries := Without(s1[q].entries, i + 1))];
    MergeKeepsInv(s, lab, root, s', q, i, l, r);
    MergeKeepsContents(s, lab, root, s', q, i, l, r, m);
    MergeSizes(c, s, lab, root, s', q, i, l, r, x);
  }

  lemma MergeSizes(c: Caps, s: Store, lab: Labels, root: int, s': Store, q: int, i: nat, l: int, r: int, x: int)
    requires c.Valid() && Merging(s, lab, root, s', q, i, l, r) && SizesOk(c, s, lab, x, 1, 0) && x in {l, r}
    requires |s[l].entries| + |s[r].entries| <= s[l].max
    ensures MergeLabels(lab, l, r).Keys <= s'.Keys
    ensures SizesOk(c, s', MergeLabels(lab, l, r), q, 1, 0)
  {
    var lab' := MergeLabels(lab, l, r);
    SlotZeroIsSeparator(s, lab, root, q, i, l, r);
    forall y | y in lab'
      ensures if y == q then SizeOk(c, s'[y], 1, 0) else SizeOk(c, s'[y], 0, 0)
    {
      assert PageOk(s, lab, root, y) && PageOk(s, lab, root, l);
      assert SizeOk(c, s[l], 1, 0) && SizeOk(c, s[r], 1, 0);
      if y != l && y != q && s'[y].parent != s[y].parent {
        var j :| 0 <= j < |Joined(s, l, r)| && Joined(s, l, r)[j].val == y;
        JoinedChild(s, lab, root, q, i, l, r, j);
      }
    }
  }

  /** Moving one pair over to the small page x: all sizes are right again. */
  lemma RecutFine(c: Caps, s: Store, lab: Labels, root: int, m: map<int, int>, s': Store, q: int, i: nat, l: int,
                  r: int, x: int)
    requires c.Valid() && TreeOk(c, s, lab, root, m, x, 1, 0) && x in {l, r} && Neighbours(s, lab, root, q, i, l, r)
    requires |s[l].entries| + |s[r].entries| > s[l].max && Under(s[x])
    requires
      var n := |s[l].entries|;
      Recutting(s, lab, root, s', q, i, l, r, if x == l then n + 1 else n - 1)
    ensures
      var n := |s[l].entries|;
      var k := Joined(s, l, r)[if x == l then n + 1 else n - 1].key;
      TreeFine(c, s', RecutLabels(lab, l, r, k), root, m)
  {
    var n := |s[l].entries|;
    var cut := if x == l then n + 1 else n - 1;
    RecutKeepsInv(s, lab, root, s', q, i, l, r, cut);
    RecutKeepsContents(s, lab, root, s', q, i, l, r, cut, m);
    RecutSizes(c, s, lab, root, s', q, i, l, r, x);
  }

  lemma RecutSizes(c: Caps, s: Store, lab: Labels, root: int, s': Store, q: int, i: nat, l: int, r: int, x: int)
    requires c.Valid() && Neighbours(s, lab, root, q, i, l, r) && SizesOk(c, s, lab, x, 1, 0) && x in {l, r}
    requires |s[l].entries| + |s[r].entries| > s[l].max && Under(s[x])
    requires
      var n := |s[l].entries|;
      Recutting(s, lab, root, s', q, i, l, r, if x == l then n + 1 else n - 1)
    ensures SizesOk(c, s', lab, INVALID_PAGE_ID, 0, 0)
  {
    SlotZeroIsSeparator(s, lab, root, q, i, l, r);
    assert PageOk(s, lab, root, l) && PageOk(s, lab, root, r) && PageOk(s, lab, root, q);
    assert SizeOk(c, s[l], 1, 0) && SizeOk(c, s[r], 1, 0) && SizeOk(c, s[q], 0, 0);
    assert SizeOk(c, s'[l], 0, 0) && SizeOk(c, s'[r], 0, 0) && SizeOk(c, s'[q], 0, 0);
    forall y | y in lab ensures SizeOk(c, s'[y], 0, 0) {
      if y != l && y != r && y != q {
        RecutOtherSize(c, s, lab, root, s', q, i, l, r, if x == l then |s[l].entries| + 1 else |s[l].entries| - 1, y);
      }
    }
  }

  lemma RecutOtherSize(c: Caps, s: Store, lab: Labels, root: int, s': Store, q: int, i: nat, l: int, r: int,
                      cut: nat, y: int)
    requires Recutting(s, lab, root, s', q, i, l, r, cut) && y in lab && y != l && y != r && y != q
    requires SizeOk(c, s[y], 0, 0)
    ensures SizeOk(c, s'[y], 0, 0)
  {
    assert PageOk(s, lab, root, y) && l != INVALID_PAGE_ID && r != INVALID_PAGE_ID;
    if s'[y].parent != s[y].parent {
      var j :| 0 <= j < |Joined(s, l, r)| && Joined(s, l, r)[j].val == y;
      JoinedChild(s, lab, root, q, i, l, r, j);
    }
  }

  // ----- the steps of InsertIntoParent -----

  /** The new page does not matter for the split. */
  lemma SplitIgnoresNew(s: Store, s': Store, p: int, n: int, mid: nat, blank: Node)
    requires p in s && n !in s && IsSplit(s[n := blank], s', p, n, mid)
    ensures IsSplit(s, s', p, n, mid)
  {
  }

  /** An overfull page can be halved into a fresh page. */
  lemma CanHalve(c: Caps, s: Store, lab: Labels, root: int, m: map<int, int>, p: int, n: int, blank: Node)
    requires c.Valid() && TreeOk(c, s, lab, root, m, p, 0, 1) && p in lab && |s[p].entries| > s[p].max && n !in s
    ensures |s[p].entries| == s[p].max + 1 && s[p].max >= 2 && s[p].max == c.Of(s[p].leaf)
    ensures !s[p].leaf ==> ChildrenLive(s[n := blank], p, n, (s[p].max + 1) / 2)
  {
    assert PageOk(s, lab, root, p) && SizeOk(c, s[p], 0, 1);
    if !s[p].leaf {
      forall i | 0 <= i < |s[p].entries| ensures s[p].entries[i].val in s && s[p].entries[i].val != p {
        ChildFacts(s, lab, root, p, i);
      }
    }
  }

  /** All there is to know after a split. */
  lemma AfterSplit(c: Caps, s: Store, lab: Labels, root: int, m: map<int, int>, s1: Store, p: int, n: int,
                   locked: bool, held: set<int>)
    requires c.Valid() && TreeOk(c, s, lab, root, m, p, 0, 1) && p in lab && |s[p].entries| == s[p].max + 1
    requires s.Keys == lab.Keys && (forall x :: x in s ==> x < n) && n > 0 && p in held
    requires IsSplit(s, s1, p, n, (s[p].max + 1) / 2)
    requires ChainFrom(INSERT, s, lab, locked, held, lab[p].level + 1) && HasUp(s, locked, held, p)
    ensures |s1[n].entries| > 0
    ensures
      var k := s1[n].entries[0].key;
      var lab' := SplitLabels(lab, p, n, k);
      && SplitReady(c, s1, lab', root, m, p, k, n, n + 1)
      && s1.Keys == lab'.Keys && lab'[p].level == lab[p].level && lab'[root].level == lab[root].level
      && ChainFrom(INSERT, s1, lab', locked, held + {n}, lab'[p].level + 1)
      && HasUp(s1, locked, held + {n}, p)
    ensures Advance(Moment(s, held, n), Moment(s1, held + {n}, n + 1))
  {
    hide SplitReady, ChainFrom, HasUp, Confined, SizesOk, Represents, PointsFrom;
    var mid := (s[p].max + 1) / 2;
    SplitMakesReady(c, s, lab, root, m, s1, p, n, n + 1);
    ChainAfterSplit(INSERT, s, lab, root, s1, p, n, mid, s1[n].entries[0].key, locked, held);
    SplitConfined(s, lab, root, s1, p, n, mid, held + {n});
    hide Inv;
  }

  /** After a pair went into q, one level up: q may be one over, and then its own parent is held. */
  lemma ChainAfterAttach(s: Store, lab: Labels, q: int, p: int, k: int, n: int, locked: bool, held: set<int>)
    requires lab.Keys <= s.Keys && p in lab && q in lab && lab[q].level == lab[p].level + 1 && q in held
    requires |s[q].entries| <= s[q].max
    requires ChainFrom(INSERT, s, lab, locked, held, lab[p].level + 1)
    ensures
      var s' := Attach(s, q, p, k, n);
      && ChainFrom(INSERT, s', lab, locked, held, lab[q].level + 1)
      && (|s'[q].entries| > s'[q].max ==> HasUp(s', locked, held, q))
  {
    var s' := Attach(s, q, p, k, n);
    assert !GoesUp(INSERT, s[q]) || HasUp(s, locked, held, q);
    forall x | x in held && x in lab && lab[x].level >= lab[q].level + 1
      ensures !GoesUp(INSERT, s'[x]) || HasUp(s', locked, held, x)
    {
      assert !GoesUp(INSERT, s[x]) || HasUp(s, locked, held, x);
    }
  }

  /** Hooking a page into a held parent writes that parent only. */
  lemma AttachAdvance(s: Store, q: int, p: int, k: int, n: int, held: set<int>, next: int)
    requires q in s && q in held
    ensures Advance(Moment(s, held, next), Moment(Attach(s, q, p, k, n), held, next))
    ensures Attach(s, q, p, k, n).Keys == s.Keys
  {
  }

  /** The records of the header page, after the root id of the named index changed from `before` to `now`. */
  function HeaderAfter(records: map<string, int>, name: string, before: int, now: int): map<string, int> {
    if before == now || name !in records then records else records[name := now]
  }

  /** What SplitReady says about the pages of the parent. */
  lemma HookFacts(c: Caps, s: Store, lab: Labels, root: int, m: map<int, int>, p: int, k: int, n: int, r: int)
    requires c.Valid() && SplitReady(c, s, lab, root, m, p, k, n, r)
    ensures p in s && n in s && p != n && s[n].parent == s[p].parent
    ensures s[p].parent == INVALID_PAGE_ID <==> p == root
    ensures p != root ==>
      var q := s[p].parent;
      && q in s && q in lab && q != n && lab[q].level == lab[p].level + 1 <= lab[root].level && |s[q].entries| <= s[q].max
      && TreeOk(c, Attach(s, q, p, k, n), lab, root, m, q, 0, 1)
    ensures p == root ==>
      && TreeFine(c, Hooked(c, s, p, k, n, r), lab[r := Label(lab[p].level + 1, None, None)], r, m)
  {
    if p == root {
      var s' := Hooked(c, s, p, k, n, r);
      assert SizeOk(c, s'[r], 0, 0);
      NoException(c, s', lab[r := Label(lab[p].level + 1, None, None)], r, m, r, 0, 1);
    }
  }

  /** Hooking a new root writes the two halves, which are held. */
  lemma RootHooked(c: Caps, s: Store, p: int, k: int, n: int, r: int, held: set<int>)
    requires p in s && n in s && s[p].parent == INVALID_PAGE_ID && p in held && n in held && r !in s
    ensures Advance(Moment(s, held, r), Moment(Hooked(c, s, p, k, n, r), held, r + 1))
    ensures Hooked(c, s, p, k, n, r).Keys == s.Keys + {r}
  {
  }

  // ----- the steps of CoalesceOrRedistribute -----

  /** A stretch of a deletion: children of held pages are latched, held pages are written, none appear or vanish. */
  ghost predicate Rework(a: Moment, b: Moment) {
    && a.pages.Keys == b.pages.Keys && a.held <= b.held && a.next == b.next
    && Confined(a.pages, b.pages, b.held)
    && ChildrenOf(a.pages, a.held, b.held)
  }

  /** Every page of `all` that is not in `path` is the child of a page in `all`. */
  ghost predicate ChildrenOf(s: Store, path: set<int>, all: set<int>) {
    forall x {:trigger x in all} :: x in all && x !in path ==> x in s && s[x].parent in all
  }

  /** Pages that join a path as children of it are responsible only for keys that a page of the path covers. */
  lemma {:induction false} BelowPath(s: Store, lab: Labels, root: int, path: set<int>, all: set<int>, x: int,
                      k: int) returns (t: int)
    requires Inv(s, lab, root) && s.Keys == lab.Keys && path <= lab.Keys && ChildrenOf(s, path, all)
    requires x in all && x in lab && InRange(lab[x], k)
    ensures t in path && InRange(lab[t], k) && lab[x].level <= lab[t].level
    decreases lab[root].level - lab[x].level
  {
    if x in path { return x; }
    assert PageOk(s, lab, root, x);
    if x == root { return x; }
    var q, i := SlotInParent(s, lab, root, x);
    RootIsTop(s, lab, root, x);
    ChildRange(s, lab, root, q, i, k);
    t := BelowPath(s, lab, root, path, all, q, k);
  }

  lemma ReworkNone(a: Moment)
    ensures Rework(a, a)
  {
  }

  lemma ReworkHeld(a: Moment, x: int)
    requires x in a.pages && a.pages[x].parent in a.held
    ensures Rework(a, a.(held := a.held + {x}))
  {
  }

  lemma ReworkTwice(a: Moment, b: Moment, c: Moment)
    requires Rework(a, b) && Rework(b, c)
    ensures Rework(a, c)
  {
    forall x | x in c.held && x !in a.held ensures x in a.pages && a.pages[x].parent in c.held {
      assert x in b.held || b.pages[x] == b.pages[x];
    }
    forall x | x in a.pages && x in c.pages && x !in c.held
      ensures c.pages[x] == a.pages[x].(parent := c.pages[x].parent)
      ensures c.pages[x].parent == a.pages[x].parent || a.pages[x].parent in c.held
    {
      assert x in b.pages && x !in b.held && b.pages[x] == b.pages[x];
    }
  }

  /** A stretch of a deletion, and what is left once the pages marked for deletion are gone. */
  lemma ReworkMeans(a: Moment, b: Moment, gone: set<int>)
    requires Rework(a, b)
    ensures a.pages.Keys == b.pages.Keys && a.held <= b.held && a.next == b.next && ChildrenOf(a.pages, a.held, b.held)
    ensures Confined(a.pages, b.pages - gone, b.held)
  {
    var s' := b.pages - gone;
    forall x | x in a.pages && x in s' && x !in b.held
      ensures s'[x] == a.pages[x].(parent := s'[x].parent)
      ensures s'[x].parent == a.pages[x].parent || a.pages[x].parent in b.held
    {
      assert s'[x] == b.pages[x];
    }
  }

  /**
   * Page p has lost a pair.  Above it the held pages form a chain, on its level it is the only one held, and if it
   * is now too small its parent is held.
   */
  ghost predicate Lost(c: Caps, s: Store, lab: Labels, root: int, m: map<int, int>, p: int, locked: bool, held: set<int>) {
    && TreeOk(c, s, lab, root, m, p, 1, 0) && p in lab && p in held
    && ChainFrom(DELETE, s, lab, locked, held, lab[p].level + 1)
    && (forall x {:trigger lab[x]} :: x in held && x in lab && lab[x].level == lab[p].level ==> x == p)
    && (Under(s[p]) ==> HasUp(s, locked, held, p))
  }

  lemma LostFacts(c: Caps, s: Store, lab: Labels, root: int, m: map<int, int>, p: int, locked: bool, held: set<int>)
    requires Lost(c, s, lab, root, m, p, locked, held)
    ensures p in s && p in lab && p in held && lab[p].level <= lab[root].level
    ensures s[p].parent == INVALID_PAGE_ID <==> p == root
    ensures Under(s[p]) && p == root ==> locked
    ensures !Under(s[p]) ==> TreeFine(c, s, lab, root, m)
  {
    assert PageOk(s, lab, root, p) && SizeOk(c, s[p], 1, 0);
    if !Under(s[p]) {
      NoException(c, s, lab, root, m, p, 1, 0);
    }
  }

  /** The leaf loses a pair. */
  lemma LeafLoses(c: Caps, s: Store, lab: Labels, root: int, m: map<int, int>, p: int, k: int, locked: bool,
                  held: set<int>, next: int)
    requires TreeFine(c, s, lab, root, m) && p in lab && s[p].leaf && p in held && InRange(lab[p], k)
      && HasKey(s[p].entries, k)
    requires ChainFrom(DELETE, s, lab, locked, held, 0)
    ensures
      var s' := s[p := s[p].(entries := Without(s[p].entries, LowerBound(s[p].entries, k)))];
      && Lost(c, s', lab, root, m - {k}, p, locked, held)
      && Rework(Moment(s, held, next), Moment(s', held, next))
  {
    hide TreeOk, TreeFine, ChainFrom, HasUp, Rework, Under;
    assert p in s && lab.Keys <= s.Keys by { LegalStore(c, s, lab, root, m); }
    RemovedFromLeaf(c, s, lab, root, m, p, k);
    ChainWithout(s, lab, p, Without(s[p].entries, LowerBound(s[p].entries, k)), locked, held, next);
  }

  lemma LegalStore(c: Caps, s: Store, lab: Labels, root: int, m: map<int, int>)
    requires TreeFine(c, s, lab, root, m)
    ensures lab.Keys <= s.Keys
  {
  }

  /** A leaf of a path loses at most one of its entries: the chain of held pages above it stays. */
  lemma ChainWithout(s: Store, lab: Labels, p: int, es: seq<Entry>, locked: bool, held: set<int>, next: int)
    requires lab.Keys <= s.Keys && p in lab && p in held && s[p].leaf && |es| + 1 >= |s[p].entries|
    requires ChainFrom(DELETE, s, lab, locked, held, 0)
    ensures
      var s' := s[p := s[p].(entries := es)];
      && ChainFrom(DELETE, s', lab, locked, held, lab[p].level + 1)
      && (forall x {:trigger lab[x]} :: x in held && x in lab && lab[x].level == lab[p].level ==> x == p)
      && (Under(s'[p]) ==> HasUp(s', locked, held, p))
      && Rework(Moment(s, held, next), Moment(s', held, next))
  {
    var s' := s[p := s[p].(entries := es)];
    assert !GoesUp(DELETE, s[p]) || HasUp(s, locked, held, p);
    forall x | x in held && x in lab && lab[x].level >= lab[p].level + 1
      ensures !GoesUp(DELETE, s'[x]) || HasUp(s', locked, held, x)
    {
      assert !GoesUp(DELETE, s[x]) || HasUp(s, locked, held, x);
    }
  }

  /** The leaf of a key has it exactly if the tree does. */
  lemma LeafKnows(c: Caps, s: Store, lab: Labels, root: int, m: map<int, int>, p: int, k: int)
    requires TreeFine(c, s, lab, root, m) && p in lab && s[p].leaf && InRange(lab[p], k)
    ensures HasKey(s[p].entries, k) <==> k in m
    ensures |s[p].entries| >= MinSize(s[p])
  {
    assert PageOk(s, lab, root, p) && SizeOk(c, s[p], 0, 0);
    HasKeyIsMembership(s[p].entries, k);
    LeafDecides(s, lab, root, m, p, k);
  }

  /** A key that is not in its leaf: nothing is lost. */
  lemma LeafKeeps(c: Caps, s: Store, lab: Labels, root: int, m: map<int, int>, p: int, k: int, locked: bool,
                  held: set<int>, next: int)
    requires TreeFine(c, s, lab, root, m) && p in lab && s[p].leaf && p in held && InRange(lab[p], k)
      && !HasKey(s[p].entries, k)
    requires ChainFrom(DELETE, s, lab, locked, held, 0)
    ensures k !in m && m - {k} == m && Lost(c, s, lab, root, m, p, locked, held)
    ensures Rework(Moment(s, held, next), Moment(s, held, next))
  {
    assert PageOk(s, lab, root, p) && SizeOk(c, s[p], 0, 0);
    HasKeyIsMembership(s[p].entries, k);
    LeafDecides(s, lab, root, m, p, k);
    assert !GoesUp(DELETE, s[p]) || HasUp(s, locked, held, p);
  }

  /** Pages that are not part of the tree do not matter. */
  lemma DropPages(c: Caps, s: Store, lab: Labels, root: int, m: map<int, int>, gone: set<int>)
    requires TreeFine(c, s, lab, root, m) && lab.Keys !! gone
    ensures TreeFine(c, s - gone, lab, root, m)
  {
    var s' := s - gone;
    forall x | x in lab ensures PageOk(s', lab, root, x) {
      assert PageOk(s, lab, root, x);
      if !s[x].leaf {
        forall i | 0 <= i < |s[x].entries| ensures LinkOk(s', lab, x, i) {
          assert LinkOk(s, lab, x, i);
        }
      }
    }
    forall e ensures Holds(s', lab, e) <==> Holds(s, lab, e) {
      if x :| x in lab && HoldsAt(s[x], e) { assert HoldsAt(s'[x], e); }
      if x :| x in lab && HoldsAt(s'[x], e) { assert HoldsAt(s[x], e); }
    }
  }

  /** A merge writes l, r and q, and parent ids of children of r. */
  lemma MergeConfined(s: Store, lab: Labels, root: int, s': Store, q: int, i: nat, l: int, r: int, held: set<int>)
    requires Merging(s, lab, root, s', q, i, l, r) && {q, l, r} <= held
    ensures Confined(s, s', held)
    ensures forall x {:trigger s'[x]} :: x in lab && lab[x].level > lab[l].level && x != q ==> s'[x] == s[x]
  {
    var es := Joined(s, l, r);
    forall x | x in s && !s[l].leaf && PointsIn(es, 0, |es|, x)
      ensures x in lab && s[x].parent in {l, r} && lab[x].level < lab[l].level
    {
      var j :| 0 <= j < |es| && es[j].val == x;
      JoinedChild(s, lab, root, q, i, l, r, j);
    }
  }

  /** Moving the border writes l, r and q, and parent ids of children of l and r. */
  lemma RecutConfined(s: Store, lab: Labels, root: int, s': Store, q: int, i: nat, l: int, r: int, m: nat, held: set<int>)
    requires Recutting(s, lab, root, s', q, i, l, r, m) && {q, l, r} <= held
    ensures Confined(s, s', held)
  {
    var es := Joined(s, l, r);
    forall x | x in s && !s[l].leaf && (PointsIn(es, 0, m, x) || PointsIn(es, m, |es|, x))
      ensures x in lab && s[x].parent in {l, r}
    {
      var j :| 0 <= j < |es| && es[j].val == x;
      JoinedChild(s, lab, root, q, i, l, r, j);
    }
  }

  /** A page x that is too small, together with a neighbour; both and their parent are held. */
  ghost predicate Pair(c: Caps, s: Store, lab: Labels, root: int, m: map<int, int>, x: int, q: int, i: nat, l: int, r: int,
                       locked: bool, held: set<int>)
  {
    && TreeOk(c, s, lab, root, m, x, 1, 0) && Neighbours(s, lab, root, q, i, l, r) && x in {l, r} && Under(s[x])
    && {q, l, r} <= held && ChainFrom(DELETE, s, lab, locked, held, lab[q].level)
  }

  /** MoveAllTo from r to l, and then Remove of r's slot in q. */
  ghost predicate MergeDone(s: Store, s': Store, q: int, i: nat, l: int, r: int) {
    && q in s && r in s && q in s' && i + 1 < |s[q].entries| && s[r].parent == q && (!s[r].leaf ==> |s[r].entries| > 0)
    && MovedAll(s, s'[q := s[q]], l, r, Moved(s, r, i + 1))
    && s'[q] == s[q].(entries := Without(s[q].entries, i + 1))
  }

  /** MoveAllTo does not write the parent. */
  lemma ParentApart(c: Caps, s: Store, lab: Labels, root: int, m: map<int, int>, s1: Store, x: int, q: int, i: nat,
                    l: int, r: int,
                    locked: bool, held: set<int>)
    requires Pair(c, s, lab, root, m, x, q, i, l, r, locked, held)
    requires s[r].parent == q && (!s[r].leaf ==> |s[r].entries| > 0) && MovedAll(s, s1, l, r, Moved(s, r, i + 1))
    ensures q in s1 && s1[q] == s[q]
  {
    MovedAllIsMerge(s, lab, root, s1, q, i, l, r);
  }

  /** After a merge below q: q has lost a pair. */
  lemma ParentLoses(c: Caps, s: Store, lab: Labels, root: int, m: map<int, int>, s': Store, q: int, i: nat, l: int,
                    r: int, x: int,
                    locked: bool, held: set<int>, next: int)
    requires c.Valid() && Pair(c, s, lab, root, m, x, q, i, l, r, locked, held)
    requires |s[l].entries| + |s[r].entries| <= s[l].max && MergeDone(s, s', q, i, l, r)
    ensures s'.Keys == s.Keys && l in lab && r in lab && q in s' && !s'[q].leaf
    ensures
      var lab' := MergeLabels(lab, l, r);
      && lab'.Keys == lab.Keys - {r} && q in lab' && lab'[q] == lab[q] && root in lab' && lab'[root] == lab[root]
      && Lost(c, s', lab', root, m, q, locked, held)
    ensures Rework(Moment(s, held, next), Moment(s', held, next))
  {
    var s1 := s'[q := s[q]];
    assert s' == s1[q := s1[q].(entries := Without(s1[q].entries, i + 1))];
    MergeLeavesParent(c, s, lab, root, m, s1, q, i, l, r, x);
    MovedAllIsMerge(s, lab, root, s1, q, i, l, r);
    MergeConfined(s, lab, root, s', q, i, l, r, held);
    ChainAfterMerge(s, lab, root, s', q, i, l, r, locked, held);
    hide TreeOk, Confined, ChainFrom;
  }

  lemma ChainAfterMerge(s: Store, lab: Labels, root: int, s': Store, q: int, i: nat, l: int, r: int, locked: bool,
                      held: set<int>)
    requires Merging(s, lab, root, s', q, i, l, r) && {q, l, r} <= held
    requires ChainFrom(DELETE, s, lab, locked, held, lab[q].level)
    ensures
      var lab' := MergeLabels(lab, l, r);
      && q in lab' && lab'.Keys <= s'.Keys && q in s' && ChainFrom(DELETE, s', lab', locked, held, lab'[q].level + 1)
      && (forall x {:trigger lab'[x]} :: x in held && x in lab' && lab'[x].level == lab'[q].level ==> x == q)
      && (Under(s'[q]) ==> HasUp(s', locked, held, q))
  {
    var lab' := MergeLabels(lab, l, r);
    MergeConfined(s, lab, root, s', q, i, l, r, held);
    assert !GoesUp(DELETE, s[q]) || HasUp(s, locked, held, q);
    forall x | x in held && x in lab' && lab'[x].level >= lab'[q].level + 1
      ensures !GoesUp(DELETE, s'[x]) || HasUp(s', locked, held, x)
    {
      assert lab'[x] == lab[x] && s'[x] == s[x];
      assert !GoesUp(DELETE, s[x]) || HasUp(s, locked, held, x);
    }
  }

  /** AdjustRoot, as a step between stores. */
  lemma RootGone(c: Caps, s: Store, lab: Labels, root: int, m: map<int, int>, locked: bool, held: set<int>, next: int)
    requires c.Valid() && Lost(c, s, lab, root, m, root, locked, held) && Under(s[root])
    ensures locked && root in s && root in held
    ensures s[root].leaf ==> m == map[] && lab.Keys == {root}
    ensures !s[root].leaf && |s[root].entries| == 1 ==>
      var child := s[root].entries[0].val;
      && child in lab && child in s && child != root && child != INVALID_PAGE_ID
      && TreeFine(c, Shrunken(s, root, child), lab - {root}, child, m)
      && Rework(Moment(s, held, next), Moment(Shrunken(s, root, child), held, next))
    ensures !s[root].leaf && |s[root].entries| != 1 ==> TreeFine(c, s, lab, root, m)
  {
    assert PageOk(s, lab, root, root) && SizeOk(c, s[root], 1, 0);
    if s[root].leaf {
      EmptyRoot(c, s, lab, root, m);
    } else if |s[root].entries| == 1 {
      ShrinkFine(c, s, lab, root, m);
      ChildFacts(s, lab, root, root, 0);
    } else {
      NoException(c, s, lab, root, m, root, 1, 0);
    }
  }

  /** The sibling that FindLeftSibling looks up exists, and is not held yet. */
  lemma SiblingFree(c: Caps, s: Store, lab: Labels, root: int, m: map<int, int>, p: int, locked: bool, held: set<int>)
    requires c.Valid() && Lost(c, s, lab, root, m, p, locked, held) && Under(s[p]) && p != root
    ensures p in s
    ensures
      var q := s[p].parent;
      && q in s && q in held && s[p].parent != INVALID_PAGE_ID
      && var index := ValueIndex(s[q].entries, p);
      && index >= 0 && |s[q].entries| >= 2
      && var i := if index == 0 then 0 else index - 1;
      && i + 1 < |s[q].entries|
      && var l, r := s[q].entries[i].val, s[q].entries[i + 1].val;
      && p == (if index == 0 then l else r)
      && var sib := if index == 0 then r else l;
      && sib in s && sib !in held && Pair(c, s, lab, root, m, p, q, i, l, r, locked, held + {sib})
  {
    var q, j := SlotInParent(s, lab, root, p);
    assert PageOk(s, lab, root, p) && PageOk(s, lab, root, q);
    assert SizeOk(c, s[q], 0, 0);
    var index := ValueIndex(s[q].entries, p);
    var i := if index == 0 then 0 else index - 1;
    NeighbourFacts(s, lab, root, q, i);
    var sib := s[q].entries[if index == 0 then 1 else i].val;
    assert lab[sib].level == lab[p].level;
    assert index >= 0 && |s[q].entries| >= 2 && q in held;
    hide SizesOk, Represents, InnerOk, LeafOk, MinSize, GoesUp, PageOk;
    SiblingChain(s, lab, locked, held, lab[q].level, sib);
  }

  /** Latching a page below a chain does not matter for the chain. */
  lemma SiblingChain(s: Store, lab: Labels, locked: bool, held: set<int>, level: nat, sib: int)
    requires lab.Keys <= s.Keys && ChainFrom(DELETE, s, lab, locked, held, level) && sib in lab
    requires lab[sib].level < level
    ensures ChainFrom(DELETE, s, lab, locked, held + {sib}, level)
  {
    forall x | x in held + {sib} && x in lab && lab[x].level >= level
      ensures !GoesUp(DELETE, s[x]) || HasUp(s, locked, held + {sib}, x)
    {
      assert !GoesUp(DELETE, s[x]) || HasUp(s, locked, held, x);
    }
  }

  /** Everything the page moves and the lemmas about them need of a pair. */
  lemma PairFacts(c: Caps, s: Store, lab: Labels, root: int, m: map<int, int>, x: int, q: int, i: nat, l: int, r: int,
                  locked: bool, held: set<int>)
    requires c.Valid() && Pair(c, s, lab, root, m, x, q, i, l, r, locked, held)
    ensures q in s && l in s && r in s && l != r && l in lab && r in lab && q in lab && lab[q].level == lab[x].level + 1
    ensures s[l].parent == q && s[r].parent == q && s[l].leaf == s[r].leaf && s[l].max == s[r].max
    ensures i + 1 < |s[q].entries| && lab[q].level <= lab[root].level && x in {l, r} && {q, l, r} <= held
    ensures ValueIndex(s[q].entries, l) == i && ValueIndex(s[q].entries, r) == i + 1
    ensures !s[r].leaf ==> |s[r].entries| > 0 && ChildrenLive(s, r, l, 0)
    ensures |s[l].entries| + |s[r].entries| > s[l].max ==>
      && |s[if x == l then r else l].entries| > 1 && |s[x].entries| + 1 <= s[x].max
      && (!s[x].leaf ==> |s[x].entries| + 1 < s[x].max)
      && CanShift(s, q, i, l, r, if x == l then s[r].entries[0] else s[l].entries[|s[l].entries| - 1])
  {
    NeighboursCanMove(s, lab, root, q, i, l, r);
    assert PageOk(s, lab, root, q) && PageOk(s, lab, root, l) && PageOk(s, lab, root, r);
    assert SizeOk(c, s[l], 1, 0) && SizeOk(c, s[r], 1, 0) && SizeOk(c, s[if x == l then r else l], 0, 0);
  }

  /** A pair has been passed to the small page: the tree is fine again. */
  lemma PairShifted(c: Caps, s: Store, lab: Labels, root: int, m: map<int, int>, s': Store, x: int, q: int, i: nat,
                    l: int, r: int,
                    locked: bool, held: set<int>, next: int)
    requires c.Valid() && Pair(c, s, lab, root, m, x, q, i, l, r, locked, held)
    requires |s[l].entries| + |s[r].entries| > s[l].max
    requires if x == l then ShiftedLeft(s, s', q, i, l, r) else ShiftedRight(s, s', q, i, l, r)
    ensures s'.Keys == s.Keys && r in s' && |s'[r].entries| > 0 && l in lab && r in lab
    ensures TreeFine(c, s', RecutLabels(lab, l, r, s'[r].entries[0].key), root, m)
    ensures Rework(Moment(s, held, next), Moment(s', held, next))
  {
    var cut := if x == l then |s[l].entries| + 1 else |s[l].entries| - 1;
    if x == l {
      ShiftedLeftIsRecut(s, lab, root, s', q, i, l, r);
    } else {
      ShiftedRightIsRecut(s, lab, root, s', q, i, l, r);
    }
    RecutFine(c, s, lab, root, m, s', q, i, l, r, x);
    RecutConfined(s, lab, root, s', q, i, l, r, cut, held);
  }
}
