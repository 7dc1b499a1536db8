/**
 * The pages of a B+ tree as plain values, and the invariant that ties them together.
 *
 * A store maps page ids to the contents of the pages.  Nothing in a store says that its pages form a tree:
 * they refer to each other by page id only.  The invariant therefore carries one ghost label per page, its
 * level and the half-open key interval [lo, hi) it is responsible for, and says page by page how the labels
 * of a page, of its children and of its parent fit together.
 */
module TreeModel {
  import opened Common

  /** A slot of a page: a key with a record id (leaf page) or with the page id of a child (internal page). */
  datatype Entry = Entry(key: int, val: int)

  /** What a tree page holds: header fields, the sibling link (leaf pages) and the used part of its array. */
  datatype Node = Node(leaf: bool, max: int, parent: int, next: int, entries: seq<Entry>)

  type Store = map<int, Node>

  /** The place of a page in the tree: leaves have level 0, and None is an absent bound. */
  datatype Label = Label(level: nat, lo: Option<int>, hi: Option<int>)

  type Labels = map<int, Label>

  /** max_size_ of leaf and of internal pages. */
  datatype Caps = Caps(leaf: int, inner: int) {
    /** The smallest capacities the tree works with; a 512-byte page gives at least 5 for every key size. */
    predicate Valid() {
      2 <= leaf && 4 <= inner
    }

    function Of(isLeaf: bool): int {
      if isLeaf then leaf else inner
    }
  }

  type Capacities = c: Caps | c.Valid() witness Caps(2, 4)

  // ----- bounds -----

  predicate Above(lo: Option<int>, k: int) {
    lo.None? || lo.value <= k
  }

  predicate Below(k: int, hi: Option<int>) {
    hi.None? || k < hi.value
  }

  predicate InRange(b: Label, k: int) {
    Above(b.lo, k) && Below(k, b.hi)
  }

  // ----- entry sequences -----

  ghost predicate SortedFrom(es: seq<Entry>, from: nat) {
    forall i, j :: from <= i < j < |es| ==> es[i].key < es[j].key
  }

  ghost predicate InRangeFrom(es: seq<Entry>, from: nat, b: Label) {
    forall i :: from <= i < |es| ==> InRange(b, es[i].key)
  }

  /** Some entry of `es` has value `v`: for the entries of an internal page, `v` is one of the children. */
  ghost predicate Points(es: seq<Entry>, v: int) {
    exists i :: 0 <= i < |es| && es[i].val == v
  }

  function PairAt(es: seq<Entry>, i: nat, e: Entry): (r: seq<Entry>)
    requires i <= |es|
  {
    es[..i] + [e] + es[i..]
  }

  /** The first slot whose value is v, or -1. */
  function ValueIndex(es: seq<Entry>, v: int): (r: int)
    ensures -1 <= r < |es|
    ensures r >= 0 ==> es[r].val == v && forall j :: 0 <= j < r ==> es[j].val != v
    ensures r == -1 ==> forall j :: 0 <= j < |es| ==> es[j].val != v
  {
    if es == [] then -1
    else if es[0].val == v then 0
    else
      var r := ValueIndex(es[1..], v);
      assert forall j :: 0 < j < |es| ==> es[j] == es[1..][j - 1];
      if r == -1 then -1 else r + 1
  }

  /** The number of leading entries whose key is below k. */
  function LowerBound(es: seq<Entry>, k: int): (r: nat)
    ensures r <= |es|
    ensures forall i :: 0 <= i < r ==> es[i].key < k
    ensures r < |es| ==> k <= es[r].key
  {
    if es == [] || k <= es[0].key then 0
    else
      var r := LowerBound(es[1..], k);
      assert forall i :: 0 < i < |es| ==> es[i] == es[1..][i - 1];
      r + 1
  }

  lemma {:induction false} LowerBoundUnique(es: seq<Entry>, k: int, r: nat)
    requires r <= |es| && (forall i :: 0 <= i < r ==> es[i].key < k) && (r < |es| ==> k <= es[r].key)
    ensures r == LowerBound(es, k)
  {
    if r > 0 { LowerBoundUnique(es[1..], k, r - 1); }
  }

  /** The page's Insert: the pair goes before the first entry whose key is not smaller. */
  function InsertSorted(es: seq<Entry>, e: Entry): seq<Entry> {
    PairAt(es, LowerBound(es, e.key), e)
  }

  /** In sorted entries, key k can only be at LowerBound. */
  predicate HasKey(es: seq<Entry>, k: int) {
    LowerBound(es, k) < |es| && es[LowerBound(es, k)].key == k
  }

  // ----- the invariant, page by page -----

  ghost predicate LeafOk(n: Node, b: Label) {
    && b.level == 0
    && SortedFrom(n.entries, 0)
    && InRangeFrom(n.entries, 0, b)
  }

  /**
   * Slot 0 of an internal page carries a key that no search reads.  Off the leftmost spine it equals the
   * lower bound of the page, that is, the separator left of the page in the nearest ancestor that has one.
   */
  ghost predicate InnerOk(n: Node, b: Label) {
    && b.level > 0
    && |n.entries| >= 1
    && SortedFrom(n.entries, 1)
    && InRangeFrom(n.entries, 1, b)
    && (b.lo.Some? ==> n.entries[0].key == b.lo.value && SortedFrom(n.entries, 0))
  }

  ghost predicate NodeOk(s: Store, lab: Labels, p: int)
    requires p in s && p in lab
  {
    && (lab[p].lo.Some? && lab[p].hi.Some? ==> lab[p].lo.value < lab[p].hi.value)
    && if s[p].leaf then LeafOk(s[p], lab[p]) else InnerOk(s[p], lab[p])
  }

  /** The sibling link of a leaf leads to the leaf whose interval starts where this one ends. */
  ghost predicate ChainOk(s: Store, lab: Labels, p: int)
    requires p in s && p in lab
  {
    s[p].leaf ==>
      if lab[p].hi.None? then s[p].next == INVALID_PAGE_ID
      else
        var r := s[p].next;
        r in s && r in lab && s[r].leaf && lab[r].lo == lab[p].hi
  }

  function ChildLo(n: Node, b: Label, i: nat): Option<int>
    requires i < |n.entries|
  {
    if i == 0 then b.lo else Some(n.entries[i].key)
  }

  function ChildHi(n: Node, b: Label, i: nat): Option<int>
    requires i < |n.entries|
  {
    if i + 1 == |n.entries| then b.hi else Some(n.entries[i + 1].key)
  }

  /** The child in slot i of p lies one level down, has the interval that p assigns to it, and names p as its parent. */
  ghost predicate LinkOk(s: Store, lab: Labels, p: int, i: int)
    requires p in s && p in lab && 0 <= i < |s[p].entries|
  {
    var c := s[p].entries[i].val;
    && c in s && c in lab
    && s[c].parent == p
    && lab[c].level + 1 == lab[p].level
    && lab[c].lo == ChildLo(s[p], lab[p], i)
    && lab[c].hi == ChildHi(s[p], lab[p], i)
  }

  ghost predicate LinksOk(s: Store, lab: Labels, p: int)
    requires p in s && p in lab
  {
    !s[p].leaf ==> forall i :: 0 <= i < |s[p].entries| ==> LinkOk(s, lab, p, i)
  }

  /** Every page but the root has a parent in the tree that points back to it. */
  ghost predicate ParentOk(s: Store, lab: Labels, root: int, p: int)
    requires p in s && p in lab
  {
    if p == root then
      s[p].parent == INVALID_PAGE_ID && lab[p].lo.None? && lab[p].hi.None?
    else
      var q := s[p].parent;
      q in s && q in lab && !s[q].leaf && Points(s[q].entries, p)
  }

  ghost predicate PageOk(s: Store, lab: Labels, root: int, p: int)
    requires p in s && p in lab && root in lab
  {
    && lab[p].level <= lab[root].level
    && NodeOk(s, lab, p)
    && ChainOk(s, lab, p)
    && LinksOk(s, lab, p)
    && ParentOk(s, lab, root, p)
  }

  /** The pages labelled by `lab` form a search tree with root `root`; nothing is said about page sizes. */
  ghost predicate Inv(s: Store, lab: Labels, root: int) {
    && lab.Keys <= s.Keys
    && root in lab
    && INVALID_PAGE_ID !in lab
    && forall p {:trigger PageOk(s, lab, root, p)} :: p in lab ==> PageOk(s, lab, root, p)
  }

  // ----- sizes -----

  /** GetMinSize: the root may be small, every other page is at least half full. */
  function MinSize(n: Node): int {
    if n.parent == INVALID_PAGE_ID then (if n.leaf then 1 else 2) else n.max / 2
  }

  /** `less` and `more` say how far page p may be below its minimum or above its maximum. */
  ghost predicate SizeOk(c: Caps, n: Node, less: nat, more: nat) {
    && n.max == c.Of(n.leaf)
    && MinSize(n) - less <= |n.entries| <= n.max + more
  }

  /** All tree pages have a legal size, except that page x may be off by `less` or `more`. */
  ghost predicate SizesOk(c: Caps, s: Store, lab: Labels, x: int, less: nat, more: nat)
    requires lab.Keys <= s.Keys
  {
    forall p {:trigger s[p]} :: p in lab ==>
      if p == x then SizeOk(c, s[p], less, more) else SizeOk(c, s[p], 0, 0)
  }

  // ----- contents -----

  ghost predicate HoldsAt(n: Node, e: Entry) {
    n.leaf && e in n.entries
  }

  /** Some leaf of the tree has the entry e. */
  ghost predicate Holds(s: Store, lab: Labels, e: Entry)
    requires lab.Keys <= s.Keys
  {
    exists p :: p in lab && HoldsAt(s[p], e)
  }

  /** The leaves hold exactly the pairs of the map m. */
  ghost predicate Represents(s: Store, lab: Labels, m: map<int, int>)
    requires lab.Keys <= s.Keys
  {
    && (forall e :: Holds(s, lab, e) ==> e.key in m && m[e.key] == e.val)
    && (forall k :: k in m ==> Holds(s, lab, Entry(k, m[k])))
  }

  // ----- consequences -----

  lemma PairAtSorted(es: seq<Entry>, i: nat, e: Entry, from: nat)
    requires SortedFrom(es, from) && from <= i <= |es|
    requires from < i ==> es[i - 1].key < e.key
    requires i < |es| ==> e.key < es[i].key
    ensures SortedFrom(PairAt(es, i, e), from)
  {
    var r := PairAt(es, i, e);
    forall a, b | from <= a < b < |r| ensures r[a].key < r[b].key {
      if a != i && b != i {
        assert r[a] == es[if a < i then a else a - 1] && r[b] == es[if b < i then b else b - 1];
      } else if a == i {
        assert r[b] == es[b - 1];
      }
    }
  }

  lemma PairAtInRange(es: seq<Entry>, i: nat, e: Entry, from: nat, b: Label)
    requires InRangeFrom(es, from, b) && from <= i <= |es| && InRange(b, e.key)
    ensures InRangeFrom(PairAt(es, i, e), from, b)
  {
    var r := PairAt(es, i, e);
    forall j | from <= j < |r| ensures InRange(b, r[j].key) {
      assert r[j] == if j < i then es[j] else if j == i then e else es[j - 1];
    }
  }

  /** Two slots of an internal page never lead to the same child. */
  lemma ChildrenDistinct(s: Store, lab: Labels, root: int, p: int, i: nat, j: nat)
    requires Inv(s, lab, root) && p in lab && !s[p].leaf
    requires i < j < |s[p].entries|
    ensures s[p].entries[i].val != s[p].entries[j].val
  {
    assert PageOk(s, lab, root, p);
    assert LinkOk(s, lab, p, i) && LinkOk(s, lab, p, j);
  }

  /** A page is never its own child, and the root is nobody's child. */
  lemma ChildFacts(s: Store, lab: Labels, root: int, p: int, i: nat)
    requires Inv(s, lab, root) && p in lab && !s[p].leaf && i < |s[p].entries|
    ensures
      var c := s[p].entries[i].val;
      c in lab && c != p && c != root && s[c].parent == p && lab[c].level + 1 == lab[p].level
  {
    assert PageOk(s, lab, root, p);
    assert LinkOk(s, lab, p, i);
    assert PageOk(s, lab, root, s[p].entries[i].val);
  }

  /** The interval of a child lies inside the interval of its parent. */
  lemma ChildRange(s: Store, lab: Labels, root: int, p: int, i: nat, k: int)
    requires Inv(s, lab, root) && p in lab && !s[p].leaf && i < |s[p].entries|
    requires s[p].entries[i].val in lab && InRange(lab[s[p].entries[i].val], k)
    ensures InRange(lab[p], k)
  {
    assert PageOk(s, lab, root, p);
    assert LinkOk(s, lab, p, i);
  }

  /** The slot of p in its parent. */
  lemma SlotInParent(s: Store, lab: Labels, root: int, p: int) returns (q: int, i: nat)
    requires Inv(s, lab, root) && p in lab && p != root
    ensures q == s[p].parent && q in lab && !s[q].leaf && lab[q].level == lab[p].level + 1
    ensures i < |s[q].entries| && s[q].entries[i].val == p && LinkOk(s, lab, q, i)
  {
    assert PageOk(s, lab, root, p);
    q := s[p].parent;
    assert PageOk(s, lab, root, q);
    i :| 0 <= i < |s[q].entries| && s[q].entries[i].val == p;
    assert LinkOk(s, lab, q, i);
  }

  lemma RootIsTop(s: Store, lab: Labels, root: int, p: int)
    requires Inv(s, lab, root) && p in lab && p != root
    ensures lab[p].level < lab[root].level
  {
    var q, i := SlotInParent(s, lab, root, p);
    assert PageOk(s, lab, root, q);
  }

  /** At every level, the intervals of the pages do not overlap: at most one page is responsible for a key. */
  lemma {:induction false} OnePagePerKey(s: Store, lab: Labels, root: int, p: int, p': int, k: int)
    requires Inv(s, lab, root) && p in lab && p' in lab && lab[p].level == lab[p'].level
    requires InRange(lab[p], k) && InRange(lab[p'], k)
    ensures p == p'
    decreases lab[root].level - lab[p].level
  {
    if p == root {
      if p' != root { RootIsTop(s, lab, root, p'); }
    } else if p' == root {
      RootIsTop(s, lab, root, p);
    } else {
      var q, i := SlotInParent(s, lab, root, p);
      var q', i' := SlotInParent(s, lab, root, p');
      ChildRange(s, lab, root, q, i, k);
      ChildRange(s, lab, root, q', i', k);
      RootIsTop(s, lab, root, p);
      OnePagePerKey(s, lab, root, q, q', k);
      assert PageOk(s, lab, root, q);
    }
  }

  /** Two leaves whose intervals start at the same key, or end at the same key, are the same leaf. */
  lemma SameBound(s: Store, lab: Labels, root: int, p: int, p': int)
    requires Inv(s, lab, root) && p in lab && p' in lab && lab[p].level == lab[p'].level
    requires lab[p].lo == lab[p'].lo || lab[p].hi == lab[p'].hi
    ensures p == p'
  {
    assert PageOk(s, lab, root, p) && PageOk(s, lab, root, p');
    var b, b' := lab[p], lab[p'];
    var k :=
      if b.lo == b'.lo then
        if b.lo.Some? then b.lo.value
        else if b.hi.Some? && (b'.hi.None? || b.hi.value <= b'.hi.value) then b.hi.value - 1
        else if b'.hi.Some? then b'.hi.value - 1 else 0
      else
        if b.lo.Some? && (b'.lo.None? || b.lo.value >= b'.lo.value) then b.lo.value
        else b'.lo.value;
    OnePagePerKey(s, lab, root, p, p', k);
  }

  /** So the leaf responsible for k decides whether k is in the tree. */
  lemma LeafDecides(s: Store, lab: Labels, root: int, m: map<int, int>, p: int, k: int)
    requires Inv(s, lab, root) && Represents(s, lab, m)
    requires p in lab && s[p].leaf && InRange(lab[p], k)
    ensures k in m <==> exists i :: 0 <= i < |s[p].entries| && s[p].entries[i].key == k
    ensures forall i :: 0 <= i < |s[p].entries| && s[p].entries[i].key == k ==> k in m && s[p].entries[i].val == m[k]
  {
    assert PageOk(s, lab, root, p);
    forall i | 0 <= i < |s[p].entries| && s[p].entries[i].key == k
      ensures k in m && s[p].entries[i].val == m[k]
    {
      assert HoldsAt(s[p], s[p].entries[i]);
      assert Holds(s, lab, s[p].entries[i]);
    }
    if k in m {
      var e := Entry(k, m[k]);
      assert Holds(s, lab, e);
      var p' :| p' in lab && HoldsAt(s[p'], e);
      assert PageOk(s, lab, root, p');
      OnePagePerKey(s, lab, root, p, p', k);
    }
  }

  /** HasKey is membership. */
  lemma HasKeyIsMembership(es: seq<Entry>, k: int)
    requires SortedFrom(es, 0)
    ensures HasKey(es, k) <==> exists i :: 0 <= i < |es| && es[i].key == k
    ensures forall i :: 0 <= i < |es| && es[i].key == k ==> i == LowerBound(es, k)
  {
    var r := LowerBound(es, k);
    forall i | 0 <= i < |es| && es[i].key == k ensures i == r {
    }
  }

  // ----- one leaf changes -----

  lemma LeafEditKeepsInv(s: Store, lab: Labels, root: int, p: int, es: seq<Entry>)
    requires Inv(s, lab, root) && p in lab && s[p].leaf
    requires SortedFrom(es, 0) && InRangeFrom(es, 0, lab[p])
    ensures Inv(s[p := s[p].(entries := es)], lab, root)
  {
    var s' := s[p := s[p].(entries := es)];
    forall x | x in lab ensures PageOk(s', lab, root, x) {
      assert PageOk(s, lab, root, x);
      if !s[x].leaf {
        forall i | 0 <= i < |s[x].entries| ensures LinkOk(s', lab, x, i) {
          assert LinkOk(s, lab, x, i);
        }
      }
    }
  }

  lemma PairAtMembers(es: seq<Entry>, i: nat, e: Entry, d: Entry)
    requires i <= |es|
    ensures d in PairAt(es, i, e) <==> d in es || d == e
  {
    assert es == es[..i] + es[i..];
  }

  lemma WithoutMembers(es: seq<Entry>, i: nat, d: Entry)
    requires i < |es| && SortedFrom(es, 0)
    ensures d in Without(es, i) <==> d in es && d.key != es[i].key
  {
    assert es == es[..i] + [es[i]] + es[i + 1..];
    assert forall j :: 0 <= j < i ==> es[..i][j] == es[j];
    assert forall j :: i < j < |es| ==> es[j] == es[i + 1..][j - i - 1];
  }

  /** Replacing the entries of one leaf. */
  lemma LeafEditHolds(s: Store, lab: Labels, p: int, es: seq<Entry>, d: Entry)
    requires lab.Keys <= s.Keys && p in lab && s[p].leaf
    ensures
      Holds(s[p := s[p].(entries := es)], lab, d)
      <==> d in es || exists x :: x in lab && x != p && HoldsAt(s[x], d)
  {
    var s' := s[p := s[p].(entries := es)];
    if d in es { assert HoldsAt(s'[p], d); }
    if x :| x in lab && x != p && HoldsAt(s[x], d) { assert HoldsAt(s'[x], d); }
  }

  /** What a leaf holds, no other leaf holds. */
  lemma HeldOnce(s: Store, lab: Labels, root: int, p: int, x: int, k: int, d: Entry)
    requires Inv(s, lab, root) && p in lab && s[p].leaf && InRange(lab[p], k)
    requires x in lab && HoldsAt(s[x], d) && d.key == k
    ensures x == p
  {
    assert PageOk(s, lab, root, p) && PageOk(s, lab, root, x);
    OnePagePerKey(s, lab, root, p, x, k);
  }

  /** Putting a new pair into the leaf responsible for its key. */
  lemma LeafInsertOk(s: Store, lab: Labels, root: int, m: map<int, int>, p: int, k: int, v: int)
    requires Inv(s, lab, root) && Represents(s, lab, m)
    requires p in lab && s[p].leaf && InRange(lab[p], k) && !HasKey(s[p].entries, k)
    ensures
      var s' := s[p := s[p].(entries := InsertSorted(s[p].entries, Entry(k, v)))];
      Inv(s', lab, root) && Represents(s', lab, m[k := v]) && k !in m
  {
    assert PageOk(s, lab, root, p);
    var es, i, e := s[p].entries, LowerBound(s[p].entries, k), Entry(k, v);
    var es' := PairAt(es, i, e);
    var s' := s[p := s[p].(entries := es')];
    HasKeyIsMembership(es, k);
    LeafDecides(s, lab, root, m, p, k);
    PairAtSorted(es, i, e, 0);
    PairAtInRange(es, i, e, 0, lab[p]);
    LeafEditKeepsInv(s, lab, root, p, es');
    assert s[p := s[p].(entries := es)] == s;
    forall d ensures Holds(s', lab, d) <==> d == e || Holds(s, lab, d) {
      LeafEditHolds(s, lab, p, es', d);
      LeafEditHolds(s, lab, p, es, d);
      PairAtMembers(es, i, e, d);
    }
  }

  /** Dropping the pair with key k from the leaf responsible for k. */
  lemma LeafRemoveOk(s: Store, lab: Labels, root: int, m: map<int, int>, p: int, k: int)
    requires Inv(s, lab, root) && Represents(s, lab, m)
    requires p in lab && s[p].leaf && InRange(lab[p], k) && HasKey(s[p].entries, k)
    ensures
      var s' := s[p := s[p].(entries := Without(s[p].entries, LowerBound(s[p].entries, k)))];
      Inv(s', lab, root) && Represents(s', lab, m - {k}) && k in m
  {
    hide Holds, HasKey, Represents;
    var es := s[p].entries;
    HasKeyMeans(s, lab, root, m, p, k);
    LeafRemoveInv(s, lab, root, p, LowerBound(es, k));
    var s' := s[p := s[p].(entries := Without(es, LowerBound(es, k)))];
    forall d ensures Holds(s', lab, d) <==> Holds(s, lab, d) && d.key != k {
      LeafRemoveHolds(s, lab, root, p, k, d);
    }
    RepresentsLess(s, s', lab, m, k);
  }

  lemma HasKeyMeans(s: Store, lab: Labels, root: int, m: map<int, int>, p: int, k: int)
    requires Inv(s, lab, root) && Represents(s, lab, m)
    requires p in lab && s[p].leaf && InRange(lab[p], k) && HasKey(s[p].entries, k)
    ensures k in m && LowerBound(s[p].entries, k) < |s[p].entries|
  {
    LeafDecides(s, lab, root, m, p, k);
  }

  lemma LeafRemoveInv(s: Store, lab: Labels, root: int, p: int, i: nat)
    requires Inv(s, lab, root) && p in lab && s[p].leaf && i < |s[p].entries|
    ensures Inv(s[p := s[p].(entries := Without(s[p].entries, i))], lab, root)
  {
    assert PageOk(s, lab, root, p);
    var es := s[p].entries;
    var es' := Without(es, i);
    assert forall j :: 0 <= j < |es'| ==> es'[j] == es[if j < i then j else j + 1];
    LeafEditKeepsInv(s, lab, root, p, es');
  }

  lemma RepresentsLess(s: Store, s': Store, lab: Labels, m: map<int, int>, k: int)
    requires lab.Keys <= s.Keys && lab.Keys <= s'.Keys && Represents(s, lab, m)
    requires forall d :: Holds(s', lab, d) <==> Holds(s, lab, d) && d.key != k
    ensures Represents(s', lab, m - {k})
  {
    hide Holds;
  }

  /** The leaves hold an entry after the removal exactly if they held it before and it is not the one for k. */
  lemma LeafRemoveHolds(s: Store, lab: Labels, root: int, p: int, k: int, d: Entry)
    requires Inv(s, lab, root)
    requires p in lab && s[p].leaf && InRange(lab[p], k) && HasKey(s[p].entries, k)
    ensures
      var s' := s[p := s[p].(entries := Without(s[p].entries, LowerBound(s[p].entries, k)))];
      Holds(s', lab, d) <==> Holds(s, lab, d) && d.key != k
  {
    assert PageOk(s, lab, root, p);
    var es, i := s[p].entries, LowerBound(s[p].entries, k);
    assert s[p := s[p].(entries := es)] == s;
    LeafEditHolds(s, lab, p, Without(es, i), d);
    LeafEditHolds(s, lab, p, es, d);
    WithoutMembers(es, i, d);
    hide Without, LowerBound;
    if x :| x in lab && x != p && HoldsAt(s[x], d) && d.key == k {
      HeldOnce(s, lab, root, p, x, k, d);
    }
  }
}
