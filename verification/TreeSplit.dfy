/** Splitting an overfull page and hooking the new page into the parent, on stores. */
module TreeSplit {
  import opened Common
  import opened TreeModel

  /**
   * MoveHalfTo turned s into s': slots mid.. of page p moved to the new page n, the leaf chain was relinked,
   * and the children that moved have n as their parent.
   */
  ghost predicate IsSplit(s: Store, s': Store, p: int, n: int, mid: nat)
  {
    && p in s && mid <= |s[p].entries|
    && s'.Keys == s.Keys + {n}
    && s'[p] == s[p].(entries := s[p].entries[..mid], next := if s[p].leaf then n else s[p].next)
    && s'[n] == Node(s[p].leaf, s[p].max, s[p].parent, s[p].next, s[p].entries[mid..])
    && (forall x {:trigger s'[x]} :: x in s && x != p && x != n ==>
          s'[x] == if !s[p].leaf && PointsFrom(s[p].entries, mid, x) then s[x].(parent := n) else s[x])
  }

  ghost predicate PointsIn(es: seq<Entry>, from: nat, to: nat, v: int) {
    exists i :: from <= i < to && i < |es| && es[i].val == v
  }

  /** While entries move from page p to page n: the children in slots from..to already name n as their parent. */
  ghost predicate Adopting(s: Store, now: Store, p: int, n: int, from: nat, to: nat) {
    && p in s && n in s && p != n && now.Keys == s.Keys && now[p] == s[p] && now[n] == s[n]
    && forall x {:trigger now[x]} :: x in s && x != p && x != n ==>
         now[x] == if !s[p].leaf && PointsIn(s[p].entries, from, to, x) then s[x].(parent := n) else s[x]
  }

  lemma AdoptNext(s: Store, now: Store, p: int, n: int, from: nat, i: nat)
    requires Adopting(s, now, p, n, from, i) && from <= i < |s[p].entries|
    requires !s[p].leaf ==> s[p].entries[i].val in s && s[p].entries[i].val !in {p, n}
    ensures now.Keys == s.Keys && now[p] == s[p] && now[n] == s[n]
    ensures s[p].leaf || s[p].entries[i].val in now
    ensures
      var c := s[p].entries[i].val;
      Adopting(s, if s[p].leaf then now else now[c := now[c].(parent := n)], p, n, from, i + 1)
  {
    var es := s[p].entries;
    forall v ensures PointsIn(es, from, i + 1, v) <==> PointsIn(es, from, i, v) || v == es[i].val {
      if PointsIn(es, from, i + 1, v) {
        var j :| from <= j < i + 1 && j < |es| && es[j].val == v;
        assert j < i ==> PointsIn(es, from, i, v);
      }
    }
  }

  lemma AdoptNone(s: Store, p: int, n: int, from: nat)
    requires p in s && n in s && p != n
    ensures Adopting(s, s, p, n, from, from)
  {
  }

  /** When all children have moved, storing both halves completes the split. */
  lemma HalfMoved(s: Store, now: Store, p: int, n: int, mid: nat)
    requires p in s && mid <= |s[p].entries| && Adopting(s, now, p, n, mid, |s[p].entries|)
    requires s[n] == Node(s[p].leaf, s[p].max, s[p].parent, INVALID_PAGE_ID, [])
    requires !s[p].leaf ==> s[p].next == INVALID_PAGE_ID
    ensures
      var left := s[p].(entries := s[p].entries[..mid], next := if s[p].leaf then n else INVALID_PAGE_ID);
      var right := s[n].(entries := s[p].entries[mid..], next := if s[p].leaf then s[p].next else INVALID_PAGE_ID);
      IsSplit(s, now[p := left][n := right], p, n, mid)
  {
  }

  /** The children in slots from.. of page p are live pages other than p and n. */
  ghost predicate ChildrenLive(s: Store, p: int, n: int, from: nat)
    requires p in s
  {
    forall i :: from <= i < |s[p].entries| ==> s[p].entries[i].val in s && s[p].entries[i].val !in {p, n}
  }

  ghost predicate PointsFrom(es: seq<Entry>, from: nat, v: int) {
    exists i :: from <= i < |es| && es[i].val == v
  }

  function SplitLabels(lab: Labels, p: int, n: int, k: int): Labels
    requires p in lab
  {
    lab[p := lab[p].(hi := Some(k))][n := Label(lab[p].level, Some(k), lab[p].hi)]
  }

  /** InsertNodeAfter on page q: the pair (k, n) goes right after the slot of p. */
  function Attach(s: Store, q: int, p: int, k: int, n: int): Store
    requires q in s
  {
    s[q := s[q].(entries := PairAt(s[q].entries, ValueIndex(s[q].entries, p) + 1, Entry(k, n)))]
  }

  /** The new separator lies strictly inside the interval of the split page. */
  lemma SeparatorInside(s: Store, lab: Labels, root: int, p: int, mid: nat)
    requires Inv(s, lab, root) && p in lab && 0 < mid < |s[p].entries|
    ensures
      var k := s[p].entries[mid].key;
      InRange(lab[p], k) && (lab[p].lo.Some? ==> lab[p].lo.value < k)
  {
    assert PageOk(s, lab, root, p);
    assert s[p].entries[0].key < s[p].entries[mid].key || !s[p].leaf;
  }

  /** Page p, in slot i of its parent q, has been split at slot mid into p and n, and n is attached: s became s'. */
  ghost predicate Splitting(s: Store, lab: Labels, root: int, s': Store, p: int, n: int, mid: nat, q: int, i: nat) {
    && Inv(s, lab, root) && p in lab && p != root && 0 < mid < |s[p].entries|
    && n !in s && n != INVALID_PAGE_ID
    && q == s[p].parent && q in lab && !s[q].leaf && q != p
    && i < |s[q].entries| && s[q].entries[i].val == p && LinkOk(s, lab, q, i)
    && s'.Keys == s.Keys + {n}
    && s'[p] == s[p].(entries := s[p].entries[..mid], next := if s[p].leaf then n else s[p].next)
    && s'[n] == Node(s[p].leaf, s[p].max, s[p].parent, s[p].next, s[p].entries[mid..])
    && s'[q] == s[q].(entries := PairAt(s[q].entries, i + 1, Entry(s[p].entries[mid].key, n)))
    && (forall x {:trigger s'[x]} :: x in s && x != p && x != q ==>
          s'[x] == if !s[p].leaf && PointsFrom(s[p].entries, mid, x) then s[x].(parent := n) else s[x])
  }

  /** A page among the moved children is a child of p. */
  lemma MovedChild(s: Store, lab: Labels, root: int, p: int, mid: nat, x: int)
    requires Inv(s, lab, root) && p in lab && !s[p].leaf && PointsFrom(s[p].entries, mid, x)
    ensures x in lab && x != p && x != root && s[x].parent == p && lab[x].level + 1 == lab[p].level
    ensures forall j :: 0 <= j < mid && j < |s[p].entries| ==> s[p].entries[j].val != x
  {
    var i :| mid <= i < |s[p].entries| && s[p].entries[i].val == x;
    ChildFacts(s, lab, root, p, i);
    forall j | 0 <= j < mid && j < |s[p].entries| ensures s[p].entries[j].val != x {
      ChildrenDistinct(s, lab, root, p, j, i);
    }
  }

  lemma SplitLeftOk(s: Store, lab: Labels, root: int, s': Store, p: int, n: int, mid: nat, q: int, i: nat)
    requires Splitting(s, lab, root, s', p, n, mid, q, i)
    ensures PageOk(s', SplitLabels(lab, p, n, s[p].entries[mid].key), root, p)
  {
    var lab' := SplitLabels(lab, p, n, s[p].entries[mid].key);
    SeparatorInside(s, lab, root, p, mid);
    assert PageOk(s, lab, root, p);
    assert s'[q].entries[i].val == p;
    if !s[p].leaf {
      forall j | 0 <= j < mid ensures LinkOk(s', lab', p, j) {
        assert LinkOk(s, lab, p, j);
        ChildFacts(s, lab, root, p, j);
        var c := s[p].entries[j].val;
        if PointsFrom(s[p].entries, mid, c) { MovedChild(s, lab, root, p, mid, c); }
      }
    }
  }

  lemma SplitRightOk(s: Store, lab: Labels, root: int, s': Store, p: int, n: int, mid: nat, q: int, i: nat)
    requires Splitting(s, lab, root, s', p, n, mid, q, i)
    ensures PageOk(s', SplitLabels(lab, p, n, s[p].entries[mid].key), root, n)
  {
    var lab' := SplitLabels(lab, p, n, s[p].entries[mid].key);
    SeparatorInside(s, lab, root, p, mid);
    assert PageOk(s, lab, root, p);
    assert s'[q].entries[i + 1].val == n;
    if !s[p].leaf {
      forall j | 0 <= j < |s[p].entries| - mid ensures LinkOk(s', lab', n, j) {
        assert LinkOk(s, lab, p, mid + j);
        MovedChild(s, lab, root, p, mid, s[p].entries[mid + j].val);
      }
    }
  }

  /** The parent's entries stay sorted and in range when the new separator goes in. */
  lemma SplitParentNodeOk(s: Store, lab: Labels, root: int, s': Store, p: int, n: int, mid: nat, q: int, i: nat)
    requires Splitting(s, lab, root, s', p, n, mid, q, i)
    ensures InnerOk(s'[q], lab[q])
  {
    SeparatorInside(s, lab, root, p, mid);
    assert PageOk(s, lab, root, q);
    var es, e := s[q].entries, Entry(s[p].entries[mid].key, n);
    PairAtSorted(es, i + 1, e, 1);
    if lab[q].lo.Some? { PairAtSorted(es, i + 1, e, 0); }
    PairAtInRange(es, i + 1, e, 1, lab[q]);
    assert s'[q].entries == PairAt(es, i + 1, e);
    hide SortedFrom, InRangeFrom, InRange, IsSplit;
  }

  lemma SplitParentOk(s: Store, lab: Labels, root: int, s': Store, p: int, n: int, mid: nat, q: int, i: nat)
    requires Splitting(s, lab, root, s', p, n, mid, q, i)
    ensures PageOk(s', SplitLabels(lab, p, n, s[p].entries[mid].key), root, q)
  {
    var lab' := SplitLabels(lab, p, n, s[p].entries[mid].key);
    SplitParentNodeOk(s, lab, root, s', p, n, mid, q, i);
    SplitParentLinksOk(s, lab, root, s', p, n, mid, q, i);
    assert PageOk(s, lab, root, q);
    if q != root {
      var q', i' := SlotInParent(s, lab, root, q);
      assert s'[q'].entries[i'].val == q;
    }
  }

  lemma SplitParentLinksOk(s: Store, lab: Labels, root: int, s': Store, p: int, n: int, mid: nat, q: int, i: nat)
    requires Splitting(s, lab, root, s', p, n, mid, q, i)
    ensures LinksOk(s', SplitLabels(lab, p, n, s[p].entries[mid].key), q)
  {
    var lab' := SplitLabels(lab, p, n, s[p].entries[mid].key);
    assert PageOk(s, lab, root, q);
    forall j | 0 <= j < |s'[q].entries| ensures LinkOk(s', lab', q, j) {
      if j != i + 1 {
        var j' := if j <= i then j else j - 1;
        assert LinkOk(s, lab, q, j');
        ChildFacts(s, lab, root, q, j');
        if j' < i { ChildrenDistinct(s, lab, root, q, j', i); }
        if j' > i { ChildrenDistinct(s, lab, root, q, i, j'); }
        var c := s[q].entries[j'].val;
        if !s[p].leaf && PointsFrom(s[p].entries, mid, c) { MovedChild(s, lab, root, p, mid, c); }
      }
    }
  }

  lemma SplitOthersOk(s: Store, lab: Labels, root: int, s': Store, p: int, n: int, mid: nat, q: int, i: nat, x: int)
    requires Splitting(s, lab, root, s', p, n, mid, q, i)
    requires x in lab && x != p && x != q
    ensures PageOk(s', SplitLabels(lab, p, n, s[p].entries[mid].key), root, x)
  {
    var lab' := SplitLabels(lab, p, n, s[p].entries[mid].key);
    assert PageOk(s, lab, root, x);
    if !s[x].leaf {
      forall j | 0 <= j < |s[x].entries| ensures LinkOk(s', lab', x, j) {
        assert LinkOk(s, lab, x, j);
        var c := s[x].entries[j].val;
        if !s[p].leaf && PointsFrom(s[p].entries, mid, c) { MovedChild(s, lab, root, p, mid, c); }
      }
    }
    if !s[p].leaf && PointsFrom(s[p].entries, mid, x) { MovedChild(s, lab, root, p, mid, x); }
    if x != root {
      SplitOtherParent(s, lab, root, s', p, n, mid, q, i, x);
    }
  }

  lemma SplitOtherParent(s: Store, lab: Labels, root: int, s': Store, p: int, n: int, mid: nat, q: int, i: nat, x: int)
    requires Splitting(s, lab, root, s', p, n, mid, q, i)
    requires x in lab && x != p && x != q && x != root
    ensures
      var q' := s'[x].parent;
      q' in s' && (q' in lab || q' == n) && !s'[q'].leaf && Points(s'[q'].entries, x)
  {
    var q', j := SlotInParent(s, lab, root, x);
    var es := s[q'].entries;
    if !s[p].leaf && PointsFrom(s[p].entries, mid, x) {
      MovedChild(s, lab, root, p, mid, x);
      assert es[mid..][j - mid].val == x;
    } else if q' == p {
      assert es[..mid][j].val == x;
    } else if q' == q {
      assert s'[q].entries[if j <= i then j else j + 1].val == x;
    }
  }

  /** Splitting a page with a parent and attaching the new page keeps the invariant. */
  lemma SplitKeepsInv(s: Store, lab: Labels, root: int, s1: Store, p: int, n: int, mid: nat)
    requires Inv(s, lab, root) && p in lab && p != root && 0 < mid < |s[p].entries|
    requires n !in s && n != INVALID_PAGE_ID && IsSplit(s, s1, p, n, mid)
    ensures s[p].parent in s1
    ensures
      var k := s[p].entries[mid].key;
      Inv(Attach(s1, s[p].parent, p, k, n), SplitLabels(lab, p, n, k), root)
  {
    var k := s[p].entries[mid].key;
    var q, i := SlotInParent(s, lab, root, p);
    var v := ValueIndex(s[q].entries, p);
    if v < i { ChildrenDistinct(s, lab, root, q, v, i); }
    if !s[p].leaf && PointsFrom(s[p].entries, mid, q) { MovedChild(s, lab, root, p, mid, q); }
    var s', lab' := Attach(s1, q, p, k, n), SplitLabels(lab, p, n, k);
    assert Splitting(s, lab, root, s', p, n, mid, q, i);
    SplitLeftOk(s, lab, root, s', p, n, mid, q, i);
    SplitRightOk(s, lab, root, s', p, n, mid, q, i);
    SplitParentOk(s, lab, root, s', p, n, mid, q, i);
    forall x | x in lab' ensures PageOk(s', lab', root, x) {
      if x != p && x != n && x != q { SplitOthersOk(s, lab, root, s', p, n, mid, q, i, x); }
    }
  }

  /** The entries of the leaves after a split. */
  lemma SplitEntries(s: Store, lab: Labels, root: int, s1: Store, p: int, n: int, mid: nat, k: int)
    requires Inv(s, lab, root) && p in lab && n !in s && IsSplit(s, s1, p, n, mid)
    requires s[p].parent in lab && !s[s[p].parent].leaf && s[p].parent != p
    ensures lab.Keys <= s.Keys && s[p].parent in s1 && p in s1
    ensures
      var s', lab' := Attach(s1, s[p].parent, p, k, n), SplitLabels(lab, p, n, k);
      && lab'.Keys == lab.Keys + {n} && lab'.Keys <= s'.Keys && p in s' && n in s'
      && s'[p].leaf == s'[n].leaf == s[p].leaf
      && s'[p].entries == s[p].entries[..mid] && s'[n].entries == s[p].entries[mid..]
      && forall x {:trigger s'[x]} :: x in lab && x != p ==>
           s'[x].leaf == s[x].leaf && (s[x].leaf ==> s'[x].entries == s[x].entries)
  {
  }

  /** A split moves entries between leaves, and so keeps what the tree holds. */
  lemma SplitKeepsContents(s: Store, lab: Labels, root: int, s1: Store, p: int, n: int, mid: nat, m: map<int, int>)
    requires Inv(s, lab, root) && p in lab && 0 < mid < |s[p].entries| && n !in s
    requires s[p].parent in lab && !s[s[p].parent].leaf && s[p].parent != p
    requires IsSplit(s, s1, p, n, mid) && Represents(s, lab, m)
    ensures
      var k := s[p].entries[mid].key;
      var lab' := SplitLabels(lab, p, n, k);
      lab'.Keys <= Attach(s1, s[p].parent, p, k, n).Keys && Represents(Attach(s1, s[p].parent, p, k, n), lab', m)
  {
    hide IsSplit, Attach, SplitLabels;
    assert p in s;
    var k := s[p].entries[mid].key;
    SplitEntries(s, lab, root, s1, p, n, mid, k);
    hide Inv;
    var s', lab' := Attach(s1, s[p].parent, p, k, n), SplitLabels(lab, p, n, k);
    var es := s[p].entries;
    assert es == es[..mid] + es[mid..];
    forall e | Holds(s', lab', e) ensures Holds(s, lab, e) {
      var x :| x in lab' && HoldsAt(s'[x], e);
      assert HoldsAt(s[if x == n then p else x], e);
    }
    forall e | Holds(s, lab, e) ensures Holds(s', lab', e) {
      var x :| x in lab && HoldsAt(s[x], e);
      assert HoldsAt(s'[x], e) || (x == p && HoldsAt(s'[n], e));
    }
  }

  // ----- a new root -----

  /** PopulateNewRoot with only its first pair: page r becomes a root with the old root as its one child. */
  function Grow(s: Store, root: int, r: int, max: int): Store
    requires root in s
  {
    s[root := s[root].(parent := r)][r := Node(false, max, INVALID_PAGE_ID, INVALID_PAGE_ID, [Entry(0, root)])]
  }

  function GrowLabels(lab: Labels, root: int, r: int): Labels
    requires root in lab
  {
    lab[r := Label(lab[root].level + 1, None, None)]
  }

  lemma GrowKeepsInv(s: Store, lab: Labels, root: int, r: int, max: int)
    requires Inv(s, lab, root) && r !in s && r != INVALID_PAGE_ID
    ensures Inv(Grow(s, root, r, max), GrowLabels(lab, root, r), r)
  {
    var s', lab' := Grow(s, root, r, max), GrowLabels(lab, root, r);
    assert PageOk(s, lab, root, root);
    forall x | x in lab' ensures PageOk(s', lab', r, x) {
      if x == r {
        assert LinkOk(s', lab', r, 0);
      } else {
        assert PageOk(s, lab, root, x);
        if !s[x].leaf {
          forall j | 0 <= j < |s[x].entries| ensures LinkOk(s', lab', x, j) {
            assert LinkOk(s, lab, x, j);
            ChildFacts(s, lab, root, x, j);
          }
        }
        if x == root {
          assert s'[r].entries[0].val == x;
        } else {
          RootIsTop(s, lab, root, x);
        }
      }
    }
  }

  lemma GrowKeepsContents(s: Store, lab: Labels, root: int, r: int, max: int, m: map<int, int>)
    requires Inv(s, lab, root) && r !in s && Represents(s, lab, m)
    ensures
      var s', lab' := Grow(s, root, r, max), GrowLabels(lab, root, r);
      lab'.Keys <= s'.Keys && Represents(s', lab', m)
  {
    var s', lab' := Grow(s, root, r, max), GrowLabels(lab, root, r);
    forall e ensures Holds(s, lab, e) <==> Holds(s', lab', e) {
      if Holds(s, lab, e) {
        var x :| x in lab && HoldsAt(s[x], e);
        assert HoldsAt(s'[x], e);
      }
      if Holds(s', lab', e) {
        var x :| x in lab' && HoldsAt(s'[x], e);
        assert HoldsAt(s[x], e);
      }
    }
  }
}
