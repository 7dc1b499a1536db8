/** Merging two neighbouring pages, moving entries between them, and dropping the root, on stores. */
module TreeMerge {
  import opened Common
  import opened TreeModel
  import opened TreeSplit

  // ----- neighbours -----

  /** Pages l and r are the children in slots i and i+1 of q. */
  ghost predicate Neighbours(s: Store, lab: Labels, root: int, q: int, i: nat, l: int, r: int) {
    && Inv(s, lab, root) && q in lab && !s[q].leaf && i + 1 < |s[q].entries|
    && s[q].entries[i].val == l && s[q].entries[i + 1].val == r
    && LinkOk(s, lab, q, i) && LinkOk(s, lab, q, i + 1)
    && l != q && r != q && l != r && l != root && r != root
  }

  /** All entries of the two pages, from left to right. */
  function Joined(s: Store, l: int, r: int): seq<Entry>
    requires l in s && r in s
  {
    s[l].entries + s[r].entries
  }

  lemma NeighbourFacts(s: Store, lab: Labels, root: int, q: int, i: nat)
    requires Inv(s, lab, root) && q in lab && !s[q].leaf && i + 1 < |s[q].entries|
    ensures Neighbours(s, lab, root, q, i, s[q].entries[i].val, s[q].entries[i + 1].val)
  {
    assert PageOk(s, lab, root, q);
    assert LinkOk(s, lab, q, i) && LinkOk(s, lab, q, i + 1);
    ChildFacts(s, lab, root, q, i);
    ChildFacts(s, lab, root, q, i + 1);
    ChildrenDistinct(s, lab, root, q, i, i + 1);
  }

  /** The key in slot 0 of an internal page that has a left neighbour equals the separator in the parent. */
  lemma SlotZeroIsSeparator(s: Store, lab: Labels, root: int, q: int, i: nat, l: int, r: int)
    requires Neighbours(s, lab, root, q, i, l, r)
    ensures s[l].leaf == s[r].leaf
    ensures lab[l].hi == lab[r].lo == Some(s[q].entries[i + 1].key)
    ensures !s[r].leaf ==> |s[r].entries| > 0 && s[r].entries[0].key == s[q].entries[i + 1].key
  {
    assert PageOk(s, lab, root, l) && PageOk(s, lab, root, r);
  }

  /** The sibling link of a leaf leads to its right neighbour. */
  lemma NextIsNeighbour(s: Store, lab: Labels, root: int, q: int, i: nat, l: int, r: int)
    requires Neighbours(s, lab, root, q, i, l, r) && s[l].leaf
    ensures s[l].next == r
  {
    SlotZeroIsSeparator(s, lab, root, q, i, l, r);
    assert PageOk(s, lab, root, l) && PageOk(s, lab, root, r);
    assert PageOk(s, lab, root, s[l].next);
    SameBound(s, lab, root, s[l].next, r);
  }

  /** Only the left neighbour of a leaf links to it. */
  lemma OnlyLeftLinks(s: Store, lab: Labels, root: int, q: int, i: nat, l: int, r: int, x: int)
    requires Neighbours(s, lab, root, q, i, l, r)
    requires x in lab && s[x].leaf && s[x].next == r
    ensures x == l
  {
    SlotZeroIsSeparator(s, lab, root, q, i, l, r);
    assert PageOk(s, lab, root, x) && PageOk(s, lab, root, l);
    SameBound(s, lab, root, x, l);
  }

  /** The joined entries are sorted, and lie in the joined interval. */
  lemma JoinedSorted(s: Store, lab: Labels, root: int, q: int, i: nat, l: int, r: int)
    requires Neighbours(s, lab, root, q, i, l, r)
    ensures
      var es, b := Joined(s, l, r), lab[l].(hi := lab[r].hi);
      var from := if s[l].leaf then 0 else 1;
      && SortedFrom(es, from) && InRangeFrom(es, from, b)
      && (!s[l].leaf && b.lo.Some? ==> |es| > 0 && es[0].key == b.lo.value && SortedFrom(es, 0))
  {
    SlotZeroIsSeparator(s, lab, root, q, i, l, r);
    assert PageOk(s, lab, root, l) && PageOk(s, lab, root, r);
    var sep := s[q].entries[i + 1].key;
    assert forall a :: (if s[l].leaf then 0 else 1) <= a < |s[l].entries| ==> s[l].entries[a].key < sep;
    assert forall a :: 0 <= a < |s[r].entries| ==> sep <= s[r].entries[a].key;
    if !s[l].leaf && lab[l].lo.Some? {
      assert s[l].entries[0].key < sep;
    }
  }

  /** Children of l and of r, as slots of the joined entries. */
  lemma JoinedChild(s: Store, lab: Labels, root: int, q: int, i: nat, l: int, r: int, j: nat)
    requires Neighbours(s, lab, root, q, i, l, r) && !s[l].leaf && j < |Joined(s, l, r)|
    ensures
      var es := Joined(s, l, r);
      var c := es[j].val;
      && c in lab && c != l && c != r && c != q && c != root
      && (s[c].parent == if j < |s[l].entries| then l else r)
      && lab[c].level + 1 == lab[l].level
      && lab[c].lo == (if j == 0 then lab[l].lo else Some(es[j].key))
      && lab[c].hi == (if j + 1 == |es| then lab[r].hi else Some(es[j + 1].key))
  {
    SlotZeroIsSeparator(s, lab, root, q, i, l, r);
    assert PageOk(s, lab, root, l) && PageOk(s, lab, root, r);
    var n := |s[l].entries|;
    if j < n {
      assert LinkOk(s, lab, l, j);
      ChildFacts(s, lab, root, l, j);
    } else {
      assert LinkOk(s, lab, r, j - n);
      ChildFacts(s, lab, root, r, j - n);
    }
  }

  /** No child occurs twice among the joined entries. */
  lemma JoinedDistinct(s: Store, lab: Labels, root: int, q: int, i: nat, l: int, r: int, j: nat, j': nat)
    requires Neighbours(s, lab, root, q, i, l, r) && !s[l].leaf && j < j' < |Joined(s, l, r)|
    ensures Joined(s, l, r)[j].val != Joined(s, l, r)[j'].val
  {
    SlotZeroIsSeparator(s, lab, root, q, i, l, r);
    JoinedChild(s, lab, root, q, i, l, r, j);
    JoinedChild(s, lab, root, q, i, l, r, j');
    var n := |s[l].entries|;
    if j' < n {
      ChildrenDistinct(s, lab, root, l, j, j');
    } else if n <= j {
      ChildrenDistinct(s, lab, root, r, j - n, j' - n);
    }
  }

  /** Every page whose parent is l or r occurs among the joined entries. */
  lemma ChildIsJoined(s: Store, lab: Labels, root: int, q: int, i: nat, l: int, r: int, x: int) returns (j: nat)
    requires Neighbours(s, lab, root, q, i, l, r) && x in lab && x != root && s[x].parent in {l, r}
    ensures !s[l].leaf && j < |Joined(s, l, r)| && Joined(s, l, r)[j].val == x
  {
    var p, k := SlotInParent(s, lab, root, x);
    SlotZeroIsSeparator(s, lab, root, q, i, l, r);
    j := if p == l then k else |s[l].entries| + k;
  }

  // ----- redistribution -----

  /**
   * The border between the neighbours l and r moves to position m of the joined entries; the parent's
   * separator becomes the key at m, and children follow the entries that point to them.
   */
  ghost predicate Recut(s: Store, s': Store, q: int, i: nat, l: int, r: int, m: nat) {
    && q in s && l in s && r in s && i + 1 < |s[q].entries| && m < |Joined(s, l, r)|
    && var es := Joined(s, l, r);
    && s'.Keys == s.Keys
    && s'[l] == s[l].(entries := es[..m])
    && s'[r] == s[r].(entries := es[m..])
    && s'[q] == s[q].(entries := s[q].entries[i + 1 := Entry(es[m].key, r)])
    && (forall x {:trigger s'[x]} :: x in s && x != l && x != r && x != q ==>
          s'[x] == if s[l].leaf then s[x]
                   else if PointsIn(es, 0, m, x) then s[x].(parent := l)
                   else if PointsIn(es, m, |es|, x) then s[x].(parent := r)
                   else s[x])
  }

  function RecutLabels(lab: Labels, l: int, r: int, k: int): Labels
    requires l in lab && r in lab
  {
    lab[l := lab[l].(hi := Some(k))][r := lab[r].(lo := Some(k))]
  }

  ghost predicate Recutting(s: Store, lab: Labels, root: int, s': Store, q: int, i: nat, l: int, r: int, m: nat) {
    && Neighbours(s, lab, root, q, i, l, r)
    && 0 < m < |Joined(s, l, r)|
    && Recut(s, s', q, i, l, r, m)
  }

  /** The new separator lies strictly inside the joined interval. */
  lemma RecutSeparator(s: Store, lab: Labels, root: int, q: int, i: nat, l: int, r: int, m: nat)
    requires Neighbours(s, lab, root, q, i, l, r) && 0 < m < |Joined(s, l, r)|
    ensures
      var k := Joined(s, l, r)[m].key;
      InRange(lab[l].(hi := lab[r].hi), k) && (lab[l].lo.Some? ==> lab[l].lo.value < k)
  {
    JoinedSorted(s, lab, root, q, i, l, r);
    if s[l].leaf {
      assert InRange(lab[l].(hi := lab[r].hi), Joined(s, l, r)[0].key);
    }
  }

  /** Children of l and r: after the move, the one in slot j has the parent on its side of the border. */
  lemma RecutChild(s: Store, lab: Labels, root: int, s': Store, q: int, i: nat, l: int, r: int, m: nat, j: nat)
    requires Recutting(s, lab, root, s', q, i, l, r, m) && !s[l].leaf && j < |Joined(s, l, r)|
    ensures
      var es := Joined(s, l, r);
      var c := es[j].val;
      && c in lab && c != l && c != r && c != q
      && s'[c].parent == (if j < m then l else r)
      && lab[c].level + 1 == lab[l].level
      && lab[c].lo == (if j == 0 then lab[l].lo else Some(es[j].key))
      && lab[c].hi == (if j + 1 == |es| then lab[r].hi else Some(es[j + 1].key))
  {
    var es := Joined(s, l, r);
    JoinedChild(s, lab, root, q, i, l, r, j);
    if j < m {
      assert PointsIn(es, 0, m, es[j].val);
    } else {
      assert PointsIn(es, m, |es|, es[j].val);
      forall j' | 0 <= j' < m ensures es[j'].val != es[j].val {
        JoinedDistinct(s, lab, root, q, i, l, r, j', j);
      }
    }
  }

  /** Pages on or above the level of l and r keep their parent id. */
  lemma RecutStays(s: Store, lab: Labels, root: int, s': Store, q: int, i: nat, l: int, r: int, m: nat, x: int)
    requires Recutting(s, lab, root, s', q, i, l, r, m) && x in lab && lab[x].level >= lab[l].level
    ensures s'[x].parent == s[x].parent
    ensures x != l && x != r && x != q ==> s'[x] == s[x]
  {
    var es := Joined(s, l, r);
    if !s[l].leaf && x != l && x != r && x != q && (PointsIn(es, 0, m, x) || PointsIn(es, m, |es|, x)) {
      var j :| 0 <= j < |es| && es[j].val == x;
      JoinedChild(s, lab, root, q, i, l, r, j);
    }
  }

  lemma RecutLeftOk(s: Store, lab: Labels, root: int, s': Store, q: int, i: nat, l: int, r: int, m: nat)
    requires Recutting(s, lab, root, s', q, i, l, r, m)
    ensures PageOk(s', RecutLabels(lab, l, r, Joined(s, l, r)[m].key), root, l)
  {
    var es := Joined(s, l, r);
    var lab' := RecutLabels(lab, l, r, es[m].key);
    JoinedSorted(s, lab, root, q, i, l, r);
    RecutSeparator(s, lab, root, q, i, l, r, m);
    SlotZeroIsSeparator(s, lab, root, q, i, l, r);
    assert PageOk(s, lab, root, l);
    assert s'[q].entries[i].val == l;
    if s[l].leaf {
      NextIsNeighbour(s, lab, root, q, i, l, r);
    } else {
      forall j | 0 <= j < m ensures LinkOk(s', lab', l, j) {
        RecutChild(s, lab, root, s', q, i, l, r, m, j);
      }
    }
  }

  lemma RecutRightOk(s: Store, lab: Labels, root: int, s': Store, q: int, i: nat, l: int, r: int, m: nat)
    requires Recutting(s, lab, root, s', q, i, l, r, m)
    ensures PageOk(s', RecutLabels(lab, l, r, Joined(s, l, r)[m].key), root, r)
  {
    var es := Joined(s, l, r);
    var lab' := RecutLabels(lab, l, r, es[m].key);
    JoinedSorted(s, lab, root, q, i, l, r);
    RecutSeparator(s, lab, root, q, i, l, r, m);
    SlotZeroIsSeparator(s, lab, root, q, i, l, r);
    assert PageOk(s, lab, root, r);
    assert s'[q].entries[i + 1].val == r;
    if !s[l].leaf {
      forall j | 0 <= j < |es| - m ensures LinkOk(s', lab', r, j) {
        RecutChild(s, lab, root, s', q, i, l, r, m, m + j);
        assert es[m..][j] == es[m + j];
      }
    }
  }

  lemma RecutParentNodeOk(s: Store, lab: Labels, root: int, s': Store, q: int, i: nat, l: int, r: int, m: nat)
    requires Recutting(s, lab, root, s', q, i, l, r, m)
    ensures InnerOk(s'[q], lab[q])
  {
    var k := Joined(s, l, r)[m].key;
    var es := s[q].entries;
    RecutSeparator(s, lab, root, q, i, l, r, m);
    assert PageOk(s, lab, root, q);
    assert i + 2 < |es| ==> k < es[i + 2].key;
    assert 0 < i ==> es[i].key < k;
    assert lab[q].lo.Some? ==> lab[q].lo.value < k;
  }

  lemma RecutParentOk(s: Store, lab: Labels, root: int, s': Store, q: int, i: nat, l: int, r: int, m: nat)
    requires Recutting(s, lab, root, s', q, i, l, r, m)
    ensures PageOk(s', RecutLabels(lab, l, r, Joined(s, l, r)[m].key), root, q)
  {
    var lab' := RecutLabels(lab, l, r, Joined(s, l, r)[m].key);
    RecutParentNodeOk(s, lab, root, s', q, i, l, r, m);
    assert PageOk(s, lab, root, q);
    forall j | 0 <= j < |s[q].entries| ensures LinkOk(s', lab', q, j) {
      assert LinkOk(s, lab, q, j);
      if j < i { ChildrenDistinct(s, lab, root, q, j, i); ChildrenDistinct(s, lab, root, q, j, i + 1); }
      if j > i + 1 { ChildrenDistinct(s, lab, root, q, i, j); ChildrenDistinct(s, lab, root, q, i + 1, j); }
      RecutStays(s, lab, root, s', q, i, l, r, m, s[q].entries[j].val);
    }
    RecutStays(s, lab, root, s', q, i, l, r, m, q);
    if q != root {
      var q', i' := SlotInParent(s, lab, root, q);
      RecutStays(s, lab, root, s', q, i, l, r, m, q');
      assert s'[q'].entries[i'].val == q;
    }
  }

  lemma RecutOthersOk(s: Store, lab: Labels, root: int, s': Store, q: int, i: nat, l: int, r: int, m: nat, x: int)
    requires Recutting(s, lab, root, s', q, i, l, r, m) && x in lab && x != l && x != r && x != q
    ensures PageOk(s', RecutLabels(lab, l, r, Joined(s, l, r)[m].key), root, x)
  {
    assert PageOk(s, lab, root, x);
    if s[x].leaf && s[x].next == r { OnlyLeftLinks(s, lab, root, q, i, l, r, x); }
    RecutOtherLinks(s, lab, root, s', q, i, l, r, m, x);
    RecutOtherParent(s, lab, root, s', q, i, l, r, m, x);
  }

  lemma RecutOtherLinks(s: Store, lab: Labels, root: int, s': Store, q: int, i: nat, l: int, r: int, m: nat, x: int)
    requires Recutting(s, lab, root, s', q, i, l, r, m) && x in lab && x != l && x != r && x != q
    ensures LinksOk(s', RecutLabels(lab, l, r, Joined(s, l, r)[m].key), x)
  {
    var lab' := RecutLabels(lab, l, r, Joined(s, l, r)[m].key);
    assert PageOk(s, lab, root, x);
    if !s[x].leaf {
      forall j | 0 <= j < |s[x].entries| ensures LinkOk(s', lab', x, j) {
        assert LinkOk(s, lab, x, j);
        var c := s[x].entries[j].val;
        if c == l || c == r || c == q || s'[c].parent != s[c].parent {
          NotTheirChild(s, lab, root, s', q, i, l, r, m, x, c);
        }
      }
    }
  }

  /** A child of a page other than l, r and q keeps its parent id and is neither l nor r. */
  lemma NotTheirChild(s: Store, lab: Labels, root: int, s': Store, q: int, i: nat, l: int, r: int, m: nat, x: int, c: int)
    requires Recutting(s, lab, root, s', q, i, l, r, m) && x in lab && x != l && x != r && x != q
    requires c in lab && s[c].parent == x
    ensures c != l && c != r && s'[c].parent == s[c].parent
  {
    var es := Joined(s, l, r);
    if !s[l].leaf && c != q && (PointsIn(es, 0, m, c) || PointsIn(es, m, |es|, c)) {
      var j :| 0 <= j < |es| && es[j].val == c;
      JoinedChild(s, lab, root, q, i, l, r, j);
    }
  }

  lemma RecutOtherParent(s: Store, lab: Labels, root: int, s': Store, q: int, i: nat, l: int, r: int, m: nat, x: int)
    requires Recutting(s, lab, root, s', q, i, l, r, m) && x in lab && x != l && x != r && x != q
    ensures x == root ==> s'[x].parent == INVALID_PAGE_ID
    ensures x != root ==>
      var p := s'[x].parent;
      p in s' && p in lab && !s'[p].leaf && Points(s'[p].entries, x)
  {
    var es := Joined(s, l, r);
    assert PageOk(s, lab, root, x);
    if !s[l].leaf && (PointsIn(es, 0, m, x) || PointsIn(es, m, |es|, x)) {
      var j :| 0 <= j < |es| && es[j].val == x;
      RecutChild(s, lab, root, s', q, i, l, r, m, j);
      JoinedChild(s, lab, root, q, i, l, r, j);
      assert if j < m then es[..m][j].val == x else es[m..][j - m].val == x;
      SlotZeroIsSeparator(s, lab, root, q, i, l, r);
    } else if x != root {
      var p, j := SlotInParent(s, lab, root, x);
      if p == l || p == r {
        var j' := ChildIsJoined(s, lab, root, q, i, l, r, x);
      } else {
        assert s'[p].entries[j].val == x;
      }
    }
  }

  lemma RecutKeepsInv(s: Store, lab: Labels, root: int, s': Store, q: int, i: nat, l: int, r: int, m: nat)
    requires Recutting(s, lab, root, s', q, i, l, r, m)
    ensures Inv(s', RecutLabels(lab, l, r, Joined(s, l, r)[m].key), root)
  {
    var lab' := RecutLabels(lab, l, r, Joined(s, l, r)[m].key);
    RecutLeftOk(s, lab, root, s', q, i, l, r, m);
    RecutRightOk(s, lab, root, s', q, i, l, r, m);
    RecutParentOk(s, lab, root, s', q, i, l, r, m);
    forall x | x in lab' ensures PageOk(s', lab', root, x) {
      if x != l && x != r && x != q { RecutOthersOk(s, lab, root, s', q, i, l, r, m, x); }
    }
  }

  /** Moving the border between two neighbours keeps what the tree holds. */
  lemma RecutKeepsContents(s: Store, lab: Labels, root: int, s': Store, q: int, i: nat, l: int, r: int, m: nat,
                      c: map<int, int>)
    requires Recutting(s, lab, root, s', q, i, l, r, m) && Represents(s, lab, c)
    ensures
      var lab' := RecutLabels(lab, l, r, Joined(s, l, r)[m].key);
      lab'.Keys <= s'.Keys && Represents(s', lab', c)
  {
    var lab' := RecutLabels(lab, l, r, Joined(s, l, r)[m].key);
    assert lab'.Keys == lab.Keys;
    forall e ensures Holds(s', lab', e) <==> Holds(s, lab, e) {
      RecutHolds(s, lab, root, s', q, i, l, r, m, e);
    }
    hide Recutting, Holds;
  }

  /** The leaves hold an entry after the border has moved exactly if they held it before. */
  lemma RecutHolds(s: Store, lab: Labels, root: int, s': Store, q: int, i: nat, l: int, r: int, m: nat, e: Entry)
    requires Recutting(s, lab, root, s', q, i, l, r, m)
    ensures
      var lab' := RecutLabels(lab, l, r, Joined(s, l, r)[m].key);
      lab'.Keys <= s'.Keys && (Holds(s', lab', e) <==> Holds(s, lab, e))
  {
    var es := Joined(s, l, r);
    var lab' := RecutLabels(lab, l, r, es[m].key);
    assert es == es[..m] + es[m..];
    SlotZeroIsSeparator(s, lab, root, q, i, l, r);
    if Holds(s', lab', e) {
      var x :| x in lab' && HoldsAt(s'[x], e);
      assert HoldsAt(s[x], e) || HoldsAt(s[l], e) || HoldsAt(s[r], e);
    }
    if Holds(s, lab, e) {
      var x :| x in lab && HoldsAt(s[x], e);
      if x == l || x == r { assert e in es; }
      assert HoldsAt(s'[x], e) || HoldsAt(s'[l], e) || HoldsAt(s'[r], e);
    }
  }

  // ----- merging -----

  /** MoveAllTo and Remove: page l takes over the entries and children of its right neighbour r, and q forgets r. */
  ghost predicate Merged(s: Store, s': Store, q: int, i: nat, l: int, r: int) {
    && q in s && l in s && r in s && i + 1 < |s[q].entries|
    && var es := Joined(s, l, r);
    && s'.Keys == s.Keys
    && s'[l] == s[l].(entries := es, next := if s[l].leaf then s[r].next else s[l].next)
    && s'[q] == s[q].(entries := s[q].entries[..i + 1] + s[q].entries[i + 2..])
    && (forall x {:trigger s'[x]} :: x in s && x != l && x != r && x != q ==>
          s'[x] == if !s[l].leaf && PointsIn(es, 0, |es|, x) then s[x].(parent := l) else s[x])
  }

  function MergeLabels(lab: Labels, l: int, r: int): Labels
    requires l in lab && r in lab
  {
    (lab - {r})[l := lab[l].(hi := lab[r].hi)]
  }

  ghost predicate Merging(s: Store, lab: Labels, root: int, s': Store, q: int, i: nat, l: int, r: int) {
    Neighbours(s, lab, root, q, i, l, r) && Merged(s, s', q, i, l, r)
  }

  lemma MergedPageOk(s: Store, lab: Labels, root: int, s': Store, q: int, i: nat, l: int, r: int)
    requires Merging(s, lab, root, s', q, i, l, r)
    ensures PageOk(s', MergeLabels(lab, l, r), root, l)
  {
    var es, lab' := Joined(s, l, r), MergeLabels(lab, l, r);
    JoinedSorted(s, lab, root, q, i, l, r);
    SlotZeroIsSeparator(s, lab, root, q, i, l, r);
    assert PageOk(s, lab, root, l) && PageOk(s, lab, root, r);
    assert s'[q].entries[i].val == l;
    if s[l].leaf && lab[r].hi.Some? {
      assert PageOk(s, lab, root, s[r].next);
      assert s[r].next != q;
    }
    if !s[l].leaf {
      forall j | 0 <= j < |es| ensures LinkOk(s', lab', l, j) {
        JoinedChild(s, lab, root, q, i, l, r, j);
        assert PointsIn(es, 0, |es|, es[j].val);
      }
    }
  }

  lemma MergeParentNodeOk(s: Store, lab: Labels, root: int, s': Store, q: int, i: nat, l: int, r: int)
    requires Merging(s, lab, root, s', q, i, l, r)
    ensures InnerOk(s'[q], lab[q])
  {
    assert PageOk(s, lab, root, q);
    var es, es' := s[q].entries, s'[q].entries;
    assert forall j :: 0 <= j < |es'| ==> es'[j] == es[if j <= i then j else j + 1];
  }

  lemma MergeParentOk(s: Store, lab: Labels, root: int, s': Store, q: int, i: nat, l: int, r: int)
    requires Merging(s, lab, root, s', q, i, l, r)
    ensures PageOk(s', MergeLabels(lab, l, r), root, q)
  {
    var lab' := MergeLabels(lab, l, r);
    MergeParentNodeOk(s, lab, root, s', q, i, l, r);
    assert PageOk(s, lab, root, q);
    forall j | 0 <= j < |s'[q].entries| ensures LinkOk(s', lab', q, j) {
      var j' := if j <= i then j else j + 1;
      assert s'[q].entries[j] == s[q].entries[j'];
      assert LinkOk(s, lab, q, j');
      if j' < i { ChildrenDistinct(s, lab, root, q, j', i); }
      if j' < i + 1 { ChildrenDistinct(s, lab, root, q, j', i + 1); }
      if j' > i + 1 { ChildrenDistinct(s, lab, root, q, i, j'); ChildrenDistinct(s, lab, root, q, i + 1, j'); }
      MergeStays(s, lab, root, s', q, i, l, r, s[q].entries[j'].val);
    }
    MergeStays(s, lab, root, s', q, i, l, r, q);
    if q != root {
      var q', i' := SlotInParent(s, lab, root, q);
      MergeStays(s, lab, root, s', q, i, l, r, q');
      assert s'[q'].entries[i'].val == q;
    }
  }

  /** Pages on or above the level of l and r keep their parent id. */
  lemma MergeStays(s: Store, lab: Labels, root: int, s': Store, q: int, i: nat, l: int, r: int, x: int)
    requires Merging(s, lab, root, s', q, i, l, r) && x in lab && lab[x].level >= lab[l].level && x != r
    ensures s'[x].parent == s[x].parent
    ensures x != l && x != q ==> s'[x] == s[x]
  {
    var es := Joined(s, l, r);
    if !s[l].leaf && x != l && x != q && PointsIn(es, 0, |es|, x) {
      var j :| 0 <= j < |es| && es[j].val == x;
      JoinedChild(s, lab, root, q, i, l, r, j);
    }
  }

  lemma MergeOtherLinks(s: Store, lab: Labels, root: int, s': Store, q: int, i: nat, l: int, r: int, x: int)
    requires Merging(s, lab, root, s', q, i, l, r) && x in lab && x != l && x != r && x != q
    ensures LinksOk(s', MergeLabels(lab, l, r), x)
  {
    var es, lab' := Joined(s, l, r), MergeLabels(lab, l, r);
    assert PageOk(s, lab, root, x);
    if !s[x].leaf {
      forall j | 0 <= j < |s[x].entries| ensures LinkOk(s', lab', x, j) {
        assert LinkOk(s, lab, x, j);
        var c := s[x].entries[j].val;
        if !s[l].leaf && PointsIn(es, 0, |es|, c) {
          var j' :| 0 <= j' < |es| && es[j'].val == c;
          JoinedChild(s, lab, root, q, i, l, r, j');
        }
      }
    }
  }

  lemma MergeOtherParent(s: Store, lab: Labels, root: int, s': Store, q: int, i: nat, l: int, r: int, x: int)
    requires Merging(s, lab, root, s', q, i, l, r) && x in lab && x != l && x != r && x != q
    ensures ParentOk(s', MergeLabels(lab, l, r), root, x)
  {
    var es := Joined(s, l, r);
    assert PageOk(s, lab, root, x);
    SlotZeroIsSeparator(s, lab, root, q, i, l, r);
    if !s[l].leaf && PointsIn(es, 0, |es|, x) {
      var j :| 0 <= j < |es| && es[j].val == x;
      JoinedChild(s, lab, root, q, i, l, r, j);
    } else if x != root {
      var p, j := SlotInParent(s, lab, root, x);
      if p == l || p == r {
        var j' := ChildIsJoined(s, lab, root, q, i, l, r, x);
      } else if p == q {
        ChildrenDistinct(s, lab, root, q, i, i + 1);
        assert s'[q].entries[if j <= i then j else j - 1].val == x;
      } else {
        assert s'[p].entries[j].val == x;
      }
    }
  }

  /** Merging two neighbours keeps the invariant for the tree without page r. */
  lemma MergeKeepsInv(s: Store, lab: Labels, root: int, s': Store, q: int, i: nat, l: int, r: int)
    requires Merging(s, lab, root, s', q, i, l, r)
    ensures Inv(s', MergeLabels(lab, l, r), root)
  {
    var lab' := MergeLabels(lab, l, r);
    MergedPageOk(s, lab, root, s', q, i, l, r);
    MergeParentOk(s, lab, root, s', q, i, l, r);
    forall x | x in lab' ensures PageOk(s', lab', root, x) {
      if x != l && x != q {
        assert PageOk(s, lab, root, x);
        if s[x].leaf && s[x].next == r { OnlyLeftLinks(s, lab, root, q, i, l, r, x); }
        MergeOtherLinks(s, lab, root, s', q, i, l, r, x);
        MergeOtherParent(s, lab, root, s', q, i, l, r, x);
      }
    }
  }

  lemma MergeKeepsContents(s: Store, lab: Labels, root: int, s': Store, q: int, i: nat, l: int, r: int, c: map<int, int>)
    requires Merging(s, lab, root, s', q, i, l, r) && Represents(s, lab, c)
    ensures MergeLabels(lab, l, r).Keys <= s'.Keys && Represents(s', MergeLabels(lab, l, r), c)
  {
    var es, lab' := Joined(s, l, r), MergeLabels(lab, l, r);
    SlotZeroIsSeparator(s, lab, root, q, i, l, r);
    forall e | Holds(s', lab', e) ensures Holds(s, lab, e) {
      var x :| x in lab' && HoldsAt(s'[x], e);
      assert HoldsAt(s[x], e) || HoldsAt(s[r], e);
    }
    forall e | Holds(s, lab, e) ensures Holds(s', lab', e) {
      var x :| x in lab && HoldsAt(s[x], e);
      if x == l || x == r { assert e in es; }
      assert x != r ==> HoldsAt(s'[x], e);
      assert x == r ==> HoldsAt(s'[l], e);
    }
  }

  // ----- what the page operations do -----

  /** MoveFirstToEndOf: the first pair of r goes to the end of l, and r's separator in q becomes its new first key. */
  ghost predicate ShiftedLeft(s: Store, s': Store, q: int, i: nat, l: int, r: int) {
    && q in s && l in s && r in s && i + 1 < |s[q].entries| && |s[r].entries| > 1
    && var e := s[r].entries[0];
    && s'.Keys == s.Keys
    && s'[l] == s[l].(entries := s[l].entries + [e])
    && s'[r] == s[r].(entries := s[r].entries[1..])
    && s'[q] == s[q].(entries := s[q].entries[i + 1 := Entry(s[r].entries[1].key, s[q].entries[i + 1].val)])
    && (forall x {:trigger s'[x]} :: x in s && x != l && x != r && x != q ==>
          s'[x] == if !s[l].leaf && x == e.val then s[x].(parent := l) else s[x])
  }

  /** MoveLastToFrontOf: the last pair of l goes to the front of r, and r's separator in q becomes its key. */
  ghost predicate ShiftedRight(s: Store, s': Store, q: int, i: nat, l: int, r: int) {
    && q in s && l in s && r in s && i + 1 < |s[q].entries| && |s[l].entries| > 1
    && var e := s[l].entries[|s[l].entries| - 1];
    && s'.Keys == s.Keys
    && s'[l] == s[l].(entries := s[l].entries[..|s[l].entries| - 1])
    && s'[r] == s[r].(entries := [e] + s[r].entries)
    && s'[q] == s[q].(entries := s[q].entries[i + 1 := Entry(e.key, s[q].entries[i + 1].val)])
    && (forall x {:trigger s'[x]} :: x in s && x != l && x != r && x != q ==>
          s'[x] == if !s[l].leaf && x == e.val then s[x].(parent := r) else s[x])
  }

  /** MoveAllTo: the pairs of r, slot 0 of an internal page with the parent's separator as its key, go behind those of l. */
  ghost predicate MovedAll(s: Store, s': Store, l: int, r: int, moved: seq<Entry>) {
    && l in s && r in s && s'.Keys == s.Keys
    && s'[l] == s[l].(entries := s[l].entries + moved, next := if s[l].leaf then s[r].next else s[l].next)
    && s'[r] == s[r].(entries := [])
    && (forall x {:trigger s'[x]} :: x in s && x != l && x != r ==>
          s'[x] == if !s[l].leaf && PointsIn(moved, 0, |moved|, x) then s[x].(parent := l) else s[x])
  }

  /** One pair goes from page `from` to page `to`; on internal pages its child follows. */
  function PairPassed(s: Store, from: int, fromEntries: seq<Entry>, to: int, toEntries: seq<Entry>, e: Entry): Store
    requires from in s && to in s && (!s[from].leaf ==> e.val in s)
  {
    var s1 := s[from := s[from].(entries := fromEntries)][to := s[to].(entries := toEntries)];
    if s[from].leaf then s1 else s1[e.val := s1[e.val].(parent := to)]
  }

  function KeySet(s: Store, q: int, index: nat, key: int): Store
    requires q in s && index < |s[q].entries|
  {
    s[q := s[q].(entries := s[q].entries[index := Entry(key, s[q].entries[index].val)])]
  }

  /** Pages l and r can exchange the pair e: both are children of q, and the child in e is another page. */
  ghost predicate CanShift(s: Store, q: int, i: nat, l: int, r: int, e: Entry) {
    && q in s && l in s && r in s && l != r && l != q && r != q
    && s[l].parent == q && s[r].parent == q && s[l].leaf == s[r].leaf
    && i + 1 < |s[q].entries|
    && (!s[l].leaf ==> e.val in s && e.val !in {l, r, q})
  }

  lemma PassedLeft(s: Store, q: int, i: nat, l: int, r: int)
    requires r in s && |s[r].entries| > 1 && CanShift(s, q, i, l, r, s[r].entries[0])
    ensures
      var e := s[r].entries[0];
      var s1 := PairPassed(s, r, s[r].entries[1..], l, s[l].entries + [e], e);
      && q in s1 && s1[q] == s[q] && ShiftedLeft(s, KeySet(s1, q, i + 1, s[r].entries[1].key), q, i, l, r)
  {
  }

  lemma PassedRight(s: Store, q: int, i: nat, l: int, r: int)
    requires l in s && |s[l].entries| > 1 && CanShift(s, q, i, l, r, s[l].entries[|s[l].entries| - 1])
    ensures
      var n := |s[l].entries| - 1;
      var e := s[l].entries[n];
      var s1 := PairPassed(s, l, s[l].entries[..n], r, [e] + s[r].entries, e);
      && q in s1 && s1[q] == s[q] && ShiftedRight(s, KeySet(s1, q, i + 1, e.key), q, i, l, r)
  {
  }

  /** What MoveAllTo moves. */
  function Moved(s: Store, r: int, indexInParent: nat): seq<Entry>
    requires r in s
    requires !s[r].leaf ==> |s[r].entries| > 0 && s[r].parent in s && indexInParent < |s[s[r].parent].entries|
  {
    var es := s[r].entries;
    if s[r].leaf then es else es[0 := Entry(s[s[r].parent].entries[indexInParent].key, es[0].val)]
  }

  /** When all children have moved, storing both pages completes MoveAllTo. */
  lemma AllMoved(s: Store, s0: Store, now: Store, l: int, r: int, moved: seq<Entry>)
    requires l in s && r in s && l != r && s[r].leaf == s[l].leaf && s0 == s[r := s[r].(entries := moved)]
    requires Adopting(s0, now, r, l, 0, |moved|)
    requires !s[l].leaf ==> s[l].next == INVALID_PAGE_ID
    ensures
      var left := s[l].(entries := s[l].entries + moved, next := if s[l].leaf then s[r].next else INVALID_PAGE_ID);
      MovedAll(s, now[l := left][r := s[r].(entries := [])], l, r, moved)
  {
  }

  /** Neither shift reads the parent's separator: that r's slot 0 repeats it makes the shift a move of the border. */
  lemma ShiftedLeftIsRecut(s: Store, lab: Labels, root: int, s': Store, q: int, i: nat, l: int, r: int)
    requires Neighbours(s, lab, root, q, i, l, r) && ShiftedLeft(s, s', q, i, l, r)
    ensures Recutting(s, lab, root, s', q, i, l, r, |s[l].entries| + 1)
  {
    var es, m := Joined(s, l, r), |s[l].entries| + 1;
    SlotZeroIsSeparator(s, lab, root, q, i, l, r);
    if !s[l].leaf {
      forall x | x in s && x != l && x != r && x != q
        ensures s'[x] == if PointsIn(es, 0, m, x) then s[x].(parent := l)
                         else if PointsIn(es, m, |es|, x) then s[x].(parent := r) else s[x]
      {
        ShiftParent(s, lab, root, q, i, l, r, m, x);
        assert es[m - 1] == s[r].entries[0];
      }
    }
  }

  lemma ShiftedRightIsRecut(s: Store, lab: Labels, root: int, s': Store, q: int, i: nat, l: int, r: int)
    requires Neighbours(s, lab, root, q, i, l, r) && ShiftedRight(s, s', q, i, l, r)
    ensures Recutting(s, lab, root, s', q, i, l, r, |s[l].entries| - 1)
  {
    var es, m := Joined(s, l, r), |s[l].entries| - 1;
    SlotZeroIsSeparator(s, lab, root, q, i, l, r);
    assert es[m..] == [es[m]] + s[r].entries;
    if !s[l].leaf {
      forall x | x in s && x != l && x != r && x != q
        ensures s'[x] == if PointsIn(es, 0, m, x) then s[x].(parent := l)
                         else if PointsIn(es, m, |es|, x) then s[x].(parent := r) else s[x]
      {
        ShiftParent(s, lab, root, q, i, l, r, m, x);
      }
    }
  }

  /** Pointers among the joined entries and parent ids before the border moves to m. */
  lemma ShiftParent(s: Store, lab: Labels, root: int, q: int, i: nat, l: int, r: int, m: nat, x: int)
    requires Neighbours(s, lab, root, q, i, l, r) && !s[l].leaf && x in s
    requires m < |Joined(s, l, r)|
    ensures
      var es := Joined(s, l, r);
      && (PointsIn(es, 0, m, x) ==> !PointsIn(es, m, |es|, x))
      && (PointsIn(es, 0, m, x) && m <= |s[l].entries| ==> s[x].parent == l)
      && (PointsIn(es, 0, m, x) && m == |s[l].entries| + 1 ==> s[x].parent == l || x == es[m - 1].val)
      && (PointsIn(es, m, |es|, x) && m >= |s[l].entries| ==> s[x].parent == r)
      && (PointsIn(es, m, |es|, x) && m == |s[l].entries| - 1 ==> s[x].parent == r || x == es[m].val)
  {
    var es := Joined(s, l, r);
    if PointsIn(es, 0, m, x) {
      var j :| 0 <= j < m && j < |es| && es[j].val == x;
      JoinedChild(s, lab, root, q, i, l, r, j);
      forall j' | m <= j' < |es| ensures es[j'].val != x {
        JoinedDistinct(s, lab, root, q, i, l, r, j, j');
      }
    }
    if PointsIn(es, m, |es|, x) {
      var j :| m <= j < |es| && es[j].val == x;
      JoinedChild(s, lab, root, q, i, l, r, j);
    }
  }

  /** MoveAllTo writes the separator into slot 0, where it already is; with the parent's Remove it is a merge. */
  lemma MovedAllIsMerge(s: Store, lab: Labels, root: int, s1: Store, q: int, i: nat, l: int, r: int)
    requires Neighbours(s, lab, root, q, i, l, r)
    requires s[r].parent == q && (!s[r].leaf ==> |s[r].entries| > 0) && MovedAll(s, s1, l, r, Moved(s, r, i + 1))
    ensures s1[q] == s[q]
    ensures Merging(s, lab, root, s1[q := s1[q].(entries := Without(s1[q].entries, i + 1))], q, i, l, r)
  {
    var es, right := Joined(s, l, r), s[r].entries;
    SlotZeroIsSeparator(s, lab, root, q, i, l, r);
    if !s[r].leaf {
      assert right[0 := Entry(s[q].entries[i + 1].key, right[0].val)] == right;
      forall x | x in s && x != l && x != r
        ensures PointsIn(right, 0, |right|, x) ==> x != q
        ensures PointsIn(es, 0, |es|, x) ==> PointsIn(right, 0, |right|, x) || s[x].parent == l
        ensures PointsIn(right, 0, |right|, x) ==> PointsIn(es, 0, |es|, x)
      {
        if PointsIn(right, 0, |right|, x) {
          var j :| 0 <= j < |right| && right[j].val == x;
          JoinedChild(s, lab, root, q, i, l, r, |s[l].entries| + j);
        }
        if PointsIn(es, 0, |es|, x) {
          var j :| 0 <= j < |es| && es[j].val == x;
          JoinedChild(s, lab, root, q, i, l, r, j);
          assert j >= |s[l].entries| ==> right[j - |s[l].entries|].val == x;
        }
      }
    }
  }

  // ----- dropping the root -----

  /** AdjustRoot on an internal root with one child: the child becomes the root. */
  lemma ShrinkKeepsInv(s: Store, lab: Labels, root: int, s': Store, c: map<int, int>)
    requires Inv(s, lab, root) && !s[root].leaf && |s[root].entries| == 1 && Represents(s, lab, c)
    requires
      var child := s[root].entries[0].val;
      child in s && s'.Keys == s.Keys && s'[child] == s[child].(parent := INVALID_PAGE_ID)
      && forall x :: x in s && x != child && x != root ==> s'[x] == s[x]
    ensures Inv(s', lab - {root}, s[root].entries[0].val)
    ensures Represents(s', lab - {root}, c)
  {
    var child, lab' := s[root].entries[0].val, lab - {root};
    assert PageOk(s, lab, root, root);
    assert LinkOk(s, lab, root, 0);
    ChildFacts(s, lab, root, root, 0);
    forall x | x in lab' ensures PageOk(s', lab', child, x) {
      assert PageOk(s, lab, root, x);
      RootIsTop(s, lab, root, x);
      if x != child { var q, i := SlotInParent(s, lab, root, x); }
      if !s[x].leaf {
        forall j | 0 <= j < |s[x].entries| ensures LinkOk(s', lab', x, j) {
          assert LinkOk(s, lab, x, j);
          ChildFacts(s, lab, root, x, j);
        }
      }
    }
    forall e ensures Holds(s, lab, e) <==> Holds(s', lab', e) {
      if Holds(s, lab, e) {
        var x :| x in lab && HoldsAt(s[x], e);
        assert HoldsAt(s'[x], e);
      }
      if Holds(s', lab', e) {
        var x :| x in lab' && HoldsAt(s'[x], e);
        assert HoldsAt(s[x], e);
      }
    }
  }
}
