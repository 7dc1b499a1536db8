/** The directory of an extendible hash table as a value: which bucket each index leads to, and what buckets hold. */
module HashDirectory {
  import opened Common

  // ----- bits -----

  function Pow2(d: nat): (r: nat)
    ensures r > 0
  {
    if d == 0 then 1 else 2 * Pow2(d - 1)
  }

  /** x & ((1 << d) - 1) */
  function Low(x: nat, d: nat): (r: nat)
    ensures r <= x
  {
    if d == 0 then 0 else x % 2 + 2 * Low(x / 2, d - 1)
  }

  /** (x & (1 << d)) != 0 */
  predicate Bit(x: nat, d: nat) {
    if d == 0 then x % 2 == 1 else Bit(x / 2, d - 1)
  }

  /** Low is the remainder of the division by 2^d, and Bit the parity of the quotient. */
  lemma {:induction false} LowIsRemainder(x: nat, d: nat) returns (quotient: nat)
    ensures x == quotient * Pow2(d) + Low(x, d) && Low(x, d) < Pow2(d)
    ensures Bit(x, d) <==> quotient % 2 == 1
  {
    if d == 0 { return x; }
    quotient := LowIsRemainder(x / 2, d - 1);
    var p := Pow2(d - 1);
    assert quotient * (2 * p) == 2 * (quotient * p);
  }

  lemma {:induction false} LowNext(x: nat, d: nat)
    ensures Low(x, d + 1) == Low(x, d) + if Bit(x, d) then Pow2(d) else 0
  {
    if d > 0 { LowNext(x / 2, d - 1); }
  }

  lemma {:induction false} LowBound(x: nat, d: nat)
    ensures Low(x, d) < Pow2(d)
    ensures x < Pow2(d) ==> Low(x, d) == x
  {
    if d > 0 { LowBound(x / 2, d - 1); }
  }

  lemma {:induction false} LowLow(x: nat, d: nat, e: nat)
    requires e <= d
    ensures Low(Low(x, d), e) == Low(x, e)
  {
    if e > 0 { LowLow(x / 2, d - 1, e - 1); }
  }

  lemma {:induction false} LowBeyond(x: nat, d: nat, e: nat)
    requires e <= d
    ensures Low(x + Pow2(d), e) == Low(x, e)
  {
    if e > 0 {
      assert (x + Pow2(d)) / 2 == x / 2 + Pow2(d - 1);
      LowBeyond(x / 2, d - 1, e - 1);
    }
  }

  /** Bit d of numbers below 2^d and of those numbers plus 2^d. */
  lemma {:induction false} TopBit(x: nat, d: nat)
    requires x < Pow2(d)
    ensures !Bit(x, d) && Bit(x + Pow2(d), d) && x + Pow2(d) < Pow2(d + 1)
  {
    if d > 0 {
      assert (x + Pow2(d)) / 2 == x / 2 + Pow2(d - 1);
      TopBit(x / 2, d - 1);
    }
  }

  /** Agreeing on more bits is agreeing on fewer. */
  lemma LowFewer(x: nat, y: nat, d: nat, e: nat)
    requires e <= d && Low(x, d) == Low(y, d)
    ensures Low(x, e) == Low(y, e)
  {
    LowLow(x, d, e);
    LowLow(y, d, e);
  }

  lemma {:induction false} Pow2Grows(d: nat, e: nat)
    requires d <= e
    ensures Pow2(d) <= Pow2(e)
  {
    if d < e { Pow2Grows(d, e - 1); }
  }

  /** Hash values have `width` bits. */
  ghost predicate Fits(hash: int -> nat, width: nat) {
    forall k :: hash(k) < Pow2(width)
  }

  // ----- the directory -----

  /** What a bucket holds, and the number of hash bits its keys agree on. */
  datatype Cell = Cell(depth: nat, data: map<int, int>)

  /** Entry i leads to a bucket with the keys that agree with i on its local depth. */
  ghost predicate EntryOk<B>(dir: seq<B>, cells: map<B, Cell>, g: nat, hash: int -> nat, i: nat)
    requires i < |dir|
  {
    && dir[i] in cells && cells[dir[i]].depth <= g
    && (forall j {:trigger dir[j]} :: 0 <= j < |dir| ==>
          (dir[j] == dir[i] <==> Low(j, cells[dir[i]].depth) == Low(i, cells[dir[i]].depth)))
    && (forall k :: k in cells[dir[i]].data ==> Low(hash(k), cells[dir[i]].depth) == Low(i, cells[dir[i]].depth))
  }

  ghost predicate EntriesOk<B>(dir: seq<B>, cells: map<B, Cell>, g: nat, hash: int -> nat) {
    && |dir| == Pow2(g) && cells.Keys == Elements(dir)
    && forall i {:trigger EntryOk(dir, cells, g, hash, i)} :: 0 <= i < |dir| ==> EntryOk(dir, cells, g, hash, i)
  }

  ghost function Any<B>(s: set<B>): (x: B)
    requires s != {}
    ensures x in s
  {
    var x :| x in s;
    x
  }

  /** The number of directory entries that lead to buckets of `cells`, each bucket taking 2^(g - depth). */
  ghost function Weight<B>(cells: map<B, Cell>, g: nat): nat
    requires forall b :: b in cells ==> cells[b].depth <= g
    decreases |cells|
  {
    if cells.Keys == {} then 0
    else
      var b := Any(cells.Keys);
      assert |cells - {b}| < |cells| by { Smaller(cells, b); }
      Pow2(g - cells[b].depth) + Weight(cells - {b}, g)
  }

  lemma Smaller<B, C>(m: map<B, C>, b: B)
    requires b in m
    ensures |m - {b}| < |m|
  {
    assert m.Keys == (m - {b}).Keys + {b};
  }

  /** The weight does not depend on the order of the buckets. */
  lemma {:induction false} WeightOf<B>(cells: map<B, Cell>, g: nat, b: B)
    requires (forall x :: x in cells ==> cells[x].depth <= g) && b in cells
    ensures Weight(cells, g) == Pow2(g - cells[b].depth) + Weight(cells - {b}, g)
    decreases |cells|
  {
    hide Pow2, Any, Weight;
    var a := WeightUnfolds(cells, g);
    if a != b {
      Smaller(cells, a);
      Smaller(cells, b);
      WeightOf(cells - {a}, g, b);
      WeightOf(cells - {b}, g, a);
      assert cells - {a} - {b} == cells - {b} - {a};
    }
  }

  lemma WeightUnfolds<B>(cells: map<B, Cell>, g: nat) returns (a: B)
    requires (forall x :: x in cells ==> cells[x].depth <= g) && cells.Keys != {}
    ensures a in cells && Weight(cells, g) == Pow2(g - cells[a].depth) + Weight(cells - {a}, g)
  {
    a := Any(cells.Keys);
  }

  /** Doubling the directory doubles the weight. */
  lemma {:induction false} WeightDoubles<B>(cells: map<B, Cell>, g: nat)
    requires forall x :: x in cells ==> cells[x].depth <= g
    ensures Weight(cells, g + 1) == 2 * Weight(cells, g)
    decreases |cells|
  {
    if cells.Keys != {} {
      var b := Any(cells.Keys);
      Smaller(cells, b);
      WeightOf(cells, g, b);
      WeightOf(cells, g + 1, b);
      WeightDoubles(cells - {b}, g);
    }
  }

  /** The directory invariant, except that every bucket may be shallower than the directory. */
  ghost predicate DirectoryOk<B>(dir: seq<B>, cells: map<B, Cell>, g: nat, hash: int -> nat) {
    && EntriesOk(dir, cells, g, hash)
    && (forall b :: b in cells ==> cells[b].depth <= g)
    && Weight(cells, g) == Pow2(g)
  }

  ghost predicate SomeDeepest<B>(cells: map<B, Cell>, g: nat) {
    exists b :: b in cells && cells[b].depth == g
  }

  /** Two maps that differ at most at k. */
  ghost predicate SameElsewhere(m: map<int, int>, m': map<int, int>, k: int) {
    forall x :: x != k ==> (x in m' <==> x in m) && (x in m ==> m'[x] == m[x])
  }

  ghost predicate SameAt(m: map<int, int>, m': map<int, int>, k: int) {
    (k in m' <==> k in m) && (k in m ==> m'[k] == m[k])
  }

  ghost predicate NoneOver<B>(cells: map<B, Cell>, size: nat) {
    forall b :: b in cells ==> |cells[b].data| <= size
  }

  /** The pairs that a lookup finds are those of m. */
  ghost predicate Finds<B>(dir: seq<B>, cells: map<B, Cell>, g: nat, hash: int -> nat, m: map<int, int>)
    requires EntriesOk(dir, cells, g, hash)
  {
    forall k {:trigger CellFor(dir, cells, g, hash, k)} {:trigger k in m} ::
      SameAt(m, CellFor(dir, cells, g, hash, k).data, k)
  }

  ghost function CellFor<B>(dir: seq<B>, cells: map<B, Cell>, g: nat, hash: int -> nat, k: int): Cell
    requires EntriesOk(dir, cells, g, hash)
  {
    LowBound(hash(k), g);
    assert EntryOk(dir, cells, g, hash, Low(hash(k), g));
    cells[dir[Low(hash(k), g)]]
  }

  ghost function EntryFor<B>(dir: seq<B>, cells: map<B, Cell>, g: nat, hash: int -> nat, k: int): (b: B)
    requires EntriesOk(dir, cells, g, hash)
    ensures b in cells && cells[b] == CellFor(dir, cells, g, hash, k)
  {
    LowBound(hash(k), g);
    assert EntryOk(dir, cells, g, hash, Low(hash(k), g));
    dir[Low(hash(k), g)]
  }

  lemma EntryIs<B>(dir: seq<B>, cells: map<B, Cell>, g: nat, hash: int -> nat, k: int)
    requires EntriesOk(dir, cells, g, hash)
    ensures Low(hash(k), g) < |dir| && dir[Low(hash(k), g)] == EntryFor(dir, cells, g, hash, k)
  {
    LowBound(hash(k), g);
  }

  /** A key is in no bucket but the one its hash leads to. */
  lemma OneBucketPerKey<B>(dir: seq<B>, cells: map<B, Cell>, g: nat, hash: int -> nat, b: B, k: int)
    requires EntriesOk(dir, cells, g, hash) && b in cells && k in cells[b].data
    ensures Low(hash(k), g) < |dir| && dir[Low(hash(k), g)] == b
  {
    var i :| 0 <= i < |dir| && dir[i] == b;
    assert EntryOk(dir, cells, g, hash, i);
    LowBound(hash(k), g);
    LowLow(hash(k), g, cells[b].depth);
  }

  // ----- doubling -----

  lemma DoubleKeepsEntries<B>(dir: seq<B>, cells: map<B, Cell>, g: nat, hash: int -> nat)
    requires EntriesOk(dir, cells, g, hash)
    ensures EntriesOk(dir + dir, cells, g + 1, hash)
  {
    var dir', n, g' := dir + dir, |dir|, g + 1;
    forall i | 0 <= i < |dir'| ensures EntryOk(dir', cells, g', hash, i) {
      var i0 := if i < n then i else i - n;
      assert EntryOk(dir, cells, g, hash, i0) && dir'[i] == dir[i0];
      var d := cells[dir[i0]].depth;
      LowBeyond(i0, g, d);
      forall j | 0 <= j < |dir'| ensures dir'[j] == dir'[i] <==> Low(j, d) == Low(i, d) {
        var j0 := if j < n then j else j - n;
        LowBeyond(j0, g, d);
        assert dir'[j] == dir[j0];
      }
    }
    assert Elements(dir') == Elements(dir) by {
      assert forall i :: 0 <= i < n ==> dir[i] == dir'[i];
    }
  }

  lemma DoubleKeepsPairs<B>(dir: seq<B>, cells: map<B, Cell>, g: nat, hash: int -> nat, m: map<int, int>)
    requires DirectoryOk(dir, cells, g, hash) && Finds(dir, cells, g, hash, m)
    ensures DirectoryOk(dir + dir, cells, g + 1, hash) && Finds(dir + dir, cells, g + 1, hash, m)
  {
    DoubleKeepsEntries(dir, cells, g, hash);
    WeightDoubles(cells, g);
    forall k ensures CellFor(dir + dir, cells, g + 1, hash, k) == CellFor(dir, cells, g, hash, k) {
      LowNext(hash(k), g);
      LowBound(hash(k), g);
      LowBound(hash(k), g + 1);
    }
  }

  /** A key's hash leads to the same bucket in the doubled directory. */
  lemma DoubleSameEntry<B>(dir: seq<B>, cells: map<B, Cell>, g: nat, hash: int -> nat, m: map<int, int>, k: int)
    requires DirectoryOk(dir, cells, g, hash)
    ensures EntriesOk(dir + dir, cells, g + 1, hash)
    ensures EntryFor(dir + dir, cells, g + 1, hash, k) == EntryFor(dir, cells, g, hash, k)
    ensures Elements(dir + dir) == Elements(dir)
  {
    DoubleKeepsEntries(dir, cells, g, hash);
    LowNext(hash(k), g);
    LowBound(hash(k), g);
    LowBound(hash(k), g + 1);
  }

  // ----- splitting a bucket -----

  /** The pairs of a bucket whose hash has (or has not) bit d. */
  function WithBit(data: map<int, int>, hash: int -> nat, d: nat, bit: bool): map<int, int> {
    map k | k in data && Bit(hash(k), d) == bit :: data[k]
  }

  function SplitCells<B(==)>(cells: map<B, Cell>, hash: int -> nat, cur: B, fresh': B): map<B, Cell>
    requires cur in cells
  {
    var Cell(d, data) := cells[cur];
    cells[cur := Cell(d + 1, WithBit(data, hash, d, false))][fresh' := Cell(d + 1, WithBit(data, hash, d, true))]
  }

  lemma SplitCellsAre<B>(cells: map<B, Cell>, hash: int -> nat, cur: B, fresh': B)
    requires cur in cells && fresh' !in cells
    ensures
      var cells' := SplitCells(cells, hash, cur, fresh');
      && cells'.Keys == cells.Keys + {fresh'}
      && cells'[cur] == Cell(cells[cur].depth + 1, WithBit(cells[cur].data, hash, cells[cur].depth, false))
      && cells'[fresh'] == Cell(cells[cur].depth + 1, WithBit(cells[cur].data, hash, cells[cur].depth, true))
      && forall b :: b in cells && b != cur ==> cells'[b] == cells[b]
  {
  }

  /** Bucket cur gives its entries with bit d to the new bucket. */
  ghost predicate Relabelled<B>(dir: seq<B>, dir': seq<B>, upTo: nat, d: nat, cur: B, fresh': B) {
    && |dir'| == |dir|
    && forall i :: 0 <= i < |dir| ==> dir'[i] == if i < upTo && dir[i] == cur && Bit(i, d) then fresh' else dir[i]
  }

  ghost predicate SplitIn<B>(dir: seq<B>, cells: map<B, Cell>, g: nat, hash: int -> nat, dir': seq<B>, cur: B, fresh': B)
  {
    && EntriesOk(dir, cells, g, hash) && cur in cells && fresh' !in cells && cells[cur].depth < g
    && Relabelled(dir, dir', |dir|, cells[cur].depth, cur, fresh')
  }

  lemma SplitKeepsEntry<B>(dir: seq<B>, cells: map<B, Cell>, g: nat, hash: int -> nat, dir': seq<B>, cur: B,
                      fresh': B, i: nat)
    requires SplitIn(dir, cells, g, hash, dir', cur, fresh') && i < |dir|
    ensures EntryOk(dir', SplitCells(cells, hash, cur, fresh'), g, hash, i)
  {
    hide Low, Bit, Pow2;
    var cells', d := SplitCells(cells, hash, cur, fresh'), cells[cur].depth;
    assert EntryOk(dir, cells, g, hash, i);
    var e := cells'[dir'[i]].depth;
    if dir[i] == cur {
      LowNext(i, d);
      LowBound(i, d);
      forall j | 0 <= j < |dir'| ensures dir'[j] == dir'[i] <==> Low(j, e) == Low(i, e) {
        LowNext(j, d);
        LowBound(j, d);
        assert EntryOk(dir, cells, g, hash, j);
      }
      forall k | k in cells'[dir'[i]].data ensures Low(hash(k), e) == Low(i, e) {
        LowNext(hash(k), d);
        LowBound(hash(k), d);
      }
    } else {
      forall j | 0 <= j < |dir'| ensures dir'[j] == dir'[i] <==> Low(j, e) == Low(i, e) {
        assert EntryOk(dir, cells, g, hash, j);
      }
    }
  }

  /** Both halves of a split bucket are still in the directory. */
  lemma SplitKeepsBoth<B>(dir: seq<B>, cells: map<B, Cell>, g: nat, hash: int -> nat, dir': seq<B>, cur: B, fresh': B)
    requires SplitIn(dir, cells, g, hash, dir', cur, fresh')
    ensures SplitCells(cells, hash, cur, fresh').Keys == Elements(dir')
  {
    hide Low, Bit, Pow2, Weight;
    var d := cells[cur].depth;
    var i :| 0 <= i < |dir| && dir[i] == cur;
    var a := Low(i, d);
    LowBound(i, d);
    TopBit(a, d);
    Pow2Grows(d + 1, g);
    assert dir[a] == cur && dir[a + Pow2(d)] == cur by {
      assert EntryOk(dir, cells, g, hash, i);
      LowLow(i, d, d);
      LowBeyond(a, d, d);
    }
    assert dir'[a] == cur && dir'[a + Pow2(d)] == fresh';
    forall x ensures x in cells.Keys + {fresh'} <==> x in Elements(dir') {
      if x in cells && x != cur {
        var j :| 0 <= j < |dir| && dir[j] == x;
        assert dir'[j] == x;
      }
      if x in Elements(dir') {
        var j :| 0 <= j < |dir'| && dir'[j] == x;
        assert dir[j] in cells;
      }
    }
  }

  lemma SplitKeepsWeight<B>(cells: map<B, Cell>, g: nat, hash: int -> nat, cur: B, fresh': B)
    requires (forall x :: x in cells ==> cells[x].depth <= g) && cur in cells
    requires cells[cur].depth < g && fresh' !in cells
    ensures
      var cells' := SplitCells(cells, hash, cur, fresh');
      (forall x :: x in cells' ==> cells'[x].depth <= g) && Weight(cells', g) == Weight(cells, g)
  {
    hide Weight, WithBit;
    var cells' := SplitCells(cells, hash, cur, fresh');
    WeightOf(cells, g, cur);
    WeightOf(cells', g, fresh');
    WeightOf(cells' - {fresh'}, g, cur);
    assert cells' - {fresh'} - {cur} == cells - {cur};
  }

  /** Splitting a bucket keeps the directory invariant and every pair. */
  lemma SplitKeepsPairs<B>(dir: seq<B>, cells: map<B, Cell>, g: nat, hash: int -> nat, dir': seq<B>, cur: B,
                      fresh': B, m: map<int, int>)
    requires DirectoryOk(dir, cells, g, hash) && Finds(dir, cells, g, hash, m)
    requires SplitIn(dir, cells, g, hash, dir', cur, fresh')
    ensures
      var cells' := SplitCells(cells, hash, cur, fresh');
      DirectoryOk(dir', cells', g, hash) && Finds(dir', cells', g, hash, m)
  {
    hide Low, Bit, Pow2, Weight;
    var cells' := SplitCells(cells, hash, cur, fresh');
    forall i | 0 <= i < |dir'| ensures EntryOk(dir', cells', g, hash, i) {
      SplitKeepsEntry(dir, cells, g, hash, dir', cur, fresh', i);
    }
    SplitKeepsBoth(dir, cells, g, hash, dir', cur, fresh');
    SplitKeepsWeight(cells, g, hash, cur, fresh');
    forall k
      ensures SameAt(CellFor(dir, cells, g, hash, k).data, CellFor(dir', cells', g, hash, k).data, k)
    {
      SplitKeepsLookup(dir, cells, g, hash, dir', cur, fresh', k);
    }
  }

  /** After a split a key is found, or not found, as before. */
  lemma SplitKeepsLookup<B>(dir: seq<B>, cells: map<B, Cell>, g: nat, hash: int -> nat, dir': seq<B>, cur: B,
                      fresh': B, k: int)
    requires SplitIn(dir, cells, g, hash, dir', cur, fresh')
    requires EntriesOk(dir', SplitCells(cells, hash, cur, fresh'), g, hash)
    ensures
      var cells' := SplitCells(cells, hash, cur, fresh');
      SameAt(CellFor(dir, cells, g, hash, k).data, CellFor(dir', cells', g, hash, k).data, k)
  {
    hide Low, Bit, Pow2;
    var i, d := Low(hash(k), g), cells[cur].depth;
    LowBound(hash(k), g);
    LowLow(hash(k), g, d);
    LowLow(hash(k), g, d + 1);
    LowNext(i, d);
    LowNext(hash(k), d);
  }

  /** Splitting the bucket that a key's hash leads to: what changes besides the directory. */
  lemma SplitOfKey<B>(dir: seq<B>, cells: map<B, Cell>, g: nat, hash: int -> nat, dir': seq<B>, cur: B, fresh': B, k: int)
    requires SplitIn(dir, cells, g, hash, dir', cur, fresh') && Low(hash(k), g) < |dir| && dir[Low(hash(k), g)] == cur
    requires EntriesOk(dir', SplitCells(cells, hash, cur, fresh'), g, hash)
    ensures CellFor(dir', SplitCells(cells, hash, cur, fresh'), g, hash, k).depth == cells[cur].depth + 1
    ensures EntryFor(dir', SplitCells(cells, hash, cur, fresh'), g, hash, k) in {cur, fresh'}
  {
    hide Low, Bit;
  }

  lemma SplitSizes<B>(cells: map<B, Cell>, hash: int -> nat, cur: B, fresh': B, size: nat)
    requires cur in cells && fresh' !in cells && NoneOver(cells, size)
    ensures
      var cells' := SplitCells(cells, hash, cur, fresh');
      cells'.Keys == cells.Keys + {fresh'} && |cells'| == |cells| + 1 && NoneOver(cells', size)
  {
    hide Bit, WithBit;
    var cells' := SplitCells(cells, hash, cur, fresh');
    OneMore(cells, cells[cur := cells'[cur]], fresh', cells'[fresh']);
    WithBitSize(cells[cur].data, hash, cells[cur].depth, false);
    WithBitSize(cells[cur].data, hash, cells[cur].depth, true);
  }

  lemma OneMore<B>(cells: map<B, Cell>, was: map<B, Cell>, b: B, c: Cell)
    requires was.Keys == cells.Keys && b !in cells
    ensures was[b := c].Keys == cells.Keys + {b} && |was[b := c]| == |cells| + 1
  {
    assert |was[b := c]| == |was[b := c].Keys| && |cells| == |cells.Keys|;
  }

  lemma WithBitSize(data: map<int, int>, hash: int -> nat, d: nat, bit: bool)
    ensures |WithBit(data, hash, d, bit)| <= |data|
  {
    hide Bit;
    SubsetSize(WithBit(data, hash, d, bit).Keys, data.Keys);
    assert |WithBit(data, hash, d, bit)| == |WithBit(data, hash, d, bit).Keys| && |data| == |data.Keys|;
  }

  lemma SplitDeepest<B>(cells: map<B, Cell>, g: nat, hash: int -> nat, cur: B, fresh': B)
    requires cur in cells && fresh' !in cells && cells[cur].depth < g
    requires cells[cur].depth + 1 == g || SomeDeepest(cells, g)
    ensures SomeDeepest(SplitCells(cells, hash, cur, fresh'), g)
  {
    var cells' := SplitCells(cells, hash, cur, fresh');
    if cells[cur].depth + 1 == g {
      assert cells'[cur].depth == g;
    } else {
      var b :| b in cells && cells[b].depth == g;
      assert cells'[b].depth == g;
    }
  }

  /** All there is to know after a bucket has been split. */
  lemma AfterSplit<B>(dir: seq<B>, cells: map<B, Cell>, g: nat, hash: int -> nat, dir': seq<B>, cur: B, fresh': B,
                      m: map<int, int>, k: int, size: nat)
    requires DirectoryOk(dir, cells, g, hash) && Finds(dir, cells, g, hash, m)
    requires EntryFor(dir, cells, g, hash, k) == cur
    requires fresh' !in cells && cells[cur].depth < g && Relabelled(dir, dir', |dir|, cells[cur].depth, cur, fresh')
    requires NoneOver(cells, size)
    requires cells[cur].depth + 1 == g || SomeDeepest(cells, g)
    ensures
      var cells' := SplitCells(cells, hash, cur, fresh');
      && cells'.Keys == Elements(dir') == cells.Keys + {fresh'}
      && DirectoryOk(dir', cells', g, hash) && Finds(dir', cells', g, hash, m) && SomeDeepest(cells', g)
      && cells'[EntryFor(dir', cells', g, hash, k)].depth == cells[cur].depth + 1
      && |cells'| == |cells| + 1 && NoneOver(cells', size)
      && EntryFor(dir', cells', g, hash, k) in {cur, fresh'}
  {
    hide EntriesOk, Finds, Low, Weight, Bit, SplitCells, SomeDeepest, Relabelled, Elements, NoneOver;
    EntryIs(dir, cells, g, hash, k);
    SplitKeepsPairs(dir, cells, g, hash, dir', cur, fresh', m);
    SplitKeepsBoth(dir, cells, g, hash, dir', cur, fresh');
    SplitOfKey(dir, cells, g, hash, dir', cur, fresh', k);
    SplitSizes(cells, hash, cur, fresh', size);
    SplitDeepest(cells, g, hash, cur, fresh');
  }

  /** While a bucket is redistributed: the pairs that stay, given that those in `todo` have not been looked at. */
  function Kept(data: map<int, int>, hash: int -> nat, d: nat, todo: set<int>): map<int, int> {
    map k | k in data && (k in todo || !Bit(hash(k), d)) :: data[k]
  }

  function Given(data: map<int, int>, hash: int -> nat, d: nat, todo: set<int>): map<int, int> {
    map k | k in data && k !in todo && Bit(hash(k), d) :: data[k]
  }

  lemma MoveNext(data: map<int, int>, hash: int -> nat, d: nat, todo: set<int>, k: int)
    requires k in todo && todo <= data.Keys
    ensures k in Kept(data, hash, d, todo) && Kept(data, hash, d, todo)[k] == data[k]
    ensures Kept(data, hash, d, todo - {k}) ==
      if Bit(hash(k), d) then Kept(data, hash, d, todo) - {k} else Kept(data, hash, d, todo)
    ensures Given(data, hash, d, todo - {k}) ==
      if Bit(hash(k), d) then Given(data, hash, d, todo)[k := data[k]] else Given(data, hash, d, todo)
  {
    hide Bit;
  }

  lemma AnyOf<T>(s: set<T>) returns (x: T)
    requires s != {}
    ensures x in s
  {
    x :| x in s;
  }

  lemma MoveEnds(data: map<int, int>, hash: int -> nat, d: nat)
    ensures Kept(data, hash, d, data.Keys) == data && Given(data, hash, d, data.Keys) == map[]
    ensures Kept(data, hash, d, {}) == WithBit(data, hash, d, false)
      && Given(data, hash, d, {}) == WithBit(data, hash, d, true)
  {
    hide Bit;
  }

  // ----- room for a key -----

  /** The keys of m that no amount of splitting can separate from k. */
  ghost function SameHash(m: map<int, int>, hash: int -> nat, k: int): set<int> {
    set x | x in m && hash(x) == hash(k)
  }

  /** Insert comes to an end for key k. */
  ghost predicate HasRoom(m: map<int, int>, hash: int -> nat, k: int, size: nat) {
    k in m || |SameHash(m, hash, k)| < size
  }

  /** A full bucket without the key: if there is room for the key at all, the bucket can be split once more. */
  lemma FullBucketSplits<B>(dir: seq<B>, cells: map<B, Cell>, g: nat, hash: int -> nat, m: map<int, int>,
                                  k: int, size: nat, width: nat)
    requires EntriesOk(dir, cells, g, hash) && Finds(dir, cells, g, hash, m) && Fits(hash, width)
    requires var data := CellFor(dir, cells, g, hash, k).data; k !in data && |data| >= size
    requires HasRoom(m, hash, k, size)
    ensures CellFor(dir, cells, g, hash, k).depth < width
  {
    var c, i := CellFor(dir, cells, g, hash, k), Low(hash(k), g);
    LowBound(hash(k), g);
    assert EntryOk(dir, cells, g, hash, i);
    assert |c.data| == |c.data.Keys|;
    if width <= c.depth {
      forall x | x in c.data ensures x in SameHash(m, hash, k) {
        OneBucketPerKey(dir, cells, g, hash, dir[i], x);
        LowLow(hash(k), g, c.depth);
        LowFewer(hash(x), hash(k), c.depth, width);
        LowBound(hash(x), width);
        LowBound(hash(k), width);
      }
      SubsetSize(c.data.Keys, SameHash(m, hash, k));
      assert false;
    }
  }

  /** The key's bucket holds every key with the same hash, so without room it is full and stays full. */
  lemma NoRoomMeansFull<B>(dir: seq<B>, cells: map<B, Cell>, g: nat, hash: int -> nat, m: map<int, int>, k: int, size: nat)
    requires EntriesOk(dir, cells, g, hash) && Finds(dir, cells, g, hash, m)
    requires !HasRoom(m, hash, k, size)
    ensures var data := CellFor(dir, cells, g, hash, k).data; k !in data && |data| >= size
  {
    var c := CellFor(dir, cells, g, hash, k);
    assert hash(k) == hash(k);
    forall x | x in SameHash(m, hash, k) ensures x in c.data.Keys {
    }
    SubsetSize(SameHash(m, hash, k), c.data.Keys);
    assert |c.data| == |c.data.Keys|;
  }

  /** The keys of m whose hash agrees with that of k on the d lowest bits. */
  ghost function Agreeing(m: map<int, int>, hash: int -> nat, k: int, d: nat): set<int> {
    set x | x in m && Low(hash(x), d) == Low(hash(k), d)
  }

  /** The bucket of a key holds exactly the keys that agree with it on the bucket's depth. */
  lemma BucketHolds<B>(dir: seq<B>, cells: map<B, Cell>, g: nat, hash: int -> nat, m: map<int, int>, k: int)
    requires EntriesOk(dir, cells, g, hash) && Finds(dir, cells, g, hash, m)
    ensures
      var c := CellFor(dir, cells, g, hash, k);
      c.data.Keys == Agreeing(m, hash, k, c.depth) && |c.data| == |Agreeing(m, hash, k, c.depth)|
  {
    hide Low;
    var c, i := CellFor(dir, cells, g, hash, k), Low(hash(k), g);
    LowBound(hash(k), g);
    assert EntryOk(dir, cells, g, hash, i);
    LowLow(hash(k), g, c.depth);
    forall x ensures x in c.data <==> x in m && Low(hash(x), c.depth) == Low(hash(k), c.depth) {
      var j := Low(hash(x), g);
      LowBound(hash(x), g);
      LowLow(hash(x), g, c.depth);
      assert EntryOk(dir, cells, g, hash, j);
      assert SameAt(m, CellFor(dir, cells, g, hash, x).data, x);
      if x in c.data { OneBucketPerKey(dir, cells, g, hash, dir[i], x); }
    }
    assert |c.data| == |c.data.Keys|;
  }

  /** Splitting the bucket of k from depth d0 to d was needed: at every depth in between the bucket was full. */
  ghost predicate Needed(m: map<int, int>, hash: int -> nat, k: int, size: nat, d0: nat, d: nat) {
    d0 <= d && forall e {:trigger Agreeing(m, hash, k, e)} :: d0 <= e < d ==> k !in m && |Agreeing(m, hash, k, e)| >= size
  }

  lemma {:induction false} SubsetSize<T>(a: set<T>, b: set<T>)
    requires a <= b
    ensures |a| <= |b|
  {
    if a != {} {
      var x :| x in a;
      SubsetSize(a - {x}, b - {x});
    }
  }

  ghost function SetData<B>(cells: map<B, Cell>, b: B, data: map<int, int>): map<B, Cell>
    requires b in cells
  {
    cells[b := Cell(cells[b].depth, data)]
  }

  /** One pair of the bucket for k comes, goes or changes, and so does that pair of m. */
  lemma PairKeepsDirectory<B>(dir: seq<B>, cells: map<B, Cell>, g: nat, hash: int -> nat, m: map<int, int>, b: B, k: int,
                              data: map<int, int>, m': map<int, int>)
    requires DirectoryOk(dir, cells, g, hash) && Finds(dir, cells, g, hash, m)
    requires Low(hash(k), g) < |dir| && dir[Low(hash(k), g)] == b && b in cells
    requires SameElsewhere(cells[b].data, data, k) && SameElsewhere(m, m', k) && SameAt(data, m', k)
    ensures DirectoryOk(dir, SetData(cells, b, data), g, hash) && Finds(dir, SetData(cells, b, data), g, hash, m')
  {
    hide Low, Weight, Pow2;
    var cells' := SetData(cells, b, data);
    forall j | 0 <= j < |dir| ensures EntryOk(dir, cells', g, hash, j) {
      assert EntryOk(dir, cells, g, hash, j);
      LowLow(hash(k), g, cells[b].depth);
    }
    WeightOf(cells, g, b);
    WeightOf(cells', g, b);
    assert cells - {b} == cells' - {b};
    forall x ensures SameAt(m', CellFor(dir, cells', g, hash, x).data, x) {
      assert hash(x) == hash(x);
    }
  }

  lemma PairKeepsSizes<B>(cells: map<B, Cell>, b: B, data: map<int, int>, size: nat, g: nat)
    requires b in cells && NoneOver(cells, size) && |data| <= size && SomeDeepest(cells, g)
    ensures
      var cells' := SetData(cells, b, data);
      |cells'| == |cells| && cells'.Keys == cells.Keys && NoneOver(cells', size) && SomeDeepest(cells', g)
  {
    var cells' := SetData(cells, b, data);
    assert cells'.Keys == cells.Keys && |cells'| == |cells'.Keys| && |cells| == |cells.Keys|;
    var x :| x in cells && cells[x].depth == g;
    assert x in cells' && cells'[x].depth == g;
  }
}
