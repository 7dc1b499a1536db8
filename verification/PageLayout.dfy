/**
 * The layout of a slotted table page: a slot directory that grows up, and tuples that grow down from the end of the
 * page and leave no gap.
 */
module PageLayout {
  import opened Common

  type byte = x: int | 0 <= x < 256

  const HEADER_SIZE := 24
  const SLOT_SIZE := 8

  // ----- 32-bit words, least significant byte first -----

  const INT_MIN := -0x8000_0000
  const INT_MAX := 0x7FFF_FFFF

  function Unsigned(v: int): int {
    if v < 0 then v + 0x1_0000_0000 else v
  }

  function Encode(v: int): (b: seq<byte>)
    requires INT_MIN <= v <= INT_MAX
    ensures |b| == 4
  {
    var u := Unsigned(v);
    [u % 256, u / 0x100 % 256, u / 0x1_0000 % 256, u / 0x100_0000]
  }

  function Decode(b: seq<byte>): int
    requires |b| == 4
  {
    var u: int := (b[0] as int) + 0x100 * (b[1] as int) + 0x1_0000 * (b[2] as int) + 0x100_0000 * (b[3] as int);
    if u > INT_MAX then u - 0x1_0000_0000 else u
  }

  lemma DecodeEncode(v: int)
    requires INT_MIN <= v <= INT_MAX
    ensures Decode(Encode(v)) == v
  {
    var u := Unsigned(v);
    assert u == u % 256 + 0x100 * (u / 0x100);
    assert u / 0x100 == u / 0x100 % 256 + 0x100 * (u / 0x1_0000);
    assert u / 0x1_0000 == u / 0x1_0000 % 256 + 0x100 * (u / 0x100_0000);
  }

  /** memcpy to a place in the page. */
  function Put(b: seq<byte>, at: nat, s: seq<byte>): (r: seq<byte>)
    requires at + |s| <= |b|
    ensures |r| == |b|
    ensures forall k :: 0 <= k < |b| ==> r[k] == if at <= k < at + |s| then s[k - at] else b[k]
  {
    b[..at] + s + b[at + |s|..]
  }

  ghost predicate IsPut(b: seq<byte>, b': seq<byte>, at: int, s: seq<byte>) {
    0 <= at && at + |s| <= |b| && b' == Put(b, at, s)
  }

  function Word(b: seq<byte>, at: nat): int
    requires at + 4 <= |b|
  {
    Decode(b[at..at + 4])
  }

  lemma WordPut(b: seq<byte>, at: nat, v: int, at': nat)
    requires at + 4 <= |b| && at' + 4 <= |b| && INT_MIN <= v <= INT_MAX && (at == at' || at + 4 <= at' || at' + 4 <= at)
    ensures Word(Put(b, at, Encode(v)), at') == if at == at' then v else Word(b, at')
  {
    var r := Put(b, at, Encode(v));
    if at == at' {
      assert r[at..at + 4] == Encode(v);
      DecodeEncode(v);
    } else {
      assert r[at'..at' + 4] == b[at'..at' + 4];
    }
  }

  /** Words before what is written keep their values. */
  lemma WordApart(b: seq<byte>, r: seq<byte>, at: nat)
    requires at + 4 <= |b| == |r| && forall k :: at <= k < at + 4 ==> r[k] == b[k]
    ensures Word(r, at) == Word(b, at)
  {
    assert r[at..at + 4] == b[at..at + 4];
  }

  // ----- the directory -----

  datatype Slot = Slot(offset: int, size: int)

  datatype Dir = Dir(fsp: int, slots: seq<Slot>)

  function SlotAt(b: seq<byte>, i: nat): Slot
    requires HEADER_SIZE + SLOT_SIZE * (i + 1) <= |b|
  {
    Slot(Word(b, HEADER_SIZE + SLOT_SIZE * i), Word(b, HEADER_SIZE + 4 + SLOT_SIZE * i))
  }

  ghost predicate HasDir(b: seq<byte>) {
    |b| == PAGE_SIZE && 0 <= Word(b, 20) && DirEnd(Word(b, 20)) <= PAGE_SIZE
  }

  function DirEnd(count: int): int {
    HEADER_SIZE + SLOT_SIZE * count
  }

  ghost function DirOf(b: seq<byte>): Dir
    requires HasDir(b)
  {
    Dir(Word(b, 16), seq(Word(b, 20), i requires 0 <= i < Word(b, 20) => SlotAt(b, i)))
  }

  // ----- cells -----

  /** What a slot stands for: nothing, a tuple, or a tuple marked as deleted. */
  datatype Cell = Free | Live(data: seq<byte>) | Marked(data: seq<byte>)

  function Abs(x: int): nat {
    if x < 0 then -x else x
  }

  ghost predicate InPage(slot: Slot) {
    0 <= slot.offset && slot.offset + Abs(slot.size) <= PAGE_SIZE
  }

  ghost function Bytes(slot: Slot, b: seq<byte>): seq<byte>
    requires |b| == PAGE_SIZE && InPage(slot)
  {
    b[slot.offset..slot.offset + Abs(slot.size)]
  }

  ghost function CellOf(slot: Slot, b: seq<byte>): Cell
    requires |b| == PAGE_SIZE
  {
    if slot.size == 0 || !InPage(slot) then Free
    else if slot.size > 0 then Live(Bytes(slot, b)) else Marked(Bytes(slot, b))
  }

  ghost function CellsOf(d: Dir, b: seq<byte>): (cells: seq<Cell>)
    requires |b| == PAGE_SIZE
    ensures |cells| == |d.slots|
  {
    seq(|d.slots|, i requires 0 <= i < |d.slots| => CellOf(d.slots[i], b))
  }

  // ----- tiling -----

  /** The length of the first k tuples in address order. */
  function Pos(slots: seq<Slot>, order: seq<nat>, k: nat): nat
    requires k <= |order| && forall j :: 0 <= j < |order| ==> order[j] < |slots|
  {
    if k == 0 then 0 else Pos(slots, order, k - 1) + Abs(slots[order[k - 1]].size)
  }

  ghost predicate Occurs(order: seq<nat>, i: nat) {
    exists k :: 0 <= k < |order| && order[k] == i
  }

  /** The order has each slot in use once. */
  ghost predicate Places(d: Dir, order: seq<nat>) {
    && (forall j {:trigger order[j]} :: 0 <= j < |order| ==> order[j] < |d.slots| && d.slots[order[j]].size != 0)
    && (forall j, k :: 0 <= j < k < |order| ==> order[j] != order[k])
    && (forall i: nat {:trigger Occurs(order, i)} :: i < |d.slots| && d.slots[i].size != 0 ==> Occurs(order, i))
  }

  lemma PositionOf(d: Dir, order: seq<nat>, i: nat) returns (k: nat)
    requires Places(d, order) && i < |d.slots| && d.slots[i].size != 0
    ensures k < |order| && order[k] == i
  {
    assert Occurs(order, i);
    k :| 0 <= k < |order| && order[k] == i;
  }

  /** The tuple of the k-th slot of the order lies behind those of the slots before. */
  ghost predicate PlacedAt(d: Dir, order: seq<nat>, k: nat)
    requires Places(d, order) && k < |order|
  {
    d.slots[order[k]].offset == d.fsp + Pos(d.slots, order, k)
  }

  /**
   * The tuples, those marked as deleted included, lie one behind the other in the given order of slots, from the free
   * space pointer to the end of the page, and the directory does not reach them.
   */
  ghost predicate Tiled(d: Dir, order: seq<nat>) {
    && Places(d, order)
    && DirEnd(|d.slots|) <= d.fsp
    && (forall k: nat {:trigger PlacedAt(d, order, k)} :: k < |order| ==> PlacedAt(d, order, k))
    && d.fsp + Pos(d.slots, order, |order|) == PAGE_SIZE
  }

  lemma {:induction false} PosGrows(slots: seq<Slot>, order: seq<nat>, j: nat, k: nat)
    requires j <= k <= |order| && forall x :: 0 <= x < |order| ==> order[x] < |slots|
    ensures Pos(slots, order, j) <= Pos(slots, order, k)
    ensures j < k ==> Pos(slots, order, j) + Abs(slots[order[j]].size) <= Pos(slots, order, k)
  {
    if j < k { PosGrows(slots, order, j, k - 1); }
  }

  /** Of two tuples, the one that comes first in address order ends before the other one starts. */
  lemma Apart(d: Dir, order: seq<nat>, j: nat, k: nat)
    requires Tiled(d, order) && j < k < |order|
    ensures d.slots[order[j]].offset + Abs(d.slots[order[j]].size) <= d.slots[order[k]].offset
  {
    assert PlacedAt(d, order, j) && PlacedAt(d, order, k);
    PosGrows(d.slots, order, j, k);
  }

  lemma Inside(d: Dir, order: seq<nat>, k: nat)
    requires Tiled(d, order) && k < |order|
    ensures InPage(d.slots[order[k]]) && d.fsp <= d.slots[order[k]].offset
  {
    assert PlacedAt(d, order, k);
    PosGrows(d.slots, order, k, |order|);
  }

  /** The tuples of two slots do not overlap. */
  lemma Disjoint(d: Dir, order: seq<nat>, i: nat, j: nat)
    requires Tiled(d, order) && i < |d.slots| && j < |d.slots| && i != j
    requires d.slots[i].size != 0 && d.slots[j].size != 0
    ensures d.slots[i].offset + Abs(d.slots[i].size) <= d.slots[j].offset
      || d.slots[j].offset + Abs(d.slots[j].size) <= d.slots[i].offset
  {
    var a := PositionOf(d, order, i);
    var b := PositionOf(d, order, j);
    if a < b { Apart(d, order, a, b); } else { Apart(d, order, b, a); }
  }

  /** Two slots in use: both lie in the tuple area, and one of them in front of the other. */
  lemma BothInside(d: Dir, order: seq<nat>, i: nat, j: nat)
    requires Tiled(d, order) && i < |d.slots| && j < |d.slots| && i != j
    requires d.slots[i].size != 0 && d.slots[j].size != 0
    ensures InPage(d.slots[i]) && d.fsp <= d.slots[i].offset
    ensures InPage(d.slots[j]) && d.fsp <= d.slots[j].offset
    ensures d.slots[i].offset + Abs(d.slots[i].size) <= d.slots[j].offset
      || d.slots[j].offset + Abs(d.slots[j].size) <= d.slots[i].offset
  {
    var a := PositionOf(d, order, i);
    var b := PositionOf(d, order, j);
    Inside(d, order, a);
    Inside(d, order, b);
    Disjoint(d, order, i, j);
  }

  /** The order has slots in use. */
  lemma InOrder(d: Dir, order: seq<nat>, p: nat)
    requires Tiled(d, order) && p < |order|
    ensures order[p] < |d.slots| && d.slots[order[p]].size != 0
  {
  }

  /** Sizes and order alone fix the positions. */
  lemma {:induction false} PosSame(slots: seq<Slot>, slots': seq<Slot>, order: seq<nat>, order': seq<nat>, k: nat)
    requires k <= |order| && k <= |order'|
    requires forall x :: 0 <= x < |order| ==> order[x] < |slots|
    requires forall x :: 0 <= x < |order'| ==> order'[x] < |slots'|
    requires forall x :: 0 <= x < k ==> order'[x] == order[x] && slots'[order[x]].size == slots[order[x]].size
    ensures Pos(slots', order', k) == Pos(slots, order, k)
  {
    if k > 0 { PosSame(slots, slots', order, order', k - 1); }
  }

  // ----- insertion -----

  function Inserted(d: Dir, i: nat, n: nat): Dir
    requires i <= |d.slots|
  {
    var slot := Slot(d.fsp - n, n);
    Dir(d.fsp - n, if i < |d.slots| then d.slots[i := slot] else d.slots + [slot])
  }

  function WithCell(cells: seq<Cell>, i: nat, c: Cell): seq<Cell>
    requires i <= |cells|
  {
    if i < |cells| then cells[i := c] else cells + [c]
  }

  /** The new tuple lies in front of all others. */
  lemma InsertedTiled(d: Dir, order: seq<nat>, i: nat, n: nat)
    requires Tiled(d, order) && n > 0 && i <= |d.slots| && (i < |d.slots| ==> d.slots[i].size == 0)
    requires DirEnd(if i < |d.slots| then |d.slots| else |d.slots| + 1) + n <= d.fsp
    ensures Tiled(Inserted(d, i, n), [i] + order)
  {
    var d', order' := Inserted(d, i, n), [i] + order;
    InsertedPlaces(d, order, i, n);
    hide Places;
    forall k: nat | k < |order'| ensures PlacedAt(d', order', k) {
      InsertedOffset(d, order, i, n, k);
    }
    PosBehind(d.slots, d'.slots, order, i, |order|);
  }

  lemma InsertedPlaces(d: Dir, order: seq<nat>, i: nat, n: nat)
    requires Places(d, order) && n > 0 && i <= |d.slots| && (i < |d.slots| ==> d.slots[i].size == 0)
    ensures Places(Inserted(d, i, n), [i] + order)
    ensures forall x :: 0 <= x < |order| ==> order[x] < |d.slots| && Inserted(d, i, n).slots[order[x]] == d.slots[order[x]]
  {
    var d', order' := Inserted(d, i, n), [i] + order;
    forall j: nat | j < |d'.slots| && d'.slots[j].size != 0 ensures Occurs(order', j) {
      if j == i {
        assert order'[0] == j;
      } else {
        var x := PositionOf(d, order, j);
        assert order'[x + 1] == j;
      }
    }
    assert forall x :: 0 <= x < |order| ==> d.slots[order[x]].size != 0;
  }

  lemma InsertedOffset(d: Dir, order: seq<nat>, i: nat, n: nat, k: nat)
    requires Tiled(d, order) && n > 0 && i <= |d.slots| && (i < |d.slots| ==> d.slots[i].size == 0) && k <= |order|
    ensures
      var d', order' := Inserted(d, i, n), [i] + order;
      Places(d', order') && PlacedAt(d', order', k)
  {
    var d', order' := Inserted(d, i, n), [i] + order;
    InsertedPlaces(d, order, i, n);
    if k > 0 {
      assert order'[k] == order[k - 1] && PlacedAt(d, order, k - 1);
      PosBehind(d.slots, d'.slots, order, i, k - 1);
    }
  }

  lemma {:induction false} PosBehind(slots: seq<Slot>, slots': seq<Slot>, order: seq<nat>, i: nat, k: nat)
    requires k <= |order| && i < |slots'| && |slots| <= |slots'|
    requires forall x :: 0 <= x < |order| ==> order[x] < |slots|
    requires forall x :: 0 <= x < |order| ==> slots'[order[x]].size == slots[order[x]].size
    ensures Pos(slots', [i] + order, k + 1) == Abs(slots'[i].size) + Pos(slots, order, k)
  {
    if k > 0 { PosBehind(slots, slots', order, i, k - 1); }
  }

  /** The same bytes, n further up. */
  lemma SliceMoved(b: seq<byte>, b': seq<byte>, from: int, len: nat, n: int)
    requires 0 <= from && from + len <= |b| == |b'| && 0 <= from + n && from + n + len <= |b'|
    requires forall k {:trigger b'[k]} :: from + n <= k < from + n + len ==> b'[k] == b[k - n]
    ensures b'[from + n..from + n + len] == b[from..from + len]
  {
    var s, s' := b[from..from + len], b'[from + n..from + n + len];
    assert forall x :: 0 <= x < len ==> s'[x] == b'[from + n + x] && s[x] == b[from + n + x - n];
  }

  /** Insertion leaves every other slot alone. */
  lemma InsertedCells(d: Dir, order: seq<nat>, i: nat, t: seq<byte>, b: seq<byte>, b': seq<byte>)
    requires Tiled(d, order) && t != [] && i <= |d.slots| && (i < |d.slots| ==> d.slots[i].size == 0)
    requires |b| == PAGE_SIZE == |b'| && DirEnd(|d.slots|) + |t| <= d.fsp <= PAGE_SIZE
    requires b'[d.fsp - |t|..d.fsp] == t && forall k :: d.fsp <= k < PAGE_SIZE ==> b'[k] == b[k]
    ensures CellsOf(Inserted(d, i, |t|), b') == WithCell(CellsOf(d, b), i, Live(t))
  {
    var d' := Inserted(d, i, |t|);
    forall j | 0 <= j < |d.slots| && j != i ensures CellOf(d'.slots[j], b') == CellOf(d.slots[j], b) {
      if d.slots[j].size != 0 { InsertedCell(d, order, j, b, b'); }
    }
    hide Tiled;
    assert Bytes(d'.slots[i], b') == t;
    assert CellOf(d'.slots[i], b') == Live(t);
  }

  lemma InsertedCell(d: Dir, order: seq<nat>, j: nat, b: seq<byte>, b': seq<byte>)
    requires Tiled(d, order) && j < |d.slots| && d.slots[j].size != 0
    requires |b| == PAGE_SIZE == |b'| && 0 <= d.fsp && forall k :: d.fsp <= k < PAGE_SIZE ==> b'[k] == b[k]
    ensures CellOf(d.slots[j], b') == CellOf(d.slots[j], b)
  {
    var k := PositionOf(d, order, j);
    Inside(d, order, k);
    SliceMoved(b, b', d.slots[j].offset, Abs(d.slots[j].size), 0);
  }

  // ----- deletion -----

  function Deleted(d: Dir, i: nat): Dir
    requires i < |d.slots|
  {
    var off, n := d.slots[i].offset, Abs(d.slots[i].size);
    Dir(d.fsp + n, seq(|d.slots|, j requires 0 <= j < |d.slots| =>
      if j == i then Slot(0, 0) else Closed(d.slots[j], off, n)))
  }

  /** A tuple in front of `off` moves up by n. */
  function Closed(slot: Slot, off: int, n: int): Slot {
    if slot.size != 0 && slot.offset < off then Slot(slot.offset + n, slot.size) else slot
  }

  function ClosedAll(slots: seq<Slot>, off: int, n: int): seq<Slot> {
    seq(|slots|, j requires 0 <= j < |slots| => Closed(slots[j], off, n))
  }

  lemma {:induction false} PosWithout(slots: seq<Slot>, slots': seq<Slot>, order: seq<nat>, p: nat, k: nat)
    requires p < |order| && p <= k < |order| && |slots'| == |slots|
    requires forall x :: 0 <= x < |order| ==> order[x] < |slots|
    requires forall x :: 0 <= x < |order| && x != p ==> slots'[order[x]].size == slots[order[x]].size
    ensures Pos(slots', Without(order, p), k) + Abs(slots[order[p]].size) == Pos(slots, order, k + 1)
  {
    var order' := Without(order, p);
    if k == p {
      PosSame(slots, slots', order, order', p);
    } else {
      PosWithout(slots, slots', order, p, k - 1);
      assert order'[k - 1] == order[k];
    }
  }

  /** Closing the gap that a tuple leaves. */
  lemma DeletedTiled(d: Dir, order: seq<nat>, p: nat)
    requires Tiled(d, order) && p < |order|
    ensures Tiled(Deleted(d, order[p]), Without(order, p))
  {
    hide Pos;
    var d', order' := Deleted(d, order[p]), Without(order, p);
    DeletedPlaces(d, order, p);
    forall k: nat | k < |order'| ensures PlacedAt(d', order', k) {
      DeletedOffset(d, order, p, k);
    }
    PosWithout(d.slots, d'.slots, order, p, |order| - 1);
  }

  lemma DeletedPlaces(d: Dir, order: seq<nat>, p: nat)
    requires Places(d, order) && p < |order|
    ensures Places(Deleted(d, order[p]), Without(order, p))
    ensures forall x :: 0 <= x < |order| ==> order[x] < |d.slots|
    ensures forall x :: 0 <= x < |order| && x != p ==> Deleted(d, order[p]).slots[order[x]].size == d.slots[order[x]].size
  {
    var d', order' := Deleted(d, order[p]), Without(order, p);
    assert forall x :: 0 <= x < |order'| ==> order'[x] == order[if x < p then x else x + 1];
    forall j: nat | j < |d'.slots| && d'.slots[j].size != 0 ensures Occurs(order', j) {
      var x := PositionOf(d, order, j);
      assert order'[if x < p then x else x - 1] == j;
    }
  }

  lemma DeletedOffset(d: Dir, order: seq<nat>, p: nat, k: nat)
    requires Tiled(d, order) && p < |order| && k < |order| - 1
    ensures
      var d', order' := Deleted(d, order[p]), Without(order, p);
      Places(d', order') && PlacedAt(d', order', k)
  {
    var d', order' := Deleted(d, order[p]), Without(order, p);
    DeletedPlaces(d, order, p);
    assert PlacedAt(d, order, if k < p then k else k + 1);
    if k < p {
      Apart(d, order, k, p);
      PosSame(d.slots, d'.slots, order, order', k);
    } else {
      Apart(d, order, p, k + 1);
      PosWithout(d.slots, d'.slots, order, p, k);
    }
  }

  /** What ApplyDelete's memmove does to the tuple area. */
  ghost predicate Compacted(b: seq<byte>, b': seq<byte>, fsp: int, off: int, n: nat) {
    && |b| == PAGE_SIZE == |b'|
    && (forall k {:trigger b'[k]} :: fsp + n <= k < off + n && 0 <= k - n < PAGE_SIZE && k < PAGE_SIZE ==>
        b'[k] == b[k - n])
    && (forall k {:trigger b'[k]} :: off + n <= k < PAGE_SIZE && 0 <= k ==> b'[k] == b[k])
  }

  lemma DeletedCells(d: Dir, order: seq<nat>, p: nat, b: seq<byte>, b': seq<byte>)
    requires Tiled(d, order) && p < |order|
    requires var slot := d.slots[order[p]]; Compacted(b, b', d.fsp, slot.offset, Abs(slot.size))
    ensures CellsOf(Deleted(d, order[p]), b') == CellsOf(d, b)[order[p] := Free]
  {
    var i := order[p];
    var d' := Deleted(d, i);
    forall j | 0 <= j < |d'.slots| && j != i ensures CellOf(d'.slots[j], b') == CellOf(d.slots[j], b) {
      if d.slots[j].size != 0 { DeletedCell(d, order, p, j, b, b'); }
    }
  }

  lemma DeletedCell(d: Dir, order: seq<nat>, p: nat, j: nat, b: seq<byte>, b': seq<byte>)
    requires Tiled(d, order) && p < |order| && j < |d.slots| && j != order[p] && d.slots[j].size != 0
    requires var slot := d.slots[order[p]]; Compacted(b, b', d.fsp, slot.offset, Abs(slot.size))
    ensures CellOf(Deleted(d, order[p]).slots[j], b') == CellOf(d.slots[j], b)
  {
    hide Tiled;
    InOrder(d, order, p);
    BothInside(d, order, order[p], j);
    var slot := d.slots[order[p]];
    SliceMoved(b, b', d.slots[j].offset, Abs(d.slots[j].size),
               if d.slots[j].offset < slot.offset then Abs(slot.size) else 0);
  }

  // ----- update -----

  function ShiftedAll(slots: seq<Slot>, bound: int, delta: int): seq<Slot> {
    seq(|slots|, j requires 0 <= j < |slots| => Shifted(slots[j], bound, delta))
  }

  function Updated(d: Dir, i: nat, n: nat): Dir
    requires i < |d.slots|
  {
    var Slot(off, size) := d.slots[i];
    var slots := d.slots[i := Slot(off, n)];
    Dir(d.fsp + (size - n), ShiftedAll(slots, off + size, size - n))
  }

  /** The loop at the end of UpdateTuple moves tuples in front of `bound`, but not those marked as deleted. */
  function Shifted(slot: Slot, bound: int, delta: int): Slot {
    if slot.size > 0 && slot.offset < bound then Slot(slot.offset + delta, slot.size) else slot
  }

  /** No tuple in front of slot i is marked as deleted. */
  ghost predicate NoMarkBelow(d: Dir, i: nat)
    requires i < |d.slots|
  {
    forall j :: 0 <= j < |d.slots| && d.slots[j].size < 0 ==> d.slots[j].offset >= d.slots[i].offset
  }

  ghost predicate Movable(d: Dir, i: nat, n: nat)
    requires i < |d.slots|
  {
    n == d.slots[i].size || NoMarkBelow(d, i)
  }

  /** In front of the updated tuple, slots are where they should be exactly if they are moved. */
  lemma UpdatedOffset(d: Dir, order: seq<nat>, p: nat, n: nat, k: nat)
    requires Tiled(d, order) && p < |order| && k < |order| && d.slots[order[p]].size > 0 && n > 0
    ensures Places(Updated(d, order[p], n), order)
    ensures PlacedAt(Updated(d, order[p], n), order, k) <==>
      n == d.slots[order[p]].size || k >= p || d.slots[order[k]].size > 0
  {
    var i := order[p];
    var d' := Updated(d, i, n);
    assert PlacedAt(d, order, k) && PlacedAt(d, order, p);
    UpdatedPlaces(d, order, p, n);
    if k <= p {
      if k < p { Apart(d, order, k, p); }
      PosSame(d.slots, d'.slots, order, order, k);
    } else {
      Apart(d, order, p, k);
      PosUpdated(d.slots, d'.slots, order, p, k);
    }
  }

  lemma UpdatedPlaces(d: Dir, order: seq<nat>, p: nat, n: nat)
    requires Places(d, order) && p < |order| && d.slots[order[p]].size > 0 && n > 0
    ensures Places(Updated(d, order[p], n), order)
    ensures forall x :: 0 <= x < |order| ==> order[x] < |d.slots|
    ensures forall x :: 0 <= x < |order| && x != p ==>
        Updated(d, order[p], n).slots[order[x]].size == d.slots[order[x]].size
  {
    var d' := Updated(d, order[p], n);
    forall j: nat | j < |d'.slots| && d'.slots[j].size != 0 ensures Occurs(order, j) {
      var x := PositionOf(d, order, j);
    }
  }

  lemma {:induction false} PosUpdated(slots: seq<Slot>, slots': seq<Slot>, order: seq<nat>, p: nat, k: nat)
    requires p < k <= |order| && |slots'| == |slots| && forall x :: 0 <= x < |order| ==> order[x] < |slots|
    requires forall x :: 0 <= x < |order| && x != p ==> slots'[order[x]].size == slots[order[x]].size
    ensures Pos(slots', order, k) == Pos(slots, order, k) - Abs(slots[order[p]].size) + Abs(slots'[order[p]].size)
  {
    if k == p + 1 {
      PosSame(slots, slots', order, order, p);
    } else {
      PosUpdated(slots, slots', order, p, k - 1);
    }
  }

  /** UpdateTuple keeps the tiling, in the same order of slots, if the tuples in front can be moved. */
  lemma UpdatedTiled(d: Dir, order: seq<nat>, p: nat, n: nat)
    requires Tiled(d, order) && p < |order| && d.slots[order[p]].size > 0 && n > 0
    requires DirEnd(|d.slots|) + n <= d.fsp + d.slots[order[p]].size && Movable(d, order[p], n)
    ensures Tiled(Updated(d, order[p], n), order)
  {
    var d' := Updated(d, order[p], n);
    UpdatedPlaces(d, order, p, n);
    PosUpdated(d.slots, d'.slots, order, p, |order|);
    forall k: nat | k < |order| ensures PlacedAt(d', order, k) {
      UpdatedOffset(d, order, p, n, k);
      if k < p { Apart(d, order, k, p); }
    }
  }

  /** The offsets of free slots do not matter. */
  lemma OnlyUsedSlots(d: Dir, d': Dir, order: seq<nat>)
    requires Tiled(d, order) && d'.fsp == d.fsp && |d'.slots| == |d.slots|
    requires forall j :: 0 <= j < |d.slots| ==> d'.slots[j].size == d.slots[j].size
    requires forall j :: 0 <= j < |d.slots| && d.slots[j].size != 0 ==> d'.slots[j] == d.slots[j]
    ensures Tiled(d', order)
  {
    forall j: nat | j < |d'.slots| && d'.slots[j].size != 0 ensures Occurs(order, j) {
      var x := PositionOf(d, order, j);
    }
    PosSame(d.slots, d'.slots, order, order, |order|);
    forall k: nat | k < |order| ensures PlacedAt(d', order, k) {
      assert PlacedAt(d, order, k);
      PosSame(d.slots, d'.slots, order, order, k);
    }
  }

  /** An empty tuple frees its slot. */
  lemma UpdatedEmptyTiled(d: Dir, order: seq<nat>, p: nat)
    requires Tiled(d, order) && p < |order| && d.slots[order[p]].size > 0 && NoMarkBelow(d, order[p])
    ensures Tiled(Updated(d, order[p], 0), Without(order, p))
  {
    var d1, d', order' := Deleted(d, order[p]), Updated(d, order[p], 0), Without(order, p);
    DeletedTiled(d, order, p);
    forall j: nat | j < |d.slots| && j != order[p] && d.slots[j].size != 0 ensures d'.slots[j] == d1.slots[j] {
      var k := PositionOf(d, order, j);
      if k < p { Apart(d, order, k, p); } else { Apart(d, order, p, k); }
    }
    OnlyUsedSlots(d1, d', order');
  }

  /** Every byte of the first k tuples belongs to one of them. */
  lemma {:induction false} Covered(slots: seq<Slot>, order: seq<nat>, k: nat, x: nat) returns (j: nat)
    requires k <= |order| && forall i :: 0 <= i < |order| ==> order[i] < |slots|
    requires x < Pos(slots, order, k)
    ensures j < k && Pos(slots, order, j) <= x < Pos(slots, order, j) + Abs(slots[order[j]].size)
  {
    if x < Pos(slots, order, k - 1) { j := Covered(slots, order, k - 1, x); } else { j := k - 1; }
  }

  /** The first tuple in address order that is marked as deleted. */
  lemma FirstMark(d: Dir, order: seq<nat>, k: nat) returns (j: nat)
    requires Places(d, order) && k < |order| && d.slots[order[k]].size < 0
    ensures j <= k && d.slots[order[j]].size < 0 && forall x :: 0 <= x < j ==> d.slots[order[x]].size > 0
  {
    j := 0;
    while d.slots[order[j]].size > 0
      invariant j <= k && forall x :: 0 <= x < j ==> d.slots[order[x]].size > 0
      decreases k - j
    {
      j := j + 1;
    }
  }

  /** A shorter tuple behind the first marked one: the tuples in front move over the marked one, or the pointer does. */
  lemma ShorterRunsOver(d: Dir, order: seq<nat>, p: nat, n: nat, m: nat) returns (k: nat)
    requires Tiled(d, order) && m < p < |order| && n < d.slots[order[p]].size
    requires d.slots[order[m]].size < 0 && forall x :: 0 <= x < m ==> d.slots[order[x]].size > 0
    ensures
      var d' := Updated(d, order[p], n);
      var marked := d'.slots[order[m]];
      && marked == d.slots[order[m]]
      && (d'.fsp <= marked.offset ==>
            && k < m && order[k] < |d'.slots| && order[k] != order[m]
            && var slot := d'.slots[order[k]];
            slot.size != 0 && slot.offset <= marked.offset < slot.offset + Abs(slot.size))
  {
    var delta := d.slots[order[p]].size - n;
    assert PlacedAt(d, order, m);
    k := 0;
    if Pos(d.slots, order, m) >= delta {
      k := Covered(d.slots, order, m, Pos(d.slots, order, m) - delta);
      assert PlacedAt(d, order, k);
      Apart(d, order, k, p);
    }
  }

  lemma ShorterIsNotTiled(d: Dir, order: seq<nat>, p: nat, n: nat, m: nat, order': seq<nat>)
    requires Tiled(d, order) && m < p < |order| && n < d.slots[order[p]].size
    requires d.slots[order[m]].size < 0 && forall x :: 0 <= x < m ==> d.slots[order[x]].size > 0
    ensures !Tiled(Updated(d, order[p], n), order')
  {
    var d' := Updated(d, order[p], n);
    var k := ShorterRunsOver(d, order, p, n, m);
    if Tiled(d', order') {
      var j := PositionOf(d', order', order[m]);
      Inside(d', order', j);
      Disjoint(d', order', order[k], order[m]);
    }
  }

  /** A longer tuple behind a marked one: the tuples in front leave a gap in front of the marked one. */
  lemma LongerIsNotTiled(d: Dir, order: seq<nat>, p: nat, n: nat, m: nat, order': seq<nat>)
    requires Tiled(d, order) && m < p < |order| && n > d.slots[order[p]].size > 0
    requires d.slots[order[m]].size < 0 && forall x :: 0 <= x < m ==> d.slots[order[x]].size > 0
    ensures !Tiled(Updated(d, order[p], n), order')
  {
    var d' := Updated(d, order[p], n);
    var gap := Pos(d.slots, order, m);
    assert PlacedAt(d, order, m);
    Inside(d, order, m);
    if Tiled(d', order') {
      var j := Covered(d'.slots, order', |order'|, gap);
      assert PlacedAt(d', order', j);
      var k := PositionOf(d, order, order'[j]);
      GapStays(d, order, p, n, m, k);
    }
  }

  /** After the update no tuple lies over the byte where the first marked one used to follow. */
  lemma GapStays(d: Dir, order: seq<nat>, p: nat, n: nat, m: nat, k: nat)
    requires Tiled(d, order) && m < p < |order| && k < |order| && n > d.slots[order[p]].size > 0
    requires d.slots[order[m]].size < 0 && forall x :: 0 <= x < m ==> d.slots[order[x]].size > 0
    ensures
      var d' := Updated(d, order[p], n);
      var slot, gap := d'.slots[order[k]], d'.fsp + Pos(d.slots, order, m);
      slot.offset + Abs(slot.size) <= gap || gap < slot.offset
  {
    assert PlacedAt(d, order, k) && PlacedAt(d, order, p) && PlacedAt(d, order, m);
    if k < m {
      PosGrows(d.slots, order, k, m);
      PosGrows(d.slots, order, m, p);
    } else if k < p {
      PosGrows(d.slots, order, m, k);
      PosGrows(d.slots, order, k, p);
    } else {
      PosGrows(d.slots, order, m, p);
      PosGrows(d.slots, order, p, k);
    }
  }

  /**
   * UpdateTuple leaves a sound page, in whatever order of slots, exactly if the length stays the same or no tuple in
   * front is marked as deleted: otherwise the bytes of a marked tuple move, and its slot does not follow.
   */
  lemma UpdatedTiledIff(d: Dir, order: seq<nat>, p: nat, n: nat)
    requires Tiled(d, order) && p < |order| && d.slots[order[p]].size > 0
    requires DirEnd(|d.slots|) + n <= d.fsp + d.slots[order[p]].size
    ensures (exists order' :: Tiled(Updated(d, order[p], n), order')) <==> Movable(d, order[p], n)
  {
    var i := order[p];
    if Movable(d, i, n) {
      if n == 0 { UpdatedEmptyTiled(d, order, p); } else { UpdatedTiled(d, order, p, n); }
    } else {
      var j: nat :| j < |d.slots| && d.slots[j].size < 0 && d.slots[j].offset < d.slots[i].offset;
      var k := PositionOf(d, order, j);
      if k >= p { if k > p { Apart(d, order, p, k); } }
      var m := FirstMark(d, order, k);
      forall order' ensures !Tiled(Updated(d, i, n), order') {
        if Tiled(Updated(d, i, n), order') {
          if n < d.slots[i].size {
            ShorterIsNotTiled(d, order, p, n, m, order');
          } else {
            LongerIsNotTiled(d, order, p, n, m, order');
          }
        }
      }
    }
  }

  /** What UpdateTuple's memmove and memcpy do to the bytes behind the `count` slots of the directory. */
  ghost predicate Replaced(b: seq<byte>, b': seq<byte>, count: nat, fsp: int, off: int, size: int, t: seq<byte>) {
    && |b| == PAGE_SIZE == |b'| && 0 <= fsp && 0 <= fsp + size - |t| && fsp <= off && 0 <= size && off + size <= PAGE_SIZE
    && (forall k {:trigger b'[k]} :: 0 <= DirEnd(count) <= k < fsp + size - |t| ==> b'[k] == b[k])
    && (forall k {:trigger b'[k]} :: fsp + size - |t| <= k < off + size - |t| ==> b'[k] == b[k - size + |t|])
    && b'[off + size - |t|..off + size] == t
    && (forall k {:trigger b'[k]} :: off + size <= k < PAGE_SIZE ==> b'[k] == b[k])
  }

  /** Slot j keeps its tuple when slot i is updated: only marks in front do not, if the length changes. */
  ghost predicate Follows(d: Dir, i: nat, j: nat, n: nat)
    requires i < |d.slots| && j < |d.slots|
  {
    n == d.slots[i].size || d.slots[j].size >= 0 || d.slots[j].offset >= d.slots[i].offset
  }

  /** From the cells c of a page with directory d to c', slot i has got tuple t, and all slots that follow have stayed. */
  ghost predicate OneUpdated(d: Dir, c: seq<Cell>, c': seq<Cell>, i: nat, t: seq<byte>) {
    && |c'| == |c| == |d.slots| && i < |c| && c'[i] == (if t == [] then Free else Live(t))
    && forall j :: 0 <= j < |c| && j != i && Follows(d, i, j, |t|) ==> c'[j] == c[j]
  }

  lemma UpdatedCell(d: Dir, order: seq<nat>, p: nat, j: nat, t: seq<byte>, b: seq<byte>, b': seq<byte>)
    requires Tiled(d, order) && p < |order| && j < |d.slots| && j != order[p] && d.slots[j].size != 0
    requires d.slots[order[p]].size > 0 && Follows(d, order[p], j, |t|)
    requires Replaced(b, b', |d.slots|, d.fsp, d.slots[order[p]].offset, d.slots[order[p]].size, t)
    ensures CellOf(Updated(d, order[p], |t|).slots[j], b') == CellOf(d.slots[j], b)
  {
    hide Tiled;
    InOrder(d, order, p);
    BothInside(d, order, order[p], j);
    var slot := d.slots[order[p]];
    SliceMoved(b, b', d.slots[j].offset, Abs(d.slots[j].size),
               if d.slots[j].offset < slot.offset then slot.size - |t| else 0);
  }

  /** Whatever is marked, the slot stands for the new tuple, and all slots that follow for what they stood for. */
  lemma UpdatedFollow(d: Dir, order: seq<nat>, p: nat, t: seq<byte>, b: seq<byte>, b': seq<byte>)
    requires Tiled(d, order) && p < |order| && d.slots[order[p]].size > 0
    requires Replaced(b, b', |d.slots|, d.fsp, d.slots[order[p]].offset, d.slots[order[p]].size, t)
    ensures
      OneUpdated(d, CellsOf(d, b), CellsOf(Updated(d, order[p], |t|), b'), order[p], t)
  {
    var i := order[p];
    var d' := Updated(d, i, |t|);
    forall j | 0 <= j < |d'.slots| && j != i && Follows(d, i, j, |t|) ensures CellOf(d'.slots[j], b') == CellOf(d.slots[j], b) {
      if d.slots[j].size != 0 { UpdatedCell(d, order, p, j, t, b, b'); }
    }
    hide Tiled, Places;
    if t != [] { assert Bytes(d'.slots[i], b') == t; }
  }

  lemma UpdatedCells(d: Dir, order: seq<nat>, p: nat, t: seq<byte>, b: seq<byte>, b': seq<byte>)
    requires Tiled(d, order) && p < |order| && d.slots[order[p]].size > 0 && Movable(d, order[p], |t|)
    requires Replaced(b, b', |d.slots|, d.fsp, d.slots[order[p]].offset, d.slots[order[p]].size, t)
    ensures CellsOf(Updated(d, order[p], |t|), b') == CellsOf(d, b)[order[p] := if t == [] then Free else Live(t)]
  {
    hide Tiled, Updated, CellsOf, Replaced;
    UpdatedFollow(d, order, p, t, b, b');
    forall j: nat | j < |d.slots| ensures Follows(d, order[p], j, |t|) {}
  }

  // ----- marks -----

  /** Only the sign of a size changes. */
  lemma MarkedTiled(d: Dir, order: seq<nat>, i: nat)
    requires Tiled(d, order) && i < |d.slots|
    ensures Tiled(d.(slots := d.slots[i := d.slots[i].(size := -d.slots[i].size)]), order)
  {
    var d' := d.(slots := d.slots[i := d.slots[i].(size := -d.slots[i].size)]);
    forall j: nat | j < |d'.slots| && d'.slots[j].size != 0 ensures Occurs(order, j) {
      var x := PositionOf(d, order, j);
    }
    assert Places(d', order);
    forall k: nat | k <= |order| ensures Pos(d'.slots, order, k) == Pos(d.slots, order, k) {
      PosSigned(d.slots, d'.slots, order, k);
    }
    forall k: nat | k < |order| ensures PlacedAt(d', order, k) {
      assert PlacedAt(d, order, k);
    }
  }

  lemma {:induction false} PosSigned(slots: seq<Slot>, slots': seq<Slot>, order: seq<nat>, k: nat)
    requires k <= |order| && |slots'| == |slots| && forall x :: 0 <= x < |order| ==> order[x] < |slots|
    requires forall j :: 0 <= j < |slots| ==> Abs(slots'[j].size) == Abs(slots[j].size)
    ensures Pos(slots', order, k) == Pos(slots, order, k)
  {
    if k > 0 { PosSigned(slots, slots', order, k - 1); }
  }

  // ----- what the cells tell about the layout -----

  function SizeOf(c: Cell): nat {
    if c.Free? then 0 else |c.data|
  }

  /** The bytes of the first k tuples. */
  function Used(cells: seq<Cell>, order: seq<nat>, k: nat): nat
    requires k <= |order| && forall j :: 0 <= j < |order| ==> order[j] < |cells|
  {
    if k == 0 then 0 else Used(cells, order, k - 1) + SizeOf(cells[order[k - 1]])
  }

  /** No tuple in front of slot i is marked as deleted. */
  ghost predicate NoMarkBefore(cells: seq<Cell>, order: seq<nat>, i: nat) {
    forall j, k :: 0 <= j < k < |order| && order[k] == i && order[j] < |cells| ==> !cells[order[j]].Marked?
  }

  lemma {:induction false} UsedIsPos(d: Dir, order: seq<nat>, b: seq<byte>, k: nat)
    requires Tiled(d, order) && |b| == PAGE_SIZE && k <= |order|
    ensures Used(CellsOf(d, b), order, k) == Pos(d.slots, order, k)
  {
    if k > 0 {
      UsedIsPos(d, order, b, k - 1);
      InOrder(d, order, k - 1);
      CellKind(d, order, b, order[k - 1]);
    }
  }

  /** The tuples fill the page from the free space pointer on. */
  lemma PointerIs(d: Dir, order: seq<nat>, b: seq<byte>)
    requires Tiled(d, order) && |b| == PAGE_SIZE
    ensures forall j :: 0 <= j < |order| ==> order[j] < |d.slots|
    ensures d.fsp == PAGE_SIZE - Used(CellsOf(d, b), order, |order|)
  {
    UsedIsPos(d, order, b, |order|);
  }

  lemma MarkBefore(d: Dir, order: seq<nat>, b: seq<byte>, i: nat)
    requires Tiled(d, order) && |b| == PAGE_SIZE && i < |d.slots| && d.slots[i].size != 0
    ensures NoMarkBelow(d, i) <==> NoMarkBefore(CellsOf(d, b), order, i)
  {
    var p := PositionOf(d, order, i);
    if NoMarkBelow(d, i) {
      forall j, k | 0 <= j < k < |order| && order[k] == i && order[j] < |d.slots|
        ensures !CellsOf(d, b)[order[j]].Marked?
      {
        InOrder(d, order, j);
        Apart(d, order, j, k);
        CellKind(d, order, b, order[j]);
      }
    }
    if NoMarkBefore(CellsOf(d, b), order, i) {
      forall j: nat | j < |d.slots| && d.slots[j].size < 0 ensures d.slots[j].offset >= d.slots[i].offset {
        var q := PositionOf(d, order, j);
        CellKind(d, order, b, j);
        if q > p { Apart(d, order, p, q); }
      }
    }
  }

  // ----- writing the directory -----

  /** The page header proper, and what is behind `count` slots of the directory, stay. */
  ghost predicate AreaSame(b: seq<byte>, b': seq<byte>, count: nat) {
    |b'| == |b| && forall k {:trigger b'[k]} :: 0 <= k < |b| && (k < 16 || DirEnd(count) <= k) ==> b'[k] == b[k]
  }

  lemma HeaderSame(b: seq<byte>, b': seq<byte>, count: nat)
    requires AreaSame(b, b', count) && |b| == PAGE_SIZE
    ensures |b'| == PAGE_SIZE && b'[..16] == b[..16]
  {
  }

  lemma InsertedIs(d: Dir, i: nat, n: nat)
    requires i <= |d.slots|
    ensures
      var slot := Slot(d.fsp - n, n);
      Inserted(d, i, n) == Dir(d.fsp - n, if i < |d.slots| then d.slots[i := slot] else d.slots + [slot])
  {
  }

  /** Whatever is written behind the directory, the directory stays. */
  lemma DirKept(b: seq<byte>, b': seq<byte>)
    requires HasDir(b) && |b'| == |b| && forall k :: 0 <= k < DirEnd(Word(b, 20)) ==> b'[k] == b[k]
    ensures HasDir(b') && DirOf(b') == DirOf(b)
  {
    WordApart(b, b', 16);
    WordApart(b, b', 20);
    forall i: nat | i < Word(b, 20) ensures SlotAt(b', i) == SlotAt(b, i) {
      WordApart(b, b', HEADER_SIZE + SLOT_SIZE * i);
      WordApart(b, b', HEADER_SIZE + 4 + SLOT_SIZE * i);
    }
  }

  lemma PutFsp(b: seq<byte>, v: int)
    requires HasDir(b) && INT_MIN <= v <= INT_MAX
    ensures HasDir(Put(b, 16, Encode(v))) && DirOf(Put(b, 16, Encode(v))) == DirOf(b).(fsp := v)
  {
    var b' := Put(b, 16, Encode(v));
    WordPut(b, 16, v, 16);
    WordPut(b, 16, v, 20);
    forall i: nat | i < Word(b, 20) ensures SlotAt(b', i) == SlotAt(b, i) {
      WordPut(b, 16, v, HEADER_SIZE + SLOT_SIZE * i);
      WordPut(b, 16, v, HEADER_SIZE + 4 + SLOT_SIZE * i);
    }
  }

  /** Writing one of the words in front of the free space pointer. */
  lemma PutHeader(b: seq<byte>, order: seq<nat>, at: nat, v: int)
    requires HasDir(b) && Tiled(DirOf(b), order) && at + 4 <= 16 && INT_MIN <= v <= INT_MAX
    ensures
      var b' := Put(b, at, Encode(v));
      HasDir(b') && DirOf(b') == DirOf(b) && CellsOf(DirOf(b'), b') == CellsOf(DirOf(b), b)
  {
    var b' := Put(b, at, Encode(v));
    WordPut(b, at, v, 16);
    WordPut(b, at, v, 20);
    forall i: nat | i < Word(b, 20) ensures SlotAt(b', i) == SlotAt(b, i) {
      WordPut(b, at, v, HEADER_SIZE + SLOT_SIZE * i);
      WordPut(b, at, v, HEADER_SIZE + 4 + SLOT_SIZE * i);
    }
    assert DirOf(b') == DirOf(b);
    SameTuples(DirOf(b), order, b, b');
  }

  lemma SameTuples(d: Dir, order: seq<nat>, b: seq<byte>, b': seq<byte>)
    requires Tiled(d, order) && |b| == PAGE_SIZE == |b'|
    requires forall k {:trigger b'[k]} :: DirEnd(|d.slots|) <= k < PAGE_SIZE ==> b'[k] == b[k]
    ensures CellsOf(d, b') == CellsOf(d, b)
  {
    forall j: nat | j < |d.slots| && d.slots[j].size != 0 ensures InPage(d.slots[j])
      && Bytes(d.slots[j], b') == Bytes(d.slots[j], b) {
      CellKind(d, order, b, j);
      SliceMoved(b, b', d.slots[j].offset, Abs(d.slots[j].size), 0);
    }
  }

  /** Writing one of the two words of slot i. */
  lemma PutSlotWord(b: seq<byte>, i: nat, v: int, isSize: bool)
    requires |b| == PAGE_SIZE && INT_MIN <= v <= INT_MAX && DirEnd(i + 1) <= PAGE_SIZE
    ensures
      var b' := Put(b, HEADER_SIZE + SLOT_SIZE * i + (if isSize then 4 else 0), Encode(v));
      && Word(b', 16) == Word(b, 16) && Word(b', 20) == Word(b, 20)
      && SlotAt(b', i) == (if isSize then SlotAt(b, i).(size := v) else SlotAt(b, i).(offset := v))
      && forall j: nat {:trigger SlotAt(b', j)} :: DirEnd(j + 1) <= PAGE_SIZE && j != i ==> SlotAt(b', j) == SlotAt(b, j)
  {
    var at := HEADER_SIZE + SLOT_SIZE * i + if isSize then 4 else 0;
    var b' := Put(b, at, Encode(v));
    WordPut(b, at, v, 16);
    WordPut(b, at, v, 20);
    forall j: nat | DirEnd(j + 1) <= PAGE_SIZE
      ensures SlotAt(b', j) == if j != i then SlotAt(b, j)
                               else if isSize then SlotAt(b, i).(size := v) else SlotAt(b, i).(offset := v)
    {
      WordPut(b, at, v, HEADER_SIZE + SLOT_SIZE * j);
      WordPut(b, at, v, HEADER_SIZE + 4 + SLOT_SIZE * j);
    }
  }

  lemma PutOffset(b: seq<byte>, i: nat, v: int)
    requires HasDir(b) && i < Word(b, 20) && INT_MIN <= v <= INT_MAX
    ensures
      var b' := Put(b, HEADER_SIZE + SLOT_SIZE * i, Encode(v));
      HasDir(b') && DirOf(b') == DirOf(b).(slots := DirOf(b).slots[i := DirOf(b).slots[i].(offset := v)])
  {
    PutSlotWord(b, i, v, false);
    var b' := Put(b, HEADER_SIZE + SLOT_SIZE * i, Encode(v));
    assert DirOf(b').slots == DirOf(b).slots[i := DirOf(b).slots[i].(offset := v)];
  }

  lemma PutSize(b: seq<byte>, i: nat, v: int)
    requires HasDir(b) && i < Word(b, 20) && INT_MIN <= v <= INT_MAX
    ensures
      var b' := Put(b, HEADER_SIZE + 4 + SLOT_SIZE * i, Encode(v));
      HasDir(b') && DirOf(b') == DirOf(b).(slots := DirOf(b).slots[i := DirOf(b).slots[i].(size := v)])
  {
    PutSlotWord(b, i, v, true);
    var b' := Put(b, HEADER_SIZE + 4 + SLOT_SIZE * i, Encode(v));
    assert DirOf(b').slots == DirOf(b).slots[i := DirOf(b).slots[i].(size := v)];
  }

  /** A slot behind the last one, and then the tuple count. */
  lemma PutCount(b: seq<byte>, n: nat)
    requires HasDir(b) && n == Word(b, 20) + 1 && DirEnd(n) <= PAGE_SIZE
    ensures
      var b' := Put(b, 20, Encode(n));
      HasDir(b') && DirOf(b') == DirOf(b).(slots := DirOf(b).slots + [SlotAt(b, n - 1)])
  {
    var b' := Put(b, 20, Encode(n));
    WordPut(b, 20, n, 16);
    WordPut(b, 20, n, 20);
    forall j: nat | DirEnd(j + 1) <= PAGE_SIZE ensures SlotAt(b', j) == SlotAt(b, j) {
      WordPut(b, 20, n, HEADER_SIZE + SLOT_SIZE * j);
      WordPut(b, 20, n, HEADER_SIZE + 4 + SLOT_SIZE * j);
    }
    assert DirOf(b').slots == DirOf(b).slots + [SlotAt(b, n - 1)];
  }

  /** The cell of a slot tells the sign of its size, and has its bytes. */
  lemma CellKind(d: Dir, order: seq<nat>, b: seq<byte>, i: nat)
    requires Tiled(d, order) && |b| == PAGE_SIZE && i < |d.slots|
    ensures
      var slot, c := d.slots[i], CellsOf(d, b)[i];
      && (slot.size == 0 <==> c.Free?) && (slot.size > 0 <==> c.Live?) && (slot.size < 0 <==> c.Marked?)
      && (slot.size != 0 ==> InPage(slot) && DirEnd(|d.slots|) <= d.fsp <= slot.offset && c.data == Bytes(slot, b))
  {
    if d.slots[i].size != 0 {
      var k := PositionOf(d, order, i);
      Inside(d, order, k);
    }
  }

  /** The first free cell, or the number of cells. */
  function FirstFree(cells: seq<Cell>): (i: nat)
    ensures i <= |cells| && (i < |cells| ==> cells[i].Free?) && forall j :: 0 <= j < i ==> !cells[j].Free?
  {
    if cells == [] || cells[0].Free? then 0 else FirstFree(cells[1..]) + 1
  }

  /** The cell of a slot whose size changes its sign. */
  function Flipped(c: Cell): Cell {
    match c
    case Free => Free
    case Live(x) => Marked(x)
    case Marked(x) => Live(x)
  }

  /** Changing the sign of a size, and nothing in the tuple area. */
  lemma FlippedCells(d: Dir, order: seq<nat>, i: nat, b: seq<byte>, b': seq<byte>)
    requires Tiled(d, order) && i < |d.slots| && |b| == PAGE_SIZE == |b'|
    requires AreaSame(b, b', |d.slots|)
    ensures
      var d' := d.(slots := d.slots[i := d.slots[i].(size := -d.slots[i].size)]);
      CellsOf(d', b') == CellsOf(d, b)[i := Flipped(CellsOf(d, b)[i])]
  {
    var d' := d.(slots := d.slots[i := d.slots[i].(size := -d.slots[i].size)]);
    forall j: nat | j < |d.slots| && d.slots[j].size != 0 ensures InPage(d.slots[j])
      && Bytes(d.slots[j], b') == Bytes(d.slots[j], b) {
      CellKind(d, order, b, j);
      SliceMoved(b, b', d.slots[j].offset, Abs(d.slots[j].size), 0);
    }
  }

  lemma PositionIn(d: Dir, order: seq<nat>, i: nat) returns (k: nat)
    requires Tiled(d, order) && i < |d.slots| && d.slots[i].size != 0
    ensures k < |order| && order[k] == i
  {
    k := PositionOf(d, order, i);
  }

  lemma OrderDistinct(d: Dir, order: seq<nat>)
    requires Tiled(d, order)
    ensures Distinct(order)
  {
  }

  lemma OffsetsInPage(d: Dir, order: seq<nat>)
    requires Tiled(d, order)
    ensures forall j :: 0 <= j < |d.slots| && d.slots[j].size != 0 ==> 0 <= d.slots[j].offset <= PAGE_SIZE
  {
    forall j: nat | j < |d.slots| && d.slots[j].size != 0 ensures 0 <= d.slots[j].offset <= PAGE_SIZE {
      var k := PositionOf(d, order, j);
      Inside(d, order, k);
    }
  }

  /** The memmove of ApplyDelete, and then changes in front of the tuple area only. */
  lemma MovedIsCompacted(b: seq<byte>, b1: seq<byte>, b': seq<byte>, count: nat, fsp: nat, off: nat, n: nat)
    requires |b| == PAGE_SIZE && DirEnd(count) <= fsp <= off && off + n <= PAGE_SIZE
    requires IsPut(b, b1, fsp + n, b[fsp..fsp + (off - fsp)])
    requires AreaSame(b1, b', count)
    ensures Compacted(b, b', fsp, off, n) && b'[..16] == b[..16]
  {
  }

  /** The moves of UpdateTuple, with changes in front of the tuple area between and after them. */
  lemma MovedIsReplaced(b: seq<byte>, b1: seq<byte>, b2: seq<byte>, b3: seq<byte>, b': seq<byte>, count: nat,
                        fsp: nat, off: nat, size: nat, delta: int, t: seq<byte>)
    requires |b| == PAGE_SIZE && DirEnd(count) <= fsp <= off && off + size <= PAGE_SIZE
    requires DirEnd(count) + |t| <= fsp + size && delta == size - |t|
    requires IsPut(b, b1, fsp + delta, b[fsp..fsp + (off - fsp)])
    requires AreaSame(b1, b2, 0)
    requires IsPut(b2, b3, off + delta, t)
    requires AreaSame(b3, b', count)
    ensures Replaced(b, b', count, fsp, off, size, t) && b'[..16] == b[..16]
  {
    forall k {:trigger b'[k]} | off + delta <= k < off + size ensures b'[k] == t[k - off - delta] {
      assert b3[k] == t[k - off - delta];
    }
  }

  /** For a tuple of another length only the absence of marks helps. */
  lemma EmptyNeedsNoMark(d: Dir, i: nat)
    requires i < |d.slots| && d.slots[i].size > 0 && Movable(d, i, 0)
    ensures NoMarkBelow(d, i)
  {
  }

  lemma FspInPage(d: Dir, order: seq<nat>)
    requires Tiled(d, order)
    ensures DirEnd(|d.slots|) <= d.fsp <= PAGE_SIZE
  {
  }

  /** A slot behind the last one is not in the directory yet. */
  lemma NewSlotKeepsDir(b: seq<byte>, i: nat, v: int, isSize: bool)
    requires HasDir(b) && i == Word(b, 20) && DirEnd(i + 1) <= PAGE_SIZE && INT_MIN <= v <= INT_MAX
    ensures
      var b' := Put(b, HEADER_SIZE + SLOT_SIZE * i + (if isSize then 4 else 0), Encode(v));
      HasDir(b') && DirOf(b') == DirOf(b)
  {
    DirKept(b, Put(b, HEADER_SIZE + SLOT_SIZE * i + (if isSize then 4 else 0), Encode(v)));
  }

  lemma {:induction false} FirstFreeIs(cells: seq<Cell>, i: nat)
    requires i <= |cells| && (i < |cells| ==> cells[i].Free?) && forall j :: 0 <= j < i ==> !cells[j].Free?
    ensures i == FirstFree(cells)
  {
    if i > 0 { FirstFreeIs(cells[1..], i - 1); }
  }

  /** The memcpy of InsertTuple, with changes in front of the tuple area before and after it. */
  lemma CopiedInFront(b: seq<byte>, b1: seq<byte>, b2: seq<byte>, b': seq<byte>, count: nat, fsp: nat, t: seq<byte>)
    requires |b| == PAGE_SIZE && DirEnd(count) + |t| <= fsp <= PAGE_SIZE
    requires AreaSame(b, b1, 0)
    requires IsPut(b1, b2, fsp - |t|, t)
    requires AreaSame(b2, b', count)
    ensures b'[fsp - |t|..fsp] == t && b'[..16] == b[..16] && forall k {:trigger b'[k]} :: fsp <= k < PAGE_SIZE ==>
        b'[k] == b[k]
  {
  }

  // ----- what goes wrong -----

  /** Slot 1, marked as deleted, in front of slot 0; both tuples have two bytes. */
  function MarkedInFront(): Dir {
    Dir(508, [Slot(510, 2), Slot(508, -2)])
  }

  lemma MarkedInFrontTiled()
    ensures Tiled(MarkedInFront(), [1, 0])
  {
    var d, order := MarkedInFront(), [1, 0];
    assert order[0] == 1 && order[1] == 0;
    assert Occurs(order, 0) && Occurs(order, 1);
    assert Pos(d.slots, order, 1) == 2 && Pos(d.slots, order, 2) == 4;
    assert PlacedAt(d, order, 0) && PlacedAt(d, order, 1);
  }

  /** Updating slot 0 to a one-byte tuple: slot 1 no longer stands for its tuple, and slot 0 does for the new one. */
  lemma MarkedTupleIsLost(b: seq<byte>, b': seq<byte>, t: byte)
    requires |b| == PAGE_SIZE && b[508] != b[509]
    requires Replaced(b, b', 2, 508, 510, 2, [t])
    ensures Tiled(MarkedInFront(), [1, 0])
    ensures CellOf(MarkedInFront().slots[1], b) == Marked(b[508..510])
    ensures CellOf(Updated(MarkedInFront(), 0, 1).slots[1], b') == Marked([b[508], b[508]]) != Marked(b[508..510])
    ensures CellOf(Updated(MarkedInFront(), 0, 1).slots[0], b') == Live([t])
  {
    hide Tiled;
    MarkedInFrontTiled();
    assert b'[509] == b[508];
    assert b'[508..510] == [b[508], b[508]];
    assert b[508..510] == [b[508], b[509]];
  }

  /** A slot that has been freed by ApplyDelete fails the assertion of a second ApplyDelete. */
  lemma FreedSlotFailsAssertion(d: Dir, order: seq<nat>, i: nat)
    requires Tiled(d, order) && i < |d.slots|
    ensures Deleted(d, i).slots[i].offset < Deleted(d, i).fsp
  {
  }

  /** And it still does when other slots have been freed. */
  lemma FreeSlotStillFails(d: Dir, order: seq<nat>, b: seq<byte>, i: nat, j: nat)
    requires Tiled(d, order) && |b| == PAGE_SIZE && i < |d.slots| && j < |d.slots|
    requires CellsOf(d, b)[j].Free? && d.slots[j].offset < d.fsp
    ensures Deleted(d, i).slots[j].offset < Deleted(d, i).fsp
  {
    CellKind(d, order, b, j);
  }
}
