/** A slotted table page: an allocator in a byte array, with the slot directory in the array as well. */
module TablePages {
  import opened Common
  import opened PageLayout

  class TablePage {
    const data: array<byte>
    /** The slots in use, by address. */
    ghost var order: seq<nat>
    /** What the slots stand for. */
    ghost var cells: seq<Cell>

    ghost predicate Valid()
      reads this, data
    {
      HasDir(data[..]) && Tiled(DirOf(data[..]), order) && cells == CellsOf(DirOf(data[..]), data[..])
    }

    /** The bytes of a page, read into a buffer. */
    constructor Read(b: seq<byte>, ghost order: seq<nat>)
      requires HasDir(b) && Tiled(DirOf(b), order)
      ensures Valid() && fresh(data) && data[..] == b && this.order == order && cells == CellsOf(DirOf(b), b)
    {
      data := new byte[PAGE_SIZE](i requires 0 <= i < PAGE_SIZE => b[i]);
      this.order, cells := order, CellsOf(DirOf(b), b);
      new;
      assert data[..] == b;
    }

    /** A new page, zeroed. */
    constructor Blank()
      ensures fresh(data) && data.Length == PAGE_SIZE
    {
      data := new byte[PAGE_SIZE](_ => 0);
      order, cells := [], [];
    }

    ghost predicate HasDirectory()
      reads data
    {
      HasDir(data[..])
    }

    ghost function Directory(): Dir
      requires HasDirectory()
      reads data
    {
      DirOf(data[..])
    }

    // ----- bytes and words -----

    method MemCpy(at: nat, s: seq<byte>)
      requires at + |s| <= data.Length
      modifies data
      ensures data[..] == Put(old(data[..]), at, s)
    {
      ghost var b := data[..];
      for i := 0 to |s|
        invariant forall k :: 0 <= k < data.Length ==> data[k] == if at <= k < at + i then s[k - at] else b[k]
      {
        data[at + i] := s[i];
      }
      assert data[..] == Put(b, at, s);
    }

    /** The two areas may overlap. */
    method MemMove(dst: nat, src: nat, n: nat)
      requires dst + n <= data.Length && src + n <= data.Length
      modifies data
      ensures data[..] == Put(old(data[..]), dst, old(data[..])[src..src + n])
    {
      if dst <= src { MoveDown(dst, src, n); } else { MoveUp(dst, src, n); }
    }

    /** Copy from the front, as the bytes behind are still to be read. */
    method MoveDown(dst: nat, src: nat, n: nat)
      requires dst <= src && src + n <= data.Length
      modifies data
      ensures data[..] == Put(old(data[..]), dst, old(data[..])[src..src + n])
    {
      ghost var b := data[..];
      ghost var s := b[src..src + n];
      for i := 0 to n
        invariant forall k :: 0 <= k < data.Length ==> data[k] == if dst <= k < dst + i then s[k - dst] else b[k]
      {
        assert data[src + i] == b[src + i] == s[i];
        data[dst + i] := data[src + i];
      }
      assert data[..] == Put(b, dst, s);
    }

    /** Copy from the back, as the bytes in front are still to be read. */
    method MoveUp(dst: nat, src: nat, n: nat)
      requires src < dst && dst + n <= data.Length
      modifies data
      ensures data[..] == Put(old(data[..]), dst, old(data[..])[src..src + n])
    {
      ghost var b := data[..];
      ghost var s := b[src..src + n];
      for i := n downto 0
        invariant forall k :: 0 <= k < data.Length ==> data[k] == if dst + i <= k < dst + n then s[k - dst] else b[k]
      {
        assert data[src + i] == b[src + i] == s[i];
        data[dst + i] := data[src + i];
      }
      assert data[..] == Put(b, dst, s);
    }

    function GetWord(at: nat): (v: int)
      requires at + 4 <= data.Length
      reads data
      ensures v == Word(data[..], at)
    {
      assert data[..][at..at + 4] == data[at..at + 4];
      Decode(data[at..at + 4])
    }

    function GetFreeSpacePointer(): (v: int)
      requires HasDirectory()
      reads data
      ensures v == Directory().fsp
    {
      GetWord(16)
    }

    function GetTupleCount(): (v: nat)
      requires HasDirectory()
      reads data
      ensures v == |Directory().slots| && DirEnd(v) <= PAGE_SIZE == data.Length
    {
      GetWord(20)
    }

    function GetTupleOffset(i: nat): (v: int)
      requires HasDirectory() && i < GetTupleCount()
      reads data
      ensures v == Directory().slots[i].offset
    {
      GetWord(HEADER_SIZE + SLOT_SIZE * i)
    }

    function GetTupleSize(i: nat): (v: int)
      requires HasDirectory() && i < GetTupleCount()
      reads data
      ensures v == Directory().slots[i].size
    {
      GetWord(HEADER_SIZE + 4 + SLOT_SIZE * i)
    }

    function GetFreeSpaceSize(): (v: int)
      requires HasDirectory()
      reads data
      ensures v == Directory().fsp - DirEnd(|Directory().slots|)
    {
      GetFreeSpacePointer() - 24 - GetTupleCount() * 8
    }

    method SetFreeSpacePointer(v: int)
      requires HasDirectory() && INT_MIN <= v <= INT_MAX
      modifies data
      ensures HasDirectory() && Directory() == old(Directory()).(fsp := v) && AreaSame(old(data[..]), data[..], 0)
    {
      PutFsp(data[..], v);
      MemCpy(16, Encode(v));
    }

    method SetTupleOffset(i: nat, v: int)
      requires HasDirectory() && i < GetTupleCount() && INT_MIN <= v <= INT_MAX
      modifies data
      ensures HasDirectory() && AreaSame(old(data[..]), data[..], |Directory().slots|)
      ensures
        var d := old(Directory());
        Directory() == d.(slots := d.slots[i := d.slots[i].(offset := v)])
    {
      PutOffset(data[..], i, v);
      MemCpy(HEADER_SIZE + SLOT_SIZE * i, Encode(v));
    }

    method SetTupleSize(i: nat, v: int)
      requires HasDirectory() && i < GetTupleCount() && INT_MIN <= v <= INT_MAX
      modifies data
      ensures HasDirectory() && AreaSame(old(data[..]), data[..], |Directory().slots|)
      ensures
        var d := old(Directory());
        Directory() == d.(slots := d.slots[i := d.slots[i].(size := v)])
    {
      PutSize(data[..], i, v);
      MemCpy(HEADER_SIZE + 4 + SLOT_SIZE * i, Encode(v));
    }

    /** Copy something into the tuple area. */
    method CopyIn(at: nat, s: seq<byte>)
      requires HasDirectory() && DirEnd(|Directory().slots|) <= at && at + |s| <= PAGE_SIZE
      modifies data
      ensures HasDirectory() && Directory() == old(Directory()) && IsPut(old(data[..]), data[..], at, s)
    {
      ghost var b := data[..];
      MemCpy(at, s);
      DirKept(b, data[..]);
    }

    method MoveTuples(dst: nat, src: nat, n: nat)
      requires HasDirectory() && DirEnd(|Directory().slots|) <= dst && dst + n <= PAGE_SIZE && src + n <= PAGE_SIZE
      modifies data
      ensures HasDirectory() && Directory() == old(Directory())
        && IsPut(old(data[..]), data[..], dst, old(data[..])[src..src + n])
    {
      ghost var b := data[..];
      MemMove(dst, src, n);
      DirKept(b, data[..]);
    }

    // ----- the page operations -----

    method Init(pageId: int, prevPageId: int)
      requires data.Length == PAGE_SIZE && INT_MIN <= pageId <= INT_MAX && INT_MIN <= prevPageId <= INT_MAX
      modifies this, data
      ensures Valid() && cells == [] && order == [] && GetWord(0) == pageId
      ensures GetWord(8) == prevPageId && GetWord(12) == -1
      ensures Directory() == Dir(PAGE_SIZE, [])
    {
      InitWords(pageId, prevPageId);
      order, cells := [], [];
      assert DirOf(data[..]) == Dir(PAGE_SIZE, []);
    }

    method InitWords(pageId: int, prevPageId: int)
      requires data.Length == PAGE_SIZE && INT_MIN <= pageId <= INT_MAX && INT_MIN <= prevPageId <= INT_MAX
      modifies data
      ensures GetWord(0) == pageId && GetWord(8) == prevPageId && GetWord(12) == -1
      ensures GetWord(16) == PAGE_SIZE && GetWord(20) == 0
    {
      SetWord(0, pageId);
      SetWord(8, prevPageId);
      SetWord(12, -1);
      SetWord(16, PAGE_SIZE);
      SetWord(20, 0);
    }

    method SetWord(at: nat, v: int)
      requires at + 4 <= data.Length && INT_MIN <= v <= INT_MAX
      modifies data
      ensures GetWord(at) == v
      ensures forall k {:trigger data[k]} :: 0 <= k < data.Length && (k < at || at + 4 <= k) ==> data[k] == old(data[k])
      ensures forall x: nat {:trigger GetWord(x)} :: x + 4 <= data.Length && (x + 4 <= at || at + 4 <= x) ==>
          GetWord(x) == old(GetWord(x))
    {
      ghost var b := data[..];
      MemCpy(at, Encode(v));
      WordPut(b, at, v, at);
      forall x: nat | x + 4 <= data.Length && (x + 4 <= at || at + 4 <= x) ensures GetWord(x) == Word(b, x) {
        WordPut(b, at, v, x);
      }
    }

    method SetNextPageId(next: int)
      requires Valid() && INT_MIN <= next <= INT_MAX
      modifies data
      ensures Valid() && GetWord(12) == next && GetWord(0) == old(GetWord(0)) && GetWord(8) == old(GetWord(8))
    {
      hide Tiled, CellsOf;
      PutHeader(data[..], order, 12, next);
      WordPut(data[..], 12, next, 12);
      WordPut(data[..], 12, next, 0);
      WordPut(data[..], 12, next, 8);
      MemCpy(12, Encode(next));
    }

    /** The tuple of a live slot. */
    method GetTuple(i: nat) returns (ok: bool, tuple: seq<byte>)
      requires Valid()
      ensures ok == (i < |cells| && cells[i].Live?) && (ok ==> tuple == cells[i].data)
    {
      hide Tiled, CellsOf;
      tuple := [];
      if i >= GetTupleCount() { return false, tuple; }
      CellKind(Directory(), order, data[..], i);
      var size := GetTupleSize(i);
      if size <= 0 { return false, tuple; }
      var offset := GetTupleOffset(i);
      assert data[..][offset..offset + size] == data[offset..offset + size];
      return true, data[offset..offset + size];
    }

    /** Flip the sign of a size. */
    method FlipSize(i: nat)
      requires Valid() && i < |cells|
      modifies this, data
      ensures Valid() && data[..16] == old(data[..16]) && order == old(order)
      ensures cells == old(cells)[i := Flipped(old(cells)[i])]
    {
      hide Tiled, CellsOf, DirOf, AreaSame;
      ghost var d, b := Directory(), data[..];
      CellKind(d, order, b, i);
      SetTupleSize(i, -GetTupleSize(i));
      HeaderSame(b, data[..], |d.slots|);
      MarkedTiled(d, order, i);
      FlippedCells(d, order, i, b, data[..]);
      cells := CellsOf(Directory(), data[..]);
    }

    /** Mark a tuple as deleted.  A free slot is accepted, and stays free. */
    method MarkDelete(i: nat) returns (ok: bool)
      requires Valid()
      modifies this, data
      ensures Valid() && ok == (i < |old(cells)| && !old(cells)[i].Marked?) && data[..16] == old(data[..16])
      ensures order == old(order)
      ensures cells == if ok && old(cells)[i].Live? then old(cells)[i := Marked(old(cells)[i].data)] else old(cells)
    {
      hide Tiled, CellsOf;
      if i >= GetTupleCount() { return false; }
      CellKind(Directory(), order, data[..], i);
      var size := GetTupleSize(i);
      if size < 0 { return false; }
      if size > 0 { FlipSize(i); }
      return true;
    }

    method RollbackDelete(i: nat)
      requires Valid() && i < |cells|
      modifies this, data
      ensures Valid() && data[..16] == old(data[..16]) && order == old(order)
      ensures cells == if old(cells)[i].Marked? then old(cells)[i := Live(old(cells)[i].data)] else old(cells)
    {
      CellKind(Directory(), order, data[..], i);
      if GetTupleSize(i) < 0 { FlipSize(i); }
    }

    /** The loop at the end of ApplyDelete. */
    method CloseGap(off: int, n: nat)
      requires HasDirectory() && n <= PAGE_SIZE
      requires forall j :: 0 <= j < |Directory().slots| && Directory().slots[j].size != 0 ==>
          0 <= Directory().slots[j].offset <= PAGE_SIZE
      modifies data
      ensures HasDirectory() && AreaSame(old(data[..]), data[..], |Directory().slots|)
      ensures Directory() == old(Directory()).(slots := ClosedAll(old(Directory()).slots, off, n))
    {
      ghost var d := Directory();
      var count := GetTupleCount();
      for i := 0 to count
        invariant HasDirectory() && AreaSame(old(data[..]), data[..], count) && Directory().fsp == d.fsp
          && |Directory().slots| == count
        invariant forall j :: 0 <= j < count ==>
            Directory().slots[j] == if j < i then Closed(d.slots[j], off, n) else d.slots[j]
      {
        var offset := GetTupleOffset(i);
        if GetTupleSize(i) != 0 && offset < off { SetTupleOffset(i, offset + n); }
      }
      assert Directory().slots == ClosedAll(d.slots, off, n);
    }

    /** Truly delete a tuple, marked or not: the tuples in front of it move up over it. */
    method ApplyDelete(i: nat)
      requires Valid() && i < |cells| && !cells[i].Free?
      modifies this, data
      ensures Valid() && cells == old(cells)[i := Free] && data[..16] == old(data[..16])
      ensures order == Drop(old(order), i) && Directory() == Deleted(old(Directory()), i)
    {
      hide Tiled, CellsOf;
      ghost var d, b := Directory(), data[..];
      CellKind(d, order, b, i);
      ghost var p := PositionIn(d, order, i);
      OffsetsInPage(d, order);
      TakeOut(i);
      DeletedTiled(d, order, p);
      DeletedCells(d, order, p, b, data[..]);
      OrderDistinct(d, order);
      DropAt(order, p);
      order := Without(order, p);
      cells := CellsOf(Directory(), data[..]);
    }

    /** The bytes and words that ApplyDelete writes. */
    method TakeOut(i: nat)
      requires HasDirectory() && i < |Directory().slots|
      requires
        var d := Directory();
        var slot := d.slots[i];
        && slot.size != 0 && InPage(slot) && DirEnd(|d.slots|) <= d.fsp <= slot.offset
        && forall j :: 0 <= j < |d.slots| && d.slots[j].size != 0 ==> 0 <= d.slots[j].offset <= PAGE_SIZE
      modifies data
      ensures HasDirectory() && Directory() == Deleted(old(Directory()), i) && data[..16] == old(data[..16])
      ensures
        var d := old(Directory());
        Compacted(old(data[..]), data[..], d.fsp, d.slots[i].offset, Abs(d.slots[i].size))
    {
      hide HasDir, DirOf, Deleted, AreaSame, Compacted, IsPut;
      var offset, fsp := GetTupleOffset(i), GetFreeSpacePointer();
      var size := if GetTupleSize(i) < 0 then -GetTupleSize(i) else GetTupleSize(i);
      ghost var b, d := data[..], Directory();
      assert size == Abs(d.slots[i].size) && offset + size <= PAGE_SIZE;
      MoveTuples(fsp + size, fsp, offset - fsp);
      ghost var b1 := data[..];
      FreeSlot(i, fsp + size, offset, size);
      MovedIsCompacted(b, b1, data[..], |d.slots|, fsp, offset, size);
    }

    /** The directory without slot i. */
    method FreeSlot(i: nat, fsp: nat, offset: int, size: nat)
      requires HasDirectory() && i < |Directory().slots|
      requires
        var d := Directory();
        var slot := d.slots[i];
        && slot.size != 0 && InPage(slot) && offset == slot.offset && size == Abs(slot.size)
          && fsp == d.fsp + size <= PAGE_SIZE
        && forall j :: 0 <= j < |d.slots| && d.slots[j].size != 0 ==> 0 <= d.slots[j].offset <= PAGE_SIZE
      modifies data
      ensures HasDirectory() && Directory() == Deleted(old(Directory()), i)
        && AreaSame(old(data[..]), data[..], |old(Directory()).slots|)
    {
      hide HasDir, DirOf;
      ghost var d := Directory();
      SetFreeSpacePointer(fsp);
      SetTupleSize(i, 0);
      SetTupleOffset(i, 0);
      assert Directory().slots == d.slots[i := Slot(0, 0)];
      CloseGap(offset, size);
    }

    /** A slot behind the last one. */
    method AppendSlot(offset: int, size: int)
      requires HasDirectory() && DirEnd(|Directory().slots| + 1) <= PAGE_SIZE
      requires INT_MIN <= offset <= INT_MAX && INT_MIN <= size <= INT_MAX
      modifies data
      ensures HasDirectory() && AreaSame(old(data[..]), data[..], |old(Directory()).slots| + 1)
      ensures Directory() == old(Directory()).(slots := old(Directory()).slots + [Slot(offset, size)])
    {
      hide HasDir, DirOf;
      var i := GetTupleCount();
      SetNewSlotWord(i, offset, false);
      SetNewSlotWord(i, size, true);
      SetTupleCount(i + 1);
    }

    /** Write one word of the slot behind the last one; it does not count yet. */
    method SetNewSlotWord(i: nat, v: int, isSize: bool)
      requires HasDirectory() && i == |Directory().slots| && DirEnd(i + 1) <= PAGE_SIZE && INT_MIN <= v <= INT_MAX
      modifies data
      ensures HasDirectory() && Directory() == old(Directory()) && AreaSame(old(data[..]), data[..], i + 1)
        && |data[..]| == PAGE_SIZE
      ensures
        var was := old(SlotAt(data[..], i));
        SlotAt(data[..], i) == if isSize then was.(size := v) else was.(offset := v)
    {
      PutSlotWord(data[..], i, v, isSize);
      NewSlotKeepsDir(data[..], i, v, isSize);
      MemCpy(HEADER_SIZE + SLOT_SIZE * i + (if isSize then 4 else 0), Encode(v));
    }

    method SetTupleCount(n: nat)
      requires HasDirectory() && n == |Directory().slots| + 1 && DirEnd(n) <= PAGE_SIZE
      modifies data
      ensures HasDirectory() && AreaSame(old(data[..]), data[..], n)
      ensures Directory() == old(Directory()).(slots := old(Directory()).slots + [old(SlotAt(data[..], n - 1))])
    {
      PutCount(data[..], n);
      MemCpy(20, Encode(n));
    }

    /** What InsertTuple writes once it has found a slot. */
    method WriteTuple(i: nat, tuple: seq<byte>)
      requires HasDirectory() && i <= |Directory().slots| && tuple != []
      requires
        var d := Directory();
        d.fsp <= PAGE_SIZE && DirEnd(if i < |d.slots| then |d.slots| else i + 1) + |tuple| <= d.fsp
      modifies data
      ensures HasDirectory() && Directory() == Inserted(old(Directory()), i, |tuple|) && data[..16] == old(data[..16])
      ensures
        var fsp := old(Directory()).fsp;
        && data[fsp - |tuple|..fsp] == tuple
        && forall k {:trigger data[k]} :: fsp <= k < PAGE_SIZE ==> data[k] == old(data[k])
    {
      hide HasDir, DirOf, AreaSame, Inserted, IsPut;
      ghost var b, d, count := data[..], Directory(), GetTupleCount();
      SetFreeSpacePointer(GetFreeSpacePointer() - |tuple|);
      ghost var b1 := data[..];
      CopyIn(GetFreeSpacePointer(), tuple);
      ghost var b2 := data[..];
      SetSlot(i, GetFreeSpacePointer(), |tuple|);
      InsertedIs(d, i, |tuple|);
      CopiedInFront(b, b1, b2, data[..], if i < count then count else i + 1, d.fsp, tuple);
    }

    /** Give a slot its offset and size; it may be one behind the last. */
    method SetSlot(i: nat, offset: int, size: int)
      requires HasDirectory() && i <= |Directory().slots| && INT_MIN <= offset <= INT_MAX && INT_MIN <= size <= INT_MAX
      requires i == |Directory().slots| ==> DirEnd(i + 1) <= PAGE_SIZE
      modifies data
      ensures
        var d := old(Directory());
        var slots := if i < |d.slots| then d.slots[i := Slot(offset, size)] else d.slots + [Slot(offset, size)];
        && HasDirectory() && Directory() == d.(slots := slots)
        && AreaSame(old(data[..]), data[..], |slots|)
    {
      hide HasDir, DirOf;
      if i < GetTupleCount() {
        SetTupleOffset(i, offset);
        SetTupleSize(i, size);
      } else {
        AppendSlot(offset, size);
      }
    }

    /**
     * Put a tuple in front of the others, under the first free slot or a new one.  False, and nothing changed, if
     * there is no room for the tuple or for the slot.
     */
    method InsertTuple(tuple: seq<byte>) returns (ok: bool, slot: nat)
      requires Valid() && tuple != []
      modifies this, data
      ensures Valid() && data[..16] == old(data[..16]) && slot == FirstFree(old(cells))
      ensures ok == old(|tuple| <= GetFreeSpaceSize()
        && (FirstFree(cells) < |cells| || |tuple| + SLOT_SIZE <= GetFreeSpaceSize()))
      ensures ok ==> cells == WithCell(old(cells), slot, Live(tuple)) && order == [slot] + old(order)
      ensures !ok ==> cells == old(cells) && data[..] == old(data[..]) && order == old(order)
    {
      hide Tiled, CellsOf, Inserted;
      ghost var d, b := Directory(), data[..];
      slot := FindSlot();
      FspInPage(d, order);
      if GetFreeSpaceSize() < |tuple| { return false, slot; }
      if slot == GetTupleCount() && GetFreeSpaceSize() < |tuple| + 8 { return false, slot; }
      if slot < |cells| { CellKind(d, order, b, slot); }
      InsertedTiled(d, order, slot, |tuple|);
      WriteTuple(slot, tuple);
      InsertedCells(d, order, slot, tuple, b, data[..]);
      order := [slot] + order;
      cells := CellsOf(Directory(), data[..]);
      ok := true;
    }

    /** The first slot of size 0. */
    method FindSlot() returns (i: nat)
      requires Valid()
      ensures i == FirstFree(cells)
    {
      hide Tiled;
      i := 0;
      while i < GetTupleCount()
        invariant i <= |cells| && forall j :: 0 <= j < i ==> !cells[j].Free?
      {
        CellKind(Directory(), order, data[..], i);
        if GetTupleSize(i) == 0 { break; }
        i := i + 1;
      }
      FirstFreeIs(cells, i);
    }

    /** The loop at the end of UpdateTuple. */
    method ShiftTuples(bound: int, delta: int)
      requires HasDirectory() && -PAGE_SIZE <= delta <= PAGE_SIZE
      requires forall j :: 0 <= j < |Directory().slots| && Directory().slots[j].size > 0 ==>
          0 <= Directory().slots[j].offset <= PAGE_SIZE
      modifies data
      ensures HasDirectory() && AreaSame(old(data[..]), data[..], |old(Directory()).slots|)
      ensures Directory() == old(Directory()).(slots := ShiftedAll(old(Directory()).slots, bound, delta))
    {
      ghost var d := Directory();
      var count := GetTupleCount();
      for i := 0 to count
        invariant HasDirectory() && AreaSame(old(data[..]), data[..], count) && Directory().fsp == d.fsp
          && |Directory().slots| == count
        invariant forall j :: 0 <= j < count ==>
            Directory().slots[j] == if j < i then Shifted(d.slots[j], bound, delta) else d.slots[j]
      {
        var offset := GetTupleOffset(i);
        if GetTupleSize(i) > 0 && offset < bound { SetTupleOffset(i, offset + delta); }
      }
      assert Directory().slots == ShiftedAll(d.slots, bound, delta);
    }

    /** The bytes and words that UpdateTuple writes. */
    method Overwrite(i: nat, tuple: seq<byte>)
      requires HasDirectory() && i < |Directory().slots|
      requires
        var d := Directory();
        var slot := d.slots[i];
        && slot.size > 0 && InPage(slot) && DirEnd(|d.slots|) <= d.fsp <= slot.offset
        && DirEnd(|d.slots|) + |tuple| <= d.fsp + slot.size
        && forall j :: 0 <= j < |d.slots| && d.slots[j].size != 0 ==> 0 <= d.slots[j].offset <= PAGE_SIZE
      modifies data
      ensures HasDirectory() && Directory() == Updated(old(Directory()), i, |tuple|) && data[..16] == old(data[..16])
      ensures
        var d := old(Directory());
        Replaced(old(data[..]), data[..], |d.slots|, d.fsp, d.slots[i].offset, d.slots[i].size, tuple)
    {
      hide HasDir, DirOf, Updated, AreaSame, Replaced, IsPut;
      var offset, size, fsp := GetTupleOffset(i), GetTupleSize(i), GetFreeSpacePointer();
      var delta := size - |tuple|;
      ghost var b, d := data[..], Directory();
      MoveTuples(fsp + delta, fsp, offset - fsp);
      ghost var b1 := data[..];
      SetFreeSpacePointer(fsp + delta);
      ghost var b2 := data[..];
      CopyIn(offset + delta, tuple);
      ghost var b3 := data[..];
      ResizeSlot(i, |tuple|, offset + size, delta, d);
      MovedIsReplaced(b, b1, b2, b3, data[..], |d.slots|, fsp, offset, size, delta, tuple);
    }

    method ResizeSlot(i: nat, n: nat, bound: int, delta: int, ghost d: Dir)
      requires HasDirectory() && i < |d.slots| && Directory() == d.(fsp := d.fsp + delta) && n <= PAGE_SIZE
      requires d.slots[i].size > 0 && InPage(d.slots[i]) && bound == d.slots[i].offset + d.slots[i].size
        && delta == d.slots[i].size - n
      requires forall j :: 0 <= j < |d.slots| && d.slots[j].size != 0 ==> 0 <= d.slots[j].offset <= PAGE_SIZE
      modifies data
      ensures HasDirectory() && Directory() == Updated(d, i, n) && AreaSame(old(data[..]), data[..], |d.slots|)
    {
      hide HasDir, DirOf;
      SetTupleSize(i, n);
      ShiftTuples(bound, delta);
    }

    /**
     * Replace a live tuple.  The slot stands for the new tuple afterwards, and every slot that follows keeps its own.  If
     * the length stays the same or no tuple in front is marked as deleted, all follow; if not, the tuples do not tile the
     * page any more, in whatever order.
     */
    method UpdateTuple(i: nat, tuple: seq<byte>) returns (ok: bool, oldTuple: seq<byte>)
      requires Valid()
      modifies this, data
      ensures ok == old(i < |cells| && cells[i].Live? && |tuple| <= GetFreeSpaceSize() + |cells[i].data|)
      ensures !ok ==> Valid() && cells == old(cells) && data[..] == old(data[..]) && order == old(order)
      ensures ok ==>
        && HasDirectory() && Directory() == Updated(old(Directory()), i, |tuple|) && data[..16] == old(data[..16])
        && oldTuple == old(cells)[i].data && oldTuple != []
      ensures ok ==>
        var d := old(Directory());
        && Replaced(old(data[..]), data[..], |d.slots|, d.fsp, d.slots[i].offset, d.slots[i].size, tuple)
        && OneUpdated(d, old(cells), CellsOf(Directory(), data[..]), i, tuple)
      ensures ok && Movable(old(Directory()), i, |tuple|) ==>
        && Valid() && cells == old(cells)[i := if tuple == [] then Free else Live(tuple)]
        && order == if tuple == [] then Drop(old(order), i) else old(order)
      ensures ok && !Movable(old(Directory()), i, |tuple|) ==> forall order' :: !Tiled(Directory(), order')
    {
      hide Tiled, CellsOf;
      ghost var d, b := Directory(), data[..];
      oldTuple := [];
      if i >= GetTupleCount() { return false, oldTuple; }
      CellKind(d, order, b, i);
      var size := GetTupleSize(i);
      if size <= 0 { return false, oldTuple; }
      if GetFreeSpaceSize() < |tuple| - size { return false, oldTuple; }
      var offset := GetTupleOffset(i);
      oldTuple := data[offset..offset + size];
      assert oldTuple == b[offset..offset + size];
      OffsetsInPage(d, order);
      Overwrite(i, tuple);
      ghost var p := PositionIn(d, order, i);
      UpdatedFollow(d, order, p, tuple, b, data[..]);
      if Movable(d, i, |tuple|) {
        AfterUpdate(i, tuple, d, b);
      } else {
        UpdatedTiledIff(d, order, p, |tuple|);
      }
      ok := true;
    }

    ghost method AfterUpdate(i: nat, tuple: seq<byte>, d: Dir, b: seq<byte>)
      requires Tiled(d, order) && |b| == PAGE_SIZE && cells == CellsOf(d, b) && i < |d.slots| && d.slots[i].size > 0
      requires Movable(d, i, |tuple|) && DirEnd(|d.slots|) + |tuple| <= d.fsp + d.slots[i].size
      requires HasDirectory() && Directory() == Updated(d, i, |tuple|)
      requires Replaced(b, data[..], |d.slots|, d.fsp, d.slots[i].offset, d.slots[i].size, tuple)
      modifies this
      ensures Valid() && cells == old(cells)[i := if tuple == [] then Free else Live(tuple)]
      ensures order == if tuple == [] then Drop(old(order), i) else old(order)
    {
      hide Tiled, CellsOf, Updated, Movable, Replaced;
      var p := PositionIn(d, order, i);
      UpdatedCells(d, order, p, tuple, b, data[..]);
      if tuple == [] {
        EmptyNeedsNoMark(d, i);
        UpdatedEmptyTiled(d, order, p);
        OrderDistinct(d, order);
        DropAt(order, p);
        order := Without(order, p);
      } else {
        UpdatedTiled(d, order, p, |tuple|);
      }
      cells := CellsOf(Directory(), data[..]);
    }
  }
}
