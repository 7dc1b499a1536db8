/** A table heap: a chain of slotted pages, and transactions that log what they change in it. */
module TableHeaps {
  import opened Common
  import opened PageLayout
  import opened TablePages

  datatype RID = RID(page: int, slot: nat)

  datatype WType = INSERT | DELETE | UPDATE

  datatype WriteRecord = WriteRecord(rid: RID, wtype: WType, tuple: seq<byte>)

  datatype TransactionState = GROWING | COMMITTED | ABORTED

  // ----- tables as values -----

  /** What the slots of a page stand for, and the slots in use in address order. */
  datatype PageCells = PageCells(cells: seq<Cell>, order: seq<nat>)

  type Table = map<int, PageCells>

  /** What a RID stands for; pages and slots that do not exist stand for nothing. */
  function At(t: Table, r: RID): Cell {
    if r.page in t && r.slot < |t[r.page].cells| then t[r.page].cells[r.slot] else Free
  }

  function OrderOf(t: Table, p: int): seq<nat> {
    if p in t then t[p].order else []
  }

  /** The number of slots of a page, free ones included. */
  function CountOf(t: Table, p: int): nat {
    if p in t then |t[p].cells| else 0
  }

  /** The bytes of the first k tuples of a page. */
  function UsedUpTo(t: Table, p: int, k: nat): nat
    requires k <= |OrderOf(t, p)|
  {
    if k == 0 then 0 else UsedUpTo(t, p, k - 1) + SizeOf(At(t, RID(p, OrderOf(t, p)[k - 1])))
  }

  function UsedIn(t: Table, p: int): nat {
    UsedUpTo(t, p, |OrderOf(t, p)|)
  }

  /** The room between the slot directory and the tuples. */
  function FreeIn(t: Table, p: int): int {
    PAGE_SIZE - DirEnd(CountOf(t, p)) - UsedIn(t, p)
  }

  /** The tuples in front of r follow when r is updated: the length stays the same, or none is marked as deleted. */
  ghost predicate MovesFreely(t: Table, r: RID, n: nat) {
    var order := OrderOf(t, r.page);
    || (At(t, r).Live? && |At(t, r).data| == n)
    || forall j, k :: 0 <= j < k < |order| && order[k] == r.slot ==> !At(t, RID(r.page, order[j])).Marked?
  }

  function CellsIn(t: Table, p: int): seq<Cell> {
    if p in t then t[p].cells else []
  }

  /** A page has room for a tuple of n bytes, and for a slot unless one is free. */
  predicate RoomFor(t: Table, p: int, n: nat) {
    n <= FreeIn(t, p) && (FirstFree(CellsIn(t, p)) < CountOf(t, p) || n + SLOT_SIZE <= FreeIn(t, p))
  }

  /** Page p is the first one of the chain with room, or no page has room and p is none of them. */
  ghost predicate FirstWithRoom(chain: seq<int>, t: Table, n: nat, p: int) {
    exists k :: 0 <= k <= |chain| && NoneBefore(chain, t, n, k)
      && if k < |chain| then p == chain[k] && RoomFor(t, p, n) else p !in t
  }

  ghost predicate NoneBefore(chain: seq<int>, t: Table, n: nat, k: nat) {
    forall j :: 0 <= j < k && j < |chain| ==> !RoomFor(t, chain[j], n)
  }

  /** Every RID stands for the same. */
  ghost predicate Same(t: Table, t': Table) {
    forall r {:trigger At(t', r)} {:trigger At(t, r)} :: At(t', r) == At(t, r)
  }

  /** And the tuples lie in the same order; the number of slots may differ. */
  ghost predicate Alike(t: Table, t': Table) {
    && Same(t, t')
    && forall p {:trigger OrderOf(t', p)} {:trigger OrderOf(t, p)} :: OrderOf(t', p) == OrderOf(t, p)
  }

  /** Only RID r has changed, to c. */
  ghost predicate Changed(t: Table, t': Table, r: RID, c: Cell) {
    forall x {:trigger At(t', x)} {:trigger At(t, x)} :: At(t', x) == if x == r then c else At(t, x)
  }

  /** Only RID r has changed, to c, and the tuples on its page lie in the given order. */
  ghost predicate Stepped(t: Table, t': Table, r: RID, c: Cell, order: seq<nat>) {
    && Changed(t, t', r, c)
    && forall p {:trigger OrderOf(t', p)} {:trigger OrderOf(t, p)} ::
         OrderOf(t', p) == if p == r.page then order else OrderOf(t, p)
  }

  ghost predicate Counted(t: Table, t': Table) {
    forall p {:trigger CountOf(t', p)} {:trigger CountOf(t, p)} :: CountOf(t', p) == CountOf(t, p)
  }

  /** The page of r has one slot more if r is behind its last slot. */
  ghost predicate CountedWith(t: Table, t': Table, r: RID) {
    forall p {:trigger CountOf(t', p)} {:trigger CountOf(t, p)} ::
      CountOf(t', p) == if p == r.page && r.slot == CountOf(t, p) then r.slot + 1 else CountOf(t, p)
  }

  /** No page has lost slots. */
  ghost predicate CountedUp(t: Table, t': Table) {
    forall p {:trigger CountOf(t', p)} {:trigger CountOf(t, p)} :: CountOf(t', p) >= CountOf(t, p)
  }

  lemma AlikeSelf(t: Table)
    ensures Alike(t, t) && CountedUp(t, t) && Counted(t, t)
  {
  }

  lemma AlikeTwice(t0: Table, t: Table, t': Table)
    requires Alike(t0, t) && Alike(t, t') && CountedUp(t0, t) && CountedUp(t, t')
    ensures Alike(t0, t') && CountedUp(t0, t')
  {
    forall x ensures At(t', x) == At(t0, x) {
      assert At(t, x) == At(t0, x);
    }
    forall p ensures OrderOf(t', p) == OrderOf(t0, p) && CountOf(t', p) >= CountOf(t0, p) {
      assert OrderOf(t, p) == OrderOf(t0, p) && CountOf(t, p) >= CountOf(t0, p);
    }
  }

  lemma AlikeThenStepped(t0: Table, t: Table, t': Table, r: RID, c: Cell, order: seq<nat>)
    requires Alike(t0, t) && Stepped(t, t', r, c, order)
    ensures Stepped(t0, t', r, c, order) && At(t0, r) == At(t, r) && OrderOf(t0, r.page) == OrderOf(t, r.page)
  {
    forall x ensures At(t', x) == if x == r then c else At(t0, x) {
      assert At(t, x) == At(t0, x);
    }
    forall p ensures OrderOf(t', p) == if p == r.page then order else OrderOf(t0, p) {
      assert OrderOf(t, p) == OrderOf(t0, p);
    }
  }

  lemma CountedUpTwice(t0: Table, t: Table, t': Table)
    requires CountedUp(t0, t) && CountedUp(t, t')
    ensures CountedUp(t0, t')
  {
    forall p ensures CountOf(t', p) >= CountOf(t0, p) {
      assert CountOf(t, p) >= CountOf(t0, p);
    }
  }

  lemma AlikeWithPage(t: Table, p: int)
    requires p !in t
    ensures Alike(t, t[p := PageCells([], [])]) && CountedUp(t, t[p := PageCells([], [])])
  {
  }

  lemma CountedWithPage(t: Table, p: int, t': Table, r: RID)
    requires p !in t && CountedWith(t[p := PageCells([], [])], t', r)
    ensures CountedWith(t, t', r)
  {
    forall q ensures CountOf(t', q) == if q == r.page && r.slot == CountOf(t, q) then r.slot + 1 else CountOf(t, q) {
      assert CountOf(t[p := PageCells([], [])], q) == CountOf(t, q);
    }
  }

  /** One page changes, at one slot. */
  lemma PageStepped(t: Table, r: RID, cells': seq<Cell>, order': seq<nat>)
    requires r.page in t && r.slot <= |t[r.page].cells| && |cells'| > r.slot
    requires cells' == WithCell(t[r.page].cells, r.slot, cells'[r.slot])
    ensures
      var t' := t[r.page := PageCells(cells', order')];
      && Stepped(t, t', r, cells'[r.slot], order') && CountedUp(t, t') && CountedWith(t, t', r)
      && (r.slot < |t[r.page].cells| ==> Counted(t, t'))
  {
  }

  // ----- the log of a transaction -----

  /** An insertion, a deletion, which marks nothing but a live tuple, or an update that does not break the page. */
  ghost predicate Logs(t: Table, t': Table, w: WriteRecord) {
    var order := OrderOf(t, w.rid.page);
    && CountedUp(t, t')
    && match w.wtype
       case INSERT => At(t, w.rid).Free? && Inserts(t, t', w.rid)
       case DELETE =>
         if At(t, w.rid).Live? then Stepped(t, t', w.rid, Marked(At(t, w.rid).data), order) else Alike(t, t')
       case UPDATE => At(t, w.rid) == Live(w.tuple) && w.tuple != [] && Updates(t, t', w.rid)
  }

  ghost predicate Inserts(t: Table, t': Table, r: RID) {
    exists x :: x != [] && Stepped(t, t', r, Live(x), [r.slot] + OrderOf(t, r.page))
  }

  ghost predicate Updates(t: Table, t': Table, r: RID) {
    exists x :: UpdatedTo(t, t', r, x)
  }

  /** UpdateTuple to x; an empty tuple frees the slot. */
  ghost predicate UpdatedTo(t: Table, t': Table, r: RID, x: seq<byte>) {
    && MovesFreely(t, r, |x|)
    && if x == [] then Stepped(t, t', r, Free, Drop(OrderOf(t, r.page), r.slot))
       else Stepped(t, t', r, Live(x), OrderOf(t, r.page))
  }

  /** trail[k] is the table when k records had been logged. */
  ghost predicate Logged(trail: seq<Table>, log: seq<WriteRecord>) {
    |trail| == |log| + 1 && forall k {:trigger log[k]} :: 0 <= k < |log| ==> Logs(trail[k], trail[k + 1], log[k])
  }

  lemma LoggedMore(trail: seq<Table>, log: seq<WriteRecord>, t': Table, w: WriteRecord)
    requires Logged(trail, log) && Logs(trail[|log|], t', w)
    ensures Logged(trail + [t'], log + [w])
  {
  }

  /** Some record of the log deletes r. */
  ghost predicate Deletes(log: seq<WriteRecord>, r: RID) {
    exists k :: 0 <= k < |log| && log[k].wtype == DELETE && log[k].rid == r
  }

  /** Deletions have found live tuples. */
  ghost predicate FoundLive(trail: seq<Table>, log: seq<WriteRecord>) {
    |trail| == |log| + 1 && forall k {:trigger log[k]} :: 0 <= k < |log| && log[k].wtype == DELETE ==>
      At(trail[k], log[k].rid).Live?
  }

  /** One record: what is marked afterwards was marked before, or it is the record that marks it. */
  lemma MarksStep(t: Table, t': Table, w: WriteRecord, r: RID)
    requires Logs(t, t', w)
    ensures At(t', r).Marked? <==> At(t, r).Marked? || (w.wtype == DELETE && w.rid == r && At(t, r).Live?)
  {
    assert At(t', r) == At(t', r);
  }

  /** What is marked at the end was marked in the transaction, or before it. */
  lemma {:induction false} MarksStay(trail: seq<Table>, log: seq<WriteRecord>, k: nat, r: RID)
    requires Logged(trail, log) && FoundLive(trail, log) && k <= |log|
    ensures Deletes(log[..k], r) || At(trail[0], r).Marked? <==> At(trail[k], r).Marked?
  {
    hide Logs;
    if k > 0 {
      var w := log[k - 1];
      MarksStay(trail, log, k - 1, r);
      assert log[..k] == log[..k - 1] + [w];
      assert Logs(trail[k - 1], trail[k - 1 + 1], w);
      MarksStep(trail[k - 1], trail[k], w, r);
      if Deletes(log[..k - 1], r) {
        var i :| 0 <= i < k - 1 && log[..k - 1][i].wtype == DELETE && log[..k - 1][i].rid == r;
        assert log[..k][i] == log[..k - 1][i];
      }
      if w.wtype == DELETE && w.rid == r { assert log[..k][k - 1] == w; }
    }
  }

  /** No tuple is marked twice. */
  lemma MarkedOnce(trail: seq<Table>, log: seq<WriteRecord>, i: nat, j: nat)
    requires Logged(trail, log) && FoundLive(trail, log)
    requires i < j < |log| && log[i].wtype == DELETE && log[j].wtype == DELETE
    ensures log[i].rid != log[j].rid
  {
    hide Logs;
    MarksStay(trail, log, j, log[i].rid);
    assert log[..j][i] == log[i];
    assert Deletes(log[..j], log[i].rid);
  }

  // ----- freeing slots -----

  /** The assertions of ApplyDelete: the slot is there, and its offset is not in front of the free space pointer. */
  ghost predicate SlotCanGo(b: seq<byte>, i: nat) {
    HasDir(b) && i < |DirOf(b).slots| && DirOf(b).slots[i].offset >= DirOf(b).fsp
  }

  ghost predicate CanApplyDelete(pages: map<int, seq<byte>>, r: RID) {
    r.page in pages && SlotCanGo(pages[r.page], r.slot)
  }

  /** For RIDs that stood for nothing the assertions do not begin to hold. */
  ghost predicate StillFails(t: Table, pages: map<int, seq<byte>>, pages': map<int, seq<byte>>) {
    forall r {:trigger CanApplyDelete(pages', r)} :: At(t, r).Free? && CanApplyDelete(pages', r) ==> CanApplyDelete(pages, r)
  }

  lemma NothingFreed(t: Table, pages: map<int, seq<byte>>)
    ensures StillFails(t, pages, pages)
  {
  }

  lemma OneFreed(t: Table, pages: map<int, seq<byte>>, r: RID, b: seq<byte>)
    requires r.page in pages && r.page in t && HasDir(pages[r.page]) && HasDir(b)
    requires Tiled(DirOf(pages[r.page]), t[r.page].order) && t[r.page].cells == CellsOf(DirOf(pages[r.page]), pages[r.page])
    requires r.slot < |DirOf(pages[r.page]).slots| && DirOf(b) == Deleted(DirOf(pages[r.page]), r.slot)
    ensures !CanApplyDelete(pages[r.page := b], r) && StillFails(t, pages, pages[r.page := b])
  {
    var d, order, pages' := DirOf(pages[r.page]), t[r.page].order, pages[r.page := b];
    FreedSlotFailsAssertion(d, order, r.slot);
    forall x | At(t, x).Free? && CanApplyDelete(pages', x) ensures CanApplyDelete(pages, x) {
      if x.page == r.page && !CanApplyDelete(pages, x) {
        FreeSlotStillFails(d, order, pages[r.page], r.slot, x.slot);
      }
    }
  }

  // ----- transactions -----

  class Transaction {
    var state: TransactionState
    var writeSet: seq<WriteRecord>

    constructor ()
      ensures state == GROWING && writeSet == []
    {
      state, writeSet := GROWING, [];
    }
  }

  // ----- the heap -----

  datatype Link = Link(prev: int, next: int)

  /** The pages of the chain in order: each names its neighbours, and the ends name none. */
  ghost predicate Chained(chain: seq<int>, links: map<int, Link>) {
    && |chain| > 0 && (forall i, j :: 0 <= i < j < |chain| ==> chain[i] != chain[j])
    && (forall i {:trigger chain[i]} :: 0 <= i < |chain| ==>
          && chain[i] in links && chain[i] != INVALID_PAGE_ID
          && links[chain[i]] == Link(if i > 0 then chain[i - 1] else INVALID_PAGE_ID,
                                     if i + 1 < |chain| then chain[i + 1] else INVALID_PAGE_ID))
  }

  /** The bytes b of page p are a sound slotted page with these cells and links. */
  ghost predicate PageIs(b: seq<byte>, order: seq<nat>, p: int, cells: seq<Cell>, link: Link) {
    && HasDir(b) && Tiled(DirOf(b), order) && cells == CellsOf(DirOf(b), b)
    && Word(b, 0) == p && Word(b, 8) == link.prev && Word(b, 12) == link.next
  }

  /** The header does not change with the tuples. */
  lemma HeaderKept(b: seq<byte>, b': seq<byte>)
    requires |b| >= 16 && |b'| >= 16 && b'[..16] == b[..16]
    ensures Word(b', 0) == Word(b, 0) && Word(b', 8) == Word(b, 8) && Word(b', 12) == Word(b, 12)
  {
    assert b[0..4] == b[..16][0..4] == b'[0..4];
    assert b[8..12] == b[..16][8..12] == b'[8..12];
    assert b[12..16] == b[..16][12..16] == b'[12..16];
  }

  lemma PageLength(b: seq<byte>, order: seq<nat>, p: int, cells: seq<Cell>, link: Link)
    requires PageIs(b, order, p, cells, link)
    ensures |b| == PAGE_SIZE && Word(b, 0) == p && Word(b, 8) == link.prev && Word(b, 12) == link.next
  {
  }

  /** Page id comes behind page last. */
  function Relinked(links: map<int, Link>, last: int, id: int): map<int, Link>
    requires last in links
  {
    links[last := links[last].(next := id)][id := Link(last, INVALID_PAGE_ID)]
  }

  lemma ChainGrows(chain: seq<int>, links: map<int, Link>, id: int)
    requires Chained(chain, links) && id !in chain && id != INVALID_PAGE_ID
    ensures |chain| > 0 && chain[|chain| - 1] in links
    ensures Chained(chain + [id], Relinked(links, chain[|chain| - 1], id))
  {
  }

  /** What the cells and the order of a page tell about its directory. */
  lemma PageFacts(b: seq<byte>, order: seq<nat>, p: int, cells: seq<Cell>, link: Link)
    requires PageIs(b, order, p, cells, link)
    ensures |cells| == |DirOf(b).slots| && DirEnd(|cells|) <= DirOf(b).fsp && Distinct(order)
    ensures forall j :: 0 <= j < |order| ==> order[j] < |cells|
    ensures DirOf(b).fsp == PAGE_SIZE - Used(cells, order, |order|)
    ensures forall i: nat :: i < |cells| && !cells[i].Free? ==> i in order && cells[i].data != []
  {
    PointerIs(DirOf(b), order, b);
    OrderDistinct(DirOf(b), order);
    forall i: nat | i < |cells| && !cells[i].Free? ensures i in order && cells[i].data != [] {
      CellKind(DirOf(b), order, b, i);
      var k := PositionOf(DirOf(b), order, i);
    }
  }

  lemma PageMoves(b: seq<byte>, order: seq<nat>, p: int, cells: seq<Cell>, link: Link, i: nat, n: nat)
    requires PageIs(b, order, p, cells, link) && i < |cells| && cells[i].Live?
    ensures HasDir(b) && i < |DirOf(b).slots|
    ensures (Movable(DirOf(b), i, n) <==> n == |cells[i].data| || NoMarkBefore(cells, order, i))
  {
    CellKind(DirOf(b), order, b, i);
    MarkBefore(DirOf(b), order, b, i);
  }

  lemma FreelyIs(t: Table, r: RID, n: nat)
    requires r.page in t && At(t, r).Live?
    ensures MovesFreely(t, r, n) <==> n == |At(t, r).data| || NoMarkBefore(t[r.page].cells, t[r.page].order, r.slot)
  {
    var cells, order := t[r.page].cells, OrderOf(t, r.page);
    if MovesFreely(t, r, n) && n != |At(t, r).data| {
      forall j, k | 0 <= j < k < |order| && order[k] == r.slot && order[j] < |cells| ensures !cells[order[j]].Marked? {
        assert !At(t, RID(r.page, order[j])).Marked?;
      }
    }
    if NoMarkBefore(cells, order, r.slot) {
      forall j, k | 0 <= j < k < |order| && order[k] == r.slot ensures !At(t, RID(r.page, order[j])).Marked? {
        assert order[j] < |cells| ==> !cells[order[j]].Marked?;
      }
    }
  }

  lemma {:induction false} UsedUpToIs(t: Table, p: int, k: nat)
    requires p in t && k <= |t[p].order| && forall j :: 0 <= j < |t[p].order| ==> t[p].order[j] < |t[p].cells|
    ensures UsedUpTo(t, p, k) == Used(t[p].cells, t[p].order, k)
  {
    if k > 0 { UsedUpToIs(t, p, k - 1); }
  }

  /**
   * The bytes b of a page after tuple has been put into slot i, whatever is marked: where everything has gone, and what
   * the slots stand for.  Unmarked ones stand for what they stood for.
   */
  ghost predicate PageUpdated(b: seq<byte>, b': seq<byte>, cells: seq<Cell>, i: nat, tuple: seq<byte>) {
    && HasDir(b) && HasDir(b') && i < |DirOf(b).slots| == |cells|
    && DirOf(b') == Updated(DirOf(b), i, |tuple|)
    && Replaced(b, b', |cells|, DirOf(b).fsp, DirOf(b).slots[i].offset, DirOf(b).slots[i].size, tuple)
    && |CellsOf(DirOf(b'), b')| == |cells| && CellsOf(DirOf(b'), b')[i] == (if tuple == [] then Free else Live(tuple))
    && forall j :: 0 <= j < |cells| && j != i && !cells[j].Marked? ==> CellsOf(DirOf(b'), b')[j] == cells[j]
  }

  /** What UpdateTuple of a page says about its bytes. */
  ghost predicate BytesUpdated(b: seq<byte>, b': seq<byte>, cells: seq<Cell>, i: nat, tuple: seq<byte>) {
    && HasDir(b) && HasDir(b') && i < |DirOf(b).slots|
    && DirOf(b') == Updated(DirOf(b), i, |tuple|)
    && Replaced(b, b', |DirOf(b).slots|, DirOf(b).fsp, DirOf(b).slots[i].offset, DirOf(b).slots[i].size, tuple)
    && OneUpdated(DirOf(b), cells, CellsOf(DirOf(b'), b'), i, tuple)
  }

  lemma UpdatedIs(b: seq<byte>, order: seq<nat>, b': seq<byte>, cells: seq<Cell>, i: nat, tuple: seq<byte>)
    requires BytesUpdated(b, b', cells, i, tuple)
    requires Tiled(DirOf(b), order) && cells == CellsOf(DirOf(b), b)
    ensures PageUpdated(b, b', cells, i, tuple)
  {
    hide Tiled, Updated, Replaced;
    forall j: nat | j < |cells| && j != i && !cells[j].Marked? ensures CellsOf(DirOf(b'), b')[j] == cells[j] {
      CellKind(DirOf(b), order, b, j);
    }
  }

  class TableHeap {
    /** The pages, in the buffer pool. */
    var pages: map<int, seq<byte>>
    const firstPageId: int
    var nextPageId: int
    ghost var chain: seq<int>
    ghost var links: map<int, Link>
    ghost var table: Table

    ghost predicate PageIn(p: int)
      reads this
    {
      && p in pages && p in links && p in table && INVALID_PAGE_ID < p < nextPageId
      && PageIs(pages[p], table[p].order, p, table[p].cells, links[p])
    }

    ghost predicate Valid()
      reads this
    {
      && firstPageId in pages && INVALID_PAGE_ID < nextPageId <= INT_MAX
      && Chained(chain, links) && |chain| > 0 && chain[0] == firstPageId && (forall p :: p in chain <==> p in pages)
      && table.Keys == pages.Keys == links.Keys
      && (forall p {:trigger PageIn(p)} :: p in pages ==> PageIn(p))
    }

    /** A new table has one empty page. */
    constructor (firstId: int)
      requires INVALID_PAGE_ID < firstId < INT_MAX
      ensures Valid() && pages.Keys == {firstId} && nextPageId == firstId + 1 && chain == [firstId]
      ensures table == map[firstId := PageCells([], [])]
    {
      var page := new TablePage.Blank();
      page.Init(firstId, INVALID_PAGE_ID);
      firstPageId, nextPageId, pages := firstId, firstId + 1, map[firstId := page.data[..]];
      chain, links := [firstId], map[firstId := Link(INVALID_PAGE_ID, INVALID_PAGE_ID)];
      table := map[firstId := PageCells([], [])];
    }

    /** Fetch and pin a page; enough frames are assumed. */
    method FetchPage(p: int) returns (page: TablePage)
      requires Valid() && p in pages
      ensures fresh(page) && fresh(page.data) && page.Valid() && page.data[..] == pages[p]
      ensures PageIn(p) && page.cells == table[p].cells && page.order == table[p].order
    {
      assert PageIn(p);
      page := new TablePage.Read(pages[p], table[p].order);
    }

    /** The page goes back, with its tuples changed; unless the page is broken now, the heap stays sound. */
    method UnpinPage(p: int, page: TablePage)
      requires Valid() && PageIn(p) && page.data.Length == PAGE_SIZE && page.data[..16] == pages[p][..16]
      modifies this`pages, this`table
      ensures pages == old(pages)[p := page.data[..]] && pages.Keys == old(pages.Keys)
      ensures page.Valid() ==> Valid() && table == old(table)[p := PageCells(page.cells, page.order)]
      ensures !page.Valid() ==> table == old(table)
    {
      hide Chained, PageIs, TablePage.Valid;
      ghost var b := pages[p];
      PageLength(b, table[p].order, p, table[p].cells, links[p]);
      HeaderKept(b, page.data[..]);
      pages := pages[p := page.data[..]];
      if page.Valid() {
        PageIsBack(p, page, b);
        table := table[p := PageCells(page.cells, page.order)];
        forall q | q in pages ensures PageIn(q) {
          assert old(PageIn(q));
        }
      }
    }

    lemma PageIsBack(p: int, page: TablePage, b: seq<byte>)
      requires page.Valid() && p in table && p in links && PageIs(b, table[p].order, p, table[p].cells, links[p])
      requires |page.data[..]| == PAGE_SIZE
      requires Word(page.data[..], 0) == Word(b, 0) && Word(page.data[..], 8) == Word(b, 8)
      requires Word(page.data[..], 12) == Word(b, 12)
      ensures PageIs(page.data[..], page.order, p, page.cells, links[p])
    {
    }

    /** A page of a sound heap: tuples in use are in its order once, and the room is that between directory and tuples. */
    lemma PageRoom(p: int)
      requires Valid() && p in pages
      ensures PageIn(p) && Distinct(OrderOf(table, p)) && FreeIn(table, p) >= 0
      ensures HasDir(pages[p]) && FreeIn(table, p) == DirOf(pages[p]).fsp - DirEnd(|DirOf(pages[p]).slots|)
      ensures forall i: nat {:trigger At(table, RID(p, i))} :: !At(table, RID(p, i)).Free? ==>
          i in OrderOf(table, p) && At(table, RID(p, i)).data != []
    {
      assert PageIn(p);
      PageFacts(pages[p], table[p].order, p, table[p].cells, links[p]);
      UsedUpToIs(table, p, |table[p].order|);
    }

    method GetTuple(rid: RID) returns (ok: bool, tuple: seq<byte>)
      requires Valid() && rid.page in pages
      ensures ok == At(table, rid).Live? && (ok ==> tuple == At(table, rid).data)
    {
      var page := FetchPage(rid.page);
      ok, tuple := page.GetTuple(rid.slot);
    }

    /** Mark a tuple as deleted.  The transaction logs that, whether or not the page has anything to mark. */
    method MarkDelete(rid: RID, txn: Transaction)
      requires Valid() && rid.page in pages
      modifies this`pages, this`table, txn
      ensures Valid() && pages.Keys == old(pages.Keys) && txn.state == old(txn.state)
      ensures txn.writeSet == old(txn.writeSet) + [WriteRecord(rid, DELETE, [])]
      ensures
        var c := At(old(table), rid);
        if c.Live? then
          && Stepped(old(table), table, rid, Marked(c.data), OrderOf(old(table), rid.page))
          && Counted(old(table), table)
        else table == old(table)
    {
      hide Valid, TablePage.Valid, Stepped, Counted;
      var page := FetchPage(rid.page);
      ghost var cells := page.cells;
      var ok := page.MarkDelete(rid.slot);
      PageBack(rid, page, cells, ok && cells[rid.slot].Live?);
      UnpinPage(rid.page, page);
      txn.writeSet := txn.writeSet + [WriteRecord(rid, DELETE, [])];
    }

    /** The table after the page of r has changed at r, or has not changed. */
    lemma PageBack(r: RID, page: TablePage, cells: seq<Cell>, changed: bool)
      requires r.page in table && table[r.page].cells == cells
      requires changed ==>
        r.slot < |page.cells| && r.slot <= |cells| && page.cells == WithCell(cells, r.slot, page.cells[r.slot])
      requires !changed ==> page.cells == cells && page.order == table[r.page].order
      ensures
        var t' := table[r.page := PageCells(page.cells, page.order)];
        && (changed ==>
              && Stepped(table, t', r, page.cells[r.slot], page.order)
              && CountedUp(table, t') && CountedWith(table, t', r)
              && (r.slot < |cells| ==> Counted(table, t')))
        && (!changed ==> t' == table)
    {
      if changed { PageStepped(table, r, page.cells, page.order); }
    }

    /**
     * Replace a live tuple if there is room, and log the old one unless the transaction is being aborted.  The RID stands
     * for the new tuple then, and every unmarked one for its own.  An update to another length behind a mark breaks the
     * page: no order of its slots tiles it any more.
     */
    method UpdateTuple(tuple: seq<byte>, rid: RID, txn: Transaction) returns (ok: bool)
      requires Valid() && rid.page in pages
      modifies this`pages, this`table, txn
      ensures pages.Keys == old(pages.Keys) && txn.state == old(txn.state)
      ensures
        var c := At(old(table), rid);
        ok == (c.Live? && |tuple| <= FreeIn(old(table), rid.page) + |c.data|)
      ensures !ok ==> Valid() && table == old(table)
      ensures ok && MovesFreely(old(table), rid, |tuple|) ==>
        var order := OrderOf(old(table), rid.page);
        && Valid() && Counted(old(table), table)
        && Stepped(old(table), table, rid, if tuple == [] then Free else Live(tuple),
                   if tuple == [] then Drop(order, rid.slot) else order)
      ensures ok ==>
        && pages == old(pages)[rid.page := pages[rid.page]]
        && PageUpdated(old(pages)[rid.page], pages[rid.page], CellsIn(old(table), rid.page), rid.slot, tuple)
      ensures ok && !MovesFreely(old(table), rid, |tuple|) ==>
        |pages[rid.page]| == PAGE_SIZE && forall order :: !Tiled(DirOf(pages[rid.page]), order)
      ensures txn.writeSet ==
        if ok && txn.state != ABORTED then old(txn.writeSet) + [WriteRecord(rid, UPDATE, At(old(table), rid).data)]
        else old(txn.writeSet)
    {
      hide Valid, TablePage.Valid, Tiled, Movable, Stepped, Counted, MovesFreely, Updated, PageUpdated, Replaced, OneUpdated;
      var page := FetchPage(rid.page);
      LiveTuple(page, rid.slot);
      PageRoom(rid.page);
      MovesIs(rid, |tuple|);
      var oldTuple;
      ok, oldTuple := page.UpdateTuple(rid.slot, tuple);
      if ok { PutUpdated(rid, page, tuple); }
      if ok && txn.state != ABORTED {
        txn.writeSet := txn.writeSet + [WriteRecord(rid, UPDATE, oldTuple)];
      }
    }

    /** The updated page goes back. */
    method PutUpdated(rid: RID, page: TablePage, tuple: seq<byte>)
      requires Valid() && PageIn(rid.page) && At(table, rid).Live?
      requires page.data.Length == PAGE_SIZE && page.data[..16] == pages[rid.page][..16]
      requires BytesUpdated(pages[rid.page], page.data[..], table[rid.page].cells, rid.slot, tuple)
      requires MovesFreely(table, rid, |tuple|) ==>
        && page.Valid() && rid.slot < |table[rid.page].cells|
        && page.cells == table[rid.page].cells[rid.slot := if tuple == [] then Free else Live(tuple)]
        && page.order == if tuple == [] then Drop(table[rid.page].order, rid.slot) else table[rid.page].order
      requires !MovesFreely(table, rid, |tuple|) ==>
        HasDir(page.data[..]) && forall order :: !Tiled(DirOf(page.data[..]), order)
      modifies this`pages, this`table
      ensures pages.Keys == old(pages.Keys) && pages == old(pages)[rid.page := pages[rid.page]]
      ensures PageUpdated(old(pages)[rid.page], pages[rid.page], CellsIn(old(table), rid.page), rid.slot, tuple)
      ensures MovesFreely(old(table), rid, |tuple|) ==>
        var order := OrderOf(old(table), rid.page);
        && Valid() && Counted(old(table), table)
        && Stepped(old(table), table, rid, if tuple == [] then Free else Live(tuple),
                   if tuple == [] then Drop(order, rid.slot) else order)
      ensures !MovesFreely(old(table), rid, |tuple|) ==>
        |pages[rid.page]| == PAGE_SIZE && forall order :: !Tiled(DirOf(pages[rid.page]), order)
    {
      hide Valid, TablePage.Valid, Tiled, Stepped, Counted, MovesFreely, BytesUpdated, PageUpdated;
      ghost var b := page.data[..];
      UpdatedPage(rid, page, pages[rid.page], tuple);
      if MovesFreely(table, rid, |tuple|) { PageBack(rid, page, table[rid.page].cells, true); } else { Broken(page); }
      UnpinPage(rid.page, page);
      assert pages[rid.page] == b && |b| == PAGE_SIZE;
    }

    lemma UpdatedPage(rid: RID, page: TablePage, b: seq<byte>, tuple: seq<byte>)
      requires PageIn(rid.page) && b == pages[rid.page]
      requires BytesUpdated(b, page.data[..], table[rid.page].cells, rid.slot, tuple)
      ensures PageUpdated(b, page.data[..], CellsIn(table, rid.page), rid.slot, tuple)
    {
      hide Tiled, BytesUpdated, PageUpdated;
      assert HasDir(b) && Tiled(DirOf(b), table[rid.page].order);
      UpdatedIs(b, table[rid.page].order, page.data[..], table[rid.page].cells, rid.slot, tuple);
    }

    lemma Broken(page: TablePage)
      requires page.HasDirectory() && forall order :: !Tiled(page.Directory(), order)
      ensures !page.Valid()
    {
      assert !Tiled(page.Directory(), page.order);
    }

    lemma MovesIs(rid: RID, n: nat)
      requires PageIn(rid.page)
      ensures At(table, rid).Live? ==>
        && HasDir(pages[rid.page]) && rid.slot < |DirOf(pages[rid.page]).slots|
        && (MovesFreely(table, rid, n) <==> Movable(DirOf(pages[rid.page]), rid.slot, n))
    {
      hide MovesFreely, Movable, PageIs;
      if At(table, rid).Live? {
        FreelyIs(table, rid, n);
        PageMoves(pages[rid.page], table[rid.page].order, rid.page, table[rid.page].cells, links[rid.page], rid.slot, n);
      }
    }

    lemma LiveTuple(page: TablePage, i: nat)
      requires page.Valid()
      ensures page.HasDirectory() && |page.cells| == |page.Directory().slots| && page.data.Length == PAGE_SIZE
      ensures i < |page.cells| && page.cells[i].Live? ==> page.cells[i].data != [] && page.GetFreeSpaceSize() >= 0
    {
      if i < |page.cells| { CellKind(page.Directory(), page.order, page.data[..], i); }
    }

    /**
     * Free the slot of a tuple, marked or not.  If the assertions fail, and they do for a slot that ApplyDelete has freed,
     * nothing happens.
     */
    method ApplyDelete(rid: RID) returns (ok: bool)
      requires Valid() && rid.page in pages && (At(table, rid).Free? ==> !CanApplyDelete(pages, rid))
      modifies this`pages, this`table
      ensures Valid() && pages.Keys == old(pages.Keys) && Counted(old(table), table)
      ensures ok == CanApplyDelete(old(pages), rid) == !At(old(table), rid).Free?
      ensures ok ==> Stepped(old(table), table, rid, Free, Drop(OrderOf(old(table), rid.page), rid.slot))
      ensures !ok ==> table == old(table)
      ensures !CanApplyDelete(pages, rid) && StillFails(old(table), old(pages), pages)
    {
      hide Valid, TablePage.Valid, Stepped, Counted, At, SlotCanGo, StillFails;
      TupleCanGo(rid);
      AlikeSelf(table);
      var page := FetchPage(rid.page);
      ok := CheckSlot(page, rid.slot);
      if ok { FreeTuple(rid, page); } else { NothingFreed(table, pages); }
    }

    /** The assertions of ApplyDelete. */
    method CheckSlot(page: TablePage, i: nat) returns (ok: bool)
      requires page.Valid()
      ensures ok == SlotCanGo(page.data[..], i)
    {
      ok := i < page.GetTupleCount() && page.GetTupleOffset(i) >= page.GetFreeSpacePointer();
    }

    /** The assertions hold. */
    method FreeTuple(rid: RID, page: TablePage)
      requires Valid() && PageIn(rid.page) && !At(table, rid).Free?
      requires page.Valid() && page.data[..] == pages[rid.page]
      requires page.cells == table[rid.page].cells && page.order == table[rid.page].order
      modifies this`pages, this`table, page, page.data
      ensures Valid() && pages.Keys == old(pages.Keys) && Counted(old(table), table)
      ensures Stepped(old(table), table, rid, Free, Drop(OrderOf(old(table), rid.page), rid.slot))
      ensures !CanApplyDelete(pages, rid) && StillFails(old(table), old(pages), pages)
    {
      hide Valid, TablePage.Valid, Stepped, Counted, Tiled, Deleted, StillFails, SlotCanGo, HasDir, DirOf, CellsOf;
      LengthOf(page);
      ghost var cells := page.cells;
      page.ApplyDelete(rid.slot);
      LengthOf(page);
      OneFreed(table, pages, rid, page.data[..]);
      PageBack(rid, page, cells, true);
      UnpinPage(rid.page, page);
    }

    /** They hold where there is a tuple. */
    lemma TupleCanGo(rid: RID)
      requires Valid() && rid.page in pages
      ensures !At(table, rid).Free? ==> CanApplyDelete(pages, rid)
    {
      assert PageIn(rid.page);
      if !At(table, rid).Free? {
        CellKind(DirOf(pages[rid.page]), table[rid.page].order, pages[rid.page], rid.slot);
      }
    }

    lemma LengthOf(page: TablePage)
      requires page.Valid()
      ensures HasDir(page.data[..]) && page.Directory() == DirOf(page.data[..]) && page.HasDirectory()
      ensures page.cells == CellsOf(page.Directory(), page.data[..])
      ensures page.data.Length == PAGE_SIZE && page.HasDirectory() && Tiled(page.Directory(), page.order)
      ensures |page.cells| == |page.Directory().slots|
    {
    }

    method RollbackDelete(rid: RID)
      requires Valid() && rid.page in pages && rid.slot < CountOf(table, rid.page)
      modifies this`pages, this`table
      ensures Valid() && pages.Keys == old(pages.Keys)
      ensures
        var c := At(old(table), rid);
        if c.Marked? then
          && Stepped(old(table), table, rid, Live(c.data), OrderOf(old(table), rid.page)) && Counted(old(table), table)
        else table == old(table)
    {
      hide Valid, TablePage.Valid, Stepped, Counted, HasDir, DirOf, CellsOf, Tiled, Alike;
      var page := FetchPage(rid.page);
      ghost var cells := page.cells;
      page.RollbackDelete(rid.slot);
      PageBack(rid, page, cells, cells[rid.slot].Marked?);
      LengthOf(page);
      UnpinPage(rid.page, page);
    }

    /** The tuple goes into the first page of the chain that has room, or into a new page behind the last one. */
    method InsertTuple(tuple: seq<byte>, txn: Transaction) returns (ok: bool, rid: RID)
      requires Valid() && tuple != [] && nextPageId < INT_MAX
      modifies this, txn
      ensures Valid() && ok == (|tuple| + 32 <= PAGE_SIZE)
      ensures pages.Keys == old(pages.Keys) + if ok then {rid.page} else {}
      ensures ok ==> At(old(table), rid).Free? && CountedUp(old(table), table)
      ensures ok ==> Stepped(old(table), table, rid, Live(tuple), [rid.slot] + OrderOf(old(table), rid.page))
      ensures ok ==> CountedWith(old(table), table, rid)
      ensures chain == if rid.page in old(pages) || !ok then old(chain) else old(chain) + [rid.page]
      ensures ok ==> txn.state == old(txn.state) && txn.writeSet == old(txn.writeSet) + [WriteRecord(rid, INSERT, [])]
      ensures !ok ==> txn.state == ABORTED && txn.writeSet == old(txn.writeSet) && table == old(table)
      ensures ok ==>
        && FirstWithRoom(old(chain), old(table), |tuple|, rid.page)
        && rid.slot == FirstFree(CellsIn(old(table), rid.page))
      ensures nextPageId == old(nextPageId) + if ok && rid.page !in old(pages) then 1 else 0
      ensures ok && rid.page !in old(pages) ==> rid.page == old(nextPageId)
    {
      hide Valid, Stepped, FirstWithRoom, CountedUp, CountedWith, At, CellsIn, FirstFree, OrderOf;
      rid := RID(INVALID_PAGE_ID, 0);
      if |tuple| + 32 > PAGE_SIZE {
        txn.state := ABORTED;
        return false, rid;
      }
      rid := FindRoom(tuple);
      txn.writeSet := txn.writeSet + [WriteRecord(rid, INSERT, [])];
      ok := true;
    }

    /** The loop of InsertTuple. */
    method FindRoom(tuple: seq<byte>) returns (rid: RID)
      requires Valid() && 0 < |tuple| <= PAGE_SIZE - 32 && nextPageId < INT_MAX
      modifies this
      ensures Valid() && pages.Keys == old(pages.Keys) + {rid.page} && CountedUp(old(table), table)
      ensures At(old(table), rid).Free?
      ensures Stepped(old(table), table, rid, Live(tuple), [rid.slot] + OrderOf(old(table), rid.page))
      ensures CountedWith(old(table), table, rid)
      ensures chain == if rid.page in old(pages) then old(chain) else old(chain) + [rid.page]
      ensures FirstWithRoom(old(chain), old(table), |tuple|, rid.page)
      ensures rid.slot == FirstFree(CellsIn(old(table), rid.page))
      ensures nextPageId == old(nextPageId) + if rid.page !in old(pages) then 1 else 0
      ensures rid.page !in old(pages) ==> rid.page == old(nextPageId)
    {
      hide Valid, Alike, Stepped, At, IsNew, CountedUp, CountedWith, RoomFor, FirstFree;
      ChainStart();
      var cur, done := firstPageId, false;
      ghost var k: nat := 0;
      ghost var created := false;
      ghost var before := table;
      rid := RID(cur, 0);
      while !done
        invariant Valid() && k < |chain| && chain[k] == cur && cur in pages && pages.Keys == old(pages.Keys) + {cur}
        invariant done || table == before
        invariant !created ==> before == old(table) && chain == old(chain) && nextPageId == old(nextPageId) < INT_MAX
        invariant created ==> cur !in old(table) && before == old(table)[cur := PageCells([], [])]
        invariant created ==> k == |old(chain)| && cur == old(nextPageId) == nextPageId - 1 && (done || IsNew(cur))
        invariant NoneBefore(old(chain), old(table), |tuple|, k)
        invariant if created then chain == old(chain) + [cur] && cur !in old(pages) else pages.Keys == old(pages.Keys)
        invariant done ==> CountedUp(before, table) && CountedWith(before, table, rid)
        invariant done ==> rid == RID(cur, FirstFree(CellsIn(before, cur)))
        invariant done ==> RoomFor(before, cur, |tuple|) && At(before, rid).Free?
        invariant done ==> Stepped(before, table, rid, Live(tuple), [rid.slot] + OrderOf(before, cur))
        decreases !done, !created, |chain| - k
      {
        done, rid := TryPage(cur, tuple);
        if !done {
          cur, k, created := Advance(cur, k);
          before := table;
        }
      }
      if created {
        AlikeWithPage(old(table), cur);
        CountedUpTwice(old(table), before, table);
        AlikeThenStepped(old(table), before, table, rid, Live(tuple), [rid.slot] + OrderOf(before, cur));
        CountedWithPage(old(table), cur, table, rid);
      }
    }

    lemma ChainStart()
      requires Valid()
      ensures |chain| > 0 && chain[0] == firstPageId && firstPageId in pages
    {
    }

    /** The page behind cur, which is a new one if cur is the last. */
    method Advance(cur: int, ghost k: nat) returns (next: int, ghost k': nat, ghost created: bool)
      requires Valid() && k < |chain| && chain[k] == cur && cur in pages && nextPageId < INT_MAX
      modifies this
      ensures Valid() && old(pages.Keys) <= pages.Keys && k' < |chain| && chain[k'] == next && next in pages
      ensures !created ==>
        nextPageId == old(nextPageId) && pages == old(pages) && table == old(table) && chain == old(chain)
      ensures created ==>
        && pages.Keys == old(pages.Keys) + {next} && next == old(nextPageId) && nextPageId == next + 1
        && IsNew(next) && next !in old(table) && next !in old(pages)
        && chain == old(chain) + [next]
        && table == old(table)[next := PageCells([], [])]
      ensures k' == k + 1 && (created ==> k' == |old(chain)|)
    {
      hide Chained, PageIs, IsNew;
      next := NextPage(cur, k);
      k', created := k + 1, next == INVALID_PAGE_ID;
      if next != INVALID_PAGE_ID {
        assert chain[k'] in chain;
      } else {
        next := AppendPage(cur);
      }
    }

    ghost predicate IsNew(p: int)
      reads this
    {
      PageIn(p) && DirOf(pages[p]) == Dir(PAGE_SIZE, [])
    }

    /** Try one page; a new one has room. */
    method TryPage(cur: int, tuple: seq<byte>) returns (ok: bool, rid: RID)
      requires Valid() && cur in pages && 0 < |tuple| <= PAGE_SIZE - 32
      modifies this`pages, this`table
      ensures Valid() && pages.Keys == old(pages.Keys) && table.Keys == old(table.Keys)
      ensures rid == RID(cur, FirstFree(CellsIn(old(table), cur))) && ok == RoomFor(old(table), cur, |tuple|)
      ensures ok ==> At(old(table), rid).Free? && CountedUp(old(table), table) && CountedWith(old(table), table, rid)
      ensures ok ==> Stepped(old(table), table, rid, Live(tuple), [rid.slot] + OrderOf(old(table), rid.page))
      ensures !ok ==> table == old(table)
      ensures old(IsNew(cur)) ==> ok
    {
      hide Chained, TablePage.Valid, Tiled, Stepped, CountedUp, CountedWith;
      var page := FetchPage(cur);
      LiveTuple(page, 0);
      PageRoom(cur);
      ghost var cells := page.cells;
      var slot;
      ok, slot := page.InsertTuple(tuple);
      rid := RID(cur, slot);
      if ok {
        PageBack(rid, page, cells, true);
        UnpinPage(cur, page);
      }
    }

    method NextPage(cur: int, ghost k: nat) returns (next: int)
      requires Valid() && k < |chain| && chain[k] == cur
      ensures if next == INVALID_PAGE_ID then k + 1 == |chain| else k + 1 < |chain| && next == chain[k + 1]
    {
      var page := FetchPage(cur);
      next := page.GetWord(12);
    }

    /** A new page behind the last one of the chain. */
    method AppendPage(last: int) returns (id: int)
      requires Valid() && last == chain[|chain| - 1] && nextPageId < INT_MAX
      modifies this
      ensures Valid() && id !in old(pages) && pages.Keys == old(pages.Keys) + {id} && IsNew(id)
      ensures id == old(nextPageId) && nextPageId == id + 1
      ensures chain == old(chain) + [id] && table == old(table)[id := PageCells([], [])]
    {
      hide PageIs, Chained;
      assert last in chain;
      id := nextPageId;
      FreshId();
      var b := Relink(last, id);
      var b' := MakePage(id, last);
      AddPage(last, id, b, b');
    }

    lemma FreshId()
      requires Valid()
      ensures nextPageId !in pages && nextPageId !in chain && chain[|chain| - 1] < nextPageId
    {
      forall q | q in pages ensures q < nextPageId { assert PageIn(q); }
      assert chain[|chain| - 1] in chain;
    }

    /** The last page with its new link, and the new page, go to the buffer pool. */
    method AddPage(last: int, id: int, b: seq<byte>, b': seq<byte>)
      requires Valid() && last == chain[|chain| - 1] && last in pages && nextPageId < INT_MAX
      requires id == nextPageId && id !in pages && id !in chain
      requires PageIs(b, table[last].order, last, table[last].cells, links[last].(next := id))
      requires PageIs(b', [], id, [], Link(last, INVALID_PAGE_ID))
      modifies this
      ensures Valid() && pages == old(pages)[last := b][id := b'] && chain == old(chain) + [id]
      ensures nextPageId == id + 1
      ensures table == old(table)[id := PageCells([], [])] && PageIn(id)
    {
      hide PageIs, Chained;
      ChainGrows(chain, links, id);
      nextPageId := nextPageId + 1;
      links, chain := Relinked(links, last, id), chain + [id];
      pages := pages[last := b][id := b'];
      table := table[id := PageCells([], [])];
      forall q | q in pages ensures PageIn(q) {
        assert q == id || old(PageIn(q));
      }
    }

    /** The bytes of the last page, with a link to the next one. */
    method Relink(last: int, next: int) returns (b: seq<byte>)
      requires PageIn(last) && next <= INT_MAX && next >= INT_MIN
      ensures PageIs(b, table[last].order, last, table[last].cells, links[last].(next := next))
    {
      var page := new TablePage.Read(pages[last], table[last].order);
      page.SetNextPageId(next);
      b := page.data[..];
    }

    /** The bytes of a new page. */
    method MakePage(id: int, last: int) returns (b: seq<byte>)
      requires INT_MIN <= id <= INT_MAX && INT_MIN <= last <= INT_MAX
      ensures PageIs(b, [], id, [], Link(last, INVALID_PAGE_ID)) && DirOf(b) == Dir(PAGE_SIZE, [])
    {
      var page := new TablePage.Blank();
      page.Init(id, last);
      b := page.data[..];
    }
  }
}
