/** Commit and abort: the write set of a transaction is gone through from the back. */
module TransactionManagers {
  import opened Common
  import opened PageLayout
  import opened TableHeaps

  // ----- taking back one step -----

  /** Some record from number n on deletes r. */
  ghost predicate DeletedFrom(log: seq<WriteRecord>, n: nat, r: RID) {
    exists k :: n <= k < |log| && log[k].wtype == DELETE && log[k].rid == r
  }

  /**
   * What is in the place of c when the records from number n on have been taken back.  A deletion that finds a mark does
   * nothing, but taking it back takes the mark away.
   */
  ghost function Lifted(c: Cell, log: seq<WriteRecord>, n: nat, r: RID): Cell {
    if c.Marked? && DeletedFrom(log, n, r) then Live(c.data) else c
  }

  /** The records from number n on have been taken back, and t was the table when there were n records. */
  ghost predicate UndoneTo(t: Table, log: seq<WriteRecord>, n: nat, cur: Table) {
    && (forall r {:trigger At(cur, r)} {:trigger At(t, r)} :: At(cur, r) == Lifted(At(t, r), log, n, r))
    && forall p {:trigger OrderOf(cur, p)} {:trigger OrderOf(t, p)} :: OrderOf(cur, p) == OrderOf(t, p)
  }

  /** An abort brings everything back exactly if no deletion names a tuple that was marked before the transaction. */
  lemma UndoneIsAlike(t: Table, log: seq<WriteRecord>, cur: Table)
    requires UndoneTo(t, log, 0, cur)
    ensures Alike(t, cur) <==> forall r {:trigger At(t, r)} :: Deletes(log, r) ==> !At(t, r).Marked?
  {
    forall r ensures Deletes(log, r) <==> DeletedFrom(log, 0, r) {}
    forall r | Deletes(log, r) ensures Alike(t, cur) ==> !At(t, r).Marked? {
      assert At(cur, r) == Lifted(At(t, r), log, 0, r);
    }
    if forall r {:trigger At(t, r)} :: Deletes(log, r) ==> !At(t, r).Marked? {
      forall r ensures At(cur, r) == At(t, r) {
        assert At(cur, r) == Lifted(At(t, r), log, 0, r);
      }
    }
  }

  lemma NothingUndone(t: Table, log: seq<WriteRecord>, cur: Table)
    requires Alike(t, cur)
    ensures UndoneTo(t, log, |log|, cur)
  {
    forall r ensures At(cur, r) == Lifted(At(t, r), log, |log|, r) {
      assert At(cur, r) == At(t, r);
    }
  }

  /** Record n and the table after it. */
  ghost predicate AtRecord(t: Table, t': Table, log: seq<WriteRecord>, n: nat, cur: Table) {
    n < |log| && Logs(t, t', log[n]) && UndoneTo(t', log, n + 1, cur)
  }

  /** Taking back a step that has changed something. */
  lemma StepUndone(t: Table, t': Table, log: seq<WriteRecord>, n: nat, c: Cell, order: seq<nat>, cur: Table, cur': Table)
    requires AtRecord(t, t', log, n, cur) && Stepped(t, t', log[n].rid, c, order) && !At(t, log[n].rid).Marked?
    requires Stepped(cur, cur', log[n].rid, At(t, log[n].rid), OrderOf(t, log[n].rid.page))
    ensures UndoneTo(t, log, n, cur')
  {
    hide Logs;
    var r := log[n].rid;
    forall x ensures At(cur', x) == Lifted(At(t, x), log, n, x) {
      if x != r {
        assert At(cur, x) == Lifted(At(t', x), log, n + 1, x) && At(t', x) == At(t, x);
        assert DeletedFrom(log, n, x) <==> DeletedFrom(log, n + 1, x);
      }
    }
    forall p ensures OrderOf(cur', p) == OrderOf(t, p) {
      assert OrderOf(cur, p) == OrderOf(t', p);
      assert p == r.page || OrderOf(t', p) == OrderOf(t, p);
    }
  }

  /** Taking back a deletion that has changed nothing. */
  lemma IdleUndone(t: Table, t': Table, log: seq<WriteRecord>, n: nat, cur: Table, cur': Table)
    requires AtRecord(t, t', log, n, cur) && log[n].wtype == DELETE && !At(t, log[n].rid).Live?
    requires if At(cur, log[n].rid).Marked? then
        Stepped(cur, cur', log[n].rid, Live(At(cur, log[n].rid).data), OrderOf(cur, log[n].rid.page))
      else cur' == cur
    ensures UndoneTo(t, log, n, cur')
  {
    var r := log[n].rid;
    assert DeletedFrom(log, n, r);
    forall x ensures At(cur', x) == Lifted(At(t, x), log, n, x) {
      assert At(cur, x) == Lifted(At(t', x), log, n + 1, x) && At(t', x) == At(t, x);
      assert At(cur', x) == At(cur, x) || x == r;
      if x != r { assert DeletedFrom(log, n, x) <==> DeletedFrom(log, n + 1, x); }
    }
    forall p ensures OrderOf(cur', p) == OrderOf(t, p) {
      assert OrderOf(cur, p) == OrderOf(t', p) && OrderOf(t', p) == OrderOf(t, p);
      assert OrderOf(cur', p) == OrderOf(cur, p);
    }
  }

  /** Marks do not take room. */
  lemma {:induction false} UsedUndone(t: Table, log: seq<WriteRecord>, n: nat, cur: Table, p: int, k: nat)
    requires UndoneTo(t, log, n, cur) && k <= |OrderOf(t, p)|
    ensures OrderOf(cur, p) == OrderOf(t, p) && UsedUpTo(cur, p, k) == UsedUpTo(t, p, k)
  {
    assert OrderOf(cur, p) == OrderOf(t, p);
    if k > 0 {
      UsedUndone(t, log, n, cur, p, k - 1);
      var r := RID(p, OrderOf(t, p)[k - 1]);
      assert At(cur, r) == Lifted(At(t, r), log, n, r);
    }
  }

  /** A tuple that keeps its place and gets another length. */
  lemma {:induction false} UsedStepped(t: Table, t': Table, r: RID, c: Cell, k: nat)
    requires Stepped(t, t', r, c, OrderOf(t, r.page)) && Distinct(OrderOf(t, r.page)) && k <= |OrderOf(t, r.page)|
    ensures OrderOf(t', r.page) == OrderOf(t, r.page)
    ensures UsedUpTo(t', r.page, k) ==
      UsedUpTo(t, r.page, k) + if r.slot in OrderOf(t, r.page)[..k] then SizeOf(c) - SizeOf(At(t, r)) else 0
  {
    var order := OrderOf(t, r.page);
    assert OrderOf(t', r.page) == order;
    if k > 0 {
      UsedStepped(t, t', r, c, k - 1);
      assert order[..k] == order[..k - 1] + [order[k - 1]];
      var x := RID(r.page, order[k - 1]);
      assert At(t', x) == if x == r then c else At(t, x);
    }
  }

  /**
   * The tuple before an update has room again exactly if the page, with the slot directory that it has now, has room for
   * the tuples that it had before the update.
   */
  lemma RoomToUndo(t: Table, t': Table, log: seq<WriteRecord>, n: nat, cur: Table)
    requires AtRecord(t, t', log, n, cur) && log[n].wtype == UPDATE && At(t', log[n].rid).Live?
    requires Distinct(OrderOf(cur, log[n].rid.page)) && log[n].rid.slot in OrderOf(cur, log[n].rid.page)
    ensures
      var w := log[n];
      && At(cur, w.rid) == At(t', w.rid)
      && (|w.tuple| <= FreeIn(cur, w.rid.page) + |At(cur, w.rid).data| <==>
            DirEnd(CountOf(cur, w.rid.page)) + UsedIn(t, w.rid.page) <= PAGE_SIZE)
  {
    var w, p := log[n], log[n].rid.page;
    var x :| UpdatedTo(t, t', w.rid, x);
    assert At(t', w.rid) == if x == [] then Free else Live(x);
    assert OrderOf(cur, p) == OrderOf(t', p) && OrderOf(t', p) == OrderOf(t, p);
    UsedUndone(t', log, n + 1, cur, p, |OrderOf(t', p)|);
    UsedStepped(t, t', w.rid, Live(x), |OrderOf(t, p)|);
    assert OrderOf(t, p)[..|OrderOf(t, p)|] == OrderOf(t, p);
    assert At(cur, w.rid) == Lifted(At(t', w.rid), log, n + 1, w.rid);
  }

  /** The tuples in front of an updated one follow in the undo if they followed in the update. */
  lemma MovesBack(t: Table, t': Table, log: seq<WriteRecord>, n: nat, cur: Table)
    requires AtRecord(t, t', log, n, cur) && log[n].wtype == UPDATE && At(t', log[n].rid).Live?
    ensures MovesFreely(cur, log[n].rid, |log[n].tuple|)
  {
    var w, r := log[n], log[n].rid;
    var x :| UpdatedTo(t, t', r, x);
    assert At(t', r) == if x == [] then Free else Live(x);
    assert At(cur, r) == Lifted(At(t', r), log, n + 1, r);
    if |x| != |w.tuple| {
      var order := OrderOf(t, r.page);
      assert OrderOf(cur, r.page) == OrderOf(t', r.page) && OrderOf(t', r.page) == order;
      forall j, k | 0 <= j < k < |order| && order[k] == r.slot ensures !At(cur, RID(r.page, order[j])).Marked? {
        var y := RID(r.page, order[j]);
        assert At(cur, y) == Lifted(At(t', y), log, n + 1, y) && !At(t, y).Marked?;
        assert At(t', y) == if y == r then Live(x) else At(t, y);
      }
    }
  }

  /** What is in the place of the last logged step. */
  lemma StepLeft(t: Table, t': Table, log: seq<WriteRecord>, n: nat, cur: Table)
    requires AtRecord(t, t', log, n, cur)
    ensures
      var w, c := log[n], At(cur, log[n].rid);
      match w.wtype
      case INSERT =>
        c.Live? && At(t, w.rid).Free? && OrderOf(cur, w.rid.page) == [w.rid.slot] + OrderOf(t, w.rid.page)
      case DELETE =>
        && OrderOf(cur, w.rid.page) == OrderOf(t, w.rid.page)
        && (At(t, w.rid).Live? ==> c == At(t, w.rid) || c == Marked(At(t, w.rid).data))
      case UPDATE =>
        && At(t, w.rid) == Live(w.tuple) && w.tuple != [] && !c.Marked?
        && (c.Live? ==> c == At(t', w.rid) && OrderOf(cur, w.rid.page) == OrderOf(t, w.rid.page))
        && (At(t', w.rid).Live? <==> c.Live?)
  {
    var w := log[n];
    assert At(cur, w.rid) == Lifted(At(t', w.rid), log, n + 1, w.rid);
    assert OrderOf(cur, w.rid.page) == OrderOf(t', w.rid.page);
    assert OrderOf(t', w.rid.page) == OrderOf(t', w.rid.page) && At(t', w.rid) == At(t', w.rid);
  }

  /** How the step got from t to t'. */
  lemma HowStepped(t: Table, t': Table, w: WriteRecord) returns (c: Cell, order: seq<nat>)
    requires Logs(t, t', w) && (w.wtype == DELETE ==> At(t, w.rid).Live?)
    ensures Stepped(t, t', w.rid, c, order)
  {
    match w.wtype {
      case INSERT =>
        var x :| x != [] && Stepped(t, t', w.rid, Live(x), [w.rid.slot] + OrderOf(t, w.rid.page));
        c, order := Live(x), [w.rid.slot] + OrderOf(t, w.rid.page);
      case DELETE =>
        c, order := Marked(At(t, w.rid).data), OrderOf(t, w.rid.page);
      case UPDATE =>
        var x :| UpdatedTo(t, t', w.rid, x);
        if x == [] {
          c, order := Free, Drop(OrderOf(t, w.rid.page), w.rid.slot);
        } else {
          c, order := Live(x), OrderOf(t, w.rid.page);
        }
    }
  }

  /**
   * A record can be taken back.  An insertion always can, and a deletion if there is such a slot; an update can if its
   * tuple is not empty, and if the page, with the slot directory that it has at the end, has room for the tuples it had
   * before the update.
   */
  ghost predicate CanUndo(t: Table, t': Table, w: WriteRecord, end: Table) {
    match w.wtype
    case INSERT => true
    case DELETE => w.rid.slot < CountOf(end, w.rid.page)
    case UPDATE =>
      At(t', w.rid).Live? && DirEnd(CountOf(end, w.rid.page)) + UsedIn(t, w.rid.page) <= PAGE_SIZE
  }

  ghost predicate CanAbort(trail: seq<Table>, log: seq<WriteRecord>, end: Table)
    requires |trail| == |log| + 1
  {
    forall k {:trigger log[k]} :: 0 <= k < |log| ==> CanUndo(trail[k], trail[k + 1], log[k], end)
  }

  /** Updates to the same length can be taken back whatever has happened to the slot directory since. */
  lemma SameLengthCanUndo(t: Table, t': Table, log: seq<WriteRecord>, n: nat, cur: Table)
    requires AtRecord(t, t', log, n, cur) && log[n].wtype == UPDATE && FreeIn(cur, log[n].rid.page) >= 0
    requires At(t', log[n].rid).Live? && |At(t', log[n].rid).data| == |log[n].tuple|
    requires Distinct(OrderOf(cur, log[n].rid.page)) && log[n].rid.slot in OrderOf(cur, log[n].rid.page)
    ensures CanUndo(t, t', log[n], cur)
  {
    RoomToUndo(t, t', log, n, cur);
  }

  /** The slot counts do not change during an abort. */
  lemma CanStillUndo(t: Table, t': Table, w: WriteRecord, end: Table, cur: Table)
    requires CanUndo(t, t', w, end) && Counted(end, cur)
    ensures CanUndo(t, t', w, cur)
  {
    assert CountOf(cur, w.rid.page) == CountOf(end, w.rid.page);
  }

  lemma CountedTwice(t0: Table, t: Table, t': Table)
    requires Counted(t0, t) && Counted(t, t')
    ensures Counted(t0, t')
  {
    forall p ensures CountOf(t', p) == CountOf(t0, p) {
      assert CountOf(t, p) == CountOf(t0, p);
    }
  }

  /** If there is no room for the tuple, another one is in its place. */
  lemma NotUndone(t: Table, log: seq<WriteRecord>, n: nat, cur: Table)
    requires n < |log| && At(t, log[n].rid) == Live(log[n].tuple) && FreeIn(cur, log[n].rid.page) >= 0
    requires
      var c := At(cur, log[n].rid);
      !(c.Live? && |log[n].tuple| <= FreeIn(cur, log[n].rid.page) + |c.data|)
    ensures !UndoneTo(t, log, n, cur)
  {
    assert UndoneTo(t, log, n, cur) ==> At(cur, log[n].rid) == Lifted(At(t, log[n].rid), log, n, log[n].rid);
  }

  class TransactionManager {

    constructor () {
    }

    method Begin() returns (txn: Transaction)
      ensures fresh(txn) && txn.state == GROWING && txn.writeSet == []
    {
      txn := new Transaction();
    }

    /** The transaction has logged everything it did, and nothing else has happened to the table since `trail[0]`. */
    ghost predicate Active(heap: TableHeap, log: seq<WriteRecord>, trail: seq<Table>)
      reads heap
    {
      && heap.Valid() && Logged(trail, log) && Alike(trail[|log|], heap.table)
      && forall k {:trigger log[k]} :: 0 <= k < |log| ==> log[k].rid.page in heap.pages
    }

    /** And the records from number n on have been taken back. */
    ghost predicate Undoing(heap: TableHeap, log: seq<WriteRecord>, trail: seq<Table>, n: nat)
      reads heap
    {
      && heap.Valid() && Logged(trail, log) && n <= |log| && UndoneTo(trail[n], log, n, heap.table)
      && forall k {:trigger log[k]} :: 0 <= k < |log| ==> log[k].rid.page in heap.pages
    }

    /**
     * Abort is an exact undo but for marks that were there before the transaction: if it has deleted such a tuple once
     * more, the mark is gone.
     */
    method Abort(txn: Transaction, heap: TableHeap, ghost trail: seq<Table>)
      requires Active(heap, txn.writeSet, trail) && CanAbort(trail, txn.writeSet, heap.table)
      modifies txn, heap`pages, heap`table
      ensures heap.Valid() && heap.pages.Keys == old(heap.pages.Keys) && txn.state == ABORTED && txn.writeSet == []
      ensures UndoneTo(trail[0], old(txn.writeSet), 0, heap.table)
    {
      hide Alike, UndoneTo, Counted, CanUndo, Logs, TableHeap.Valid;
      txn.state := ABORTED;
      ghost var log, end := txn.writeSet, heap.table;
      AlikeSelf(end);
      NothingUndone(trail[|log|], log, end);
      assert log[..|log|] == log;
      while txn.writeSet != []
        invariant |txn.writeSet| <= |log| && txn.writeSet == log[..|txn.writeSet|] && txn.state == ABORTED
        invariant Undoing(heap, log, trail, |txn.writeSet|) && Counted(end, heap.table)
        invariant heap.pages.Keys == old(heap.pages.Keys)
        decreases |txn.writeSet|
      {
        ghost var cur, n := heap.table, |txn.writeSet| - 1;
        CanStillUndo(trail[n], trail[n + 1], log[n], end, cur);
        ghost var undone := UndoLast(txn, heap, log, trail);
        CountedTwice(end, cur, heap.table);
      }
    }

    /**
     * Take back the step in the last record; for a deletion the slot has to be there.  Whether that succeeds is told by
     * CanUndo.
     */
    method UndoLast(txn: Transaction, heap: TableHeap, ghost log: seq<WriteRecord>, ghost trail: seq<Table>)
      returns (ghost undone: bool)
      requires 0 < |txn.writeSet| <= |log| && txn.writeSet == log[..|txn.writeSet|] && txn.state == ABORTED
      requires Undoing(heap, log, trail, |txn.writeSet|)
      requires
        var n := |txn.writeSet| - 1;
        log[n].wtype == DELETE ==> CanUndo(trail[n], trail[n + 1], log[n], heap.table)
      modifies txn, heap`pages, heap`table
      ensures
        var n := |old(txn.writeSet)| - 1;
        && txn.writeSet == log[..n] && txn.state == ABORTED
        && heap.Valid() && Counted(old(heap.table), heap.table) && heap.pages.Keys == old(heap.pages.Keys)
        && undone == CanUndo(trail[n], trail[n + 1], log[n], old(heap.table))
        && (undone <==> UndoneTo(trail[n], log, n, heap.table))
        && (!undone ==> heap.table == old(heap.table))
    {
      hide UndoneTo, Counted, Stepped, Logs, At, TableHeap.Valid;
      var item := txn.writeSet[|txn.writeSet| - 1];
      ghost var n := |txn.writeSet| - 1;
      assert item == log[n] && Logs(trail[n], trail[n + 1], log[n]);
      match item.wtype {
        case INSERT =>
          UndoInsert(heap, item.rid, trail[n], trail[n + 1], log, n);
          undone := true;
        case DELETE =>
          UndoDelete(heap, item.rid, trail[n], trail[n + 1], log, n);
          undone := true;
        case UPDATE =>
          undone := UndoUpdate(txn, heap, item, trail[n], trail[n + 1], log, n);
      }
      txn.writeSet := txn.writeSet[..|txn.writeSet| - 1];
    }

    method UndoInsert(heap: TableHeap, rid: RID, ghost t: Table, ghost t': Table, ghost log: seq<WriteRecord>, ghost n: nat)
      requires heap.Valid() && rid.page in heap.pages && AtRecord(t, t', log, n, heap.table)
      requires log[n].wtype == INSERT && log[n].rid == rid
      modifies heap`pages, heap`table
      ensures heap.Valid() && Counted(old(heap.table), heap.table) && heap.pages.Keys == old(heap.pages.Keys)
      ensures UndoneTo(t, log, n, heap.table)
    {
      hide UndoneTo, Counted, Stepped, Logs, TableHeap.Valid, At;
      ghost var cur := heap.table;
      StepLeft(t, t', log, n, cur);
      ghost var c, order := HowStepped(t, t', log[n]);
      var ok := heap.ApplyDelete(rid);
      StepUndone(t, t', log, n, c, order, cur, heap.table);
    }

    method UndoDelete(heap: TableHeap, rid: RID, ghost t: Table, ghost t': Table, ghost log: seq<WriteRecord>, ghost n: nat)
      requires heap.Valid() && rid.page in heap.pages && rid.slot < CountOf(heap.table, rid.page)
      requires AtRecord(t, t', log, n, heap.table) && log[n].wtype == DELETE && log[n].rid == rid
      modifies heap`pages, heap`table
      ensures heap.Valid() && Counted(old(heap.table), heap.table) && heap.pages.Keys == old(heap.pages.Keys)
      ensures UndoneTo(t, log, n, heap.table)
    {
      hide UndoneTo, Stepped, Logs, TableHeap.Valid, At;
      ghost var cur := heap.table;
      StepLeft(t, t', log, n, cur);
      heap.RollbackDelete(rid);
      if At(t, rid).Live? {
        ghost var c, order := HowStepped(t, t', log[n]);
        if !At(cur, rid).Marked? { SteppedSelf(cur, rid); }
        StepUndone(t, t', log, n, c, order, cur, heap.table);
      } else {
        IdleUndone(t, t', log, n, cur, heap.table);
      }
    }

    lemma SteppedSelf(t: Table, r: RID)
      ensures Stepped(t, t, r, At(t, r), OrderOf(t, r.page))
    {
    }

    method UndoUpdate(txn: Transaction, heap: TableHeap, item: WriteRecord, ghost t: Table, ghost t': Table,
                      ghost log: seq<WriteRecord>, ghost n: nat) returns (ghost undone: bool)
      requires heap.Valid() && txn.state == ABORTED && item.rid.page in heap.pages
      requires AtRecord(t, t', log, n, heap.table) && log[n] == item && item.wtype == UPDATE
      modifies txn, heap`pages, heap`table
      ensures txn.writeSet == old(txn.writeSet) && txn.state == ABORTED
      ensures heap.Valid() && Counted(old(heap.table), heap.table) && heap.pages.Keys == old(heap.pages.Keys)
      ensures undone == CanUndo(t, t', item, old(heap.table)) && (undone <==> UndoneTo(t, log, n, heap.table))
      ensures !undone ==> heap.table == old(heap.table)
    {
      hide UndoneTo, Counted, Stepped, Logs, At, TableHeap.Valid, MovesFreely;
      ghost var cur := heap.table;
      StepLeft(t, t', log, n, cur);
      heap.PageRoom(item.rid.page);
      SlotIs(item.rid);
      if At(t', item.rid).Live? {
        RoomToUndo(t, t', log, n, cur);
        MovesBack(t, t', log, n, cur);
      }
      undone := heap.UpdateTuple(item.tuple, item.rid, txn);
      AlikeSelf(cur);
      if undone {
        ghost var c, order := HowStepped(t, t', item);
        StepUndone(t, t', log, n, c, order, cur, heap.table);
      } else {
        NotUndone(t, log, n, cur);
      }
    }

    lemma SlotIs(r: RID)
      ensures RID(r.page, r.slot) == r
    {
    }

    /** A transaction that has deleted only live tuples can be committed. */
    lemma ActiveCanCommit(heap: TableHeap, log: seq<WriteRecord>, trail: seq<Table>)
      requires Active(heap, log, trail) && FoundLive(trail, log)
      ensures CanCommit(heap.table, log, 0)
    {
      hide Logs;
      assert log[..|log|] == log;
      forall i, j | 0 <= i < j < |log| && log[i].wtype == DELETE && log[j].wtype == DELETE
        ensures log[i].rid != log[j].rid
      {
        MarkedOnce(trail, log, i, j);
      }
      forall k | 0 <= k < |log| && log[k].wtype == DELETE ensures !At(heap.table, log[k].rid).Free? {
        MarksStay(trail, log, |log|, log[k].rid);
        assert Deletes(log, log[k].rid);
        assert At(heap.table, log[k].rid) == At(trail[|log|], log[k].rid);
      }
    }

    /** The slots of deletions that have nothing to free are not there, or have been freed by ApplyDelete. */
    ghost predicate Deletable(heap: TableHeap, log: seq<WriteRecord>)
      reads heap
    {
      forall k {:trigger log[k]} :: 0 <= k < |log| && log[k].wtype == DELETE ==>
        && log[k].rid.page in heap.pages
        && (At(heap.table, log[k].rid).Free? ==> !CanApplyDelete(heap.pages, log[k].rid))
    }

    /**
     * Commit keeps everything that was done, and frees exactly the tuples of the deletions.  It gets to its end exactly
     * if every deletion names another tuple that is there; otherwise an assertion fails.
     */
    method Commit(txn: Transaction, heap: TableHeap) returns (ok: bool)
      requires heap.Valid() && Deletable(heap, txn.writeSet)
      modifies txn, heap`pages, heap`table
      ensures ok <==> CanCommit(old(heap.table), old(txn.writeSet), 0)
      ensures heap.Valid() && heap.pages.Keys == old(heap.pages.Keys) && txn.state == COMMITTED
      ensures ok ==> txn.writeSet == [] && forall r ::
        At(heap.table, r) == if Deletes(old(txn.writeSet), r) then Free else At(old(heap.table), r)
    {
      hide TableHeap.Valid, At;
      txn.state := COMMITTED;
      ghost var log, start := txn.writeSet, heap.table;
      assert log[..|log|] == log;
      ok := true;
      while txn.writeSet != []
        invariant |txn.writeSet| <= |log| && txn.writeSet == log[..|txn.writeSet|] && txn.state == COMMITTED
        invariant heap.Valid() && Deletable(heap, log) && Pending(log, |txn.writeSet|, start, heap.table)
        invariant heap.pages.Keys == old(heap.pages.Keys)
        decreases |txn.writeSet|
      {
        ok := ApplyLast(txn, heap, log, start);
        if !ok { return; }
      }
      assert forall r :: Deletes(log, r) <==> DeletedFrom(log, 0, r);
    }

    /** One record of a commit: only deletions have anything left to do. */
    method ApplyLast(txn: Transaction, heap: TableHeap, ghost log: seq<WriteRecord>, ghost start: Table)
      returns (ok: bool)
      requires 0 < |txn.writeSet| <= |log| && txn.writeSet == log[..|txn.writeSet|] && txn.state == COMMITTED
      requires heap.Valid() && Deletable(heap, log) && Pending(log, |txn.writeSet|, start, heap.table)
      modifies txn, heap`pages, heap`table
      ensures heap.Valid() && heap.pages.Keys == old(heap.pages.Keys) && txn.state == COMMITTED
      ensures ok <==> CanCommit(start, log, |old(txn.writeSet)| - 1)
      ensures ok ==> txn.writeSet == log[..|old(txn.writeSet)| - 1] && Deletable(heap, log)
      ensures ok ==> Pending(log, |txn.writeSet|, start, heap.table)
    {
      hide At, Stepped, Counted, TableHeap.Valid, Pending, CanCommit;
      var n := |txn.writeSet| - 1;
      var item := txn.writeSet[n];
      ghost var cur, pages := heap.table, heap.pages;
      assert item == log[n];
      PendingItem(log, n, start, cur);
      ok := true;
      if item.wtype == DELETE {
        ok := heap.ApplyDelete(item.rid);
        if !ok { return; }
        FreedIs(cur, heap.table, item.rid);
        StillDeletable(heap, log, item.rid, cur, pages);
      }
      PendingLess(log, n, start, cur, heap.table);
      txn.writeSet := txn.writeSet[..n];
    }

    lemma StillDeletable(heap: TableHeap, log: seq<WriteRecord>, r: RID, cur: Table, pages: map<int, seq<byte>>)
      requires Changed(cur, heap.table, r, Free) && StillFails(cur, pages, heap.pages) && !CanApplyDelete(heap.pages, r)
      requires forall k {:trigger log[k]} :: 0 <= k < |log| && log[k].wtype == DELETE ==>
          && log[k].rid.page in heap.pages && (At(cur, log[k].rid).Free? ==> !CanApplyDelete(pages, log[k].rid))
      ensures Deletable(heap, log)
    {
      forall k | 0 <= k < |log| && log[k].wtype == DELETE && At(heap.table, log[k].rid).Free?
        ensures !CanApplyDelete(heap.pages, log[k].rid)
      {
        assert At(heap.table, log[k].rid) == if log[k].rid == r then Free else At(cur, log[k].rid);
      }
    }
  }

  lemma FreedIs(t: Table, t': Table, r: RID)
    requires exists order :: Stepped(t, t', r, Free, order)
    ensures Changed(t, t', r, Free)
  {
  }

  /** From record n on every deletion names another tuple, which is there, live or marked. */
  ghost predicate CanCommit(t: Table, log: seq<WriteRecord>, n: nat) {
    && (forall k {:trigger log[k]} :: n <= k < |log| && log[k].wtype == DELETE ==> !At(t, log[k].rid).Free?)
    && forall i, j :: n <= i < j < |log| && log[i].wtype == DELETE && log[j].wtype == DELETE ==> log[i].rid != log[j].rid
  }

  /** A commit has come down to record n: later deletions are done, and the others are still to do. */
  ghost predicate Pending(log: seq<WriteRecord>, n: nat, start: Table, cur: Table) {
    && n <= |log| && CanCommit(start, log, n)
    && forall r {:trigger At(cur, r)} :: At(cur, r) == if DeletedFrom(log, n, r) then Free else At(start, r)
  }

  /** The slot of a deletion has been freed already exactly if the commit cannot get to its end. */
  lemma PendingItem(log: seq<WriteRecord>, n: nat, start: Table, cur: Table)
    requires n < |log| && Pending(log, n + 1, start, cur)
    ensures CanCommit(start, log, n) <==> log[n].wtype == DELETE ==> !At(cur, log[n].rid).Free?
    ensures CanCommit(start, log, 0) ==> CanCommit(start, log, n)
  {
    var r := log[n].rid;
    assert At(cur, r) == if DeletedFrom(log, n + 1, r) then Free else At(start, r);
    if log[n].wtype == DELETE && !DeletedFrom(log, n + 1, r) && !At(start, r).Free? {
      forall i, j | n <= i < j < |log| && log[i].wtype == DELETE && log[j].wtype == DELETE
        ensures log[i].rid != log[j].rid
      {}
    }
  }

  lemma PendingLess(log: seq<WriteRecord>, n: nat, start: Table, cur: Table, cur': Table)
    requires n < |log| && Pending(log, n + 1, start, cur) && CanCommit(start, log, n)
    requires if log[n].wtype == DELETE then Changed(cur, cur', log[n].rid, Free) else cur' == cur
    ensures Pending(log, n, start, cur')
  {
    forall r ensures At(cur', r) == if DeletedFrom(log, n, r) then Free else At(start, r) {
      assert At(cur, r) == if DeletedFrom(log, n + 1, r) then Free else At(start, r);
      if log[n].wtype == DELETE && log[n].rid == r {
        assert DeletedFrom(log, n, r);
      } else {
        assert DeletedFrom(log, n, r) <==> DeletedFrom(log, n + 1, r);
      }
    }
  }
}
