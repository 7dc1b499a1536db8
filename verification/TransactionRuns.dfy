/** Whole transactions, from their first request to commit or abort. */
module TransactionRuns {
  import opened Common
  import opened PageLayout
  import opened TableHeaps
  import opened TransactionManagers

  datatype Request = Insert(tuple: seq<byte>) | Delete(rid: RID) | Update(rid: RID, tuple: seq<byte>)

  datatype Outcome = Placed(rid: RID) | Done | Nothing

  // ----- what the requests ask for -----

  predicate FitsPage(tuple: seq<byte>) {
    tuple != [] && |tuple| + 32 <= PAGE_SIZE
  }

  /** What RID r stands for after a request with this outcome, if it stood for c. */
  function Effect(c: Cell, q: Request, out: Outcome, r: RID): Cell {
    match (q, out)
    case (Insert(x), Placed(rid)) => if r == rid then Live(x) else c
    case (Delete(rid), Done) => if r == rid && c.Live? then Marked(c.data) else c
    case (Update(rid, x), Done) => if r == rid then Live(x) else c
    case _ => c
  }

  /** The RID that a request is about. */
  function Target(q: Request, out: Outcome): RID {
    match q
    case Insert(_) => if out.Placed? then out.rid else RID(INVALID_PAGE_ID, 0)
    case Delete(rid) => rid
    case Update(rid, _) => rid
  }

  /**
   * The outcome of a request whose RID stood for c.  An insertion gets a RID that stood for nothing; a client deletes
   * tuples that it can read, and replaces tuples that it can read by others of the same length.
   */
  predicate OutcomeOk(c: Cell, q: Request, out: Outcome) {
    match q
    case Insert(x) => if FitsPage(x) then out.Placed? && c.Free? else out == Nothing
    case Delete(_) => out == if c.Live? then Done else Nothing
    case Update(_, x) => out == if c.Live? && |c.data| == |x| then Done else Nothing
  }

  /** What r stands for after the requests that have outcomes. */
  function Expect(t: Table, requests: seq<Request>, outs: seq<Outcome>, r: RID): Cell
    requires |outs| <= |requests|
  {
    var n := |outs| - 1;
    if outs == [] then At(t, r) else Effect(Expect(t, requests, outs[..n], r), requests[n], outs[n], r)
  }

  predicate Answered(t: Table, requests: seq<Request>, outs: seq<Outcome>)
    requires |outs| <= |requests|
  {
    forall i :: 0 <= i < |outs| ==>
      OutcomeOk(Expect(t, requests, outs[..i], Target(requests[i], outs[i])), requests[i], outs[i])
  }

  /** The commit frees what the transaction has marked. */
  function Settled(start: Cell, end: Cell): Cell {
    if end.Marked? && !start.Marked? then Free else end
  }

  // ----- a client -----

  /** A step that has been logged. */
  lemma StepLogged(trail: seq<Table>, log: seq<WriteRecord>, cur: Table, cur': Table, w: WriteRecord)
    requires Logged(trail, log) && Alike(trail[|log|], cur) && Logs(cur, cur', w) && CountedUp(trail[|log|], cur)
    ensures Logged(trail + [cur'], log + [w]) && Alike((trail + [cur'])[|log| + 1], cur')
    ensures (trail + [cur'])[0] == trail[0] && CountedUp((trail + [cur'])[|log| + 1], cur')
  {
    hide Logs;
    LogsFrom(trail[|log|], cur, cur', w);
    LoggedMore(trail, log, cur', w);
    AlikeSelf(cur');
  }

  lemma LogsFrom(t: Table, cur: Table, cur': Table, w: WriteRecord)
    requires Alike(t, cur) && CountedUp(t, cur) && Logs(cur, cur', w)
    ensures Logs(t, cur', w)
  {
    assert At(cur, w.rid) == At(t, w.rid) && OrderOf(cur, w.rid.page) == OrderOf(t, w.rid.page);
    CountedUpTwice(t, cur, cur');
    var order := OrderOf(t, w.rid.page);
    match w.wtype {
      case INSERT =>
        var x :| x != [] && Stepped(cur, cur', w.rid, Live(x), [w.rid.slot] + order);
        AlikeThenStepped(t, cur, cur', w.rid, Live(x), [w.rid.slot] + order);
      case DELETE =>
        if At(t, w.rid).Live? {
          AlikeThenStepped(t, cur, cur', w.rid, Marked(At(t, w.rid).data), order);
        } else {
          AlikeTwice(t, cur, cur');
        }
      case UPDATE =>
        var x :| UpdatedTo(cur, cur', w.rid, x);
        MovesAlike(t, cur, w.rid, |x|);
        AlikeThenStepped(t, cur, cur', w.rid, if x == [] then Free else Live(x),
                         if x == [] then Drop(order, w.rid.slot) else order);
        assert UpdatedTo(t, cur', w.rid, x);
    }
  }

  lemma MovesAlike(t: Table, cur: Table, r: RID, n: nat)
    requires Alike(t, cur) && MovesFreely(cur, r, n)
    ensures MovesFreely(t, r, n)
  {
    var order := OrderOf(t, r.page);
    assert At(cur, r) == At(t, r) && OrderOf(cur, r.page) == order;
    forall j | 0 <= j < |order| ensures At(cur, RID(r.page, order[j])) == At(t, RID(r.page, order[j])) {}
  }

  /** An update has kept the length; a deletion has found a live tuple. */
  ghost predicate PlainStep(t: Table, t': Table, w: WriteRecord) {
    && (w.wtype == UPDATE ==> At(t', w.rid).Live? && |At(t', w.rid).data| == |w.tuple|)
    && (w.wtype == DELETE ==> At(t, w.rid).Live?)
  }

  ghost predicate Plain(trail: seq<Table>, log: seq<WriteRecord>) {
    |trail| == |log| + 1 && forall k {:trigger log[k]} :: 0 <= k < |log| ==> PlainStep(trail[k], trail[k + 1], log[k])
  }

  lemma PlainMore(trail: seq<Table>, log: seq<WriteRecord>, cur: Table, t: Table, w: WriteRecord)
    requires Plain(trail, log) && Alike(trail[|log|], cur) && PlainStep(cur, t, w)
    ensures Plain(trail + [t], log + [w])
  {
    assert At(cur, w.rid) == At(trail[|log|], w.rid);
  }

  class Client {
    const tm: TransactionManager
    const heap: TableHeap
    const txn: Transaction
    /** The table before each step of the transaction. */
    ghost var trail: seq<Table>

    constructor (tm: TransactionManager, heap: TableHeap, txn: Transaction)
      requires heap.Valid() && txn.state == GROWING && txn.writeSet == []
      ensures this.tm == tm && this.heap == heap && this.txn == txn && Open() && trail == [heap.table]
    {
      this.tm, this.heap, this.txn, trail := tm, heap, txn, [heap.table];
      new;
      AlikeSelf(heap.table);
    }

    /** The transaction goes on, or has been aborted and waits for its rollback; every step can be taken back. */
    ghost predicate Open()
      reads this, heap, txn
    {
      && tm.Active(heap, txn.writeSet, trail) && txn.state in {GROWING, ABORTED}
      && CountedUp(trail[|txn.writeSet|], heap.table) && Plain(trail, txn.writeSet)
    }

    /** The heap has answered the request: the outcome is right, and every RID stands for what it should. */
    ghost predicate Served(t: Table, q: Request, out: Outcome)
      reads heap
    {
      && OutcomeOk(At(t, Target(q, out)), q, out)
      && forall r {:trigger At(heap.table, r)} :: At(heap.table, r) == Effect(At(t, r), q, out, r)
    }

    method PerformInsert(tuple: seq<byte>) returns (out: Outcome)
      requires Open() && txn.state == GROWING && heap.nextPageId < INT_MAX
      modifies this`trail, heap, txn
      ensures Open() && trail[0] == old(trail[0]) && heap.nextPageId <= old(heap.nextPageId) + 1
      ensures Served(old(heap.table), Insert(tuple), out)
      ensures txn.state == GROWING <==> |tuple| + 32 <= PAGE_SIZE
    {
      hide CountedUp, Alike, At, TableHeap.Valid, FirstWithRoom, OrderOf;
      out := Nothing;
      if tuple == [] { return; }
      ghost var cur := heap.table;
      var ok, rid := heap.InsertTuple(tuple, txn);
      if ok {
        StepLogged(trail, old(txn.writeSet), cur, heap.table, WriteRecord(rid, INSERT, []));
        PlainMore(trail, old(txn.writeSet), cur, heap.table, WriteRecord(rid, INSERT, []));
        trail := trail + [heap.table];
        out := Placed(rid);
      }
    }

    method PerformDelete(rid: RID) returns (out: Outcome)
      requires Open() && txn.state == GROWING && rid.page in heap.pages
      modifies this`trail, heap, txn
      ensures Open() && trail[0] == old(trail[0]) && heap.nextPageId == old(heap.nextPageId) && txn.state == GROWING
      ensures Served(old(heap.table), Delete(rid), out)
    {
      hide CountedUp, Counted, Alike, At, TableHeap.Valid, OrderOf;
      var ok, tuple := heap.GetTuple(rid);
      out := if ok then Done else Nothing;
      if ok {
        ghost var cur := heap.table;
        heap.MarkDelete(rid, txn);
        CountedIsUp(cur, heap.table);
        StepLogged(trail, old(txn.writeSet), cur, heap.table, WriteRecord(rid, DELETE, []));
        PlainMore(trail, old(txn.writeSet), cur, heap.table, WriteRecord(rid, DELETE, []));
        trail := trail + [heap.table];
      }
    }

    method PerformUpdate(rid: RID, tuple: seq<byte>) returns (out: Outcome)
      requires Open() && txn.state == GROWING && rid.page in heap.pages
      modifies this`trail, heap, txn
      ensures Open() && trail[0] == old(trail[0]) && heap.nextPageId == old(heap.nextPageId) && txn.state == GROWING
      ensures Served(old(heap.table), Update(rid, tuple), out)
    {
      hide At, TableHeap.Valid;
      var ok, oldTuple := heap.GetTuple(rid);
      out := Nothing;
      if ok && |tuple| == |oldTuple| {
        out := Done;
        Replace(rid, tuple, oldTuple);
      }
    }

    /** Replace a tuple by one of the same length. */
    method Replace(rid: RID, tuple: seq<byte>, oldTuple: seq<byte>)
      requires Open() && txn.state == GROWING && rid.page in heap.pages
      requires At(heap.table, rid) == Live(oldTuple) && |tuple| == |oldTuple|
      modifies this`trail, heap, txn
      ensures Open() && trail[0] == old(trail[0]) && heap.nextPageId == old(heap.nextPageId) && txn.state == GROWING
      ensures forall r {:trigger At(heap.table, r)} ::
        At(heap.table, r) == if r == rid then Live(tuple) else At(old(heap.table), r)
    {
      hide CountedUp, Counted, Alike, At, TableHeap.Valid, OrderOf, Stepped, MovesFreely, Plain, Logs, PageUpdated, HasDir,
           DirOf, Tiled;
      ghost var cur := heap.table;
      heap.PageRoom(rid.page);
      tm.SlotIs(rid);
      FreelySame(cur, rid, |tuple|);
      var updated := heap.UpdateTuple(tuple, rid, txn);
      CountedIsUp(cur, heap.table);
      StepIs(cur, heap.table, rid, Live(tuple), OrderOf(cur, rid.page));
      UpdateLogged(cur, heap.table, rid, tuple, oldTuple);
      StepLogged(trail, old(txn.writeSet), cur, heap.table, WriteRecord(rid, UPDATE, oldTuple));
      PlainMore(trail, old(txn.writeSet), cur, heap.table, WriteRecord(rid, UPDATE, oldTuple));
      trail := trail + [heap.table];
    }

    /** One request, in a heap whose page ids are not used up; a page that is not in the heap has nothing on it. */
    method Perform(request: Request) returns (out: Outcome)
      requires Open() && txn.state == GROWING && heap.nextPageId < INT_MAX
      modifies this`trail, heap, txn
      ensures Open() && |trail| > 0 && trail[0] == old(trail[0]) && heap.nextPageId <= old(heap.nextPageId) + 1
      ensures Served(old(heap.table), request, out)
      ensures txn.state == GROWING <==> request.Insert? ==> |request.tuple| + 32 <= PAGE_SIZE
    {
      out := Nothing;
      match request {
        case Insert(tuple) =>
          out := PerformInsert(tuple);
        case Delete(rid) =>
          if rid.page in heap.pages { out := PerformDelete(rid); }
        case Update(rid, tuple) =>
          if rid.page in heap.pages { out := PerformUpdate(rid, tuple); }
      }
    }

    method RollBack()
      requires Open()
      modifies heap, txn
      ensures heap.Valid() && Same(trail[0], heap.table)
    {
      hide Logs, TableHeap.Valid, UndoneTo;
      CanRollBack();
      ghost var log := txn.writeSet;
      tm.Abort(txn, heap, trail);
      NoMarkLifted(trail, log);
      UndoneIsAlike(trail[0], log, heap.table);
    }

    method CommitAll()
      requires Open() && txn.state == GROWING
      modifies heap, txn
      ensures heap.Valid()
      ensures forall r {:trigger At(heap.table, r)} ::
        At(heap.table, r) == Settled(At(trail[0], r), At(old(heap.table), r))
    {
      hide Logs, TableHeap.Valid, At;
      ghost var log, end := txn.writeSet, heap.table;
      tm.ActiveCanCommit(heap, log, trail);
      var ok := tm.Commit(txn, heap);
      forall r ensures At(heap.table, r) == Settled(At(trail[0], r), At(end, r)) {
        DeletesAreNewMarks(trail, log, end, r);
      }
    }

    lemma CanRollBack()
      requires Open()
      ensures CanAbort(trail, txn.writeSet, heap.table)
    {
      hide Logs, Alike, TableHeap.Valid, CanUndo;
      var log, n := txn.writeSet, |txn.writeSet|;
      NothingUndone(trail[n], log, heap.table);
      forall k | 0 <= k < n ensures CanUndo(trail[k], trail[k + 1], log[k], heap.table) {
        var p := log[k].rid.page;
        UsedGrows(trail, log, k, n, p);
        UsedUndone(trail[n], log, n, heap.table, p, |OrderOf(trail[n], p)|);
        heap.PageRoom(p);
        if log[k].wtype == DELETE { IsMarked(trail, log, k, heap.table); }
        Undoable(trail[k], trail[k + 1], log[k], heap.table);
      }
    }
  }

  lemma Undoable(t: Table, t': Table, w: WriteRecord, end: Table)
    requires FreeIn(end, w.rid.page) >= 0 && UsedIn(t, w.rid.page) <= UsedIn(end, w.rid.page) && PlainStep(t, t', w)
    requires w.wtype == DELETE ==> At(end, w.rid).Marked?
    ensures CanUndo(t, t', w, end)
  {
  }

  /** A deleted tuple keeps its mark. */
  lemma IsMarked(trail: seq<Table>, log: seq<WriteRecord>, k: nat, end: Table)
    requires Logged(trail, log) && Plain(trail, log) && Alike(trail[|log|], end) && k < |log| && log[k].wtype == DELETE
    ensures At(end, log[k].rid).Marked?
  {
    hide Logs;
    MarksStay(trail, log, |log|, log[k].rid);
    assert log[..|log|] == log && Deletes(log, log[k].rid);
    assert At(end, log[k].rid) == At(trail[|log|], log[k].rid);
  }

  /** What was marked before has not been deleted once more. */
  lemma NoMarkLifted(trail: seq<Table>, log: seq<WriteRecord>)
    requires Logged(trail, log) && Plain(trail, log)
    ensures forall r {:trigger At(trail[0], r)} :: Deletes(log, r) ==> !At(trail[0], r).Marked?
  {
    hide Logs;
    forall r | Deletes(log, r) ensures !At(trail[0], r).Marked? {
      var k :| 0 <= k < |log| && log[k].wtype == DELETE && log[k].rid == r;
      assert PlainStep(trail[k], trail[k + 1], log[k]);
      MarksStay(trail, log, k, r);
    }
  }

  lemma CountedIsUp(t: Table, t': Table)
    requires Counted(t, t')
    ensures CountedUp(t, t')
  {
    forall p ensures CountOf(t', p) >= CountOf(t, p) {
      assert CountOf(t', p) == CountOf(t, p);
    }
  }

  lemma FreelySame(t: Table, r: RID, n: nat)
    requires At(t, r).Live? && |At(t, r).data| == n
    ensures MovesFreely(t, r, n)
  {
  }

  lemma StepIs(t: Table, t': Table, r: RID, c: Cell, order: seq<nat>)
    requires Stepped(t, t', r, c, order)
    ensures forall x {:trigger At(t', x)} :: At(t', x) == if x == r then c else At(t, x)
  {
  }

  lemma UpdateLogged(t: Table, t': Table, r: RID, tuple: seq<byte>, oldTuple: seq<byte>)
    requires At(t, r) == Live(oldTuple) && oldTuple != [] && |tuple| == |oldTuple| && CountedUp(t, t')
    requires Stepped(t, t', r, Live(tuple), OrderOf(t, r.page))
    ensures Logs(t, t', WriteRecord(r, UPDATE, oldTuple))
  {
    assert UpdatedTo(t, t', r, tuple);
  }

  /** No tuple gets shorter, and a new one comes in front at most. */
  lemma {:induction false} UsedMore(t: Table, t': Table, p: int, k: nat)
    requires k <= |OrderOf(t, p)| && forall r {:trigger At(t', r)} :: SizeOf(At(t', r)) >= SizeOf(At(t, r))
    requires OrderOf(t', p) == OrderOf(t, p) || exists s :: OrderOf(t', p) == [s] + OrderOf(t, p)
    ensures UsedUpTo(t, p, k) <= UsedUpTo(t', p, k + |OrderOf(t', p)| - |OrderOf(t, p)|)
  {
    if k > 0 {
      UsedMore(t, t', p, k - 1);
      var d := |OrderOf(t', p)| - |OrderOf(t, p)|;
      assert OrderOf(t', p)[k + d - 1] == OrderOf(t, p)[k - 1];
      assert SizeOf(At(t', RID(p, OrderOf(t, p)[k - 1]))) >= SizeOf(At(t, RID(p, OrderOf(t, p)[k - 1])));
    }
  }

  lemma StepUsesMore(t: Table, t': Table, w: WriteRecord, p: int)
    requires Logs(t, t', w) && PlainStep(t, t', w)
    ensures UsedIn(t, p) <= UsedIn(t', p)
  {
    var c, order := HowStepped(t, t', w);
    assert OrderOf(t', p) == if p == w.rid.page then order else OrderOf(t, p);
    assert At(t', w.rid) == c;
    forall r ensures SizeOf(At(t', r)) >= SizeOf(At(t, r)) {
      assert At(t', r) == if r == w.rid then c else At(t, r);
    }
    OrderGrows(t, t', w, p);
    UsedMore(t, t', p, |OrderOf(t, p)|);
  }

  lemma OrderGrows(t: Table, t': Table, w: WriteRecord, p: int)
    requires Logs(t, t', w) && PlainStep(t, t', w)
    ensures OrderOf(t', p) == OrderOf(t, p) || exists s :: OrderOf(t', p) == [s] + OrderOf(t, p)
  {
    assert OrderOf(t', p) == OrderOf(t', p) && At(t', w.rid) == At(t', w.rid);
  }

  lemma {:induction false} UsedGrows(trail: seq<Table>, log: seq<WriteRecord>, k: nat, n: nat, p: int)
    requires Logged(trail, log) && Plain(trail, log) && k <= n <= |log|
    ensures UsedIn(trail[k], p) <= UsedIn(trail[n], p)
  {
    hide Logs;
    if k < n {
      UsedGrows(trail, log, k, n - 1, p);
      assert Logs(trail[n - 1], trail[n - 1 + 1], log[n - 1]);
      StepUsesMore(trail[n - 1], trail[n], log[n - 1], p);
    }
  }

  // ----- whole transactions -----

  lemma ExpectNext(t: Table, requests: seq<Request>, outs: seq<Outcome>, out: Outcome, r: RID)
    requires |outs| < |requests|
    ensures Expect(t, requests, outs + [out], r) == Effect(Expect(t, requests, outs, r), requests[|outs|], out, r)
  {
    assert (outs + [out])[..|outs|] == outs;
  }

  lemma AnsweredNext(t: Table, requests: seq<Request>, outs: seq<Outcome>, out: Outcome)
    requires |outs| < |requests| && Answered(t, requests, outs)
    requires OutcomeOk(Expect(t, requests, outs, Target(requests[|outs|], out)), requests[|outs|], out)
    ensures Answered(t, requests, outs + [out])
  {
    var outs' := outs + [out];
    forall i | 0 <= i < |outs'|
      ensures OutcomeOk(Expect(t, requests, outs'[..i], Target(requests[i], outs'[i])), requests[i], outs'[i])
    {
      assert outs'[..i] == outs[..i];
      if i == |outs| { assert outs[..i] == outs; }
    }
  }

  /** Marks of the transaction, and those from before it. */
  lemma DeletesAreNewMarks(trail: seq<Table>, log: seq<WriteRecord>, end: Table, r: RID)
    requires Logged(trail, log) && Plain(trail, log) && Alike(trail[|log|], end)
    ensures Deletes(log, r) <==> At(end, r).Marked? && !At(trail[0], r).Marked?
  {
    MarksStay(trail, log, |log|, r);
    assert log[..|log|] == log;
    assert At(end, r) == At(trail[|log|], r);
    NoMarkLifted(trail, log);
    assert At(trail[0], r) == At(trail[0], r);
  }

  /**
   * A whole transaction: the requests in turn until one of them aborts it, which only a tuple that is too large does, and
   * then commit or abort.  After a commit every RID stands for what the requests with their outcomes ask for, and the
   * deleted tuples are gone; after an abort every RID stands for what it stood for before.
   */
  method RunTransaction(heap: TableHeap, requests: seq<Request>, commit: bool)
    returns (committed: bool, outs: seq<Outcome>)
    requires heap.Valid() && heap.nextPageId + |requests| <= INT_MAX
    modifies heap
    ensures heap.Valid() && |outs| <= |requests| && Answered(old(heap.table), requests, outs)
    ensures |outs| == |requests| <==> forall q :: q in requests && q.Insert? ==> |q.tuple| + 32 <= PAGE_SIZE
    ensures committed <==> commit && |outs| == |requests|
    ensures committed ==> forall r ::
      At(heap.table, r) == Settled(At(old(heap.table), r), Expect(old(heap.table), requests, outs, r))
    ensures !committed ==> Same(old(heap.table), heap.table)
  {
    hide At, TableHeap.Valid, Client.Open, Effect, OutcomeOk;
    var tm := new TransactionManager();
    var txn := tm.Begin();
    var client := new Client(tm, heap, txn);
    outs := [];
    ghost var start := heap.table;
    while |outs| < |requests|
      invariant client.Open() && client.txn.state == GROWING
      invariant |client.trail| > 0 && client.trail[0] == start
      invariant |outs| <= |requests| && heap.nextPageId + |requests| - |outs| <= INT_MAX
      invariant Answered(start, requests, outs)
      invariant forall r {:trigger At(heap.table, r)} :: At(heap.table, r) == Expect(start, requests, outs, r)
      invariant forall i :: 0 <= i < |outs| && requests[i].Insert? ==> |requests[i].tuple| + 32 <= PAGE_SIZE
      decreases |requests| - |outs|
    {
      ghost var before := heap.table;
      var out := client.Perform(requests[|outs|]);
      if client.txn.state != GROWING { break; }
      Follows(heap, before, client, start, requests, outs, out);
      outs := outs + [out];
    }
    committed := commit && client.txn.state == GROWING;
    if committed { client.CommitAll(); } else { client.RollBack(); }
  }

  /** One request more has been served. */
  lemma Follows(heap: TableHeap, before: Table, client: Client, start: Table, requests: seq<Request>, outs: seq<Outcome>,
                out: Outcome)
    requires |outs| < |requests| && Answered(start, requests, outs) && client.heap == heap
    requires forall r {:trigger At(before, r)} :: At(before, r) == Expect(start, requests, outs, r)
    requires client.Served(before, requests[|outs|], out)
    ensures Answered(start, requests, outs + [out])
    ensures forall r {:trigger At(heap.table, r)} :: At(heap.table, r) == Expect(start, requests, outs + [out], r)
  {
    hide At, Effect, OutcomeOk, Expect;
    var target := Target(requests[|outs|], out);
    assert At(before, target) == Expect(start, requests, outs, target);
    AnsweredNext(start, requests, outs, out);
    forall r ensures At(heap.table, r) == Expect(start, requests, outs + [out], r) {
      assert At(before, r) == Expect(start, requests, outs, r);
      ExpectNext(start, requests, outs, out, r);
    }
  }

  // ----- what goes wrong -----

  /** A new heap with one tuple, the only one on its only page. */
  method OneTuple(tuple: seq<byte>) returns (heap: TableHeap, txn: Transaction, rid: RID)
    requires FitsPage(tuple)
    ensures fresh(heap) && fresh(txn) && heap.Valid() && rid == RID(0, 0) && heap.nextPageId < INT_MAX
    ensures heap.pages.Keys == {0} && heap.chain == [0]
    ensures At(heap.table, rid) == Live(tuple) && OrderOf(heap.table, 0) == [0] && CountOf(heap.table, 0) == 1
    ensures txn.state == GROWING && txn.writeSet == [WriteRecord(rid, INSERT, [])]
  {
    heap := new TableHeap(0);
    txn := new Transaction();
    EmptyPageHasRoom(|tuple|);
    ghost var empty := heap.table;
    var ok;
    ok, rid := heap.InsertTuple(tuple, txn);
    FirstOfOne(0, empty, |tuple|, rid.page);
    assert CellsIn(empty, 0) == [] && OrderOf(empty, 0) == [] && CountOf(empty, 0) == 0;
    assert At(heap.table, rid) == Live(tuple) && OrderOf(heap.table, 0) == [0] && CountOf(heap.table, 0) == 1;
  }

  lemma EmptyPageHasRoom(n: nat)
    requires n + 32 <= PAGE_SIZE
    ensures RoomFor(map[0 := PageCells([], [])], 0, n)
  {
  }

  /** If the only page of a chain has room, the tuple goes there. */
  lemma FirstOfOne(p: int, t: Table, n: nat, q: int)
    requires FirstWithRoom([p], t, n, q) && RoomFor(t, p, n)
    ensures q == p
  {
    var k :| 0 <= k <= 1 && NoneBefore([p], t, n, k) && if k < 1 then q == p && RoomFor(t, q, n) else q !in t;
    assert [p][0] == p;
  }

  /**
   * A tuple fills its page.  A transaction shrinks it and inserts another one, which takes a new slot; then the old tuple
   * does not fit any more, and the rollback leaves the short one in its place.
   */
  method ShrunkTupleStays(long: seq<byte>, short: byte, other: byte)
    returns (heap: TableHeap, rid: RID, ghost before: Table)
    requires |long| + 32 == PAGE_SIZE
    ensures heap.Valid() && At(before, rid) == Live(long) && At(heap.table, rid) == Live([short])
  {
    var earlier;
    heap, earlier, rid := OneTuple(long);
    before := heap.table;
    var tm := new TransactionManager();
    var txn := tm.Begin();
    ghost var trail := ShrinkAndInsert(tm, heap, txn, rid, long, short, other);
    txn.state := ABORTED;
    UndoBoth(tm, heap, txn, rid, long, short, trail);
  }

  /** The loop of Abort for two records. */
  method UndoBoth(tm: TransactionManager, heap: TableHeap, txn: Transaction, rid: RID, long: seq<byte>, short: byte,
                  ghost trail: seq<Table>)
    requires tm.Active(heap, txn.writeSet, trail) && |trail| == 3 && txn.state == ABORTED && rid == RID(0, 0)
    requires |txn.writeSet| == 2 && txn.writeSet[0] == WriteRecord(rid, UPDATE, long) && txn.writeSet[1].wtype == INSERT
    requires At(trail[1], rid) == Live([short]) && CountOf(heap.table, 0) == 2
    requires UsedIn(trail[0], 0) == |long| == PAGE_SIZE - 32
    modifies heap, txn
    ensures heap.Valid() && txn.writeSet == [] && At(heap.table, rid) == Live([short])
  {
    hide Alike, Logs, TableHeap.Valid, UsedIn, UndoneTo;
    ghost var log := txn.writeSet;
    assert log[..2] == log;
    NothingUndone(trail[2], log, heap.table);
    ghost var undone := tm.UndoLast(txn, heap, log, trail);
    StandsFor(trail[1], log, 1, heap.table, rid);
    assert CountOf(heap.table, 0) == 2;
    undone := tm.UndoLast(txn, heap, log, trail);
    StandsFor(trail[1], log, 1, heap.table, rid);
  }

  lemma StandsFor(t: Table, log: seq<WriteRecord>, n: nat, cur: Table, r: RID)
    requires UndoneTo(t, log, n, cur)
    ensures At(t, r).Live? ==> At(cur, r) == At(t, r)
  {
  }

  lemma RoomBeside(t: Table, short: byte)
    requires At(t, RID(0, 0)) == Live([short]) && OrderOf(t, 0) == [0] && CountOf(t, 0) == 1
    ensures RoomFor(t, 0, 1) && FirstFree(CellsIn(t, 0)) == 1
  {
    assert UsedUpTo(t, 0, 1) == UsedUpTo(t, 0, 0) + 1;
    assert CellsIn(t, 0)[0] == Live([short]);
    FirstFreeIs(CellsIn(t, 0), 1);
  }

  /** The update and the insertion. */
  method ShrinkAndInsert(tm: TransactionManager, heap: TableHeap, txn: Transaction, rid: RID, long: seq<byte>,
                         short: byte, other: byte) returns (ghost trail: seq<Table>)
    requires heap.Valid() && rid == RID(0, 0) && heap.nextPageId < INT_MAX && heap.pages.Keys == {0}
    requires heap.chain == [0]
    requires |long| + 32 == PAGE_SIZE && At(heap.table, rid) == Live(long)
    requires OrderOf(heap.table, 0) == [0] && CountOf(heap.table, 0) == 1
    requires txn.state == GROWING && txn.writeSet == []
    modifies heap, txn
    ensures tm.Active(heap, txn.writeSet, trail) && |trail| == 3 && trail[0] == old(heap.table)
    ensures |txn.writeSet| == 2 && txn.writeSet[0] == WriteRecord(rid, UPDATE, long) && txn.writeSet[1].wtype == INSERT
    ensures At(trail[1], rid) == Live([short]) && CountOf(heap.table, 0) == 2 && UsedIn(trail[0], 0) == |long|
  {
    hide TableHeap.Valid, UsedIn, Logs, Stepped;
    ghost var t0 := heap.table;
    Shrink(heap, txn, rid, long, short);
    ghost var t1 := heap.table;
    RoomBeside(t1, short);
    var ok, rid' := heap.InsertTuple([other], txn);
    FirstOfOne(0, t1, 1, rid'.page);
    trail := [t0, t1, heap.table];
    AlikeSelf(heap.table);
    InsertLogged(t1, heap.table, rid', [other]);
  }

  lemma InsertLogged(t: Table, t': Table, r: RID, tuple: seq<byte>)
    requires At(t, r).Free? && tuple != [] && CountedUp(t, t')
    requires Stepped(t, t', r, Live(tuple), [r.slot] + OrderOf(t, r.page))
    ensures Logs(t, t', WriteRecord(r, INSERT, []))
  {
    assert Inserts(t, t', r);
  }

  /** Update the only tuple of a page to a short one. */
  method Shrink(heap: TableHeap, txn: Transaction, rid: RID, long: seq<byte>, short: byte)
    requires heap.Valid() && rid == RID(0, 0) && heap.pages.Keys == {0}
    requires |long| + 32 == PAGE_SIZE && At(heap.table, rid) == Live(long)
    requires OrderOf(heap.table, 0) == [0] && CountOf(heap.table, 0) == 1 && txn.state == GROWING
    modifies heap`pages, heap`table, txn
    ensures heap.Valid() && heap.pages.Keys == {0} && txn.state == GROWING
    ensures txn.writeSet == old(txn.writeSet) + [WriteRecord(rid, UPDATE, long)]
    ensures Logs(old(heap.table), heap.table, WriteRecord(rid, UPDATE, long)) && UsedIn(old(heap.table), 0) == |long|
    ensures At(heap.table, rid) == Live([short]) && OrderOf(heap.table, 0) == [0] && CountOf(heap.table, 0) == 1
  {
    hide TableHeap.Valid;
    ghost var t0 := heap.table;
    OnlyTuple(t0, long);
    var ok := heap.UpdateTuple([short], rid, txn);
    CountedIsUp(t0, heap.table);
    assert UpdatedTo(t0, heap.table, rid, [short]);
    assert CountOf(heap.table, 0) == CountOf(t0, 0) && OrderOf(heap.table, 0) == OrderOf(t0, 0);
  }

  lemma OnlyTuple(t: Table, long: seq<byte>)
    requires At(t, RID(0, 0)) == Live(long) && OrderOf(t, 0) == [0] && CountOf(t, 0) == 1
    ensures UsedIn(t, 0) == |long| && FreeIn(t, 0) == PAGE_SIZE - 32 - |long| && MovesFreely(t, RID(0, 0), 1)
  {
    assert UsedUpTo(t, 0, 1) == UsedUpTo(t, 0, 0) + |long|;
  }

  /** A transaction deletes the same tuple twice, which marks it once and is logged twice: the commit fails. */
  method MarkedTwice(tuple: seq<byte>) returns (heap: TableHeap, ok: bool)
    requires FitsPage(tuple)
    ensures heap.Valid() && !ok
  {
    hide TableHeap.Valid;
    var txn, rid;
    heap, txn, rid := OneTuple(tuple);
    heap.MarkDelete(rid, txn);
    heap.MarkDelete(rid, txn);
    var tm := new TransactionManager();
    assert txn.writeSet[1].rid == txn.writeSet[2].rid;
    ok := tm.Commit(txn, heap);
  }

  /**
   * While one transaction that has deleted a tuple is still open, another one deletes it once more and is aborted: the
   * tuple can be read again.
   */
  method MarkTakenBack(tuple: seq<byte>) returns (heap: TableHeap, open: Transaction, rid: RID)
    requires FitsPage(tuple)
    ensures heap.Valid() && At(heap.table, rid) == Live(tuple)
    ensures open.state == GROWING && WriteRecord(rid, DELETE, []) in open.writeSet
  {
    hide TableHeap.Valid;
    heap, open, rid := OneTuple(tuple);
    heap.MarkDelete(rid, open);
    var tm := new TransactionManager();
    var txn := tm.Begin();
    ghost var trail := [heap.table, heap.table];
    heap.MarkDelete(rid, txn);
    AlikeSelf(heap.table);
    assert CountOf(heap.table, 0) == 1;
    ghost var log := txn.writeSet;
    tm.Abort(txn, heap, trail);
    assert log[0].rid == rid && DeletedFrom(log, 0, rid);
    assert At(heap.table, rid) == Lifted(At(trail[0], rid), log, 0, rid);
  }
}
