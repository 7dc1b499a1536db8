/** The LRU replacer: a doubly linked list between two sentinels, with a map from values to list nodes. */
module LruReplacers {
  import opened Common

  // ----- the list as a sequence, most recently inserted value first -----

  lemma WithoutAt<T>(s: seq<T>, i: nat)
    requires i < |s|
    ensures |Without(s, i)| == |s| - 1
    ensures forall k {:trigger Without(s, i)[k]} :: 0 <= k < |s| - 1 ==> Without(s, i)[k] == s[if k < i then k else k + 1]
  {
  }

  lemma WithoutDistinct<T>(s: seq<T>, i: nat)
    requires i < |s| && Distinct(s)
    ensures Distinct(Without(s, i)) && s[i] !in Without(s, i) && forall x :: x in Without(s, i) ==> x in s
  {
  }

  function Prepended<T>(s: seq<T>, x: T): seq<T>
    requires |s| > 0
  {
    [s[0], x] + s[1..]
  }

  lemma WithoutLast<T>(s: seq<T>)
    requires |s| > 0
    ensures s == Without(s, |s| - 1) + [s[|s| - 1]]
  {
  }

  // ----- the map -----

  /** The map takes each value of the list to its node, and has no other values. */
  ghost predicate Indexed<N>(nodes: seq<N>, contents: seq<int>, m: map<int, N>) {
    && |nodes| == |contents| + 2 && Distinct(contents)
    && (forall i {:trigger contents[i]} :: 0 <= i < |contents| ==> contents[i] in m && m[contents[i]] == nodes[i + 1])
    && (forall v :: v in m ==> v in contents)
  }

  lemma IndexedAt<N>(nodes: seq<N>, contents: seq<int>, m: map<int, N>, v: int) returns (i: nat)
    requires Indexed(nodes, contents, m) && v in m
    ensures i < |contents| && contents[i] == v && i + 1 < |nodes| && nodes[i + 1] == m[v]
  {
    i :| 0 <= i < |contents| && contents[i] == v;
  }

  lemma IndexedWithout<N>(nodes: seq<N>, contents: seq<int>, m: map<int, N>, i: nat)
    requires Indexed(nodes, contents, m) && i < |contents|
    ensures Without(contents, i) == Drop(contents, contents[i]) && i + 1 < |nodes|
    ensures Indexed(Without(nodes, i + 1), Without(contents, i), m - {contents[i]})
  {
    hide Without, Drop, Distinct;
    DropAt(contents, i);
    DropIsWithout(contents, i);
    WithoutDistinct(contents, i);
    WithoutAt(contents, i);
    WithoutAt(nodes, i + 1);
    IndexedCut(nodes, contents, m, i, Without(nodes, i + 1), Without(contents, i));
  }

  lemma DropIsWithout(s: seq<int>, i: nat)
    requires i < |s|
    ensures Without(s, i) == s[..i] + s[i + 1..]
  {
  }

  lemma IndexedCut<N>(nodes: seq<N>, contents: seq<int>, m: map<int, N>, i: nat, nodes': seq<N>, contents': seq<int>)
    requires Indexed(nodes, contents, m) && i < |contents| && |contents'| == |contents| - 1 && |nodes'| == |nodes| - 1
    requires Distinct(contents') && contents[i] !in contents'
    requires forall k {:trigger contents'[k]} :: 0 <= k < |contents'| ==>
        contents'[k] == contents[if k < i then k else k + 1]
    requires forall k {:trigger nodes'[k]} :: 0 <= k < |nodes'| ==> nodes'[k] == nodes[if k < i + 1 then k else k + 1]
    ensures Indexed(nodes', contents', m - {contents[i]})
  {
    hide Distinct;
    forall w | w in m - {contents[i]} ensures w in contents' {
      var k := IndexedAt(nodes, contents, m, w);
      assert contents'[if k < i then k else k - 1] == w;
    }
    forall k | 0 <= k < |contents'| ensures contents'[k] in m - {contents[i]} && m[contents'[k]] == nodes'[k + 1] {
      assert contents'[k] in contents';
      assert nodes'[k + 1] == nodes[if k < i then k + 1 else k + 2];
    }
  }

  lemma EmptyTogether<N>(nodes: seq<N>, contents: seq<int>, m: map<int, N>)
    requires Indexed(nodes, contents, m)
    ensures m == map[] <==> contents == []
  {
    if contents != [] {
      assert contents[0] in m;
    } else {
      assert forall v :: v !in m;
    }
  }

  lemma IndexedAbsent<N>(nodes: seq<N>, contents: seq<int>, m: map<int, N>, v: int)
    requires Indexed(nodes, contents, m) && v !in m
    ensures m - {v} == m && Drop(contents, v) == contents && v !in contents
  {
    assert v !in contents;
    DropAbsent(contents, v);
  }

  lemma IndexedPush<N>(nodes: seq<N>, contents: seq<int>, m: map<int, N>, cur: N, v: int)
    requires Indexed(nodes, contents, m) && v !in m
    ensures |nodes| > 0 && Indexed(Prepended(nodes, cur), [v] + contents, m[v := cur])
  {
    var c := [v] + contents;
    assert forall k :: 0 < k < |c| ==> c[k] == contents[k - 1];
    assert c[0] == v;
    forall w | w in m[v := cur] ensures w in c {
      if w != v {
        var k := IndexedAt(nodes, contents, m, w);
        assert c[k + 1] == w;
      }
    }
  }

  // ----- recency -----

  /** The calls of a replacer for values of any type. */
  datatype Op<T> = Insert(value: T) | Erase(value: T) | Victim

  /** The list after one operation more. */
  function Replayed<T(==)>(s: seq<T>, op: Op<T>): seq<T> {
    match op
    case Insert(v) => [v] + Drop(s, v)
    case Erase(v) => Drop(s, v)
    case Victim => if s == [] then [] else s[..|s| - 1]
  }

  /** The list after a history of operations. */
  function Replay<T(==)>(ops: seq<Op<T>>): seq<T> {
    if ops == [] then [] else Replayed(Replay(ops[..|ops| - 1]), ops[|ops| - 1])
  }

  /** When v was inserted last, or -1. */
  function LastInsert<T(==)>(ops: seq<Op<T>>, v: T): (r: int)
    ensures -1 <= r < |ops|
    ensures r >= 0 ==> ops[r] == Insert(v)
  {
    if ops == [] then -1
    else if ops[|ops| - 1] == Insert(v) then |ops| - 1 else LastInsert(ops[..|ops| - 1], v)
  }

  /** The values are distinct, each was inserted, and those in front were inserted later. */
  ghost predicate ByRecency<T>(ops: seq<Op<T>>, s: seq<T>) {
    && Distinct(s)
    && (forall i :: 0 <= i < |s| ==> LastInsert(ops, s[i]) >= 0)
    && forall i, j :: 0 <= i < j < |s| ==> LastInsert(ops, s[i]) > LastInsert(ops, s[j])
  }

  lemma DropByRecency<T>(ops: seq<Op<T>>, s: seq<T>, v: T)
    requires ByRecency(ops, s)
    ensures ByRecency(ops, Drop(s, v)) && v !in Drop(s, v)
  {
    hide LastInsert, Drop;
    if k :| 0 <= k < |s| && s[k] == v {
      DropAt(s, k);
      var r := s[..k] + s[k + 1..];
      assert forall i :: 0 <= i < |r| ==> r[i] == s[if i < k then i else i + 1];
    } else {
      DropAbsent(s, v);
    }
  }

  /** After any history the list is ordered by recency; so Victim takes the value whose last Insert is oldest. */
  lemma {:induction false} ReplayByRecency<T>(ops: seq<Op<T>>)
    ensures ByRecency(ops, Replay(ops))
  {
    if ops != [] {
      var before, op := ops[..|ops| - 1], ops[|ops| - 1];
      ReplayByRecency(before);
      assert before + [op] == ops;
      NextByRecency(before, Replay(before), op);
    }
  }

  lemma NextByRecency<T>(ops: seq<Op<T>>, s: seq<T>, op: Op<T>)
    requires ByRecency(ops, s)
    ensures ByRecency(ops + [op], Replayed(s, op))
  {
    hide LastInsert, Drop, ByRecency;
    match op {
      case Insert(v) =>
        DropByRecency(ops, s, v);
        PushedByRecency(ops, Drop(s, v), v);
      case Erase(v) =>
        DropByRecency(ops, s, v);
        SameByRecency(ops, Drop(s, v), op);
      case Victim =>
        ByRecencyFront(ops, s);
        SameByRecency(ops, Replayed(s, op), op);
    }
  }

  lemma ByRecencyFront<T>(ops: seq<Op<T>>, s: seq<T>)
    requires ByRecency(ops, s)
    ensures ByRecency(ops, if s == [] then [] else s[..|s| - 1])
  {
    hide LastInsert;
  }

  lemma PushedByRecency<T>(ops: seq<Op<T>>, s: seq<T>, v: T)
    requires ByRecency(ops, s) && v !in s
    ensures ByRecency(ops + [Insert(v)], [v] + s)
  {
    hide LastInsert;
    var r := [v] + s;
    LastInsertNext(ops, Insert(v), v);
    forall i | 0 <= i < |s| ensures LastInsert(ops + [Insert(v)], s[i]) == LastInsert(ops, s[i]) {
      LastInsertNext(ops, Insert(v), s[i]);
    }
    assert r[0] == v && forall i :: 1 <= i < |r| ==> r[i] == s[i - 1];
  }

  lemma SameByRecency<T>(ops: seq<Op<T>>, s: seq<T>, op: Op<T>)
    requires ByRecency(ops, s) && !op.Insert?
    ensures ByRecency(ops + [op], s)
  {
    hide LastInsert;
    forall i | 0 <= i < |s| ensures LastInsert(ops + [op], s[i]) == LastInsert(ops, s[i]) {
      LastInsertNext(ops, op, s[i]);
    }
  }

  lemma LastInsertNext<T>(ops: seq<Op<T>>, op: Op<T>, v: T)
    ensures LastInsert(ops + [op], v) == if op == Insert(v) then |ops| else LastInsert(ops, v)
  {
    assert (ops + [op])[..|ops|] == ops;
  }

  /** The last value of the list was inserted before all others. */
  lemma VictimIsOldest<T>(ops: seq<Op<T>>)
    ensures
      var s := Replay(ops);
      s != [] ==> forall v :: v in s[..|s| - 1] ==> LastInsert(ops, s[|s| - 1]) < LastInsert(ops, v)
  {
    ReplayByRecency(ops);
  }

  lemma ReplayNext<T>(ops: seq<Op<T>>, op: Op<T>)
    ensures Replay(ops + [op]) == Replayed(Replay(ops), op)
  {
    assert (ops + [op])[..|ops|] == ops;
  }

  class Node {
    var data: int
    var prev: Node?
    var next: Node?

    constructor (data: int)
      ensures this.data == data && prev == null && next == null
    {
      this.data, prev, next := data, null, null;
    }
  }

  /** The links between a node of the list and the next one. */
  ghost predicate Joined(nodes: seq<Node>, i: int)
    requires 0 <= i < |nodes| - 1
    reads nodes[i], nodes[i + 1]
  {
    nodes[i].next == nodes[i + 1] && nodes[i + 1].prev == nodes[i]
  }

  class LruReplacer {
    const head: Node
    const tail: Node
    var dataMap: map<int, Node>
    /** The list from sentinel to sentinel. */
    ghost var nodes: seq<Node>
    /** The values in the list. */
    ghost var contents: seq<int>
    /** What has happened to the list. */
    ghost var history: seq<Op<int>>

    ghost predicate Linked()
      reads this`nodes, nodes
    {
      && |nodes| >= 2 && nodes[0] == head && nodes[|nodes| - 1] == tail
      && Distinct(nodes)
      && forall i {:trigger Joined(nodes, i)} :: 0 <= i < |nodes| - 1 ==> Joined(nodes, i)
    }

    /** The data of the nodes are the contents. */
    ghost predicate Labelled()
      reads this`nodes, this`contents, nodes`data
    {
      |contents| == |nodes| - 2 && forall i {:trigger contents[i]} :: 0 <= i < |contents| ==>
          contents[i] == nodes[i + 1].data
    }

    /** List and map hold the same distinct values, the links are inverse to each other, and the order is that of Replay. */
    ghost predicate Valid()
      reads this, nodes
    {
      Linked() && Labelled() && Indexed(nodes, contents, dataMap) && contents == Replay(history)
    }

    constructor ()
      ensures Valid() && contents == [] && history == [] && fresh(nodes)
    {
      var h := new Node(0);
      var t := new Node(0);
      head, tail, dataMap := h, t, map[];
      nodes, contents, history := [h, t], [], [];
      new;
      head.next := tail;
      tail.prev := head;
    }

    /** Take node number i + 1 out of the list; it keeps its own links. */
    method Unlink(cur: Node, ghost i: nat)
      requires Linked() && i + 2 < |nodes| && cur == nodes[i + 1]
      modifies this`nodes, nodes`prev, nodes`next
      ensures Linked() && nodes == old(Without(nodes, i + 1))
      ensures cur !in nodes && forall n :: n in nodes ==> n in old(nodes)
    {
      assert Joined(nodes, i) && Joined(nodes, i + 1);
      var before, behind := cur.prev, cur.next;
      before.next := behind;
      behind.prev := before;
      ghost var was := nodes;
      WithoutAt(nodes, i + 1);
      WithoutDistinct(nodes, i + 1);
      nodes := Without(nodes, i + 1);
      forall k | 0 <= k < |nodes| - 1 ensures Joined(nodes, k) {
        if k != i {
          ghost var j := if k < i then k else k + 1;
          assert old(Joined(was, j)) && was[j] != before && was[j + 1] != behind;
        }
      }
    }

    /** The value of slot i leaves the list. */
    method Take(cur: Node, ghost i: nat)
      requires Linked() && Labelled() && i < |contents| && cur == nodes[i + 1]
      modifies this`nodes, this`contents, nodes`prev, nodes`next
      ensures Linked() && Labelled() && nodes == old(Without(nodes, i + 1)) && contents == old(Without(contents, i))
      ensures cur !in nodes && (forall n :: n in nodes ==> n in old(nodes)) && cur.data == old(contents[i])
    {
      hide Linked;
      WithoutAt(nodes, i + 1);
      WithoutAt(contents, i);
      Unlink(cur, i);
      contents := Without(contents, i);
      hide Without;
    }

    /** Put a node behind the first sentinel. */
    method PushFront(cur: Node, ghost second: Node)
      requires Linked() && Labelled() && cur !in nodes && second == nodes[1]
      modifies this`nodes, this`contents, head`next, second`prev, cur`prev, cur`next
      ensures Linked() && Labelled() && nodes == Prepended(old(nodes), cur) && contents == [cur.data] + old(contents)
      ensures forall n :: n in nodes ==> n in old(nodes) || n == cur
      ensures cur.data == old(cur.data)
    {
      assert Joined(nodes, 0);
      ghost var was := nodes;
      var first := head.next;
      cur.next := first;
      first.prev := cur;
      cur.prev := head;
      head.next := cur;
      nodes, contents := Prepended(nodes, cur), [cur.data] + contents;
      forall k | 0 <= k < |nodes| - 1 ensures Joined(nodes, k) {
        if k > 1 {
          assert old(Joined(was, k - 1)) && was[k - 1] != head && was[k] != first;
        }
      }
    }

    lemma LinkedEnds()
      requires Linked()
      ensures |nodes| >= 2 && head in nodes && nodes[1] in nodes
    {
    }

    /** Insert: the value moves, or comes, to the front. */
    method Insert(value: int)
      requires Valid()
      modifies this, nodes
      ensures Valid() && contents == [value] + Drop(old(contents), value)
      ensures history == old(history) + [Op.Insert(value)]
      ensures forall n :: n in nodes ==> n in old(nodes) || fresh(n)
    {
      hide Linked, Labelled, Indexed, Distinct, Drop, Without, Prepended, Replay;
      ReplayNext(history, Op.Insert(value));
      var cur;
      if value in dataMap {
        cur := dataMap[value];
        ghost var i := IndexedAt(nodes, contents, dataMap, value);
        IndexedWithout(nodes, contents, dataMap, i);
        assert cur in nodes;
        Take(cur, i);
      } else {
        cur := new Node(value);
        IndexedAbsent(nodes, contents, dataMap, value);
      }
      IndexedPush(nodes, contents, dataMap - {value}, cur, value);
      LinkedEnds();
      PushFront(cur, nodes[1]);
      assert (dataMap - {value})[value := cur] == dataMap[value := cur];
      dataMap := dataMap[value := cur];
      history := history + [Op.Insert(value)];
    }

    /**
     * Victim: false if there is no value, otherwise the last value of the list goes.  Every other value has been
     * inserted since that one was.
     */
    method Victim() returns (ok: bool, value: int)
      requires Valid()
      modifies this, nodes
      ensures Valid() && ok == (old(contents) != []) && forall n :: n in nodes ==> n in old(nodes)
      ensures !ok ==> contents == old(contents)
      ensures ok ==> old(contents) == contents + [value]
      ensures history == old(history) + [Op.Victim]
      ensures ok ==> forall v :: v in contents ==> LastInsert(old(history), value) < LastInsert(old(history), v)
    {
      hide Linked, Labelled, Indexed, Distinct, Replay, LastInsert;
      ReplayNext(history, Op.Victim);
      VictimIsOldest(history);
      EmptyTogether(nodes, contents, dataMap);
      history := history + [Op.Victim];
      value := 0;
      if dataMap == map[] { return false, value; }
      value := TakeLast();
      assert contents == old(contents)[..|old(contents)| - 1];
      ok := true;
    }

    /** The last value of the list leaves list and map. */
    method TakeLast() returns (value: int)
      requires Linked() && Labelled() && Indexed(nodes, contents, dataMap) && contents != []
      modifies this`nodes, this`contents, this`dataMap, nodes`prev, nodes`next
      ensures Linked() && Labelled() && Indexed(nodes, contents, dataMap)
      ensures old(contents) == contents + [value] && forall n :: n in nodes ==> n in old(nodes)
    {
      hide Distinct, Drop, Without;
      ghost var n := |contents|;
      assert Joined(nodes, n) && contents[n - 1] == nodes[n].data;
      var last := tail.prev;
      IndexedWithout(nodes, contents, dataMap, n - 1);
      WithoutLast(contents);
      Take(last, n - 1);
      value := last.data;
      dataMap := dataMap - {last.data};
    }

    /** Erase: the value goes, whatever its place. */
    method Erase(value: int) returns (ok: bool)
      requires Valid()
      modifies this, nodes
      ensures Valid() && ok == (value in old(contents)) && contents == Drop(old(contents), value)
      ensures history == old(history) + [Op.Erase(value)]
      ensures forall n :: n in nodes ==> n in old(nodes)
    {
      hide Linked, Labelled, Indexed, Distinct, Drop, Without, Prepended, Replay;
      ReplayNext(history, Op.Erase(value));
      history := history + [Op.Erase(value)];
      if value in dataMap {
        ghost var i := IndexedAt(nodes, contents, dataMap, value);
        IndexedWithout(nodes, contents, dataMap, i);
        Take(dataMap[value], i);
        dataMap := dataMap - {value};
        return true;
      }
      IndexedAbsent(nodes, contents, dataMap, value);
      return false;
    }
  }
}
