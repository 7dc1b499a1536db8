/** Extendible hashing: a directory of shared buckets that are split when they overflow. */
module ExtendibleHashes {
  import opened Common
  import opened HashDirectory

  class Bucket {
    var localDepth: nat
    var dataMap: map<int, int>

    constructor (depth: nat)
      ensures localDepth == depth && dataMap == map[]
    {
      localDepth, dataMap := depth, map[];
    }
  }

  function Max(a: int, b: int): int {
    if a < b then b else a
  }

  class ExtendibleHash {
    var buckets: seq<Bucket>
    var globalDepth: nat
    var bucketNum: int
    const bucketSize: nat
    const hash: int -> nat
    ghost const width: nat
    /** What the buckets in the directory hold. */
    ghost var cells: map<Bucket, Cell>
    ghost var contents: map<int, int>

    /** `cells` is what the bucket objects say. */
    ghost predicate Mirrored()
      reads this`cells, cells.Keys
    {
      forall b :: b in cells ==> cells[b] == Cell(b.localDepth, b.dataMap)
    }

    ghost predicate Sound()
      reads this, cells.Keys
    {
      && Mirrored() && Fits(hash, width)
      && DirectoryOk(buckets, cells, globalDepth, hash) && Finds(buckets, cells, globalDepth, hash, contents)
      && bucketNum == |cells| && NoneOver(cells, bucketSize)
    }

    /**
     * The directory is consistent, a lookup finds exactly `contents`, no bucket is overfull, and the directory is
     * no larger than the deepest bucket needs.
     */
    ghost predicate Valid()
      reads this, cells.Keys
    {
      Sound() && SomeDeepest(cells, globalDepth)
    }

    constructor (size: nat, hash: int -> nat, ghost width: nat)
      requires Fits(hash, width)
      ensures Valid() && contents == map[] && bucketSize == size && this.hash == hash && this.width == width
      ensures globalDepth == 0 && fresh(cells.Keys)
    {
      var first := new Bucket(0);
      buckets, globalDepth, bucketNum, bucketSize := [first], 0, 1, size;
      this.hash, this.width, contents, cells := hash, width, map[], map[first := Cell(0, map[])];
      new;
      assert cells - {first} == map[];
      WeightOf(cells, 0, first);
      assert EntryOk(buckets, cells, 0, hash, 0);
    }

    /** The bucket that a key's hash leads to. */
    ghost function BucketOf(key: int): Bucket
      requires Sound()
      reads this, cells.Keys
    {
      EntryFor(buckets, cells, globalDepth, hash, key)
    }

    method BucketFor(key: int) returns (b: Bucket)
      requires Sound()
      ensures b in cells && b == BucketOf(key) && SameAt(contents, b.dataMap, key) && |b.dataMap| <= bucketSize
      ensures cells[b] == CellFor(buckets, cells, globalDepth, hash, key) == Cell(b.localDepth, b.dataMap)
    {
      EntryIs(buckets, cells, globalDepth, hash, key);
      var index := Low(hash(key), globalDepth);
      b := buckets[index];
    }

    method Find(key: int) returns (found: bool, value: int)
      requires Valid()
      ensures found == (key in contents) && (found ==> value == contents[key])
    {
      var b := BucketFor(key);
      value := 0;
      found := key in b.dataMap;
      if found { value := b.dataMap[key]; }
    }

    lemma DirectoryEntry(key: int)
      requires Sound()
      ensures Low(hash(key), globalDepth) < |buckets| && buckets[Low(hash(key), globalDepth)] == BucketOf(key)
    {
      EntryIs(buckets, cells, globalDepth, hash, key);
    }

    /** Change what the bucket for a key holds under that key. */
    method SetPair(b: Bucket, key: int, data: map<int, int>, ghost m: map<int, int>)
      requires Valid() && b == BucketOf(key)
      requires b in cells && SameElsewhere(cells[b].data, data, key) && SameElsewhere(contents, m, key)
        && SameAt(data, m, key)
      requires |data| <= bucketSize
      modifies this`contents, this`cells, b`dataMap
      ensures Valid() && contents == m && cells.Keys == old(cells.Keys) && cells == SetData(old(cells), b, data)
      ensures BucketOf(key) == b
    {
      hide Finds, SameElsewhere, SameAt, EntriesOk, Low, Weight, EntryFor, CellFor, Fits, SomeDeepest, NoneOver,
        SetData, DirectoryOk, Mirrored;
      DirectoryEntry(key);
      PairKeepsDirectory(buckets, cells, globalDepth, hash, contents, b, key, data, m);
      PairKeepsSizes(cells, b, data, bucketSize, globalDepth);
      WriteData(b, data);
      contents := m;
      assert Fits(hash, width) && Mirrored();
      assert DirectoryOk(buckets, cells, globalDepth, hash);
      assert bucketNum == |cells| && NoneOver(cells, bucketSize);
      assert SomeDeepest(cells, globalDepth);
      DirectoryEntry(key);
    }

    method WriteData(b: Bucket, data: map<int, int>)
      requires Mirrored() && b in cells
      modifies this`cells, b`dataMap
      ensures Mirrored() && cells == SetData(old(cells), b, data)
    {
      b.dataMap := data;
      cells := SetData(cells, b, data);
    }

    /** Remove: true and the pair dropped if the key is there. */
    method Remove(key: int) returns (ok: bool)
      requires Valid()
      modifies this`contents, this`cells, cells.Keys
      ensures Valid() && ok == (key in old(contents)) && contents == old(contents) - {key}
      ensures cells.Keys == old(cells.Keys)
    {
      hide DirectoryOk, Low;
      var b := BucketFor(key);
      if key !in b.dataMap {
        assert contents - {key} == contents;
        return false;
      }
      Smaller(b.dataMap, key);
      SetPair(b, key, b.dataMap - {key}, contents - {key});
      return true;
    }

    // ----- insertion -----

    /** Move the pairs with bit d of their hash from one bucket to another, empty one. */
    method MoveByBit(cur: Bucket, fresh': Bucket, d: nat)
      requires cur != fresh' && fresh'.dataMap == map[]
      modifies cur`dataMap, fresh'`dataMap
      ensures cur.dataMap == WithBit(old(cur.dataMap), hash, d, false)
      ensures fresh'.dataMap == WithBit(old(cur.dataMap), hash, d, true)
    {
      ghost var data := cur.dataMap;
      MoveEnds(data, hash, d);
      var todo := cur.dataMap.Keys;
      while todo != {}
        invariant todo <= data.Keys && cur.dataMap == Kept(data, hash, d, todo)
          && fresh'.dataMap == Given(data, hash, d, todo)
      {
        ghost var some := AnyOf(todo);
        assert some in todo;
        var k :| k in todo;
        MoveNext(data, hash, d, todo, k);
        if Bit(hash(k), d) {
          fresh'.dataMap := fresh'.dataMap[k := cur.dataMap[k]];
          cur.dataMap := cur.dataMap - {k};
        }
        todo := todo - {k};
      }
    }

    /** Entries that led to cur and have bit d now lead to the new bucket. */
    method Relabel(cur: Bucket, fresh': Bucket, d: nat)
      modifies this`buckets
      ensures Relabelled(old(buckets), buckets, |old(buckets)|, d, cur, fresh')
    {
      hide Bit;
      for i := 0 to |buckets|
        invariant Relabelled(old(buckets), buckets, i, d, cur, fresh')
      {
        if buckets[i] == cur && Bit(i, d) {
          buckets := buckets[i := fresh'];
        }
      }
    }

    /** Append a copy of the directory to itself. */
    method DoubleDirectory(ghost key: int)
      requires Sound()
      modifies this`buckets, this`globalDepth
      ensures Sound() && globalDepth == old(globalDepth) + 1 && BucketOf(key) == old(BucketOf(key))
    {
      hide Finds, Low, CellFor, EntryFor, Weight, Mirrored, Fits, NoneOver, EntriesOk;
      DoubleKeepsPairs(buckets, cells, globalDepth, hash, contents);
      DoubleSameEntry(buckets, cells, globalDepth, hash, contents, key);
      var length := |buckets|;
      for i := 0 to length
        invariant globalDepth == old(globalDepth) && buckets == old(buckets) + old(buckets)[..i]
      {
        buckets := buckets + [buckets[i]];
      }
      assert buckets == old(buckets) + old(buckets);
      globalDepth := globalDepth + 1;
    }

    /** Give a bucket one more bit, and move the pairs and entries with that bit to a new bucket. */
    method Divide(cur: Bucket) returns (fresh': Bucket)
      requires Mirrored() && cur in cells
      modifies this`buckets, this`bucketNum, this`cells, cur
      ensures fresh(fresh') && Mirrored() && bucketNum == old(bucketNum) + 1
      ensures cells == SplitCells(old(cells), hash, cur, fresh')
      ensures Relabelled(old(buckets), buckets, |old(buckets)|, old(cells)[cur].depth, cur, fresh')
    {
      hide Bit, Relabelled, WithBit, SplitCells;
      var mask := cur.localDepth;
      cur.localDepth := cur.localDepth + 1;
      bucketNum := bucketNum + 1;
      fresh' := new Bucket(cur.localDepth);
      MoveByBit(cur, fresh', mask);
      Relabel(cur, fresh', mask);
      SplitCellsAre(cells, hash, cur, fresh');
      cells := SplitCells(cells, hash, cur, fresh');
    }

    /** All buckets from before but one are as they were. */
    ghost predicate SameOthers(was: map<Bucket, Cell>, b: Bucket)
      reads this`cells
    {
      forall x :: x in was && x != b ==> x in cells && cells[x] == was[x]
    }

    /** Split the full bucket that a key's hash leads to; if it is as deep as the directory, that has to grow first. */
    method SplitBucket(cur: Bucket, ghost key: int)
      requires Valid() && BucketOf(key) == cur && cur in cells
      modifies this`buckets, this`globalDepth, this`bucketNum, this`cells, cur
      ensures Valid() && forall b :: b in cells ==> b in old(cells) || fresh(b)
      ensures BucketOf(key).localDepth == old(cur.localDepth) + 1 && (BucketOf(key) == cur || fresh(BucketOf(key)))
      ensures bucketNum == old(bucketNum) + 1 && SameOthers(old(cells), cur)
      ensures globalDepth == Max(old(globalDepth), old(cur.localDepth) + 1)
    {
      hide Finds, Low, CellFor, EntriesOk, Bit, Weight, Relabelled, WithBit, NoneOver, SomeDeepest, Fits,
        SplitCells, EntryFor;
      DepthWithin(cur);
      if cur.localDepth + 1 > globalDepth {
        DoubleDirectory(key);
      }
      ghost var dir, was := buckets, cells;
      var fresh' := Divide(cur);
      SplitCellsAre(was, hash, cur, fresh');
      AfterSplit(dir, was, globalDepth, hash, buckets, cur, fresh', contents, key, bucketSize);
    }

    lemma DepthWithin(b: Bucket)
      requires Sound() && b in cells
      ensures b.localDepth <= globalDepth
    {
    }

    /** One pass of the loop of Insert. */
    method Round(key: int, value: int) returns (done: bool)
      requires Valid()
      modifies this, cells.Keys
      ensures Valid() && forall b :: b in cells ==> b in old(cells) || fresh(b)
      ensures done == old(key in contents || |BucketOf(key).dataMap| < bucketSize)
      ensures contents == if done && key !in old(contents) then old(contents)[key := value] else old(contents)
      ensures !done ==>
        && BucketOf(key).localDepth == old(BucketOf(key).localDepth) + 1
        && (BucketOf(key) == old(BucketOf(key)) || fresh(BucketOf(key)))
        && bucketNum == old(bucketNum) + 1
        && globalDepth == Max(old(globalDepth), BucketOf(key).localDepth)
      ensures done ==>
        && BucketOf(key) == old(BucketOf(key)) && BucketOf(key).localDepth == old(BucketOf(key).localDepth)
        && buckets == old(buckets) && cells.Keys == old(cells.Keys)
        && bucketNum == old(bucketNum) && globalDepth == old(globalDepth)
      ensures SameOthers(old(cells), old(BucketOf(key)))
    {
      hide Finds, Low, Weight, EntryFor, CellFor, EntriesOk, Fits, NoneOver, SomeDeepest, Mirrored;
      var cur := BucketFor(key);
      if key in cur.dataMap {
        return true;
      }
      if |cur.dataMap| < bucketSize {
        SetPair(cur, key, cur.dataMap[key := value], contents[key := value]);
        return true;
      }
      SplitBucket(cur, key);
      return false;
    }

    /**
     * Insert: an absent key is added, a present key keeps its value.  The loop ends because the bucket for the key
     * gets one bit deeper each time round.  It gets just as deep as needed: no bucket is split that is not full, no other
     * bucket changes, and the directory grows only for it.
     */
    method Insert(key: int, value: int)
      requires Valid() && HasRoom(contents, hash, key, bucketSize)
      modifies this, cells.Keys
      ensures Valid() && contents == if key in old(contents) then old(contents) else old(contents)[key := value]
      ensures forall b :: b in cells ==> b in old(cells) || fresh(b)
      ensures
        var d0, d := old(BucketOf(key).localDepth), BucketOf(key).localDepth;
        && Needed(old(contents), hash, key, bucketSize, d0, d)
        && (key in old(contents) || |Agreeing(old(contents), hash, key, d)| < bucketSize)
        && bucketNum == old(bucketNum) + (d - d0) && globalDepth == Max(old(globalDepth), d)
        && (d == d0 ==> buckets == old(buckets) && cells.Keys == old(cells.Keys))
      ensures SameOthers(old(cells), old(BucketOf(key)))
    {
      hide DirectoryOk, Low, Weight, EntryFor, CellFor, HasRoom, Agreeing, Sound;
      var done := false;
      ghost var d0 := BucketOf(key).localDepth;
      DepthWithin(BucketOf(key));
      while !done
        invariant Valid() && forall b :: b in cells ==> b in old(cells) || fresh(b)
        invariant BucketOf(key) == old(BucketOf(key)) || BucketOf(key) !in old(cells)
        invariant Needed(old(contents), hash, key, bucketSize, d0, BucketOf(key).localDepth)
        invariant done ==>
          key in old(contents) || |Agreeing(old(contents), hash, key, BucketOf(key).localDepth)| < bucketSize
        invariant bucketNum == old(bucketNum) + (BucketOf(key).localDepth - d0)
        invariant globalDepth == Max(old(globalDepth), BucketOf(key).localDepth)
        invariant BucketOf(key).localDepth == d0 ==> buckets == old(buckets) && cells.Keys == old(cells.Keys)
        invariant SameOthers(old(cells), old(BucketOf(key)))
        invariant contents == if done && key !in old(contents) then old(contents)[key := value] else old(contents)
        decreases !done, width - BucketOf(key).localDepth
      {
        RoomToSplit(key);
        BucketIs(key);
        done := Round(key, value);
      }
    }

    lemma BucketIs(key: int)
      requires Sound()
      ensures |BucketOf(key).dataMap| == |Agreeing(contents, hash, key, BucketOf(key).localDepth)| && BucketOf(key) in cells
      ensures key in BucketOf(key).dataMap <==> key in contents
    {
      BucketHolds(buckets, cells, globalDepth, hash, contents, key);
    }

    lemma RoomToSplit(key: int)
      requires Valid() && HasRoom(contents, hash, key, bucketSize)
      ensures key in contents || |BucketOf(key).dataMap| < bucketSize || BucketOf(key).localDepth < width
    {
      if key !in contents && |BucketOf(key).dataMap| >= bucketSize {
        FullBucketSplits(buckets, cells, globalDepth, hash, contents, key, bucketSize, width);
      }
    }

    /**
     * At most `rounds` passes of the loop of Insert.  With room for the key, width + 1 passes are enough; without,
     * no number of them is.
     */
    method InsertFor(key: int, value: int, rounds: nat) returns (done: bool)
      requires Valid()
      modifies this, cells.Keys
      ensures Valid() && contents == if done && key !in old(contents) then old(contents)[key := value] else old(contents)
      ensures forall b :: b in cells ==> b in old(cells) || fresh(b)
      ensures HasRoom(old(contents), hash, key, bucketSize) && rounds > width ==> done
      ensures !HasRoom(old(contents), hash, key, bucketSize) ==> !done
    {
      hide DirectoryOk, Low, Weight, EntryFor, CellFor, HasRoom;
      done := false;
      var i := 0;
      while i < rounds && !done
        invariant Valid() && (forall b :: b in cells ==> b in old(cells) || fresh(b))
        invariant contents == if done && key !in old(contents) then old(contents)[key := value] else old(contents)
        invariant !done && HasRoom(old(contents), hash, key, bucketSize) ==>
          i <= BucketOf(key).localDepth && (i > 0 ==> BucketOf(key).localDepth <= width)
        invariant !HasRoom(old(contents), hash, key, bucketSize) ==> !done
      {
        if HasRoom(contents, hash, key, bucketSize) {
          RoomToSplit(key);
        } else {
          NoRoom(key);
        }
        done := Round(key, value);
        i := i + 1;
      }
    }

    lemma NoRoom(key: int)
      requires Valid() && !HasRoom(contents, hash, key, bucketSize)
      ensures key !in contents && |BucketOf(key).dataMap| >= bucketSize
    {
      NoRoomMeansFull(buckets, cells, globalDepth, hash, contents, key, bucketSize);
    }
  }

  /** In a new table whose buckets hold nothing no number of passes is enough: there is no room for any key. */
  method NeverRoom(hash: int -> nat, ghost width: nat, key: int, value: int, rounds: nat) returns (done: bool)
    requires Fits(hash, width)
    ensures !done
  {
    var table := new ExtendibleHash(0, hash, width);
    NoRoomInNothing(hash, key);
    done := table.InsertFor(key, value, rounds);
  }

  lemma NoRoomInNothing(hash: int -> nat, key: int)
    ensures !HasRoom(map[], hash, key, 0)
  {
  }

  // ----- runs -----

  datatype Op = Put(key: int, value: int) | Del(key: int) | Get(key: int)

  datatype Outcome = Inserted | Removed(ok: bool) | Found(value: Option<int>)

  function After(m: map<int, int>, op: Op): map<int, int> {
    match op
    case Put(k, v) => if k in m then m else m[k := v]
    case Del(k) => m - {k}
    case Get(_) => m
  }

  function Answer(m: map<int, int>, op: Op): Outcome {
    match op
    case Put(_, _) => Inserted
    case Del(k) => Removed(k in m)
    case Get(k) => Found(if k in m then Some(m[k]) else None)
  }

  function Final(m: map<int, int>, ops: seq<Op>): map<int, int> {
    if ops == [] then m else After(Final(m, ops[..|ops| - 1]), ops[|ops| - 1])
  }

  /** Each insertion finds room when its turn comes; without that its loop does not end. */
  ghost predicate Ends(m: map<int, int>, hash: int -> nat, bucketSize: nat, ops: seq<Op>) {
    forall i {:trigger ops[i]} :: 0 <= i < |ops| && ops[i].Put? ==> HasRoom(Final(m, ops[..i]), hash, ops[i].key, bucketSize)
  }

  method Step(table: ExtendibleHash, op: Op) returns (out: Outcome)
    requires table.Valid() && (op.Put? ==> HasRoom(table.contents, table.hash, op.key, table.bucketSize))
    modifies table, table.cells.Keys
    ensures table.Valid() && forall b :: b in table.cells ==> b in old(table.cells) || fresh(b)
    ensures out == Answer(old(table.contents), op) && table.contents == After(old(table.contents), op)
  {
    hide ExtendibleHash.Sound;
    match op
    case Put(k, v) =>
      table.Insert(k, v);
      out := Inserted;
    case Del(k) =>
      var ok := table.Remove(k);
      out := Removed(ok);
    case Get(k) =>
      var found, value := table.Find(k);
      out := Found(if found then Some(value) else None);
  }

  /** Every run of insertions, removals and lookups answers as a finite map does. */
  method Run(table: ExtendibleHash, ops: seq<Op>) returns (outs: seq<Outcome>)
    requires table.Valid() && Ends(table.contents, table.hash, table.bucketSize, ops)
    modifies table, table.cells.Keys
    ensures table.Valid() && table.contents == Final(old(table.contents), ops)
    ensures |outs| == |ops|
    ensures forall i :: 0 <= i < |ops| ==> outs[i] == Answer(Final(old(table.contents), ops[..i]), ops[i])
  {
    hide ExtendibleHash.Valid, After, Answer, HasRoom;
    outs := [];
    ghost var m := table.contents;
    for i := 0 to |ops|
      invariant table.Valid() && forall b :: b in table.cells ==> b in old(table.cells) || fresh(b)
      invariant |outs| == i && table.contents == Final(m, ops[..i])
      invariant forall j :: 0 <= j < i ==> outs[j] == Answer(Final(m, ops[..j]), ops[j])
    {
      assert ops[..i + 1][..i] == ops[..i];
      var out := Step(table, ops[i]);
      outs := outs + [out];
    }
    assert ops[..|ops|] == ops;
  }
}
