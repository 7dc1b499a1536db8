/** The byte buffer of one tree page: a header and an array of slots that is changed in place. */
module BPlusTreePages {
  import opened Common
  import opened TreeModel

  class BPlusTreePage {
    var isLeaf: bool
    var size: int
    var maxSize: int
    var parentId: int
    var pageId: int
    var nextId: int
    const slots: array<Entry>

    ghost predicate Valid()
      reads this
    {
      0 <= size <= slots.Length && maxSize < slots.Length
    }

    /** What the page holds.  Only leaf pages have a sibling link, and slots at size_ and beyond do not count. */
    ghost function View(): Node
      requires Valid()
      reads this, slots
    {
      Node(isLeaf, maxSize, parentId, if isLeaf then nextId else INVALID_PAGE_ID, slots[..size])
    }

    /** The page n, read into a buffer with room for slotCount entries; the slots behind its size are zero. */
    constructor (id: int, n: Node, slotCount: nat)
      requires |n.entries| <= slotCount && n.max < slotCount && (n.leaf || n.next == INVALID_PAGE_ID)
      ensures Valid() && fresh(slots) && slots.Length == slotCount && pageId == id && View() == n
      ensures forall i :: |n.entries| <= i < slotCount ==> slots[i] == Entry(0, 0)
    {
      isLeaf, size, maxSize, parentId, pageId, nextId := n.leaf, |n.entries|, n.max, n.parent, id, n.next;
      slots := new Entry[slotCount](i => if 0 <= i < |n.entries| then n.entries[i] else Entry(0, 0));
    }

    method InitLeaf(parent: int, max: int)
      requires Valid() && max < slots.Length
      modifies this
      ensures Valid() && View() == Node(true, max, parent, INVALID_PAGE_ID, []) && pageId == old(pageId)
    {
      isLeaf, size, parentId, nextId, maxSize := true, 0, parent, INVALID_PAGE_ID, max;
    }

    method InitInner(parent: int, max: int)
      requires Valid() && max < slots.Length
      modifies this
      ensures Valid() && View() == Node(false, max, parent, INVALID_PAGE_ID, []) && pageId == old(pageId)
    {
      isLeaf, size, parentId, maxSize := false, 0, parent, max;
    }

    // ----- searching -----

    /** Leaf: the first slot whose key is not below `key`, by binary search. */
    method KeyIndex(key: int) returns (r: nat)
      requires Valid() && SortedFrom(View().entries, 0)
      ensures r == LowerBound(View().entries, key)
    {
      ghost var es := View().entries;
      var begin, end := 0, size - 1;
      while begin <= end
        invariant 0 <= begin <= end + 1 <= size
        invariant forall i :: 0 <= i < begin ==> slots[i].key < key
        invariant forall i :: end < i < size ==> key <= slots[i].key
      {
        var mid := (end - begin) / 2 + begin;
        if slots[mid].key >= key {
          forall i | mid <= i < size ensures key <= slots[i].key {
            assert es[mid] == slots[mid] && es[i] == slots[i];
          }
          end := mid - 1;
        } else {
          forall i | 0 <= i <= mid ensures slots[i].key < key {
            assert es[mid] == slots[mid] && es[i] == slots[i];
          }
          begin := mid + 1;
        }
      }
      r := end + 1;
      assert forall i :: 0 <= i < size ==> es[i] == slots[i];
      LowerBoundUnique(es, key, r);
    }

    /** Leaf: the value stored under `key`. */
    method Lookup(key: int) returns (found: bool, value: int)
      requires Valid() && SortedFrom(View().entries, 0)
      ensures found == HasKey(View().entries, key)
      ensures found ==> value == View().entries[LowerBound(View().entries, key)].val
    {
      value := 0;
      var index := KeyIndex(key);
      found := index < size && slots[index].key == key;
      if found { value := slots[index].val; }
    }

    /** Internal: the child whose interval contains `key`, by binary search from slot 1; slot 0's key is not read. */
    method LookupChild(key: int) returns (child: int, ghost i: nat)
      requires Valid() && size > 1 && SortedFrom(View().entries, 1)
      ensures i < |View().entries| && child == View().entries[i].val
      ensures i > 0 ==> View().entries[i].key <= key
      ensures i + 1 < |View().entries| ==> key < View().entries[i + 1].key
      ensures forall j | 0 <= j < |View().entries| && (j > 0 ==> View().entries[j].key <= key) &&
          (j + 1 < |View().entries| ==> key < View().entries[j + 1].key) :: child == View().entries[j].val
    {
      ghost var es := View().entries;
      var begin, end := 1, size - 1;
      while begin <= end
        invariant 1 <= begin <= end + 1 <= size
        invariant begin > 1 ==> slots[begin - 1].key <= key
        invariant end + 1 < size ==> key < slots[end + 1].key
      {
        var mid := (end - begin) / 2 + begin;
        if slots[mid].key <= key { begin := mid + 1; } else { end := mid - 1; }
      }
      child, i := slots[begin - 1].val, begin - 1;
    }

    /** Internal: the slot of a child. */
    method ValueIndexOf(value: int) returns (r: int)
      requires Valid()
      ensures r == ValueIndex(View().entries, value)
    {
      ghost var es := View().entries;
      for index := 0 to size
        invariant forall j :: 0 <= j < index ==> slots[j].val != value
      {
        if slots[index].val == value {
          assert forall j :: 0 <= j < size ==> es[j] == slots[j];
          return index;
        }
      }
      assert forall j :: 0 <= j < size ==> es[j] == slots[j];
      return -1;
    }

    // ----- changing one page -----

    /** Slots index.. move up by one, from the back, and slot `index` receives e. */
    method InsertAt(index: nat, e: Entry)
      requires Valid() && index <= size < slots.Length
      modifies this`size, slots
      ensures Valid()
      ensures View() == old(View()).(entries := PairAt(old(View().entries), index, e))
    {
      ghost var es := slots[..size];
      size := size + 1;
      var i := size - 1;
      while i > index
        invariant size == old(size) + 1 && index <= i < size
        invariant forall j :: 0 <= j < size && (j > i || j < size - 1) ==> slots[j] == es[if j > i then j - 1 else j]
      {
        slots[i] := slots[i - 1];
        i := i - 1;
      }
      slots[index] := e;
      assert slots[..size] == PairAt(es, index, e);
    }

    /** Leaf: insert in key order.  The caller has checked that the key is not there. */
    method Insert(key: int, value: int) returns (newSize: int)
      requires Valid() && SortedFrom(View().entries, 0) && size < slots.Length
      modifies this`size, slots
      ensures Valid() && newSize == size
      ensures View() == old(View()).(entries := InsertSorted(old(View().entries), Entry(key, value)))
    {
      var index := KeyIndex(key);
      InsertAt(index, Entry(key, value));
      newSize := size;
    }

    /** Internal: the pair goes right behind the slot of `oldValue`. */
    method InsertNodeAfter(oldValue: int, key: int, value: int) returns (newSize: int)
      requires Valid() && size < slots.Length
      modifies this`size, slots
      ensures Valid() && newSize == size
      ensures View() ==
        var es := old(View().entries);
        old(View()).(entries := PairAt(es, ValueIndex(es, oldValue) + 1, Entry(key, value)))
    {
      var index := ValueIndexOf(oldValue);
      InsertAt(index + 1, Entry(key, value));
      newSize := size;
    }

    /** Slots behind `index` move down by one. */
    method RemoveAt(index: nat)
      requires Valid() && index < size
      modifies this`size, slots
      ensures Valid()
      ensures View() == old(View()).(entries := Without(old(View().entries), index))
    {
      ghost var es := slots[..size];
      for i := index + 1 to size
        invariant size == old(size)
        invariant forall j :: 0 <= j < size ==> slots[j] == es[if index <= j < i - 1 then j + 1 else j]
      {
        slots[i - 1] := slots[i];
      }
      size := size - 1;
      assert slots[..size] == Without(es, index);
    }

    /** Leaf: drop the pair with this key, if it is there. */
    method RemoveAndDeleteRecord(key: int) returns (newSize: int)
      requires Valid() && SortedFrom(View().entries, 0)
      modifies this`size, slots
      ensures Valid() && newSize == size
      ensures
        var es := old(View().entries);
        View() == if HasKey(es, key) then old(View()).(entries := Without(es, LowerBound(es, key))) else old(View())
    {
      var target := KeyIndex(key);
      if target >= size || key != slots[target].key {
        return size;
      }
      RemoveAt(target);
      return size;
    }

    /** Internal: the two pairs of a new root.  The key of slot 0 stays whatever the page holds there. */
    method PopulateNewRoot(oldValue: int, newKey: int, newValue: int)
      requires Valid() && slots.Length >= 2
      modifies this`size, slots
      ensures Valid()
      ensures View() ==
        old(View()).(entries := [Entry(old(slots[0].key), oldValue), Entry(newKey, newValue)])
    {
      slots[0] := Entry(slots[0].key, oldValue);
      slots[1] := Entry(newKey, newValue);
      size := 2;
    }

    method SetKeyAt(index: nat, key: int)
      requires Valid() && index < size
      modifies slots
      ensures Valid()
      ensures View() == old(View()).(entries := old(View().entries)[index := Entry(key, old(View().entries)[index].val)])
    {
      slots[index] := Entry(key, slots[index].val);
    }

    method SetParentPageId(parent: int)
      requires Valid()
      modifies this`parentId
      ensures Valid() && View() == old(View()).(parent := parent)
    {
      parentId := parent;
    }

    /** Set size_ and, on a leaf, next_page_id_. */
    method SetSizeAndNext(newSize: nat, next: int)
      requires Valid() && newSize <= slots.Length
      modifies this`size, this`nextId
      ensures Valid()
      ensures View() == old(View()).(entries := slots[..newSize], next := if isLeaf then next else INVALID_PAGE_ID)
    {
      size := newSize;
      if isLeaf { nextId := next; }
    }

    method CopyLastFrom(e: Entry)
      requires Valid() && size < slots.Length
      modifies this`size, slots
      ensures Valid() && View() == old(View()).(entries := old(View().entries) + [e])
    {
      slots[size] := e;
      size := size + 1;
    }

    /** Room for one more pair at the front. */
    method CopyFirst(e: Entry)
      requires Valid() && size < slots.Length
      modifies this`size, slots
      ensures Valid() && View() == old(View()).(entries := [e] + old(View().entries))
    {
      forall i | 0 <= i < size { slots[i + 1] := slots[i]; }
      size := size + 1;
      slots[0] := e;
    }

    method DropFirst()
      requires Valid() && size > 0
      modifies this`size, slots
      ensures Valid() && View() == old(View()).(entries := old(View().entries)[1..])
    {
      size := size - 1;
      forall i | 0 <= i < size { slots[i] := slots[i + 1]; }
    }

    method DropLast()
      requires Valid() && size > 0
      modifies this`size
      ensures Valid() && View() == old(View()).(entries := old(View().entries)[..|old(View().entries)| - 1])
    {
      size := size - 1;
    }
  }
}
